/**
 * An IPv6 prefix (`address/prefix-length`, the notation of section 2.3 of
 * RFC 4291), its 17-byte serialisation shared with the eBPF program, and
 * `Ipv6Prefix::matches`, the first-N-bits comparison the listener is meant
 * to use to decide whether a destination address belongs to the canvas (in
 * this revision the XDP program passes every packet and only the tests call
 * it).
 */
module Prefix {
  import opened Octets
  import opened Wrappers

  datatype Ipv6Prefix = Ipv6Prefix(address: Address, prefixLen: U8)

  /** A `[u8; 17]` buffer. */
  type PrefixBytes = s: seq<Byte> | |s| == 17
    witness [0, 0, 0, 0, 0, 0, 0, 0, 0, 0, 0, 0, 0, 0, 0, 0, 0]

  /** `From<Ipv6Prefix> for [u8; 17]`: the address, then the length octet. */
  function ToBytes(p: Ipv6Prefix): (b: PrefixBytes)
    ensures b[..16] == p.address && b[16] as int == p.prefixLen
  {
    ToByteValue(p.prefixLen);
    p.address + [ToByte(p.prefixLen)]
  }

  /** `From<[u8; 17]> for Ipv6Prefix`: it inverts ToBytes. */
  function FromBytes(b: PrefixBytes): (p: Ipv6Prefix)
    ensures ToBytes(p) == b
  {
    var p := Ipv6Prefix(b[..16], b[16] as int);
    assert ToBytes(p)[16] == b[16] by { ToByteOfValue(b[16]); }
    assert ToBytes(p) == b[..16] + [b[16]];
    p
  }

  lemma FromBytesToBytes(p: Ipv6Prefix)
    ensures FromBytes(ToBytes(p)) == p
  {
  }

  /**
   * `From<(Ipv6Addr, u8)> for Ipv6Prefix`: the length is stored as given,
   * with no check that it is at most 128.
   */
  function FromPair(address: Address, len: U8): (p: Ipv6Prefix)
    ensures p.address == address && p.prefixLen == len
  {
    Ipv6Prefix(address, len)
  }

  /** Bit `j` of an octet, most significant first (bit 0 is 0x80). */
  function Bit(b: Byte, j: nat): bool
    requires j < 8
  {
    if j == 0 then b & 0x80 != 0
    else if j == 1 then b & 0x40 != 0
    else if j == 2 then b & 0x20 != 0
    else if j == 3 then b & 0x10 != 0
    else if j == 4 then b & 0x08 != 0
    else if j == 5 then b & 0x04 != 0
    else if j == 6 then b & 0x02 != 0
    else b & 0x01 != 0
  }

  /** Bit `i` of an address in network order: bit 0 is the top bit of octet 0. */
  function AddressBit(a: Address, i: nat): bool
    requires i < 128
  {
    Bit(a[i / 8], i % 8)
  }

  /** The first `n` bits of `a` and `b` are equal. */
  ghost predicate SamePrefix(a: Address, b: Address, n: nat)
    requires n <= 128
  {
    forall i :: 0 <= i < n ==> AddressBit(a, i) == AddressBit(b, i)
  }

  /**
   * `a` lies in the prefix `p`: its first `prefixLen` bits are those of the
   * prefix address. A length above 128 compares the whole address.
   */
  ghost predicate Covers(p: Ipv6Prefix, a: Address)
  {
    SamePrefix(p.address, a, Min(p.prefixLen, 128))
  }

  /** The mask `matches` builds for the last, partial octet: `0xFF << (8 - r)` on a `u8`. */
  function Mask(r: nat): Byte
    requires r <= 8
  {
    match r
    case 0 => 0x00 case 1 => 0x80 case 2 => 0xC0 case 3 => 0xE0 case 4 => 0xF0
    case 5 => 0xF8 case 6 => 0xFC case 7 => 0xFE case _ => 0xFF
  }

  lemma ShiftMask(r: nat)
    requires r <= 8
    ensures (0xFF as Byte) << (8 - r) == Mask(r)
  {
  }

  /** The top `r` bits of two octets are equal. */
  ghost predicate TopBitsAgree(x: Byte, y: Byte, r: nat)
    requires r <= 8
  {
    forall j :: 0 <= j < r ==> Bit(x, j) == Bit(y, j)
  }

  /* MaskAgree case by case: for each width `r` of the partial octet, the
     literal mask compares exactly the top `r` bits. The one fact is split
     into a pure bit-vector lemma and an unfolding lemma per width, and the
     widths are dispatched in pairs, only to keep each solver query small:
     a single lemma over `Mask(r)` for every `r` is well beyond the
     resource bound and unstable across solver seeds. */
  lemma MaskedBits1(x: Byte, y: Byte)
    ensures Bit(x, 0) == Bit(y, 0) <==> x & 0x80 == y & 0x80
  {
  }

  lemma TopBits1(x: Byte, y: Byte)
    ensures TopBitsAgree(x, y, 1) <==> Bit(x, 0) == Bit(y, 0)
  {
  }

  lemma MaskedBits2(x: Byte, y: Byte)
    ensures Bit(x, 0) == Bit(y, 0) && Bit(x, 1) == Bit(y, 1) <==> x & 0xC0 == y & 0xC0
  {
  }

  lemma TopBits2(x: Byte, y: Byte)
    ensures TopBitsAgree(x, y, 2) <==> Bit(x, 0) == Bit(y, 0) && Bit(x, 1) == Bit(y, 1)
  {
  }

  lemma MaskedBits3(x: Byte, y: Byte)
    ensures Bit(x, 0) == Bit(y, 0) && Bit(x, 1) == Bit(y, 1) && Bit(x, 2) == Bit(y, 2) <==> x & 0xE0 == y & 0xE0
  {
  }

  lemma TopBits3(x: Byte, y: Byte)
    ensures TopBitsAgree(x, y, 3) <==> Bit(x, 0) == Bit(y, 0) && Bit(x, 1) == Bit(y, 1) && Bit(x, 2) == Bit(y, 2)
  {
  }

  lemma MaskedBits4(x: Byte, y: Byte)
    ensures Bit(x, 0) == Bit(y, 0) && Bit(x, 1) == Bit(y, 1) && Bit(x, 2) == Bit(y, 2) && Bit(x, 3) == Bit(y, 3) <==> x & 0xF0 == y & 0xF0
  {
  }

  lemma TopBits4(x: Byte, y: Byte)
    ensures TopBitsAgree(x, y, 4) <==> Bit(x, 0) == Bit(y, 0) && Bit(x, 1) == Bit(y, 1) && Bit(x, 2) == Bit(y, 2) && Bit(x, 3) == Bit(y, 3)
  {
  }

  lemma MaskedBits5(x: Byte, y: Byte)
    ensures Bit(x, 0) == Bit(y, 0) && Bit(x, 1) == Bit(y, 1) && Bit(x, 2) == Bit(y, 2) && Bit(x, 3) == Bit(y, 3) && Bit(x, 4) == Bit(y, 4) <==> x & 0xF8 == y & 0xF8
  {
  }

  lemma TopBits5(x: Byte, y: Byte)
    ensures TopBitsAgree(x, y, 5) <==> Bit(x, 0) == Bit(y, 0) && Bit(x, 1) == Bit(y, 1) && Bit(x, 2) == Bit(y, 2) && Bit(x, 3) == Bit(y, 3) && Bit(x, 4) == Bit(y, 4)
  {
  }

  lemma MaskedBits6(x: Byte, y: Byte)
    ensures Bit(x, 0) == Bit(y, 0) && Bit(x, 1) == Bit(y, 1) && Bit(x, 2) == Bit(y, 2) && Bit(x, 3) == Bit(y, 3) && Bit(x, 4) == Bit(y, 4) && Bit(x, 5) == Bit(y, 5) <==> x & 0xFC == y & 0xFC
  {
  }

  lemma TopBits6(x: Byte, y: Byte)
    ensures TopBitsAgree(x, y, 6) <==> Bit(x, 0) == Bit(y, 0) && Bit(x, 1) == Bit(y, 1) && Bit(x, 2) == Bit(y, 2) && Bit(x, 3) == Bit(y, 3) && Bit(x, 4) == Bit(y, 4) && Bit(x, 5) == Bit(y, 5)
  {
  }

  lemma MaskedBits7(x: Byte, y: Byte)
    ensures Bit(x, 0) == Bit(y, 0) && Bit(x, 1) == Bit(y, 1) && Bit(x, 2) == Bit(y, 2) && Bit(x, 3) == Bit(y, 3) && Bit(x, 4) == Bit(y, 4) && Bit(x, 5) == Bit(y, 5) && Bit(x, 6) == Bit(y, 6) <==> x & 0xFE == y & 0xFE
  {
  }

  lemma TopBits7(x: Byte, y: Byte)
    ensures TopBitsAgree(x, y, 7) <==> Bit(x, 0) == Bit(y, 0) && Bit(x, 1) == Bit(y, 1) && Bit(x, 2) == Bit(y, 2) && Bit(x, 3) == Bit(y, 3) && Bit(x, 4) == Bit(y, 4) && Bit(x, 5) == Bit(y, 5) && Bit(x, 6) == Bit(y, 6)
  {
  }

  lemma MaskedBits8(x: Byte, y: Byte)
    ensures Bit(x, 0) == Bit(y, 0) && Bit(x, 1) == Bit(y, 1) && Bit(x, 2) == Bit(y, 2) && Bit(x, 3) == Bit(y, 3) && Bit(x, 4) == Bit(y, 4) && Bit(x, 5) == Bit(y, 5) && Bit(x, 6) == Bit(y, 6) && Bit(x, 7) == Bit(y, 7) <==> x & 0xFF == y & 0xFF
  {
  }

  lemma TopBits8(x: Byte, y: Byte)
    ensures TopBitsAgree(x, y, 8) <==> Bit(x, 0) == Bit(y, 0) && Bit(x, 1) == Bit(y, 1) && Bit(x, 2) == Bit(y, 2) && Bit(x, 3) == Bit(y, 3) && Bit(x, 4) == Bit(y, 4) && Bit(x, 5) == Bit(y, 5) && Bit(x, 6) == Bit(y, 6) && Bit(x, 7) == Bit(y, 7)
  {
  }

  lemma MaskAgree01(x: Byte, y: Byte, r: nat)
    requires r == 0 || r == 1
    ensures TopBitsAgree(x, y, r) <==> x & Mask(r) == y & Mask(r)
  {
    if r == 0 {
      assert Mask(r) == 0x00;
    } else {
      assert Mask(r) == 0x80;
      MaskedBits1(x, y);
      TopBits1(x, y);
    }
  }

  lemma MaskAgree23(x: Byte, y: Byte, r: nat)
    requires r == 2 || r == 3
    ensures TopBitsAgree(x, y, r) <==> x & Mask(r) == y & Mask(r)
  {
    if r == 2 {
      assert Mask(r) == 0xC0;
      MaskedBits2(x, y);
      TopBits2(x, y);
    } else {
      assert Mask(r) == 0xE0;
      MaskedBits3(x, y);
      TopBits3(x, y);
    }
  }

  lemma MaskAgree45(x: Byte, y: Byte, r: nat)
    requires r == 4 || r == 5
    ensures TopBitsAgree(x, y, r) <==> x & Mask(r) == y & Mask(r)
  {
    if r == 4 {
      assert Mask(r) == 0xF0;
      MaskedBits4(x, y);
      TopBits4(x, y);
    } else {
      assert Mask(r) == 0xF8;
      MaskedBits5(x, y);
      TopBits5(x, y);
    }
  }

  lemma MaskAgree67(x: Byte, y: Byte, r: nat)
    requires r == 6 || r == 7
    ensures TopBitsAgree(x, y, r) <==> x & Mask(r) == y & Mask(r)
  {
    if r == 6 {
      assert Mask(r) == 0xFC;
      MaskedBits6(x, y);
      TopBits6(x, y);
    } else {
      assert Mask(r) == 0xFE;
      MaskedBits7(x, y);
      TopBits7(x, y);
    }
  }

  /** Masking with Mask(r) keeps exactly the top `r` bits. */
  lemma MaskAgree(x: Byte, y: Byte, r: nat)
    requires r <= 8
    ensures TopBitsAgree(x, y, r) <==> x & Mask(r) == y & Mask(r)
  {
    if r <= 1 {
      MaskAgree01(x, y, r);
    } else if r <= 3 {
      MaskAgree23(x, y, r);
    } else if r <= 5 {
      MaskAgree45(x, y, r);
    } else if r <= 7 {
      MaskAgree67(x, y, r);
    } else {
      MaskedBits8(x, y);
      TopBits8(x, y);
    }
  }

  /** Two octets are equal iff all eight of their bits are. */
  lemma OctetBits(x: Byte, y: Byte)
    ensures x == y <==> TopBitsAgree(x, y, 8)
  {
    MaskAgree(x, y, 8);
  }

  /** Bit 8k + j of an address is bit `j` of octet `k`. */
  lemma AddressBitOctet(a: Address, k: nat, j: nat)
    requires k < 16 && j < 8
    ensures AddressBit(a, 8 * k + j) == Bit(a[k], j)
  {
    assert (8 * k + j) / 8 == k && (8 * k + j) % 8 == j;
  }

  /** The first `n` bits agree when the octets compared by `matches` agree. */
  lemma OctetsImplySamePrefix(a: Address, b: Address, n: nat)
    requires n <= 128
    requires forall k :: 0 <= k < n / 8 ==> a[k] == b[k]
    requires n % 8 != 0 ==> a[n / 8] & Mask(n % 8) == b[n / 8] & Mask(n % 8)
    ensures SamePrefix(a, b, n)
  {
    var full, rem := n / 8, n % 8;
    if rem != 0 {
      MaskAgree(a[full], b[full], rem);
    }
    forall i | 0 <= i < n ensures AddressBit(a, i) == AddressBit(b, i) {
      var k, j := i / 8, i % 8;
      if k == full {
        assert j < rem;
      }
    }
  }

  /** The octets compared by `matches` agree when the first `n` bits do. */
  lemma SamePrefixImpliesOctets(a: Address, b: Address, n: nat)
    requires n <= 128
    requires SamePrefix(a, b, n)
    ensures forall k :: 0 <= k < n / 8 ==> a[k] == b[k]
    ensures n % 8 != 0 ==> a[n / 8] & Mask(n % 8) == b[n / 8] & Mask(n % 8)
  {
    var full, rem := n / 8, n % 8;
    forall k | 0 <= k < full ensures a[k] == b[k] {
      forall j | 0 <= j < 8 ensures Bit(a[k], j) == Bit(b[k], j) {
        AddressBitOctet(a, k, j);
        AddressBitOctet(b, k, j);
        assert AddressBit(a, 8 * k + j) == AddressBit(b, 8 * k + j);
      }
      OctetBits(a[k], b[k]);
    }
    if rem != 0 {
      forall j | 0 <= j < rem ensures Bit(a[full], j) == Bit(b[full], j) {
        AddressBitOctet(a, full, j);
        AddressBitOctet(b, full, j);
        assert AddressBit(a, 8 * full + j) == AddressBit(b, 8 * full + j);
      }
      MaskAgree(a[full], b[full], rem);
    }
  }

  /**
   * `Ipv6Prefix::matches`: compare the full octets of the prefix, then the
   * remaining top bits of the next octet under a mask. The source only
   * debug-asserts `prefix_len <= 128`; longer lengths compare all 16 octets.
   */
  method Matches(p: Ipv6Prefix, addr: Address) returns (m: bool)
    ensures m == Covers(p, addr)
  {
    var fullBytes := p.prefixLen / 8;
    var remainingBits := p.prefixLen - fullBytes * 8;
    var n := Min(p.prefixLen, 128);

    for k := 0 to 16
      invariant forall i :: 0 <= i < k && i < fullBytes ==> addr[i] == p.address[i]
    {
      if !(fullBytes <= k || addr[k] == p.address[k]) {
        if Covers(p, addr) {
          SamePrefixImpliesOctets(p.address, addr, n);
        }
        return false;
      }
    }

    var remainingMatch := true;
    if remainingBits > 0 && fullBytes < 16 {
      var mask := (0xFF as Byte) << (8 - remainingBits);
      ShiftMask(remainingBits);
      var maskedAddrByte := p.address[fullBytes] & mask;
      var maskedPrefixByte := addr[fullBytes] & mask;
      if maskedAddrByte != maskedPrefixByte {
        remainingMatch := false;
      }
    }
    if remainingMatch {
      OctetsImplySamePrefix(p.address, addr, n);
    } else if Covers(p, addr) {
      SamePrefixImpliesOctets(p.address, addr, n);
    }
    return remainingMatch;
  }

  /** A zero-length prefix covers every address. */
  lemma CoversZeroLength(p: Ipv6Prefix, a: Address)
    requires p.prefixLen == 0
    ensures Covers(p, a)
  {
  }

  /** A prefix covers its own address, whatever its length. */
  lemma CoversOwnAddress(p: Ipv6Prefix)
    ensures Covers(p, p.address)
  {
  }

  /** From 128 bits on, a prefix covers exactly its own address. */
  lemma {:induction false} CoversFullLength(p: Ipv6Prefix, a: Address)
    requires p.prefixLen >= 128
    ensures Covers(p, a) <==> a == p.address
  {
    if Covers(p, a) {
      SamePrefixImpliesOctets(p.address, a, 128);
      assert forall k :: 0 <= k < 16 ==> a[k] == p.address[k];
    }
  }

  /** Bits past the prefix length do not change which addresses are covered. */
  lemma CoversIgnoresHostBits(p: Ipv6Prefix, q: Ipv6Prefix, a: Address)
    requires p.prefixLen == q.prefixLen
    requires SamePrefix(p.address, q.address, Min(p.prefixLen, 128))
    ensures Covers(p, a) <==> Covers(q, a)
  {
  }

  /** A shorter prefix of the same address covers at least as much. */
  lemma CoversShorter(p: Ipv6Prefix, len: U8, a: Address)
    requires len <= p.prefixLen
    requires Covers(p, a)
    ensures Covers(Ipv6Prefix(p.address, len), a)
  {
  }

  /** An octet that differs before the prefix length rules an address out. */
  lemma OctetDiffers(a: Address, b: Address, n: nat, k: nat)
    requires n <= 128 && k < n / 8 && a[k] != b[k]
    ensures !SamePrefix(a, b, n)
  {
    if SamePrefix(a, b, n) {
      SamePrefixImpliesOctets(a, b, n);
    }
  }

  /** So does a partial octet that differs under the mask. */
  lemma MaskedOctetDiffers(a: Address, b: Address, n: nat)
    requires n <= 128 && n % 8 != 0
    requires a[n / 8] & Mask(n % 8) != b[n / 8] & Mask(n % 8)
    ensures !SamePrefix(a, b, n)
  {
    if SamePrefix(a, b, n) {
      SamePrefixImpliesOctets(a, b, n);
    }
  }

  // The addresses of the unit test of `matches`.
  const Doc: Address := [0x20, 0x01, 0x0d, 0xb8, 0, 0, 0, 0, 0, 0, 0, 0, 0, 0, 0, 0]
  const DocOne: Address := [0x20, 0x01, 0x0d, 0xb8, 0, 0, 0, 0, 0, 0, 0, 0, 0, 0, 0, 1]
  const DocSubnetOne: Address := [0x20, 0x01, 0x0d, 0xb8, 0, 0, 0, 1, 0, 0, 0, 0, 0, 0, 0, 1]
  const OtherOne: Address := [0x20, 0x01, 0x0d, 0xb9, 0, 0, 0, 0, 0, 0, 0, 0, 0, 0, 0, 1]
  const Doc4320: Address := [0x20, 0x01, 0x0d, 0xb8, 0, 0, 0, 0, 0, 0, 0, 0, 0, 0, 0x43, 0x20]
  const Doc4321: Address := [0x20, 0x01, 0x0d, 0xb8, 0, 0, 0, 0, 0, 0, 0, 0, 0, 0, 0x43, 0x21]
  const Doc4322: Address := [0x20, 0x01, 0x0d, 0xb8, 0, 0, 0, 0, 0, 0, 0, 0, 0, 0, 0x43, 0x22]

  /** `2001:db8::/64` covers `2001:db8::1` but not `2001:db8:0:1::1` or `2001:db9::1`. */
  lemma MatchesSlash64()
    ensures Covers(FromPair(Doc, 64), DocOne)
    ensures !Covers(FromPair(Doc, 64), DocSubnetOne)
    ensures !Covers(FromPair(Doc, 64), OtherOne)
  {
    assert Covers(FromPair(Doc, 64), DocOne) by {
      OctetsImplySamePrefix(Doc, DocOne, 64);
    }
    assert !Covers(FromPair(Doc, 64), DocSubnetOne) by {
      OctetDiffers(Doc, DocSubnetOne, 64, 7);
    }
    OctetDiffers(Doc, OtherOne, 64, 3);
  }

  /** `2001:db8::/48` covers `2001:db8::1` and `2001:db8:0:1::1` but not `2001:db9::1`. */
  lemma MatchesSlash48()
    ensures Covers(FromPair(Doc, 48), DocOne)
    ensures Covers(FromPair(Doc, 48), DocSubnetOne)
    ensures !Covers(FromPair(Doc, 48), OtherOne)
  {
    assert Covers(FromPair(Doc, 48), DocOne) by {
      OctetsImplySamePrefix(Doc, DocOne, 48);
    }
    assert Covers(FromPair(Doc, 48), DocSubnetOne) by {
      OctetsImplySamePrefix(Doc, DocSubnetOne, 48);
    }
    OctetDiffers(Doc, OtherOne, 48, 3);
  }

  /** `2001:db8::4320/127` covers `::4320` and `::4321` but not `::4322`. */
  lemma MatchesSlash127()
    ensures Covers(FromPair(Doc4320, 127), Doc4320)
    ensures Covers(FromPair(Doc4320, 127), Doc4321)
    ensures !Covers(FromPair(Doc4320, 127), Doc4322)
  {
    assert Covers(FromPair(Doc4320, 127), Doc4321) by {
      assert Mask(7) == 0xFE;
      OctetsImplySamePrefix(Doc4320, Doc4321, 127);
    }
    assert Mask(7) == 0xFE;
    MaskedOctetDiffers(Doc4320, Doc4322, 127);
  }
}
