/**
 * Machine types shared by every crate: bytes, the unsigned integer widths
 * the Rust code uses, 16-byte IPv6 addresses in network byte order, and the
 * big-endian `u16` conversions (`u16::from_be_bytes`, and the `{x:04x}`
 * hexadecimal group of the Python encoder).
 */
module Octets {

  type Byte = bv8

  type U8 = n: int | 0 <= n < 0x100

  type U16 = n: int | 0 <= n < 0x1_0000

  /** An IPv6 address as its 16 octets, most significant first. */
  type Address = s: seq<Byte> | |s| == 16
    witness [0, 0, 0, 0, 0, 0, 0, 0, 0, 0, 0, 0, 0, 0, 0, 0]

  /** `u16::from_be_bytes([hi, lo])`. */
  function BeU16(hi: Byte, lo: Byte): (v: U16)
    ensures v / 0x100 == hi as int && v % 0x100 == lo as int
  {
    hi as int * 0x100 + lo as int
  }

  /** The two octets of a 16-bit value, most significant first. */
  function U16Bytes(v: U16): (bs: (Byte, Byte))
    ensures BeU16(bs.0, bs.1) == v
  {
    ToByteValue(v / 0x100);
    ToByteValue(v % 0x100);
    (ToByte(v / 0x100), ToByte(v % 0x100))
  }

  /**
   * `n as u8` for a value that fits: the octet counted up from zero. This
   * stands for the cast `n as bv8`, whose integer-to-bit-vector conversion
   * makes the solver's work large and unstable across seeds; the lemmas
   * below prove it is that cast.
   */
  function ToByte(n: U8): Byte
    decreases n
  {
    if n == 0 then 0 else ToByte(n - 1) + 1
  }

  /** The octet `ToByte` builds has the value it was built from. */
  lemma {:induction false} ToByteValue(n: U8)
    ensures ToByte(n) as int == n
    decreases n
  {
    if n > 0 {
      ToByteValue(n - 1);
      ByteSucc(ToByte(n - 1));
    }
  }

  lemma ByteSucc(b: Byte)
    requires b as int < 0xFF
    ensures (b + 1) as int == b as int + 1
  {
  }

  /** Every octet is the one `ToByte` builds from its value. */
  lemma ToByteOfValue(b: Byte)
    ensures ToByte(b as int) == b
  {
    ToByteValue(b as int);
    ByteInjective(ToByte(b as int), b);
  }

  lemma ByteInjective(a: Byte, b: Byte)
    requires a as int == b as int
    ensures a == b
  {
  }

  lemma BeU16RoundTrip(hi: Byte, lo: Byte)
    ensures U16Bytes(BeU16(hi, lo)) == (hi, lo)
  {
    ToByteOfValue(hi);
    ToByteOfValue(lo);
  }
}
