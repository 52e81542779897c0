/**
 * `scripts/send_ping_event.py`: the test client that builds the 32-byte
 * records the eBPF listener is meant to emit for a ping to a "pixel
 * address", and sends them to the service over TCP.
 *
 * The destination address is `2001:0db8:85a3:XXXX:YYYY:00RR:00GG:00BB`:
 * octets 6..8 are `x`, 8..10 are `y`, and the low octets of the last three
 * groups are the colour. The source is the fixed `SRC_ADDR`.
 */
module SendPingEvent {
  import opened Wrappers
  import opened Octets
  import opened PingEvents

  /** `SRC_ADDR`, `2001:0db8:85a3:0000:0000:8a2e:0370:7334`, as octets. */
  const SrcAddr: Address :=
    [0x20, 0x01, 0x0d, 0xb8, 0x85, 0xa3, 0x00, 0x00, 0x00, 0x00, 0x8a, 0x2e, 0x03, 0x70, 0x73, 0x34]

  /**
   * `create_ping_event`: the source octets, then the destination octets, in
   * the layout `PingEvent::as_bytes` gives.
   */
  method CreatePingEvent(src: Address, dst: Address) returns (event: seq<Byte>)
    ensures |event| == EventSize
    ensures event == AsBytes(New(src, dst))
  {
    event := [];
    event := event + src;
    event := event + dst;
  }

  /** The hexadecimal fields of the pixel address fit: 4 digits for `x` and `y`, 2 for each channel. */
  predicate PixelInRange(x: int, y: int, r: int, g: int, b: int)
  {
    0 <= x < 0x1_0000 && 0 <= y < 0x1_0000 && 0 <= r < 0x100 && 0 <= g < 0x100 && 0 <= b < 0x100
  }

  /** The destination address of `create_pixel_ping` for fields that fit. */
  function PixelDestination(x: U16, y: U16, r: U8, g: U8, b: U8): (dst: Address)
    ensures dst[..6] == SrcAddr[..6]
    ensures BeU16(dst[6], dst[7]) == x && BeU16(dst[8], dst[9]) == y
    ensures dst[10] == 0 && dst[12] == 0 && dst[14] == 0
    ensures dst[11] as int == r && dst[13] as int == g && dst[15] as int == b
  {
    var xs, ys := U16Bytes(x), U16Bytes(y);
    ToByteValue(r);
    ToByteValue(g);
    ToByteValue(b);
    [0x20, 0x01, 0x0d, 0xb8, 0x85, 0xa3, xs.0, xs.1, ys.0, ys.1, 0, ToByte(r), 0, ToByte(g), 0, ToByte(b)]
  }

  /**
   * `create_pixel_ping`: the record for a ping from `SRC_ADDR` to the pixel
   * address, or `None` where a field is negative or too wide for its hex
   * digits, which makes the address text invalid and `inet_pton` raise.
   */
  function CreatePixelPing(x: int, y: int, r: int, g: int, b: int): (event: Option<EventBytes>)
    ensures event.Some? <==> PixelInRange(x, y, r, g, b)
    ensures event.Some? ==> event.value == AsBytes(New(SrcAddr, PixelDestination(x, y, r, g, b)))
  {
    if PixelInRange(x, y, r, g, b) then Some(SrcAddr + PixelDestination(x, y, r, g, b)) else None
  }
}
