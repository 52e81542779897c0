/**
 * What the two ping servers make of the records `send_ping_event.py`
 * builds. The standalone server of `ping/server.rs` decodes every pixel
 * ping back to the pixel it was built for. The compiled server of
 * `ping/mod.rs` agrees on the coordinates but reads the colour from the
 * source address, so every ping of the script comes out in the colour
 * spelled by the last groups of `SRC_ADDR`.
 */
module PixelPing {
  import opened Wrappers
  import opened Octets
  import opened PingEvents
  import opened Events
  import opened SendPingEvent
  import PingStandalone
  import Ping

  /** The event a pixel ping stands for. */
  function PixelEvent(x: U16, y: U16, r: U8, g: U8, b: U8): Event
  {
    PlacePixel(x, y, Color(ToByte(r), ToByte(g), ToByte(b)))
  }

  /** `handle_ping_event` inverts `create_pixel_ping`. */
  lemma PixelPingRoundTrip(x: int, y: int, r: int, g: int, b: int)
    requires PixelInRange(x, y, r, g, b)
    ensures CreatePixelPing(x, y, r, g, b).Some?
    ensures PingStandalone.HandlePingEvent(FromBytes(CreatePixelPing(x, y, r, g, b).value))
      == [PixelEvent(x, y, r, g, b)]
  {
    var dst := PixelDestination(x, y, r, g, b);
    FromBytesAsBytes(New(SrcAddr, dst));
    ToByteOfValue(dst[11]);
    ToByteOfValue(dst[13]);
    ToByteOfValue(dst[15]);
  }

  /** The compiled server keeps the coordinates but takes the colour from `SRC_ADDR`. */
  lemma CompiledPixelPing(x: int, y: int, r: int, g: int, b: int)
    requires PixelInRange(x, y, r, g, b)
    ensures CreatePixelPing(x, y, r, g, b).Some?
    ensures Ping.DecodeRecord(FromBytes(CreatePixelPing(x, y, r, g, b).value))
      == PlacePixel(x, y, Color(0x34, 0x70, 0x2e))
  {
    FromBytesAsBytes(New(SrcAddr, PixelDestination(x, y, r, g, b)));
  }

  /** The script's red ping does not come out red from the compiled server. */
  lemma CompiledRedPing()
    ensures CreatePixelPing(10, 20, 255, 0, 0).Some?
    ensures Ping.DecodeRecord(FromBytes(CreatePixelPing(10, 20, 255, 0, 0).value)).color != Color(255, 0, 0)
  {
    CompiledPixelPing(10, 20, 255, 0, 0);
  }

  /** The two servers read the coordinates alike, from the destination. */
  lemma ServersAgreeOnCoordinates(e: PingEvent)
    ensures Ping.DecodeRecord(e).x == PingStandalone.HandlePingEvent(e)[0].x
    ensures Ping.DecodeRecord(e).y == PingStandalone.HandlePingEvent(e)[0].y
  {
  }

  /**
   * The two servers decode a record to the same event exactly when the
   * source octets 15, 13, 11 mirror the destination octets 11, 13, 15.
   */
  lemma ServersAgreeIff(e: PingEvent)
    ensures var src, dst := e.sourceAddress, e.destinationAddress;
      Ping.DecodeRecord(e) == PingStandalone.HandlePingEvent(e)[0] <==>
        src[15] == dst[11] && src[13] == dst[13] && src[11] == dst[15]
  {
  }

  /** The four pings the script's `__main__` sends, as the standalone server decodes them. */
  lemma ScriptPings()
    ensures PingStandalone.HandlePingEvent(FromBytes(CreatePixelPing(10, 20, 255, 0, 0).value))
      == [PlacePixel(10, 20, Color(255, 0, 0))]
    ensures PingStandalone.HandlePingEvent(FromBytes(CreatePixelPing(15, 25, 255, 255, 0).value))
      == [PlacePixel(15, 25, Color(255, 255, 0))]
    ensures PingStandalone.HandlePingEvent(FromBytes(CreatePixelPing(30, 40, 255, 255, 255).value))
      == [PlacePixel(30, 40, Color(255, 255, 255))]
    ensures PingStandalone.HandlePingEvent(FromBytes(CreatePixelPing(256, 256, 0, 255, 0).value))
      == [PlacePixel(256, 256, Color(0, 255, 0))]
  {
    ToByteOfValue(0);
    ToByteOfValue(255);
    PixelPingRoundTrip(10, 20, 255, 0, 0);
    PixelPingRoundTrip(15, 25, 255, 255, 0);
    PixelPingRoundTrip(30, 40, 255, 255, 255);
    PixelPingRoundTrip(256, 256, 0, 255, 0);
  }
}
