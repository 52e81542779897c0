/**
 * The canvas events the ping servers produce (`events.rs` of the service)
 * and the RGB colour both `PixelColor` structs describe.
 */
module Events {
  import opened Octets

  /** `PixelColor`: three `u8` channels. */
  datatype Color = Color(r: Byte, g: Byte, b: Byte)

  /** `Event::PlacePixel`, the only event either server produces. */
  datatype Event = PlacePixel(x: U16, y: U16, color: Color)
}
