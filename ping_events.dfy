/**
 * The 32-byte record the eBPF listener is meant to emit for every matching
 * ICMPv6 Echo Request (in this revision the script builds it instead): the source address followed by the destination address,
 * both in network byte order (a `#[repr(C)]` pair of `[u8; 16]`).
 */
module PingEvents {
  import opened Octets

  const EventSize: nat := 32

  /** A `[u8; 32]` buffer. */
  type EventBytes = s: seq<Byte> | |s| == 32
    witness [0, 0, 0, 0, 0, 0, 0, 0, 0, 0, 0, 0, 0, 0, 0, 0,
             0, 0, 0, 0, 0, 0, 0, 0, 0, 0, 0, 0, 0, 0, 0, 0]

  datatype PingEvent = PingEvent(sourceAddress: Address, destinationAddress: Address)

  /** `PingEvent::new`: the addresses are stored as given. */
  function New(source: Address, destination: Address): (e: PingEvent)
    ensures e.sourceAddress == source && e.destinationAddress == destination
  {
    PingEvent(source, destination)
  }

  /** `PingEvent::as_bytes`: the in-memory layout of the record. */
  function AsBytes(e: PingEvent): (b: EventBytes)
    ensures b[..16] == e.sourceAddress && b[16..] == e.destinationAddress
  {
    e.sourceAddress + e.destinationAddress
  }

  /** `PingEvent::from_bytes`: octets 0..16 are the source, 16..32 the destination. */
  function FromBytes(b: EventBytes): (e: PingEvent)
    ensures e.sourceAddress + e.destinationAddress == b
  {
    PingEvent(b[..16], b[16..])
  }

  lemma FromBytesAsBytes(e: PingEvent)
    ensures FromBytes(AsBytes(e)) == e
  {
  }

  lemma AsBytesFromBytes(b: EventBytes)
    ensures AsBytes(FromBytes(b)) == b
  {
  }
}
