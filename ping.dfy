/**
 * The `PingServer` of `ping/mod.rs`, the one the service binary compiles.
 * It has the buffers of the standalone variant, but checks for room in the
 * egress queue before decoding each record, decodes inline, and takes the
 * colour from the source address: red from octet 15, green from octet 13
 * and blue from octet 11.
 */
module Ping {
  import opened Wrappers
  import opened Octets
  import opened PingEvents
  import opened Events
  import opened PingBuffers

  /**
   * The `Event::PlacePixel` built inside the `progress` loop. The
   * coordinates are big-endian destination octets 6..8 and 8..10; the
   * colour is source octets 15, 13 and 11.
   */
  function DecodeRecord(e: PingEvent): (ev: Event)
    ensures var src, dst := e.sourceAddress, e.destinationAddress;
      && U16Bytes(ev.x) == (dst[6], dst[7])
      && U16Bytes(ev.y) == (dst[8], dst[9])
      && ev.color == Color(src[15], src[13], src[11])
  {
    var src, dst := e.sourceAddress, e.destinationAddress;
    BeU16RoundTrip(dst[6], dst[7]);
    BeU16RoundTrip(dst[8], dst[9]);
    PlacePixel(BeU16(dst[6], dst[7]), BeU16(dst[8], dst[9]), Color(src[15], src[13], src[11]))
  }

  /** One event per record, in record order. */
  function DecodeAll(rs: seq<PingEvent>): (events: seq<Event>)
    ensures |events| == |rs|
  {
    seq(|rs|, i requires 0 <= i < |rs| => DecodeRecord(rs[i]))
  }

  /** Appending one record appends its event. */
  lemma DecodeRecordsStep(buf: seq<Byte>, k: nat)
    requires EventSize * (k + 1) <= |buf|
    ensures DecodeAll(Records(buf, k + 1)) == DecodeAll(Records(buf, k)) + [DecodeRecord(RecordAt(buf, k))]
  {
    assert Records(buf, k + 1)[..k] == Records(buf, k);
  }

  class PingServer {
    var ingest: seq<Byte>
    var egress: seq<Event>
    const ingestCapacity: nat
    const egressCapacity: nat

    /** Neither buffer grows past the capacity it was created with. */
    ghost predicate Valid()
      reads this
    {
      ingestCapacity > EventSize && egressCapacity > 0
      && |ingest| <= ingestCapacity && |egress| <= egressCapacity
    }

    /** `PingServer::new`; its two `debug_assert!`s become the precondition. */
    constructor (ingestCapacity: nat, egressCapacity: nat)
      requires ingestCapacity > EventSize && egressCapacity > 0
      ensures Valid()
      ensures this.ingestCapacity == ingestCapacity && this.egressCapacity == egressCapacity
      ensures ingest == [] && egress == []
    {
      this.ingestCapacity := ingestCapacity;
      this.egressCapacity := egressCapacity;
      ingest := [];
      egress := [];
    }

    /** `impl Default`: `new(4096, 32)`. */
    constructor Default()
      ensures Valid()
      ensures ingestCapacity == 4096 && egressCapacity == 32
      ensures ingest == [] && egress == []
    {
      ingestCapacity := 4096;
      egressCapacity := 32;
      ingest := [];
      egress := [];
    }

    /**
     * `PingServer::ingest`: append as much of `data` as there is room for,
     * and report `IngestFull` with the count taken when some was refused.
     */
    method Ingest(data: seq<Byte>) returns (r: Result<(), PingServerError>)
      requires Valid()
      modifies this
      ensures Valid()
      ensures var read := Min(ingestCapacity - |old(ingest)|, |data|);
        && ingest == old(ingest) + data[..read]
        && (r.Ok? <==> read == |data|)
        && (r.Err? ==> r.error == IngestFull(read))
      ensures egress == old(egress)
    {
      var availableSpace := ingestCapacity - |ingest|;
      var toRead := Min(availableSpace, |data|);
      ingest := ingest + data[..toRead];
      if toRead < |data| {
        return Err(IngestFull(toRead));
      }
      return Ok(());
    }

    /**
     * `PingServer::progress`: while a whole record is buffered and the
     * queue has room, decode it and push its event; then drop the consumed
     * bytes. `EgressFull` means a record was left for lack of room.
     */
    method Progress() returns (r: Result<(), PingServerError>)
      requires Valid()
      modifies this
      ensures Valid()
      ensures |old(ingest)| < EventSize ==>
        r == Err(IngestEmpty) && ingest == old(ingest) && egress == old(egress)
      ensures |old(ingest)| >= EventSize ==>
        var k := Consumed(|old(ingest)|, |old(egress)|, egressCapacity);
        && ingest == old(ingest)[EventSize * k..]
        && egress == old(egress) + DecodeAll(Records(old(ingest), k))
        && (r == Err(EgressFull) <==> k < |old(ingest)| / EventSize)
        && (r.Ok? <==> k == |old(ingest)| / EventSize)
    {
      if |ingest| < EventSize {
        return Err(IngestEmpty);
      }
      var offset := 0;
      var flagEgressFull := false;
      ghost var k := 0;
      while offset + EventSize <= |ingest|
        invariant offset == EventSize * k <= |ingest|
        invariant ingest == old(ingest)
        invariant |old(egress)| + k <= egressCapacity
        invariant egress == old(egress) + DecodeAll(Records(ingest, k))
        invariant !flagEgressFull
        decreases |ingest| - offset
      {
        if |egress| >= egressCapacity {
          flagEgressFull := true;
          break;
        }
        var buf := ingest[offset..offset + EventSize];
        var pingEvent := FromBytes(buf);
        var event := DecodeRecord(pingEvent);
        assert EventSize * (k + 1) == offset + EventSize;
        assert pingEvent == RecordAt(ingest, k);
        DecodeRecordsStep(ingest, k);
        egress := egress + [event];
        offset := offset + EventSize;
        k := k + 1;
      }
      assert k == Consumed(|ingest|, |old(egress)|, egressCapacity) by {
        assert flagEgressFull ==> k < |ingest| / EventSize;
        assert !flagEgressFull ==> k == |ingest| / EventSize;
      }
      ingest := ingest[offset..];
      if flagEgressFull {
        return Err(EgressFull);
      }
      return Ok(());
    }

    /** `PingServer::egress`: remove and return the oldest `maxEvents` events at most. */
    method Egress(maxEvents: nat) returns (events: seq<Event>)
      requires Valid()
      modifies this
      ensures Valid()
      ensures events == old(egress)[..Min(|old(egress)|, maxEvents)]
      ensures egress == old(egress)[|events|..]
      ensures ingest == old(ingest)
    {
      var toEgress := Min(|egress|, maxEvents);
      events := egress[..toEgress];
      egress := egress[toEgress..];
    }
  }
}
