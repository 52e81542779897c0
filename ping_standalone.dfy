/**
 * The standalone sans-io `PingServer` of `ping/server.rs`: raw bytes (in
 * the service, read from a TCP connection) go into a bounded ingest buffer, `progress` turns whole
 * 32-byte `PingEvent` records into canvas events on a bounded egress queue,
 * and `egress` hands the oldest events out. This variant decodes the colour
 * from the destination address, octets 11, 13 and 15.
 *
 * The `Vec` capacities the source fixes at `new` are the `const` fields
 * `ingestCapacity` and `egressCapacity`.
 */
module PingStandalone {
  import opened Wrappers
  import opened Octets
  import opened PingEvents
  import opened Events
  import opened PingBuffers

  /** `PingServer::handle_ping_event`: exactly one event per record. */
  function HandlePingEvent(e: PingEvent): (events: seq<Event>)
    ensures |events| == 1
  {
    var dst := e.destinationAddress;
    [PlacePixel(BeU16(dst[6], dst[7]), BeU16(dst[8], dst[9]), Color(dst[11], dst[13], dst[15]))]
  }

  /**
   * What `handle_ping_event` reads: `x` is big-endian octets 6..8 and `y`
   * octets 8..10 of the destination, and the colour is destination octets
   * 11, 13 and 15. The coordinates are not bounded by any canvas.
   */
  lemma HandlePingEventDecodes(e: PingEvent)
    ensures var p := HandlePingEvent(e)[0]; var dst := e.destinationAddress;
      && U16Bytes(p.x) == (dst[6], dst[7])
      && U16Bytes(p.y) == (dst[8], dst[9])
      && p.color == Color(dst[11], dst[13], dst[15])
  {
    var dst := e.destinationAddress;
    BeU16RoundTrip(dst[6], dst[7]);
    BeU16RoundTrip(dst[8], dst[9]);
  }

  /** The events of several records, each record's events in turn. */
  function HandleAll(rs: seq<PingEvent>): (events: seq<Event>)
    ensures |events| == |rs|
  {
    seq(|rs|, i requires 0 <= i < |rs| => HandlePingEvent(rs[i])[0])
  }

  /** Appending one record appends its events. */
  lemma HandleRecordsStep(buf: seq<Byte>, k: nat)
    requires EventSize * (k + 1) <= |buf|
    ensures HandleAll(Records(buf, k + 1)) == HandleAll(Records(buf, k)) + HandlePingEvent(RecordAt(buf, k))
  {
    assert Records(buf, k + 1)[..k] == Records(buf, k);
  }

  /** Events depend only on the destination address. */
  lemma HandleIgnoresSource(e: PingEvent, source: Address)
    ensures HandlePingEvent(PingEvent(source, e.destinationAddress)) == HandlePingEvent(e)
  {
  }

  class PingServer {
    var ingest: seq<Byte>
    var egress: seq<Event>
    const ingestCapacity: nat
    const egressCapacity: nat

    /** Neither buffer grows past the capacity it was created with. */
    ghost predicate Valid()
      reads this
    {
      ingestCapacity > EventSize && egressCapacity > 0
      && |ingest| <= ingestCapacity && |egress| <= egressCapacity
    }

    /** `PingServer::new`; its two `debug_assert!`s become the precondition. */
    constructor (ingestCapacity: nat, egressCapacity: nat)
      requires ingestCapacity > EventSize && egressCapacity > 0
      ensures Valid()
      ensures this.ingestCapacity == ingestCapacity && this.egressCapacity == egressCapacity
      ensures ingest == [] && egress == []
    {
      this.ingestCapacity := ingestCapacity;
      this.egressCapacity := egressCapacity;
      ingest := [];
      egress := [];
    }

    /** `impl Default`: `new(4096, 32)`. */
    constructor Default()
      ensures Valid()
      ensures ingestCapacity == 4096 && egressCapacity == 32
      ensures ingest == [] && egress == []
    {
      ingestCapacity := 4096;
      egressCapacity := 32;
      ingest := [];
      egress := [];
    }

    /**
     * `PingServer::ingest`: append as much of `data` as there is room for,
     * and report `IngestFull` with the count taken when some was refused.
     */
    method Ingest(data: seq<Byte>) returns (r: Result<(), PingServerError>)
      requires Valid()
      modifies this
      ensures Valid()
      ensures var read := Min(ingestCapacity - |old(ingest)|, |data|);
        && ingest == old(ingest) + data[..read]
        && (r.Ok? <==> read == |data|)
        && (r.Err? ==> r.error == IngestFull(read))
      ensures egress == old(egress)
    {
      var availableSpace := ingestCapacity - |ingest|;
      var toRead := Min(availableSpace, |data|);
      ingest := ingest + data[..toRead];
      if toRead < |data| {
        return Err(IngestFull(toRead));
      }
      return Ok(());
    }

    /**
     * `PingServer::progress`: decode whole records from the front of the
     * ingest buffer while their events fit the egress queue, then drop the
     * consumed bytes.
     */
    method Progress() returns (r: Result<(), PingServerError>)
      requires Valid()
      modifies this
      ensures Valid()
      ensures |old(ingest)| < EventSize ==>
        r == Err(IngestEmpty) && ingest == old(ingest) && egress == old(egress)
      ensures |old(ingest)| >= EventSize ==>
        var k := Consumed(|old(ingest)|, |old(egress)|, egressCapacity);
        && ingest == old(ingest)[EventSize * k..]
        && egress == old(egress) + HandleAll(Records(old(ingest), k))
        && (r == Err(EgressFull) <==> k < |old(ingest)| / EventSize)
        && (r.Ok? <==> k == |old(ingest)| / EventSize)
    {
      if |ingest| < EventSize {
        return Err(IngestEmpty);
      }
      var offset := 0;
      var flagEgressFull := false;
      ghost var k := 0;
      while offset + EventSize <= |ingest|
        invariant offset == EventSize * k <= |ingest|
        invariant ingest == old(ingest)
        invariant |old(egress)| + k <= egressCapacity
        invariant egress == old(egress) + HandleAll(Records(ingest, k))
        invariant !flagEgressFull
        decreases |ingest| - offset
      {
        var buf := ingest[offset..offset + EventSize];
        var pingEvent := FromBytes(buf);
        var events := HandlePingEvent(pingEvent);
        if |egress| + |events| > egressCapacity {
          flagEgressFull := true;
          break;
        }
        assert EventSize * (k + 1) == offset + EventSize;
        assert pingEvent == RecordAt(ingest, k);
        HandleRecordsStep(ingest, k);
        egress := egress + events;
        offset := offset + EventSize;
        k := k + 1;
      }
      assert k == Consumed(|ingest|, |old(egress)|, egressCapacity) by {
        assert flagEgressFull ==> k < |ingest| / EventSize;
        assert !flagEgressFull ==> k == |ingest| / EventSize;
      }
      ingest := ingest[offset..];
      if flagEgressFull {
        return Err(EgressFull);
      }
      return Ok(());
    }

    /** `PingServer::egress`: remove and return the oldest `maxEvents` events at most. */
    method Egress(maxEvents: nat) returns (events: seq<Event>)
      requires Valid()
      modifies this
      ensures Valid()
      ensures events == old(egress)[..Min(|old(egress)|, maxEvents)]
      ensures egress == old(egress)[|events|..]
      ensures ingest == old(ingest)
    {
      var toEgress := Min(|egress|, maxEvents);
      events := egress[..toEgress];
      egress := egress[toEgress..];
    }

    /** `PingServer::ready_events`: the events waiting in the queue, at most its capacity. */
    function ReadyEvents(): (n: nat)
      requires Valid()
      reads this
      ensures n == |egress| && n <= egressCapacity
    {
      |egress|
    }
  }
}
