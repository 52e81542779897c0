/**
 * The scenarios of the servers' unit tests (`ping/tests.rs` for the
 * compiled server, the `tests` module of `ping/server.rs` for the
 * standalone one), as methods whose postconditions are the tests'
 * assertions.
 */
module PingScenarios {
  import opened Wrappers
  import opened Octets
  import opened PingEvents
  import opened Events
  import opened PingBuffers
  import Ping
  import PingStandalone

  /** `count` zero octets, the `vec![0u8; count]` of the tests. */
  function Zeros(count: nat): (s: seq<Byte>)
    ensures |s| == count && forall i :: 0 <= i < count ==> s[i] == 0
  {
    seq(count, _ => 0)
  }

  /** `ping_server_buffers_min_size`: the capacities are the ones asked for. */
  method MinSizeScenario() returns (ingestCapacity: nat, egressCapacity: nat)
    ensures ingestCapacity == 64 && egressCapacity == 16
  {
    var server := new Ping.PingServer(64, 16);
    return server.ingestCapacity, server.egressCapacity;
  }

  /** `ping_server_ingress_do_not_exceed_capacity`. */
  method IngestFullScenario() returns (r1: Result<(), PingServerError>, len1: nat, r2: Result<(), PingServerError>, len2: nat)
    ensures r1 == Err(IngestFull(64)) && len1 == 64
    ensures r2 == Err(IngestFull(0)) && len2 == 64
  {
    var server := new Ping.PingServer(64, 16);
    var data := Zeros(100);
    r1 := server.Ingest(data);
    len1 := |server.ingest|;
    r2 := server.Ingest(data[..10]);
    len2 := |server.ingest|;
  }

  /** `ping_server_ingress_do_not_exceed_capacity_partial`. */
  method IngestPartialScenario() returns (r1: Result<(), PingServerError>, len1: nat, r2: Result<(), PingServerError>, len2: nat)
    ensures r1.Ok? && len1 == 30
    ensures r2 == Err(IngestFull(20)) && len2 == 50
  {
    var server := new Ping.PingServer(50, 16);
    var data := Zeros(100);
    r1 := server.Ingest(data[..30]);
    len1 := |server.ingest|;
    r2 := server.Ingest(data[..30]);
    len2 := |server.ingest|;
  }

  /** `ping_server_progress_should_error_if_insufficient_ingress_data`. */
  method IngestEmptyScenario() returns (r: Result<(), PingServerError>)
    ensures r == Err(IngestEmpty)
  {
    var server := new Ping.PingServer(64, 16);
    var _ := server.Ingest(Zeros(20));
    r := server.Progress();
  }

  /** `ping_server_progress_should_error_if_insufficient_place_in_egress`. */
  method EgressFullScenario() returns (r: Result<(), PingServerError>, egressLen: nat, ingestLen: nat)
    ensures r == Err(EgressFull) && egressLen == 2 && ingestLen == 96 - 64
  {
    var server := new Ping.PingServer(128, 2);
    var _ := server.Ingest(Zeros(96));
    assert Consumed(96, 0, 2) == 2;
    r := server.Progress();
    egressLen, ingestLen := |server.egress|, |server.ingest|;
  }

  /** `ping_server_progress_processes_events_correctly`. */
  method ProgressScenario() returns (r: Result<(), PingServerError>, egressLen: nat, ingestLen: nat)
    ensures r.Ok? && egressLen == 4 && ingestLen == 0
  {
    var server := new Ping.PingServer(128, 4);
    var _ := server.Ingest(Zeros(128));
    assert Consumed(128, 0, 4) == 4;
    r := server.Progress();
    egressLen, ingestLen := |server.egress|, |server.ingest|;
  }

  /** `ping_server_egress_when_empty`. */
  method EgressEmptyScenario() returns (count: nat)
    ensures count == 0
  {
    var server := new Ping.PingServer(128, 4);
    var events := server.Egress(2);
    count := |events|;
  }

  /** `ping_server_egress_partial`. */
  method EgressPartialScenario() returns (queued: nat, first: nat, left: nat, second: nat)
    ensures queued == 3 && first == 2 && left == 1 && second == 1
  {
    var server := new Ping.PingServer(128, 4);
    var _ := server.Ingest(Zeros(96));
    assert Consumed(96, 0, 4) == 3;
    var _ := server.Progress();
    queued := |server.egress|;
    var events := server.Egress(2);
    first, left := |events|, |server.egress|;
    events := server.Egress(2);
    second := |events|;
  }

  /** `ping_server_egress_all`. */
  method EgressAllScenario() returns (count: nat, left: nat)
    ensures count == 4 && left == 0
  {
    var server := new Ping.PingServer(128, 4);
    var _ := server.Ingest(Zeros(128));
    assert Consumed(128, 0, 4) == 4;
    var _ := server.Progress();
    var events := server.Egress(10);
    count, left := |events|, |server.egress|;
  }

  // The same buffer tests, as the `tests` module of `ping/server.rs` runs
  // them against the standalone server.

  /** `ping_server_buffers_min_size`, standalone server. */
  method StandaloneMinSizeScenario() returns (ingestCapacity: nat, egressCapacity: nat)
    ensures ingestCapacity == 64 && egressCapacity == 16
  {
    var server := new PingStandalone.PingServer(64, 16);
    return server.ingestCapacity, server.egressCapacity;
  }

  /** `ping_server_ingress_do_not_exceed_capacity`, standalone server. */
  method StandaloneIngestFullScenario() returns (r1: Result<(), PingServerError>, len1: nat, r2: Result<(), PingServerError>, len2: nat)
    ensures r1 == Err(IngestFull(64)) && len1 == 64
    ensures r2 == Err(IngestFull(0)) && len2 == 64
  {
    var server := new PingStandalone.PingServer(64, 16);
    var data := Zeros(100);
    r1 := server.Ingest(data);
    len1 := |server.ingest|;
    r2 := server.Ingest(data[..10]);
    len2 := |server.ingest|;
  }

  /** `ping_server_ingress_do_not_exceed_capacity_partial`, standalone server. */
  method StandaloneIngestPartialScenario() returns (r1: Result<(), PingServerError>, len1: nat, r2: Result<(), PingServerError>, len2: nat)
    ensures r1.Ok? && len1 == 30
    ensures r2 == Err(IngestFull(20)) && len2 == 50
  {
    var server := new PingStandalone.PingServer(50, 16);
    var data := Zeros(100);
    r1 := server.Ingest(data[..30]);
    len1 := |server.ingest|;
    r2 := server.Ingest(data[..30]);
    len2 := |server.ingest|;
  }

  /** `ping_server_progress_should_error_if_insufficient_ingress_data`, standalone server. */
  method StandaloneIngestEmptyScenario() returns (r: Result<(), PingServerError>)
    ensures r == Err(IngestEmpty)
  {
    var server := new PingStandalone.PingServer(64, 16);
    var _ := server.Ingest(Zeros(20));
    r := server.Progress();
  }

  /** `ping_server_progress_should_error_if_insufficient_place_in_egress`, standalone server. */
  method StandaloneEgressFullScenario() returns (r: Result<(), PingServerError>, egressLen: nat, ingestLen: nat)
    ensures r == Err(EgressFull) && egressLen == 2 && ingestLen == 96 - 64
  {
    var server := new PingStandalone.PingServer(128, 2);
    var _ := server.Ingest(Zeros(96));
    assert Consumed(96, 0, 2) == 2;
    r := server.Progress();
    egressLen, ingestLen := |server.egress|, |server.ingest|;
  }

  /** `ping_server_progress_processes_events_correctly`, standalone server. */
  method StandaloneProgressScenario() returns (r: Result<(), PingServerError>, egressLen: nat, ingestLen: nat)
    ensures r.Ok? && egressLen == 4 && ingestLen == 0
  {
    var server := new PingStandalone.PingServer(128, 4);
    var _ := server.Ingest(Zeros(128));
    assert Consumed(128, 0, 4) == 4;
    r := server.Progress();
    egressLen, ingestLen := |server.egress|, |server.ingest|;
  }

  /** `ping_server_egress_when_empty`, standalone server. */
  method StandaloneEgressEmptyScenario() returns (count: nat)
    ensures count == 0
  {
    var server := new PingStandalone.PingServer(128, 4);
    var events := server.Egress(2);
    count := |events|;
  }

  /** `ping_server_egress_partial`, standalone server. */
  method StandaloneEgressPartialScenario() returns (queued: nat, first: nat, left: nat, second: nat)
    ensures queued == 3 && first == 2 && left == 1 && second == 1
  {
    var server := new PingStandalone.PingServer(128, 4);
    var _ := server.Ingest(Zeros(96));
    assert Consumed(96, 0, 4) == 3;
    var _ := server.Progress();
    queued := |server.egress|;
    var events := server.Egress(2);
    first, left := |events|, |server.egress|;
    events := server.Egress(2);
    second := |events|;
  }

  /** `ping_server_egress_all`, standalone server. */
  method StandaloneEgressAllScenario() returns (count: nat, left: nat)
    ensures count == 4 && left == 0
  {
    var server := new PingStandalone.PingServer(128, 4);
    var _ := server.Ingest(Zeros(128));
    assert Consumed(128, 0, 4) == 4;
    var _ := server.Progress();
    var events := server.Egress(10);
    count, left := |events|, |server.egress|;
  }

  // The three records of the standalone server's decode tests.
  const RedX10Y0 := PingEvent(Zeros(16), [0, 0, 0, 0, 0, 0, 0, 10, 0, 0, 0, 255, 0, 0, 0, 0])
  const BlueX20Y10 := PingEvent(Zeros(16), [0, 0, 0, 0, 0, 0, 0, 20, 0, 10, 0, 0, 0, 0, 0, 255])
  const WhiteX256Y256 := PingEvent(Zeros(16), [0, 0, 0, 0, 0, 0, 1, 0, 1, 0, 0, 255, 0, 255, 0, 255])

  const RedEvent := PlacePixel(10, 0, Color(255, 0, 0))
  const BlueEvent := PlacePixel(20, 10, Color(0, 0, 255))
  const WhiteEvent := PlacePixel(256, 256, Color(255, 255, 255))

  /** `ping_server_handle_ping_event`. */
  lemma HandlePingEventExamples()
    ensures PingStandalone.HandlePingEvent(RedX10Y0) == [RedEvent]
    ensures PingStandalone.HandlePingEvent(BlueX20Y10) == [BlueEvent]
    ensures PingStandalone.HandlePingEvent(WhiteX256Y256) == [WhiteEvent]
  {
  }

  /** `ping_server_handle_incoming_ping_event`: the three records through the standalone server. */
  method IncomingPingEventsScenario() returns (r: Result<(), PingServerError>, events: seq<Event>)
    ensures r.Ok? && events == [RedEvent, BlueEvent, WhiteEvent]
  {
    var server := new PingStandalone.PingServer(96, 4);
    var buf := AsBytes(RedX10Y0) + AsBytes(BlueX20Y10) + AsBytes(WhiteX256Y256);
    var _ := server.Ingest(buf);
    assert server.ingest == buf;
    assert Consumed(96, 0, 4) == 3;
    r := server.Progress();
    IncomingRecords(buf);
    HandlePingEventExamples();
    events := server.Egress(3);
  }

  lemma IncomingRecords(buf: seq<Byte>)
    requires buf == AsBytes(RedX10Y0) + AsBytes(BlueX20Y10) + AsBytes(WhiteX256Y256)
    ensures Records(buf, 3) == [RedX10Y0, BlueX20Y10, WhiteX256Y256]
  {
    assert buf[0..32] == AsBytes(RedX10Y0);
    assert buf[32..64] == AsBytes(BlueX20Y10);
    assert buf[64..96] == AsBytes(WhiteX256Y256);
    FromBytesAsBytes(RedX10Y0);
    FromBytesAsBytes(BlueX20Y10);
    FromBytesAsBytes(WhiteX256Y256);
  }
}
