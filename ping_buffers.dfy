/**
 * What the two `PingServer` implementations share: their error type and
 * the view of the ingest buffer as consecutive 32-byte `PingEvent` records.
 */
module PingBuffers {
  import opened Octets
  import opened Wrappers
  import opened PingEvents

  datatype PingServerError =
    | IngestFull(read: nat)
    | IngestEmpty
    | EgressFull
    | Unknown

  /** The `k`-th 32-byte record of `buf`, decoded by `PingEvent::from_bytes`. */
  function RecordAt(buf: seq<Byte>, k: nat): (e: PingEvent)
    requires EventSize * (k + 1) <= |buf|
    ensures AsBytes(e) == buf[EventSize * k .. EventSize * (k + 1)]
  {
    FromBytes(buf[EventSize * k .. EventSize * (k + 1)])
  }

  /** The first `k` records of `buf`, in buffer order. */
  function Records(buf: seq<Byte>, k: nat): (rs: seq<PingEvent>)
    requires EventSize * k <= |buf|
    ensures |rs| == k
  {
    seq(k, i requires 0 <= i < k => RecordAt(buf, i))
  }

  /** Dropping whole records from the front shifts the remaining records down. */
  lemma RecordsAfterDrop(buf: seq<Byte>, d: nat, k: nat)
    requires EventSize * (d + k) <= |buf|
    ensures Records(buf[EventSize * d..], k) == Records(buf, d + k)[d..]
  {
    var rest := buf[EventSize * d..];
    forall i | 0 <= i < k
      ensures Records(rest, k)[i] == Records(buf, d + k)[d..][i]
    {
      assert rest[EventSize * i .. EventSize * (i + 1)]
          == buf[EventSize * (d + i) .. EventSize * (d + i + 1)];
    }
  }

  /** Records one `progress` call consumes: as many as are buffered and fit the queue. */
  function Consumed(buffered: nat, queued: nat, egressCapacity: nat): (k: nat)
    requires queued <= egressCapacity
    ensures k <= buffered / EventSize && queued + k <= egressCapacity
    ensures k == buffered / EventSize || queued + k == egressCapacity
  {
    Min(buffered / EventSize, egressCapacity - queued)
  }
}
