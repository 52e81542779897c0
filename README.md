# ipcanvas core in Dafny

ipcanvas is a shared pixel canvas meant to be painted with ICMPv6 pings.
By design, an eBPF listener watches Echo Requests to a configured IPv6
prefix and emits a 32-byte `PingEvent` record for each match: the source
address, then the destination address. In this revision that path is only
stubbed. The XDP program logs "received a packet" and passes every packet
(`crates/ipcanvas-ping-ebpf/src/main.rs:15-18`). The loader writes the
prefix into the `PREFIX` map and only logs the `PING` records it reads
(`crates/ipcanvas-ping/src/main.rs:79-115`). Nothing yet calls
`Ipv6Prefix::matches` outside its own tests.

The service takes its bytes from a TCP listener
(`crates/ipcanvas-service/src/main.rs:35`) and feeds them into a sans-io
`PingServer` (`main.rs:69-158`). The Python script is what sends records
there. The server buffers the bytes, decodes whole records into
`PlacePixel` events, and queues them for the canvas. The canvas is a
row-major grid of RGB colours. It has bounds-checked reads and writes, a
row-major pixel iterator and a diff against another canvas.

This project models that core and proves what it promises:

- `wrappers.dfy`: `Option`, `Result` and `Min`.
- `octets.dfy`: bytes (`bv8`), `u8` and `u16`, 16-octet addresses, and the
  big-endian `u16` conversions.
- `ping_events.dfy`: the `PingEvent` record and its byte layout
  (`ipcanvas-ping-common/src/events.rs`).
- `prefix.dfy`: `ipcanvas-ping-common/src/prefix.rs`, that is, `Ipv6Prefix`, its `[u8; 17]` form, and
  `matches`. `matches` is proved equal to "the first `prefix_len` bits
  agree" (`Covers`).
- `events.dfy`: the canvas `Event` and the RGB `Color`
  (`ipcanvas-service/src/events.rs`). This one colour type stands for both
  Rust `PixelColor` types.
- `ping_buffers.dfy`: what both servers share. It holds the error type, the
  ingest buffer read as 32-byte records, and `Consumed`, the number of
  records one `progress` call takes.
- `ping_standalone.dfy`: `ping/server.rs`, the standalone server, including
  `handle_ping_event` and `ready_events`. Its colour is destination octets
  11, 13 and 15.
- `ping.dfy`: `ping/mod.rs`, the server the service binary compiles. It
  checks for room before decoding each record. Its colour is source octets
  15, 13 and 11.
- `ping_scenarios.dfy`: the unit tests of both servers, as methods whose
  postconditions are the tests' assertions.
- `canvas.dfy`: `canvas/mod.rs`. The value `Grid` specifies the `Canvas`
  class and its `array`. The module also holds the `CanvasPixelIter` class
  and the row-major order `RowMajor`. The flat index `Index` is defined
  row by row, one `width` per row above, and proved equal to
  `y * width + x`.
- `canvas_diff.dfy`: `canvas/diff.rs`. `Diff` is the nested loop.
  `Changes` is its specification, and the lemmas prove what the list means.
- `send_ping_event.dfy`: `scripts/send_ping_event.py`, the record builder.
- `pixel_ping.dfy`: the two servers applied to the script's records.

The two servers differ in where they read the colour. The standalone
server inverts the script: it decodes every pixel ping back to its `x`, `y`
and colour (`PixelPing.PixelPingRoundTrip`). The compiled server reads the
colour from the *source* address, and the script always sends from
`SRC_ADDR`. So every script ping comes out as `(0x34, 0x70, 0x2e)`,
whatever colour was asked for (`PixelPing.CompiledPixelPing`). The two servers
agree on coordinates (`PixelPing.ServersAgreeOnCoordinates`). They agree on
a whole event exactly when the source octets mirror the destination octets
(`PixelPing.ServersAgreeIff`). The model keeps both behaviours as written.

The rest of the repository reads the colour from the destination. The
script names each ping after the colour it puts in destination octets 11,
13 and 15, for example `redx10y20 = create_pixel_ping(10,20,255,0,0)` and
`greenx256y256 = create_pixel_ping(256,256,0,255,0)`
(`scripts/send_ping_event.py:28-31`). The standalone server's decode tests
expect the colour from the destination as well
(`crates/ipcanvas-service/src/ping/server.rs:415`, 426, 437, 483, 492
and 501). Against both, `src[15], src[13], src[11]` in
`crates/ipcanvas-service/src/ping/mod.rs:90-98` is the odd one out. The
Findings table below records it.

Capacities are exact. The Rust code uses `Vec::with_capacity` and reads
`capacity()` back. The model keeps the two capacities as `const` fields
fixed at construction, which matches how the tests treat them. The
`debug_assert!`s of `new` (`ingest_capacity > 32`, `egress_capacity > 0`)
become the constructors' preconditions.

## Model

| member | source | states |
|---|---|---|
| Octets.BeU16 | crates/ipcanvas-service/src/ping/server.rs:89-98 | `u16::from_be_bytes`: the high octet is the quotient by 256, the low octet the remainder |
| Octets.U16Bytes | scripts/send_ping_event.py:21 | the two octets of a 16-bit value read back to that value with `BeU16` |
| Octets.BeU16RoundTrip | crates/ipcanvas-service/src/ping/server.rs:89-98 | splitting a big-endian value gives back the two octets it was read from |
| Octets.ToByteValue | scripts/send_ping_event.py:21 | the octet built for a value below 256 has that value |
| Octets.ToByteOfValue | scripts/send_ping_event.py:21 | every octet is the one built from its own value |
| PingEvents.New | crates/ipcanvas-ping-common/src/events.rs:27-32 | the source and destination are stored unchanged |
| PingEvents.AsBytes | crates/ipcanvas-ping-common/src/events.rs:35-39 | 32 bytes: octets 0..16 are the source, 16..32 the destination |
| PingEvents.FromBytes | crates/ipcanvas-ping-common/src/events.rs:42-51 | source followed by destination is exactly the input buffer |
| PingEvents.FromBytesAsBytes | crates/ipcanvas-ping-common/src/events.rs:35-51 | `from_bytes(as_bytes(e)) == e` |
| PingEvents.AsBytesFromBytes | crates/ipcanvas-ping-common/src/events.rs:35-51 | `as_bytes(from_bytes(b)) == b` |
| Prefix.ToBytes | crates/ipcanvas-ping-common/src/prefix.rs:14-21 | octets 0..16 are the address and octet 16 is `prefix_len` |
| Prefix.FromBytes | crates/ipcanvas-ping-common/src/prefix.rs:23-33 | converting the result back gives the original 17 bytes |
| Prefix.FromBytesToBytes | crates/ipcanvas-ping-common/src/prefix.rs:14-33 | bytes to prefix to bytes is the identity on prefixes as well |
| Prefix.FromPair | crates/ipcanvas-ping-common/src/prefix.rs:35-42 | the address and length are stored as given, with no check that the length is at most 128 |
| Prefix.ShiftMask | crates/ipcanvas-ping-common/src/prefix.rs:93 | `0xFF << (8 - r)` is the mask of the top `r` bits |
| Prefix.MaskAgree | crates/ipcanvas-ping-common/src/prefix.rs:91-99 | two octets agree under the mask of the top `r` bits iff their top `r` bits agree |
| Prefix.OctetBits | crates/ipcanvas-ping-common/src/prefix.rs:84-88 | two octets are equal iff all 8 of their bits agree |
| Prefix.OctetsImplySamePrefix | crates/ipcanvas-ping-common/src/prefix.rs:84-101 | equal full octets and an agreeing masked octet give the same first `n` bits |
| Prefix.SamePrefixImpliesOctets | crates/ipcanvas-ping-common/src/prefix.rs:84-101 | the same first `n` bits give equal full octets and an agreeing masked octet |
| Prefix.Matches | crates/ipcanvas-ping-common/src/prefix.rs:75-102 | `matches` holds iff the first `min(prefix_len, 128)` bits of the address equal those of the prefix |
| Prefix.CoversZeroLength | crates/ipcanvas-ping-common/src/prefix.rs:79-101 | length 0 matches every address |
| Prefix.CoversOwnAddress | crates/ipcanvas-ping-common/src/prefix.rs:84-101 | a prefix matches its own address |
| Prefix.CoversFullLength | crates/ipcanvas-ping-common/src/prefix.rs:79-92 | from length 128 on, exactly the prefix's own address matches |
| Prefix.CoversIgnoresHostBits | crates/ipcanvas-ping-common/src/prefix.rs:90-99 | prefix bits after the length never change the result |
| Prefix.CoversShorter | crates/ipcanvas-ping-common/src/prefix.rs:75-102 | shortening a matching prefix keeps it matching |
| Prefix.OctetDiffers | crates/ipcanvas-ping-common/src/prefix.rs:84-88 | a differing full octet rules the address out |
| Prefix.MaskedOctetDiffers | crates/ipcanvas-ping-common/src/prefix.rs:91-99 | a differing masked partial octet rules the address out |
| Prefix.MatchesSlash64 | crates/ipcanvas-ping-common/src/prefix.rs:110-118 | the /64 test: `::1` matches, `0:1::1` and `2001:db9::1` do not |
| Prefix.MatchesSlash48 | crates/ipcanvas-ping-common/src/prefix.rs:120-127 | the /48 test: `::1` and `0:1::1` match, `2001:db9::1` does not |
| Prefix.MatchesSlash127 | crates/ipcanvas-ping-common/src/prefix.rs:129-136 | the /127 test: `::4320` and `::4321` match, `::4322` does not |
| PingBuffers.RecordAt | crates/ipcanvas-service/src/ping/server.rs:122-125 | the `k`-th record is the one whose layout is bytes `32k..32(k+1)` |
| PingBuffers.Records | crates/ipcanvas-service/src/ping/server.rs:119-140 | the first `k` records of the buffer, `k` of them |
| PingBuffers.RecordsAfterDrop | crates/ipcanvas-service/src/ping/server.rs:142-143 | after draining `d` whole records, the records left are the old ones from `d` on, in order |
| PingBuffers.Consumed | crates/ipcanvas-service/src/ping/server.rs:122-140 | `progress` consumes no more records than are buffered or fit the queue, and stops only when all are taken or the queue is full |
| PingStandalone.HandlePingEvent | crates/ipcanvas-service/src/ping/server.rs:83-107 | exactly one event per record |
| PingStandalone.HandlePingEventDecodes | crates/ipcanvas-service/src/ping/server.rs:88-104 | `x` is destination octets 6..8 and `y` octets 8..10, big-endian; the colour is destination octets 11, 13, 15; no bounds check |
| PingStandalone.HandleIgnoresSource | crates/ipcanvas-service/src/ping/server.rs:83-107 | the source address never affects the event |
| PingStandalone.HandleAll | crates/ipcanvas-service/src/ping/server.rs:127-139 | one event per record, in record order |
| PingStandalone.HandleRecordsStep | crates/ipcanvas-service/src/ping/server.rs:137-139 | taking one more record appends exactly its events |
| PingStandalone.PingServer.constructor | crates/ipcanvas-service/src/ping/server.rs:50-63 | empty buffers with the given capacities; needs `ingest_capacity > 32` and `egress_capacity > 0` |
| PingStandalone.PingServer.Default | crates/ipcanvas-service/src/ping/server.rs:166-170 | capacities 4096 bytes and 32 events |
| PingStandalone.PingServer.Ingest | crates/ipcanvas-service/src/ping/server.rs:66-77 | appends the first `min(capacity - len, data length)` bytes; `IngestFull{read}` with that count iff some were refused, `Ok` otherwise; the queue is untouched |
| PingStandalone.PingServer.Progress | crates/ipcanvas-service/src/ping/server.rs:110-151 | under 32 bytes: `IngestEmpty` and nothing changes; otherwise it drops the first `32k` bytes, where `k = Consumed(...)`, and appends their events in order; `EgressFull` iff a whole record was left, `Ok` iff all were taken; capacities are never exceeded |
| PingStandalone.PingServer.Egress | crates/ipcanvas-service/src/ping/server.rs:154-158 | returns the oldest `min(len, n)` events and keeps the rest in order |
| PingStandalone.PingServer.ReadyEvents | crates/ipcanvas-service/src/ping/server.rs:161-163 | the queue length, never above the egress capacity |
| Ping.DecodeRecord | crates/ipcanvas-service/src/ping/mod.rs:90-98 | `x` and `y` are big-endian destination octets 6..8 and 8..10; the colour is source octets 15, 13, 11 |
| Ping.DecodeAll | crates/ipcanvas-service/src/ping/mod.rs:76-101 | one event per record, in record order |
| Ping.DecodeRecordsStep | crates/ipcanvas-service/src/ping/mod.rs:99-100 | decoding one more record appends exactly its event |
| Ping.PingServer.constructor | crates/ipcanvas-service/src/ping/mod.rs:40-47 | empty buffers with the given capacities; needs `ingest_capacity > 32` and `egress_capacity > 0` |
| Ping.PingServer.Default | crates/ipcanvas-service/src/ping/mod.rs:122-126 | capacities 4096 bytes and 32 events |
| Ping.PingServer.Ingest | crates/ipcanvas-service/src/ping/mod.rs:50-61 | appends the first `min(capacity - len, data length)` bytes; `IngestFull{read}` iff it truncated |
| Ping.PingServer.Progress | crates/ipcanvas-service/src/ping/mod.rs:64-112 | under 32 bytes: `IngestEmpty`, no change. Otherwise room is checked before each decode; it drops `32k` bytes for the `k` events pushed; `EgressFull` iff a whole record is still pending, `Ok` iff all were taken |
| Ping.PingServer.Egress | crates/ipcanvas-service/src/ping/mod.rs:115-119 | returns the first `min(len, n)` events in order and keeps the remainder |
| PingScenarios.MinSizeScenario | crates/ipcanvas-service/src/ping/tests.rs:6-29 | capacities 64 and 16 are kept as given |
| PingScenarios.IngestFullScenario | crates/ipcanvas-service/src/ping/tests.rs:32-57 | 100 bytes into 64: `IngestFull{64}`; then 10 more: `IngestFull{0}`, still 64 |
| PingScenarios.IngestPartialScenario | crates/ipcanvas-service/src/ping/tests.rs:60-83 | 30 bytes into 50 are taken; 30 more: `IngestFull{20}`, 50 buffered |
| PingScenarios.IngestEmptyScenario | crates/ipcanvas-service/src/ping/tests.rs:86-106 | 20 buffered bytes: `IngestEmpty` |
| PingScenarios.EgressFullScenario | crates/ipcanvas-service/src/ping/tests.rs:109-140 | 3 records, room for 2: `EgressFull`, 2 queued, 32 bytes left |
| PingScenarios.ProgressScenario | crates/ipcanvas-service/src/ping/tests.rs:143-162 | 4 records, room for 4: `Ok`, 4 queued, nothing left |
| PingScenarios.EgressEmptyScenario | crates/ipcanvas-service/src/ping/tests.rs:165-171 | egress from an empty queue returns nothing |
| PingScenarios.EgressPartialScenario | crates/ipcanvas-service/src/ping/tests.rs:174-199 | 3 queued; egress 2 leaves 1; egress 2 again returns 1 |
| PingScenarios.EgressAllScenario | crates/ipcanvas-service/src/ping/tests.rs:202-218 | 4 queued; egress 10 returns 4 and empties the queue |
| PingScenarios.StandaloneMinSizeScenario | crates/ipcanvas-service/src/ping/server.rs:179-202 | the standalone server keeps capacities 64 and 16 as given |
| PingScenarios.StandaloneIngestFullScenario | crates/ipcanvas-service/src/ping/server.rs:205-230 | 100 bytes into 64: `IngestFull{64}`; then 10 more: `IngestFull{0}`, still 64 |
| PingScenarios.StandaloneIngestPartialScenario | crates/ipcanvas-service/src/ping/server.rs:233-256 | 30 bytes into 50 are taken; 30 more: `IngestFull{20}`, 50 buffered |
| PingScenarios.StandaloneIngestEmptyScenario | crates/ipcanvas-service/src/ping/server.rs:259-279 | 20 buffered bytes: `IngestEmpty` |
| PingScenarios.StandaloneEgressFullScenario | crates/ipcanvas-service/src/ping/server.rs:282-313 | 3 records, room for 2: `EgressFull`, 2 queued, 32 bytes left |
| PingScenarios.StandaloneProgressScenario | crates/ipcanvas-service/src/ping/server.rs:316-335 | 4 records, room for 4: `Ok`, 4 queued, nothing left |
| PingScenarios.StandaloneEgressEmptyScenario | crates/ipcanvas-service/src/ping/server.rs:338-344 | egress from an empty queue returns nothing |
| PingScenarios.StandaloneEgressPartialScenario | crates/ipcanvas-service/src/ping/server.rs:347-372 | 3 queued; egress 2 leaves 1; egress 2 again returns 1 |
| PingScenarios.StandaloneEgressAllScenario | crates/ipcanvas-service/src/ping/server.rs:375-391 | 4 queued; egress 10 returns 4 and empties the queue |
| PingScenarios.HandlePingEventExamples | crates/ipcanvas-service/src/ping/server.rs:394-445 | the three test records decode to red (10,0), blue (20,10) and white (256,256) |
| PingScenarios.IncomingPingEventsScenario | crates/ipcanvas-service/src/ping/server.rs:448-509 | the three records through ingest, progress and egress come out as those three events, in order |
| PingScenarios.IncomingRecords | crates/ipcanvas-service/src/ping/server.rs:464-466 | the concatenated layouts read back as the three records |
| Canvas.IndexValue | crates/ipcanvas-service/src/canvas/mod.rs:58-60 | the index, defined row by row, is `y * width + x` |
| Canvas.IndexNextColumn | crates/ipcanvas-service/src/canvas/mod.rs:147-151 | the next column of a row has the next index |
| Canvas.IndexNextRow | crates/ipcanvas-service/src/canvas/mod.rs:147-151 | the first column of the next row follows the last column of a row |
| Canvas.IndexOrder | crates/ipcanvas-service/src/canvas/mod.rs:58-60 | a smaller index is on an earlier row, or further left on the same row |
| Canvas.IndexInBounds | crates/ipcanvas-service/src/canvas/mod.rs:58-60 | an in-bounds cell's index `y * width + x` is below `width * height` |
| Canvas.IndexInjective | crates/ipcanvas-service/src/canvas/mod.rs:58-60 | distinct in-bounds cells have distinct indices |
| Canvas.NewGrid | crates/ipcanvas-service/src/canvas/mod.rs:65-72 | `width * height` cells, all white |
| Canvas.Get | crates/ipcanvas-service/src/canvas/mod.rs:75-81 | `None` iff `x >= width` or `y >= height`, otherwise the cell at `y * width + x` |
| Canvas.Set | crates/ipcanvas-service/src/canvas/mod.rs:86-93 | keeps the size; out of bounds nothing changes |
| Canvas.GetSet | crates/ipcanvas-service/src/canvas/mod.rs:86-93 | after a write in bounds, that cell reads the new colour and every other cell reads as before |
| Canvas.GridExtensionality | crates/ipcanvas-service/src/canvas/mod.rs:55-61 | two same-sized grids that read alike at every coordinate are equal |
| Canvas.PixelAt | crates/ipcanvas-service/src/canvas/mod.rs:58-60 | position `i` of the flat array is an in-bounds cell with index `i` and that cell's colour |
| Canvas.RowMajor | crates/ipcanvas-service/src/canvas/mod.rs:136-155 | `width * height` pixels, one per cell |
| Canvas.RowMajorCell | crates/ipcanvas-service/src/canvas/mod.rs:136-155 | each cell appears at its index, with its coordinates and colour |
| Canvas.RowMajorOrdered | crates/ipcanvas-service/src/canvas/mod.rs:147-151 | later positions are on a later row, or further along the same row |
| Canvas.Canvas.constructor | crates/ipcanvas-service/src/canvas/mod.rs:65-72 | the new array holds the all-white grid |
| Canvas.Canvas.GetPixel | crates/ipcanvas-service/src/canvas/mod.rs:75-81 | reads exactly what `Get` says of the grid held |
| Canvas.Canvas.SetPixel | crates/ipcanvas-service/src/canvas/mod.rs:86-93 | `Ok` iff in bounds; the new grid is `Set` of the old one |
| Canvas.Canvas.Width | crates/ipcanvas-service/src/canvas/mod.rs:96-98 | the grid's width, fixed at `new` |
| Canvas.Canvas.Height | crates/ipcanvas-service/src/canvas/mod.rs:101-103 | the grid's height, fixed at `new` |
| Canvas.CanvasPixelIter.constructor | crates/ipcanvas-service/src/canvas/mod.rs:128-130 | starts at position 0 |
| Canvas.CanvasPixelIter.Next | crates/ipcanvas-service/src/canvas/mod.rs:136-155 | before the end: the pixel at the current row-major position, then one step on; at the end: `None`, without moving |
| Canvas.CanvasPixelIter.PositionInRange | crates/ipcanvas-service/src/canvas/mod.rs:147-151 | the iterator never passes the last cell |
| Canvas.CanvasPixelIter.Len | crates/ipcanvas-service/src/canvas/mod.rs:158-161 | `len` plus the position is `width * height`, so each successful `next` lowers it by one |
| Canvas.Collect | crates/ipcanvas-service/src/canvas/mod.rs:106-108 | collecting the iterator yields the rest of the row-major order; from a new iterator, every cell exactly once |
| Canvas.ExampleGridCells | crates/ipcanvas-service/src/canvas/mod.rs:196-209 | after the three writes of the iterator test, the four cells read red, green, blue and white |
| Canvas.ExampleRowMajor | crates/ipcanvas-service/src/canvas/mod.rs:196-246 | the row-major order of that grid is the four pixels the test expects |
| Canvas.PixelIterExample | crates/ipcanvas-service/src/canvas/mod.rs:196-246 | the iterator test on the `Canvas` class collects exactly those four pixels |
| CanvasDiff.CanvasDiff.IsEmpty | crates/ipcanvas-service/src/canvas/diff.rs:22-24 | empty iff no pixel is listed |
| CanvasDiff.CanvasDiff.ChangedPixels | crates/ipcanvas-service/src/canvas/diff.rs:17-19 | the listed pixels, in order |
| CanvasDiff.NewDiff | crates/ipcanvas-service/src/canvas/diff.rs:10-14 | the new diff is empty |
| CanvasDiff.Diff | crates/ipcanvas-service/src/canvas/diff.rs:29-46 | the nested loops compute `Changes` over every row of `self` |
| CanvasDiff.RowChangesMember | crates/ipcanvas-service/src/canvas/diff.rs:33-42 | a row's changes are exactly its changed cells left of the bound, with the other canvas's colour |
| CanvasDiff.ChangesMember | crates/ipcanvas-service/src/canvas/diff.rs:32-43 | the changes of the first rows are exactly their changed cells |
| CanvasDiff.DiffMember | crates/ipcanvas-service/src/canvas/diff.rs:29-46 | `(x, y, c)` is listed iff it is in both canvases' bounds, their colours differ there, and `c` is the other canvas's colour |
| CanvasDiff.RowChangesSorted | crates/ipcanvas-service/src/canvas/diff.rs:33 | one row's changes are strictly left to right |
| CanvasDiff.ChangesSorted | crates/ipcanvas-service/src/canvas/diff.rs:32-33 | the changes are strictly increasing in row-major order |
| CanvasDiff.DiffSorted | crates/ipcanvas-service/src/canvas/diff.rs:32-33 | the diff is in strict row-major order, so no cell is repeated |
| CanvasDiff.RowChangesSize | crates/ipcanvas-service/src/canvas/diff.rs:33-42 | at most one change per cell of the row |
| CanvasDiff.ChangesSize | crates/ipcanvas-service/src/canvas/diff.rs:32-43 | at most `width` changes per row |
| CanvasDiff.DiffSize | crates/ipcanvas-service/src/canvas/diff.rs:32-33 | at most `width * height` changes |
| CanvasDiff.SelfChangesEmpty | crates/ipcanvas-service/src/canvas/diff.rs:37 | a canvas has no changes against itself |
| CanvasDiff.ApplyAll | crates/ipcanvas-service/src/canvas/mod.rs:86-93 | `set_pixel` for each listed pixel in turn keeps the grid's size |
| CanvasDiff.ApplyAllSnoc | crates/ipcanvas-service/src/canvas/mod.rs:86-93 | replaying one more pixel is one more `set_pixel` |
| CanvasDiff.ChangedCellCopied | crates/ipcanvas-service/src/canvas/diff.rs:32-42 | writing a changed pixel's new colour copies one more cell from the other canvas |
| CanvasDiff.ApplyRowChanges | crates/ipcanvas-service/src/canvas/diff.rs:32-42 | replaying the changes so far copies exactly the cells visited so far from the other canvas |
| CanvasDiff.ApplyDiff | crates/ipcanvas-service/src/canvas/diff.rs:3-5 | for canvases of one size, replaying the diff on `a` gives `b` |
| CanvasDiff.DiffEmptyIffEqual | crates/ipcanvas-service/src/canvas/diff.rs:22-24 | for canvases of one size, the diff is empty iff they are equal |
| SendPingEvent.CreatePingEvent | scripts/send_ping_event.py:13-18 | 32 bytes: the source octets then the destination octets, the layout `from_bytes` reads |
| SendPingEvent.PixelDestination | scripts/send_ping_event.py:21 | octets 0..6 are `20 01 0d b8 85 a3`; `x` is big-endian in 6..8 and `y` in 8..10; octets 10, 12, 14 are 0; `r`, `g`, `b` are at 11, 13, 15 |
| SendPingEvent.CreatePixelPing | scripts/send_ping_event.py:20-22 | a record iff `x, y < 65536` and `r, g, b < 256` (all non-negative), from `SRC_ADDR` to the pixel address |
| PixelPing.PixelPingRoundTrip | scripts/send_ping_event.py:20-22 | the standalone `handle_ping_event` decodes `create_pixel_ping(x, y, r, g, b)` to `PlacePixel{x, y, (r, g, b)}` |
| PixelPing.CompiledPixelPing | crates/ipcanvas-service/src/ping/mod.rs:90-98 | the compiled server decodes every pixel ping of the script to its `x`, `y` with colour `(0x34, 0x70, 0x2e)` |
| PixelPing.CompiledRedPing | crates/ipcanvas-service/src/ping/mod.rs:94-96 | the script's red ping at (10, 20) does not decode to red under the compiled server |
| PixelPing.ServersAgreeOnCoordinates | crates/ipcanvas-service/src/ping/mod.rs:90-92 | both servers decode the same `x` and `y` from any record |
| PixelPing.ServersAgreeIff | crates/ipcanvas-service/src/ping/mod.rs:93-97 | both servers decode the same event iff source octets 15, 13, 11 equal destination octets 11, 13, 15 |
| PixelPing.ScriptPings | scripts/send_ping_event.py:28-31 | the four pings of the script decode under the standalone server to red (10,20), yellow (15,25), white (30,40), green (256,256) |

## Left out

- The service binary (`ipcanvas-service/src/main.rs`) is not part of this model: it is a tokio TCP accept loop with socket reads and Ctrl-C handling, that is, asynchronous I/O.
- The eBPF loader (`ipcanvas-ping/src/main.rs`) and the XDP program (`ipcanvas-ping-ebpf`) are kernel attachment, ring buffers and raw packet pointers. They are foreign runtime pieces.
- `Ipv6Prefix::from_str`, `Display for Ipv6Prefix`, and `PingEvent::source`/`destination` go through the standard library's IPv6 text and `Ipv6Addr` forms. The model works on the 16-octet array throughout.
- `Display for PingServerError` is string formatting only.
- The script's `__main__` (socket connect, `sendall`, `sleep`) is I/O. Its `inet_pton` calls are replaced by building the octets directly. The text form of the address is not modelled. Out-of-range fields, which make `inet_pton` raise, become `None`.
- `Canvas::pixels` and `IntoIterator for &Canvas` only construct a `CanvasPixelIter`, which the iterator's constructor models.
- `Event::PlaceLabel` is never produced by either server and is left out of `Event`.
- Ping.PingServer and PingStandalone.PingServer: `Vec::with_capacity` may allocate more than asked. The model treats the capacity as exactly the one given to `new`, as the tests do.
- Ping.PingServer.constructor and PingStandalone.PingServer.constructor: the `debug_assert!`s are preconditions, so the debug-build panic on small capacities is not modelled.
- Prefix.Matches: the `debug_assert!(prefix_len <= 128)` is not a precondition. Longer lengths are modelled as the code runs them in release builds, which compare all 16 octets.
- Machine-width arithmetic is not modelled where it cannot overflow. `usize` indices and lengths are unbounded `nat`s. The iterator's `x += 1` and `y += 1` need no wrap-around, because they never pass the canvas's `u16` width or height.

## Findings

| source | as written | input that shows it | evidently intended | confidence | as-written member | corrected member |
|---|---|---|---|---|---|---|
| crates/ipcanvas-service/src/ping/mod.rs:94-96 | the compiled server reads the colour from source octets 15, 13 and 11 | `create_pixel_ping(10,20,255,0,0)` decodes to colour `(0x34, 0x70, 0x2e)`, not red | the colour from destination octets 11, 13 and 15, as `ping/server.rs:100-103`, its tests and the script's ping names have it | not executed | PixelPing.CompiledRedPing | PixelPing.PixelPingRoundTrip |

`Ping` keeps `mod.rs` as written, so that its contracts describe the
binary the service builds. The corrected decode is the standalone
server's `PingStandalone.HandlePingEvent`. `PixelPing.PixelPingRoundTrip`
proves that this decode inverts the script for every pixel in range.
`PixelPing.ServersAgreeIff` states exactly when the two decodes agree.
