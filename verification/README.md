# Pubstack analytics: batching event channel

A Dafny model of the batching core of the pubstack analytics module of
Prebid Server. Application events (serialized auction objects) are written
one by one into a gzip-compressed in-memory buffer. When enough events or
bytes have accumulated, or when a timer fires, the buffer is finalised and
sent to a remote intake, and a fresh buffer takes its place.

The core appears twice in the source, and both versions are modelled:

- `EventChannel` models `Channel` from `analytics/pubstack/eventchannel/channel.go`.
  - The class `Channel` holds the Go struct's buffer and writer pair
    (`GzipBuffer`) and its `metrics` (`ChannelMetrics`, as `Metrics`). It also
    holds the thresholds `maxSize` and `maxCount`, which `forward` takes as
    parameters, and a ghost log `sent` of the payloads handed to the intake.
    The struct's `intake` is one URL with the route joined onto it. The class
    keeps the intake and the route as two opaque strings. The struct's
    channel `ch` is left out with the rest of the concurrency.
  - `Step` is one iteration of `forward`'s `select`, and `Forward` runs the loop
    over a finite sequence of inputs.
  - Each method is proved against the pure functions `Next` and `Run`. The
    lemmas about those functions state the flush policy, the counters and the
    contents of every batch.
- `Pubstack` models `pubstack_module.go`.
  - `HandleBuffer` is the earlier loop, written as a method whose locals are
    the buffer/writer, the event count and the deliveries made so far.
  - `SendBuffer` finalises, reads and replaces the buffer.
  - The pure functions `LoopNext` and `LoopRun` specify the loop, and lemmas
    about them state its exact-equality triggers, its count invariant, its
    tick rule and its newline-delimited batches.
  - `NewPubstackModule` and the `Log*Object` functions model the module's
    constructor and its log methods.

Modelling conventions:

- gzip is opaque. A `GzipBuffer` records the bytes its writer has accepted
  (`content`, which is what decompressing the finished stream gives back),
  the compressed length of the buffer (`len`), and whether the stream was
  closed.
- The caller supplies what the environment would decide:
  - whether the writer accepts an event, and the buffer length afterwards;
  - whether reading the finished buffer succeeds;
  - whether the intake answers 200.
- A rejected write leaves the buffer unchanged.
- A payload is modelled by its uncompressed content.
- Each arm of a `select` (an event received, a ticker tick) is one input, so
  there is no real time and no blocking.

How the two versions differ, and what the code does at its edges:

- Unlike the earlier loop, `Channel` flushes on every tick, even with nothing
  pending, so it can send a batch holding no events (`TickSendsEmptyBatch`).
  The earlier loop leaves the buffer alone on a tick when its count is zero
  (`TimeoutFlushesOnlyPending`).
- `Channel` flushes when a threshold is reached or passed (`>=`). The earlier
  loop flushes only when `eventCount == 4` or the buffer length is exactly
  2,000,000, so a length that jumps past 2,000,000 sends nothing
  (`SizeTriggerIsExact`).
- The earlier loop ignores write errors, so a rejected event is still counted.
  Its tick rule looks at the count, not at the buffer. So a tick after a
  rejected write sends a batch with no record in it
  (`RejectedWriteThenTickSendsEmpty`). The gzip writer writes into an
  in-memory `bytes.Buffer`, whose writes do not fail, so in practice every
  write is accepted. While every write is accepted, a tick never sends an
  empty batch (`TickAfterAcceptedWritesSendsRecords`).
- Both `flush` and `sendBuffer` read the finished `bytes.Buffer` into a slice
  of its own length, and that read cannot fail. `sendBuffer` still handles a
  failed read by returning a nil buffer and a nil writer. The next event
  would then write through the nil writer, which panics in Go. The model
  keeps this path as the code is written, with a `Panicked` state where
  `HandleBuffer` stops (`FailedReadThenArrivalPanics`). Since the read cannot
  fail, `ReadsSucceed` always holds in practice and the loop never reaches
  this path (`LoopRunKeepsBuffer`).
- There is no feature-to-channel map and no runtime reconfiguration in these
  files, so none is modelled.

## Model

| member | source | states |
|---|---|---|
| `Gzip.GzipBuffer.constructor` | analytics/pubstack/eventchannel/channel.go:113-114 | a new buffer and writer hold nothing and are open |
| `Gzip.GzipBuffer.Write` | analytics/pubstack/eventchannel/channel.go:55 | an accepted write appends exactly the event's bytes and takes the reported length; a rejected one changes nothing; the result is the write's success |
| `Gzip.GzipBuffer.Close` | analytics/pubstack/eventchannel/channel.go:77 | closing finalises the stream without changing what was written |
| `EventChannel.FailedWriteOnlyCountsError` | analytics/pubstack/eventchannel/channel.go:55-60 | a failed compression write raises `eventError` by exactly one and leaves the buffer, `eventCount`, `bufferSize` and the sent log unchanged (no flush) |
| `EventChannel.AcceptedEventFlushIff` | analytics/pubstack/eventchannel/channel.go:61-65 | an accepted event sends at most one batch, namely the old content followed by the event; it sends iff `eventCount + 1 >= maxCount` or the new size `>= maxSize`, and then all metrics become zero; otherwise nothing is sent, the event is appended, the count rises by one and `bufferSize` is the buffer's length |
| `EventChannel.TickAlwaysFlushes` | analytics/pubstack/eventchannel/channel.go:67-68 | every tick sends whatever is pending and resets buffer and metrics, unconditionally |
| `EventChannel.TickSendsEmptyBatch` | analytics/pubstack/eventchannel/channel.go:67-68 | a tick on a fresh channel sends a batch with no event in it |
| `EventChannel.RunKeepsCountBelowMax` | analytics/pubstack/eventchannel/channel.go:61-65 | with `maxCount >= 1`, `0 <= eventCount < maxCount` after every processed input of any run |
| `EventChannel.NextConserves` | analytics/pubstack/eventchannel/channel.go:54-68 | one step never changes sent batches, and the sent batches followed by the buffer grow by exactly the bytes the writer accepted in that step |
| `EventChannel.RunSentGrows` | analytics/pubstack/eventchannel/channel.go:73-91 | over any run the sent log only grows: earlier batches are never altered or dropped |
| `EventChannel.RunConserves` | analytics/pubstack/eventchannel/channel.go:48-71 | over any run, all sent batches followed by the pending buffer equal the earlier ones, the earlier buffer, then the accepted events in arrival order; rejected events contribute nothing |
| `EventChannel.RunWithoutFlush` | analytics/pubstack/eventchannel/channel.go:54-65 | while nothing is sent, the buffer grows by the accepted events, `eventCount` by their number and `eventError` by the number of rejected ones |
| `EventChannel.BatchIsAcceptedEvents` | analytics/pubstack/eventchannel/channel.go:54-88 | a batch is exactly what was pending at the previous flush followed by the events accepted since, in arrival order |
| `EventChannel.Channel.constructor` | analytics/pubstack/eventchannel/channel.go:109-124 | NewChannel starts with an empty open buffer, all metrics zero and nothing sent |
| `EventChannel.Channel.ResetMetrics` | analytics/pubstack/eventchannel/channel.go:23-27 | `eventCount`, `bufferSize` and `eventError` are all zero afterwards |
| `EventChannel.Channel.Flush` | analytics/pubstack/eventchannel/channel.go:73-91 | metrics are zero, the old buffer is closed, a fresh empty buffer and writer are installed, and the payload sent is exactly the old buffer's content |
| `EventChannel.Channel.Step` | analytics/pubstack/eventchannel/channel.go:52-69 | one input moves the channel as `Next` says; the buffer object is kept unless a batch was sent, in which case the old one is closed and the new one is fresh; the invariant (open buffer, `bufferSize` is the buffer length, count below a positive `maxCount`) is kept |
| `EventChannel.Channel.Add` | analytics/pubstack/eventchannel/channel.go:44-46 | an added event is processed by the loop exactly as an event input |
| `EventChannel.Channel.Forward` | analytics/pubstack/eventchannel/channel.go:48-71 | the loop over a sequence of inputs ends in the state `Run` gives, keeping the invariant |
| `Pubstack.ArrivalFlushIff` | analytics/pubstack/pubstack_module.go:63-77 | after an event the count resets iff it reached exactly 4 or the buffer length is exactly 2,000,000; a successful read sends old content plus the event and a trailing newline to "auction"; a failed read sends nothing and leaves a nil buffer; the count is 0 after any flush |
| `Pubstack.SizeTriggerIsExact` | analytics/pubstack/pubstack_module.go:71 | a buffer that grows from empty to 2,000,001 bytes is not sent, while one that reaches exactly 2,000,000 is |
| `Pubstack.TimeoutFlushesOnlyPending` | analytics/pubstack/pubstack_module.go:79-87 | a tick with no pending event changes nothing; with pending events it resets the count and sends the buffer if it can be read |
| `Pubstack.FailedReadThenArrivalPanics` | analytics/pubstack/pubstack_module.go:37-43 | a failed read leaves a nil buffer and writer with count 0 and sends nothing; the next event then panics on the nil writer |
| `Pubstack.LoopNextKeepsInvariant` | analytics/pubstack/pubstack_module.go:57-87 | one step keeps `0 <= eventCount < MAX_BUFF_EVENT_COUNT`, with a nil buffer only at count 0 |
| `Pubstack.LoopRunKeepsInvariant` | analytics/pubstack/pubstack_module.go:52-90 | the invariant `0 <= eventCount < 4` holds after every event or tick of any run |
| `Pubstack.PanicIsFinal` | analytics/pubstack/pubstack_module.go:61-66 | once the loop has panicked, later inputs change nothing |
| `Pubstack.DeliveriesGoToAuction` | analytics/pubstack/pubstack_module.go:72-82 | every batch the loop sends goes to the module's intake on the "auction" path, and earlier deliveries are never changed |
| `Pubstack.LoopNextConserves` | analytics/pubstack/pubstack_module.go:63-87 | a step whose read succeeds grows the sent payloads followed by the buffer by exactly that event's record (event bytes and `'\n'`) |
| `Pubstack.LoopRunKeepsBuffer` | analytics/pubstack/pubstack_module.go:37-50 | while every read succeeds the loop always has a buffer and never panics |
| `Pubstack.LoopRunConserves` | analytics/pubstack/pubstack_module.go:63-76 | while every read succeeds, the sent payloads followed by the buffer are the accepted events in arrival order, each followed by exactly one `'\n'` |
| `Pubstack.LoopRunWithoutSend` | analytics/pubstack/pubstack_module.go:63-68 | while reads succeed and nothing is sent, the buffer is the earlier buffer followed by one newline-terminated record per accepted event |
| `Pubstack.BatchIsRecords` | analytics/pubstack/pubstack_module.go:63-87 | each batch sent to "auction" is what was pending at the previous send followed by one record (event bytes and `'\n'`) per event accepted since, in arrival order |
| `Pubstack.LoopNextKeepsRecordPerEvent` | analytics/pubstack/pubstack_module.go:63-87 | an accepted write or a tick keeps `eventCount` at most the buffer's length (at least one byte per counted event) |
| `Pubstack.LoopRunKeepsRecordPerEvent` | analytics/pubstack/pubstack_module.go:52-90 | while every write is accepted, the buffer holds at least one byte per counted event |
| `Pubstack.TickAfterAcceptedWritesSendsRecords` | analytics/pubstack/pubstack_module.go:79-87 | while every write is accepted, a tick either sends nothing or sends the pending buffer, which is not empty |
| `Pubstack.RejectedWriteThenTickSendsEmpty` | analytics/pubstack/pubstack_module.go:63-87 | a rejected write is still counted, so a tick after it sends a batch with no record |
| `Pubstack.SendBuffer` | analytics/pubstack/pubstack_module.go:37-50 | closes the writer; on a read failure returns a nil buffer and writer and the read error and sends nothing; otherwise returns a fresh empty buffer and writer, posts the whole old content to the target path and returns the post's error |
| `Pubstack.HandleBuffer` | analytics/pubstack/pubstack_module.go:52-90 | the loop's final locals and deliveries are those `LoopRun` gives from the initial state (empty buffer, count 0), including a panic on a nil writer |
| `Pubstack.NewPubstackModule` | analytics/pubstack/pubstack_module.go:124-148 | succeeds iff the URL parses and the health probe passes; otherwise it fails with "endpoint url is invalid" (checked first) or "fail to reach endpoint" and yields no module, hence no loop |
| `Pubstack.LogAuctionObject` | analytics/pubstack/pubstack_module.go:93-101 | drops the auction when serialization (with the module's scope) fails, otherwise pushes exactly that one payload |
| `Pubstack.LogVideoObject` | analytics/pubstack/pubstack_module.go:104-106 | pushes nothing |
| `Pubstack.LogSetUIDObject` | analytics/pubstack/pubstack_module.go:109-111 | pushes nothing |
| `Pubstack.LogCookieSyncObject` | analytics/pubstack/pubstack_module.go:114-116 | pushes nothing |
| `Pubstack.LogAmpObject` | analytics/pubstack/pubstack_module.go:119-121 | pushes nothing |
| `Pubstack.RouteOnlyAuctions` | analytics/pubstack/pubstack_module.go:93-121 | only auction calls reach the loop, at most one payload each |

## Left out

- The HTTP delivery is left out: the request building and `http.DefaultClient.Do` in `flush`, `sendPayloadToTarget`, `testEndpoint` and `eventchannel/sender.go` are network I/O. A send is a ghost log entry in `Channel` and a returned `Delivery` in the earlier loop. The probe's result is an input. The nil-response dereference after a transport error in `flush` and in `sendPayloadToTarget` is not modelled.
- The gzip internals (`Write`, `Flush`, `Close`) are a library: a write is an append, and its success and the resulting length are inputs. A rejected write is taken to leave the buffer unchanged. The earlier loop's `gzWriter.Flush()` is folded into the length it reports.
- `EventChannel.Channel.Flush` does not model the logged read error in `flush`. Reading a `bytes.Buffer` into a slice of its own length cannot fail, so the payload sent is always the whole buffer.
- Goroutines, the struct's channel `ch`, channel send and receive, `time.Ticker`, and the ticker periods (including `BUFF_TIMEOUT_MINUTES`) are concurrency and timing. Each `select` arm is an input, and a run is a finite sequence of inputs. `time.NewTicker`'s panic on a non-positive period is not modelled.
- JSON serialization (`jsonifyAuctionObject`, `helpers/json.go`) is an oracle function from an object and the scope to bytes or failure. The variant in `helpers/json.go` adds its own newline, but `pubstack_module.go` does not use it.
- `url.Parse` and `path.Join` are string handling: the intake and route are opaque strings, and URL parsing in `NewPubstackModule` is an input.
- `glog` logging and `printMetrics` only produce log output.
- `EventChannel.Channel`: the `int64` metrics are unbounded integers. Wrap-around after 2^63 events without a flush is not modelled.
- `adapters/triplelift/usersync.go` is a registration stub with no logic.
