/**
 * The pubstack analytics module: a single batching loop (handleBuffer)
 * with hard-coded thresholds that writes every received auction payload,
 * newline-terminated, into a gzip-backed buffer and sends the buffer to
 * the intake's "auction" path when four events have arrived, when the
 * buffer is exactly 2,000,000 bytes long, or on a timeout tick with
 * events pending; the module's log methods route auction objects into
 * that loop and drop every other kind; its constructor validates the
 * endpoint first.
 *
 * As in the event channel model, each arm of the loop's select is an
 * input, and what the gzip writer, the buffer read and the HTTP post
 * report is supplied with the input.
 */
module Pubstack {
  import opened Wrappers
  import opened Gzip

  const MaxBuffEventCount := 4
  const MaxBuffSizeBytes := 2 * 1000000
  const AuctionPath := "auction"

  /** The byte appended to every event before it is written. */
  const Newline: byte := 10

  /** What the environment reports if this step sends the buffer: whether
      reading the finished buffer succeeded, and whether the intake
      answered the post with 200. */
  datatype SendIo = SendIo(readOk: bool, postOk: bool)

  /** One arm of the select in handleBuffer: an event received from the
      module (with whether the gzip writer accepted it and the buffer
      length after the write and flush of the writer), or a tick. */
  datatype LoopInput =
    | Arrival(evt: seq<byte>, writeOk: bool, observedLen: nat, io: SendIo)
    | Timeout(io: SendIo)

  /** A payload handed to the intake: the base intake URL, the path joined
      onto it, and the payload's uncompressed content. */
  datatype Delivery = Delivery(intake: string, path: string, payload: seq<byte>)

  datatype SendError = ReadFailed | PostFailed

  /** The current buffer: its uncompressed content and its length. */
  datatype Pending = Pending(content: seq<byte>, len: nat)

  /** The locals of handleBuffer (buffer and writer, nil after a failed
      read; the event count) with the deliveries made so far; or the loop
      after it dereferenced a nil writer, which panics. */
  datatype LoopState =
    | Running(buffer: Option<Pending>, eventCount: int, sent: seq<Delivery>)
    | Panicked(sent: seq<Delivery>)

  const LoopStart := Running(Some(Pending([], 0)), 0, [])

  /** sendBuffer followed by `eventCount = 0`: on a failed read the buffer
      and writer become nil and nothing is sent; otherwise a fresh empty
      buffer is installed and the old content is posted to "auction". */
  function FlushLoop(intake: string, p: Pending, sent: seq<Delivery>, io: SendIo): LoopState
  {
    if io.readOk then Running(Some(Pending([], 0)), 0, sent + [Delivery(intake, AuctionPath, p.content)])
    else Running(None, 0, sent)
  }

  /** One iteration of handleBuffer. */
  function LoopNext(intake: string, s: LoopState, input: LoopInput): LoopState
  {
    match s
    case Panicked(_) => s
    case Running(buffer, n, sent) =>
      match input
      case Arrival(evt, writeOk, observedLen, io) =>
        if buffer.None? then Panicked(sent)
        else
          var p := if writeOk then Pending(buffer.value.content + (evt + [Newline]), observedLen)
                   else buffer.value;
          if n + 1 == MaxBuffEventCount || p.len == MaxBuffSizeBytes then FlushLoop(intake, p, sent, io)
          else Running(Some(p), n + 1, sent)
      case Timeout(io) =>
        if n <= 0 then s
        else if buffer.None? then Panicked(sent)
        else FlushLoop(intake, buffer.value, sent, io)
  }

  /** handleBuffer run over a finite sequence of inputs, in order. */
  function LoopRun(intake: string, s: LoopState, inputs: seq<LoopInput>): LoopState
  {
    if inputs == [] then s
    else LoopNext(intake, LoopRun(intake, s, inputs[..|inputs| - 1]), inputs[|inputs| - 1])
  }

  /** The newline-terminated records an input adds to the buffer. */
  function Record(x: LoopInput): seq<byte>
  {
    if x.Arrival? && x.writeOk then x.evt + [Newline] else []
  }

  /** The records of all accepted events, in arrival order. */
  function Framed(inputs: seq<LoopInput>): seq<byte>
  {
    if inputs == [] then []
    else Framed(inputs[..|inputs| - 1]) + Record(inputs[|inputs| - 1])
  }

  /** Every send during these inputs reads the buffer successfully. */
  predicate ReadsSucceed(inputs: seq<LoopInput>)
  {
    inputs == [] || (ReadsSucceed(inputs[..|inputs| - 1]) && inputs[|inputs| - 1].io.readOk)
  }

  function Payloads(ds: seq<Delivery>): seq<seq<byte>>
  {
    seq(|ds|, k requires 0 <= k < |ds| => ds[k].payload)
  }

  /** The state invariant of the loop: the count is below the count
      threshold, and a nil buffer only occurs with nothing counted. */
  ghost predicate LoopInvariant(s: LoopState)
  {
    s.Running? ==> 0 <= s.eventCount < MaxBuffEventCount && (s.buffer.None? ==> s.eventCount == 0)
  }

  // ---------------------------------------------------------------------
  // Properties of one step
  // ---------------------------------------------------------------------

  /** After an event the buffer is sent if and only if the count reaches
      exactly four or the buffer length is exactly 2,000,000. A send posts
      the old content followed by the new record to "auction"; any flush,
      whether the read succeeded or not, leaves the count at zero. */
  lemma ArrivalFlushIff(intake: string, b: Pending, n: int, sent: seq<Delivery>,
                        evt: seq<byte>, writeOk: bool, observedLen: nat, io: SendIo)
    requires 0 <= n < MaxBuffEventCount
    ensures var r := LoopNext(intake, Running(Some(b), n, sent), Arrival(evt, writeOk, observedLen, io));
      var len := if writeOk then observedLen else b.len;
      var content := b.content + (if writeOk then evt + [Newline] else []);
      && r.Running?
      && (r.eventCount == 0 <==> n + 1 == MaxBuffEventCount || len == MaxBuffSizeBytes)
      && (r.eventCount == 0 && io.readOk ==>
            r.sent == sent + [Delivery(intake, AuctionPath, content)] && r.buffer == Some(Pending([], 0)))
      && (r.eventCount == 0 && !io.readOk ==> r.sent == sent && r.buffer.None?)
      && (r.eventCount != 0 ==> r.sent == sent && r.eventCount == n + 1 && r.buffer == Some(Pending(content, len)))
  {
    assert b.content + [] == b.content;
  }

  /** The size trigger is an exact comparison: a write that takes the
      buffer from empty past 2,000,000 bytes sends nothing, whereas one
      that lands on 2,000,000 sends. */
  lemma SizeTriggerIsExact(intake: string, evt: seq<byte>, io: SendIo)
    requires io.readOk
    ensures LoopNext(intake, LoopStart, Arrival(evt, true, MaxBuffSizeBytes + 1, io))
         == Running(Some(Pending(evt + [Newline], MaxBuffSizeBytes + 1)), 1, [])
    ensures LoopNext(intake, LoopStart, Arrival(evt, true, MaxBuffSizeBytes, io))
         == Running(Some(Pending([], 0)), 0, [Delivery(intake, AuctionPath, evt + [Newline])])
  {
    assert [] + (evt + [Newline]) == evt + [Newline];
  }

  /** A tick sends only when events are pending: with none it changes
      nothing; with some it resets the count and sends the buffer when it
      can be read. */
  lemma TimeoutFlushesOnlyPending(intake: string, s: LoopState, io: SendIo)
    requires s.Running? && s.buffer.Some?
    ensures s.eventCount <= 0 ==> LoopNext(intake, s, Timeout(io)) == s
    ensures s.eventCount > 0 ==>
      && LoopNext(intake, s, Timeout(io)).Running?
      && LoopNext(intake, s, Timeout(io)).eventCount == 0
      && LoopNext(intake, s, Timeout(io)).sent
           == s.sent + (if io.readOk then [Delivery(intake, AuctionPath, s.buffer.value.content)] else [])
  {
  }

  /** A failed read leaves the loop with a nil writer and sends nothing;
      the next event then dereferences the nil writer. */
  lemma FailedReadThenArrivalPanics(intake: string, p: Pending, sent: seq<Delivery>, io: SendIo, x: LoopInput)
    requires !io.readOk && x.Arrival?
    ensures FlushLoop(intake, p, sent, io) == Running(None, 0, sent)
    ensures LoopNext(intake, FlushLoop(intake, p, sent, io), x) == Panicked(sent)
  {
  }

  lemma LoopNextKeepsInvariant(intake: string, s: LoopState, x: LoopInput)
    requires LoopInvariant(s)
    ensures LoopInvariant(LoopNext(intake, s, x))
  {
  }

  // ---------------------------------------------------------------------
  // Properties of runs
  // ---------------------------------------------------------------------

  lemma LoopRunSnoc(intake: string, s: LoopState, inputs: seq<LoopInput>, x: LoopInput)
    ensures LoopRun(intake, s, inputs + [x]) == LoopNext(intake, LoopRun(intake, s, inputs), x)
  {
    assert (inputs + [x])[..|inputs|] == inputs;
  }

  /** 0 <= eventCount < MAX_BUFF_EVENT_COUNT after every event or tick. */
  lemma {:induction false} LoopRunKeepsInvariant(intake: string, s: LoopState, inputs: seq<LoopInput>)
    requires LoopInvariant(s)
    ensures LoopInvariant(LoopRun(intake, s, inputs))
  {
    if inputs != [] {
      LoopRunKeepsInvariant(intake, s, inputs[..|inputs| - 1]);
      LoopNextKeepsInvariant(intake, LoopRun(intake, s, inputs[..|inputs| - 1]), inputs[|inputs| - 1]);
    }
  }

  /** Once the loop has panicked, later inputs change nothing. */
  lemma {:induction false} PanicIsFinal(intake: string, s: LoopState, inputs: seq<LoopInput>, k: nat)
    requires k <= |inputs|
    requires LoopRun(intake, s, inputs[..k]).Panicked?
    ensures LoopRun(intake, s, inputs) == LoopRun(intake, s, inputs[..k])
  {
    if k < |inputs| {
      var init := inputs[..|inputs| - 1];
      assert init[..k] == inputs[..k];
      PanicIsFinal(intake, s, init, k);
    } else {
      assert inputs[..k] == inputs;
    }
  }

  /** Every delivery the loop makes goes to the intake's "auction" path,
      and earlier deliveries are never changed. */
  lemma {:induction false} DeliveriesGoToAuction(intake: string, s: LoopState, inputs: seq<LoopInput>)
    ensures s.sent <= LoopRun(intake, s, inputs).sent
    ensures forall k :: |s.sent| <= k < |LoopRun(intake, s, inputs).sent| ==>
      LoopRun(intake, s, inputs).sent[k].intake == intake && LoopRun(intake, s, inputs).sent[k].path == AuctionPath
  {
    if inputs != [] {
      var init := inputs[..|inputs| - 1];
      DeliveriesGoToAuction(intake, s, init);
      var p := LoopRun(intake, s, init);
      var r := LoopNext(intake, p, inputs[|inputs| - 1]);
      assert p.sent <= r.sent;
      assert r.sent[..|s.sent|] == p.sent[..|s.sent|] == s.sent;
    }
  }

  lemma PayloadsSnoc(ds: seq<Delivery>, d: Delivery)
    ensures Payloads(ds + [d]) == Payloads(ds) + [d.payload]
  {
  }

  /** One step that reads successfully keeps the stream: the sent payloads
      followed by the buffer grow by exactly this input's record. */
  lemma LoopNextConserves(intake: string, p: LoopState, x: LoopInput)
    requires p.Running? && p.buffer.Some?
    requires x.io.readOk
    ensures LoopNext(intake, p, x).Running? && LoopNext(intake, p, x).buffer.Some?
    ensures Flatten(Payloads(LoopNext(intake, p, x).sent)) + LoopNext(intake, p, x).buffer.value.content
         == Flatten(Payloads(p.sent)) + p.buffer.value.content + Record(x)
  {
    var r := LoopNext(intake, p, x);
    var b := p.buffer.value;
    if r.sent != p.sent {
      assert r.sent == p.sent + [Delivery(intake, AuctionPath, b.content + Record(x))] && r.buffer.value.content == [] by {
        match x
        case Timeout(_) =>
          assert b.content + [] == b.content;
        case Arrival(_, _, _, _) =>
          assert b.content + [] == b.content;
      }
      PayloadsSnoc(p.sent, Delivery(intake, AuctionPath, b.content + Record(x)));
      assert Payloads(r.sent)[..|p.sent|] == Payloads(p.sent);
    } else {
      assert r.buffer.value.content == b.content + Record(x) by {
        match x
        case Timeout(_) =>
          assert b.content + [] == b.content;
        case Arrival(_, _, _, _) =>
          assert b.content + [] == b.content;
      }
    }
  }

  /** While every read succeeds the loop keeps a buffer and never panics. */
  lemma {:induction false} LoopRunKeepsBuffer(intake: string, s: LoopState, inputs: seq<LoopInput>)
    requires s.Running? && s.buffer.Some?
    requires ReadsSucceed(inputs)
    ensures LoopRun(intake, s, inputs).Running? && LoopRun(intake, s, inputs).buffer.Some?
  {
    if inputs != [] {
      LoopRunKeepsBuffer(intake, s, inputs[..|inputs| - 1]);
      LoopNextConserves(intake, LoopRun(intake, s, inputs[..|inputs| - 1]), inputs[|inputs| - 1]);
    }
  }

  /** A batch is newline-delimited records in arrival order: while every
      read succeeds, the sent payloads followed by the buffer are the
      earlier ones, the earlier buffer, and then one record per accepted
      event, each the event followed by a newline. */
  lemma {:induction false} LoopRunConserves(intake: string, s: LoopState, inputs: seq<LoopInput>)
    requires s.Running? && s.buffer.Some?
    requires ReadsSucceed(inputs)
    ensures LoopRun(intake, s, inputs).Running? && LoopRun(intake, s, inputs).buffer.Some?
    ensures Flatten(Payloads(LoopRun(intake, s, inputs).sent)) + LoopRun(intake, s, inputs).buffer.value.content
         == Flatten(Payloads(s.sent)) + s.buffer.value.content + Framed(inputs)
  {
    LoopRunKeepsBuffer(intake, s, inputs);
    if inputs != [] {
      var init := inputs[..|inputs| - 1];
      var x := inputs[|inputs| - 1];
      LoopRunConserves(intake, s, init);
      var p := LoopRun(intake, s, init);
      LoopNextConserves(intake, p, x);
      ghost var before := Flatten(Payloads(s.sent)) + s.buffer.value.content;
      ghost var mid := Flatten(Payloads(p.sent)) + p.buffer.value.content;
      assert mid == before + Framed(init);
      assert Framed(inputs) == Framed(init) + Record(x);
      assert mid + Record(x) == before + Framed(inputs);
    }
  }

  /** Between sends the buffer holds exactly the records accepted since:
      while every read succeeds and nothing is sent, the buffer is the
      earlier buffer followed by one record per accepted event. */
  lemma LoopRunWithoutSend(intake: string, s: LoopState, inputs: seq<LoopInput>)
    requires s.Running? && s.buffer.Some?
    requires ReadsSucceed(inputs)
    requires |LoopRun(intake, s, inputs).sent| == |s.sent|
    ensures LoopRun(intake, s, inputs).Running? && LoopRun(intake, s, inputs).buffer.Some?
    ensures LoopRun(intake, s, inputs).buffer.value.content == s.buffer.value.content + Framed(inputs)
  {
    LoopRunConserves(intake, s, inputs);
    DeliveriesGoToAuction(intake, s, inputs);
    var r := LoopRun(intake, s, inputs);
    assert r.sent == s.sent;
    ghost var a := Flatten(Payloads(s.sent));
    ghost var rest := s.buffer.value.content + Framed(inputs);
    assert a + r.buffer.value.content == a + rest;
    assert r.buffer.value.content == (a + r.buffer.value.content)[|a|..];
    assert rest == (a + rest)[|a|..];
  }

  /** Each batch is newline-delimited records in arrival order: if the
      inputs before the last one send nothing and the last one sends, the
      batch is what was pending followed by one record per accepted event. */
  lemma BatchIsRecords(intake: string, s: LoopState, inputs: seq<LoopInput>)
    requires s.Running? && s.buffer.Some?
    requires ReadsSucceed(inputs)
    requires inputs != []
    requires |LoopRun(intake, s, inputs[..|inputs| - 1]).sent| == |s.sent|
    requires |LoopRun(intake, s, inputs).sent| == |s.sent| + 1
    ensures LoopRun(intake, s, inputs).sent[|s.sent|]
         == Delivery(intake, AuctionPath, s.buffer.value.content + Framed(inputs))
  {
    var init := inputs[..|inputs| - 1];
    var x := inputs[|inputs| - 1];
    LoopRunWithoutSend(intake, s, init);
    var p := LoopRun(intake, s, init);
    var b := p.buffer.value;
    var r := LoopNext(intake, p, x);
    assert r.sent == p.sent + [Delivery(intake, AuctionPath, b.content + Record(x))] by {
      match x
      case Timeout(_) =>
        assert b.content + [] == b.content;
      case Arrival(_, _, _, _) =>
        assert b.content + [] == b.content;
    }
    assert b.content + Record(x) == s.buffer.value.content + Framed(inputs);
  }

  /** Every write among these inputs was accepted. */
  predicate WritesAccepted(inputs: seq<LoopInput>)
  {
    inputs == []
    || (WritesAccepted(inputs[..|inputs| - 1])
        && (inputs[|inputs| - 1].Arrival? ==> inputs[|inputs| - 1].writeOk))
  }

  /** Each event counted since the last send added at least one byte (its
      newline) to the buffer. */
  ghost predicate RecordPerEvent(s: LoopState)
  {
    s.Running? && s.buffer.Some? ==> s.eventCount <= |s.buffer.value.content|
  }

  lemma LoopNextKeepsRecordPerEvent(intake: string, s: LoopState, x: LoopInput)
    requires RecordPerEvent(s)
    requires x.Arrival? ==> x.writeOk
    ensures RecordPerEvent(LoopNext(intake, s, x))
  {
  }

  /** While every write is accepted, each counted event has left a record
      in the buffer. */
  lemma {:induction false} LoopRunKeepsRecordPerEvent(intake: string, s: LoopState, inputs: seq<LoopInput>)
    requires RecordPerEvent(s)
    requires WritesAccepted(inputs)
    ensures RecordPerEvent(LoopRun(intake, s, inputs))
  {
    if inputs != [] {
      LoopRunKeepsRecordPerEvent(intake, s, inputs[..|inputs| - 1]);
      LoopNextKeepsRecordPerEvent(intake, LoopRun(intake, s, inputs[..|inputs| - 1]), inputs[|inputs| - 1]);
    }
  }

  /** While every write is accepted, a tick never sends an empty batch: it
      either sends nothing or sends a payload holding at least one record. */
  lemma TickAfterAcceptedWritesSendsRecords(intake: string, inputs: seq<LoopInput>, io: SendIo)
    requires WritesAccepted(inputs)
    ensures var p := LoopRun(intake, LoopStart, inputs);
      var r := LoopNext(intake, p, Timeout(io));
      r.sent == p.sent || (p.Running? && r.sent == p.sent + [Delivery(intake, AuctionPath, p.buffer.value.content)]
                           && p.buffer.value.content != [])
  {
    LoopRunKeepsRecordPerEvent(intake, LoopStart, inputs);
  }

  /** The tick rule looks at the count, not at the buffer: a rejected write
      is still counted, so a tick after it sends a batch with no record. */
  lemma RejectedWriteThenTickSendsEmpty(intake: string, evt: seq<byte>, io: SendIo)
    requires io.readOk
    ensures LoopRun(intake, LoopStart, [Arrival(evt, false, 0, io), Timeout(io)]).sent
         == [Delivery(intake, AuctionPath, [])]
  {
    var xs := [Arrival(evt, false, 0, io), Timeout(io)];
    assert xs[..1] == [Arrival(evt, false, 0, io)];
    assert xs[..1][..0] == [];
    assert LoopRun(intake, LoopStart, xs[..1]) == Running(Some(Pending([], 0)), 1, []);
  }

  // ---------------------------------------------------------------------
  // The loop
  // ---------------------------------------------------------------------

  /** sendBuffer: finalises the writer and reads the whole buffer; if the
      read fails, returns a nil buffer and writer and the read error and
      sends nothing; otherwise returns a fresh empty buffer and writer,
      posts the old content to the target path, and returns the post's
      error. */
  method SendBuffer(wr: GzipBuffer, intake: string, targetPath: string, io: SendIo)
    returns (next: GzipBuffer?, delivery: Option<Delivery>, err: Option<SendError>)
    modifies wr
    ensures wr.closed && wr.content == old(wr.content) && wr.len == old(wr.len)
    ensures !io.readOk ==> next == null && delivery == None && err == Some(ReadFailed)
    ensures io.readOk ==> next != null && fresh(next) && next.content == [] && next.len == 0 && !next.closed
    ensures io.readOk ==> delivery == Some(Delivery(intake, targetPath, old(wr.content)))
    ensures io.readOk ==> err == (if io.postOk then None else Some(PostFailed))
  {
    wr.Close();
    var payload := wr.content;
    if !io.readOk {
      return null, None, Some(ReadFailed);
    }
    next := new GzipBuffer();
    delivery := Some(Delivery(intake, targetPath, payload));
    err := if io.postOk then None else Some(PostFailed);
  }

  /** handleBuffer over a finite sequence of inputs: returns the loop's
      final locals and the deliveries it made, or the deliveries made
      before it panicked. */
  method HandleBuffer(intake: string, inputs: seq<LoopInput>) returns (final: LoopState)
    ensures final == LoopRun(intake, LoopStart, inputs)
  {
    var buff: GzipBuffer? := new GzipBuffer();
    var eventCount := 0;
    var sent: seq<Delivery> := [];
    var i := 0;
    while i < |inputs|
      invariant 0 <= i <= |inputs|
      invariant buff != null ==> fresh(buff) && !buff.closed
      invariant LoopRun(intake, LoopStart, inputs[..i])
             == Running(if buff == null then None else Some(Pending(buff.content, buff.len)), eventCount, sent)
    {
      LoopRunSnoc(intake, LoopStart, inputs[..i], inputs[i]);
      assert inputs[..i + 1] == inputs[..i] + [inputs[i]];
      match inputs[i] {
        case Arrival(evt, writeOk, observedLen, io) =>
          if buff == null {
            // the write goes through a nil writer
            PanicIsFinal(intake, LoopStart, inputs, i + 1);
            return Panicked(sent);
          }
          var _ := buff.Write(evt + [Newline], writeOk, observedLen);
          eventCount := eventCount + 1;
          if eventCount == MaxBuffEventCount || buff.len == MaxBuffSizeBytes {
            var next, delivery, err := SendBuffer(buff, intake, AuctionPath, io);
            buff := next;
            if delivery.Some? {
              sent := sent + [delivery.value];
            }
            eventCount := 0;
          }
        case Timeout(io) =>
          if eventCount > 0 {
            if buff == null {
              // the writer being closed is nil
              PanicIsFinal(intake, LoopStart, inputs, i + 1);
              return Panicked(sent);
            }
            var next, delivery, err := SendBuffer(buff, intake, AuctionPath, io);
            buff := next;
            if delivery.Some? {
              sent := sent + [delivery.value];
            }
            eventCount := 0;
          }
      }
      i := i + 1;
    }
    assert inputs[..i] == inputs;
    final := Running(if buff == null then None else Some(Pending(buff.content, buff.len)), eventCount, sent);
  }

  // ---------------------------------------------------------------------
  // The module
  // ---------------------------------------------------------------------

  /** PubstackModule: the intake the loop posts to and the scope that is
      serialised into every auction event. */
  datatype PubstackModule = PubstackModule(intake: string, scope: string)

  /** NewPubstackModule, with the outcome of parsing the intake URL and of
      the health probe supplied: each failure is reported with its own
      message and yields no module, so no loop is started. */
  function NewPubstackModule(scope: string, intake: string, urlParses: bool, probeOk: bool)
    : (r: Result<PubstackModule, string>)
    ensures r.Success? <==> urlParses && probeOk
    ensures !urlParses ==> r == Failure("endpoint url is invalid")
    ensures urlParses && !probeOk ==> r == Failure("fail to reach endpoint")
    ensures r.Success? ==> r.value.intake == intake && r.value.scope == scope
  {
    if !urlParses then Failure("endpoint url is invalid")
    else if !probeOk then Failure("fail to reach endpoint")
    else Success(PubstackModule(intake, scope))
  }

  /** LogAuctionObject: the payloads pushed to the loop. `jsonify` is the
      serializer, given the object and the module's scope. */
  function LogAuctionObject<A>(m: PubstackModule, ao: A, jsonify: (A, string) -> Option<seq<byte>>)
    : (pushed: seq<seq<byte>>)
    ensures jsonify(ao, m.scope).None? ==> pushed == []
    ensures jsonify(ao, m.scope).Some? ==> pushed == [jsonify(ao, m.scope).value]
  {
    match jsonify(ao, m.scope)
    case None => []
    case Some(payload) => [payload]
  }

  function LogVideoObject<V>(m: PubstackModule, vo: V): (pushed: seq<seq<byte>>)
    ensures |pushed| == 0
  {
    []
  }

  function LogSetUIDObject<S>(m: PubstackModule, so: S): (pushed: seq<seq<byte>>)
    ensures |pushed| == 0
  {
    []
  }

  function LogCookieSyncObject<C>(m: PubstackModule, cso: C): (pushed: seq<seq<byte>>)
    ensures |pushed| == 0
  {
    []
  }

  function LogAmpObject<M>(m: PubstackModule, ao: M): (pushed: seq<seq<byte>>)
    ensures |pushed| == 0
  {
    []
  }

  /** A call of one of the module's log methods. The methods other than
      LogAuctionObject never look at their argument, so their calls carry
      none. */
  datatype LogCall<A> = LogAuction(ao: A) | LogVideo | LogSetUID | LogCookieSync | LogAmp

  function Pushes<A>(m: PubstackModule, call: LogCall<A>, jsonify: (A, string) -> Option<seq<byte>>)
    : seq<seq<byte>>
  {
    match call
    case LogAuction(ao) => LogAuctionObject(m, ao, jsonify)
    case LogVideo => LogVideoObject(m, ())
    case LogSetUID => LogSetUIDObject(m, ())
    case LogCookieSync => LogCookieSyncObject(m, ())
    case LogAmp => LogAmpObject(m, ())
  }

  /** The payloads a sequence of log calls pushes to the loop, in order. */
  function Route<A>(m: PubstackModule, calls: seq<LogCall<A>>, jsonify: (A, string) -> Option<seq<byte>>)
    : seq<seq<byte>>
  {
    if calls == [] then []
    else Route(m, calls[..|calls| - 1], jsonify) + Pushes(m, calls[|calls| - 1], jsonify)
  }

  /** The auction calls among `calls`, in order. */
  function AuctionCalls<A>(calls: seq<LogCall<A>>): (r: seq<LogCall<A>>)
  {
    if calls == [] then []
    else AuctionCalls(calls[..|calls| - 1]) + (if calls[|calls| - 1].LogAuction? then [calls[|calls| - 1]] else [])
  }

  /** Routing preserves the order of calls: the pushes of two runs of
      calls are the pushes of the first followed by those of the second. */
  lemma {:induction false} RouteAppend<A>(m: PubstackModule, xs: seq<LogCall<A>>, ys: seq<LogCall<A>>,
                                         jsonify: (A, string) -> Option<seq<byte>>)
    ensures Route(m, xs + ys, jsonify) == Route(m, xs, jsonify) + Route(m, ys, jsonify)
  {
    if ys == [] {
      assert xs + ys == xs;
    } else {
      var init := ys[..|ys| - 1];
      assert (xs + ys)[..|xs + ys| - 1] == xs + init;
      RouteAppend(m, xs, init, jsonify);
    }
  }

  /** Only auction objects reach the loop: routing all calls pushes what
      routing only the auction calls pushes; each of those pushes one
      payload at most. */
  lemma {:induction false} RouteOnlyAuctions<A>(m: PubstackModule, calls: seq<LogCall<A>>,
                                               jsonify: (A, string) -> Option<seq<byte>>)
    ensures Route(m, calls, jsonify) == Route(m, AuctionCalls(calls), jsonify)
    ensures |Route(m, calls, jsonify)| <= |AuctionCalls(calls)|
  {
    if calls != [] {
      var init := calls[..|calls| - 1];
      var c := calls[|calls| - 1];
      RouteOnlyAuctions(m, init, jsonify);
      if c.LogAuction? {
        RouteAppend(m, AuctionCalls(init), [c], jsonify);
        assert [c][..0] == [];
      } else {
        assert AuctionCalls(calls) == AuctionCalls(init);
      }
    }
  }
}
