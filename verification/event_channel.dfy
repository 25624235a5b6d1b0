/**
 * The buffered event channel of the pubstack analytics module: one
 * processing loop that writes each received event into a gzip-backed
 * buffer, counts it, and flushes the buffer to the intake when the event
 * count or the buffer size reaches its threshold, and on every tick.
 *
 * The `select` of the loop is read as "process one input at a time": each
 * arm becomes an `Input`, and the loop is driven by a finite sequence of
 * them. The HTTP send is recorded in a ghost log of the payloads handed
 * to the intake; a payload is modelled by its uncompressed content.
 */
module EventChannel {
  import opened Gzip

  /** One arm of the select: an event received from the channel, together
      with whether the gzip writer accepted it and the buffer length the
      environment reports afterwards; or a tick of the ticker. */
  datatype Input = Event(data: seq<byte>, writeOk: bool, observedLen: nat) | Tick

  /** The flush thresholds given to the loop (the ticker period is not
      needed: ticks are inputs). */
  datatype Limits = Limits(maxSize: int, maxCount: int)

  /** ChannelMetrics: a struct held by value and updated field by field. */
  datatype Metrics = Metrics(bufferSize: int, eventCount: int, eventError: int)

  const ZeroMetrics := Metrics(0, 0, 0)

  /** The abstract state of a channel: what the current buffer holds, the
      metrics, and every payload sent so far, oldest first. */
  datatype ChannelState = ChannelState(content: seq<byte>, metrics: Metrics, sent: seq<seq<byte>>)

  const Initial := ChannelState([], ZeroMetrics, [])

  /** A flush: metrics reset, the buffer's content sent, a fresh empty buffer. */
  function Flushed(s: ChannelState): ChannelState
  {
    ChannelState([], ZeroMetrics, s.sent + [s.content])
  }

  predicate FlushDue(limits: Limits, m: Metrics)
  {
    m.eventCount >= limits.maxCount || m.bufferSize >= limits.maxSize
  }

  /** One iteration of the processing loop. */
  function Next(limits: Limits, s: ChannelState, input: Input): ChannelState
  {
    match input
    case Event(data, writeOk, observedLen) =>
      if !writeOk then
        s.(metrics := s.metrics.(eventError := s.metrics.eventError + 1))
      else
        var m := s.metrics.(eventCount := s.metrics.eventCount + 1, bufferSize := observedLen);
        var t := ChannelState(s.content + data, m, s.sent);
        if FlushDue(limits, m) then Flushed(t) else t
    case Tick => Flushed(s)
  }

  /** The loop run over a finite sequence of inputs, in order. */
  function Run(limits: Limits, s: ChannelState, inputs: seq<Input>): ChannelState
  {
    if inputs == [] then s
    else Next(limits, Run(limits, s, inputs[..|inputs| - 1]), inputs[|inputs| - 1])
  }

  /** The bytes an input adds to the stream: an event's bytes when the
      writer accepted them, nothing otherwise. */
  function Accepted(x: Input): seq<byte>
  {
    if x.Event? && x.writeOk then x.data else []
  }

  /** The bytes of the events the writer accepted, in arrival order. */
  function Written(inputs: seq<Input>): seq<byte>
  {
    if inputs == [] then []
    else Written(inputs[..|inputs| - 1]) + Accepted(inputs[|inputs| - 1])
  }

  /** The number of events the writer accepted. */
  function AcceptedCount(inputs: seq<Input>): nat
  {
    if inputs == [] then 0
    else
      var x := inputs[|inputs| - 1];
      AcceptedCount(inputs[..|inputs| - 1]) + (if x.Event? && x.writeOk then 1 else 0)
  }

  /** The number of events the writer rejected. */
  function RejectedCount(inputs: seq<Input>): nat
  {
    if inputs == [] then 0
    else
      var x := inputs[|inputs| - 1];
      RejectedCount(inputs[..|inputs| - 1]) + (if x.Event? && !x.writeOk then 1 else 0)
  }

  // ---------------------------------------------------------------------
  // Properties of one step
  // ---------------------------------------------------------------------

  /** A rejected write only counts an error: buffer, other metrics and the
      sent log are untouched, and nothing is flushed. */
  lemma FailedWriteOnlyCountsError(limits: Limits, s: ChannelState, data: seq<byte>, observedLen: nat)
    ensures Next(limits, s, Event(data, false, observedLen)) ==
            ChannelState(s.content, s.metrics.(eventError := s.metrics.eventError + 1), s.sent)
  {
  }

  /** An accepted write flushes if and only if the incremented count or the
      new buffer size reaches its threshold. A flush sends the old content
      followed by this event and leaves all metrics at zero; otherwise the
      event is appended, counted, and the size is the observed length. */
  lemma AcceptedEventFlushIff(limits: Limits, s: ChannelState, data: seq<byte>, observedLen: nat)
    ensures var r := Next(limits, s, Event(data, true, observedLen));
      && (r.sent == s.sent || r.sent == s.sent + [s.content + data])
      && (r.sent != s.sent <==> s.metrics.eventCount + 1 >= limits.maxCount || observedLen >= limits.maxSize)
      && (r.sent != s.sent ==> r.content == [] && r.metrics == ZeroMetrics)
      && (r.sent == s.sent ==>
            r.content == s.content + data
            && r.metrics == Metrics(observedLen, s.metrics.eventCount + 1, s.metrics.eventError))
  {
  }

  /** A tick always flushes, whatever is pending. */
  lemma TickAlwaysFlushes(limits: Limits, s: ChannelState)
    ensures Next(limits, s, Tick) == ChannelState([], ZeroMetrics, s.sent + [s.content])
  {
  }

  /** Consequently a tick on a channel with nothing pending sends an empty
      batch (the finalised stream holds only the gzip header and trailer). */
  lemma TickSendsEmptyBatch(limits: Limits)
    ensures Run(limits, Initial, [Tick]).sent == [[]]
  {
    assert [Tick][..0] == [];
  }

  // ---------------------------------------------------------------------
  // Properties of runs
  // ---------------------------------------------------------------------

  lemma RunSnoc(limits: Limits, s: ChannelState, inputs: seq<Input>, x: Input)
    ensures Run(limits, s, inputs + [x]) == Next(limits, Run(limits, s, inputs), x)
  {
    assert (inputs + [x])[..|inputs|] == inputs;
  }

  /** With a positive count threshold, the count stays below it after
      every processed input. */
  lemma {:induction false} RunKeepsCountBelowMax(limits: Limits, s: ChannelState, inputs: seq<Input>)
    requires limits.maxCount >= 1
    requires 0 <= s.metrics.eventCount < limits.maxCount
    ensures 0 <= Run(limits, s, inputs).metrics.eventCount < limits.maxCount
  {
    if inputs != [] {
      RunKeepsCountBelowMax(limits, s, inputs[..|inputs| - 1]);
    }
  }

  /** One step keeps the stream: the log only grows, and the sent batches
      followed by the pending content grow by exactly what the writer
      accepted in this step. */
  lemma NextConserves(limits: Limits, p: ChannelState, x: Input)
    ensures p.sent <= Next(limits, p, x).sent
    ensures Flatten(Next(limits, p, x).sent) + Next(limits, p, x).content
         == Flatten(p.sent) + p.content + Accepted(x)
  {
    var r := Next(limits, p, x);
    if r.sent != p.sent {
      // the new batch is the pending content followed by this event
      assert r.sent == p.sent + [p.content + Accepted(x)] && r.content == [] by {
        match x
        case Tick =>
          assert p.content + [] == p.content;
        case Event(_, _, _) =>
      }
      assert r.sent[..|p.sent|] == p.sent;
    } else {
      assert r.content == p.content + Accepted(x) by {
        match x
        case Tick =>
        case Event(_, _, _) =>
      }
    }
  }

  /** The sent log only grows: earlier batches are never changed. */
  lemma {:induction false} RunSentGrows(limits: Limits, s: ChannelState, inputs: seq<Input>)
    ensures s.sent <= Run(limits, s, inputs).sent
  {
    if inputs != [] {
      var init := inputs[..|inputs| - 1];
      RunSentGrows(limits, s, init);
      var p := Run(limits, s, init);
      NextConserves(limits, p, inputs[|inputs| - 1]);
      var r := Run(limits, s, inputs);
      assert r.sent[..|s.sent|] == p.sent[..|s.sent|] == s.sent;
    }
  }

  /** Nothing is lost, duplicated or reordered: the sent batches followed
      by the pending content are the earlier batches, the earlier pending
      content and then the accepted events in arrival order. */
  lemma {:induction false} RunConserves(limits: Limits, s: ChannelState, inputs: seq<Input>)
    ensures Flatten(Run(limits, s, inputs).sent) + Run(limits, s, inputs).content
         == Flatten(s.sent) + s.content + Written(inputs)
  {
    if inputs != [] {
      var init := inputs[..|inputs| - 1];
      var x := inputs[|inputs| - 1];
      RunConserves(limits, s, init);
      var p := Run(limits, s, init);
      NextConserves(limits, p, x);
      ghost var before := Flatten(s.sent) + s.content;
      ghost var mid := Flatten(p.sent) + p.content;
      assert mid == before + Written(init);
      assert Written(inputs) == Written(init) + Accepted(x);
      assert mid + Accepted(x) == before + Written(inputs);
    }
  }

  /** Between flushes the metrics count exactly: while no batch is sent,
      the buffer grows by the accepted events, the count by their number
      and the error counter by the number of rejected events. */
  lemma {:induction false} RunWithoutFlush(limits: Limits, s: ChannelState, inputs: seq<Input>)
    requires |Run(limits, s, inputs).sent| == |s.sent|
    ensures Run(limits, s, inputs).content == s.content + Written(inputs)
    ensures Run(limits, s, inputs).metrics.eventCount == s.metrics.eventCount + AcceptedCount(inputs)
    ensures Run(limits, s, inputs).metrics.eventError == s.metrics.eventError + RejectedCount(inputs)
  {
    if inputs != [] {
      var init := inputs[..|inputs| - 1];
      RunSentGrows(limits, s, init);
      var p := Run(limits, s, init);
      assert s.sent <= p.sent;
      RunWithoutFlush(limits, s, init);
    }
  }

  /** A batch is exactly what was pending before plus the events accepted
      since, in arrival order: if the inputs before the last one send
      nothing and the last one sends, the batch sent is that content. */
  lemma BatchIsAcceptedEvents(limits: Limits, s: ChannelState, inputs: seq<Input>)
    requires inputs != []
    requires |Run(limits, s, inputs[..|inputs| - 1]).sent| == |s.sent|
    requires |Run(limits, s, inputs).sent| == |s.sent| + 1
    ensures Run(limits, s, inputs).sent[|s.sent|] == s.content + Written(inputs)
  {
    RunWithoutFlush(limits, s, inputs[..|inputs| - 1]);
  }

  // ---------------------------------------------------------------------
  // The channel object
  // ---------------------------------------------------------------------

  /** Channel: its intake target, the buffer/writer pair, the metrics, and
      the ghost log of payloads sent to the intake. */
  class Channel {
    const intake: string
    const route: string
    const limits: Limits
    var buff: GzipBuffer
    var metrics: Metrics
    ghost var sent: seq<seq<byte>>

    /** The buffer in use is open, the size metric is the buffer's length,
        and the count stays below a positive count threshold. */
    ghost predicate Valid()
      reads this, buff
    {
      && !buff.closed
      && metrics.bufferSize == buff.len
      && metrics.eventCount >= 0
      && metrics.eventError >= 0
      && (limits.maxCount >= 1 ==> metrics.eventCount < limits.maxCount)
    }

    ghost function View(): ChannelState
      reads this, buff
    {
      ChannelState(buff.content, metrics, sent)
    }

    /** NewChannel: an empty buffer and all metrics zero. */
    constructor (intake: string, route: string, maxSize: int, maxCount: int)
      ensures Valid() && fresh(buff)
      ensures View() == Initial
      ensures this.intake == intake && this.route == route
      ensures limits == Limits(maxSize, maxCount)
    {
      this.intake := intake;
      this.route := route;
      limits := Limits(maxSize, maxCount);
      buff := new GzipBuffer();
      metrics := ZeroMetrics;
      sent := [];
    }

    method ResetMetrics()
      modifies this`metrics
      ensures metrics == ZeroMetrics
    {
      metrics := metrics.(eventCount := 0);
      metrics := metrics.(bufferSize := 0);
      metrics := metrics.(eventError := 0);
    }

    /** Resets the metrics, finalises the buffer, installs a fresh empty
        buffer and writer, and only then hands the old content to the
        intake. */
    method Flush()
      requires !buff.closed
      modifies this, buff
      ensures Valid()
      ensures fresh(buff)
      ensures old(buff).closed && old(buff).content == old(buff.content)
      ensures View() == Flushed(old(View()))
    {
      ResetMetrics();
      buff.Close();
      var payload := buff.content;
      buff := new GzipBuffer();
      sent := sent + [payload];
    }

    /** One iteration of forward: a received event or a tick. */
    method Step(input: Input)
      requires Valid()
      modifies this, buff
      ensures Valid()
      ensures View() == Next(limits, old(View()), input)
      ensures |sent| == |old(sent)| ==> buff == old(buff)
      ensures |sent| != |old(sent)| ==> fresh(buff) && old(buff).closed
    {
      match input
      case Event(data, writeOk, observedLen) =>
        var ok := buff.Write(data, writeOk, observedLen);
        if !ok {
          metrics := metrics.(eventError := metrics.eventError + 1);
          return;
        }
        metrics := metrics.(eventCount := metrics.eventCount + 1);
        metrics := metrics.(bufferSize := buff.len);
        if metrics.eventCount >= limits.maxCount || metrics.bufferSize >= limits.maxSize {
          Flush();
        }
      case Tick =>
        Flush();
    }

    /** Add: hands one event to the processing loop, which writes it and
        applies the flush policy before taking the next input. */
    method Add(event: seq<byte>, writeOk: bool, observedLen: nat)
      requires Valid()
      modifies this, buff
      ensures Valid()
      ensures View() == Next(limits, old(View()), Event(event, writeOk, observedLen))
    {
      Step(Event(event, writeOk, observedLen));
    }

    /** forward, over a finite sequence of inputs. Buffers that a flush
        replaced are never written again. */
    method Forward(inputs: seq<Input>)
      requires Valid()
      modifies this, buff
      ensures Valid()
      ensures View() == Run(limits, old(View()), inputs)
    {
      var i := 0;
      while i < |inputs|
        invariant 0 <= i <= |inputs|
        invariant Valid()
        invariant buff == old(buff) || fresh(buff)
        invariant View() == Run(limits, old(View()), inputs[..i])
      {
        RunSnoc(limits, old(View()), inputs[..i], inputs[i]);
        assert inputs[..i + 1] == inputs[..i] + [inputs[i]];
        Step(inputs[i]);
        i := i + 1;
      }
      assert inputs[..i] == inputs;
    }
  }
}
