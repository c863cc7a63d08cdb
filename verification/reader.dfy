/** The userspace read loop shared by `runRingBuf` and `runPerf` (main.go:182-266).
    The reader is a finite list of outcomes of successive `rd.Read()` calls and
    the dispatch queue is the ordered sequence of events sent into it. */
module Reader {
  import opened Common
  import opened Probe
  import opened Record

  /** The transport picked once at startup (main.go:75). */
  datatype TransportMode = RingBuffer | PerfBuffer

  /** One `rd.Read()` result: the reader-closed error, any other error, or a
      raw sample. */
  datatype ReadOutcome = Closed | IoErr | Sample(raw: seq<byte>)

  /** The events the loop sends into the queue, in order. */
  function ReadLoop(outcomes: seq<ReadOutcome>): (queue: seq<HttpDataEvent>)
    ensures |queue| <= |outcomes|
  {
    if |outcomes| == 0 then []
    else
      match outcomes[0]
      case Closed => []
      case IoErr => ReadLoop(outcomes[1..])
      case Sample(raw) =>
        match Decode(raw)
        case None => ReadLoop(outcomes[1..])
        case Some(e) => [e] + ReadLoop(outcomes[1..])
  }

  /** The outcomes that come before the first reader-closed error. */
  function UntilClosed(outcomes: seq<ReadOutcome>): (pre: seq<ReadOutcome>)
    ensures pre <= outcomes
    ensures Closed !in pre
    ensures |pre| < |outcomes| ==> outcomes[|pre|] == Closed
  {
    if |outcomes| == 0 || outcomes[0] == Closed then []
    else [outcomes[0]] + UntilClosed(outcomes[1..])
  }

  /** The event one read contributes when it is taken at face value. */
  function EventsOf(o: ReadOutcome): (es: seq<HttpDataEvent>)
    ensures |es| <= 1
    ensures |es| == 1 <==> o.Sample? && Decode(o.raw).Some?
  {
    match o
    case Sample(raw) => if Decode(raw).Some? then [Decode(raw).value] else []
    case _ => []
  }

  /** Reference definition: the events of all decodable samples, built up by
      appending at the end as a queue grows. */
  function DecodedSamples(outcomes: seq<ReadOutcome>): seq<HttpDataEvent>
  {
    if |outcomes| == 0 then []
    else DecodedSamples(outcomes[..|outcomes| - 1]) + EventsOf(outcomes[|outcomes| - 1])
  }

  lemma {:induction false} DecodedSamplesAppend(a: seq<ReadOutcome>, b: seq<ReadOutcome>)
    ensures DecodedSamples(a + b) == DecodedSamples(a) + DecodedSamples(b)
    decreases |b|
  {
    if |b| == 0 {
      assert a + b == a;
    } else {
      var b' := b[..|b| - 1];
      assert (a + b)[..|a + b| - 1] == a + b';
      DecodedSamplesAppend(a, b');
    }
  }

  /** The loop is the reference definition applied to the reads before the
      first close: the queue holds exactly the decodable samples, in read order. */
  lemma {:induction false} ReadLoopIsDecodedPrefix(outcomes: seq<ReadOutcome>)
    ensures ReadLoop(outcomes) == DecodedSamples(UntilClosed(outcomes))
  {
    if |outcomes| == 0 || outcomes[0] == Closed {
    } else {
      var tail := outcomes[1..];
      ReadLoopIsDecodedPrefix(tail);
      DecodedSamplesAppend([outcomes[0]], UntilClosed(tail));
      assert DecodedSamples([outcomes[0]]) == EventsOf(outcomes[0]);
    }
  }

  /** Outcomes that contain no close can be split anywhere: the loop handles the
      two parts one after the other. */
  lemma {:induction false} ReadLoopAppend(a: seq<ReadOutcome>, b: seq<ReadOutcome>)
    requires Closed !in a
    ensures ReadLoop(a + b) == ReadLoop(a) + ReadLoop(b)
  {
    if |a| == 0 {
      assert a + b == b;
    } else {
      assert (a + b)[1..] == a[1..] + b;
      ReadLoopAppend(a[1..], b);
    }
  }

  /** The loop returns at the first reader-closed error: nothing after it is
      read, decoded or queued. */
  lemma {:induction false} StopsAtClose(pre: seq<ReadOutcome>, rest: seq<ReadOutcome>)
    ensures ReadLoop(pre + [Closed] + rest) == ReadLoop(pre)
  {
    if |pre| == 0 {
      assert (pre + [Closed] + rest)[0] == Closed;
    } else if pre[0] != Closed {
      assert (pre + [Closed] + rest)[1..] == pre[1..] + [Closed] + rest;
      StopsAtClose(pre[1..], rest);
    }
  }

  /** A read error other than close is skipped and the loop goes on. */
  lemma {:induction false} IoErrSkipped(pre: seq<ReadOutcome>, rest: seq<ReadOutcome>)
    ensures ReadLoop(pre + [IoErr] + rest) == ReadLoop(pre + rest)
  {
    if |pre| == 0 {
      assert (pre + [IoErr] + rest)[1..] == rest;
      assert pre + rest == rest;
    } else if pre[0] != Closed {
      assert (pre + [IoErr] + rest)[1..] == pre[1..] + [IoErr] + rest;
      assert (pre + rest)[1..] == pre[1..] + rest;
      IoErrSkipped(pre[1..], rest);
    }
  }

  /** A sample that does not decode is dropped on its own; later outcomes are
      still processed. */
  lemma {:induction false} UndecodableSkipped(pre: seq<ReadOutcome>, raw: seq<byte>, rest: seq<ReadOutcome>)
    requires Decode(raw).None?
    ensures ReadLoop(pre + [Sample(raw)] + rest) == ReadLoop(pre + rest)
  {
    if |pre| == 0 {
      assert (pre + [Sample(raw)] + rest)[1..] == rest;
      assert pre + rest == rest;
    } else if pre[0] != Closed {
      assert (pre + [Sample(raw)] + rest)[1..] == pre[1..] + [Sample(raw)] + rest;
      assert (pre + rest)[1..] == pre[1..] + rest;
      UndecodableSkipped(pre[1..], raw, rest);
    }
  }

  /** A sample that decodes, read before any close, is queued right after the
      events of the earlier outcomes and before those of the later ones. */
  lemma DecodedEnqueued(pre: seq<ReadOutcome>, raw: seq<byte>, rest: seq<ReadOutcome>)
    requires Closed !in pre
    requires Decode(raw).Some?
    ensures ReadLoop(pre + [Sample(raw)] + rest) == ReadLoop(pre) + [Decode(raw).value] + ReadLoop(rest)
  {
    ReadLoopAppend(pre, [Sample(raw)] + rest);
    assert pre + [Sample(raw)] + rest == pre + ([Sample(raw)] + rest);
    assert ([Sample(raw)] + rest)[1..] == rest;
  }

  /** The `for` loop of `runRingBuf` and `runPerf`, statement by statement.
      Both variants run this same loop, so the queue does not depend on the
      transport. */
  method RunReadLoop(mode: TransportMode, outcomes: seq<ReadOutcome>) returns (queue: seq<HttpDataEvent>)
    ensures queue == ReadLoop(outcomes)
    ensures queue == DecodedSamples(UntilClosed(outcomes))
  {
    ReadLoopIsDecodedPrefix(outcomes);
    queue := [];
    var i := 0;
    while i < |outcomes|
      invariant 0 <= i <= |outcomes|
      invariant queue + ReadLoop(outcomes[i..]) == ReadLoop(outcomes)
    {
      var outcome := outcomes[i];
      ReadLoopStep(outcomes[i..]);
      assert outcomes[i..][1..] == outcomes[i + 1..];
      i := i + 1;
      match outcome
      case Closed =>
        return;
      case IoErr =>
        continue;
      case Sample(raw) =>
        var event := Decode(raw);
        if event.None? {
          continue;
        }
        queue := queue + [event.value];
    }
  }

  /** One turn of the loop on a non-empty list of outcomes. */
  lemma ReadLoopStep(outcomes: seq<ReadOutcome>)
    requires |outcomes| > 0
    ensures outcomes[0] == Closed ==> ReadLoop(outcomes) == []
    ensures outcomes[0] != Closed ==> ReadLoop(outcomes) == EventsOf(outcomes[0]) + ReadLoop(outcomes[1..])
  {
  }

  /** `task.Data[:task.DataLen]` in the queue consumer (main.go:193,
      main.go:236); Go panics when the length exceeds the array. */
  function ConsumerSlice(e: HttpDataEvent): (r: Option<seq<byte>>)
    ensures r.Some? <==> e.dataLen <= MAX_DATA_SIZE
    ensures r.Some? ==> |r.value| == e.dataLen && r.value <= e.data
  {
    if e.dataLen <= |e.data| then Some(e.data[..e.dataLen]) else None
  }

  /** The consumer trusts `data_len`: a well-formed record can carry a length
      past the array, and slicing it would panic. Only the probe's clamp keeps
      the slice in bounds. */
  lemma OversizedDataLenDecodes()
    ensures var e := HttpDataEvent(0, seq(MAX_DATA_SIZE, _ => 0), MAX_DATA_SIZE + 1);
            Decode(Encode(e)) == Some(e) && ConsumerSlice(e).None?
  {
    DecodeEncode(HttpDataEvent(0, seq(MAX_DATA_SIZE, _ => 0), MAX_DATA_SIZE + 1));
  }
}
