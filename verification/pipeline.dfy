/** Properties that span the kernel/userspace boundary: an event the probe
    submits survives the transport and reaches the queue consumer intact. */
module Pipeline {
  import opened Common
  import opened Probe
  import opened Record
  import opened Reader

  /** An event some invocation of the probe can submit. */
  ghost predicate ProbeEmitted(e: HttpDataEvent)
  {
    exists frame: seq<byte>, dir: Direction, heapOk: bool, reserve: Option<Payload> ::
      |frame| <= MAX_SKB_LEN && Capture(frame, dir, heapOk, reserve).event == Some(e)
  }

  /** A read the transport can deliver when only the probe writes into it. */
  ghost predicate FromProbe(o: ReadOutcome)
  {
    o.Sample? ==> exists e :: ProbeEmitted(e) && o.raw == Encode(e)
  }

  /** A captured frame, sent as one record, is queued as the very event the
      probe built; the consumer's slice is in bounds and is the frame's prefix
      of `min(len, 4000)` bytes; the tag names the hook that fired. */
  lemma CapturedFrameReachesConsumer(frame: seq<byte>, dir: Direction, heapOk: bool, reserve: Option<Payload>)
    requires |frame| <= MAX_SKB_LEN
    requires Capture(frame, dir, heapOk, reserve).event.Some?
    ensures var e := Capture(frame, dir, heapOk, reserve).event.value;
            && ReadLoop([Sample(Encode(e))]) == [e]
            && ConsumerSlice(e) == Some(frame[..Min(|frame|, MAX_DATA_SIZE)])
            && DirectionOf(e.kind) == Some(dir)
  {
    var e := Capture(frame, dir, heapOk, reserve).event.value;
    DecodeEncode(e);
    assert [Sample(Encode(e))][1..] == [];
    var n := Min(|frame|, MAX_DATA_SIZE);
    assert e.data[..n] == frame[..n];
  }

  /** Every event the probe can submit has `data_len <= 4000`, so slicing
      `Data[:DataLen]` never panics. */
  lemma ProbeEventSliceInBounds(e: HttpDataEvent)
    requires ProbeEmitted(e)
    ensures ConsumerSlice(e).Some?
  {
    var frame, dir, heapOk, reserve :| |frame| <= MAX_SKB_LEN && Capture(frame, dir, heapOk, reserve).event == Some(e);
  }

  /** The records of a stream of events, one read per event. */
  function Samples(es: seq<HttpDataEvent>): (outcomes: seq<ReadOutcome>)
    ensures |outcomes| == |es|
    ensures forall i :: 0 <= i < |es| ==> outcomes[i] == Sample(Encode(es[i]))
  {
    seq(|es|, i requires 0 <= i < |es| => Sample(Encode(es[i])))
  }

  /** With no transport errors the queue receives the submitted events
      unchanged and in submission order. */
  lemma {:induction false} TransportPreservesEvents(es: seq<HttpDataEvent>)
    ensures ReadLoop(Samples(es)) == es
  {
    if |es| > 0 {
      DecodeEncode(es[0]);
      assert Samples(es)[1..] == Samples(es[1..]);
      TransportPreservesEvents(es[1..]);
    }
  }

  /** Whatever mix of errors and probe records the reader returns, every
      queued event can be sliced by the consumer. */
  lemma {:induction false} QueuedProbeEventsInBounds(outcomes: seq<ReadOutcome>)
    requires forall i :: 0 <= i < |outcomes| ==> FromProbe(outcomes[i])
    ensures forall k :: 0 <= k < |ReadLoop(outcomes)| ==> ConsumerSlice(ReadLoop(outcomes)[k]).Some?
  {
    if |outcomes| > 0 && outcomes[0] != Closed {
      var tail := outcomes[1..];
      assert forall i :: 0 <= i < |tail| ==> FromProbe(tail[i]) by {
        forall i | 0 <= i < |tail| ensures FromProbe(tail[i]) {
          assert tail[i] == outcomes[i + 1];
        }
      }
      QueuedProbeEventsInBounds(tail);
      if outcomes[0].Sample? && Decode(outcomes[0].raw).Some? {
        assert FromProbe(outcomes[0]);
        var e :| ProbeEmitted(e) && outcomes[0].raw == Encode(e);
        DecodeEncode(e);
        ProbeEventSliceInBounds(e);
      }
    }
  }
}
