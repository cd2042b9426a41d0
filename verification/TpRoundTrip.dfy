/** The two halves of SOME/IP-TP together: the segments of a payload, fed in
    any order and with any repeats, give the payload back, and not before the
    last missing segment arrives. */
module TpRoundTrip {
  import opened Bytes
  import opened Someip
  import opened SomeipTp

  /** A correctly cut piece of the payload. */
  ghost predicate SliceOf(p: seq<byte>, s: Segment) {
    && s.data != [] && s.End() <= |p| && s.data == p[s.offset..s.End()]
    && (s.more <==> s.End() < |p|)
  }

  ghost predicate Honest(lim: Limits, p: seq<byte>, session: nat, fed: seq<Segment>) {
    forall k :: 0 <= k < |fed| ==> SliceOf(p, fed[k]) && GoodShape(lim, fed[k]) && fed[k].session == session
  }

  /** The log holds nothing that the first segment of `session` would join. */
  ghost predicate Idle(log: seq<Segment>, session: nat) {
    log == [] || Whole(log) || log[0].session != session
  }

  lemma {:induction false} SlicesAgree(p: seq<byte>, fed: seq<Segment>, i: nat)
    requires forall k :: 0 <= k < |fed| ==> SliceOf(p, fed[k])
    ensures ByteAt(fed, i).Some? ==> i < |p| && ByteAt(fed, i).value == p[i]
    ensures FinalEnd(fed) == 0 || FinalEnd(fed) == |p|
  {
    if fed != [] {
      SlicesAgree(p, fed[..|fed| - 1], i);
    }
  }

  /** Complete means: every byte of the payload has been touched. */
  lemma WholeIff(p: seq<byte>, fed: seq<Segment>)
    requires p != [] && forall k :: 0 <= k < |fed| ==> SliceOf(p, fed[k])
    ensures Whole(fed) <==> AllTouched(p, fed)
    ensures Whole(fed) ==> Assembled(fed) == p
  {
    SlicesAgree(p, fed, 0);
    if AllTouched(p, fed) { AllTouchedHasFinal(p, fed); }
    if Whole(fed) {
      forall i | 0 <= i < |p| ensures Assembled(fed)[i] == p[i] { SlicesAgree(p, fed, i); }
    }
  }

  ghost predicate AllTouched(p: seq<byte>, fed: seq<Segment>) {
    forall i: nat :: i < |p| ==> ByteAt(fed, i).Some?
  }

  lemma AllTouchedHasFinal(p: seq<byte>, fed: seq<Segment>)
    requires p != [] && forall k :: 0 <= k < |fed| ==> SliceOf(p, fed[k])
    requires AllTouched(p, fed)
    ensures FinalEnd(fed) > 0
  {
    assert ByteAt(fed, |p| - 1).Some?;
    TouchedIff(fed, |p| - 1);
    var k :| 0 <= k < |fed| && fed[k].Touches(|p| - 1);
    FinalSeen(fed, k);
  }

  lemma {:induction false} FinalSeen(log: seq<Segment>, k: nat)
    requires k < |log| && !log[k].more && forall j :: 0 <= j < |log| ==> log[j].data != []
    ensures FinalEnd(log) > 0
  {
    if k < |log| - 1 { FinalSeen(log[..|log| - 1], k); }
  }

  /** An honest segment never conflicts with an incomplete honest log. */
  lemma HonestStep(lim: Limits, p: seq<byte>, session: nat, log: seq<Segment>, s: Segment)
    requires |p| <= lim.maxPayload && Honest(lim, p, session, log) && !Whole(log)
    requires SliceOf(p, s) && GoodShape(lim, s) && s.session == session
    ensures Step(lim, log, s) == log + [s]
  {
    SlicesAgree(p, log, 0);
    assert log != [] ==> log[0].session == session;
    assert Base(log, s) == log;
    assert forall k :: 0 <= k < |log| ==> SliceOf(p, log[k]);
    assert !Conflicts(log, s);
  }

  /** While the message is incomplete, honest segments are all kept. */
  lemma {:induction false} HonestRun(lim: Limits, p: seq<byte>, session: nat, log: seq<Segment>, fed: seq<Segment>)
    requires Idle(log, session) && fed != [] && |p| <= lim.maxPayload
    requires Honest(lim, p, session, fed)
    requires forall n :: 0 < n < |fed| ==> !Whole(fed[..n])
    ensures Run(lim, log, fed) == fed
  {
    var init, s := fed[..|fed| - 1], fed[|fed| - 1];
    assert fed == init + [s];
    if init == [] {
      assert Base(log, s) == [];
      HonestStep(lim, p, session, [], s);
    } else {
      assert forall n :: 0 < n < |init| ==> init[..n] == fed[..n];
      HonestRun(lim, p, session, log, init);
      HonestStep(lim, p, session, init, s);
    }
  }

  // ---- the sender's segmentation (tools/rdi_udp_sender.py)

  function SegmentCount(size: nat): nat { (size + TP_CHUNK_SIZE - 1) / TP_CHUNK_SIZE }

  /** The j-th segment: chunk j of the payload. */
  function SegmentAt(p: seq<byte>, session: nat, j: nat): Segment
    requires j * TP_CHUNK_SIZE < |p|
  {
    var begin := j * TP_CHUNK_SIZE;
    var end := if begin + TP_CHUNK_SIZE < |p| then begin + TP_CHUNK_SIZE else |p|;
    Segment(p[begin..end], begin, end < |p|, session)
  }

  function Segments(p: seq<byte>, session: nat): (segs: seq<Segment>)
    ensures |segs| == SegmentCount(|p|)
  {
    seq(SegmentCount(|p|), j requires 0 <= j < SegmentCount(|p|) => SegmentAt(p, session, j))
  }

  ghost predicate DrawnFrom(segs: seq<Segment>, fed: seq<Segment>) {
    forall k :: 0 <= k < |fed| ==> fed[k] in segs
  }

  ghost predicate AllSent(segs: seq<Segment>, fed: seq<Segment>) {
    forall j :: 0 <= j < |segs| ==> segs[j] in fed
  }

  lemma DrawnIsHonest(lim: Limits, p: seq<byte>, session: nat, fed: seq<Segment>)
    requires lim.maxSegment >= TP_CHUNK_SIZE && DrawnFrom(Segments(p, session), fed)
    ensures Honest(lim, p, session, fed)
  {
    forall k | 0 <= k < |fed|
      ensures SliceOf(p, fed[k]) && GoodShape(lim, fed[k]) && fed[k].session == session
    {
      var j :| 0 <= j < |Segments(p, session)| && Segments(p, session)[j] == fed[k];
      assert fed[k] == SegmentAt(p, session, j);
    }
  }

  /** Chunk j is the only segment that touches its first byte. */
  lemma OnlyChunk(p: seq<byte>, session: nat, j: nat, k: nat)
    requires j < SegmentCount(|p|) && k < SegmentCount(|p|)
    requires SegmentAt(p, session, k).Touches(j * TP_CHUNK_SIZE)
    ensures k == j
  {
  }

  /** Every byte is touched exactly when every segment has been sent. */
  lemma WholeIffAllSent(p: seq<byte>, session: nat, fed: seq<Segment>)
    requires p != [] && DrawnFrom(Segments(p, session), fed)
    ensures Whole(fed) <==> AllSent(Segments(p, session), fed)
  {
    var segs := Segments(p, session);
    DrawnIsHonest(Limits(|p|, TP_CHUNK_SIZE), p, session, fed);
    WholeIff(p, fed);
    if AllSent(segs, fed) {
      forall i: nat | i < |p| ensures ByteAt(fed, i).Some? {
        var j := i / TP_CHUNK_SIZE;
        assert segs[j] == SegmentAt(p, session, j) && segs[j].Touches(i);
        var k :| 0 <= k < |fed| && fed[k] == segs[j];
        TouchedIff(fed, i);
      }
    }
    if Whole(fed) {
      forall j | 0 <= j < |segs| ensures segs[j] in fed {
        TouchedIff(fed, j * TP_CHUNK_SIZE);
        assert ByteAt(fed, j * TP_CHUNK_SIZE).Some?;
        var k :| 0 <= k < |fed| && fed[k].Touches(j * TP_CHUNK_SIZE);
        var m :| 0 <= m < |segs| && segs[m] == fed[k];
        OnlyChunk(p, session, j, m);
      }
    }
  }

  /** Main result. Feed the segments of a payload in any order, with any
      repeats, to a reassembler with no assembly of that session in progress:
      up to the first call by which every distinct segment has appeared no
      call returns true, that call does, and it delivers the payload. */
  lemma RoundTrip(lim: Limits, p: seq<byte>, session: nat, log: seq<Segment>, fed: seq<Segment>)
    requires 0 < |p| <= lim.maxPayload && lim.maxSegment >= TP_CHUNK_SIZE
    requires Idle(log, session) && fed != []
    requires DrawnFrom(Segments(p, session), fed)
    requires !AllSent(Segments(p, session), fed[..|fed| - 1])
    ensures Whole(Run(lim, log, fed)) <==> AllSent(Segments(p, session), fed)
    ensures Whole(Run(lim, log, fed)) ==> Assembled(Run(lim, log, fed)) == p
    ensures forall n :: 0 < n < |fed| ==> !Whole(Run(lim, log, fed[..n]))
  {
    hide Step, Segments, Whole, Honest, Idle;
    var segs := Segments(p, session);
    DrawnIsHonest(lim, p, session, fed);
    forall n | 0 <= n < |fed| ensures !Whole(fed[..n]) {
      assert forall s :: s in fed[..n] ==> s in fed[..|fed| - 1];
      WholeIffAllSent(p, session, fed[..n]);
    }
    HonestRun(lim, p, session, log, fed);
    forall n | 0 < n < |fed| ensures !Whole(Run(lim, log, fed[..n])) {
      assert forall m :: 0 < m < n ==> fed[..n][..m] == fed[..m];
      HonestRun(lim, p, session, log, fed[..n]);
    }
    WholeIffAllSent(p, session, fed);
    WholeIff(p, fed);
  }
}
