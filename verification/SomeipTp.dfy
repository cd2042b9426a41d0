/** SOME/IP-TP reassembly (src/protocol/someip_tp.cpp).

    The specification is a log: the segments that make up the message being
    assembled. `Step` says how one call changes the log, and everything a
    caller can observe (is the message complete, what are its bytes) is a
    function of the log alone. The class below keeps a byte buffer that is
    never cleared and a merged interval list, and is proved to behave as the
    log does for every sequence of calls. */
module SomeipTp {
  import opened Bytes
  import opened Ranges

  /** One call of Feed: payload bytes, byte offset, more-segments flag, session. */
  datatype Segment = Segment(data: seq<byte>, offset: nat, more: bool, session: nat) {
    function End(): nat { offset + |data| }
    predicate Touches(i: nat) { offset <= i < End() }
  }

  datatype Limits = Limits(maxPayload: nat, maxSegment: nat)

  // ---- what a log means

  /** The byte at index i: that of the latest segment covering i. */
  function ByteAt(log: seq<Segment>, i: nat): (b: Option<byte>) {
    if log == [] then None
    else
      var s := log[|log| - 1];
      if s.Touches(i) then Some(s.data[i - s.offset]) else ByteAt(log[..|log| - 1], i)
  }

  /** The size declared by the latest final segment, 0 while there is none. */
  function FinalEnd(log: seq<Segment>): nat {
    if log == [] then 0
    else if !log[|log| - 1].more then log[|log| - 1].End()
    else FinalEnd(log[..|log| - 1])
  }

  /** The size is known and every byte below it has arrived. */
  ghost predicate Whole(log: seq<Segment>) {
    FinalEnd(log) > 0 && forall i: nat :: i < FinalEnd(log) ==> ByteAt(log, i).Some?
  }

  ghost function Assembled(log: seq<Segment>): (p: seq<byte>)
    requires Whole(log)
    ensures |p| == FinalEnd(log)
    ensures forall i :: 0 <= i < |p| ==> ByteAt(log, i) == Some(p[i])
  {
    seq(FinalEnd(log), i requires 0 <= i < FinalEnd(log) => ByteAt(log, i).value)
  }

  // ---- the effect of one call

  predicate GoodShape(lim: Limits, s: Segment) {
    |s.data| <= lim.maxSegment && (s.more ==> |s.data| % 16 == 0)
  }

  /** The segment cannot belong to a message with these segments and this size. */
  ghost predicate Conflicts(base: seq<Segment>, s: Segment) {
    || (FinalEnd(base) != 0 && s.End() > FinalEnd(base))
    || (!s.more && FinalEnd(base) != 0 && FinalEnd(base) != s.End())
    || (!s.more && exists k :: 0 <= k < |base| && base[k].End() > s.End())
  }

  lemma BeyondConflicts(base: seq<Segment>, s: Segment)
    ensures FinalEnd(base) != 0 && s.End() > FinalEnd(base) ==> Conflicts(base, s)
  {
  }

  /** What the segment is added to: a finished message or another session's
      segments are dropped first. */
  ghost function Base(log: seq<Segment>, s: Segment): seq<Segment> {
    if Whole(log) || (log != [] && log[0].session != s.session) then [] else log
  }

  ghost function Step(lim: Limits, log: seq<Segment>, s: Segment): seq<Segment> {
    if s.data == [] then log
    else if !GoodShape(lim, s) || s.End() > lim.maxPayload || Conflicts(Base(log, s), s) then []
    else Base(log, s) + [s]
  }

  /** The log after the calls in `fed`, starting from `log`. */
  ghost function Run(lim: Limits, log: seq<Segment>, fed: seq<Segment>): seq<Segment> {
    if fed == [] then log else Step(lim, Run(lim, log, fed[..|fed| - 1]), fed[|fed| - 1])
  }

  /** Call number n of the run (counting from 0) returned true. */
  ghost predicate Returned(lim: Limits, fed: seq<Segment>, n: nat)
    requires n < |fed|
  {
    fed[n].data != [] && Whole(Run(lim, [], fed[..n + 1]))
  }

  /** The effect of a call, written out. A segment is refused for its size,
      its odd length or its end, or because it lies beyond the end that a final
      segment declares, or declares an end that another one lies beyond; and
      then everything is dropped. Otherwise it is kept. */
  lemma StepWrittenOut(lim: Limits, log: seq<Segment>, s: Segment)
    requires Consistent(lim, log) && s.data != []
    ensures var n := |s.data|;
            var base := if log != [] && (Whole(log) || log[0].session != s.session) then [] else log;
            var refused := n > lim.maxSegment || (s.more && n % 16 != 0) || s.offset + n > lim.maxPayload;
            var clash := exists k :: (0 <= k < |base|
                                      && ((!base[k].more && s.offset + n > base[k].offset + |base[k].data|)
                                          || (!s.more && base[k].offset + |base[k].data| > s.offset + n)));
            Step(lim, log, s) == if refused || clash then [] else base + [s]
  {
    hide Conflicts, Whole;
    ClashWrittenOut(lim, log, s);
    ClashWrittenOut(lim, [], s);
  }

  lemma ClashWrittenOut(lim: Limits, base: seq<Segment>, s: Segment)
    requires Consistent(lim, base)
    ensures Conflicts(base, s)
       <==> exists k :: (0 <= k < |base|
                         && ((!base[k].more && s.offset + |s.data| > base[k].offset + |base[k].data|)
                             || (!s.more && base[k].offset + |base[k].data| > s.offset + |s.data|)))
  {
    if FinalEnd(base) > 0 {
      var f := FinalIsThere(base);
      assert base[f].End() == FinalEnd(base);
    }
  }

  // ---- invariant of every log

  ghost predicate Consistent(lim: Limits, log: seq<Segment>) {
    && (forall k :: 0 <= k < |log| ==>
          && log[k].data != [] && GoodShape(lim, log[k]) && log[k].End() <= lim.maxPayload
          && log[k].session == log[0].session)
    && (FinalEnd(log) == 0 ==> forall k :: 0 <= k < |log| ==> log[k].more)
    && (FinalEnd(log) > 0 ==> forall k :: 0 <= k < |log| ==>
          log[k].End() <= FinalEnd(log) && (!log[k].more ==> log[k].End() == FinalEnd(log)))
  }

  lemma AppendConsistent(lim: Limits, base: seq<Segment>, s: Segment)
    requires Consistent(lim, base) && s.data != [] && GoodShape(lim, s) && s.End() <= lim.maxPayload
    requires base != [] ==> base[0].session == s.session
    requires !Conflicts(base, s)
    ensures Consistent(lim, base + [s])
  {
    var next := base + [s];
    assert next[..|base|] == base;
    forall k | 0 <= k < |next|
      ensures next[k].data != [] && GoodShape(lim, next[k]) && next[k].End() <= lim.maxPayload
      ensures next[k].session == next[0].session
    {
      assert k < |base| ==> next[k] == base[k] && base[k].session == base[0].session;
    }
  }

  lemma StepConsistent(lim: Limits, log: seq<Segment>, s: Segment)
    requires Consistent(lim, log)
    ensures Consistent(lim, Step(lim, log, s))
  {
    if s.data != [] && Step(lim, log, s) != [] {
      AppendConsistent(lim, Base(log, s), s);
    }
  }

  lemma {:induction false} RunConsistent(lim: Limits, log: seq<Segment>, fed: seq<Segment>)
    requires Consistent(lim, log)
    ensures Consistent(lim, Run(lim, log, fed))
  {
    if fed != [] {
      RunConsistent(lim, log, fed[..|fed| - 1]);
      StepConsistent(lim, Run(lim, log, fed[..|fed| - 1]), fed[|fed| - 1]);
    }
  }

  lemma ByteAtSnoc(log: seq<Segment>, s: Segment, i: nat)
    ensures ByteAt(log + [s], i) == if s.Touches(i) then Some(s.data[i - s.offset]) else ByteAt(log, i)
  {
    assert (log + [s])[..|log|] == log;
  }

  lemma {:induction false} TouchedIff(log: seq<Segment>, i: nat)
    ensures ByteAt(log, i).Some? <==> exists k :: 0 <= k < |log| && log[k].Touches(i)
  {
    if log != [] {
      var init := log[..|log| - 1];
      TouchedIff(init, i);
      if k :| 0 <= k < |init| && init[k].Touches(i) { assert log[k].Touches(i); }
      if k :| 0 <= k < |log| && log[k].Touches(i) { assert k < |init| ==> init[k].Touches(i); }
    }
  }

  /** k is the latest segment covering i. */
  ghost predicate Latest(log: seq<Segment>, i: nat, k: nat) {
    k < |log| && log[k].Touches(i) && forall j :: k < j < |log| ==> !log[j].Touches(i)
  }

  lemma {:induction false} ByteAtIsLatest(log: seq<Segment>, i: nat) returns (k: nat)
    requires ByteAt(log, i).Some?
    ensures Latest(log, i, k) && ByteAt(log, i) == Some(log[k].data[i - log[k].offset])
  {
    k := |log| - 1;
    if !log[k].Touches(i) {
      k := ByteAtIsLatest(log[..|log| - 1], i);
    }
  }

  // ---- main result on runs: what a delivered message consists of

  /** The non-empty calls of a run, in order (Feed ignores empty ones). */
  function NonEmpty(fed: seq<Segment>): seq<Segment> {
    if fed == [] then []
    else
      var rest := NonEmpty(fed[..|fed| - 1]);
      if fed[|fed| - 1].data == [] then rest else rest + [fed[|fed| - 1]]
  }

  /** The log is always a suffix of what was fed: segments are dropped
      together or not at all, and never reordered. */
  lemma {:induction false} RunIsSuffix(lim: Limits, fed: seq<Segment>) returns (start: nat)
    ensures start <= |fed| && Run(lim, [], fed) == NonEmpty(fed[start..])
  {
    if fed == [] {
      start := 0;
    } else {
      var init, s := fed[..|fed| - 1], fed[|fed| - 1];
      var before := RunIsSuffix(lim, init);
      var log := Run(lim, [], init);
      if s.data != [] && Step(lim, log, s) == [] {
        start := |fed|;
      } else if s.data != [] && Base(log, s) == [] {
        start := |fed| - 1;
        assert fed[start..] == [s];
        assert fed[start..][..0] == [];
      } else {
        start := before;
        assert fed[start..][..|fed[start..]| - 1] == init[start..];
      }
    }
  }

  /** A call that returns true delivers, for some point `start` of the run,
      exactly the segments fed from there on: one session, every final
      segment ending at the payload's end, within the limit, and each byte
      that of the latest segment covering it. Nothing fed before `start`,
      and nothing left in a buffer from before it, contributes. */
  lemma DeliveredMessage(lim: Limits, fed: seq<Segment>) returns (start: nat)
    requires fed != [] && Returned(lim, fed, |fed| - 1)
    ensures start < |fed| && Run(lim, [], fed) == NonEmpty(fed[start..]) && Whole(Run(lim, [], fed))
    ensures IsMessage(lim, NonEmpty(fed[start..]), fed[|fed| - 1].session, Assembled(Run(lim, [], fed)))
  {
    start := RunIsSuffix(lim, fed);
    assert fed[..|fed|] == fed;
    var log := Run(lim, [], fed);
    RunConsistent(lim, [], fed);
    var f := FinalIsThere(log);
    LastFedIsLast(lim, fed);
    forall i | 0 <= i < |Assembled(log)| ensures LatestByte(log, i, Assembled(log)[i]) {
      var k := ByteAtIsLatest(log, i);
    }
  }

  /** The payload is the message the segments in `used` make up. */
  ghost predicate IsMessage(lim: Limits, used: seq<Segment>, session: nat, payload: seq<byte>) {
    && 0 < |payload| <= lim.maxPayload
    && (forall k :: 0 <= k < |used| ==> used[k].session == session && used[k].End() <= |payload|)
    && (forall k :: 0 <= k < |used| ==>
          0 < |used[k].data| <= lim.maxSegment && (used[k].more ==> |used[k].data| % 16 == 0))
    && (forall k :: 0 <= k < |used| && !used[k].more ==> used[k].End() == |payload|)
    && (exists k :: 0 <= k < |used| && !used[k].more)
    && (forall i :: 0 <= i < |payload| ==> LatestByte(used, i, payload[i]))
  }

  ghost predicate LatestByte(used: seq<Segment>, i: nat, b: byte) {
    exists k: nat :: Latest(used, i, k) && b == used[k].data[i - used[k].offset]
  }

  lemma {:induction false} FinalIsThere(log: seq<Segment>) returns (k: nat)
    requires FinalEnd(log) > 0
    ensures k < |log| && !log[k].more && log[k].End() == FinalEnd(log)
  {
    k := |log| - 1;
    if log[k].more { k := FinalIsThere(log[..|log| - 1]); }
  }

  lemma LastFedIsLast(lim: Limits, fed: seq<Segment>)
    requires fed != [] && fed[|fed| - 1].data != [] && Run(lim, [], fed) != []
    ensures Run(lim, [], fed)[|Run(lim, [], fed)| - 1] == fed[|fed| - 1]
  {
  }

  // ---- the code

  class Reassembler {
    const limits: Limits
    var buffer: seq<byte>
    var ranges: seq<Range>
    var expected: nat
    var total: nat
    var session: nat
    var hasSession: bool
    var inProgress: bool
    var complete: bool
    ghost var log: seq<Segment>

    /** The buffer may hold anything outside the indices the log touches. */
    ghost predicate Valid()
      reads this
    {
      && Consistent(limits, log)
      && Holds(log, buffer, ranges)
      && expected == FinalEnd(log)
      && (hasSession <==> log != [])
      && (hasSession ==> session == log[0].session)
      && (complete <==> Whole(log))
      && (complete ==> total == expected)
      && (inProgress <==> log != [] && !complete)
    }

    constructor (maxPayload: nat := 4 * 1024 * 1024, maxSegment: nat := 1392)
      ensures Valid() && log == [] && limits == Limits(maxPayload, maxSegment)
    {
      limits := Limits(maxPayload, maxSegment);
      buffer, ranges, log := [], [], [];
      expected, total, session := 0, 0, 0;
      hasSession, inProgress, complete := false, false, false;
    }

    /** Clears the bookkeeping; the buffer keeps its bytes. */
    method Reset()
      modifies this
      ensures Valid() && log == [] && buffer == old(buffer) && !inProgress
    {
      ranges := [];
      expected, total, session := 0, 0, 0;
      hasSession, inProgress, complete := false, false, false;
      log := [];
    }

    /** The code of Feed; what it amounts to is written out below. */
    method FeedSegment(data: seq<byte>, offset: nat, more: bool, sessionId: nat) returns (done: bool)
      requires Valid()
      modifies this
      ensures Valid()
      ensures log == Step(limits, old(log), Segment(data, offset, more, sessionId))
      ensures done <==> data != [] && Whole(log)
      ensures done ==> total <= |buffer| && buffer[..total] == Assembled(log)
    {
      if |data| == 0 { return false; }

      ghost var seg := Segment(data, offset, more, sessionId);
      if |data| > limits.maxSegment || (more && |data| % 16 != 0) {
        Reset();
        return false;
      }

      if complete { Reset(); }
      if hasSession && session != sessionId { Reset(); }
      if !hasSession {
        session := sessionId;
        hasSession := true;
      }
      assert log == Base(old(log), seg);

      var begin := offset;
      if begin > limits.maxPayload || |data| > limits.maxPayload - begin {
        Reset();
        return false;
      }
      var end := begin + |data|;
      if expected != 0 && end > expected {
        Reset();
        return false;
      }
      done := Accept(data, begin, end, more, seg);
    }

    method Feed(data: seq<byte>, offset: nat, more: bool, sessionId: nat) returns (done: bool)
      requires Valid()
      modifies this
      ensures Valid()
      ensures log == Step(limits, old(log), Segment(data, offset, more, sessionId))
      ensures data == [] ==> log == old(log)
      ensures data != [] ==>
                var n := |data|;
                var base := if old(log) != [] && (Whole(old(log)) || old(log)[0].session != sessionId) then [] else old(log);
                var refused := n > limits.maxSegment || (more && n % 16 != 0) || offset + n > limits.maxPayload;
                var clash := exists k :: (0 <= k < |base|
                                          && ((!base[k].more && offset + n > base[k].offset + |base[k].data|)
                                              || (!more && base[k].offset + |base[k].data| > offset + n)));
                if refused || clash then log == [] && !done else log == base + [Segment(data, offset, more, sessionId)]
      ensures done <==> data != [] && Whole(log)
      ensures done ==> total <= |buffer| && buffer[..total] == Assembled(log)
    {
      hide Step, Whole, Assembled, Holds, Consistent, FinalEnd;
      ghost var seg := Segment(data, offset, more, sessionId);
      if data == [] { EmptyCall(limits, log, seg); }
      NothingIsNotWhole();
      if data != [] { StepWrittenOut(limits, log, seg); }
      done := FeedSegment(data, offset, more, sessionId);
    }

    /** The part of Feed after the admission checks. */
    method Accept(data: seq<byte>, begin: nat, end: nat, more: bool, ghost seg: Segment) returns (done: bool)
      requires seg == Segment(data, begin, more, session) && end == seg.End() && data != []
      requires GoodShape(limits, seg) && end <= limits.maxPayload && (expected != 0 ==> end <= expected)
      requires Consistent(limits, log) && Holds(log, buffer, ranges) && expected == FinalEnd(log) && !Whole(log)
      requires hasSession && !complete && (log != [] ==> log[0].session == session)
      modifies this
      ensures Valid()
      ensures log == Step(limits, old(log), seg)
      ensures done <==> Whole(log)
      ensures done ==> total <= |buffer| && buffer[..total] == Assembled(log)
    {
      hide Whole, Step, Holds, Consistent, FinalEnd, GoodShape, Assembled, Conflicts;
      ghost var base := log;
      inProgress := true;
      Write(data, begin, end, seg);
      StepSeen(limits, base, seg, buffer, ranges);
      var fits := SettleSize(end, more);
      if !fits { return false; }
      done := Finish();
    }

    /** The end of Feed: report the message once it is fully covered. */
    method Finish() returns (done: bool)
      requires Consistent(limits, log) && Holds(log, buffer, ranges) && expected == FinalEnd(log)
      requires log != [] && hasSession && session == log[0].session && inProgress && !complete
      modifies `total, `complete, `inProgress
      ensures Valid()
      ensures done <==> Whole(log)
      ensures done ==> total <= |buffer| && buffer[..total] == Assembled(log)
    {
      done := IsFullyCovered();
      if done {
        total := expected;
        complete := true;
        inProgress := false;
        WholeIsHeld(log, buffer, ranges);
      }
    }

    /** A final segment declares the size; a contradiction drops everything. */
    method SettleSize(end: nat, more: bool) returns (fits: bool)
      requires ranges != []
      modifies this
      ensures fits <==> more || ((old(expected) == 0 || old(expected) == end) && old(ranges[|ranges| - 1].second) <= end)
      ensures !fits ==> Valid() && log == [] && !Whole(log)
      ensures fits ==> expected == if more then old(expected) else end
      ensures fits ==> unchanged(`log, `buffer, `ranges, `session, `hasSession, `inProgress, `complete)
    {
      if !more {
        if expected != 0 && expected != end {
          Reset();
          return false;
        }
        expected := end;
        if ranges != [] && ranges[|ranges| - 1].second > expected {
          Reset();
          return false;
        }
      }
      return true;
    }

    /** Grow the buffer if needed, copy the segment in, merge its range. */
    method Write(data: seq<byte>, begin: nat, end: nat, ghost seg: Segment)
      requires seg.data == data && seg.offset == begin && end == seg.End() && data != []
      requires Holds(log, buffer, ranges)
      modifies `buffer, `ranges, `log
      ensures log == old(log) + [seg] && Holds(log, buffer, ranges)
    {
      if end > |buffer| {
        buffer := buffer + seq(end - |buffer|, _ => 0);
      }
      buffer := buffer[..begin] + data + buffer[end..];
      ranges := AddRange(ranges, begin, end);
      log := log + [seg];
      HoldsAfterWrite(old(log), seg, old(buffer), buffer, ranges);
    }

    method IsFullyCovered() returns (covered: bool)
      requires Consistent(limits, log) && Holds(log, buffer, ranges) && expected == FinalEnd(log)
      ensures covered <==> Whole(log)
    {
      covered := expected != 0 && |ranges| == 1 && ranges[0].first == 0 && ranges[0].second >= expected;
      if expected != 0 {
        forall i: nat | Covers(ranges, i) ensures i < expected { TouchedIff(log, i); }
        FullyCoveredIff(ranges, expected);
        assert AllCovered(ranges, expected) <==> Whole(log);
      }
    }
  }

  lemma ProgressIff(r: Reassembler)
    requires r.Valid()
    ensures r.inProgress <==> r.log != [] && !Whole(r.log)
  {
  }

  lemma NothingIsNotWhole()
    ensures !Whole([])
  {
  }

  lemma EmptyCall(lim: Limits, log: seq<Segment>, s: Segment)
    requires s.data == []
    ensures Step(lim, log, s) == log
  {
  }

  /** Buffer and interval list agree with the log. */
  ghost predicate Holds(log: seq<Segment>, buffer: seq<byte>, ranges: seq<Range>) {
    && Separated(ranges)
    && (forall i: nat :: Covers(ranges, i) <==> ByteAt(log, i).Some?)
    && (forall i: nat :: ByteAt(log, i).Some? ==> i < |buffer| && buffer[i] == ByteAt(log, i).value)
  }

  lemma HoldsAfterWrite(base: seq<Segment>, s: Segment, before: seq<byte>, after: seq<byte>, ranges: seq<Range>)
    requires forall i: nat :: ByteAt(base, i).Some? ==> i < |before| && before[i] == ByteAt(base, i).value
    requires Separated(ranges)
    requires forall i: nat :: Covers(ranges, i) <==> ByteAt(base, i).Some? || s.Touches(i)
    requires |after| >= s.End() && |after| >= |before|
    requires forall i :: 0 <= i < |before| && !s.Touches(i) ==> after[i] == before[i]
    requires after[s.offset..s.End()] == s.data
    ensures Holds(base + [s], after, ranges)
  {
    forall i: nat
      ensures Covers(ranges, i) <==> ByteAt(base + [s], i).Some?
      ensures ByteAt(base + [s], i).Some? ==> i < |after| && after[i] == ByteAt(base + [s], i).value
    {
      ByteAtSnoc(base, s, i);
      if s.Touches(i) { assert after[s.offset..s.End()][i - s.offset] == after[i]; }
    }
  }

  /** covered_ranges_.back().second is the largest end fed. */
  lemma LastEndIsMax(log: seq<Segment>, buffer: seq<byte>, ranges: seq<Range>)
    requires Holds(log, buffer, ranges) && log != []
    requires forall k :: 0 <= k < |log| ==> log[k].data != []
    ensures ranges != []
    ensures forall k :: 0 <= k < |log| ==> log[k].End() <= ranges[|ranges| - 1].second
    ensures exists k :: 0 <= k < |log| && log[k].End() >= ranges[|ranges| - 1].second
  {
    assert log[0].Touches(log[0].offset);
    TouchedIff(log, log[0].offset);
    assert Covers(ranges, log[0].offset);
    LastBounds(ranges);
    forall k | 0 <= k < |log| ensures log[k].End() <= ranges[|ranges| - 1].second {
      assert log[k].Touches(log[k].End() - 1);
      TouchedIff(log, log[k].End() - 1);
    }
    var top := ranges[|ranges| - 1].second - 1;
    assert Within(ranges[|ranges| - 1], top);
    assert Covers(ranges, top);
    TouchedIff(log, top);
  }

  /** After the write, the tests of Feed decide Conflicts. */
  lemma ConflictSeen(lim: Limits, base: seq<Segment>, s: Segment, buffer: seq<byte>, ranges: seq<Range>)
    requires Consistent(lim, base) && s.data != []
    requires Holds(base + [s], buffer, ranges)
    requires FinalEnd(base) != 0 ==> s.End() <= FinalEnd(base)
    ensures ranges != []
    ensures Conflicts(base, s) <==>
      !s.more && ((FinalEnd(base) != 0 && FinalEnd(base) != s.End()) || ranges[|ranges| - 1].second > s.End())
  {
    var log := base + [s];
    LastEndIsMax(log, buffer, ranges);
    if ranges[|ranges| - 1].second > s.End() {
      var k :| 0 <= k < |log| && log[k].End() >= ranges[|ranges| - 1].second;
      assert base[k].End() > s.End();
    }
    if k :| 0 <= k < |base| && base[k].End() > s.End() {
      assert log[k].End() > s.End();
    }
  }

  lemma StepSeen(lim: Limits, base: seq<Segment>, s: Segment, buffer: seq<byte>, ranges: seq<Range>)
    requires Consistent(lim, base) && s.data != [] && !Whole(base)
    requires base != [] ==> base[0].session == s.session
    requires GoodShape(lim, s) && s.End() <= lim.maxPayload
    requires Holds(base + [s], buffer, ranges)
    requires FinalEnd(base) != 0 ==> s.End() <= FinalEnd(base)
    ensures ranges != []
    ensures FinalEnd(base + [s]) == if s.more then FinalEnd(base) else s.End()
    ensures var conflict :=
        !s.more && ((FinalEnd(base) != 0 && FinalEnd(base) != s.End()) || ranges[|ranges| - 1].second > s.End());
      && Step(lim, base, s) == (if conflict then [] else base + [s])
      && (!conflict ==> Consistent(lim, base + [s]))
  {
    ConflictSeen(lim, base, s, buffer, ranges);
    StepConsistent(lim, base, s);
    assert (base + [s])[..|base|] == base;
  }

  /** Offsets decoded from a TP header are multiples of 16; then the interval
      list of any log stays short: every interval but the last, and the gap
      after it, take at least 16 bytes each. */
  lemma RangeCountBound(lim: Limits, log: seq<Segment>, buffer: seq<byte>, ranges: seq<Range>)
    requires Consistent(lim, log) && Holds(log, buffer, ranges) && ranges != []
    requires forall k :: 0 <= k < |log| ==> log[k].offset % 16 == 0
    ensures 32 * (|ranges| - 1) + 1 <= lim.maxPayload
  {
    var n := |ranges|;
    for m := 0 to n
      invariant forall j :: 0 <= j < m ==> ranges[j].first >= 32 * j
    {
      if m > 0 {
        EdgeIsAligned(lim, log, buffer, ranges, m - 1);
        EdgeIsAligned(lim, log, buffer, ranges, m);
        AlignedGap(ranges[m - 1].first, ranges[m - 1].second, ranges[m].first);
      }
    }
    var k := TouchingSegment(log, buffer, ranges, n - 1, ranges[n - 1].second - 1);
  }

  lemma AlignedGap(a: nat, b: nat, c: nat)
    requires a < b < c && a % 16 == 0 && b % 16 == 0 && c % 16 == 0
    ensures c >= a + 32
  {
  }

  /** An interval starts at a segment's offset, and one that is not the last
      ends where a non-final segment ends. */
  lemma EdgeIsAligned(lim: Limits, log: seq<Segment>, buffer: seq<byte>, ranges: seq<Range>, m: nat)
    requires Consistent(lim, log) && Holds(log, buffer, ranges) && m < |ranges|
    requires forall k :: 0 <= k < |log| ==> log[k].offset % 16 == 0
    ensures ranges[m].first % 16 == 0
    ensures m < |ranges| - 1 ==> ranges[m].second % 16 == 0
  {
    var first := FirstOfRange(log, buffer, ranges, m);
    if m < |ranges| - 1 {
      var last := LastOfInner(lim, log, buffer, ranges, m);
      EndIsAligned(lim, log[last]);
    }
  }

  lemma EndIsAligned(lim: Limits, s: Segment)
    requires GoodShape(lim, s) && s.more && s.offset % 16 == 0
    ensures s.End() % 16 == 0
  {
  }

  lemma FirstOfRange(log: seq<Segment>, buffer: seq<byte>, ranges: seq<Range>, m: nat) returns (first: nat)
    requires Holds(log, buffer, ranges) && m < |ranges|
    ensures first < |log| && log[first].offset == ranges[m].first
  {
    var lo := ranges[m].first;
    assert Within(ranges[m], lo);
    first := TouchingSegment(log, buffer, ranges, m, lo);
    if lo > 0 {
      NotCovered(ranges, m, lo - 1);
      TouchedIff(log, lo - 1);
      assert !log[first].Touches(lo - 1);
    }
  }

  lemma LastOfInner(lim: Limits, log: seq<Segment>, buffer: seq<byte>, ranges: seq<Range>, m: nat) returns (last: nat)
    requires Consistent(lim, log) && Holds(log, buffer, ranges) && m < |ranges| - 1
    ensures last < |log| && log[last].End() == ranges[m].second && log[last].more
  {
    var hi := ranges[m].second;
    assert Within(ranges[m], hi - 1);
    last := TouchingSegment(log, buffer, ranges, m, hi - 1);
    NotCovered(ranges, m, hi);
    TouchedIff(log, hi);
    assert !log[last].Touches(hi);
    assert Within(ranges[m + 1], ranges[m + 1].first);
    var later := TouchingSegment(log, buffer, ranges, m + 1, ranges[m + 1].first);
    assert log[later].End() > log[last].End();
  }

  lemma TouchingSegment(log: seq<Segment>, buffer: seq<byte>, ranges: seq<Range>, m: nat, i: nat) returns (k: nat)
    requires Holds(log, buffer, ranges) && m < |ranges| && Within(ranges[m], i)
    ensures k < |log| && log[k].Touches(i)
  {
    CoversIff(ranges, i);
    TouchedIff(log, i);
    k :| k < |log| && log[k].Touches(i);
  }

  lemma WholeIsHeld(log: seq<Segment>, buffer: seq<byte>, ranges: seq<Range>)
    requires Holds(log, buffer, ranges) && Whole(log)
    ensures FinalEnd(log) <= |buffer| && buffer[..FinalEnd(log)] == Assembled(log)
  {
    assert ByteAt(log, FinalEnd(log) - 1).Some?;
  }
}
