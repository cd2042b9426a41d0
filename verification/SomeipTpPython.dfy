/** The Python SOME/IP-TP reassembler (python/src/afi_sdk/streams.py): several
    sessions at a time, each in its own assembly, the oldest assembly evicted
    when a new session meets a full table. */
module SomeipTpPython {
  import opened Bytes
  import opened Ranges
  import opened Someip
  import opened SomeipTp

  /** One call of feed. */
  datatype Call = Call(header: seq<byte>, payload: seq<byte>, session: nat) {
    /** The header has four bytes and there is a payload; otherwise the call does nothing. */
    predicate Effective() { |header| == TP_HEADER_SIZE && payload != [] }

    function Word(): TpHeader
      requires Effective()
    {
      DeserializeTp(header)
    }

    function Seg(): Segment
      requires Effective()
    {
      Segment(payload, Word().offset, Word().more, session)
    }
  }

  // ---- one session on its own

  datatype Outcome = Outcome(log: seq<Segment>, out: seq<byte>)

  /** The call gets past the checks made before the session's assembly is looked up. */
  predicate Admissible(lim: Limits, c: Call)
    requires c.Effective()
  {
    c.Word().valid && GoodShape(lim, c.Seg()) && c.Seg().End() <= lim.maxPayload
  }

  /** The effect of a call on its own session, as if there were no other. The
      log is empty when the session has no assembly. */
  ghost function Solo(lim: Limits, log: seq<Segment>, c: Call): Outcome {
    if !c.Effective() then Outcome(log, [])
    else if !Admissible(lim, c) || Conflicts(log, c.Seg()) then Outcome([], [])
    else
      var next := log + [c.Seg()];
      if Whole(next) then Outcome([], Assembled(next)) else Outcome(next, [])
  }

  /** The same, written out. */
  lemma SoloWrittenOut(lim: Limits, log: seq<Segment>, c: Call)
    requires Consistent(lim, log) && !Whole(log)
    ensures |c.header| != 4 || c.payload == [] ==> Solo(lim, log, c) == Outcome(log, [])
    ensures |c.header| == 4 && c.payload != [] ==>
              var word, n := DeserializeTp(c.header), |c.payload|;
              var offset, more := word.offset, word.more;
              var refused := !word.valid || n > lim.maxSegment || (more && n % 16 != 0) || offset + n > lim.maxPayload;
              var clash := exists k :: (0 <= k < |log|
                                        && ((!log[k].more && offset + n > log[k].offset + |log[k].data|)
                                            || (!more && log[k].offset + |log[k].data| > offset + n)));
              var next := log + [Segment(c.payload, offset, more, c.session)];
              Solo(lim, log, c) == if refused || clash then Outcome([], [])
                                   else if Whole(next) then Outcome([], Assembled(next))
                                   else Outcome(next, [])
  {
    hide FromBe, Conflicts, Whole, Consistent, DeserializeTp;
    if c.Effective() {
      ClashWrittenOut(lim, log, c.Seg());
    }
  }

  ghost function SoloRun(lim: Limits, log: seq<Segment>, cs: seq<Call>): seq<Segment> {
    if cs == [] then log else Solo(lim, SoloRun(lim, log, cs[..|cs| - 1]), cs[|cs| - 1]).log
  }

  /** The C++ class keeps a complete message until the next call; the Python
      one drops it on delivery. */
  ghost function Pending(log: seq<Segment>): seq<Segment> {
    if Whole(log) then [] else log
  }

  /** Call by call, on one session and with valid TP headers, the Python
      assembly does what the C++ Feed does and returns the same payload. */
  lemma AgreesWithCpp(lim: Limits, log: seq<Segment>, c: Call)
    requires c.Effective() && c.Word().valid
    requires Consistent(lim, log) && (log != [] ==> log[0].session == c.session)
    ensures var cpp := Step(lim, log, c.Seg());
      Solo(lim, Pending(log), c) == Outcome(Pending(cpp), if Whole(cpp) then Assembled(cpp) else [])
  {
    var s := c.Seg();
    assert Base(log, s) == Pending(log);
    var next := Pending(log) + [s];
    assert next != [] && !Whole([]);
  }

  /** The same over a whole run: same pending message, and the last call
      returns the payload exactly when the C++ call returns true. */
  lemma {:induction false} RunsAgree(lim: Limits, cs: seq<Call>, session: nat)
    requires forall k :: 0 <= k < |cs| ==> cs[k].Effective() && cs[k].Word().valid && cs[k].session == session
    ensures SoloRun(lim, [], cs) == Pending(Run(lim, [], Segs(cs)))
    ensures Run(lim, [], Segs(cs)) != [] ==> Run(lim, [], Segs(cs))[0].session == session
    ensures cs != [] ==> (Solo(lim, SoloRun(lim, [], cs[..|cs| - 1]), cs[|cs| - 1]).out
                          == if Whole(Run(lim, [], Segs(cs))) then Assembled(Run(lim, [], Segs(cs))) else [])
  {
    hide Solo, Step, Whole, Pending, Consistent, Assembled, DeserializeTp;
    NothingPending();
    if cs != [] {
      var n := |cs| - 1;
      RunsAgree(lim, cs[..n], session);
      assert Segs(cs)[..n] == Segs(cs[..n]);
      var log := Run(lim, [], Segs(cs[..n]));
      NothingConsistent(lim);
      RunConsistent(lim, [], Segs(cs[..n]));
      AgreesWithCpp(lim, log, cs[n]);
      SameSession(lim, log, cs[n].Seg());
    }
  }

  lemma NothingPending()
    ensures Pending([]) == []
  {
  }

  lemma NothingConsistent(lim: Limits)
    ensures Consistent(lim, [])
  {
  }

  lemma SameSession(lim: Limits, log: seq<Segment>, s: Segment)
    requires log != [] ==> log[0].session == s.session
    ensures Step(lim, log, s) != [] ==> Step(lim, log, s)[0].session == s.session
  {
  }

  function Segs(cs: seq<Call>): (segs: seq<Segment>)
    requires forall k :: 0 <= k < |cs| ==> cs[k].Effective()
    ensures |segs| == |cs|
  {
    seq(|cs|, k requires 0 <= k < |cs| => cs[k].Seg())
  }

  // ---- the table of sessions

  /** The dictionary of assemblies: keys in insertion order, and each session's log. */
  datatype Table = Table(order: seq<nat>, logs: map<nat, seq<Segment>>)

  ghost function Entry(t: Table, session: nat): seq<Segment> {
    if session in t.logs then t.logs[session] else []
  }

  function Without(order: seq<nat>, session: nat): seq<nat> {
    if order == [] then []
    else
      var rest := Without(order[..|order| - 1], session);
      if order[|order| - 1] == session then rest else rest + [order[|order| - 1]]
  }

  function Drop(t: Table, session: nat): Table {
    Table(Without(t.order, session), t.logs - {session})
  }

  /** A new session meets a full table: the oldest assembly goes. */
  predicate Evicts(lim: Limits, maxSessions: nat, t: Table, c: Call) {
    c.Effective() && Admissible(lim, c) && c.session !in t.logs && |t.order| >= maxSessions && t.order != []
  }

  function Admit(lim: Limits, maxSessions: nat, t: Table, c: Call): Table {
    if c.session in t.logs then t
    else
      var room := if Evicts(lim, maxSessions, t, c) then Drop(t, t.order[0]) else t;
      Table(room.order + [c.session], room.logs[c.session := []])
  }

  ghost function FeedTable(lim: Limits, maxSessions: nat, t: Table, c: Call): Table {
    if !c.Effective() then t
    else if !Admissible(lim, c) then Drop(t, c.session)
    else
      var next := Solo(lim, Entry(t, c.session), c).log;
      var room := Admit(lim, maxSessions, t, c);
      if next == [] then Drop(room, c.session) else room.(logs := room.logs[c.session := next])
  }

  ghost predicate GoodTable(t: Table) {
    && (forall k :: k in t.logs <==> k in t.order)
    && (forall i, j :: 0 <= i < j < |t.order| ==> t.order[i] != t.order[j])
    && (forall k :: k in t.logs ==> t.logs[k] != [])
  }

  lemma {:induction false} WithoutIs(order: seq<nat>, session: nat)
    requires forall i, j :: 0 <= i < j < |order| ==> order[i] != order[j]
    ensures var rest := Without(order, session);
      && (forall k :: k in rest <==> k in order && k != session)
      && (forall i, j :: 0 <= i < j < |rest| ==> rest[i] != rest[j])
      && (session !in order ==> rest == order)
      && |rest| == |order| - (if session in order then 1 else 0)
  {
    if order != [] {
      var init, last := order[..|order| - 1], order[|order| - 1];
      assert order == init + [last];
      assert last !in init;
      WithoutIs(init, session);
    }
  }

  /** What is left in the table once room for the call's session is made. */
  function Room(lim: Limits, maxSessions: nat, t: Table, c: Call): Table {
    if c.session !in t.logs && |t.order| >= maxSessions && t.order != [] then Drop(t, t.order[0]) else t
  }

  /** The message is complete or contradicts itself: the session is gone. */
  lemma Dropped(lim: Limits, maxSessions: nat, before: Table, after: Table, c: Call)
    requires c.Effective() && Admissible(lim, c) && GoodTable(before)
    requires Conflicts(Entry(before, c.session), c.Seg()) || Whole(Entry(before, c.session) + [c.Seg()])
    requires after == if c.session in before.logs then Drop(before, c.session) else Room(lim, maxSessions, before, c)
    ensures after == FeedTable(lim, maxSessions, before, c)
    ensures Solo(lim, Entry(before, c.session), c).out
         == if Conflicts(Entry(before, c.session), c.Seg()) then [] else Assembled(Entry(before, c.session) + [c.Seg()])
  {
    hide Conflicts, Whole, Call.Word, GoodShape;
    if c.session !in before.logs {
      if before.order != [] { WithoutIs(before.order, before.order[0]); }
      var room := Room(lim, maxSessions, before, c);
      WithoutIs(room.order, c.session);
      assert (room.order + [c.session])[..|room.order|] == room.order;
      assert room.logs[c.session := []] - {c.session} == room.logs;
    }
  }

  /** The message is still incomplete: the session keeps the segment. */
  lemma Stored(lim: Limits, maxSessions: nat, before: Table, after: Table, c: Call)
    requires c.Effective() && Admissible(lim, c) && GoodTable(before)
    requires !Conflicts(Entry(before, c.session), c.Seg()) && !Whole(Entry(before, c.session) + [c.Seg()])
    requires var room := Room(lim, maxSessions, before, c);
      after == Table(if c.session in before.logs then before.order else room.order + [c.session],
                     room.logs[c.session := Entry(before, c.session) + [c.Seg()]])
    ensures after == FeedTable(lim, maxSessions, before, c)
    ensures Solo(lim, Entry(before, c.session), c).out == []
  {
    hide Conflicts, Whole, Call.Word, GoodShape;
  }

  /** The checks before the look-up fail. */
  lemma Refused(lim: Limits, maxSessions: nat, before: Table, c: Call)
    requires !c.Effective() || !Admissible(lim, c)
    ensures FeedTable(lim, maxSessions, before, c) == if c.Effective() then Drop(before, c.session) else before
    ensures Solo(lim, Entry(before, c.session), c).out == []
  {
    hide Call.Word;
  }

  lemma DropGood(t: Table, session: nat)
    requires GoodTable(t)
    ensures GoodTable(Drop(t, session)) && |Drop(t, session).order| <= |t.order|
    ensures session in t.logs ==> |Drop(t, session).order| < |t.order|
    ensures session !in Drop(t, session).logs
  {
    WithoutIs(t.order, session);
  }

  lemma StoreGood(t: Table, session: nat, log: seq<Segment>)
    requires GoodTable(t) && log != []
    ensures GoodTable(Table(if session in t.logs then t.order else t.order + [session], t.logs[session := log]))
  {
  }

  lemma RoomGood(lim: Limits, maxSessions: nat, t: Table, c: Call)
    requires GoodTable(t) && maxSessions > 0 && |t.order| <= maxSessions
    ensures GoodTable(Room(lim, maxSessions, t, c)) && |Room(lim, maxSessions, t, c).order| <= |t.order|
    ensures c.session in t.logs ==> Room(lim, maxSessions, t, c) == t
    ensures c.session !in t.logs ==> c.session !in Room(lim, maxSessions, t, c).logs
    ensures c.session !in t.logs ==> |Room(lim, maxSessions, t, c).order| < maxSessions
  {
    if t.order != [] {
      DropGood(t, t.order[0]);
      assert t.order[0] in t.order;
    }
  }

  lemma FeedKeepsGood(lim: Limits, maxSessions: nat, t: Table, c: Call)
    requires GoodTable(t) && maxSessions > 0 && |t.order| <= maxSessions
    ensures GoodTable(FeedTable(lim, maxSessions, t, c)) && |FeedTable(lim, maxSessions, t, c).order| <= maxSessions
  {
    hide FeedTable, Solo, Whole, GoodTable, Drop, Room, Conflicts, Call.Word;
    DropGood(t, c.session);
    RoomGood(lim, maxSessions, t, c);
    var room := Room(lim, maxSessions, t, c);
    if !c.Effective() || !Admissible(lim, c) {
      Refused(lim, maxSessions, t, c);
    } else if Conflicts(Entry(t, c.session), c.Seg()) || Whole(Entry(t, c.session) + [c.Seg()]) {
      Dropped(lim, maxSessions, t, if c.session in t.logs then Drop(t, c.session) else room, c);
    } else {
      var log := Entry(t, c.session) + [c.Seg()];
      StoreGood(room, c.session, log);
      Stored(lim, maxSessions, t, Table(if c.session in t.logs then t.order else room.order + [c.session], room.logs[c.session := log]), c);
    }
  }

  /** Isolation: a call changes no session but its own, except that it may
      evict the oldest when its own session is new and the table is full. */
  lemma OthersUntouched(lim: Limits, maxSessions: nat, t: Table, c: Call, other: nat)
    requires GoodTable(t) && other != c.session
    ensures Entry(FeedTable(lim, maxSessions, t, c), other)
         == if Evicts(lim, maxSessions, t, c) && other == t.order[0] then [] else Entry(t, other)
  {
    hide Solo, Without;
  }

  /** Who is evicted, written out: only a segment within the limits that opens a
      new session in a full table evicts, and the session opened longest ago
      goes. A session keeps its place; a new one comes last. */
  lemma EvictionWrittenOut(lim: Limits, maxSessions: nat, t: Table, c: Call, other: nat)
    requires GoodTable(t) && maxSessions > 0 && other != c.session && |c.header| == 4 && c.payload != []
    ensures var after := FeedTable(lim, maxSessions, t, c);
            var full := |t.order| >= maxSessions;
            var word, n := DeserializeTp(c.header), |c.payload|;
            var opens := c.session !in t.order && word.valid && n <= lim.maxSegment && (word.more ==> n % 16 == 0)
                         && word.offset + n <= lim.maxPayload;
            && Entry(after, other) == (if opens && full && other == t.order[0] then [] else Entry(t, other))
            && (c.session in after.order ==>
                  after.order == if c.session in t.order then t.order
                                 else (if full then t.order[1..] else t.order) + [c.session])
  {
    hide DeserializeTp, FeedTable, Entry, GoodTable;
    OpensWrittenOut(lim, maxSessions, t, c);
    OthersUntouched(lim, maxSessions, t, c, other);
    OrderAfter(lim, maxSessions, t, c);
  }

  lemma OpensWrittenOut(lim: Limits, maxSessions: nat, t: Table, c: Call)
    requires GoodTable(t) && maxSessions > 0 && |c.header| == 4 && c.payload != []
    ensures var word, n := DeserializeTp(c.header), |c.payload|;
            Evicts(lim, maxSessions, t, c) <==>
            c.session !in t.order && |t.order| >= maxSessions
            && word.valid && n <= lim.maxSegment && (word.more ==> n % 16 == 0) && word.offset + n <= lim.maxPayload
  {
    hide DeserializeTp;
  }

  lemma OrderAfter(lim: Limits, maxSessions: nat, t: Table, c: Call)
    requires GoodTable(t) && maxSessions > 0
    ensures var after := FeedTable(lim, maxSessions, t, c);
            c.session in after.order ==>
              after.order == if c.session in t.order then t.order
                             else (if |t.order| >= maxSessions then t.order[1..] else t.order) + [c.session]
  {
    hide DeserializeTp, Solo, Without;
    WithoutIs(t.order, c.session);
    if c.Effective() && Admissible(lim, c) {
      var room := Admit(lim, maxSessions, t, c);
      if t.order != [] { FrontGone(t.order); }
      WithoutIs(room.order, c.session);
    }
  }

  /** Without the first of distinct sessions, the others remain in order. */
  lemma {:induction false} FrontGone(order: seq<nat>)
    requires order != [] && forall i, j :: 0 <= i < j < |order| ==> order[i] != order[j]
    ensures Without(order, order[0]) == order[1..]
  {
    if |order| > 1 {
      FrontGone(order[..|order| - 1]);
      assert order[1..] == order[..|order| - 1][1..] + [order[|order| - 1]];
    }
  }

  lemma Unfed(lim: Limits, maxSessions: nat, t: Table, c: Call)
    ensures |c.header| != 4 || c.payload == [] ==> FeedTable(lim, maxSessions, t, c) == t
  {
  }

  lemma OwnSession(lim: Limits, maxSessions: nat, t: Table, c: Call)
    requires GoodTable(t)
    ensures Entry(FeedTable(lim, maxSessions, t, c), c.session) == Solo(lim, Entry(t, c.session), c).log
  {
    hide Without;
  }

  ghost function FeedAll(lim: Limits, maxSessions: nat, t: Table, cs: seq<Call>): Table {
    if cs == [] then t else FeedTable(lim, maxSessions, FeedAll(lim, maxSessions, t, cs[..|cs| - 1]), cs[|cs| - 1])
  }

  /** No call of the run evicts this session. */
  ghost predicate NeverEvicted(lim: Limits, maxSessions: nat, t: Table, cs: seq<Call>, session: nat) {
    forall n :: 0 <= n < |cs| ==>
      var before := FeedAll(lim, maxSessions, t, cs[..n]);
      Evicts(lim, maxSessions, before, cs[n]) ==> before.order[0] != session
  }

  function OfSession(cs: seq<Call>, session: nat): seq<Call> {
    if cs == [] then []
    else
      var rest := OfSession(cs[..|cs| - 1], session);
      if cs[|cs| - 1].session == session then rest + [cs[|cs| - 1]] else rest
  }

  lemma {:induction false} RunKeepsGood(lim: Limits, maxSessions: nat, t: Table, cs: seq<Call>)
    requires GoodTable(t) && maxSessions > 0 && |t.order| <= maxSessions
    ensures GoodTable(FeedAll(lim, maxSessions, t, cs)) && |FeedAll(lim, maxSessions, t, cs).order| <= maxSessions
  {
    hide FeedTable, GoodTable;
    if cs != [] {
      RunKeepsGood(lim, maxSessions, t, cs[..|cs| - 1]);
      FeedKeepsGood(lim, maxSessions, FeedAll(lim, maxSessions, t, cs[..|cs| - 1]), cs[|cs| - 1]);
    }
  }

  /** What feed returned, call by call, to one session of a run. */
  ghost function Returns(lim: Limits, maxSessions: nat, t: Table, cs: seq<Call>, session: nat): seq<seq<byte>> {
    if cs == [] then []
    else
      var init, c := cs[..|cs| - 1], cs[|cs| - 1];
      Returns(lim, maxSessions, t, init, session)
      + if c.session == session then [Solo(lim, Entry(FeedAll(lim, maxSessions, t, init), session), c).out] else []
  }

  /** The same for a session on its own. */
  ghost function SoloReturns(lim: Limits, log: seq<Segment>, cs: seq<Call>): seq<seq<byte>> {
    if cs == [] then []
    else
      var init := cs[..|cs| - 1];
      SoloReturns(lim, log, init) + [Solo(lim, SoloRun(lim, log, init), cs[|cs| - 1]).out]
  }

  /** Main result: a session that is never evicted keeps what it would keep,
      and is returned, call by call, what it would be returned, if its own
      calls had been the whole run. */
  lemma {:induction false} NeverEvictedIsAlone(lim: Limits, maxSessions: nat, t: Table, cs: seq<Call>, session: nat)
    requires GoodTable(t) && maxSessions > 0 && |t.order| <= maxSessions
    requires NeverEvicted(lim, maxSessions, t, cs, session)
    ensures Entry(FeedAll(lim, maxSessions, t, cs), session) == SoloRun(lim, Entry(t, session), OfSession(cs, session))
    ensures Returns(lim, maxSessions, t, cs, session) == SoloReturns(lim, Entry(t, session), OfSession(cs, session))
  {
    hide FeedTable, GoodTable, Solo, Evicts, Entry;
    if cs != [] {
      var n := |cs| - 1;
      var init, c := cs[..n], cs[n];
      assert forall m :: 0 <= m < n ==> init[..m] == cs[..m];
      NeverEvictedIsAlone(lim, maxSessions, t, init, session);
      RunKeepsGood(lim, maxSessions, t, init);
      var before := FeedAll(lim, maxSessions, t, init);
      if c.session == session {
        OwnSession(lim, maxSessions, before, c);
        assert OfSession(cs, session)[..|OfSession(cs, session)| - 1] == OfSession(init, session);
      } else {
        OthersUntouched(lim, maxSessions, before, c, session);
      }
    }
  }

  // ---- the code

  datatype Assembly = Assembly(buffer: seq<byte>, ranges: seq<Range>, expected: Option<nat>)

  /** An assembly agrees with the log of its session. */
  ghost predicate Represents(lim: Limits, log: seq<Segment>, a: Assembly) {
    && Consistent(lim, log) && Holds(log, a.buffer, a.ranges) && !Whole(log)
    && a.expected == (if FinalEnd(log) == 0 then None else Some(FinalEnd(log)))
  }

  lemma NewAssembly(lim: Limits)
    ensures Represents(lim, [], Assembly([], [], None))
  {
  }

  class Reassembler {
    const limits: Limits
    const maxSessions: nat
    var assemblies: map<nat, Assembly>
    var order: seq<nat>
    ghost var logs: map<nat, seq<Segment>>

    ghost function State(): Table
      reads this
    {
      Table(order, logs)
    }

    ghost predicate Valid()
      reads this
    {
      && maxSessions > 0 && |order| <= maxSessions && GoodTable(State())
      && assemblies.Keys == logs.Keys
      && forall k :: k in logs ==> logs[k][0].session == k && Represents(limits, logs[k], assemblies[k])
    }

    constructor (lim: Limits, sessions: nat)
      requires sessions > 0
      ensures Valid() && State() == Table([], map[]) && limits == lim && maxSessions == sessions
    {
      limits, maxSessions := lim, sessions;
      assemblies, order, logs := map[], [], map[];
    }

    /** reset: one session, or every session if none is named. */
    method Reset(session: Option<nat>)
      requires Valid()
      modifies this
      ensures Valid()
      ensures State() == if session == None then Table([], map[]) else Drop(old(State()), session.value)
    {
      if session == None {
        assemblies, order, logs := map[], [], map[];
      } else {
        ResetSession(session.value);
      }
    }

    /** Pop the key if it is there. */
    method ResetSession(session: nat)
      requires Valid()
      modifies this
      ensures Valid() && State() == Drop(old(State()), session)
    {
      hide Represents, GoodTable;
      DropGood(State(), session);
      assemblies := assemblies - {session};
      order := Without(order, session);
      logs := logs - {session};
    }

    /** The assembly of a session goes (back) into the dictionary. */
    method Store(session: nat, next: Assembly, ghost log: seq<Segment>)
      requires Valid() && (session !in assemblies ==> |order| < maxSessions)
      requires log != [] && log[0].session == session && Represents(limits, log, next)
      modifies this
      ensures Valid()
      ensures State() == Table(if session in old(logs) then old(order) else old(order) + [session], old(logs)[session := log])
    {
      hide Represents, GoodTable;
      StoreGood(State(), session, log);
      if session !in assemblies { order := order + [session]; }
      assemblies := assemblies[session := next];
      logs := logs[session := log];
    }

    /** The code of feed; what it amounts to for the session is below. */
    method FeedSegment(header: seq<byte>, payload: seq<byte>, session: nat) returns (out: seq<byte>)
      requires Valid()
      modifies this
      ensures Valid()
      ensures State() == FeedTable(limits, maxSessions, old(State()), Call(header, payload, session))
      ensures out == Solo(limits, Entry(old(State()), session), Call(header, payload, session)).out
    {
      hide Represents, DeserializeTp, GoodTable, Conflicts, Whole, FeedTable, Solo, Drop;
      ghost var c := Call(header, payload, session);
      ghost var before := State();
      if !c.Effective() || !Admissible(limits, c) { Refused(limits, maxSessions, before, c); }
      RoomGood(limits, maxSessions, before, c);
      if |header| != TP_HEADER_SIZE || |payload| == 0 { return []; }
      var word := DeserializeTp(header);
      if !word.valid {
        ResetSession(session);
        return [];
      }
      var offset, more := word.offset, word.more;
      if |payload| > limits.maxSegment || (more && |payload| % 16 != 0) {
        ResetSession(session);
        return [];
      }
      var end := offset + |payload|;
      if end > limits.maxPayload {
        ResetSession(session);
        return [];
      }

      ghost var log := Entry(before, session);
      var state := Assembly([], [], None);
      NewAssembly(limits);
      GoodMember(before, session);
      if session in assemblies {
        state := assemblies[session];
      } else if |order| >= maxSessions {
        GoodNonEmpty(before, maxSessions);
        ResetSession(order[0]);
      }
      var done, next;
      done, next, out := Extend(state, payload, offset, end, more, log, c.Seg());
      if done {
        if session in assemblies { ResetSession(session); }
        Dropped(limits, maxSessions, before, State(), c);
      } else {
        assert (log + [c.Seg()])[0].session == session;
        Store(session, next, log + [c.Seg()]);
        Stored(limits, maxSessions, before, State(), c);
      }
    }

    method Feed(header: seq<byte>, payload: seq<byte>, session: nat) returns (out: seq<byte>)
      requires Valid()
      modifies this
      ensures Valid()
      ensures State() == FeedTable(limits, maxSessions, old(State()), Call(header, payload, session))
      ensures out == Solo(limits, Entry(old(State()), session), Call(header, payload, session)).out
      ensures |header| != 4 || payload == [] ==> State() == old(State()) && out == []
      ensures |header| == 4 && payload != [] ==>
                var log, word, n := Entry(old(State()), session), DeserializeTp(header), |payload|;
                var offset, more := word.offset, word.more;
                var refused := !word.valid || n > limits.maxSegment || (more && n % 16 != 0)
                               || offset + n > limits.maxPayload;
                var clash := exists k :: (0 <= k < |log|
                                          && ((!log[k].more && offset + n > log[k].offset + |log[k].data|)
                                              || (!more && log[k].offset + |log[k].data| > offset + n)));
                var next := log + [Segment(payload, offset, more, session)];
                if refused || clash then Entry(State(), session) == [] && out == []
                else if Whole(next) then Entry(State(), session) == [] && out == Assembled(next)
                else Entry(State(), session) == next && out == []
    {
      hide FeedTable, Solo, GoodTable, Represents, Whole, DeserializeTp;
      ghost var before, c := State(), Call(header, payload, session);
      EntryIsSound(session);
      SoloWrittenOut(limits, Entry(before, session), c);
      OwnSession(limits, maxSessions, before, c);
      Unfed(limits, maxSessions, before, c);
      out := FeedSegment(header, payload, session);
    }

    lemma EntryIsSound(session: nat)
      requires Valid()
      ensures Consistent(limits, Entry(State(), session)) && !Whole(Entry(State(), session))
    {
      NothingIsNotWhole();
      NothingConsistent(limits);
      if session in logs { assert Represents(limits, logs[session], assemblies[session]); }
    }

    /** The work on one assembly: bounds against the declared size, the write,
        the interval list, the declared size, completion. */
    method Extend(state: Assembly, payload: seq<byte>, offset: nat, end: nat, more: bool, ghost log: seq<Segment>, ghost s: Segment)
      returns (done: bool, next: Assembly, out: seq<byte>)
      requires Represents(limits, log, state)
      requires s.data == payload && s.offset == offset && s.more == more && end == s.End() && payload != []
      requires GoodShape(limits, s) && end <= limits.maxPayload
      requires log != [] ==> log[0].session == s.session
      ensures done <==> Conflicts(log, s) || Whole(log + [s])
      ensures !done ==> out == [] && Represents(limits, log + [s], next)
      ensures Conflicts(log, s) ==> out == []
      ensures done && !Conflicts(log, s) ==> out == Assembled(log + [s])
    {
      hide Step, Conflicts, Whole, Consistent, FinalEnd, Assembled;
      next, out := state, [];
      var expected := state.expected;
      BeyondConflicts(log, s);
      if expected.Some? && end > expected.value { return true, next, []; }

      var buffer := state.buffer;
      if end > |buffer| {
        buffer := buffer + seq(end - |buffer|, _ => 0);
      }
      buffer := buffer[..offset] + payload + buffer[end..];
      var ranges := AddRange(state.ranges, offset, end);
      HoldsAfterWrite(log, s, state.buffer, buffer, ranges);
      ConflictSeen(limits, log, s, buffer, ranges);
      StepSeen(limits, log, s, buffer, ranges);

      if !more {
        if expected.Some? && expected.value != end { return true, next, []; }
        expected := Some(end);
        if ranges[|ranges| - 1].second > end { return true, next, []; }
      }
      done, out := Complete(buffer, ranges, expected, log + [s]);
      next := Assembly(buffer, ranges, expected);
    }

    method Complete(buffer: seq<byte>, ranges: seq<Range>, expected: Option<nat>, ghost log: seq<Segment>)
      returns (done: bool, out: seq<byte>)
      requires Consistent(limits, log) && Holds(log, buffer, ranges)
      requires expected == (if FinalEnd(log) == 0 then None else Some(FinalEnd(log)))
      ensures done <==> Whole(log)
      ensures out == if done then Assembled(log) else []
    {
      done, out := false, [];
      if expected.Some? {
        forall i: nat | Covers(ranges, i) ensures i < expected.value { TouchedIff(log, i); }
        FullyCoveredIff(ranges, expected.value);
        assert AllCovered(ranges, expected.value) <==> Whole(log);
        if |ranges| == 1 && ranges[0].first == 0 && ranges[0].second >= expected.value {
          WholeIsHeld(log, buffer, ranges);
          return true, buffer[..expected.value];
        }
      }
    }
  }

  lemma GoodMember(t: Table, session: nat)
    requires GoodTable(t)
    ensures session in t.logs ==> t.logs[session] != []
  {
  }

  lemma GoodNonEmpty(t: Table, maxSessions: nat)
    requires GoodTable(t) && maxSessions > 0 && |t.order| >= maxSessions
    ensures t.order != [] && t.order[0] in t.logs
  {
    assert t.order[0] in t.order;
  }
}
