/** Concrete runs of the radar that show what an update run can come to. */
module UpdateWitness {
  import opened Bytes
  import opened Radar
  import opened UpdateLog
  import E2e

  const ENV := Env(true, true, true, false)
  const TARGET := Slot(Some(B), M7_0)

  /** The radar as found, with the first START open, committed, written, switched. */
  const FOUND := Radar(Programming, A, map[], None, State.Idle, NoWork)
  const OPEN := FOUND.(session := Some(Session(TARGET, 0, 0, [], 0)), state := Transferring, slots := map[TARGET := Torn])
  const COMMITTED := OPEN.(state := Writing, work := CommitWork)
  const WRITTEN := FOUND.(slots := map[TARGET := Intact([])])
  const SWITCHED := WRITTEN.(active := B, state := Writing, work := SwitchWork)

  /** Four empty images keep the run short. */
  const PLAN := Plan(map[M7_0 := [], M7_1 := [], M7_2 := [], A53 := []], FOUND)

  const PLAIN := Choice(false, false, true, false, true, 1, ERR_TIMEOUT, false, true, A, None, 0, None, false)

  const EVENTS: seq<Event> := [
    Event(Request.GetMode, FOUND, ModeIs(Some(Programming)), FOUND),
    Event(GetBootInfo, FOUND, BootInfo(Some(A)), FOUND),
    Event(Start(Firmware, M7_0, 0, 0), FOUND, Started(None, Some(B)), OPEN),
    Event(Request.Commit, OPEN, Done, COMMITTED),
    Event(Request.Status, COMMITTED, StatusIs(Some(State.Idle)), WRITTEN),
    Event(GetBootInfo, WRITTEN, NoAnswer(ERR_TIMEOUT), WRITTEN),
    Event(SwitchSlot, WRITTEN, Done, SWITCHED)]

  lemma Answered(r: Radar, q: Request, c: Choice, p: Reply, r': Radar)
    requires Next(ENV, r, q, c) == (r', p)
    ensures Answers(ENV, r, q, p, r')
  {
    hide Next;
    AnyChoiceAnswers(ENV, r, q, c);
  }

  lemma Asking()
    ensures Answers(ENV, FOUND, Request.GetMode, ModeIs(Some(Programming)), FOUND)
    ensures Answers(ENV, FOUND, GetBootInfo, BootInfo(Some(A)), FOUND)
  {
    hide Answers;
    Answered(FOUND, Request.GetMode, PLAIN, ModeIs(Some(Programming)), FOUND);
    Answered(FOUND, GetBootInfo, PLAIN, BootInfo(Some(A)), FOUND);
  }

  lemma Starting()
    ensures Answers(ENV, FOUND, Start(Firmware, M7_0, 0, 0), Started(None, Some(B)), OPEN)
  {
    hide Answers;
    Answered(FOUND, Start(Firmware, M7_0, 0, 0), PLAIN, Started(None, Some(B)), OPEN);
  }

  lemma Committing()
    ensures Answers(ENV, OPEN, Request.Commit, Done, COMMITTED)
  {
    hide Answers, E2e.Crc32Of;
    E2e.EmptyBodyIsRejected(0, 0);
    Answered(OPEN, Request.Commit, PLAIN, Done, COMMITTED);
  }

  lemma Polling()
    ensures Answers(ENV, COMMITTED, Request.Status, StatusIs(Some(State.Idle)), WRITTEN)
  {
    hide Answers;
    assert OPEN.slots[TARGET := Intact([])] == WRITTEN.slots;
    Answered(COMMITTED, Request.Status, PLAIN.(timePasses := true), StatusIs(Some(State.Idle)), WRITTEN);
  }

  lemma Losing()
    ensures Answers(ENV, WRITTEN, GetBootInfo, NoAnswer(ERR_TIMEOUT), WRITTEN)
    ensures Answers(ENV, WRITTEN, SwitchSlot, Done, SWITCHED)
  {
    hide Answers;
    Answered(WRITTEN, GetBootInfo, PLAIN.(answered := false), NoAnswer(ERR_TIMEOUT), WRITTEN);
    Answered(WRITTEN, SwitchSlot, PLAIN, Done, SWITCHED);
  }

  lemma OneStep(n: nat, e: Event)
    requires n < |EVENTS| && e == EVENTS[n] && Answers(ENV, e.before, e.request, e.reply, e.after)
    requires IsRun(ENV, FOUND, EVENTS[..n], e.before)
    ensures IsRun(ENV, FOUND, EVENTS[..n + 1], e.after)
  {
    hide Answers;
    RunMore(ENV, FOUND, EVENTS[..n], e.before, e.request, e.reply, e.after);
    assert EVENTS[..n + 1] == EVENTS[..n] + [e];
  }

  lemma ItIsARun()
    ensures IsRun(ENV, FOUND, EVENTS, SWITCHED)
  {
    hide Answers;
    Asking();
    Starting();
    Committing();
    Polling();
    Losing();
    assert EVENTS[..0] == [] && EVENTS[..7] == EVENTS;
    OneStep(0, EVENTS[0]);
    OneStep(1, EVENTS[1]);
    OneStep(2, EVENTS[2]);
    OneStep(3, EVENTS[3]);
    OneStep(4, EVENTS[4]);
    OneStep(5, EVENTS[5]);
    OneStep(6, EVENTS[6]);
  }

  lemma Incomplete(r: Radar)
    requires r.slots == WRITTEN.slots
    ensures !Carries(PLAN, r)
  {
    assert FIRMWARE_COMPONENTS[1] == M7_1 && At(r, Slot(Some(B), M7_1)) == None;
  }

  /** The radar keeps its marker; every request is one the host may send; a
      lost Boot-Info answer between START and the last commit is followed by
      the switch; and what is active in the end is not bootable. */
  lemma StrandedRun()
    ensures Keeps(ENV) && IsRun(ENV, PLAN.found, EVENTS, SWITCHED) && AllProper(ENV, PLAN, EVENTS)
    ensures Begun(EVENTS) && Blind(PLAN, EVENTS) && Hasty(PLAN, EVENTS) && !Bootable(PLAN, SWITCHED)
  {
    hide IsRun, Carries;
    ItIsARun();
    Incomplete(WRITTEN);
    Incomplete(SWITCHED);
    assert IsStart(EVENTS[2].request) && EVENTS[..5][2] == EVENTS[2];
    assert IsUnseen(EVENTS[5]) && Begun(EVENTS[..5]) && !Carries(PLAN, EVENTS[5].before);
    assert IsHasty(PLAN, EVENTS[6]);
  }

  // ---- a START outside the programming mode

  const NORMAL := FOUND.(mode := Mode.Normal)

  const MISLED: seq<Event> := [
    Event(Request.GetMode, NORMAL, Empty, NORMAL),
    Event(GetBootInfo, NORMAL, BootInfo(Some(A)), NORMAL),
    Event(Start(Firmware, M7_0, 0, 0), NORMAL, Refused(RC_SESSION_REQUIRED), NORMAL)]

  lemma AskingInNormal()
    ensures Answers(ENV, NORMAL, Request.GetMode, Empty, NORMAL)
    ensures Answers(ENV, NORMAL, GetBootInfo, BootInfo(Some(A)), NORMAL)
    ensures Answers(ENV, NORMAL, Start(Firmware, M7_0, 0, 0), Refused(RC_SESSION_REQUIRED), NORMAL)
  {
    hide Answers;
    Answered(NORMAL, Request.GetMode, PLAIN.(empty := true), Empty, NORMAL);
    Answered(NORMAL, GetBootInfo, PLAIN, BootInfo(Some(A)), NORMAL);
    Answered(NORMAL, Start(Firmware, M7_0, 0, 0), PLAIN, Refused(RC_SESSION_REQUIRED), NORMAL);
  }

  /** A GetMode answer that is a success without data lets the host send START
      to a radar in the normal mode, which refuses it. */
  lemma MisledRun()
    ensures IsRun(ENV, NORMAL, MISLED, NORMAL) && AllProper(ENV, PLAN, MISLED)
    ensures Misled(MISLED) && StartsIn(Mode.Normal, MISLED) && !Unstarted(MISLED)
  {
    hide Answers;
    AskingInNormal();
    assert MISLED[..0] == [] && MISLED[..1] == [MISLED[0]] && MISLED[..2] == [MISLED[0], MISLED[1]];
    RunMore(ENV, NORMAL, [], NORMAL, MISLED[0].request, MISLED[0].reply, NORMAL);
    RunMore(ENV, NORMAL, MISLED[..1], NORMAL, MISLED[1].request, MISLED[1].reply, NORMAL);
    RunMore(ENV, NORMAL, MISLED[..2], NORMAL, MISLED[2].request, MISLED[2].reply, NORMAL);
    assert MISLED[2].request.Start?;
  }
}
