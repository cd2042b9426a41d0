/** The firmware update sequence (python/src/afi_sdk/firmware.py) and the
    access-mode walk it starts with (python/src/afi_sdk/_sdk.py). */
module FirmwareUpdate {
  import opened Bytes
  import opened Radar
  import opened UpdateLog
  import E2e

  const DEFAULT_MAX_CHUNK_SIZE := 4096
  const MAX_STALLED_CHUNKS := 200

  datatype Step = FirmwareSet | ProgrammingMode | BootInfoStep | SwitchStep | RebootStep | Transfer(component: Component)
  datatype StepResult = StepResult(step: Step, ok: bool, target: Option<Face>)
  datatype UpdateResult = UpdateResult(ok: bool, steps: seq<StepResult>, target: Option<Face>, rebooted: bool)

  /** SDK error codes. */
  datatype Code = Ok | Timeout | Disconnected | InvalidParam | ProtocolError | SensorError | NotSupported | Busy
                | SessionRequired | AccessDenied | InvalidState

  /** error_from_result. */
  function ErrorFromResult(p: Reply): Code {
    match p
    case NoAnswer(e) => if e == ERR_TRANSPORT then Disconnected else if e == ERR_TIMEOUT then Timeout else ProtocolError
    case Refused(rc) =>
      if rc == RC_INVALID_PARAM then InvalidParam
      else if rc == RC_NOT_SUPPORTED then NotSupported
      else if rc == RC_BUSY then Busy
      else if rc == RC_SESSION_REQUIRED then SessionRequired
      else if rc == RC_ACCESS_DENIED then AccessDenied
      else if rc == RC_INVALID_STATE then InvalidState
      else SensorError
    case _ => Ok
  }

  /** The codes, written out by what the radar answered. */
  lemma CodesWrittenOut(p: Reply)
    ensures p.NoAnswer? ==> ErrorFromResult(p) == (if p.error == -1 then Disconnected
                                                   else if p.error == -2 then Timeout
                                                   else ProtocolError)
    ensures p.Refused? ==> ErrorFromResult(p) == (if p.rc == 0x01 then InvalidParam
                                                  else if p.rc == 0x05 then NotSupported
                                                  else if p.rc == 0x08 then Busy
                                                  else if p.rc == 0x0C then SessionRequired
                                                  else if p.rc == 0x0D then AccessDenied
                                                  else if p.rc == 0x0E then InvalidState
                                                  else SensorError)
    ensures !p.NoAnswer? && !p.Refused? ==> ErrorFromResult(p) == Ok
  {
  }

  /** The steps enter_mode takes, given the mode it was told. */
  function Walk(current: Option<Mode>, target: Mode): seq<Mode> {
    if current == Some(target) || current == Some(Programming) then []
    else if current == Some(Normal) then if target == Diagnostic then [Diagnostic] else [Diagnostic, Programming]
    else [Programming]
  }

  /** The steps were asked for in this order, each after the one before it
      succeeded; the code is that of the last answer. */
  predicate Follows(steps: seq<Mode>, events: seq<Event>, code: Code) {
    && |events| <= |steps| && (steps != [] ==> events != [])
    && (forall k :: 0 <= k < |events| ==> events[k].request == Request.SetMode(steps[k]))
    && (forall k :: 0 <= k < |events| - 1 ==> ErrorFromResult(events[k].reply) == Ok)
    && (events != [] ==> code == ErrorFromResult(events[|events| - 1].reply))
    && (code == Ok ==> |events| == |steps|)
  }

  predicate Succeeded(e: Event) {
    !e.reply.NoAnswer? && !e.reply.Refused?
  }

  /** The walk written out: what is asked for, given the mode that was answered,
      and when the second request is left out. */
  lemma WalkWrittenOut(answer: Option<Mode>, target: Mode, events: seq<Event>, code: Code)
    requires !target.Normal? && !(answer == Some(Programming) && target == Diagnostic)
    requires Follows(Walk(answer, target), events, code)
    ensures answer == Some(target) ==> events == []
    ensures answer != Some(target) ==>
              events != [] && code == ErrorFromResult(events[|events| - 1].reply)
              && events[0].request == Request.SetMode(if answer == Some(Normal) then Diagnostic else Programming)
    ensures answer == Some(Normal) && target == Programming ==>
              && (Succeeded(events[0]) <==> |events| == 2) && |events| <= 2
              && (|events| == 2 ==> events[1].request == Request.SetMode(Programming))
    ensures answer != Some(target) && !(answer == Some(Normal) && target == Programming) ==> |events| == 1
  {
    if events != [] { CodesWrittenOut(events[0].reply); }
  }

  predicate AllOk(steps: seq<StepResult>) {
    forall k :: 0 <= k < |steps| ==> steps[k].ok
  }

  /** Only the last step of a failed update failed. */
  predicate Reports(ok: bool, steps: seq<StepResult>) {
    steps != [] && AllOk(steps[..|steps| - 1]) && steps[|steps| - 1].ok == ok
  }

  lemma ReportsMore(steps: seq<StepResult>, ok: bool, more: seq<StepResult>)
    requires AllOk(steps) && Reports(ok, more)
    ensures Reports(ok, steps + more) && (ok ==> AllOk(steps + more))
  {
    var n := |steps + more| - 1;
    assert (steps + more)[..n] == steps + more[..|more| - 1];
    assert (steps + more)[n] == more[|more| - 1];
    assert forall k :: 0 <= k < |more| ==> k == |more| - 1 || more[k] == more[..|more| - 1][k];
  }

  lemma ReportsOne(step: StepResult)
    ensures Reports(step.ok, [step]) && (step.ok ==> AllOk([step])) && AllOk([])
  {
    assert [step][..0] == [];
  }

  predicate IsComplete(firmware: map<Component, seq<byte>>) {
    firmware.Keys == {M7_0, M7_1, M7_2, A53}
  }

  /** Everything update was given, by component. */
  function Images(firmware: Option<map<Component, seq<byte>>>, bootloader: Option<seq<byte>>): map<Component, seq<byte>> {
    var images := if firmware.Some? then firmware.value else map[];
    if bootloader.Some? then images[Bootloader := bootloader.value] else images
  }

  class Sdk {
    const env: Env
    var radar: Radar
    /** What has been sent since the update began. */
    ghost var log: seq<Event>
    /** The access mode in which the transfers run. */
    ghost var mode: Mode

    ghost predicate Valid(plan: Plan)
      reads this
    {
      Clean(env, plan, log, radar) && StartsIn(mode, log)
    }

    constructor (e: Env, r: Radar)
      ensures env == e && radar == r && log == []
    {
      env, radar, log, mode := e, r, [], Normal;
    }

    /** One request to the radar. */
    method Send(q: Request, ghost plan: Plan) returns (p: Reply)
      requires Valid(plan) && Allowed(env, plan, Blind(plan, log), radar, q) && (q.Start? ==> radar.mode == mode)
      modifies `radar, `log
      ensures Valid(plan) && Sound(env, old(radar)) && Sound(env, radar) && Answers(env, old(radar), q, p, radar)
      ensures log == old(log) + [Event(q, old(radar), p, radar)]
    {
      hide Clean, Allowed, Blind, Next, Answers, Fits;
      SomeChoiceFits(env, radar);
      var c :| Fits(env, radar, c);
      var next := Next(env, radar, q, c);
      var after, reply := next.0, next.1;
      AnyChoiceAnswers(env, radar, q, c);
      StaysClean(env, plan, log, radar, q, reply, after);
      CleanMeans(env, plan, log, radar);
      StaysSound(env, radar, q, reply, after);
      log := log + [Event(q, radar, reply, after)];
      radar, p := after, reply;
    }

    // ---- access mode

    /** get_mode: the answer, a success without data included. */
    method GetMode(ghost plan: Plan) returns (answer: Reply)
      requires Valid(plan)
      modifies `radar, `log
      ensures Valid(plan) && Quiet(plan, old(log), log)
      ensures log == old(log) + [Event(Request.GetMode, old(radar), answer, radar)]
      ensures answer.NoAnswer? || answer.Refused? || answer.Empty? || answer.ModeIs?
      ensures answer.ModeIs? && answer.mode.Some? ==> answer.mode.value == radar.mode
      ensures old(radar).state.Idle? ==> radar == old(radar)
      ensures Helps(env) ==> answer.ModeIs? && answer.mode.Some?
    {
      hide Clean, Answers, Quiet, StartsIn;
      answer := Send(Request.GetMode, plan);
      QuietRequest(plan, old(log), log[|old(log)|]);
      Asked(env, old(radar), Request.GetMode, answer, radar);
      RestsMeans(env, old(radar), radar);
    }

    /** OK means that the radar is now in that mode; any other code is the
        radar's or the client's own. */
    method SetMode(mode: Mode, ghost plan: Plan) returns (code: Code)
      requires Valid(plan)
      modifies `radar, `log
      ensures Valid(plan) && Quiet(plan, old(log), log)
      ensures mode.Normal? ==> code == InvalidParam && log == old(log) && radar == old(radar)
      ensures !mode.Normal? ==>
                && |log| == |old(log)| + 1 && log == old(log) + [log[|old(log)|]]
                && log[|old(log)|].request == Request.SetMode(mode) && code == ErrorFromResult(log[|old(log)|].reply)
      ensures code == Ok ==> radar.mode == mode
      ensures old(radar).state.Idle? ==> radar == old(radar).(mode := radar.mode)
      ensures Helps(env) && !mode.Normal? ==>
                code == if NextMode(old(radar).mode, mode) then Ok
                        else if old(radar).mode.Normal? then SessionRequired
                        else AccessDenied
    {
      hide Clean, Answers, Quiet, StartsIn;
      QuietNothing(plan, log);
      if mode.Normal? { return InvalidParam; }
      var p := Send(Request.SetMode(mode), plan);
      QuietRequest(plan, old(log), log[|old(log)|]);
      ModeSet(env, old(radar), Request.SetMode(mode), p, radar);
      code := ErrorFromResult(p);
    }

    /** From wherever the radar says it is. The code is OK without the radar
        being in the target mode only after an answer that did not name a mode:
        an empty one ends the walk, and one without the field skips Diagnostic. */
    method EnterMode(target: Mode, ghost plan: Plan) returns (code: Code)
      requires Valid(plan)
      modifies `radar, `log
      ensures Valid(plan) && Quiet(plan, old(log), log)
      ensures target.Normal? ==> code == InvalidParam && log == old(log)
      ensures !target.Normal? ==>
                && |log| > |old(log)| && old(log) < log && log[|old(log)|].request == Request.GetMode
                && var answer := log[|old(log)|].reply;
                if !answer.ModeIs? then |log| == |old(log)| + 1 && code == ErrorFromResult(answer)
                else if answer.mode == Some(Programming) && target == Diagnostic then
                  |log| == |old(log)| + 1 && code == AccessDenied
                else
                  && Follows(Walk(answer.mode, target), log[|old(log)| + 1..], code)
                  && (Walk(answer.mode, target) == [] ==> code == Ok)
      ensures code == Ok ==>
                || radar.mode == target
                || (log[|old(log)|].reply.Empty? && radar == log[|old(log)|].after)
                || (log[|old(log)|].reply == ModeIs(None) && radar.mode == Programming)
      ensures old(radar).state.Idle? ==> radar == old(radar).(mode := radar.mode)
      ensures Helps(env) && target == Programming ==> code == Ok && radar.mode == Programming
    {
      hide Clean, Answers, Quiet, StartsIn, ErrorFromResult;
      QuietNothing(plan, log);
      if target.Normal? { return InvalidParam; }
      var answer := GetMode(plan);
      ghost var asked := log;
      OkMeans(answer);
      if !answer.ModeIs? { return ErrorFromResult(answer); }
      var current := answer.mode;
      if current == Some(target) { return Ok; }
      if current == Some(Programming) { return AccessDenied; }
      if current == Some(Normal) {
        code := SetMode(Diagnostic, plan);
        QuietTwice(plan, old(log), asked, log);
        if code != Ok || target == Diagnostic { return; }
      }
      ghost var before := log;
      code := SetMode(Programming, plan);
      QuietTwice(plan, old(log), before, log);
    }

    // ---- questions

    /** get_boot_info, as far as update looks at it. */
    method ActiveFace(ghost plan: Plan) returns (face: Option<Face>)
      requires Valid(plan)
      modifies `radar, `log
      ensures Valid(plan) && old(log) < log && Rests(env, old(radar), radar)
      ensures face.Some? ==> face.value == radar.active
      ensures Helps(env) ==> face.Some?
      ensures Begun(log) == Begun(old(log))
      ensures Blind(plan, log) <==> Blind(plan, old(log)) || (face == None && Begun(old(log)) && !Carries(plan, old(radar)))
      ensures Hasty(plan, log) == Hasty(plan, old(log)) && SwitchesUpTo(0, old(log), log)
    {
      hide Clean, Answers, Hasty, Begun, Blind, Carries, Count, StartsIn;
      var p := Send(GetBootInfo, plan);
      Asked(env, old(radar), GetBootInfo, p, radar);
      OneMore(plan, old(log), log[|old(log)|]);
      CountTurns(old(log), log[|old(log)|]);
      face := if p.BootInfo? then p.active else None;
    }

    /** Polls until idle; gives up at any other reply, or after some time. */
    method WaitIdle(ghost plan: Plan) returns (ok: bool)
      requires Valid(plan)
      modifies `radar, `log
      ensures Valid(plan) && Quiet(plan, old(log), log) && Rests(env, old(radar), radar)
      ensures |log| > |old(log)| && log[|log| - 1].request == Request.Status
      ensures ok <==> log[|log| - 1].reply == StatusIs(Some(State.Idle))
      ensures ok ==> radar.state.Idle?
      ensures Helps(env) && (old(radar).state.Writing? || old(radar).state.Idle?) ==> ok
    {
      hide Clean, Answers, Quiet, Rests, StartsIn;
      var polls: nat :| polls > 0;
      QuietNothing(plan, log);
      RestsNot(env, radar);
      while polls > 0
        invariant Valid(plan) && Quiet(plan, old(log), log) && Rests(env, old(radar), radar)
        invariant Helps(env) && (old(radar).state.Writing? || old(radar).state.Idle?) ==> polls > 0 && radar == old(radar)
        invariant |log| >= |old(log)| && (polls == 0 ==> |log| > |old(log)|)
        invariant |log| > |old(log)| ==>
          log[|log| - 1].request == Request.Status && log[|log| - 1].reply != StatusIs(Some(State.Idle))
      {
        ghost var before, was := log, radar;
        var p := Send(Request.Status, plan);
        Asked(env, was, Request.Status, p, radar);
        RestsAgain(env, old(radar), was, radar);
        QuietRequest(plan, before, log[|before|]);
        QuietTwice(plan, old(log), before, log);
        if !p.StatusIs? { return false; }
        if p.state == Some(Idle) { return true; }
        if p.state == Some(State.Error) { return false; }
        polls := polls - 1;
      }
      ok := false;
    }

    // ---- one component

    /** One chunk, from where the radar is on. */
    method SendChunk(slot: Slot, image: seq<byte>, chunkSize: nat, sent: nat, ghost crc: nat, ghost plan: Plan)
      returns (p: Reply)
      requires Valid(plan) && chunkSize > 0 && sent < |image| && Holding(env, radar, slot, image, crc, sent)
      modifies `radar, `log
      ensures Valid(plan) && SameTurns(plan, old(log), log) && Confined(env, slot.component, old(radar), radar)
      ensures radar.mode == old(radar).mode
      ensures Begun(log) == Begun(old(log)) && Count(log, IsAbort) == Count(old(log), IsAbort)
      ensures Count(log, IsChunk) == Count(old(log), IsChunk) + 1
      ensures |log| == |old(log)| + 1 && log == old(log) + [log[|old(log)|]] && p == log[|old(log)|].reply
      ensures IsInTurn(log[|old(log)|], image, chunkSize)
      ensures p.Taken? && (p.received == None || p.received.value <= sent) ==> IsStall(log[|old(log)|])
      ensures Helps(env) && old(radar).mode.Programming? && chunkSize <= CHUNK_LIMIT
              ==> p.Taken? && p.received.Some? && sent < p.received.value <= |image|
      ensures p.Taken? && p.received.Some? ==> p.received.value >= sent
      ensures p.Taken? ==>
                var received := if p.received.Some? then p.received.value else sent;
                received <= |image| ==> Holding(env, radar, slot, image, crc, received)
    {
      hide Clean, Answers, StartsIn, SameTurns, Confined, Holding, Begun, Count;
      var q := Chunk(if sent + chunkSize < |image| then image[sent..sent + chunkSize] else image[sent..]);
      assert q.data <= image[sent..];
      HeldWithin(env, radar, slot, image, crc, sent);
      p := Send(q, plan);
      OneRequest(plan, old(log), log[|old(log)|]);
      TransferIsConfined(env, slot.component, old(radar), q, p, radar);
      ConfinedMode(env, slot.component, old(radar), radar);
      AfterChunk(env, old(radar), q, p, radar, slot, image, crc, sent);
    }

    /** The chunk loop. Every request either advances `sent` or counts as
        stalled, so there are at most 201 requests per byte. */
    method SendChunks(slot: Slot, image: seq<byte>, chunkSize: nat, ghost crc: nat, ghost plan: Plan)
      returns (done: bool)
      requires Valid(plan) && chunkSize > 0 && Holding(env, radar, slot, image, crc, 0)
      modifies `radar, `log
      ensures Valid(plan) && SameTurns(plan, old(log), log) && Confined(env, slot.component, old(radar), radar)
      ensures Begun(log) == Begun(old(log)) && Count(log, IsAbort) == Count(old(log), IsAbort)
      ensures Count(log, IsChunk) <= Count(old(log), IsChunk) + 201 * |image|
      ensures done ==> Holding(env, radar, slot, image, crc, |image|)
      ensures old(log) <= log && InTurn(log, |old(log)|, image, chunkSize)
      ensures !done ==>
                && |log| > |old(log)|
                && var last := log[|log| - 1].reply;
                || !last.Taken?
                || (last.received.Some? && last.received.value > |image|)
                || (|log| >= |old(log)| + 201 && Stalled(log, 201))
      ensures Helps(env) && old(radar).mode.Programming? && chunkSize <= CHUNK_LIMIT ==> done
    {
      hide Clean, Answers, StartsIn, SameTurns, Confined, Holding, Begun, Count, InTurn, Stalled, IsInTurn, IsStall;
      NoneInTurn(log, image, chunkSize);
      var sent, stalled := 0, 0;
      TurnsNot(plan, log);
      ConfinedNot(env, slot.component, radar);
      HeldWithin(env, radar, slot, image, crc, sent);
      while sent < |image|
        invariant 0 <= sent <= |image| && 0 <= stalled <= MAX_STALLED_CHUNKS && (sent == |image| ==> stalled == 0)
        invariant Valid(plan) && SameTurns(plan, old(log), log) && Confined(env, slot.component, old(radar), radar)
        invariant Begun(log) == Begun(old(log)) && Count(log, IsAbort) == Count(old(log), IsAbort)
        invariant Count(log, IsChunk) <= Count(old(log), IsChunk) + 201 * sent + stalled
        invariant Holding(env, radar, slot, image, crc, sent) && radar.mode == old(radar).mode
        invariant old(log) <= log && InTurn(log, |old(log)|, image, chunkSize)
        invariant |log| >= |old(log)| + stalled && Stalled(log, stalled)
        decreases |image| - sent, MAX_STALLED_CHUNKS + 1 - stalled
      {
        ghost var before, was := log, radar;
        var p := SendChunk(slot, image, chunkSize, sent, crc, plan);
        TurnsTwice(plan, old(log), before, log);
        OneInTurn(before, log[|before|], |old(log)|, image, chunkSize);
        OneStalled(before, log[|before|], stalled);
        ConfinedTwice(env, slot.component, old(radar), was, radar);
        if !p.Taken? { return false; }
        var received := if p.received.Some? then p.received.value else sent;
        if received <= sent {
          stalled := stalled + 1;
          if stalled > MAX_STALLED_CHUNKS { return false; }
        } else {
          stalled := 0;
        }
        if received > |image| { return false; }
        sent := received;
      }
      done := true;
    }

    method AbortSession(ghost component: Component, ghost plan: Plan)
      requires Valid(plan)
      modifies `radar, `log
      ensures Valid(plan) && SameTurns(plan, old(log), log) && Confined(env, component, old(radar), radar)
      ensures Begun(log) == Begun(old(log)) && Count(log, IsChunk) == Count(old(log), IsChunk)
      ensures Count(log, IsAbort) == Count(old(log), IsAbort) + 1
      ensures |log| == |old(log)| + 1 && log == old(log) + [log[|old(log)|]] && log[|old(log)|].request.Abort?
    {
      hide Clean, Answers, StartsIn, SameTurns, Confined, Begun, Count;
      var p := Send(Request.Abort, plan);
      OneRequest(plan, old(log), log[|old(log)|]);
      TransferIsConfined(env, component, old(radar), Request.Abort, p, radar);
    }

    /** COMMIT and the wait for idle. */
    method CommitImage(slot: Slot, image: seq<byte>, ghost crc: nat, ghost plan: Plan) returns (ok: bool)
      requires Valid(plan) && Holding(env, radar, slot, image, crc, |image|)
      requires slot.component in plan.images && plan.images[slot.component] == image
      modifies `radar, `log
      ensures Valid(plan) && SameTurns(plan, old(log), log) && Confined(env, slot.component, old(radar), radar)
      ensures Begun(log) == Begun(old(log)) && Count(log, IsAbort) == Count(old(log), IsAbort)
      ensures Count(log, IsChunk) == Count(old(log), IsChunk)
      ensures ok ==> radar.state.Idle?
      ensures ok && env.truthful ==> At(radar, slot) == Some(Intact(image))
      ensures Helps(env) && old(radar).mode.Programming? && crc == E2e.Crc32Of(image) ==> ok
    {
      hide Clean, Answers, StartsIn, SameTurns, Confined, Begun, Count, Holding, Exact, Rests, E2e.Crc32Of;
      if env.truthful { HeldIsExact(env, plan, radar, slot, image, crc); }
      var p := Send(Request.Commit, plan);
      OneRequest(plan, old(log), log[|old(log)|]);
      TransferIsConfined(env, slot.component, old(radar), Request.Commit, p, radar);
      if env.truthful { AfterCommit(env, old(radar), Request.Commit, p, radar, slot, image, crc); }
      if !p.Done? { return false; }
      ghost var before, was := log, radar;
      ok := WaitIdle(plan);
      QuietTurns(plan, before, log);
      TurnsTwice(plan, old(log), before, log);
      RestsIsConfined(env, slot.component, was, radar);
      ConfinedTwice(env, slot.component, old(radar), was, radar);
      if env.truthful { LandingRests(env, was, radar, slot, image); }
    }

    /** Everything after START; one ABORT if anything fails. */
    method Transmit(slot: Slot, image: seq<byte>, chunkSize: nat, ghost crc: nat, ghost plan: Plan) returns (ok: bool)
      requires Valid(plan) && chunkSize > 0 && Holding(env, radar, slot, image, crc, 0)
      requires slot.component in plan.images && plan.images[slot.component] == image
      modifies `radar, `log
      ensures Valid(plan) && SameTurns(plan, old(log), log) && Confined(env, slot.component, old(radar), radar)
      ensures old(log) <= log && Begun(log) == Begun(old(log)) && InTurn(log, |old(log)|, image, chunkSize)
      ensures Count(log, IsChunk) <= Count(old(log), IsChunk) + 201 * |image|
      ensures Count(log, IsAbort) == Count(old(log), IsAbort) + if ok then 0 else 1
      ensures !ok ==> |log| > |old(log)| && log[|log| - 1].request.Abort?
      ensures ok ==> radar.state.Idle?
      ensures ok && env.truthful ==> At(radar, slot) == Some(Intact(image))
      ensures Helps(env) && old(radar).mode.Programming? && chunkSize <= CHUNK_LIMIT && crc == E2e.Crc32Of(image) ==> ok
    {
      hide Clean, Answers, StartsIn, SameTurns, Confined, Begun, Count, Holding, InTurn, Stalled, E2e.Crc32Of;
      ok := SendChunks(slot, image, chunkSize, crc, plan);
      ConfinedMode(env, slot.component, old(radar), radar);
      ghost var log2, radar2 := log, radar;
      if ok {
        ok := CommitImage(slot, image, crc, plan);
        TurnsTwice(plan, old(log), log2, log);
        ConfinedTwice(env, slot.component, old(radar), radar2, radar);
        TurnsMean(plan, log2, log);
        InTurnMore(log2, log, |old(log)|, image, chunkSize);
        if ok { return; }
      }
      ghost var log3, radar3 := log, radar;
      AbortSession(slot.component, plan);
      TurnsTwice(plan, old(log), log3, log);
      ConfinedTwice(env, slot.component, old(radar), radar3, radar);
      TurnsMean(plan, log3, log);
      InTurnMore(log3, log, |old(log)|, image, chunkSize);
    }

    /** START, the chunks, COMMIT, the wait for idle; exactly one ABORT if
        anything after START fails. */
    method UploadComponent(kind: UpdateType, component: Component, image: seq<byte>, crc32: Option<nat>,
                           ghost plan: Plan)
      returns (result: StepResult)
      requires Valid(plan) && radar.mode == mode
      requires component in plan.images && plan.images[component] == image
      requires Keeps(env) ==> radar.active == plan.Origin()
      modifies `radar, `log
      ensures Valid(plan) && SameTurns(plan, old(log), log) && Confined(env, component, old(radar), radar)
      ensures |log| > |old(log)| && log[|old(log)|].request.Start?
      ensures Begun(log) == (Begun(old(log)) || kind.Firmware?)
      ensures Count(log, IsChunk) <= Count(old(log), IsChunk) + 201 * |image|
      ensures Count(log, IsAbort)
           == Count(old(log), IsAbort) + if !result.ok && log[|old(log)|].reply.Started? then 1 else 0
      ensures !result.ok ==> if log[|old(log)|].reply.Started? then log[|log| - 1].request.Abort?
                             else |log| == |old(log)| + 1
      ensures result.step == Transfer(component)
      ensures log[|old(log)|].request
           == Start(kind, component, |image|, if crc32.Some? then crc32.value else E2e.Crc32Of(image))
      ensures log[|old(log)|].reply.Started? ==> old(radar).mode.Programming?
      ensures log[|old(log)|].reply.Started? ==>
                var limit := log[|old(log)|].reply.limit;
                InTurn(log, |old(log)|, image, if limit.Some? && limit.value > 0 then limit.value else 4096)
      ensures result.ok ==> log[|old(log)|].reply.Started? && radar.state.Idle? && (result.target.Some? <==> kind.Firmware?)
      ensures result.ok && env.truthful ==> At(radar, Slot(result.target, component)) == Some(Intact(image))
      ensures Helps(env) && old(radar).mode.Programming? && old(radar).state.Idle? && crc32 == None ==> result.ok
      ensures Helps(env) && old(radar).state.Idle? && kind.Firmware? && result.ok
              ==> result.target == Some(Other(old(radar).active))
    {
      hide Clean, Answers, StartsIn, SameTurns, Confined, Begun, Count, Holding, InTurn, E2e.Crc32Of;
      var crc := if crc32.Some? then crc32.value else E2e.Crc32Of(image);
      var q := Start(kind, component, |image|, crc);
      var p := Send(q, plan);
      ghost var first := log[|old(log)|];
      OneRequest(plan, old(log), first);
      TransferIsConfined(env, component, old(radar), q, p, radar);
      ConfinedMode(env, component, old(radar), radar);
      AfterStart(env, old(radar), q, p, radar, image);
      if !p.Started? { return StepResult(Transfer(component), false, None); }
      var slot := Slot(p.target, component);
      var chunkSize := if p.limit.Some? && p.limit.value > 0 then p.limit.value else DEFAULT_MAX_CHUNK_SIZE;
      ghost var log1, radar1 := log, radar;
      var ok := Transmit(slot, image, chunkSize, crc, plan);
      TurnsTwice(plan, old(log), log1, log);
      ConfinedTwice(env, component, old(radar), radar1, radar);
      InTurnSooner(log, |log1|, image, chunkSize);
      result := StepResult(Transfer(component), ok, p.target);
    }

    // ---- the sequence

    /** Toggles the face, waits for idle, and confirms the face on Boot-Info. */
    method Switch(want: Face, ghost plan: Plan) returns (ok: bool)
      requires Valid(plan) && radar.state.Idle? && Begun(log)
      requires Keeps(env) ==> (Blind(plan, log) <==> !Carries(plan, radar))
      modifies `radar, `log
      ensures Valid(plan) && old(log) < log && Begun(log) && SwitchesUpTo(1, old(log), log)
      ensures radar.mode == old(radar).mode && radar.slots == old(radar).slots
      ensures Keeps(env) ==> (Hasty(plan, log) <==> Blind(plan, log)) && (Blind(plan, log) <==> !Carries(plan, radar))
      ensures ok ==> radar.state.Idle? && radar.active == want && want == Other(old(radar).active)
      ensures Helps(env) && old(radar).mode.Programming? && want == Other(old(radar).active) ==> ok
    {
      hide Clean, Answers, Hasty, Begun, Blind, Carries, Quiet, Rests, Count, StartsIn;
      var p := Send(SwitchSlot, plan);
      ghost var before, was := log, radar;
      OneMore(plan, old(log), log[|old(log)|]);
      CountTurns(old(log), log[|old(log)|]);
      CleanMeans(env, plan, old(log), old(radar));
      AfterSwitch(env, old(radar), SwitchSlot, p, radar);
      CarriesDependsOnSlots(plan, old(radar), radar);
      if !p.Done? { return false; }
      ok := WaitIdle(plan);
      QuietTurns(plan, before, log);
      SwitchRests(env, was, radar);
      CarriesDependsOnSlots(plan, was, radar);
      if !ok { return; }
      ghost var idle := radar;
      var after := ActiveFace(plan);
      IdleRests(env, idle, radar);
      ok := after == Some(want);
    }

    /** Between components: back to the origin face if the radar is not seen
        to be on it. */
    method PutBack(origin: Face, ghost plan: Plan) returns (ok: bool)
      requires Valid(plan) && radar.state.Idle? && Begun(log)
      requires Keeps(env) ==> !Blind(plan, log) && radar.active == plan.Origin() && origin == plan.Origin()
      modifies `radar, `log
      ensures Valid(plan) && old(log) < log && Begun(log)
      ensures SwitchesUpTo(if ok && Keeps(env) then 0 else 1, old(log), log)
      ensures radar.mode == old(radar).mode && radar.slots == old(radar).slots
      ensures Keeps(env) ==> (Hasty(plan, log) <==> Blind(plan, log))
      ensures ok ==> radar.state.Idle? && radar.active == origin
      ensures Helps(env) && old(radar).mode.Programming? ==> ok
      ensures ok && Keeps(env) ==> !Blind(plan, log)
    {
      hide Clean, Hasty, Begun, Blind, Carries, Rests, Count, StartsIn;
      var face := ActiveFace(plan);
      IdleRests(env, old(radar), radar);
      CleanMeans(env, plan, log, radar);
      if face == Some(origin) { return true; }
      ok := Switch(origin, plan);
    }

    /** One image, and the check that it went to the target face. */
    method UploadTo(firmware: map<Component, seq<byte>>, i: nat, target: Face, ghost plan: Plan)
      returns (step: StepResult)
      requires Valid(plan) && radar.mode == mode && i < 4 && IsComplete(firmware)
      requires forall c :: c in firmware ==> c in plan.images && plan.images[c] == firmware[c]
      requires Keeps(env) ==> radar.active == plan.Origin()
      requires i > 0 ==> radar.state.Idle?
      modifies `radar, `log
      ensures Valid(plan) && old(log) < log && SwitchesUpTo(0, old(log), log) && radar.mode == old(radar).mode
      ensures Hasty(plan, log) == Hasty(plan, old(log)) && Blind(plan, log) == Blind(plan, old(log))
      ensures env.keepsMarker ==> radar.active == old(radar).active
      ensures step.step == Transfer([M7_0, M7_1, M7_2, A53][i])
      ensures step.ok ==> mode == Programming && radar.state.Idle? && Begun(log) && step.target == Some(target)
      ensures step.ok && env.truthful && Written(plan.images, old(radar), target, i)
              ==> Written(plan.images, radar, target, i + 1)
      ensures step.ok && old(radar).state.Idle?
              ==> At(radar, Slot(None, Bootloader)) == At(old(radar), Slot(None, Bootloader))
      ensures Helps(env) && mode == Programming && old(radar).state.Idle? && target == Other(old(radar).active) ==> step.ok
    {
      hide Clean, Hasty, Begun, Blind, Carries, Written, Confined, SameTurns, Count, StartsIn, InTurn, Sound, E2e.Crc32Of;
      var component := FIRMWARE_COMPONENTS[i];
      assert component in firmware.Keys;
      CleanMeans(env, plan, log, radar);
      step := UploadComponent(Firmware, component, firmware[component], None, plan);
      UploadKeeps(env, plan, component, old(log), old(radar), log, radar);
      if !step.ok { return; }
      if step.target != Some(target) { return StepResult(Transfer(component), false, step.target); }
      if env.truthful && Written(plan.images, old(radar), target, i) {
        WrittenMore(env, plan.images, old(radar), radar, target, i);
      }
    }

    /** One image; while others remain, the marker is put back if the radar
        moved it, so that all of them land on the same face. */
    method UpdateComponent(firmware: map<Component, seq<byte>>, i: nat, origin: Face, ghost plan: Plan)
      returns (ok: bool, steps: seq<StepResult>)
      requires Valid(plan) && radar.mode == mode && i < 4 && IsComplete(firmware)
      requires forall c :: c in firmware ==> c in plan.images && plan.images[c] == firmware[c]
      requires Keeps(env) ==> !Blind(plan, log) && radar.active == plan.Origin() && origin == plan.Origin()
      requires i > 0 ==> radar.state.Idle?
      modifies `radar, `log
      ensures Valid(plan) && old(log) < log
      ensures SwitchesUpTo(if i == 3 || (ok && Keeps(env)) then 0 else 1, old(log), log)
      ensures Keeps(env) ==> (Hasty(plan, log) <==> Blind(plan, log))
      ensures Reports(ok, steps) && (ok ==> AllOk(steps))
      ensures ok ==> radar.mode == mode == Programming && radar.state.Idle? && Begun(log)
      ensures ok && Keeps(env) ==> !Blind(plan, log) && radar.active == plan.Origin()
      ensures ok && i < 3 ==> radar.active == origin
      ensures Helps(env) && mode == Programming && old(radar).state.Idle? && old(radar).active == origin ==> ok
      ensures ok && env.truthful && Written(plan.images, old(radar), Other(origin), i)
              ==> Written(plan.images, radar, Other(origin), i + 1)
      ensures ok && old(radar).state.Idle?
              ==> At(radar, Slot(None, Bootloader)) == At(old(radar), Slot(None, Bootloader))
    {
      hide Clean, Hasty, Begun, Blind, Carries, Written, Rests, Sound, IsComplete, Reports, AllOk, Count, StartsIn;
      CleanMeans(env, plan, log, radar);
      var target := Other(origin);
      var step := UploadTo(firmware, i, target, plan);
      CleanMeans(env, plan, log, radar);
      ReportsOne(step);
      ok, steps := step.ok, [step];
      if !ok || i == 3 { return; }
      ghost var uploaded := radar;
      ok := PutBack(origin, plan);
      WrittenDependsOnSlots(plan.images, uploaded, radar, target, i + 1);
      if !ok {
        var failed := StepResult(SwitchStep, false, Some(target));
        ReportsOne(failed);
        ReportsMore([step], false, [failed]);
        steps := [step] + [failed];
      }
    }

    /** After all four: to the target face, unless the radar is seen to be on it. */
    method TurnOver(target: Face, ghost plan: Plan) returns (ok: bool)
      requires Valid(plan) && radar.state.Idle? && Begun(log)
      requires Keeps(env) ==> !Blind(plan, log) && Carries(plan, radar)
      modifies `radar, `log
      ensures Valid(plan) && old(log) < log && SwitchesUpTo(1, old(log), log) && radar.slots == old(radar).slots
      ensures Keeps(env) ==> (Hasty(plan, log) <==> Blind(plan, log))
      ensures ok ==> radar.mode == old(radar).mode && radar.state.Idle? && radar.active == target
      ensures Helps(env) && old(radar).mode.Programming? ==> ok
    {
      hide Clean, Hasty, Begun, Blind, Carries, Rests, Count, StartsIn;
      var face := ActiveFace(plan);
      IdleRests(env, old(radar), radar);
      CleanMeans(env, plan, log, radar);
      if face == Some(target) { return true; }
      ok := Switch(target, plan);
    }

    /** The four images, one face, then one switch. */
    method UpdateFirmware(firmware: map<Component, seq<byte>>, ghost plan: Plan)
      returns (ok: bool, target: Option<Face>, steps: seq<StepResult>)
      requires Valid(plan) && radar.mode == mode && IsComplete(firmware)
      requires forall c :: c in firmware ==> c in plan.images && plan.images[c] == firmware[c]
      requires !Begun(log) && (Keeps(env) ==> !Blind(plan, log) && radar.active == plan.Origin())
      modifies `radar, `log
      ensures Valid(plan) && old(log) < log && SwitchesUpTo(if Keeps(env) then 1 else 4, old(log), log)
      ensures Reports(ok, steps) && (ok ==> AllOk(steps))
      ensures Keeps(env) ==> (Hasty(plan, log) <==> Blind(plan, log))
      ensures Keeps(env) && target.Some? ==> target.value == Other(plan.Origin())
      ensures ok ==> radar.mode == mode == Programming && radar.state.Idle? && target == Some(radar.active)
      ensures ok && env.truthful ==> Written(plan.images, radar, target.value, 4)
      ensures ok && old(radar).state.Idle? ==> At(radar, Slot(None, Bootloader)) == At(old(radar), Slot(None, Bootloader))
      ensures Helps(env) && mode == Programming && old(radar).state.Idle? ==> ok
    {
      hide Clean, Hasty, Begun, Blind, Carries, Written, Rests, Sound, IsComplete, Reports, AllOk, Count, StartsIn;
      steps := [];
      ReportsOne(StepResult(BootInfoStep, false, None));
      CleanMeans(env, plan, log, radar);
      var origin := ActiveFace(plan);
      CleanMeans(env, plan, log, radar);
      RestsMeans(env, old(radar), radar);
      if origin == None { return false, None, [StepResult(BootInfoStep, false, None)]; }
      target := Some(Other(origin.value));
      NothingWritten(plan.images, radar, target.value);
      var i := 0;
      while i < 4
        invariant 0 <= i <= 4 && Valid(plan) && radar.mode == mode && old(log) < log && AllOk(steps)
        invariant SwitchesUpTo(if Keeps(env) then 0 else if i < 4 then i else 3, old(log), log)
        invariant i > 0 ==> mode == Programming && radar.state.Idle? && Begun(log)
        invariant i < 4 ==> radar.active == origin.value
        invariant Keeps(env) ==> !Blind(plan, log) && radar.active == plan.Origin() && origin.value == plan.Origin()
        invariant env.truthful ==> Written(plan.images, radar, target.value, i)
        invariant old(radar).state.Idle? ==>
            radar.state.Idle? && At(radar, Slot(None, Bootloader)) == At(old(radar), Slot(None, Bootloader))
      {
        ghost var was := radar;
        var more;
        ok, more := UpdateComponent(firmware, i, origin.value, plan);
        ReportsMore(steps, ok, more);
        steps := steps + more;
        if !ok { return; }
        i := i + 1;
      }
      CarriesIsWritten(plan, radar);
      ghost var uploaded := radar;
      ok := TurnOver(target.value, plan);
      WrittenDependsOnSlots(plan.images, uploaded, radar, target.value, 4);
      ReportsOne(StepResult(SwitchStep, ok, target));
      ReportsMore(steps, ok, [StepResult(SwitchStep, ok, target)]);
      steps := steps + [StepResult(SwitchStep, ok, target)];
    }

    method RebootRadar(ghost plan: Plan) returns (accepted: bool)
      requires Valid(plan) && radar.state.Idle?
      modifies `radar, `log
      ensures Valid(plan) && old(log) < log
      ensures Hasty(plan, log) == Hasty(plan, old(log)) && Blind(plan, log) == Blind(plan, old(log))
      ensures Count(log, IsSwitch) == Count(old(log), IsSwitch) && Count(log, IsReboot) == Count(old(log), IsReboot) + 1
      ensures radar.active == old(radar).active && radar.slots == old(radar).slots
      ensures |log| == |old(log)| + 1 && log[|old(log)|].request == Request.Reboot
      ensures var reply := log[|old(log)|].reply;
              accepted <==> !reply.Refused? && !(reply.NoAnswer? && reply.error == -3)
      ensures Helps(env) && old(radar).mode.Programming? ==> accepted
    {
      hide Clean, Answers, Hasty, Begun, Blind, Carries, Count, StartsIn;
      var p := Send(Request.Reboot, plan);
      OneMore(plan, old(log), log[|old(log)|]);
      CountTurns(old(log), log[|old(log)|]);
      AfterReboot(env, old(radar), Request.Reboot, p, radar);
      var err := ErrorFromResult(p);
      CodesWrittenOut(p);
      accepted := err == Ok || err == Disconnected || err == Timeout;
    }

    /** The transfers, once the radar is in the programming mode. */
    method Install(firmware: Option<map<Component, seq<byte>>>, bootloader: Option<seq<byte>>, ghost plan: Plan)
      returns (ok: bool, target: Option<Face>, steps: seq<StepResult>)
      requires Valid(plan) && radar.mode == mode && plan.images == Images(firmware, bootloader)
      requires firmware.Some? ==> IsComplete(firmware.value)
      requires firmware.Some? || bootloader.Some?
      requires !Begun(log) && (Keeps(env) ==> !Blind(plan, log) && radar.active == plan.Origin())
      modifies `radar, `log
      ensures Valid(plan) && old(log) < log && SwitchesUpTo(if Keeps(env) then 1 else 4, old(log), log)
      ensures Reports(ok, steps) && (ok ==> AllOk(steps))
      ensures Keeps(env) ==> (Hasty(plan, log) <==> Blind(plan, log))
      ensures ok ==> radar.state.Idle? && radar.mode == mode == Programming
      ensures ok && firmware.Some? ==> target == Some(radar.active)
      ensures ok && firmware.Some? && Keeps(env) ==> radar.active == Other(plan.Origin())
      ensures ok && firmware.Some? && env.truthful ==> Written(plan.images, radar, radar.active, 4)
      ensures ok && bootloader.Some? && env.truthful
              ==> At(radar, Slot(None, Bootloader)) == Some(Intact(bootloader.value))
      ensures Helps(env) && mode == Programming && old(radar).state.Idle? ==> ok
    {
      hide Clean, Hasty, Begun, Blind, Written, Confined, SameTurns, Sound, Images, Reports, AllOk, Count, StartsIn;
      ImagesAre(firmware, bootloader);
      ok, target, steps := true, None, [];
      if bootloader.Some? {
        var step := UploadComponent(BootloaderImage, Bootloader, bootloader.value, None, plan);
        CleanMeans(env, plan, old(log), old(radar));
        UploadKeeps(env, plan, Bootloader, old(log), old(radar), log, radar);
        ok, steps := step.ok, [step];
        ReportsOne(step);
        CleanMeans(env, plan, log, radar);
        if !ok { return; }
      }
      if firmware.Some? {
        var more;
        ok, target, more := UpdateFirmware(firmware.value, plan);
        ReportsOne(StepResult(FirmwareSet, true, None));
        ReportsMore(steps, ok, more);
        steps := steps + more;
      }
    }

    /** The walk to the programming mode, before anything else is sent. */
    method BeginSession(ghost plan: Plan) returns (code: Code)
      requires Valid(plan) && log == []
      modifies this
      ensures Valid(plan) && log != [] && Unstarted(log) && !Begun(log) && !Hasty(plan, log) && !Blind(plan, log)
      ensures Count(log, IsSwitch) == 0 && Count(log, IsReboot) == 0
      ensures code == Ok ==> radar.mode == mode && (mode.Programming? <==> !Misled(log))
      ensures Keeps(env) ==> radar.active == plan.Origin()
      ensures old(radar).state.Idle? ==> radar.state.Idle?
      ensures Helps(env) ==> code == Ok && mode == Programming
    {
      hide Clean, Hasty, Begun, Blind, Count, Quiet, SameTurns, StartsIn, Unstarted;
      NothingLogged(plan);
      code := EnterMode(Programming, plan);
      QuietTurns(plan, [], log);
      TurnsMean(plan, [], log);
      CleanRun(env, plan, log, radar);
      StartsAnywhere(log, radar.mode);
      mode := radar.mode;
    }

    method RunSequence(firmware: Option<map<Component, seq<byte>>>, bootloader: Option<seq<byte>>, reboot: bool,
                       ghost plan: Plan)
      returns (result: UpdateResult)
      requires Valid(plan) && log == [] && plan == Plan(Images(firmware, bootloader), radar)
      requires firmware.Some? ==> IsComplete(firmware.value)
      requires firmware.Some? || bootloader.Some?
      modifies this
      ensures Valid(plan) && log != []
      ensures Reports(result.ok, result.steps) && (result.rebooted <==> result.ok && reboot)
      ensures result.ok && firmware.Some? ==> result.target == Some(radar.active)
      ensures result.ok && firmware.Some? && Keeps(env) ==> radar.active == Other(plan.Origin())
      ensures result.ok && firmware.Some? && env.truthful ==> Written(plan.images, radar, radar.active, 4)
      ensures result.ok && bootloader.Some? && env.truthful
              ==> At(radar, Slot(None, Bootloader)) == Some(Intact(bootloader.value))
      ensures Keeps(env) ==> (Hasty(plan, log) <==> Blind(plan, log))
      ensures Count(log, IsSwitch) <= (if Keeps(env) then 1 else 4)
      ensures Count(log, IsReboot) <= (if reboot then 1 else 0) && (result.rebooted ==> Count(log, IsReboot) == 1)
      ensures result.ok && reboot ==> Count(log, IsReboot) == 1
      ensures reboot && Count(log, IsReboot) == 1 ==>
                && AllOk(result.steps[..|result.steps| - 1]) && log[|log| - 1].request.Reboot?
                && var reply := log[|log| - 1].reply;
                (result.ok <==> !reply.Refused? && !(reply.NoAnswer? && reply.error == -3))
      ensures Unstarted(log) || (mode.Programming? <==> !Misled(log))
      ensures result.ok ==> !Misled(log)
      ensures Helps(env) && old(radar).state.Idle? ==> result.ok
    {
      hide Clean, Hasty, Begun, Blind, Count, Written, Quiet, SameTurns, Images, Reports, AllOk, StartsIn, Unstarted;
      ReportsOne(StepResult(ProgrammingMode, false, None));
      var code := BeginSession(plan);
      ghost var first := log[0];
      if code != Ok { return UpdateResult(false, [StepResult(ProgrammingMode, false, None)], None, false); }
      var ok, target, steps := Install(firmware, bootloader, plan);
      assert log[0] == first;
      result := UpdateResult(ok, steps, target, false);
      if !ok || !reboot { return; }
      ghost var installed, was := log, radar;
      var accepted := RebootRadar(plan);
      assert log[0] == installed[0];
      WrittenDependsOnSlots(plan.images, was, radar, was.active, 4);
      ReportsOne(StepResult(RebootStep, accepted, None));
      ReportsMore(steps, accepted, [StepResult(RebootStep, accepted, None)]);
      result := UpdateResult(accepted, steps + [StepResult(RebootStep, accepted, None)], target, accepted);
    }

    /** Whatever is lost, refused or accepted in part: what a run that reports
        success has achieved, what no run does, and exactly when a run leaves
        the radar with nothing sound to boot from. */
    method Update(firmware: Option<map<Component, seq<byte>>>, bootloader: Option<seq<byte>>, reboot: bool)
      returns (result: UpdateResult, ghost plan: Plan)
      requires Sound(env, radar)
      modifies this
      ensures plan == Plan(Images(firmware, bootloader), old(radar))
      ensures Reports(result.ok, result.steps) && (result.rebooted <==> result.ok && reboot)
      ensures log == [] <==> (firmware.Some? && !IsComplete(firmware.value)) || (firmware == None && bootloader == None)
      ensures log == [] ==> !result.ok && radar == old(radar)
      ensures IsRun(env, old(radar), log, radar) && AllProper(env, plan, log)
      ensures forall k :: 0 <= k < |log| && log[k].request.Start? ==> (log[k].before.mode.Programming? <==> !Misled(log))
      ensures result.ok ==> !Misled(log)
      ensures Count(log, IsSwitch) <= (if Keeps(env) then 1 else 4)
      ensures Count(log, IsReboot) <= (if reboot then 1 else 0) && (result.rebooted ==> Count(log, IsReboot) == 1)
      ensures result.ok && reboot ==> Count(log, IsReboot) == 1
      ensures reboot && Count(log, IsReboot) == 1 ==>
                && AllOk(result.steps[..|result.steps| - 1]) && log[|log| - 1].request.Reboot?
                && var reply := log[|log| - 1].reply;
                (result.ok <==> !reply.Refused? && !(reply.NoAnswer? && reply.error == -3))
      ensures result.ok && firmware.Some? ==> result.target == Some(radar.active)
      ensures result.ok && firmware.Some? && env.truthful ==>
                forall c :: c in firmware.value ==> At(radar, Slot(Some(radar.active), c)) == Some(Intact(firmware.value[c]))
      ensures result.ok && bootloader.Some? && env.truthful
              ==> At(radar, Slot(None, Bootloader)) == Some(Intact(bootloader.value))
      ensures Keeps(env) ==> (Hasty(plan, log) <==> Blind(plan, log))
      ensures Keeps(env) ==> AllOriginKept(plan, log)
      ensures Keeps(env) && !Blind(plan, log) ==> AllBootable(plan, log)
      ensures Keeps(env) && Unswitched(log) ==> radar.active == plan.Origin()
      ensures Keeps(env) && firmware.Some? && result.ok
              ==> radar.active == Other(plan.Origin()) && Count(log, IsSwitch) == 1
      ensures Helps(env) && old(radar).state.Idle? && log != [] ==> result.ok
    {
      hide Clean, Hasty, Begun, Blind, Count, IsRun, AllProper, AllBootable, AllOriginKept, Written, Sound, Images, AllOk;
      plan := Plan(Images(firmware, bootloader), radar);
      log := [];
      CleanStart(env, plan);
      NothingLogged(plan);
      CleanRun(env, plan, log, radar);
      ReportsOne(StepResult(FirmwareSet, false, None));
      result := UpdateResult(false, [StepResult(FirmwareSet, false, None)], None, false);
      if firmware.Some? && !IsComplete(firmware.value) { return; }
      if firmware == None && bootloader == None { return; }
      result := RunSequence(firmware, bootloader, reboot, plan);
      CleanRun(env, plan, log, radar);
      if result.ok && firmware.Some? && env.truthful {
        AllWritten(firmware.value, bootloader, radar, radar.active);
      }
    }
  }

  lemma ConfinedMode(env: Env, component: Component, r: Radar, r': Radar)
    requires Confined(env, component, r, r')
    ensures r'.mode == r.mode
  {
  }

  lemma HeldWithin(env: Env, r: Radar, slot: Slot, image: seq<byte>, crc: nat, sent: nat)
    ensures Holding(env, r, slot, image, crc, sent) ==>
              sent <= |image| && r.session.Some? && r.session.value.reported == sent
  {
  }

  /** A chunk starts where the radar says it is, and is as long as the radar
      allows, or as what is left. */
  predicate IsInTurn(e: Event, image: seq<byte>, size: nat) {
    e.request.Chunk? ==>
      && e.before.session.Some? && e.before.session.value.reported < |image|
      && var at := e.before.session.value.reported;
      e.request.data == if at + size < |image| then image[at..at + size] else image[at..]
  }

  predicate InTurn(log: seq<Event>, from: nat, image: seq<byte>, size: nat) {
    forall k :: from <= k < |log| ==> IsInTurn(log[k], image, size)
  }

  lemma NoneInTurn(log: seq<Event>, image: seq<byte>, size: nat)
    ensures InTurn(log, |log|, image, size) && Stalled(log, 0)
  {
  }

  lemma OneInTurn(log: seq<Event>, e: Event, from: nat, image: seq<byte>, size: nat)
    requires InTurn(log, from, image, size) && IsInTurn(e, image, size)
    ensures InTurn(log + [e], from, image, size)
  {
  }

  lemma {:induction false} InTurnMore(log: seq<Event>, more: seq<Event>, from: nat, image: seq<byte>, size: nat)
    requires InTurn(log, from, image, size) && log <= more && Count(more, IsChunk) <= Count(log, IsChunk)
    ensures InTurn(more, from, image, size) && Count(more, IsChunk) == Count(log, IsChunk)
    decreases |more|
  {
    hide InTurn;
    if |more| > |log| {
      var init := more[..|more| - 1];
      CountGrows(log, init);
      InTurnMore(log, init, from, image, size);
      assert more == init + [more[|more| - 1]];
      OneInTurn(init, more[|more| - 1], from, image, size);
    } else {
      assert more == log;
    }
  }

  lemma {:induction false} CountGrows(log: seq<Event>, more: seq<Event>)
    requires log <= more
    ensures Count(more, IsChunk) >= Count(log, IsChunk)
    decreases |more|
  {
    if |more| > |log| {
      CountGrows(log, more[..|more| - 1]);
    } else {
      assert more == log;
    }
  }

  lemma InTurnSooner(log: seq<Event>, from: nat, image: seq<byte>, size: nat)
    requires 0 < from <= |log| && InTurn(log, from, image, size) && !log[from - 1].request.Chunk?
    ensures InTurn(log, from - 1, image, size)
  {
  }

  /** A chunk that was answered without progress. */
  predicate IsStall(e: Event) {
    && e.request.Chunk? && e.reply.Taken? && e.before.session.Some?
    && (e.reply.received.Some? ==> e.reply.received.value <= e.before.session.value.reported)
  }

  /** The last n events are such chunks. */
  predicate Stalled(log: seq<Event>, n: nat) {
    n <= |log| && forall k :: |log| - n <= k < |log| ==> IsStall(log[k])
  }

  lemma OneStalled(log: seq<Event>, e: Event, n: nat)
    requires Stalled(log, n)
    ensures Stalled(log + [e], 0) && (IsStall(e) ==> Stalled(log + [e], n + 1))
  {
  }

  lemma QuietTurns(plan: Plan, before: seq<Event>, after: seq<Event>)
    requires Quiet(plan, before, after)
    ensures SameTurns(plan, before, after) && SwitchesUpTo(0, before, after)
    ensures Begun(after) == Begun(before) && Unstarted(after) == Unstarted(before)
  {
  }

  // ---- requests that do not bear on the switch

  /** A stretch of the log without switches, START or Boot-Info requests,
      chunks or aborts. */
  predicate Quiet(plan: Plan, before: seq<Event>, after: seq<Event>) {
    && SameTurns(plan, before, after)
    && Begun(after) == Begun(before) && Unstarted(after) == Unstarted(before)
    && Count(after, IsChunk) == Count(before, IsChunk) && Count(after, IsAbort) == Count(before, IsAbort)
  }

  predicate SameTurns(plan: Plan, before: seq<Event>, after: seq<Event>) {
    && before <= after
    && Hasty(plan, after) == Hasty(plan, before)
    && Blind(plan, after) == Blind(plan, before)
    && Count(after, IsSwitch) == Count(before, IsSwitch)
    && (Count(after, IsReboot) == Count(before, IsReboot))
  }

  /** No reboot, and at most n switches. */
  predicate SwitchesUpTo(n: nat, before: seq<Event>, after: seq<Event>) {
    && Count(after, IsSwitch) <= Count(before, IsSwitch) + n
    && Count(after, IsReboot) == Count(before, IsReboot)
  }

  lemma CountTurns(log: seq<Event>, e: Event)
    ensures Count(log + [e], IsSwitch) == Count(log, IsSwitch) + if e.request.SwitchSlot? then 1 else 0
    ensures Count(log + [e], IsReboot) == Count(log, IsReboot) + if e.request.Reboot? then 1 else 0
  {
    hide Count;
    CountOneMore(log, e, IsSwitch);
    CountOneMore(log, e, IsReboot);
  }

  lemma StartsAnywhere(log: seq<Event>, mode: Mode)
    requires Unstarted(log)
    ensures StartsIn(mode, log)
  {
  }

  lemma OkMeans(p: Reply)
    ensures ErrorFromResult(p) == Ok <==> !p.NoAnswer? && !p.Refused?
  {
  }

  lemma QuietNothing(plan: Plan, log: seq<Event>)
    ensures Quiet(plan, log, log)
  {
  }

  lemma QuietTwice(plan: Plan, a: seq<Event>, b: seq<Event>, c: seq<Event>)
    requires Quiet(plan, a, b) && Quiet(plan, b, c)
    ensures Quiet(plan, a, c)
  {
    hide Hasty, Blind, Begun, Unstarted, Count;
  }

  /** A request that is neither a switch nor a Boot-Info request. */
  lemma OneRequest(plan: Plan, log: seq<Event>, e: Event)
    requires !e.request.SwitchSlot? && !e.request.GetBootInfo? && !e.request.Reboot?
    ensures SameTurns(plan, log, log + [e])
    ensures Begun(log + [e]) <==> Begun(log) || IsStart(e.request)
    ensures Unstarted(log + [e]) <==> Unstarted(log) && !e.request.Start?
    ensures Count(log + [e], IsChunk) == Count(log, IsChunk) + if IsChunk(e.request) then 1 else 0
    ensures Count(log + [e], IsAbort) == Count(log, IsAbort) + if IsAbort(e.request) then 1 else 0
  {
    hide Hasty, Blind, Begun, Unstarted, Count, Carries;
    OneMore(plan, log, e);
    CountOneMore(log, e, IsChunk);
    CountOneMore(log, e, IsAbort);
    CountOneMore(log, e, IsSwitch);
    CountOneMore(log, e, IsReboot);
  }

  lemma TurnsTwice(plan: Plan, a: seq<Event>, b: seq<Event>, c: seq<Event>)
    requires SameTurns(plan, a, b) && SameTurns(plan, b, c)
    ensures SameTurns(plan, a, c) && a <= b <= c
  {
    hide Hasty, Blind, Count;
  }

  lemma TurnsNot(plan: Plan, log: seq<Event>)
    ensures SameTurns(plan, log, log)
  {
  }

  /** The open session at the end of a transfer is what COMMIT may be sent for. */
  lemma HeldIsExact(env: Env, plan: Plan, r: Radar, slot: Slot, image: seq<byte>, crc: nat)
    requires Holding(env, r, slot, image, crc, |image|) && env.truthful
    requires slot.component in plan.images && plan.images[slot.component] == image
    ensures Exact(plan, r)
  {
    assert image[..|image|] == image;
  }

  lemma QuietRequest(plan: Plan, log: seq<Event>, e: Event)
    requires e.request.GetMode? || e.request.SetMode? || e.request.Status? || e.request.Commit?
    ensures Quiet(plan, log, log + [e])
  {
    hide SameTurns, Begun, Unstarted, Count;
    OneRequest(plan, log, e);
  }

  lemma RestsNot(env: Env, r: Radar)
    ensures Rests(env, r, r)
  {
  }

  lemma ModeSet(env: Env, r: Radar, q: Request, p: Reply, r': Radar)
    requires q.SetMode? && !q.mode.Normal? && Answers(env, r, q, p, r')
    ensures ErrorFromResult(p) == Ok ==> r'.mode == q.mode
    ensures r.state.Idle? ==> r' == r.(mode := r'.mode)
    ensures Helps(env) ==> p == if NextMode(r.mode, q.mode) then Done else Refused(ModeRefusal(r.mode, q.mode))
  {
  }

  lemma SwitchRests(env: Env, r: Radar, r': Radar)
    requires r.state.Writing? && r.work.SwitchWork? && Rests(env, r, r')
    ensures r'.slots == r.slots && r'.active == r.active && r'.mode == r.mode
  {
  }

  lemma IdleRests(env: Env, r: Radar, r': Radar)
    requires r.state.Idle? && Rests(env, r, r')
    ensures r' == r
  {
  }

  lemma RestsMeans(env: Env, r: Radar, r': Radar)
    requires Rests(env, r, r')
    ensures r'.mode == r.mode && (env.keepsMarker ==> r'.active == r.active)
    ensures r.state.Idle? ==> r' == r
  {
  }

  /** What the transfer of one component leaves alone. */
  lemma UploadKeeps(env: Env, plan: Plan, component: Component, log: seq<Event>, r: Radar, log': seq<Event>, r': Radar)
    requires SameTurns(plan, log, log') && Confined(env, component, r, r') && Sound(env, r)
    ensures log <= log' && r'.mode == r.mode && (env.keepsMarker ==> r'.active == r.active)
    ensures Blind(plan, log') == Blind(plan, log) && Hasty(plan, log') == Hasty(plan, log)
    ensures SwitchesUpTo(0, log, log')
    ensures component != Bootloader && r.state.Idle? ==> At(r', Slot(None, Bootloader)) == At(r, Slot(None, Bootloader))
  {
    hide Hasty, Blind, Count;
    if component != Bootloader && r.state.Idle? { BootloaderStays(env, component, r, r'); }
  }

  lemma NothingWritten(images: map<Component, seq<byte>>, r: Radar, face: Face)
    ensures Written(images, r, face, 0)
  {
  }

  lemma CarriesIsWritten(plan: Plan, r: Radar)
    ensures Carries(plan, r) == Written(plan.images, r, Other(plan.Origin()), 4)
  {
  }

  lemma AllWritten(firmware: map<Component, seq<byte>>, bootloader: Option<seq<byte>>, r: Radar, face: Face)
    requires IsComplete(firmware) && Written(Images(Some(firmware), bootloader), r, face, 4)
    ensures forall c :: c in firmware ==> At(r, Slot(Some(face), c)) == Some(Intact(firmware[c]))
  {
    ImagesAre(Some(firmware), bootloader);
    forall c | c in firmware ensures At(r, Slot(Some(face), c)) == Some(Intact(firmware[c])) {
      var k := match c case M7_0 => 0 case M7_1 => 1 case M7_2 => 2 case _ => 3;
      assert c in firmware.Keys && FIRMWARE_COMPONENTS[k] == c;
    }
  }

  lemma TurnsMean(plan: Plan, before: seq<Event>, after: seq<Event>)
    requires SameTurns(plan, before, after)
    ensures before <= after
    ensures Blind(plan, after) == Blind(plan, before) && Hasty(plan, after) == Hasty(plan, before)
    ensures SwitchesUpTo(0, before, after)
  {
  }

  lemma NothingLogged(plan: Plan)
    ensures !Hasty(plan, []) && !Begun([]) && !Blind(plan, []) && Unstarted([])
    ensures Count([], IsSwitch) == 0 && Count([], IsReboot) == 0
  {
  }

  lemma ImagesAre(firmware: Option<map<Component, seq<byte>>>, bootloader: Option<seq<byte>>)
    requires firmware.Some? ==> IsComplete(firmware.value)
    ensures bootloader.Some? ==> Bootloader in Images(firmware, bootloader)
                                 && Images(firmware, bootloader)[Bootloader] == bootloader.value
    ensures firmware.Some? ==> forall c :: c in firmware.value ==>
              c in Images(firmware, bootloader) && Images(firmware, bootloader)[c] == firmware.value[c]
  {
    assert firmware.Some? ==> Bootloader !in firmware.value.Keys;
  }

  lemma AfterReboot(env: Env, r: Radar, q: Request, p: Reply, r': Radar)
    requires q.Reboot? && r.state.Idle? && Answers(env, r, q, p, r')
    ensures r'.active == r.active && r'.slots == r.slots
    ensures Helps(env) && r.mode.Programming? ==> p.Done?
  {
  }

  /** The other half of what Update says of Blind: wherever the new firmware is
      not complete yet, one lost Boot-Info answer is enough. The host then asks
      for the switch, because it does not see the origin face, and the radar
      is left on a face that holds neither firmware. */
  lemma LostBootInfoStrands(env: Env, plan: Plan, r: Radar)
    requires Keeps(env) && !Helps(env) && Sound(env, r) && r.mode.Programming? && r.state.Idle?
    requires r.active == plan.Origin() && !Carries(plan, r)
    ensures Answers(env, r, GetBootInfo, NoAnswer(ERR_TIMEOUT), r)
    ensures var after := r.(active := Other(r.active), state := Writing, work := SwitchWork);
            Answers(env, r, SwitchSlot, Done, after) && !Bootable(plan, after)
  {
    hide Written;
    var lost := Choice(false, false, true, false, false, 1, ERR_TIMEOUT, false, true, A, None, 0, None, false);
    var seen := lost.(answered := true);
    AnyChoiceAnswers(env, r, GetBootInfo, lost);
    AnyChoiceAnswers(env, r, SwitchSlot, seen);
    CarriesDependsOnSlots(plan, r, r.(active := Other(r.active), state := Writing, work := SwitchWork));
  }
}
