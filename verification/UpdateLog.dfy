/** What a firmware update must and must not do, stated over the requests it
    sends and the states of the radar around them. */
module UpdateLog {
  import opened Bytes
  import opened Radar
  import E2e

  const FIRMWARE_COMPONENTS: seq<Component> := [M7_0, M7_1, M7_2, A53]

  /** One request: the radar before it, the reply the host saw (NoAnswer when
      it was lost), the radar after it. */
  datatype Event = Event(request: Request, before: Radar, reply: Reply, after: Radar)

  /** The images to be written, and the radar as the update finds it. */
  datatype Plan = Plan(images: map<Component, seq<byte>>, found: Radar) {
    function Origin(): Face { found.active }
  }

  /** The first n firmware images are on a face, byte for byte. */
  predicate Written(images: map<Component, seq<byte>>, r: Radar, face: Face, n: nat)
    requires n <= 4
  {
    forall k :: 0 <= k < n ==>
      FIRMWARE_COMPONENTS[k] in images
      && At(r, Slot(Some(face), FIRMWARE_COMPONENTS[k])) == Some(Intact(images[FIRMWARE_COMPONENTS[k]]))
  }

  /** The face that was inactive holds the whole new firmware. */
  predicate Carries(plan: Plan, r: Radar) {
    Written(plan.images, r, Other(plan.Origin()), 4)
  }

  ghost predicate OriginKept(plan: Plan, r: Radar) {
    forall c: Component :: At(r, Slot(Some(plan.Origin()), c)) == At(plan.found, Slot(Some(plan.Origin()), c))
  }

  /** The active face is the untouched old firmware or the whole new one. */
  ghost predicate Bootable(plan: Plan, r: Radar) {
    OriginKept(plan, r) && (r.active == plan.Origin() || Carries(plan, r))
  }

  /** The radar keeps its marker at a commit, writes the inactive face and
      reports what it holds. */
  predicate Keeps(env: Env) {
    env.keepsMarker && env.writesInactive && env.truthful
  }

  // ---- single events

  /** The open session holds exactly the image of its component. */
  predicate Exact(plan: Plan, r: Radar) {
    && r.session.Some? && r.session.value.slot.component in plan.images
    && r.session.value.data == plan.images[r.session.value.slot.component]
  }

  predicate Proper(env: Env, plan: Plan, q: Request, r: Radar) {
    && (q.Start? ==> q.component in plan.images && q.size == |plan.images[q.component]|)
    && (q.Commit? && env.truthful ==> Exact(plan, r))
    && (q.Reboot? ==> r.state.Idle?)
  }

  /** A switch while the inactive face does not hold the whole firmware. */
  predicate IsHasty(plan: Plan, e: Event) {
    e.request.SwitchSlot? && !Carries(plan, e.before)
  }

  /** A Boot-Info request that left the host without the active face. */
  predicate IsUnseen(e: Event) {
    e.request.GetBootInfo? && !(e.reply.BootInfo? && e.reply.active.Some?)
  }

  predicate IsStart(q: Request) { q.Start? && q.kind.Firmware? }
  predicate IsChunk(q: Request) { q.Chunk? }
  predicate IsAbort(q: Request) { q.Abort? }
  predicate IsSwitch(q: Request) { q.SwitchSlot? }
  predicate IsReboot(q: Request) { q.Reboot? }

  // ---- logs

  /** The log is a run of the radar from r0 to r. */
  ghost predicate IsRun(env: Env, r0: Radar, log: seq<Event>, r: Radar) {
    if log == [] then r == r0
    else
      var e := log[|log| - 1];
      && e.after == r && Answers(env, e.before, e.request, e.reply, e.after)
      && IsRun(env, r0, log[..|log| - 1], e.before)
  }

  lemma RunMore(env: Env, r0: Radar, log: seq<Event>, r: Radar, q: Request, p: Reply, r': Radar)
    requires IsRun(env, r0, log, r) && Answers(env, r, q, p, r')
    ensures IsRun(env, r0, log + [Event(q, r, p, r')], r')
  {
    hide Answers;
    assert (log + [Event(q, r, p, r')])[..|log|] == log;
  }

  predicate Hasty(plan: Plan, log: seq<Event>) {
    exists k :: 0 <= k < |log| && IsHasty(plan, log[k])
  }

  predicate Begun(log: seq<Event>) {
    exists k :: 0 <= k < |log| && IsStart(log[k].request)
  }

  /** After firmware was sent, and before all of it was in place, the host
      failed to learn the active face. */
  predicate Blind(plan: Plan, log: seq<Event>) {
    exists k :: 0 <= k < |log| && IsUnseen(log[k]) && Begun(log[..k]) && !Carries(plan, log[k].before)
  }

  predicate Unswitched(log: seq<Event>) {
    Count(log, IsSwitch) == 0
  }

  /** Every START was sent in this access mode. */
  predicate StartsIn(mode: Mode, log: seq<Event>) {
    forall k :: 0 <= k < |log| && log[k].request.Start? ==> log[k].before.mode == mode
  }

  predicate Unstarted(log: seq<Event>) {
    forall k :: 0 <= k < |log| ==> !log[k].request.Start?
  }

  /** The access mode was asked for, and the answer was a success without
      data, while the radar was not in the programming mode. */
  predicate Misled(log: seq<Event>) {
    log != [] && log[0].request.GetMode? && log[0].reply.Empty? && !log[0].after.mode.Programming?
  }

  predicate AllProper(env: Env, plan: Plan, log: seq<Event>) {
    forall k :: 0 <= k < |log| ==> Proper(env, plan, log[k].request, log[k].before)
  }

  ghost predicate AllBootable(plan: Plan, log: seq<Event>) {
    forall k :: 0 <= k < |log| ==> Bootable(plan, log[k].after)
  }

  ghost predicate AllOriginKept(plan: Plan, log: seq<Event>) {
    forall k :: 0 <= k < |log| ==> OriginKept(plan, log[k].after)
  }

  function Count(log: seq<Event>, f: Request -> bool): nat {
    if log == [] then 0
    else Count(log[..|log| - 1], f) + if f(log[|log| - 1].request) then 1 else 0
  }

  lemma CountOneMore(log: seq<Event>, e: Event, f: Request -> bool)
    ensures Count(log + [e], f) == Count(log, f) + if f(e.request) then 1 else 0
  {
    assert (log + [e])[..|log|] == log;
  }

  lemma OneMore(plan: Plan, log: seq<Event>, e: Event)
    ensures Hasty(plan, log + [e]) <==> Hasty(plan, log) || IsHasty(plan, e)
    ensures Begun(log + [e]) <==> Begun(log) || IsStart(e.request)
    ensures Blind(plan, log + [e]) <==> Blind(plan, log) || (IsUnseen(e) && Begun(log) && !Carries(plan, e.before))
    ensures Unstarted(log + [e]) <==> Unstarted(log) && !e.request.Start?
  {
    hide IsHasty, IsUnseen, IsStart, Carries;
    var more := log + [e];
    assert more[|log|] == e && more[..|log|] == log;
    assert forall k :: 0 <= k < |log| ==> more[k] == log[k] && more[..k] == log[..k];
    SameBefore(plan, log, e);
  }

  lemma SameBefore(plan: Plan, log: seq<Event>, e: Event)
    ensures Hasty(plan, log) ==> Hasty(plan, log + [e])
    ensures Begun(log) ==> Begun(log + [e])
    ensures Blind(plan, log) ==> Blind(plan, log + [e])
  {
    hide IsHasty, IsUnseen, IsStart, Carries;
    var more := log + [e];
    if Hasty(plan, log) {
      var k :| 0 <= k < |log| && IsHasty(plan, log[k]);
      assert more[k] == log[k];
    }
    if Begun(log) {
      var k :| 0 <= k < |log| && IsStart(log[k].request);
      assert more[k] == log[k];
    }
    if Blind(plan, log) {
      var k :| 0 <= k < |log| && IsUnseen(log[k]) && Begun(log[..k]) && !Carries(plan, log[k].before);
      assert more[k] == log[k] && more[..k] == log[..k];
    }
  }

  // ---- the invariant of a run

  /** What makes OriginKept survive the next request. */
  ghost predicate OriginSafe(plan: Plan, r: Radar) {
    OriginKept(plan, r) && (r.active == plan.Origin() || r.session.None?)
  }

  /** What makes Bootable survive the next request. */
  ghost predicate Guarded(plan: Plan, r: Radar) {
    OriginSafe(plan, r) && (r.active == plan.Origin() || Carries(plan, r))
  }

  ghost predicate Clean(env: Env, plan: Plan, log: seq<Event>, r: Radar) {
    && Sound(env, r)
    && IsRun(env, plan.found, log, r)
    && AllProper(env, plan, log)
    && (Keeps(env) ==>
          && (Hasty(plan, log) ==> Blind(plan, log))
          && (Unswitched(log) ==> r.active == plan.Origin())
          && AllOriginKept(plan, log) && OriginSafe(plan, r)
          && (!Blind(plan, log) ==> AllBootable(plan, log) && Guarded(plan, r)))
  }

  /** Which requests the invariant lets the host send. */
  predicate Allowed(env: Env, plan: Plan, blind: bool, r: Radar, q: Request) {
    && Proper(env, plan, q, r)
    && (Keeps(env) ==>
          && (q.Start? ==> r.active == plan.Origin())
          && (q.SwitchSlot? ==> r.state.Idle? && (blind || Carries(plan, r))))
  }

  lemma MarkerStays(env: Env, r: Radar, q: Request, p: Reply, r': Radar)
    requires Keeps(env) && !q.SwitchSlot? && Answers(env, r, q, p, r')
    ensures r'.active == r.active
  {
    hide Fits;
  }

  /** The old firmware survives every run, blind or not. */
  lemma StaysOriginSafe(env: Env, plan: Plan, blind: bool, r: Radar, q: Request, p: Reply, r': Radar)
    requires Keeps(env) && Sound(env, r) && OriginSafe(plan, r) && Allowed(env, plan, blind, r, q)
    requires Answers(env, r, q, p, r')
    ensures OriginSafe(plan, r')
  {
    hide Proper, Carries;
    if q.SwitchSlot? {
      AfterSwitch(env, r, q, p, r');
      OriginDependsOnSlots(plan, r, r');
    } else if r.active == plan.Origin() {
      OtherFaceOnly(env, r, q, p, r');
    } else {
      SlotsStay(env, r, q, p, r');
      OriginDependsOnSlots(plan, r, r');
    }
  }

  lemma StaysGuarded(env: Env, plan: Plan, r: Radar, q: Request, p: Reply, r': Radar)
    requires Keeps(env) && Sound(env, r) && Guarded(plan, r) && Allowed(env, plan, false, r, q)
    requires Answers(env, r, q, p, r')
    ensures Guarded(plan, r')
  {
    hide Proper, Carries, OriginSafe;
    StaysOriginSafe(env, plan, false, r, q, p, r');
    if q.SwitchSlot? {
      AfterSwitch(env, r, q, p, r');
      CarriesDependsOnSlots(plan, r, r');
    } else if r.active == plan.Origin() {
      OtherFaceOnly(env, r, q, p, r');
    } else {
      ClosedIsElsewhere(plan, r);
      SlotsStay(env, r, q, p, r');
      CarriesDependsOnSlots(plan, r, r');
    }
  }

  lemma ClosedIsElsewhere(plan: Plan, r: Radar)
    requires OriginSafe(plan, r) && r.active != plan.Origin()
    ensures r.session.None?
  {
  }

  lemma CarriesDependsOnSlots(plan: Plan, r: Radar, r': Radar)
    requires r'.slots == r.slots
    ensures Carries(plan, r') == Carries(plan, r)
  {
  }

  lemma OriginDependsOnSlots(plan: Plan, r: Radar, r': Radar)
    requires r'.slots == r.slots
    ensures OriginKept(plan, r') == OriginKept(plan, r)
  {
  }

  ghost predicate ActiveFaceStays(r: Radar, r': Radar) {
    r'.active == r.active
    && forall c: Component :: At(r', Slot(Some(r.active), c)) == At(r, Slot(Some(r.active), c))
  }

  lemma ElapseLeavesActiveFace(env: Env, r: Radar, moves: bool)
    requires Keeps(env) && Sound(env, r)
    ensures ActiveFaceStays(r, Elapse(env, r, moves)) && Sound(env, Elapse(env, r, moves))
  {
  }

  lemma HandleLeavesActiveFace(env: Env, r: Radar, q: Request, c: Choice)
    requires Keeps(env) && !q.SwitchSlot?
    ensures ActiveFaceStays(r, Handle(env, r, q, c).0)
  {
    hide E2e.Crc32Of;
  }

  /** While a face is active, only the other one is written. */
  lemma OtherFaceOnly(env: Env, r: Radar, q: Request, p: Reply, r': Radar)
    requires Keeps(env) && Sound(env, r) && !q.SwitchSlot? && Answers(env, r, q, p, r')
    ensures ActiveFaceStays(r, r')
  {
    hide Fits, Handle, Elapse, Sound;
    var c :| Fits(env, r, c) && Next(env, r, q, c) == (r', p);
    ElapseLeavesActiveFace(env, r, c.moves);
    HandleLeavesActiveFace(env, if c.timePasses then Elapse(env, r, c.moves) else r, q, c);
  }

  lemma SlotsStay(env: Env, r: Radar, q: Request, p: Reply, r': Radar)
    requires Keeps(env) && Sound(env, r) && r.session.None? && !q.SwitchSlot? && !q.Start?
    requires Answers(env, r, q, p, r')
    ensures r'.slots == r.slots && r'.session.None? && r'.active == r.active
  {
    hide Fits;
  }

  lemma {:induction false} StaysClean(env: Env, plan: Plan, log: seq<Event>, r: Radar, q: Request, p: Reply, r': Radar)
    requires Clean(env, plan, log, r) && Allowed(env, plan, Blind(plan, log), r, q)
    requires Answers(env, r, q, p, r')
    ensures Clean(env, plan, log + [Event(q, r, p, r')], r')
  {
    hide Answers, Sound, Proper, Hasty, Blind, Begun, Count, IsRun, OriginSafe, OriginKept, Guarded, Bootable, Carries;
    var e := Event(q, r, p, r');
    StaysSound(env, r, q, p, r');
    RunMore(env, plan.found, log, r, q, p, r');
    OneMore(plan, log, e);
    CountOneMore(log, e, IsSwitch);
    if Keeps(env) {
      if !q.SwitchSlot? { MarkerStays(env, r, q, p, r'); }
      StaysOriginSafe(env, plan, Blind(plan, log), r, q, p, r');
      SafeIsKept(plan, r');
      if !Blind(plan, log) {
        StaysGuarded(env, plan, r, q, p, r');
        GuardedIsBootable(plan, r');
      }
      HastyOnlyWhenBlind(plan, e);
    }
  }

  lemma SafeIsKept(plan: Plan, r: Radar)
    requires OriginSafe(plan, r)
    ensures OriginKept(plan, r)
  {
  }

  lemma GuardedIsBootable(plan: Plan, r: Radar)
    requires Guarded(plan, r)
    ensures Bootable(plan, r)
  {
  }

  lemma HastyOnlyWhenBlind(plan: Plan, e: Event)
    ensures IsHasty(plan, e) ==> e.request.SwitchSlot? && !Carries(plan, e.before)
  {
  }

  lemma CleanStart(env: Env, plan: Plan)
    requires Sound(env, plan.found)
    ensures Clean(env, plan, [], plan.found)
    ensures !Blind(plan, []) && !Begun([])
  {
  }

  lemma CleanMeans(env: Env, plan: Plan, log: seq<Event>, r: Radar)
    requires Clean(env, plan, log, r)
    ensures Sound(env, r)
    ensures Keeps(env) && Hasty(plan, log) ==> Blind(plan, log)
  {
  }

  lemma CleanRun(env: Env, plan: Plan, log: seq<Event>, r: Radar)
    requires Clean(env, plan, log, r)
    ensures IsRun(env, plan.found, log, r) && AllProper(env, plan, log)
    ensures Keeps(env) ==> AllOriginKept(plan, log)
    ensures Keeps(env) && !Blind(plan, log) ==> AllBootable(plan, log)
    ensures Keeps(env) && Unswitched(log) ==> r.active == plan.Origin()
  {
  }

  // ---- slots over several components

  lemma WrittenMore(env: Env, images: map<Component, seq<byte>>, r: Radar, r': Radar, face: Face, n: nat)
    requires n < 4 && Written(images, r, face, n) && Confined(env, FIRMWARE_COMPONENTS[n], r, r')
    requires n > 0 ==> Sound(env, r) && r.state.Idle?
    requires FIRMWARE_COMPONENTS[n] in images
    requires At(r', Slot(Some(face), FIRMWARE_COMPONENTS[n])) == Some(Intact(images[FIRMWARE_COMPONENTS[n]]))
    ensures Written(images, r', face, n + 1)
  {
    forall k | 0 <= k < n + 1
      ensures FIRMWARE_COMPONENTS[k] in images
      ensures At(r', Slot(Some(face), FIRMWARE_COMPONENTS[k])) == Some(Intact(images[FIRMWARE_COMPONENTS[k]]))
    {
      if k < n {
        assert FIRMWARE_COMPONENTS[k] != FIRMWARE_COMPONENTS[n];
      }
    }
  }

  lemma WrittenDependsOnSlots(images: map<Component, seq<byte>>, r: Radar, r': Radar, face: Face, n: nat)
    requires n <= 4 && r'.slots == r.slots
    ensures Written(images, r', face, n) == Written(images, r, face, n)
  {
  }

  lemma BootloaderStays(env: Env, component: Component, r: Radar, r': Radar)
    requires component != Bootloader && Confined(env, component, r, r') && Sound(env, r) && r.state.Idle?
    ensures At(r', Slot(None, Bootloader)) == At(r, Slot(None, Bootloader))
  {
  }
}
