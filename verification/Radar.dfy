/** The environment of the firmware update: a radar with two slot faces.

    It follows the scripted radar of test/test_python_firmware.py. Everything
    that radar scripts is a free choice here: how much of a chunk is accepted,
    how long medium work takes, which requests are refused, and which requests
    or replies are lost. */
module Radar {
  import opened Bytes
  import E2e

  datatype Mode = Normal | Diagnostic | Programming
  datatype Face = A | B
  datatype Component = M7_0 | M7_1 | M7_2 | A53 | Bootloader
  datatype UpdateType = Firmware | BootloaderImage
  datatype State = Idle | Transferring | Writing | Error
  datatype Work = NoWork | CommitWork | SwitchWork

  /** Where an image is kept; the bootloader has no face. */
  datatype Slot = Slot(face: Option<Face>, component: Component)
  datatype Content = Intact(image: seq<byte>) | Torn

  /** reported: the largest total the radar has claimed to have received. */
  datatype Session = Session(slot: Slot, size: nat, crc: nat, data: seq<byte>, reported: nat)

  datatype Radar = Radar(mode: Mode, active: Face, slots: map<Slot, Content>, session: Option<Session>,
                         state: State, work: Work)

  /** keepsMarker: a commit leaves the active face alone (older firmware may
      move it). writesInactive: START opens the inactive face. truthful: a
      chunk is answered with the number of bytes held. obliging: nothing is
      lost, refused or faulty, some of every chunk is accepted, and medium work
      is done by the next request. */
  datatype Env = Env(keepsMarker: bool, writesInactive: bool, truthful: bool, obliging: bool)

  datatype Request =
    | GetMode
    | SetMode(mode: Mode)
    | GetBootInfo
    | Start(kind: UpdateType, component: Component, size: nat, crc: nat)
    | Chunk(data: seq<byte>)
    | Commit
    | Abort
    | Status
    | SwitchSlot
    | Reboot

  /** What the radar refuses with, and what the client reports by itself. */
  type ReturnCode = n: nat | 0 < n < 256 witness 1
  type TransportError = e: int | -3 <= e <= -1 witness -1

  const RC_INVALID_PARAM: ReturnCode := 0x01
  const RC_NOT_SUPPORTED: ReturnCode := 0x05
  const RC_BUSY: ReturnCode := 0x08
  const RC_SESSION_REQUIRED: ReturnCode := 0x0C
  const RC_ACCESS_DENIED: ReturnCode := 0x0D
  const RC_INVALID_STATE: ReturnCode := 0x0E
  const ERR_TRANSPORT: TransportError := -1
  const ERR_TIMEOUT: TransportError := -2
  const ERR_PROTOCOL: TransportError := -3

  /** Empty is a success without data; a field may be missing from the others. */
  datatype Reply =
    | NoAnswer(error: TransportError)
    | Refused(rc: ReturnCode)
    | Empty
    | Done
    | ModeIs(mode: Option<Mode>)
    | BootInfo(active: Option<Face>)
    | Started(limit: Option<nat>, target: Option<Face>)
    | Taken(received: Option<nat>)
    | StatusIs(state: Option<State>)

  datatype Choice = Choice(timePasses: bool, moves: bool, delivered: bool, refuses: bool, answered: bool,
                           rc: ReturnCode, error: TransportError, empty: bool, shows: bool,
                           face: Face, limit: Option<nat>, accepts: nat, claim: Option<nat>, fault: bool)

  const CHUNK_LIMIT := 4096

  function Other(f: Face): Face {
    if f == A then B else A
  }

  function At(r: Radar, slot: Slot): Option<Content> {
    if slot in r.slots then Some(r.slots[slot]) else None
  }

  function Close(r: Radar): Radar {
    r.(session := None, state := Idle, work := NoWork)
  }

  /** Pending medium work ends; a transfer left alone for too long is dropped. */
  function Elapse(env: Env, r: Radar, moves: bool): Radar {
    match r.state
    case Idle => r
    case Error => r
    case Transferring => Close(r)
    case Writing =>
      if r.work.CommitWork? && r.session.Some? then
        var s := r.session.value;
        var marker := if moves && !env.keepsMarker && s.slot.face.Some? then s.slot.face.value else r.active;
        Close(r.(slots := r.slots[s.slot := Intact(s.data)], active := marker))
      else Close(r)
  }

  function HandleStart(env: Env, r: Radar, kind: UpdateType, component: Component, size: nat, crc: nat, c: Choice)
    : (Radar, Reply)
  {
    if !r.state.Idle? then (r, Refused(RC_INVALID_STATE))
    else
      var face := if env.writesInactive then Other(r.active) else c.face;
      var slot := Slot(if kind.Firmware? then Some(face) else None, component);
      (r.(session := Some(Session(slot, size, crc, [], 0)), state := Transferring, slots := r.slots[slot := Torn]),
       Started(c.limit, slot.face))
  }

  function HandleChunk(env: Env, r: Radar, data: seq<byte>, c: Choice): (Radar, Reply) {
    if |data| > CHUNK_LIMIT then (r, Refused(RC_INVALID_PARAM))
    else if !r.state.Transferring? || r.session.None? then (r, Refused(RC_INVALID_STATE))
    else
      var s := r.session.value;
      var held := s.data + if c.accepts < |data| then data[..c.accepts] else data;
      var total := if env.truthful then Some(|held|)
                   else if c.claim.Some? && c.claim.value < s.reported then Some(s.reported)
                   else c.claim;
      (r.(session := Some(s.(data := held, reported := if total.Some? then total.value else s.reported))), Taken(total))
  }

  function HandleCommit(r: Radar, c: Choice): (Radar, Reply) {
    if !r.state.Transferring? || r.session.None? || |r.session.value.data| != r.session.value.size
    then (r, Refused(RC_INVALID_STATE))
    else if c.fault || E2e.Crc32Of(r.session.value.data) != r.session.value.crc then (r.(state := Error), Done)
    else (r.(state := Writing, work := CommitWork), Done)
  }

  /** The update requests need the programming mode. */
  function HandleUpdate(env: Env, r: Radar, q: Request, c: Choice): (Radar, Reply) {
    if !r.mode.Programming? then (r, Refused(RC_SESSION_REQUIRED))
    else match q
      case Start(kind, component, size, crc) => HandleStart(env, r, kind, component, size, crc, c)
      case Chunk(data) => HandleChunk(env, r, data, c)
      case Commit => HandleCommit(r, c)
      case Abort => (Close(r), Done)
      case SwitchSlot =>
        if !r.state.Idle? then (r, Refused(RC_INVALID_STATE))
        else (r.(active := Other(r.active), state := Writing, work := SwitchWork), Done)
      case Reboot => (Close(r).(mode := Normal), Done)
      case _ => (r, Refused(RC_NOT_SUPPORTED))
  }

  /** Diagnostic from Normal, Programming from Diagnostic; no way back. */
  predicate NextMode(from: Mode, to: Mode) {
    (from.Normal? && to.Diagnostic?) || (from.Diagnostic? && to.Programming?)
  }

  function ModeRefusal(from: Mode, to: Mode): ReturnCode {
    if from.Normal? && to.Programming? then RC_SESSION_REQUIRED else RC_ACCESS_DENIED
  }

  function Handle(env: Env, r: Radar, q: Request, c: Choice): (Radar, Reply) {
    if c.refuses then (r, Refused(c.rc))
    else match q
      case GetMode => (r, if c.empty then Empty else ModeIs(if c.shows then Some(r.mode) else None))
      case SetMode(m) =>
        if NextMode(r.mode, m) then (r.(mode := m), Done) else (r, Refused(ModeRefusal(r.mode, m)))
      case GetBootInfo => (r, if c.empty then Empty else BootInfo(if c.shows then Some(r.active) else None))
      case Status => (r, if c.empty then Empty else StatusIs(if c.shows then Some(r.state) else None))
      case _ => HandleUpdate(env, r, q, c)
  }

  /** One request: time may pass before it arrives, it may not arrive, and its
      reply may be lost. */
  function Next(env: Env, r: Radar, q: Request, c: Choice): (Radar, Reply) {
    var before := if c.timePasses then Elapse(env, r, c.moves) else r;
    if !c.delivered then (before, NoAnswer(c.error))
    else
      var (after, p) := Handle(env, before, q, c);
      (after, if c.answered then p else NoAnswer(c.error))
  }

  predicate Helps(env: Env) {
    env.obliging && env.truthful && env.writesInactive
  }

  /** Whether the radar may choose so. */
  predicate Fits(env: Env, r: Radar, c: Choice) {
    Helps(env) ==>
      && c.delivered && c.answered && !c.refuses && !c.fault && !c.empty && c.shows && c.accepts > 0
      && (c.limit.Some? ==> c.limit.value <= CHUNK_LIMIT)
      && (c.timePasses <==> r.state.Writing?)
  }

  lemma SomeChoiceFits(env: Env, r: Radar)
    ensures exists c :: Fits(env, r, c)
  {
    var c := Choice(r.state.Writing?, false, true, false, true, 1, -1, false, true, A, None, 1, None, false);
    assert Fits(env, r, c);
  }

  ghost predicate Answers(env: Env, r: Radar, q: Request, p: Reply, r': Radar) {
    exists c :: Fits(env, r, c) && Next(env, r, q, c) == (r', p)
  }

  lemma AnyChoiceAnswers(env: Env, r: Radar, q: Request, c: Choice)
    requires Fits(env, r, c)
    ensures Answers(env, r, q, Next(env, r, q, c).1, Next(env, r, q, c).0)
  {
    var next := Next(env, r, q, c);
    assert Next(env, r, q, c) == (next.0, next.1);
  }

  /** What holds of every radar between requests. */
  predicate Sound(env: Env, r: Radar) {
    && (r.state.Writing? <==> !r.work.NoWork?)
    && (r.state.Idle? || r.work.SwitchWork? ==> r.session.None?)
    && (r.state.Transferring? || r.work.CommitWork? ==> r.session.Some?)
    && (env.writesInactive && r.session.Some? && r.session.value.slot.face.Some?
        ==> r.session.value.slot.face.value == Other(r.active))
  }

  lemma StaysSound(env: Env, r: Radar, q: Request, p: Reply, r': Radar)
    requires Sound(env, r) && Answers(env, r, q, p, r')
    ensures Sound(env, r')
  {
    hide E2e.Crc32Of, Fits;
  }

  // ---- what the host may conclude from one reply

  /** Only time has passed. */
  ghost predicate Rests(env: Env, r: Radar, r': Radar) {
    r' == r || exists moves :: r' == Elapse(env, r, moves)
  }

  lemma RestsAgain(env: Env, r: Radar, r1: Radar, r2: Radar)
    requires Rests(env, r, r1) && Rests(env, r1, r2)
    ensures Rests(env, r, r2)
  {
  }

  predicate Asks(q: Request) {
    q.GetMode? || q.GetBootInfo? || q.Status?
  }

  /** A question changes nothing, and its answer is true. */
  lemma Asked(env: Env, r: Radar, q: Request, p: Reply, r': Radar)
    requires Asks(q) && Answers(env, r, q, p, r')
    ensures Rests(env, r, r')
    ensures p.ModeIs? && p.mode.Some? ==> p.mode.value == r'.mode
    ensures p.BootInfo? && p.active.Some? ==> p.active.value == r'.active
    ensures p.StatusIs? && p.state.Some? ==> p.state.value == r'.state
    ensures q.GetMode? ==> p.NoAnswer? || p.Refused? || p.Empty? || p.ModeIs?
    ensures Helps(env) && q.GetMode? ==> p.ModeIs? && p.mode.Some?
    ensures Helps(env) && q.GetBootInfo? ==> p.BootInfo? && p.active.Some?
    ensures Helps(env) && q.Status? ==> p.StatusIs? && p.state.Some? && r'.state == if r.state.Writing? then Idle else r.state
  {
    var c :| Fits(env, r, c) && Next(env, r, q, c) == (r', p);
    assert Elapse(env, r, c.moves) == Elapse(env, r, c.moves);
  }

  predicate OnlyOpen(component: Component, r: Radar) {
    r.session.Some? ==> r.session.value.slot.component == component
  }

  /** Nothing but the transfer of one component has gone on. */
  ghost predicate Confined(env: Env, component: Component, r: Radar, r': Radar) {
    && r'.mode == r.mode
    && (env.keepsMarker ==> r'.active == r.active)
    && (OnlyOpen(component, r) ==>
          && OnlyOpen(component, r')
          && forall slot: Slot :: slot.component != component ==> At(r', slot) == At(r, slot))
  }

  predicate Transfers(component: Component, q: Request) {
    Asks(q) || q.Chunk? || q.Commit? || q.Abort? || (q.Start? && q.component == component)
  }

  lemma ElapseIsConfined(env: Env, component: Component, r: Radar, moves: bool)
    requires Sound(env, r)
    ensures Confined(env, component, r, Elapse(env, r, moves))
  {
  }

  lemma StartIsConfined(env: Env, r: Radar, q: Request, c: Choice)
    requires Sound(env, r) && q.Start?
    ensures Confined(env, q.component, r, Handle(env, r, q, c).0)
  {
    hide HandleChunk, HandleCommit;
  }

  lemma HandleIsConfined(env: Env, component: Component, r: Radar, q: Request, c: Choice)
    requires Sound(env, r) && Transfers(component, q) && !q.Start?
    ensures Confined(env, component, r, Handle(env, r, q, c).0)
  {
    hide E2e.Crc32Of, HandleStart;
  }

  lemma TransferIsConfined(env: Env, component: Component, r: Radar, q: Request, p: Reply, r': Radar)
    requires Sound(env, r) && Transfers(component, q) && Answers(env, r, q, p, r')
    ensures Confined(env, component, r, r')
  {
    hide Handle, Elapse, Confined, Sound, Fits;
    var c :| Fits(env, r, c) && Next(env, r, q, c) == (r', p);
    ElapseIsConfined(env, component, r, c.moves);
    SoundAfterElapse(env, r, c.moves);
    var before := if c.timePasses then Elapse(env, r, c.moves) else r;
    if q.Start? {
      StartIsConfined(env, before, q, c);
    } else {
      HandleIsConfined(env, component, before, q, c);
    }
    ConfinedTwice(env, component, r, before, Handle(env, before, q, c).0);
    ConfinedNot(env, component, r);
  }

  lemma RestsIsConfined(env: Env, component: Component, r: Radar, r': Radar)
    requires Sound(env, r) && Rests(env, r, r')
    ensures Confined(env, component, r, r')
  {
    hide Elapse, Confined, Sound;
    ConfinedNot(env, component, r);
    if r' != r {
      var moves :| r' == Elapse(env, r, moves);
      ElapseIsConfined(env, component, r, moves);
    }
  }

  lemma SoundAfterElapse(env: Env, r: Radar, moves: bool)
    requires Sound(env, r)
    ensures Sound(env, Elapse(env, r, moves))
  {
  }

  lemma ConfinedNot(env: Env, component: Component, r: Radar)
    ensures Confined(env, component, r, r)
  {
  }

  lemma ConfinedTwice(env: Env, component: Component, r: Radar, r1: Radar, r2: Radar)
    ensures Confined(env, component, r, r1) && Confined(env, component, r1, r2) ==> Confined(env, component, r, r2)
  {
  }

  /** The open transfer, as far as the host can know it. */
  predicate Holding(env: Env, r: Radar, slot: Slot, image: seq<byte>, crc: nat, sent: nat) {
    && sent <= |image|
    && r.state.Transferring? && r.session.Some? && r.session.value.slot == slot && r.session.value.reported == sent
    && r.session.value.size == |image| && r.session.value.crc == crc
    && (env.truthful ==> r.session.value.data == image[..sent])
  }

  lemma AfterStart(env: Env, r: Radar, q: Request, p: Reply, r': Radar, image: seq<byte>)
    requires Sound(env, r) && q.Start? && q.size == |image| && Answers(env, r, q, p, r')
    ensures Helps(env) && r.mode.Programming? && r.state.Idle? ==> p.Started?
    ensures p.Started? ==> Holding(env, r', Slot(p.target, q.component), image, q.crc, 0)
    ensures p.Started? ==> (p.target.Some? <==> q.kind.Firmware?) && r.mode.Programming?
    ensures Helps(env) && p.Started? ==> p.limit.Some? ==> p.limit.value <= CHUNK_LIMIT
    ensures Helps(env) && p.Started? && r.state.Idle? && q.kind.Firmware? ==> p.target == Some(Other(r.active))
  {
  }

  /** A chunk that starts at what the host believes was received. */
  lemma AfterChunk(env: Env, r: Radar, q: Request, p: Reply, r': Radar, slot: Slot, image: seq<byte>, crc: nat,
                   sent: nat)
    requires Holding(env, r, slot, image, crc, sent) && q.Chunk? && q.data <= image[sent..]
    requires Answers(env, r, q, p, r')
    ensures Helps(env) && r.mode.Programming? && 0 < |q.data| <= CHUNK_LIMIT
            ==> p.Taken? && p.received.Some? && sent < p.received.value <= |image|
    ensures p.Taken? && p.received.Some? ==> p.received.value >= sent
    ensures p.Taken? ==>
              var received := if p.received.Some? then p.received.value else sent;
              received <= |image| ==> Holding(env, r', slot, image, crc, received)
  {
    var c :| Fits(env, r, c) && Next(env, r, q, c) == (r', p);
    ImageSoFar(image, sent, q.data, if c.accepts < |q.data| then c.accepts else |q.data|);
    assert q.data[..|q.data|] == q.data;
  }

  lemma ImageSoFar(image: seq<byte>, sent: nat, data: seq<byte>, n: nat)
    requires sent <= |image| && data <= image[sent..] && n <= |data|
    ensures sent + n <= |image| && image[..sent] + data[..n] == image[..sent + n]
  {
    forall i | 0 <= i < n ensures data[..n][i] == image[sent + i] {
      assert data[i] == image[sent..][i];
    }
  }

  /** Where a commit can lead. */
  predicate Landing(r: Radar, slot: Slot, image: seq<byte>) {
    match r.state
    case Writing => r.work.CommitWork? && r.session.Some? && r.session.value.slot == slot && r.session.value.data == image
    case Idle => At(r, slot) == Some(Intact(image))
    case Error => true
    case Transferring => false
  }

  lemma AfterCommit(env: Env, r: Radar, q: Request, p: Reply, r': Radar, slot: Slot, image: seq<byte>, crc: nat)
    requires env.truthful && Holding(env, r, slot, image, crc, |image|)
    requires q.Commit? && Answers(env, r, q, p, r')
    ensures p.Done? ==> Landing(r', slot, image)
    ensures Helps(env) && r.mode.Programming? && crc == E2e.Crc32Of(image) ==> p.Done? && r'.state.Writing?
  {
    hide E2e.Crc32Of;
    assert image[..|image|] == image;
  }

  lemma LandingRests(env: Env, r: Radar, r': Radar, slot: Slot, image: seq<byte>)
    requires Landing(r, slot, image) && Rests(env, r, r')
    ensures Landing(r', slot, image)
  {
  }

  lemma AfterSwitch(env: Env, r: Radar, q: Request, p: Reply, r': Radar)
    requires r.state.Idle? && q.SwitchSlot? && Answers(env, r, q, p, r')
    ensures r'.slots == r.slots && r'.session == r.session && r'.mode == r.mode
    ensures Helps(env) && r.mode.Programming? ==> p.Done?
    ensures p.Done? ==> r' == r.(active := Other(r.active), state := Writing, work := SwitchWork)
  {
  }
}
