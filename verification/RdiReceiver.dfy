/** The RDI receive path (ProcessRdiDatagram and its helpers in src/afi_sdk.cpp):
    envelope check, TP reassembly, E2E check, wire callback, loss accounting,
    typed decode. */
module RdiReceiver {
  import opened Bytes
  import opened Someip
  import opened SomeipTp
  import opened RdiSender
  import opened RdiLoss
  import Crc
  import E2e
  import Rdi

  /** Two settings, and which callbacks are registered. */
  datatype Config = Config(validateE2e: bool, e2eStrict: bool, wireCallback: bool, lossCallback: bool,
                           typedCallback: bool)

  /** What the wire callback is handed. */
  datatype WireFrame = WireFrame(
    payload: seq<byte>, sensorTimestamp: nat, messageCounter: nat,
    e2eCounter: nat, e2eChecked: bool, e2eValid: bool, generation: E2e.Generation)

  /** What the typed callback is handed. */
  datatype TypedFrame = TypedFrame(sequence: nat, e2eCounter: nat, e2eValid: bool, message: Rdi.Message)

  /** The state of the path: the TP log, the statistics, and every callback made so far. */
  datatype Rx = Rx(
    log: seq<Segment>, loss: Loss, frameSeq: nat, failures: nat, generation: E2e.Generation,
    delivered: seq<WireFrame>, losses: seq<LossReport>, typed: seq<TypedFrame>)

  /** What the loss callback is handed. */
  datatype LossReport = LossReport(total: nat, lost: nat)

  // ---- classification of a datagram

  datatype Arrival = Dropped | BadTp | Piece(segment: Segment) | Plain(payload: seq<byte>)

  function IsTp(messageType: nat): bool { (messageType / TP_FLAG) % 2 == 1 }

  function BaseType(messageType: nat): nat {
    if IsTp(messageType) then messageType - TP_FLAG else messageType
  }

  /** ValidateStreamMessage after the header is parsed. */
  function ValidEnvelope(h: Header, size: nat): bool {
    && h.service == SERVICE_ID && h.methodId == EVENT_RDI
    && h.length >= 8 && h.length + 8 == size
    && h.protocol == PROTOCOL_VERSION && h.interface == INTERFACE_VERSION
    && BaseType(h.messageType) == MSG_TYPE_NOTIFY && h.returnCode == 0
  }

  function Classify(data: seq<byte>): Arrival {
    match Deserialize(data)
    case None => Dropped
    case Some(h) =>
      if !ValidEnvelope(h, |data|) then Dropped
      else if !IsTp(h.messageType) then Plain(data[HEADER_SIZE..])
      else if |data| < HEADER_SIZE + TP_HEADER_SIZE then Dropped
      else
        var tp := DeserializeTp(data[HEADER_SIZE..]);
        if !tp.valid then BadTp
        else Piece(Segment(data[HEADER_SIZE + TP_HEADER_SIZE..], tp.offset, tp.more, h.session))
  }

  /** A segment datagram is read back as the segment it was made from. */
  lemma SegmentArrives(s: Segment)
    requires |s.data| <= TP_CHUNK_SIZE && s.offset % 16 == 0 && s.offset + 15 < 0x1_0000_0000 && s.session < 0x1_0000
    ensures Classify(SegmentDatagram(s)) == Piece(s)
  {
    hide Serialize, Deserialize, ToBe, DeserializeTp;
    var h := NotifyHeader(12 + |s.data|, s.session, MSG_TYPE_TP_NOTIFY);
    var word := ToBe(4, TpWord(s.offset, s.more));
    var data := SegmentDatagram(s);
    assert data == Serialize(h) + (word + s.data);
    HeaderRoundTrip(h, word + s.data);
    TpWordRoundTrip(s.offset, s.more, s.data);
    assert data[HEADER_SIZE..] == word + s.data;
    assert data[HEADER_SIZE + TP_HEADER_SIZE..] == s.data;
  }

  lemma PlainArrives(p: seq<byte>, session: nat)
    requires |p| <= TP_CHUNK_SIZE
    ensures Classify(PlainDatagram(p, session)) == Plain(p)
  {
    hide Serialize, Deserialize;
    var h := NotifyHeader(8 + |p|, session, MSG_TYPE_NOTIFY);
    HeaderRoundTrip(h, p);
    assert PlainDatagram(p, session)[HEADER_SIZE..] == p;
  }

  // ---- one complete protected payload

  function E2eValid(cfg: Config, payload: seq<byte>): bool {
    cfg.validateE2e && E2e.Verdict(payload, DATA_ID_RDI, cfg.validateE2e) == E2e.Pass
  }

  function MakeWireFrame(cfg: Config, payload: seq<byte>): WireFrame
    requires |payload| >= E2e.E2E_HEADER_SIZE
  {
    var h, iso := E2e.Parse(payload).value, payload[E2e.E2E_HEADER_SIZE..];
    WireFrame(payload,
              if |iso| >= 18 then FromLe(iso[6..14]) else 0,
              if |iso| >= 18 then FromLe(iso[14..18]) else 0,
              h.counter, cfg.validateE2e, E2eValid(cfg, payload), h.Generation())
  }

  /** The frame passes the E2E stage: it is long enough, and valid if strict. */
  function Admitted(cfg: Config, payload: seq<byte>): bool {
    |payload| >= E2e.E2E_HEADER_SIZE
    && (cfg.e2eStrict ==> E2e.Verdict(payload, DATA_ID_RDI, cfg.validateE2e) == E2e.Pass)
  }

  /** ConsumeE2eHeader's effect on the statistics. */
  function AfterCheck(cfg: Config, rx: Rx, payload: seq<byte>): Rx {
    if |payload| < E2e.E2E_HEADER_SIZE then rx
    else if E2e.Verdict(payload, DATA_ID_RDI, cfg.validateE2e) == E2e.Pass then
      rx.(generation := E2e.Parse(payload).value.Generation())
    else rx.(failures := rx.failures + 1)
  }

  /** The wire callback gets the complete payload. */
  function WireOf(cfg: Config, payload: seq<byte>): seq<WireFrame>
    requires |payload| >= E2e.E2E_HEADER_SIZE
  {
    if cfg.wireCallback then [MakeWireFrame(cfg, payload)] else []
  }

  /** The loss callback hears of every gap, with the statistics after it. */
  function LossOf(cfg: Config, before: Loss, counter: nat): seq<LossReport> {
    var after := Track(before, counter);
    if cfg.lossCallback && !before.first && 1 < Delta(counter, before.last) < HALF
    then [LossReport(after.total, after.lost)] else []
  }

  /** The frame moves the loss baseline. */
  predicate Tracked(cfg: Config, payload: seq<byte>) {
    !cfg.validateE2e || E2eValid(cfg, payload)
  }

  /** Everything that happens to a complete payload. */
  ghost function Handle(cfg: Config, rx: Rx, payload: seq<byte>): Rx {
    var checked := AfterCheck(cfg, rx, payload);
    if !Admitted(cfg, payload) then checked
    else
      var h := E2e.Parse(payload).value;
      checked.(
        delivered := rx.delivered + WireOf(cfg, payload),
        loss := if Tracked(cfg, payload) then Track(rx.loss, h.counter) else rx.loss,
        losses := if Tracked(cfg, payload) then rx.losses + LossOf(cfg, rx.loss, h.counter) else rx.losses,
        frameSeq := if cfg.typedCallback then (rx.frameSeq + 1) % WRAP else rx.frameSeq,
        typed := rx.typed + TypedOf(cfg, rx.frameSeq, payload))
  }

  /** The typed callback happens exactly when the body is the wire form of a message. */
  ghost function TypedOf(cfg: Config, sequence: nat, payload: seq<byte>): seq<TypedFrame>
    requires |payload| >= E2e.E2E_HEADER_SIZE
  {
    var body := payload[E2e.E2E_HEADER_SIZE..];
    if cfg.typedCallback && exists m: Rdi.Message :: m.WellFormed() && Rdi.Serialise(m) == body then
      var m: Rdi.Message :| m.WellFormed() && Rdi.Serialise(m) == body;
      [TypedFrame(sequence, E2e.Parse(payload).value.counter, E2eValid(cfg, payload), m)]
    else []
  }

  // ---- one datagram, and runs

  ghost function Receive(cfg: Config, lim: Limits, rx: Rx, data: seq<byte>): Rx {
    match Classify(data)
    case Dropped => rx
    case BadTp => rx.(log := [])
    case Plain(p) => Handle(cfg, rx.(log := []), p)
    case Piece(s) =>
      var log := Step(lim, rx.log, s);
      if s.data != [] && Whole(log) then Handle(cfg, rx.(log := []), Assembled(log)) else rx.(log := log)
  }

  ghost function ReceiveAll(cfg: Config, lim: Limits, rx: Rx, ds: seq<seq<byte>>): Rx {
    if ds == [] then rx else Receive(cfg, lim, ReceiveAll(cfg, lim, rx, ds[..|ds| - 1]), ds[|ds| - 1])
  }

  // ---- the code

  class Receiver {
    const config: Config
    const tp: Reassembler
    const table: array<bv64>
    var total: nat
    var lost: nat
    var lastCounter: nat
    var first: bool
    var frameSeq: nat
    var failures: nat
    var generation: E2e.Generation
    var delivered: seq<WireFrame>
    var losses: seq<LossReport>
    var typed: seq<TypedFrame>

    /** Between datagrams no complete message is waiting. */
    ghost predicate Valid()
      reads this, tp, table
    {
      tp.Valid() && !Whole(tp.log) && Crc.IsTable(table[..])
    }

    ghost function State(): Rx
      reads this, tp
    {
      Rx(tp.log, Loss(first, lastCounter, total, lost), frameSeq, failures, generation, delivered, losses, typed)
    }

    constructor (cfg: Config, crcTable: array<bv64>)
      requires Crc.IsTable(crcTable[..])
      ensures Valid() && fresh(tp) && config == cfg && tp.limits == Limits(67108848, 1392)
      ensures State() == Rx([], FRESH, 0, 0, E2e.Unknown, [], [], [])
    {
      config := cfg;
      table := crcTable;
      total, lost, lastCounter, first, frameSeq, failures := 0, 0, 0, true, 0, 0;
      generation, delivered, losses, typed := E2e.Unknown, [], [], [];
      tp := new Reassembler(64 * 1024 * 1024 - 16);
    }

    method TrackRdiLoss(counter: nat)
      modifies `total, `lost, `lastCounter, `first, `losses
      ensures losses == old(losses) + LossOf(config, old(Loss(first, lastCounter, total, lost)), counter)
      ensures Loss(first, lastCounter, total, lost) == Track(old(Loss(first, lastCounter, total, lost)), counter)
    {
      total := (total + 1) % WRAP;
      if first {
        first := false;
        lastCounter := counter;
        return;
      }
      var delta := (counter - lastCounter) % WRAP;
      lastCounter := counter;
      if delta == 0 || delta >= HALF { return; }
      if delta > 1 {
        lost := (lost + delta - 1) % WRAP;
        if config.lossCallback { losses := losses + [LossReport(total, lost)]; }
      }
    }

    /** ConsumeE2eHeader: returns whether the frame goes on. */
    method ConsumeE2eHeader(payload: seq<byte>) returns (go: bool, header: Option<E2e.Header>, valid: bool)
      requires Crc.IsTable(table[..])
      modifies `failures, `generation
      ensures go == Admitted(config, payload) && header == E2e.Parse(payload) && valid == E2eValid(config, payload)
      ensures go ==> header.Some? && |payload| >= E2e.E2E_HEADER_SIZE
      ensures State() == AfterCheck(config, old(State()), payload)
    {
      hide E2e.Verdict;
      valid := false;
      if |payload| < E2e.E2E_HEADER_SIZE {
        TooShortNeverPasses(payload, config.validateE2e);
        return false, None, false;
      }
      var status;
      status, header := E2e.Validate(payload, DATA_ID_RDI, config.validateE2e, table);
      if status == E2e.Pass {
        valid := config.validateE2e;
        generation := header.value.Generation();
      } else {
        failures := failures + 1;
        if config.e2eStrict { return false, header, valid; }
      }
      return true, header, valid;
    }

    method ProcessRdiDatagram(data: seq<byte>)
      requires Valid()
      modifies this, tp
      ensures Valid()
      ensures State() == Receive(config, tp.limits, old(State()), data)
    {
      hide Deserialize, DeserializeTp, ValidEnvelope, Handle, Step, Whole, Reassembler.Valid;
      var parsed := Deserialize(data);
      if parsed == None { return; }
      var h := parsed.value;
      if !ValidEnvelope(h, |data|) { return; }

      var isTp := IsTp(h.messageType);
      if isTp {
        if |data| < HEADER_SIZE + TP_HEADER_SIZE { return; }
        var word := DeserializeTp(data[HEADER_SIZE..]);
        if !word.valid {
          tp.Reset();
          NothingIsNotWhole();
          return;
        }
        ghost var seg := Segment(data[HEADER_SIZE + TP_HEADER_SIZE..], word.offset, word.more, h.session);
        if seg.data == [] { EmptyCall(tp.limits, tp.log, seg); }
        var complete := tp.Feed(data[HEADER_SIZE + TP_HEADER_SIZE..], word.offset, word.more, h.session);
        if !complete { return; }
        var payload := tp.buffer[..tp.total];
        Finish(payload, true);
      } else {
        ProgressIff(tp);
        if tp.inProgress { tp.Reset(); }
        NothingIsNotWhole();
        LongEnough(data);
        Finish(data[HEADER_SIZE..], false);
      }
    }

    /** The rest of ProcessRdiDatagram, once a complete payload is at hand.
        A TP payload is dropped from the reassembler on every way out. */
    method Finish(payload: seq<byte>, isTp: bool)
      requires tp.Valid() && Crc.IsTable(table[..]) && (!isTp ==> tp.log == [])
      modifies this, tp
      ensures Valid() && tp.log == []
      ensures State() == Handle(config, old(State()).(log := []), payload)
    {
      hide E2e.Verdict, E2e.Parse, AfterCheck, Admitted, E2eValid, TypedOf, WireOf, LossOf, Track, Reassembler.Valid, Crc.IsTable;
      NothingIsNotWhole();
      CheckKeepsLog(config, State(), payload);
      var go, header, valid := ConsumeE2eHeader(payload);
      if !go {
        if isTp { tp.Reset(); }
        return;
      }
      DeliverWirePayload(payload, header.value, valid);
      if !config.validateE2e || valid {
        TrackRdiLoss(header.value.counter);
      }
      DecodeTyped(payload, header.value.counter, valid);
      if isTp { tp.Reset(); }
    }

    /** The opt-in typed consumer. */
    method DecodeTyped(payload: seq<byte>, counter: nat, valid: bool)
      requires |payload| >= E2e.E2E_HEADER_SIZE && counter == E2e.Parse(payload).value.counter && valid == E2eValid(config, payload)
      modifies `frameSeq, `typed
      ensures frameSeq == if config.typedCallback then (old(frameSeq) + 1) % WRAP else old(frameSeq)
      ensures typed == old(typed) + TypedOf(config, old(frameSeq), payload)
    {
      hide E2e.Verdict, E2e.Parse, E2eValid, TypedOf;
      if config.typedCallback {
        var sequence := frameSeq;
        frameSeq := (frameSeq + 1) % WRAP;
        var parsed := Rdi.ParseCpp(payload[E2e.E2E_HEADER_SIZE..]);
        TypedWhenParsed(config, sequence, payload, parsed);
        if parsed.Some? {
          typed := typed + [TypedFrame(sequence, counter, valid, parsed.value)];
        }
      } else {
        NoTypedCallback(config, frameSeq, payload);
      }
    }

    method DeliverWirePayload(payload: seq<byte>, header: E2e.Header, valid: bool)
      requires |payload| >= E2e.E2E_HEADER_SIZE && E2e.Parse(payload) == Some(header) && valid == E2eValid(config, payload)
      modifies `delivered
      ensures delivered == old(delivered) + WireOf(config, payload)
    {
      hide E2e.Verdict, E2e.Parse, FromLe;
      if !config.wireCallback { return; }
      var iso := payload[E2e.E2E_HEADER_SIZE..];
      var timestamp, counter := 0, 0;
      if |iso| >= 18 {
        timestamp := FromLe(iso[6..14]);
        counter := FromLe(iso[14..18]);
      }
      delivered := delivered + [WireFrame(payload, timestamp, counter, header.counter, config.validateE2e, valid, header.Generation())];
    }
  }

  lemma CheckKeepsLog(cfg: Config, rx: Rx, payload: seq<byte>)
    ensures AfterCheck(cfg, rx.(log := []), payload) == AfterCheck(cfg, rx, payload).(log := [])
  {
    hide E2e.Verdict, E2e.Parse;
  }

  lemma TypedWhenParsed(cfg: Config, sequence: nat, payload: seq<byte>, r: Option<Rdi.Message>)
    requires |payload| >= E2e.E2E_HEADER_SIZE && cfg.typedCallback
    requires Rdi.ParsesTo(payload[E2e.E2E_HEADER_SIZE..], r)
    ensures TypedOf(cfg, sequence, payload) ==
      if r.None? then [] else [TypedFrame(sequence, E2e.Parse(payload).value.counter, E2eValid(cfg, payload), r.value)]
  {
    hide E2e.Verdict, E2e.Parse, Rdi.Serialise, E2eValid;
    var body := payload[E2e.E2E_HEADER_SIZE..];
    forall m: Rdi.Message | m.WellFormed() && Rdi.Serialise(m) == body ensures r == Some(m) {
      if r.Some? { Rdi.SerialiseInjective(m, r.value); }
    }
  }

  lemma NoTypedCallback(cfg: Config, sequence: nat, payload: seq<byte>)
    requires |payload| >= E2e.E2E_HEADER_SIZE && !cfg.typedCallback
    ensures TypedOf(cfg, sequence, payload) == []
  {
  }

  lemma TooShortNeverPasses(payload: seq<byte>, check: bool)
    requires |payload| < E2e.E2E_HEADER_SIZE
    ensures E2e.Verdict(payload, DATA_ID_RDI, check) != E2e.Pass
  {
  }

  lemma LongEnough(data: seq<byte>)
    requires Deserialize(data).Some?
    ensures |data| >= HEADER_SIZE
  {
  }
}
