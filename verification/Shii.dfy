/** SHII (sensor health) payloads: src/protocol/shi_parser.cpp and parse_shi of
    python/src/afi_sdk/streams.py. Three count-driven sections of parallel
    arrays follow the common header. */
module Shii {
  import opened Bytes
  import opened IsoHeader
  import opened Records

  const MIN_SIZE := 32
  const MAX_OPERATION_MODES := 11
  const MAX_INPUT_SIGNALS := 4
  const MAX_CALIBRATION_COMPONENTS := 3

  datatype Message = Message(
    header: CommonHeader,
    operationModes: seq<byte>,
    defectRecognised: byte, defectReason: byte, supplyVoltage: byte, temperature: byte,
    signalTypes: seq<byte>, signalStatuses: seq<byte>,
    timeSync: byte,
    calComponents: seq<byte>, calStatuses: seq<byte>, calStates: seq<byte>)
  {
    predicate WellFormed() {
      && header.InRange()
      && |operationModes| <= MAX_OPERATION_MODES
      && |signalTypes| == |signalStatuses| <= MAX_INPUT_SIGNALS
      && |calComponents| == |calStatuses| == |calStates| <= MAX_CALIBRATION_COMPONENTS
    }
  }

  /** Count, modes, two defect octets, voltage and temperature status. */
  function OperationSection(m: Message): seq<byte>
    requires m.WellFormed()
  {
    [|m.operationModes|] + m.operationModes + [m.defectRecognised, m.defectReason, m.supplyVoltage, m.temperature]
  }

  /** Count, two parallel arrays, time sync. */
  function InputSection(m: Message): seq<byte>
    requires m.WellFormed()
  {
    [|m.signalTypes|] + m.signalTypes + m.signalStatuses + [m.timeSync]
  }

  /** Count, three parallel arrays. */
  function CalibrationSection(m: Message): seq<byte>
    requires m.WellFormed()
  {
    [|m.calComponents|] + m.calComponents + m.calStatuses + m.calStates
  }

  /** The wire form of a message. */
  function Serialise(m: Message): seq<byte>
    requires m.WellFormed()
  {
    Encode(m.header) + OperationSection(m) + InputSection(m) + CalibrationSection(m)
  }

  /** The counts are within their maxima and describe exactly this length. */
  predicate Framed(p: seq<byte>) {
    && |p| >= MIN_SIZE
    && var nOp := p[24];
    && nOp <= MAX_OPERATION_MODES && 29 + nOp < |p|
    && var nIn := p[29 + nOp];
    && nIn <= MAX_INPUT_SIGNALS && 31 + nOp + 2 * nIn < |p|
    && var nCal := p[31 + nOp + 2 * nIn];
    && nCal <= MAX_CALIBRATION_COMPONENTS && |p| == 32 + nOp + 2 * nIn + 3 * nCal
  }

  lemma SerialisedIsFramed(m: Message)
    requires m.WellFormed()
    ensures Framed(Serialise(m))
    ensures var p := Serialise(m);
      && p[24] == |m.operationModes| && p[29 + p[24]] == |m.signalTypes|
      && p[31 + p[24] + 2 * p[29 + p[24]]] == |m.calComponents|
  {
    var p := Serialise(m);
    var nOp, nIn := |m.operationModes|, |m.signalTypes|;
    assert p[29 + nOp] == nIn;
    assert p[31 + nOp + 2 * nIn] == |m.calComponents|;
  }

  /** The fields of a framed payload, at the offsets its counts give. */
  function DecodeAt(p: seq<byte>, nOp: nat, nIn: nat, nCal: nat): Message
    requires |p| == 32 + nOp + 2 * nIn + 3 * nCal
  {
    var a, b, c := 25 + nOp, 30 + nOp, 32 + nOp + 2 * nIn;
    Message(IsoHeader.Decode(p),
            Cut(p, 25, nOp), p[a], p[a + 1], p[a + 2], p[a + 3],
            Cut(p, b, nIn), Cut(p, b + nIn, nIn), p[b + 2 * nIn],
            Cut(p, c, nCal), Cut(p, c + nCal, nCal), Cut(p, c + 2 * nCal, nCal))
  }

  function Decode(p: seq<byte>): Message
    requires Framed(p)
  {
    DecodeAt(p, p[24], p[InputStart(p)], p[CalibrationStart(p)])
  }

  /** Where the second and the third section start. */
  function InputStart(p: seq<byte>): nat
    requires Framed(p)
  {
    29 + p[24]
  }

  function CalibrationStart(p: seq<byte>): nat
    requires Framed(p)
  {
    31 + p[24] + 2 * p[29 + p[24]]
  }

  lemma DecodeIsWellFormed(p: seq<byte>)
    requires Framed(p)
    ensures Decode(p).WellFormed() && Encode(Decode(p).header) == p[..24]
  {
    hide IsoHeader.Encode, IsoHeader.Decode;
    EncodeDecode(p);
  }

  lemma OperationOfDecode(p: seq<byte>, nOp: nat, nIn: nat, nCal: nat)
    requires |p| == 32 + nOp + 2 * nIn + 3 * nCal && p[24] == nOp
    requires DecodeAt(p, nOp, nIn, nCal).WellFormed()
    ensures OperationSection(DecodeAt(p, nOp, nIn, nCal)) == p[24..29 + nOp]
  {
    hide IsoHeader.Decode;
  }

  lemma InputOfDecode(p: seq<byte>, nOp: nat, nIn: nat, nCal: nat)
    requires |p| == 32 + nOp + 2 * nIn + 3 * nCal && p[29 + nOp] == nIn
    requires DecodeAt(p, nOp, nIn, nCal).WellFormed()
    ensures InputSection(DecodeAt(p, nOp, nIn, nCal)) == p[29 + nOp..31 + nOp + 2 * nIn]
  {
    hide IsoHeader.Decode;
  }

  lemma CalibrationOfDecode(p: seq<byte>, nOp: nat, nIn: nat, nCal: nat)
    requires |p| == 32 + nOp + 2 * nIn + 3 * nCal && p[31 + nOp + 2 * nIn] == nCal
    requires DecodeAt(p, nOp, nIn, nCal).WellFormed()
    ensures CalibrationSection(DecodeAt(p, nOp, nIn, nCal)) == p[31 + nOp + 2 * nIn..]
  {
    hide IsoHeader.Decode;
  }

  /** A framed payload is the wire form of what it decodes to... */
  lemma {:induction false} SerialiseDecode(p: seq<byte>)
    requires Framed(p)
    ensures Decode(p).WellFormed() && Serialise(Decode(p)) == p
  {
    hide DecodeAt, Framed, OperationSection, InputSection, CalibrationSection, Encode;
    FramedSize(p);
    DecodeIsWellFormed(p);
    OperationOfDecode(p, p[24], p[InputStart(p)], p[CalibrationStart(p)]);
    InputOfDecode(p, p[24], p[InputStart(p)], p[CalibrationStart(p)]);
    CalibrationOfDecode(p, p[24], p[InputStart(p)], p[CalibrationStart(p)]);
    StartsInOrder(p);
    assert p == p[..24] + p[24..InputStart(p)] + p[InputStart(p)..CalibrationStart(p)] + p[CalibrationStart(p)..];
  }

  lemma FramedSize(p: seq<byte>)
    requires Framed(p)
    ensures 24 < |p| && InputStart(p) < |p| && CalibrationStart(p) < |p|
    ensures |p| == 32 + p[24] + 2 * p[InputStart(p)] + 3 * p[CalibrationStart(p)]
  {
  }

  lemma StartsInOrder(p: seq<byte>)
    requires Framed(p)
    ensures 24 <= InputStart(p) <= CalibrationStart(p) <= |p|
  {
  }

  /** ...and different messages have different wire forms. */
  lemma SerialiseInjective(m: Message, k: Message)
    requires m.WellFormed() && k.WellFormed() && Serialise(m) == Serialise(k)
    ensures m == k
  {
    hide Encode, Framed, OperationSection, InputSection, CalibrationSection;
    SameCounts(m, k);
    SectionSizes(m);
    SectionSizes(k);
    var h, o, i := Encode(m.header), OperationSection(m), InputSection(m);
    var h', o', i' := Encode(k.header), OperationSection(k), InputSection(k);
    ConcatInjective(h + o + i, CalibrationSection(m), h' + o' + i', CalibrationSection(k));
    ConcatInjective(h + o, i, h' + o', i');
    ConcatInjective(h, o, h', o');
    assert h + [] == h && h' + [] == h';
    DecodeEncode(m.header, []);
    DecodeEncode(k.header, []);
    OperationInjective(m, k);
    InputInjective(m, k);
    CalibrationInjective(m, k);
  }

  lemma SectionSizes(m: Message)
    requires m.WellFormed()
    ensures |OperationSection(m)| == 5 + |m.operationModes|
    ensures |InputSection(m)| == 2 + 2 * |m.signalTypes|
    ensures |CalibrationSection(m)| == 1 + 3 * |m.calComponents|
  {
  }

  lemma SameCounts(m: Message, k: Message)
    requires m.WellFormed() && k.WellFormed() && Serialise(m) == Serialise(k)
    ensures |m.operationModes| == |k.operationModes| && |m.signalTypes| == |k.signalTypes|
    ensures |m.calComponents| == |k.calComponents|
  {
    hide Serialise;
    SerialisedIsFramed(m);
    SerialisedIsFramed(k);
  }

  lemma OperationInjective(m: Message, k: Message)
    requires m.WellFormed() && k.WellFormed() && OperationSection(m) == OperationSection(k)
    requires |m.operationModes| == |k.operationModes|
    ensures m.operationModes == k.operationModes
    ensures m.defectRecognised == k.defectRecognised && m.defectReason == k.defectReason
    ensures m.supplyVoltage == k.supplyVoltage && m.temperature == k.temperature
  {
    var s, n := OperationSection(m), |m.operationModes|;
    assert m.operationModes == s[1..1 + n] == k.operationModes;
    assert s[1 + n..] == [m.defectRecognised, m.defectReason, m.supplyVoltage, m.temperature]
                      == [k.defectRecognised, k.defectReason, k.supplyVoltage, k.temperature];
  }

  lemma InputInjective(m: Message, k: Message)
    requires m.WellFormed() && k.WellFormed() && InputSection(m) == InputSection(k)
    requires |m.signalTypes| == |k.signalTypes|
    ensures m.signalTypes == k.signalTypes && m.signalStatuses == k.signalStatuses && m.timeSync == k.timeSync
  {
    var s, n := InputSection(m), |m.signalTypes|;
    assert m.signalTypes == s[1..1 + n] == k.signalTypes;
    assert m.signalStatuses == s[1 + n..1 + 2 * n] == k.signalStatuses;
    assert m.timeSync == s[1 + 2 * n] == k.timeSync;
  }

  lemma CalibrationInjective(m: Message, k: Message)
    requires m.WellFormed() && k.WellFormed() && CalibrationSection(m) == CalibrationSection(k)
    requires |m.calComponents| == |k.calComponents|
    ensures m.calComponents == k.calComponents && m.calStatuses == k.calStatuses && m.calStates == k.calStates
  {
    var s, n := CalibrationSection(m), |m.calComponents|;
    assert m.calComponents == s[1..1 + n] == k.calComponents;
    assert m.calStatuses == s[1 + n..1 + 2 * n] == k.calStatuses;
    assert m.calStates == s[1 + 2 * n..] == k.calStates;
  }

  /** What both parsers promise: accept exactly the wire forms. */
  ghost predicate ParsesTo(p: seq<byte>, r: Option<Message>) {
    match r
    case Some(m) => m.WellFormed() && Serialise(m) == p
    case None => forall m: Message :: m.WellFormed() ==> Serialise(m) != p
  }

  function Outcome(p: seq<byte>): Option<Message> {
    if Framed(p) then Some(Decode(p)) else None
  }

  lemma OutcomeParses(p: seq<byte>)
    ensures ParsesTo(p, Outcome(p))
  {
    hide Serialise, Decode;
    if Framed(p) {
      SerialiseDecode(p);
    } else {
      forall m: Message | m.WellFormed() ensures Serialise(m) != p { SerialisedIsFramed(m); }
    }
  }

  /** At most one result meets the promise, so the two parsers agree on every
      payload: same acceptance, same field values. */
  lemma ParsersAgree(p: seq<byte>, r: Option<Message>, s: Option<Message>)
    requires ParsesTo(p, r) && ParsesTo(p, s)
    ensures r == s
  {
    hide Serialise;
    if r.Some? && s.Some? {
      SerialiseInjective(r.value, s.value);
    }
  }

  /** ShiParser::Parse: a running offset, every read in bounds. */
  method ParseCpp(p: seq<byte>) returns (r: Option<Message>)
    ensures ParsesTo(p, r)
  {
    hide ParsesTo, IsoHeader.Decode, Cut;
    OutcomeParses(p);
    var len := |p|;
    if len < MIN_SIZE { return None; }
    var header := IsoHeader.Decode(p);
    var off := 24;
    var nOp := p[off];
    off := off + 1;
    if nOp > MAX_OPERATION_MODES { return None; }
    if off + nOp + 4 > len { return None; }
    var modes := Cut(p, off, nOp);
    off := off + nOp;

    var recognised, reason := p[off], p[off + 1];
    var voltage, temperature := p[off + 2], p[off + 3];
    off := off + 4;

    assert off == 29 + nOp;
    if off >= len { return None; }
    var nIn := p[off];
    off := off + 1;
    if nIn > MAX_INPUT_SIGNALS { return None; }
    if off + 2 * nIn + 1 > len { return None; }
    var types := Cut(p, off, nIn);
    off := off + nIn;
    var statuses := Cut(p, off, nIn);
    off := off + nIn;

    var timeSync := p[off];
    off := off + 1;

    assert off == 31 + nOp + 2 * nIn;
    if off >= len { return None; }
    var nCal := p[off];
    off := off + 1;
    if nCal > MAX_CALIBRATION_COMPONENTS { return None; }
    if off + 3 * nCal > len { return None; }
    assert off == 32 + nOp + 2 * nIn;
    var components := Cut(p, off, nCal);
    off := off + nCal;
    var calStatuses := Cut(p, off, nCal);
    off := off + nCal;
    var calStates := Cut(p, off, nCal);
    off := off + nCal;

    if off != len { return None; }
    r := Some(Message(header, modes, recognised, reason, voltage, temperature,
                      types, statuses, timeSync, components, calStatuses, calStates));
    assert p[24] == nOp && p[29 + nOp] == nIn && p[31 + nOp + 2 * nIn] == nCal;
    assert r.value == DecodeAt(p, nOp, nIn, nCal);
  }

  /** parse_shi: combined bound checks, and the length test before the last
      section is read. */
  method ParsePython(p: seq<byte>) returns (r: Option<Message>)
    ensures ParsesTo(p, r)
  {
    hide ParsesTo, IsoHeader.Decode, Cut;
    OutcomeParses(p);
    if |p| < MIN_SIZE { return None; }
    var off := 24;
    var nOp := p[off];
    off := off + 1;
    if nOp > MAX_OPERATION_MODES || off + nOp + 4 > |p| { return None; }
    var modes := Cut(p, off, nOp);
    off := off + nOp;

    var recognised, reason, voltage, temperature := p[off], p[off + 1], p[off + 2], p[off + 3];
    off := off + 4;

    assert off == 29 + nOp;
    if off >= |p| { return None; }
    var nIn := p[off];
    off := off + 1;
    if nIn > MAX_INPUT_SIGNALS || off + 2 * nIn + 1 > |p| { return None; }
    var types := Cut(p, off, nIn);
    off := off + nIn;
    var statuses := Cut(p, off, nIn);
    off := off + nIn;

    var timeSync := p[off];
    off := off + 1;

    assert off == 31 + nOp + 2 * nIn;
    if off >= |p| { return None; }
    var nCal := p[off];
    off := off + 1;
    if nCal > MAX_CALIBRATION_COMPONENTS || off + 3 * nCal != |p| { return None; }
    assert off == 32 + nOp + 2 * nIn;
    var components := Cut(p, off, nCal);
    off := off + nCal;
    var calStatuses := Cut(p, off, nCal);
    off := off + nCal;
    var calStates := Cut(p, off, nCal);

    r := Some(Message(IsoHeader.Decode(p), modes, recognised, reason, voltage, temperature,
                      types, statuses, timeSync, components, calStatuses, calStates));
    assert p[24] == nOp && p[29 + nOp] == nIn && p[31 + nOp + 2 * nIn] == nCal;
    assert r.value == DecodeAt(p, nOp, nIn, nCal);
  }
}
