/** RDI (radar detections) payloads: src/protocol/rdi_parser.cpp, parse_rdi_frame
    and parse_rdi_detection of python/src/afi_sdk/streams.py, and the layout that
    build_rdi_payload of tools/rdi_udp_sender.py writes. Floats are kept as raw
    32-bit words. */
module Rdi {
  import opened Bytes
  import opened Records
  import opened IsoHeader

  const RDI_HEADER_SIZE := 36
  const DETECTION_SIZE := 51
  const MAX_DETECTIONS := 8192

  datatype Position = Position(
    distance: u32, azimuth: u32, elevation: u32, distanceError: u32, azimuthError: u32, elevationError: u32,
    velocity: u32, velocityError: u32)

  datatype Detection = Detection(
    existence: byte, detectionId: u16, objectIdRef: u16,
    timestampDiff: u32, rcs: u32, snr: u32, ambiguityGroup: u16,
    position: Position)

  datatype Message = Message(
    header: CommonHeader, velocityBegin: u32, velocityEnd: u32, capability: u16, detections: seq<Detection>)
  {
    predicate WellFormed() { header.InRange() && |detections| <= MAX_DETECTIONS }
  }

  // ---- wire form

  function EncodePosition(x: Position): (s: seq<byte>)
    ensures |s| == 32
  {
    EncodeWords([x.distance, x.azimuth, x.elevation, x.distanceError, x.azimuthError, x.elevationError,
                 x.velocity, x.velocityError])
  }

  function EncodeDetection(d: Detection): (s: seq<byte>)
    ensures |s| == DETECTION_SIZE
  {
    [d.existence] + ToLe(2, d.detectionId) + ToLe(2, d.objectIdRef)
    + EncodeWords([d.timestampDiff, d.rcs, d.snr]) + ToLe(2, d.ambiguityGroup)
    + EncodePosition(d.position)
  }

  function FixedPart(m: Message): (s: seq<byte>)
    requires m.WellFormed()
    ensures |s| == RDI_HEADER_SIZE
  {
    Encode(m.header) + EncodeWords([m.velocityBegin, m.velocityEnd]) + ToLe(2, m.capability) + ToLe(2, |m.detections|)
  }

  /** build_rdi_payload. */
  function Serialise(m: Message): seq<byte>
    requires m.WellFormed()
  {
    FixedPart(m) + EncodeAll(EncodeDetection, m.detections)
  }

  // ---- reading

  function PositionAt(p: seq<byte>, off: nat): Position
    requires off + 32 <= |p|
  {
    Position(Word(p, off), Word(p, off + 4), Word(p, off + 8), Word(p, off + 12),
             Word(p, off + 16), Word(p, off + 20), Word(p, off + 24), Word(p, off + 28))
  }

  /** ParseDetection: every field at its offset in the 51-byte record. */
  function DetectionAt(p: seq<byte>, off: nat): Detection
    requires off + DETECTION_SIZE <= |p|
  {
    Detection(p[off], HalfWord(p, off + 1), HalfWord(p, off + 3),
              Word(p, off + 5), Word(p, off + 9), Word(p, off + 13), HalfWord(p, off + 17),
              PositionAt(p, off + 19))
  }

  lemma PositionBack(p: seq<byte>, off: nat)
    requires off + 32 <= |p|
    ensures EncodePosition(PositionAt(p, off)) == p[off..off + 32]
  {
    hide Word, EncodeWords, DecodeWords;
    EightWords(p, off);
    WordsBack(p, off, 8);
  }

  lemma DetectionBack(p: seq<byte>, off: nat)
    requires off + DETECTION_SIZE <= |p|
    ensures EncodeDetection(DetectionAt(p, off)) == Cut(p, off, DETECTION_SIZE)
  {
    hide Word, HalfWord, EncodeWords, DecodeWords, PositionAt, EncodePosition;
    HalfWordBack(p, off + 1);
    HalfWordBack(p, off + 3);
    ThreeWords(p, off + 5);
    WordsBack(p, off + 5, 3);
    HalfWordBack(p, off + 17);
    PositionBack(p, off + 19);
    assert Cut(p, off, DETECTION_SIZE) == [p[off]] + p[off + 1..off + 3] + p[off + 3..off + 5]
             + p[off + 5..off + 17] + p[off + 17..off + 19] + p[off + 19..off + 51];
  }

  lemma PositionInjective(x: Position, y: Position)
    requires EncodePosition(x) == EncodePosition(y)
    ensures x == y
  {
    hide EncodeWords;
    var a := [x.distance, x.azimuth, x.elevation, x.distanceError, x.azimuthError, x.elevationError, x.velocity, x.velocityError];
    var b := [y.distance, y.azimuth, y.elevation, y.distanceError, y.azimuthError, y.elevationError, y.velocity, y.velocityError];
    WordsInjective(a, b);
    assert a[0] == b[0] && a[1] == b[1] && a[2] == b[2] && a[3] == b[3];
    assert a[4] == b[4] && a[5] == b[5] && a[6] == b[6] && a[7] == b[7];
  }

  lemma DetectionInjective(x: Detection, y: Detection)
    requires EncodeDetection(x) == EncodeDetection(y)
    ensures x == y
  {
    hide EncodeWords, EncodePosition, ToLe;
    var a, b := [x.timestampDiff, x.rcs, x.snr], [y.timestampDiff, y.rcs, y.snr];
    var x1, y1 := [x.existence], [y.existence];
    var x2, y2 := x1 + ToLe(2, x.detectionId), y1 + ToLe(2, y.detectionId);
    var x3, y3 := x2 + ToLe(2, x.objectIdRef), y2 + ToLe(2, y.objectIdRef);
    var x4, y4 := x3 + EncodeWords(a), y3 + EncodeWords(b);
    var x5, y5 := x4 + ToLe(2, x.ambiguityGroup), y4 + ToLe(2, y.ambiguityGroup);
    ConcatInjective(x5, EncodePosition(x.position), y5, EncodePosition(y.position));
    ConcatInjective(x4, ToLe(2, x.ambiguityGroup), y4, ToLe(2, y.ambiguityGroup));
    ConcatInjective(x3, EncodeWords(a), y3, EncodeWords(b));
    ConcatInjective(x2, ToLe(2, x.objectIdRef), y2, ToLe(2, y.objectIdRef));
    ConcatInjective(x1, ToLe(2, x.detectionId), y1, ToLe(2, y.detectionId));
    assert x1[0] == y1[0];
    HalfWordInjective(x.detectionId, y.detectionId);
    HalfWordInjective(x.objectIdRef, y.objectIdRef);
    HalfWordInjective(x.ambiguityGroup, y.ambiguityGroup);
    WordsInjective(a, b);
    assert a[0] == b[0] && a[1] == b[1] && a[2] == b[2];
    PositionInjective(x.position, y.position);
  }

  // ---- which payloads are wire forms

  /** The count describes exactly this length. */
  predicate Framed(p: seq<byte>) {
    && |p| >= RDI_HEADER_SIZE
    && HalfWord(p, 34) <= MAX_DETECTIONS
    && |p| == RDI_HEADER_SIZE + HalfWord(p, 34) * DETECTION_SIZE
  }

  lemma SerialisedIsFramed(m: Message)
    requires m.WellFormed()
    ensures Framed(Serialise(m)) && HalfWord(Serialise(m), 34) == |m.detections|
  {
    hide EncodeAll, EncodeWords, Encode, ToLe;
    var p := Serialise(m);
    EncodeAllSize(EncodeDetection, DETECTION_SIZE, m.detections);
    assert p[34..36] == ToLe(2, |m.detections|);
    HalfWordBack(p, 34);
    HalfWordInjective(HalfWord(p, 34), |m.detections|);
  }

  lemma SerialiseInjective(m: Message, k: Message)
    requires m.WellFormed() && k.WellFormed() && Serialise(m) == Serialise(k)
    ensures m == k
  {
    hide Encode, EncodeWords, EncodeAll, EncodeDetection, ToLe, HalfWord;
    SerialisedIsFramed(m);
    SerialisedIsFramed(k);
    ConcatInjective(FixedPart(m), EncodeAll(EncodeDetection, m.detections), FixedPart(k), EncodeAll(EncodeDetection, k.detections));
    var a, b := [m.velocityBegin, m.velocityEnd], [k.velocityBegin, k.velocityEnd];
    var h, h' := Encode(m.header), Encode(k.header);
    ConcatInjective(h + EncodeWords(a) + ToLe(2, m.capability), ToLe(2, |m.detections|),
                    h' + EncodeWords(b) + ToLe(2, k.capability), ToLe(2, |k.detections|));
    ConcatInjective(h + EncodeWords(a), ToLe(2, m.capability), h' + EncodeWords(b), ToLe(2, k.capability));
    ConcatInjective(h, EncodeWords(a), h', EncodeWords(b));
    assert h + [] == h && h' + [] == h';
    DecodeEncode(m.header, []);
    DecodeEncode(k.header, []);
    WordsInjective(a, b);
    assert a[0] == b[0] && a[1] == b[1];
    HalfWordInjective(m.capability, k.capability);
    forall x, y | EncodeDetection(x) == EncodeDetection(y) ensures x == y { DetectionInjective(x, y); }
    EncodeAllInjective(EncodeDetection, DETECTION_SIZE, m.detections, k.detections);
  }

  ghost predicate ParsesTo(p: seq<byte>, r: Option<Message>) {
    match r
    case Some(m) => m.WellFormed() && Serialise(m) == p
    case None => forall m: Message :: m.WellFormed() ==> Serialise(m) != p
  }

  lemma ParseIsUnique(p: seq<byte>, r: Option<Message>, s: Option<Message>)
    requires ParsesTo(p, r) && ParsesTo(p, s)
    ensures r == s
  {
    hide Serialise;
    if r.Some? && s.Some? { SerialiseInjective(r.value, s.value); }
  }

  lemma Rejected(p: seq<byte>)
    requires !Framed(p)
    ensures ParsesTo(p, None)
  {
    hide Serialise;
    forall m: Message | m.WellFormed() ensures Serialise(m) != p { SerialisedIsFramed(m); }
  }

  function MessageAt(p: seq<byte>, detections: seq<Detection>): Message
    requires |p| >= RDI_HEADER_SIZE
  {
    Message(IsoHeader.Decode(p), Word(p, 24), Word(p, 28), HalfWord(p, 32), detections)
  }

  lemma Accepted(p: seq<byte>, detections: seq<Detection>)
    requires Framed(p) && |detections| == HalfWord(p, 34)
    requires EncodeAll(EncodeDetection, detections) == p[RDI_HEADER_SIZE..]
    ensures ParsesTo(p, Some(MessageAt(p, detections)))
  {
    hide IsoHeader.Decode, Encode, EncodeAll, EncodeWords, DecodeWords, ToLe, Word, HalfWord;
    var m := MessageAt(p, detections);
    EncodeDecode(p);
    TwoWords(p, 24);
    WordsBack(p, 24, 2);
    HalfWordBack(p, 32);
    HalfWordBack(p, 34);
    assert FixedPart(m) == p[..24] + p[24..32] + p[32..34] + p[34..36];
    assert p == p[..24] + p[24..32] + p[32..34] + p[34..36] + p[36..];
  }

  lemma OneMore(p: seq<byte>, n: nat, xs: seq<Detection>)
    requires RDI_HEADER_SIZE + DETECTION_SIZE * (n + 1) <= |p|
    requires EncodeAll(EncodeDetection, xs) == Cut(p, RDI_HEADER_SIZE, DETECTION_SIZE * n)
    ensures EncodeAll(EncodeDetection, xs + [DetectionAt(p, RDI_HEADER_SIZE + DETECTION_SIZE * n)])
         == Cut(p, RDI_HEADER_SIZE, DETECTION_SIZE * (n + 1))
  {
    hide DetectionAt, EncodeDetection;
    var off := RDI_HEADER_SIZE + DETECTION_SIZE * n;
    DetectionBack(p, off);
    EncodeAllSnoc(EncodeDetection, xs, DetectionAt(p, off));
    assert Cut(p, RDI_HEADER_SIZE, DETECTION_SIZE * (n + 1))
        == Cut(p, RDI_HEADER_SIZE, DETECTION_SIZE * n) + Cut(p, off, DETECTION_SIZE);
  }

  /** RdiParser::Parse. */
  method ParseCpp(p: seq<byte>) returns (r: Option<Message>)
    ensures ParsesTo(p, r)
    ensures r.Some? ==> forall i :: 0 <= i < |r.value.detections| ==>
      PyDetection(p, RDI_HEADER_SIZE, i) == Some(r.value.detections[i])
    ensures r.None? <==> PyFrame(p).None?
  {
    hide ParsesTo, Cut, Word, HalfWord, EncodeAll, EncodeDetection, DetectionAt, IsoHeader.Decode;
    if !Framed(p) { Rejected(p); }
    var len := |p|;
    if len < RDI_HEADER_SIZE { return None; }
    var count := HalfWord(p, 34);
    if count > MAX_DETECTIONS { return None; }
    var expected := RDI_HEADER_SIZE + count * DETECTION_SIZE;
    if len != expected { return None; }

    var storage := [];
    NoneYet(p);
    for i := 0 to count
      invariant |storage| == i
      invariant EncodeAll(EncodeDetection, storage) == Cut(p, RDI_HEADER_SIZE, DETECTION_SIZE * i)
      invariant forall k :: 0 <= k < i ==> PyDetection(p, RDI_HEADER_SIZE, k) == Some(storage[k])
    {
      var at := RDI_HEADER_SIZE + i * DETECTION_SIZE;
      OneMore(p, i, storage);
      storage := storage + [DetectionAt(p, at)];
    }
    AllCut(p, count);
    Accepted(p, storage);
    r := Some(MessageAt(p, storage));
  }

  lemma NoneYet(p: seq<byte>)
    requires |p| >= RDI_HEADER_SIZE
    ensures EncodeAll(EncodeDetection, []) == Cut(p, RDI_HEADER_SIZE, 0)
  {
  }

  lemma AllCut(p: seq<byte>, n: nat)
    requires |p| == RDI_HEADER_SIZE + DETECTION_SIZE * n
    ensures Cut(p, RDI_HEADER_SIZE, DETECTION_SIZE * n) == p[RDI_HEADER_SIZE..]
  {
  }

  /** parse_rdi_frame: the detection count, or None. */
  function PyFrame(p: seq<byte>): Option<nat> {
    if |p| < RDI_HEADER_SIZE then None
    else
      var n := HalfWord(p, 34);
      if n > MAX_DETECTIONS then None
      else if |p| != RDI_HEADER_SIZE + n * DETECTION_SIZE then None
      else Some(n)
  }

  /** parse_rdi_detection. */
  function PyDetection(p: seq<byte>, start: nat, index: nat): Option<Detection> {
    var off := start + index * DETECTION_SIZE;
    if off + DETECTION_SIZE > |p| then None else Some(DetectionAt(p, off))
  }
}
