/** SPI (sensor performance) payloads: src/protocol/spi_parser.cpp and parse_spi
    of python/src/afi_sdk/streams.py. A pose and three count-driven lists of
    records follow the common header. Floats are kept as raw 32-bit words. */
module Spi {
  import opened Bytes
  import opened Records
  import opened IsoHeader

  const MIN_SIZE := 60
  const MAX_RECORDS := 16

  datatype Pose = Pose(
    originX: u32, originY: u32, originZ: u32, yaw: u32, pitch: u32, roll: u32, yawError: u32, pitchError: u32)

  datatype FovSegment = FovSegment(
    azimuthBegin: u32, azimuthEnd: u32, elevationBegin: u32, elevationEnd: u32, blockage: byte)

  datatype ObjectType = ObjectType(kind: byte, rangeBegin: u32, rangeEnd: u32)

  datatype RefTarget = RefTarget(crossSection: u32, rangeBegin: u32, rangeEnd: u32, signalToNoise: u32)

  datatype Message = Message(
    header: CommonHeader, coordSystem: byte, pose: Pose,
    fov: seq<FovSegment>, objects: seq<ObjectType>, targets: seq<RefTarget>)
  {
    predicate WellFormed() {
      header.InRange() && |fov| <= MAX_RECORDS && |objects| <= MAX_RECORDS && |targets| <= MAX_RECORDS
    }
  }

  // ---- wire forms

  function EncodePose(x: Pose): (s: seq<byte>)
    ensures |s| == 32
  {
    EncodeWords([x.originX, x.originY, x.originZ, x.yaw, x.pitch, x.roll, x.yawError, x.pitchError])
  }

  function EncodeFov(x: FovSegment): (s: seq<byte>)
    ensures |s| == 17
  {
    EncodeWords([x.azimuthBegin, x.azimuthEnd, x.elevationBegin, x.elevationEnd]) + [x.blockage]
  }

  function EncodeObject(x: ObjectType): (s: seq<byte>)
    ensures |s| == 9
  {
    [x.kind] + EncodeWords([x.rangeBegin, x.rangeEnd])
  }

  function EncodeTarget(x: RefTarget): (s: seq<byte>)
    ensures |s| == 16
  {
    EncodeWords([x.crossSection, x.rangeBegin, x.rangeEnd, x.signalToNoise])
  }

  function FixedPart(m: Message): seq<byte>
    requires m.WellFormed()
  {
    Encode(m.header) + [m.coordSystem] + EncodePose(m.pose)
  }

  function FovSection(m: Message): seq<byte>
    requires m.WellFormed()
  {
    [|m.fov|] + EncodeAll(EncodeFov, m.fov)
  }

  function ObjectSection(m: Message): seq<byte>
    requires m.WellFormed()
  {
    [|m.objects|] + EncodeAll(EncodeObject, m.objects)
  }

  function TargetSection(m: Message): seq<byte>
    requires m.WellFormed()
  {
    [|m.targets|] + EncodeAll(EncodeTarget, m.targets)
  }

  function Serialise(m: Message): seq<byte>
    requires m.WellFormed()
  {
    FixedPart(m) + FovSection(m) + ObjectSection(m) + TargetSection(m)
  }

  // ---- records read at an offset

  function PoseAt(p: seq<byte>, off: nat): Pose
    requires off + 32 <= |p|
  {
    Pose(Word(p, off), Word(p, off + 4), Word(p, off + 8), Word(p, off + 12),
         Word(p, off + 16), Word(p, off + 20), Word(p, off + 24), Word(p, off + 28))
  }

  function FovAt(p: seq<byte>, off: nat): FovSegment
    requires off + 17 <= |p|
  {
    FovSegment(Word(p, off), Word(p, off + 4), Word(p, off + 8), Word(p, off + 12), p[off + 16])
  }

  function ObjectAt(p: seq<byte>, off: nat): ObjectType
    requires off + 9 <= |p|
  {
    ObjectType(p[off], Word(p, off + 1), Word(p, off + 5))
  }

  function TargetAt(p: seq<byte>, off: nat): RefTarget
    requires off + 16 <= |p|
  {
    RefTarget(Word(p, off), Word(p, off + 4), Word(p, off + 8), Word(p, off + 12))
  }

  lemma PoseBack(p: seq<byte>, off: nat)
    requires off + 32 <= |p|
    ensures EncodePose(PoseAt(p, off)) == Cut(p, off, 32)
  {
    hide Word, EncodeWords, DecodeWords;
    EightWords(p, off);
    WordsBack(p, off, 8);
  }

  lemma FovBack(p: seq<byte>, off: nat)
    requires off + 17 <= |p|
    ensures EncodeFov(FovAt(p, off)) == Cut(p, off, 17)
  {
    hide Word, EncodeWords, DecodeWords;
    FourWords(p, off);
    WordsBack(p, off, 4);
  }

  lemma ObjectBack(p: seq<byte>, off: nat)
    requires off + 9 <= |p|
    ensures EncodeObject(ObjectAt(p, off)) == Cut(p, off, 9)
  {
    hide Word, EncodeWords, DecodeWords;
    TwoWords(p, off + 1);
    WordsBack(p, off + 1, 2);
  }

  lemma TargetBack(p: seq<byte>, off: nat)
    requires off + 16 <= |p|
    ensures EncodeTarget(TargetAt(p, off)) == Cut(p, off, 16)
  {
    hide Word, EncodeWords, DecodeWords;
    FourWords(p, off);
    WordsBack(p, off, 4);
  }

  lemma PoseInjective(x: Pose, y: Pose)
    requires EncodePose(x) == EncodePose(y)
    ensures x == y
  {
    hide EncodeWords;
    var a := [x.originX, x.originY, x.originZ, x.yaw, x.pitch, x.roll, x.yawError, x.pitchError];
    var b := [y.originX, y.originY, y.originZ, y.yaw, y.pitch, y.roll, y.yawError, y.pitchError];
    WordsInjective(a, b);
    assert a[0] == b[0] && a[1] == b[1] && a[2] == b[2] && a[3] == b[3];
    assert a[4] == b[4] && a[5] == b[5] && a[6] == b[6] && a[7] == b[7];
  }

  lemma FovInjective(x: FovSegment, y: FovSegment)
    requires EncodeFov(x) == EncodeFov(y)
    ensures x == y
  {
    hide EncodeWords;
    var a := [x.azimuthBegin, x.azimuthEnd, x.elevationBegin, x.elevationEnd];
    var b := [y.azimuthBegin, y.azimuthEnd, y.elevationBegin, y.elevationEnd];
    TailInjective(EncodeWords(a), [x.blockage], EncodeWords(b), [y.blockage]);
    WordsInjective(a, b);
    assert a[0] == b[0] && a[1] == b[1] && a[2] == b[2] && a[3] == b[3];
    assert [x.blockage][0] == [y.blockage][0];
  }

  lemma ObjectInjective(x: ObjectType, y: ObjectType)
    requires EncodeObject(x) == EncodeObject(y)
    ensures x == y
  {
    hide EncodeWords;
    var a := [x.rangeBegin, x.rangeEnd];
    var b := [y.rangeBegin, y.rangeEnd];
    ConcatInjective([x.kind], EncodeWords(a), [y.kind], EncodeWords(b));
    WordsInjective(a, b);
    assert a[0] == b[0] && a[1] == b[1] && [x.kind][0] == [y.kind][0];
  }

  lemma TargetInjective(x: RefTarget, y: RefTarget)
    requires EncodeTarget(x) == EncodeTarget(y)
    ensures x == y
  {
    hide EncodeWords;
    var a := [x.crossSection, x.rangeBegin, x.rangeEnd, x.signalToNoise];
    var b := [y.crossSection, y.rangeBegin, y.rangeEnd, y.signalToNoise];
    WordsInjective(a, b);
    assert a[0] == b[0] && a[1] == b[1] && a[2] == b[2] && a[3] == b[3];
  }

  // ---- which payloads are wire forms

  /** The three counts are within their maximum and describe exactly this length. */
  predicate Framed(p: seq<byte>) {
    && |p| >= MIN_SIZE
    && var nFov := p[57];
    && nFov <= MAX_RECORDS && 58 + 17 * nFov < |p|
    && var nObj := p[58 + 17 * nFov];
    && nObj <= MAX_RECORDS && 59 + 17 * nFov + 9 * nObj < |p|
    && var nRef := p[59 + 17 * nFov + 9 * nObj];
    && nRef <= MAX_RECORDS && |p| == 60 + 17 * nFov + 9 * nObj + 16 * nRef
  }

  lemma SectionSizes(m: Message)
    requires m.WellFormed()
    ensures |FixedPart(m)| == 57
    ensures |FovSection(m)| == 1 + 17 * |m.fov|
    ensures |ObjectSection(m)| == 1 + 9 * |m.objects|
    ensures |TargetSection(m)| == 1 + 16 * |m.targets|
  {
    hide EncodeAll, EncodeWords;
    EncodeAllSize(EncodeFov, 17, m.fov);
    EncodeAllSize(EncodeObject, 9, m.objects);
    EncodeAllSize(EncodeTarget, 16, m.targets);
  }

  lemma SerialisedIsFramed(m: Message)
    requires m.WellFormed()
    ensures Framed(Serialise(m))
    ensures Serialise(m)[57] == |m.fov| && Serialise(m)[58 + 17 * |m.fov|] == |m.objects|
    ensures Serialise(m)[59 + 17 * |m.fov| + 9 * |m.objects|] == |m.targets|
  {
    hide FixedPart, EncodeAll;
    SectionSizes(m);
    var p := Serialise(m);
    assert p[57] == |m.fov|;
    assert p[58 + 17 * |m.fov|] == |m.objects|;
    assert p[59 + 17 * |m.fov| + 9 * |m.objects|] == |m.targets|;
  }

  /** Different messages have different wire forms. */
  lemma SerialiseInjective(m: Message, k: Message)
    requires m.WellFormed() && k.WellFormed() && Serialise(m) == Serialise(k)
    ensures m == k
  {
    hide FixedPart, FovSection, ObjectSection, TargetSection, Framed;
    SerialisedIsFramed(m);
    SerialisedIsFramed(k);
    SectionSizes(m);
    SectionSizes(k);
    var a, b, c, d := FixedPart(m), FovSection(m), ObjectSection(m), TargetSection(m);
    var a', b', c', d' := FixedPart(k), FovSection(k), ObjectSection(k), TargetSection(k);
    ConcatInjective(a + b + c, d, a' + b' + c', d');
    ConcatInjective(a + b, c, a' + b', c');
    ConcatInjective(a, b, a', b');
    FixedInjective(m, k);
    ListsInjective(m, k);
  }

  lemma FixedInjective(m: Message, k: Message)
    requires m.WellFormed() && k.WellFormed() && FixedPart(m) == FixedPart(k)
    ensures m.header == k.header && m.coordSystem == k.coordSystem && m.pose == k.pose
  {
    hide Encode, EncodePose;
    var h, h' := Encode(m.header), Encode(k.header);
    ConcatInjective(h + [m.coordSystem], EncodePose(m.pose), h' + [k.coordSystem], EncodePose(k.pose));
    ConcatInjective(h, [m.coordSystem], h', [k.coordSystem]);
    assert [m.coordSystem][0] == [k.coordSystem][0];
    assert h + [] == h && h' + [] == h';
    DecodeEncode(m.header, []);
    DecodeEncode(k.header, []);
    PoseInjective(m.pose, k.pose);
  }

  lemma ListsInjective(m: Message, k: Message)
    requires m.WellFormed() && k.WellFormed()
    requires |m.fov| == |k.fov| && |m.objects| == |k.objects| && |m.targets| == |k.targets|
    requires FovSection(m) == FovSection(k) && ObjectSection(m) == ObjectSection(k) && TargetSection(m) == TargetSection(k)
    ensures m.fov == k.fov && m.objects == k.objects && m.targets == k.targets
  {
    hide EncodeFov, EncodeObject, EncodeTarget, EncodeAll;
    ConcatInjective([|m.fov|], EncodeAll(EncodeFov, m.fov), [|k.fov|], EncodeAll(EncodeFov, k.fov));
    ConcatInjective([|m.objects|], EncodeAll(EncodeObject, m.objects), [|k.objects|], EncodeAll(EncodeObject, k.objects));
    ConcatInjective([|m.targets|], EncodeAll(EncodeTarget, m.targets), [|k.targets|], EncodeAll(EncodeTarget, k.targets));
    forall x, y | EncodeFov(x) == EncodeFov(y) ensures x == y { FovInjective(x, y); }
    forall x, y | EncodeObject(x) == EncodeObject(y) ensures x == y { ObjectInjective(x, y); }
    forall x, y | EncodeTarget(x) == EncodeTarget(y) ensures x == y { TargetInjective(x, y); }
    EncodeAllInjective(EncodeFov, 17, m.fov, k.fov);
    EncodeAllInjective(EncodeObject, 9, m.objects, k.objects);
    EncodeAllInjective(EncodeTarget, 16, m.targets, k.targets);
  }

  /** What both parsers promise: accept exactly the wire forms. */
  ghost predicate ParsesTo(p: seq<byte>, r: Option<Message>) {
    match r
    case Some(m) => m.WellFormed() && Serialise(m) == p
    case None => forall m: Message :: m.WellFormed() ==> Serialise(m) != p
  }

  /** At most one result meets the promise: the two parsers agree on every
      payload, in acceptance and in every field. */
  lemma ParsersAgree(p: seq<byte>, r: Option<Message>, s: Option<Message>)
    requires ParsesTo(p, r) && ParsesTo(p, s)
    ensures r == s
  {
    hide Serialise;
    if r.Some? && s.Some? { SerialiseInjective(r.value, s.value); }
  }

  lemma Rejected(p: seq<byte>)
    requires !Framed(p)
    ensures ParsesTo(p, None)
  {
    hide Serialise;
    forall m: Message | m.WellFormed() ensures Serialise(m) != p { SerialisedIsFramed(m); }
  }

  /** The pieces read are the whole payload. */
  lemma Accepted(p: seq<byte>, m: Message)
    requires Framed(p) && m.WellFormed()
    requires |m.fov| == p[57] && |m.objects| == p[58 + 17 * |m.fov|]
    requires |m.targets| == p[59 + 17 * |m.fov| + 9 * |m.objects|]
    requires m.header == IsoHeader.Decode(p) && m.coordSystem == p[24] && m.pose == PoseAt(p, 25)
    requires EncodeAll(EncodeFov, m.fov) == Cut(p, 58, 17 * |m.fov|)
    requires EncodeAll(EncodeObject, m.objects) == Cut(p, 59 + 17 * |m.fov|, 9 * |m.objects|)
    requires EncodeAll(EncodeTarget, m.targets) == Cut(p, 60 + 17 * |m.fov| + 9 * |m.objects|, 16 * |m.targets|)
    ensures ParsesTo(p, Some(m))
  {
    hide IsoHeader.Decode, Encode, EncodePose, PoseAt, EncodeAll, FixedPart, FovSection, ObjectSection, TargetSection, Cut;
    var o, t := 58 + 17 * |m.fov|, 59 + 17 * |m.fov| + 9 * |m.objects|;
    FixedIs(p, m);
    SectionsAre(p, m);
    assert p == p[..57] + p[57..o] + p[o..t] + p[t..];
  }

  lemma FixedIs(p: seq<byte>, m: Message)
    requires |p| >= MIN_SIZE && m.WellFormed()
    requires m.header == IsoHeader.Decode(p) && m.coordSystem == p[24] && m.pose == PoseAt(p, 25)
    ensures FixedPart(m) == p[..57]
  {
    hide IsoHeader.Decode, Encode, EncodePose, PoseAt;
    EncodeDecode(p);
    PoseBack(p, 25);
  }

  lemma SectionsAre(p: seq<byte>, m: Message)
    requires m.WellFormed() && |p| == 60 + 17 * |m.fov| + 9 * |m.objects| + 16 * |m.targets|
    requires |m.fov| == p[57] && |m.objects| == p[58 + 17 * |m.fov|]
    requires |m.targets| == p[59 + 17 * |m.fov| + 9 * |m.objects|]
    requires EncodeAll(EncodeFov, m.fov) == Cut(p, 58, 17 * |m.fov|)
    requires EncodeAll(EncodeObject, m.objects) == Cut(p, 59 + 17 * |m.fov|, 9 * |m.objects|)
    requires EncodeAll(EncodeTarget, m.targets) == Cut(p, 60 + 17 * |m.fov| + 9 * |m.objects|, 16 * |m.targets|)
    ensures var o, t := 58 + 17 * |m.fov|, 59 + 17 * |m.fov| + 9 * |m.objects|;
      FovSection(m) == p[57..o] && ObjectSection(m) == p[o..t] && TargetSection(m) == p[t..]
  {
    hide EncodeAll, Cut;
    CountAndList(p, 57, 17 * |m.fov|);
    CountAndList(p, 58 + 17 * |m.fov|, 9 * |m.objects|);
    CountAndList(p, 59 + 17 * |m.fov| + 9 * |m.objects|, 16 * |m.targets|);
  }

  lemma CountAndList(p: seq<byte>, at: nat, n: nat)
    requires at + 1 + n <= |p|
    ensures [p[at]] + Cut(p, at + 1, n) == p[at..at + 1 + n]
  {
  }

  /** One more record of a list has been read. */
  lemma ListStep<T>(enc: T -> seq<byte>, p: seq<byte>, start: nat, done: nat, size: nat, xs: seq<T>, x: T)
    requires start + done + size <= |p|
    requires EncodeAll(enc, xs) == Cut(p, start, done) && enc(x) == Cut(p, start + done, size)
    ensures EncodeAll(enc, xs + [x]) == Cut(p, start, done + size)
  {
    EncodeAllSnoc(enc, xs, x);
  }

  lemma EmptyList<T>(enc: T -> seq<byte>, p: seq<byte>, start: nat)
    requires start <= |p|
    ensures EncodeAll(enc, []) == Cut(p, start, 0)
  {
  }

  // ---- the parsers

  /** The three loops of SpiParser::Parse, each moving the offset over its list. */
  method ReadFov(p: seq<byte>, start: nat, n: nat) returns (fov: seq<FovSegment>, offset: nat)
    requires start + 17 * n <= |p|
    ensures offset == start + 17 * n && |fov| == n
    ensures EncodeAll(EncodeFov, fov) == Cut(p, start, 17 * n)
  {
    hide Cut, Word, EncodeAll, EncodeFov;
    fov, offset := [], start;
    EmptyList(EncodeFov, p, start);
    for i := 0 to n
      invariant offset == start + 17 * i && |fov| == i
      invariant EncodeAll(EncodeFov, fov) == Cut(p, start, 17 * i)
    {
      FovBack(p, offset);
      var azBegin := Word(p, offset); offset := offset + 4;
      var azEnd := Word(p, offset); offset := offset + 4;
      var elBegin := Word(p, offset); offset := offset + 4;
      var elEnd := Word(p, offset); offset := offset + 4;
      var seg := FovSegment(azBegin, azEnd, elBegin, elEnd, p[offset]); offset := offset + 1;
      ListStep(EncodeFov, p, start, 17 * i, 17, fov, seg);
      fov := fov + [seg];
    }
  }

  method ReadObjects(p: seq<byte>, start: nat, n: nat) returns (objects: seq<ObjectType>, offset: nat)
    requires start + 9 * n <= |p|
    ensures offset == start + 9 * n && |objects| == n
    ensures EncodeAll(EncodeObject, objects) == Cut(p, start, 9 * n)
  {
    hide Cut, Word, EncodeAll, EncodeObject;
    objects, offset := [], start;
    EmptyList(EncodeObject, p, start);
    for i := 0 to n
      invariant offset == start + 9 * i && |objects| == i
      invariant EncodeAll(EncodeObject, objects) == Cut(p, start, 9 * i)
    {
      ObjectBack(p, offset);
      var kind := p[offset]; offset := offset + 1;
      var begin := Word(p, offset); offset := offset + 4;
      var obj := ObjectType(kind, begin, Word(p, offset)); offset := offset + 4;
      ListStep(EncodeObject, p, start, 9 * i, 9, objects, obj);
      objects := objects + [obj];
    }
  }

  method ReadTargets(p: seq<byte>, start: nat, n: nat) returns (targets: seq<RefTarget>, offset: nat)
    requires start + 16 * n <= |p|
    ensures offset == start + 16 * n && |targets| == n
    ensures EncodeAll(EncodeTarget, targets) == Cut(p, start, 16 * n)
  {
    hide Cut, Word, EncodeAll, EncodeTarget;
    targets, offset := [], start;
    EmptyList(EncodeTarget, p, start);
    for i := 0 to n
      invariant offset == start + 16 * i && |targets| == i
      invariant EncodeAll(EncodeTarget, targets) == Cut(p, start, 16 * i)
    {
      TargetBack(p, offset);
      var crossSection := Word(p, offset); offset := offset + 4;
      var begin := Word(p, offset); offset := offset + 4;
      var end := Word(p, offset); offset := offset + 4;
      var target := RefTarget(crossSection, begin, end, Word(p, offset)); offset := offset + 4;
      ListStep(EncodeTarget, p, start, 16 * i, 16, targets, target);
      targets := targets + [target];
    }
  }

  /** SpiParser::Parse: a moving offset, every read in bounds. */
  method ParseCpp(p: seq<byte>) returns (r: Option<Message>)
    ensures ParsesTo(p, r)
  {
    hide ParsesTo, Cut, Word, PoseAt, EncodeAll, EncodeFov, EncodeObject, EncodeTarget, IsoHeader.Decode;
    if !Framed(p) { Rejected(p); }
    var len := |p|;
    if len < MIN_SIZE { return None; }
    var header := IsoHeader.Decode(p);
    var offset := 24;
    var coordSystem := p[offset];
    offset := offset + 1;
    var pose := PoseAt(p, offset);
    offset := offset + 32;

    var nFov := p[offset];
    offset := offset + 1;
    if nFov > MAX_RECORDS { return None; }
    if nFov > (len - offset) / 17 { return None; }
    var fov;
    fov, offset := ReadFov(p, offset, nFov);

    if offset >= len { return None; }
    var nObj := p[offset];
    offset := offset + 1;
    if nObj > MAX_RECORDS { return None; }
    if nObj > (len - offset) / 9 { return None; }
    var objects;
    objects, offset := ReadObjects(p, offset, nObj);

    if offset >= len { return None; }
    var nRef := p[offset];
    offset := offset + 1;
    if nRef > MAX_RECORDS { return None; }
    if nRef > (len - offset) / 16 { return None; }
    var targets;
    targets, offset := ReadTargets(p, offset, nRef);

    if offset != len { return None; }
    r := Some(Message(header, coordSystem, pose, fov, objects, targets));
    HeaderInRange(p);
    Accepted(p, r.value);
  }

  lemma HeaderInRange(p: seq<byte>)
    requires |p| >= MIN_SIZE
    ensures IsoHeader.Decode(p).InRange()
  {
    EncodeDecode(p);
  }

  /** parse_spi: combined bound checks, records unpacked at a cursor, the
      length test before the last list is read. */
  method ParsePython(p: seq<byte>) returns (r: Option<Message>)
    ensures ParsesTo(p, r)
  {
    hide ParsesTo, Cut, Word, PoseAt, EncodeAll, EncodeFov, EncodeObject, EncodeTarget, IsoHeader.Decode;
    if !Framed(p) { Rejected(p); }
    if |p| < MIN_SIZE { return None; }
    var off := 57;

    var nFov := p[off];
    off := off + 1;
    if nFov > MAX_RECORDS || off + nFov * 17 + 2 > |p| { return None; }
    var fov := [];
    EmptyList(EncodeFov, p, off);
    for i := 0 to nFov
      invariant off == 58 + 17 * i && |fov| == i
      invariant EncodeAll(EncodeFov, fov) == Cut(p, 58, 17 * i)
    {
      FovBack(p, off);
      ListStep(EncodeFov, p, 58, 17 * i, 17, fov, FovAt(p, off));
      fov := fov + [FovAt(p, off)];
      off := off + 17;
    }

    var nObj := p[off];
    off := off + 1;
    if nObj > MAX_RECORDS || off + nObj * 9 + 1 > |p| { return None; }
    var objects := [];
    EmptyList(EncodeObject, p, off);
    for i := 0 to nObj
      invariant off == 59 + 17 * nFov + 9 * i && |objects| == i
      invariant EncodeAll(EncodeObject, objects) == Cut(p, 59 + 17 * nFov, 9 * i)
    {
      ObjectBack(p, off);
      ListStep(EncodeObject, p, 59 + 17 * nFov, 9 * i, 9, objects, ObjectAt(p, off));
      objects := objects + [ObjectAt(p, off)];
      off := off + 9;
    }

    var nRef := p[off];
    off := off + 1;
    if nRef > MAX_RECORDS || off + nRef * 16 != |p| { return None; }
    var targets := [];
    EmptyList(EncodeTarget, p, off);
    for i := 0 to nRef
      invariant off == 60 + 17 * nFov + 9 * nObj + 16 * i && |targets| == i
      invariant EncodeAll(EncodeTarget, targets) == Cut(p, 60 + 17 * nFov + 9 * nObj, 16 * i)
    {
      TargetBack(p, off);
      ListStep(EncodeTarget, p, 60 + 17 * nFov + 9 * nObj, 16 * i, 16, targets, TargetAt(p, off));
      targets := targets + [TargetAt(p, off)];
      off := off + 16;
    }

    r := Some(Message(IsoHeader.Decode(p), p[24], PoseAt(p, 25), fov, objects, targets));
    HeaderInRange(p);
    Accepted(p, r.value);
  }
}
