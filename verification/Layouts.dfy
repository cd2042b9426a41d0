/** The three ISO 23150 payloads by their bytes: which are accepted, and where
    each field of a message stands. */
module Layouts {
  import opened Bytes
  import opened Records
  import IsoHeader
  import Rdi
  import Shii
  import Spi

  /** Every number between two offsets, written out. */
  lemma NumbersIn(p: seq<byte>, from: nat, to: nat)
    requires from <= to <= |p|
    ensures forall k: nat :: from <= k && k + 4 <= to ==> Word(p, k) == Le32(p, k)
    ensures forall k: nat :: from <= k && k + 2 <= to ==> HalfWord(p, k) == Le16(p, k)
  {
    hide Word, HalfWord, Le16, Le32;
    forall k: nat | from <= k && k + 4 <= to ensures Word(p, k) == Le32(p, k) { NumbersRead(p, k); }
    forall k: nat | from <= k && k + 2 <= to ensures HalfWord(p, k) == Le16(p, k) { NumbersRead(p, k); }
  }

  // ---- the common header

  predicate HeaderIs(h: IsoHeader.CommonHeader, p: seq<byte>)
    requires |p| >= 24
  {
    && h.major == p[0] && h.minor == p[1] && h.patch == p[2]
    && h.interfaceId == p[3] && h.servingSensors == p[4] && h.sensorId == p[5]
    && h.timestamp == Le64(p, 6) && h.messageCounter == Le32(p, 14) && h.cycleTime == Le32(p, 18)
    && h.cycleVariation == p[22] && h.qualifier == p[23]
  }

  lemma HeaderLayout(p: seq<byte>)
    requires |p| >= 24
    ensures HeaderIs(IsoHeader.Decode(p), p)
  {
    hide FromLe, Le32, Le64;
    FieldsRead(p, 6);
    FieldsRead(p, 14);
    FieldsRead(p, 18);
  }

  // ---- detections

  predicate DetectionIs(d: Rdi.Detection, p: seq<byte>, at: nat)
    requires at + 51 <= |p|
  {
    && d.existence == p[at] && d.detectionId == Le16(p, at + 1) && d.objectIdRef == Le16(p, at + 3)
    && d.timestampDiff == Le32(p, at + 5) && d.rcs == Le32(p, at + 9) && d.snr == Le32(p, at + 13)
    && d.ambiguityGroup == Le16(p, at + 17)
    && d.position.distance == Le32(p, at + 19) && d.position.azimuth == Le32(p, at + 23)
    && d.position.elevation == Le32(p, at + 27) && d.position.distanceError == Le32(p, at + 31)
    && d.position.azimuthError == Le32(p, at + 35) && d.position.elevationError == Le32(p, at + 39)
    && d.position.velocity == Le32(p, at + 43) && d.position.velocityError == Le32(p, at + 47)
  }

  lemma DetectionRead(p: seq<byte>, at: nat)
    requires at + 51 <= |p|
    ensures DetectionIs(Rdi.DetectionAt(p, at), p, at)
  {
    hide Word, HalfWord, Le16, Le32;
    NumbersIn(p, at, at + 51);
  }

  /** The fixed part of a detection message, and its size. */
  lemma RdiLayout(m: Rdi.Message)
    requires m.WellFormed()
    ensures var p := Rdi.Serialise(m);
            && |m.detections| <= 8192 && |p| == 36 + 51 * |m.detections| && Le16(p, 34) == |m.detections|
            && HeaderIs(m.header, p)
            && m.velocityBegin == Le32(p, 24) && m.velocityEnd == Le32(p, 28) && m.capability == Le16(p, 32)
  {
    hide Rdi.FixedPart, EncodeAll, IsoHeader.Decode, Word, HalfWord, Le16, Le32, HeaderIs;
    var p := Rdi.Serialise(m);
    Rdi.SerialisedIsFramed(m);
    assert EncodeAll(Rdi.EncodeDetection, m.detections) == p[36..];
    Rdi.Accepted(p, m.detections);
    Rdi.SerialiseInjective(m, Rdi.MessageAt(p, m.detections));
    HeaderLayout(p);
    NumbersIn(p, 24, 36);
  }

  /** Detection i stands at 36 + 51 i. */
  lemma DetectionLayout(m: Rdi.Message, i: nat)
    requires m.WellFormed() && i < |m.detections|
    ensures var p := Rdi.Serialise(m);
            36 + 51 * i + 51 <= |p| && DetectionIs(m.detections[i], p, 36 + 51 * i)
  {
    hide Rdi.FixedPart, EncodeAll, Rdi.EncodeDetection, Rdi.DetectionAt, DetectionIs;
    var p := Rdi.Serialise(m);
    var tail := EncodeAll(Rdi.EncodeDetection, m.detections);
    EncodeAllAt(Rdi.EncodeDetection, 51, m.detections, i);
    assert p[36..] == tail;
    assert Cut(p, 36 + 51 * i, 51) == Cut(tail, 51 * i, 51);
    Rdi.DetectionBack(p, 36 + 51 * i);
    Rdi.DetectionInjective(m.detections[i], Rdi.DetectionAt(p, 36 + 51 * i));
    DetectionRead(p, 36 + 51 * i);
  }

  lemma {:induction false} SomeDetections(p: seq<byte>, n: nat) returns (xs: seq<Rdi.Detection>)
    requires 36 + 51 * n <= |p|
    ensures |xs| == n && EncodeAll(Rdi.EncodeDetection, xs) == Cut(p, 36, 51 * n)
  {
    hide EncodeAll, Cut, Rdi.EncodeDetection, Rdi.DetectionAt;
    if n == 0 {
      xs := [];
      Rdi.NoneYet(p);
    } else {
      xs := SomeDetections(p, n - 1);
      Rdi.OneMore(p, n - 1, xs);
      xs := xs + [Rdi.DetectionAt(p, 36 + 51 * (n - 1))];
    }
  }

  /** Which payloads the RDI parser accepts. */
  lemma RdiAccepts(p: seq<byte>, r: Option<Rdi.Message>)
    requires Rdi.ParsesTo(p, r)
    ensures r.Some? <==> |p| >= 36 && Le16(p, 34) <= 8192 && |p| == 36 + 51 * Le16(p, 34)
  {
    hide EncodeAll, Rdi.EncodeDetection, Rdi.ParsesTo, HalfWord, Le16, Rdi.MessageAt;
    NumbersRead(p, 34);
    if Rdi.Framed(p) {
      var n := HalfWord(p, 34);
      var xs := SomeDetections(p, n);
      Rdi.AllCut(p, n);
      Rdi.Accepted(p, xs);
      Rdi.ParseIsUnique(p, r, Some(Rdi.MessageAt(p, xs)));
    } else {
      Rdi.Rejected(p);
      Rdi.ParseIsUnique(p, r, None);
    }
  }

  // ---- sensor health

  /** Three counts at offsets that depend on the counts before them. */
  lemma ShiiAccepts(p: seq<byte>, r: Option<Shii.Message>)
    requires Shii.ParsesTo(p, r)
    ensures r.Some? <==>
      && |p| >= 32
      && var a: nat := p[24];
      && a <= 11 && |p| > 29 + a
      && var b: nat := p[29 + a];
      && b <= 4 && |p| > 31 + a + 2 * b
      && var c: nat := p[31 + a + 2 * b];
      && c <= 3 && |p| == 32 + a + 2 * b + 3 * c
  {
    hide Shii.ParsesTo, Shii.Decode;
    Shii.OutcomeParses(p);
    Shii.ParsersAgree(p, r, Shii.Outcome(p));
  }

  /** Four octets after the modes, one after the two signal arrays. */
  predicate ShiiIs(m: Shii.Message, p: seq<byte>, a: nat, b: nat, c: nat)
    requires |p| == 32 + a + 2 * b + 3 * c
  {
    && m.operationModes == p[25..25 + a]
    && m.defectRecognised == p[25 + a] && m.defectReason == p[26 + a]
    && m.supplyVoltage == p[27 + a] && m.temperature == p[28 + a]
    && m.signalTypes == p[30 + a..30 + a + b] && m.signalStatuses == p[30 + a + b..30 + a + 2 * b]
    && m.timeSync == p[30 + a + 2 * b]
    && m.calComponents == p[32 + a + 2 * b..32 + a + 2 * b + c]
    && m.calStatuses == p[32 + a + 2 * b + c..32 + a + 2 * b + 2 * c]
    && m.calStates == p[32 + a + 2 * b + 2 * c..]
  }

  lemma ShiiRead(p: seq<byte>, a: nat, b: nat, c: nat)
    requires |p| == 32 + a + 2 * b + 3 * c
    ensures ShiiIs(Shii.DecodeAt(p, a, b, c), p, a, b, c)
    ensures Shii.DecodeAt(p, a, b, c).header == IsoHeader.Decode(p)
  {
    hide IsoHeader.Decode;
  }

  /** Where everything stands in a sensor health message. */
  lemma ShiiLayout(m: Shii.Message)
    requires m.WellFormed()
    ensures var p := Shii.Serialise(m);
            var a, b, c := |m.operationModes|, |m.signalTypes|, |m.calComponents|;
            && |p| == 32 + a + 2 * b + 3 * c && a <= 11 && b <= 4 && c <= 3
            && p[24] == a && p[29 + a] == b && p[31 + a + 2 * b] == c
            && HeaderIs(m.header, p) && ShiiIs(m, p, a, b, c)
  {
    hide IsoHeader.Decode, HeaderIs, Shii.Serialise, Shii.DecodeAt;
    var p := Shii.Serialise(m);
    Shii.SerialisedIsFramed(m);
    Shii.SerialiseDecode(p);
    Shii.SerialiseInjective(m, Shii.Decode(p));
    HeaderLayout(p);
    ShiiRead(p, |m.operationModes|, |m.signalTypes|, |m.calComponents|);
  }

  // ---- sensor performance

  predicate PoseIs(x: Spi.Pose, p: seq<byte>)
    requires |p| >= 57
  {
    && x.originX == Le32(p, 25) && x.originY == Le32(p, 29) && x.originZ == Le32(p, 33)
    && x.yaw == Le32(p, 37) && x.pitch == Le32(p, 41) && x.roll == Le32(p, 45)
    && x.yawError == Le32(p, 49) && x.pitchError == Le32(p, 53)
  }

  predicate FovIs(x: Spi.FovSegment, p: seq<byte>, at: nat)
    requires at + 17 <= |p|
  {
    && x.azimuthBegin == Le32(p, at) && x.azimuthEnd == Le32(p, at + 4)
    && x.elevationBegin == Le32(p, at + 8) && x.elevationEnd == Le32(p, at + 12) && x.blockage == p[at + 16]
  }

  predicate ObjectIs(x: Spi.ObjectType, p: seq<byte>, at: nat)
    requires at + 9 <= |p|
  {
    x.kind == p[at] && x.rangeBegin == Le32(p, at + 1) && x.rangeEnd == Le32(p, at + 5)
  }

  predicate TargetIs(x: Spi.RefTarget, p: seq<byte>, at: nat)
    requires at + 16 <= |p|
  {
    && x.crossSection == Le32(p, at) && x.rangeBegin == Le32(p, at + 4)
    && x.rangeEnd == Le32(p, at + 8) && x.signalToNoise == Le32(p, at + 12)
  }

  lemma RecordsRead(p: seq<byte>, at: nat)
    ensures at + 17 <= |p| ==> FovIs(Spi.FovAt(p, at), p, at)
    ensures at + 9 <= |p| ==> ObjectIs(Spi.ObjectAt(p, at), p, at)
    ensures at + 16 <= |p| ==> TargetIs(Spi.TargetAt(p, at), p, at)
  {
    hide Word, HalfWord, Le32;
    if at <= |p| { NumbersIn(p, at, |p|); }
  }

  /** The counts, the fixed part and the size. */
  lemma SpiLayout(m: Spi.Message)
    requires m.WellFormed()
    ensures var p := Spi.Serialise(m);
            var a, b, c := |m.fov|, |m.objects|, |m.targets|;
            && |p| == 60 + 17 * a + 9 * b + 16 * c && a <= 16 && b <= 16 && c <= 16
            && HeaderIs(m.header, p) && m.coordSystem == p[24] && PoseIs(m.pose, p)
            && p[57] == a && p[58 + 17 * a] == b && p[59 + 17 * a + 9 * b] == c
  {
    hide Spi.Serialise, IsoHeader.Decode, HeaderIs, Word, Le32, Cut, EncodeAll, Spi.EncodeFov, Spi.EncodeObject, Spi.EncodeTarget;
    var p := Spi.Serialise(m);
    Spi.SerialisedIsFramed(m);
    ListsStand(m);
    Spi.HeaderInRange(p);
    var k := Spi.Message(IsoHeader.Decode(p), p[24], Spi.PoseAt(p, 25), m.fov, m.objects, m.targets);
    Spi.Accepted(p, k);
    Spi.SerialiseInjective(m, k);
    HeaderLayout(p);
    NumbersIn(p, 25, 57);
  }

  /** Where the three lists stand in the wire form. */
  lemma ListsStand(m: Spi.Message)
    requires m.WellFormed()
    ensures var p := Spi.Serialise(m);
            var a, b, c := |m.fov|, |m.objects|, |m.targets|;
            && |p| == 60 + 17 * a + 9 * b + 16 * c
            && EncodeAll(Spi.EncodeFov, m.fov) == Cut(p, 58, 17 * a)
            && EncodeAll(Spi.EncodeObject, m.objects) == Cut(p, 59 + 17 * a, 9 * b)
            && EncodeAll(Spi.EncodeTarget, m.targets) == Cut(p, 60 + 17 * a + 9 * b, 16 * c)
  {
    hide Spi.FixedPart, EncodeAll;
    Spi.SectionSizes(m);
  }

  /** The three lists, record by record. */
  lemma FovLayout(m: Spi.Message, i: nat)
    requires m.WellFormed() && i < |m.fov|
    ensures var p := Spi.Serialise(m);
            58 + 17 * i + 17 <= |p| && FovIs(m.fov[i], p, 58 + 17 * i)
  {
    hide Spi.Serialise, EncodeAll, Spi.EncodeFov, Spi.FovAt, Cut, FovIs;
    var p := Spi.Serialise(m);
    ListsStand(m);
    EncodeAllAt(Spi.EncodeFov, 17, m.fov, i);
    CutOfCut(p, 58, 17 * |m.fov|, 17 * i, 17);
    Spi.FovBack(p, 58 + 17 * i);
    Spi.FovInjective(m.fov[i], Spi.FovAt(p, 58 + 17 * i));
    RecordsRead(p, 58 + 17 * i);
  }

  lemma ObjectLayout(m: Spi.Message, i: nat)
    requires m.WellFormed() && i < |m.objects|
    ensures var p := Spi.Serialise(m);
            var at := 59 + 17 * |m.fov| + 9 * i;
            at + 9 <= |p| && ObjectIs(m.objects[i], p, at)
  {
    hide Spi.Serialise, EncodeAll, Spi.EncodeObject, Spi.ObjectAt, Cut, ObjectIs;
    var p := Spi.Serialise(m);
    var start := 59 + 17 * |m.fov|;
    ListsStand(m);
    EncodeAllAt(Spi.EncodeObject, 9, m.objects, i);
    CutOfCut(p, start, 9 * |m.objects|, 9 * i, 9);
    Spi.ObjectBack(p, start + 9 * i);
    Spi.ObjectInjective(m.objects[i], Spi.ObjectAt(p, start + 9 * i));
    RecordsRead(p, start + 9 * i);
  }

  lemma TargetLayout(m: Spi.Message, i: nat)
    requires m.WellFormed() && i < |m.targets|
    ensures var p := Spi.Serialise(m);
            var at := 60 + 17 * |m.fov| + 9 * |m.objects| + 16 * i;
            at + 16 <= |p| && TargetIs(m.targets[i], p, at)
  {
    hide Spi.Serialise, EncodeAll, Spi.EncodeTarget, Spi.TargetAt, Cut, TargetIs;
    var p := Spi.Serialise(m);
    var start := 60 + 17 * |m.fov| + 9 * |m.objects|;
    ListsStand(m);
    EncodeAllAt(Spi.EncodeTarget, 16, m.targets, i);
    CutOfCut(p, start, 16 * |m.targets|, 16 * i, 16);
    Spi.TargetBack(p, start + 16 * i);
    Spi.TargetInjective(m.targets[i], Spi.TargetAt(p, start + 16 * i));
    RecordsRead(p, start + 16 * i);
  }

  lemma CutOfCut(p: seq<byte>, start: nat, size: nat, off: nat, n: nat)
    requires start + size <= |p| && off + n <= size
    ensures Cut(Cut(p, start, size), off, n) == Cut(p, start + off, n)
  {
    forall k | 0 <= k < n ensures Cut(Cut(p, start, size), off, n)[k] == Cut(p, start + off, n)[k] {
      assert Cut(p, start, size)[off + k] == p[start + off + k];
    }
  }

  lemma {:induction false} SomeFov(p: seq<byte>, start: nat, n: nat) returns (xs: seq<Spi.FovSegment>)
    requires start + 17 * n <= |p|
    ensures |xs| == n && EncodeAll(Spi.EncodeFov, xs) == Cut(p, start, 17 * n)
  {
    hide EncodeAll, Cut, Spi.EncodeFov, Spi.FovAt;
    if n == 0 {
      xs := [];
      Spi.EmptyList(Spi.EncodeFov, p, start);
    } else {
      xs := SomeFov(p, start, n - 1);
      var x := Spi.FovAt(p, start + 17 * (n - 1));
      Spi.FovBack(p, start + 17 * (n - 1));
      Spi.ListStep(Spi.EncodeFov, p, start, 17 * (n - 1), 17, xs, x);
      xs := xs + [x];
    }
  }

  lemma {:induction false} SomeObjects(p: seq<byte>, start: nat, n: nat) returns (xs: seq<Spi.ObjectType>)
    requires start + 9 * n <= |p|
    ensures |xs| == n && EncodeAll(Spi.EncodeObject, xs) == Cut(p, start, 9 * n)
  {
    hide EncodeAll, Cut, Spi.EncodeObject, Spi.ObjectAt;
    if n == 0 {
      xs := [];
      Spi.EmptyList(Spi.EncodeObject, p, start);
    } else {
      xs := SomeObjects(p, start, n - 1);
      var x := Spi.ObjectAt(p, start + 9 * (n - 1));
      Spi.ObjectBack(p, start + 9 * (n - 1));
      Spi.ListStep(Spi.EncodeObject, p, start, 9 * (n - 1), 9, xs, x);
      xs := xs + [x];
    }
  }

  lemma {:induction false} SomeTargets(p: seq<byte>, start: nat, n: nat) returns (xs: seq<Spi.RefTarget>)
    requires start + 16 * n <= |p|
    ensures |xs| == n && EncodeAll(Spi.EncodeTarget, xs) == Cut(p, start, 16 * n)
  {
    hide EncodeAll, Cut, Spi.EncodeTarget, Spi.TargetAt;
    if n == 0 {
      xs := [];
      Spi.EmptyList(Spi.EncodeTarget, p, start);
    } else {
      xs := SomeTargets(p, start, n - 1);
      var x := Spi.TargetAt(p, start + 16 * (n - 1));
      Spi.TargetBack(p, start + 16 * (n - 1));
      Spi.ListStep(Spi.EncodeTarget, p, start, 16 * (n - 1), 16, xs, x);
      xs := xs + [x];
    }
  }

  lemma SomeSpi(p: seq<byte>) returns (m: Spi.Message)
    requires Spi.Framed(p)
    ensures Spi.ParsesTo(p, Some(m))
  {
    hide Spi.ParsesTo, EncodeAll, Cut, Spi.EncodeFov, Spi.EncodeObject, Spi.EncodeTarget, Spi.PoseAt, IsoHeader.Decode;
    var a: nat := p[57];
    var b: nat := p[58 + 17 * a];
    var c: nat := p[59 + 17 * a + 9 * b];
    var fov := SomeFov(p, 58, a);
    var objects := SomeObjects(p, 59 + 17 * a, b);
    var targets := SomeTargets(p, 60 + 17 * a + 9 * b, c);
    m := Spi.Message(IsoHeader.Decode(p), p[24], Spi.PoseAt(p, 25), fov, objects, targets);
    Spi.HeaderInRange(p);
    Spi.Accepted(p, m);
  }

  /** Which payloads the SPI parsers accept. */
  lemma SpiAccepts(p: seq<byte>, r: Option<Spi.Message>)
    requires Spi.ParsesTo(p, r)
    ensures r.Some? <==>
      && |p| >= 60
      && var a: nat := p[57];
      && a <= 16 && |p| > 58 + 17 * a
      && var b: nat := p[58 + 17 * a];
      && b <= 16 && |p| > 59 + 17 * a + 9 * b
      && var c: nat := p[59 + 17 * a + 9 * b];
      && c <= 16 && |p| == 60 + 17 * a + 9 * b + 16 * c
  {
    hide Spi.ParsesTo;
    if Spi.Framed(p) {
      var m := SomeSpi(p);
      Spi.ParsersAgree(p, r, Some(m));
    } else {
      Spi.Rejected(p);
      Spi.ParsersAgree(p, r, None);
    }
  }
}
