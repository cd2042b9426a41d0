/** The 20-byte E2E header: layout, validation and construction
    (src/protocol/e2e.cpp and the Python strip_e2e / build_e2e_header). */
module E2e {
  import opened Bytes
  import Bits
  import Crc

  const E2E_HEADER_SIZE := 20

  datatype Generation = Unknown | V1_0 | V1_1

  /** Five 32-bit big-endian words, in wire order. */
  datatype Header = Header(crcHigh: nat, crc: nat, length: nat, counter: nat, dataId: nat) {
    predicate InRange() {
      crcHigh < 0x1_0000_0000 && crc < 0x1_0000_0000 && length < 0x1_0000_0000
      && counter < 0x1_0000_0000 && dataId < 0x1_0000_0000
    }
    function Generation(): Generation { if crcHigh == 0 then V1_1 else V1_0 }
  }

  datatype Status = Pass | CrcMismatch | TooShort | LengthMismatch | DataIdMismatch | CrcZero

  // ---- checksums over octets

  function Octets(data: seq<byte>): (o: seq<Crc.octet>)
    ensures |o| == |data|
  {
    seq(|data|, i requires 0 <= i < |data| => Bits.AsOctet(data[i]))
  }

  lemma OctetsInjective(a: seq<byte>, b: seq<byte>)
    requires Octets(a) == Octets(b)
    ensures a == b
  {
    forall i | 0 <= i < |a| ensures a[i] == b[i] {
      assert Octets(a)[i] == Octets(b)[i];
      Bits.OctetOfNumber(a[i]);
      Bits.OctetOfNumber(b[i]);
    }
  }

  lemma OctetsConcat(a: seq<byte>, b: seq<byte>)
    ensures Octets(a + b) == Octets(a) + Octets(b)
  {
  }

  /** The CRC-32 as the 32-bit number the header carries. */
  function Crc32Of(body: seq<byte>): (c: nat)
    ensures c < 0x1_0000_0000
  {
    Crc.Crc32Width(Octets(body));
    Bits.LowHalf(Crc.Crc32(Octets(body)))
  }

  function Crc64Of(data: seq<byte>): nat {
    Crc.Crc64(Octets(data)) as nat
  }

  /** The check values, as numbers over bytes. */
  lemma CheckNumbers()
    ensures Crc64Of([0x31, 0x32, 0x33, 0x34, 0x35, 0x36, 0x37, 0x38, 0x39]) == 0x995D_C9BB_DF19_39FA
    ensures Crc32Of([0x31, 0x32, 0x33, 0x34, 0x35, 0x36, 0x37, 0x38, 0x39]) == 0xCBF4_3926
  {
    hide Crc.Crc64, Crc.Crc32, Octets, Bits.LowHalf;
    DigitOctets();
    Crc.CheckValues();
    Bits.CheckNumbers();
  }

  lemma DigitOctets()
    ensures Octets([0x31, 0x32, 0x33, 0x34, 0x35, 0x36, 0x37, 0x38, 0x39])
         == [0x31, 0x32, 0x33, 0x34, 0x35, 0x36, 0x37, 0x38, 0x39]
  {
    hide Bits.AsOctet;
    Bits.DigitsAsOctets();
  }

  // ---- layout

  function Encode(h: Header): (s: seq<byte>)
    ensures |s| == E2E_HEADER_SIZE
  {
    ToBe(4, h.crcHigh) + ToBe(4, h.crc) + ToBe(4, h.length) + ToBe(4, h.counter) + ToBe(4, h.dataId)
  }

  /** e2e_parse. */
  function Parse(buf: seq<byte>): Option<Header> {
    if |buf| < E2E_HEADER_SIZE then None
    else Some(Header(FromBe(buf[0..4]), FromBe(buf[4..8]), FromBe(buf[8..12]), FromBe(buf[12..16]), FromBe(buf[16..20])))
  }

  lemma ParseEncode(h: Header, rest: seq<byte>)
    requires h.InRange()
    ensures Parse(Encode(h) + rest) == Some(h)
  {
    hide FromBe, ToBe;
    var s := Encode(h) + rest;
    assert s[0..4] == ToBe(4, h.crcHigh) && s[4..8] == ToBe(4, h.crc) && s[8..12] == ToBe(4, h.length);
    assert s[12..16] == ToBe(4, h.counter) && s[16..20] == ToBe(4, h.dataId);
    FourBytes();
    BeFieldOfWord(4, h.crcHigh);
    BeFieldOfWord(4, h.crc);
    BeFieldOfWord(4, h.length);
    BeFieldOfWord(4, h.counter);
    BeFieldOfWord(4, h.dataId);
  }

  lemma FourBytes()
    ensures Capacity(4) == 0x1_0000_0000
  {
    assert Capacity(2) == 0x1_0000;
  }

  lemma EncodeParse(buf: seq<byte>)
    requires |buf| >= E2E_HEADER_SIZE
    ensures Parse(buf).value.InRange() && Encode(Parse(buf).value) == buf[..E2E_HEADER_SIZE]
  {
    hide FromBe, ToBe;
    WordOfBeField(buf[0..4]);
    WordOfBeField(buf[4..8]);
    WordOfBeField(buf[8..12]);
    WordOfBeField(buf[12..16]);
    WordOfBeField(buf[16..20]);
    FourBytes();
  }

  /** Where every field of the header is. */
  lemma HeaderWrittenOut(buf: seq<byte>)
    requires |buf| >= 20
    ensures Parse(buf).Some?
    ensures var h := Parse(buf).value;
            && h.crcHigh == Quad(buf[0], buf[1], buf[2], buf[3])
            && h.crc == Quad(buf[4], buf[5], buf[6], buf[7])
            && h.length == Quad(buf[8], buf[9], buf[10], buf[11])
            && h.counter == Quad(buf[12], buf[13], buf[14], buf[15])
            && h.dataId == Quad(buf[16], buf[17], buf[18], buf[19])
            && h.Generation() == if buf[..4] == [0, 0, 0, 0] then V1_1 else V1_0
  {
    hide FromBe;
    BigEndian(buf[0..4]);
    BigEndian(buf[4..8]);
    BigEndian(buf[8..12]);
    BigEndian(buf[12..16]);
    BigEndian(buf[16..20]);
    if buf[0] == buf[1] == buf[2] == buf[3] == 0 {
      assert buf[..4] == [0, 0, 0, 0];
    } else {
      assert buf[..4][0] != 0 || buf[..4][1] != 0 || buf[..4][2] != 0 || buf[..4][3] != 0;
    }
  }

  // ---- validation

  /** The decision tree of e2e_validate; expected id 0 skips the identity check. */
  function Verdict(buf: seq<byte>, expectedId: nat, checkCrc: bool): Status {
    if |buf| < E2E_HEADER_SIZE then TooShort
    else
      var h, body := Parse(buf).value, buf[E2E_HEADER_SIZE..];
      if h.length != |body| then LengthMismatch
      else if expectedId != 0 && h.dataId != expectedId then DataIdMismatch
      else if !checkCrc then Pass
      else if h.crcHigh == 0 && h.crc == 0 then CrcZero
      else if h.crcHigh != 0 then
        if Crc64Of(buf[8..]) == h.crcHigh * 0x1_0000_0000 + h.crc then Pass else CrcMismatch
      else if Crc32Of(body) == h.crc then Pass else CrcMismatch
  }

  /** Which frame gets which status, the fields read with HeaderWrittenOut. */
  lemma VerdictWrittenOut(buf: seq<byte>, expectedId: nat, checkCrc: bool)
    ensures |buf| < 20 <==> Verdict(buf, expectedId, checkCrc) == TooShort
    ensures |buf| >= 20 ==>
              var h := Parse(buf).value;
              var wrongLength := h.length != |buf| - 20;
              var wrongId := !wrongLength && expectedId != 0 && h.dataId != expectedId;
              var checked := !wrongLength && !wrongId && checkCrc;
              var legacy := h.crcHigh != 0;
              var status := Verdict(buf, expectedId, checkCrc);
              && (wrongLength <==> status == LengthMismatch)
              && (wrongId <==> status == DataIdMismatch)
              && (status == CrcZero <==> checked && !legacy && h.crc == 0)
              && (status == CrcMismatch <==>
                    checked && if legacy then Crc64Of(buf[8..]) != h.crcHigh * 0x1_0000_0000 + h.crc
                               else h.crc != 0 && Crc32Of(buf[20..]) != h.crc)
  {
    hide FromBe, Crc64Of, Crc32Of;
  }

  method ComputeCrc64Of(data: seq<byte>, table: array<bv64>) returns (n: nat)
    requires Crc.IsTable(table[..])
    ensures n == Crc64Of(data)
  {
    hide Crc.Crc64, Octets;
    var crc := Crc.ComputeCrc64(Octets(data), table);
    n := crc as nat;
  }

  method ComputeCrc32Of(data: seq<byte>) returns (n: nat)
    ensures n == Crc32Of(data)
  {
    hide Crc.Crc32, Octets, Bits.LowHalf;
    var crc := Crc.ComputeCrc32(Octets(data));
    Crc.Crc32Width(Octets(data));
    n := Bits.LowHalf(crc);
  }

  /** e2e_validate: fills the header unless the frame is too short. */
  method Validate(buf: seq<byte>, expectedId: nat, checkCrc: bool, table: array<bv64>)
    returns (status: Status, header: Option<Header>)
    requires Crc.IsTable(table[..])
    ensures header == Parse(buf) && status == Verdict(buf, expectedId, checkCrc)
  {
    hide FromBe, Crc64Of, Crc32Of;
    header := Parse(buf);
    if header == None { return TooShort, header; }
    var h := header.value;
    var bodyLength := |buf| - E2E_HEADER_SIZE;
    if h.length != bodyLength { return LengthMismatch, header; }
    if expectedId != 0 && h.dataId != expectedId { return DataIdMismatch, header; }
    if !checkCrc { return Pass, header; }
    if h.crcHigh == 0 && h.crc == 0 { return CrcZero, header; }
    if h.crcHigh != 0 {
      var crc := ComputeCrc64Of(buf[8..], table);
      return if crc == h.crcHigh * 0x1_0000_0000 + h.crc then Pass else CrcMismatch, header;
    }
    var crc := ComputeCrc32Of(buf[E2E_HEADER_SIZE..]);
    return if crc == h.crc then Pass else CrcMismatch, header;
  }

  // ---- construction

  function BuildHeader(dataId: nat, counter: nat, body: seq<byte>): Header {
    Header(0, Crc32Of(body), |body| % 0x1_0000_0000, counter % 0x1_0000_0000, dataId % 0x1_0000_0000)
  }

  function Protect(dataId: nat, counter: nat, body: seq<byte>): (frame: seq<byte>)
    ensures |frame| == E2E_HEADER_SIZE + |body|
  {
    Encode(BuildHeader(dataId, counter, body)) + body
  }

  /** e2e_write_header: the header goes into the caller's 20-byte destination. */
  method WriteHeader(out: array<byte>, dataId: nat, counter: nat, body: seq<byte>)
    requires out.Length >= E2E_HEADER_SIZE
    modifies out
    ensures out[..E2E_HEADER_SIZE] + body == Protect(dataId, counter, body)
    ensures out[E2E_HEADER_SIZE..] == old(out[E2E_HEADER_SIZE..])
  {
    var bytes := Encode(BuildHeader(dataId, counter, body));
    for i := 0 to E2E_HEADER_SIZE
      invariant out[..i] == bytes[..i]
      invariant out[E2E_HEADER_SIZE..] == old(out[E2E_HEADER_SIZE..])
    {
      out[i] := bytes[i];
    }
    assert bytes[..E2E_HEADER_SIZE] == bytes;
  }

  /** The bytes of a built frame. */
  lemma ProtectWrittenOut(dataId: nat, counter: nat, body: seq<byte>)
    ensures var p := Protect(dataId, counter, body);
            && p[..4] == [0, 0, 0, 0]
            && Quad(p[4], p[5], p[6], p[7]) == Crc32Of(body)
            && Quad(p[8], p[9], p[10], p[11]) == |body| % 4294967296
            && Quad(p[12], p[13], p[14], p[15]) == counter % 4294967296
            && Quad(p[16], p[17], p[18], p[19]) == dataId % 4294967296
            && p[20..] == body
  {
    hide Encode, Crc32Of, Quad, Parse;
    var h := BuildHeader(dataId, counter, body);
    ParseEncode(h, body);
    HeaderWrittenOut(Protect(dataId, counter, body));
    assert h.Generation() == V1_1;
  }

  /** A frame built here passes validation exactly when the CRC-32 of its body
      is not zero: the zero-CRC rule also rejects the frames it was computed
      for. Without the CRC check it always passes. */
  lemma BuiltFrameVerdict(dataId: nat, counter: nat, body: seq<byte>, expectedId: nat)
    requires |body| < 0x1_0000_0000 && dataId < 0x1_0000_0000
    requires expectedId == 0 || expectedId == dataId
    ensures Verdict(Protect(dataId, counter, body), expectedId, false) == Pass
    ensures Verdict(Protect(dataId, counter, body), expectedId, true) == if Crc32Of(body) == 0 then CrcZero else Pass
  {
    hide FromBe, ToBe, Crc32Of, Crc64Of;
    var frame := Protect(dataId, counter, body);
    ParseEncode(BuildHeader(dataId, counter, body), body);
    assert frame[E2E_HEADER_SIZE..] == body;
  }

  /** The empty body is such a body. */
  lemma EmptyBodyIsRejected(dataId: nat, counter: nat)
    requires dataId < 0x1_0000_0000
    ensures Crc32Of([]) == 0 && Verdict(Protect(dataId, counter, []), dataId, true) == CrcZero
  {
    assert Octets([]) == [];
    BuiltFrameVerdict(dataId, counter, [], dataId);
  }

  // ---- what corruption is detected

  lemma OctetsSplit(before: seq<byte>, a: seq<byte>, tail: seq<byte>)
    ensures Octets(before + a + tail) == Octets(before) + Octets(a) + Octets(tail)
  {
    OctetsConcat(before, a);
    OctetsConcat(before + a, tail);
  }

  lemma Crc64Differs(before: seq<byte>, a: seq<byte>, b: seq<byte>, tail: seq<byte>)
    requires |a| == |b| <= 8 && a != b
    ensures Crc64Of(before + a + tail) != Crc64Of(before + b + tail)
  {
    hide Crc.Crc64, Octets;
    OctetsSplit(before, a, tail);
    OctetsSplit(before, b, tail);
    if Octets(a) == Octets(b) { OctetsInjective(a, b); }
    Crc.Crc64DetectsBurst(Octets(before), Octets(a), Octets(b), Octets(tail));
    Bits.WordsDiffer(Crc.Crc64(Octets(before + a + tail)), Crc.Crc64(Octets(before + b + tail)));
  }

  lemma Crc32Differs(before: seq<byte>, a: seq<byte>, b: seq<byte>, tail: seq<byte>)
    requires |a| == |b| <= 4 && a != b
    ensures Crc32Of(before + a + tail) != Crc32Of(before + b + tail)
  {
    hide Crc.Crc32, Octets, Crc32Of;
    OctetsSplit(before, a, tail);
    OctetsSplit(before, b, tail);
    if Octets(a) == Octets(b) { OctetsInjective(a, b); }
    Crc.Crc32DetectsBurst(Octets(before), Octets(a), Octets(b), Octets(tail));
    Crc32NumbersDiffer(before + a + tail, before + b + tail);
  }

  lemma Crc32NumbersDiffer(x: seq<byte>, y: seq<byte>)
    requires Crc.Crc32(Octets(x)) != Crc.Crc32(Octets(y))
    ensures Crc32Of(x) != Crc32Of(y)
  {
    hide Crc.Crc32, Octets, Bits.LowHalf;
    Crc.Crc32Width(Octets(x));
    Crc.Crc32Width(Octets(y));
    Bits.HalvesDiffer(Crc.Crc32(Octets(x)), Crc.Crc32(Octets(y)));
  }

  /** A v1.0.x frame that passes no longer passes after any change confined to
      eight consecutive bytes from offset 8 on. */
  lemma {:induction false} LegacyBurstDetected(head: seq<byte>, a: seq<byte>, b: seq<byte>, tail: seq<byte>, expectedId: nat)
    requires |head| >= 8 && |a| == |b| <= 8 && a != b
    requires |head + a + tail| >= E2E_HEADER_SIZE && Parse(head + a + tail).value.crcHigh != 0
    requires Verdict(head + a + tail, expectedId, true) == Pass
    ensures Verdict(head + b + tail, expectedId, true) != Pass
  {
    hide FromBe, Crc64Of, Crc32Of;
    var f, g := head + a + tail, head + b + tail;
    assert f[0..4] == g[0..4] == head[0..4] && f[4..8] == g[4..8] == head[4..8];
    assert f[8..] == head[8..] + a + tail && g[8..] == head[8..] + b + tail;
    Crc64Differs(head[8..], a, b, tail);
  }

  /** A v1.1.0 frame that passes no longer passes after any change confined to
      four consecutive bytes of its body. */
  lemma BodyBurstDetected(head: seq<byte>, a: seq<byte>, b: seq<byte>, tail: seq<byte>, expectedId: nat)
    requires |head| >= E2E_HEADER_SIZE && |a| == |b| <= 4 && a != b
    requires Parse(head + a + tail).value.crcHigh == 0
    requires Verdict(head + a + tail, expectedId, true) == Pass
    ensures Verdict(head + b + tail, expectedId, true) != Pass
  {
    hide FromBe, Crc64Of, Crc32Of;
    var f, g := head + a + tail, head + b + tail;
    var before := head[E2E_HEADER_SIZE..];
    assert f[0..4] == g[0..4] == head[0..4] && f[4..8] == g[4..8] == head[4..8];
    assert f[E2E_HEADER_SIZE..] == before + a + tail && g[E2E_HEADER_SIZE..] == before + b + tail;
    Crc32Differs(before, a, b, tail);
  }

  /** On a v1.1.0 frame the counter is outside the protected bytes: the
      verdict is the same for every counter. */
  lemma CounterIsUnprotected(h: Header, counter: nat, body: seq<byte>, expectedId: nat, checkCrc: bool)
    requires h.InRange() && counter < 0x1_0000_0000 && h.crcHigh == 0
    ensures Verdict(Encode(h.(counter := counter)) + body, expectedId, checkCrc)
         == Verdict(Encode(h) + body, expectedId, checkCrc)
  {
    hide FromBe, ToBe, Crc32Of, Crc64Of;
    ParseEncode(h, body);
    ParseEncode(h.(counter := counter), body);
    assert (Encode(h) + body)[E2E_HEADER_SIZE..] == body;
    assert (Encode(h.(counter := counter)) + body)[E2E_HEADER_SIZE..] == body;
  }

  // ---- the Python twins

  /** strip_e2e's "ok" (None when the frame is too short). */
  function StripOk(frame: seq<byte>, validate: bool, expectedId: Option<nat>): Option<bool> {
    if |frame| < E2E_HEADER_SIZE then None
    else
      var h, body := Parse(frame).value, frame[E2E_HEADER_SIZE..];
      var lengthOk := h.length == |body|;
      var dataIdOk := expectedId == None || h.dataId == expectedId.value;
      var crcZero := h.crcHigh == 0 && h.crc == 0;
      var crcOk :=
        if h.crcHigh == 0 then !crcZero && Crc32Of(body) == h.crc
        else Crc64Of(frame[8..]) == h.crcHigh * 0x1_0000_0000 + h.crc;
      Some(lengthOk && dataIdOk && (validate ==> crcOk))
  }

  /** _strip_response_e2e of the Python Config API client. */
  function ResponseOk(frame: seq<byte>, dataId: nat): bool
    requires |frame| >= E2E_HEADER_SIZE
  {
    var h, body := Parse(frame).value, frame[E2E_HEADER_SIZE..];
    h.crcHigh == 0 && h.crc != 0 && h.length == |body| && h.dataId == dataId && Crc32Of(body) == h.crc
  }

  /** The id as C++ receives it: 0 stands for "do not check". */
  function CppId(expectedId: Option<nat>): nat {
    if expectedId == None then 0 else expectedId.value
  }

  /** C++ and Python give the same verdict on every frame, unless Python is
      asked for Data ID 0 and the frame carries another id. */
  lemma VerdictsAgree(frame: seq<byte>, validate: bool, expectedId: Option<nat>)
    requires |frame| >= E2E_HEADER_SIZE
    ensures (Verdict(frame, CppId(expectedId), validate) == Pass) == StripOk(frame, validate, expectedId).value
       <==> !(expectedId == Some(0) && Parse(frame).value.dataId != 0
              && Verdict(frame, 0, validate) == Pass)
  {
    hide FromBe, Crc32Of, Crc64Of;
  }

  /** The Python response check accepts less than the C++ one: exactly the
      v1.1.0 form. */
  lemma ResponseOkIff(frame: seq<byte>, dataId: nat)
    requires |frame| >= E2E_HEADER_SIZE && dataId != 0
    ensures ResponseOk(frame, dataId)
       <==> Verdict(frame, dataId, true) == Pass && Parse(frame).value.Generation() == V1_1
  {
    hide FromBe, Crc32Of, Crc64Of;
  }
}
