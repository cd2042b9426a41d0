/** One Config API request and its answer on an open connection: the frame, the
    checks on the response header, and the reads (src/transport/tcp_client.cpp
    and _roundtrip of python/src/afi_sdk/someip.py). */
module ConfigExchange {
  import opened Bytes
  import opened Someip
  import opened ConfigLink
  import E2e

  const CLIENT_ID := 1
  const MSG_TYPE_REQUEST := 0x00
  const MSG_TYPE_RESPONSE := 0x80
  const MSG_TYPE_ERROR := 0x81
  const MAX_REQUEST_BODY := 16384
  const MAX_RESPONSE_PAYLOAD := 4 * 1024 * 1024
  const GET_DEVICE_INFO := 0x0010
  const EMPTY_JSON: seq<byte> := [0x7B, 0x7D]

  datatype TcpResult = Ok | Transport | Timeout | Protocol | TooLarge | LegacySensor

  // ---- frames

  function DataId(methodId: nat): nat { SERVICE_ID * 0x1_0000 + methodId }

  function RequestHeader(methodId: nat, session: nat, bodyLength: nat): Header {
    Header(SERVICE_ID, methodId, 8 + 20 + bodyLength, CLIENT_ID, session, PROTOCOL_VERSION, INTERFACE_VERSION, MSG_TYPE_REQUEST, 0)
  }

  /** A complete request: SOME/IP header, E2E header, body. */
  function RequestFrame(methodId: nat, session: nat, counter: nat, body: seq<byte>): seq<byte>
    requires methodId < 0x1_0000 && session < 0x1_0000 && |body| <= MAX_REQUEST_BODY
  {
    Serialize(RequestHeader(methodId, session, |body|)) + E2e.Protect(DataId(methodId), counter, body)
  }

  /** The request, byte by byte. */
  lemma RequestWrittenOut(methodId: nat, session: nat, counter: nat, body: seq<byte>)
    requires methodId < 0x1_0000 && session < 0x1_0000 && |body| <= MAX_REQUEST_BODY
    ensures var frame := RequestFrame(methodId, session, counter, body);
            && |frame| == 36 + |body| && frame[36..] == body
            && Pair(frame[0], frame[1]) == 0x6000 && Pair(frame[2], frame[3]) == methodId
            && Quad(frame[4], frame[5], frame[6], frame[7]) == 28 + |body|
            && Pair(frame[8], frame[9]) == 1 && Pair(frame[10], frame[11]) == session
            && frame[12] == 1 && frame[13] == 1 && frame[14] == 0 && frame[15] == 0
            && E2e.Parse(frame[16..36])
               == Some(E2e.Header(0, E2e.Crc32Of(body), |body|, counter % 0x1_0000_0000, 0x6000_0000 + methodId))
  {
    hide Serialize, Deserialize, E2e.Protect, E2e.Crc32Of, E2e.Parse, Quad, Pair;
    var h := RequestHeader(methodId, session, |body|);
    var e := E2e.Protect(DataId(methodId), counter, body);
    HeaderRoundTrip(h, e);
    HeaderWrittenOut(RequestFrame(methodId, session, counter, body));
    ProtectedWrittenOut(methodId, counter, body);
    assert RequestFrame(methodId, session, counter, body)[16..36] == e[..20];
    assert RequestFrame(methodId, session, counter, body)[36..] == e[20..];
  }

  lemma ProtectedWrittenOut(methodId: nat, counter: nat, body: seq<byte>)
    requires methodId < 0x1_0000 && |body| <= MAX_REQUEST_BODY
    ensures var e := E2e.Protect(DataId(methodId), counter, body);
            && |e| == 20 + |body| && e[20..] == body
            && E2e.Parse(e[..20])
               == Some(E2e.Header(0, E2e.Crc32Of(body), |body|, counter % 0x1_0000_0000, 0x6000_0000 + methodId))
  {
    hide E2e.Encode, E2e.Crc32Of, E2e.Parse;
    var h := E2e.BuildHeader(DataId(methodId), counter, body);
    E2e.ParseEncode(h, []);
    assert E2e.Protect(DataId(methodId), counter, body)[..20] == E2e.Encode(h) + [];
  }

  /** The ids by which an answer is matched. */
  predicate IsRequest(frame: seq<byte>, methodId: nat, session: nat) {
    && |frame| >= 16 && Pair(frame[0], frame[1]) == 0x6000 && Pair(frame[2], frame[3]) == methodId
    && Pair(frame[8], frame[9]) == 1 && Pair(frame[10], frame[11]) == session
  }

  /** The method a sensor reads in a frame. */
  function MethodOf(frame: seq<byte>): Option<nat> {
    match Deserialize(frame)
    case None => None
    case Some(h) => Some(h.methodId)
  }

  lemma MethodOfRequest(methodId: nat, session: nat, counter: nat, body: seq<byte>)
    requires methodId < 0x1_0000 && session < 0x1_0000 && |body| <= MAX_REQUEST_BODY
    ensures MethodOf(RequestFrame(methodId, session, counter, body)) == Some(methodId)
  {
    hide Serialize, Deserialize, E2e.Protect;
    HeaderRoundTrip(RequestHeader(methodId, session, |body|), E2e.Protect(DataId(methodId), counter, body));
  }

  /** The response header echoes the request and leaves room for a body. */
  predicate AnswersRequest(h: Header, methodId: nat, session: nat, probe: bool) {
    && h.service == SERVICE_ID && h.methodId == methodId && h.client == CLIENT_ID && h.session == session
    && h.protocol == PROTOCOL_VERSION && h.interface == INTERFACE_VERSION
    && (h.messageType == MSG_TYPE_RESPONSE || h.messageType == MSG_TYPE_ERROR)
    && h.length >= 8 + (if probe then 1 else 20)
    && h.length - 8 <= MAX_RESPONSE_PAYLOAD
  }

  // ---- what has been written to sensors

  /** A frame written: the generation of the sensor at the other end, whether
      the connection's own probe had been answered as v1.1.0, and the bytes. */
  datatype Sent = Sent(sensor: E2e.Generation, confirmed: bool, frame: seq<byte>)

  /** Every frame but the probe goes to a connection confirmed as v1.1.0, and
      only v1.1.0 sensors are confirmed. */
  ghost predicate ProbedFirst(sent: seq<Sent>) {
    forall k :: 0 <= k < |sent| ==>
      if sent[k].confirmed then sent[k].sensor == E2e.V1_1 else MethodOf(sent[k].frame) == Some(GET_DEVICE_INFO)
  }

  /** No v1.0.x sensor was sent anything but the probe. */
  predicate LegacySawOnlyProbes(sent: seq<Sent>) {
    forall k :: 0 <= k < |sent| && sent[k].sensor == E2e.V1_0 ==> MethodOf(sent[k].frame) == Some(0x0010)
  }

  lemma LegacySeesOnlyProbes(sent: seq<Sent>)
    requires ProbedFirst(sent)
    ensures LegacySawOnlyProbes(sent)
  {
    hide MethodOf;
  }

  lemma OneMoreSent(sent: seq<Sent>, s: Sent)
    requires ProbedFirst(sent)
    requires if s.confirmed then s.sensor == E2e.V1_1 else MethodOf(s.frame) == Some(GET_DEVICE_INFO)
    ensures ProbedFirst(sent + [s])
  {
    hide MethodOf;
  }

  // ---- the answer

  /** The wire is idle and its last exchange asked `frame` and was answered by `answer`. */
  ghost predicate LastExchange(w: Wire, frame: seq<byte>, answer: seq<byte>) {
    && w.Idle() && w.asked != [] && w.asked[|w.asked| - 1] == frame
    && w.replies != [] && w.replies[|w.replies| - 1] == Reply(|w.asked| - 1, answer)
  }

  lemma IdleAfter(w: Wire, frame: seq<byte>, answer: seq<byte>)
    requires LastExchange(w, frame, answer)
    ensures w.Idle()
  {
  }

  /** The answer consists of a header that matches the request and the body it declares. */
  ghost predicate IsAnswer(answer: seq<byte>, header: seq<byte>, body: seq<byte>, methodId: nat, session: nat, probe: bool) {
    && answer == header + body && |header| == HEADER_SIZE && body != []
    && Deserialize(header).Some? && AnswersRequest(Deserialize(header).value, methodId, session, probe)
    && |body| == Deserialize(header).value.length - 8
  }

  /** What makes an answer the wrong one, by the bytes of its header. */
  predicate Mismatches(header: seq<byte>, methodId: nat, session: nat, probe: bool)
    requires |header| == 16
  {
    var length := Quad(header[4], header[5], header[6], header[7]);
    || Pair(header[0], header[1]) != 0x6000 || Pair(header[2], header[3]) != methodId
    || Pair(header[8], header[9]) != 1 || Pair(header[10], header[11]) != session
    || header[12] != 1 || header[13] != 1 || (header[14] != 0x80 && header[14] != 0x81)
    || length < (if probe then 9 else 28) || length > 4194304 + 8
  }

  lemma MismatchIff(header: seq<byte>, methodId: nat, session: nat, probe: bool)
    requires |header| == 16
    ensures Deserialize(header).Some?
    ensures AnswersRequest(Deserialize(header).value, methodId, session, probe)
       <==> !Mismatches(header, methodId, session, probe)
  {
    hide Deserialize;
    HeaderWrittenOut(header);
  }

  /** A good answer to a request is no mismatch. */
  lemma GoodMatches(generation: E2e.Generation, frame: seq<byte>, r: seq<byte>, methodId: nat, session: nat, probe: bool)
    requires IsRequest(frame, methodId, session) && GoodAnswer(generation, frame, r)
    requires probe || generation == E2e.V1_1
    ensures generation != E2e.Unknown ==> !Mismatches(r[..16], methodId, session, probe)
  {
    hide FromBe;
    BigEndian(r[4..8]);
    assert r[0..4][0] == r[0] && r[0..4][1] == r[1] && r[0..4][2] == r[2] && r[0..4][3] == r[3];
    assert r[8..12][0] == r[8] && r[8..12][1] == r[9] && r[8..12][2] == r[10] && r[8..12][3] == r[11];
    assert frame[0..4][0] == frame[0] && frame[0..4][1] == frame[1] && frame[0..4][2] == frame[2];
    assert frame[0..4][3] == frame[3] && frame[8..12][0] == frame[8] && frame[8..12][1] == frame[9];
    assert frame[8..12][2] == frame[10] && frame[8..12][3] == frame[11];
  }

  /** The header an obliging connection delivers. */
  lemma ObligedHeader(conn: Connection, w0: Wire, frame: seq<byte>, header: seq<byte>, methodId: nat, session: nat, probe: bool)
    requires conn.obliging && conn.generation != E2e.Unknown && (probe || conn.generation == E2e.V1_1)
    requires IsRequest(frame, methodId, session) && |header| == 16
    requires Exchanging(conn.generation, w0, frame, conn.wire, header) && Obliged(conn, w0, frame, conn.wire, header)
    ensures !Mismatches(header, methodId, session, probe)
  {
    hide GoodAnswer, HonestReply, Mismatches;
    assert (header + conn.wire.unread)[..16] == header;
    GoodMatches(conn.generation, frame, header + conn.wire.unread, methodId, session, probe);
  }

  lemma ObligedWhole(conn: Connection, w0: Wire, frame: seq<byte>, answer: seq<byte>)
    requires conn.obliging && answer != [] && conn.wire.unread == []
    requires Exchanging(conn.generation, w0, frame, conn.wire, answer) && Obliged(conn, w0, frame, conn.wire, answer)
    ensures GoodAnswer(conn.generation, frame, answer)
  {
    hide GoodAnswer, HonestReply;
    assert answer + [] == answer;
  }

  lemma AnswerParts(answer: seq<byte>, header: seq<byte>, body: seq<byte>, methodId: nat, session: nat, probe: bool)
    requires IsAnswer(answer, header, body, methodId, session, probe)
    ensures |header| == 16 && body != []
  {
  }

  lemma GoodBody(generation: E2e.Generation, frame: seq<byte>, header: seq<byte>, body: seq<byte>)
    requires GoodAnswer(generation, frame, header + body) && |header| == 16
    ensures generation == E2e.V1_1 ==> |body| >= 20
    ensures body != [] && (generation == E2e.V1_0 ==> body[0] == OPEN_BRACE)
  {
    hide FromBe;
    assert (header + body)[16] == body[0];
  }

  lemma LengthAllows(h: Header, methodId: nat, session: nat, probe: bool)
    requires AnswersRequest(h, methodId, session, probe)
    ensures h.length >= 9
  {
  }

  lemma HeaderFields(buf: seq<byte>)
    requires |buf| >= HEADER_SIZE
    ensures Deserialize(buf).Some? && Deserialize(buf).value.length == FromBe(buf[4..8])
  {
  }

  lemma FirstBodyByte(generation: E2e.Generation, header: seq<byte>, body: seq<byte>)
    requires HonestReply(generation, header + body) && |header| == HEADER_SIZE && body != []
    ensures generation == E2e.V1_0 ==> body[0] == OPEN_BRACE
    ensures generation == E2e.V1_1 ==> body[0] != OPEN_BRACE
  {
    assert (header + body)[16] == body[0];
  }

  // ---- what a probe answer means to either client

  /** C++: a JSON body, else a body with an E2E header, else a protocol error. */
  function CppProbe(body: seq<byte>): Option<E2e.Generation>
    requires body != []
  {
    if body[0] == OPEN_BRACE then Some(E2e.V1_0)
    else if |body| < E2e.E2E_HEADER_SIZE then None
    else Some(E2e.V1_1)
  }

  /** Python: a JSON body, else v1.1.0. */
  function PythonProbe(body: seq<byte>): E2e.Generation
    requires body != []
  {
    if body[0] == OPEN_BRACE then E2e.V1_0 else E2e.V1_1
  }

  /** The two clients conclude the same from an answer, unless it is neither
      JSON nor long enough for an E2E header. */
  lemma ProbesAgree(body: seq<byte>)
    requires body != []
    ensures CppProbe(body) == Some(PythonProbe(body)) <==> body[0] == 0x7B || |body| >= 20
    ensures CppProbe(body) == None || CppProbe(body) == Some(PythonProbe(body))
    ensures PythonProbe(body) == if body[0] == 0x7B then E2e.V1_0 else E2e.V1_1
  {
  }

  // ---- the code

  /** Receive exactly n bytes of the answer to `frame`. */
  method RecvExact(conn: Connection, n: nat, ghost w0: Wire, ghost frame: seq<byte>, ghost before: seq<byte>)
    returns (r: TcpResult, data: seq<byte>)
    requires w0.Idle() && Exchanging(conn.generation, w0, frame, conn.wire, before)
    requires Obliged(conn, w0, frame, conn.wire, before)
    modifies conn
    ensures r in {Ok, Transport, Timeout} && (r != Ok ==> |data| < n)
    ensures r == Ok ==> |data| == n && Exchanging(conn.generation, w0, frame, conn.wire, before + data)
    ensures r == Ok ==> Obliged(conn, w0, frame, conn.wire, before + data)
    ensures conn.obliging && Enough(conn.generation, frame, before, n) ==> r == Ok
  {
    hide Exchanging, Obliged, Enough, SensorMoves, SensorObliges, Wire.Idle, Wire.Due;
    data := [];
    assert before + [] == before;
    while |data| < n
      invariant |data| <= n && Exchanging(conn.generation, w0, frame, conn.wire, before + data)
      invariant Obliged(conn, w0, frame, conn.wire, before + data)
      decreases n - |data|
    {
      ghost var was, got := conn.wire, before + data;
      if conn.obliging && Enough(conn.generation, frame, before, n) {
        MoreToCome(conn, w0, frame, was, before, data, n);
      }
      var outcome, part := conn.Recv(n - |data|);
      ghost var w :| SensorMoves(conn.generation, was, w) && Delivers(w, n - |data|, outcome, part, conn.wire)
                     && (conn.obliging ==> SensorObliges(conn.generation, was, w));
      ExchangeContinues(conn.generation, w0, frame, was, got, w);
      ObligedContinues(conn, w0, frame, was, got, w);
      if outcome == TimedOut { return Timeout, data; }
      if outcome == Lost { return Transport, data; }
      ExchangeReads(conn.generation, w0, frame, w, got, |part|);
      ObligedReads(conn, w0, frame, w, got, |part|);
      assert got + part == before + (data + part);
      data := data + part;
    }
    r := Ok;
  }

  /** Send a request on an idle connection and read its answer. On success the
      answer is the one to this very request, and the connection is idle again;
      a complete header that does not match gives Protocol; an obliging
      connection succeeds. */
  method RoundTrip(conn: Connection, frame: seq<byte>, methodId: nat, session: nat, probe: bool)
    returns (r: TcpResult, header: seq<byte>, body: seq<byte>)
    requires conn.wire.Idle()
    modifies conn
    ensures r in {Ok, Transport, Timeout, Protocol} && |header| <= 16
    ensures r == Ok ==> LastExchange(conn.wire, frame, header + body) && HonestReply(conn.generation, header + body)
    ensures r == Ok ==> IsAnswer(header + body, header, body, methodId, session, probe)
    ensures |header| < 16 ==> r == Transport || r == Timeout
    ensures |header| == 16 ==> (r == Protocol <==> Mismatches(header, methodId, session, probe))
    ensures conn.obliging && IsRequest(frame, methodId, session) && conn.generation != E2e.Unknown
            && (probe || conn.generation == E2e.V1_1)
            ==> r == Ok && GoodAnswer(conn.generation, frame, header + body)
  {
    hide Deserialize, HonestReply, GoodAnswer, Exchanging, Obliged, Enough, Mismatches, AnswersRequest;
    header, body := [], [];
    ghost var w0 := conn.wire;
    ghost var willing := conn.obliging && IsRequest(frame, methodId, session) && conn.generation != E2e.Unknown
                         && (probe || conn.generation == E2e.V1_1);
    ExchangeStarts(conn.generation, w0, frame);
    ObligedAtFirst(conn, w0, frame);
    var delivered := conn.Send(frame);
    if !delivered { return Transport, header, body; }
    if willing { HeaderIsEnough(conn.generation, frame); }
    r, header := RecvExact(conn, HEADER_SIZE, w0, frame, []);
    if r != Ok { return; }
    assert [] + header == header;
    HeaderFields(header);
    MismatchIff(header, methodId, session, probe);
    var h := Deserialize(header).value;
    if willing { ObligedHeader(conn, w0, frame, header, methodId, session, probe); }
    if !AnswersRequest(h, methodId, session, probe) { return Protocol, header, body; }
    LengthAllows(h, methodId, session, probe);
    if willing { BodyIsEnough(conn.generation, frame, header); }
    r, body := RecvExact(conn, h.length - 8, w0, frame, header);
    if r != Ok { return; }
    assert (header + body)[4..8] == header[4..8];
    ExchangeEnds(conn.generation, w0, frame, conn.wire, header + body);
    if willing { ObligedWhole(conn, w0, frame, header + body); }
  }
}
