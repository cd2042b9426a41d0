/** The C++ Config API client (src/transport/tcp_client.cpp). */
module ConfigClient {
  import opened Bytes
  import opened ConfigLink
  import opened ConfigExchange
  import Crc
  import E2e

  class TcpClient {
    const network: Network
    const table: array<bv64>
    var conn: Connection?
    var reconnect: bool
    var lastE2eOk: bool
    var session: nat
    var e2eCounter: nat
    var generation: E2e.Generation
    /** The connection's probe has been answered as v1.1.0. */
    ghost var confirmed: bool
    /** Every frame written so far, on any connection. */
    ghost var sent: seq<Sent>
    /** The answer of the last successful exchange. */
    ghost var header: seq<byte>
    ghost var answer: seq<byte>

    /** Between calls an open connection is idle, and its sensor has answered
        its probe as v1.1.0. */
    ghost predicate Valid()
      reads this, conn, table
    {
      && Crc.IsTable(table[..]) && session < 0x1_0000 && ProbedFirst(sent)
      && (conn != null ==> conn.wire.Idle() && confirmed && conn.generation == E2e.V1_1 && generation == E2e.V1_1)
      && (conn != null ==> conn.obliging == network.obliging)
    }

    constructor (n: Network, t: array<bv64>)
      requires Crc.IsTable(t[..])
      ensures Valid() && sent == [] && conn == null && !reconnect && generation == E2e.Unknown
    {
      network, table := n, t;
      conn, reconnect, lastE2eOk, session, e2eCounter, generation := null, false, false, 0, 0, E2e.Unknown;
      confirmed, sent, header, answer := false, [], [], [];
    }

    method Connect() returns (r: TcpResult)
      requires Valid()
      modifies this
      ensures Valid() && reconnect && old(sent) <= sent && LegacySawOnlyProbes(sent)
      ensures r != Ok ==> conn == null
      ensures r == Ok ==> generation != E2e.Unknown && (conn == null <==> generation == E2e.V1_0)
      ensures network.obliging ==> r == Ok
    {
      hide ProbedFirst, Crc.IsTable, LegacySawOnlyProbes;
      reconnect := true;
      generation := E2e.Unknown;
      ghost var got;
      r, got := ConnectLocked();
      ValidIsProbedFirst();
      LegacySeesOnlyProbes(sent);
    }

    /** Also forgets the endpoint: later requests fail until Connect. */
    method Disconnect()
      requires Valid()
      modifies this
      ensures Valid() && conn == null && !reconnect && sent == old(sent) && generation == old(generation)
    {
      reconnect := false;
      CloseLocked();
    }

    lemma ValidIsProbedFirst()
      requires Valid()
      ensures ProbedFirst(sent)
    {
      hide ProbedFirst;
    }

    method CloseLocked()
      modifies `conn
      ensures conn == null
    {
      conn := null;
    }

    /** Every connection starts with a probe. */
    method ConnectLocked() returns (r: TcpResult, ghost got: Option<seq<byte>>)
      requires Crc.IsTable(table[..]) && session < 0x1_0000 && ProbedFirst(sent)
      modifies this
      ensures Valid() && reconnect == old(reconnect) && old(sent) <= sent
      ensures conn != null ==> fresh(conn)
      ensures r != Ok ==> conn == null && generation == old(generation)
      ensures r == Ok ==> generation != E2e.Unknown && (conn == null <==> generation == E2e.V1_0)
      ensures network.obliging ==> r == Ok
    {
      hide ProbedFirst, Crc.IsTable;
      CloseLocked();
      var c := network.Dial();
      if c == null { return Transport, None; }
      conn := c;
      confirmed := false;
      session := 0;
      r, got := ProbeLocked();
    }

    /** The probe finds the generation the sensor really has. `got` is the
        body of its answer, if a complete one arrived. */
    method ProbeLocked() returns (r: TcpResult, ghost got: Option<seq<byte>>)
      requires Crc.IsTable(table[..]) && session < 0x1_0000 && ProbedFirst(sent)
      requires conn != null && conn.wire.Idle() && conn.generation != E2e.Unknown && !confirmed
      requires conn.obliging == network.obliging
      modifies this, conn
      ensures Valid() && reconnect == old(reconnect) && old(sent) <= sent
      ensures conn == null || conn == old(conn)
      ensures r != Ok ==> conn == null && generation == old(generation)
      ensures r == Ok ==> generation == old(conn).generation && (conn == null <==> generation == E2e.V1_0)
      ensures network.obliging ==> r == Ok
      ensures r == Ok ==> LastExchange(old(conn).wire, RequestFrame(0x0010, session, e2eCounter, [0x7B, 0x7D]), answer)
      ensures r == Ok ==> got.Some?
      ensures got.Some? ==> got.value != [] && CppProbe(got.value) == if r == Ok then Some(generation) else None
      ensures got.Some? && r != Ok ==> r == Protocol
      ensures got.Some? ==> IsAnswer(answer, header, got.value, GET_DEVICE_INFO, session, true)
    {
      hide ProbedFirst, Crc.IsTable, IsAnswer, HonestReply, E2e.Verdict, RequestFrame, LastExchange;
      var rc, body, legacy;
      r, rc, body, legacy, got := ExchangeLocked(GET_DEVICE_INFO, EMPTY_JSON, true);
      if r != Ok { return; }
      IdleAfter(conn.wire, RequestFrame(GET_DEVICE_INFO, session, e2eCounter, EMPTY_JSON), answer);
      if legacy {
        generation := E2e.V1_0;
        CloseLocked();
        return;
      }
      generation := E2e.V1_1;
      confirmed := true;
    }

    /** After a v1.0.x answer nothing is sent; kTcpOk means that the body is
        that of the sensor's answer to this very request. */
    method SendRequest(methodId: nat, payload: seq<byte>) returns (r: TcpResult, rc: byte, body: seq<byte>)
      requires Valid() && methodId < 0x1_0000
      modifies this, conn
      ensures Valid() && reconnect == old(reconnect) && old(sent) <= sent && LegacySawOnlyProbes(sent)
      ensures old(generation) == E2e.V1_0 ==> r == LegacySensor && sent == old(sent)
      ensures old(generation) != E2e.V1_0 && |payload| > 16384 ==> r == TooLarge && sent == old(sent)
      ensures old(conn) == null && !old(reconnect) ==> sent == old(sent)
      ensures r == LegacySensor ==> generation == E2e.V1_0 && conn == null
      ensures r in {Transport, Timeout, Protocol} ==> conn == null
      ensures r == Ok ==> conn != null && |payload| <= 16384
      ensures network.obliging && old(generation) != E2e.V1_0 && |payload| <= 16384 ==>
                if old(conn) != null then r == Ok
                else if old(reconnect) then r == Ok || (r == LegacySensor && generation == E2e.V1_0)
                else r == Transport
      ensures r == Ok ==> LastExchange(conn.wire, RequestFrame(methodId, session, e2eCounter, payload), answer)
      ensures r == Ok ==> exists whole :: IsAnswer(answer, header, whole, methodId, session, false)
                                          && rc == header[15] && |whole| >= 20 && body == whole[20..]
                                          && (lastE2eOk <==> E2e.Verdict(whole, DataId(methodId), true) == E2e.Pass)
    {
      hide ProbedFirst, Crc.IsTable, IsAnswer, HonestReply, RequestFrame, E2e.Verdict, LegacySawOnlyProbes;
      ValidIsProbedFirst();
      LegacySeesOnlyProbes(sent);
      lastE2eOk, rc, body := false, 0, [];
      if generation == E2e.V1_0 { return LegacySensor, rc, body; }
      if |payload| > MAX_REQUEST_BODY { return TooLarge, rc, body; }
      ghost var got;
      if conn == null {
        if !reconnect { return Transport, rc, body; }
        var c;
        c, got := ConnectLocked();
        ValidIsProbedFirst();
        LegacySeesOnlyProbes(sent);
        if c != Ok { return Transport, rc, body; }
        if generation == E2e.V1_0 { return LegacySensor, rc, body; }
      }
      var legacy;
      r, rc, body, legacy, got := ExchangeLocked(methodId, payload, false);
      LegacySeesOnlyProbes(sent);
    }

    /** Next session id and counter; the frame is recorded as written. */
    method PrepareRequest(methodId: nat, payload: seq<byte>) returns (frame: seq<byte>)
      requires ProbedFirst(sent) && session < 0x1_0000
      requires conn != null && methodId < 0x1_0000 && |payload| <= MAX_REQUEST_BODY
      requires if confirmed then conn.generation == E2e.V1_1 else methodId == GET_DEVICE_INFO
      modifies `session, `e2eCounter, `sent
      ensures session == (if old(session) == 0xFFFF then 1 else old(session) + 1)
      ensures e2eCounter == (old(e2eCounter) + 1) % 0x1_0000_0000
      ensures frame == RequestFrame(methodId, session, e2eCounter, payload) && IsRequest(frame, methodId, session)
      ensures ProbedFirst(sent) && sent == old(sent) + [Sent(conn.generation, confirmed, frame)]
    {
      hide RequestFrame, MethodOf, ProbedFirst, Pair, Quad, E2e.Parse, E2e.Crc32Of;
      session := (session + 1) % 0x1_0000;
      if session == 0 { session := 1; }
      e2eCounter := (e2eCounter + 1) % 0x1_0000_0000;
      frame := RequestFrame(methodId, session, e2eCounter, payload);
      MethodOfRequest(methodId, session, e2eCounter, payload);
      RequestWrittenOut(methodId, session, e2eCounter, payload);
      OneMoreSent(sent, Sent(conn.generation, confirmed, frame));
      sent := sent + [Sent(conn.generation, confirmed, frame)];
    }

    /** One request and its response on the open connection. Every failure
        closes the connection. */
    method ExchangeLocked(methodId: nat, payload: seq<byte>, probe: bool)
      returns (r: TcpResult, rc: byte, body: seq<byte>, legacy: bool, ghost got: Option<seq<byte>>)
      requires Crc.IsTable(table[..]) && session < 0x1_0000 && ProbedFirst(sent)
      requires conn != null && conn.wire.Idle() && methodId < 0x1_0000 && |payload| <= MAX_REQUEST_BODY
      requires if confirmed then conn.generation == E2e.V1_1 else methodId == GET_DEVICE_INFO
      modifies this, conn
      ensures session < 0x1_0000 && ProbedFirst(sent) && old(sent) <= sent
      ensures reconnect == old(reconnect) && generation == old(generation) && confirmed == old(confirmed)
      ensures r == Ok || (r in {Transport, Timeout, Protocol} && conn == null)
      ensures r == Ok ==> conn == old(conn)
      ensures r == Ok ==> LastExchange(conn.wire, RequestFrame(methodId, session, e2eCounter, payload), answer)
      ensures got.Some? ==> got.value != [] && r in {Ok, Protocol}
      ensures r == Ok ==> got.Some? && |header| == 16 && rc == header[15]
      ensures r == Ok ==> (legacy <==> probe && got.value[0] == OPEN_BRACE)
      ensures r == Ok && legacy ==> body == got.value
      ensures r == Ok && !legacy ==>
                && |got.value| >= 20 && body == got.value[20..]
                && lastE2eOk == (E2e.Verdict(got.value, DataId(methodId), true) == E2e.Pass)
      ensures r == Ok && probe ==> (conn.generation == E2e.V1_0 ==> legacy) && (conn.generation == E2e.V1_1 ==> !legacy)
      ensures legacy ==> probe
      ensures |header| <= 16 && (|header| < 16 ==> r == Transport || r == Timeout)
      ensures |header| == 16 && Mismatches(header, methodId, session, probe) ==> r == Protocol && conn == null
      ensures old(conn).obliging && old(conn).generation != E2e.Unknown && (probe || old(conn).generation == E2e.V1_1)
              ==> r == Ok
      ensures probe ==> (r == Ok <==> got.Some? && got.value != [] && CppProbe(got.value).Some?)
      ensures probe && r == Ok ==> CppProbe(got.value) == Some(if legacy then E2e.V1_0 else E2e.V1_1)
      ensures got.Some? ==> IsAnswer(answer, header, got.value, methodId, session, probe)
    {
      hide RequestFrame, HonestReply, GoodAnswer, IsAnswer, Mismatches, IsRequest, ProbedFirst, LastExchange, Crc.IsTable, E2e.Verdict, E2e.Parse;
      rc, body, legacy, got := 0, [], false, None;
      var frame := PrepareRequest(methodId, payload);
      var head, whole;
      r, head, whole := RoundTrip(conn, frame, methodId, session, probe);
      header := head;
      if r != Ok {
        CloseLocked();
        return;
      }
      AnswerParts(head + whole, head, whole, methodId, session, probe);
      rc := head[15];
      answer, got := head + whole, Some(whole);
      FirstBodyByte(conn.generation, head, whole);
      if conn.obliging && conn.generation != E2e.Unknown && (probe || conn.generation == E2e.V1_1) {
        GoodBody(conn.generation, frame, head, whole);
      }
      if probe && whole[0] == OPEN_BRACE {
        body, legacy := whole, true;
        return;
      }
      if |whole| < 20 {
        CloseLocked();
        return Protocol, rc, [], false, got;
      }
      var status, e2e := E2e.Validate(whole, DataId(methodId), true, table);
      lastE2eOk := status == E2e.Pass;
      body := whole[20..];
    }
  }
}
