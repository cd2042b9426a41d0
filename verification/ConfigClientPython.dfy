/** The Python Config API client (python/src/afi_sdk/someip.py). The same
    protocol as the C++ client, with other bookkeeping: every connect forgets
    the generation, a failed connect does not arm the reconnect, and a short
    probe answer without a JSON brace already counts as v1.1.0. */
module ConfigClientPython {
  import opened Bytes
  import opened ConfigLink
  import opened ConfigExchange
  import E2e

  datatype Result = Answer(rc: byte, body: seq<byte>) | NotSupported | Failed(error: TcpResult)

  class Client {
    const network: Network
    var conn: Connection?
    var reconnect: bool
    var session: nat
    var e2eCounter: nat
    var generation: E2e.Generation
    var responseOk: bool
    ghost var confirmed: bool
    ghost var sent: seq<Sent>
    ghost var header: seq<byte>
    ghost var answer: seq<byte>

    ghost predicate Valid()
      reads this, conn
    {
      && session < 0x1_0000 && ProbedFirst(sent)
      && (conn != null ==> conn.wire.Idle() && confirmed && conn.generation == E2e.V1_1 && generation == E2e.V1_1)
      && (conn != null ==> conn.obliging == network.obliging)
    }

    constructor (n: Network)
      ensures Valid() && sent == [] && conn == null && !reconnect && generation == E2e.Unknown
    {
      network := n;
      conn, reconnect, session, e2eCounter, generation, responseOk := null, false, 0, 0, E2e.Unknown, false;
      confirmed, sent, header, answer := false, [], [], [];
    }

    /** connect; `dialled` when the TCP connection came up. */
    method Connect() returns (ok: bool, ghost dialled: bool)
      requires Valid()
      modifies this
      ensures Valid() && old(sent) <= sent && LegacySawOnlyProbes(sent)
      ensures conn != null ==> fresh(conn)
      ensures network.obliging ==> ok
      ensures !ok ==> conn == null && generation == E2e.Unknown
      ensures ok ==> generation != E2e.Unknown && (conn == null <==> generation == E2e.V1_0)
      ensures reconnect == (old(reconnect) || dialled) && (ok ==> dialled) && (!dialled ==> sent == old(sent))
    {
      hide ProbedFirst, LegacySawOnlyProbes;
      LegacySeesOnlyProbes(sent);
      Drop();
      generation := E2e.Unknown;
      var c := network.Dial();
      if c == null { return false, false; }
      conn := c;
      confirmed := false;
      session := 0;
      reconnect := true;
      dialled := true;
      ghost var got;
      ok, got := Probe();
      LegacySeesOnlyProbes(sent);
    }

    /** _probe. */
    method Probe() returns (ok: bool, ghost got: Option<seq<byte>>)
      requires session < 0x1_0000 && ProbedFirst(sent)
      requires conn != null && conn.wire.Idle() && conn.generation != E2e.Unknown && !confirmed
      requires conn.obliging == network.obliging
      modifies this, conn
      ensures Valid() && reconnect == old(reconnect) && old(sent) <= sent
      ensures conn == null || conn == old(conn)
      ensures !ok ==> conn == null && generation == old(generation)
      ensures ok ==> generation == old(conn).generation && (conn == null <==> generation == E2e.V1_0)
      ensures network.obliging ==> ok
      ensures ok ==> LastExchange(old(conn).wire, RequestFrame(0x0010, session, e2eCounter, [0x7B, 0x7D]), answer)
      ensures ok <==> got.Some?
      ensures got.Some? ==> got.value != [] && generation == PythonProbe(got.value)
      ensures got.Some? ==> IsAnswer(answer, header, got.value, GET_DEVICE_INFO, session, true)
    {
      hide ProbedFirst, IsAnswer, HonestReply, RequestFrame, Mismatches;
      var r, head, body := Exchange(GET_DEVICE_INFO, EMPTY_JSON, true);
      if r != Ok { return false, None; }
      if body[0] == OPEN_BRACE {
        generation := E2e.V1_0;
        Drop();
        return true, Some(body);
      }
      generation := E2e.V1_1;
      confirmed := true;
      return true, Some(body);
    }

    /** close. */
    method Close()
      requires Valid()
      modifies this
      ensures Valid() && conn == null && !reconnect && sent == old(sent) && generation == old(generation)
    {
      reconnect := false;
      Drop();
    }

    /** _drop. */
    method Drop()
      modifies `conn
      ensures conn == null
    {
      conn := null;
    }

    /** _exchange. Whether a body is JSON is left open (`isJson`); a body that is
        not keeps the connection, whose answer has been read in full. */
    method Request(methodId: nat, payload: seq<byte>, isJson: bool) returns (r: Result)
      requires Valid() && methodId < 0x1_0000
      modifies this, conn
      ensures Valid() && old(sent) <= sent && LegacySawOnlyProbes(sent)
      ensures old(generation) == E2e.V1_0 ==> r == NotSupported && sent == old(sent)
      ensures old(generation) != E2e.V1_0 && |payload| > 16384 ==> r == Failed(TooLarge) && sent == old(sent)
      ensures old(conn) == null && !old(reconnect) ==> sent == old(sent)
      ensures r == NotSupported ==> generation == E2e.V1_0 && conn == null
      ensures r.Failed? && r.error in {Transport, Timeout} ==> conn == null
      ensures r.Answer? ==> conn != null && |payload| <= 16384
      ensures network.obliging && old(generation) != E2e.V1_0 && |payload| <= 16384 ==>
                var answered := if isJson then r.Answer? else r == Failed(Protocol);
                if old(conn) != null then answered
                else if old(reconnect) then answered || (r == NotSupported && generation == E2e.V1_0)
                else r == Failed(Transport)
      ensures r.Answer? ==> LastExchange(conn.wire, RequestFrame(methodId, session, e2eCounter, payload), answer)
      ensures r.Answer? ==> exists whole :: IsAnswer(answer, header, whole, methodId, session, false)
                                            && r.rc == header[15] && |whole| >= 20 && r.body == whole[20..]
                                            && responseOk == E2e.ResponseOk(whole, DataId(methodId))
    {
      hide ProbedFirst, HonestReply, RequestFrame, LastExchange, Mismatches, E2e.ResponseOk, LegacySawOnlyProbes;
      LegacySeesOnlyProbes(sent);
      responseOk := false;
      if generation == E2e.V1_0 { return NotSupported; }
      if |payload| > MAX_REQUEST_BODY { return Failed(TooLarge); }
      if conn == null {
        if !reconnect { return Failed(Transport); }
        var connected, dialled := Connect();
        if !connected { return Failed(Transport); }
        if generation == E2e.V1_0 { return NotSupported; }
      }
      var code, head, whole := Exchange(methodId, payload, false);
      LegacySeesOnlyProbes(sent);
      if code != Ok { return Failed(code); }
      IdleAfter(conn.wire, RequestFrame(methodId, session, e2eCounter, payload), answer);
      responseOk := E2e.ResponseOk(whole, DataId(methodId));
      if !isJson { return Failed(Protocol); }
      return Answer(head[15], whole[20..]);
    }

    /** _roundtrip. */
    method Exchange(methodId: nat, payload: seq<byte>, probe: bool) returns (r: TcpResult, head: seq<byte>, whole: seq<byte>)
      requires session < 0x1_0000 && ProbedFirst(sent)
      requires conn != null && conn.wire.Idle() && methodId < 0x1_0000 && |payload| <= MAX_REQUEST_BODY
      requires if confirmed then conn.generation == E2e.V1_1 else methodId == GET_DEVICE_INFO
      modifies this, conn
      ensures session < 0x1_0000 && ProbedFirst(sent) && old(sent) <= sent
      ensures reconnect == old(reconnect) && generation == old(generation) && confirmed == old(confirmed)
      ensures r == Ok || (r in {Transport, Timeout, Protocol} && conn == null)
      ensures r == Ok ==> conn == old(conn) && header == head
      ensures r == Ok ==> LastExchange(conn.wire, RequestFrame(methodId, session, e2eCounter, payload), answer)
      ensures r == Ok ==> IsAnswer(answer, head, whole, methodId, session, probe) && whole != []
      ensures r == Ok && conn.generation == E2e.V1_0 ==> whole[0] == OPEN_BRACE
      ensures r == Ok && conn.generation == E2e.V1_1 ==> whole[0] != OPEN_BRACE
      ensures |header| <= 16 && (|header| < 16 ==> r == Transport || r == Timeout)
      ensures |header| == 16 && Mismatches(header, methodId, session, probe) ==> r == Protocol && conn == null
      ensures old(conn).obliging && old(conn).generation != E2e.Unknown && (probe || old(conn).generation == E2e.V1_1)
              ==> r == Ok
    {
      hide RequestFrame, MethodOf, HonestReply, GoodAnswer, Mismatches, ProbedFirst, LastExchange, Pair, Quad, E2e.Parse, E2e.Crc32Of;
      session := session % 0xFFFF + 1;
      e2eCounter := (e2eCounter + 1) % 0x1_0000_0000;
      var frame := RequestFrame(methodId, session, e2eCounter, payload);
      MethodOfRequest(methodId, session, e2eCounter, payload);
      RequestWrittenOut(methodId, session, e2eCounter, payload);
      OneMoreSent(sent, Sent(conn.generation, confirmed, frame));
      sent := sent + [Sent(conn.generation, confirmed, frame)];
      r, head, whole := RoundTrip(conn, frame, methodId, session, probe);
      header := head;
      if r != Ok {
        Drop();
        return;
      }
      answer := head + whole;
      FirstBodyByte(conn.generation, head, whole);
    }
  }
}
