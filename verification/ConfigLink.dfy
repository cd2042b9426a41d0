/** The environment of the Config API client: TCP connections to sensors.

    A connection is a FIFO in each direction. The sensor answers a request at
    most once and answers in order; an answer may come late, be cut short, or
    never come. Every answer is one SOME/IP frame of at most the length it
    declares. A v1.0.x sensor's answers carry a JSON body, a v1.1.0 sensor's an
    E2E header whose first word is zero. */
module ConfigLink {
  import opened Bytes
  import E2e

  const OPEN_BRACE: byte := 0x7B

  /** An answer, and which request of the connection it belongs to. */
  datatype Reply = Reply(to: nat, bytes: seq<byte>)

  /** asked: the frames sent; replies: the answers the sensor has sent so far;
      unread: their bytes that the client has not received yet. */
  datatype Wire = Wire(asked: seq<seq<byte>>, replies: seq<Reply>, unread: seq<byte>) {
    /** No answer is outstanding and no byte is waiting. */
    predicate Idle() {
      unread == [] && if asked == [] then replies == [] else replies != [] && replies[|replies| - 1].to == |asked| - 1
    }

    /** The last request has not been answered; it has a complete header. */
    predicate Due() {
      asked != [] && |asked[|asked| - 1]| >= 16 && (replies == [] || replies[|replies| - 1].to < |asked| - 1)
    }
  }

  predicate HonestReply(generation: E2e.Generation, r: seq<byte>) {
    && (|r| >= 16 ==> |r| <= 8 + FromBe(r[4..8]))
    && (|r| > 16 && generation == E2e.V1_0 ==> r[16] == 0x7B)
    && (|r| > 16 && generation == E2e.V1_1 ==> r[16] == 0)
  }

  /** A whole, matching answer to a request: the same message, client and
      session ids, version 1, a response or an error, the length it declares,
      and a body that fits the sensor's generation. */
  predicate GoodAnswer(generation: E2e.Generation, q: seq<byte>, r: seq<byte>) {
    && |q| >= 16 && |r| >= 17 && |r| <= 16 + 4194304
    && r[0..4] == q[0..4] && r[8..12] == q[8..12]
    && r[12] == 1 && r[13] == 1 && (r[14] == 0x80 || r[14] == 0x81)
    && FromBe(r[4..8]) == |r| - 8
    && (generation == E2e.V1_0 ==> r[16] == 0x7B)
    && (generation == E2e.V1_1 ==> r[16] == 0 && |r| >= 36)
  }

  lemma GoodIsNotEmpty(generation: E2e.Generation, q: seq<byte>, r: seq<byte>)
    requires GoodAnswer(generation, q, r)
    ensures |r| >= 17
  {
  }

  lemma GoodIsHonest(generation: E2e.Generation, q: seq<byte>, r: seq<byte>)
    requires GoodAnswer(generation, q, r)
    ensures HonestReply(generation, r)
  {
    hide FromBe;
  }

  /** Every request has such an answer. */
  lemma SomeGoodAnswer(generation: E2e.Generation, q: seq<byte>) returns (r: seq<byte>)
    requires |q| >= 16
    ensures GoodAnswer(generation, q, r)
  {
    hide FromBe, ToBe;
    var first: byte := if generation == E2e.V1_0 then OPEN_BRACE else 0;
    var body := [first] + seq(19, _ => 0);
    assert Capacity(2) == 0x1_0000 && Capacity(4) == 0x1_0000_0000;
    BeFieldOfWord(4, 28);
    var echoed: seq<byte> := q[0..4] + ToBe(4, 28) + q[8..12] + [1, 1, 0x80, 0];
    r := echoed + body;
    assert r[0..4] == q[0..4] && r[4..8] == ToBe(4, 28) && r[8..12] == q[8..12] && r[16] == first;
  }

  /** The sensor answers one of the requests after the last answered one. */
  predicate MayAnswer(generation: E2e.Generation, w: Wire, r: Reply) {
    && r.to < |w.asked| && (w.replies == [] || r.to > w.replies[|w.replies| - 1].to)
    && HonestReply(generation, r.bytes)
  }

  function Answered(w: Wire, r: Reply): Wire {
    w.(replies := w.replies + [r], unread := w.unread + r.bytes)
  }

  ghost predicate SensorMoves(generation: E2e.Generation, w: Wire, w': Wire) {
    w' == w || exists r :: MayAnswer(generation, w, r) && w' == Answered(w, r)
  }

  /** An obliging sensor answers the last request, whole and matching. */
  ghost predicate SensorObliges(generation: E2e.Generation, w: Wire, w': Wire) {
    w' == w || (w.asked != [] && w'.replies != []
                && GoodAnswer(generation, w.asked[|w.asked| - 1], w'.replies[|w'.replies| - 1].bytes))
  }

  /** Between sending request q on an idle wire w0 and the end of its exchange:
      the only bytes that can arrive are those of its own answer, and `got` is
      what has been received of them. */
  ghost predicate Exchanging(generation: E2e.Generation, w0: Wire, q: seq<byte>, w: Wire, got: seq<byte>) {
    && w.asked == w0.asked + [q]
    && if w.replies == w0.replies then got == [] && w.unread == []
       else
         && |w.replies| == |w0.replies| + 1
         && w.replies == w0.replies + [Reply(|w0.asked|, got + w.unread)]
         && HonestReply(generation, got + w.unread)
  }

  lemma ExchangeStarts(generation: E2e.Generation, w0: Wire, q: seq<byte>)
    requires w0.Idle()
    ensures Exchanging(generation, w0, q, w0.(asked := w0.asked + [q]), [])
  {
  }

  /** Whatever the sensor does, it does not disturb the exchange. */
  lemma ExchangeContinues(generation: E2e.Generation, w0: Wire, q: seq<byte>, w: Wire, got: seq<byte>, w': Wire)
    requires w0.Idle() && Exchanging(generation, w0, q, w, got) && SensorMoves(generation, w, w')
    ensures Exchanging(generation, w0, q, w', got)
  {
    if w' != w {
      var r :| MayAnswer(generation, w, r) && w' == Answered(w, r);
      assert w.replies == w0.replies;
      assert w0.asked != [] ==> w0.replies != [];
      assert r.to == |w0.asked|;
      assert got + w'.unread == r.bytes;
    }
  }

  /** On an obliging connection whatever has come so far belongs to a whole,
      matching answer. */
  ghost predicate Obliged(c: Connection, w0: Wire, q: seq<byte>, w: Wire, got: seq<byte>) {
    c.obliging ==> w.replies == w0.replies || GoodAnswer(c.generation, q, got + w.unread)
  }

  lemma ObligedAtFirst(c: Connection, w0: Wire, q: seq<byte>)
    ensures Obliged(c, w0, q, w0.(asked := w0.asked + [q]), [])
  {
    hide GoodAnswer;
  }

  lemma ObligedContinues(c: Connection, w0: Wire, q: seq<byte>, w: Wire, got: seq<byte>, w': Wire)
    requires Exchanging(c.generation, w0, q, w, got) && Exchanging(c.generation, w0, q, w', got)
    requires Obliged(c, w0, q, w, got) && (c.obliging ==> SensorObliges(c.generation, w, w'))
    ensures Obliged(c, w0, q, w', got)
  {
    hide GoodAnswer, HonestReply;
  }

  lemma ObligedReads(c: Connection, w0: Wire, q: seq<byte>, w: Wire, got: seq<byte>, n: nat)
    requires Obliged(c, w0, q, w, got) && n <= |w.unread|
    ensures Obliged(c, w0, q, w.(unread := w.unread[n..]), got + w.unread[..n])
  {
    hide GoodAnswer;
    assert got + w.unread == (got + w.unread[..n]) + w.unread[n..];
  }

  /** Every answer that begins so has at least n bytes more. */
  ghost predicate Enough(generation: E2e.Generation, q: seq<byte>, before: seq<byte>, n: nat) {
    |q| >= 16 && forall r :: GoodAnswer(generation, q, r) && before <= r ==> |r| >= |before| + n
  }

  /** While bytes are missing, an obliging connection has some to give. */
  lemma MoreToCome(c: Connection, w0: Wire, q: seq<byte>, w: Wire, before: seq<byte>, data: seq<byte>, n: nat)
    requires c.obliging && w0.Idle() && Exchanging(c.generation, w0, q, w, before + data)
    requires Obliged(c, w0, q, w, before + data) && Enough(c.generation, q, before, n) && |data| < n
    ensures w.unread != [] || w.Due()
  {
    hide GoodAnswer, HonestReply;
    if w.replies != w0.replies {
      assert before <= before + data + w.unread;
    }
  }

  lemma HeaderIsEnough(generation: E2e.Generation, q: seq<byte>)
    requires |q| >= 16
    ensures Enough(generation, q, [], 16)
  {
    hide FromBe;
  }

  lemma BodyIsEnough(generation: E2e.Generation, q: seq<byte>, header: seq<byte>)
    requires |q| >= 16 && |header| == 16 && FromBe(header[4..8]) >= 8
    ensures Enough(generation, q, header, FromBe(header[4..8]) - 8)
  {
    hide FromBe;
    forall r | GoodAnswer(generation, q, r) && header <= r ensures |r| == 8 + FromBe(header[4..8]) {
      assert r[4..8] == header[4..8];
    }
  }

  lemma ExchangeReads(generation: E2e.Generation, w0: Wire, q: seq<byte>, w: Wire, got: seq<byte>, n: nat)
    requires Exchanging(generation, w0, q, w, got) && 0 < n <= |w.unread|
    ensures Exchanging(generation, w0, q, w.(unread := w.unread[n..]), got + w.unread[..n])
  {
    assert got + w.unread == (got + w.unread[..n]) + w.unread[n..];
  }

  /** A frame received in full is the answer to the request, and nothing is
      left behind: the wire is idle again. */
  lemma ExchangeEnds(generation: E2e.Generation, w0: Wire, q: seq<byte>, w: Wire, got: seq<byte>)
    requires w0.Idle() && Exchanging(generation, w0, q, w, got)
    requires |got| >= 16 && |got| == 8 + FromBe(got[4..8])
    ensures w.Idle() && w.asked == w0.asked + [q] && |w.replies| == |w0.replies| + 1
    ensures HonestReply(generation, got)
    ensures w.replies[|w0.replies|] == Reply(|w.asked| - 1, got)
  {
    assert (got + w.unread)[4..8] == got[4..8];
    assert w.unread == [];
    assert got + [] == got;
  }

  datatype Outcome = Received | TimedOut | Lost

  /** What a recv of n bytes may do to the wire. */
  predicate Delivers(w: Wire, n: nat, outcome: Outcome, data: seq<byte>, w': Wire) {
    if outcome == Received then
      0 < |data| <= n && |data| <= |w.unread| && data == w.unread[..|data|] && w' == w.(unread := w.unread[|data|..])
    else w' == w && data == []
  }

  /** One TCP connection. */
  class Connection {
    const generation: E2e.Generation
    /** Nothing is lost or late, and every request is answered in full. */
    const obliging: bool
    var wire: Wire

    constructor (g: E2e.Generation, o: bool)
      ensures generation == g && obliging == o && wire == Wire([], [], [])
    {
      generation, obliging, wire := g, o, Wire([], [], []);
    }

    /** send, all of the frame or an error; after an error the sensor may or
        may not have received the frame. */
    method Send(frame: seq<byte>) returns (ok: bool)
      modifies this
      ensures ok ==> wire == old(wire).(asked := old(wire).asked + [frame])
      ensures obliging ==> ok
      ensures !ok ==> wire == old(wire) || wire == old(wire).(asked := old(wire).asked + [frame])
    {
      var arrives: bool := *;
      if obliging { arrives := true; }
      if arrives { wire := wire.(asked := wire.asked + [frame]); }
      var reported: bool := *;
      ok := arrives && (reported || obliging);
    }

    /** recv: the sensor may answer meanwhile; then some of what is unread, or
        nothing before the timeout, or the end of the connection. */
    method Recv(n: nat) returns (outcome: Outcome, data: seq<byte>)
      requires n > 0
      modifies this
      ensures exists w :: SensorMoves(generation, old(wire), w) && Delivers(w, n, outcome, data, wire)
                          && (obliging ==> SensorObliges(generation, old(wire), w))
      ensures obliging && (old(wire).unread != [] || old(wire).Due()) ==> outcome == Received
    {
      if obliging {
        outcome, data := RecvObliged(n);
        return;
      }
      data := [];
      var answers: bool := *;
      if answers && wire.asked != [] && (wire.replies == [] || wire.replies[|wire.replies| - 1].to < |wire.asked| - 1) {
        var last := |wire.asked| - 1;
        assert MayAnswer(generation, wire, Reply(last, []));
        var r :| MayAnswer(generation, wire, r);
        wire := Answered(wire, r);
      }
      ghost var w := wire;
      assert SensorMoves(generation, old(wire), w);
      var delivers: bool := *;
      if delivers && wire.unread != [] {
        var k: nat :| 0 < k <= n && k <= |wire.unread|;
        data := wire.unread[..k];
        wire := wire.(unread := wire.unread[k..]);
        return Received, data;
      }
      var timedOut: bool := *;
      outcome := if timedOut then TimedOut else Lost;
    }

    /** recv on an obliging connection. */
    method RecvObliged(n: nat) returns (outcome: Outcome, data: seq<byte>)
      requires n > 0 && obliging
      modifies this
      ensures exists w :: SensorMoves(generation, old(wire), w) && Delivers(w, n, outcome, data, wire)
                          && SensorObliges(generation, old(wire), w)
      ensures old(wire).unread != [] || old(wire).Due() ==> outcome == Received
    {
      hide HonestReply, GoodAnswer;
      data := [];
      if wire.unread == [] && wire.Due() {
        var last := |wire.asked| - 1;
        ghost var example := SomeGoodAnswer(generation, wire.asked[last]);
        var bytes :| GoodAnswer(generation, wire.asked[last], bytes);
        GoodIsHonest(generation, wire.asked[last], bytes);
        GoodIsNotEmpty(generation, wire.asked[last], bytes);
        assert MayAnswer(generation, wire, Reply(last, bytes));
        wire := Answered(wire, Reply(last, bytes));
      }
      ghost var w := wire;
      assert SensorMoves(generation, old(wire), w);
      assert SensorObliges(generation, old(wire), w);
      if wire.unread == [] { return Lost, data; }
      var k: nat :| 0 < k <= n && k <= |wire.unread|;
      data := wire.unread[..k];
      wire := wire.(unread := wire.unread[k..]);
      outcome := Received;
    }
  }

  /** The network: a connection attempt fails or reaches some sensor. */
  class Network {
    const obliging: bool

    constructor (o: bool)
      ensures obliging == o
    {
      obliging := o;
    }

    method Dial() returns (c: Connection?)
      ensures c != null ==> fresh(c) && c.wire == Wire([], [], []) && c.generation != E2e.Unknown
      ensures c != null ==> c.obliging == obliging
      ensures obliging ==> c != null
    {
      var reachable: bool := *;
      var legacy: bool := *;
      c := null;
      if reachable || obliging {
        c := new Connection(if legacy then E2e.V1_0 else E2e.V1_1, obliging);
      }
    }
  }
}
