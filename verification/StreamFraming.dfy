/** Framing of a TCP stream of SOME/IP messages
    (src/transport/tcp_stream_client.cpp). */
module StreamFraming {
  import opened Bytes
  import opened Someip

  const PREFIX := 8
  const INT_MAX := 0x7FFF_FFFF

  // ---- specification: a stream is frames one after the other

  /** The size that the SOME/IP Length field of a prefix declares. */
  function DeclaredSize(prefix: seq<byte>): nat
    requires |prefix| >= PREFIX
  {
    PREFIX + FromBe(prefix[4..8])
  }

  /** A complete SOME/IP frame that the receiver's limit admits. */
  predicate IsFrame(f: seq<byte>, max: nat) {
    |f| >= PREFIX && |f| == DeclaredSize(f) && |f| <= max && |f| <= INT_MAX
  }

  datatype Next = Frame(frame: seq<byte>, rest: seq<byte>) | Starved | Refused

  function NextFrame(stream: seq<byte>, max: nat): Next {
    if |stream| < PREFIX then Starved
    else
      var total := DeclaredSize(stream);
      if total > max || total > INT_MAX then Refused
      else if |stream| < total then Starved
      else Frame(stream[..total], stream[total..])
  }

  function Flatten(frames: seq<seq<byte>>): seq<byte> {
    if frames == [] then [] else frames[0] + Flatten(frames[1..])
  }

  /** The frames that n calls find, as long as each finds one. */
  function TakeFrames(stream: seq<byte>, max: nat, n: nat): (frames: seq<seq<byte>>) {
    if n == 0 then []
    else
      match NextFrame(stream, max)
      case Frame(f, rest) => [f] + TakeFrames(rest, max, n - 1)
      case _ => []
  }

  lemma NextOfFrame(f: seq<byte>, tail: seq<byte>, max: nat)
    requires IsFrame(f, max)
    ensures NextFrame(f + tail, max) == Frame(f, tail)
  {
    hide FromBe;
    assert (f + tail)[4..8] == f[4..8];
  }

  /** The frame boundaries of a stream are determined by the stream. */
  lemma {:induction false} TakeFlattened(frames: seq<seq<byte>>, tail: seq<byte>, max: nat)
    requires forall k :: 0 <= k < |frames| ==> IsFrame(frames[k], max)
    ensures TakeFrames(Flatten(frames) + tail, max, |frames|) == frames
  {
    hide NextFrame, IsFrame;
    if frames != [] {
      var rest := Flatten(frames[1..]) + tail;
      assert Flatten(frames) + tail == frames[0] + rest;
      NextOfFrame(frames[0], rest, max);
      TakeFlattened(frames[1..], tail, max);
    }
  }

  /** What the next call finds, by the bytes of the stream: the Length field is
      the big-endian word at offset 4, and eight bytes come before its count. */
  lemma NextWrittenOut(stream: seq<byte>, max: nat)
    ensures |stream| < 8 ==> NextFrame(stream, max) == Starved
    ensures |stream| >= 8 ==>
              var size := 8 + Quad(stream[4], stream[5], stream[6], stream[7]);
              var refused := size > max || size > 2147483647;
              && (NextFrame(stream, max) == Refused <==> refused)
              && (NextFrame(stream, max) == Starved <==> !refused && |stream| < size)
              && (!refused && |stream| >= size ==> NextFrame(stream, max) == Frame(stream[..size], stream[size..]))
  {
    hide FromBe;
    if |stream| >= 8 { BigEndian(stream[4..8]); }
  }

  /** A SOME/IP message: the Length field counts the last eight header bytes
      and the payload. */
  datatype Message = Message(header: Header, payload: seq<byte>)
  {
    predicate Fits(max: nat) {
      && header.InRange() && header.length == 8 + |payload|
      && 16 + |payload| <= max && 16 + |payload| <= 2147483647
    }
  }

  ghost predicate AllFit(messages: seq<Message>, max: nat) {
    forall k :: 0 <= k < |messages| ==> messages[k].Fits(max)
  }

  /** Such a message is a frame of the stream. */
  lemma MessageIsFrame(m: Message, max: nat)
    requires m.Fits(max)
    ensures IsFrame(Serialize(m.header) + m.payload, max)
  {
    hide FromBe, Serialize, Deserialize;
    var f := Serialize(m.header) + m.payload;
    HeaderRoundTrip(m.header, m.payload);
    HeaderWrittenOut(f);
    BigEndian(f[4..8]);
  }

  /** The messages one after the other. */
  function Stream(messages: seq<Message>, max: nat): seq<byte>
    requires AllFit(messages, max)
  {
    if messages == [] then []
    else Serialize(messages[0].header) + messages[0].payload + Stream(messages[1..], max)
  }

  lemma {:induction false} StreamOfFrames(messages: seq<Message>, max: nat) returns (frames: seq<seq<byte>>)
    requires AllFit(messages, max)
    ensures |frames| == |messages| && Flatten(frames) == Stream(messages, max)
    ensures forall k :: 0 <= k < |frames| ==> IsFrame(frames[k], max)
    ensures forall k :: 0 <= k < |frames| ==> frames[k] == Serialize(messages[k].header) + messages[k].payload
  {
    hide IsFrame, Serialize;
    if messages == [] {
      frames := [];
    } else {
      var rest := StreamOfFrames(messages[1..], max);
      MessageIsFrame(messages[0], max);
      frames := [Serialize(messages[0].header) + messages[0].payload] + rest;
      assert frames[1..] == rest;
    }
  }

  // ---- the environment

  /** A connected socket. `incoming` is what the peer sends until it closes;
      each recv hands over some non-empty part of it. A recv may be interrupted
      by a signal, `signals` times at most, or (unless reliable) fail. */
  class Socket {
    const reliable: bool
    var incoming: seq<byte>
    var signals: nat

    constructor (incoming: seq<byte>, signals: nat, reliable: bool)
      ensures this.incoming == incoming && this.reliable == reliable
    {
      this.incoming, this.signals, this.reliable := incoming, signals, reliable;
    }

    method Recv(buf: array<byte>, at: nat, n: nat) returns (ret: int, interrupted: bool)
      requires 0 < n && at + n <= buf.Length
      modifies this, buf
      ensures ret <= n && ret <= |old(incoming)|
      ensures ret > 0 ==> incoming == old(incoming)[ret..] && buf[at..at + ret] == old(incoming)[..ret] && signals == old(signals)
      ensures ret > 0 ==> buf[..at] == old(buf[..at])
      ensures ret <= 0 ==> incoming == old(incoming) && buf[..] == old(buf[..])
      ensures ret == 0 ==> incoming == []
      ensures ret < 0 ==> (if interrupted then signals < old(signals) else !reliable)
    {
      interrupted := false;
      if signals > 0 {
        var signal: bool := *;
        if signal {
          signals := signals - 1;
          return -1, true;
        }
      }
      if !reliable {
        var fails: bool := *;
        if fails { return -1, false; }
      }
      if incoming == [] { return 0, false; }
      var k: nat :| 0 < k <= n && k <= |incoming|;
      for i := 0 to k
        invariant incoming == old(incoming) && signals == old(signals)
        invariant buf[at..at + i] == incoming[..i]
        invariant buf[..at] == old(buf[..at])
      {
        buf[at + i] := incoming[i];
      }
      incoming := incoming[k..];
      ret := k;
    }
  }

  /** A connection attempt fails or gives a new socket. */
  class Network {
    constructor () {}

    method Dial() returns (s: Socket?)
      ensures s != null ==> fresh(s)
    {
      s := null;
      var reachable: bool := *;
      if reachable {
        var sends: seq<byte> := *;
        var signals: nat := *;
        var reliable: bool := *;
        s := new Socket(sends, signals, reliable);
      }
    }
  }

  // ---- the code

  const MIN_RECONNECT_DELAY := 1000
  const MAX_RECONNECT_DELAY := 30000

  /** The delay, in milliseconds, before the attempt after n failed ones. */
  function Backoff(n: nat): (delay: nat)
    ensures MIN_RECONNECT_DELAY <= delay <= MAX_RECONNECT_DELAY
  {
    if n == 0 then MIN_RECONNECT_DELAY
    else
      var doubled := Backoff(n - 1) * 2;
      if doubled < MAX_RECONNECT_DELAY then doubled else MAX_RECONNECT_DELAY
  }

  /** Five failures reach the limit, and no number of them exceeds it. */
  lemma {:induction false} BackoffValues(n: nat)
    ensures Backoff(n) == if n < 5 then [1000, 2000, 4000, 8000, 16000][n] else MAX_RECONNECT_DELAY
  {
    if n > 0 { BackoffValues(n - 1); }
  }

  /** The next part of the stream arrives behind what has been received. */
  lemma OnePartMore(was: seq<byte>, now: seq<byte>, stream: seq<byte>, at: nat, received: nat, part: nat)
    requires at + received + part <= |now| == |was| && received + part <= |stream|
    requires now[..at + received] == was[..at + received] && was[at..at + received] == stream[..received]
    requires now[at + received..at + received + part] == stream[received..][..part]
    ensures now[..at] == was[..at] && now[at..at + received + part] == stream[..received + part]
    ensures stream[received..][part..] == stream[received + part..]
  {
    assert now[..at] == now[..at + received][..at];
    assert now[at..at + received] == now[..at + received][at..] == was[..at + received][at..];
    assert now[at..at + received + part] == now[at..at + received] + now[at + received..at + received + part];
    assert stream[..received + part] == stream[..received] + stream[received..][..part];
  }

  class TcpStreamClient {
    const network: Network
    var open: bool
    var running: bool
    var socket: Socket?
    var delay: nat
    /** Attempts that failed since the last successful one. */
    ghost var failed: nat

    /** An open stream has a socket; the delay is that of the failures so far. */
    ghost predicate Valid()
      reads this
    {
      (open ==> socket != null) && delay == Backoff(failed)
    }

    /** A stream just opened. */
    constructor (n: Network, s: Socket)
      ensures Valid() && open && running && socket == s && failed == 0
    {
      network, open, running, socket, delay, failed := n, true, true, s, MIN_RECONNECT_DELAY, 0;
    }

    /** Open, with the address already known. */
    method Open() returns (ret: int)
      requires Valid()
      modifies this
      ensures Valid() && running && delay == (if ret == 0 then MIN_RECONNECT_DELAY else old(delay))
      ensures ret == 0 || ret == -1
      ensures ret == 0 ==> open && fresh(socket) && failed == 0
      ensures ret == -1 ==> failed == old(failed) && socket == null && !open
    {
      running := true;
      if socket != null {
        socket := null;
        open := false;
      }
      var s := network.Dial();
      if s == null { return -1; }
      socket := s;
      open := true;
      delay := MIN_RECONNECT_DELAY;
      failed := 0;
      return 0;
    }

    /** try_reconnect: one attempt after the delay, which then doubles up to a
        limit; nothing once the client is stopping. */
    method TryReconnect() returns (ret: int)
      requires Valid() && !open
      modifies this
      ensures Valid() && running == old(running) && (ret == 0 || ret == -1) && (ret == 0 <==> open)
      ensures ret == 0 ==> old(running) && fresh(socket) && failed == 0
      ensures ret == -1 ==> failed == old(failed) + if old(running) then 1 else 0
      ensures !old(running) ==> socket == old(socket)
    {
      if !running { return -1; }
      socket := null;
      open := false;
      ret := Open();
      if ret == 0 { return; }
      delay := if delay * 2 < MAX_RECONNECT_DELAY then delay * 2 else MAX_RECONNECT_DELAY;
      failed := failed + 1;
    }

    method Close()
      requires Valid()
      modifies this
      ensures Valid() && !open && !running && socket == null && failed == old(failed)
    {
      running, open, socket := false, false, null;
    }

    /** recv_exact: loop until n bytes have arrived. */
    method RecvExact(buf: array<byte>, at: nat, n: nat) returns (ok: bool)
      requires at + n <= buf.Length && socket != null
      modifies socket, buf
      ensures ok ==> n <= |old(socket.incoming)|
      ensures ok ==> socket.incoming == old(socket.incoming)[n..] && buf[at..at + n] == old(socket.incoming)[..n]
      ensures ok ==> buf[..at] == old(buf[..at])
      ensures socket.reliable ==> (ok <==> n <= |old(socket.incoming)|)
    {
      var received := 0;
      ghost var stream := socket.incoming;
      while received < n
        invariant received <= n && received <= |stream|
        invariant socket.incoming == stream[received..]
        invariant buf[at..at + received] == stream[..received]
        invariant buf[..at] == old(buf[..at])
        decreases socket.signals, n - received
      {
        ghost var was := buf[..];
        var ret, interrupted := socket.Recv(buf, at + received, n - received);
        if ret < 0 {
          if interrupted { continue; }
          return false;
        }
        if ret == 0 { return false; }
        OnePartMore(was, buf[..], stream, at, received, ret);
        received := received + ret;
      }
      return true;
    }

    /** Receive: a closed stream is reconnected, and delivers nothing yet. */
    method Receive(max: nat) returns (ret: int, frame: seq<byte>)
      requires Valid()
      modifies this, socket
      ensures Valid() && running == old(running)
      ensures old(open) ==> socket == old(socket) && failed == old(failed) && (ret > 0 <==> open)
      ensures ret > 0 ==> old(open) && ret == |frame|
      ensures ret > 0 ==> NextFrame(old(socket.incoming), max) == Frame(frame, socket.incoming)
      ensures old(open) && ret <= 0 ==> ret == -1
      ensures old(open) && socket.reliable ==> (ret > 0 <==> NextFrame(old(socket.incoming), max).Frame?)
      ensures !old(open) ==> frame == [] && (ret == 0 || ret == -1) && (ret == 0 <==> open)
      ensures !old(open) && ret == 0 ==> old(running) && fresh(socket) && failed == 0
      ensures !old(open) && ret == -1 ==> failed == old(failed) + if old(running) then 1 else 0
    {
      if open {
        ret, frame := ReceiveOpen(max);
      } else {
        ret := TryReconnect();
        frame := [];
      }
    }

    /** The 8-byte prefix first, then as many bytes as it declares. Anything
        but a complete admissible frame closes the stream. */
    method ReceiveOpen(max: nat) returns (ret: int, frame: seq<byte>)
      requires open && Valid()
      modifies `open, socket
      ensures Valid()
      ensures ret > 0 <==> open
      ensures ret > 0 ==> ret == |frame| && NextFrame(old(socket.incoming), max) == Frame(frame, socket.incoming)
      ensures ret <= 0 ==> ret == -1
      ensures socket.reliable ==> (ret > 0 <==> NextFrame(old(socket.incoming), max).Frame?)
    {
      hide FromBe;
      ghost var stream := socket.incoming;
      var header := new byte[PREFIX];
      var ok := RecvExact(header, 0, PREFIX);
      if !ok {
        open := false;
        return -1, [];
      }
      assert header[..] == stream[..PREFIX] && stream[..PREFIX][4..8] == stream[4..8];
      var total := DeclaredSize(header[..]);
      if total > max || total > INT_MAX {
        open := false;
        return -1, [];
      }
      var buf := new byte[total];
      for i := 0 to PREFIX
        invariant buf[..i] == header[..i]
        invariant open && socket == old(socket) && socket.incoming == stream[PREFIX..]
        invariant header[..] == stream[..PREFIX]
      {
        buf[i] := header[i];
      }
      ok := RecvExact(buf, PREFIX, total - PREFIX);
      if !ok {
        open := false;
        return -1, [];
      }
      assert buf[..] == buf[..PREFIX] + buf[PREFIX..total];
      assert stream[..total] == stream[..PREFIX] + stream[PREFIX..][..total - PREFIX];
      assert stream[total..] == stream[PREFIX..][total - PREFIX..];
      return total, buf[..];
    }

    /** The receiver loop over a stream that starts with at least `calls`
        frames: whatever the sizes of the parts that recv returns and whatever
        interrupts it, the frames come out one by one, in order. */
    method ReceiveLoop(calls: nat, max: nat, ghost frames: seq<seq<byte>>, ghost tail: seq<byte>) returns (got: seq<seq<byte>>)
      requires Valid() && open && socket.reliable && calls <= |frames|
      requires forall k :: 0 <= k < |frames| ==> IsFrame(frames[k], max)
      requires socket.incoming == Flatten(frames) + tail
      modifies this, socket
      ensures socket == old(socket) && got == frames[..calls] && socket.incoming == Flatten(frames[calls..]) + tail && open
    {
      hide NextFrame, IsFrame;
      got := [];
      for n := 0 to calls
        invariant Valid() && socket == old(socket) && open && socket.reliable
        invariant got == frames[..n] && socket.incoming == Flatten(frames[n..]) + tail
      {
        ghost var rest := Flatten(frames[n + 1..]) + tail;
        assert frames[n..][1..] == frames[n + 1..];
        assert socket.incoming == frames[n] + rest;
        NextOfFrame(frames[n], rest, max);
        var ret, frame := Receive(max);
        if ret <= 0 { continue; }
        got := got + [frame];
      }
    }

    /** The same loop on a stream of SOME/IP messages: exactly those messages. */
    method ReceiveMessages(max: nat, ghost messages: seq<Message>, count: nat, ghost tail: seq<byte>) returns (got: seq<seq<byte>>)
      requires Valid() && open && socket.reliable && AllFit(messages, max) && count == |messages|
      requires socket.incoming == Stream(messages, max) + tail
      modifies this, socket
      ensures open && socket == old(socket) && socket.incoming == tail && |got| == |messages|
      ensures forall k :: 0 <= k < |got| ==> got[k] == Serialize(messages[k].header) + messages[k].payload
    {
      hide IsFrame, Serialize, Stream;
      ghost var frames := StreamOfFrames(messages, max);
      got := ReceiveLoop(count, max, frames, tail);
      assert frames[..count] == frames && frames[count..] == [];
      assert [] + tail == tail;
    }
  }
}
