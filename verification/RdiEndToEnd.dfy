/** The RDI path end to end: what the sender puts on the wire, in any order of
    arrival, is what the callbacks are handed. */
module RdiEndToEnd {
  import opened Bytes
  import opened Someip
  import opened SomeipTp
  import opened TpRoundTrip
  import opened RdiSender
  import opened RdiReceiver
  import opened RdiLoss
  import E2e
  import IsoHeader
  import Rdi
  import Records

  /** The datagrams of a payload in an order of arrival; picks may repeat. */
  function Arrivals(p: seq<byte>, session: nat, picks: seq<nat>): (ds: seq<seq<byte>>)
    requires forall k :: 0 <= k < |picks| ==> picks[k] < |Datagrams(p, session)|
    ensures |ds| == |picks|
  {
    seq(|picks|, k requires 0 <= k < |picks| => Datagrams(p, session)[picks[k]])
  }

  ghost predicate HasAll(n: nat, picks: seq<nat>) {
    forall j :: 0 <= j < n ==> j in picks
  }

  /** The last arrival is the first by which every datagram has been seen. */
  ghost predicate CompletesLast(n: nat, picks: seq<nat>) {
    && picks != [] && (forall k :: 0 <= k < |picks| ==> picks[k] < n)
    && HasAll(n, picks) && !HasAll(n, picks[..|picks| - 1])
  }

  /** 0, 1, ..., n-1: the sending order. */
  function InOrder(n: nat): (order: seq<nat>)
    ensures |order| == n
  {
    if n == 0 then [] else InOrder(n - 1) + [n - 1]
  }

  lemma {:induction false} OnceEach(n: nat, j: nat)
    ensures multiset(InOrder(n))[j] == if j < n then 1 else 0
  {
    if n > 0 { OnceEach(n - 1, j); }
  }

  /** Each datagram once, in any order, is such an arrival. */
  lemma PermutationCompletes(n: nat, picks: seq<nat>)
    requires n > 0 && multiset(picks) == multiset(InOrder(n))
    ensures CompletesLast(n, picks)
  {
    hide InOrder;
    forall j: nat ensures j in picks <==> j < n {
      OnceEach(n, j);
      assert j in picks <==> j in multiset(picks);
    }
    assert |picks| == |multiset(picks)| == |multiset(InOrder(n))| == n;
    LastOnce(picks);
    OnceEach(n, picks[|picks| - 1]);
    forall k | 0 <= k < |picks| ensures picks[k] < n { assert picks[k] in picks; }
  }

  lemma LastOnce(picks: seq<nat>)
    requires picks != []
    ensures var last := picks[|picks| - 1];
      last in picks && (multiset(picks)[last] == 1 ==> last !in picks[..|picks| - 1])
  {
    var init, last := picks[..|picks| - 1], picks[|picks| - 1];
    assert picks == init + [last];
    assert last in init ==> last in multiset(init);
  }

  // ---- segmented payloads

  /** While the message is incomplete, pieces only change the TP log. */
  lemma {:induction false} PiecesOnlyLog(cfg: Config, lim: Limits, rx: Rx, ds: seq<seq<byte>>, fed: seq<Segment>)
    requires |ds| == |fed| && forall k :: 0 <= k < |ds| ==> Classify(ds[k]) == Piece(fed[k])
    requires forall n :: 0 < n <= |fed| ==> !Whole(Run(lim, rx.log, fed[..n]))
    ensures ReceiveAll(cfg, lim, rx, ds) == rx.(log := Run(lim, rx.log, fed))
  {
    hide Classify, Handle, Step, Whole;
    if ds != [] {
      var n := |ds| - 1;
      assert forall m :: 0 < m <= n ==> fed[..n][..m] == fed[..m];
      PiecesOnlyLog(cfg, lim, rx, ds[..n], fed[..n]);
      assert fed[..|fed|] == fed;
    }
  }

  function Fed(p: seq<byte>, session: nat, picks: seq<nat>): (fed: seq<Segment>)
    requires forall k :: 0 <= k < |picks| ==> picks[k] < SegmentCount(|p|)
    ensures |fed| == |picks|
  {
    seq(|picks|, k requires 0 <= k < |picks| => Segments(p, session)[picks[k]])
  }

  lemma ArrivesAsFed(p: seq<byte>, session: nat, picks: seq<nat>, k: nat)
    requires TP_CHUNK_SIZE < |p| && |p| + 15 < 0x1_0000_0000 && k < |picks|
    requires forall k :: 0 <= k < |picks| ==> picks[k] < |Datagrams(p, session)|
    ensures Classify(Arrivals(p, session, picks)[k]) == Piece(Fed(p, session % 0x1_0000, picks)[k])
  {
    hide Classify, SegmentDatagram, SegmentAt;
    var j := picks[k];
    AlignedChunk(p, session % 0x1_0000, j);
    DatagramAt(p, session, j);
    assert Arrivals(p, session, picks)[k] == Datagrams(p, session)[j];
    assert Fed(p, session % 0x1_0000, picks)[k] == Segments(p, session % 0x1_0000)[j];
    SegmentArrives(SegmentAt(p, session % 0x1_0000, j));
  }

  lemma DatagramAt(p: seq<byte>, session: nat, j: nat)
    requires TP_CHUNK_SIZE < |p| && j < |Datagrams(p, session)|
    ensures Segments(p, session % 0x1_0000)[j] == SegmentAt(p, session % 0x1_0000, j)
    ensures |SegmentAt(p, session % 0x1_0000, j).data| <= TP_CHUNK_SIZE
    ensures Datagrams(p, session)[j] == SegmentDatagram(SegmentAt(p, session % 0x1_0000, j))
  {
    hide SegmentDatagram;
  }

  lemma AlignedChunk(p: seq<byte>, session: nat, j: nat)
    requires j < SegmentCount(|p|) && |p| + 15 < 0x1_0000_0000
    ensures var s := SegmentAt(p, session, j);
      |s.data| <= TP_CHUNK_SIZE && s.offset % 16 == 0 && s.offset + 15 < 0x1_0000_0000 && s.session == session
  {
    hide SegmentCount;
    ChunkBegins(|p|, j);
    assert j * TP_CHUNK_SIZE == 16 * (87 * j);
  }

  lemma ChunkBegins(size: nat, j: nat)
    requires j < SegmentCount(size)
    ensures j * TP_CHUNK_SIZE < size
  {
    assert SegmentCount(size) * TP_CHUNK_SIZE <= size + TP_CHUNK_SIZE - 1;
  }

  lemma DistinctSegments(p: seq<byte>, session: nat, i: nat, j: nat)
    requires i < SegmentCount(|p|) && j < SegmentCount(|p|)
    ensures SegmentAt(p, session, i) == SegmentAt(p, session, j) <==> i == j
  {
  }

  /** Having all datagrams is having all segments. */
  lemma HasAllIsAllSent(p: seq<byte>, session: nat, picks: seq<nat>)
    requires forall k :: 0 <= k < |picks| ==> picks[k] < SegmentCount(|p|)
    ensures HasAll(SegmentCount(|p|), picks) <==> AllSent(Segments(p, session), Fed(p, session, picks))
    ensures DrawnFrom(Segments(p, session), Fed(p, session, picks))
  {
    var segs, fed := Segments(p, session), Fed(p, session, picks);
    forall k | 0 <= k < |fed| ensures fed[k] in segs { assert fed[k] == segs[picks[k]]; }
    forall j | 0 <= j < |segs| ensures j in picks <==> segs[j] in fed {
      if j in picks {
        var k :| 0 <= k < |picks| && picks[k] == j;
        assert fed[k] == segs[j];
      }
      if segs[j] in fed {
        var k :| 0 <= k < |fed| && fed[k] == segs[j];
        DistinctSegments(p, session, picks[k], j);
      }
    }
  }

  lemma SegmentedArrival(cfg: Config, lim: Limits, rx: Rx, p: seq<byte>, session: nat, picks: seq<nat>)
    requires TP_CHUNK_SIZE < |p| <= lim.maxPayload && |p| + 15 < 0x1_0000_0000 && lim.maxSegment >= TP_CHUNK_SIZE
    requires CompletesLast(|Datagrams(p, session)|, picks)
    requires Idle(rx.log, session % 0x1_0000)
    ensures ReceiveAll(cfg, lim, rx, Arrivals(p, session, picks)) == Handle(cfg, rx.(log := []), p)
  {
    hide Classify, Handle, Step, Whole, Idle, SegmentAt, Segments, Run, SegmentDatagram, AllSent, DrawnFrom;
    var s, n := session % 0x1_0000, |picks| - 1;
    var ds, fed := Arrivals(p, session, picks), Fed(p, s, picks);
    HasAllIsAllSent(p, s, picks);
    HasAllIsAllSent(p, s, picks[..n]);
    assert Fed(p, s, picks[..n]) == fed[..n];
    forall k | 0 <= k < |ds| ensures Classify(ds[k]) == Piece(fed[k]) { ArrivesAsFed(p, session, picks, k); }
    PieceRun(cfg, lim, rx, p, s, ds, fed);
  }

  lemma PieceRun(cfg: Config, lim: Limits, rx: Rx, p: seq<byte>, session: nat, ds: seq<seq<byte>>, fed: seq<Segment>)
    requires 0 < |p| <= lim.maxPayload && lim.maxSegment >= TP_CHUNK_SIZE
    requires |ds| == |fed| > 0 && forall k :: 0 <= k < |ds| ==> Classify(ds[k]) == Piece(fed[k])
    requires Idle(rx.log, session) && DrawnFrom(Segments(p, session), fed)
    requires AllSent(Segments(p, session), fed) && !AllSent(Segments(p, session), fed[..|fed| - 1])
    ensures ReceiveAll(cfg, lim, rx, ds) == Handle(cfg, rx.(log := []), p)
  {
    hide Classify, Handle, Step, Whole, Idle, Segments, Run, ReceiveAll, DrawnFrom, AllSent;
    var n := |fed| - 1;
    RoundTrip(lim, p, session, rx.log, fed);
    assert forall m :: 0 < m <= n ==> fed[..n][..m] == fed[..m];
    PiecesOnlyLog(cfg, lim, rx, ds[..n], fed[..n]);
    SegmentsNotEmpty(lim, p, session, fed, n);
    LastPiece(cfg, lim, rx, ds, fed);
  }

  lemma SegmentsNotEmpty(lim: Limits, p: seq<byte>, session: nat, fed: seq<Segment>, k: nat)
    requires lim.maxSegment >= TP_CHUNK_SIZE && DrawnFrom(Segments(p, session), fed) && k < |fed|
    ensures fed[k].data != []
  {
    DrawnIsHonest(lim, p, session, fed);
  }

  lemma LastPiece(cfg: Config, lim: Limits, rx: Rx, ds: seq<seq<byte>>, fed: seq<Segment>)
    requires |ds| == |fed| > 0 && Classify(ds[|ds| - 1]) == Piece(fed[|ds| - 1])
    requires ReceiveAll(cfg, lim, rx, ds[..|ds| - 1]) == rx.(log := Run(lim, rx.log, fed[..|ds| - 1]))
    requires Whole(Run(lim, rx.log, fed)) && fed[|ds| - 1].data != []
    ensures ReceiveAll(cfg, lim, rx, ds) == Handle(cfg, rx.(log := []), Assembled(Run(lim, rx.log, fed)))
  {
    hide Classify, Handle, Whole;
  }

  /** Main result. Whatever the order and the repeats, once the last missing
      datagram of a payload arrives the receiver has done exactly one thing
      since the first: handled that payload, with the reassembler left reset. */
  lemma {:induction false} EndToEnd(cfg: Config, lim: Limits, rx: Rx, p: seq<byte>, session: nat, picks: seq<nat>)
    requires 0 < |p| <= lim.maxPayload && |p| + 15 < 0x1_0000_0000 && lim.maxSegment >= TP_CHUNK_SIZE
    requires CompletesLast(|Datagrams(p, session)|, picks)
    requires |p| > TP_CHUNK_SIZE ==> Idle(rx.log, session % 0x1_0000)
    ensures ReceiveAll(cfg, lim, rx, Arrivals(p, session, picks)) == Handle(cfg, rx.(log := []), p)
  {
    if |p| > TP_CHUNK_SIZE {
      SegmentedArrival(cfg, lim, rx, p, session, picks);
    } else {
      OnlyPick(picks);
      PlainArrives(p, session);
      var ds := Arrivals(p, session, picks);
      assert ds == [PlainDatagram(p, session)];
      assert ds[..0] == [];
    }
  }

  lemma OnlyPick(picks: seq<nat>)
    requires CompletesLast(1, picks)
    ensures picks == [0]
  {
    if |picks| > 1 { ZeroSeen(picks[..|picks| - 1]); }
  }

  lemma ZeroSeen(picks: seq<nat>)
    requires picks != [] && forall k :: 0 <= k < |picks| ==> picks[k] < 1
    ensures HasAll(1, picks)
  {
    assert picks[0] == 0;
  }

  /** With strict mode off: one wire callback, identical bytes, e2e_valid true
      exactly when validation is on and length, Data ID and CRC pass. */
  lemma OneWireCallback(cfg: Config, lim: Limits, rx: Rx, p: seq<byte>, session: nat, picks: seq<nat>)
    requires E2e.E2E_HEADER_SIZE <= |p| <= lim.maxPayload && |p| + 15 < 0x1_0000_0000 && lim.maxSegment >= TP_CHUNK_SIZE
    requires CompletesLast(|Datagrams(p, session)|, picks) && Idle(rx.log, session % 0x1_0000)
    requires !cfg.e2eStrict && cfg.wireCallback
    ensures var after := ReceiveAll(cfg, lim, rx, Arrivals(p, session, picks));
      && after.log == []
      && |after.delivered| == |rx.delivered| + 1 && after.delivered[..|rx.delivered|] == rx.delivered
      && after.delivered[|rx.delivered|].payload == p
      && (after.delivered[|rx.delivered|].e2eValid <==>
            cfg.validateE2e && E2e.Verdict(p, DATA_ID_RDI, true) == E2e.Pass)
  {
    hide E2e.Verdict, E2e.Parse, Datagrams, CompletesLast, Idle, ReceiveAll;
    EndToEnd(cfg, lim, rx, p, session, picks);
  }

  /** The wire callback for a message: the sensor's own timestamp and counter. */
  lemma WireOfMessage(cfg: Config, m: Rdi.Message, counter: nat)
    requires m.WellFormed() && cfg.validateE2e
    ensures var body := Rdi.Serialise(m);
      var p := E2e.Protect(DATA_ID_RDI, counter, body);
      MakeWireFrame(cfg, p) == WireFrame(p, m.header.timestamp, m.header.messageCounter, counter % 0x1_0000_0000,
                                         true, E2e.Crc32Of(body) != 0, E2e.V1_1)
  {
    hide E2e.Encode, E2e.Verdict, E2e.Parse, E2e.Crc32Of, Rdi.Serialise, FromLe;
    var body := Rdi.Serialise(m);
    var p := E2e.Protect(DATA_ID_RDI, counter, body);
    MessageSize(m);
    E2e.BuiltFrameVerdict(DATA_ID_RDI, counter, body, DATA_ID_RDI);
    E2e.ParseEncode(E2e.BuildHeader(DATA_ID_RDI, counter, body), body);
    assert p[E2e.E2E_HEADER_SIZE..] == body;
    HeaderOfMessage(m);
  }

  /** Where the message counter and the timestamp are in the wire form. */
  lemma HeaderOfMessage(m: Rdi.Message)
    requires m.WellFormed()
    ensures var body := Rdi.Serialise(m);
      |body| >= 36 && FromLe(body[6..14]) == m.header.timestamp && FromLe(body[14..18]) == m.header.messageCounter
  {
    hide FromLe, IsoHeader.Encode, Rdi.EncodeDetection, Records.EncodeAll, Records.EncodeWords, ToLe;
    var body := Rdi.Serialise(m);
    assert body == IsoHeader.Encode(m.header) + body[24..];
    IsoHeader.DecodeEncode(m.header, body[24..]);
  }

  /** From a detection message at the sender to the callbacks at the receiver:
      the typed callback gets that very message, the wire callback its bytes,
      and the frame is marked valid unless the CRC-32 of its body happens to be
      zero. The loss callback hears of a gap of 1 to 2^31-2 slots. */
  lemma MessageToCallback(cfg: Config, lim: Limits, rx: Rx, m: Rdi.Message, counter: nat, session: nat, picks: seq<nat>)
    requires m.WellFormed() && cfg.validateE2e && (cfg.e2eStrict ==> E2e.Crc32Of(Rdi.Serialise(m)) != 0)
    requires 500_000 <= lim.maxPayload && lim.maxSegment >= TP_CHUNK_SIZE
    requires CompletesLast(|Datagrams(E2e.Protect(DATA_ID_RDI, counter, Rdi.Serialise(m)), session)|, picks)
    requires Idle(rx.log, session % 0x1_0000)
    ensures var body := Rdi.Serialise(m);
      var p := E2e.Protect(DATA_ID_RDI, counter, body);
      var slot, valid := counter % 0x1_0000_0000, E2e.Crc32Of(body) != 0;
      var ahead := (slot - rx.loss.last) % 0x1_0000_0000;
      var after := ReceiveAll(cfg, lim, rx, Arrivals(p, session, picks));
      && after.typed == (if cfg.typedCallback then rx.typed + [TypedFrame(rx.frameSeq, slot, valid, m)] else rx.typed)
      && after.delivered == (if cfg.wireCallback then
           rx.delivered + [WireFrame(p, m.header.timestamp, m.header.messageCounter, slot, true, valid, E2e.V1_1)]
         else rx.delivered)
      && after.loss == (if valid then Track(rx.loss, slot) else rx.loss)
      && after.losses == if valid && cfg.lossCallback && !rx.loss.first && 2 <= ahead <= 2147483647 then
           rx.losses + [LossReport((rx.loss.total + 1) % 0x1_0000_0000, (rx.loss.lost + ahead - 1) % 0x1_0000_0000)]
         else rx.losses
  {
    hide E2e.Encode, E2e.Verdict, E2e.Parse, E2e.Crc32Of, Rdi.Serialise, Datagrams, CompletesLast, Idle, ReceiveAll, Rdi.ParsesTo, TypedOf, MakeWireFrame;
    var body := Rdi.Serialise(m);
    var p := E2e.Protect(DATA_ID_RDI, counter, body);
    MessageSize(m);
    E2e.BuiltFrameVerdict(DATA_ID_RDI, counter, body, DATA_ID_RDI);
    E2e.ParseEncode(E2e.BuildHeader(DATA_ID_RDI, counter, body), body);
    assert p[E2e.E2E_HEADER_SIZE..] == body;
    EndToEnd(cfg, lim, rx, p, session, picks);
    SerialisedParses(m);
    if cfg.typedCallback {
      TypedWhenParsed(cfg, rx.frameSeq, p, Some(m));
    } else {
      NoTypedCallback(cfg, rx.frameSeq, p);
    }
    WireOfMessage(cfg, m, counter);
  }

  lemma MessageSize(m: Rdi.Message)
    requires m.WellFormed()
    ensures |Rdi.Serialise(m)| <= 417_828
  {
    Rdi.SerialisedIsFramed(m);
  }

  lemma SerialisedParses(m: Rdi.Message)
    requires m.WellFormed()
    ensures Rdi.ParsesTo(Rdi.Serialise(m), Some(m))
  {
  }

  // ---- loss accounting over runs of payloads

  ghost function HandleAll(cfg: Config, rx: Rx, ps: seq<seq<byte>>): Rx {
    if ps == [] then rx else Handle(cfg, HandleAll(cfg, rx, ps[..|ps| - 1]), ps[|ps| - 1])
  }

  /** The frame moves the loss baseline. */
  predicate Counted(cfg: Config, p: seq<byte>) {
    Admitted(cfg, p) && Tracked(cfg, p)
  }

  function CountedOf(cfg: Config, ps: seq<seq<byte>>): seq<seq<byte>> {
    if ps == [] then []
    else
      var rest := CountedOf(cfg, ps[..|ps| - 1]);
      if Counted(cfg, ps[|ps| - 1]) then rest + [ps[|ps| - 1]] else rest
  }

  function Counters(ps: seq<seq<byte>>): seq<nat> {
    seq(|ps|, k requires 0 <= k < |ps| => if E2e.Parse(ps[k]) == None then 0 else E2e.Parse(ps[k]).value.counter)
  }

  /** The statistics of a run are those of the counters of its counted frames:
      deleting frames that failed their E2E check changes neither of them. */
  lemma {:induction false} LossOfRun(cfg: Config, rx: Rx, ps: seq<seq<byte>>)
    ensures HandleAll(cfg, rx, ps).loss == TrackAll(rx.loss, Counters(CountedOf(cfg, ps)))
  {
    hide E2e.Verdict, E2e.Parse, Handle, Counted, Track;
    if ps != [] {
      var init, p := ps[..|ps| - 1], ps[|ps| - 1];
      LossOfRun(cfg, rx, init);
      LossOfOne(cfg, HandleAll(cfg, rx, init), p);
      var cs := Counters(CountedOf(cfg, ps));
      if Counted(cfg, p) {
        assert cs[..|cs| - 1] == Counters(CountedOf(cfg, init));
      }
    } else {
      assert Counters([]) == [];
    }
  }

  lemma LossOfOne(cfg: Config, rx: Rx, p: seq<byte>)
    ensures Counted(cfg, p) ==> E2e.Parse(p).Some? && Handle(cfg, rx, p).loss == Track(rx.loss, E2e.Parse(p).value.counter)
    ensures !Counted(cfg, p) ==> Handle(cfg, rx, p).loss == rx.loss
  {
    hide E2e.Verdict, TypedOf, MakeWireFrame, Track;
  }
}
