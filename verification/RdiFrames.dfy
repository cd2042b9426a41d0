/** What the receive path does with one datagram and with one complete payload,
    written out by their bytes and by the verdict of the E2E check. */
module RdiFrames {
  import opened Bytes
  import opened Someip
  import opened SomeipTp
  import opened TpRoundTrip
  import opened RdiReceiver
  import opened RdiLoss
  import RdiEndToEnd
  import RdiSender
  import E2e
  import Rdi

  // ---- the datagram

  /** A notification of the RDI event, whole or a segment, of exactly this size. */
  predicate IsRdiEvent(data: seq<byte>) {
    && |data| >= 16
    && data[0] == 0x60 && data[1] == 0x00 && data[2] == 0x80 && data[3] == 0x02
    && |data| == 8 + Quad(data[4], data[5], data[6], data[7])
    && data[12] == 1 && data[13] == 1 && (data[14] == 0x02 || data[14] == 0x22) && data[15] == 0
  }

  /** The segment in a datagram: the offset is the TP word without its low nibble. */
  function SegmentIn(data: seq<byte>): Segment
    requires |data| >= 20
  {
    Segment(data[20..], Quad(data[16], data[17], data[18], 16 * (data[19] / 16)), data[19] % 2 == 1, Pair(data[10], data[11]))
  }

  /** Which datagrams are dropped, which reset the reassembler, and what is
      read from the others. */
  lemma ClassifyWrittenOut(data: seq<byte>)
    ensures Classify(data) == Dropped <==> !IsRdiEvent(data) || (data[14] == 0x22 && |data| < 20)
    ensures IsRdiEvent(data) && data[14] == 0x02 ==> Classify(data) == Plain(data[16..])
    ensures IsRdiEvent(data) && data[14] == 0x22 && |data| >= 20 ==>
              Classify(data) == if data[19] % 16 >= 2 then BadTp else Piece(SegmentIn(data))
  {
    hide Deserialize, DeserializeTp, ValidEnvelope, Quad, Pair;
    if |data| < 16 {
      TooShortToParse(data);
    } else {
      HeaderWrittenOut(data);
      EnvelopeWrittenOut(data, Deserialize(data).value);
      if |data| >= 20 {
        TpWordWrittenOut(data[16..]);
        LowNibbleOff(data[16], data[17], data[18], data[19]);
      }
    }
  }

  lemma LowNibbleOff(a: byte, b: byte, c: byte, d: byte)
    ensures Quad(a, b, c, d) - d % 16 == Quad(a, b, c, 16 * (d / 16))
  {
  }

  lemma TooShortToParse(data: seq<byte>)
    requires |data| < 16
    ensures Deserialize(data) == None
  {
  }

  lemma EnvelopeWrittenOut(data: seq<byte>, h: Header)
    requires |data| >= 16
    requires h.service == Pair(data[0], data[1]) && h.methodId == Pair(data[2], data[3])
    requires h.length == Quad(data[4], data[5], data[6], data[7])
    requires h.protocol == data[12] && h.interface == data[13] && h.messageType == data[14] && h.returnCode == data[15]
    ensures ValidEnvelope(h, |data|) <==> IsRdiEvent(data)
    ensures ValidEnvelope(h, |data|) ==> (IsTp(h.messageType) <==> data[14] == 0x22)
  {
    hide Quad;
    PairIs(data[0], data[1], 0x60, 0x00);
    PairIs(data[2], data[3], 0x80, 0x02);
    NotifyTypes(data[14]);
  }

  lemma PairIs(high: byte, low: byte, a: byte, b: byte)
    ensures Pair(high, low) == Pair(a, b) <==> high == a && low == b
  {
  }

  lemma NotifyTypes(t: byte)
    ensures BaseType(t) == 2 <==> t == 0x02 || t == 0x22
    ensures t == 0x02 ==> !IsTp(t)
    ensures t == 0x22 ==> IsTp(t)
  {
  }

  /** Every datagram of the sender: at most 1392 payload bytes each, all but the
      last segment full, offsets counted in bytes. */
  lemma SentWrittenOut(p: seq<byte>, session: nat, j: nat)
    requires |p| + 15 < 0x1_0000_0000 && j < |RdiSender.Datagrams(p, session)|
    ensures |RdiSender.Datagrams(p, session)| == if |p| <= 1392 then 1 else (|p| + 1391) / 1392
    ensures var d := RdiSender.Datagrams(p, session)[j];
            && IsRdiEvent(d)
            && (|p| <= 1392 ==> d[14] == 0x02 && d[16..] == p)
            && (|p| > 1392 ==>
                  && d[14] == 0x22 && |d| >= 20 && d[19] % 16 < 2 && 1392 * j < |p|
                  && var end := if |p| <= 1392 * (j + 1) then |p| else 1392 * (j + 1);
                     SegmentIn(d) == Segment(p[1392 * j..end], 1392 * j, end < |p|, session % 0x1_0000))
  {
    hide Classify, RdiSender.SegmentDatagram, RdiSender.PlainDatagram, SegmentIn, RdiSender.Datagrams, Quad;
    var d := RdiSender.Datagrams(p, session)[j];
    DatagramCount(p, session);
    ClassifyWrittenOut(d);
    if |p| <= 1392 {
      RdiSender.OneDatagram(p, session);
      PlainArrives(p, session);
    } else {
      RdiEndToEnd.DatagramAt(p, session, j);
      RdiEndToEnd.AlignedChunk(p, session % 0x1_0000, j);
      RdiEndToEnd.ChunkBegins(|p|, j);
      SegmentArrives(SegmentAt(p, session % 0x1_0000, j));
    }
  }

  lemma DatagramCount(p: seq<byte>, session: nat)
    ensures |RdiSender.Datagrams(p, session)| == if |p| <= 1392 then 1 else (|p| + 1391) / 1392
    ensures |p| > 1392 ==> |RdiSender.Datagrams(p, session)| == SegmentCount(|p|)
  {
    hide RdiSender.SegmentDatagram, RdiSender.PlainDatagram;
  }

  // ---- the payload

  /** The check of the detection stream passes. */
  predicate Passes(cfg: Config, p: seq<byte>) {
    E2e.Verdict(p, 0x6000_8002, cfg.validateE2e) == E2e.Pass
  }

  /** Too short for an E2E header: nothing happens. */
  lemma ShortIsNothing(cfg: Config, rx: Rx, p: seq<byte>)
    requires |p| < 20
    ensures Handle(cfg, rx, p) == rx
  {
  }

  /** Strict mode: a frame that fails its check is counted, and nothing else. */
  lemma StrictDrops(cfg: Config, rx: Rx, p: seq<byte>)
    requires cfg.e2eStrict && |p| >= 20 && !Passes(cfg, p)
    ensures Handle(cfg, rx, p) == rx.(failures := rx.failures + 1)
  {
    hide E2e.Verdict, E2e.Parse, TypedOf, WireOf;
  }

  /** A frame that passes is handled the same whether strict mode is on or off. */
  lemma StrictKeepsPassing(cfg: Config, rx: Rx, p: seq<byte>)
    requires |p| >= 20 && Passes(cfg, p)
    ensures Handle(cfg.(e2eStrict := true), rx, p) == Handle(cfg.(e2eStrict := false), rx, p)
  {
    hide E2e.Verdict, E2e.Parse;
    SameTyped(cfg, rx.frameSeq, p);
  }

  lemma SameTyped(cfg: Config, sequence: nat, p: seq<byte>)
    requires |p| >= 20
    ensures TypedOf(cfg.(e2eStrict := true), sequence, p) == TypedOf(cfg.(e2eStrict := false), sequence, p)
  {
    hide E2e.Verdict, E2e.Parse;
  }

  /** The E2E counter of a frame: the word at offset 12. */
  function Counter(p: seq<byte>): nat
    requires |p| >= 20
  {
    Quad(p[12], p[13], p[14], p[15])
  }

  /** Unless strict, or when it passes: whether the frame counts as a failure,
      and what moves the loss baseline. */
  lemma KeptFrame(cfg: Config, rx: Rx, p: seq<byte>)
    requires |p| >= 20 && (cfg.e2eStrict ==> Passes(cfg, p))
    ensures var after := Handle(cfg, rx, p);
            && after.log == rx.log
            && after.failures == (if Passes(cfg, p) then rx.failures else rx.failures + 1)
            && after.generation == (if !Passes(cfg, p) then rx.generation
                                    else if p[..4] == [0, 0, 0, 0] then E2e.V1_1 else E2e.V1_0)
            && after.frameSeq == (if cfg.typedCallback then (rx.frameSeq + 1) % 0x1_0000_0000 else rx.frameSeq)
            && (cfg.validateE2e && !Passes(cfg, p) ==> after.loss == rx.loss && after.losses == rx.losses)
            && (!cfg.validateE2e || Passes(cfg, p) ==> after.loss == Track(rx.loss, Counter(p)))
  {
    hide E2e.Verdict, E2e.Parse, TypedOf, WireOf, LossOf, Track, Quad;
    E2e.HeaderWrittenOut(p);
  }

  /** The wire callback of such a frame. The ISO header begins at offset 20: its
      timestamp is at 26 and its message counter at 34, both little-endian. */
  lemma WireCallback(cfg: Config, rx: Rx, p: seq<byte>)
    requires |p| >= 20 && (cfg.e2eStrict ==> Passes(cfg, p))
    ensures Handle(cfg, rx, p).delivered ==
            if !cfg.wireCallback then rx.delivered
            else rx.delivered + [WireFrame(p,
              if |p| >= 38 then FromLe(p[26..34]) else 0,
              if |p| >= 38 then Quad(p[37], p[36], p[35], p[34]) else 0,
              Counter(p), cfg.validateE2e, cfg.validateE2e && Passes(cfg, p),
              if p[..4] == [0, 0, 0, 0] then E2e.V1_1 else E2e.V1_0)]
  {
    hide E2e.Verdict, E2e.Parse, TypedOf, LossOf, Track, Quad, FromLe;
    E2e.HeaderWrittenOut(p);
    if |p| >= 38 {
      assert p[20..][6..14] == p[26..34] && p[20..][14..18] == p[34..38];
      LittleEndian(p[34..38]);
    }
  }

  /** The loss callback: of every counted frame that is between 2 and 2^31-1
      slots ahead, the total first and then the slots lost. */
  lemma LossCallback(cfg: Config, rx: Rx, p: seq<byte>)
    requires |p| >= 20 && (cfg.e2eStrict ==> Passes(cfg, p))
    ensures var counted := !cfg.validateE2e || Passes(cfg, p);
            var ahead := (Counter(p) - rx.loss.last) % 0x1_0000_0000;
            Handle(cfg, rx, p).losses ==
            if counted && cfg.lossCallback && !rx.loss.first && 2 <= ahead <= 2147483647
            then rx.losses + [LossReport((rx.loss.total + 1) % 0x1_0000_0000, (rx.loss.lost + ahead - 1) % 0x1_0000_0000)]
            else rx.losses
  {
    hide E2e.Verdict, E2e.Parse, TypedOf, WireOf, Quad;
    E2e.HeaderWrittenOut(p);
  }

  /** The typed callback: the message whose wire form follows the E2E header,
      with the next sequence number; none for any other body. */
  lemma TypedCallback(cfg: Config, rx: Rx, p: seq<byte>, parsed: Option<Rdi.Message>)
    requires |p| >= 20 && (cfg.e2eStrict ==> Passes(cfg, p)) && Rdi.ParsesTo(p[20..], parsed)
    ensures Handle(cfg, rx, p).typed ==
            if cfg.typedCallback && parsed.Some?
            then rx.typed + [TypedFrame(rx.frameSeq, Counter(p), cfg.validateE2e && Passes(cfg, p), parsed.value)]
            else rx.typed
  {
    hide E2e.Verdict, E2e.Parse, TypedOf, WireOf, LossOf, Track, Quad, Rdi.ParsesTo;
    E2e.HeaderWrittenOut(p);
    if cfg.typedCallback {
      TypedWhenParsed(cfg, rx.frameSeq, p, parsed);
    } else {
      NoTypedCallback(cfg, rx.frameSeq, p);
    }
  }

  /** The same rejection at the end of the wire: whatever order the datagrams of
      a frame that fails its check arrive in, strict mode makes no callback, and
      only the failure count moves. */
  lemma StrictEndToEnd(cfg: Config, lim: Limits, rx: Rx, p: seq<byte>, session: nat, picks: seq<nat>)
    requires 20 <= |p| <= lim.maxPayload && |p| + 15 < 0x1_0000_0000 && lim.maxSegment >= 1392
    requires RdiEndToEnd.CompletesLast(|RdiSender.Datagrams(p, session)|, picks) && Idle(rx.log, session % 0x1_0000)
    requires cfg.e2eStrict && !Passes(cfg, p)
    ensures ReceiveAll(cfg, lim, rx, RdiEndToEnd.Arrivals(p, session, picks))
         == rx.(log := [], failures := rx.failures + 1)
  {
    hide Passes, Handle, ReceiveAll, RdiEndToEnd.CompletesLast, RdiSender.Datagrams, Idle;
    RdiEndToEnd.EndToEnd(cfg, lim, rx, p, session, picks);
    StrictDrops(cfg, rx.(log := []), p);
  }
}
