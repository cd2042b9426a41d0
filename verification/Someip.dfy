/** SOME/IP and SOME/IP-TP headers (src/protocol/someip.cpp, someip.h, and
    build_someip_header of tools/rdi_udp_sender.py). */
module Someip {
  import opened Bytes

  const SERVICE_ID := 0x6000
  const HEADER_SIZE := 16
  const TP_HEADER_SIZE := 4
  const TP_CHUNK_SIZE := 1392
  const PROTOCOL_VERSION := 1
  const INTERFACE_VERSION := 1
  const MSG_TYPE_NOTIFY := 0x02
  const MSG_TYPE_TP_NOTIFY := 0x22
  const TP_FLAG := 0x20

  datatype Header = Header(
    service: nat, methodId: nat, length: nat, client: nat, session: nat,
    protocol: nat, interface: nat, messageType: nat, returnCode: nat)
  {
    predicate InRange() {
      && service < 0x1_0000 && methodId < 0x1_0000 && length < 0x1_0000_0000
      && client < 0x1_0000 && session < 0x1_0000
      && protocol < 256 && interface < 256 && messageType < 256 && returnCode < 256
    }
  }

  /** Two 32-bit ids, split into halves, around the length; then four octets. */
  function Deserialize(buf: seq<byte>): Option<Header> {
    if |buf| < HEADER_SIZE then None
    else
      var messageId := FromBe(buf[0..4]);
      var requestId := FromBe(buf[8..12]);
      Some(Header((messageId / 0x1_0000) % 0x1_0000, messageId % 0x1_0000, FromBe(buf[4..8]),
                  (requestId / 0x1_0000) % 0x1_0000, requestId % 0x1_0000,
                  buf[12], buf[13], buf[14], buf[15]))
  }

  /** The sender packs the halves separately. */
  function Serialize(h: Header): (s: seq<byte>)
    requires h.InRange()
    ensures |s| == HEADER_SIZE
  {
    ToBe(2, h.service) + ToBe(2, h.methodId) + ToBe(4, h.length) + ToBe(2, h.client) + ToBe(2, h.session)
    + [h.protocol, h.interface, h.messageType, h.returnCode]
  }

  lemma HalvesOfWord(hi: nat, lo: nat)
    requires hi < 0x1_0000 && lo < 0x1_0000
    ensures FromBe(ToBe(2, hi) + ToBe(2, lo)) == hi * 0x1_0000 + lo
  {
    assert Capacity(1) == 256 && Capacity(2) == 0x1_0000;
    FromBeConcat(ToBe(2, hi), ToBe(2, lo));
    BeFieldOfWord(2, hi);
    BeFieldOfWord(2, lo);
    assert Shifted(1, hi) == 256 * hi;
  }

  /** Where every field of the header is. */
  lemma HeaderWrittenOut(buf: seq<byte>)
    requires |buf| >= 16
    ensures Deserialize(buf).Some?
    ensures var h := Deserialize(buf).value;
            && h.service == Pair(buf[0], buf[1]) && h.methodId == Pair(buf[2], buf[3])
            && h.length == Quad(buf[4], buf[5], buf[6], buf[7])
            && h.client == Pair(buf[8], buf[9]) && h.session == Pair(buf[10], buf[11])
            && h.protocol == buf[12] && h.interface == buf[13] && h.messageType == buf[14] && h.returnCode == buf[15]
  {
    hide FromBe;
    BigEndian(buf[0..4]);
    BigEndian(buf[4..8]);
    BigEndian(buf[8..12]);
    TwoHalves(buf[0], buf[1], buf[2], buf[3]);
    TwoHalves(buf[8], buf[9], buf[10], buf[11]);
  }

  lemma TwoHalves(a: byte, b: byte, c: byte, d: byte)
    ensures var word := Quad(a, b, c, d);
            (word / 0x1_0000) % 0x1_0000 == Pair(a, b) && word % 0x1_0000 == Pair(c, d)
  {
    assert Quad(a, b, c, d) == 0x1_0000 * Pair(a, b) + Pair(c, d);
    Halves(Pair(a, b), Pair(c, d));
  }

  lemma Halves(hi: nat, lo: nat)
    requires hi < 0x1_0000 && lo < 0x1_0000
    ensures var word := 0x1_0000 * hi + lo;
            (word / 0x1_0000) % 0x1_0000 == hi && word % 0x1_0000 == lo
  {
  }

  /** What the sender packs is what the receiver reads. */
  lemma HeaderRoundTrip(h: Header, rest: seq<byte>)
    requires h.InRange()
    ensures Deserialize(Serialize(h) + rest) == Some(h)
  {
    hide FromBe, ToBe;
    var s := Serialize(h) + rest;
    assert s[0..4] == ToBe(2, h.service) + ToBe(2, h.methodId);
    assert s[4..8] == ToBe(4, h.length);
    assert s[8..12] == ToBe(2, h.client) + ToBe(2, h.session);
    HalvesBack(h.service, h.methodId);
    HalvesBack(h.client, h.session);
    LengthBack(h.length);
  }

  lemma HalvesBack(hi: nat, lo: nat)
    requires hi < 0x1_0000 && lo < 0x1_0000
    ensures var word := FromBe(ToBe(2, hi) + ToBe(2, lo));
            (word / 0x1_0000) % 0x1_0000 == hi && word % 0x1_0000 == lo
  {
    hide FromBe, ToBe;
    HalvesOfWord(hi, lo);
  }

  lemma LengthBack(length: nat)
    requires length < 0x1_0000_0000
    ensures FromBe(ToBe(4, length)) == length
  {
    hide FromBe, ToBe;
    assert Capacity(2) == 0x1_0000 && Capacity(4) == 0x1_0000_0000;
    BeFieldOfWord(4, length);
  }

  // ---- SOME/IP-TP word: bits 31..4 offset in 16-byte units, bit 0 more-segments

  datatype TpHeader = TpHeader(offset: nat, more: bool, valid: bool)

  /** raw >> 4, raw & 1 and raw & 0x0E, on a 32-bit word. */
  function DecodeTpWord(raw: nat): TpHeader {
    TpHeader((raw / 16) * 16, raw % 2 == 1, (raw % 16) / 2 == 0)
  }

  function DeserializeTp(buf: seq<byte>): TpHeader
    requires |buf| >= TP_HEADER_SIZE
  {
    DecodeTpWord(FromBe(buf[0..4]))
  }

  /** (offset // 16 << 4) | more, as the sender packs it. */
  function TpWord(offset: nat, more: bool): nat {
    (offset / 16) * 16 + if more then 1 else 0
  }

  lemma Nibbles(high: nat, low: nat)
    requires low < 16
    ensures var n := 16 * high + low;
            n / 16 == high && n % 16 == low && n % 2 == low % 2
  {
  }

  lemma TpWordBack(offset: nat, more: bool)
    requires offset % 16 == 0 && offset + 15 < 0x1_0000_0000
    ensures TpWord(offset, more) < 0x1_0000_0000 && DecodeTpWord(TpWord(offset, more)) == TpHeader(offset, more, true)
  {
    Nibbles(offset / 16, if more then 1 else 0);
    assert TpWord(offset, more) == 16 * (offset / 16) + if more then 1 else 0;
  }

  lemma TpWordRoundTrip(offset: nat, more: bool, rest: seq<byte>)
    requires offset % 16 == 0 && offset + 15 < 0x1_0000_0000
    ensures DeserializeTp(ToBe(4, TpWord(offset, more)) + rest) == TpHeader(offset, more, true)
  {
    hide FromBe, ToBe, DecodeTpWord, TpWord;
    var s := ToBe(4, TpWord(offset, more)) + rest;
    assert s[0..4] == ToBe(4, TpWord(offset, more));
    TpWordBack(offset, more);
    LengthBack(TpWord(offset, more));
  }

  /** Offset, flag and reserved bits by the bytes of the word. */
  lemma TpWordWrittenOut(buf: seq<byte>)
    requires |buf| >= 4
    ensures var tp := DeserializeTp(buf);
            && tp.offset == Quad(buf[0], buf[1], buf[2], buf[3]) - buf[3] % 16
            && (tp.more <==> buf[3] % 2 == 1) && (tp.valid <==> buf[3] % 16 < 2)
  {
    hide FromBe;
    BigEndian(buf[0..4]);
    LowNibble(buf[0], buf[1], buf[2], buf[3]);
  }

  lemma LowNibble(a: byte, b: byte, c: byte, d: byte)
    ensures var raw := Quad(a, b, c, d);
            raw % 16 == d % 16 && raw % 2 == d % 2 && (raw / 16) * 16 == raw - d % 16
  {
    var high := 0x10_0000 * a + 0x1000 * b + 0x10 * c + d / 16;
    Nibbles(high, d % 16);
    Nibbles(d / 16, d % 16);
    assert Quad(a, b, c, d) == 16 * high + d % 16;
  }
}
