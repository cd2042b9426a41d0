/** The RDI sender (tools/rdi_udp_sender.py): one frame as one SOME/IP datagram,
    or as SOME/IP-TP segments when it exceeds the transport chunk. */
module RdiSender {
  import opened Bytes
  import opened Someip
  import opened SomeipTp
  import opened TpRoundTrip
  import E2e

  const EVENT_RDI := 0x8002
  const DATA_ID_RDI := 0x6000_8002

  /** build_someip_header for an RDI event. */
  function NotifyHeader(length: nat, session: nat, messageType: nat): Header {
    Header(SERVICE_ID, EVENT_RDI, length, 1, session % 0x1_0000, PROTOCOL_VERSION, INTERFACE_VERSION, messageType, 0)
  }

  /** The datagram of one TP segment. */
  function SegmentDatagram(s: Segment): seq<byte>
    requires |s.data| <= TP_CHUNK_SIZE
  {
    Serialize(NotifyHeader(8 + 4 + |s.data|, s.session, MSG_TYPE_TP_NOTIFY)) + ToBe(4, TpWord(s.offset, s.more)) + s.data
  }

  function PlainDatagram(p: seq<byte>, session: nat): seq<byte>
    requires |p| <= TP_CHUNK_SIZE
  {
    Serialize(NotifyHeader(8 + |p|, session, MSG_TYPE_NOTIFY)) + p
  }

  /** Every datagram of a protected payload, in sending order. */
  function Datagrams(p: seq<byte>, session: nat): (ds: seq<seq<byte>>)
    ensures |ds| == if |p| <= TP_CHUNK_SIZE then 1 else SegmentCount(|p|)
  {
    if |p| <= TP_CHUNK_SIZE then [PlainDatagram(p, session)]
    else
      seq(SegmentCount(|p|), j requires 0 <= j < SegmentCount(|p|) => SegmentDatagram(SegmentAt(p, session % 0x1_0000, j)))
  }

  lemma OneDatagram(p: seq<byte>, session: nat)
    requires |p| <= TP_CHUNK_SIZE
    ensures Datagrams(p, session) == [PlainDatagram(p, session)]
  {
  }

  /** The next datagram, and where the one after it begins. */
  lemma NextDatagram(p: seq<byte>, session: nat, k: nat, offset: nat, size: nat, more: bool)
    requires TP_CHUNK_SIZE < |p| && offset == k * TP_CHUNK_SIZE < |p|
    requires size == (if TP_CHUNK_SIZE <= |p| - offset then TP_CHUNK_SIZE else |p| - offset)
    requires more <==> offset + size < |p|
    ensures k < SegmentCount(|p|) == |Datagrams(p, session)|
    ensures Datagrams(p, session)[k] == Serialize(NotifyHeader(8 + 4 + size, session, MSG_TYPE_TP_NOTIFY))
                                        + ToBe(4, TpWord(offset, more)) + p[offset..offset + size]
    ensures more ==> offset + (size / 16) * 16 == (k + 1) * TP_CHUNK_SIZE && k + 1 < SegmentCount(|p|)
    ensures !more ==> k + 1 == SegmentCount(|p|)
  {
    hide Serialize, ToBe, TpWord;
    assert SegmentAt(p, session % 0x1_0000, k) == Segment(p[offset..offset + size], offset, more, session % 0x1_0000);
  }

  /** send_rdi_frame_udp. */
  method SendFrame(rdiPayload: seq<byte>, session: nat, e2eCounter: nat) returns (sent: seq<seq<byte>>)
    ensures sent == Datagrams(E2e.Protect(DATA_ID_RDI, e2eCounter, rdiPayload), session)
  {
    hide E2e.Protect, Serialize, ToBe, TpWord, SegmentCount, Datagrams;
    var p := E2e.Protect(DATA_ID_RDI, e2eCounter, rdiPayload);
    if |p| <= TP_CHUNK_SIZE {
      OneDatagram(p, session);
      return [PlainDatagram(p, session)];
    }
    sent := [];
    var offset := 0;
    while offset < |p|
      invariant offset <= |p| && |sent| <= SegmentCount(|p|)
      invariant offset < |p| ==> offset == |sent| * TP_CHUNK_SIZE
      invariant offset == |p| ==> |sent| == SegmentCount(|p|)
      invariant sent == Datagrams(p, session)[..|sent|]
    {
      var remaining := |p| - offset;
      var chunkLen := if TP_CHUNK_SIZE <= remaining then TP_CHUNK_SIZE else remaining;
      var more := offset + chunkLen < |p|;
      var header := Serialize(NotifyHeader(8 + 4 + chunkLen, session, MSG_TYPE_TP_NOTIFY));
      var packet := header + ToBe(4, TpWord(offset, more)) + p[offset..offset + chunkLen];
      NextDatagram(p, session, |sent|, offset, chunkLen, more);
      sent := sent + [packet];
      if more {
        offset := offset + (chunkLen / 16) * 16;
      } else {
        offset := offset + chunkLen;
      }
    }
  }
}
