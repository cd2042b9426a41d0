/** The 24-byte ISO 23150 common interface header that starts every RDI, SHII
    and SPI payload. Multi-byte fields are little-endian. */
module IsoHeader {
  import opened Bytes

  const COMMON_HEADER_SIZE := 24

  datatype CommonHeader = CommonHeader(
    major: byte, minor: byte, patch: byte, interfaceId: byte, servingSensors: byte, sensorId: byte,
    timestamp: nat, messageCounter: nat, cycleTime: nat, cycleVariation: byte, qualifier: byte)
  {
    predicate InRange() {
      timestamp < Capacity(8) && messageCounter < Capacity(4) && cycleTime < Capacity(4)
    }
  }

  function Encode(h: CommonHeader): (s: seq<byte>)
    ensures |s| == COMMON_HEADER_SIZE
  {
    [h.major, h.minor, h.patch, h.interfaceId, h.servingSensors, h.sensorId]
    + ToLe(8, h.timestamp) + ToLe(4, h.messageCounter) + ToLe(4, h.cycleTime)
    + [h.cycleVariation, h.qualifier]
  }

  /** Field by field at its byte offset, as the parsers read it. */
  function Decode(p: seq<byte>): CommonHeader
    requires |p| >= COMMON_HEADER_SIZE
  {
    CommonHeader(p[0], p[1], p[2], p[3], p[4], p[5],
                 FromLe(p[6..14]), FromLe(p[14..18]), FromLe(p[18..22]), p[22], p[23])
  }

  lemma DecodeEncode(h: CommonHeader, rest: seq<byte>)
    requires h.InRange()
    ensures Decode(Encode(h) + rest) == h
  {
    hide FromLe, ToLe, Capacity;
    var p := Encode(h) + rest;
    assert p[6..14] == ToLe(8, h.timestamp) && p[14..18] == ToLe(4, h.messageCounter) && p[18..22] == ToLe(4, h.cycleTime);
    LeFieldOfWord(8, h.timestamp);
    LeFieldOfWord(4, h.messageCounter);
    LeFieldOfWord(4, h.cycleTime);
  }

  lemma EncodeDecode(p: seq<byte>)
    requires |p| >= COMMON_HEADER_SIZE
    ensures Decode(p).InRange() && Encode(Decode(p)) == p[..COMMON_HEADER_SIZE]
  {
    hide FromLe, ToLe, Capacity;
    WordOfLeField(p[6..14]);
    WordOfLeField(p[14..18]);
    WordOfLeField(p[18..22]);
  }
}
