/** The packet of commons/packet.hpp and its bytes on the wire. */
module Packets {
  import opened Bytes

  /** `length` is the payload's length; the pointer itself never travels. */
  datatype Packet = Packet(ptype: u16, seqn: u16, total: u32, payload: bytes)

  const LOGIN_REQ: u16 := 0
  const SYNC_DIR_REQ: u16 := 3
  const SYNC_DIR_ACCEPT_RESP: u16 := 4
  const UPLOAD_REQ: u16 := 6
  const UPLOAD_ACCEPT_RESP: u16 := 7
  const UPLOAD_REFUSE_RESP: u16 := 8
  const UPLOAD_BROADCAST: u16 := 9
  const DOWNLOAD_REQ: u16 := 10
  const DOWNLOAD_ACCEPT_RESP: u16 := 11
  const DOWNLOAD_REFUSE_RESP: u16 := 12
  const DELETE_REQ: u16 := 13
  const DELETE_ACCEPT_RESP: u16 := 14
  const DELETE_REFUSE_RESP: u16 := 15
  const LIST_REQ: u16 := 16
  const LIST_ACCEPT_RESP: u16 := 17
  const LIST_REFUSE_RESP: u16 := 18
  const LOGOUT_REQ: u16 := 19
  const LOGOUT_RESP: u16 := 20
  const STOP_SERVER_REQ: u16 := 21
  const UNKNOWN_RESP: u16 := 23
  const DELETE_BROADCAST: u16 := 24
  const JOIN_REQ: u16 := 32
  const JOIN_RESP: u16 := 33
  const VOTE: u16 := 34
  const YOUR_ID_RESP: u16 := 35
  const SIGNED_PACKET: u16 := 36

  /** sizeof(packet) - sizeof(char*) on a 64-bit build: 12 bytes of fields, 4 of padding. */
  const HEADER_SIZE: nat := 16

  /** `build_packet`: the payload is a C string, sent with its terminator. */
  function BuildPacket(ptype: u16, seqn: u16, total: u32, text: bytes): Packet {
    Packet(ptype, seqn, total, CStr(text) + "\0")
  }

  /** The text that `std::string(p._payload)` reads back. */
  function Text(p: Packet): bytes {
    CStr(p.payload)
  }

  lemma TextOfBuilt(ptype: u16, seqn: u16, total: u32, text: bytes)
    ensures Text(BuildPacket(ptype, seqn, total, text)) == text <==> '\0' !in text
  {
    CStrHasNoNul(text);
    CStrOfTerminated(CStr(text), []);
    assert CStr(text) + "\0" + [] == CStr(text) + "\0";
  }

  /** The whole packet, header included, has to be countable in an int. */
  predicate Sendable(p: Packet) {
    HEADER_SIZE + |p.payload| < TWO_31
  }

  /** The header bytes; `pad` is whatever the compiler left in the padding. */
  function Header(p: Packet, pad: bytes): (h: bytes)
    requires |p.payload| < TWO_32 && |pad| == 4
    ensures |h| == HEADER_SIZE
  {
    U16Bytes(p.ptype) + U16Bytes(p.seqn) + U32Bytes(p.total) + U32Bytes(|p.payload|) + pad
  }

  function Encode(p: Packet, pad: bytes): bytes
    requires |p.payload| < TWO_32 && |pad| == 4
  {
    Header(p, pad) + p.payload
  }

  function LengthField(h: bytes): u32
    requires |h| >= HEADER_SIZE
  {
    U32Of(h[8..12])
  }

  function WithHeader(h: bytes, payload: bytes): Packet
    requires |h| >= HEADER_SIZE
  {
    Packet(U16Of(h[0..2]), U16Of(h[2..4]), U32Of(h[4..8]), payload)
  }

  /** The bytes of a header give back the fields, whatever the padding holds and whatever follows. */
  lemma HeaderRoundTrip(p: Packet, pad: bytes, rest: bytes)
    requires |p.payload| < TWO_32 && |pad| == 4
    ensures LengthField(Header(p, pad) + rest) == |p.payload|
    ensures WithHeader(Header(p, pad) + rest, p.payload) == p
  {
    var h := Header(p, pad) + rest;
    assert h[0..2] == U16Bytes(p.ptype);
    assert h[2..4] == U16Bytes(p.seqn);
    assert h[4..8] == U32Bytes(p.total);
    assert h[8..12] == U32Bytes(|p.payload|);
    U16RoundTrip(p.ptype);
    U16RoundTrip(p.seqn);
    U32RoundTrip(p.total);
    U32RoundTrip(|p.payload|);
  }

  /** Where each byte of a packet is: little-endian fields, the padding, and then the payload. */
  lemma EncodeLayout(p: Packet, pad: bytes)
    requires |p.payload| < TWO_32 && |pad| == 4
    ensures var e, n := Encode(p, pad), |p.payload|;
            && |e| == 16 + n
            && e[0] as int == p.ptype % 256 && e[1] as int == p.ptype / 256
            && e[2] as int == p.seqn % 256 && e[3] as int == p.seqn / 256
            && e[4] as int == p.total % 256 && e[5] as int == p.total / 256 % 256
            && e[6] as int == p.total / 65536 % 256 && e[7] as int == p.total / 16777216
            && e[8] as int == n % 256 && e[9] as int == n / 256 % 256
            && e[10] as int == n / 65536 % 256 && e[11] as int == n / 16777216
            && e[12..16] == pad && e[16..] == p.payload
  {
  }

  /** A text travels with its terminator and nothing after it. */
  lemma BuiltPayload(ptype: u16, seqn: u16, total: u32, text: bytes)
    requires '\0' !in text
    ensures BuildPacket(ptype, seqn, total, text) == Packet(ptype, seqn, total, text + ['\0'])
  {
    CStrHasNoNul(text);
  }
}
