/** A client's packet wrapped with its user's name, as the master forwards it (internal_router.cpp). */
module Signing {
  import opened Bytes
  import opened Packets

  datatype Signed = Signed(p: Packet, user: bytes)

  predicate Signable(p: Packet, user: bytes) {
    2 * HEADER_SIZE + |p.payload| + |user| + 1 < TWO_31
  }

  function Sign(p: Packet, pad: bytes, user: bytes): Packet
    requires Signable(p, user) && |pad| == 4
  {
    Packet(SIGNED_PACKET, 0, 1, Encode(p, pad) + user + "\0")
  }

  /** The inner packet has to fit, and a terminated name to follow: the code does not check either. */
  predicate WellSigned(p: Packet) {
    p.ptype == SIGNED_PACKET ==>
      && |p.payload| >= HEADER_SIZE
      && |p.payload| >= HEADER_SIZE + LengthField(p.payload)
      && '\0' in p.payload[HEADER_SIZE + LengthField(p.payload)..]
  }

  function Extract(p: Packet): Signed
    requires WellSigned(p)
  {
    if p.ptype != SIGNED_PACKET then Signed(p, [])
    else
      var end := HEADER_SIZE + LengthField(p.payload);
      Signed(WithHeader(p.payload, p.payload[HEADER_SIZE..end]), CStr(p.payload[end..]))
  }

  /** Unwrapping gives the packet back whole, and the user's name exactly when it holds no NUL. */
  lemma SignatureRoundTrip(p: Packet, pad: bytes, user: bytes)
    requires Signable(p, user) && |pad| == 4
    ensures WellSigned(Sign(p, pad, user))
    ensures Extract(Sign(p, pad, user)).p == p
    ensures Extract(Sign(p, pad, user)).user == user <==> '\0' !in user
  {
    var payload, end := Sign(p, pad, user).payload, HEADER_SIZE + |p.payload|;
    assert payload == Header(p, pad) + (p.payload + user + "\0");
    HeaderRoundTrip(p, pad, p.payload + user + "\0");
    assert payload[HEADER_SIZE..end] == p.payload;
    assert payload[end..] == user + "\0";
    assert (user + "\0")[|user|] == '\0';
    CStrOfTerminated(user, []);
    assert user + "\0" + [] == user + "\0";
  }

  /** The packet's bytes as they would travel alone, then the user's name with its terminator. */
  lemma SignedLayout(p: Packet, pad: bytes, user: bytes)
    requires Signable(p, user) && |pad| == 4
    ensures var w, n := Sign(p, pad, user), HEADER_SIZE + |p.payload|;
            && w.ptype == SIGNED_PACKET && w.seqn == 0 && w.total == 1 && |w.payload| == n + |user| + 1
            && w.payload[..n] == Encode(p, pad) && w.payload[n..n + |user|] == user && w.payload[n + |user|] == '\0'
  {
  }

  /** Bytes after the terminated name do not matter, and a packet that is not signed passes through as it is. */
  lemma UnwrapsTheRest(p: Packet, pad: bytes, user: bytes, rest: bytes, other: Packet)
    requires Signable(p, user) && |pad| == 4 && '\0' !in user && other.ptype != SIGNED_PACKET
    ensures var w := Sign(p, pad, user);
            var longer := w.(payload := w.payload + rest);
            WellSigned(longer) && Extract(longer) == Signed(p, user)
    ensures Extract(other) == Signed(other, [])
  {
    var w, n := Sign(p, pad, user), HEADER_SIZE + |p.payload|;
    var payload := w.payload + rest;
    var tail := p.payload + user + "\0" + rest;
    assert payload == Header(p, pad) + tail;
    HeaderRoundTrip(p, pad, tail);
    assert payload[HEADER_SIZE..n] == p.payload;
    assert payload[n..] == user + "\0" + rest;
    assert (user + "\0" + rest)[|user|] == '\0';
    CStrOfTerminated(user, rest);
  }

  method SignPacket(p: Packet, pad: bytes, user: bytes) returns (signed: Packet)
    requires Signable(p, user) && |pad| == 4
    ensures signed == Sign(p, pad, user)
  {
    var header, length := Header(p, pad), |p.payload|;
    var buff := new byte[HEADER_SIZE + length + |user| + 1];
    forall k | 0 <= k < HEADER_SIZE {
      buff[k] := header[k];
    }
    forall k | 0 <= k < length {
      buff[HEADER_SIZE + k] := p.payload[k];
    }
    forall k | 0 <= k < |user| + 1 {
      buff[HEADER_SIZE + length + k] := (user + "\0")[k];
    }
    assert buff[..] == header + p.payload + user + "\0";
    signed := Packet(SIGNED_PACKET, 0, 1, buff[..]);
  }

  method ExtractSignature(p: Packet) returns (s: Signed)
    requires WellSigned(p)
    ensures s == Extract(p)
  {
    if p.ptype != SIGNED_PACKET {
      return Signed(p, []);
    }
    var length := LengthField(p.payload);
    var payload := new byte[length];
    forall k | 0 <= k < length {
      payload[k] := p.payload[HEADER_SIZE + k];
    }
    assert payload[..] == p.payload[HEADER_SIZE..HEADER_SIZE + length];
    s := Signed(WithHeader(p.payload, payload[..]), CStr(p.payload[HEADER_SIZE + length..]));
  }
}
