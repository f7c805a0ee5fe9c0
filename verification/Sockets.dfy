/** Packet framing over a byte stream that arrives in pieces (commons/socket/socket.cpp). */
module Sockets {
  import opened Bytes
  import opened Packets

  datatype ReadResult = Received(p: Packet) | ReadHeaderError | ReadPayloadError

  datatype Framed = Framed(result: ReadResult, rest: bytes)

  /** Taking one packet off a byte stream that ends after `stream`; a failed read has consumed everything. */
  function ReadOne(stream: bytes): Framed {
    if |stream| < HEADER_SIZE then Framed(ReadHeaderError, [])
    else
      var end := HEADER_SIZE + LengthField(stream);
      if |stream| < end then Framed(ReadPayloadError, [])
      else Framed(Received(WithHeader(stream, stream[HEADER_SIZE..end])), stream[end..])
  }

  function Flatten(chunks: seq<bytes>): bytes {
    if chunks == [] then [] else chunks[0] + Flatten(chunks[1..])
  }

  /** The payload loop counts in an int of its own: longer payloads are outside what the code can read. */
  predicate Countable(stream: bytes) {
    |stream| >= HEADER_SIZE ==> LengthField(stream) < TWO_31
  }

  class Socket {
    /** What has arrived and not been read, piece by piece; and everything written so far. */
    var chunks: seq<bytes>
    var written: bytes
    const buffer: array<byte>

    ghost predicate Valid()
      reads this
    {
      buffer.Length == HEADER_SIZE && forall k :: 0 <= k < |chunks| ==> chunks[k] != []
    }

    function Incoming(): bytes
      reads this
    {
      Flatten(chunks)
    }

    constructor (arriving: seq<bytes>)
      requires forall k :: 0 <= k < |arriving| ==> arriving[k] != []
      ensures Valid() && chunks == arriving && written == [] && fresh(buffer)
    {
      chunks := arriving;
      written := [];
      buffer := new byte[HEADER_SIZE];
    }

    /** read(2): some of the next piece, at least one byte, or nothing once the stream has ended. */
    method Read(want: nat) returns (got: bytes)
      requires Valid() && want > 0
      modifies this`chunks
      ensures Valid()
      ensures got + Incoming() == old(Incoming())
      ensures |got| <= want
      ensures got == [] <==> old(Incoming()) == []
    {
      if chunks == [] {
        return [];
      }
      var c := chunks[0];
      assert c in chunks;
      if |c| <= want {
        got, chunks := c, chunks[1..];
      } else {
        got := c[..want];
        ghost var before := chunks;
        chunks := [c[want..]] + chunks[1..];
        assert chunks[1..] == before[1..];
        assert got + c[want..] == c;
      }
    }

    /** The loop around read(2), for the header and for the payload: fill the buffer or run into the end. */
    method Fill(target: array<byte>) returns (full: bool)
      requires Valid()
      modifies this`chunks, target
      ensures Valid()
      ensures full ==> target[..] + Incoming() == old(Incoming())
      ensures !full ==> |old(Incoming())| < target.Length && Incoming() == []
    {
      ghost var stream := Incoming();
      var n := 0;
      while n < target.Length
        invariant 0 <= n <= target.Length && Valid()
        invariant target[..n] + Incoming() == stream
      {
        var got := Read(target.Length - n);
        if got == [] {
          return false;
        }
        ghost var seen := target[..n];
        forall k | 0 <= k < |got| {
          target[n + k] := got[k];
        }
        assert target[..n + |got|] == seen + got;
        n := n + |got|;
      }
      assert target[..] == target[..n];
      return true;
    }

    /** However the stream was cut into pieces, one packet comes off its front, or the error its end calls for. */
    method ReadPacket() returns (r: ReadResult)
      requires Valid() && Countable(Incoming())
      modifies this`chunks, buffer
      ensures Valid()
      ensures Framed(r, Incoming()) == ReadOne(old(Incoming()))
    {
      ghost var stream := Incoming();
      var full := Fill(buffer);
      if !full {
        return ReadHeaderError;
      }
      var header := buffer[..];
      assert header == stream[..HEADER_SIZE] && Incoming() == stream[HEADER_SIZE..];
      SameHeader(stream);
      var payload := new byte[LengthField(header)];
      full := Fill(payload);
      if !full {
        return ReadPayloadError;
      }
      ReadOneWhole(stream, payload[..], Incoming());
      return Received(WithHeader(header, payload[..]));
    }

    /** Every packet goes out in one write: header, whatever the padding holds, payload. */
    method WritePacket(p: Packet, pad: bytes)
      requires Sendable(p) && |pad| == 4
      modifies this`written
      ensures written == old(written) + Encode(p, pad)
    {
      var length := |p.payload|;
      var header := Header(p, pad);
      var out := new byte[HEADER_SIZE + length];
      forall k | 0 <= k < HEADER_SIZE {
        out[k] := header[k];
      }
      forall k | 0 <= k < length {
        out[HEADER_SIZE + k] := p.payload[k];
      }
      assert out[..] == Encode(p, pad);
      written := written + out[..];
    }

    /** Reading `count` packets in a row, up to the first failure. */
    method ReadPackets(count: nat) returns (ps: seq<Packet>)
      requires Valid() && forall k :: 0 <= k < count ==> Countable(ReadMany(Incoming(), k).rest)
      modifies this`chunks, buffer
      ensures Valid()
      ensures ps == ReadMany(old(Incoming()), count).ps && Incoming() == ReadMany(old(Incoming()), count).rest
    {
      ghost var stream := Incoming();
      ps := [];
      for k := 0 to count
        invariant Valid() && ReadMany(stream, k) == Batch(ps, Incoming(), true)
      {
        var r := ReadPacket();
        if !r.Received? {
          StopsAtFailure(stream, k + 1, count);
          return;
        }
        ps := ps + [r.p];
      }
    }
  }

  lemma ReadOneWhole(stream: bytes, payload: bytes, rest: bytes)
    requires |stream| >= HEADER_SIZE && |payload| == LengthField(stream)
    requires stream[HEADER_SIZE..] == payload + rest
    ensures ReadOne(stream) == Framed(Received(WithHeader(stream, payload)), rest)
  {
    var end := HEADER_SIZE + |payload|;
    assert stream[HEADER_SIZE..end] == stream[HEADER_SIZE..][..|payload|] == payload;
    assert stream[end..] == stream[HEADER_SIZE..][|payload|..] == rest;
  }

  lemma SameHeader(stream: bytes)
    requires |stream| >= HEADER_SIZE
    ensures LengthField(stream[..HEADER_SIZE]) == LengthField(stream)
    ensures forall payload :: WithHeader(stream[..HEADER_SIZE], payload) == WithHeader(stream, payload)
  {
    assert stream[..HEADER_SIZE][0..2] == stream[0..2];
    assert stream[..HEADER_SIZE][2..4] == stream[2..4];
    assert stream[..HEADER_SIZE][4..8] == stream[4..8];
    assert stream[..HEADER_SIZE][8..12] == stream[8..12];
  }

  /** The packets read so far, what is left of the stream, and whether every read has succeeded. */
  datatype Batch = Batch(ps: seq<Packet>, rest: bytes, ok: bool)

  function ReadMany(stream: bytes, count: nat): Batch {
    if count == 0 then Batch([], stream, true)
    else
      var b := ReadMany(stream, count - 1);
      if !b.ok then b
      else
        var f := ReadOne(b.rest);
        if f.result.Received? then Batch(b.ps + [f.result.p], f.rest, true) else Batch(b.ps, f.rest, false)
  }

  lemma {:induction false} StopsAtFailure(stream: bytes, k: nat, count: nat)
    requires k <= count && !ReadMany(stream, k).ok
    ensures ReadMany(stream, count) == ReadMany(stream, k)
  {
    if k < count {
      StopsAtFailure(stream, k, count - 1);
    }
  }

  datatype RawFrame = Frame(p: Packet, pad: bytes)

  /** A packet that can be sent, with the padding it goes out with. */
  type Frame = f: RawFrame | Sendable(f.p) && |f.pad| == 4 witness Frame(Packet(0, 0, 0, []), "    ")

  function PacketsOf(fs: seq<Frame>): seq<Packet> {
    if fs == [] then [] else PacketsOf(fs[..|fs| - 1]) + [fs[|fs| - 1].p]
  }

  /** Packets written back to back. */
  function EncodeAll(fs: seq<Frame>): bytes {
    if fs == [] then [] else EncodeAll(fs[..|fs| - 1]) + Encode(fs[|fs| - 1].p, fs[|fs| - 1].pad)
  }

  lemma ReadOneOfEncoded(p: Packet, pad: bytes, rest: bytes)
    requires Sendable(p) && |pad| == 4
    ensures ReadOne(Encode(p, pad) + rest) == Framed(Received(p), rest)
    ensures Countable(Encode(p, pad) + rest)
  {
    var stream := Encode(p, pad) + rest;
    assert stream == Header(p, pad) + (p.payload + rest);
    HeaderRoundTrip(p, pad, p.payload + rest);
    var end := HEADER_SIZE + |p.payload|;
    assert stream[HEADER_SIZE..end] == p.payload;
    assert stream[end..] == rest;
  }

  /** Reading packets written back to back gives exactly those packets and consumes exactly their bytes. */
  lemma {:induction false} FramingRoundTrip(fs: seq<Frame>, rest: bytes)
    ensures ReadMany(EncodeAll(fs) + rest, |fs|) == Batch(PacketsOf(fs), rest, true)
    ensures forall k :: 0 <= k < |fs| ==> Countable(ReadMany(EncodeAll(fs) + rest, k).rest)
  {
    if fs == [] {
      assert [] + rest == rest;
    } else {
      var before, f := fs[..|fs| - 1], fs[|fs| - 1];
      var later := Encode(f.p, f.pad) + rest;
      FramingRoundTrip(before, later);
      assert EncodeAll(fs) + rest == EncodeAll(before) + later;
      ReadOneOfEncoded(f.p, f.pad, rest);
    }
  }

  /** The same over sockets: whatever pieces the written bytes arrive in, the reader gets the packets written. */
  method Transfer(fs: seq<Frame>, pieces: seq<bytes>) returns (got: seq<Packet>)
    requires forall k :: 0 <= k < |pieces| ==> pieces[k] != []
    requires Flatten(pieces) == EncodeAll(fs)
    ensures got == PacketsOf(fs)
  {
    FramingRoundTrip(fs, []);
    assert EncodeAll(fs) + [] == EncodeAll(fs);
    var socket := new Socket(pieces);
    got := socket.ReadPackets(|fs|);
  }

  // ------------------------------------------------------------------ streams that end early

  lemma CutPacket(p: Packet, pad: bytes, k: nat)
    requires Sendable(p) && |pad| == 4 && k < |Encode(p, pad)|
    ensures ReadOne(Encode(p, pad)[..k]).result == if k < HEADER_SIZE then ReadHeaderError else ReadPayloadError
    ensures Countable(Encode(p, pad)[..k])
  {
    if k >= HEADER_SIZE {
      var rest := p.payload[..k - HEADER_SIZE];
      assert Encode(p, pad)[..k] == Header(p, pad) + rest;
      HeaderRoundTrip(p, pad, rest);
    }
  }

  /**
   * A peer that dies inside a packet: the packets written whole before it are read, and the read of the broken one
   * fails, in the header or in the payload, wherever the stream ends and in whatever pieces it arrived.
   */
  method TransferCut(fs: seq<Frame>, p: Packet, pad: bytes, k: nat, pieces: seq<bytes>)
    returns (got: seq<Packet>, last: ReadResult)
    requires Sendable(p) && |pad| == 4 && k < |Encode(p, pad)|
    requires forall j :: 0 <= j < |pieces| ==> pieces[j] != []
    requires Flatten(pieces) == EncodeAll(fs) + Encode(p, pad)[..k]
    ensures got == PacketsOf(fs)
    ensures last == if k < HEADER_SIZE then ReadHeaderError else ReadPayloadError
  {
    FramingRoundTrip(fs, Encode(p, pad)[..k]);
    CutPacket(p, pad, k);
    var socket := new Socket(pieces);
    got := socket.ReadPackets(|fs|);
    last := socket.ReadPacket();
  }

  /** Reading on after that gives nothing more, however many packets are asked for. */
  lemma NothingAfterCut(fs: seq<Frame>, p: Packet, pad: bytes, k: nat, count: nat)
    requires Sendable(p) && |pad| == 4 && k < |Encode(p, pad)| && count > |fs|
    ensures ReadMany(EncodeAll(fs) + Encode(p, pad)[..k], count).ps == PacketsOf(fs)
  {
    var stream := EncodeAll(fs) + Encode(p, pad)[..k];
    FramingRoundTrip(fs, Encode(p, pad)[..k]);
    CutPacket(p, pad, k);
    StopsAtFailure(stream, |fs| + 1, count);
  }
}
