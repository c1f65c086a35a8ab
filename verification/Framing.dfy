/** Length-prefixed frames: a four-byte big-endian length, then the payload. */
module Framing {
  import opened Prelude

  const HEADER: nat := 4

  datatype FrameError = MessageTooLarge(size: nat, max: nat)

  /** `payload.len() as u32` keeps the low four bytes of the length. */
  function Frame(p: bytes): bytes {
    ToBigEndian(|p|, HEADER) + p
  }

  /** The first four bytes, most significant first, are the length; the payload follows unchanged. */
  lemma FrameLayout(p: bytes)
    requires |p| < 0x1_0000_0000
    ensures |Frame(p)| == 4 + |p| && FromBigEndian(Frame(p)[..4]) == |p| && Frame(p)[4..] == p
  {
    assert Pow256(4) == 0x1_0000_0000;
    EncodeThenDecodeExact(|p|, 4);
    assert Frame(p)[..4] == ToBigEndian(|p|, 4);
  }

  datatype Decoded = TooLarge(size: nat) | Incomplete | Complete(payload: bytes, rest: bytes)

  function Decode(max: nat, buf: bytes): Decoded {
    if |buf| < HEADER then Incomplete
    else
      var len := FromBigEndian(buf[..HEADER]);
      if len > max then TooLarge(len)
      else if |buf| < HEADER + len then Incomplete
      else Complete(buf[HEADER..HEADER + len], buf[HEADER + len..])
  }

  /** A receive buffer together with the codec that drains it. */
  class LengthPrefixCodec {
    const maxMessageSize: nat
    var buf: bytes

    constructor (max: nat)
      ensures maxMessageSize == max && buf == []
    {
      maxMessageSize := max;
      buf := [];
    }

    method Encode(p: bytes) returns (r: Result<bytes, FrameError>)
      ensures r == if |p| > maxMessageSize then Err(MessageTooLarge(|p|, maxMessageSize)) else Ok(Frame(p))
    {
      if |p| > maxMessageSize { return Err(MessageTooLarge(|p|, maxMessageSize)); }
      return Ok(ToBigEndian(|p|, HEADER) + p);
    }

    /** Takes one frame off the buffer; an incomplete or refused frame stays where it is. */
    method DecodeFrame() returns (r: Result<Option<bytes>, FrameError>)
      modifies this`buf
      ensures match Decode(maxMessageSize, old(buf))
              case TooLarge(size) => r == Err(MessageTooLarge(size, maxMessageSize)) && buf == old(buf)
              case Incomplete => r == Ok(None) && buf == old(buf)
              case Complete(payload, rest) => r == Ok(Some(payload)) && buf == rest
    {
      if |buf| < HEADER { return Ok(None); }
      var len := FromBigEndian(buf[..HEADER]);
      if len > maxMessageSize { return Err(MessageTooLarge(len, maxMessageSize)); }
      if |buf| < HEADER + len { return Ok(None); }
      var payload := buf[HEADER..HEADER + len];
      buf := buf[HEADER + len..];
      return Ok(Some(payload));
    }

    /** Append what arrived and take off every complete frame. */
    method Receive(chunk: bytes) returns (payloads: seq<bytes>, failed: bool)
      modifies this`buf
      ensures (payloads, buf, failed) == Drain(maxMessageSize, old(buf) + chunk)
    {
      buf := buf + chunk;
      payloads, failed := [], false;
      ghost var whole := Drain(maxMessageSize, buf);
      while true
        invariant !failed
        invariant whole.0 == payloads + Drain(maxMessageSize, buf).0
        invariant whole.1 == Drain(maxMessageSize, buf).1 && whole.2 == Drain(maxMessageSize, buf).2
        decreases |buf|
      {
        var r := DecodeFrame();
        if r.Err? {
          assert payloads + [] == payloads;
          failed := true;
          return;
        }
        if r.value.None? {
          assert payloads + [] == payloads;
          return;
        }
        payloads := payloads + [r.value.value];
      }
    }
  }

  /** All complete frames of a buffer, what is left of it, and whether a frame was refused. */
  function Drain(max: nat, buf: bytes): (seq<bytes>, bytes, bool)
    decreases |buf|
  {
    match Decode(max, buf)
    case TooLarge(_) => ([], buf, true)
    case Incomplete => ([], buf, false)
    case Complete(payload, rest) => var d := Drain(max, rest); ([payload] + d.0, d.1, d.2)
  }

  /** Feed chunks one after the other, draining after each. */
  function Feed(max: nat, buf: bytes, chunks: seq<bytes>): (seq<bytes>, bytes, bool)
    decreases |chunks|
  {
    if chunks == [] then Drain(max, buf)
    else
      var d := Drain(max, buf + chunks[0]);
      if d.2 then d
      else var f := Feed(max, d.1, chunks[1..]); (d.0 + f.0, f.1, f.2)
  }

  function Concat(xs: seq<bytes>): bytes {
    if xs == [] then [] else xs[0] + Concat(xs[1..])
  }

  function Frames(ps: seq<bytes>): bytes {
    if ps == [] then [] else Frame(ps[0]) + Frames(ps[1..])
  }

  ghost predicate Sendable(max: nat, p: bytes) {
    |p| <= max && |p| < Pow256(HEADER)
  }

  // ---------- One frame ----------

  lemma FrameHeader(p: bytes, more: bytes)
    ensures |Frame(p) + more| >= HEADER && FromBigEndian((Frame(p) + more)[..HEADER]) == |p| % Pow256(HEADER)
  {
    EncodeThenDecode(|p|, HEADER);
    assert (Frame(p) + more)[..HEADER] == ToBigEndian(|p|, HEADER);
  }

  lemma DecodeOwnFrame(max: nat, p: bytes, more: bytes)
    requires Sendable(max, p)
    ensures Decode(max, Frame(p) + more) == Complete(p, more)
  {
    FrameHeader(p, more);
    var buf := Frame(p) + more;
    assert buf[HEADER..HEADER + |p|] == p && buf[HEADER + |p|..] == more;
  }

  /**
    `encode` accepts every payload up to the configured maximum. A frame carries
    its payload exactly when the length fits in the four header bytes.
   */
  lemma FrameRoundTripExactlyWhen(max: nat, p: bytes)
    requires |p| <= max
    ensures Decode(max, Frame(p)) == Complete(p, []) <==> |p| < Pow256(HEADER)
  {
    assert Frame(p) + [] == Frame(p);
    FrameHeader(p, []);
    if |p| < Pow256(HEADER) { DecodeOwnFrame(max, p, []); }
  }

  // ---------- Streams ----------

  /** More bytes never change what was already complete. */
  lemma DecodeExtends(max: nat, buf: bytes, more: bytes)
    ensures Decode(max, buf).Complete? ==>
              Decode(max, buf + more) == Complete(Decode(max, buf).payload, Decode(max, buf).rest + more)
    ensures Decode(max, buf).TooLarge? ==> Decode(max, buf + more) == Decode(max, buf)
  {
    if |buf| >= HEADER {
      var len := FromBigEndian(buf[..HEADER]);
      assert (buf + more)[..HEADER] == buf[..HEADER];
      if len <= max && HEADER + len <= |buf| {
        assert (buf + more)[HEADER..HEADER + len] == buf[HEADER..HEADER + len];
        assert (buf + more)[HEADER + len..] == buf[HEADER + len..] + more;
      }
    }
  }

  /** Draining what is left together with later bytes continues the earlier drain. */
  ghost predicate Continues(
      d: (seq<bytes>, bytes, bool), e: (seq<bytes>, bytes, bool), all: (seq<bytes>, bytes, bool)) {
    all.0 == d.0 + e.0 && all.1 == e.1 && all.2 == e.2
  }

  lemma ContinuesAfter(
      payload: bytes, d: (seq<bytes>, bytes, bool), e: (seq<bytes>, bytes, bool), all: (seq<bytes>, bytes, bool))
    requires Continues(d, e, all)
    ensures Continues(([payload] + d.0, d.1, d.2), e, ([payload] + all.0, all.1, all.2))
  {
    assert [payload] + (d.0 + e.0) == ([payload] + d.0) + e.0;
  }

  lemma {:induction false} DrainExtends(max: nat, buf: bytes, more: bytes)
    requires !Drain(max, buf).2
    ensures Continues(Drain(max, buf), Drain(max, Drain(max, buf).1 + more), Drain(max, buf + more))
    decreases |buf|
  {
    DecodeExtends(max, buf, more);
    match Decode(max, buf)
    case TooLarge(_) =>
    case Incomplete =>
    case Complete(payload, rest) =>
      DrainExtends(max, rest, more);
      ContinuesAfter(payload, Drain(max, rest), Drain(max, Drain(max, rest).1 + more), Drain(max, rest + more));
  }

  lemma {:induction false} DrainRefused(max: nat, buf: bytes, more: bytes)
    requires Drain(max, buf).2
    ensures Drain(max, buf + more).2
    decreases |buf|
  {
    DecodeExtends(max, buf, more);
    if Decode(max, buf).Complete? { DrainRefused(max, Decode(max, buf).rest, more); }
  }

  /** However the bytes are cut into chunks, draining after each gives the same as draining once at the end. */
  lemma {:induction false} FeedIsDrain(max: nat, buf: bytes, chunks: seq<bytes>)
    ensures !Drain(max, buf + Concat(chunks)).2 ==> Feed(max, buf, chunks) == Drain(max, buf + Concat(chunks))
    ensures Drain(max, buf + Concat(chunks)).2 ==> Feed(max, buf, chunks).2
    decreases |chunks|
  {
    if chunks == [] {
      assert buf + [] == buf;
    } else {
      var b := buf + chunks[0];
      var tail := Concat(chunks[1..]);
      assert buf + Concat(chunks) == b + tail;
      if Drain(max, b).2 {
        DrainRefused(max, b, tail);
      } else {
        DrainExtends(max, b, tail);
        FeedIsDrain(max, Drain(max, b).1, chunks[1..]);
      }
    }
  }

  lemma {:induction false} DrainFrames(max: nat, ps: seq<bytes>)
    requires forall i :: 0 <= i < |ps| ==> Sendable(max, ps[i])
    ensures Drain(max, Frames(ps)) == (ps, [], false)
    decreases |ps|
  {
    if ps != [] {
      DecodeOwnFrame(max, ps[0], Frames(ps[1..]));
      DrainFrames(max, ps[1..]);
      assert [ps[0]] + ps[1..] == ps;
    }
  }

  /** Every list of sendable payloads arrives complete and in order, whatever the cut of the stream. */
  lemma StreamDelivers(max: nat, ps: seq<bytes>, chunks: seq<bytes>)
    requires forall i :: 0 <= i < |ps| ==> Sendable(max, ps[i])
    requires Concat(chunks) == Frames(ps)
    ensures Feed(max, [], chunks) == (ps, [], false)
  {
    DrainFrames(max, ps);
    FeedIsDrain(max, [], chunks);
    assert [] + Concat(chunks) == Frames(ps);
  }

  /**
    After any prefix of the stream the payloads handed over are a prefix of those
    sent, and the buffer holds the rest of the prefix.
   */
  lemma PartialStream(max: nat, ps: seq<bytes>, chunks: seq<bytes>, later: bytes)
    requires forall i :: 0 <= i < |ps| ==> Sendable(max, ps[i])
    requires Concat(chunks) + later == Frames(ps)
    ensures var f := Feed(max, [], chunks); !f.2 && f.0 <= ps && Drain(max, f.1 + later) == (ps[|f.0|..], [], false)
  {
    DrainFrames(max, ps);
    FeedIsDrain(max, [], chunks);
    var a := Concat(chunks);
    assert [] + a == a;
    if Drain(max, a).2 { DrainRefused(max, a, later); }
    DrainExtends(max, a, later);
  }
}
