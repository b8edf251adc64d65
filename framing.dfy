/** What one server connection does with the bytes its peer sends: read a
    4-byte header, stop on a zero length, give up on a length the buffer cannot
    hold, otherwise read that many body bytes, echo them and start over. Both
    servers are proved to follow these functions; the receives they make are
    the receives `Accumulate` makes. */
module Framing {
  import opened Frame
  import opened Transport

  /** How a connection's frame loop ends. */
  datatype Ending =
    | Disconnected    // a receive returned 0 bytes while bytes were still due
    | PeerClosed      // a header decoded to 0: the peer asks to close
    | TooLong         // a header declared more than BufferSize bytes
    | NegativeLength  // a header decoded to a negative length: the library call that gets it throws

  /** Closes recorded under `CloseByInvalidStream` for an ending. */
  function InvalidCloses(e: Ending): nat
  {
    if e == Disconnected || e == TooLong then 1 else 0
  }

  /** Closes recorded under `CloseByPeerCount` for an ending. */
  function PeerCloses(e: Ending): nat
  {
    if e == PeerClosed then 1 else 0
  }

  /** The result of reading a run of bytes: whether all of them came, the bytes
      that came, what is left to arrive, and how many receives it took. */
  datatype Filled = Filled(ok: bool, data: seq<Byte>, rest: Chunks, receives: nat)

  /** Receive until `n` bytes have come, asking each time for exactly the bytes
      still missing, and fail at the first receive that returns 0 bytes. */
  function Accumulate(cs: Chunks, n: nat): (f: Filled)
    decreases n
    ensures f.ok ==> |f.data| == n
    ensures !f.ok ==> |f.data| < n
  {
    if n == 0 then Filled(true, [], cs, 0)
    else
      var t := Take(cs, n);
      if t.data == [] then Filled(false, [], cs, 1)
      else
        var f := Accumulate(t.rest, n - |t.data|);
        Filled(f.ok, t.data + f.data, f.rest, f.receives + 1)
  }

  /** Accumulate neither loses nor invents bytes. */
  lemma {:induction false} AccumulateKeeps(cs: Chunks, n: nat)
    decreases n
    ensures var f := Accumulate(cs, n); Flatten(cs) == f.data + Flatten(f.rest)
  {
    if n > 0 {
      var t := Take(cs, n);
      TakeKeeps(cs, n);
      if t.data != [] {
        AccumulateKeeps(t.rest, n - |t.data|);
        var f := Accumulate(t.rest, n - |t.data|);
        assert (t.data + f.data) + Flatten(f.rest) == t.data + (f.data + Flatten(f.rest));
      }
    }
  }

  /** Accumulate stops short only at a shutdown, and keeps a stream free of
      shutdown markers free of them. */
  lemma {:induction false} AccumulateStops(cs: Chunks, n: nat)
    decreases n
    ensures var f := Accumulate(cs, n);
      && (!f.ok ==> AtEof(f.rest))
      && (NoEmpty(cs) ==> NoEmpty(f.rest))
  {
    if n > 0 {
      var t := Take(cs, n);
      TakeKeeps(cs, n);
      if t.data != [] {
        AccumulateStops(t.rest, n - |t.data|);
      }
    }
  }

  /** Accumulate receives only when it has something to get, and each receive
      but a failing last one brings at least one byte. */
  lemma {:induction false} AccumulateReceives(cs: Chunks, n: nat)
    decreases n
    ensures var f := Accumulate(cs, n);
      && (f.receives == 0 <==> n == 0)
      && f.receives <= |f.data| + (if f.ok then 0 else 1)
  {
    if n > 0 {
      var t := Take(cs, n);
      if t.data != [] {
        AccumulateReceives(t.rest, n - |t.data|);
      }
    }
  }

  /** Accumulate uses up at least what it delivers. */
  lemma {:induction false} AccumulateShrinks(cs: Chunks, n: nat)
    decreases n
    ensures Size(Accumulate(cs, n).rest) + |Accumulate(cs, n).data| <= Size(cs)
  {
    if n > 0 {
      var t := Take(cs, n);
      TakeShrinks(cs, n);
      if t.data != [] {
        AccumulateShrinks(t.rest, n - |t.data|);
      }
    }
  }

  /** Over a stream without shutdown markers, Accumulate gets `n` bytes exactly
      when that many bytes are there, and then they are the first `n`; otherwise
      it gets everything. */
  lemma {:induction false} AccumulateOnStream(cs: Chunks, n: nat)
    requires NoEmpty(cs)
    decreases n
    ensures var f := Accumulate(cs, n);
      && (f.ok <==> n <= |Flatten(cs)|)
      && (f.ok ==> f.data == Flatten(cs)[..n] && Flatten(f.rest) == Flatten(cs)[n..])
      && (!f.ok ==> f.data == Flatten(cs) && f.rest == [])
      && NoEmpty(f.rest)
  {
    if n > 0 {
      var t := Take(cs, n);
      TakeKeeps(cs, n);
      if t.data != [] {
        AccumulateOnStream(t.rest, n - |t.data|);
      }
    }
  }

  /** `d`, got in `k` receives, followed by `f`. */
  function After(d: seq<Byte>, k: nat, f: Filled): Filled
  {
    Filled(f.ok, d + f.data, f.rest, k + f.receives)
  }

  /** Accumulate as a loop runs it: `got` already came in `k` receives and
      `n` bytes are still missing. */
  function Receiving(cs: Chunks, n: nat, got: seq<Byte>, k: nat): Filled
    decreases n
  {
    if n == 0 then Filled(true, got, cs, k)
    else
      var t := Take(cs, n);
      if t.data == [] then Filled(false, got, cs, k + 1)
      else Receiving(t.rest, n - |t.data|, got + t.data, k + 1)
  }

  /** A receive that returns `data` and leaves `rest` moves Receiving on. */
  lemma ReceivingStep(cs: Chunks, n: nat, got: seq<Byte>, k: nat, data: seq<Byte>, rest: Chunks)
    requires n > 0 && data == Take(cs, n).data && rest == Take(cs, n).rest && data != []
    ensures Receiving(cs, n, got, k) == Receiving(rest, n - |data|, got + data, k + 1)
  {
  }

  /** A receive that returns nothing ends Receiving. */
  lemma ReceivingStop(cs: Chunks, n: nat, got: seq<Byte>, k: nat)
    requires n > 0 && Take(cs, n).data == []
    ensures Receiving(cs, n, got, k) == Filled(false, got, cs, k + 1)
  {
  }

  /** The loop form and the recursive form of Accumulate agree. */
  lemma {:induction false} ReceivingIsAccumulate(cs: Chunks, n: nat, got: seq<Byte>, k: nat)
    decreases n
    ensures Receiving(cs, n, got, k) == After(got, k, Accumulate(cs, n))
  {
    if n == 0 {
      assert got + [] == got;
    } else {
      var t := Take(cs, n);
      if t.data == [] {
        assert got + [] == got;
      } else {
        ReceivingIsAccumulate(t.rest, n - |t.data|, got + t.data, k + 1);
        var f := Accumulate(t.rest, n - |t.data|);
        assert (got + t.data) + f.data == got + (t.data + f.data);
      }
    }
  }

  /** `fill(stream, buffer, rest)` on a buffer of `capacity` bytes: refuse a
      request larger than the buffer without receiving, succeed at once on a
      request of 0 or less, otherwise Accumulate. */
  function Fill(cs: Chunks, rest: int, capacity: nat): (f: Filled)
    ensures f.ok ==> rest <= capacity && |f.data| == (if rest < 0 then 0 else rest)
    ensures !f.ok ==> |f.data| < rest
  {
    if rest > capacity then Filled(false, [], cs, 0)
    else if rest <= 0 then Filled(true, [], cs, 0)
    else Accumulate(cs, rest)
  }

  /** fill receives nothing exactly when it refuses the request or has
      nothing to get, and neither loses nor invents bytes. */
  lemma FillReceives(cs: Chunks, rest: int, capacity: nat)
    ensures var f := Fill(cs, rest, capacity);
      && (f.receives == 0 <==> rest <= 0 || rest > capacity)
      && Flatten(cs) == f.data + Flatten(f.rest)
  {
    if 0 < rest <= capacity {
      AccumulateKeeps(cs, rest);
      AccumulateReceives(cs, rest);
    }
  }

  /** What a connection has done: the bodies it echoed, in order, how it ended
      and how many receives it made. */
  datatype Outcome = Outcome(bodies: seq<seq<Byte>>, ending: Ending, receives: nat)

  function AddReads(k: nat, o: Outcome): Outcome
  {
    o.(receives := k + o.receives)
  }

  /** `o` behind bodies already echoed and receives already made. */
  function Behind(bodies: seq<seq<Byte>>, k: nat, o: Outcome): Outcome
  {
    Outcome(bodies + o.bodies, o.ending, k + o.receives)
  }

  /** The rest of a connection that has `got` header bytes and awaits the others. */
  function FromHeader(got: seq<Byte>, cs: Chunks): Outcome
    requires |got| <= HeaderSize
    decreases Size(cs), 2
  {
    AccumulateShrinks(cs, HeaderSize - |got|);
    var h := Accumulate(cs, HeaderSize - |got|);
    if !h.ok then Outcome([], Disconnected, h.receives)
    else AddReads(h.receives, AfterHeader(got + h.data, h.rest))
  }

  /** The rest of a connection whose header is complete. */
  function AfterHeader(header: seq<Byte>, cs: Chunks): Outcome
    requires |header| == HeaderSize
    decreases Size(cs), 1
  {
    var length := ToInt32(header);
    if length == 0 then Outcome([], PeerClosed, 0)
    else if length > BufferSize then Outcome([], TooLong, 0)
    else if length < 0 then Outcome([], NegativeLength, 0)
    else FromBody([], length, cs)
  }

  /** The rest of a connection that has `got` of a `length`-byte body. */
  function FromBody(got: seq<Byte>, length: nat, cs: Chunks): Outcome
    requires |got| < length <= BufferSize
    decreases Size(cs), 0
  {
    AccumulateShrinks(cs, length - |got|);
    var b := Accumulate(cs, length - |got|);
    if !b.ok then Outcome([], Disconnected, b.receives)
    else
      var o := FromHeader([], b.rest);
      Outcome([got + b.data] + o.bodies, o.ending, b.receives + o.receives)
  }

  /** A whole connection, from its first header on. */
  function Serve(cs: Chunks): Outcome
  {
    FromHeader([], cs)
  }

  /** A receive in the header phase that returns 0 bytes ends the connection. */
  lemma HeaderEof(got: seq<Byte>, cs: Chunks)
    requires |got| < HeaderSize && Take(cs, HeaderSize - |got|).data == []
    ensures FromHeader(got, cs) == Outcome([], Disconnected, 1)
  {
  }

  /** A receive in the header phase that leaves header bytes missing. */
  lemma HeaderPartial(got: seq<Byte>, cs: Chunks)
    requires |got| < HeaderSize
    requires var t := Take(cs, HeaderSize - |got|); t.data != [] && |got| + |t.data| < HeaderSize
    ensures var t := Take(cs, HeaderSize - |got|);
      FromHeader(got, cs) == AddReads(1, FromHeader(got + t.data, t.rest))
  {
    var need := HeaderSize - |got|;
    var t := Take(cs, need);
    var h := Accumulate(cs, need);
    var f := Accumulate(t.rest, need - |t.data|);
    assert h == Filled(f.ok, t.data + f.data, f.rest, f.receives + 1);
    assert got + h.data == (got + t.data) + f.data;
    assert FromHeader(got, cs) == if !h.ok then Outcome([], Disconnected, h.receives)
      else AddReads(h.receives, AfterHeader(got + h.data, h.rest));
    assert FromHeader(got + t.data, t.rest) == if !f.ok then Outcome([], Disconnected, f.receives)
      else AddReads(f.receives, AfterHeader(got + t.data + f.data, f.rest));
  }

  /** A receive in the header phase that completes the header. */
  lemma HeaderComplete(got: seq<Byte>, cs: Chunks)
    requires |got| < HeaderSize
    requires var t := Take(cs, HeaderSize - |got|); |got| + |t.data| == HeaderSize
    ensures var t := Take(cs, HeaderSize - |got|);
      FromHeader(got, cs) == AddReads(1, AfterHeader(got + t.data, t.rest))
  {
    var need := HeaderSize - |got|;
    var t := Take(cs, need);
    assert Accumulate(t.rest, 0) == Filled(true, [], t.rest, 0);
    assert Accumulate(cs, need) == Filled(true, t.data, t.rest, 1);
  }

  /** A receive in the body phase that returns 0 bytes ends the connection. */
  lemma BodyEof(got: seq<Byte>, length: nat, cs: Chunks)
    requires |got| < length <= BufferSize && Take(cs, length - |got|).data == []
    ensures FromBody(got, length, cs) == Outcome([], Disconnected, 1)
  {
  }

  /** A receive in the body phase that leaves body bytes missing. */
  lemma BodyPartial(got: seq<Byte>, length: nat, cs: Chunks)
    requires |got| < length <= BufferSize
    requires var t := Take(cs, length - |got|); t.data != [] && |got| + |t.data| < length
    ensures var t := Take(cs, length - |got|);
      FromBody(got, length, cs) == AddReads(1, FromBody(got + t.data, length, t.rest))
  {
    var need := length - |got|;
    var t := Take(cs, need);
    var b := Accumulate(cs, need);
    var f := Accumulate(t.rest, need - |t.data|);
    assert b == Filled(f.ok, t.data + f.data, f.rest, f.receives + 1);
    assert got + b.data == (got + t.data) + f.data;
  }

  /** A receive in the body phase that completes the body: it is echoed and
      the next frame starts. */
  lemma BodyComplete(got: seq<Byte>, length: nat, cs: Chunks)
    requires |got| < length <= BufferSize
    requires var t := Take(cs, length - |got|); |got| + |t.data| == length
    ensures var t := Take(cs, length - |got|); var o := Serve(t.rest);
      FromBody(got, length, cs) == Outcome([got + t.data] + o.bodies, o.ending, 1 + o.receives)
  {
    var need := length - |got|;
    var t := Take(cs, need);
    assert Accumulate(t.rest, 0) == Filled(true, [], t.rest, 0);
    assert Accumulate(cs, need) == Filled(true, t.data, t.rest, 1);
  }

  /** Serve, one header and one body at a time. */
  lemma ServeUnfold(cs: Chunks)
    ensures var h := Accumulate(cs, HeaderSize);
      Serve(cs) == if !h.ok then Outcome([], Disconnected, h.receives)
                   else AddReads(h.receives, AfterHeader(h.data, h.rest))
  {
    assert [] + Accumulate(cs, HeaderSize).data == Accumulate(cs, HeaderSize).data;
  }

  lemma BodyUnfold(length: nat, cs: Chunks)
    requires 0 < length <= BufferSize
    ensures var b := Accumulate(cs, length);
      FromBody([], length, cs) ==
        if !b.ok then Outcome([], Disconnected, b.receives)
        else var o := Serve(b.rest); Outcome([b.data] + o.bodies, o.ending, b.receives + o.receives)
  {
    assert [] + Accumulate(cs, length).data == Accumulate(cs, length).data;
  }

  /** A connection whose header does not arrive whole ends there. */
  lemma ServeNoHeader(cs: Chunks)
    requires !Accumulate(cs, HeaderSize).ok
    ensures Serve(cs) == Outcome([], Disconnected, Accumulate(cs, HeaderSize).receives)
  {
    ServeUnfold(cs);
  }

  /** A connection whose header declares no body the buffer can take ends
      there: a zero length on the peer's request, a longer one or a negative
      one with an error. */
  lemma ServeNoBody(cs: Chunks)
    requires var h := Accumulate(cs, HeaderSize);
      h.ok && !(0 < ToInt32(h.data) <= BufferSize)
    ensures var h := Accumulate(cs, HeaderSize); var length := ToInt32(h.data);
      Serve(cs) == Outcome([], if length == 0 then PeerClosed
                               else if length > BufferSize then TooLong
                               else NegativeLength, h.receives)
  {
    ServeUnfold(cs);
  }

  /** A connection with a header the buffer can take: if the body does not
      arrive whole the connection ends; otherwise the body is echoed and Serve
      goes on with what is left. */
  lemma ServeBody(cs: Chunks)
    requires var h := Accumulate(cs, HeaderSize);
      h.ok && 0 < ToInt32(h.data) <= BufferSize
    ensures var h := Accumulate(cs, HeaderSize); var b := Accumulate(h.rest, ToInt32(h.data));
      && (!b.ok ==> Serve(cs) == Outcome([], Disconnected, h.receives + b.receives))
      && (b.ok ==> Size(b.rest) < Size(cs))
      && (b.ok ==> var o := Serve(b.rest);
            Serve(cs) == Outcome([b.data] + o.bodies, o.ending, h.receives + b.receives + o.receives))
  {
    ServeUnfold(cs);
    var h := Accumulate(cs, HeaderSize);
    var length := ToInt32(h.data);
    BodyUnfold(length, h.rest);
    AccumulateShrinks(cs, HeaderSize);
    AccumulateShrinks(h.rest, length);
  }

  /** One pass of a blocking server's loop: how the connection ended (None
      when it goes on), the body echoed, the receives made and what is left. */
  datatype Pass = Pass(ending: Option<Ending>, body: seq<Byte>, receives: nat, rest: Chunks)

  /** Read a header and, when it declares a body the buffer can take, the body. */
  function EchoPass(cs: Chunks): Pass
  {
    var h := Accumulate(cs, HeaderSize);
    if !h.ok then Pass(Some(Disconnected), [], h.receives, h.rest)
    else var b := BodyPass(ToInt32(h.data), h.rest); b.(receives := h.receives + b.receives)
  }

  /** The part of EchoPass after a header that declares `length`. */
  function BodyPass(length: int, cs: Chunks): Pass
  {
    if length == 0 then Pass(Some(PeerClosed), [], 0, cs)
    else if length > BufferSize then Pass(Some(TooLong), [], 0, cs)
    else if length < 0 then Pass(Some(NegativeLength), [], 0, cs)
    else
      var b := Accumulate(cs, length);
      if !b.ok then Pass(Some(Disconnected), [], b.receives, b.rest)
      else Pass(None, b.data, b.receives, b.rest)
  }

  /** Serve is EchoPass repeated: a pass that ends the connection is all of it,
      and a pass that goes on consumes input and echoes one body in front of
      Serve of what is left. */
  lemma ServeByPasses(cs: Chunks)
    ensures var p := EchoPass(cs);
      && (p.ending.Some? ==> p.body == [] && Serve(cs) == Outcome([], p.ending.value, p.receives))
      && (p.ending.None? ==> Size(p.rest) < Size(cs) && Serve(cs) == Behind([p.body], p.receives, Serve(p.rest)))
  {
    var h := Accumulate(cs, HeaderSize);
    if !h.ok {
      ServeNoHeader(cs);
    } else if !(0 < ToInt32(h.data) <= BufferSize) {
      ServeNoBody(cs);
    } else {
      ServeBody(cs);
    }
  }

  /** The bytes of `bodies`, one after the other. */
  function Concat(bodies: seq<seq<Byte>>): seq<Byte>
  {
    if bodies == [] then [] else bodies[0] + Concat(bodies[1..])
  }

  /** Bodies a server can echo: not empty and within the buffer. */
  predicate Echoable(bodies: seq<seq<Byte>>)
  {
    forall i | 0 <= i < |bodies| :: 0 < |bodies[i]| <= BufferSize
  }

  /** What a well-behaved peer sends: each body behind its length header,
      then the zero-length close frame. */
  function Wire(bodies: seq<seq<Byte>>): seq<Byte>
    requires Echoable(bodies)
  {
    if bodies == [] then GetBytes(0)
    else GetBytes(|bodies[0]|) + bodies[0] + Wire(bodies[1..])
  }

  /** A header that arrives whole on a stream without shutdown markers. */
  lemma HeaderOnStream(v: int, cs: Chunks)
    requires IsInt32(v) && NoEmpty(cs) && GetBytes(v) <= Flatten(cs)
    ensures var h := Accumulate(cs, HeaderSize);
      h.ok && ToInt32(h.data) == v && Flatten(h.rest) == Flatten(cs)[HeaderSize..] && NoEmpty(h.rest)
  {
    AccumulateOnStream(cs, HeaderSize);
    assert Accumulate(cs, HeaderSize).data == Flatten(cs)[..HeaderSize] == GetBytes(v);
    DecodeEncode(v);
  }

  /** A whole frame with a body the buffer can hold, at the front of a stream
      without shutdown markers, is echoed, and the connection goes on with
      the bytes after it. */
  lemma OneFrame(b: seq<Byte>, cs: Chunks) returns (rest: Chunks)
    requires 0 < |b| <= BufferSize && NoEmpty(cs) && GetBytes(|b|) + b <= Flatten(cs)
    ensures NoEmpty(rest) && Flatten(rest) == Flatten(cs)[HeaderSize + |b|..]
    ensures Serve(cs).bodies == [b] + Serve(rest).bodies && Serve(cs).ending == Serve(rest).ending
  {
    ServeUnfold(cs);
    var h := Accumulate(cs, HeaderSize);
    HeaderOnStream(|b|, cs);
    AccumulateOnStream(h.rest, |b|);
    BodyUnfold(|b|, h.rest);
    var body := Accumulate(h.rest, |b|);
    assert body.data == b by {
      assert Flatten(h.rest) == Flatten(cs)[HeaderSize..];
      assert (GetBytes(|b|) + b)[HeaderSize..] == b;
    }
    rest := body.rest;
  }

  /** However the peer's bytes are cut into receives, a server given the frames
      of `bodies` followed by the close frame echoes exactly those bodies, in
      order, and ends on the peer's close request. */
  lemma {:induction false} ServeEchoesFrames(bodies: seq<seq<Byte>>, cs: Chunks)
    requires Echoable(bodies) && NoEmpty(cs)
    requires Wire(bodies) <= Flatten(cs)
    ensures Serve(cs).bodies == bodies && Serve(cs).ending == PeerClosed
  {
    if bodies == [] {
      ServeUnfold(cs);
      HeaderOnStream(0, cs);
    } else {
      var b := bodies[0];
      var w := GetBytes(|b|) + b + Wire(bodies[1..]);
      assert GetBytes(|b|) + b <= Flatten(cs) by {
        assert w[..HeaderSize + |b|] == GetBytes(|b|) + b;
      }
      var rest := OneFrame(b, cs);
      assert Wire(bodies[1..]) <= Flatten(rest) by {
        assert w[HeaderSize + |b|..] == Wire(bodies[1..]);
      }
      ServeEchoesFrames(bodies[1..], rest);
      assert bodies == [b] + bodies[1..];
    }
  }

  /** A header declaring more than BufferSize bytes ends the connection with
      nothing echoed and no receive after the header. */
  lemma OversizedIsAbandoned(length: int, cs: Chunks)
    requires IsInt32(length) && length > BufferSize
    requires NoEmpty(cs) && GetBytes(length) <= Flatten(cs)
    ensures Serve(cs) == Outcome([], TooLong, Accumulate(cs, HeaderSize).receives)
  {
    HeaderOnStream(length, cs);
    ServeUnfold(cs);
  }

  /** What a connection does depends only on the bytes its peer sends, not on
      how they are cut into receives (as long as the peer does not shut down). */
  lemma {:induction false} ServeIgnoresChunking(c1: Chunks, c2: Chunks)
    requires NoEmpty(c1) && NoEmpty(c2) && Flatten(c1) == Flatten(c2)
    ensures Serve(c1).bodies == Serve(c2).bodies && Serve(c1).ending == Serve(c2).ending
    decreases Size(c1)
  {
    AccumulateOnStream(c1, HeaderSize);
    AccumulateOnStream(c2, HeaderSize);
    ServeUnfold(c1);
    ServeUnfold(c2);
    var h1, h2 := Accumulate(c1, HeaderSize), Accumulate(c2, HeaderSize);
    if h1.ok {
      assert h1.data == h2.data;
      var length := ToInt32(h1.data);
      if 0 < length <= BufferSize {
        AccumulateOnStream(h1.rest, length);
        AccumulateOnStream(h2.rest, length);
        BodyUnfold(length, h1.rest);
        BodyUnfold(length, h2.rest);
        var b1, b2 := Accumulate(h1.rest, length), Accumulate(h2.rest, length);
        if b1.ok {
          AccumulateShrinks(c1, HeaderSize);
          AccumulateShrinks(h1.rest, length);
          ServeIgnoresChunking(b1.rest, b2.rest);
        }
      }
    }
  }
}
