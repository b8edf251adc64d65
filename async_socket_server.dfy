/** The callback server (`AsyncSocketServer`): each connection is a
    `StateObject` driven by receive completions. `acceptCallback` starts the
    header phase; every `readCallback` takes the bytes of one receive, moves
    `Rest`, and issues the next receive, echoes a complete body with a loop of
    `Send` calls, or stops. Completions of one connection come one after
    another, so a connection is a sequence of callback steps here. */
module AsyncSocket {
  import opened Frame
  import opened Transport
  import opened Metrics
  import opened Framing

  /** The buffer position and byte count of a `BeginReceive`. */
  datatype Request = Request(offset: int, count: int)

  /** The receive that continues a header with `rest` bytes missing: just
      behind the `HeaderSize - rest` bytes already there, for the rest. */
  function HeaderReceive(rest: int): (r: Request)
    ensures r.offset + r.count == HeaderSize
    ensures 0 < rest <= HeaderSize ==> 0 <= r.offset < HeaderSize && r.count == rest
  {
    Request(HeaderSize - rest, rest)
  }

  /** The header continuation as `readCallback` issues it: at offset `rest`,
      for `HeaderSize - rest` bytes. */
  function HeaderReceiveAsWritten(rest: int): Request
  {
    Request(rest, HeaderSize - rest)
  }

  /** The receive that continues a `length`-byte body with `rest` bytes
      missing. */
  function BodyReceive(length: int, rest: int): (r: Request)
    ensures r.offset + r.count == length
    ensures 0 < rest <= length ==> 0 <= r.offset < length && r.count == rest
  {
    Request(length - rest, rest)
  }

  // The header phase on its own, with either continuation.

  /** The header buffer, how many bytes `Rest` still counts as missing, what
      is left to arrive, the receives made, and whether the header phase ended
      with `Rest == 0`. A negative `rest` is the "buffer over flow" branch:
      the callback logs and issues no further receive. */
  datatype Assembly = Assembly(header: seq<Byte>, rest: int, left: Chunks, receives: nat, complete: bool)

  function Continue(asWritten: bool, rest: int): Request
  {
    if asWritten then HeaderReceiveAsWritten(rest) else HeaderReceive(rest)
  }

  /** The header phase from a pending receive `req` with `rest` bytes missing,
      one completion at a time, continuing with the corrected receive or with
      the one `readCallback` issues. */
  function AssembleHeader(asWritten: bool, buffer: seq<Byte>, req: Request, rest: int, cs: Chunks): Assembly
    requires |buffer| == HeaderSize && rest <= HeaderSize
    requires 0 <= req.offset && 0 < req.count && req.offset + req.count <= HeaderSize
    decreases Size(cs)
  {
    TakeShrinks(cs, req.count);
    var t := Take(cs, req.count);
    if t.data == [] then Assembly(buffer, rest, cs, 1, false)
    else
      var landed := Land(buffer, req.offset, t.data);
      var missing := rest - |t.data|;
      if missing > 0 then
        var a := AssembleHeader(asWritten, landed, Continue(asWritten, missing), missing, t.rest);
        a.(receives := a.receives + 1)
      else Assembly(landed, missing, t.rest, 1, missing == 0)
  }

  /** Bytes `data` received at `offset` of `buffer`. */
  function Land(buffer: seq<Byte>, offset: nat, data: seq<Byte>): (b: seq<Byte>)
    requires offset + |data| <= |buffer|
    ensures |b| == |buffer|
  {
    buffer[..offset] + data + buffer[offset + |data|..]
  }

  /** With the corrected continuation the header phase is Accumulate: it
      completes exactly when the header arrives whole, with the same bytes
      behind those already there, the same receives and the same rest, and
      `Rest` never goes negative. */
  lemma HeaderAssembles(buffer: seq<Byte>, rest: int, cs: Chunks)
    requires |buffer| == HeaderSize && 0 < rest <= HeaderSize
    ensures var a := AssembleHeader(false, buffer, HeaderReceive(rest), rest, cs);
      var f := Accumulate(cs, rest);
      && a.complete == f.ok && a.receives == f.receives && a.left == f.rest && a.rest >= 0
      && (f.ok ==> a.header == buffer[..HeaderSize - rest] + f.data)
  {
    AssemblesFrom(buffer, HeaderReceive(rest), rest, cs);
  }

  /** An assembly agrees with a fill behind the header bytes `prefix`. */
  predicate Agrees(a: Assembly, f: Filled, prefix: seq<Byte>)
  {
    && a.complete == f.ok && a.receives == f.receives && a.left == f.rest && a.rest >= 0
    && (f.ok ==> a.header == prefix + f.data)
  }

  /** The corrected header phase from the receive `req` agrees with
      Accumulate. */
  ghost predicate AssemblesLike(buffer: seq<Byte>, req: Request, rest: int, cs: Chunks)
    requires |buffer| == HeaderSize && 0 < rest <= HeaderSize && req == HeaderReceive(rest)
  {
    Agrees(AssembleHeader(false, buffer, req, rest, cs), Accumulate(cs, req.count), buffer[..req.offset])
  }

  lemma {:induction false} AssemblesFrom(buffer: seq<Byte>, req: Request, rest: int, cs: Chunks)
    requires |buffer| == HeaderSize && 0 < rest <= HeaderSize && req == HeaderReceive(rest)
    decreases Size(cs)
    ensures AssemblesLike(buffer, req, rest, cs)
  {
    TakeShrinks(cs, req.count);
    var t := Take(cs, req.count);
    if t.data == [] {
      AssembleEof(buffer, req, rest, cs);
    } else if rest - |t.data| > 0 {
      var missing := rest - |t.data|;
      assert Continue(false, missing) == HeaderReceive(missing);
      AssemblesFrom(Land(buffer, req.offset, t.data), Continue(false, missing), missing, t.rest);
      AssembleMore(buffer, req, rest, cs);
    } else {
      AssembleDone(buffer, req, rest, cs);
    }
  }

  lemma AssembleEof(buffer: seq<Byte>, req: Request, rest: int, cs: Chunks)
    requires |buffer| == HeaderSize && 0 < rest <= HeaderSize && req == HeaderReceive(rest)
    requires Take(cs, req.count).data == []
    ensures AssemblesLike(buffer, req, rest, cs)
  {
    var a := AssembleHeader(false, buffer, req, rest, cs);
    assert a == Assembly(buffer, rest, cs, 1, false);
  }

  lemma AssembleDone(buffer: seq<Byte>, req: Request, rest: int, cs: Chunks)
    requires |buffer| == HeaderSize && 0 < rest <= HeaderSize && req == HeaderReceive(rest)
    requires var t := Take(cs, req.count); t.data != [] && rest - |t.data| <= 0
    ensures AssemblesLike(buffer, req, rest, cs)
  {
    var t := Take(cs, req.count);
    var landed := Land(buffer, req.offset, t.data);
    var a := AssembleHeader(false, buffer, req, rest, cs);
    assert a == Assembly(landed, 0, t.rest, 1, true);
    AccumulateOnce(cs, req.count);
    LandPrefix(buffer, req.offset, t.data, []);
    assert landed == landed[..HeaderSize];
  }

  lemma AssembleMore(buffer: seq<Byte>, req: Request, rest: int, cs: Chunks)
    requires |buffer| == HeaderSize && 0 < rest <= HeaderSize && req == HeaderReceive(rest)
    requires var t := Take(cs, req.count); t.data != [] && rest - |t.data| > 0
    requires var t := Take(cs, req.count);
      var missing := rest - |t.data|;
      Continue(false, missing) == HeaderReceive(missing)
      && AssemblesLike(Land(buffer, req.offset, t.data), Continue(false, missing), missing, t.rest)
    ensures AssemblesLike(buffer, req, rest, cs)
  {
    var t := Take(cs, req.count);
    var missing := rest - |t.data|;
    var landed := Land(buffer, req.offset, t.data);
    var next := Continue(false, missing);
    var a := AssembleHeader(false, buffer, req, rest, cs);
    var b := AssembleHeader(false, landed, next, missing, t.rest);
    var g := Accumulate(t.rest, next.count);
    assert a == b.(receives := b.receives + 1);
    AccumulateOnce(cs, req.count);
    LandPrefix(buffer, req.offset, t.data, g.data);
    AgreesBehind(a, b, Accumulate(cs, req.count), g, buffer[..req.offset], t.data, landed[..next.offset]);
  }

  /** Agreement survives one more receive in front. */
  lemma AgreesBehind(a: Assembly, b: Assembly, f: Filled, g: Filled, prefix: seq<Byte>, data: seq<Byte>, landed: seq<Byte>)
    requires Agrees(b, g, landed)
    requires a == b.(receives := b.receives + 1) && f == Filled(g.ok, data + g.data, g.rest, g.receives + 1)
    requires landed + g.data == prefix + (data + g.data)
    ensures Agrees(a, f, prefix)
  {
  }

  /** Bytes landed behind a prefix extend it. */
  lemma LandPrefix(buffer: seq<Byte>, offset: nat, data: seq<Byte>, more: seq<Byte>)
    requires offset + |data| <= |buffer|
    ensures Land(buffer, offset, data)[..offset + |data|] + more == buffer[..offset] + (data + more)
  {
  }

  /** One receive of Accumulate that brings bytes. */
  lemma AccumulateOnce(cs: Chunks, n: nat)
    requires 0 < n && Take(cs, n).data != []
    ensures var t := Take(cs, n);
      var f := Accumulate(t.rest, n - |t.data|);
      Accumulate(cs, n) == Filled(f.ok, t.data + f.data, f.rest, f.receives + 1)
  {
  }

  /** As written, a header that arrives as 1, 2 and 3-4 is assembled as
      1, 0, 3, 4: the second byte lands at offset 3 and the third receive
      overwrites it. */
  lemma HeaderScrambledAsWritten()
    ensures AssembleHeader(true, [0, 0, 0, 0], Request(0, HeaderSize), HeaderSize, [[1], [2], [3, 4]])
      == Assembly([1, 0, 3, 4], 0, [], 3, true)
    ensures Accumulate([[1], [2], [3, 4]], HeaderSize).data == [1, 2, 3, 4]
  {
    var cs: Chunks := [[1], [2], [3, 4]];
    assert Take(cs, 4) == Received([1], cs[1..]);
    assert Take(cs[1..], 1) == Received([2], cs[2..]);
    assert Take(cs[2..], 2) == Received([3, 4], []);
    assert Land([1, 0, 0, 2], 2, [3, 4]) == [1, 0, 3, 4];
    assert AssembleHeader(true, [1, 0, 0, 2], Request(2, 2), 2, cs[2..]) == Assembly([1, 0, 3, 4], 0, [], 1, true);
    assert Land([1, 0, 0, 0], 3, [2]) == [1, 0, 0, 2];
    assert AssembleHeader(true, [1, 0, 0, 0], Request(3, 1), 3, cs[1..]) == Assembly([1, 0, 3, 4], 0, [], 2, true);
    assert Land([0, 0, 0, 0], 0, [1]) == [1, 0, 0, 0];
    assert Take(cs[1..], 3) == Received([2], cs[2..]);
    assert Accumulate(cs[2..], 2) == Filled(true, [3, 4], [], 1);
    assert Accumulate(cs[1..], 3) == Filled(true, [2, 3, 4], [], 2);
  }

  /** As written, a header whose first receive brings 3 bytes asks next for 3
      more instead of 1; when they come `Rest` drops to -2 and the connection
      stalls, while the corrected continuation completes the header. */
  lemma HeaderOverflowAsWritten()
    ensures AssembleHeader(true, [0, 0, 0, 0], Request(0, HeaderSize), HeaderSize, [[1, 2, 3], [4, 5, 6]]).rest == -2
    ensures var a := AssembleHeader(false, [0, 0, 0, 0], Request(0, HeaderSize), HeaderSize, [[1, 2, 3], [4, 5, 6]]);
      a.complete && a.header == [1, 2, 3, 4] && a.left == [[5, 6]]
  {
    var cs: Chunks := [[1, 2, 3], [4, 5, 6]];
    assert Take(cs, HeaderSize) == Received([1, 2, 3], cs[1..]);
    assert Land([0, 0, 0, 0], 0, [1, 2, 3]) == [1, 2, 3, 0];
    assert Take(cs[1..], 3) == Received([4, 5, 6], []);
    assert Land([1, 2, 3, 0], 1, [4, 5, 6]) == [1, 4, 5, 6];
    assert AssembleHeader(true, [1, 2, 3, 0], Request(1, 3), 1, cs[1..]) == Assembly([1, 4, 5, 6], -2, [], 1, false);
    assert Take(cs[1..], 1) == Received([4], [[5, 6]]);
    assert Land([1, 2, 3, 0], 3, [4]) == [1, 2, 3, 4];
    assert AssembleHeader(false, [1, 2, 3, 0], Request(3, 1), 1, cs[1..]) == Assembly([1, 2, 3, 4], 0, [[5, 6]], 1, true);
  }

  // The send loop.

  /** The `Send` calls that echo `n` bytes when each call takes at most `w`. */
  function SendCalls(n: nat, w: Positive): nat
  {
    if n == 0 then 0 else 1 + SendCalls(if n <= w then 0 else n - w, w)
  }

  /** That is `n / w` rounded up: the fewest calls of `w` bytes that cover
      `n` bytes. */
  lemma {:induction false} SendCallsRoundUp(n: nat, w: Positive)
    ensures n <= SendCalls(n, w) * w < n + w
  {
    if n > w {
      SendCallsRoundUp(n - w, w);
      var k := SendCalls(n - w, w);
      assert SendCalls(n, w) * w == k * w + w;
    }
  }

  /** The `Send` calls that echo `bodies`, one after the other. */
  function SendTotal(bodies: seq<seq<Byte>>, w: Positive): nat
  {
    if bodies == [] then 0 else SendCalls(|bodies[0]|, w) + SendTotal(bodies[1..], w)
  }

  // One connection as a state machine.

  /** Where a connection stands while a receive is pending: `got` bytes of a
      header, or `got` bytes of a `length`-byte body. */
  datatype Phase = Header(got: seq<Byte>) | Body(got: seq<Byte>, length: nat)

  predicate Proper(p: Phase)
  {
    match p
    case Header(got) => |got| < HeaderSize
    case Body(got, length) => |got| < length <= BufferSize
  }

  /** The bytes the pending receive asks for: all that is missing. */
  function Need(p: Phase): (n: nat)
    requires Proper(p)
    ensures n > 0
  {
    if p.Header? then HeaderSize - |p.got| else p.length - |p.got|
  }

  /** What is left of the connection from phase `p` with `cs` still to arrive. */
  function Remaining(p: Phase, cs: Chunks): Outcome
    requires Proper(p)
  {
    match p
    case Header(got) => FromHeader(got, cs)
    case Body(got, length) => FromBody(got, length, cs)
  }

  /** One receive callback on values: whether it stops the connection and
      how, the phase it leaves, the body it echoes, and what is left to
      arrive. */
  datatype Callback = Callback(stop: Option<Ending>, next: Phase, echo: Option<seq<Byte>>, rest: Chunks)

  /** The callback for phase `p`: a receive for all that is missing; 0 bytes
      is a disconnect, anything else goes on in its phase. */
  function Step(p: Phase, cs: Chunks): Callback
    requires Proper(p)
  {
    var t := Take(cs, Need(p));
    if t.data == [] then Callback(Some(Disconnected), p, None, cs)
    else if p.Header? then HeaderStep(p.got + t.data, t.rest)
    else BodyStep(p.got + t.data, p.length, t.rest)
  }

  /** The header phase once the header has `got` bytes: wait for more, or
      act on the length it declares. */
  function HeaderStep(got: seq<Byte>, cs: Chunks): (c: Callback)
    requires 0 < |got| <= HeaderSize
    ensures c.echo == None && c.rest == cs
  {
    if |got| < HeaderSize then Callback(None, Header(got), None, cs)
    else
      var length := ToInt32(got);
      if length == 0 then Callback(Some(PeerClosed), Header(got), None, cs)
      else if length > BufferSize then Callback(Some(TooLong), Header(got), None, cs)
      else if length < 0 then Callback(Some(NegativeLength), Header(got), None, cs)
      else Callback(None, Body([], length), None, cs)
  }

  /** The body phase once the body has `got` bytes: wait for more, or echo it
      and start the next header. */
  function BodyStep(got: seq<Byte>, length: nat, cs: Chunks): (c: Callback)
    requires 0 < |got| <= length <= BufferSize
    ensures c.stop == None && c.rest == cs
  {
    if |got| < length then Callback(None, Body(got, length), None, cs)
    else Callback(None, Header([]), Some(got), cs)
  }

  function Echoed(echo: Option<seq<Byte>>): seq<seq<Byte>>
  {
    if echo.Some? then [echo.value] else []
  }

  /** The callbacks do what Serve says: a callback that stops is all that is
      left of the connection, and one that goes on consumes input and leaves
      Remaining of its next phase behind the body it echoes. */
  lemma StepRemaining(p: Phase, cs: Chunks)
    requires Proper(p)
    ensures var c := Step(p, cs);
      && (c.stop.Some? ==> c.echo == None && Remaining(p, cs) == Outcome([], c.stop.value, 1))
      && (c.stop.None? ==>
            && Proper(c.next) && Size(c.rest) < Size(cs)
            && Remaining(p, cs) == Behind(Echoed(c.echo), 1, Remaining(c.next, c.rest)))
  {
    if Take(cs, Need(p)).data == [] {
      StepEof(p, cs);
    } else if p.Header? {
      HeaderStepRemaining(p.got, cs);
    } else {
      BodyStepRemaining(p.got, p.length, cs);
    }
  }

  lemma StepEof(p: Phase, cs: Chunks)
    requires Proper(p) && Take(cs, Need(p)).data == []
    ensures Step(p, cs) == Callback(Some(Disconnected), p, None, cs)
    ensures Remaining(p, cs) == Outcome([], Disconnected, 1)
  {
    if p.Header? {
      HeaderEof(p.got, cs);
    } else {
      BodyEof(p.got, p.length, cs);
    }
  }

  lemma HeaderStepRemaining(got: seq<Byte>, cs: Chunks)
    requires |got| < HeaderSize && Take(cs, HeaderSize - |got|).data != []
    ensures var c := Step(Header(got), cs);
      && c.echo == None && Size(c.rest) < Size(cs)
      && (c.stop.Some? ==> FromHeader(got, cs) == Outcome([], c.stop.value, 1))
      && (c.stop.None? ==> Proper(c.next) && FromHeader(got, cs) == Behind([], 1, Remaining(c.next, c.rest)))
  {
    var t := Take(cs, HeaderSize - |got|);
    TakeShrinks(cs, HeaderSize - |got|);
    if |got| + |t.data| < HeaderSize {
      HeaderMore(got, cs);
    } else {
      HeaderDone(got, cs);
      var o := AfterHeader(got + t.data, t.rest);
      assert [] + o.bodies == o.bodies;
    }
  }

  /** A header receive that leaves bytes missing waits for them. */
  lemma HeaderMore(got: seq<Byte>, cs: Chunks)
    requires |got| < HeaderSize
    requires var t := Take(cs, HeaderSize - |got|); t.data != [] && |got| + |t.data| < HeaderSize
    ensures var t := Take(cs, HeaderSize - |got|);
      && Step(Header(got), cs) == Callback(None, Header(got + t.data), None, t.rest)
      && FromHeader(got, cs) == Behind([], 1, FromHeader(got + t.data, t.rest))
  {
    var t := Take(cs, HeaderSize - |got|);
    HeaderPartial(got, cs);
    var o := FromHeader(got + t.data, t.rest);
    assert [] + o.bodies == o.bodies;
  }

  /** A header receive that completes the header acts on its length. */
  lemma HeaderDone(got: seq<Byte>, cs: Chunks)
    requires |got| < HeaderSize
    requires var t := Take(cs, HeaderSize - |got|); |got| + |t.data| == HeaderSize
    ensures var t := Take(cs, HeaderSize - |got|);
      && Step(Header(got), cs) == HeaderStep(got + t.data, t.rest)
      && FromHeader(got, cs) == AddReads(1, AfterHeader(got + t.data, t.rest))
  {
    HeaderComplete(got, cs);
  }

  lemma BodyStepRemaining(got: seq<Byte>, length: nat, cs: Chunks)
    requires |got| < length <= BufferSize && Take(cs, length - |got|).data != []
    ensures var c := Step(Body(got, length), cs);
      && c.stop == None && Proper(c.next) && Size(c.rest) < Size(cs)
      && FromBody(got, length, cs) == Behind(Echoed(c.echo), 1, Remaining(c.next, c.rest))
  {
    var t := Take(cs, length - |got|);
    TakeShrinks(cs, length - |got|);
    assert Step(Body(got, length), cs) == BodyStep(got + t.data, length, t.rest);
    if |got| + |t.data| < length {
      BodyPartial(got, length, cs);
    } else {
      BodyComplete(got, length, cs);
    }
  }

  /** What a connection has put on the wire and the receives and sends it
      has counted. */
  datatype Ledger = Ledger(sent: seq<Byte>, receives: nat, sends: nat)

  /** The ledger once outcome `o` has run its course, with `Send` calls of at
      most `w` bytes. */
  function Total(l: Ledger, o: Outcome, w: Positive): Ledger
  {
    Ledger(l.sent + Concat(o.bodies), l.receives + o.receives, l.sends + SendTotal(o.bodies, w))
  }

  function LedgerOf(server: ServerBase, socket: Socket): Ledger
    reads server, socket
  {
    Ledger(socket.Outbound, server.ReadCount, server.WriteCount)
  }

  /** The bytes a callback sends and the `Send` calls it makes. */
  function Sent(echo: Option<seq<Byte>>): seq<Byte>
  {
    if echo.Some? then echo.value else []
  }

  function SendsFor(echo: Option<seq<Byte>>, w: Positive): nat
  {
    if echo.Some? then SendCalls(|echo.value|, w) else 0
  }

  /** One callback's receive and echo, then the rest of the connection, is
      the whole ledger. */
  lemma LedgerStep(l: Ledger, echo: Option<seq<Byte>>, o: Outcome, w: Positive)
    ensures Total(l, Behind(Echoed(echo), 1, o), w)
         == Total(Ledger(l.sent + Sent(echo), l.receives + 1, l.sends + SendsFor(echo, w)), o, w)
  {
    var bodies := Echoed(echo) + o.bodies;
    if echo.Some? {
      assert bodies[0] == echo.value && bodies[1..] == o.bodies;
      assert (l.sent + echo.value) + Concat(o.bodies) == l.sent + (echo.value + Concat(o.bodies));
    } else {
      assert bodies == o.bodies;
    }
  }

  /** Closes recorded under `CloseCount` for an ending: every one but the
      exception a negative length raises. */
  function AsyncCloses(e: Ending): (c: nat)
    ensures c == InvalidCloses(e) + PeerCloses(e)
  {
    if e == NegativeLength then 0 else 1
  }

  /** Endings on which the callback shuts the socket down and closes it. */
  predicate Shuts(e: Ending)
  {
    e == Disconnected || e == PeerClosed
  }

  /** `StateObject`: the socket, its buffer and the phase counters of one
      connection, plus the receive it has asked for (`BeginReceive`), which
      is None once it asks for no more. */
  class StateObject {
    const WorkSocket: Socket
    const Buffer: array<Byte>
    var Rest: int
    var BodyLength: int
    var IsHeader: bool
    var Pending: Option<Request>

    constructor (sock: Socket, length: nat)
      ensures WorkSocket == sock && fresh(Buffer) && Buffer.Length == length
      ensures forall i | 0 <= i < length :: Buffer[i] == 0
      ensures Rest == 0 && BodyLength == 0 && !IsHeader && Pending == None
    {
      WorkSocket := sock;
      Buffer := new Byte[length](_ => 0);
      Rest, BodyLength, IsHeader, Pending := 0, 0, false, None;
    }

    /** A receive is pending, and it continues the phase: in the header
        phase at offset `HeaderSize - Rest`, in the body phase at
        `BodyLength - Rest`, each time for `Rest` bytes. */
    ghost predicate Valid()
      reads this
    {
      && Buffer.Length == BufferSize && Pending.Some?
      && (IsHeader ==> 0 < Rest <= HeaderSize && Pending.value == HeaderReceive(Rest))
      && (!IsHeader ==> 0 < Rest <= BodyLength <= BufferSize && Pending.value == BodyReceive(BodyLength, Rest))
    }

    /** The phase the fields stand for: the bytes in front of the pending
        receive are those already received. */
    ghost function Phase(): (p: Phase)
      requires Valid()
      reads this, Buffer
      ensures Proper(p)
    {
      if IsHeader then Header(Buffer[..HeaderSize - Rest]) else Body(Buffer[..BodyLength - Rest], BodyLength)
    }

  }

  /** `acceptCallback`: count the connection and ask for a whole header. */
  method AcceptCallback(server: ServerBase, handler: Socket) returns (state: StateObject)
    modifies server`AcceptCount
    ensures server.AcceptCount == old(server.AcceptCount) + 1
    ensures fresh(state) && fresh(state.Buffer) && state.WorkSocket == handler
    ensures state.Valid() && state.Phase() == Header([]) && state.Pending == Some(Request(0, HeaderSize))
  {
    server.AcceptCount := server.AcceptCount + 1;
    state := new StateObject(handler, BufferSize);
    state.IsHeader := true;
    state.Rest := HeaderSize;
    state.Pending := Some(Request(0, state.Rest));
  }

  /** `readCallback`: complete the pending receive, count it, and go on as
      Step says; a stop is counted as a close with exactly one reason. */
  method ReadCallback(server: ServerBase, state: StateObject) returns (stop: Option<Ending>)
    requires state.Valid()
    modifies server`ReadCount, server`WriteCount, server`CloseCount, server`CloseByPeerCount, server`CloseByInvalidStream
    modifies state`Rest, state`BodyLength, state`IsHeader, state`Pending, state.Buffer
    modifies state.WorkSocket`Inbound, state.WorkSocket`Outbound, state.WorkSocket`Closed
    ensures var c := Step(old(state.Phase()), old(state.WorkSocket.Inbound));
      && stop == c.stop
      && state.WorkSocket.Inbound == c.rest
      && (stop.None? <==> state.Pending.Some?)
      && (stop.None? ==> state.Valid() && state.Phase() == c.next)
      && state.WorkSocket.Outbound == old(state.WorkSocket.Outbound) + Sent(c.echo)
      && server.ReadCount == old(server.ReadCount) + 1
      && server.WriteCount == old(server.WriteCount) + SendsFor(c.echo, state.WorkSocket.SendWindow)
    ensures server.CloseByInvalidStream == old(server.CloseByInvalidStream) + (if stop.Some? then InvalidCloses(stop.value) else 0)
    ensures server.CloseByPeerCount == old(server.CloseByPeerCount) + (if stop.Some? then PeerCloses(stop.value) else 0)
    ensures server.CloseCount == old(server.CloseCount) + (if stop.Some? then AsyncCloses(stop.value) else 0)
    ensures state.WorkSocket.Closed == (old(state.WorkSocket.Closed) || (stop.Some? && Shuts(stop.value)))
  {
    ghost var phase := state.Phase();
    ghost var cs := state.WorkSocket.Inbound;
    var length := EndReceive(server, state);
    if length == 0 {
      server.CloseByInvalidStream := server.CloseByInvalidStream + 1;
      server.CloseCount := server.CloseCount + 1;
      state.WorkSocket.Close();
      state.Pending := None;
      StepEof(phase, cs);
      return Some(Disconnected);
    }
    ghost var t := Take(cs, Need(phase));
    ghost var c := Step(phase, cs);
    if state.IsHeader {
      assert c == HeaderStep(state.Buffer[..HeaderSize - state.Rest], state.WorkSocket.Inbound) by {
        assert state.Buffer[..HeaderSize - state.Rest] == phase.got + t.data;
      }
      stop := HeaderReceived(server, state, c);
    } else {
      assert c == BodyStep(state.Buffer[..state.BodyLength - state.Rest], state.BodyLength, state.WorkSocket.Inbound) by {
        assert state.Buffer[..state.BodyLength - state.Rest] == phase.got + t.data;
      }
      stop := BodyReceived(server, state, c);
    }
  }

  /** The pending receive completes (`EndReceive`) and is counted; when it
      brought bytes, `Rest` goes down by their number and they follow those
      already in the buffer. */
  method EndReceive(server: ServerBase, state: StateObject) returns (length: nat)
    requires state.Valid()
    modifies server`ReadCount, state`Rest, state.Buffer, state.WorkSocket`Inbound
    ensures var t := Take(old(state.WorkSocket.Inbound), old(state.Rest));
      && length == |t.data|
      && state.WorkSocket.Inbound == t.rest
      && server.ReadCount == old(server.ReadCount) + 1
      && (length == 0 ==> state.Rest == old(state.Rest))
      && (length > 0 ==>
            && state.Rest == old(state.Rest) - length
            && state.Buffer[..old(state.Pending.value.offset) + length] == old(state.Phase().got) + t.data)
  {
    ghost var got := state.Phase().got;
    ghost var cs := state.WorkSocket.Inbound;
    var request := state.Pending.value;
    length := state.WorkSocket.Receive(state.Buffer, request.offset, request.count);
    server.ReadCount := server.ReadCount + 1;
    if length > 0 {
      state.Rest := state.Rest - length;
      assert state.Buffer[..request.offset + length] == got + Take(cs, request.count).data;
    }
  }

  /** The header branch of `readCallback`, once `Rest` has been reduced. */
  method HeaderReceived(server: ServerBase, state: StateObject, ghost c: Callback) returns (stop: Option<Ending>)
    requires state.IsHeader && state.Buffer.Length == BufferSize && 0 <= state.Rest < HeaderSize
    requires c == HeaderStep(state.Buffer[..HeaderSize - state.Rest], state.WorkSocket.Inbound)
    modifies server`CloseCount, server`CloseByPeerCount, server`CloseByInvalidStream
    modifies state`Rest, state`BodyLength, state`IsHeader, state`Pending, state.WorkSocket`Closed
    ensures stop == c.stop
      && (stop.None? <==> state.Pending.Some?)
      && (stop.None? ==> state.Valid() && state.Phase() == c.next)
    ensures server.CloseByInvalidStream == old(server.CloseByInvalidStream) + (if stop.Some? then InvalidCloses(stop.value) else 0)
    ensures server.CloseByPeerCount == old(server.CloseByPeerCount) + (if stop.Some? then PeerCloses(stop.value) else 0)
    ensures server.CloseCount == old(server.CloseCount) + (if stop.Some? then AsyncCloses(stop.value) else 0)
    ensures state.WorkSocket.Closed == (old(state.WorkSocket.Closed) || (stop.Some? && Shuts(stop.value)))
  {
    if state.Rest > 0 {
      state.Pending := Some(HeaderReceive(state.Rest));
      return None;
    } else if state.Rest == 0 {
      state.BodyLength := ToInt32(state.Buffer[..]);
      assert state.BodyLength == ToInt32(state.Buffer[..HeaderSize]) by {
        assert state.Buffer[..][..HeaderSize] == state.Buffer[..HeaderSize][..HeaderSize];
      }
      if state.BodyLength == 0 {
        server.CloseByPeerCount := server.CloseByPeerCount + 1;
        server.CloseCount := server.CloseCount + 1;
        state.WorkSocket.Close();
        state.Pending := None;
        return Some(PeerClosed);
      }
      if state.BodyLength > state.Buffer.Length {
        server.CloseByInvalidStream := server.CloseByInvalidStream + 1;
        server.CloseCount := server.CloseCount + 1;
        state.Pending := None;
        return Some(TooLong);
      }
      state.Rest := state.BodyLength;
      state.IsHeader := false;
      if state.Rest < 0 {
        state.Pending := None;
        return Some(NegativeLength);
      }
      state.Pending := Some(Request(0, state.Rest));
      return None;
    } else {
      assert false;
    }
  }

  /** The body branch of `readCallback`, once `Rest` has been reduced: a
      complete body is sent back and the next header asked for. */
  method BodyReceived(server: ServerBase, state: StateObject, ghost c: Callback) returns (stop: Option<Ending>)
    requires !state.IsHeader && state.Buffer.Length == BufferSize && 0 <= state.Rest < state.BodyLength <= BufferSize
    requires c == BodyStep(state.Buffer[..state.BodyLength - state.Rest], state.BodyLength, state.WorkSocket.Inbound)
    modifies server`WriteCount, state`Rest, state`IsHeader, state`Pending, state.WorkSocket`Outbound
    ensures stop == c.stop && state.Valid() && state.Phase() == c.next
      && state.WorkSocket.Outbound == old(state.WorkSocket.Outbound) + Sent(c.echo)
      && server.WriteCount == old(server.WriteCount) + SendsFor(c.echo, state.WorkSocket.SendWindow)
  {
    if state.Rest > 0 {
      state.Pending := Some(BodyReceive(state.BodyLength, state.Rest));
      return None;
    } else if state.Rest == 0 {
      SendBody(server, state);
      state.IsHeader := true;
      state.Rest := HeaderSize;
      state.Pending := Some(Request(0, state.Rest));
      assert state.Phase() == Header([]);
      return None;
    } else {
      assert false;
    }
  }

  /** The send loop of `readCallback`: send the body from where the last
      `Send` stopped until none of it is left, counting every call. */
  method SendBody(server: ServerBase, state: StateObject)
    requires 0 <= state.BodyLength <= state.Buffer.Length
    modifies server`WriteCount, state.WorkSocket`Outbound
    ensures state.WorkSocket.Outbound == old(state.WorkSocket.Outbound) + state.Buffer[..state.BodyLength]
    ensures server.WriteCount == old(server.WriteCount) + SendCalls(state.BodyLength, state.WorkSocket.SendWindow)
  {
    var handler := state.WorkSocket;
    var length := state.BodyLength;
    ghost var body := state.Buffer[..length];
    ghost var start := handler.Outbound;
    ghost var writes := server.WriteCount;
    var rest := length;
    while rest > 0
      invariant 0 <= rest <= length && state.Buffer[..length] == body
      invariant handler.Outbound == start + body[..length - rest]
      invariant server.WriteCount + SendCalls(rest, handler.SendWindow) == writes + SendCalls(length, handler.SendWindow)
    {
      var sent := handler.Send(state.Buffer, length - rest, rest);
      SentPart(body, length - rest, sent, state.Buffer[length - rest..length - rest + sent]);
      rest := rest - sent;
      server.WriteCount := server.WriteCount + 1;
    }
  }

  /** The next `n` bytes of `body` behind its first `k`. */
  lemma SentPart(body: seq<Byte>, k: nat, n: nat, part: seq<Byte>)
    requires k + n <= |body| && part == body[k..k + n]
    ensures body[..k] + part == body[..k + n]
  {
  }

  // A connection from accept to its last callback.

  /** `acceptCallback` and then the `readCallback` chain of one connection,
      one completion after another, until a callback asks for no further
      receive: the connection echoes and counts what Serve says of all the
      client sends, and each ending is counted as a close with one reason
      (except the negative length, whose exception skips the counters). */
  method ServeConnection(server: ServerBase, socket: Socket) returns (ending: Ending)
    modifies server`AcceptCount, server`ReadCount, server`WriteCount
    modifies server`CloseCount, server`CloseByPeerCount, server`CloseByInvalidStream
    modifies socket`Inbound, socket`Outbound, socket`Closed
    ensures var o := Serve(old(socket.Inbound));
      && ending == o.ending
      && socket.Outbound == old(socket.Outbound) + Concat(o.bodies)
      && server.ReadCount == old(server.ReadCount) + o.receives
      && server.WriteCount == old(server.WriteCount) + SendTotal(o.bodies, socket.SendWindow)
    ensures server.AcceptCount == old(server.AcceptCount) + 1
    ensures server.CloseByInvalidStream == old(server.CloseByInvalidStream) + InvalidCloses(ending)
    ensures server.CloseByPeerCount == old(server.CloseByPeerCount) + PeerCloses(ending)
    ensures server.CloseCount == old(server.CloseCount) + AsyncCloses(ending)
    ensures socket.Closed == (old(socket.Closed) || Shuts(ending))
  {
    var state := AcceptCallback(server, socket);
    ghost var w := socket.SendWindow;
    ghost var spec := Serve(socket.Inbound);
    ghost var start := LedgerOf(server, socket);
    while true
      invariant fresh(state) && fresh(state.Buffer) && state.WorkSocket == socket && state.Valid()
      invariant var o := Remaining(state.Phase(), socket.Inbound);
        spec.ending == o.ending && Total(start, spec, w) == Total(LedgerOf(server, socket), o, w)
      invariant server.AcceptCount == old(server.AcceptCount) + 1
      invariant server.CloseByInvalidStream == old(server.CloseByInvalidStream)
      invariant server.CloseByPeerCount == old(server.CloseByPeerCount)
      invariant server.CloseCount == old(server.CloseCount)
      invariant socket.Closed == old(socket.Closed)
      decreases Size(socket.Inbound)
    {
      ghost var p := state.Phase();
      ghost var cs := socket.Inbound;
      ghost var before := LedgerOf(server, socket);
      ghost var c := Step(p, cs);
      var stop := ReadCallback(server, state);
      StepRemaining(p, cs);
      if stop.Some? {
        LedgerLast(start, spec, before, stop.value, w);
        return stop.value;
      }
      LedgerGoesOn(start, spec, before, LedgerOf(server, socket), c.echo, Remaining(c.next, c.rest), w);
    }
  }

  /** The ledger after a callback that goes on leaves the rest to come. */
  lemma LedgerGoesOn(start: Ledger, spec: Outcome, before: Ledger, after: Ledger, echo: Option<seq<Byte>>, o: Outcome, w: Positive)
    requires Total(start, spec, w) == Total(before, Behind(Echoed(echo), 1, o), w)
    requires after == Ledger(before.sent + Sent(echo), before.receives + 1, before.sends + SendsFor(echo, w))
    ensures Total(start, spec, w) == Total(after, o, w)
  {
    LedgerStep(before, echo, o, w);
  }

  /** The ledger after a stopping callback is the whole ledger. */
  lemma LedgerLast(start: Ledger, spec: Outcome, before: Ledger, e: Ending, w: Positive)
    requires Total(start, spec, w) == Total(before, Outcome([], e, 1), w)
    ensures start.sent + Concat(spec.bodies) == before.sent
    ensures start.receives + spec.receives == before.receives + 1
    ensures start.sends + SendTotal(spec.bodies, w) == before.sends
  {
    assert before.sent + Concat([]) == before.sent;
  }

  /** The accept loop of `Run`, over the connections that arrive, each
      served to its last callback in turn. Without a negative length
      announced, every close is counted with exactly one reason. */
  method Run(server: ServerBase, clients: seq<Socket>) returns (endings: seq<Ending>)
    requires forall i, j | 0 <= i < j < |clients| :: clients[i] != clients[j]
    modifies server, set c | c in clients
    ensures |endings| == |clients|
    ensures server.AcceptCount == old(server.AcceptCount) + |clients|
    ensures old(server.CloseBalanced()) ==> server.CloseBalanced()
    ensures server.Grew()
    ensures forall i | 0 <= i < |clients| :: clients[i].Closed == (old(clients[i].Closed) || Shuts(endings[i]))
  {
    endings := [];
    for i := 0 to |clients|
      invariant |endings| == i
      invariant server.AcceptCount == old(server.AcceptCount) + i
      invariant old(server.CloseBalanced()) ==> server.CloseBalanced()
      invariant server.Grew()
      invariant forall j | 0 <= j < i :: clients[j].Closed == (old(clients[j].Closed) || Shuts(endings[j]))
      invariant forall j | i <= j < |clients| :: clients[j].Closed == old(clients[j].Closed)
    {
      var ending := ServeConnection(server, clients[i]);
      endings := endings + [ending];
    }
  }
}
