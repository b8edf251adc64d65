/** An abstract TCP connection end, standing in for `Socket`,
    `NetworkStream` and `TcpClient`. What the peer sends arrives as a sequence
    of chunks; a receive asking for `count` bytes gets the front of the first
    chunk, at most `count` bytes of it. An empty first chunk, or no chunk at all,
    is the peer's orderly shutdown: every receive then returns 0 bytes. */
module Transport {
  import opened Frame

  type Chunks = seq<seq<Byte>>

  /** A count of at least one. */
  type Positive = n: int | n > 0 witness 1

  /** The bytes of `cs` in arrival order. */
  function Flatten(cs: Chunks): seq<Byte>
  {
    if cs == [] then [] else cs[0] + Flatten(cs[1..])
  }

  /** A measure that every receive returning data makes smaller. */
  function Size(cs: Chunks): nat
  {
    if cs == [] then 0 else |cs[0]| + 1 + Size(cs[1..])
  }

  /** The peer has shut down its side: the next receive returns 0 bytes. */
  predicate AtEof(cs: Chunks)
  {
    cs == [] || cs[0] == []
  }

  /** No shutdown marker: every chunk carries data. */
  predicate NoEmpty(cs: Chunks)
  {
    forall i | 0 <= i < |cs| :: cs[i] != []
  }

  datatype Received = Received(data: seq<Byte>, rest: Chunks)

  /** One receive of at most `count` bytes from `cs`: the bytes delivered and
      what is left to arrive. Nothing comes exactly when nothing is asked for
      or the peer has shut down, and then nothing is consumed. */
  function Take(cs: Chunks, count: nat): (r: Received)
    ensures |r.data| <= count
    ensures r.data == [] <==> count == 0 || AtEof(cs)
    ensures r.data == [] ==> r.rest == cs
  {
    if count == 0 || AtEof(cs) then Received([], cs)
    else if |cs[0]| <= count then Received(cs[0], cs[1..])
    else Received(cs[0][..count], [cs[0][count..]] + cs[1..])
  }

  /** A receive neither loses nor invents bytes, and keeps a stream free of
      shutdown markers free of them. */
  lemma TakeKeeps(cs: Chunks, count: nat)
    ensures var r := Take(cs, count);
      && Flatten(cs) == r.data + Flatten(r.rest)
      && (NoEmpty(cs) ==> NoEmpty(r.rest))
  {
    if count > 0 && !AtEof(cs) && |cs[0]| > count {
      var rest := [cs[0][count..]] + cs[1..];
      assert rest[0] == cs[0][count..] && rest[1..] == cs[1..];
      assert cs[0] == cs[0][..count] + cs[0][count..];
    }
  }

  /** A receive uses up at least what it delivers. */
  lemma TakeShrinks(cs: Chunks, count: nat)
    ensures Size(Take(cs, count).rest) + |Take(cs, count).data| <= Size(cs)
  {
    if count > 0 && !AtEof(cs) && |cs[0]| > count {
      var rest := [cs[0][count..]] + cs[1..];
      assert rest[0] == cs[0][count..] && rest[1..] == cs[1..];
    }
  }

  /** Writing `data` into `got + rest` just after `got`. */
  lemma Overwrite(got: seq<Byte>, rest: seq<Byte>, data: seq<Byte>)
    requires |data| <= |rest|
    ensures var buf := got + rest;
      buf[..|got|] + data + buf[|got| + |data|..] == (got + data) + rest[|data|..]
  {
    var buf := got + rest;
    assert buf[..|got|] == got;
    assert buf[|got| + |data|..] == rest[|data|..];
  }

  /** One end of an established connection. */
  class Socket {
    /** What the peer has sent that this end has not yet received. */
    var Inbound: Chunks
    /** Every byte this end has handed to the transport, in order. */
    var Outbound: seq<Byte>
    var Closed: bool
    /** The most bytes one `Send` call hands over. */
    const SendWindow: Positive

    constructor (inbound: Chunks, sendWindow: Positive)
      ensures Inbound == inbound && Outbound == [] && !Closed && SendWindow == sendWindow
    {
      Inbound, Outbound, Closed, SendWindow := inbound, [], false, sendWindow;
    }

    /** `Receive`/`Read(buffer, offset, count)`: stores what arrives at
        `buffer[offset..]` and returns how many bytes that was. */
    method Receive(buffer: array<Byte>, offset: nat, count: nat) returns (n: nat)
      requires offset + count <= buffer.Length
      modifies this`Inbound, buffer
      ensures var r := Take(old(Inbound), count);
        && n == |r.data|
        && Inbound == r.rest
        && buffer[..] == old(buffer[..offset]) + r.data + old(buffer[offset + n..])
    {
      var r := Take(Inbound, count);
      n := |r.data|;
      var i := 0;
      while i < n
        invariant 0 <= i <= n
        invariant forall j | 0 <= j < buffer.Length ::
          buffer[j] == if offset <= j < offset + i then r.data[j - offset] else old(buffer[j])
      {
        buffer[offset + i] := r.data[i];
        i := i + 1;
      }
      Inbound := r.rest;
      assert buffer[..] == old(buffer[..offset]) + r.data + old(buffer[offset + n..]);
    }

    /** `Socket.Send(buffer, offset, count)`: hands over the first bytes of
        `buffer[offset..offset + count]`, as many as the window takes. */
    method Send(buffer: array<Byte>, offset: nat, count: nat) returns (n: nat)
      requires offset + count <= buffer.Length
      modifies this`Outbound
      ensures n == if count < SendWindow then count else SendWindow
      ensures Outbound == old(Outbound) + buffer[offset..offset + n]
    {
      n := if count < SendWindow then count else SendWindow;
      Outbound := Outbound + buffer[offset..offset + n];
    }

    /** `Stream.Write`: returns once every byte of `data` is handed over. */
    method Write(data: seq<Byte>)
      modifies this`Outbound
      ensures Outbound == old(Outbound) + data
    {
      Outbound := Outbound + data;
    }

    /** `Shutdown` and `Close`. */
    method Close()
      modifies this`Closed
      ensures Closed
    {
      Closed := true;
    }
  }
}
