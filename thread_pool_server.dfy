/** The blocking server (`ThreadPoolServer`): one worker per accepted
    connection reads whole headers and bodies with `fill` and writes each body
    back. Connections are handled one after another here; the pool that runs
    them side by side is not part of this model. */
module ThreadPool {
  import opened Frame
  import opened Transport
  import opened Metrics
  import opened Framing

  /** `fill(stream, buffer, rest)`: read exactly `count` bytes into the front
      of `buffer`, counting each receive; false on a request larger than the
      buffer (without receiving) or when the peer shuts down first. */
  method Fill(server: ServerBase, stream: Socket, buffer: array<Byte>, count: int) returns (ok: bool)
    modifies server`ReadCount, stream`Inbound, buffer
    ensures var f := Framing.Fill(old(stream.Inbound), count, buffer.Length);
      && ok == f.ok
      && stream.Inbound == f.rest
      && server.ReadCount == old(server.ReadCount) + f.receives
      && buffer[..] == f.data + old(buffer[..])[|f.data|..]
  {
    if count > buffer.Length {
      return false;
    }
    if count <= 0 {
      return true;
    }
    ReceivingIsAccumulate(stream.Inbound, count, [], 0);
    ok := ReceiveAll(server, stream, buffer, count, Receiving(stream.Inbound, count, [], 0));
  }

  /** The receive loop of `fill`: `whole` is what the receives will get. */
  method ReceiveAll(server: ServerBase, stream: Socket, buffer: array<Byte>, count: nat, ghost whole: Filled)
      returns (ok: bool)
    requires 0 < count <= buffer.Length && whole == Receiving(stream.Inbound, count, [], 0)
    modifies server`ReadCount, stream`Inbound, buffer
    ensures |whole.data| <= count
      && ok == whole.ok
      && stream.Inbound == whole.rest
      && server.ReadCount == old(server.ReadCount) + whole.receives
      && buffer[..] == whole.data + old(buffer[..])[|whole.data|..]
  {
    var rest, offset := count, 0;
    ghost var original := buffer[..];
    ghost var got: seq<Byte>, receives: nat := [], 0;
    while rest > 0
      invariant 0 <= rest && 0 <= offset && offset + rest == count
      invariant |got| == offset && buffer[..] == got + original[offset..]
      invariant server.ReadCount == old(server.ReadCount) + receives
      invariant whole == Receiving(stream.Inbound, rest, got, receives)
      decreases rest
    {
      var length;
      length, got := ReceiveOnce(server, stream, buffer, offset, rest, got, original, receives, whole);
      receives := receives + 1;
      if length == 0 {
        return false;
      }
      rest := rest - length;
      offset := offset + length;
    }
    return true;
  }

  /** One pass of the loop of `fill`: one receive into the buffer at `offset`,
      counted; `got` is what the earlier receives put in front of it. */
  method ReceiveOnce(server: ServerBase, stream: Socket, buffer: array<Byte>, offset: nat, rest: nat,
                     ghost got: seq<Byte>, ghost original: seq<Byte>, ghost receives: nat, ghost whole: Filled)
      returns (length: nat, ghost got': seq<Byte>)
    requires 0 < rest && offset + rest <= buffer.Length == |original|
    requires |got| == offset && buffer[..] == got + original[offset..]
    requires whole == Receiving(stream.Inbound, rest, got, receives)
    modifies server`ReadCount, stream`Inbound, buffer
    ensures server.ReadCount == old(server.ReadCount) + 1
    ensures length <= rest && |got'| == offset + length && buffer[..] == got' + original[offset + length..]
    ensures length == 0 ==> whole == Filled(false, got', stream.Inbound, receives + 1)
    ensures length > 0 ==> whole == Receiving(stream.Inbound, rest - length, got', receives + 1)
  {
    ghost var before := stream.Inbound;
    length := stream.Receive(buffer, offset, rest);
    server.ReadCount := server.ReadCount + 1;
    ghost var t := Take(before, rest);
    got' := got + t.data;
    if length == 0 {
      ReceivingStop(before, rest, got, receives);
      assert buffer[..] == got' + original[offset..];
      return;
    }
    ReceivingStep(before, rest, got, receives, t.data, t.rest);
    assert buffer[..] == got' + original[offset + length..] by {
      Overwrite(got, original[offset..], t.data);
      assert original[offset..][length..] == original[offset + length..];
    }
  }

  /** `handleNetworkStream(stream)`: echo frames until the peer asks to close,
      shuts down early, or declares a length the buffer cannot hold; the result
      says which. A negative length makes `stream.Write` throw; that is the
      NegativeLength ending. */
  method HandleNetworkStream(server: ServerBase, stream: Socket) returns (ending: Ending)
    modifies server, stream`Inbound, stream`Outbound
    ensures var o := Serve(old(stream.Inbound));
      && ending == o.ending
      && stream.Outbound == old(stream.Outbound) + Concat(o.bodies)
      && server.ReadCount == old(server.ReadCount) + o.receives
      && server.WriteCount == old(server.WriteCount) + |o.bodies|
      && server.CloseByInvalidStream == old(server.CloseByInvalidStream) + InvalidCloses(o.ending)
      && server.CloseByPeerCount == old(server.CloseByPeerCount) + PeerCloses(o.ending)
    ensures server.AcceptCount == old(server.AcceptCount) && server.CloseCount == old(server.CloseCount)
  {
    var buffer := new Byte[BufferSize];
    ghost var spec := Serve(stream.Inbound);
    ghost var pending := stream.Inbound;
    while true
      invariant buffer.Length == BufferSize && stream.Inbound == pending
      invariant var o := Serve(pending);
        && spec.ending == o.ending
        && old(stream.Outbound) + Concat(spec.bodies) == stream.Outbound + Concat(o.bodies)
        && old(server.ReadCount) + spec.receives == server.ReadCount + o.receives
        && old(server.WriteCount) + |spec.bodies| == server.WriteCount + |o.bodies|
      invariant server.CloseByInvalidStream == old(server.CloseByInvalidStream)
      invariant server.CloseByPeerCount == old(server.CloseByPeerCount)
      invariant server.AcceptCount == old(server.AcceptCount) && server.CloseCount == old(server.CloseCount)
      decreases Size(pending)
    {
      ghost var p := EchoPass(pending);
      ghost var sent := stream.Outbound;
      var last := EchoFrame(server, stream, buffer);
      if last.Some? {
        PassEnds(pending);
        return last.value;
      }
      PassGoesOn(pending, sent);
      pending := p.rest;
    }
  }

  /** A pass of the loop of `handleNetworkStream` that ends the connection
      is all that Serve does. */
  lemma PassEnds(cs: Chunks)
    requires EchoPass(cs).ending.Some?
    ensures var p := EchoPass(cs); var o := Serve(cs);
      o.ending == p.ending.value && o.receives == p.receives && o.bodies == [] && Concat(o.bodies) == []
  {
    ServeByPasses(cs);
  }

  /** A pass of the loop of `handleNetworkStream` that goes on echoes one body
      onto what was `sent` and leaves the rest to Serve. */
  lemma PassGoesOn(cs: Chunks, sent: seq<Byte>)
    requires EchoPass(cs).ending.None?
    ensures var p := EchoPass(cs); var o := Serve(cs); var r := Serve(p.rest);
      && Size(p.rest) < Size(cs)
      && o.ending == r.ending && o.receives == p.receives + r.receives
      && |o.bodies| == 1 + |r.bodies|
      && sent + Concat(o.bodies) == (sent + p.body) + Concat(r.bodies)
  {
    var p := EchoPass(cs);
    ServeByPasses(cs);
    var r := Serve(p.rest);
    var bodies := [p.body] + r.bodies;
    assert Concat(bodies) == p.body + Concat(r.bodies) by {
      assert bodies[0] == p.body && bodies[1..] == r.bodies;
    }
  }

  /** One pass of the loop of `handleNetworkStream`: fill a header and, when
      it declares a body the buffer can take, fill the body and write it back.
      The result is how the connection ended, or None when it goes on. */
  method EchoFrame(server: ServerBase, stream: Socket, buffer: array<Byte>) returns (ending: Option<Ending>)
    requires buffer.Length == BufferSize
    modifies server`ReadCount, server`WriteCount, server`CloseByInvalidStream, server`CloseByPeerCount
    modifies stream`Inbound, stream`Outbound, buffer
    ensures var p := EchoPass(old(stream.Inbound));
      && ending == p.ending
      && stream.Inbound == p.rest
      && stream.Outbound == old(stream.Outbound) + p.body
      && server.ReadCount == old(server.ReadCount) + p.receives
      && server.WriteCount == old(server.WriteCount) + (if ending.None? then 1 else 0)
    ensures ending.Some? ==>
      && server.CloseByInvalidStream == old(server.CloseByInvalidStream) + InvalidCloses(ending.value)
      && server.CloseByPeerCount == old(server.CloseByPeerCount) + PeerCloses(ending.value)
    ensures ending.None? ==>
      && server.CloseByInvalidStream == old(server.CloseByInvalidStream)
      && server.CloseByPeerCount == old(server.CloseByPeerCount)
  {
    ghost var h := Accumulate(stream.Inbound, HeaderSize);
    var ok := Fill(server, stream, buffer, HeaderSize);
    if !ok {
      server.CloseByInvalidStream := server.CloseByInvalidStream + 1;
      return Some(Disconnected);
    }
    var length := ToInt32(buffer[..]);
    assert length == ToInt32(h.data) by {
      assert buffer[..][..HeaderSize] == h.data[..HeaderSize];
    }
    ending := EchoBody(server, stream, buffer, length);
  }

  /** The rest of a pass once the header has declared `length`: a zero length
      closes, and otherwise the body is filled and written back. */
  method EchoBody(server: ServerBase, stream: Socket, buffer: array<Byte>, length: int) returns (ending: Option<Ending>)
    requires buffer.Length == BufferSize
    modifies server`ReadCount, server`WriteCount, server`CloseByInvalidStream, server`CloseByPeerCount
    modifies stream`Inbound, stream`Outbound, buffer
    ensures var p := BodyPass(length, old(stream.Inbound));
      && ending == p.ending
      && stream.Inbound == p.rest
      && stream.Outbound == old(stream.Outbound) + p.body
      && server.ReadCount == old(server.ReadCount) + p.receives
      && server.WriteCount == old(server.WriteCount) + (if ending.None? then 1 else 0)
    ensures ending.Some? ==>
      && server.CloseByInvalidStream == old(server.CloseByInvalidStream) + InvalidCloses(ending.value)
      && server.CloseByPeerCount == old(server.CloseByPeerCount) + PeerCloses(ending.value)
    ensures ending.None? ==>
      && server.CloseByInvalidStream == old(server.CloseByInvalidStream)
      && server.CloseByPeerCount == old(server.CloseByPeerCount)
  {
    if length == 0 {
      server.CloseByPeerCount := server.CloseByPeerCount + 1;
      return Some(PeerClosed);
    }
    var ok := Fill(server, stream, buffer, length);
    if !ok {
      server.CloseByInvalidStream := server.CloseByInvalidStream + 1;
      if length > BufferSize {
        return Some(TooLong);
      }
      return Some(Disconnected);
    }
    if length < 0 {
      return Some(NegativeLength);
    }
    stream.Write(buffer[..length]);
    server.WriteCount := server.WriteCount + 1;
    ending := None;
  }

  /** `handleTcpClient(client)`: serve the connection, then count one close
      and close the client, whatever the ending. */
  method HandleTcpClient(server: ServerBase, client: Socket) returns (ending: Ending)
    modifies server, client`Inbound, client`Outbound, client`Closed
    ensures var o := Serve(old(client.Inbound));
      && ending == o.ending
      && client.Outbound == old(client.Outbound) + Concat(o.bodies)
      && server.ReadCount == old(server.ReadCount) + o.receives
      && server.WriteCount == old(server.WriteCount) + |o.bodies|
      && server.CloseByInvalidStream == old(server.CloseByInvalidStream) + InvalidCloses(o.ending)
      && server.CloseByPeerCount == old(server.CloseByPeerCount) + PeerCloses(o.ending)
    ensures server.CloseCount == old(server.CloseCount) + 1 && client.Closed
    ensures server.AcceptCount == old(server.AcceptCount)
    ensures old(server.CloseBalanced()) ==> (server.CloseBalanced() <==> ending != NegativeLength)
  {
    ending := HandleNetworkStream(server, client);
    server.CloseCount := server.CloseCount + 1;
    client.Close();
  }

  /** The accept loop of `Run`, over the connections that arrive: each is
      counted as accepted and then handled to the end. */
  method Run(server: ServerBase, clients: seq<Socket>)
    requires forall i, j | 0 <= i < j < |clients| :: clients[i] != clients[j]
    modifies server, set c | c in clients
    ensures server.AcceptCount == old(server.AcceptCount) + |clients|
    ensures server.CloseCount == old(server.CloseCount) + |clients|
    ensures server.CloseByInvalidStream + server.CloseByPeerCount
         <= old(server.CloseByInvalidStream + server.CloseByPeerCount) + |clients|
    ensures server.Grew()
    ensures forall c | c in clients :: c.Closed
  {
    for i := 0 to |clients|
      invariant server.AcceptCount == old(server.AcceptCount) + i
      invariant server.CloseCount == old(server.CloseCount) + i
      invariant server.CloseByInvalidStream + server.CloseByPeerCount
             <= old(server.CloseByInvalidStream + server.CloseByPeerCount) + i
      invariant server.Grew()
      invariant forall j | 0 <= j < i :: clients[j].Closed
    {
      server.AcceptCount := server.AcceptCount + 1;
      var _ := HandleTcpClient(server, clients[i]);
    }
  }
}
