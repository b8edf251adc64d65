/** The benchmark client (`Benchmark`): the packets it sends, one client's
    round trips against a server, and the error total of a session. */
module Bench {
  import opened Frame
  import opened Transport
  import opened Framing

  /** The run the program sets up: connections per server, round trips per
      connection and payload bytes per round trip. */
  const ConcurrentCount: nat := 1000
  const LoopCount: nat := 1000
  const PayloadLength: nat := 1000

  /** The close request every client sends last: a length of 0. */
  const TerminatePacket: seq<Byte> := [0, 0, 0, 0]

  /** The settings of a benchmark and the two packets of every request. */
  datatype Benchmark = Benchmark(
    loopCount: nat, concurrentCount: nat, payloadLength: nat,
    headerPacket: seq<Byte>, payloadPacket: seq<Byte>)

  /** The payload `Enumerable.Range(1, n).Select(x => (byte)x)`: the
      numbers 1 to n, each cut to its low byte. */
  function Payload(n: nat): (p: seq<Byte>)
    ensures |p| == n
  {
    seq(n, k => ((k + 1) % 256) as Byte)
  }

  /** The `Benchmark` constructor: the header is `BitConverter.GetBytes` of
      the payload length. */
  function NewBenchmark(loopCount: nat, concurrentCount: nat, payloadLength: nat): (b: Benchmark)
    requires IsInt32(payloadLength)
    ensures |b.headerPacket| == HeaderSize && ToInt32(b.headerPacket) == payloadLength
    ensures |b.payloadPacket| == payloadLength
    ensures b.loopCount == loopCount && b.concurrentCount == concurrentCount && b.payloadLength == payloadLength
  {
    DecodeEncode(payloadLength);
    Benchmark(loopCount, concurrentCount, payloadLength, GetBytes(payloadLength), Payload(payloadLength))
  }

  /** The byte at index k is k + 1 modulo 256: it is 0 exactly at every
      256th index, the bytes repeat every 256, and a shorter payload is a
      prefix of a longer one. */
  lemma PayloadBytes(n: nat, m: nat)
    requires n <= m
    ensures forall k | 0 <= k < n :: Payload(n)[k] as int == (k + 1) % 256
    ensures forall k | 0 <= k < n :: Payload(n)[k] == 0 <==> k % 256 == 255
    ensures forall k | 0 <= k < n - 256 :: Payload(n)[k + 256] == Payload(n)[k]
    ensures Payload(n) == Payload(m)[..n]
  {
    forall k | 0 <= k < n
      ensures Payload(n)[k] == 0 <==> k % 256 == 255
    {
      assert (k + 1) % 256 == 0 <==> k % 256 == 255;
    }
    forall k | 0 <= k < n - 256
      ensures Payload(n)[k + 256] == Payload(n)[k]
    {
      assert (k + 256 + 1) % 256 == (k + 1) % 256;
    }
  }

  /** The close request decodes to 0, the value the servers take as the
      peer's goodbye, and it is the header of an empty frame. */
  lemma TerminateIsClose()
    ensures |TerminatePacket| == HeaderSize && ToInt32(TerminatePacket) == 0
    ensures TerminatePacket == GetBytes(0)
  {
    ZeroHeader(TerminatePacket);
    EncodeDecode(TerminatePacket);
  }

  // One client.

  /** Where a reply read ends: the client's buffer and what is left to
      arrive. */
  datatype Reply = Reply(buf: seq<Byte>, rest: Chunks)

  /** The read loop of one round trip, `rest` bytes still expected: every read
      asks for the whole buffer and stores at offset 0, and its byte count is
      taken off `rest`. None when the stream ends first: the loop then reads 0
      bytes for ever. */
  function ReadReply(buf: seq<Byte>, rest: int, cs: Chunks): Option<Reply>
    decreases Size(cs)
  {
    if rest <= 0 then Some(Reply(buf, cs))
    else
      TakeShrinks(cs, |buf|);
      var t := Take(cs, |buf|);
      if t.data == [] then None
      else ReadReply(t.data + buf[|t.data|..], rest - |t.data|, t.rest)
  }

  /** The outcome of a client's round trips: the mismatches it counted,
      whether every reply loop ended, and what is left to arrive. */
  datatype Session = Session(errors: nat, completed: bool, rest: Chunks)

  /** `n` round trips of `payload` starting from buffer `buf`: one error for
      each reply after which the buffer differs from the payload. */
  function RoundTrips(payload: seq<Byte>, buf: seq<Byte>, n: nat, cs: Chunks): (s: Session)
    decreases n
    ensures s.errors <= n
  {
    if n == 0 then Session(0, true, cs)
    else
      match ReadReply(buf, |payload|, cs)
      case None => Session(0, false, cs)
      case Some(r) =>
        var s := RoundTrips(payload, r.buf, n - 1, r.rest);
        s.(errors := s.errors + if r.buf != payload then 1 else 0)
  }

  /** The requests of `k` round trips, in the order they are written. */
  function Requests(header: seq<Byte>, payload: seq<Byte>, k: nat): seq<Byte>
  {
    if k == 0 then [] else Requests(header, payload, k - 1) + (header + payload)
  }

  /** The zero bytes of a fresh buffer. */
  function Zeros(n: nat): (z: seq<Byte>)
    ensures |z| == n
  {
    seq(n, _ => 0)
  }

  /** `connectAndRequestResponse`: a client whose connect fails counts one
      error and sends nothing; a connected one makes its round trips, counts
      the replies that differ from the payload, sends the close request and
      closes. The client spins without end when the stream ends while it waits
      for a reply; that is `completed == false`. */
  method ConnectAndRequestResponse(b: Benchmark, connected: bool, client: Socket) returns (error: nat, completed: bool)
    requires |b.payloadPacket| == b.payloadLength
    modifies client`Inbound, client`Outbound, client`Closed
    ensures !connected ==> error == 1 && completed && client.Outbound == old(client.Outbound)
    ensures connected ==> (
      var s := RoundTrips(b.payloadPacket, Zeros(b.payloadLength), b.loopCount, old(client.Inbound));
      && completed == s.completed
      && (completed ==> error == s.errors && client.Inbound == s.rest)
      && (completed ==>
            client.Outbound == old(client.Outbound) + Requests(b.headerPacket, b.payloadPacket, b.loopCount) + TerminatePacket))
    ensures completed ==> client.Closed
  {
    if !connected {
      client.Close();
      return 1, true;
    }
    var buf := new Byte[b.payloadLength](_ => 0);
    assert buf[..] == Zeros(b.payloadLength);
    error, completed := RoundTripLoop(b, client, buf);
    if !completed {
      return;
    }
    client.Write(TerminatePacket);
    client.Close();
  }

  /** The `loopCount` round trips of a connected client, counting the
      replies that leave the buffer different from the payload. */
  method RoundTripLoop(b: Benchmark, client: Socket, buf: array<Byte>) returns (error: nat, completed: bool)
    requires buf.Length == |b.payloadPacket|
    modifies client`Inbound, client`Outbound, buf
    ensures var s := RoundTrips(b.payloadPacket, old(buf[..]), b.loopCount, old(client.Inbound));
      && completed == s.completed
      && (completed ==> error == s.errors && client.Inbound == s.rest)
      && (completed ==> client.Outbound == old(client.Outbound) + Requests(b.headerPacket, b.payloadPacket, b.loopCount))
  {
    ghost var start := client.Outbound;
    ghost var whole := RoundTrips(b.payloadPacket, buf[..], b.loopCount, client.Inbound);
    error := 0;
    for i := 0 to b.loopCount
      invariant client.Outbound == start + Requests(b.headerPacket, b.payloadPacket, i)
      invariant var s := RoundTrips(b.payloadPacket, buf[..], b.loopCount - i, client.Inbound);
        whole == s.(errors := s.errors + error)
    {
      RoundTripStep(b.payloadPacket, buf[..], b.loopCount - i, client.Inbound);
      RequestsGrow(start, b.headerPacket, b.payloadPacket, i);
      var done := Request(client, b.headerPacket, b.payloadPacket, buf);
      if !done {
        return error, false;
      }
      if buf[..] != b.payloadPacket {
        error := error + 1;
      }
    }
    return error, true;
  }

  /** One round trip: write the header and the payload, then read the
      reply. */
  method Request(client: Socket, header: seq<Byte>, payload: seq<Byte>, buf: array<Byte>) returns (done: bool)
    modifies client`Inbound, client`Outbound, buf
    ensures client.Outbound == old(client.Outbound) + header + payload
    ensures var r := ReadReply(old(buf[..]), buf.Length, old(client.Inbound));
      && done == r.Some?
      && (done ==> buf[..] == r.value.buf && client.Inbound == r.value.rest)
  {
    client.Write(header);
    client.Write(payload);
    done := ReceiveReply(client, buf);
  }

  lemma RequestsGrow(start: seq<Byte>, header: seq<Byte>, payload: seq<Byte>, k: nat)
    ensures (start + Requests(header, payload, k)) + header + payload == start + Requests(header, payload, k + 1)
  {
  }

  /** The read loop of one round trip: read into offset 0 of `buf` until as
      many bytes as it holds have come, or the stream ends. */
  method ReceiveReply(client: Socket, buf: array<Byte>) returns (done: bool)
    modifies client`Inbound, buf
    ensures var r := ReadReply(old(buf[..]), buf.Length, old(client.Inbound));
      && done == r.Some?
      && (done ==> buf[..] == r.value.buf && client.Inbound == r.value.rest)
  {
    var rest: int := buf.Length;
    ghost var whole := ReadReply(buf[..], rest, client.Inbound);
    while rest > 0
      invariant whole == ReadReply(buf[..], rest, client.Inbound)
      decreases Size(client.Inbound)
    {
      ghost var cs := client.Inbound;
      ghost var before := buf[..];
      TakeShrinks(cs, buf.Length);
      var n := client.Receive(buf, 0, buf.Length);
      assert buf[..] == Take(cs, |before|).data + before[n..];
      if n == 0 {
        return false;
      }
      rest := rest - n;
    }
    return true;
  }

  /** One round trip: its reply read, then the rest. */
  lemma RoundTripStep(payload: seq<Byte>, buf: seq<Byte>, n: nat, cs: Chunks)
    requires n > 0
    ensures var r := ReadReply(buf, |payload|, cs);
      && (r.None? ==> RoundTrips(payload, buf, n, cs) == Session(0, false, cs))
      && (r.Some? ==>
            var s := RoundTrips(payload, r.value.buf, n - 1, r.value.rest);
            RoundTrips(payload, buf, n, cs) == s.(errors := s.errors + if r.value.buf != payload then 1 else 0))
  {
  }

  /** A server that sends each payload back as one piece gives a client no
      error: every reply fills the buffer at once. */
  lemma {:induction false} WholeRepliesMatch(payload: seq<Byte>, buf: seq<Byte>, n: nat, cs: Chunks)
    requires |payload| > 0 && |buf| == |payload|
    decreases n
    ensures var s := RoundTrips(payload, buf, n, seq(n, _ => payload) + cs);
      s.completed && s.errors == 0 && s.rest == cs
  {
    if n > 0 {
      var replies := seq(n, _ => payload) + cs;
      assert replies[0] == payload && replies[1..] == seq(n - 1, _ => payload) + cs;
      assert Take(replies, |buf|) == Received(payload, replies[1..]);
      assert payload + buf[|payload|..] == payload;
      assert ReadReply(payload, 0, replies[1..]) == Some(Reply(payload, replies[1..]));
      assert ReadReply(buf, |payload|, replies) == Some(Reply(payload, replies[1..]));
      WholeRepliesMatch(payload, payload, n - 1, cs);
    }
  }

  /** A reply that arrives in two pieces `p1` and `p2` leaves the buffer
      holding `p2` followed by what the first read left behind it: the second
      read lands at offset 0 over the first. The round trip counts an error
      exactly when that differs from the payload. */
  lemma TwoPieceReply(payload: seq<Byte>, buf: seq<Byte>, p1: seq<Byte>, p2: seq<Byte>, cs: Chunks)
    requires |buf| == |payload| && p1 != [] && p2 != [] && |p1| + |p2| == |payload|
    ensures var last := p2 + (p1 + buf[|p1|..])[|p2|..];
      && ReadReply(buf, |payload|, [p1, p2] + cs) == Some(Reply(last, cs))
      && RoundTrips(payload, buf, 1, [p1, p2] + cs) == Session(if last == payload then 0 else 1, true, cs)
  {
    var first := p1 + buf[|p1|..];
    var last := p2 + first[|p2|..];
    assert [p1, p2] + cs == [p1] + ([p2] + cs);
    ReadPiece(buf, |payload|, p1, [p2] + cs);
    ReadPiece(first, |payload| - |p1|, p2, cs);
    assert ReadReply(last, 0, cs) == Some(Reply(last, cs));
    assert RoundTrips(payload, last, 0, cs) == Session(0, true, cs);
  }

  /** One read that brings the whole first chunk `p`. */
  lemma ReadPiece(buf: seq<Byte>, rest: int, p: seq<Byte>, cs: Chunks)
    requires rest > 0 && p != [] && |p| <= |buf|
    ensures ReadReply(buf, rest, [p] + cs) == ReadReply(p + buf[|p|..], rest - |p|, cs)
  {
    assert ([p] + cs)[0] == p && ([p] + cs)[1..] == cs;
    assert Take([p] + cs, |buf|) == Received(p, cs);
  }

  /** So a reply can count as an error even though every byte came back:
      payload 1, 2 arriving as 1 and then 2 into a fresh buffer leaves 2, 0.
      And a split reply can count none: after a matching round trip, payload
      1, 2, 1, 2 arriving as 1, 2 and then 1, 2 leaves the buffer as it was. */
  lemma SplitReplyMismatch()
    ensures RoundTrips([1, 2], Zeros(2), 1, [[1], [2]]) == Session(1, true, [])
    ensures RoundTrips([1, 2, 1, 2], [1, 2, 1, 2], 1, [[1, 2], [1, 2]]) == Session(0, true, [])
  {
    assert Zeros(2) == [0, 0];
    TwoPieceReply([1, 2], [0, 0], [1], [2], []);
    assert [2] + ([1] + [0, 0][1..])[1..] == [2, 0];
    assert [[1], [2]] + [] == [[1], [2]];
    TwoPieceReply([1, 2, 1, 2], [1, 2, 1, 2], [1, 2], [1, 2], []);
    assert [1, 2] + ([1, 2] + [1, 2, 1, 2][2..])[2..] == [1, 2, 1, 2];
    assert [[1, 2], [1, 2]] + [] == [[1, 2], [1, 2]];
  }

  /** What a connected client that completes writes is the wire form of its
      payload once per round trip followed by the close request. */
  lemma {:induction false} RequestsAreFrames(payload: seq<Byte>, k: nat)
    requires 0 < |payload| <= BufferSize
    ensures Echoable(seq(k, _ => payload))
    ensures Requests(GetBytes(|payload|), payload, k) + TerminatePacket == Wire(seq(k, _ => payload))
  {
    var h := GetBytes(|payload|);
    if k == 0 {
      TerminateIsClose();
    } else {
      RequestsAreFrames(payload, k - 1);
      RequestsFront(h, payload, k);
      var bodies := seq(k, _ => payload);
      assert bodies[0] == payload && bodies[1..] == seq(k - 1, _ => payload);
      calc {
        Requests(h, payload, k) + TerminatePacket;
        ((h + payload) + Requests(h, payload, k - 1)) + TerminatePacket;
        (h + payload) + (Requests(h, payload, k - 1) + TerminatePacket);
        (h + payload) + Wire(seq(k - 1, _ => payload));
        Wire(bodies);
      }
    }
  }

  /** The oldest request goes out first. */
  lemma {:induction false} RequestsFront(header: seq<Byte>, payload: seq<Byte>, k: nat)
    requires k > 0
    ensures Requests(header, payload, k) == (header + payload) + Requests(header, payload, k - 1)
  {
    if k > 1 {
      RequestsFront(header, payload, k - 1);
    }
  }

  /** A server handed what a benchmark client writes, however it is cut into
      receives, echoes the payload once per round trip and ends on the close
      request. */
  lemma ClientTrafficEchoed(b: Benchmark, cs: Chunks)
    requires 0 < b.payloadLength <= BufferSize
    requires b == NewBenchmark(b.loopCount, b.concurrentCount, b.payloadLength)
    requires NoEmpty(cs) && Flatten(cs) == Requests(b.headerPacket, b.payloadPacket, b.loopCount) + TerminatePacket
    ensures Serve(cs).bodies == seq(b.loopCount, _ => b.payloadPacket) && Serve(cs).ending == PeerClosed
  {
    RequestsAreFrames(b.payloadPacket, b.loopCount);
    ServeEchoesFrames(seq(b.loopCount, _ => b.payloadPacket), cs);
  }

  /** The program's own run fits the servers: its payload is a body they
      echo. */
  lemma DefaultRunEchoes(cs: Chunks)
    requires NoEmpty(cs)
    requires var b := NewBenchmark(LoopCount, ConcurrentCount, PayloadLength);
      Flatten(cs) == Requests(b.headerPacket, b.payloadPacket, b.loopCount) + TerminatePacket
    ensures var b := NewBenchmark(LoopCount, ConcurrentCount, PayloadLength);
      Serve(cs).bodies == seq(LoopCount, _ => b.payloadPacket) && Serve(cs).ending == PeerClosed
  {
    ClientTrafficEchoed(NewBenchmark(LoopCount, ConcurrentCount, PayloadLength), cs);
  }

  // A session.

  /** `tasks.Sum(x => x.Result)`: the errors of all clients of a session. */
  function SessionErrors(errors: seq<nat>): nat
  {
    if errors == [] then 0 else errors[0] + SessionErrors(errors[1..])
  }

  /** The total is at most the client count times the most any one client
      counts. */
  lemma {:induction false} SessionErrorsBound(errors: seq<nat>, most: nat)
    requires forall i | 0 <= i < |errors| :: errors[i] <= most
    ensures SessionErrors(errors) <= |errors| * most
  {
    if errors != [] {
      assert forall i | 0 <= i < |errors| - 1 :: errors[1..][i] == errors[i + 1];
      SessionErrorsBound(errors[1..], most);
      MoreClients(|errors| - 1, most);
    }
  }

  lemma MoreClients(n: nat, most: nat)
    ensures n * most + most == (n + 1) * most
  {
  }

  /** The total is 0 exactly when no client counted an error. */
  lemma {:induction false} SessionErrorsZero(errors: seq<nat>)
    ensures SessionErrors(errors) == 0 <==> forall i | 0 <= i < |errors| :: errors[i] == 0
  {
    if errors != [] {
      SessionErrorsZero(errors[1..]);
      assert forall i | 1 <= i < |errors| :: errors[i] == errors[1..][i - 1];
    }
  }
}
