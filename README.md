# Length-prefixed echo servers and their benchmark client, in Dafny

CSharpResearchTcpServer benchmarks TCP echo servers. A client sends frames:
each is a 4-byte length header (`BitConverter` byte order, little-endian here)
followed by that many payload bytes. The server sends every payload back. A
header of length 0 asks the server to close. A length larger than the
1000-byte connection buffer makes the server give up on the connection.

This project models three parts of the program:

- **`ThreadPoolServer`**: one blocking worker per connection. `fill` reads an
  exact number of bytes and `handleNetworkStream` runs the frame loop.
- **`AsyncSocketServer`**: a per-connection `StateObject` advanced by
  `readCallback` one receive completion at a time. A complete body is echoed
  by a loop of `Send` calls.
- **The benchmark client**: its packets, the round trips of one connection and
  the error total of a session.

The network is a sequence of chunks. A receive asking for `count` bytes gets
the front of the first chunk, at most `count` bytes of it. An empty chunk, or
no chunk at all, is the peer's shutdown, after which every receive returns 0.

The thread-pool server as written, and the callback server with the
corrected header continuation (see "## Findings"), are both proved to follow
one function, `Framing.Serve`. `Serve` gives the bodies echoed, how the
connection ended and how many receives it took. The two servers count
differently in two places:

- The thread-pool server counts one `WriteCount` per body. The callback
  server counts one per `Send` call, which is `AsyncSocket.SendTotal` of the
  bodies.
- On a negative length, the thread-pool server still counts a close, with no
  reason. The callback server counts no close at all.

Separate lemmas then prove three things about `Serve`:

- Whatever the chunking, a peer sending the frames of some bodies and then
  the close frame gets exactly those bodies back and ends on its close
  request.
- An oversized header ends the connection.
- For a stream the peer does not shut down early, the bodies echoed and the
  ending do not depend on how its bytes are cut into receives; only the number
  of receives does.

The benchmark client's traffic is proved to be such a peer.

Modules:

- `Frame` (frame.dfy): bytes, the `ServerBase` constants, and
  `BitConverter.ToInt32`/`GetBytes` on four little-endian bytes.
- `Transport` (transport.dfy): the chunked stream and a `Socket` class with
  `Receive`, `Send`, `Write` and `Close`.
- `Metrics` (metrics.dfy): the six counters of `ServerBase`.
- `Framing` (framing.dfy): the connection semantics both servers share.
- `ThreadPool` (thread_pool_server.dfy): `fill`, the frame loop,
  `handleTcpClient` and the accept loop, as methods over arrays.
- `AsyncSocket` (async_socket_server.dfy): `StateObject`, `acceptCallback`,
  `readCallback` with its send loop, and the driver that chains one
  connection's callbacks.
- `Bench` (benchmark.dfy): the `Benchmark` packets,
  `connectAndRequestResponse` and the session sum.

The client reads every piece of a reply into offset 0 of its buffer.
`Bench.TwoPieceReply` gives the consequence for a reply that arrives in two
pieces: the buffer ends as the second piece followed by whatever the first
read left behind it. An error counts exactly when that differs from the
payload. `Bench.SplitReplyMismatch` shows both outcomes. Payload 1, 2
arriving as 1 and then 2 counts an error even though every byte came back,
while a split that leaves a buffer already equal to the payload unchanged
counts none.
`Bench.WholeRepliesMatch` shows that replies arriving whole count none.

## Model

| member | source | states |
|---|---|---|
| Frame.ToInt32 | src/CSharpResearchTcpServer/ThreadPoolServer.cs:60 | The decoded header length is a 32-bit signed value. |
| Frame.DecodeEncode | src/CSharpResearchTcpServer/Program.cs:85 | A header made by `GetBytes` from a length decodes, as the servers decode it, to that length. |
| Frame.EncodeDecode | src/CSharpResearchTcpServer/AsyncSocketServer.cs:102 | Every 4-byte header is the encoding of the length it decodes to, so decoding loses nothing. |
| Frame.ZeroHeader | src/CSharpResearchTcpServer/ThreadPoolServer.cs:60-65 | A header means "close" exactly when it is four zero bytes. |
| Transport.Take | src/CSharpResearchTcpServer/ThreadPoolServer.cs:86 | A receive returns at most the bytes asked for, and returns none exactly when none are asked for or the peer has shut down, consuming nothing then. |
| Transport.TakeKeeps | src/CSharpResearchTcpServer/ThreadPoolServer.cs:86 | A receive neither loses nor invents bytes of the stream. |
| Transport.Socket.Receive | src/CSharpResearchTcpServer/ThreadPoolServer.cs:86 | `Read(buffer, offset, count)` stores the received bytes at `offset` and leaves the rest of the buffer as it was. |
| Transport.Socket.Send | src/CSharpResearchTcpServer/AsyncSocketServer.cs:150 | `Send` hands over the front of the requested range, up to the send window, and returns how much. |
| Transport.Socket.Write | src/CSharpResearchTcpServer/ThreadPoolServer.cs:71 | `Write` appends all of the data to what the socket has sent. |
| Transport.Socket.Close | src/CSharpResearchTcpServer/AsyncSocketServer.cs:82-83 | Shutting down and closing leaves the socket closed. |
| Metrics.ServerBase.constructor | src/CSharpResearchTcpServer/Program.cs:194-201 | All six counters start at 0. |
| Framing.Accumulate | src/CSharpResearchTcpServer/ThreadPoolServer.cs:83-95 | Reading until `n` bytes have come yields exactly `n` bytes on success and fewer on failure. |
| Framing.AccumulateKeeps | src/CSharpResearchTcpServer/ThreadPoolServer.cs:83-95 | The bytes read followed by the bytes left are the stream: nothing is lost or invented. |
| Framing.AccumulateStops | src/CSharpResearchTcpServer/ThreadPoolServer.cs:88-91 | The read loop fails only at a zero-byte read, that is, at the peer's shutdown. |
| Framing.AccumulateReceives | src/CSharpResearchTcpServer/ThreadPoolServer.cs:84-87 | The loop reads exactly when bytes are due, and every read except a failing last one brings at least one byte. |
| Framing.AccumulateShrinks | src/CSharpResearchTcpServer/ThreadPoolServer.cs:84-94 | The loop consumes at least the bytes it delivers. |
| Framing.AccumulateOnStream | src/CSharpResearchTcpServer/ThreadPoolServer.cs:83-95 | On a stream the peer does not shut down, the loop succeeds exactly when `n` bytes are there, and then they are the first `n` of the stream. |
| Framing.ReceivingIsAccumulate | src/CSharpResearchTcpServer/ThreadPoolServer.cs:83-95 | The offset/rest loop state and the recursive reading agree at every point of the loop. |
| Framing.Fill | src/CSharpResearchTcpServer/ThreadPoolServer.cs:76-96 | `fill` succeeds only for a request the buffer can hold, with exactly the requested bytes, and fails with fewer. |
| Framing.FillReceives | src/CSharpResearchTcpServer/ThreadPoolServer.cs:76-96 | `fill` reads nothing exactly when it refuses an oversized request or has nothing to read, and keeps every byte. |
| Framing.ServeByPasses | src/CSharpResearchTcpServer/ThreadPoolServer.cs:53-73 | A connection is its frame loop: a pass that ends is all of it; a pass that goes on consumes input and echoes one body in front of the rest. |
| Framing.ServeEchoesFrames | src/CSharpResearchTcpServer/ThreadPoolServer.cs:50-74 | However the bytes are cut into receives, frames of bodies the buffer holds, followed by the close frame, are echoed exactly and in order, and the connection ends on the peer's close request. |
| Framing.OversizedIsAbandoned | src/CSharpResearchTcpServer/ThreadPoolServer.cs:66-70 | A header declaring more than 1000 bytes ends the connection as too long, with nothing echoed and no read after the header. |
| Framing.ServeIgnoresChunking | src/CSharpResearchTcpServer/ThreadPoolServer.cs:50-74 | Two chunkings of the same bytes, neither with a shutdown before its end, give the same echoed bodies and the same ending. |
| ThreadPool.Fill | src/CSharpResearchTcpServer/ThreadPoolServer.cs:76-96 | `fill` returns what `Framing.Fill` says, counts one read per `Read`, and puts the bytes read at the front of the buffer, leaving the rest of it unchanged. |
| ThreadPool.ReceiveAll | src/CSharpResearchTcpServer/ThreadPoolServer.cs:83-95 | The read loop, kept by the invariant `offset + rest == count`, puts the reads' bytes contiguously at the buffer's front. |
| ThreadPool.ReceiveOnce | src/CSharpResearchTcpServer/ThreadPoolServer.cs:86-93 | One read lands at `offset`, counts one read, and moves the loop on or stops it at a zero-byte read. |
| ThreadPool.HandleNetworkStream | src/CSharpResearchTcpServer/ThreadPoolServer.cs:50-74 | The frame loop echoes exactly the bodies `Serve` gives, in order, with one write each. It counts `Serve`'s reads and one invalid-stream or peer close for how it ended. |
| ThreadPool.EchoFrame | src/CSharpResearchTcpServer/ThreadPoolServer.cs:55-72 | One pass: a failed header fill is an invalid-stream close; otherwise the pass continues on the decoded length. |
| ThreadPool.EchoBody | src/CSharpResearchTcpServer/ThreadPoolServer.cs:61-72 | A zero length is a peer close; a failed body fill, oversized or not, is an invalid-stream close. Otherwise the body is written back once and counted. |
| ThreadPool.PassEnds | src/CSharpResearchTcpServer/ThreadPoolServer.cs:55-70 | A pass that ends the loop is all the connection does. |
| ThreadPool.PassGoesOn | src/CSharpResearchTcpServer/ThreadPoolServer.cs:66-73 | A pass that goes on consumes input and echoes its body before the rest of the connection. |
| ThreadPool.HandleTcpClient | src/CSharpResearchTcpServer/ThreadPoolServer.cs:29-48 | One close is counted and the client is closed whatever the ending. The close count keeps equal to the sum of the reasons exactly when the ending is not a negative length. |
| ThreadPool.Run | src/CSharpResearchTcpServer/ThreadPoolServer.cs:15-27 | Each accepted client is counted once as accepted and once as closed. No counter goes down, and every client ends closed. |
| AsyncSocket.HeaderReceive | src/CSharpResearchTcpServer/AsyncSocketServer.cs:92-98 | The corrected header continuation asks for exactly the missing bytes, placed right after those already received. |
| AsyncSocket.BodyReceive | src/CSharpResearchTcpServer/AsyncSocketServer.cs:137-143 | The body continuation at `BodyLength - Rest` for `Rest` bytes ends exactly at the body's end. |
| AsyncSocket.HeaderAssembles | src/CSharpResearchTcpServer/AsyncSocketServer.cs:86-99 | With the corrected continuation the header phase completes exactly when the header arrives whole. It holds the bytes received in order, makes the same receives as `fill`, and never drives `Rest` negative. |
| AsyncSocket.HeaderScrambledAsWritten | src/CSharpResearchTcpServer/AsyncSocketServer.cs:92-98 | As written, a header arriving as 1, 2 and 3-4 is assembled as 1, 0, 3, 4. |
| AsyncSocket.HeaderOverflowAsWritten | src/CSharpResearchTcpServer/AsyncSocketServer.cs:87-131 | As written, a first receive of 3 header bytes asks for 3 more, and `Rest` drops to -2 (the "buffer over flow" branch). The corrected continuation completes the header instead. |
| AsyncSocket.SendCallsRoundUp | src/CSharpResearchTcpServer/AsyncSocketServer.cs:147-152 | The send loop makes the fewest calls of at most the window size that cover the body: the length divided by the window, rounded up. |
| AsyncSocket.StepRemaining | src/CSharpResearchTcpServer/AsyncSocketServer.cs:71-168 | With the corrected header continuation, each callback is a step of `Serve`: one that stops is all that is left, and one that goes on consumes input and leaves the rest after the body it echoes. |
| AsyncSocket.HeaderStepRemaining | src/CSharpResearchTcpServer/AsyncSocketServer.cs:86-131 | A header-phase callback that brings bytes, continued as corrected, either waits for more, stops on the decoded length, or starts the body, as `Serve` does. |
| AsyncSocket.BodyStepRemaining | src/CSharpResearchTcpServer/AsyncSocketServer.cs:133-162 | A body-phase callback that brings bytes either waits for more or echoes the complete body and starts the next header, as `Serve` does. |
| AsyncSocket.AsyncCloses | src/CSharpResearchTcpServer/AsyncSocketServer.cs:78-117 | Each close path counts one close and exactly one reason. |
| AsyncSocket.StateObject.constructor | src/CSharpResearchTcpServer/AsyncSocketServer.cs:16-20 | A state holds its socket and a fresh zeroed buffer of the requested length. |
| AsyncSocket.AcceptCallback | src/CSharpResearchTcpServer/AsyncSocketServer.cs:50-69 | Accepting counts one connection and starts the header phase with a receive at offset 0 for 4 bytes. |
| AsyncSocket.ReadCallback | src/CSharpResearchTcpServer/AsyncSocketServer.cs:71-168 | Each callback counts one read and moves the state as `Step` says, with the corrected header continuation. It sends the completed body and counts its `Send` calls. A stop counts one close with exactly one reason (none for a negative length) and shuts the socket for a zero-byte receive or a zero length only. |
| AsyncSocket.EndReceive | src/CSharpResearchTcpServer/AsyncSocketServer.cs:73-87 | A completion counts one read; a non-empty one lowers `Rest` by the bytes received, which follow those already in the buffer. |
| AsyncSocket.HeaderReceived | src/CSharpResearchTcpServer/AsyncSocketServer.cs:88-131 | A partial header asks for the rest with the corrected continuation, just behind the bytes already there. A complete header then takes one of four paths: zero length is a peer close that shuts the socket; too long is an invalid close that leaves it open; negative stops; otherwise the body phase starts. |
| AsyncSocket.BodyReceived | src/CSharpResearchTcpServer/AsyncSocketServer.cs:133-167 | A partial body asks for the rest at `BodyLength - Rest`; a complete one is sent and the header phase restarts with `Rest = 4`. |
| AsyncSocket.SendBody | src/CSharpResearchTcpServer/AsyncSocketServer.cs:147-152 | The send loop transmits exactly `Buffer[0..BodyLength)` in order, counting one write per `Send`. |
| AsyncSocket.ServeConnection | src/CSharpResearchTcpServer/AsyncSocketServer.cs:50-168 | With the corrected header continuation, a connection from accept to its last callback echoes exactly `Serve`'s bodies and counts `Serve`'s reads. It counts one write per `Send`, and its close counts match its ending. |
| AsyncSocket.Run | src/CSharpResearchTcpServer/AsyncSocketServer.cs:31-48 | Each accepted connection is counted once. If the close count equalled the sum of its reasons before, it still does after, and no counter goes down. |
| Bench.Payload | src/CSharpResearchTcpServer/Program.cs:86 | The payload has exactly `payloadLength` bytes. |
| Bench.NewBenchmark | src/CSharpResearchTcpServer/Program.cs:75-87 | The header packet is 4 bytes that decode to the payload length, and the payload packet has that many bytes. |
| Bench.PayloadBytes | src/CSharpResearchTcpServer/Program.cs:86 | The byte at index k is (k+1) mod 256, so it is 0 exactly at every 256th index and repeats every 256. A shorter payload is a prefix of a longer one. |
| Bench.TerminateIsClose | src/CSharpResearchTcpServer/Program.cs:70 | The terminate packet decodes to 0, the servers' close request, and is the header of an empty frame. |
| Bench.RoundTrips | src/CSharpResearchTcpServer/Program.cs:169-183 | A client counts at most one error per round trip. |
| Bench.ConnectAndRequestResponse | src/CSharpResearchTcpServer/Program.cs:150-188 | A failed connect counts 1 error and sends nothing. A connected client makes its round trips and counts the mismatching replies. It writes all requests, then the terminate packet exactly once, and closes. |
| Bench.RoundTripLoop | src/CSharpResearchTcpServer/Program.cs:169-183 | The loop writes header and payload once per round trip and counts one error per reply that leaves the buffer different from the payload. |
| Bench.Request | src/CSharpResearchTcpServer/Program.cs:171-178 | One round trip writes the header, then the payload, then reads the reply. |
| Bench.ReceiveReply | src/CSharpResearchTcpServer/Program.cs:174-178 | The reply loop reads at offset 0 for the whole buffer until the counted bytes reach the payload length; a stream that ends first leaves it unfinished. |
| Bench.WholeRepliesMatch | src/CSharpResearchTcpServer/Program.cs:174-182 | Replies that each arrive in one piece give no error and consume exactly the replies. |
| Bench.TwoPieceReply | src/CSharpResearchTcpServer/Program.cs:174-182 | A reply in two pieces leaves the buffer as the second piece followed by what the first read left after it, because both reads land at offset 0. The round trip counts an error exactly when that buffer differs from the payload. |
| Bench.SplitReplyMismatch | src/CSharpResearchTcpServer/Program.cs:174-182 | A split reply can count as an error although every byte came back: payload 1, 2 arriving as 1 and then 2 into a fresh buffer. It can also count none: payload 1, 2, 1, 2 arriving as 1, 2 twice after a matching round trip. |
| Bench.RequestsAreFrames | src/CSharpResearchTcpServer/Program.cs:169-184 | What a client writes is the wire form of its payload once per round trip followed by the close frame. |
| Bench.ClientTrafficEchoed | src/CSharpResearchTcpServer/Program.cs:169-184 | A server handed a client's traffic, however chunked, echoes the payload once per round trip and ends on the close request. |
| Bench.DefaultRunEchoes | src/CSharpResearchTcpServer/Program.cs:14-16 | The program's own run of 1000-byte payloads fits the servers' buffer and is echoed whole. |
| Bench.SessionErrorsBound | src/CSharpResearchTcpServer/Program.cs:133-137 | A session's error total is at most the client count times the most errors any one client counts. |
| Bench.SessionErrorsZero | src/CSharpResearchTcpServer/Program.cs:133-137 | The session total is 0 exactly when no client counted an error. |

## Left out

- Transport faults: `Read` and `Write` (src/CSharpResearchTcpServer/ThreadPoolServer.cs:71,86), `EndReceive`, `BeginReceive` and `Send` (src/CSharpResearchTcpServer/AsyncSocketServer.cs:76,92,150), and `ReadAsync`/`WriteAsync` (src/CSharpResearchTcpServer/Program.cs:171-177) can throw on a reset connection. `Transport.Socket` never fails. The model therefore cannot express the thread-pool server catching such an exception and counting a close with no reason (src/CSharpResearchTcpServer/ThreadPoolServer.cs:39-47). Nor can it express such an exception escaping a callback of the callback server, or ending a client's task.
- A peer that stops sending without shutting down its side: in the model, a stream whose chunks are used up is a shutdown. In the source, such a peer leaves `fill` blocked, or the pending `BeginReceive` outstanding, for ever, with no close counted. The model cannot express that wait.
- Concurrency: the thread pool, the `ManualResetEvent` accept loop, `Task.WhenAll` and `Interlocked` atomicity. Connections are served one after another, and a counter increment is a plain assignment.
- Real sockets, listeners, `TcpClient` and `NetworkStream`: the peer's bytes are a sequence of chunks, and `Send` is bounded by a fixed positive window.
- Process plumbing: `Main`'s argument dispatch and its three servers on ports 17001-17003, `BootServer` starting each server's `Run`, `BootClient`'s console output, `ToString`, `Console.WriteLine` logging and `Environment.Exit` ending the process. None of it sends or receives a frame; each server's `Run` is modelled on its own.
- `Stopwatch` and the requests-per-second figure: floating-point timing with no bearing on the protocol.
- Socket options (`setSocketOption`, `NoDelay`): they do not change what is sent or received.
- `AwaitServer`: its source file is not part of this model.
- `BitConverter` byte order is taken to be little-endian, the order of the machines the benchmark targets.
- `memcmp` through `DllImport` is replaced by equality of the buffer with the payload.
- `ConnectAsync` is the `connected` parameter of `Bench.ConnectAndRequestResponse`.
- Bench.ConnectAndRequestResponse: when the stream ends during a reply, the client reads 0 bytes forever. The model reports `completed == false` and says nothing more about that connection.
- Bench.NewBenchmark: requires a payload length that is a 32-bit `int` and not negative; `Enumerable.Range` throws on a negative count.
- AsyncSocket.ReadCallback: a header with a negative length makes `BeginReceive` throw inside the callback. The model stops there with the `NegativeLength` ending and counts no close; the exception itself and what the runtime does with it are not modelled.
- ThreadPool.HandleTcpClient: with a negative length `stream.Write` throws, and the exception is caught and printed. The model returns the `NegativeLength` ending and does not model the printing.
- Metrics.ServerBase: counters are unbounded; the 32-bit wrap-around of the C# `int` counters is not modelled.
- AsyncSocket.HeaderReceived: models the corrected header continuation `HeaderReceive(Rest)`, at offset `HeaderSize - Rest` for `Rest` bytes. The continuation as written, at offset `Rest` for `HeaderSize - Rest` bytes, is `HeaderReceiveAsWritten`, and its header phase is `AssembleHeader(true, …)`. The "buffer over flow" log branch (`Rest < 0`) cannot be reached with the correction, so it holds `assert false`.
- AsyncSocket.ReadCallback: steps the corrected header continuation. As written, a header that arrives split can be assembled wrongly or stall at `Rest < 0`; that behaviour is `AssembleHeader(true, …)` with `HeaderReceiveAsWritten`, not this method.
- AsyncSocket.StepRemaining: relates `Serve` to callbacks that use the corrected header continuation. The callbacks as written follow `AssembleHeader(true, …)` / `HeaderReceiveAsWritten` in the header phase, and they need not follow `Serve`.
- AsyncSocket.HeaderStepRemaining: describes the corrected header callback. The header callback as written is `AssembleHeader(true, …)` / `HeaderReceiveAsWritten`.
- AsyncSocket.ServeConnection: its equality with `Serve` holds for the corrected header continuation. As written, a connection whose header arrives split (for example 1 byte then more, or 3 bytes then more) does not follow `Serve`; see `AssembleHeader(true, …)` / `HeaderReceiveAsWritten`.

## Findings

| source | as written | input that shows it | evidently intended | confidence | as-written member | corrected member |
|---|---|---|---|---|---|---|
| src/CSharpResearchTcpServer/AsyncSocketServer.cs:92-98 | A partial header is continued at offset `Rest` for `headerSize - Rest` bytes. | Header bytes 1, 2, 3, 4 arriving as [1], [2], [3, 4] are assembled as 1, 0, 3, 4 on a fresh buffer (on a reused one the second byte is a stale body byte). Arriving as [1, 2, 3], [4, 5, 6], they drive `Rest` to -2 and the connection stalls. | Continue at offset `headerSize - Rest` for `Rest` bytes, as the body phase does. | not executed | AsyncSocket.HeaderScrambledAsWritten | AsyncSocket.HeaderAssembles |
