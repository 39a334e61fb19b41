# aesdsocket: packet framing, log update and reply, in Dafny

`aesdsocket` is a small TCP server on port 9000. It accepts one connection
at a time. It receives a packet terminated by a newline, appends it to the
log file `/var/tmp/aesdsocketdata`, and then sends the whole log back to the
client. This project models the part of `server/aesdsocket.c` that holds
that logic, and proves what it does:

- `recv_packet` (module `Framing`, `Server.ScanChunk`, `Server.RecvPacket`).
  The socket is a finite sequence of receive results. Each result is either
  an error (`recv` returned -1) or a chunk of at most `BUF_SIZE` = 1024 bytes.
  The log file is a `LogStore` object whose `data: seq<byte>` the method
  appends to, one chunk at a time, as `fwrite` does.
- `send_updated_file` (`Sending.SendUpdatedFile`). The size/offset loop runs
  over the log contents. Each `sendfile` call is a nondeterministic choice:
  it fails (-1) or sends 1 to `remaining` bytes. The result is the status
  and the bytes the client received.
- One pass of `main`'s accept loop (`Server.HandleConnection`) and the loop
  over a run of connections (`Server.Serve`). A `Connection` value gathers
  what decides a connection's fate: whether `accept` succeeded, whether the
  log opened for appending, the receive results, and whether `open`/`fstat`
  succeeded for the reply.
- Properties of runs of connections (module `History`).

The receive loop's outcome has three values. `Complete` is a return of 0.
`Failed` is a return of -1, from an `fopen` failure or a receive error.
`Pending` means the finite input ran out while the loop was still receiving.
The real loop then keeps calling `recv`. In particular, once the peer
closes, `recv` returns 0 again and again, and the loop never ends, since
only -1 stops it. `Serve` therefore stops at the first connection that
stalls, because `main` never leaves it.

Two facts of the code are kept as written:

- A zero-length receive appends nothing and does not end the loop
  (`EmptyChunksPend`, `EmptyChunksIgnored`, `PeerCloseStalls`).
- Chunks are written before it is known whether the packet will complete.
  So the bytes of a packet cut short by a receive error stay in the log
  (`ThreeClients`).

Two consequences of these facts:

- A receive of 0 bytes, which is what `recv` returns once the peer has
  closed, does not end the packet with a failure: the loop keeps calling
  `recv` (`PeerCloseStalls`).
- A client that sends `"abc"` with no newline and whose connection then
  fails gets no reply, but `"abc"` is already in the log, after the packets
  of earlier clients (`ThreeClients`).

`aesdsocket.c` handles one connection at a time. It has no timer, no worker
threads, no registry of connections and no lock.

Bytes are the newtype `Framing.byte` (0..255). `Seqs` holds small, generic
facts about sequence concatenation that the proofs use.

## Model

| member | source | states |
|---|---|---|
| `Framing.FirstNewline` | server/aesdsocket.c:144-152 | the scan index stops at the first newline: no newline before it; it is below the chunk length exactly when the chunk holds a newline, and then it points at one |
| `Framing.Kept` | server/aesdsocket.c:154-159 | the bytes written for one chunk are a prefix of it; when the chunk holds a newline, they end with it and hold no other; otherwise they are the whole chunk |
| `Framing.KeptIsShortestTerminatedPrefix` | server/aesdsocket.c:144-159 | what is written for a chunk is the shortest prefix of it that holds a newline, so every byte after the first newline is dropped |
| `Server.ScanChunk` | server/aesdsocket.c:144-157 | the for-loop scan and the `i++` adjustment: packet_complete is set exactly when the chunk holds a newline; the count written ends at the first newline, or is the whole chunk when there is none |
| `Framing.Receive` | server/aesdsocket.c:135-164 | the receive loop's appended bytes are always a prefix of the bytes received, so never more than were received |
| `Framing.NewlineFreeChunksAppendWhole` | server/aesdsocket.c:135-160 | any run of newline-free chunks is appended whole and in order, and receiving continues: what follows is decided by the later results alone |
| `Framing.ReceivedPacketIsOneLine` | server/aesdsocket.c:135-164 | when the loop returns 0, the appended bytes end with a newline and hold exactly one; otherwise they hold none |
| `Framing.Stop` | server/aesdsocket.c:135-152 | the index of the receive call that ends the loop: every earlier result is a newline-free chunk, and the result at that index is an error or a chunk with a newline |
| `Framing.ReceiveOutcomeAtStop` | server/aesdsocket.c:135-164 | the loop returns -1 when the stopping call was an error, returns 0 when it delivered data, and is still receiving when there was no stopping call |
| `Framing.ReceiveAppendedUpToStop` | server/aesdsocket.c:135-160 | the log grows by all chunks before the stopping call, followed by the newline-terminated prefix of the stopping chunk, or by nothing more when the stop was an error |
| `Framing.ReceiveStopsReading` | server/aesdsocket.c:135-142 | once the loop has stopped, no later receive result is read: appending more results changes neither the bytes appended nor the outcome |
| `Framing.ReceiveContinues` | server/aesdsocket.c:135-160 | while the loop has not stopped, further results are appended after what was already written, and they decide the outcome |
| `Framing.EmptyChunksPend` | server/aesdsocket.c:137-160 | any number of zero-length receives append nothing and leave the loop still receiving |
| `Framing.EmptyChunksIgnored` | server/aesdsocket.c:137-160 | zero-length receives placed before any results change neither what is appended nor the outcome |
| `Server.LogStore.Append` | server/aesdsocket.c:159 | fwrite to the log opened for appending: the new contents are the old contents followed by the bytes |
| `Server.RecvPacket` | server/aesdsocket.c:124-165 | if fopen fails, the result is -1 and the log is unchanged; otherwise the log becomes the old log followed by the bytes the receive loop appends, and the outcome is that of the loop |
| `Sending.SendUpdatedFile` | server/aesdsocket.c:167-199 | the status is 0 or -1; the client receives a prefix of the file; the status is 0 exactly when open and fstat succeeded and the whole file was sent; when open or fstat fails, nothing is sent; the loop keeps offset + remaining equal to the size |
| `Server.HandleConnection` | server/aesdsocket.c:240-257 | one pass: a failed accept does nothing; otherwise the packet is appended, and a reply is attempted only when the receive returned 0; the reply is the whole log as it stands after the append |
| `Server.Serve` | server/aesdsocket.c:237-258 | over a run of connections, the log is the old log followed by what each handled connection appended, in order; reply k is made from the log up to and including packet k; the run stops only at a connection whose receive loop never returns |
| `History.AppendedAllPrefix` | server/aesdsocket.c:247 | the log only grows: what the first j connections leave is a prefix of what the first k leave, for j <= k |
| `History.NewlinesCountCompleted` | server/aesdsocket.c:247-252 | the number of newlines that a run of connections adds to the log equals the number of connections whose packet completed |
| `History.PacketIsOneLine` | server/aesdsocket.c:247-252 | a connection whose receive returned 0 appends one line: its packet ends with its only newline |
| `History.ReplyCarriesPacket` | server/aesdsocket.c:247-256 | a successful reply is the log before the connection followed by that connection's packet: strictly longer than the earlier log, ending with a newline, with one more newline |
| `History.RepliesGrow` | server/aesdsocket.c:237-258 | within a run, a later successful reply begins with the whole of an earlier one |
| `History.LogPrefixes` | server/aesdsocket.c:237-258 | the log right after connection j is a prefix of the log right after any later connection k |
| `History.ThreeClients` | server/aesdsocket.c:135-164 | "hello\n" and then "world\n" each complete in one chunk; "abc" followed by a receive error fails; the log after the three is "hello\nworld\nabc" |
| `History.ThreeClientsReplies` | server/aesdsocket.c:247-256 | in that run the first reply, when it succeeds, is "hello\n", the second is "hello\nworld\n", and the third client gets no reply |
| `History.PeerCloseStalls` | server/aesdsocket.c:137-160 | a client that sends "abc" and closes makes the receive loop run forever, with "abc" already in the log |

## Left out

- Socket setup (`getaddrinfo`, `socket`, `setsockopt`, `bind`, `listen`) and the inside of `accept_connection` (`accept`, `inet_ntop`). They are OS plumbing. A failure of either step is the `accepted = false` input, and the loop then moves on.
- Signal handling and the `should_exit` flag. Signals arrive asynchronously. The model runs over a finite sequence of connections instead, so shutdown happens when the sequence ends.
- Daemonizing (`fork`, `setsid`, `chdir`), `syslog`/`perror` output, closing sockets and descriptors, and removing the log file at exit. These are process and OS effects with no bearing on the log's contents or the replies.
- Kernel semantics. `recv` is reduced to its result (-1 or up to 1024 bytes). `fwrite` is assumed to write all its bytes, so short writes, buffering and `fclose` errors are not modelled. `fstat` is reduced to success or failure, and the size it reports is the current length of the log.
- `SendUpdatedFile`: a `sendfile` call that returns 0 is not modelled. Against a file of the measured size it does not happen, and in the code it would make the loop spin.
- `RecvPacket`, `Serve`: the input is finite. A receive loop that would go on forever ends as `Pending`, and the run of connections stops there.
- The timestamp task, worker threads, connection registry and locking. None of these exist in `aesdsocket.c`, which handles one connection at a time.
- `finder-app/writer.c`, a separate one-shot tool that writes a string to a file. It shares nothing with the server.
