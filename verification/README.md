# Zaver, proved

Zaver is an epoll worker server written in C. Its work is done by hand-written
state machines that have to stay correct however reads are split, however little
a write accepts, and in whatever order events arrive. This project models those
machines in Dafny and proves what every run of them keeps. Nothing here executes
the server; `dafny verify dfyconfig.toml` checks the proofs.

The kernel, the clock and the allocator are arbitrary: every handler takes a
script of answers (`Kernel.ReadAnswer`, `Kernel.WriteAnswer`), the clock is any
function that never goes back, and `malloc` may give any address not in use. A statement about a
handler or a run therefore holds for every schedule. A run also returns a ghost
trace that says what each event did, so its contract is about those events. Objects the server updates
in place are classes (`Relay`, `Connection`, `Writer`, `Queue`, `Timers`,
`ListHead`, `HeaderCache`, `Cache`, `Worker`); the two automata, the codings and
the path rules are functions beside the methods that run them.

| file | what it models |
|---|---|
| `bytes.dfy` | bytes, the kernel's answers, buffers with a sent counter |
| `chunked.dfy`, `cgi_header.dfy`, `cgi_wire.dfy`, `cgi_reads.dfy`, `cgi_writes.dfy`, `cgi_relay.dfy` | the CGI relay of `src/cgi.c`: chunked coding and an independent decoder, the header split, the books that tie pipe, buffers and wire together, what a sequence of reads brings in and loses and a sequence of writes takes, the two handlers |
| `http_parse.dfy`, `http_language.dfy`, `http_headers.dfy`, `http_print.dfy` | the request automata of `src/http_parse.c`, the languages they accept, a printer and the round trip |
| `http_stream.dfy`, `http_conn.dfy` | resuming, pipelining and the sliding window of `do_request` |
| `append.dfy`, `response_writer.dfy` | `appendf`, `try_send` and `do_write` |
| `priority_queue.dfy`, `timer.dfy` | the heap and the lazily deleted timers over it |
| `list.dfy`, `request_cache.dfy` | the intrusive list, the header and request free lists |
| `registry.dfy`, `worker.dfy`, `handlers.dfy` | registrations, timers and request blocks over the whole event loop; the handlers' objects as the loop sees them |
| `threadpool.dfy` | the thread pool as interleaved steps |
| `percent.dfy`, `uri_path.dfy`, `uri_file.dfy`, `uri_laws.dfy` | percent-decoding, path normalisation, the mapping of a target to a file, and what they mean for the text of paths |

## Where the code does less than it means to

Each of these is a result: the code is modelled as it is, a lemma or a method
gives an input, and the exact condition is proved.

- A pipe read that ends the CGI header phase while more than 4096 bytes have come
  in loses the bytes beyond the header buffer: `CgiRelay.OneByteLost` starts a
  relay, lets it read 4097 bytes at once and finds one missing. A finished run
  gives the client the script's body if and only if no more than 4096 bytes had
  been read when the read that brought in the first blank line returned
  (`CgiRelay.Relay.Run`, `CgiReads.HeaderFits`).
- A header with an empty value is refused (`HttpPrint.EmptyValueIsRefused`);
  printing and parsing is the identity if and only if no value is empty
  (`HttpPrint.RoundTrip`).
- An unknown method of three or four letters keeps the method of the request
  before it: `HttpConn.PutIsTakenForAnother` shows it on a connection;
  `HttpLanguage.MethodIsOwn` says exactly when a request has its own.
- The waiting time is cut to a 32-bit int. `Timer.Timers.Find` returns the right
  one if and only if the earliest deadline has not been missed by more than
  2^31 ms, modulo 2^32; `Timer.MissedDeadlineIsAwaited` reaches such a state with a
  process that was stopped for 25 days.
- `threadpool_add` returns 0 for a task it had no memory for
  (`ThreadPool.LostTask`, and exactly `ThreadPool.AddMeansQueued`).
- A read of the request socket that a signal interrupts closes the connection,
  while the pipe reader and both writers try again. `HttpConn.InterruptedReadCloses`
  shows it on a new connection; `HttpConn.Connection.ReadMore` says exactly when a
  read ends the connection.
- A keep-alive request that has already arrived behind one whose reply had to wait
  for the socket is not handled when that reply is out: only more input leads back
  to the request loop. `HttpConn.SecondRequestWaits` shows it for any two requests
  in one read. When the loop ends no complete request is left unhandled if and only
  if every reply but the last went out at once and kept the connection
  (`HttpConn.Connection.DoRequest`, `HttpConn.Connection.NoneLeft`).
- Conversely some guards never act: the back-pressure branch of the pipe handler,
  the capacity checks and the 256-entry stack of `normalize_abs_path`, the
  too-small branch of `resize`, the prefix buffer of a chunk.

## Model

| member | source | states |
|---|---|---|
| `Chunked.DecodeOfEncode` | src/cgi.c:531-557 | decoding the chunks and the final chunk gives the concatenated data and leaves exactly what follows, for any chunks none of which is empty |
| `Chunked.ReadSizeOfHex` | src/cgi.c:127 | the hex digits of a length read back to that length |
| `Chunked.CutTransferIsIncomplete` | src/cgi.c:135-142 | no proper prefix of a coded body decodes, so a broken transfer is never taken for a finished one |
| `Chunked.DecodeExtends` | src/cgi.c:531-557 | a finished transfer decodes alike whatever bytes follow it |
| `Chunked.ExampleBody` | src/cgi.c:531-557 | the bytes on the wire for a body of two bytes |
| `Bytes.HexValues` | src/http.c:211-217 | the digits of either case have the values of their places, and nothing else is a digit |
| `Chunked.HexText` | src/cgi.c:127 | a length is written with the lower-case digits of its value |
| `CgiHeader.FindEndMeaning` | src/cgi.c:317-334 | the split point found is behind the first LF LF or CR LF CR LF, byte for byte, and there is none only if there is no such mark |
| `CgiHeader.SplitIsStable` | src/cgi.c:317-334 | the split point does not depend on how the output is cut into reads |
| `CgiWire.PrefixFits` | src/cgi.c:127-128 | the prefix of any size_t length fits its 32-byte buffer |
| `CgiWire.QueueKeepsWire` | src/cgi.c:377-411 | queueing a chunk extends what is pending and what belongs on the wire by the same bytes |
| `CgiWire.AdvanceDrains` | src/cgi.c:568-614 | the distribution of n sent bytes over the five counters is dropping n bytes from what was pending |
| `CgiWire.SentIsPrefix` | src/cgi.c:521-617 | at every moment the client holds a prefix of header, chunks and final chunk |
| `CgiWire.RelayComplete` | src/cgi.c:628-636 | with nothing pending behind the final chunk the client's bytes decode to the body with nothing left over |
| `CgiWire.RelayIncomplete` | src/cgi.c:628-637 | until then the strict decoder of `Chunked` does not take the bytes behind the header for a complete body |
| `CgiReads.GotAnswers` | src/cgi.c:297-299 | what two stretches of reads bring in is what the first brings in and then the second |
| `CgiReads.LossIsOver` | src/cgi.c:404-411 | once the blank line is in, no later read loses anything |
| `CgiReads.LossAtMark` | src/cgi.c:307-315 | the read that brings in the blank line loses what the output then exceeds 4096 bytes by |
| `CgiReads.NoMarkNoLoss` | src/cgi.c:396-403 | no read before it loses anything |
| `CgiReads.LostNothing` | src/cgi.c:307-403 | a sequence of reads loses nothing if and only if no more than 4096 bytes had been read when the one that brought in the blank line returned |
| `CgiReads.GotMore` | src/cgi.c:297-299 | one more read brings in its bytes, at most a buffer full of 8192, and nothing else |
| `CgiWrites.GivenInOrder` | src/cgi.c:566-627 | after any number of writev answers the client has been given as many more bytes as they took, and what it has are the first bytes of header, chunks and final chunk |
| `CgiWrites.WrittenGrows` | src/cgi.c:566-627 | answers change nothing but what is sent and what is queued, and what was sent stays sent |
| `CgiRelay.Relay.constructor` | src/cgi.c:251-279 | a started relay has an open pipe, armed, one timer and empty books |
| `CgiRelay.Relay.PrepareChunkPrefix` | src/cgi.c:118-133 | never fails for any size_t; empty for no data, else the hex length and CRLF |
| `CgiRelay.Relay.BuildHttpHeader` | src/cgi.c:76-108 | loads the header and clears every chunk counter, or fails |
| `CgiRelay.Relay.FindHeaderEnd` | src/cgi.c:317-334 | the scanning loop finds the first blank line |
| `CgiRelay.Relay.BeginRelay` | src/cgi.c:335-394 | the reply header is the one made from the header block, the bytes behind the blank line become the first chunk, and what did not fit is counted as lost |
| `CgiRelay.Relay.TakeHeaderBytes` | src/cgi.c:307-403 | a header-phase read keeps the books sound, loses exactly the excess over 4096 bytes and, once the blank line is in, has the reply header made from the header block |
| `CgiRelay.Relay.TakeBody` | src/cgi.c:404-411 | a later read becomes one chunk, nothing lost |
| `CgiRelay.Relay.RelayWithoutHeader` | src/cgi.c:427-474 | output that ends before a blank line is relayed whole under the plain header, no output at all by a fixed message under the failure header; it fails exactly if that header cannot be made |
| `CgiRelay.Relay.EndRelay` | src/cgi.c:483-485 | the end of the pipe queues the final chunk behind all others |
| `CgiRelay.Relay.OnEarlyEof` | src/cgi.c:427-482 | an end in the header phase relays what was held under the header that belongs to it, or says why no header can be made |
| `CgiRelay.Relay.HandleRead` | src/cgi.c:297-503 | every answer of read keeps the counters in agreement with sound books, or gives the relay up exactly if the read failed, the output limit is passed, the header block does not fit or makes no reply header, or the pipe ended and there is no header for that; what is on the books never exceeds the limit. The pipe is taken to have ended exactly on a read of nothing |
| `CgiRelay.Relay.DrainPipe` | src/cgi.c:288-504 | the reading loop ends, having added to the output exactly what its reads brought in; it goes on only after an interrupted read or while the header block is incomplete, and waits only when the pipe would block |
| `CgiRelay.Relay.Backpressure` | src/cgi.c:290-296 | the back-pressure test holds exactly with a chunk not fully sent |
| `CgiRelay.Relay.DrainOnce` | src/cgi.c:288-297 | one turn of it; the back-pressure test does not hold, so the turn always reads |
| `CgiRelay.Relay.OnStdoutReady` | src/cgi.c:284-514 | whatever read answers: nothing is sent, and the timer and exactly one of socket and pipe are armed, the pipe only with no chunk pending and exactly after a read that would block; or all is closed, exactly if the last read failed, the output passes its limit, the header block does not fit its buffer, or no reply header can be made. The books gain exactly what the reads taken brought in and never exceed the limit, every read before the last was interrupted or left the header block incomplete, the end of the pipe is recorded exactly after a read of nothing, what is lost is the header-phase excess, and the reply header is the one that belongs to the output |
| `CgiRelay.Relay.PipeEnds` | src/cgi.c:297-514 | when the pipe handler goes on, waits and gives up, in terms of the answers alone |
| `CgiRelay.Relay.SpendChunk` | src/cgi.c:577-595 | n bytes are charged to prefix, data and CRLF in their order |
| `CgiRelay.Relay.SettleChunk` | src/cgi.c:577-606 | a chunk that is out is forgotten, and only then |
| `CgiRelay.Relay.Spend` | src/cgi.c:568-614 | the counters move exactly as the pending bytes do |
| `CgiRelay.Relay.Deliver` | src/cgi.c:566-617 | what the kernel took is appended to what the client has and dropped from what is pending |
| `CgiRelay.Relay.IovIsPending` | src/cgi.c:522-557 | the pieces offered to one writev are, in their order, all that is pending |
| `CgiRelay.Relay.OfferFinal` | src/cgi.c:551-557 | the final chunk is offered once, after the end of the pipe and all chunks |
| `CgiRelay.Relay.HandleWrite` | src/cgi.c:566-626 | one answer: exactly the bytes it took of those offered have gone out and are no longer pending; any other answer leaves the books alone |
| `CgiRelay.Relay.Push` | src/cgi.c:521-627 | the sending loop ends; the books are those the answers used make of them, one by one; it stops exactly at an answer that fails or would block, or with no chunk left and after the end of the pipe nothing at all |
| `CgiRelay.Relay.OnClientWritable` | src/cgi.c:518-648 | the books are those the answers used make of them; -1 exactly after a writev that failed, 1 after one that would block, else 0 with all sent after the end of the pipe and 2 with the pipe open and armed again |
| `CgiRelay.Relay.OnWriteEvent` | src/http.c:837-855 | after a write event the books are those the answers used make of them, and exactly one registration and the timer are armed, the socket exactly after a writev that would block, or everything is closed, exactly after a failed writev or with all of the reply sent |
| `CgiRelay.Relay.Run` | src/cgi.c:284-648 | any order of events and any answers: the trace says what each event did, the output on the books is exactly what the reads taken brought in and within the limit, and the client has exactly as many bytes as the writes took. They are a prefix of the chunked reply and until the run is done do not decode; a finished run has delivered all of it. Its header is made from the header block, or is the fixed one for output without a blank line or for none; its body is what follows the blank line if and only if no more than 4096 bytes had been read when the read with the first blank line returned, the whole output if there is no blank line, and a fixed message if there is no output |
| `CgiRelay.Relay.TraceTells` | src/cgi.c:284-648 | along any trace from the start of a relay, output, loss and reply header are what the reads taken so far bring in, lose and call for |
| `CgiRelay.Relay.TraceSends` | src/cgi.c:518-648 | along any trace what the client has grows by exactly the bytes the kernel took |
| `CgiRelay.Relay.FirstRead` | src/cgi.c:297-403 | a first read with the whole header block leaves the client armed and loses its excess over 4096 bytes, or gives the relay up |
| `CgiRelay.OneByteLost` | src/cgi.c:311-315 | a relay that reads two line feeds and 4095 bytes at once has lost one byte and will relay 4094 |
| `HttpParse.SplitLine` | src/http_parse.c:12-280 | running the line automaton over two pieces is running it over their concatenation |
| `HttpParse.SplitHeaders` | src/http_parse.c:282-415 | the same for the header automaton |
| `HttpLanguage.LineLanguage` | src/http_parse.c:41-279 | a request line is accepted if and only if it has the stated shape, with the fields that shape gives |
| `HttpLanguage.ShapeIsAccepted` | src/http_parse.c:41-279 | every line of the shape is accepted and ends where the shape ends |
| `HttpLanguage.AcceptedHasShape` | src/http_parse.c:41-279 | every accepted line has the shape |
| `HttpLanguage.MethodIsOwn` | src/http_parse.c:58-90 | exactly when the method recorded is the request's own, and whose it is otherwise |
| `HttpLanguage.PutAfterGet` | src/http_parse.c:65-84 | a PUT after a GET is recorded as a GET |
| `HttpLanguage.PutLine` | src/http_parse.c:65-84 | a PUT line leaves the method as it was, whatever it was |
| `HttpHeaders.HeaderLanguage` | src/http_parse.c:301-414 | a header block is accepted if and only if it is a list of header lines and a blank line; the list comes back reversed |
| `HttpHeaders.BlockIsAccepted` | src/http_parse.c:306-400 | every such block is accepted, its spans in reverse order |
| `HttpHeaders.AcceptedIsBlock` | src/http_parse.c:306-400 | every accepted block is one |
| `HttpPrint.PrintedLineParses` | src/http_parse.c:41-279 | a printed line gives back its method, target and version whatever fields were left over |
| `HttpPrint.PrintedFieldsParse` | src/http_parse.c:301-414 | printed fields come back reversed, or the block is refused if a value is empty |
| `HttpPrint.EmptyValueIsRefused` | src/http_parse.c:345-363 | a header without a value is refused |
| `HttpPrint.RoundTrip` | src/http_parse.c:12-415 | printing then parsing is the identity, the cursor exactly behind the request though more bytes follow, if and only if no value is empty |
| `HttpStream.RequestIsLocal` | src/http.c:391-416 | a finished request parses alike whatever bytes follow it |
| `HttpStream.ExtractIsLocal` | src/http.c:558-564 | and says the same, since every position it stored lies within it |
| `HttpStream.ReplaysOneMore` | src/http.c:552-574 | taking one request off the front of the stream and resetting the parser keeps the order of requests and what is left behind them |
| `HttpStream.ResumeSplit` | src/http.c:391-416 | stopping at the end of a read and resuming gives the same code, method, version, positions, headers and cursor |
| `HttpStream.PiecesDoNotMatter` | src/http.c:391-416 | the same for any number of pieces |
| `HttpStream.PrintedStream` | src/http.c:358-589 | printed requests, one behind the other, are found one by one and nothing else is, whatever was left over from before |
| `HttpStream.PutBehind` | src/http.c:566-574 | a PUT behind another request is recorded with that request's method: the reset between requests leaves the method |
| `HttpConn.Connection.Append` | src/http.c:361-388 | a read extends the window by its bytes, which never exceeds MAX_BUF - 1 |
| `HttpConn.Connection.ParseRequestLine` | src/http_parse.c:12-280 | the loop over the buffer computes the line automaton, and leaves cursor and state alone when a byte is refused |
| `HttpConn.Connection.ParseRequestBody` | src/http_parse.c:282-415 | the same for the header automaton |
| `HttpConn.Connection.Parse` | src/http.c:390-416 | both phases together continue the parser where it stopped |
| `HttpConn.Connection.Compact` | src/http.c:558-574 | compaction needs an empty header list; consumed bytes and window together stay the bytes read |
| `HttpConn.Connection.Serve` | src/http.c:417-589 | a handled request is the next one of the stream; a reply that is out and keeps the connection goes on with a valid window, one that does not closes, a stalled one waits to write, and so on for each outcome |
| `HttpConn.Connection.WaitingMissesNothing` | src/http.c:358-389 | when nothing in the window is unread every complete request of the stream has been handled, and the window is what they leave over |
| `HttpConn.Connection.ReadMore` | src/http.c:360-389 | the stream grows by what the answer brings in, as far as there is room; exactly a full window, end of file, an error or an interrupted read ends the connection, exactly a read that would block waits, and then nothing has changed |
| `HttpConn.Connection.Round` | src/http.c:358-589 | one turn of the request loop reads, exactly what the answer brings in behind what is left over from complete requests, only when nothing is unread, keeps the window and handles at most the next request; without one it goes on, or ends for a stated reason with nothing complete left unhandled |
| `HttpConn.Connection.DoRequest` | src/http.c:347-602 | the stream grows by one non-empty piece of each read taken: all of it that the buffer has room for behind what complete requests have left over, however long the connection lasts. For every split of the input, and every outcome of handling, the requests handled are in order a prefix of the requests of the stream. All replies but the last went out and kept the connection; the last decides the exit, unless it did too: then the loop ends only with nothing complete left, because a read would block, ended or failed, the buffer is full or the input is refused. No complete request is left unhandled if and only if every reply but the last went out at once and kept the connection. In flight means bytes buffered or a request begun |
| `HttpConn.HandlesAll` | src/http.c:347-602 | a new connection hands on exactly the requests printed to it, in order, however they are split into reads, if the replies keep it open |
| `HttpConn.PutIsTakenForAnother` | src/http_parse.c:65-84 | a new connection that reads any request and a PUT behind it records the PUT with the first one's method |
| `HttpConn.Connection.NoneLeft` | src/http.c:576-588 | when the loop has ended, nothing complete is left unhandled if and only if all replies but that to the last complete request went out at once and kept the connection |
| `HttpConn.SecondRequestWaits` | src/http.c:576-581 | any two well-formed requests in one read, the first reply having to wait for the socket: the loop ends with the second complete and unhandled |
| `HttpConn.InterruptedReadCloses` | src/http.c:372-383 | a new connection whose first read is interrupted is closed |
| `Append.CutOnce` | src/http.c:48-52 | cutting at every append cuts off no more than cutting once at the end |
| `Append.Appendf` | src/http.c:34-56 | appends exactly what fits, as many bytes as there is room for and no other, always terminated, and fails exactly when something was cut off |
| `Append.AppendAll` | src/http.c:987-992 | with single results ignored the buffer holds the first bytes of the concatenation, and the length, from which Content-length is taken, is theirs |
| `ResponseWriter.Writer.Spend` | src/http.c:115-131 | n bytes taken by writev come off header and body in their order |
| `ResponseWriter.Writer.SendHead` | src/http.c:96-147 | header and body are sent without gap or repetition: as many bytes as the answers taken accept, up to the answer it names; every answer before that was interrupted or took something, and an error is a failed writev or one that took nothing |
| `ResponseWriter.Writer.MoveFile` | src/http.c:151-158 | one sendfile delivers the next bytes of the file |
| `ResponseWriter.Writer.SendFile` | src/http.c:149-171 | the same for the file; finished means no file, the whole file or the end that sendfile reported, an error is a failed sendfile |
| `ResponseWriter.Writer.TrySend` | src/http.c:93-174 | stops at the writev and sendfile answers it names, and no file is sent before header and body are out; 0 exactly with all out or the end of the file reported, -1 exactly on a failed writev or sendfile, else 1 |
| `ResponseWriter.Writer.FinishedIsSeen` | src/http.c:93-174 | what a finished reply added to the wire is exactly its text |
| `ResponseWriter.Writer.FinishedInOrder` | src/http.c:93-174 | that is its header, its body and the file as far as it was sent, in this order |
| `ResponseWriter.Writer.ResetOutput` | src/http.c:70-90 | nothing of a reply is left behind |
| `ResponseWriter.Writer.Settle` | src/http.c:856-886 | waiting keeps the reply, finishing files it, an error closes with a prefix delivered |
| `ResponseWriter.Writer.Continue` | src/http.c:833-887 | one attempt to send leaves the writer exactly as the answers reached determine: the bytes delivered, the reply kept, filed or dropped, the connection open or closed |
| `ResponseWriter.Writer.Run` | src/http.c:833-887 | the trace says what each event did; the replies asked for are exactly those that arrived with none under way, and the bytes delivered are those replies, in order, the last perhaps unfinished. A reply is finished whole, or cut only where sendfile reported the end; the connection then stays open exactly as the reply says, and otherwise closes only on a failed writev or sendfile; one that still waits has met an answer that would block |
| `PriorityQueue.RootIsFirst` | src/priority_queue.c:31-37 | nothing in a heap comes before its root, for any strict weak order |
| `PriorityQueue.SwimStep` | src/priority_queue.c:64-69 | one exchange of swim moves the only possible fault up |
| `PriorityQueue.SinkStep` | src/priority_queue.c:71-84 | one exchange of sink moves it down |
| `PriorityQueue.GrowIsPaid` | src/priority_queue.c:104-110 | the copying of a doubling is paid for by the inserts since the last resize |
| `PriorityQueue.ShrinkIsPaid` | src/priority_queue.c:94-99 | that of a halving by the deletions; halving never cuts elements off |
| `PriorityQueue.Log2Means` | src/priority_queue.c:64-84 | the bound on exchanges is the logarithm |
| `PriorityQueue.Queue.Resize` | src/priority_queue.c:39-56 | keeps the elements, refuses exactly sizes that are too small |
| `PriorityQueue.Queue.Swim` | src/priority_queue.c:64-69 | restores the heap, keeps the contents, at most log2 exchanges |
| `PriorityQueue.Queue.Sink` | src/priority_queue.c:71-84 | the same downwards |
| `PriorityQueue.Queue.Grow` | src/priority_queue.c:106-110 | doubles exactly a full queue and always succeeds: the too-small branch is not taken |
| `PriorityQueue.Queue.Shrink` | src/priority_queue.c:95-99 | halves exactly a queue at most a quarter full and always succeeds: the too-small branch is not taken |
| `PriorityQueue.Queue.Insert` | src/priority_queue.c:104-116 | the contents gain the element; heap order, capacity and the copy bound are kept |
| `PriorityQueue.Queue.DelMin` | src/priority_queue.c:86-102 | the contents lose the root, and an empty queue is left alone |
| `PriorityQueue.Queue.Pop` | src/priority_queue.c:31-102 | takes out an element nothing comes before |
| `PriorityQueue.Queue.Drain` | src/priority_queue.c:31-102 | emptying yields exactly the contents in order, and all copying so far is at most 4 slots an operation plus the initial capacity |
| `Timer.WaitIsRight` | src/timer.c:62-66 | the cut difference is the waiting time if and only if the deadline is at most 2^31 - 1 ms ahead and, if past, not missed by more than 2^31 ms modulo 2^32 |
| `Timer.WaitIs` | src/timer.c:62-66 | what the cut difference is in each case, without the cut |
| `Timer.Timers.Add` | src/timer.c:110-125 | one live node for the request, due after an int timeout, in the heap once; no deadline is ever further ahead than an int |
| `Timer.Timers.Delete` | src/timer.c:127-135 | marks a node that has not been freed |
| `Timer.Timers.Top` | src/timer.c:82-84 | the node at the top has the least key of all nodes |
| `Timer.Timers.FreeTop` | src/timer.c:55-60 | frees exactly the node taken from the heap |
| `Timer.Timers.Find` | src/timer.c:44-71 | -1 if and only if no live timer remains; else the time to the earliest live deadline if that is to come, 0 if it has been missed by at most 2^31 ms modulo 2^32, and then only; only deleted nodes are freed |
| `Timer.MissedDeadlineIsAwaited` | src/timer.c:62-66 | a timer set before the clock jumps 2^31 + 2 ms is then waited for as long as an int can say |
| `List.ListAdd` | src/list.h:41-43 | adds at the front of the ring |
| `List.ListAddTail` | src/list.h:45-47 | adds at the end |
| `List.ListDel` | src/list.h:52-60 | takes out any entry, whose own links stay |
| `List.ListEmpty` | src/list.h:65-67 | true if and only if the ring holds nothing |
| `List.FreedOneMore` | src/http_header_cache.c:52-67 | the free list after one more node: in front while there is room |
| `List.HeaderCache.Alloc` | src/http_header_cache.c:27-50 | the first free node, or a new one, linked to itself only |
| `List.HeaderCache.Free` | src/http_header_cache.c:52-67 | puts the node in front, or drops it when 8192 are kept |
| `List.HeaderCache.FreeAndAdvance` | src/http_request.c:221-240 | the successor is read before the node's links are reused by the free list |
| `List.HeaderCache.DrainHeaders` | src/http_request.c:221-240 | the walk visits every header once, in order, though each step relinks its node; the list ends up empty and the free list holds the nodes there was room for |
| `RequestCache.Cache.Get` | src/http_request_cache.c:66-91 | a block that is in no place: never one closed since the last flush |
| `RequestCache.Cache.Put` | src/http_request_cache.c:48-99 | the block goes to the free list or is freed; the counters add up |
| `RequestCache.Cache.PutDeferred` | src/http_request_cache.c:101-107 | a block in use becomes a deferred one |
| `RequestCache.Cache.DeferredFlush` | src/http_request_cache.c:109-118 | every deferred block is kept or freed, none is left, none in use is touched; every block stays in one place and gets, hits, puts and frees add up |
| `Registry.MutuallyInverse` | src/timer.c:110-135 | open connections and undeleted timer nodes point at each other |
| `Registry.Bijection` | src/timer.c:110-135 | there are as many of the one as of the other |
| `Registry.OneWayOn` | src/cgi.c:412-419 | every open connection has exactly one armed registration or one event in the batch, never both |
| `Registry.FirstHasTimer` | src/timer.c:127-135 | a handler always finds a timer to delete |
| `Registry.EventBegun` | src/http.c:357 | deleting the timer at the head of a handler leaves everything else in order |
| `Registry.Rested` | src/http.c:591-594 | re-arming one descriptor and adding a timer restores the invariant, for handlers and for accept |
| `Registry.Closed` | src/http_request.c:243-252 | so does closing a connection whose timer is gone |
| `Registry.Expired` | src/timer.c:95-105 | so does closing on expiry, though the node is not marked |
| `Registry.Delivered` | src/worker.c:164-168 | an event delivered disarms its one-shot registration |
| `Registry.ExpiringFires` | src/timer.c:91-105 | timers go off in non-decreasing order of their keys |
| `Registry.ExpiredExactly` | src/timer.c:74-107 | after expiry exactly the connections whose deadline had come are closed |
| `Worker.Worker.Begin` | src/timer.c:127-135 | the timer deleted is never null and its node not freed; the event belongs to an open connection |
| `Worker.Worker.Rest` | src/timer.c:110-125 | leaves the request with one armed registration and a new timer with the right deadline |
| `Worker.Worker.CloseConn` | src/http_request.c:243-252 | needs the timer dropped; the block is deferred |
| `Worker.Worker.AcceptOne` | src/worker.c:176-215 | a new connection is on a block not in use and not closed in this batch |
| `Worker.GoesOnArmed` | src/http.c:176-181 | in the table of moves a connection that goes on has exactly one registration armed, the pipe only with no chunk waiting, and a script's connection never goes back to reading; that the handlers move as the table says is stated by the rows of `Handlers` |
| `Worker.Worker.DoRequest` | src/http.c:591-602 | given how the request handler came out, closes exactly on an exit that says so, arms the socket for reading exactly if it waits for input, for writing exactly if a reply waits and the pipe exactly for a script, under the keep-alive timeout exactly if nothing is in flight, and restores the invariant |
| `Worker.Worker.OnStdoutReady` | src/cgi.c:284-514 | the same for the pipe handler: closed exactly if fatal, the pipe armed exactly if it was empty, the socket exactly if something is queued |
| `Worker.Worker.OnCgiWritable` | src/http.c:839-855 | the same for the CGI write handler: closed exactly on an error or with all sent after the end of the pipe, else the socket armed exactly if the client blocks |
| `Worker.Worker.DoWrite` | src/http.c:833-887 | the same for the write handler: a reply that is out keeps the connection exactly if it says so, under the keep-alive timeout |
| `Worker.Worker.OnConnEvent` | src/worker.c:225-266 | an error closes whatever else is reported, then reading goes before writing before a hangup, which closes; no event falls through unhandled |
| `Worker.Worker.HandleEvent` | src/worker.c:167-267 | one event moves its own connection, as the event and the outcome say, and touches no other connection and no other timer; every waiting connection is accepted; what is closed is deferred |
| `Worker.Worker.Report` | src/worker.c:164-165 | the kernel reports armed registrations only, as readable or writable only what was armed for that, and disarms them |
| `Worker.Worker.EpollWait` | src/worker.c:165 | reports are taken in order until all are in or the event array is full |
| `Worker.Worker.HandleBatch` | src/worker.c:167-267 | every event of the batch is handled in order; the blocks closed are exactly the deferred ones, and no deferred block is open again |
| `Worker.Worker.Fire` | src/timer.c:95-105 | the handler inserts nothing, so the node removed is the one that fired, freed once |
| `Worker.Worker.HandleExpireTimers` | src/timer.c:74-107 | terminates; only undeleted due timers fire, in order; exactly the connections due are closed; nothing due is left in the heap |
| `Worker.Worker.LookUp` | src/worker.c:164 | epoll_wait is given no limit exactly if no connection is open, else the time to the earliest deadline |
| `Registry.NoneOpen` | src/timer.c:44-71 | no timer is set exactly if no connection is open |
| `Worker.Worker.Run` | src/worker.c:162-273 | every round looks up the earliest timer, takes reports, handles every event of the batch, closes exactly the connections that are due and flushes the blocks, as the trace says; between rounds the invariant holds with no event pending and no block deferred |
| `Handlers.ViewAtRest` | src/cgi.c:412-419 | a relay between handlers looks to the worker like a connection with one registration armed, the pipe only with no chunk waiting |
| `Handlers.StartScript` | src/http.c:811-831 | a relay just started is as the worker leaves a connection whose request started a script |
| `Handlers.OnStdoutReady` | src/cgi.c:284-514 | the pipe handler moves its relay as the worker's table says for the outcome it reports: fatal exactly if closed, ended exactly if the pipe has ended, a chunk waiting exactly if one is |
| `Handlers.OnWriteEvent` | src/http.c:837-855 | so does the CGI write handler; it reports completion of a closed connection exactly if the whole reply has been sent |
| `Handlers.DoWrite` | src/http.c:856-886 | the static write handler has the socket armed for writing exactly while a reply is under way, and for reading, under the keep-alive timeout, exactly once all replies are out |
| `Handlers.DoRequest` | src/http.c:547-595 | the request handler is closed exactly if its loop says so; the socket is armed for reading exactly if the loop waits for input, with every complete request handled, for writing exactly if a reply waits, the pipe exactly for a script; the keep-alive timeout exactly if the loop waits and nothing of a further request has arrived |
| `ThreadPool.Keeps` | src/threadpool.c:74-232 | every step of any thread keeps mutual exclusion, the size, the counts and the attendance of the queue |
| `ThreadPool.WorkerBalanced` | src/threadpool.c:197-225 | a worker's step neither duplicates nor loses a task |
| `ThreadPool.AddAttended` | src/threadpool.c:99-107 | after a signal some worker is awake |
| `ThreadPool.WorkerAttended` | src/threadpool.c:198-222 | no worker sleeps or leaves while a task is queued, but for an immediate shutdown |
| `ThreadPool.EveryRun` | src/threadpool.c:74-232 | in every interleaving queue_size is the list length while the lock is free, and a queued task has a worker awake |
| `ThreadPool.AddMeansQueued` | src/threadpool.c:74-116 | a finished add queued its task once if and only if it returned 0 and had memory, and it is refused only by a pool being shut down |
| `ThreadPool.LostTask` | src/threadpool.c:92-96 | an add without memory returns 0 and queues nothing |
| `ThreadPool.AddGoesFirst` | src/threadpool.c:86-116 | an add on its own returns 0 with its task at the head of the list of a running pool |
| `ThreadPool.WorkerDrains` | src/threadpool.c:195-225 | a worker on its own takes the tasks from the head of the list, one a round, and runs them, unless the pool is shut down at once |
| `ThreadPool.ShutdownStops` | src/threadpool.c:81-84 | once a shutdown is flagged nothing more is queued, and in an immediate one no listed task is taken |
| `ThreadPool.DestroyAccountsForAll` | src/threadpool.c:118-186 | when destroy has returned the shutdown was of the kind asked for and every queued task ran exactly once, or after an immediate shutdown ran once or was freed unrun |
| `ThreadPool.EveryStepEnds` | src/threadpool.c:157-232 | after the broadcast every step of any thread brings the end nearer |
| `ThreadPool.SomeStepIsPossible` | src/threadpool.c:159-182 | until destroy has returned some thread can go on |
| `ThreadPool.DestroyReturns` | src/threadpool.c:138-186 | so threads that keep going take a bounded number of steps, and then destroy has returned |
| `Percent.DecodeOfEncode` | src/http.c:216-241 | decoding undoes percent-encoding, whichever bytes are escaped and in whichever case |
| `Percent.DecodedIsEncoding` | src/http.c:216-241 | and only encodings of clean text decode |
| `Percent.PercentDecode` | src/http.c:216-241 | the loop fails exactly when the text is no encoding or the result does not fit; what it yields has no NUL, backslash, CR or LF |
| `UriPath.NormalFailsIff` | src/http.c:273-274 | a path has no normal form if and only if it is not absolute or some prefix climbs above the root |
| `UriPath.NormalIsProper` | src/http.c:254-298 | a normal form has no empty, `.` or `..` segment, and ends in a slash as the path did |
| `UriPath.NormalAgain` | src/http.c:244-303 | normalising again changes nothing |
| `UriLaws.NormalSlash` | src/http.c:264-266 | a second slash changes nothing |
| `UriLaws.NormalDirectory` | src/http.c:294-299 | a slash behind a name is kept, behind the root it is not |
| `UriLaws.NormalName` | src/http.c:269-293 | behind a slash a name is appended as it is, and `.` is dropped with the slash |
| `UriLaws.NormalUp` | src/http.c:273-279 | behind a slash `..` takes the last directory away, and fails at the root |
| `UriFile.EnterDir` | src/http.c:280-292 | appends one name and stacks its length, failing only for want of room |
| `UriFile.LeaveDir` | src/http.c:273-279 | the stacked length cuts the text back to the parent |
| `UriFile.Segment` | src/http.c:263-293 | one segment is dealt with in the buffer as on the list of names |
| `UriFile.NormalizeAbsPath` | src/http.c:244-303 | the in-place algorithm yields the normal form, and for paths below 512 bytes in a buffer they fit it fails exactly when there is none |
| `UriFile.AddIndex` | src/http.c:936-959 | the index rule on text is the rule on names; no buffer truncates |
| `UriFile.Join` | src/http.c:961-972 | root and path are joined by one slash, or do not fit |
| `UriFile.ParseUri` | src/http.c:892-976 | a file is found exactly when the target is 1 to 256 bytes, decodes to an absolute path that does not climb, and the result fits; it is the root, without a slash at its end, and the wanted names |
| `UriLaws.WantedIs` | src/http.c:892-959 | a file is wanted exactly for a target whose part before the query decodes to a path with a normal form; index.html stands in for a directory and for a last name without a dot |
| `UriLaws.QueryIgnored` | src/http.c:905-912 | a query is ignored |
| `UriLaws.SingleName` | src/http.c:936-959 | the root is its index page, a plain name is itself if it has a dot, else a directory |
| `UriFile.FilesStayBelowRoot` | src/http.c:892-976 | below the root a file found has only names that are not empty, `.` or `..` and have no slash |

## Left out

- fork, exec, signals, sockets, CPU affinity and the master process: calls into the system. Closing a descriptor is assumed to remove its registration, as the code states, and a CGI child is assumed not to keep one open.
- stat, realpath, open, MIME types, dates and the text of error pages and reply headers: the outcome of handling a request is an arbitrary `Verdict`, a reply is an arbitrary header, body and file.
- CgiRelay.Relay.BuildHttpHeader: reading Status and Content-Type out of the CGI header block is an arbitrary function to a header text or a failure, so which status is sent is not modelled.
- CgiRelay.Relay.TakeHeaderBytes: the relay's fixed buffers are sequences with their capacities as invariants; the copies between them are not copied byte by byte.
- HttpConn.Connection.DoRequest: how a request is answered is an arbitrary verdict, so which requests get which reply is not modelled.
- HttpConn.Connection.ParseRequestLine: the version numbers are unbounded where the code's ints may overflow, and allocation of a header node always succeeds.
- Timer.Timers.Find: the clock and the deadlines are unbounded where the code's size_t may wrap; timeouts are positive ints; a failing clock_gettime is not modelled.
- RequestCache.Cache.Get: allocation failure is not modelled, nor is the second allocation of the epoll item; the free and deferred lists are sequences here, the pointer list being proved in `list.dfy`.
- Worker.Worker.DoRequest: which exit a handler takes is arbitrary in the loop, which holds no handler objects; `handlers.dfy` shows one handler call at a time that its exits are among the loop's moves. A request's registration state is an entry of a map keyed by its block.
- ThreadPool.Keeps: the pool is a transition system on values; creation of the threads, failing lock calls, adds that begin or are still inside once destroy has joined the workers, and a second destroy are not modelled. Tasks are assumed to return.
- If-Modified-Since reads a time before it is set and depends on library date parsing; matching of header names decides only whether a connection is kept alive, which is arbitrary here.
- src/rio.c (unused), configuration, logging, statistics, benchmarks and scripts.
