/** The streaming relay between a CGI script's standard output and its client.
    One handler drains the pipe, the other sends; they share one chunk buffer. */
module CgiRelay {
  import opened Bytes
  import opened Kernel
  import opened Chunked
  import opened CgiHeader
  import opened CgiWire
  import opened CgiReads
  import opened CgiWrites

  /** How a handler leaves the connection. */
  datatype StdoutExit = StdoutClosed | AwaitClient | AwaitPipe

  datatype WriteExit = WriteClosed | AwaitWritable | AwaitCgi | WriteDone

  datatype PipeStep = ReadAgain | Drained | Queued | Fatal

  datatype WriteStep = WriteAgain | AllSent | Blocked | WriteError

  datatype CgiEvent =
    | PipeReady(input: seq<ReadAnswer>)
    | ClientReady(room: seq<WriteAnswer>)
    | Broken

  /** A relay between two events. */
  datatype Moment = Moment(open: bool, client: bool, pipe: bool, headersDone: bool, books: Books)

  class Relay {
    /** The HTTP header for a CGI header block; None if a line or the result is too long. */
    const headerFor: seq<byte> -> Option<seq<byte>>
    /** The header for a script that printed no blank line, and for one that printed nothing. */
    const plainHeader: Option<seq<byte>>
    const failHeader: Option<seq<byte>>
    const outLimit: nat

    var open: bool
    var timer: bool
    var connArmed: bool
    var pipeArmed: bool

    var pipeOpen: bool
    var eof: bool
    var outTotal: nat
    var headersDone: bool
    var hdrBuf: seq<byte>
    var httpHeader: Piece
    var prefix: Piece
    var body: Piece
    var suffixSent: nat
    var finalChunk: Piece

    ghost var books: Books

    ghost predicate Sizes()
      reads `hdrBuf, `httpHeader, `prefix, `body, `suffixSent, `finalChunk
    {
      && |hdrBuf| <= HDR_CAP && |body.text| <= BODY_CAP
      && httpHeader.Ok() && prefix.Ok() && body.Ok() && suffixSent <= 2 && finalChunk.Ok()
      && (body.text == [] ==> prefix.text == [])
    }

    ghost function Suffix(): seq<byte>
      reads this`body, this`suffixSent
      requires suffixSent <= 2
    {
      if body.text == [] then [] else From(CRLF, suffixSent)
    }

    /** What is queued for the client. */
    ghost function Out(): Outbox
      reads `hdrBuf, `httpHeader, `prefix, `body, `suffixSent, `finalChunk
      requires Sizes()
    {
      Outbox(httpHeader.Rest(), prefix.Rest(), body.Rest(),
             Suffix(), finalChunk.Rest())
    }

    predicate ChunkUnfinished()
      reads `prefix, `body, `suffixSent
    {
      prefix.sent < |prefix.text| || body.sent < |body.text| || suffixSent < 2
    }

    /** The header block is still being collected, or there is a split point or an end of file. */
    ghost predicate Phase()
      reads `headersDone, `hdrBuf, `books
    {
      if headersDone then books.eof || FindEnd(books.output, 0).Some?
      else |hdrBuf| < HDR_CAP && books == Collected(hdrBuf) && FindEnd(hdrBuf, 0).None?
    }

    /** Whatever is armed: the counters agree with sound books. */
    ghost predicate Consistent()
      reads `open, `pipeOpen, `eof, `headersDone, `hdrBuf, `httpHeader, `prefix, `body, `suffixSent, `finalChunk, `books
    {
      && Sizes()
      && open && pipeOpen == !eof
      && Out() == books.out && eof == books.eof && httpHeader.text == books.header && finalChunk.text == books.last
      && Phase()
      && (body.text != [] ==> ChunkUnfinished())
    }

    /** Between handlers: one timer, one armed descriptor, and the pipe only
        while no chunk is waiting to be sent. */
    ghost predicate Valid()
      reads this
    {
      && Consistent() && outTotal == |books.output| <= outLimit
      && timer && (connArmed != pipeArmed) && Unfinished(books)
      && (connArmed ==> headersDone)
      && (pipeArmed ==> !eof && body.text == [])
    }

    /** The header block of this output cannot be used: it does not fit, or makes no reply header. */
    ghost predicate Unusable(output: seq<byte>, ended: bool) {
      var held := output[..Min(|output|, HDR_CAP)];
      match FindEnd(held, 0)
      case Some(k) => k <= |held| && headerFor(held[..k]).None?
      case None => |held| == HDR_CAP || (ended && if output == [] then failHeader.None? else plainHeader.None?)
    }

    /** The header of the reply to a script with this output: made from its header
        block, or if it has none one of the two fixed headers. */
    ghost function ReplyHeader(output: seq<byte>): Option<seq<byte>> {
      match FindEnd(output, 0)
      case Some(k) => if k <= |output| then headerFor(output[..k]) else None
      case None => if output == [] then failHeader else plainHeader
    }

    lemma ReplyHeaderStays(output: seq<byte>, more: seq<byte>)
      requires Marked(output)
      ensures ReplyHeader(output + more) == ReplyHeader(output) && Marked(output + more)
    {
      FindEndBound(output, 0);
      SplitIsStable(output, more, 0);
      assert (output + more)[..FindEnd(output, 0).value] == output[..FindEnd(output, 0).value];
    }

    /** What the header buffer holds while no blank line is in can still be used. */
    lemma StillUsable(output: seq<byte>)
      requires |output| < HDR_CAP && FindEnd(output, 0).None?
      ensures !Unusable(output, false)
      ensures Unusable(output, true) <==> if output == [] then failHeader.None? else plainHeader.None?
    {
      assert output[..|output|] == output;
    }

    lemma Usable(output: seq<byte>, held: seq<byte>, k: nat)
      requires held == output[..Min(|output|, HDR_CAP)] && FindEnd(held, 0) == Some(k)
      requires k <= |held| && headerFor(held[..k]).Some?
      ensures !Unusable(output, false)
    {
    }

    lemma TooLarge(output: seq<byte>)
      requires |output| >= HDR_CAP && FindEnd(output[..HDR_CAP], 0).None?
      ensures Unusable(output, false)
    {
    }

    lemma NoReplyHeader(output: seq<byte>, held: seq<byte>, k: nat)
      requires held == output[..Min(|output|, HDR_CAP)] && FindEnd(held, 0) == Some(k)
      requires k <= |held| && headerFor(held[..k]).None?
      ensures Unusable(output, false)
    {
    }

    /** Why a relay is given up after an answer to a read: the read failed, the
        output got too long, or no reply header can be made.  Once there is a
        header only the first two are left. */
    ghost predicate GivesUp(answer: ReadAnswer, output: seq<byte>, done: bool) {
      answer.ReadFailed? || |output| > outLimit || (!done && Unusable(output, answer == Data([])))
    }

    /** The state after `got` has been read by one call that began with the
        books `before`, the header phase being over or not as `done` says. */
    ghost predicate Polled(step: PipeStep, before: Books, done: bool, got: seq<byte>)
      reads `open, `pipeOpen, `eof, `headersDone, `hdrBuf, `httpHeader, `prefix, `body, `suffixSent, `finalChunk, `books
    {
      && Consistent() && books.sent == before.sent && books.output == before.output + got
      && (match step
          case ReadAgain | Drained =>
            !eof && body.text == [] && headersDone == done && books.lost == before.lost && books.header == before.header
          case Queued =>
            && headersDone && Unfinished(books)
            && books.lost == (if !done && !eof then Excess(books.output) else before.lost)
            && (if done then books.header == before.header else Some(books.header) == ReplyHeader(books.output))
          case Fatal => false)
    }

    constructor (headerFor: seq<byte> -> Option<seq<byte>>, plainHeader: Option<seq<byte>>,
                 failHeader: Option<seq<byte>>, outLimit: nat)
      ensures Valid() && open && pipeArmed && !connArmed && !headersDone && books == Collected([])
      ensures this.headerFor == headerFor && this.plainHeader == plainHeader && this.failHeader == failHeader
      ensures this.outLimit == outLimit
    {
      this.headerFor, this.plainHeader, this.failHeader, this.outLimit := headerFor, plainHeader, failHeader, outLimit;
      open, timer, connArmed, pipeArmed := true, true, false, true;
      pipeOpen, eof, outTotal, headersDone := true, false, 0, false;
      hdrBuf, httpHeader, prefix, body, suffixSent, finalChunk := [], EMPTY, EMPTY, EMPTY, 0, EMPTY;
      CollectedIsSound([]);
      books := Collected([]);
    }

    /** Closing drops the timer, both registrations and both descriptors. */
    method Close()
      modifies this`open, this`timer, this`connArmed, this`pipeArmed, this`pipeOpen
      ensures !open && !timer && !connArmed && !pipeArmed && !pipeOpen
    {
      open, timer, connArmed, pipeArmed, pipeOpen := false, false, false, false, false;
    }

    /** Sets the timer again and leaves exactly the named descriptor armed. */
    method Await(client: bool)
      modifies this`timer, this`connArmed, this`pipeArmed
      ensures timer && connArmed == (client || old(connArmed)) && pipeArmed == (!client || old(pipeArmed))
    {
      timer := true;
      if client { connArmed := true; } else { pipeArmed := true; }
    }

    /** A one-shot registration fired and the handler dropped the timer. */
    method Fire()
      requires connArmed != pipeArmed
      modifies this`timer, this`connArmed, this`pipeArmed
      ensures !timer && !connArmed && !pipeArmed
    {
      timer, connArmed, pipeArmed := false, false, false;
    }

    method PrepareChunkPrefix(n: nat) returns (ok: bool)
      modifies this`prefix, this`suffixSent
      requires n < 0x1_0000_0000_0000_0000
      ensures ok && suffixSent == 0
      ensures prefix == Piece(if n == 0 then [] else ChunkPrefix(n), 0)
    {
      suffixSent := 0;
      if n == 0 {
        prefix := EMPTY;
        return true;
      }
      PrefixFits(n);
      var text := ChunkPrefix(n);
      if |text| >= PREFIX_CAP { return false; }
      prefix := Piece(text, 0);
      ok := true;
    }

    method BuildHttpHeader(h: Option<seq<byte>>) returns (ok: bool)
      modifies this`httpHeader, this`prefix, this`suffixSent, this`finalChunk
      ensures ok == h.Some?
      ensures ok ==> httpHeader == Piece(h.value, 0) && finalChunk == EMPTY && prefix == EMPTY && suffixSent == 0
    {
      if h.None? { return false; }
      httpHeader, prefix, suffixSent, finalChunk := Piece(h.value, 0), EMPTY, 0, EMPTY;
      ok := true;
    }

    method EnsureFinalChunk()
      modifies this`finalChunk
      ensures finalChunk == if old(finalChunk).text == [] then Piece(FINAL, 0) else old(finalChunk)
    {
      if |finalChunk.text| == 0 { finalChunk := Piece(FINAL, 0); }
    }

    method FindHeaderEnd() returns (end: Option<nat>)
      ensures end == FindEnd(hdrBuf, 0)
    {
      var i := 0;
      while i + 1 < |hdrBuf|
        invariant FindEnd(hdrBuf, 0) == FindEnd(hdrBuf, i)
      {
        if hdrBuf[i] == LF && hdrBuf[i + 1] == LF { return Some(i + 2); }
        if i + 3 < |hdrBuf| && hdrBuf[i..i + 4] == [CR, LF, CR, LF] { return Some(i + 4); }
        i := i + 1;
      }
      end := None;
    }

    /** `data` becomes the current chunk. */
    method QueueChunk(data: seq<byte>, ghost next: Books)
      requires |data| <= BODY_CAP && |hdrBuf| <= HDR_CAP
      requires httpHeader.Ok() && finalChunk == EMPTY
      requires next.out == Outbox(httpHeader.Rest(), [], [], [], []).WithChunk(data)
      requires next.header == httpHeader.text && next.last == [] && next.eof == eof
      requires open && pipeOpen == !eof && headersDone && (eof || FindEnd(next.output, 0).Some?)
      modifies this`prefix, this`suffixSent, this`body, this`books
      ensures Consistent() && books == next && body.text == data
    {
      body, books := Piece(data, 0), next;
      var ok := PrepareChunkPrefix(|data|);
    }

    method EndHeaderPhase()
      modifies this`headersDone, this`hdrBuf
      ensures headersDone && hdrBuf == []
    {
      headersDone, hdrBuf := true, [];
    }

    lemma SamePart(s: seq<byte>, t: seq<byte>, k: nat)
      requires k <= |s| && s <= t
      ensures s[k..] == t[k..|s|]
      ensures s == t ==> |s| == |t|
    {
    }

    /** The header block of the output ends at k: build the reply header and the first chunk. */
    method BeginRelay(k: nat, ghost output: seq<byte>) returns (ok: bool)
      requires open && pipeOpen && !eof
      requires k <= |hdrBuf| <= HDR_CAP && FindEnd(output, 0) == Some(k)
      requires hdrBuf <= output && (hdrBuf == output || |hdrBuf| == HDR_CAP)
      modifies this`httpHeader, this`finalChunk, this`headersDone, this`hdrBuf, this`body,
               this`prefix, this`suffixSent, this`books
      ensures ok ==> Consistent() && headersDone && books.output == output
      ensures ok ==> books.lost == |output| - |old(hdrBuf)| && books.sent == [] && books.last == []
      ensures ok ==> Some(books.header) == headerFor(old(hdrBuf)[..k])
      ensures !ok ==> books == old(books) && headerFor(old(hdrBuf)[..k]).None?
    {
      hide Consistent, FindEnd, Outbox.WithChunk, Sound;
      SamePart(hdrBuf, output, k);
      ok := BuildHttpHeader(headerFor(hdrBuf[..k]));
      if ok {
        ghost var next := BeginRelaying(output, k, |hdrBuf|, httpHeader.text);
        var rest := hdrBuf[k..];
        EndHeaderPhase();
        QueueChunk(rest, next);
      }
    }

    /** Nothing is queued and the header block is still being collected. */
    ghost predicate Filling()
      reads this
    {
      Sizes() && open && pipeOpen && !eof && !headersDone && Out() == NOTHING_QUEUED && body.text == []
      && httpHeader.text == [] && finalChunk.text == []
    }

    lemma HeaderPhase()
      requires Consistent() && !headersDone
      ensures open && |hdrBuf| < HDR_CAP && books == Collected(hdrBuf) && FindEnd(hdrBuf, 0).None?
      ensures Filling()
    {
    }

    /** Copies as much of `data` into the header buffer as fits. */
    method Fill(data: seq<byte>)
      requires Filling()
      modifies this`hdrBuf
      ensures Filling() && hdrBuf == (old(hdrBuf) + data)[..Min(|old(hdrBuf)| + |data|, HDR_CAP)]
    {
      var space := HDR_CAP - |hdrBuf|;
      var copy := if |data| > space then space else |data|;
      hdrBuf := hdrBuf + data[..copy];
    }

    method KeepCollecting()
      requires Filling() && FindEnd(hdrBuf, 0).None? && |hdrBuf| < HDR_CAP
      modifies this`books
      ensures Consistent() && books == Collected(hdrBuf)
    {
      CollectedIsSound(hdrBuf);
      books := Collected(hdrBuf);
    }

    /** A header-phase read brought in `data`. */
    method TakeHeaderBytes(data: seq<byte>) returns (ok: bool)
      requires Consistent() && !headersDone && 0 < |data| <= BODY_CAP
      modifies this
      ensures timer == old(timer) && connArmed == old(connArmed) && pipeArmed == old(pipeArmed)
      ensures ok ==> Consistent() && !eof && books.output == old(books).output + data
      ensures ok ==> books.sent == [] && books.last == [] && (!headersDone ==> body.text == [])
      ensures ok ==> if headersDone then books.lost == Excess(books.output) else books.lost == 0
      ensures ok ==> if headersDone then Some(books.header) == ReplyHeader(books.output) else books.header == []
      ensures !ok ==> books == old(books)
      ensures ok <==> !Unusable(old(books).output + data, false)
      ensures outTotal == old(outTotal)
    {
      HeaderPhase();
      hide Consistent, Unusable, FindEnd, Sizes, Out;
      ghost var output := hdrBuf + data;
      Fill(data);
      var end := FindHeaderEnd();
      if end.None? {
        if |hdrBuf| == HDR_CAP {
          TooLarge(output);
          return false;
        }
        assert output[..|output|] == output;
        StillUsable(output);
        KeepCollecting();
        return true;
      }
      FindEndBound(hdrBuf, 0);
      assert output == hdrBuf + output[|hdrBuf|..];
      SplitIsStable(hdrBuf, output[|hdrBuf|..], 0);
      ghost var held := hdrBuf;
      assert held[..end.value] == output[..end.value];
      ok := BeginRelay(end.value, output);
      if ok { Usable(output, held, end.value); } else { NoReplyHeader(output, held, end.value); }
    }

    method TakeBody(data: seq<byte>)
      requires Consistent() && headersDone && !eof && body.text == [] && 0 < |data| <= BODY_CAP
      modifies this`prefix, this`suffixSent, this`body, this`books
      ensures Consistent() && body.text == data
      ensures books.output == old(books).output + data
      ensures books.sent == old(books).sent && books.lost == old(books).lost && books.last == []
      ensures books.header == old(books).header
    {
      ghost var next := RelayMore(books, data);
      QueueChunk(data, next);
    }

    /** The pipe ended before a blank line: the bytes held, or a fixed message, become the body. */
    method RelayWithoutHeader() returns (ok: bool)
      requires |hdrBuf| < HDR_CAP && FindEnd(hdrBuf, 0).None? && eof && open && !pipeOpen && !headersDone
      modifies this`httpHeader, this`finalChunk, this`headersDone, this`hdrBuf, this`body,
               this`prefix, this`suffixSent, this`books
      ensures ok ==> Consistent() && headersDone && books.output == old(hdrBuf)
      ensures ok ==> books.sent == [] && books.lost == 0 && books.last == []
      ensures ok ==> Some(books.header) == if old(hdrBuf) == [] then failHeader else plainHeader
      ensures !ok ==> books == old(books)
      ensures ok <==> if old(hdrBuf) == [] then failHeader.Some? else plainHeader.Some?
    {
      hide Consistent, FindEnd, Outbox.WithChunk, Sound;
      var text := if |hdrBuf| > 0 then hdrBuf else NO_OUTPUT;
      ok := BuildHttpHeader(if |hdrBuf| > 0 then plainHeader else failHeader);
      if ok {
        if |text| > BODY_CAP { assert false; }
        ghost var next := BeginWithoutHeader(hdrBuf, httpHeader.text);
        EndHeaderPhase();
        QueueChunk(text, next);
      }
    }

    method EndRelay()
      requires Consistent() && headersDone && !eof && body.text == []
      modifies this`eof, this`pipeOpen, this`finalChunk, this`books
      ensures Consistent() && eof && finalChunk == Piece(FINAL, 0)
      ensures books.output == old(books).output && books.sent == old(books).sent && books.lost == old(books).lost
      ensures books.header == old(books).header && Unfinished(books)
    {
      hide FindEnd, Encode, Outbox.Advance, Outbox.WithChunk;
      books := QueueFinal(books);
      PendingLength(books.out);
      eof, pipeOpen := true, false;
      EnsureFinalChunk();
    }

    /** The pipe ended in the header phase. */
    method OnEarlyEof() returns (ok: bool)
      requires Consistent() && !headersDone
      modifies this`eof, this`pipeOpen, this`httpHeader, this`finalChunk, this`headersDone, this`hdrBuf, this`body,
               this`prefix, this`suffixSent, this`books
      ensures ok ==> Consistent() && headersDone && eof && books.output == old(books).output
      ensures ok ==> books.sent == [] && books.lost == 0 && books.last == []
      ensures ok ==> Some(books.header) == ReplyHeader(books.output)
      ensures !ok ==> books == old(books)
      ensures ok <==> !Unusable(old(books).output, true)
      ensures old(books).sent == [] && old(books).lost == 0
    {
      HeaderPhase();
      StillUsable(hdrBuf);
      hide Consistent, FindEnd, Unusable;
      eof, pipeOpen := true, false;
      ok := RelayWithoutHeader();
    }

    method OnEof(ghost before: Books, ghost done: bool, ghost got: seq<byte>) returns (ok: bool)
      requires Polled(ReadAgain, before, done, got)
      modifies this
      ensures timer == old(timer) && connArmed == old(connArmed) && pipeArmed == old(pipeArmed)
      ensures outTotal == old(outTotal)
      ensures if ok then Polled(Queued, before, done, got) && eof
              else books == old(books) && !done
      ensures ok <==> done || !Unusable(before.output + got, true)
    {
      hide Consistent, FindEnd, Unusable;
      if headersDone {
        EndRelay();
        ok := true;
      } else {
        ok := OnEarlyEof();
      }
    }

    /** One block read from the pipe.  False if the connection must be closed;
        otherwise the block is held in the header buffer or queued as a chunk. */
    method TakeBlock(data: seq<byte>, ghost before: Books, ghost done: bool, ghost got: seq<byte>) returns (ok: bool)
      requires Polled(ReadAgain, before, done, got) && 0 < |data| <= BODY_CAP
      modifies this
      ensures timer == old(timer) && connArmed == old(connArmed) && pipeArmed == old(pipeArmed)
      ensures outTotal == old(outTotal)
      ensures if ok then Polled(if headersDone then Queued else ReadAgain, before, done, got + data)
              else books == old(books) && !done
      ensures ok <==> done || !Unusable(before.output + (got + data), false)
      ensures ok && headersDone ==> !eof
    {
      if !headersDone { HeaderPhase(); }
      hide Consistent, FindEnd, Unusable, ReplyHeader, Unfinished, Excess;
      assert before.output + (got + data) == books.output + data;
      if headersDone {
        TakeBody(data);
        ok := true;
      } else {
        ok := TakeHeaderBytes(data);
      }
    }

    lemma CollectedIsUsable()
      requires Consistent() && !headersDone
      ensures !Unusable(books.output, false)
    {
      HeaderPhase();
      StillUsable(hdrBuf);
    }

    /** One answer to a read on the pipe. */
    method HandleRead(answer: ReadAnswer, ghost before: Books, ghost done: bool, ghost got: seq<byte>)
      returns (step: PipeStep)
      requires Polled(ReadAgain, before, done, got) && outTotal == |books.output| <= outLimit
      modifies this
      ensures timer == old(timer) && connArmed == old(connArmed) && pipeArmed == old(pipeArmed)
      ensures step == Fatal <==> GivesUp(answer, before.output + (got + Block(answer)), done)
      ensures if step == Fatal then books == old(books)
              else Polled(step, before, done, got + Block(answer)) && outTotal == |books.output| <= outLimit
      ensures answer.ReadWouldBlock? <==> step == Drained
      ensures step == ReadAgain ==> ReadsOn(answer, done)
      ensures step == Queued ==> answer.Data? && (eof <==> answer == Data([]))
    {
      assert got + [] == got;
      if !done { CollectedIsUsable(); }
      match answer {
        case Data(bytes) =>
          var data := bytes[..Min(|bytes|, BODY_CAP)];
          if |data| == 0 {
            var ended := OnEof(before, done, got);
            return if ended then Queued else Fatal;
          }
          outTotal := outTotal + |data|;
          if outTotal > outLimit { return Fatal; }
          var ok := TakeBlock(data, before, done, got);
          step := if !ok then Fatal else if headersDone then Queued else ReadAgain;
        case ReadInterrupted => step := ReadAgain;
        case ReadWouldBlock => step := Drained;
        case ReadFailed => step := Fatal;
      }
    }

    /** After the first `used` answers: everything they brought in is on the
        books, or the last of them made the relay give up and is left out. */
    ghost predicate Drawn(step: PipeStep, before: Books, done: bool, input: seq<ReadAnswer>, used: nat)
      reads `open, `pipeOpen, `eof, `headersDone, `hdrBuf, `httpHeader, `prefix, `body, `suffixSent, `finalChunk
      reads `books, `outTotal
    {
      && (if step == ReadAgain then 0 < used ==> ReadsOn(NextRead(input, used - 1), done) else 0 < used)
      && (if step == Fatal
          then GaveUp(before, done, input, used)
          else && Polled(step, before, done, DataRead(input, used)) && outTotal == |books.output| <= outLimit
               && (0 < used ==> !GivesUp(NextRead(input, used - 1), before.output + DataRead(input, used), done)))
      && UpToLast(before.output, done, input, used)
      && (step == Drained ==> NextRead(input, used - 1).ReadWouldBlock?)
      && (step == Queued ==> NextRead(input, used - 1).Data? && (eof <==> NextRead(input, used - 1) == Data([])))
    }

    /** Before the last answer the header block was not complete, and each answer
        was one to read on after. */
    ghost predicate UpToLast(output: seq<byte>, done: bool, input: seq<ReadAnswer>, used: nat) {
      && (0 < used && !done ==> !Marked(output + DataRead(input, used - 1)) && |output + DataRead(input, used - 1)| < HDR_CAP)
      && forall i: nat :: i + 1 < used ==> ReadsOn(NextRead(input, i), done)
    }

    predicate ReadsOn(answer: ReadAnswer, done: bool) {
      answer.ReadInterrupted? || (!done && answer.Data? && answer.bytes != [])
    }

    ghost predicate GaveUp(before: Books, done: bool, input: seq<ReadAnswer>, used: nat)
      reads `books
    {
      && 0 < used && GivesUp(NextRead(input, used - 1), before.output + DataRead(input, used), done)
      && books.output == before.output + DataRead(input, used - 1)
      && books.sent == before.sent && books.lost == before.lost && books.last == [] && books.header == before.header
      && |books.output| <= outLimit
    }

    /** The back-pressure test: is there a chunk still to be sent? */
    method Backpressure() returns (held: bool)
      requires body.Ok() && prefix.Ok()
      ensures held <==> body.text != [] && ChunkUnfinished()
    {
      held := |body.text| > 0 && (prefix.sent < |prefix.text| || body.sent < |body.text| || suffixSent < 2);
    }

    /** One turn of the reading loop.  It always reads: the back-pressure test never
        holds, for the pipe is armed only with no chunk pending. */
    method DrainOnce(input: seq<ReadAnswer>, used: nat, ghost before: Books, ghost done: bool)
      returns (step: PipeStep, held: bool)
      requires Drawn(ReadAgain, before, done, input, used)
      modifies this
      ensures timer == old(timer) && connArmed == old(connArmed) && pipeArmed == old(pipeArmed)
      ensures !held && Drawn(step, before, done, input, used + 1)
      ensures used >= |input| ==> step != ReadAgain
    {
      hide Unusable, GivesUp, Consistent, Polled, Drawn, UpToLast, Block, DataRead;
      ghost var was := books;
      BeforeTurn(input, used, before, done);
      held := Backpressure();
      if held {
        assert false;
      } else {
        step := HandleRead(NextRead(input, used), before, done, DataRead(input, used));
        AfterTurn(step, was, before, done, input, used);
      }
    }

    /** The books before a turn of the reading loop. */
    ghost predicate UpTo(was: Books, before: Books, got: seq<byte>) {
      && was.output == before.output + got && was.sent == before.sent && was.lost == before.lost
      && was.header == before.header && was.last == [] && |was.output| <= outLimit
    }

    lemma BeforeTurn(input: seq<ReadAnswer>, used: nat, before: Books, done: bool)
      requires Drawn(ReadAgain, before, done, input, used)
      ensures Polled(ReadAgain, before, done, DataRead(input, used)) && outTotal == |books.output| <= outLimit
      ensures body.Ok() && prefix.Ok() && body.text == []
      ensures UpTo(books, before, DataRead(input, used)) && UpToLast(before.output, done, input, used + 1)
    {
      hide Unusable, DataRead;
      FinalComesLast(books);
      if !done { HeaderPhase(); }
    }

    lemma AfterTurn(step: PipeStep, was: Books, before: Books, done: bool, input: seq<ReadAnswer>, used: nat)
      requires UpTo(was, before, DataRead(input, used)) && UpToLast(before.output, done, input, used + 1)
      requires var answer := NextRead(input, used);
               var got := DataRead(input, used) + Block(answer);
               && (step == Fatal <==> GivesUp(answer, before.output + got, done))
               && (if step == Fatal then books == was
                   else Polled(step, before, done, got) && outTotal == |books.output| <= outLimit)
               && (answer.ReadWouldBlock? <==> step == Drained) && (step == ReadAgain ==> ReadsOn(answer, done))
               && (step == Queued ==> answer.Data? && (eof <==> answer == Data([])))
      ensures Drawn(step, before, done, input, used + 1)
    {
      hide GivesUp, Polled, Block, UpToLast;
    }

    lemma NothingDrawn(input: seq<ReadAnswer>)
      requires Polled(ReadAgain, books, headersDone, []) && outTotal == |books.output| <= outLimit
      ensures Drawn(ReadAgain, books, headersDone, input, 0)
    {
      hide Polled, Consistent;
    }

    /** Reads until a chunk is queued, the pipe is empty or the relay must stop. */
    method DrainPipe(input: seq<ReadAnswer>) returns (step: PipeStep, used: nat)
      requires Polled(ReadAgain, books, headersDone, []) && outTotal == |books.output| <= outLimit
      modifies this
      ensures timer == old(timer) && connArmed == old(connArmed) && pipeArmed == old(pipeArmed)
      ensures step != ReadAgain && Drawn(step, old(books), old(headersDone), input, used)
    {
      hide Unusable, GivesUp, Consistent, Polled, Drawn, DataRead;
      ghost var before, done := books, headersDone;
      step, used := ReadAgain, 0;
      NothingDrawn(input);
      while step == ReadAgain
        invariant timer == old(timer) && connArmed == old(connArmed) && pipeArmed == old(pipeArmed)
        invariant Drawn(step, before, done, input, used)
        invariant used <= |input| + 1 && (used == |input| + 1 ==> step != ReadAgain)
        decreases |input| + 1 - used
      {
        var held;
        step, held := DrainOnce(input, used, before, done);
        used := used + 1;
      }
    }

    lemma NothingRead()
      requires Consistent() && !eof && body.text == []
      ensures Polled(ReadAgain, books, headersDone, [])
    {
      assert books.output + [] == books.output;
    }

    lemma ReadyToWait(step: PipeStep, before: Books, done: bool, got: seq<byte>)
      requires Polled(step, before, done, got)
      ensures Consistent() && open && Unfinished(books)
      ensures if step == Queued then headersDone else !eof && body.text == []
    {
    }

    ghost function Now(): Moment
      reads this
    {
      Moment(open, connArmed, pipeArmed, headersDone, books)
    }

    /** One read event, from m to n: the first `used` answers were taken.  Either
        all they brought in is on the books, the socket or the pipe is armed, the
        pipe only after an answer that would block, an end of file was answered
        exactly if the books say so, and what is lost is what a header block
        completed by the last answer does not leave room for; once the header block
        is complete or the pipe has ended the reply header is made from what was
        read.  Or the last answer made the relay give up. */
    ghost predicate PipeMoves(m: Moment, input: seq<ReadAnswer>, used: nat, n: Moment) {
      && 0 < used && n.books.sent == m.books.sent
      && UpToLast(m.books.output, m.headersDone, input, used)
      && |n.books.output| <= outLimit
      && var last := NextRead(input, used - 1);
      && n.open == !GivesUp(last, m.books.output + DataRead(input, used), m.headersDone)
      && if n.open then
        && n.client == last.Data? && n.pipe == last.ReadWouldBlock? && n.client != n.pipe
        && n.books.output == m.books.output + DataRead(input, used) && n.books.eof == (last == Data([]))
        && n.headersDone == (m.headersDone || n.client)
        && (n.client ==> n.books.eof || Marked(n.books.output))
        && n.books.lost == (if !m.headersDone && n.client && !n.books.eof then Excess(n.books.output) else m.books.lost)
        && (if !m.headersDone && n.client then Some(n.books.header) == ReplyHeader(n.books.output)
            else n.books.header == m.books.header)
      else
        && !n.client && !n.pipe
        && n.books.output == m.books.output + DataRead(input, used - 1) && n.books.lost == m.books.lost
        && n.books.last == [] && n.books.header == m.books.header
    }

    /** Giving up, once all is closed, is one thing a read event leads to. */
    lemma GaveUpMoves(m: Moment, input: seq<ReadAnswer>, used: nat)
      requires GaveUp(m.books, m.headersDone, input, used) && UpToLast(m.books.output, m.headersDone, input, used)
      requires !open && !connArmed && !pipeArmed
      ensures PipeMoves(m, input, used, Now())
    {
      hide GivesUp, UpToLast;
    }

    /** Waiting, once the right descriptor is armed, is the other. */
    lemma DrawnMoves(m: Moment, step: PipeStep, input: seq<ReadAnswer>, used: nat)
      requires step == Queued || step == Drained
      requires Drawn(step, m.books, m.headersDone, input, used)
      requires open && connArmed == (step == Queued) && pipeArmed == (step == Drained)
      ensures PipeMoves(m, input, used, Now())
    {
      hide GivesUp, UpToLast;
    }

    /** The pipe is readable.  Whatever the kernel answers, the books stay sound,
        nothing is sent, and exactly one descriptor and the timer are left armed,
        unless the connection is closed. */
    method OnStdoutReady(input: seq<ReadAnswer>) returns (exit: StdoutExit, used: nat)
      requires Valid() && pipeArmed
      modifies this
      ensures open <==> exit != StdoutClosed
      ensures open ==> Valid() && connArmed == (exit == AwaitClient) && pipeArmed == (exit == AwaitPipe)
      ensures !open ==> !timer && !connArmed && !pipeArmed && !pipeOpen
      ensures |books.output| <= outLimit && 0 < used
      ensures forall i: nat :: i + 1 < used ==>
                NextRead(input, i).ReadInterrupted? ||
                (!old(headersDone) && NextRead(input, i).Data? && NextRead(input, i).bytes != [])
      ensures exit == AwaitPipe <==> NextRead(input, used - 1).ReadWouldBlock?
      ensures exit == AwaitClient ==> NextRead(input, used - 1).Data? && (eof <==> NextRead(input, used - 1).bytes == [])
      ensures var last, output := NextRead(input, used - 1), old(books.output) + DataRead(input, used);
              exit == StdoutClosed <==>
              last.ReadFailed? || |output| > outLimit ||
              (!old(headersDone) &&
               match FindEnd(output[..Min(|output|, HDR_CAP)], 0)
               case Some(k) => k <= |output| && headerFor(output[..k]).None?
               case None => |output| >= HDR_CAP || (last == Data([]) && (if output == [] then failHeader else plainHeader).None?))
      ensures PipeMoves(old(Now()), input, used, Now())
      ensures Unfinished(books)
    {
      ghost var m := Now();
      hide Unusable, GivesUp, Consistent, Polled, Drawn, GaveUp, PipeMoves, UpToLast, FindEnd, DataRead, Unfinished;
      Fire();
      NothingRead();
      var step;
      step, used := DrainPipe(input);
      exit := LeavePipe(step, m, input, used);
      PipeEnds(m, input, used, Now());
      if open { PipeIsOpen(); }
    }

    /** When a read event goes on, waits and gives up, in terms of the answers alone. */
    lemma PipeEnds(m: Moment, input: seq<ReadAnswer>, used: nat, n: Moment)
      requires PipeMoves(m, input, used, n)
      ensures |n.books.output| <= outLimit && 0 < used
      ensures forall i: nat :: i + 1 < used ==>
                NextRead(input, i).ReadInterrupted? ||
                (!m.headersDone && NextRead(input, i).Data? && NextRead(input, i).bytes != [])
      ensures n.open ==> n.client == NextRead(input, used - 1).Data? && n.pipe == NextRead(input, used - 1).ReadWouldBlock?
      ensures NextRead(input, used - 1).ReadWouldBlock? ==> n.open
      ensures n.open && n.client ==> (n.books.eof <==> NextRead(input, used - 1).bytes == [])
      ensures var last, output := NextRead(input, used - 1), m.books.output + DataRead(input, used);
              !n.open <==>
              last.ReadFailed? || |output| > outLimit ||
              (!m.headersDone &&
               match FindEnd(output[..Min(|output|, HDR_CAP)], 0)
               case Some(k) => k <= |output| && headerFor(output[..k]).None?
               case None => |output| >= HDR_CAP || (last == Data([]) && (if output == [] then failHeader else plainHeader).None?))
    {
      var last, output := NextRead(input, used - 1), m.books.output + DataRead(input, used);
      UnusableMeans(output, last == Data([]));
      if last.ReadWouldBlock? && !m.headersDone {
        NothingMore(input, used);
        StillUsable(output);
      }
      hide Unusable, DataRead, Excess, ReplyHeader;
      if last.ReadWouldBlock? { NothingMore(input, used); }
    }

    lemma UnusableMeans(output: seq<byte>, ended: bool)
      ensures Unusable(output, ended) <==>
              match FindEnd(output[..Min(|output|, HDR_CAP)], 0)
              case Some(k) => k <= |output| && headerFor(output[..k]).None?
              case None => |output| >= HDR_CAP || (ended && (if output == [] then failHeader else plainHeader).None?)
    {
      var held := output[..Min(|output|, HDR_CAP)];
      FindEndBound(held, 0);
      if FindEnd(held, 0).Some? {
        assert held[..FindEnd(held, 0).value] == output[..FindEnd(held, 0).value];
      }
    }

    /** Arms what the result of reading asks for, or closes. */
    method LeavePipe(step: PipeStep, ghost m: Moment, ghost input: seq<ReadAnswer>, ghost used: nat)
      returns (exit: StdoutExit)
      requires step != ReadAgain && !timer && !connArmed && !pipeArmed
      requires Drawn(step, m.books, m.headersDone, input, used)
      modifies this`open, this`timer, this`connArmed, this`pipeArmed, this`pipeOpen
      ensures open <==> exit != StdoutClosed
      ensures open ==> Valid() && connArmed == (exit == AwaitClient) && pipeArmed == (exit == AwaitPipe)
      ensures !open ==> !timer && !connArmed && !pipeArmed && !pipeOpen
      ensures PipeMoves(m, input, used, Now()) && Unfinished(books)
    {
      hide Unusable, GivesUp, Consistent, Polled, Drawn, GaveUp, PipeMoves, UpToLast;
      DrawnCounts(step, m.books, m.headersDone, input, used);
      if step == Fatal {
        Close();
        GaveUpMoves(m, input, used);
        exit := StdoutClosed;
      } else {
        ReadyToWait(step, m.books, m.headersDone, DataRead(input, used));
        Await(step == Queued);
        DrawnMoves(m, step, input, used);
        exit := if step == Queued then AwaitClient else AwaitPipe;
      }
    }

    lemma DrawnCounts(step: PipeStep, before: Books, done: bool, input: seq<ReadAnswer>, used: nat)
      requires Drawn(step, before, done, input, used)
      ensures UpToLast(before.output, done, input, used)
      ensures if step == Fatal then GaveUp(before, done, input, used) && Unfinished(books)
              else Polled(step, before, done, DataRead(input, used)) && outTotal == |books.output| <= outLimit
    {
    }

    /** Charges n sent bytes to the pieces of the current chunk. */
    method SpendChunk(n: nat) returns (left: nat)
      requires prefix.Ok() && body.Ok() && suffixSent <= 2
      modifies this`prefix, this`body, this`suffixSent
      ensures prefix.Ok() && body.Ok() && suffixSent <= 2
      ensures prefix.text == old(prefix.text) && body.text == old(body.text)
      ensures var p := Min(n, |old(prefix.Rest())|);
              var b := Min(n - p, |old(body.Rest())|);
              var s := Min(n - p - b, 2 - old(suffixSent));
              && prefix.Rest() == From(old(prefix.Rest()), p)
              && body.Rest() == From(old(body.Rest()), b)
              && suffixSent == old(suffixSent) + s && left == n - p - b - s
    {
      hide Piece.Send, From;
      left := n;
      FromNone(prefix.Rest());
      FromNone(body.Rest());
      RestLength(prefix);
      RestLength(body);
      if prefix.sent < |prefix.text| {
        SendRest(prefix, left);
        var (piece, taken) := prefix.Send(left);
        prefix, left := piece, left - taken;
      }
      if left > 0 && body.sent < |body.text| {
        SendRest(body, left);
        var (piece, taken) := body.Send(left);
        body, left := piece, left - taken;
      }
      if left > 0 && suffixSent < 2 {
        var taken := Min(left, 2 - suffixSent);
        suffixSent, left := suffixSent + taken, left - taken;
      }
    }

    method SpendHeader(n: nat) returns (left: nat)
      requires httpHeader.Ok()
      modifies this`httpHeader
      ensures httpHeader.Ok() && httpHeader.text == old(httpHeader.text)
      ensures var h := Min(n, |old(httpHeader.Rest())|);
              httpHeader.Rest() == From(old(httpHeader.Rest()), h) && left == n - h
    {
      left := n;
      if httpHeader.sent < |httpHeader.text| {
        SendRest(httpHeader, left);
        var (piece, taken) := httpHeader.Send(left);
        httpHeader, left := piece, left - taken;
      }
    }

    method SpendFinal(n: nat) returns (left: nat)
      requires finalChunk.Ok()
      modifies this`finalChunk
      ensures finalChunk.Ok() && finalChunk.text == old(finalChunk.text)
      ensures var h := Min(n, |old(finalChunk.Rest())|);
              finalChunk.Rest() == From(old(finalChunk.Rest()), h) && left == n - h
    {
      left := n;
      if left > 0 && |finalChunk.text| > 0 && finalChunk.sent < |finalChunk.text| {
        SendRest(finalChunk, left);
        var (piece, taken) := finalChunk.Send(left);
        finalChunk, left := piece, left - taken;
      }
    }

    method DropChunk()
      modifies this`prefix, this`body, this`suffixSent
      ensures prefix == EMPTY && body == EMPTY && suffixSent == 0
    {
      prefix, body, suffixSent := EMPTY, EMPTY, 0;
    }

    /** Charges sent bytes to the current chunk and forgets it once it is out. */
    method SettleChunk(n: nat) returns (left: nat)
      requires prefix.Ok() && body.Ok() && suffixSent <= 2 && body.text != []
      modifies this`prefix, this`body, this`suffixSent
      ensures prefix.Ok() && body.Ok() && suffixSent <= 2 && (body.text == [] ==> prefix.text == [])
      ensures body.text == [] || (body.text == old(body.text) && ChunkUnfinished())
      ensures var p := Min(n, |old(prefix.Rest())|);
              var b := Min(n - p, |old(body.Rest())|);
              var s := Min(n - p - b, |old(Suffix())|);
              && prefix.Rest() == From(old(prefix.Rest()), p)
              && body.Rest() == From(old(body.Rest()), b)
              && Suffix() == From(old(Suffix()), s) && left == n - p - b - s
    {
      left := SpendChunk(n);
      if !ChunkUnfinished() { DropChunk(); }
    }

    /** Charges n bytes to the header and the current chunk. */
    method SpendFront(n: nat) returns (left: nat)
      requires Sizes() && (body.text != [] ==> ChunkUnfinished())
      modifies this`httpHeader, this`prefix, this`body, this`suffixSent
      ensures Sizes() && httpHeader.text == old(httpHeader.text)
      ensures body.text == [] || (body.text == old(body.text) && ChunkUnfinished())
      ensures var a := old(Out()).Advance(n);
              httpHeader.Rest() == a.header && prefix.Rest() == a.prefix && body.Rest() == a.body && Suffix() == a.suffix
      ensures left == old(Out()).Beyond(n)
    {
      ghost var o := Out();
      AdvanceHeaderOnly(o, n);
      hide From, Piece.Send;
      left := SpendHeader(n);
      if left > 0 && |body.text| > 0 {
        left := SettleChunk(left);
      } else {
        assert left == 0 || (o.prefix == [] && o.body == [] && o.suffix == []);
      }
    }

    /** Charges n bytes taken by the kernel to the pieces that were offered, in their order. */
    method Spend(n: nat)
      requires Sizes() && n <= |Out().Pending()|
      requires if body.text == [] then finalChunk.text != [] ==> eof else finalChunk.text == [] && ChunkUnfinished()
      modifies this`httpHeader, this`prefix, this`body, this`suffixSent, this`finalChunk
      ensures Sizes() && Out() == old(Out()).Advance(n)
      ensures httpHeader.text == old(httpHeader.text) && finalChunk.text == old(finalChunk.text)
      ensures body.text == [] || (body.text == old(body.text) && ChunkUnfinished())
    {
      FromNone(finalChunk.Rest());
      PendingLength(Out());
      hide Outbox.Pending, Piece.Send;
      var left := SpendFront(n);
      if left > 0 && eof && |body.text| == 0 && |finalChunk.text| > 0 {
        left := SpendFinal(left);
      }
    }

    /** The bytes offered to one writev. */
    function Offered(): nat
      reads this
      requires httpHeader.Ok() && prefix.Ok() && body.Ok() && suffixSent <= 2 && finalChunk.Ok()
    {
      |httpHeader.text| - httpHeader.sent +
      if |body.text| > 0 then |prefix.text| - prefix.sent + |body.text| - body.sent + 2 - suffixSent
      else if eof then |finalChunk.text| - finalChunk.sent else 0
    }

    /** The bytes offered to one writev, piece by piece. */
    ghost function Iov(): seq<byte>
      reads `hdrBuf, `httpHeader, `prefix, `body, `suffixSent, `finalChunk, `eof
      requires Sizes()
    {
      httpHeader.Rest() +
      if body.text != [] then prefix.Rest() + (body.Rest() + From(CRLF, suffixSent))
      else if eof then finalChunk.Rest() else []
    }

    /** They are all that is pending, unless the pipe is open and there is no chunk. */
    lemma IovIsPending()
      requires Consistent() && headersDone && (body.text != [] || eof)
      ensures Iov() == books.out.Pending() && |Iov()| == Offered()
    {
      FinalComesLast(books);
      var o := books.out;
      assert body.text != [] ==> o.last == [] && o.suffix + [] == o.suffix;
      assert body.text == [] ==> o.suffix == [] && [] + ([] + ([] + o.last)) == o.last;
    }

    /** A chunk is waiting exactly if the books say so. */
    lemma ChunkIsBooked()
      requires Consistent()
      ensures body.text == [] <==> books.out.ChunkOut()
    {
    }

    lemma OfferIsPending()
      requires Consistent() && headersDone
      ensures Offered() <= |Out().Pending()|
      ensures if body.text == [] then finalChunk.text != [] ==> eof else finalChunk.text == [] && ChunkUnfinished()
      ensures body.text != [] ==> 0 < Offered()
      ensures eof && body.text == [] ==> Offered() == |Out().Pending()|
    {
      hide Sound, Phase, Outbox.Pending;
      PendingLength(Out());
      FinalComesLast(books);
    }

    /** The client took n of the offered bytes. */
    method Deliver(n: nat)
      requires Consistent() && headersDone && n <= |books.out.Pending()|
      modifies this`httpHeader, this`prefix, this`body, this`suffixSent, this`finalChunk, this`books
      ensures Consistent()
      ensures books == old(books).(sent := old(books).sent + old(books).out.Pending()[..n],
                                   out := old(books).out.Advance(n))
    {
      hide Consistent, FindEnd, Outbox.Pending, Outbox.Advance, Sound, Sizes, Out, ChunkUnfinished;
      OfferIsPending();
      Agreed();
      ghost var next := Drain(books, n);
      Spend(n);
      books := next;
      Agree();
    }

    /** Once there is a header: the counters agree with the books. */
    ghost predicate Agreement()
      reads `open, `pipeOpen, `eof, `headersDone, `hdrBuf, `httpHeader, `prefix, `body, `suffixSent, `finalChunk, `books
    {
      && Sizes() && Out() == books.out && open && pipeOpen == !eof && eof == books.eof
      && httpHeader.text == books.header && finalChunk.text == books.last
      && headersDone && (eof || FindEnd(books.output, 0).Some?) && (body.text != [] ==> ChunkUnfinished())
    }

    lemma Agreed()
      requires Consistent() && headersDone
      ensures Agreement()
    {
    }

    lemma Agree()
      requires Agreement()
      ensures Consistent()
    {
    }

    /** The final chunk belongs on the wire once the pipe has ended and all chunks are out. */
    method OfferFinal()
      requires Consistent() && headersDone && eof && body.text == []
      modifies this`finalChunk, this`books
      ensures Consistent() && finalChunk.text == FINAL
      ensures books == Ready(old(books))
    {
      hide FindEnd;
      FinalComesLast(books);
      if finalChunk.text == [] {
        books := QueueFinal(books);
      }
      EnsureFinalChunk();
    }

    /** One answer to a writev of what is offered: exactly the bytes taken have gone out. */
    method HandleWrite(answer: WriteAnswer) returns (step: WriteStep)
      requires Consistent() && headersDone && (body.text != [] || eof)
      modifies this`httpHeader, this`prefix, this`body, this`suffixSent, this`finalChunk, this`books
      ensures Consistent() && books == Charge(old(books), answer)
      ensures books.sent == old(books).sent + if answer.Took? then old(Iov())[..Min(answer.n, |old(Iov())|)] else []
      ensures step == if answer.WriteWouldBlock? then Blocked else if Fails(answer) then WriteError else WriteAgain
    {
      IovIsPending();
      hide Consistent, Outbox.Pending, Outbox.Advance, Iov;
      match answer {
        case Took(n) =>
          if n == 0 { return WriteError; }
          Deliver(Min(n, Offered()));
          step := WriteAgain;
        case WriteInterrupted => step := WriteAgain;
        case WriteWouldBlock => step := Blocked;
        case WriteFailed => step := WriteError;
      }
    }

    /** Offers what is queued once; `asked` says there was something to offer. */
    method PushOnce(answer: WriteAnswer) returns (step: WriteStep, asked: bool)
      requires Consistent() && headersDone
      modifies this`httpHeader, this`prefix, this`body, this`suffixSent, this`finalChunk, this`books
      ensures Consistent() && asked == Offers(Ready(old(books)))
      ensures books == if asked then Charge(Ready(old(books)), answer) else Ready(old(books))
      ensures step == if !asked then AllSent else if answer.WriteWouldBlock? then Blocked
                      else if Fails(answer) then WriteError else WriteAgain
    {
      ChunkIsBooked();
      asked := |body.text| > 0;
      if !asked && eof {
        OfferFinal();
        ChunkIsBooked();
        IovIsPending();
        asked := Offered() > 0;
      }
      hide Consistent, Charge, Outbox.Pending, Outbox.Advance;
      if asked {
        step := HandleWrite(answer);
      } else {
        step := AllSent;
      }
    }

    /** Why sending has stopped after these answers. */
    function StepAfter(room: seq<WriteAnswer>, used: nat): WriteStep {
      if used == 0 || GoesOn(NextWrite(room, used - 1)) then AllSent
      else if NextWrite(room, used - 1).WriteWouldBlock? then Blocked
      else WriteError
    }

    /** Sends what is queued until the kernel takes no more or nothing is left to
        offer: the books after the answers used are determined by what those took. */
    method Push(room: seq<WriteAnswer>) returns (step: WriteStep, used: nat)
      requires Consistent() && headersDone
      modifies this`httpHeader, this`prefix, this`body, this`suffixSent, this`finalChunk, this`books
      ensures Consistent() && books == Written(old(books), room, used) && StopsAfter(old(books), room, used)
      ensures step == StepAfter(room, used)
    {
      hide Consistent, Ready, Offers, Charge, Passes, Written;
      step, used := WriteAgain, 0;
      ghost var before := books;
      PassesNone(before, room);
      WrittenIsReady(before, room, 0);
      while step == WriteAgain
        invariant Consistent() && used <= |room| + 1 && (used == |room| + 1 ==> step != WriteAgain)
        invariant Passes(before, room, used) && Ready(books) == Written(before, room, used)
        invariant step != WriteAgain ==> books == Ready(books) && step == StepAfter(room, used)
        invariant step == WriteAgain && 0 < used ==> GoesOn(NextWrite(room, used - 1))
        invariant step == AllSent ==> !Offers(books)
        decreases |room| + 1 - used, step == WriteAgain
      {
        var asked;
        step, asked := PushOnce(NextWrite(room, used));
        if asked {
          PassesOneMore(before, room, used);
          WrittenOneMore(before, room, used);
          used := used + 1;
        }
        WrittenIsReady(before, room, used);
      }
    }

    /** The client is writable.  -1: error, 0: the reply is complete, 1: would
        block, 2: waiting for more output, with the pipe armed again. */
    method OnClientWritable(room: seq<WriteAnswer>) returns (code: int, used: nat)
      requires Consistent() && headersDone
      modifies this`httpHeader, this`prefix, this`body, this`suffixSent, this`finalChunk, this`books, this`pipeArmed
      ensures Consistent() && books == Written(old(books), room, used) && StopsAfter(old(books), room, used)
      ensures code == match StepAfter(room, used)
                      case WriteError => -1 case Blocked => 1 case _ => if eof then 0 else 2
      ensures Grown(old(books), books) && (code == 0 <==> Complete())
      ensures code == 2 ==> !eof && body.text == []
      ensures code != 0 ==> Unfinished(books)
      ensures pipeArmed == (old(pipeArmed) || code == 2)
    {
      hide Written, Outbox.Pending;
      var step;
      step, used := Push(room);
      WrittenGrows(old(books), room, used);
      StoppedForReason(old(books), room, used);
      ChunkIsBooked();
      PipeIsOpen();
      if step == WriteError { return -1, used; }
      if step == Blocked { return 1, used; }
      if eof { return 0, used; }
      if pipeOpen { pipeArmed := true; }
      code := 2;
    }

    lemma PipeIsOpen()
      requires Consistent()
      ensures pipeOpen == !eof && eof == books.eof
    {
    }

    /** With a reason to stop, what the books then are. */
    lemma StoppedForReason(before: Books, room: seq<WriteAnswer>, used: nat)
      requires StopsAfter(before, room, used) && Sound(Written(before, room, used))
      ensures var l := Written(before, room, used);
              if StepAfter(room, used) == AllSent
              then l.out.ChunkOut() && (if l.eof then Finished(l) else Unfinished(l))
              else Unfinished(l)
    {
      hide Ready, Charge, Outbox.Pending;
      var l := Written(before, room, used);
      FinalComesLast(l);
      WrittenIsReady(before, room, used);
      if StepAfter(room, used) == AllSent {
        AllOut(l);
      } else {
        NothingTaken(before, room, used);
        SomethingLeft(l);
      }
    }

    lemma AllOut(l: Books)
      requires !Offers(l) && Ready(l) == l
      ensures l.out.ChunkOut() && (if l.eof then Finished(l) else Unfinished(l))
    {
      FinalComesLast(l);
    }

    lemma SomethingLeft(l: Books)
      requires Offers(l)
      ensures Unfinished(l)
    {
      PendingLength(l.out);
    }

    ghost predicate Complete()
      reads `books
    {
      Finished(books)
    }

    /** One write event, from m to n, with the first `used` answers taken: the
        books are what those answers make of them.  The socket is armed exactly if
        the last would block; the connection is closed if it failed, or with all
        sent after the end of the pipe; else the pipe is armed. */
    ghost predicate WriteMoves(m: Moment, room: seq<WriteAnswer>, used: nat, n: Moment) {
      && n.books == Written(m.books, room, used) && StopsAfter(m.books, room, used)
      && n.headersDone == m.headersDone
      && n.client == (StepAfter(room, used) == Blocked)
      && n.pipe == (StepAfter(room, used) == AllSent && !n.books.eof)
      && n.open == (n.client || n.pipe)
      && (Finished(n.books) <==> StepAfter(room, used) == AllSent && n.books.eof)
    }

    /** The write event of a connection whose reply comes from a script. */
    method OnWriteEvent(room: seq<WriteAnswer>) returns (exit: WriteExit, used: nat)
      requires Valid() && connArmed
      modifies this
      ensures Left(exit) && WriteMoves(old(Now()), room, used, Now()) && eof == old(eof)
      ensures (exit == WriteDone <==> Complete()) && (exit == WriteDone ==> eof) && books.output == old(books).output
      ensures exit == AwaitWritable <==> 0 < used && NextWrite(room, used - 1).WriteWouldBlock?
      ensures exit == WriteClosed <==> 0 < used && (NextWrite(room, used - 1).WriteFailed? || NextWrite(room, used - 1) == Took(0))
      ensures exit == AwaitCgi ==> !eof
    {
      hide WriteMoves;
      ghost var m := Now();
      Fire();
      exit, used := SendAndLeave(room, m);
    }

    /** How a write event leaves the descriptors. */
    ghost predicate Left(exit: WriteExit)
      reads this
    {
      if exit == AwaitWritable || exit == AwaitCgi
      then Valid() && connArmed == (exit == AwaitWritable) && pipeArmed == (exit == AwaitCgi)
      else !open && !timer && !connArmed && !pipeArmed && !pipeOpen
    }

    method SendAndLeave(room: seq<WriteAnswer>, ghost m: Moment) returns (exit: WriteExit, used: nat)
      requires Consistent() && headersDone && outTotal == |books.output| <= outLimit && !timer && !connArmed && !pipeArmed
      requires m.books == books && m.headersDone
      modifies this
      ensures Left(exit) && WriteMoves(m, room, used, Now()) && eof == old(eof)
      ensures (exit == WriteDone <==> Complete()) && (exit == WriteDone ==> eof) && books.output == old(books).output
      ensures exit == AwaitWritable <==> 0 < used && NextWrite(room, used - 1).WriteWouldBlock?
      ensures exit == WriteClosed <==> 0 < used && (NextWrite(room, used - 1).WriteFailed? || NextWrite(room, used - 1) == Took(0))
      ensures exit == AwaitCgi ==> !eof
    {
      hide FindEnd, Outbox.Pending, Written, StopsAfter, Sound, Sizes, Out;
      PipeIsOpen();
      var code;
      code, used := OnClientWritable(room);
      PipeIsOpen();
      exit := Leave(code);
    }

    /** Arms what the result of a write asks for, or closes. */
    method Leave(code: int) returns (exit: WriteExit)
      requires !timer && !connArmed && pipeArmed == (code == 2)
      modifies this`open, this`timer, this`connArmed, this`pipeArmed, this`pipeOpen
      ensures exit == if code == 1 then AwaitWritable else if code == 2 then AwaitCgi
                      else if code == 0 then WriteDone else WriteClosed
      ensures if code == 1 || code == 2
              then && open == old(open) && pipeOpen == old(pipeOpen)
                   && timer && connArmed == (code == 1) && pipeArmed == (code == 2)
              else !open && !timer && !connArmed && !pipeArmed && !pipeOpen
    {
      if code == 1 {
        Await(true);
        return AwaitWritable;
      }
      if code == 2 {
        timer := true;
        return AwaitCgi;
      }
      Close();
      exit := if code == 0 then WriteDone else WriteClosed;
    }

    /** A first read that brings in the whole header block. */
    lemma FirstRead(m: Moment, output: seq<byte>, used: nat, n: Moment)
      requires m.books == Collected([]) && !m.headersDone && Marked(output) && |output| <= BODY_CAP
      requires PipeMoves(m, [Data(output)], used, n)
      ensures if n.open then n.client && n.books.output == output && n.books.lost == Excess(output)
              else |output| > outLimit || Unusable(output, false)
    {
      hide DataRead, Unusable;
      ReadAtOnce(output, used);
      assert output[..|output|] == output && [] + output == output;
      if used > 1 {
        ReadAtOnce(output, used - 1);
        assert false;
      }
      assert output != [] by { assert FindEnd([], 0).None?; }
    }

    // ---------- Whole runs ----------

    /** One event.  It is delivered only if its descriptor is armed. */
    ghost predicate Moves(m: Moment, e: CgiEvent, used: nat, n: Moment) {
      if !m.open then n == m else
        match e
        case PipeReady(input) => if m.pipe then PipeMoves(m, input, used, n) else n == m
        case ClientReady(room) => if m.client then WriteMoves(m, room, used, n) else n == m
        case Broken => n == m.(open := false, client := false, pipe := false)
    }

    ghost predicate IsTrace(events: seq<CgiEvent>, used: seq<nat>, trace: seq<Moment>) {
      && |used| == |events| && |trace| == |events| + 1
      && forall i :: 0 <= i < |events| ==> Moves(trace[i], events[i], used[i], trace[i + 1])
    }

    /** The reads of one event whose bytes are on the books; one that made the relay give up is not. */
    ghost function ReadsOf(m: Moment, e: CgiEvent, used: nat, n: Moment): seq<ReadAnswer> {
      if m.open && m.pipe && e.PipeReady? then Answers(e.input, if n.open || used == 0 then used else used - 1) else []
    }

    /** The reads whose bytes are on the books after n events. */
    ghost function Reads(events: seq<CgiEvent>, used: seq<nat>, trace: seq<Moment>, n: nat): seq<ReadAnswer>
      requires n <= |events| == |used| && |trace| == |events| + 1
    {
      if n == 0 then [] else
        Reads(events, used, trace, n - 1) + ReadsOf(trace[n - 1], events[n - 1], used[n - 1], trace[n])
    }

    /** What the reads of a run say of its books. */
    ghost predicate Tells(answers: seq<ReadAnswer>, n: Moment) {
      && n.books.output == Got(answers) && n.books.lost == Lost(answers)
      && ((n.open && n.headersDone) || n.books.last != [] ==> Some(n.books.header) == ReplyHeader(Got(answers)))
      && (n.open ==> && (n.pipe ==> !n.books.eof) && (n.client ==> n.headersDone)
                     && (if n.headersDone then n.books.eof || Marked(Got(answers)) else !Marked(Got(answers))))
    }

    lemma PipeMoveTells(m: Moment, input: seq<ReadAnswer>, used: nat, n: Moment, answers: seq<ReadAnswer>)
      requires m.open && m.pipe && PipeMoves(m, input, used, n) && Tells(answers, m)
      ensures Tells(answers + Answers(input, if n.open then used else used - 1), n)
    {
      hide Got, Lost, Marked, Answers, DataRead, GivesUp, Excess, ReplyHeader;
      var k := if n.open then used else used - 1;
      GotAnswers(answers, input, k);
      if m.headersDone {
        LossIsOver(answers, input, k);
        ReplyHeaderStays(Got(answers), DataRead(input, k));
      } else {
        NoMarkNoLoss(answers);
        if n.open && n.client && !n.books.eof {
          LossAtMark(answers, input, used);
        } else {
          if n.open { NothingMore(input, used); }
          NoMarkNoLoss(answers + Answers(input, k));
        }
      }
    }

    lemma MoveTells(m: Moment, e: CgiEvent, used: nat, n: Moment, answers: seq<ReadAnswer>)
      requires Moves(m, e, used, n) && Tells(answers, m)
      ensures Tells(answers + ReadsOf(m, e, used, n), n)
    {
      hide Got, Lost, Marked, Answers, UpToLast, Written, StopsAfter, ReplyHeader;
      assert answers + [] == answers;
      if m.open && m.pipe && e.PipeReady? {
        PipeMoveTells(m, e.input, used, n, answers);
      }
      if m.open && m.client && e.ClientReady? {
        WrittenGrows(m.books, e.room, used);
      }
    }

    lemma NothingToTell(m: Moment)
      requires m.books == Collected([]) && !m.headersDone && m.pipe && !m.client
      ensures Tells([], m)
    {
    }

    lemma {:induction false} TraceTells(events: seq<CgiEvent>, used: seq<nat>, trace: seq<Moment>, n: nat)
      requires IsTrace(events, used, trace) && n <= |events|
      requires trace[0].books == Collected([]) && !trace[0].headersDone && trace[0].pipe && !trace[0].client
      ensures Tells(Reads(events, used, trace, n), trace[n])
    {
      hide Moves, ReadsOf, Tells, Marked;
      if n == 0 {
        NothingToTell(trace[0]);
      } else {
        TraceTells(events, used, trace, n - 1);
        MoveTells(trace[n - 1], events[n - 1], used[n - 1], trace[n], Reads(events, used, trace, n - 1));
      }
    }

    /** How many bytes the answers of one event took. */
    ghost function TakenOf(m: Moment, e: CgiEvent, used: nat): nat {
      if m.open && m.client && e.ClientReady? then Accepted(m.books, e.room, used) else 0
    }

    /** How many bytes the kernel took in n events. */
    ghost function TakenBy(events: seq<CgiEvent>, used: seq<nat>, trace: seq<Moment>, n: nat): nat
      requires n <= |events| == |used| && |trace| == |events| + 1
    {
      if n == 0 then 0 else TakenBy(events, used, trace, n - 1) + TakenOf(trace[n - 1], events[n - 1], used[n - 1])
    }

    lemma MoveSends(m: Moment, e: CgiEvent, used: nat, n: Moment)
      requires Moves(m, e, used, n)
      ensures |n.books.sent| == |m.books.sent| + TakenOf(m, e, used)
    {
      hide UpToLast, Written, StopsAfter, Accepted, DataRead;
      if m.open && m.client && e.ClientReady? {
        GivenInOrder(m.books, e.room, used);
      }
    }

    /** What the client has grows by exactly what the kernel took. */
    lemma {:induction false} TraceSends(events: seq<CgiEvent>, used: seq<nat>, trace: seq<Moment>, n: nat)
      requires IsTrace(events, used, trace) && n <= |events|
      ensures |trace[n].books.sent| == |trace[0].books.sent| + TakenBy(events, used, trace, n)
    {
      hide Moves, TakenOf;
      if n > 0 {
        TraceSends(events, used, trace, n - 1);
        MoveSends(trace[n - 1], events[n - 1], used[n - 1], trace[n]);
      }
    }

    /** Between events: sound while open, and done exactly if all has been sent. */
    ghost predicate Between(done: bool)
      reads this
    {
      && (open ==> Valid() && !done) && (done <==> Finished(books)) && (!done ==> Unfinished(books))
      && |books.output| <= outLimit
    }

    /** Delivers the events of a run one by one. */
    method Play(events: seq<CgiEvent>) returns (done: bool, ghost used: seq<nat>, ghost trace: seq<Moment>)
      requires Valid()
      modifies this
      ensures |used| == |events| && |trace| == |events| + 1
      ensures IsTrace(events, used, trace) && trace[0] == old(Now()) && trace[|events|] == Now()
      ensures Between(done)
    {
      hide Moves, IsTrace, Between;
      done, used, trace := false, [], [Now()];
      var i := 0;
      NoEvents(trace);
      FirstIsBetween();
      while i < |events|
        invariant i <= |events| && IsTrace(events[..i], used, trace) && |used| == i && |trace| == i + 1
        invariant trace[0] == old(Now()) && trace[i] == Now() && Between(done)
      {
        ghost var k;
        done, k := Step(events[i], done);
        OneEventMore(events, i, used, trace, k, Now());
        used, trace := used + [k], trace + [Now()];
        i := i + 1;
      }
      assert events[..i] == events;
    }

    /** Runs a whole relay: any order of events, any answers from the kernel; the
        trace says what each event did.  However the run goes, the client holds a
        prefix of the chunked reply, and unless it is done no complete one.  When
        it is done the client holds all of it, and a decoder finds exactly the
        relayed body behind the header.  In a run from the start of a relay that
        body is the intended one if and only if no more had been read than the
        header buffer holds when the read that completed the header block returned. */
    method Run(events: seq<CgiEvent>) returns (done: bool, ghost used: seq<nat>, ghost trace: seq<Moment>)
      requires Valid()
      modifies this
      ensures |used| == |events| && |trace| == |events| + 1
      ensures IsTrace(events, used, trace) && trace[0] == old(Now()) && trace[|events|] == Now()
      ensures (done <==> Finished(books)) && |books.output| <= outLimit
      ensures |books.sent| == |old(books).sent| + TakenBy(events, used, trace, |events|)
      ensures books.sent <= books.header + (Encode(books.chunks) + FINAL)
      ensures !done && books.header <= books.sent ==> Decode(books.sent[|books.header|..]) == None
      ensures done ==> && books.header <= books.sent
                       && Decode(books.sent[|books.header|..]) == Some((Concat(books.chunks), []))
      ensures old(pipeArmed && !headersDone && books == Collected([])) ==>
                var answers := Reads(events, used, trace, |events|);
                && books.output == Got(answers)
                && (done ==> (Concat(books.chunks) == Intended(Got(answers)) <==> HeaderFits(answers)))
                && (done ==> match FindEnd(Got(answers), 0)
                             case Some(k) =>
                               && k <= |Got(answers)| && Some(books.header) == headerFor(Got(answers)[..k])
                               && (HeaderFits(answers) ==> Concat(books.chunks) == Got(answers)[k..])
                             case None =>
                               if Got(answers) == []
                               then Some(books.header) == failHeader && Concat(books.chunks) == NO_OUTPUT
                               else Some(books.header) == plainHeader && Concat(books.chunks) == Got(answers))
    {
      hide Moves, IsTrace, Reads, TakenBy, ReplyHeader, Got, Lost, HeaderFits, Intended, Valid, Decode, Encode, Sound;
      OneArmed();
      done, used, trace := Play(events);
      TraceSends(events, used, trace, |events|);
      SentIsPrefix(books);
      if done { RelayComplete(books); }
      if !done && books.header <= books.sent { RelayIncomplete(books); }
      if old(pipeArmed && !headersDone && books == Collected([])) {
        TraceTells(events, used, trace, |events|);
        LostNothing(Reads(events, used, trace, |events|));
        ReplyMeans(Reads(events, used, trace, |events|));
      }
    }

    /** The reply header and the intended body of a script's output, case by case. */
    lemma ReplyMeans(answers: seq<ReadAnswer>)
      ensures match FindEnd(Got(answers), 0)
              case Some(k) =>
                && k <= |Got(answers)| && ReplyHeader(Got(answers)) == headerFor(Got(answers)[..k])
                && Intended(Got(answers)) == Got(answers)[k..]
              case None =>
                && HeaderFits(answers)
                && ReplyHeader(Got(answers)) == (if Got(answers) == [] then failHeader else plainHeader)
                && Intended(Got(answers)) == if Got(answers) == [] then NO_OUTPUT else Got(answers)
    {
      hide Got, HeaderFits, Lost;
      FindEndBound(Got(answers), 0);
      if FindEnd(Got(answers), 0).None? {
        NoMarkNoLoss(answers);
        LostNothing(answers);
      }
    }

    lemma OneArmed()
      requires Valid()
      ensures connArmed != pipeArmed
    {
    }

    lemma FirstIsBetween()
      requires Valid()
      ensures Between(false)
    {
    }

    /** Delivers one event. */
    method Step(e: CgiEvent, was: bool) returns (done: bool, ghost used: nat)
      requires Between(was)
      modifies this
      ensures Between(done)
      ensures Moves(old(Now()), e, used, Now())
    {
      hide PipeMoves, WriteMoves, FindEnd, DataRead, Consistent, Outbox.Pending;
      done, used := was, 0;
      if open {
        match e {
          case PipeReady(input) =>
            if pipeArmed {
              var exit;
              exit, used := OnStdoutReady(input);
            }
          case ClientReady(room) =>
            if connArmed {
              var exit;
              exit, used := OnWriteEvent(room);
              done := exit == WriteDone;
            }
          case Broken =>
            Close();
        }
      }
    }

    lemma NoEvents(trace: seq<Moment>)
      requires |trace| == 1
      ensures IsTrace([], [], trace)
    {
    }

    lemma OneEventMore(events: seq<CgiEvent>, i: nat, used: seq<nat>, trace: seq<Moment>, k: nat, n: Moment)
      requires i < |events| && |trace| == i + 1 && IsTrace(events[..i], used, trace) && Moves(trace[i], events[i], k, n)
      ensures IsTrace(events[..i + 1], used + [k], trace + [n])
    {
      hide Moves;
    }
  }

  /** A blank line and 4095 bytes behind it. */
  function OneTooMany(): seq<byte> {
    [LF, LF] + seq(HDR_CAP - 1, _ => SP)
  }

  lemma OneTooManyEnds()
    ensures |OneTooMany()| == HDR_CAP + 1
    ensures FindEnd(OneTooMany(), 0) == Some(2) && FindEnd(OneTooMany()[..HDR_CAP], 0) == Some(2)
  {
    var output := OneTooMany();
    assert output[0] == LF && output[1] == LF;
    assert output[..HDR_CAP][0] == LF && output[..HDR_CAP][1] == LF;
  }

  /** A script that prints a blank line and 4095 bytes at once loses the last of
      them: one read brings in one byte more than the header buffer has room for,
      and the relay goes on without it. */
  method OneByteLost() returns (relay: Relay)
    ensures fresh(relay) && relay.Valid() && relay.connArmed
    ensures relay.books.output == OneTooMany() && relay.books.lost == 1
    ensures OneTooMany() == [10, 10] + seq(4095, _ => 32)
    ensures Concat(relay.books.chunks) == seq(4094, _ => 32) && Intended(OneTooMany()) == seq(4095, _ => 32)
  {
    hide FindEnd, OneTooMany, Relay.Valid, Relay.PipeMoves, Sound, Intended;
    relay := new Relay(_ => Some([]), Some([]), Some([]), 0x10_0000);
    OneTooManyEnds();
    ghost var m := relay.Now();
    var exit, used := relay.OnStdoutReady([Data(OneTooMany())]);
    relay.FirstRead(m, OneTooMany(), used, relay.Now());
    SpaceLost(relay.books);
    InDigits();
  }

  lemma InDigits()
    ensures OneTooMany() == [10, 10] + seq(4095, _ => 32)
    ensures seq(HDR_CAP - 2, _ => SP) == seq(4094, _ => 32) && seq(HDR_CAP - 1, _ => SP) == seq(4095, _ => 32)
  {
  }

  lemma SpaceLost(l: Books)
    requires l.output == OneTooMany() && l.lost == 1
    ensures Concat(l.chunks) == seq(HDR_CAP - 2, _ => SP)
    ensures Intended(OneTooMany()) == seq(HDR_CAP - 1, _ => SP)
  {
    OneTooManyEnds();
    var output := OneTooMany();
    assert output[2..] == seq(HDR_CAP - 1, _ => SP);
    assert output[2..HDR_CAP] == seq(HDR_CAP - 2, _ => SP) && output[HDR_CAP + 1..] == [];
  }
}
