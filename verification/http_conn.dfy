/** One client connection's input side: the sliding window, the resumable
    parser over it, and the request loop with pipelining. */
module HttpConn {
  import opened Bytes
  import opened Kernel
  import opened HttpParse
  import opened HttpPrint
  import opened HttpStream

  const MAX_BUF := 8124

  /** What answering one complete request came to. */
  datatype Verdict =
    | Answered(keepAlive: bool)   // the reply is out
    | Stalled                     // a file or error reply waits for the socket
    | Refused(stalled: bool)      // an error reply that closes; headers were not looked at
    | ScriptStarted               // a CGI script took the connection over
    | Failed

  /** How the request loop leaves the connection. */
  datatype RequestExit = Closed | AwaitRead | AwaitWrite | AwaitLastWrite | AwaitScript

  /** What the loop does after a request: None is to go on with the next. */
  function ExitFor(verdict: Verdict): (exit: Option<RequestExit>)
    ensures exit != Some(AwaitRead)
  {
    match verdict
    case Answered(keepAlive) => if keepAlive then None else Some(Closed)
    case Stalled => Some(AwaitWrite)
    case Refused(stalled) => Some(if stalled then AwaitLastWrite else Closed)
    case ScriptStarted => Some(AwaitScript)
    case Failed => Some(Closed)
  }

  function VerdictAt(verdicts: seq<Verdict>, i: nat): Verdict {
    if i < |verdicts| then verdicts[i] else Failed
  }

  /** What one read brings into a window that holds `last` bytes: as much of the
      answer as there is room for. */
  function Intake(answer: ReadAnswer, last: nat): seq<byte>
    requires answer.Data? && last < MAX_BUF
  {
    answer.bytes[..Min(|answer.bytes|, MAX_BUF - 1 - last)]
  }

  /** The pieces are what the first answers brought in to a connection with this
      stream: each all of its answer that the buffer has room for behind what is
      left over from the complete requests before it. */
  ghost predicate PiecesOf(pieces: seq<seq<byte>>, input: seq<ReadAnswer>, stream: seq<byte>, first: Carry) {
    |pieces| <= |input|
    && forall k :: 0 <= k < |pieces| ==> PieceOf(pieces[k], input[k], |Leftover(stream + Flatten(pieces[..k]), first)|)
  }

  ghost predicate PieceOf(piece: seq<byte>, answer: ReadAnswer, last: nat) {
    answer.Data? && last < MAX_BUF && piece == Intake(answer, last) && piece != []
  }

  lemma {:induction false} FlattenSnoc(pieces: seq<seq<byte>>, x: seq<byte>)
    ensures Flatten(pieces + [x]) == Flatten(pieces) + x
  {
    if pieces == [] {
      assert [x][1..] == [] && x + [] == x;
    } else {
      assert (pieces + [x])[1..] == pieces[1..] + [x];
      FlattenSnoc(pieces[1..], x);
      assert pieces[0] + (Flatten(pieces[1..]) + x) == (pieces[0] + Flatten(pieces[1..])) + x;
    }
  }

  /** A read that ends the input: end of file, an error, or a signal. */
  predicate Ends(answer: ReadAnswer) {
    !answer.ReadWouldBlock? && (answer.Data? ==> answer.bytes == [])
  }

  class Connection {
    const buf: array<byte>
    var last: nat
    var parser: Parser

    /** Everything read from the socket, the part of it already handled, what
        the requests in that part were, and what the last one left behind. */
    ghost const first: Carry
    ghost var stream: seq<byte>
    ghost var taken: seq<byte>
    ghost var handled: seq<Request>
    ghost var carry: Carry
    ghost var window: seq<byte>

    /** The window is the unhandled rest of the stream and fits the buffer. */
    ghost predicate Window()
      reads this, buf
    {
      && buf.Length == MAX_BUF && last <= MAX_BUF - 1 && buf[..last] == window
      && stream == taken + window && parser.pos <= last
    }

    /** The requests handled are, in order, those at the front of the stream,
        and the parser is where parsing the window from its head would be. */
    ghost predicate Valid()
      reads this, buf
    {
      && Window()
      && Replays(taken, first, handled, carry) && carry.line == ResetLine(carry.line)
      && parser.phase <= 1
      && Resume(Fresh(carry), window[..parser.pos]) == Progress(Again, parser)
    }

    constructor ()
      ensures Valid() && stream == [] && handled == [] && fresh(buf)
    {
      buf := new byte[MAX_BUF];
      last := 0;
      var blank := Line(None, None, Unknown, None, None, 0, 0, None);
      var start := Carry(blank, Span(0, 0, 0, 0));
      parser := Fresh(start);
      first, carry := start, start;
      stream, taken, handled, window := [], [], [], [];
      ReplaysNothing(start);
    }

    /** Appends what read returned. */
    method Append(data: seq<byte>)
      requires Window() && |data| <= MAX_BUF - 1 - last
      modifies this`last, this`stream, this`window, buf
      ensures Window() && window == old(window) + data && stream == old(stream) + data
    {
      forall i | 0 <= i < |data| { buf[last + i] := data[i]; }
      last := last + |data|;
      window, stream := window + data, stream + data;
      assert buf[..last] == window;
    }

    /** Runs the request-line automaton over the unread part of the window. */
    method ParseRequestLine() returns (code: Code)
      requires Window()
      modifies this`parser
      ensures var r := RunLine(window, old(parser).pos, old(parser).lineState, old(parser).line);
              code == r.code && parser == old(parser).(line := r.line,
                pos := if r.code == Again || r.code == Done then r.pos else old(parser).pos,
                lineState := if r.code == Again then r.state else if r.code == Done then Start else old(parser).lineState)
    {
      ghost var goal := RunLine(window, parser.pos, parser.lineState, parser.line);
      var pi, state, line := parser.pos, parser.lineState, parser.line;
      while pi < last
        invariant pi <= last && goal == RunLine(window, pi, state, line)
      {
        assert buf[pi] == buf[..last][pi];
        match StepLine(buf[..last], pi, state, line) {
          case LineGo(state', line') =>
            state, line := state', line';
          case LineEnd(line') =>
            parser := parser.(line := line', pos := pi + 1, lineState := Start);
            return Done;
          case LineBad(bad, line') =>
            parser := parser.(line := line');
            return bad;
        }
        pi := pi + 1;
      }
      parser := parser.(line := line, pos := pi, lineState := state);
      code := Again;
    }

    /** Runs the header automaton over the unread part of the window. */
    method ParseRequestBody() returns (code: Code)
      requires Window()
      modifies this`parser
      ensures var r := RunHeaders(window, old(parser).pos, old(parser).headerState, old(parser).headers);
              code == r.code && parser == old(parser).(headers := r.h,
                pos := if r.code == Again || r.code == Done then r.pos else old(parser).pos,
                headerState := if r.code == Again then r.state else if r.code == Done then HStart else old(parser).headerState)
    {
      ghost var goal := RunHeaders(window, parser.pos, parser.headerState, parser.headers);
      var pi, state, h := parser.pos, parser.headerState, parser.headers;
      while pi < last
        invariant pi <= last && goal == RunHeaders(window, pi, state, h)
      {
        assert buf[pi] == buf[..last][pi];
        match StepHeader(buf[pi], pi, state, h) {
          case HeaderGo(state', h') =>
            state, h := state', h';
          case HeaderEnd =>
            parser := parser.(headers := h, pos := pi + 1, headerState := HStart);
            return Done;
          case HeaderBad =>
            parser := parser.(headers := h);
            return InvalidHeader;
        }
        pi := pi + 1;
      }
      parser := parser.(headers := h, pos := pi, headerState := state);
      code := Again;
    }

    /** The two phases of parsing, continued on the window. */
    method Parse() returns (code: Code)
      requires Window() && parser.phase <= 1
      modifies this`parser
      ensures Progress(code, parser) == Resume(old(parser), window)
    {
      if parser.phase == 0 {
        LineAdvances(window, parser.pos, parser.lineState, parser.line);
        code := ParseRequestLine();
        if code != Done { return; }
        parser := parser.(phase := 1);
      }
      code := ParseRequestBody();
      if code == Done { parser := parser.(phase := 2); }
    }

    /** One read and the parse of what it brought: the window parses as if it had been there at once. */
    lemma ParsedSoFar()
      requires Valid()
      ensures var a, b := Resume(parser, window), Resume(Fresh(carry), window);
              SameOutcome(a, b) && a.parser.pos <= |window|
    {
      var s, t := window[..parser.pos], window[parser.pos..];
      assert s + t == window;
      ResumeSplit(Fresh(carry), s, t);
      assert window + [] == window;
      ResumeSplit(parser, window, []);
    }

    /** Moves the unread bytes to the head of the buffer.  No header position is
        stored any more, so none is left pointing into moved bytes. */
    method Compact()
      requires Window() && parser.headers.list == []
      modifies this`last, this`window, this`taken, this`parser, buf
      ensures Window() && stream == old(stream)
      ensures taken == old(taken) + old(window)[..old(parser).pos] && window == old(window)[old(parser).pos..]
      ensures parser == Fresh(Carry(ResetLine(old(parser).line), old(parser).headers.cur))
    {
      var k, remaining := parser.pos, last - parser.pos;
      ghost var rest := window[k..];
      assert rest == buf[k..last];
      forall i | 0 <= i < remaining { buf[i] := buf[k + i]; }
      assert buf[..remaining] == rest;
      taken, window, last := taken + window[..k], rest, remaining;
      parser := Parser(0, 0, Start, ResetLine(parser.line), HStart, parser.headers);
    }

    /** A complete request is at the head of the window; record it. */
    method Record() returns (r: Request)
      requires Window() && parser.phase == 2
      requires Replays(taken, first, handled, carry) && carry.line == ResetLine(carry.line)
      requires Progress(Done, parser) == Resume(Fresh(carry), window)
      modifies this`handled, this`carry
      ensures r == Extract(window, parser.line, parser.headers.list)
      ensures handled == old(handled) + [r] && carry == Carry(ResetLine(parser.line), parser.headers.cur)
      ensures Replays(taken + window[..parser.pos], first, handled, carry)
      ensures 0 < parser.pos
    {
      ResumeIsParse(carry, window);
      DoneAdvances(window, carry);
      ReplaysOneMore(taken, first, handled, carry, window);
      r := Extract(buf[..last], parser.line, parser.headers.list);
      handled, carry := handled + [r], Carry(ResetLine(parser.line), parser.headers.cur);
    }

    /** Parses the window: more is needed, a request is complete, or the input is refused. */
    method Advance() returns (code: Code)
      requires Valid()
      modifies this`parser
      ensures code == Again ==> Valid() && parser.pos == last
      ensures code == ParseRequest(window, carry.line, carry.cur).code
      ensures Window() && Replays(taken, first, handled, carry) && carry.line == ResetLine(carry.line)
      ensures code == Done ==> parser.phase == 2 && parser.pos <= last && Progress(Done, parser) == Resume(Fresh(carry), window)
    {
      ParsedSoFar();
      code := Parse();
      if code == Again {
        AgainAtEnd(Fresh(carry), window);
        assert window[..parser.pos] == window;
        ResumeSplit(Fresh(carry), window, []);
      }
      ResumeIsParse(carry, window);
    }

    /** Handles the complete request at the head of the window.  None: go on
        with what is left in the window. */
    method Serve(verdict: Verdict) returns (exit: Option<RequestExit>)
      requires Window() && parser.phase == 2 && parser.pos <= last
      requires Replays(taken, first, handled, carry) && carry.line == ResetLine(carry.line)
      requires Progress(Done, parser) == Resume(Fresh(carry), window)
      modifies this`last, this`window, this`taken, this`parser, this`handled, this`carry, buf
      ensures stream == old(stream) && |handled| == |old(handled)| + 1
      ensures old(handled) <= handled && InOrder() && Window()
      ensures exit == None || exit == Some(AwaitWrite) ==> Valid() && last < old(last)
      ensures exit == ExitFor(verdict)
      ensures exit == match verdict
                      case Answered(keepAlive) => if keepAlive then None else Some(Closed)
                      case Stalled => Some(AwaitWrite)
                      case Refused(stalled) => if stalled then Some(AwaitLastWrite) else Some(Closed)
                      case ScriptStarted => Some(AwaitScript)
                      case Failed => Some(Closed)
    {
      hide Replays, ParseAll, Resume, Extract;
      var request := Record();
      HandledIsPrefix(taken + window[..parser.pos], window[parser.pos..], first, handled, carry);
      assert stream == (taken + window[..parser.pos]) + window[parser.pos..];
      match verdict {
        case ScriptStarted => return Some(AwaitScript);
        case Failed => return Some(Closed);
        case Refused(stalled) => return Some(if stalled then AwaitLastWrite else Closed);
        case Answered(keepAlive) =>
          if !keepAlive { return Some(Closed); }
          Release();
          return None;
        case Stalled =>
          Release();
          return Some(AwaitWrite);
      }
    }

    /** The header list is drained, the window compacted and the parser reset. */
    method Release()
      requires Window() && 0 < parser.pos && carry == Carry(ResetLine(parser.line), parser.headers.cur)
      requires Replays(taken + window[..parser.pos], first, handled, carry)
      modifies this`last, this`window, this`taken, this`parser, buf
      ensures Valid() && last < old(last) && stream == old(stream)
    {
      parser := parser.(headers := Headers(parser.headers.cur, []));
      Compact();
      assert window[..0] == [];
      ResumeIsParse(carry, []);
    }

    /** One read into the free part of the buffer.  None: the window grew. */
    method ReadMore(answer: ReadAnswer) returns (exit: Option<RequestExit>)
      requires Valid()
      modifies this`last, this`window, this`stream, buf
      ensures old(stream) <= stream && last >= old(last)
      ensures exit == None ==> answer.Data? && old(last) < MAX_BUF && Intake(answer, old(last)) != []
      ensures exit == None ==> stream == old(stream) + Intake(answer, old(last))
      ensures exit == None ==> stream == old(stream) + answer.bytes[..Min(|answer.bytes|, MAX_BUF - 1 - old(last))]
      ensures exit == Some(Closed) <==> old(last) >= MAX_BUF - 1 || answer in {ReadInterrupted, ReadFailed, Data([])}
      ensures exit == Some(AwaitRead) <==> old(last) < MAX_BUF - 1 && answer.ReadWouldBlock?
      ensures Window() && (exit == None || exit == Some(AwaitRead) ==> Valid())
      ensures exit != None ==> stream == old(stream) && last == old(last) && window == old(window)
      ensures exit == if last == old(last) && last >= MAX_BUF - 1 then Some(Closed)
                      else if answer.ReadWouldBlock? then Some(AwaitRead)
                      else if Ends(answer) then Some(Closed) else None
    {
      if last >= MAX_BUF - 1 { return Some(Closed); }
      if answer.ReadWouldBlock? { return Some(AwaitRead); }
      if !answer.Data? { return Some(Closed); }
      var data := answer.bytes[..Min(|answer.bytes|, MAX_BUF - last - 1)];
      if |data| == 0 { return Some(Closed); }
      ghost var seen := window[..parser.pos];
      Append(data);
      assert window[..parser.pos] == seen;
      exit := None;
    }

    /** The requests handled are, in order, the first ones of the stream. */
    ghost predicate InOrder()
      reads this`handled, this`stream
    {
      handled <= ParseAll(stream, first)
    }

    lemma ValidIsInOrder()
      requires Valid()
      ensures InOrder()
    {
      HandledIsPrefix(taken, window, first, handled, carry);
    }

    /** No complete request of the stream is left unhandled. */
    ghost predicate AllHandled()
      reads this`handled, this`stream
    {
      handled == ParseAll(stream, first)
    }

    /** The window begins with something that is no request, or not yet one. */
    ghost predicate NoRequest(code: Code)
      reads this`window, this`carry
    {
      code != Done && ParseRequest(window, carry.line, carry.cur).code == code
    }

    lemma NothingMissed(code: Code)
      requires Window() && Replays(taken, first, handled, carry) && NoRequest(code)
      ensures AllHandled()
    {
      assert ParseAll(window, carry) == [];
      assert handled + [] == handled;
    }

    lemma WaitingMissesNothing()
      requires Valid() && parser.pos >= last
      ensures NoRequest(Again) && AllHandled() && Leftover(stream, first) == window && |window| == last
    {
      assert window[..parser.pos] == window;
      ResumeIsParse(carry, window);
      NothingMissed(Again);
    }

    lemma CursorIsInside()
      requires Valid()
      ensures parser.pos <= last
    {
    }

    /** One round of the request loop: read if nothing is unread, parse, and
        handle a request if one is complete.  None: go round again. */
    method Round(answer: ReadAnswer, verdict: Verdict) returns (exit: Option<RequestExit>, read: bool, served: bool)
      requires Valid()
      modifies this`last, this`window, this`taken, this`parser, this`handled, this`carry, this`stream, buf
      ensures Window() && (exit == None || exit == Some(AwaitRead) || exit == Some(AwaitWrite) ==> Valid())
      ensures InOrder() && old(stream) <= stream && old(handled) <= handled
      ensures |handled| == |old(handled)| + if served then 1 else 0
      ensures read ==> answer.Data? && old(last) < MAX_BUF && Intake(answer, old(last)) != []
      ensures read ==> old(last) == |Leftover(old(stream), first)|
      ensures stream == if read then old(stream) + Intake(answer, old(last)) else old(stream)
      ensures exit == None && !read ==> last < old(last) || (last == old(last) && last - parser.pos < old(last - parser.pos))
      ensures if served then exit == ExitFor(verdict)
              else exit == None || (AllHandled() && Waits(exit.value, answer))
    {
      hide Valid, Window, InOrder, AllHandled, ParseAll, Leftover, Replays, Resume;
      read, served := false, false;
      ValidIsInOrder();
      if parser.pos >= last {
        WaitingMissesNothing();
        exit := ReadMore(answer);
        if exit.Some? { return; }
        read := true;
        ValidIsInOrder();
      }
      var code := Advance();
      if code == Again { return None, read, false; }
      if code != Done {
        NothingMissed(code);
        assert NoRequest(code);
        return Some(Closed), read, false;
      }
      exit := Serve(verdict);
      served := true;
    }

    /** Why the loop ends without a request to handle: the socket has nothing
        more for now, or the window is full, the input has ended, or what it
        holds is refused. */
    ghost predicate Waits(exit: RequestExit, answer: ReadAnswer)
      reads this
    {
      match exit
      case AwaitRead => answer.ReadWouldBlock? && last < MAX_BUF - 1
      case Closed => last >= MAX_BUF - 1 || Ends(answer) || exists code :: code != Again && NoRequest(code)
      case _ => false
    }

    /** If the loop ended right after a read that brought something in, the answer was not the reason. */
    lemma WaitsWhatever(exit: RequestExit, answer: ReadAnswer)
      requires Waits(exit, answer) && answer.Data? && answer.bytes != []
      ensures forall other :: Waits(exit, other)
    {
    }

    /** The read event of a connection.  The stream grows by the pieces the reads
        brought in, however the kernel cuts the input; for every way requests are
        answered, the requests handled are in order the first ones of the stream.
        The loop goes on after every reply that keeps the connection; when it ends
        for want of a request, all complete requests of the stream have been
        handled.  `inFlight` says a request has begun to arrive. */
    method DoRequest(input: seq<ReadAnswer>, verdicts: seq<Verdict>)
      returns (exit: RequestExit, inFlight: bool, served: nat, ghost pieces: seq<seq<byte>>)
      requires Valid()
      modifies this`last, this`window, this`taken, this`parser, this`handled, this`carry, this`stream, buf
      ensures Window() && (exit == AwaitRead || exit == AwaitWrite ==> Valid())
      ensures PiecesOf(pieces, input, old(stream), first) && stream == old(stream) + Flatten(pieces)
      ensures InOrder() && old(handled) <= handled && |handled| == |old(handled)| + served
      ensures inFlight == (last > 0 || parser.phase != 0)
      ensures forall k :: 0 <= k < served - 1 ==> VerdictAt(verdicts, k) == Answered(true)
      ensures if served == 0 || VerdictAt(verdicts, served - 1) == Answered(true)
              then AllHandled() && Waits(exit, NextRead(input, |pieces|))
              else exit == match VerdictAt(verdicts, served - 1)
                           case Answered(_) => Closed
                           case Stalled => AwaitWrite
                           case Refused(stalled) => if stalled then AwaitLastWrite else Closed
                           case ScriptStarted => AwaitScript
                           case Failed => Closed
      ensures exit == AwaitRead ==> last < MAX_BUF - 1 && NextRead(input, |pieces|).ReadWouldBlock?
      ensures served == 0 && exit != AwaitRead ==>
                && exit == Closed
                && (last >= MAX_BUF - 1 || NextRead(input, |pieces|) in {ReadInterrupted, ReadFailed, Data([])} ||
                    ParseRequest(window, carry.line, carry.cur).code !in {Again, Done})
      ensures AllHandled() <==>
              forall k :: 0 <= k < |ParseAll(stream, first)| - |old(handled)| - 1 ==> VerdictAt(verdicts, k) == Answered(true)
    {
      hide Valid, Window, InOrder, AllHandled, Waits, Flatten, Intake, PieceOf, PiecesOf, ParseAll, Leftover;
      var used := 0;
      served, pieces := 0, [];
      NoPieces(input, stream, first);
      ValidIsInOrder();
      CursorIsInside();
      while true
        invariant Valid() && InOrder() && old(handled) <= handled && used == |pieces| <= |input|
        invariant PiecesOf(pieces, input, old(stream), first) && stream == old(stream) + Flatten(pieces)
        invariant |handled| == |old(handled)| + served && parser.pos <= last
        invariant forall k :: 0 <= k < served ==> VerdictAt(verdicts, k) == Answered(true)
        decreases |input| - used, last, last - parser.pos
      {
        ghost var room := last;
        var next, read, done := Round(NextRead(input, used), VerdictAt(verdicts, served));
        if done { served := served + 1; }
        if read {
          ghost var piece := Intake(NextRead(input, used), room);
          IntakeIsPiece(NextRead(input, used), room);
          OnePieceMore(pieces, input, old(stream), first, piece);
          StreamGrows(old(stream), pieces, piece);
          if next.Some? && !done { WaitsWhatever(next.value, NextRead(input, used)); }
          pieces := pieces + [piece];
          used := used + 1;
        }
        if next.Some? {
          NoneLeft(verdicts, |old(handled)|, served, done);
          if !done { WhyItWaits(next.value, NextRead(input, used)); }
          return next.value, last > 0 || parser.phase != 0, served, pieces;
        }
        CursorIsInside();
      }
    }

    lemma EmptyWindow()
      requires Window() && last == 0
      ensures taken == stream
    {
      assert taken + [] == taken;
    }

    /** When the loop has ended, at a request it handled or with none left to
        handle, every complete request of the stream has been handled exactly if all
        but the last of them were answered at once and kept the connection. */
    lemma NoneLeft(verdicts: seq<Verdict>, before: nat, served: nat, done: bool)
      requires InOrder() && |handled| == before + served
      requires forall k :: 0 <= k < served - 1 ==> VerdictAt(verdicts, k) == Answered(true)
      requires if done then 0 < served && VerdictAt(verdicts, served - 1) != Answered(true) else AllHandled()
      ensures AllHandled() <==>
              forall k :: 0 <= k < |ParseAll(stream, first)| - before - 1 ==> VerdictAt(verdicts, k) == Answered(true)
    {
      hide ParseAll;
      if AllHandled() {
        assert |ParseAll(stream, first)| == before + served;
      } else {
        assert |handled| < |ParseAll(stream, first)|;
      }
    }

    lemma WhyItWaits(exit: RequestExit, answer: ReadAnswer)
      requires Waits(exit, answer)
      ensures exit == AwaitRead || exit == Closed
      ensures exit == AwaitRead ==> last < MAX_BUF - 1 && answer.ReadWouldBlock?
      ensures exit == Closed ==> last >= MAX_BUF - 1 || answer in {ReadInterrupted, ReadFailed, Data([])} ||
                                 ParseRequest(window, carry.line, carry.cur).code !in {Again, Done}
    {
    }

    /** With nothing read and something to read the loop has no reason to end. */
    lemma NothingCame(exit: RequestExit, data: seq<byte>)
      requires Window() && stream == [] && data != []
      ensures !Waits(exit, Data(data))
    {
      assert window == [];
      NoRequestInNothing(carry);
    }
  }

  lemma NoPieces(input: seq<ReadAnswer>, stream: seq<byte>, first: Carry)
    ensures PiecesOf([], input, stream, first) && stream + Flatten([]) == stream
  {
  }

  lemma OnePieceMore(pieces: seq<seq<byte>>, input: seq<ReadAnswer>, stream: seq<byte>, first: Carry, piece: seq<byte>)
    requires PiecesOf(pieces, input, stream, first)
    requires PieceOf(piece, NextRead(input, |pieces|), |Leftover(stream + Flatten(pieces), first)|)
    ensures PiecesOf(pieces + [piece], input, stream, first)
  {
    hide PieceOf, Flatten, Leftover;
    IsInScript(input, |pieces|, piece, |Leftover(stream + Flatten(pieces), first)|);
    forall k | 0 <= k < |pieces| + 1
      ensures PieceOf((pieces + [piece])[k], input[k], |Leftover(stream + Flatten((pieces + [piece])[..k]), first)|)
    {
      Front(pieces, piece, k);
    }
  }

  lemma Front(pieces: seq<seq<byte>>, piece: seq<byte>, k: nat)
    requires k <= |pieces|
    ensures (pieces + [piece])[..k] == pieces[..k] && (k == |pieces| ==> pieces[..k] == pieces)
  {
  }

  lemma IsInScript(input: seq<ReadAnswer>, i: nat, piece: seq<byte>, last: nat)
    requires PieceOf(piece, NextRead(input, i), last)
    ensures i < |input| && input[i] == NextRead(input, i)
  {
  }

  lemma StreamGrows(stream: seq<byte>, pieces: seq<seq<byte>>, piece: seq<byte>)
    ensures (stream + Flatten(pieces)) + piece == stream + Flatten(pieces + [piece])
  {
    hide Flatten;
    FlattenSnoc(pieces, piece);
    Associative(stream, Flatten(pieces), piece);
  }

  lemma IntakeIsPiece(answer: ReadAnswer, room: nat)
    requires answer.Data? && room < MAX_BUF && Intake(answer, room) != []
    ensures PieceOf(Intake(answer, room), answer, room) && answer.bytes != []
  {
  }

  /** A signal that interrupts the very first read of a connection closes it. */
  method InterruptedReadCloses() returns (exit: RequestExit)
    ensures exit == Closed
  {
    var c := new Connection();
    var input := [ReadInterrupted];
    var inFlight, served;
    ghost var pieces;
    exit, inFlight, served, pieces := c.DoRequest(input, []);
    assert input[0] == ReadInterrupted;
    assert c.stream == [];
    assert ParseAll([], c.first) == [];
  }

  /** Two requests that arrive in one read, the reply to the first having to wait
      for the socket: the second is complete in the window, but the loop ends. */
  method SecondRequestWaits(r: Request, next: Request) returns (c: Connection, exit: RequestExit)
    requires WellFormed(r) && WellFormed(next) && !SomeValueEmpty(r.fields) && !SomeValueEmpty(next.fields)
    requires |Print(r) + Print(next)| < MAX_BUF
    ensures fresh(c) && c.Valid() && c.stream == Print(r) + Print(next)
    ensures exit == AwaitWrite && |c.handled| == 1 && !c.AllHandled()
  {
    hide ParseRequest, ParseAll, Connection.Valid, PrintLine, PrintFields, Flatten, SomeValueEmpty, PiecesOf,
         Connection.Window, Connection.Waits;
    c := new Connection();
    var data, verdicts := Print(r) + Print(next), [Stalled];
    assert VerdictAt(verdicts, 0) == Stalled;
    TwoRequests(r, next, c.first);
    var inFlight, served;
    ghost var pieces;
    exit, inFlight, served, pieces := c.DoRequest([Data(data)], verdicts);
    OnlyPiece(pieces, data, c.first);
    assert c.stream == Flatten(pieces);
    if pieces == [] {
      c.NothingCame(exit, data);
      assert false;
    } else {
      assert c.stream == data;
      assert served <= 1;
    }
  }

  /** However the printed requests are split into reads, a new connection hands
      on exactly those requests, in order, if the replies keep it open. */
  method HandlesAll(rs: seq<Request>, input: seq<ReadAnswer>, verdicts: seq<Verdict>) returns (c: Connection)
    requires Printable(rs) && forall k :: 0 <= k < |rs| - 1 ==> VerdictAt(verdicts, k) == Answered(true)
    ensures fresh(c) && (c.stream == PrintAll(rs) ==> c.handled == Turned(rs))
  {
    hide ParseAll, Connection.Valid, Connection.Window, Connection.Waits, PiecesOf, Flatten, Printable;
    c := new Connection();
    PrintedStream(rs, c.first);
    TurnedLength(rs);
    var exit, inFlight, served;
    ghost var pieces;
    exit, inFlight, served, pieces := c.DoRequest(input, verdicts);
  }

  lemma {:induction false} TurnedLength(rs: seq<Request>)
    ensures |Turned(rs)| == |rs|
  {
    if rs != [] { TurnedLength(rs[1..]); }
  }

  /** A PUT behind another request in one read: recorded with that request's method. */
  method PutIsTakenForAnother(r: Request) returns (c: Connection)
    requires WellFormed(r) && !SomeValueEmpty(r.fields) && |Print(r) + PutRequest()| < MAX_BUF
    ensures fresh(c) && |c.handled| == 2 && c.handled[1].verb == r.verb && c.handled[1].target == [SLASH]
  {
    hide ParseRequest, ParseAll, Connection.Valid, PrintLine, PrintFields, Flatten, SomeValueEmpty, PiecesOf,
         Connection.Window, Connection.Waits, PutRequest;
    c := new Connection();
    var data, verdicts := Print(r) + PutRequest(), [Answered(true), Answered(true)];
    assert VerdictAt(verdicts, 0) == Answered(true) && VerdictAt(verdicts, 1) == Answered(true);
    PutBehind(r, c.first);
    TwoRequestsAreSome(data, c.first);
    var exit, inFlight, served;
    ghost var pieces;
    exit, inFlight, served, pieces := c.DoRequest([Data(data)], verdicts);
    OnlyPiece(pieces, data, c.first);
    if pieces == [] {
      c.NothingCame(exit, data);
      assert false;
    }
    assert c.stream == data;
  }

  lemma TwoRequestsAreSome(data: seq<byte>, c: Carry)
    requires ParseAll(data, c) != []
    ensures data != [] && ParseAll([], c) == []
  {
    NoRequestInNothing(c);
  }

  lemma OnlyPiece(pieces: seq<seq<byte>>, data: seq<byte>, first: Carry)
    requires PiecesOf(pieces, [Data(data)], [], first) && |data| < MAX_BUF
    ensures (pieces == [] && Flatten(pieces) == []) || (pieces == [data] && Flatten(pieces) == data)
  {
    if pieces != [] {
      assert pieces[..0] == [] && [] + Flatten([]) == [] && Leftover([], first) == [];
      assert PieceOf(pieces[0], Data(data), 0);
      assert data[..|data|] == data && data + [] == data;
    }
  }
}
