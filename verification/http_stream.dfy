/** Requests in a byte stream: parsing front to back, and what a partly parsed
    window knows about it. */
module HttpStream {
  import opened Bytes
  import opened HttpParse
  import opened HttpLanguage
  import opened HttpPrint

  /** What one request leaves behind for the next on the same connection. */
  datatype Carry = Carry(line: Line, cur: Span)

  /** The request-line fields after the reset between requests: the positions
      are cleared, the method and the version digits stay. */
  function ResetLine(l: Line): Line {
    l.(start := None, methodEnd := None, uriStart := None, uriEnd := None, end := None)
  }

  function After(o: Outcome): Carry {
    Carry(ResetLine(o.line), o.h.cur)
  }

  /** All complete requests of a stream, front to back, up to the first that is
      incomplete or refused. */
  function ParseAll(s: seq<byte>, c: Carry): seq<Request>
    decreases |s|
  {
    var o := ParseRequest(s, c.line, c.cur);
    if o.code != Done then []
    else
      DoneAdvances(s, c);
      [Extract(s, o.line, o.h.list)] + ParseAll(s[o.pos..], After(o))
  }

  /** Two printed requests back to back are two requests. */
  lemma TwoRequests(r: Request, next: Request, c: Carry)
    requires WellFormed(r) && WellFormed(next) && !SomeValueEmpty(r.fields) && !SomeValueEmpty(next.fields)
    ensures |ParseAll(Print(r) + Print(next), c)| == 2 && ParseAll([], c) == []
  {
    hide SomeValueEmpty, Extract, PrintLine, PrintFields, ParseRequest;
    OneRequest(r, Print(next), c);
    var c2 := After(ParseRequest(Print(r) + Print(next), c.line, c.cur));
    OneRequest(next, [], c2);
    assert Print(next) + [] == Print(next);
    NoRequestInNothing(c);
    NoRequestInNothing(After(ParseRequest(Print(next), c2.line, c2.cur)));
  }

  lemma OneRequest(r: Request, rest: seq<byte>, c: Carry)
    requires WellFormed(r) && !SomeValueEmpty(r.fields)
    ensures var s := Print(r) + rest;
            |ParseAll(s, c)| == 1 + |ParseAll(rest, After(ParseRequest(s, c.line, c.cur)))|
  {
    RoundTrip(r, rest, c.line, c.cur);
    assert (Print(r) + rest)[|Print(r)|..] == rest;
  }

  /** The bytes of these requests, one behind the other. */
  function PrintAll(rs: seq<Request>): seq<byte>
    requires forall r :: r in rs ==> r.verb != Unknown
  {
    if rs == [] then [] else Print(rs[0]) + PrintAll(rs[1..])
  }

  ghost predicate Printable(rs: seq<Request>) {
    forall r :: r in rs ==> r.verb != Unknown && WellFormed(r) && !SomeValueEmpty(r.fields)
  }

  /** The requests as the parser gives them back, each with its header list reversed. */
  function Turned(rs: seq<Request>): seq<Request> {
    if rs == [] then [] else [rs[0].(fields := Reverse(rs[0].fields))] + Turned(rs[1..])
  }

  /** Printed requests are found one by one, whatever was left over from before, and nothing else is. */
  lemma {:induction false} PrintedStream(rs: seq<Request>, c: Carry)
    requires Printable(rs)
    ensures ParseAll(PrintAll(rs), c) == Turned(rs) && Leftover(PrintAll(rs), c) == []
  {
    if rs == [] {
      NoRequestInNothing(c);
    } else {
      var r, rest := rs[0], PrintAll(rs[1..]);
      RoundTrip(r, rest, c.line, c.cur);
      assert (Print(r) + rest)[|Print(r)|..] == rest;
      hide Print, ParseRequest, Extract, WellFormed, SomeValueEmpty;
      PrintedStream(rs[1..], After(ParseRequest(Print(r) + rest, c.line, c.cur)));
    }
  }

  /** "PUT / HTTP/1.1", a line feed and a blank line */
  function PutRequest(): seq<byte> {
    PUT_LINE + CRLF
  }

  lemma PutIsParsed(c: Carry)
    ensures var o := ParseRequest(PutRequest(), c.line, c.cur);
            && o.code == Done && o.pos == |PutRequest()|
            && Extract(PutRequest(), o.line, o.h.list).verb == c.line.verb
            && Extract(PutRequest(), o.line, o.h.list).target == [SLASH]
  {
    PutLine(c.line);
    SplitLine(PUT_LINE, CRLF, 0, Start, c.line);
    var s, n := PutRequest(), |PUT_LINE|;
    hide RunLine;
    assert s[n] == CR && s[n + 1] == LF;
    var h := Headers(c.cur, []);
    assert RunHeaders(s, n, HStart, h) == RunHeaders(s, n + 1, CrLfCr, h);
    assert s[4..5] == [SLASH];
  }

  /** A PUT behind another request on the same connection is recorded with that
      request's method: the reset between requests leaves the method. */
  lemma PutBehind(r: Request, c: Carry)
    requires WellFormed(r) && !SomeValueEmpty(r.fields)
    ensures var all := ParseAll(Print(r) + PutRequest(), c);
            |all| == 2 && all[0] == r.(fields := Reverse(r.fields)) && all[1].verb == r.verb && all[1].target == [SLASH]
  {
    var s := Print(r) + PutRequest();
    RoundTrip(r, PutRequest(), c.line, c.cur);
    assert s[|Print(r)|..] == PutRequest();
    var c2 := After(ParseRequest(s, c.line, c.cur));
    PutIsParsed(c2);
    assert PutRequest()[|PutRequest()|..] == [];
    NoRequestInNothing(After(ParseRequest(PutRequest(), c2.line, c2.cur)));
    hide Print, PutRequest, ParseRequest, SomeValueEmpty;
  }

  lemma NoRequestInNothing(c: Carry)
    ensures ParseRequest([], c.line, c.cur).code == Again
  {
  }

  /** What is left of a stream behind its complete requests. */
  function Leftover(s: seq<byte>, c: Carry): seq<byte>
    decreases |s|
  {
    var o := ParseRequest(s, c.line, c.cur);
    if o.code != Done then s
    else
      DoneAdvances(s, c);
      Leftover(s[o.pos..], After(o))
  }

  lemma {:induction false} LineAdvances(s: seq<byte>, p: nat, state: LineState, l: Line)
    requires p <= |s|
    ensures var r := RunLine(s, p, state, l);
            p <= r.pos <= |s| && (r.code == Done ==> p < r.pos) && (r.code == Again ==> r.pos == |s|)
    decreases |s| - p
  {
    if p < |s| {
      match StepLine(s, p, state, l)
      case LineGo(state', l') => LineAdvances(s, p + 1, state', l');
      case _ =>
    }
  }

  lemma {:induction false} HeadersAdvance(s: seq<byte>, p: nat, state: HeaderState, h: Headers)
    requires p <= |s|
    ensures var r := RunHeaders(s, p, state, h);
            p <= r.pos <= |s| && (r.code == Done ==> p < r.pos) && (r.code == Again ==> r.pos == |s|)
    decreases |s| - p
  {
    if p < |s| {
      match StepHeader(s[p], p, state, h)
      case HeaderGo(state', h') => HeadersAdvance(s, p + 1, state', h');
      case _ =>
    }
  }

  lemma DoneAdvances(s: seq<byte>, c: Carry)
    ensures var o := ParseRequest(s, c.line, c.cur);
            o.code == Done ==> 0 < o.pos <= |s|
  {
    LineAdvances(s, 0, Start, c.line);
    var a := RunLine(s, 0, Start, c.line);
    HeadersAdvance(s, a.pos, HStart, Headers(c.cur, []));
  }

  // ---------- A finished request does not depend on what follows it ----------

  lemma LineIsLocal(s: seq<byte>, k: nat, l: Line)
    requires k <= |s| && RunLine(s, 0, Start, l).code == Done && RunLine(s, 0, Start, l).pos <= k
    ensures RunLine(s[..k], 0, Start, l) == RunLine(s, 0, Start, l)
  {
    assert s == s[..k] + s[k..];
    SplitLine(s[..k], s[k..], 0, Start, l);
    var r := RunLine(s[..k], 0, Start, l);
    LineAdvances(s[..k], 0, Start, l);
    LineAdvances(s, k, r.state, r.line);
  }

  lemma HeadersAreLocal(s: seq<byte>, p: nat, k: nat, h: Headers)
    requires p <= k <= |s| && RunHeaders(s, p, HStart, h).code == Done && RunHeaders(s, p, HStart, h).pos <= k
    ensures RunHeaders(s[..k], p, HStart, h) == RunHeaders(s, p, HStart, h)
  {
    assert s == s[..k] + s[k..];
    SplitHeaders(s[..k], s[k..], p, HStart, h);
    var r := RunHeaders(s[..k], p, HStart, h);
    HeadersAdvance(s[..k], p, HStart, h);
    HeadersAdvance(s, k, r.state, r.h);
  }

  lemma RequestIsLocal(s: seq<byte>, t: seq<byte>, c: Carry)
    requires ParseRequest(s, c.line, c.cur).code == Done
    ensures var o := ParseRequest(s, c.line, c.cur);
            o.pos <= |s| && ParseRequest(s[..o.pos] + t, c.line, c.cur) == o
  {
    var o := ParseRequest(s, c.line, c.cur);
    DoneAdvances(s, c);
    var a := RunLine(s, 0, Start, c.line);
    LineAdvances(s, 0, Start, c.line);
    HeadersAdvance(s, a.pos, HStart, Headers(c.cur, []));
    LineIsLocal(s, o.pos, c.line);
    HeadersAreLocal(s, a.pos, o.pos, Headers(c.cur, []));
    SplitLine(s[..o.pos], t, 0, Start, c.line);
    SplitHeaders(s[..o.pos], t, a.pos, HStart, Headers(c.cur, []));
  }

  // ---------- Where the accepted positions lie ----------

  /** All positions a line has stored are at most p. */
  ghost predicate LineWithin(l: Line, p: nat) {
    && (l.uriStart.Some? ==> l.uriStart.value <= p)
    && (l.uriEnd.Some? ==> l.uriEnd.value <= p)
  }

  ghost predicate SpanWithin(x: Span, p: nat) {
    x.keyStart <= p && x.keyEnd <= p && x.valueStart <= p && x.valueEnd <= p
  }

  ghost predicate ListWithin(spans: seq<Span>, p: nat) {
    forall x :: x in spans ==> SpanWithin(x, p)
  }

  /** The fields of the current header that are set in this state lie before p. */
  ghost predicate CurWithin(state: HeaderState, x: Span, p: nat) {
    match state
    case HStart | CrLf | CrLfCr => true
    case Key => x.keyStart <= p
    case SpacesBeforeColon | SpacesAfterColon => x.keyStart <= p && x.keyEnd <= p
    case Value => x.keyStart <= p && x.keyEnd <= p && x.valueStart <= p
    case Cr => SpanWithin(x, p)
  }

  lemma {:induction false} LineStaysWithin(s: seq<byte>, p: nat, state: LineState, l: Line)
    requires p <= |s| && LineWithin(l, p)
    ensures var r := RunLine(s, p, state, l); LineWithin(r.line, r.pos)
    decreases |s| - p
  {
    if p < |s| {
      match StepLine(s, p, state, l)
      case LineGo(state', l') => LineStaysWithin(s, p + 1, state', l');
      case _ =>
    }
  }

  lemma {:induction false} HeadersStayWithin(s: seq<byte>, p: nat, state: HeaderState, h: Headers)
    requires p <= |s| && CurWithin(state, h.cur, p) && ListWithin(h.list, p)
    ensures var r := RunHeaders(s, p, state, h); ListWithin(r.h.list, r.pos)
    decreases |s| - p
  {
    if p < |s| {
      match StepHeader(s[p], p, state, h)
      case HeaderGo(state', h') => HeadersStayWithin(s, p + 1, state', h');
      case _ =>
    }
  }

  lemma {:induction false} TextsAreLocal(s: seq<byte>, t: seq<byte>, k: nat, spans: seq<Span>)
    requires k <= |s| && ListWithin(spans, k)
    ensures Texts(s[..k] + t, spans) == Texts(s, spans)
  {
    if spans != [] {
      var u, x := s[..k] + t, spans[0];
      assert x in spans;
      assert Slice(u, x.keyStart, x.keyEnd) == Slice(s, x.keyStart, x.keyEnd);
      assert Slice(u, x.valueStart, x.valueEnd) == Slice(s, x.valueStart, x.valueEnd);
      TextsAreLocal(s, t, k, spans[1..]);
    }
  }

  /** What a finished request says does not depend on what follows it either. */
  lemma ExtractIsLocal(s: seq<byte>, t: seq<byte>, c: Carry)
    requires ParseRequest(s, c.line, c.cur).code == Done && c.line == ResetLine(c.line)
    ensures var o := ParseRequest(s, c.line, c.cur);
            o.pos <= |s| && Extract(s[..o.pos] + t, o.line, o.h.list) == Extract(s, o.line, o.h.list)
  {
    var o := ParseRequest(s, c.line, c.cur);
    DoneAdvances(s, c);
    LineAdvances(s, 0, Start, c.line);
    LineStaysWithin(s, 0, Start, c.line);
    var a := RunLine(s, 0, Start, c.line);
    HeadersAdvance(s, a.pos, HStart, Headers(c.cur, []));
    HeadersStayWithin(s, a.pos, HStart, Headers(c.cur, []));
    TextsAreLocal(s, t, o.pos, o.h.list);
    if o.line.uriStart.Some? && o.line.uriEnd.Some? {
      var u, v := o.line.uriStart.value, o.line.uriEnd.value;
      assert Slice(s[..o.pos] + t, u, v) == Slice(s, u, v);
    }
  }

  // ---------- Requests taken off the front of the stream ----------

  /** Whatever follows the bytes `taken`, parsing front to back gives `handled`
      first and then goes on, with what c carries over, behind them. */
  ghost predicate Replays(taken: seq<byte>, first: Carry, handled: seq<Request>, c: Carry) {
    forall x :: && ParseAll(taken + x, first) == handled + ParseAll(x, c)
                && Leftover(taken + x, first) == Leftover(x, c)
  }

  lemma ReplaysNothing(first: Carry)
    ensures Replays([], first, [], first)
  {
    forall x ensures ParseAll([] + x, first) == [] + ParseAll(x, first) && Leftover([] + x, first) == Leftover(x, first) {
      assert [] + x == x;
    }
  }

  lemma OneRequestOff(s: seq<byte>, x: seq<byte>, c: Carry)
    requires ParseRequest(s, c.line, c.cur).code == Done && c.line == ResetLine(c.line)
    ensures var o := ParseRequest(s, c.line, c.cur);
            && o.pos <= |s| && ParseAll(s[..o.pos] + x, c) == [Extract(s, o.line, o.h.list)] + ParseAll(x, After(o))
            && Leftover(s[..o.pos] + x, c) == Leftover(x, After(o))
  {
    var o := ParseRequest(s, c.line, c.cur);
    DoneAdvances(s, c);
    RequestIsLocal(s, x, c);
    ExtractIsLocal(s, x, c);
    assert (s[..o.pos] + x)[o.pos..] == x;
  }

  lemma ReplaysOneMore(taken: seq<byte>, first: Carry, handled: seq<Request>, c: Carry, s: seq<byte>)
    requires Replays(taken, first, handled, c) && c.line == ResetLine(c.line)
    requires ParseRequest(s, c.line, c.cur).code == Done
    ensures var o := ParseRequest(s, c.line, c.cur);
            o.pos <= |s| && Replays(taken + s[..o.pos], first, handled + [Extract(s, o.line, o.h.list)], After(o))
  {
    var o := ParseRequest(s, c.line, c.cur);
    DoneAdvances(s, c);
    hide ParseRequest, ParseAll, Leftover, Extract;
    var front, r := s[..o.pos], Extract(s, o.line, o.h.list);
    forall x
      ensures ParseAll(taken + front + x, first) == handled + [r] + ParseAll(x, After(o))
      ensures Leftover(taken + front + x, first) == Leftover(x, After(o))
    {
      OneRequestOff(s, x, c);
      assert taken + front + x == taken + (front + x);
      assert handled + ([r] + ParseAll(x, After(o))) == handled + [r] + ParseAll(x, After(o));
    }
  }

  // ---------- Resuming: the parser's own state between reads ----------

  /** Phase 0 is the request line, 1 the header block, 2 a complete request. */
  datatype Parser = Parser(phase: nat, pos: nat, lineState: LineState, line: Line,
                           headerState: HeaderState, headers: Headers)

  datatype Progress = Progress(code: Code, parser: Parser)

  function Fresh(c: Carry): Parser {
    Parser(0, 0, Start, c.line, HStart, Headers(c.cur, []))
  }

  /** Continues with the window s.  When a byte is refused the cursor and the
      automaton state stay as this call found them. */
  function Resume(p: Parser, s: seq<byte>): Progress {
    if p.phase == 0 then
      var r := RunLine(s, p.pos, p.lineState, p.line);
      if r.code == Again then Progress(Again, p.(pos := r.pos, lineState := r.state, line := r.line))
      else if r.code == Done then ResumeHeaders(p.(phase := 1, pos := r.pos, lineState := Start, line := r.line), s)
      else Progress(r.code, p.(line := r.line))
    else ResumeHeaders(p, s)
  }

  function ResumeHeaders(p: Parser, s: seq<byte>): Progress {
    var r := RunHeaders(s, p.pos, p.headerState, p.headers);
    if r.code == Again then Progress(Again, p.(pos := r.pos, headerState := r.state, headers := r.h))
    else if r.code == Done then Progress(Done, p.(phase := 2, pos := r.pos, headerState := HStart, headers := r.h))
    else Progress(r.code, p.(headers := r.h))
  }

  /** The same result code, method, version, positions and header list; and the
      same cursor and states unless a byte was refused. */
  ghost predicate SameOutcome(a: Progress, b: Progress) {
    && a.code == b.code && a.parser.line == b.parser.line && a.parser.headers == b.parser.headers
    && (a.code == Again || a.code == Done ==> a == b)
  }

  lemma ResumeHeadersSplit(p: Parser, s: seq<byte>, t: seq<byte>)
    requires p.pos <= |s|
    ensures var a := ResumeHeaders(p, s);
            && p.pos <= a.parser.pos <= |s|
            && if a.code == Again
               then a.parser.phase == p.phase && SameOutcome(ResumeHeaders(a.parser, s + t), ResumeHeaders(p, s + t))
               else ResumeHeaders(p, s + t) == a
  {
    HeadersAdvance(s, p.pos, p.headerState, p.headers);
    SplitHeaders(s, t, p.pos, p.headerState, p.headers);
  }

  /** Stopping at the end of s and resuming with more is the same as having had it all at once. */
  lemma ResumeSplit(p: Parser, s: seq<byte>, t: seq<byte>)
    requires p.pos <= |s| && p.phase <= 1
    ensures var a := Resume(p, s);
            && a.parser.pos <= |s|
            && if a.code == Again then a.parser.phase <= 1 && SameOutcome(Resume(a.parser, s + t), Resume(p, s + t))
               else Resume(p, s + t) == a
  {
    if p.phase == 0 {
      LineAdvances(s, p.pos, p.lineState, p.line);
      SplitLine(s, t, p.pos, p.lineState, p.line);
      var r := RunLine(s, p.pos, p.lineState, p.line);
      if r.code == Done {
        ResumeHeadersSplit(p.(phase := 1, pos := r.pos, lineState := Start, line := r.line), s, t);
      }
    } else {
      ResumeHeadersSplit(p, s, t);
    }
  }

  function Flatten(pieces: seq<seq<byte>>): seq<byte> {
    if pieces == [] then [] else pieces[0] + Flatten(pieces[1..])
  }

  /** Feeds one piece after the other behind the bytes already in the window w. */
  function Feed(p: Parser, w: seq<byte>, pieces: seq<seq<byte>>): Progress
    decreases |pieces|
  {
    if pieces == [] then Progress(Again, p)
    else
      var a := Resume(p, w + pieces[0]);
      if a.code == Again then Feed(a.parser, w + pieces[0], pieces[1..]) else a
  }

  /** However the input is cut into pieces, the outcome is that of feeding it in one go. */
  lemma {:induction false} PiecesDoNotMatter(p: Parser, w: seq<byte>, pieces: seq<seq<byte>>)
    requires p.pos <= |w| && p.phase <= 1 && pieces != []
    ensures SameOutcome(Feed(p, w, pieces), Resume(p, w + Flatten(pieces)))
    decreases |pieces|
  {
    var v := w + pieces[0];
    var rest := Flatten(pieces[1..]);
    assert w + Flatten(pieces) == v + rest;
    ResumeSplit(p, v, rest);
    var a := Resume(p, v);
    if a.code == Again {
      if |pieces| == 1 {
        assert v + rest == v;
        assert Feed(a.parser, v, pieces[1..]) == a;
      } else {
        PiecesDoNotMatter(a.parser, v, pieces[1..]);
      }
    }
  }

  /** From the start, resuming to completion is parsing one request. */
  lemma ResumeIsParse(c: Carry, s: seq<byte>)
    ensures var a, o := Resume(Fresh(c), s), ParseRequest(s, c.line, c.cur);
            && a.code == o.code
            && (a.code == Done ==> a.parser == Parser(2, o.pos, Start, o.line, HStart, o.h))
  {
  }

  /** Asking for more means the whole window has been looked at. */
  lemma AgainAtEnd(p: Parser, s: seq<byte>)
    requires p.pos <= |s| && Resume(p, s).code == Again
    ensures Resume(p, s).parser.pos == |s|
  {
    LineAdvances(s, p.pos, p.lineState, p.line);
    var r := RunLine(s, p.pos, p.lineState, p.line);
    HeadersAdvance(s, r.pos, p.headerState, p.headers);
    HeadersAdvance(s, p.pos, p.headerState, p.headers);
  }

  lemma HandledIsPrefix(taken: seq<byte>, rest: seq<byte>, first: Carry, handled: seq<Request>, c: Carry)
    requires Replays(taken, first, handled, c)
    ensures handled <= ParseAll(taken + rest, first)
  {
  }
}
