/** The resumable parser of request lines and header blocks.  It reads a window
    of the connection's input; positions are offsets into that window. */
module HttpParse {
  import opened Bytes

  const GET: seq<byte> := [71, 69, 84]
  const HEAD: seq<byte> := [72, 69, 65, 68]
  const POST: seq<byte> := [80, 79, 83, 84]

  datatype Method = Unknown | Get | Head | Post

  datatype Code = Again | Done | InvalidMethod | InvalidRequest | InvalidHeader

  datatype LineState =
    | Start | InMethod | SpacesBeforeUri | InUri | BeforeHttp | H | HT | HTT | HTTP
    | FirstMajor | InMajor | FirstMinor | InMinor | SpacesAfterMinor | AlmostDone

  /** The fields the request line fills in. */
  datatype Line = Line(start: Option<nat>, methodEnd: Option<nat>, verb: Method,
                       uriStart: Option<nat>, uriEnd: Option<nat>, major: nat, minor: nat, end: Option<nat>)

  datatype LineStep = LineGo(state: LineState, line: Line) | LineEnd(line: Line) | LineBad(code: Code, line: Line)

  predicate MethodByte(c: byte) {
    65 <= c <= 90 || c == 95
  }

  predicate Digit(c: byte) {
    48 <= c <= 57
  }

  /** The bytes between the start of the request and p. */
  function Token(s: seq<byte>, line: Line, p: nat): seq<byte> {
    if line.start.Some? && line.start.value <= p <= |s| then s[line.start.value..p] else []
  }

  /** The method a token stands for.  A token of three or four bytes that is not
      one of the known ones leaves the method as it was. */
  function MethodAfter(token: seq<byte>, prior: Method): Method {
    if |token| == 3 then (if token == GET then Get else prior)
    else if |token| == 4 then (if token == POST then Post else if token == HEAD then Head else prior)
    else Unknown
  }

  /** One byte of the request line, at position p of the window s. */
  function StepLine(s: seq<byte>, p: nat, state: LineState, l: Line): LineStep
    requires p < |s|
  {
    var c := s[p];
    match state
    case Start =>
      var l' := l.(start := Some(p));
      if c == CR || c == LF then LineGo(Start, l')
      else if !MethodByte(c) then LineBad(InvalidMethod, l')
      else LineGo(InMethod, l')
    case InMethod =>
      if c == SP then
        LineGo(SpacesBeforeUri, l.(methodEnd := Some(p), verb := MethodAfter(Token(s, l, p), l.verb)))
      else if !MethodByte(c) then LineBad(InvalidMethod, l)
      else LineGo(InMethod, l)
    case SpacesBeforeUri =>
      if c == SLASH then LineGo(InUri, l.(uriStart := Some(p)))
      else if c == SP then LineGo(SpacesBeforeUri, l)
      else LineBad(InvalidRequest, l)
    case InUri =>
      if c == SP then LineGo(BeforeHttp, l.(uriEnd := Some(p))) else LineGo(InUri, l)
    case BeforeHttp =>
      if c == SP then LineGo(BeforeHttp, l) else if c == 72 then LineGo(H, l) else LineBad(InvalidRequest, l)
    case H => if c == 84 then LineGo(HT, l) else LineBad(InvalidRequest, l)
    case HT => if c == 84 then LineGo(HTT, l) else LineBad(InvalidRequest, l)
    case HTT => if c == 80 then LineGo(HTTP, l) else LineBad(InvalidRequest, l)
    case HTTP => if c == SLASH then LineGo(FirstMajor, l) else LineBad(InvalidRequest, l)
    case FirstMajor =>
      if !Digit(c) || c == 48 then LineBad(InvalidRequest, l) else LineGo(InMajor, l.(major := c - 48))
    case InMajor =>
      if c == DOT then LineGo(FirstMinor, l)
      else if !Digit(c) then LineBad(InvalidRequest, l)
      else LineGo(InMajor, l.(major := l.major * 10 + (c - 48)))
    case FirstMinor =>
      if !Digit(c) then LineBad(InvalidRequest, l) else LineGo(InMinor, l.(minor := c - 48))
    case InMinor =>
      if c == CR then LineGo(AlmostDone, l)
      else if c == LF then EndLine(p, l)
      else if c == SP then LineGo(SpacesAfterMinor, l)
      else if !Digit(c) then LineBad(InvalidRequest, l)
      else LineGo(InMinor, l.(minor := l.minor * 10 + (c - 48)))
    case SpacesAfterMinor =>
      if c == SP then LineGo(SpacesAfterMinor, l)
      else if c == CR then LineGo(AlmostDone, l)
      else if c == LF then EndLine(p, l)
      else LineBad(InvalidRequest, l)
    case AlmostDone =>
      var l' := l.(end := if p == 0 then None else Some(p - 1));
      if c == LF then EndLine(p, l') else LineBad(InvalidRequest, l')
  }

  function EndLine(p: nat, l: Line): LineStep {
    LineEnd(if l.end.None? then l.(end := Some(p)) else l)
  }

  datatype LineResult = LineResult(code: Code, pos: nat, state: LineState, line: Line)

  /** Runs over the window from p on.  Stops behind the line, at the end of the
      window, or at a byte that does not belong there. */
  function RunLine(s: seq<byte>, p: nat, state: LineState, l: Line): LineResult
    decreases |s| - p
  {
    if p >= |s| then LineResult(Again, p, state, l)
    else
      match StepLine(s, p, state, l)
      case LineGo(state', l') => RunLine(s, p + 1, state', l')
      case LineEnd(l') => LineResult(Done, p + 1, Start, l')
      case LineBad(code, l') => LineResult(code, p, state, l')
  }

  datatype HeaderState = HStart | Key | SpacesBeforeColon | SpacesAfterColon | Value | Cr | CrLf | CrLfCr

  /** Where a header's key and value lie in the window. */
  datatype Span = Span(keyStart: nat, keyEnd: nat, valueStart: nat, valueEnd: nat)

  datatype Headers = Headers(cur: Span, list: seq<Span>)

  datatype HeaderStep = HeaderGo(state: HeaderState, h: Headers) | HeaderEnd | HeaderBad

  /** One byte of the header block.  A finished header goes to the front of the list. */
  function StepHeader(c: byte, p: nat, state: HeaderState, h: Headers): HeaderStep {
    match state
    case HStart =>
      if c == CR then HeaderGo(CrLfCr, h)
      else if c == LF then HeaderBad
      else HeaderGo(Key, h.(cur := h.cur.(keyStart := p)))
    case Key =>
      if c == SP then HeaderGo(SpacesBeforeColon, h.(cur := h.cur.(keyEnd := p)))
      else if c == COLON then HeaderGo(SpacesAfterColon, h.(cur := h.cur.(keyEnd := p)))
      else HeaderGo(Key, h)
    case SpacesBeforeColon =>
      if c == SP then HeaderGo(SpacesBeforeColon, h)
      else if c == COLON then HeaderGo(SpacesAfterColon, h)
      else HeaderBad
    case SpacesAfterColon =>
      if c == SP then HeaderGo(SpacesAfterColon, h)
      else HeaderGo(Value, h.(cur := h.cur.(valueStart := p)))
    case Value =>
      if c == CR then HeaderGo(Cr, h.(cur := h.cur.(valueEnd := p)))
      else if c == LF then HeaderBad
      else HeaderGo(Value, h)
    case Cr =>
      if c == LF then HeaderGo(CrLf, h.(list := [h.cur] + h.list)) else HeaderBad
    case CrLf =>
      if c == CR then HeaderGo(CrLfCr, h) else HeaderGo(Key, h.(cur := h.cur.(keyStart := p)))
    case CrLfCr =>
      if c == LF then HeaderEnd else HeaderBad
  }

  datatype HeaderResult = HeaderResult(code: Code, pos: nat, state: HeaderState, h: Headers)

  function RunHeaders(s: seq<byte>, p: nat, state: HeaderState, h: Headers): HeaderResult
    decreases |s| - p
  {
    if p >= |s| then HeaderResult(Again, p, state, h)
    else
      match StepHeader(s[p], p, state, h)
      case HeaderGo(state', h') => RunHeaders(s, p + 1, state', h')
      case HeaderEnd => HeaderResult(Done, p + 1, HStart, h)
      case HeaderBad => HeaderResult(InvalidHeader, p, state, h)
  }

  // ---------- Splitting the input ----------

  lemma SameStep(s: seq<byte>, t: seq<byte>, p: nat, state: LineState, l: Line)
    requires p < |s|
    ensures StepLine(s + t, p, state, l) == StepLine(s, p, state, l)
  {
    assert Token(s + t, l, p) == Token(s, l, p);
  }

  lemma {:induction false} SplitLine(s: seq<byte>, t: seq<byte>, p: nat, state: LineState, l: Line)
    requires p <= |s|
    ensures RunLine(s + t, p, state, l) ==
            var r := RunLine(s, p, state, l);
            if r.code == Again then RunLine(s + t, |s|, r.state, r.line) else r
    decreases |s| - p
  {
    if p < |s| {
      SameStep(s, t, p, state, l);
      hide StepLine, Token;
      match StepLine(s, p, state, l)
      case LineGo(state', l') => SplitLine(s, t, p + 1, state', l');
      case _ =>
    }
  }

  lemma {:induction false} SplitHeaders(s: seq<byte>, t: seq<byte>, p: nat, state: HeaderState, h: Headers)
    requires p <= |s|
    ensures RunHeaders(s + t, p, state, h) ==
            var r := RunHeaders(s, p, state, h);
            if r.code == Again then RunHeaders(s + t, |s|, r.state, r.h) else r
    decreases |s| - p
  {
    hide StepHeader;
    if p < |s| {
      match StepHeader(s[p], p, state, h)
      case HeaderGo(state', h') => SplitHeaders(s, t, p + 1, state', h');
      case _ =>
    }
  }
}
