/** The language the two automata accept, stated without them: a shape says
    where each part of a request line or header line begins and ends. */
module HttpLanguage {
  import opened Bytes
  import opened HttpParse

  datatype Class = Newlines | MethodBytes | Spaces | NoSpace | Digits | KeyBytes | ValueBytes

  predicate In(c: byte, k: Class) {
    match k
    case Newlines => c == CR || c == LF
    case MethodBytes => 65 <= c <= 90 || c == 95
    case Spaces => c == SP
    case NoSpace => c != SP
    case Digits => 48 <= c <= 57
    case KeyBytes => c != SP && c != COLON
    case ValueBytes => c != CR && c != LF
  }

  ghost predicate All(s: seq<byte>, p: nat, q: nat, k: Class) {
    p <= q <= |s| && forall i :: p <= i < q ==> In(s[i], k)
  }

  /** The first position from p on whose byte is not of class k. */
  function Skip(s: seq<byte>, p: nat, k: Class): nat
    decreases |s| - p
  {
    if p >= |s| || !In(s[p], k) then p else Skip(s, p + 1, k)
  }

  lemma {:induction false} SkipIs(s: seq<byte>, p: nat, q: nat, k: Class)
    requires All(s, p, q, k) && (q < |s| ==> !In(s[q], k))
    ensures Skip(s, p, k) == q
    decreases q - p
  {
    if p < q { SkipIs(s, p + 1, q, k); }
  }

  lemma {:induction false} SkipMeaning(s: seq<byte>, p: nat, k: Class)
    requires p <= |s|
    ensures All(s, p, Skip(s, p, k), k)
    ensures Skip(s, p, k) < |s| ==> !In(s[Skip(s, p, k)], k)
    decreases |s| - p
  {
    if p < |s| && In(s[p], k) { SkipMeaning(s, p + 1, k); }
  }

  /** The decimal digits of s[p..q] appended to acc. */
  function Number(s: seq<byte>, p: nat, q: nat, acc: nat): nat
    requires q <= |s|
    decreases q - p
  {
    if p >= q || !Digit(s[p]) then acc else Number(s, p + 1, q, acc * 10 + (s[p] - 48))
  }

  // ---------- One equation for each run of equal states ----------

  lemma {:induction false} RunStart(s: seq<byte>, p: nat, l: Line)
    requires p <= |s|
    ensures var a := Skip(s, p, Newlines);
            if a < |s| then RunLine(s, p, Start, l) == RunLine(s, a, Start, l)
            else RunLine(s, p, Start, l).code == Again
    decreases |s| - p
  {
    SkipMeaning(s, p, Newlines);
    if p < |s| && In(s[p], Newlines) {
      RunStart(s, p + 1, l.(start := Some(p)));
    }
  }

  lemma {:induction false} RunMethod(s: seq<byte>, p: nat, l: Line)
    requires p <= |s|
    ensures var b := Skip(s, p, MethodBytes);
            b < |s| ==> RunLine(s, p, InMethod, l) == RunLine(s, b, InMethod, l)
    ensures Skip(s, p, MethodBytes) >= |s| ==> RunLine(s, p, InMethod, l).code == Again
    decreases |s| - p
  {
    if p < |s| && In(s[p], MethodBytes) { RunMethod(s, p + 1, l); }
  }

  lemma {:induction false} RunSpaces(s: seq<byte>, p: nat, state: LineState, l: Line)
    requires p <= |s| && (state == SpacesBeforeUri || state == BeforeHttp || state == SpacesAfterMinor)
    ensures var b := Skip(s, p, Spaces);
            if b < |s| then RunLine(s, p, state, l) == RunLine(s, b, state, l)
            else RunLine(s, p, state, l).code == Again
    decreases |s| - p
  {
    if p < |s| && In(s[p], Spaces) { RunSpaces(s, p + 1, state, l); }
  }

  lemma {:induction false} RunUri(s: seq<byte>, p: nat, l: Line)
    requires p <= |s|
    ensures var b := Skip(s, p, NoSpace);
            if b < |s| then RunLine(s, p, InUri, l) == RunLine(s, b, InUri, l)
            else RunLine(s, p, InUri, l).code == Again
    decreases |s| - p
  {
    if p < |s| && In(s[p], NoSpace) { RunUri(s, p + 1, l); }
  }

  lemma {:induction false} RunMajor(s: seq<byte>, p: nat, l: Line)
    requires p <= |s|
    ensures var b := Skip(s, p, Digits);
            if b < |s| then RunLine(s, p, InMajor, l) == RunLine(s, b, InMajor, l.(major := Number(s, p, b, l.major)))
            else RunLine(s, p, InMajor, l).code == Again
    decreases |s| - p
  {
    if p < |s| && In(s[p], Digits) {
      SkipMeaning(s, p + 1, Digits);
      RunMajor(s, p + 1, l.(major := l.major * 10 + (s[p] - 48)));
    }
  }

  lemma {:induction false} RunMinor(s: seq<byte>, p: nat, l: Line)
    requires p <= |s|
    ensures var b := Skip(s, p, Digits);
            if b < |s| then RunLine(s, p, InMinor, l) == RunLine(s, b, InMinor, l.(minor := Number(s, p, b, l.minor)))
            else RunLine(s, p, InMinor, l).code == Again
    decreases |s| - p
  {
    if p < |s| && In(s[p], Digits) {
      SkipMeaning(s, p + 1, Digits);
      RunMinor(s, p + 1, l.(minor := l.minor * 10 + (s[p] - 48)));
    }
  }

  // ---------- The request line ----------

  /** Blank lines up to start, a method up to methodEnd, spaces, a target from
      uri to uriEnd, spaces, "HTTP/" at http, a major number up to the dot, a
      minor number up to minorEnd, and spaces up to the line end, which is CR LF or LF. */
  datatype Shape = Shape(start: nat, methodEnd: nat, uri: nat, uriEnd: nat, http: nat,
                         dot: nat, minorEnd: nat, eol: nat, crlf: bool)
  {
    function End(): nat {
      if crlf then eol + 2 else eol + 1
    }
  }

  const HTTP_SLASH: seq<byte> := [72, 84, 84, 80, 47]

  ghost predicate FitsFront(s: seq<byte>, p: nat, f: Shape) {
    && All(s, p, f.start, Newlines)
    && f.start < f.methodEnd && All(s, f.start, f.methodEnd, MethodBytes)
    && f.methodEnd < f.uri && All(s, f.methodEnd, f.uri, Spaces)
    && f.uri < f.uriEnd && f.uriEnd < |s| && s[f.uri] == SLASH && All(s, f.uri, f.uriEnd, NoSpace)
    && f.uriEnd < f.http && All(s, f.uriEnd, f.http, Spaces)
  }

  ghost predicate FitsBack(s: seq<byte>, f: Shape) {
    && f.http + 5 < f.dot < |s| && s[f.http..f.http + 5] == HTTP_SLASH
    && All(s, f.http + 5, f.dot, Digits) && s[f.http + 5] != 48 && s[f.dot] == DOT
    && f.dot + 1 < f.minorEnd && All(s, f.dot + 1, f.minorEnd, Digits)
    && All(s, f.minorEnd, f.eol, Spaces)
    && f.End() <= |s| && (if f.crlf then s[f.eol] == CR && s[f.eol + 1] == LF else s[f.eol] == LF)
  }

  ghost predicate Fits(s: seq<byte>, p: nat, f: Shape) {
    FitsFront(s, p, f) && FitsBack(s, f)
  }

  /** The fields of a line of shape f read on top of the fields l. */
  function FrontFields(s: seq<byte>, f: Shape, l: Line): Line
    requires f.start <= f.methodEnd <= |s|
  {
    l.(start := Some(f.start), methodEnd := Some(f.methodEnd), verb := MethodAfter(s[f.start..f.methodEnd], l.verb),
       uriStart := Some(f.uri), uriEnd := Some(f.uriEnd))
  }

  ghost function Fields(s: seq<byte>, f: Shape, l: Line): Line
    requires f.start <= f.methodEnd <= |s| && FitsBack(s, f)
  {
    FrontFields(s, f, l).(major := Number(s, f.http + 5, f.dot, 0), minor := Number(s, f.dot + 1, f.minorEnd, 0),
                          end := if f.crlf then Some(f.eol) else if l.end.Some? then l.end else Some(f.eol))
  }

  // ---------- Each part, forwards: bytes of the right shape carry the automaton on ----------

  lemma TakeStart(s: seq<byte>, p: nat, a: nat, l: Line)
    requires All(s, p, a, Newlines) && a < |s| && MethodByte(s[a])
    ensures RunLine(s, p, Start, l) == RunLine(s, a + 1, InMethod, l.(start := Some(a)))
  {
    SkipIs(s, p, a, Newlines);
    RunStart(s, p, l);
  }

  lemma TakeMethod(s: seq<byte>, p: nat, b: nat, l: Line)
    requires All(s, p, b, MethodBytes) && b < |s| && s[b] == SP
    ensures RunLine(s, p, InMethod, l) ==
            RunLine(s, b + 1, SpacesBeforeUri, l.(methodEnd := Some(b), verb := MethodAfter(Token(s, l, b), l.verb)))
  {
    SkipIs(s, p, b, MethodBytes);
    RunMethod(s, p, l);
  }

  lemma TakeTarget(s: seq<byte>, p: nat, u: nat, v: nat, l: Line)
    requires All(s, p, u, Spaces) && u < v && All(s, u, v, NoSpace) && s[u] == SLASH && v < |s| && s[v] == SP
    ensures RunLine(s, p, SpacesBeforeUri, l) ==
            RunLine(s, v + 1, BeforeHttp, l.(uriStart := Some(u), uriEnd := Some(v)))
  {
    SkipIs(s, p, u, Spaces);
    RunSpaces(s, p, SpacesBeforeUri, l);
    SkipIs(s, u + 1, v, NoSpace);
    RunUri(s, u + 1, l.(uriStart := Some(u)));
  }

  lemma TakeHttp(s: seq<byte>, p: nat, h: nat, l: Line)
    requires All(s, p, h, Spaces) && h + 5 <= |s| && s[h..h + 5] == HTTP_SLASH
    ensures RunLine(s, p, BeforeHttp, l) == RunLine(s, h + 5, FirstMajor, l)
  {
    assert s[h] == HTTP_SLASH[0] && s[h + 1] == HTTP_SLASH[1] && s[h + 2] == HTTP_SLASH[2];
    assert s[h + 3] == HTTP_SLASH[3] && s[h + 4] == HTTP_SLASH[4];
    SkipIs(s, p, h, Spaces);
    RunSpaces(s, p, BeforeHttp, l);
    assert RunLine(s, h, BeforeHttp, l) == RunLine(s, h + 2, HT, l);
    assert RunLine(s, h + 2, HT, l) == RunLine(s, h + 4, HTTP, l);
  }

  lemma OneStep(s: seq<byte>, p: nat, state: LineState, l: Line)
    requires p < |s| && StepLine(s, p, state, l).LineGo?
    ensures RunLine(s, p, state, l) == RunLine(s, p + 1, StepLine(s, p, state, l).state, StepLine(s, p, state, l).line)
  {
  }

  lemma TakeDigits(s: seq<byte>, p: nat, d: nat, l: Line)
    requires p < d < |s| && All(s, p, d, Digits) && s[p] != 48 && s[d] == DOT
    ensures RunLine(s, p + 1, InMajor, l.(major := s[p] - 48)) == RunLine(s, d, InMajor, l.(major := Number(s, p, d, 0)))
  {
    hide RunLine;
    SkipIs(s, p + 1, d, Digits);
    RunMajor(s, p + 1, l.(major := s[p] - 48));
  }

  lemma TakeVersion(s: seq<byte>, p: nat, d: nat, m: nat, l: Line)
    requires p < d < |s| && All(s, p, d, Digits) && s[p] != 48 && s[d] == DOT
    requires d + 1 < m < |s| && All(s, d + 1, m, Digits) && !Digit(s[m])
    ensures RunLine(s, p, FirstMajor, l) ==
            RunLine(s, m, InMinor, l.(major := Number(s, p, d, 0), minor := Number(s, d + 1, m, 0)))
  {
    OneStep(s, p, FirstMajor, l);
    TakeDigits(s, p, d, l);
    var l1 := l.(major := Number(s, p, d, 0));
    OneStep(s, d, InMajor, l1);
    OneStep(s, d + 1, FirstMinor, l1);
    hide RunLine;
    SkipIs(s, d + 2, m, Digits);
    RunMinor(s, d + 2, l1.(minor := s[d + 1] - 48));
  }

  lemma TakeEol(s: seq<byte>, p: nat, e: nat, crlf: bool, l: Line)
    requires All(s, p, e, Spaces) && e < |s|
    requires if crlf then e + 1 < |s| && s[e] == CR && s[e + 1] == LF else s[e] == LF
    ensures RunLine(s, p, InMinor, l) ==
            LineResult(Done, if crlf then e + 2 else e + 1, Start,
                       l.(end := if crlf then Some(e) else if l.end.Some? then l.end else Some(e)))
  {
    if p < e {
      SkipIs(s, p + 1, e, Spaces);
      RunSpaces(s, p + 1, SpacesAfterMinor, l);
    }
  }

  /** A line of shape f is accepted, ends where the shape ends, and its fields are those of the shape. */
  lemma ShapeIsAccepted(s: seq<byte>, p: nat, f: Shape, l: Line)
    requires Fits(s, p, f)
    ensures RunLine(s, p, Start, l) == LineResult(Done, f.End(), Start, Fields(s, f, l))
  {
    hide RunLine, Number, MethodAfter, FitsBack;
    TakeStart(s, p, f.start, l);
    var l1 := l.(start := Some(f.start));
    TakeMethod(s, f.start + 1, f.methodEnd, l1);
    var l2 := l1.(methodEnd := Some(f.methodEnd), verb := MethodAfter(s[f.start..f.methodEnd], l.verb));
    TakeTarget(s, f.methodEnd + 1, f.uri, f.uriEnd, l2);
    BackIsAccepted(s, f, l2.(uriStart := Some(f.uri), uriEnd := Some(f.uriEnd)));
  }

  lemma BackIsAccepted(s: seq<byte>, f: Shape, l: Line)
    requires f.uriEnd < f.http && All(s, f.uriEnd, f.http, Spaces) && FitsBack(s, f)
    ensures RunLine(s, f.uriEnd + 1, BeforeHttp, l) ==
            LineResult(Done, f.End(), Start,
                       l.(major := Number(s, f.http + 5, f.dot, 0), minor := Number(s, f.dot + 1, f.minorEnd, 0),
                          end := if f.crlf then Some(f.eol) else if l.end.Some? then l.end else Some(f.eol)))
  {
    hide RunLine, Number;
    TakeHttp(s, f.uriEnd + 1, f.http, l);
    TakeVersion(s, f.http + 5, f.dot, f.minorEnd, l);
    var l1 := l.(major := Number(s, f.http + 5, f.dot, 0), minor := Number(s, f.dot + 1, f.minorEnd, 0));
    TakeEol(s, f.minorEnd, f.eol, f.crlf, l1);
  }

  // ---------- Each part, backwards: an accepting run has seen bytes of the right shape ----------

  lemma NeedStart(s: seq<byte>, p: nat, l: Line) returns (a: nat)
    requires p <= |s| && RunLine(s, p, Start, l).code == Done
    ensures All(s, p, a, Newlines) && a < |s| && MethodByte(s[a])
  {
    a := Skip(s, p, Newlines);
    SkipMeaning(s, p, Newlines);
    RunStart(s, p, l);
  }

  lemma NeedMethod(s: seq<byte>, p: nat, l: Line) returns (b: nat)
    requires p <= |s| && RunLine(s, p, InMethod, l).code == Done
    ensures All(s, p, b, MethodBytes) && b < |s| && s[b] == SP
  {
    b := Skip(s, p, MethodBytes);
    SkipMeaning(s, p, MethodBytes);
    RunMethod(s, p, l);
  }

  lemma NeedTarget(s: seq<byte>, p: nat, l: Line) returns (u: nat, v: nat)
    requires p <= |s| && RunLine(s, p, SpacesBeforeUri, l).code == Done
    ensures All(s, p, u, Spaces) && u < v && All(s, u, v, NoSpace) && s[u] == SLASH && v < |s| && s[v] == SP
  {
    u := Skip(s, p, Spaces);
    SkipMeaning(s, p, Spaces);
    RunSpaces(s, p, SpacesBeforeUri, l);
    v := Skip(s, u + 1, NoSpace);
    SkipMeaning(s, u + 1, NoSpace);
    RunUri(s, u + 1, l.(uriStart := Some(u)));
  }

  lemma NeedHttp(s: seq<byte>, p: nat, l: Line) returns (h: nat)
    requires p <= |s| && RunLine(s, p, BeforeHttp, l).code == Done
    ensures All(s, p, h, Spaces) && h + 5 <= |s| && s[h..h + 5] == HTTP_SLASH
  {
    h := Skip(s, p, Spaces);
    SkipMeaning(s, p, Spaces);
    RunSpaces(s, p, BeforeHttp, l);
    assert RunLine(s, h, BeforeHttp, l) == RunLine(s, h + 1, H, l);
    assert RunLine(s, h + 1, H, l) == RunLine(s, h + 2, HT, l);
    assert RunLine(s, h + 2, HT, l) == RunLine(s, h + 3, HTT, l);
    assert RunLine(s, h + 3, HTT, l) == RunLine(s, h + 4, HTTP, l);
    assert RunLine(s, h + 4, HTTP, l) == RunLine(s, h + 5, FirstMajor, l);
  }

  lemma NeedMajor(s: seq<byte>, p: nat, l: Line) returns (d: nat)
    requires p <= |s| && RunLine(s, p, FirstMajor, l).code == Done
    ensures p < d < |s| && All(s, p, d, Digits) && s[p] != 48 && s[d] == DOT
    ensures RunLine(s, d + 1, FirstMinor, l.(major := Number(s, p, d, 0))).code == Done
  {
    assert p < |s|;
    OneStep(s, p, FirstMajor, l);
    hide RunLine;
    d := Skip(s, p + 1, Digits);
    SkipMeaning(s, p + 1, Digits);
    RunMajor(s, p + 1, l.(major := s[p] - 48));
    OneStep(s, d, InMajor, l.(major := Number(s, p, d, 0)));
  }

  lemma NeedMinor(s: seq<byte>, p: nat, l: Line) returns (m: nat)
    requires p <= |s| && RunLine(s, p, FirstMinor, l).code == Done
    ensures p < m < |s| && All(s, p, m, Digits) && !Digit(s[m])
  {
    assert p < |s|;
    OneStep(s, p, FirstMinor, l);
    hide RunLine;
    m := Skip(s, p + 1, Digits);
    SkipMeaning(s, p + 1, Digits);
    RunMinor(s, p + 1, l.(minor := s[p] - 48));
  }

  lemma NeedVersion(s: seq<byte>, p: nat, l: Line) returns (d: nat, m: nat)
    requires p <= |s| && RunLine(s, p, FirstMajor, l).code == Done
    ensures p < d < |s| && All(s, p, d, Digits) && s[p] != 48 && s[d] == DOT
    ensures d + 1 < m < |s| && All(s, d + 1, m, Digits) && !Digit(s[m])
  {
    d := NeedMajor(s, p, l);
    m := NeedMinor(s, d + 1, l.(major := Number(s, p, d, 0)));
  }

  lemma NeedEol(s: seq<byte>, p: nat, l: Line) returns (e: nat, crlf: bool)
    requires p < |s| && RunLine(s, p, InMinor, l).code == Done && !Digit(s[p])
    ensures All(s, p, e, Spaces) && e < |s|
    ensures if crlf then e + 1 < |s| && s[e] == CR && s[e + 1] == LF else s[e] == LF
  {
    e := Skip(s, p, Spaces);
    SkipMeaning(s, p, Spaces);
    if p < e {
      assert Skip(s, p + 1, Spaces) == e;
      RunSpaces(s, p + 1, SpacesAfterMinor, l);
    }
    crlf := s[e] == CR;
  }

  /** Every accepted line has a shape. */
  lemma AcceptedHasShape(s: seq<byte>, p: nat, l: Line) returns (f: Shape)
    requires p <= |s| && RunLine(s, p, Start, l).code == Done
    ensures Fits(s, p, f)
  {
    hide RunLine, Number, MethodAfter;
    var a := NeedStart(s, p, l);
    TakeStart(s, p, a, l);
    var l1 := l.(start := Some(a));
    var b := NeedMethod(s, a + 1, l1);
    TakeMethod(s, a + 1, b, l1);
    var l2 := l1.(methodEnd := Some(b), verb := MethodAfter(Token(s, l1, b), l.verb));
    var u, v := NeedTarget(s, b + 1, l2);
    TakeTarget(s, b + 1, u, v, l2);
    var h, d, m, e, crlf := AcceptedBack(s, v + 1, l2.(uriStart := Some(u), uriEnd := Some(v)));
    f := Shape(a, b, u, v, h, d, m, e, crlf);
  }

  lemma AcceptedBack(s: seq<byte>, p: nat, l: Line) returns (h: nat, d: nat, m: nat, e: nat, crlf: bool)
    requires p <= |s| && RunLine(s, p, BeforeHttp, l).code == Done
    ensures All(s, p, h, Spaces) && FitsBack(s, Shape(0, 0, 0, 0, h, d, m, e, crlf))
  {
    hide RunLine, All, Number;
    h := NeedHttp(s, p, l);
    TakeHttp(s, p, h, l);
    d, m := NeedVersion(s, h + 5, l);
    TakeVersion(s, h + 5, d, m, l);
    e, crlf := NeedEol(s, m, l.(major := Number(s, h + 5, d, 0), minor := Number(s, d + 1, m, 0)));
  }

  /** The request lines accepted are exactly those that have a shape. */
  lemma LineLanguage(s: seq<byte>, p: nat, l: Line)
    requires p <= |s|
    ensures RunLine(s, p, Start, l).code == Done <==> exists f :: Fits(s, p, f)
    ensures forall f :: Fits(s, p, f) ==> RunLine(s, p, Start, l) == LineResult(Done, f.End(), Start, Fields(s, f, l))
  {
    forall f | Fits(s, p, f)
      ensures RunLine(s, p, Start, l) == LineResult(Done, f.End(), Start, Fields(s, f, l))
    {
      ShapeIsAccepted(s, p, f, l);
    }
    if RunLine(s, p, Start, l).code == Done {
      var f := AcceptedHasShape(s, p, l);
    }
  }

  // ---------- The method of a request ----------

  /** What a token means by itself. */
  function OwnMethod(token: seq<byte>): Method {
    if token == GET then Get else if token == HEAD then Head else if token == POST then Post else Unknown
  }

  /** A line's method is its own exactly when it is the connection's first, or
      its token is a known method, or its token is not three or four bytes long;
      otherwise it is the method of an earlier request. */
  lemma MethodIsOwn(s: seq<byte>, p: nat, f: Shape, l: Line)
    requires Fits(s, p, f)
    ensures var token := s[f.start..f.methodEnd];
            var verb := RunLine(s, p, Start, l).line.verb;
            && (verb == OwnMethod(token) <==>
                l.verb == Unknown || OwnMethod(token) != Unknown || (|token| != 3 && |token| != 4))
            && (verb != OwnMethod(token) ==> verb == l.verb)
  {
    ShapeIsAccepted(s, p, f, l);
  }

  /** "PUT / HTTP/1.1" and a line feed */
  const PUT_LINE: seq<byte> := [80, 85, 84, 32, 47, 32, 72, 84, 84, 80, 47, 49, 46, 49, 10]

  /** A PUT is taken for whatever the request before it on the same connection was. */
  lemma PutLine(l: Line)
    ensures var r := RunLine(PUT_LINE, 0, Start, l);
            && r.code == Done && r.pos == |PUT_LINE|
            && r.line.verb == l.verb && r.line.uriStart == Some(4) && r.line.uriEnd == Some(5)
  {
    var f := Shape(0, 3, 4, 5, 6, 12, 14, 14, false);
    assert PUT_LINE[6..11] == HTTP_SLASH;
    assert Fits(PUT_LINE, 0, f);
    ShapeIsAccepted(PUT_LINE, 0, f, l);
    assert |PUT_LINE[0..3]| == 3 && PUT_LINE[0..3][0] == 80;
  }

  /** Behind a GET on the same connection, a PUT is taken for a GET. */
  lemma PutAfterGet(l: Line)
    requires l.verb == Get
    ensures RunLine(PUT_LINE, 0, Start, l).code == Done && RunLine(PUT_LINE, 0, Start, l).line.verb == Get
  {
    PutLine(l);
  }
}
