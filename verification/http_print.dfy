/** Requests as values, a printer for them, and the round trip through the parser. */
module HttpPrint {
  import opened Bytes
  import opened HttpParse
  import opened HttpLanguage
  import opened HttpHeaders

  datatype Field = Field(key: seq<byte>, value: seq<byte>)

  datatype Request = Request(verb: Method, target: seq<byte>, major: nat, minor: nat, fields: seq<Field>)

  function Slice(s: seq<byte>, a: nat, b: nat): seq<byte> {
    if a <= b <= |s| then s[a..b] else []
  }

  function Texts(s: seq<byte>, spans: seq<Span>): seq<Field> {
    if spans == [] then []
    else [Field(Slice(s, spans[0].keyStart, spans[0].keyEnd), Slice(s, spans[0].valueStart, spans[0].valueEnd))]
         + Texts(s, spans[1..])
  }

  /** The request that a parsed line and header list denote in the window s. */
  function Extract(s: seq<byte>, l: Line, spans: seq<Span>): Request {
    Request(l.verb,
            if l.uriStart.Some? && l.uriEnd.Some? then Slice(s, l.uriStart.value, l.uriEnd.value) else [],
            l.major, l.minor, Texts(s, spans))
  }

  function VerbText(m: Method): seq<byte>
    requires m != Unknown
  {
    match m
    case Get => GET
    case Head => HEAD
    case Post => POST
  }

  function Decimal(n: nat): seq<byte> {
    if n < 10 then [48 + n] else Decimal(n / 10) + [48 + n % 10]
  }

  function PrintField(f: Field): seq<byte> {
    f.key + ([COLON, SP] + (f.value + CRLF))
  }

  function PrintFields(fs: seq<Field>): seq<byte> {
    if fs == [] then CRLF else PrintField(fs[0]) + PrintFields(fs[1..])
  }

  function PrintVersion(major: nat, minor: nat): seq<byte> {
    HTTP_SLASH + (Decimal(major) + ([DOT] + (Decimal(minor) + CRLF)))
  }

  function PrintLine(r: Request): seq<byte>
    requires r.verb != Unknown
  {
    VerbText(r.verb) + ([SP] + (r.target + ([SP] + PrintVersion(r.major, r.minor))))
  }

  function Print(r: Request): seq<byte>
    requires r.verb != Unknown
  {
    PrintLine(r) + PrintFields(r.fields)
  }

  /** Values may be empty here; see RoundTrip. */
  ghost predicate GoodField(f: Field) {
    && f.key != [] && (forall c :: c in f.key ==> c != SP && c != COLON && c != CR && c != LF)
    && (forall c :: c in f.value ==> c != CR && c != LF)
    && (f.value != [] ==> f.value[0] != SP)
  }

  ghost predicate GoodFields(fs: seq<Field>) {
    forall f :: f in fs ==> GoodField(f)
  }

  ghost predicate WellFormed(r: Request) {
    && r.verb != Unknown && r.target != [] && r.target[0] == SLASH && SP !in r.target
    && r.major > 0 && GoodFields(r.fields)
  }

  predicate SomeValueEmpty(fs: seq<Field>) {
    fs != [] && (fs[0].value == [] || SomeValueEmpty(fs[1..]))
  }

  // ---------- Pieces of a window ----------

  ghost predicate At(s: seq<byte>, p: nat, x: seq<byte>) {
    p + |x| <= |s| && s[p..p + |x|] == x
  }

  lemma SplitAt(s: seq<byte>, p: nat, x: seq<byte>, y: seq<byte>)
    requires At(s, p, x + y)
    ensures At(s, p, x) && At(s, p + |x|, y)
  {
    var z := s[p..p + |x + y|];
    assert z[..|x|] == x && z[|x|..] == y;
    assert s[p..p + |x|] == z[..|x|];
    assert s[p + |x|..p + |x| + |y|] == z[|x|..];
  }

  lemma ByteAt(s: seq<byte>, p: nat, x: seq<byte>, i: nat)
    requires At(s, p, x) && i < |x|
    ensures s[p + i] == x[i]
  {
    assert s[p..p + |x|][i] == x[i];
  }

  lemma AllAt(s: seq<byte>, p: nat, x: seq<byte>, k: Class)
    requires At(s, p, x) && forall c :: c in x ==> In(c, k)
    ensures All(s, p, p + |x|, k)
  {
    forall i | p <= i < p + |x| ensures In(s[i], k) {
      ByteAt(s, p, x, i - p);
      assert x[i - p] in x;
    }
  }

  // ---------- Decimal numbers ----------

  lemma {:induction false} DecimalIsDigits(n: nat)
    ensures Decimal(n) != [] && forall c :: c in Decimal(n) ==> Digit(c)
    ensures n > 0 ==> Decimal(n)[0] != 48
  {
    if n >= 10 { DecimalIsDigits(n / 10); }
  }

  lemma {:induction false} NumberSnoc(s: seq<byte>, p: nat, q: nat, acc: nat)
    requires All(s, p, q, Digits) && q < |s| && Digit(s[q])
    ensures Number(s, p, q + 1, acc) == Number(s, p, q, acc) * 10 + (s[q] - 48)
    decreases q - p
  {
    if p < q {
      NumberSnoc(s, p + 1, q, acc * 10 + (s[p] - 48));
    }
  }

  lemma {:induction false} NumberOfDecimal(s: seq<byte>, p: nat, n: nat)
    requires At(s, p, Decimal(n))
    ensures Number(s, p, p + |Decimal(n)|, 0) == n
  {
    if n < 10 {
      ByteAt(s, p, Decimal(n), 0);
    } else {
      var front := Decimal(n / 10);
      SplitAt(s, p, front, [48 + n % 10]);
      NumberOfDecimal(s, p, n / 10);
      DecimalIsDigits(n / 10);
      AllAt(s, p, front, Digits);
      ByteAt(s, p + |front|, [48 + n % 10], 0);
      NumberSnoc(s, p, p + |front|, 0);
    }
  }

  // ---------- The request line ----------

  lemma VersionPieces(s: seq<byte>, h: nat, major: nat, minor: nat)
    requires At(s, h, PrintVersion(major, minor))
    ensures var d := h + 5 + |Decimal(major)|;
            var m := d + 1 + |Decimal(minor)|;
            At(s, h, HTTP_SLASH) && At(s, h + 5, Decimal(major)) && At(s, d, [DOT]) && At(s, d + 1, Decimal(minor))
            && At(s, m, CRLF) && m + 2 == h + |PrintVersion(major, minor)|
  {
    hide At, Decimal;
    var a, b := Decimal(major), Decimal(minor);
    SplitAt(s, h, HTTP_SLASH, a + ([DOT] + (b + CRLF)));
    SplitAt(s, h + 5, a, [DOT] + (b + CRLF));
    SplitAt(s, h + 5 + |a|, [DOT], b + CRLF);
    SplitAt(s, h + 5 + |a| + 1, b, CRLF);
  }

  /** The digits of n at p: all digits, followed by whatever follows, and their number is n. */
  lemma DigitsAt(s: seq<byte>, p: nat, n: nat)
    requires At(s, p, Decimal(n))
    ensures Decimal(n) != [] && All(s, p, p + |Decimal(n)|, Digits) && Number(s, p, p + |Decimal(n)|, 0) == n
    ensures n > 0 ==> s[p] != 48
  {
    DecimalIsDigits(n);
    AllAt(s, p, Decimal(n), Digits);
    NumberOfDecimal(s, p, n);
    ByteAt(s, p, Decimal(n), 0);
  }

  /** The back part of the shape of a printed line. */
  function PrintedBack(h: nat, major: nat, minor: nat): Shape {
    var d := h + 5 + |Decimal(major)|;
    var m := d + 1 + |Decimal(minor)|;
    Shape(0, 0, 0, 0, h, d, m, m, true)
  }

  lemma PrintedVersionFits(s: seq<byte>, h: nat, major: nat, minor: nat)
    requires At(s, h, PrintVersion(major, minor)) && major > 0
    ensures var f := PrintedBack(h, major, minor);
            && FitsBack(s, f) && f.End() == h + |PrintVersion(major, minor)|
            && Number(s, h + 5, f.dot, 0) == major && Number(s, f.dot + 1, f.minorEnd, 0) == minor
  {
    hide At, PrintVersion, Decimal, Number, All;
    VersionPieces(s, h, major, minor);
    var f := PrintedBack(h, major, minor);
    DigitsAt(s, h + 5, major);
    DigitsAt(s, f.dot + 1, minor);
    BackFits(s, h, f.dot, f.minorEnd);
  }

  lemma BackFits(s: seq<byte>, h: nat, d: nat, m: nat)
    requires At(s, h, HTTP_SLASH) && h + 5 < d && All(s, h + 5, d, Digits) && s[h + 5] != 48
    requires At(s, d, [DOT]) && d + 1 < m && All(s, d + 1, m, Digits) && At(s, m, CRLF)
    ensures FitsBack(s, Shape(0, 0, 0, 0, h, d, m, m, true))
  {
    ByteAt(s, d, [DOT], 0);
    ByteAt(s, m, CRLF, 0);
    ByteAt(s, m, CRLF, 1);
  }

  /** The shape of a printed line that starts at the head of the window. */
  function PrintedShape(r: Request): Shape
    requires r.verb != Unknown
  {
    var v := |VerbText(r.verb)|;
    var h := v + |r.target| + 2;
    PrintedBack(h, r.major, r.minor).(methodEnd := v, uri := v + 1, uriEnd := v + 1 + |r.target|)
  }

  lemma PrintedFrontFits(s: seq<byte>, r: Request)
    requires WellFormed(r) && At(s, 0, PrintLine(r))
    ensures FitsFront(s, 0, PrintedShape(r)) && At(s, PrintedShape(r).http, PrintVersion(r.major, r.minor))
    ensures s[..PrintedShape(r).methodEnd] == VerbText(r.verb)
    ensures s[PrintedShape(r).uri..PrintedShape(r).uriEnd] == r.target
  {
    hide PrintVersion, Decimal, PrintLine, At;
    var verb := VerbText(r.verb);
    LinePieces(s, r);
    AllAt(s, 0, verb, MethodBytes);
    AllAt(s, |verb| + 1, r.target, NoSpace);
    ByteAt(s, |verb|, [SP], 0);
    ByteAt(s, |verb| + 1, r.target, 0);
    ByteAt(s, |verb| + 1 + |r.target|, [SP], 0);
    TextAt(s, 0, verb);
    TextAt(s, |verb| + 1, r.target);
    TextAt(s, |verb| + 1 + |r.target|, [SP]);
    assert s[0..|verb|] == s[..|verb|];
  }

  lemma TextAt(s: seq<byte>, p: nat, x: seq<byte>)
    requires At(s, p, x)
    ensures p + |x| <= |s| && s[p..p + |x|] == x
  {
  }

  lemma LinePieces(s: seq<byte>, r: Request)
    requires r.verb != Unknown && At(s, 0, PrintLine(r))
    ensures var verb := VerbText(r.verb);
            var uriEnd := |verb| + 1 + |r.target|;
            && At(s, 0, verb) && At(s, |verb|, [SP]) && At(s, |verb| + 1, r.target) && At(s, uriEnd, [SP])
            && At(s, uriEnd + 1, PrintVersion(r.major, r.minor))
            && |PrintLine(r)| == uriEnd + 1 + |PrintVersion(r.major, r.minor)|
  {
    hide At, VerbText, PrintVersion;
    var verb, version := VerbText(r.verb), PrintVersion(r.major, r.minor);
    SplitAt(s, 0, verb, [SP] + (r.target + ([SP] + version)));
    SplitAt(s, |verb|, [SP], r.target + ([SP] + version));
    SplitAt(s, |verb| + 1, r.target, [SP] + version);
    SplitAt(s, |verb| + 1 + |r.target|, [SP], version);
  }

  /** A printed line parses to its own method, target and version, whatever
      fields were left over from the request before and whatever follows it. */
  lemma PrintedLineParses(s: seq<byte>, r: Request, l: Line)
    requires WellFormed(r) && At(s, 0, PrintLine(r))
    ensures var res := RunLine(s, 0, Start, l);
            && res.code == Done && res.pos == |PrintLine(r)|
            && Extract(s, res.line, []) == r.(fields := [])
  {
    hide RunLine, PrintVersion, Number, FitsFront, FitsBack, PrintLine, At, Decimal;
    var f := PrintedShape(r);
    PrintedLineFits(s, r);
    ShapeIsAccepted(s, 0, f, l);
    assert s[0..f.methodEnd] == VerbText(r.verb);
  }

  lemma PrintedLineFits(s: seq<byte>, r: Request)
    requires WellFormed(r) && At(s, 0, PrintLine(r))
    ensures var f := PrintedShape(r);
            && FitsFront(s, 0, f) && FitsBack(s, f) && f.End() == |PrintLine(r)|
            && f.methodEnd < f.uri <= f.uriEnd < |s|
            && s[..f.methodEnd] == VerbText(r.verb) && s[f.uri..f.uriEnd] == r.target
            && Number(s, f.http + 5, f.dot, 0) == r.major && Number(s, f.dot + 1, f.minorEnd, 0) == r.minor
  {
    hide PrintVersion, Decimal, PrintLine, At, All, Number;
    var f := PrintedShape(r);
    PrintedFrontFits(s, r);
    LinePieces(s, r);
    PrintedVersionFits(s, f.http, r.major, r.minor);
  }

  // ---------- The header block ----------

  /** Where a field printed at p lies. */
  function SpanOf(p: nat, f: Field): Span {
    var e := p + |f.key|;
    Span(p, e, e + 2, e + 2 + |f.value|)
  }

  lemma FieldPieces(s: seq<byte>, p: nat, f: Field)
    requires At(s, p, PrintField(f))
    ensures var x := SpanOf(p, f);
            && At(s, p, f.key) && x.keyEnd + 1 < |s| && s[x.keyEnd] == COLON && s[x.keyEnd + 1] == SP
            && At(s, x.valueStart, f.value)
            && x.valueEnd + 1 < |s| && s[x.valueEnd] == CR && s[x.valueEnd + 1] == LF
  {
    var x := SpanOf(p, f);
    SplitAt(s, p, f.key, [COLON, SP] + (f.value + CRLF));
    SplitAt(s, x.keyEnd, [COLON, SP], f.value + CRLF);
    SplitAt(s, x.valueStart, f.value, CRLF);
    ByteAt(s, x.keyEnd, [COLON, SP], 0);
    ByteAt(s, x.keyEnd, [COLON, SP], 1);
    ByteAt(s, x.valueEnd, CRLF, 0);
    ByteAt(s, x.valueEnd, CRLF, 1);
  }

  lemma KeyIsRead(s: seq<byte>, first: bool, p: nat, f: Field, h: Headers)
    requires GoodField(f) && At(s, p, PrintField(f))
    ensures var x := SpanOf(p, f);
            RunHeaders(s, p, StateAt(first), h) ==
            RunHeaders(s, x.keyEnd + 1, SpacesAfterColon, h.(cur := h.cur.(keyStart := p, keyEnd := x.keyEnd)))
  {
    var x := SpanOf(p, f);
    FieldPieces(s, p, f);
    AllAt(s, p, f.key, KeyBytes);
    ByteAt(s, p, f.key, 0);
    assert f.key[0] in f.key;
    TakeKey(s, first, p, x.keyEnd, x.keyEnd, h);
  }

  lemma ValueIsRead(s: seq<byte>, p: nat, f: Field, h: Headers)
    requires GoodField(f) && At(s, p, PrintField(f)) && f.value != []
    ensures var x := SpanOf(p, f);
            var cur := h.cur.(valueStart := x.valueStart, valueEnd := x.valueEnd);
            RunHeaders(s, x.keyEnd + 1, SpacesAfterColon, h) ==
            RunHeaders(s, x.valueEnd + 2, CrLf, Headers(cur, [cur] + h.list))
  {
    hide RunHeaders, PrintField;
    var x := SpanOf(p, f);
    FieldPieces(s, p, f);
    AllAt(s, x.valueStart, f.value, ValueBytes);
    ByteAt(s, x.valueStart, f.value, 0);
    TakeValue(s, x.keyEnd + 1, x.valueStart, x.valueEnd, h);
  }

  /** After the colon of an empty value the CR is taken for the value's first
      byte, so the LF behind it is refused. */
  lemma EmptyValueIsRefused(s: seq<byte>, p: nat, f: Field, h: Headers)
    requires At(s, p, PrintField(f)) && f.value == []
    ensures RunHeaders(s, SpanOf(p, f).keyEnd + 1, SpacesAfterColon, h).code == InvalidHeader
  {
    var x := SpanOf(p, f);
    FieldPieces(s, p, f);
    assert RunHeaders(s, x.keyEnd + 1, SpacesAfterColon, h) == RunHeaders(s, x.valueStart, SpacesAfterColon, h);
    var h1 := h.(cur := h.cur.(valueStart := x.valueStart));
    assert RunHeaders(s, x.valueStart, SpacesAfterColon, h) == RunHeaders(s, x.valueStart + 1, Value, h1);
  }

  lemma FieldIsRead(s: seq<byte>, first: bool, p: nat, f: Field, h: Headers)
    requires GoodField(f) && At(s, p, PrintField(f))
    ensures var x := SpanOf(p, f);
            if f.value == [] then RunHeaders(s, p, StateAt(first), h).code == InvalidHeader
            else RunHeaders(s, p, StateAt(first), h) == RunHeaders(s, x.valueEnd + 2, CrLf, Headers(x, [x] + h.list))
  {
    var h1 := h.(cur := h.cur.(keyStart := p, keyEnd := SpanOf(p, f).keyEnd));
    KeyIsRead(s, first, p, f, h);
    if f.value == [] {
      EmptyValueIsRefused(s, p, f, h1);
    } else {
      ValueIsRead(s, p, f, h1);
    }
  }

  lemma EndIsRead(s: seq<byte>, first: bool, p: nat, h: Headers)
    requires At(s, p, CRLF)
    ensures RunHeaders(s, p, StateAt(first), h) == HeaderResult(Done, p + 2, HStart, h)
  {
    ByteAt(s, p, CRLF, 0);
    ByteAt(s, p, CRLF, 1);
    assert RunHeaders(s, p, StateAt(first), h) == RunHeaders(s, p + 1, CrLfCr, h);
  }

  /** r is what reading the fields fs printed at p must give, `before` being the fields read earlier. */
  ghost predicate ReadsFields(s: seq<byte>, p: nat, fs: seq<Field>, before: seq<Field>, r: HeaderResult) {
    if SomeValueEmpty(fs) then r.code == InvalidHeader
    else && r.code == Done && r.pos == p + |PrintFields(fs)|
         && Texts(s, r.h.list) == Reverse(fs) + before
  }

  lemma ReadsOneMore(s: seq<byte>, p: nat, fs: seq<Field>, before: seq<Field>, r: HeaderResult)
    requires fs != [] && fs[0].value != []
    requires ReadsFields(s, p + |PrintField(fs[0])|, fs[1..], [fs[0]] + before, r)
    ensures ReadsFields(s, p, fs, before, r)
  {
    var front := Reverse(fs[1..]);
    assert front + ([fs[0]] + before) == (front + [fs[0]]) + before;
  }

  lemma {:induction false} PrintedFieldsParse(s: seq<byte>, p: nat, first: bool, fs: seq<Field>, h: Headers)
    requires GoodFields(fs) && At(s, p, PrintFields(fs))
    ensures ReadsFields(s, p, fs, Texts(s, h.list), RunHeaders(s, p, StateAt(first), h))
    decreases |fs|
  {
    hide RunHeaders, PrintField, GoodField, At;
    if fs == [] {
      EndIsRead(s, first, p, h);
      assert Reverse([]) + Texts(s, h.list) == Texts(s, h.list);
    } else {
      var f, x := fs[0], SpanOf(p, fs[0]);
      SplitAt(s, p, PrintField(f), PrintFields(fs[1..]));
      FieldIsRead(s, first, p, f, h);
      if f.value != [] {
        FieldText(s, p, f, h.list);
        FieldEnds(p, f);
        PrintedFieldsParse(s, p + |PrintField(f)|, false, fs[1..], Headers(x, [x] + h.list));
        ReadsOneMore(s, p, fs, Texts(s, h.list), RunHeaders(s, p, StateAt(first), h));
      }
    }
  }

  lemma FieldEnds(p: nat, f: Field)
    ensures p + |PrintField(f)| == SpanOf(p, f).valueEnd + 2
  {
  }

  lemma FieldText(s: seq<byte>, p: nat, f: Field, list: seq<Span>)
    requires At(s, p, PrintField(f))
    ensures Texts(s, [SpanOf(p, f)] + list) == [f] + Texts(s, list)
  {
    FieldPieces(s, p, f);
    assert ([SpanOf(p, f)] + list)[1..] == list;
  }

  // ---------- Whole requests ----------

  datatype Outcome = Outcome(code: Code, pos: nat, line: Line, h: Headers)

  /** One request at the head of a window: its line, then its header block. */
  function ParseRequest(s: seq<byte>, l: Line, cur: Span): Outcome {
    var a := RunLine(s, 0, Start, l);
    if a.code != Done then Outcome(a.code, a.pos, a.line, Headers(cur, []))
    else
      var b := RunHeaders(s, a.pos, HStart, Headers(cur, []));
      Outcome(b.code, b.pos, a.line, b.h)
  }

  /** Printing and parsing is the identity, with the header list reversed and
      the cursor exactly behind the request even when more bytes follow, if and
      only if no header value is empty. */
  lemma RoundTrip(r: Request, rest: seq<byte>, l: Line, cur: Span)
    requires WellFormed(r)
    ensures var s := Print(r) + rest;
            var o := ParseRequest(s, l, cur);
            if SomeValueEmpty(r.fields) then o.code == InvalidHeader
            else && o.code == Done && o.pos == |Print(r)|
                 && Extract(s, o.line, o.h.list) == r.(fields := Reverse(r.fields))
  {
    var s := Print(r) + rest;
    assert At(s, 0, Print(r));
    SplitAt(s, 0, PrintLine(r), PrintFields(r.fields));
    PrintedLineParses(s, r, l);
    PrintedFieldsParse(s, |PrintLine(r)|, true, r.fields, Headers(cur, []));
    assert Reverse(r.fields) + Texts(s, []) == Reverse(r.fields);
  }
}
