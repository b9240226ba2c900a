/** The header blocks the automaton accepts, and which header list it builds. */
module HttpHeaders {
  import opened Bytes
  import opened HttpParse
  import opened HttpLanguage

  /** One header line: key, spaces, colon, spaces, value, CR LF.  The first byte
      of the key and of the value may be anything the automaton lets through. */
  ghost predicate HeaderLine(s: seq<byte>, first: bool, h: Span, colon: nat) {
    && h.keyStart < |s| && s[h.keyStart] != CR && (first ==> s[h.keyStart] != LF)
    && h.keyStart < h.keyEnd && All(s, h.keyStart + 1, h.keyEnd, KeyBytes)
    && All(s, h.keyEnd, colon, Spaces) && colon < |s| && s[colon] == COLON
    && All(s, colon + 1, h.valueStart, Spaces) && h.valueStart < |s| && s[h.valueStart] != SP
    && h.valueStart < h.valueEnd && All(s, h.valueStart + 1, h.valueEnd, ValueBytes)
    && h.valueEnd + 1 < |s| && s[h.valueEnd] == CR && s[h.valueEnd + 1] == LF
  }

  /** Header lines one after the other from p on, then CR LF; k is behind it. */
  ghost predicate Block(s: seq<byte>, p: nat, first: bool, spans: seq<Span>, k: nat)
    decreases |spans|
  {
    if spans == [] then p + 2 == k <= |s| && s[p] == CR && s[p + 1] == LF
    else
      && spans[0].keyStart == p
      && (exists colon: nat :: HeaderLine(s, first, spans[0], colon))
      && Block(s, spans[0].valueEnd + 2, false, spans[1..], k)
  }

  // ---------- Equations for runs of equal states ----------

  lemma {:induction false} RunKey(s: seq<byte>, p: nat, h: Headers)
    requires p <= |s|
    ensures var b := Skip(s, p, KeyBytes);
            if b < |s| then RunHeaders(s, p, Key, h) == RunHeaders(s, b, Key, h)
            else RunHeaders(s, p, Key, h).code == Again
    decreases |s| - p
  {
    if p < |s| && In(s[p], KeyBytes) { RunKey(s, p + 1, h); }
  }

  lemma {:induction false} RunBlanks(s: seq<byte>, p: nat, state: HeaderState, h: Headers)
    requires p <= |s| && (state == SpacesBeforeColon || state == SpacesAfterColon)
    ensures var b := Skip(s, p, Spaces);
            if b < |s| then RunHeaders(s, p, state, h) == RunHeaders(s, b, state, h)
            else RunHeaders(s, p, state, h).code == Again
    decreases |s| - p
  {
    if p < |s| && In(s[p], Spaces) { RunBlanks(s, p + 1, state, h); }
  }

  lemma {:induction false} RunValue(s: seq<byte>, p: nat, h: Headers)
    requires p <= |s|
    ensures var b := Skip(s, p, ValueBytes);
            if b < |s| then RunHeaders(s, p, Value, h) == RunHeaders(s, b, Value, h)
            else RunHeaders(s, p, Value, h).code == Again
    decreases |s| - p
  {
    if p < |s| && In(s[p], ValueBytes) { RunValue(s, p + 1, h); }
  }

  /** The states in which a key may begin. */
  function StateAt(first: bool): HeaderState {
    if first then HStart else CrLf
  }

  lemma TakeKeyBytes(s: seq<byte>, first: bool, p: nat, e: nat, h: Headers)
    requires p < |s| && s[p] != CR && (first ==> s[p] != LF) && p < e < |s| && All(s, p + 1, e, KeyBytes)
    requires !In(s[e], KeyBytes)
    ensures RunHeaders(s, p, StateAt(first), h) == RunHeaders(s, e, Key, h.(cur := h.cur.(keyStart := p)))
  {
    assert RunHeaders(s, p, StateAt(first), h) == RunHeaders(s, p + 1, Key, h.(cur := h.cur.(keyStart := p)));
    hide RunHeaders;
    SkipIs(s, p + 1, e, KeyBytes);
    RunKey(s, p + 1, h.(cur := h.cur.(keyStart := p)));
  }

  lemma TakeColon(s: seq<byte>, e: nat, colon: nat, h: Headers)
    requires All(s, e, colon, Spaces) && colon < |s| && s[colon] == COLON
    ensures RunHeaders(s, e, Key, h) == RunHeaders(s, colon + 1, SpacesAfterColon, h.(cur := h.cur.(keyEnd := e)))
  {
    if e < colon {
      SkipIs(s, e + 1, colon, Spaces);
      RunBlanks(s, e + 1, SpacesBeforeColon, h.(cur := h.cur.(keyEnd := e)));
    }
  }

  lemma TakeKey(s: seq<byte>, first: bool, p: nat, e: nat, colon: nat, h: Headers)
    requires p < |s| && s[p] != CR && (first ==> s[p] != LF) && p < e && All(s, p + 1, e, KeyBytes)
    requires All(s, e, colon, Spaces) && colon < |s| && s[colon] == COLON
    ensures RunHeaders(s, p, StateAt(first), h) ==
            RunHeaders(s, colon + 1, SpacesAfterColon, h.(cur := h.cur.(keyStart := p, keyEnd := e)))
  {
    TakeKeyBytes(s, first, p, e, h);
    TakeColon(s, e, colon, h.(cur := h.cur.(keyStart := p)));
  }

  lemma TakeValue(s: seq<byte>, p: nat, v: nat, e: nat, h: Headers)
    requires All(s, p, v, Spaces) && v < |s| && s[v] != SP && v < e && All(s, v + 1, e, ValueBytes)
    requires e + 1 < |s| && s[e] == CR && s[e + 1] == LF
    ensures var cur := h.cur.(valueStart := v, valueEnd := e);
            RunHeaders(s, p, SpacesAfterColon, h) == RunHeaders(s, e + 2, CrLf, Headers(cur, [cur] + h.list))
  {
    SkipIs(s, p, v, Spaces);
    RunBlanks(s, p, SpacesAfterColon, h);
    var h1 := h.(cur := h.cur.(valueStart := v));
    SkipIs(s, v + 1, e, ValueBytes);
    RunValue(s, v + 1, h1);
    var h2 := h1.(cur := h1.cur.(valueEnd := e));
    assert RunHeaders(s, e, Value, h1) == RunHeaders(s, e + 1, Cr, h2);
  }

  lemma EndTaken(s: seq<byte>, p: nat, first: bool, h: Headers)
    requires p + 1 < |s| && s[p] == CR && s[p + 1] == LF
    ensures RunHeaders(s, p, StateAt(first), h) == HeaderResult(Done, p + 2, HStart, h)
  {
    assert RunHeaders(s, p, StateAt(first), h) == RunHeaders(s, p + 1, CrLfCr, h);
  }

  lemma LineTaken(s: seq<byte>, first: bool, x: Span, colon: nat, h: Headers)
    requires HeaderLine(s, first, x, colon)
    ensures RunHeaders(s, x.keyStart, StateAt(first), h) ==
            RunHeaders(s, x.valueEnd + 2, CrLf, Headers(x, [x] + h.list))
  {
    hide RunHeaders, All;
    TakeKey(s, first, x.keyStart, x.keyEnd, colon, h);
    TakeValue(s, colon + 1, x.valueStart, x.valueEnd, h.(cur := h.cur.(keyStart := x.keyStart, keyEnd := x.keyEnd)));
  }

  /** A block of these spans is accepted up to k, and the list comes back reversed. */
  lemma {:induction false} BlockIsAccepted(s: seq<byte>, p: nat, first: bool, spans: seq<Span>, k: nat, h: Headers)
    requires Block(s, p, first, spans, k)
    ensures var r := RunHeaders(s, p, StateAt(first), h);
            r.code == Done && r.pos == k && r.state == HStart && r.h.list == Reverse(spans) + h.list
    decreases |spans|
  {
    hide RunHeaders, All, HeaderLine;
    if spans == [] {
      EndTaken(s, p, first, h);
    } else {
      var x := spans[0];
      var colon: nat :| HeaderLine(s, first, x, colon);
      LineTaken(s, first, x, colon, h);
      var h2 := Headers(x, [x] + h.list);
      BlockIsAccepted(s, x.valueEnd + 2, false, spans[1..], k, h2);
      assert Reverse(spans[1..]) + ([x] + h.list) == (Reverse(spans[1..]) + [x]) + h.list;
    }
  }

  // ---------- Backwards ----------

  lemma NeedKey(s: seq<byte>, first: bool, p: nat, h: Headers) returns (e: nat, colon: nat)
    requires p < |s| && s[p] != CR && RunHeaders(s, p, StateAt(first), h).code == Done
    ensures (first ==> s[p] != LF) && p < e && All(s, p + 1, e, KeyBytes)
    ensures All(s, e, colon, Spaces) && colon < |s| && s[colon] == COLON
  {
    var h1 := h.(cur := h.cur.(keyStart := p));
    e := Skip(s, p + 1, KeyBytes);
    SkipMeaning(s, p + 1, KeyBytes);
    RunKey(s, p + 1, h1);
    colon := Skip(s, e, Spaces);
    SkipMeaning(s, e, Spaces);
    if e < colon {
      assert Skip(s, e + 1, Spaces) == colon;
      RunBlanks(s, e + 1, SpacesBeforeColon, h1.(cur := h1.cur.(keyEnd := e)));
    }
  }

  lemma NeedValue(s: seq<byte>, p: nat, h: Headers) returns (v: nat, e: nat)
    requires p <= |s| && RunHeaders(s, p, SpacesAfterColon, h).code == Done
    ensures All(s, p, v, Spaces) && v < |s| && s[v] != SP && v < e && All(s, v + 1, e, ValueBytes)
    ensures e + 1 < |s| && s[e] == CR && s[e + 1] == LF
  {
    v := Skip(s, p, Spaces);
    SkipMeaning(s, p, Spaces);
    RunBlanks(s, p, SpacesAfterColon, h);
    var h1 := h.(cur := h.cur.(valueStart := v));
    e := Skip(s, v + 1, ValueBytes);
    SkipMeaning(s, v + 1, ValueBytes);
    RunValue(s, v + 1, h1);
  }

  /** Every accepted block is a block of some spans. */
  lemma NotAtEnd(s: seq<byte>, p: nat, first: bool, h: Headers)
    requires p <= |s| && RunHeaders(s, p, StateAt(first), h).code == Done
    ensures p < |s| && (s[p] == CR ==> p + 1 < |s| && s[p + 1] == LF)
  {
    if p < |s| && s[p] == CR {
      assert RunHeaders(s, p, StateAt(first), h) == RunHeaders(s, p + 1, CrLfCr, h);
    }
  }

  lemma {:induction false} AcceptedIsBlock(s: seq<byte>, p: nat, first: bool, h: Headers) returns (spans: seq<Span>)
    requires p <= |s| && RunHeaders(s, p, StateAt(first), h).code == Done
    ensures Block(s, p, first, spans, RunHeaders(s, p, StateAt(first), h).pos)
    decreases |s| - p
  {
    NotAtEnd(s, p, first, h);
    hide RunHeaders, All;
    if s[p] == CR {
      spans := [];
      EndTaken(s, p, first, h);
    } else {
      var e, colon := NeedKey(s, first, p, h);
      TakeKey(s, first, p, e, colon, h);
      var h1 := h.(cur := h.cur.(keyStart := p, keyEnd := e));
      var v, f := NeedValue(s, colon + 1, h1);
      TakeValue(s, colon + 1, v, f, h1);
      var x := Span(p, e, v, f);
      assert HeaderLine(s, first, x, colon);
      var rest := AcceptedIsBlock(s, f + 2, false, Headers(x, [x] + h.list));
      spans := [x] + rest;
      assert spans[1..] == rest;
    }
  }

  /** The header blocks accepted are exactly the sequences of header lines, and
      the list built is the lines in reverse, in front of what was there. */
  lemma HeaderLanguage(s: seq<byte>, p: nat, k: nat, list: seq<Span>, h: Headers)
    requires p <= |s|
    ensures var r := RunHeaders(s, p, HStart, h);
            r.code == Done && r.pos == k && r.h.list == list <==>
            exists spans :: Block(s, p, true, spans, k) && list == Reverse(spans) + h.list
  {
    var r := RunHeaders(s, p, StateAt(true), h);
    if r.code == Done && r.pos == k && r.h.list == list {
      var spans := AcceptedIsBlock(s, p, true, h);
      BlockIsAccepted(s, p, true, spans, k, h);
    }
    forall spans | Block(s, p, true, spans, k) && list == Reverse(spans) + h.list
      ensures r.code == Done && r.pos == k && r.h.list == list
    {
      BlockIsAccepted(s, p, true, spans, k, h);
    }
  }
}
