/** Percent-decoding (section 2.1 of RFC 3986) of request paths. */
module Percent {
  import opened Bytes

  /** The bytes a decoded path may not contain. */
  predicate Banned(c: byte) {
    c == 0 || c == BACKSLASH || c == CR || c == LF
  }

  /** No NUL, backslash, CR or LF. */
  predicate Clean(d: seq<byte>) {
    forall i :: 0 <= i < |d| ==> d[i] != 0 && d[i] != 92 && d[i] != 13 && d[i] != 10
  }

  /** The byte at the front of s and the number of bytes that spell it. */
  function Front(s: seq<byte>): (r: Option<(byte, nat)>)
    requires s != []
    ensures r.Some? ==> 1 <= r.value.1 <= |s|
  {
    if s[0] != PERCENT then Some((s[0], 1))
    else if |s| < 3 || HexVal(s[1]) < 0 || HexVal(s[2]) < 0 then None
    else Some((16 * HexVal(s[1]) + HexVal(s[2]), 3))
  }

  function Decode(s: seq<byte>): Option<seq<byte>> {
    if s == [] then Some([]) else
      match Front(s)
      case None => None
      case Some((c, n)) =>
        if Banned(c) then None else
          match Decode(s[n..])
          case None => None
          case Some(rest) => Some([c] + rest)
  }

  // ---------- Encoding ----------

  /** How one byte is written: as it is, or escaped with digits of either case. */
  datatype Spelling = Literal | Escaped(upperHigh: bool, upperLow: bool)

  function Digit(v: nat, upper: bool): byte
    requires v < 16
  {
    if v < 10 then 48 + v else if upper then 55 + v else 87 + v
  }

  predicate Fits(d: seq<byte>, how: seq<Spelling>) {
    |how| == |d| && forall i :: 0 <= i < |d| ==> how[i] == Literal ==> d[i] != PERCENT
  }

  function Spell(c: byte, how: Spelling): seq<byte> {
    match how
    case Literal => [c]
    case Escaped(high, low) => [PERCENT, Digit(c / 16, high), Digit(c % 16, low)]
  }

  /** Percent-encoding, with any choice of which bytes to escape. */
  function Encode(d: seq<byte>, how: seq<Spelling>): seq<byte>
    requires Fits(d, how)
  {
    if d == [] then [] else Spell(d[0], how[0]) + Encode(d[1..], how[1..])
  }

  lemma DigitValue(v: nat, upper: bool)
    requires v < 16
    ensures HexVal(Digit(v, upper)) == v
  {
  }

  lemma FrontOfSpell(c: byte, how: Spelling, rest: seq<byte>)
    requires how == Literal ==> c != PERCENT
    ensures Front(Spell(c, how) + rest) == Some((c, |Spell(c, how)|))
    ensures (Spell(c, how) + rest)[|Spell(c, how)|..] == rest
  {
    var s := Spell(c, how) + rest;
    assert s[|Spell(c, how)|..] == rest;
    if how.Escaped? {
      DigitValue(c / 16, how.upperHigh);
      DigitValue(c % 16, how.upperLow);
      assert s[0] == PERCENT && s[1] == Digit(c / 16, how.upperHigh) && s[2] == Digit(c % 16, how.upperLow);
    } else {
      assert s[0] == c;
    }
  }

  /** Whatever is escaped and however, decoding gives the text back. */
  lemma {:induction false} DecodeOfEncode(d: seq<byte>, how: seq<Spelling>)
    requires Clean(d) && Fits(d, how)
    ensures Decode(Encode(d, how)) == Some(d)
  {
    if d != [] {
      FrontOfSpell(d[0], how[0], Encode(d[1..], how[1..]));
      DecodeOfEncode(d[1..], how[1..]);
      assert !Banned(d[0]) && [d[0]] + d[1..] == d;
    }
  }

  lemma SpellOfFront(s: seq<byte>) returns (how: Spelling)
    requires s != [] && Front(s).Some?
    ensures var (c, n) := Front(s).value; (how == Literal ==> c != PERCENT) && s[..n] == Spell(c, how)
  {
    if s[0] != PERCENT {
      how := Literal;
    } else {
      how := Escaped(s[1] < 97, s[2] < 97);
      assert s[..3] == [s[0], s[1], s[2]];
    }
  }

  /** Only encodings decode: what decodes to d is d, escaped one way or another. */
  lemma {:induction false} DecodedIsEncoding(s: seq<byte>) returns (how: seq<Spelling>)
    requires Decode(s).Some?
    ensures var d := Decode(s).value; Clean(d) && Fits(d, how) && s == Encode(d, how) && |d| <= |s|
  {
    if s == [] {
      how := [];
    } else {
      hide Front, Spell, Clean, Fits;
      var (c, n) := Front(s).value;
      var first := SpellOfFront(s);
      var rest := DecodedIsEncoding(s[n..]);
      how := [first] + rest;
      OneMore(c, Decode(s[n..]).value, first, rest);
      assert s == s[..n] + s[n..];
    }
  }

  lemma OneMore(c: byte, d: seq<byte>, first: Spelling, rest: seq<Spelling>)
    requires !Banned(c) && Clean(d) && Fits(d, rest) && (first == Literal ==> c != PERCENT)
    ensures Clean([c] + d) && Fits([c] + d, [first] + rest)
    ensures Encode([c] + d, [first] + rest) == Spell(c, first) + Encode(d, rest)
  {
    assert ([c] + d)[1..] == d && ([first] + rest)[1..] == rest;
  }

  function Onto(done: seq<byte>, rest: Option<seq<byte>>): Option<seq<byte>> {
    if rest.None? then None else Some(done + rest.value)
  }

  lemma OntoStep(done: seq<byte>, s: seq<byte>)
    requires s != []
    ensures Front(s).None? ==> Onto(done, Decode(s)) == None
    ensures Front(s).Some? ==>
              var (c, n) := Front(s).value;
              Onto(done, Decode(s)) == if Banned(c) then None else Onto(done + [c], Decode(s[n..]))
  {
    if Front(s).Some? && !Banned(Front(s).value.0) {
      var (c, n) := Front(s).value;
      if Decode(s[n..]).Some? {
        assert done + ([c] + Decode(s[n..]).value) == (done + [c]) + Decode(s[n..]).value;
      }
    }
  }

  /** Decodes into a buffer of `cap` bytes with its terminator; fails exactly
      when the text is no encoding or the result does not fit. */
  method PercentDecode(s: seq<byte>, cap: nat) returns (out: Option<seq<byte>>)
    ensures out == if Decode(s).Some? && |Decode(s).value| < cap then Decode(s) else None
    ensures out.Some? ==> |out.value| < cap && Clean(out.value)
  {
    if Decode(s).Some? { var how := DecodedIsEncoding(s); }
    if cap == 0 { return None; }
    var i: nat, done: seq<byte> := 0, [];
    assert Onto([], Decode(s)) == Decode(s) && From(s, 0) == s by {
      if Decode(s).Some? { assert [] + Decode(s).value == Decode(s).value; }
    }
    while i < |s|
      invariant i <= |s| && |done| < cap && Decode(s) == Onto(done, Decode(From(s, i)))
    {
      ghost var rest := From(s, i);
      OntoStep(done, rest);
      var ch := s[i];
      var next := i + 1;
      if ch == PERCENT {
        if i + 2 >= |s| { return None; }
        var hi, lo := HexVal(s[i + 1]), HexVal(s[i + 2]);
        if hi < 0 || lo < 0 { return None; }
        ch, next := 16 * hi + lo, i + 3;
      }
      assert Front(rest) == Some((ch, next - i)) && rest[next - i..] == From(s, next);
      if Banned(ch) || |done| + 1 >= cap { return None; }
      done, i := done + [ch], next;
    }
    assert From(s, i) == [] && done + [] == done;
    out := Some(done);
  }
}
