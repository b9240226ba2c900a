/** Bytes, the few named octets the server tests for, and the option type. */
module Bytes {
  type byte = b: int | 0 <= b < 256

  const LF: byte := 10
  const CR: byte := 13
  const SP: byte := 32
  const PERCENT: byte := 37
  const DOT: byte := 46
  const SLASH: byte := 47
  const COLON: byte := 58
  const QUESTION: byte := 63
  const BACKSLASH: byte := 92
  const CRLF: seq<byte> := [CR, LF]

  datatype Option<+T> = None | Some(value: T)

  function Min(a: nat, b: nat): nat {
    if a <= b then a else b
  }

  function Reverse<T>(s: seq<T>): seq<T> {
    if s == [] then [] else Reverse(s[1..]) + [s[0]]
  }

  lemma {:induction false} ReverseLength<T>(s: seq<T>)
    ensures |Reverse(s)| == |s|
  {
    if s != [] { ReverseLength(s[1..]); }
  }

  lemma {:induction false} ReverseSnoc<T>(s: seq<T>, x: T)
    ensures Reverse(s + [x]) == [x] + Reverse(s)
  {
    if s == [] {
      assert [x][1..] == [];
    } else {
      assert (s + [x])[1..] == s[1..] + [x];
      ReverseSnoc(s[1..], x);
    }
  }

  /** All but the first n bytes. */
  function From(s: seq<byte>, n: nat): seq<byte>
    requires n <= |s|
  {
    if n == 0 then s else s[n..]
  }

  /** The value of a hexadecimal digit in either case, or -1. */
  function HexVal(c: byte): int {
    if 48 <= c <= 57 then c - 48
    else if 97 <= c <= 102 then c - 87
    else if 65 <= c <= 70 then c - 55
    else -1
  }

  /** "0123456789abcdef" and "0123456789ABCDEF" */
  const LOWER_HEX: seq<byte> := [48, 49, 50, 51, 52, 53, 54, 55, 56, 57, 97, 98, 99, 100, 101, 102]
  const UPPER_HEX: seq<byte> := [48, 49, 50, 51, 52, 53, 54, 55, 56, 57, 65, 66, 67, 68, 69, 70]

  /** The digits of either case have the values of their places, and nothing else is a digit. */
  lemma HexValues(c: byte)
    ensures forall v :: 0 <= v < 16 ==> HexVal(LOWER_HEX[v]) == v && HexVal(UPPER_HEX[v]) == v
    ensures HexVal(c) == -1 <==> c !in LOWER_HEX && c !in UPPER_HEX
    ensures HexVal(c) >= 0 ==> HexVal(c) < 16 && (LOWER_HEX[HexVal(c)] == c || UPPER_HEX[HexVal(c)] == c)
    ensures HexVal(c) >= -1
  {
    if HexVal(c) >= 0 { assert LOWER_HEX[HexVal(c)] == c || UPPER_HEX[HexVal(c)] == c; }
  }

  lemma Associative<T>(a: seq<T>, b: seq<T>, c: seq<T>)
    ensures a + (b + c) == (a + b) + c
  {
  }

  lemma FromNone(s: seq<byte>)
    ensures From(s, 0) == s
  {
  }

  /** Dropping n bytes from a concatenation. */
  lemma FromConcat(a: seq<byte>, b: seq<byte>, n: nat)
    requires n <= |a| + |b|
    ensures From(a + b, n) == From(a, Min(n, |a|)) + From(b, n - Min(n, |a|))
  {
  }
}

/** What the kernel may answer to a non-blocking read or write.  Every handler
    takes a finite script of answers; a script that has run out answers
    WouldBlock.  `Data([])` is end of file; `Took(n)` says the kernel accepted
    n bytes, or all it was offered if that is less. */
module Kernel {
  import opened Bytes

  datatype ReadAnswer = Data(bytes: seq<byte>) | ReadInterrupted | ReadWouldBlock | ReadFailed

  datatype WriteAnswer = Took(n: nat) | WriteInterrupted | WriteWouldBlock | WriteFailed

  function NextRead(script: seq<ReadAnswer>, i: nat): ReadAnswer {
    if i < |script| then script[i] else ReadWouldBlock
  }

  function NextWrite(script: seq<WriteAnswer>, i: nat): WriteAnswer {
    if i < |script| then script[i] else WriteWouldBlock
  }

  /** An answer to writev that ends the connection. */
  predicate Fails(answer: WriteAnswer) {
    answer.WriteFailed? || answer == Took(0)
  }

  /** A buffer with its length and the count of bytes already sent. */
  datatype Piece = Piece(text: seq<byte>, sent: nat) {
    predicate Ok() {
      sent <= |text|
    }

    function Rest(): seq<byte>
      requires Ok()
    {
      From(text, sent)
    }

    /** The piece after at most n more bytes of it went out, and how many did. */
    function Send(n: nat): (Piece, nat)
      requires Ok()
    {
      var m := Min(n, |text| - sent);
      (Piece(text, sent + m), m)
    }
  }

  lemma RestLength(p: Piece)
    requires p.Ok()
    ensures |p.Rest()| == |p.text| - p.sent
  {
  }

  lemma SendRest(p: Piece, n: nat)
    requires p.Ok()
    ensures var (q, m) := p.Send(n);
            q.Ok() && q.text == p.text && m == Min(n, |p.Rest()|) && q.Rest() == From(p.Rest(), m)
  {
  }

  const EMPTY := Piece([], 0)
}
