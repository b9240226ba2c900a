/** The chunked transfer coding of section 7.1 of RFC 9112: the encoder the
    relay uses and an independent decoder. */
module Chunked {
  import opened Bytes

  /** The last chunk with an empty trailer section. */
  const FINAL: seq<byte> := [48, CR, LF, CR, LF]

  function HexDigit(d: nat): byte
    requires d < 16
  {
    if d < 10 then 48 + d else 87 + d
  }

  /** Lower-case hexadecimal without leading zeros. */
  function Hex(n: nat): seq<byte> {
    if n < 16 then [HexDigit(n)] else Hex(n / 16) + [HexDigit(n % 16)]
  }

  function ChunkPrefix(n: nat): seq<byte> {
    Hex(n) + CRLF
  }

  function EncodeChunk(data: seq<byte>): seq<byte> {
    ChunkPrefix(|data|) + data + CRLF
  }

  function Encode(chunks: seq<seq<byte>>): seq<byte> {
    if chunks == [] then [] else EncodeChunk(chunks[0]) + Encode(chunks[1..])
  }

  function Concat(chunks: seq<seq<byte>>): seq<byte> {
    if chunks == [] then [] else chunks[0] + Concat(chunks[1..])
  }

  ghost predicate NoEmptyChunk(chunks: seq<seq<byte>>) {
    [] !in chunks
  }

  /** Reads 1*HEXDIG CRLF; `seen` says a digit has been read. */
  function ReadSize(s: seq<byte>, acc: nat, seen: bool): Option<(nat, seq<byte>)>
    decreases s
  {
    if s == [] then None
    else if HexVal(s[0]) >= 0 then ReadSize(s[1..], acc * 16 + HexVal(s[0]), true)
    else if seen && CRLF <= s then Some((acc, s[2..]))
    else None
  }

  lemma ReadSizeShrinks(s: seq<byte>, acc: nat, seen: bool)
    ensures ReadSize(s, acc, seen).Some? ==> |ReadSize(s, acc, seen).value.1| + 2 <= |s|
    decreases s
  {
    if s != [] && HexVal(s[0]) >= 0 {
      ReadSizeShrinks(s[1..], acc * 16 + HexVal(s[0]), true);
    }
  }

  /** The body, and what follows the trailer section. */
  function Decode(s: seq<byte>): Option<(seq<byte>, seq<byte>)>
    decreases |s|
  {
    match ReadSize(s, 0, false)
    case None => None
    case Some((size, rest)) =>
      ReadSizeShrinks(s, 0, false);
      if size == 0 then
        if CRLF <= rest then Some(([], rest[2..])) else None
      else if |rest| < size + 2 || rest[size..size + 2] != CRLF then None
      else
        match Decode(rest[size + 2..])
        case None => None
        case Some((body, end)) => Some((rest[..size] + body, end))
  }

  /** Every digit is the one of its value. */
  lemma HexText(n: nat)
    ensures n < 16 ==> Hex(n) == [LOWER_HEX[n]]
    ensures n >= 16 ==> Hex(n) == Hex(n / 16) + [LOWER_HEX[n % 16]]
  {
  }

  /** "2" CR LF "hi" CR LF "0" CR LF CR LF */
  lemma ExampleBody()
    ensures Encode([[104, 105]]) + FINAL == [50, 13, 10, 104, 105, 13, 10, 48, 13, 10, 13, 10]
  {
    var one: seq<seq<byte>> := [[104, 105]];
    assert one[1..] == [];
    assert Encode(one) == EncodeChunk([104, 105]) + [];
    assert Hex(2) == [50];
  }

  function Pow16(d: nat): nat {
    if d == 0 then 1 else 16 * Pow16(d - 1)
  }

  lemma {:induction false} HexLength(n: nat, d: nat)
    requires 0 < d && n < Pow16(d)
    ensures 0 < |Hex(n)| <= d
  {
    if n >= 16 {
      assert Pow16(d) == 16 * Pow16(d - 1);
      HexLength(n / 16, d - 1);
    }
  }

  /** Reading back the digits of n leaves exactly n accumulated. */
  lemma {:induction false} ReadSizeOfHex(n: nat, t: seq<byte>)
    ensures ReadSize(Hex(n) + t, 0, false) == ReadSize(t, n, true)
  {
    if n < 16 {
      assert (Hex(n) + t)[1..] == t;
    } else {
      var d := [HexDigit(n % 16)];
      assert Hex(n) + t == Hex(n / 16) + (d + t);
      ReadSizeOfHex(n / 16, d + t);
      assert (d + t)[1..] == t;
    }
  }

  lemma ReadPrefix(n: nat, t: seq<byte>)
    ensures ReadSize(ChunkPrefix(n) + t, 0, false) == Some((n, t))
  {
    assert ChunkPrefix(n) + t == Hex(n) + (CRLF + t);
    ReadSizeOfHex(n, CRLF + t);
    assert (CRLF + t)[2..] == t;
  }

  /** One chunk is peeled off the front. */
  lemma DecodeChunk(data: seq<byte>, t: seq<byte>)
    requires data != []
    ensures Decode(EncodeChunk(data) + t) ==
            match Decode(t)
            case None => None
            case Some((body, end)) => Some((data + body, end))
  {
    var rest := data + (CRLF + t);
    assert EncodeChunk(data) + t == ChunkPrefix(|data|) + rest;
    ReadPrefix(|data|, rest);
    assert rest[..|data|] == data;
    assert rest[|data|..|data| + 2] == CRLF;
    assert rest[|data| + 2..] == t;
  }

  /** Decoding an encoded body returns the body and stops exactly at the end of the final chunk. */
  lemma {:induction false} DecodeOfEncode(chunks: seq<seq<byte>>, rest: seq<byte>)
    requires NoEmptyChunk(chunks)
    ensures Decode(Encode(chunks) + FINAL + rest) == Some((Concat(chunks), rest))
  {
    if chunks == [] {
      var t := CRLF + rest;
      assert Encode(chunks) + FINAL + rest == ChunkPrefix(0) + t;
      ReadPrefix(0, t);
      assert t[2..] == rest;
    } else {
      var t := Encode(chunks[1..]) + FINAL + rest;
      assert Encode(chunks) + FINAL + rest == EncodeChunk(chunks[0]) + t;
      DecodeChunk(chunks[0], t);
      DecodeOfEncode(chunks[1..], rest);
    }
  }

  lemma {:induction false} ReadSizeExtends(s: seq<byte>, x: seq<byte>, acc: nat, seen: bool)
    requires ReadSize(s, acc, seen).Some?
    ensures ReadSize(s + x, acc, seen) ==
            Some((ReadSize(s, acc, seen).value.0, ReadSize(s, acc, seen).value.1 + x))
    decreases s
  {
    assert (s + x)[0] == s[0];
    if HexVal(s[0]) >= 0 {
      assert (s + x)[1..] == s[1..] + x;
      ReadSizeExtends(s[1..], x, acc * 16 + HexVal(s[0]), true);
    } else {
      assert (s + x)[2..] == s[2..] + x;
      assert CRLF <= s + x;
    }
  }

  lemma {:induction false} DecodeExtends(s: seq<byte>, x: seq<byte>)
    requires Decode(s).Some?
    ensures Decode(s + x) == Some((Decode(s).value.0, Decode(s).value.1 + x))
    decreases |s|
  {
    ReadSizeExtends(s, x, 0, false);
    ReadSizeShrinks(s, 0, false);
    var (size, rest) := ReadSize(s, 0, false).value;
    if size == 0 {
      assert (rest + x)[2..] == rest[2..] + x;
      assert CRLF <= rest + x;
    } else {
      assert (rest + x)[..size] == rest[..size];
      assert (rest + x)[size..size + 2] == rest[size..size + 2];
      assert (rest + x)[size + 2..] == rest[size + 2..] + x;
      DecodeExtends(rest[size + 2..], x);
    }
  }

  /** A transfer cut short anywhere is never mistaken for a complete one. */
  lemma CutTransferIsIncomplete(chunks: seq<seq<byte>>, cut: nat)
    requires NoEmptyChunk(chunks)
    requires cut < |Encode(chunks) + FINAL|
    ensures Decode((Encode(chunks) + FINAL)[..cut]) == None
  {
    var full := Encode(chunks) + FINAL;
    DecodeOfEncode(chunks, []);
    assert full + [] == full;
    assert full[..cut] + full[cut..] == full;
    if Decode(full[..cut]).Some? {
      DecodeExtends(full[..cut], full[cut..]);
    }
  }

  lemma {:induction false} EncodeSnoc(chunks: seq<seq<byte>>, c: seq<byte>)
    ensures Encode(chunks + [c]) == Encode(chunks) + EncodeChunk(c)
    ensures Concat(chunks + [c]) == Concat(chunks) + c
  {
    if chunks == [] {
      assert [c][1..] == [];
    } else {
      EncodeSnoc(chunks[1..], c);
      assert (chunks + [c])[1..] == chunks[1..] + [c];
    }
  }
}
