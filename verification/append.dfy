/** Formatted text appended to a fixed buffer, the results of the single calls
    being ignored, as error and file replies are put together. */
module Append {
  import opened Bytes

  /** The bytes of a text that fit a buffer of `cap` bytes with its terminator. */
  function Fitting(text: seq<byte>, cap: nat): seq<byte>
    requires cap > 0
  {
    text[..Min(|text|, cap - 1)]
  }

  function Joined(texts: seq<seq<byte>>): seq<byte> {
    if texts == [] then [] else Joined(texts[..|texts| - 1]) + texts[|texts| - 1]
  }

  lemma JoinedMore(texts: seq<seq<byte>>, x: seq<byte>)
    ensures Joined([]) == [] && Joined(texts + [x]) == Joined(texts) + x
  {
    assert (texts + [x])[..|texts|] == texts;
  }

  /** Cutting at every step cuts off no more than cutting once at the end. */
  lemma CutOnce(a: seq<byte>, b: seq<byte>, cap: nat)
    requires cap > 0
    ensures Fitting(Fitting(a, cap) + b, cap) == Fitting(a + b, cap)
  {
    if |a| <= cap - 1 {
      assert Fitting(a, cap) == a;
    } else {
      assert Fitting(a, cap) == (a + b)[..cap - 1];
      assert (Fitting(a, cap) + b)[..cap - 1] == Fitting(a, cap);
    }
  }

  /** Appends what fits behind the first `len` bytes, and a terminator.  Fails
      when something had to be cut off. */
  method Appendf(buf: array<byte>, len: nat, text: seq<byte>) returns (ok: bool, len': nat)
    modifies buf
    ensures len >= buf.Length ==> !ok && len' == len && buf[..] == old(buf[..])
    ensures len < buf.Length ==> len' < buf.Length && buf[..len'] == Fitting(old(buf[..len]) + text, buf.Length) && buf[len'] == 0
    ensures len < buf.Length ==> (ok <==> len + |text| < buf.Length)
    ensures len < buf.Length ==> len' == Min(len + |text|, buf.Length - 1) && buf[..len'] <= old(buf[..len]) + text
  {
    if len >= buf.Length { return false, len; }
    var n := Min(|text|, buf.Length - len - 1);
    ghost var before := buf[..len];
    forall i | 0 <= i < n { buf[len + i] := text[i]; }
    buf[len + n] := 0;
    len' := len + n;
    ok := |text| < buf.Length - len;
    assert buf[..len'] == before + text[..n];
  }

  /** However many pieces are appended, the buffer holds the first bytes of their
      concatenation, and its length says exactly how many. */
  method AppendAll(buf: array<byte>, texts: seq<seq<byte>>) returns (len: nat)
    requires buf.Length > 0
    modifies buf
    ensures len < buf.Length && buf[..len] == Fitting(Joined(texts), buf.Length)
    ensures len == Min(|Joined(texts)|, buf.Length - 1) && buf[..len] <= Joined(texts)
  {
    len := 0;
    var i := 0;
    while i < |texts|
      invariant i <= |texts| && len < buf.Length && buf[..len] == Fitting(Joined(texts[..i]), buf.Length)
    {
      CutOnce(Joined(texts[..i]), texts[i], buf.Length);
      assert texts[..i + 1][..i] == texts[..i];
      var ok;
      ok, len := Appendf(buf, len, texts[i]);
      i := i + 1;
    }
    assert texts[..i] == texts;
  }
}
