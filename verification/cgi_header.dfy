/** Where the header block of a CGI script's output ends. */
module CgiHeader {
  import opened Bytes

  /** Length of the blank-line marker at i: LF LF, or CR LF CR LF; 0 if there is none. */
  function MarkAt(s: seq<byte>, i: nat): nat {
    if i + 1 < |s| && s[i] == LF && s[i + 1] == LF then 2
    else if i + 3 < |s| && s[i] == CR && s[i + 1] == LF && s[i + 2] == CR && s[i + 3] == LF then 4
    else 0
  }

  /** First offset past a blank-line marker that starts at i or later. */
  function FindEnd(s: seq<byte>, i: nat): Option<nat>
    decreases |s| - i
  {
    if i + 1 >= |s| then None
    else if MarkAt(s, i) > 0 then Some(i + MarkAt(s, i))
    else FindEnd(s, i + 1)
  }

  /** s[i..k] is LF LF or CR LF CR LF. */
  predicate IsMark(s: seq<byte>, i: nat, k: nat) {
    i < k <= |s| && (s[i..k] == [10, 10] || s[i..k] == [13, 10, 13, 10])
  }

  lemma MarkMeans(s: seq<byte>, i: nat)
    ensures forall k: nat :: IsMark(s, i, k) <==> MarkAt(s, i) > 0 && k == i + MarkAt(s, i)
  {
    if MarkAt(s, i) == 2 {
      assert s[i..i + 2] == [10, 10];
    }
    if MarkAt(s, i) == 4 {
      assert s[i..i + 4] == [13, 10, 13, 10];
    }
    forall k: nat | IsMark(s, i, k) ensures MarkAt(s, i) > 0 && k == i + MarkAt(s, i) {
      var x := s[i..k];
      assert x[0] == s[i] && x[1] == s[i + 1];
      if |x| == 4 { assert x[2] == s[i + 2] && x[3] == s[i + 3]; }
    }
  }

  /** k is behind the first mark. */
  ghost predicate SplitsAt(s: seq<byte>, k: nat) {
    exists i: nat :: IsMark(s, i, k) && forall j: nat, m: nat :: j < i ==> !IsMark(s, j, m)
  }

  lemma {:induction false} FindEndMeaning(s: seq<byte>, i: nat)
    requires forall j: nat, m: nat :: j < i ==> !IsMark(s, j, m)
    ensures forall k: nat :: FindEnd(s, i) == Some(k) <==> SplitsAt(s, k)
    decreases |s| - i
  {
    MarkMeans(s, i);
    if i + 1 < |s| {
      if MarkAt(s, i) == 0 {
        FindEndMeaning(s, i + 1);
      } else {
        var k := i + MarkAt(s, i);
        assert IsMark(s, i, k);
        forall m: nat ensures m == k <==> SplitsAt(s, m) {
          if SplitsAt(s, m) {
            var j: nat :| IsMark(s, j, m) && forall h: nat, n: nat :: h < j ==> !IsMark(s, h, n);
            assert j == i;
          }
        }
      }
    }
  }

  lemma FindEndBound(s: seq<byte>, i: nat)
    ensures FindEnd(s, i).Some? ==> FindEnd(s, i).value <= |s|
    decreases |s| - i
  {
    if i + 1 < |s| && MarkAt(s, i) == 0 {
      FindEndBound(s, i + 1);
    }
  }

  /** More input never moves a split point that has been found: a marker that
      straddles the end of s cannot start before one inside s. */
  lemma {:induction false} SplitIsStable(s: seq<byte>, t: seq<byte>, i: nat)
    requires FindEnd(s, i).Some?
    ensures FindEnd(s + t, i) == FindEnd(s, i)
    decreases |s| - i
  {
    if MarkAt(s, i) == 0 {
      SplitIsStable(s, t, i + 1);
    }
  }
}
