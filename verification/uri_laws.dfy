/** What normalisation and the mapping of targets mean for the text of paths:
    laws about appending to a path, without the list of names behind them. */
module UriLaws {
  import opened Bytes
  import opened UriPath
  import opened UriFile
  import Percent

  // ---------- Normal form of a longer path ----------

  /** One more segment at the end: `..` leaves a directory, `.` and an empty one
      change nothing, any other name is entered. */
  lemma {:induction false} ResolveSnoc(segments: Segments, x: seq<byte>, dirs: Segments)
    ensures Resolve(segments + [x], dirs) ==
            match Resolve(segments, dirs)
            case None => None
            case Some(d) =>
              if x == [46, 46] then if d == [] then None else Some(d[..|d| - 1])
              else if x == [46] || x == [] then Some(d)
              else Some(d + [x])
    decreases |segments|
  {
    if segments == [] {
      assert [] + [x] == [x] && [x][1..] == [];
    } else {
      var s, rest := segments[0], segments[1..];
      assert (segments + [x])[0] == s && (segments + [x])[1..] == rest + [x];
      if !IsUp(s) || dirs != [] {
        ResolveSnoc(rest, x, if IsUp(s) then dirs[..|dirs| - 1] else if IsName(s) then dirs + [s] else dirs);
      }
    }
  }

  lemma {:induction false} SlashAhead(s: seq<byte>, t: seq<byte>, i: nat)
    requires i < |s| && (EndsInSlash(s) || NextSlash(s, i) < |s|)
    ensures NextSlash(s + t, i) == NextSlash(s, i) < |s|
    decreases |s| - i
  {
    assert (s + t)[i] == s[i];
    if s[i] != SLASH { SlashAhead(s, t, i + 1); }
  }

  lemma {:induction false} NoSlashAhead(s: seq<byte>, i: nat)
    requires i <= |s| && forall k :: i <= k < |s| ==> s[k] != SLASH
    ensures NextSlash(s, i) == |s|
    decreases |s| - i
  {
    if i < |s| { NoSlashAhead(s, i + 1); }
  }

  lemma SameSegment(p: seq<byte>, t: seq<byte>, i: nat)
    requires EndsInSlash(p) && i < |p|
    ensures var j := NextSlash(p, i);
            && j < |p| && SegmentsFrom(p, i) == [p[i..j]] + SegmentsFrom(p, j + 1)
            && SegmentsFrom(p + t, i) == [p[i..j]] + SegmentsFrom(p + t, j + 1)
  {
    hide SegmentsFrom, NextSlash;
    SlashAhead(p, t, i);
    SameSlice(p, t, i, NextSlash(p, i));
    OneSegmentMore(p, i);
    OneSegmentMore(p + t, i);
  }

  lemma OneSegmentMore(s: seq<byte>, i: nat)
    requires i < |s|
    ensures SegmentsFrom(s, i) == [s[i..NextSlash(s, i)]] + SegmentsFrom(s, NextSlash(s, i) + 1)
  {
  }

  lemma SameSlice(p: seq<byte>, t: seq<byte>, i: nat, j: nat)
    requires i <= j <= |p|
    ensures (p + t)[i..j] == p[i..j]
  {
  }

  /** Behind a slash, x is one more segment. */
  lemma {:induction false} SegmentBehindSlash(p: seq<byte>, i: nat, x: seq<byte>)
    requires EndsInSlash(p) && i <= |p| && x != [] && SLASH !in x
    ensures SegmentsFrom(p + x, i) == SegmentsFrom(p, i) + [x]
    decreases |p| - i
  {
    hide SegmentsFrom, NextSlash;
    if i == |p| {
      OnlySegment(p, x);
    } else {
      SameSegment(p, x, i);
      var j := NextSlash(p, i);
      SegmentBehindSlash(p, j + 1, x);
      Associative([p[i..j]], SegmentsFrom(p, j + 1), [x]);
    }
  }

  lemma OnlySegment(p: seq<byte>, x: seq<byte>)
    requires x != [] && SLASH !in x
    ensures SegmentsFrom(p + x, |p|) == SegmentsFrom(p, |p|) + [x]
  {
    var s := p + x;
    NoSlashAhead(s, |p|);
    assert s[|p|..] == x && s[|p|..|s|] == s[|p|..];
    NoSegment(s, |s| + 1);
    NoSegment(p, |p|);
    hide SegmentsFrom, NextSlash;
    assert [x] + [] == [x] && [] + [x] == [x];
  }

  /** A second slash is an empty segment. */
  lemma {:induction false} SlashBehindSlash(p: seq<byte>, i: nat)
    requires EndsInSlash(p) && i <= |p|
    ensures SegmentsFrom(p + [SLASH], i) == SegmentsFrom(p, i) + [[]]
    decreases |p| - i
  {
    hide SegmentsFrom, NextSlash;
    if i == |p| {
      EmptySegment(p);
    } else {
      SameSegment(p, [SLASH], i);
      var j := NextSlash(p, i);
      SlashBehindSlash(p, j + 1);
      Associative([p[i..j]], SegmentsFrom(p, j + 1), [[]]);
    }
  }

  lemma EmptySegment(p: seq<byte>)
    ensures SegmentsFrom(p + [SLASH], |p|) == SegmentsFrom(p, |p|) + [[]]
  {
    var s := p + [SLASH];
    assert s[|p|] == SLASH && s[|p|..|p|] == [];
    NoSegment(s, |s|);
    NoSegment(p, |p|);
    hide SegmentsFrom;
    var one: Segments := [[]];
    assert one + [] == one && [] + one == one;
  }

  /** A slash behind a name ends its segment. */
  lemma {:induction false} SlashBehindName(q: seq<byte>, i: nat)
    requires !EndsInSlash(q) && i != |q|
    ensures SegmentsFrom(q + [SLASH], i) == SegmentsFrom(q, i)
    decreases |q| - i
  {
    hide SegmentsFrom, NextSlash;
    if i > |q| {
      NoSegment(q, i);
      NoSegment(q + [SLASH], i);
    } else {
      SameNextSlash(q, i);
      SameSlice(q, [SLASH], i, NextSlash(q, i));
      OneSegmentMore(q, i);
      OneSegmentMore(q + [SLASH], i);
      SlashBehindName(q, NextSlash(q, i) + 1);
    }
  }

  lemma SameNextSlash(q: seq<byte>, i: nat)
    requires i < |q|
    ensures NextSlash(q + [SLASH], i) == NextSlash(q, i)
    ensures NextSlash(q, i) + 1 == |q| ==> EndsInSlash(q)
  {
    if NextSlash(q, i) < |q| { SlashAhead(q, [SLASH], i); } else { NameUpTo(q, i); }
  }

  lemma {:induction false} NameUpTo(q: seq<byte>, i: nat)
    requires i <= |q| && NextSlash(q, i) == |q|
    ensures NextSlash(q + [SLASH], i) == |q|
    decreases |q| - i
  {
    assert (q + [SLASH])[|q|] == SLASH;
    if i < |q| {
      assert (q + [SLASH])[i] == q[i];
      NameUpTo(q, i + 1);
    }
  }

  /** The directories of a path that ends in a slash, with the slash behind them. */
  function DirText(names: Segments): seq<byte> {
    Render(names) + [SLASH]
  }

  lemma DirIsNormal(p: seq<byte>) returns (names: Segments)
    requires Absolute(p) && EndsInSlash(p) && Normal(p).Some?
    ensures Resolve(SegmentsFrom(p, 1), []) == Some(names) && AllProper(names) && Normal(p) == Some(DirText(names))
  {
    SegmentsHaveNoSlash(p, 1);
    ResolvedAreProper(SegmentsFrom(p, 1), []);
    names := Resolve(SegmentsFrom(p, 1), []).value;
    assert [] + [SLASH] == [SLASH] && [SLASH] + [] == [SLASH];
  }

  lemma RootOnly()
    ensures Normal([SLASH]) == Some([SLASH])
  {
    RootIsNormal();
  }

  /** Another slash changes nothing. */
  lemma NormalSlash(p: seq<byte>)
    requires Absolute(p) && EndsInSlash(p)
    ensures Normal(p + [SLASH]) == Normal(p)
  {
    SlashBehindSlash(p, 1);
    ResolveSnoc(SegmentsFrom(p, 1), [], []);
    assert (p + [SLASH])[|p|] == SLASH;
  }

  /** A slash behind a name is kept; the root has only one. */
  lemma NormalDirectory(q: seq<byte>)
    requires Absolute(q) && !EndsInSlash(q)
    ensures Normal(q + [SLASH]) ==
            match Normal(q)
            case None => None
            case Some(n) => Some(if n == [SLASH] then n else n + [SLASH])
  {
    assert |q| > 1;
    SlashBehindName(q, 1);
    assert (q + [SLASH])[|q|] == SLASH;
    hide SegmentsFrom, Resolve;
    if Normal(q).Some? {
      var names := Resolve(SegmentsFrom(q, 1), []).value;
      assert PathText(names) + [] == PathText(names);
      RenderedIsLonger(q, names);
    }
  }

  lemma RenderedIsLonger(q: seq<byte>, names: Segments)
    requires Resolve(SegmentsFrom(q, 1), []) == Some(names)
    ensures names != [] ==> Render(names) != [SLASH]
  {
    SegmentsHaveNoSlash(q, 1);
    ResolvedAreProper(SegmentsFrom(q, 1), []);
    if names != [] { assert Proper(names[0]) && |Render(names)| >= 1 + |names[0]|; }
  }

  lemma ResolveBehind(p: seq<byte>, x: seq<byte>)
    requires Absolute(p) && EndsInSlash(p) && x != [] && SLASH !in x
    ensures Absolute(p + x) && !EndsInSlash(p + x)
    ensures Resolve(SegmentsFrom(p + x, 1), []) ==
            match Resolve(SegmentsFrom(p, 1), [])
            case None => None
            case Some(d) =>
              if x == [46, 46] then if d == [] then None else Some(d[..|d| - 1])
              else if x == [46] then Some(d)
              else Some(d + [x])
  {
    SegmentBehindSlash(p, 1, x);
    ResolveSnoc(SegmentsFrom(p, 1), x, []);
    assert (p + x)[|p + x| - 1] == x[|x| - 1] && x[|x| - 1] in x;
  }

  /** A name behind a slash is kept, `.` is dropped with its slash. */
  lemma NormalName(p: seq<byte>, x: seq<byte>)
    requires Absolute(p) && EndsInSlash(p) && x != [] && SLASH !in x && x != [46, 46]
    ensures Normal(p + x) ==
            match Normal(p)
            case None => None
            case Some(n) =>
              Some(if x != [46] then n + x else if n == [SLASH] then n else n[..|n| - 1])
    ensures Normal(p).Some? ==> EndsInSlash(Normal(p).value)
  {
    ResolveBehind(p, x);
    if Normal(p).Some? {
      var names := DirIsNormal(p);
      hide SegmentsFrom, Resolve;
      RenderSnoc(names, x);
      TextOf(names);
      TextOf(names + [x]);
      assert DirText(names) + x == Render(names + [x]);
    }
  }

  lemma TextOf(names: Segments)
    ensures PathText(names) + [] == if names == [] then [SLASH] else Render(names)
    ensures DirText(names)[..|DirText(names)| - 1] == Render(names) && (names == [] ==> DirText(names) == [SLASH])
    ensures names != [] ==> |DirText(names)| > 1 && DirText(names) != [SLASH]
  {
    if names != [] { assert |Render(names)| >= 1; }
  }

  /** `..` takes the last directory away, and fails at the root. */
  lemma NormalUp(p: seq<byte>, m: seq<byte>, y: seq<byte>)
    requires Absolute(p) && EndsInSlash(p)
    ensures Normal(p) == None || Normal(p) == Some([SLASH]) ==> Normal(p + [46, 46]) == None
    ensures EndsInSlash(m) && y != [] && SLASH !in y && Normal(p) == Some(m + y + [SLASH]) ==>
              Normal(p + [46, 46]) == Some(if m == [SLASH] then m else m[..|m| - 1])
  {
    ResolveBehind(p, [46, 46]);
    if Normal(p).Some? {
      var names := DirIsNormal(p);
      UpText(p, names);
      hide Normal, Render, AllProper;
      if names == [] {
        assert |m + y + [SLASH]| > 1 || m == [] || y == [];
      } else if EndsInSlash(m) && y != [] && SLASH !in y && Normal(p) == Some(m + y + [SLASH]) {
        LastDirectory(names, m, y);
        TextOf(names[..|names| - 1]);
      }
    }
  }

  lemma UpText(p: seq<byte>, names: Segments)
    requires Absolute(p) && EndsInSlash(p) && Resolve(SegmentsFrom(p, 1), []) == Some(names)
    ensures names == [] ==> Normal(p + [46, 46]) == None && DirText(names) == [SLASH]
    ensures names != [] ==> Normal(p + [46, 46]) == Some(PathText(names[..|names| - 1]) + []) && DirText(names) != [SLASH]
  {
    ResolveBehind(p, [46, 46]);
    TextOf(names);
  }

  lemma LastDirectory(names: Segments, m: seq<byte>, y: seq<byte>)
    requires names != [] && AllProper(names) && EndsInSlash(m) && SLASH !in y
    requires m + y + [SLASH] == DirText(names)
    ensures m == DirText(names[..|names| - 1])
  {
    var n := |names| - 1;
    var less, z := names[..n], names[n];
    assert names == less + [z] && Proper(z);
    RenderSnoc(less, z);
    var front := m[..|m| - 1];
    assert m == front + [SLASH];
    assert front + [SLASH] + y == (m + y + [SLASH])[..|m + y|];
    assert Render(less) + [SLASH] + z == DirText(names)[..|Render(names)|];
    LastComponentIs(front, y);
    LastComponentIs(Render(less), z);
    assert m + y == DirText(less) + z;
    assert m == (m + y)[..|m|];
  }

  // ---------- From target to file ----------

  /** A query is ignored, but counts for the length. */
  lemma QueryIgnored(path: seq<byte>, query: seq<byte>)
    requires QUESTION !in path && |path| + 1 + |query| <= 256
    ensures Wanted(path + [QUESTION] + query) == Wanted(path)
  {
    BeforeQueryIs(path + [QUESTION] + query, path);
    BeforeQueryIs(path, path);
  }

  lemma {:induction false} BeforeQueryIs(uri: seq<byte>, p: seq<byte>)
    requires p <= uri && QUESTION !in p && (|p| < |uri| ==> uri[|p|] == QUESTION)
    ensures BeforeQuery(uri) == p
    decreases |p|
  {
    if p != [] {
      assert uri[0] == p[0] && p[0] in p;
      BeforeQueryIs(uri[1..], p[1..]);
      assert p == [p[0]] + p[1..];
    }
  }

  /** A target nothing in which is special stands for itself. */
  lemma {:induction false} PlainDecodes(s: seq<byte>)
    requires Percent.Clean(s) && PERCENT !in s
    ensures Percent.Decode(s) == Some(s)
  {
    if s != [] {
      assert s[0] in s;
      PlainDecodes(s[1..]);
      assert s == [s[0]] + s[1..];
    }
  }

  /** What is wanted, from the normal names: the index of a directory or of a
      last name without a dot, else the names themselves. */
  lemma WantedIs(uri: seq<byte>)
    ensures Wanted(uri).Some? <==>
              && 1 <= |uri| <= 256 && BeforeQuery(uri) != [] && Percent.Decode(BeforeQuery(uri)).Some?
              && Normal(Percent.Decode(BeforeQuery(uri)).value).Some?
    ensures Wanted(uri).Some? ==>
              var d := Percent.Decode(BeforeQuery(uri)).value;
              exists names ::
                && Resolve(SegmentsFrom(d, 1), []) == Some(names)
                && Wanted(uri).value ==
                   if names == [] || d[|d| - 1] == SLASH || 46 !in names[|names| - 1]
                   then names + [[105, 110, 100, 101, 120, 46, 104, 116, 109, 108]] else names
  {
  }

  /** The root is its index page; a single name is itself if it has a dot, else
      a directory. */
  lemma SingleName(x: seq<byte>)
    requires |x| <= 255 && Percent.Clean(x) && PERCENT !in x && SLASH !in x && QUESTION !in x && x != [46] && x != [46, 46]
    ensures Wanted([SLASH] + x) == Some(if x == [] then [INDEX] else if 46 in x then [x] else [x, INDEX])
  {
    hide Resolve, SegmentsFrom, Percent.Decode;
    var uri := [SLASH] + x;
    PlainUri(x);
    SingleResolved(x);
    WantedIs(uri);
    if x != [] && 46 !in x { assert [x] + [INDEX] == [x, INDEX]; }
    assert x != [] ==> uri[|uri| - 1] == x[|x| - 1] && x[|x| - 1] in x;
    assert [] + [INDEX] == [INDEX];
  }

  lemma PlainUri(x: seq<byte>)
    requires Percent.Clean(x) && PERCENT !in x && QUESTION !in x
    ensures BeforeQuery([SLASH] + x) == [SLASH] + x && Percent.Decode([SLASH] + x) == Some([SLASH] + x)
  {
    var uri := [SLASH] + x;
    BeforeQueryIs(uri, uri);
    PlainDecodes(uri);
  }

  lemma SingleResolved(x: seq<byte>)
    requires SLASH !in x && x != [46] && x != [46, 46]
    ensures Resolve(SegmentsFrom([SLASH] + x, 1), []) == Some(if x == [] then [] else [x])
  {
    var root: seq<byte> := [SLASH];
    NoSegment(root, 1);
    if x == [] {
      assert root + x == root;
    } else {
      ResolveBehind(root, x);
      assert [] + [x] == [x];
    }
  }
}
