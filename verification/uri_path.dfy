/** Normal form of absolute paths: the stack-of-lengths algorithm against a
    reading of the path as a list of segments. */
module UriPath {
  import opened Bytes

  const STACK_CAP := 256

  type Segments = seq<seq<byte>>

  function NextSlash(s: seq<byte>, i: nat): (j: nat)
    requires i <= |s|
    ensures i <= j <= |s|
    ensures forall k :: i <= k < j ==> s[k] != SLASH
    ensures j < |s| ==> s[j] == SLASH
    decreases |s| - i
  {
    if i == |s| || s[i] == SLASH then i else NextSlash(s, i + 1)
  }

  /** The segments behind position i, without an empty one at the end. */
  function SegmentsFrom(s: seq<byte>, i: nat): Segments
    decreases |s| - i
  {
    if i >= |s| then [] else
      var j := NextSlash(s, i);
      [s[i..j]] + SegmentsFrom(s, j + 1)
  }

  predicate IsDot(x: seq<byte>) {
    x == [DOT]
  }

  predicate IsUp(x: seq<byte>) {
    x == [DOT, DOT]
  }

  /** A segment that names something. */
  predicate IsName(x: seq<byte>) {
    x != [] && !IsDot(x) && !IsUp(x)
  }

  /** Reads segments from left to right: `..` leaves the last directory entered. */
  function Resolve(segments: Segments, dirs: Segments): Option<Segments>
    decreases |segments|
  {
    if segments == [] then Some(dirs) else
      var x, rest := segments[0], segments[1..];
      if IsUp(x) then if dirs == [] then None else Resolve(rest, dirs[..|dirs| - 1])
      else Resolve(rest, if IsName(x) then dirs + [x] else dirs)
  }

  function Render(names: Segments): seq<byte> {
    if names == [] then [] else [SLASH] + names[0] + Render(names[1..])
  }

  /** The root is a slash; below it every name is behind one. */
  function PathText(names: Segments): seq<byte> {
    if names == [] then [SLASH] else Render(names)
  }

  predicate EndsInSlash(s: seq<byte>) {
    s != [] && s[|s| - 1] == SLASH
  }

  predicate Absolute(s: seq<byte>) {
    s != [] && s[0] == SLASH
  }

  function Normal(path: seq<byte>): Option<seq<byte>> {
    if !Absolute(path) then None else
      match Resolve(SegmentsFrom(path, 1), [])
      case None => None
      case Some(names) => Some(PathText(names) + if EndsInSlash(path) && names != [] then [SLASH] else [])
  }

  // ---------- When it fails ----------

  /** Names entered less directories left. */
  function Depth(segments: Segments): int {
    if segments == [] then 0 else
      var x := segments[|segments| - 1];
      Depth(segments[..|segments| - 1]) + (if IsUp(x) then -1 else if IsName(x) then 1 else 0)
  }

  ghost predicate Climbs(segments: Segments, from: nat) {
    exists k: nat :: k <= |segments| && from + Depth(segments[..k]) < 0
  }

  lemma {:induction false} DepthOfTail(segments: Segments)
    requires segments != []
    ensures Depth(segments) == Depth(segments[..1]) + Depth(segments[1..])
  {
    var n := |segments|;
    if n == 1 {
      assert segments[..1] == segments && segments[1..] == [];
    } else {
      var front := segments[..n - 1];
      DepthOfTail(front);
      assert front[..1] == segments[..1] && front[1..] == segments[1..][..n - 2];
    }
  }

  lemma DepthOfOne(segments: Segments)
    requires segments != []
    ensures Depth(segments[..1]) == if IsUp(segments[0]) then -1 else if IsName(segments[0]) then 1 else 0
  {
    assert segments[..1][..0] == [];
  }

  /** Resolution fails exactly when some prefix leaves more directories than were entered. */
  lemma {:induction false} FailsIffClimbs(segments: Segments, dirs: Segments)
    ensures Resolve(segments, dirs).None? <==> Climbs(segments, |dirs|)
    decreases |segments|
  {
    if segments == [] {
      assert forall k: nat :: k <= 0 ==> segments[..k] == [];
    } else {
      var rest := segments[1..];
      DepthOfOne(segments);
      var step := Depth(segments[..1]);
      forall k: nat | 1 <= k <= |segments| ensures Depth(segments[..k]) == step + Depth(rest[..k - 1]) {
        DepthOfTail(segments[..k]);
        assert segments[..k][..1] == segments[..1] && segments[..k][1..] == rest[..k - 1];
      }
      assert Depth(segments[..0]) == 0;
      if |dirs| + step < 0 {
        assert Climbs(segments, |dirs|);
      } else {
        var x := segments[0];
        FailsIffClimbs(rest, if IsUp(x) then dirs[..|dirs| - 1] else if IsName(x) then dirs + [x] else dirs);
        if Climbs(rest, |dirs| + step) {
          var k: nat :| k <= |rest| && |dirs| + step + Depth(rest[..k]) < 0;
          assert |dirs| + Depth(segments[..k + 1]) < 0;
        }
        if Climbs(segments, |dirs|) {
          var k: nat :| k <= |segments| && |dirs| + Depth(segments[..k]) < 0;
          assert |dirs| + step + Depth(rest[..k - 1]) < 0;
        }
      }
    }
  }

  /** An absolute path has no normal form exactly when it climbs above the root on the way. */
  lemma NormalFailsIff(path: seq<byte>)
    ensures Normal(path).None? <==> !Absolute(path) || Climbs(SegmentsFrom(path, 1), 0)
  {
    FailsIffClimbs(SegmentsFrom(path, 1), []);
  }

  // ---------- What it yields ----------

  ghost predicate Proper(x: seq<byte>) {
    IsName(x) && SLASH !in x
  }

  ghost predicate AllProper(names: Segments) {
    forall i :: 0 <= i < |names| ==> Proper(names[i])
  }

  lemma {:induction false} SegmentsHaveNoSlash(s: seq<byte>, i: nat)
    ensures forall k :: 0 <= k < |SegmentsFrom(s, i)| ==> SLASH !in SegmentsFrom(s, i)[k]
    decreases |s| - i
  {
    if i < |s| {
      SegmentsHaveNoSlash(s, NextSlash(s, i) + 1);
    }
  }

  lemma {:induction false} ResolvedAreProper(segments: Segments, dirs: Segments)
    requires AllProper(dirs) && forall k :: 0 <= k < |segments| ==> SLASH !in segments[k]
    ensures Resolve(segments, dirs).Some? ==> AllProper(Resolve(segments, dirs).value)
    decreases |segments|
  {
    if segments != [] {
      var x := segments[0];
      if !IsUp(x) || dirs != [] {
        ResolvedAreProper(segments[1..], if IsUp(x) then dirs[..|dirs| - 1] else if IsName(x) then dirs + [x] else dirs);
      }
    }
  }

  /** The names of a normal path, none of them empty, `.` or `..`. */
  lemma NormalIsProper(path: seq<byte>) returns (names: Segments)
    requires Normal(path).Some?
    ensures AllProper(names)
    ensures forall i :: 0 <= i < |names| ==> names[i] !in {[], [46], [46, 46]} && SLASH !in names[i]
    ensures Normal(path) == Some(PathText(names) + if EndsInSlash(path) && names != [] then [SLASH] else [])
  {
    SegmentsHaveNoSlash(path, 1);
    ResolvedAreProper(SegmentsFrom(path, 1), []);
    names := Resolve(SegmentsFrom(path, 1), []).value;
  }

  lemma {:induction false} RenderSnoc(names: Segments, x: seq<byte>)
    ensures Render(names + [x]) == Render(names) + [SLASH] + x
  {
    if names == [] {
      assert [x][1..] == [];
    } else {
      assert (names + [x])[1..] == names[1..] + [x];
      RenderSnoc(names[1..], x);
    }
  }

  lemma {:induction false} RenderPrefix(names: Segments, k: nat)
    requires k <= |names|
    ensures Render(names[..k]) <= Render(names)
    decreases |names| - k
  {
    if k == |names| {
      assert names[..k] == names;
    } else {
      RenderPrefix(names, k + 1);
      assert names[..k + 1] == names[..k] + [names[k]];
      RenderSnoc(names[..k], names[k]);
    }
  }

  /** Reading a rendered path back gives its names. */
  lemma {:induction false} SegmentsOfRender(s: seq<byte>, p: nat, names: Segments, tail: seq<byte>)
    requires AllProper(names) && names != [] && (tail == [] || tail == [SLASH])
    requires p <= |s| && s[p..] == Render(names) + tail
    ensures SegmentsFrom(s, p + 1) == names
    decreases |names|
  {
    hide SegmentsFrom, Render, AllProper;
    FirstName(s, p, names, tail);
    HeadAndTail(names);
    if |names| > 1 { SegmentsOfRender(s, p + 1 + |names[0]|, names[1..], tail); }
  }

  lemma FirstName(s: seq<byte>, p: nat, names: Segments, tail: seq<byte>)
    requires AllProper(names) && names != [] && (tail == [] || tail == [SLASH])
    requires p <= |s| && s[p..] == Render(names) + tail
    ensures var q := p + 1 + |names[0]|;
            && AllProper(names[1..]) && q <= |s| && s[q..] == Render(names[1..]) + tail
            && SegmentsFrom(s, p + 1) == [names[0]] + if |names| == 1 then [] else SegmentsFrom(s, q + 1)
  {
    hide SegmentsFrom, Render, AllProper;
    RenderFirst(names);
    NameAt(s, p, names[0], Render(names[1..]), tail);
    NameFirst(s, p + 1, names[0], |names| == 1);
  }

  lemma HeadAndTail(names: Segments)
    requires names != []
    ensures names == [names[0]] + names[1..]
  {
  }

  lemma RenderFirst(names: Segments)
    requires AllProper(names) && names != []
    ensures names[0] != [] && SLASH !in names[0] && Render(names) == [SLASH] + names[0] + Render(names[1..])
    ensures AllProper(names[1..]) && (|names| == 1 ==> Render(names[1..]) == [])
    ensures Render(names[1..]) != [] ==> Render(names[1..])[0] == SLASH
  {
    assert Proper(names[0]);
  }

  lemma NameFirst(s: seq<byte>, i: nat, x: seq<byte>, last: bool)
    requires x != [] && SLASH !in x && i + |x| <= |s| && s[i..i + |x|] == x && (i + |x| < |s| ==> s[i + |x|] == SLASH)
    requires last ==> |s| <= i + |x| + 1
    ensures SegmentsFrom(s, i) == [x] + if last then [] else SegmentsFrom(s, i + |x| + 1)
  {
    EndOfName(s, i, i + |x|);
    if last { NoSegment(s, i + |x| + 1); }
  }

  lemma NoSegment(s: seq<byte>, i: nat)
    requires i >= |s|
    ensures SegmentsFrom(s, i) == []
  {
  }

  lemma NameAt(s: seq<byte>, p: nat, x: seq<byte>, r: seq<byte>, tail: seq<byte>)
    requires p <= |s| && s[p..] == [SLASH] + x + r + tail
    requires (r != [] ==> r[0] == SLASH) && (tail != [] ==> tail[0] == SLASH)
    ensures var q := p + 1 + |x|;
            && q <= |s| && s[p + 1..q] == x && s[q..] == r + tail && |s| == q + |r| + |tail|
            && (q < |s| ==> s[q] == SLASH)
  {
    var u, q := s[p..], p + 1 + |x|;
    assert u[1..1 + |x|] == x && u[1 + |x|..] == r + tail;
    assert s[p + 1..q] == u[1..1 + |x|] && s[q..] == u[1 + |x|..];
  }

  lemma {:induction false} EndOfName(s: seq<byte>, i: nat, j: nat)
    requires i <= j <= |s| && SLASH !in s[i..j] && (j < |s| ==> s[j] == SLASH)
    ensures NextSlash(s, i) == j
    decreases j - i
  {
    if i < j {
      assert s[i] == s[i..j][0] && s[i + 1..j] == s[i..j][1..];
      EndOfName(s, i + 1, j);
    }
  }

  lemma {:induction false} NamesResolveToThemselves(names: Segments, dirs: Segments)
    requires AllProper(names)
    ensures Resolve(names, dirs) == Some(dirs + names)
    decreases |names|
  {
    if names == [] {
      assert dirs + [] == dirs;
    } else {
      assert Proper(names[0]);
      NamesResolveToThemselves(names[1..], dirs + [names[0]]);
      assert (dirs + [names[0]]) + names[1..] == dirs + names;
    }
  }

  lemma TextIsNormal(names: Segments, tail: seq<byte>)
    requires AllProper(names) && names != [] && (tail == [] || tail == [SLASH])
    ensures Normal(Render(names) + tail) == Some(Render(names) + tail)
  {
    hide SegmentsFrom, Resolve, AllProper;
    var q := Render(names) + tail;
    assert q[0..] == q;
    SegmentsOfRender(q, 0, names, tail);
    NamesResolveToThemselves(names, []);
    assert [] + names == names;
    LastByte(names, tail);
  }

  /** A normal path is its own normal form. */
  lemma NormalAgain(path: seq<byte>)
    requires Normal(path).Some?
    ensures Normal(Normal(path).value) == Normal(path)
  {
    hide Normal;
    var names := NormalIsProper(path);
    if names == [] {
      RootIsNormal();
      assert PathText([]) + [] == [SLASH];
    } else {
      TextIsNormal(names, if EndsInSlash(path) then [SLASH] else []);
    }
  }

  lemma RootIsNormal()
    ensures Normal([SLASH]) == Some([SLASH])
  {
    NoSegment([SLASH], 1);
    assert [SLASH] + [] == [SLASH];
  }

  /** Below the root the normal form ends in a slash exactly when the path did. */
  lemma {:induction false} LastByte(names: Segments, tail: seq<byte>)
    requires names != [] && AllProper(names) && (tail == [] || tail == [SLASH])
    ensures EndsInSlash(Render(names) + tail) <==> tail == [SLASH]
  {
    var n := |names| - 1;
    assert names == names[..n] + [names[n]];
    RenderSnoc(names[..n], names[n]);
    assert Proper(names[n]);
    var x, r := names[n], Render(names);
    assert r[|r| - 1] == x[|x| - 1] && x[|x| - 1] in x;
  }

  /** No normal form is longer than the path. */
  lemma {:induction false} ResolveShrinks(segments: Segments, dirs: Segments)
    ensures Resolve(segments, dirs).Some? ==> |Render(Resolve(segments, dirs).value)| <= |Render(dirs)| + |Render(segments)|
    decreases |segments|
  {
    if segments != [] {
      var x := segments[0];
      if IsUp(x) {
        if dirs != [] {
          RenderPrefix(dirs, |dirs| - 1);
          ResolveShrinks(segments[1..], dirs[..|dirs| - 1]);
        }
      } else {
        RenderSnoc(dirs, x);
        ResolveShrinks(segments[1..], if IsName(x) then dirs + [x] else dirs);
      }
    }
  }
}
