/** The in-place normaliser and the mapping of a request target to a file. */
module UriFile {
  import opened Bytes
  import opened UriPath
  import Percent

  const SHORTLINE := 512
  const MAX_URI := SHORTLINE / 2
  const INDEX: seq<byte> := [105, 110, 100, 101, 120, 46, 104, 116, 109, 108]

  /** out[..len] is the text of the names entered so far, and the stack holds
      the lengths at which each of them ends. */
  ghost predicate Holds(out: seq<byte>, len: nat, stack: seq<nat>, sp: nat, names: Segments) {
    && sp == |names| <= |stack| && len == |PathText(names)| < |out| && out[..len] == PathText(names)
    && AllNames(names) && forall k :: 1 <= k <= sp ==> stack[k - 1] == |Render(names[..k])|
  }

  ghost predicate AllNames(names: Segments) {
    forall i :: 0 <= i < |names| ==> IsName(names[i])
  }

  lemma {:induction false} RenderLength(names: Segments)
    requires AllNames(names)
    ensures |Render(names)| >= 2 * |names|
  {
    if names != [] {
      assert IsName(names[0]);
      RenderLength(names[1..]);
    }
  }

  lemma TextOfMore(names: Segments, x: seq<byte>)
    ensures PathText(names + [x]) == (if names == [] then [] else PathText(names)) + [SLASH] + x
    ensures forall k :: 0 <= k <= |names| ==> (names + [x])[..k] == names[..k]
    ensures (names + [x])[..|names| + 1] == names + [x]
  {
    RenderSnoc(names, x);
  }

  /** Appends one name behind a slash and stacks the new length. */
  method EnterDir(x: seq<byte>, out: array<byte>, len: nat, stack: array<nat>, sp: nat, ghost names: Segments)
    returns (ok: bool, len': nat)
    requires Holds(out[..], len, stack[..], sp, names) && IsName(x) && stack.Length == STACK_CAP
    modifies out, stack
    ensures ok ==> Holds(out[..], len', stack[..], sp + 1, names + [x]) && out[len'] == 0
    ensures !ok ==> |PathText(names + [x])| >= out.Length || sp >= STACK_CAP
  {
    TextOfMore(names, x);
    RenderLength(names);
    len' := len;
    if len > 1 {
      if len' + 1 >= out.Length { return false, len'; }
      out[len'] := SLASH;
      len' := len' + 1;
    }
    if len' + |x| >= out.Length { return false, len'; }
    assert out[..len'] == (if names == [] then [] else PathText(names)) + [SLASH];
    forall k | 0 <= k < |x| { out[len' + k] := x[k]; }
    len' := len' + |x|;
    out[len'] := 0;
    assert out[..len'] == PathText(names + [x]);
    if sp >= stack.Length { return false, len'; }
    stack[sp] := len';
    ok := true;
  }

  /** The stacked length of the last but one name ends the parent's text. */
  lemma ParentText(out: seq<byte>, len: nat, stack: seq<nat>, sp: nat, names: Segments, parent: nat)
    requires Holds(out, len, stack, sp, names) && sp > 0 && parent == if sp == 1 then 1 else stack[sp - 2]
    ensures parent <= len && out[..parent] == PathText(names[..sp - 1]) && AllNames(names[..sp - 1])
  {
    var less := names[..sp - 1];
    assert names == less + [names[sp - 1]] && IsName(names[sp - 1]);
    TextOfMore(less, names[sp - 1]);
    RenderLength(names);
    RenderPrefix(names, sp - 1);
    assert names[..sp] == names && out[..len] == Render(names);
    if sp > 1 {
      assert stack[sp - 1 - 1] == |Render(names[..sp - 1])|;
      assert less != [] && PathText(less) == Render(less) == Render(names)[..parent];
    } else {
      assert less == [] && Render(names)[..1] == [SLASH];
    }
    assert out[..parent] == out[..len][..parent];
  }

  /** Cuts the text back to where the last but one name ends. */
  method LeaveDir(out: array<byte>, len: nat, stack: array<nat>, sp: nat, ghost names: Segments) returns (len': nat)
    requires Holds(out[..], len, stack[..], sp, names) && sp > 0
    modifies out
    ensures Holds(out[..], len', stack[..], sp - 1, names[..sp - 1]) && len' <= len && out[len'] == 0
  {
    ghost var less := names[..sp - 1];
    ghost var before := out[..];
    len' := if sp == 1 then 1 else stack[sp - 2];
    ParentText(before, len, stack[..], sp, names, len');
    out[len'] := 0;
    assert out[..len'] == before[..len'];
    assert forall k :: 0 <= k <= sp - 1 ==> less[..k] == names[..k];
  }

  // ---------- Reading the path ----------

  /** An empty segment changes nothing. */
  lemma SkipSlash(path: seq<byte>, i: nat, names: Segments)
    requires i < |path| && path[i] == SLASH
    ensures Resolve(SegmentsFrom(path, i), names) == Resolve(SegmentsFrom(path, i + 1), names)
  {
    var empty: seq<byte> := [];
    assert NextSlash(path, i) == i && path[i..i] == empty;
    assert SegmentsFrom(path, i) == [empty] + SegmentsFrom(path, i + 1);
  }

  /** The segment at i, which ends at j, is resolved. */
  lemma ResolveOne(path: seq<byte>, i: nat, j: nat, names: Segments)
    requires i < j <= |path| && j == NextSlash(path, i)
    ensures var x := path[i..j];
            Resolve(SegmentsFrom(path, i), names) ==
              if IsUp(x) then if names == [] then None else Resolve(SegmentsFrom(path, j), names[..|names| - 1])
              else Resolve(SegmentsFrom(path, j), if IsName(x) then names + [x] else names)
  {
    var x := path[i..j];
    assert SegmentsFrom(path, i) == [x] + SegmentsFrom(path, j + 1);
    if j < |path| && (!IsUp(x) || names != []) {
      SkipSlash(path, j, if IsUp(x) then names[..|names| - 1] else if IsName(x) then names + [x] else names);
    }
  }

  method SkipSlashes(path: seq<byte>, start: nat, ghost names: Segments) returns (i: nat)
    requires start <= |path|
    ensures start <= i <= |path| && (i < |path| ==> path[i] != SLASH)
    ensures start < |path| && path[start] == SLASH ==> start < i
    ensures Resolve(SegmentsFrom(path, start), names) == Resolve(SegmentsFrom(path, i), names)
  {
    hide Resolve, SegmentsFrom;
    i := start;
    while i < |path| && path[i] == SLASH
      invariant start <= i <= |path|
      invariant start < |path| && path[start] == SLASH && i == start ==> path[i] == SLASH
      invariant Resolve(SegmentsFrom(path, start), names) == Resolve(SegmentsFrom(path, i), names)
    {
      SkipSlash(path, i, names);
      i := i + 1;
    }
  }

  method SkipSegment(path: seq<byte>, start: nat) returns (i: nat)
    requires start < |path| && path[start] != SLASH
    ensures start < i <= |path| && i == NextSlash(path, start)
  {
    i := start;
    while i < |path| && path[i] != SLASH
      invariant start <= i <= |path| && NextSlash(path, start) == NextSlash(path, i)
    {
      i := i + 1;
    }
  }

  /** What is left of the path resolves, behind the names entered, to what the whole path does. */
  ghost predicate Reading(path: seq<byte>, i: nat, names: Segments, len: nat) {
    && 1 <= i <= |path| && len <= i && (names != [] && i < |path| ==> path[i] == SLASH)
    && Resolve(SegmentsFrom(path, 1), []) == Resolve(SegmentsFrom(path, i), names)
  }

  /** One segment of the path, dealt with in the buffer. */
  method Segment(path: seq<byte>, i: nat, j: nat, out: array<byte>, len: nat,
                 stack: array<nat>, sp: nat, ghost names: Segments)
    returns (ok: bool, len': nat, sp': nat, ghost names': Segments)
    requires Holds(out[..], len, stack[..], sp, names) && stack.Length == STACK_CAP
    requires i < j <= |path| && j == NextSlash(path, i) && path[i] != SLASH && len <= i && (names != [] ==> len < i)
    modifies out, stack
    ensures ok ==> Holds(out[..], len', stack[..], sp', names') && len' <= j
    ensures ok ==> Resolve(SegmentsFrom(path, i), names) == Resolve(SegmentsFrom(path, j), names')
    ensures !ok && |path| < out.Length && |path| < SHORTLINE ==> Resolve(SegmentsFrom(path, i), names) == None
  {
    hide Resolve, SegmentsFrom;
    ResolveOne(path, i, j, names);
    var x := path[i..j];
    ok, len', sp', names' := true, len, sp, names;
    if |x| == 1 && x[0] == DOT { return; }
    if |x| == 2 && x[0] == DOT && x[1] == DOT {
      if sp == 0 { return false, len, sp, names; }
      len' := LeaveDir(out, len, stack, sp, names);
      return true, len', sp - 1, names[..sp - 1];
    }
    TextOfMore(names, x);
    RenderLength(names);
    ok, len' := EnterDir(x, out, len, stack, sp, names);
    sp', names' := sp + 1, names + [x];
  }

  /** Normalises a path into a buffer.  What it yields is the normal form; on a
      path that with its terminator fits both the buffer and a short line, it
      fails exactly when there is none: neither the buffer nor the stack of 256
      lengths ever runs out. */
  method NormalizeAbsPath(path: seq<byte>, out: array<byte>) returns (ok: bool, len: nat)
    modifies out
    ensures ok ==> len < out.Length && Normal(path) == Some(out[..len])
    ensures !ok && |path| < out.Length && |path| < SHORTLINE ==> Normal(path) == None
  {
    hide Resolve, SegmentsFrom;
    if out.Length < 2 || |path| == 0 || path[0] != SLASH { return false, 0; }
    var trailing := path[|path| - 1] == SLASH;
    var stack := new nat[STACK_CAP];
    var sp, i := 0, 1;
    len := 1;
    out[0], out[1] := SLASH, 0;
    ghost var names: Segments := [];
    assert out[..1] == [SLASH];
    while i < |path|
      invariant Holds(out[..], len, stack[..], sp, names) && Reading(path, i, names, len)
      invariant trailing && names != [] ==> len < |path|
    {
      i := SkipSlashes(path, i, names);
      if i >= |path| { break; }
      var end := SkipSegment(path, i);
      ok, len, sp, names := Segment(path, i, end, out, len, stack, sp, names);
      if !ok { return false, len; }
      i := end;
    }
    NothingLeft(path, i, names);
    NoSlashAtEnd(path, names);
    ok, len := EndWithSlash(path, out, len, names, trailing);
  }

  lemma NothingLeft(path: seq<byte>, i: nat, names: Segments)
    requires i >= |path|
    ensures Resolve(SegmentsFrom(path, i), names) == Some(names)
  {
  }

  /** The names do not end in a slash themselves. */
  lemma NoSlashAtEnd(path: seq<byte>, names: Segments)
    requires Resolve(SegmentsFrom(path, 1), []) == Some(names)
    ensures names != [] ==> !EndsInSlash(Render(names))
  {
    SegmentsHaveNoSlash(path, 1);
    ResolvedAreProper(SegmentsFrom(path, 1), []);
    if names != [] {
      LastByte(names, []);
      assert Render(names) + [] == Render(names);
    }
  }

  /** Puts back a slash the path ended in. */
  method EndWithSlash(path: seq<byte>, out: array<byte>, len: nat, ghost names: Segments, trailing: bool)
    returns (ok: bool, len': nat)
    requires Absolute(path) && trailing == EndsInSlash(path) && AllNames(names)
    requires len == |PathText(names)| < out.Length && out[..len] == PathText(names) && len <= |path|
    requires trailing && names != [] ==> len < |path| && !EndsInSlash(PathText(names))
    requires Resolve(SegmentsFrom(path, 1), []) == Some(names)
    modifies out
    ensures ok ==> len' < out.Length && Normal(path) == Some(out[..len'])
    ensures !ok ==> |path| >= out.Length
  {
    hide Resolve, SegmentsFrom;
    RenderLength(names);
    if trailing && len > 1 && out[len - 1] != SLASH {
      if len + 1 >= out.Length { return false, len; }
      out[len], out[len + 1] := SLASH, 0;
      assert out[..len + 1] == PathText(names) + [SLASH];
      return true, len + 1;
    }
    assert PathText(names) + [] == PathText(names);
    ok, len' := true, len;
  }

  // ---------- From target to file ----------

  function BeforeQuery(uri: seq<byte>): (p: seq<byte>)
    ensures p <= uri && QUESTION !in p && (|p| < |uri| ==> uri[|p|] == QUESTION)
  {
    if uri == [] || uri[0] == QUESTION then [] else [uri[0]] + BeforeQuery(uri[1..])
  }

  /** The names of the file: a directory, or a last name without a dot, stands for its index. */
  function FileNames(names: Segments, directory: bool): Segments {
    if names == [] || directory || DOT !in names[|names| - 1] then names + [INDEX] else names
  }

  /** The names below the document root of the file a target asks for. */
  function Wanted(uri: seq<byte>): Option<Segments> {
    if |uri| == 0 || |uri| > MAX_URI || BeforeQuery(uri) == [] then None else
      match Percent.Decode(BeforeQuery(uri))
      case None => None
      case Some(d) =>
        if !Absolute(d) then None else
          match Resolve(SegmentsFrom(d, 1), [])
          case None => None
          case Some(names) => Some(FileNames(names, EndsInSlash(d)))
  }

  /** The root without a slash at its end. */
  function Stem(root: seq<byte>): seq<byte> {
    if EndsInSlash(root) then root[..|root| - 1] else root
  }

  /** snprintf into a buffer of `cap` bytes. */
  function Printed(text: seq<byte>, cap: nat): seq<byte>
    requires cap > 0
  {
    if |text| < cap then text else text[..cap - 1]
  }

  lemma {:induction false} SegmentsFit(s: seq<byte>, i: nat)
    requires i <= |s| + 1
    ensures |Render(SegmentsFrom(s, i))| <= |s| + 1 - i
    decreases |s| + 1 - i
  {
    if i < |s| {
      var j := NextSlash(s, i);
      SegmentsFit(s, j + 1);
      assert SegmentsFrom(s, i) == [s[i..j]] + SegmentsFrom(s, j + 1);
    }
  }

  lemma NormalFits(d: seq<byte>, names: Segments)
    requires Absolute(d) && Resolve(SegmentsFrom(d, 1), []) == Some(names)
    ensures |PathText(names)| <= |d|
  {
    SegmentsFit(d, 1);
    ResolveShrinks(SegmentsFrom(d, 1), []);
  }

  /** The bytes behind the last slash. */
  function LastComponent(s: seq<byte>): seq<byte> {
    if s == [] || s[|s| - 1] == SLASH then [] else LastComponent(s[..|s| - 1]) + [s[|s| - 1]]
  }

  lemma {:induction false} LastComponentIs(a: seq<byte>, x: seq<byte>)
    requires SLASH !in x
    ensures LastComponent(a + [SLASH] + x) == x
  {
    var s := a + [SLASH] + x;
    if x != [] {
      var front := x[..|x| - 1];
      assert s[..|s| - 1] == a + [SLASH] + front && s[|s| - 1] == x[|x| - 1];
      LastComponentIs(a, front);
      assert x == front + [x[|x| - 1]];
    }
  }

  /** What the text of a normal path shows of its names. */
  lemma IndexRule(norm: seq<byte>, names: Segments, directory: bool)
    requires AllProper(names) && norm == PathText(names) + (if directory && names != [] then [SLASH] else [])
    ensures norm != [] && (EndsInSlash(norm) <==> names == [] || directory)
    ensures !EndsInSlash(norm) ==> LastComponent(norm) == names[|names| - 1]
    ensures Render(FileNames(names, directory)) ==
              if EndsInSlash(norm) then norm + INDEX
              else if DOT !in LastComponent(norm) then norm + [SLASH] + INDEX else norm
  {
    RenderSnoc(names, INDEX);
    if names == [] {
      assert norm == [SLASH] && Render(names) == [] && [] + [SLASH] + INDEX == norm + INDEX;
    } else {
      BelowRoot(names);
      hide Render, LastComponent;
      LastByte(names, if directory then [SLASH] else []);
      assert Render(names) + [] == Render(names);
    }
  }

  lemma BelowRoot(names: Segments)
    requires AllProper(names) && names != []
    ensures Render(names) != [] && LastComponent(Render(names)) == names[|names| - 1]
  {
    hide LastComponent;
    var n := |names| - 1;
    assert names == names[..n] + [names[n]] && Proper(names[n]);
    RenderSnoc(names[..n], names[n]);
    LastComponentIs(Render(names[..n]), names[n]);
  }

  method AddIndex(norm: seq<byte>, ghost names: Segments, ghost directory: bool) returns (final: Option<seq<byte>>)
    requires AllProper(names) && norm == PathText(names) + (if directory && names != [] then [SLASH] else [])
    requires |norm| <= MAX_URI + 1
    ensures final == Some(Render(FileNames(names, directory)))
  {
    hide Render, LastComponent, FileNames;
    IndexRule(norm, names, directory);
    if |norm| == 0 { return None; }
    var text := norm;
    if norm[|norm| - 1] != SLASH && DOT !in LastComponent(norm) {
      text := Printed(norm + [SLASH], SHORTLINE);
    } else {
      text := Printed(norm, SHORTLINE);
    }
    if text[|text| - 1] == SLASH {
      if |text| + |INDEX| + 1 >= SHORTLINE { return None; }
      text := text + INDEX;
    }
    final := Some(text);
  }

  /** The file for a request target.  No buffer on the way truncates: a file is
      found exactly when the target is short enough, decodes to an absolute path
      that does not climb above the root, and the result fits the caller's buffer;
      it is then the names wanted, below the root, behind one slash each. */
  method ParseUri(uri: seq<byte>, root: seq<byte>, cap: nat) returns (file: Option<seq<byte>>)
    ensures file == match Wanted(uri)
                    case None => None
                    case Some(names) =>
                      var f := Stem(root) + Render(names);
                      if |f| < cap then Some(f) else None
    ensures file.Some? ==>
              && 1 <= |uri| <= 256 && |file.value| < cap && Wanted(uri).Some?
              && file.value ==
                 (if root != [] && root[|root| - 1] == SLASH then root[..|root| - 1] else root) + Render(Wanted(uri).value)
  {
    hide SegmentsFrom, Resolve, Render, Percent.Decode;
    if cap == 0 { return None; }
    if |uri| == 0 || |uri| > MAX_URI { return None; }
    var path := BeforeQuery(uri);
    if |path| == 0 { return None; }
    var decoded := Decoded(path);
    if decoded.None? { return None; }
    var d := decoded.value;
    if |d| == 0 || d[0] != SLASH { return None; }
    var final, names := FinalPath(d);
    if final.None? { return None; }
    file := Join(root, final.value, cap);
  }

  method Decoded(path: seq<byte>) returns (d: Option<seq<byte>>)
    requires |path| <= MAX_URI
    ensures d == Percent.Decode(path) && (d.Some? ==> |d.value| <= |path|)
  {
    if Percent.Decode(path).Some? {
      ghost var how := Percent.DecodedIsEncoding(path);
    }
    d := Percent.PercentDecode(path, SHORTLINE);
  }

  lemma RenderIsAbsolute(names: Segments)
    requires names != []
    ensures Absolute(Render(names))
  {
  }

  /** The normal form of a decoded path with the index rule applied. */
  method FinalPath(d: seq<byte>) returns (final: Option<seq<byte>>, ghost names: Segments)
    requires Absolute(d) && |d| <= MAX_URI
    ensures var r := Resolve(SegmentsFrom(d, 1), []);
            if r.None? then final == None
            else names == r.value && final == Some(Render(FileNames(names, EndsInSlash(d))))
    ensures final.Some? ==> Absolute(final.value)
  {
    hide SegmentsFrom, Resolve, Render;
    names := [];
    var out := new byte[SHORTLINE];
    var ok, len := NormalizeAbsPath(d, out);
    if !ok { return None, names; }
    names := Resolve(SegmentsFrom(d, 1), []).value;
    NormalFits(d, names);
    SegmentsHaveNoSlash(d, 1);
    ResolvedAreProper(SegmentsFrom(d, 1), []);
    final := AddIndex(out[..len], names, EndsInSlash(d));
    RenderIsAbsolute(FileNames(names, EndsInSlash(d)));
  }

  /** Joins root and path with one slash between them. */
  method Join(root: seq<byte>, path: seq<byte>, cap: nat) returns (file: Option<seq<byte>>)
    requires Absolute(path)
    ensures file == if |Stem(root) + path| < cap then Some(Stem(root) + path) else None
    ensures file.Some? ==>
              file.value == if root != [] && root[|root| - 1] == SLASH then root[..|root| - 1] + path else root + path
  {
    var part := path;
    if |root| > 0 && root[|root| - 1] == SLASH && path[0] == SLASH {
      part := path[1..];
      assert root + part == Stem(root) + path;
    }
    if |root| + |part| >= cap { return None; }
    file := Some(root + part);
  }

  /** No file found lies outside the root: below it there are only proper names. */
  lemma FilesStayBelowRoot(uri: seq<byte>)
    requires Wanted(uri).Some?
    ensures Wanted(uri).value != [] && AllProper(Wanted(uri).value)
    ensures forall x :: x in Wanted(uri).value ==> x !in {[], [46], [46, 46]} && SLASH !in x
  {
    var d := Percent.Decode(BeforeQuery(uri)).value;
    SegmentsHaveNoSlash(d, 1);
    ResolvedAreProper(SegmentsFrom(d, 1), []);
    assert SLASH !in INDEX && INDEX[0] != DOT;
  }
}
