/** The circular intrusive list, and the two places that drain one: header
    nodes go back to a bounded free list while the list is being walked. */
module List {
  import opened Bytes

  class ListHead {
    var prev: ListHead
    var next: ListHead

    constructor ()
      ensures prev == this && next == this
    {
      prev, next := this, this;
    }

    method Init()
      modifies this
      ensures prev == this && next == this
    {
      next, prev := this, this;
    }
  }

  /** Once round the ring, from the head back to the head. */
  ghost function Round(head: ListHead, s: seq<ListHead>): seq<ListHead> {
    [head] + s + [head]
  }

  ghost predicate Linked(c: seq<ListHead>)
    reads c
  {
    && (forall i :: 0 <= i < |c| - 1 ==> c[i].next == c[i + 1])
    && (forall i :: 0 < i < |c| ==> c[i].prev == c[i - 1])
  }

  ghost predicate Distinct(s: seq<ListHead>) {
    forall i, j :: 0 <= i < j < |s| ==> s[i] != s[j]
  }

  /** The ring at `head` holds exactly the entries s, in order, both ways round. */
  ghost predicate Ring(head: ListHead, s: seq<ListHead>)
    reads head, s
  {
    head !in s && Distinct(s) && Linked(Round(head, s))
  }

  /** Links `entry` between two neighbours. */
  method ListAddBetween(entry: ListHead, prev: ListHead, next: ListHead)
    modifies entry, prev, next
    requires entry != prev && entry != next
    ensures entry.prev == prev && entry.next == next && prev.next == entry && next.prev == entry
    ensures prev != next ==> prev.prev == old(prev.prev) && next.next == old(next.next)
  {
    entry.next := next;
    next.prev := entry;
    prev.next := entry;
    entry.prev := prev;
  }

  /** Puts a new entry first. */
  method ListAdd(entry: ListHead, head: ListHead, ghost s: seq<ListHead>)
    requires Ring(head, s) && entry != head && entry !in s
    modifies entry, head, head.next
    ensures Ring(head, [entry] + s)
  {
    ghost var c := Round(head, s);
    assert c[0] == head && c[0].next == c[1];
    ListAddBetween(entry, head, head.next);
    assert Round(head, [entry] + s) == [head, entry] + c[1..];
  }

  /** Puts a new entry last. */
  method ListAddTail(entry: ListHead, head: ListHead, ghost s: seq<ListHead>)
    requires Ring(head, s) && entry != head && entry !in s
    modifies entry, head, head.prev
    ensures Ring(head, s + [entry])
  {
    ghost var c := Round(head, s);
    assert c[|c| - 1] == head && c[|c| - 1].prev == c[|c| - 2];
    ListAddBetween(entry, head.prev, head);
    assert Round(head, s + [entry]) == c[..|c| - 1] + [entry, head];
  }

  /** Takes out the k-th entry, whose own links are left as they were. */
  method ListDel(entry: ListHead, ghost head: ListHead, ghost s: seq<ListHead>, ghost k: nat)
    requires Ring(head, s) && k < |s| && s[k] == entry
    modifies head, s
    ensures Ring(head, s[..k] + s[k + 1..])
    ensures entry.prev == old(entry.prev) && entry.next == old(entry.next)
  {
    ghost var c := Round(head, s);
    assert c[k + 1] == entry && entry.prev == c[k] && entry.next == c[k + 2];
    var prev, next := entry.prev, entry.next;
    prev.next := next;
    next.prev := prev;
    ghost var d := Round(head, s[..k] + s[k + 1..]);
    assert d == c[..k + 1] + c[k + 2..];
    forall i | 0 <= i < |d| - 1 ensures d[i].next == d[i + 1] {
      if i < k { assert c[i] != c[k] && c[i].next == c[i + 1]; }
      if i > k { assert c[i + 1] != c[k] && c[i + 1].next == c[i + 2]; }
    }
    forall i | 0 < i < |d| ensures d[i].prev == d[i - 1] {
      if i <= k { assert c[i] != c[k + 2] && c[i].prev == c[i - 1]; }
      if i > k + 1 { assert c[i + 1] != c[k + 2] && c[i + 1].prev == c[i]; }
    }
  }

  method ListEmpty(head: ListHead, ghost s: seq<ListHead>) returns (empty: bool)
    requires Ring(head, s)
    ensures empty == (s == [])
  {
    ghost var c := Round(head, s);
    assert c[0] == head && c[0].next == c[1];
    assert c[|c| - 1] == head && c[|c| - 1].prev == c[|c| - 2];
    empty := head.next == head && head.prev == head;
  }

  /** No node belongs to both rings. */
  ghost predicate Apart(a: ListHead, s: seq<ListHead>, b: ListHead, t: seq<ListHead>) {
    a != b && a !in t && b !in s && forall x :: x in s ==> x !in t
  }

  lemma FirstIsApart(a: ListHead, s: seq<ListHead>, b: ListHead, t: seq<ListHead>)
    requires s != [] && a !in s && Distinct(s) && Apart(a, s, b, t)
    ensures s[0] !in s[1..] && s[0] != a && s[0] != b && s[0] !in t && a !in s[1..] && Apart(a, s[1..], b, t)
  {
    forall y | y in s[1..] ensures y != s[0] && y in s {
      var i :| 0 <= i < |s[1..]| && s[1..][i] == y;
      assert s[i + 1] == y;
    }
  }

  lemma WithoutFirst(s: seq<ListHead>)
    requires s != []
    ensures s[..0] + s[0 + 1..] == s[1..]
  {
  }

  /** The first two steps of a walk. */
  lemma Walk(head: ListHead, s: seq<ListHead>)
    requires Ring(head, s)
    ensures head.next == Round(head, s)[1] && (head.next == head <==> s == [])
    ensures s != [] ==> head.next == s[0] && s[0].next == Round(head, s[1..])[1]
  {
    var c := Round(head, s);
    assert c[0].next == c[1];
    if s != [] { assert c[1].next == c[2]; }
  }

  /** Takes out the first entry. */
  method DelHead(x: ListHead, ghost a: ListHead, ghost s: seq<ListHead>)
    requires Ring(a, s) && s != [] && x == s[0]
    modifies a, s
    ensures Ring(a, s[1..])
  {
    hide Ring;
    WithoutFirst(s);
    ListDel(x, a, s, 0);
  }

  /** Takes out the first entry of one ring, beside another. */
  method DelFirst(x: ListHead, ghost a: ListHead, ghost s: seq<ListHead>, ghost b: ListHead, ghost t: seq<ListHead>)
    requires Ring(a, s) && Ring(b, t) && Apart(a, s, b, t) && s != [] && x == s[0]
    modifies a, s
    ensures Ring(a, s[1..]) && Ring(b, t) && Apart(a, s[1..], b, t)
    ensures x !in s[1..] && x != a && x != b && x !in t
  {
    FirstIsApart(a, s, b, t);
    ghost var c := Round(b, t);
    forall i | 0 <= i < |c| ensures c[i] != a && c[i] !in s {
      assert c[i] == b || c[i] in t;
    }
    DelHead(x, a, s);
    assert forall i :: 0 <= i < |c| ==> c[i].next == old(c[i].next) && c[i].prev == old(c[i].prev);
  }

  /** The free list after `visited` were freed one by one while there was room. */
  function Freed<T>(visited: seq<T>, room: nat): (r: seq<T>)
    ensures |r| == Min(|visited|, room)
  {
    var kept := visited[..Min(|visited|, room)];
    ReverseLength(kept);
    Reverse(kept)
  }

  lemma FreedOneMore<T>(visited: seq<T>, x: T, room: nat)
    ensures Freed(visited + [x], room) == if |visited| < room then [x] + Freed(visited, room) else Freed(visited, room)
  {
    ReverseSnoc(visited, x);
    if |visited| < room {
      assert (visited + [x])[..|visited| + 1] == visited + [x] && visited[..|visited|] == visited;
    } else {
      assert (visited + [x])[..room] == visited[..room];
    }
  }

  ghost predicate Among(t: seq<ListHead>, a: seq<ListHead>, b: seq<ListHead>) {
    forall i :: 0 <= i < |t| ==> t[i] in a || t[i] in b
  }

  /** Of the list s, `visited` has been freed onto `base` and `rest` is left. */
  ghost predicate Moved<T>(visited: seq<T>, rest: seq<T>, s: seq<T>, free: seq<T>, base: seq<T>, room: nat) {
    visited + rest == s && free == Freed(visited, room) + base
  }

  lemma MovedOneMore<T>(visited: seq<T>, rest: seq<T>, s: seq<T>, free: seq<T>, base: seq<T>, room: nat)
    requires Moved(visited, rest, s, free, base, room) && rest != []
    ensures Moved(visited + [rest[0]], rest[1..], s, if |visited| < room then [rest[0]] + free else free, base, room)
  {
    hide Freed;
    FreedOneMore(visited, rest[0], room);
    assert (visited + [rest[0]]) + rest[1..] == visited + rest;
  }

  lemma AmongMore(rest: seq<ListHead>, s: seq<ListHead>, nodes: seq<ListHead>, base: seq<ListHead>)
    requires rest != [] && Among(rest, s, []) && Among(nodes, s, base)
    ensures Among(rest[1..], s, []) && Among([rest[0]] + nodes, s, base)
  {
  }

  const HEADER_CAP := 8192

  /** The bounded free list of header nodes. */
  class HeaderCache {
    const free: ListHead
    var count: nat
    ghost var nodes: seq<ListHead>

    ghost predicate Valid()
      reads this, free, nodes
    {
      Ring(free, nodes) && count == |nodes| <= HEADER_CAP
    }

    constructor ()
      ensures Valid() && nodes == [] && fresh(free)
    {
      free := new ListHead();
      count, nodes := 0, [];
    }

    /** Unlinks the first free node. */
    method TakeFirst() returns (hd: ListHead)
      requires Valid() && nodes != []
      modifies this`count, this`nodes, free, nodes
      ensures Valid() && hd == old(nodes)[0] && nodes == old(nodes)[1..]
    {
      hd := free.next;
      assert Round(free, nodes)[0].next == Round(free, nodes)[1] == nodes[0];
      ListDel(hd, free, nodes, 0);
      assert nodes[..0] + nodes[0 + 1..] == nodes[1..];
      nodes := nodes[1..];
      if count > 0 { count := count - 1; }
    }

    /** The first free node, or a new one; linked to itself only. */
    method Alloc() returns (hd: ListHead)
      requires Valid()
      modifies this`count, this`nodes, free, nodes
      ensures Valid() && hd != free && hd !in nodes && hd.prev == hd.next == hd
      ensures if old(nodes) == [] then fresh(hd) && nodes == [] else hd == old(nodes)[0] && nodes == old(nodes)[1..]
    {
      var empty := ListEmpty(free, nodes);
      if empty {
        hd := new ListHead();
      } else {
        hd := TakeFirst();
        hd.Init();
      }
    }

    /** A node put on the free list, or given up if the list is full. */
    method Free(hd: ListHead)
      requires Valid() && hd != free && hd !in nodes
      modifies this`count, this`nodes, free, nodes, hd
      ensures Valid() && nodes == if old(count) < HEADER_CAP then [hd] + old(nodes) else old(nodes)
    {
      if count >= HEADER_CAP { return; }
      hd.Init();
      assert Round(free, nodes)[0].next == Round(free, nodes)[1];
      ListAdd(hd, free, nodes);
      nodes := [hd] + nodes;
      count := count + 1;
    }
  
    /** Frees a header while the rest of its list is still to be walked. */
    method FreeBeside(hd: ListHead, list: ListHead, ghost rest: seq<ListHead>)
      requires Valid() && Ring(list, rest) && Apart(list, rest, free, nodes)
      requires hd !in rest && hd != list && hd != free && hd !in nodes
      modifies this`count, this`nodes, free, nodes, hd
      ensures Valid() && Ring(list, rest) && Apart(list, rest, free, nodes)
      ensures nodes == if old(count) < HEADER_CAP then [hd] + old(nodes) else old(nodes)
    {
      ghost var c := Round(list, rest);
      forall i | 0 <= i < |c| ensures c[i] != free && c[i] != hd && c[i] !in nodes {
        assert c[i] == list || c[i] in rest;
      }
      Free(hd);
      assert forall i :: 0 <= i < |c| ==> c[i].next == old(c[i].next) && c[i].prev == old(c[i].prev);
    }

    /** Frees the header at `pos`, the first one left, and goes on to the next,
        which is looked up before the header's links are reused. */
    method FreeAndAdvance(pos: ListHead, list: ListHead, ghost s: seq<ListHead>) returns (next: ListHead)
      requires Valid() && Ring(list, s) && Apart(list, s, free, nodes) && s != [] && pos == s[0]
      modifies this`count, this`nodes, free, nodes, list, s
      ensures Valid() && Ring(list, s[1..]) && Apart(list, s[1..], free, nodes)
      ensures next == Round(list, s[1..])[1]
      ensures nodes == if old(count) < HEADER_CAP then [pos] + old(nodes) else old(nodes)
    {
      Walk(list, s);
      next := pos.next;
      DelFirst(pos, list, s, free, nodes);
      FreeBeside(pos, list, s[1..]);
    }

    /** Walks a request's header list, handing every node to the free list.
        Each header is visited once, in order, and the list ends up empty. */
    method DrainHeaders(list: ListHead, ghost s: seq<ListHead>) returns (ghost visited: seq<ListHead>)
      requires Valid() && Ring(list, s) && Apart(list, s, free, nodes)
      modifies this`count, this`nodes, free, nodes, list, s
      ensures Valid() && Ring(list, []) && visited == s
      ensures nodes == Freed(s, HEADER_CAP - old(count)) + old(nodes)
    {
      visited := [];
      ghost var rest, room := s, HEADER_CAP - count;
      Walk(list, s);
      var pos := list.next;
      while pos != list
        invariant Valid() && Ring(list, rest) && Apart(list, rest, free, nodes) && pos == Round(list, rest)[1]
        invariant Moved(visited, rest, s, nodes, old(nodes), room) && room == HEADER_CAP - |old(nodes)|
        invariant Among(rest, s, []) && Among(nodes, s, old(nodes))
        decreases |rest|
      {
        assert pos == rest[0];
        MovedOneMore(visited, rest, s, nodes, old(nodes), room);
        AmongMore(rest, s, nodes, old(nodes));
        visited := visited + [pos];
        pos := FreeAndAdvance(pos, list, rest);
        rest := rest[1..];
      }
    }
  }
}
