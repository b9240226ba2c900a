/** The array heap behind the timers: grows by doubling, shrinks by halving. */
module PriorityQueue {

  /** comp(a, b) says a comes strictly before b; ties are possible. */
  ghost predicate StrictWeakOrder<T(!new)>(comp: (T, T) -> bool) {
    && (forall a, b :: comp(a, b) ==> !comp(b, a))
    && (forall a, b, c :: !comp(a, b) && !comp(b, c) ==> !comp(a, c))
  }

  /** s[1..n+1] is a heap; slot 0 is not used. */
  ghost predicate Heap<T(!new)>(s: seq<T>, n: nat, comp: (T, T) -> bool) {
    n < |s| && forall i :: 2 <= i <= n ==> !comp(s[i], s[i / 2])
  }

  /** A heap but for k itself, whose children are in order with k's parent. */
  ghost predicate HeapBut<T(!new)>(s: seq<T>, n: nat, k: nat, comp: (T, T) -> bool) {
    && n < |s|
    && (forall i :: 2 <= i <= n && i != k ==> !comp(s[i], s[i / 2]))
    && (forall i :: 2 <= i <= n && i / 2 == k && 2 <= k ==> !comp(s[i], s[k / 2]))
  }

  /** A heap but for the children of k, which are in order with k's parent. */
  ghost predicate HeapBelow<T(!new)>(s: seq<T>, n: nat, k: nat, comp: (T, T) -> bool) {
    && n < |s|
    && (forall i :: 2 <= i <= n && i / 2 != k ==> !comp(s[i], s[i / 2]))
    && (forall i :: 2 <= i <= n && i / 2 == k && 2 <= k ==> !comp(s[i], s[k / 2]))
  }

  function Swapped<T>(s: seq<T>, i: nat, j: nat): seq<T>
    requires i < |s| && j < |s|
  {
    s[i := s[j]][j := s[i]]
  }

  function Items<T>(s: seq<T>, n: nat): multiset<T>
    requires n < |s|
  {
    multiset(s[1..n + 1])
  }

  lemma SwapKeepsItems<T>(s: seq<T>, n: nat, i: nat, j: nat)
    requires 1 <= i <= n < |s| && 1 <= j <= n
    ensures Items(Swapped(s, i, j), n) == Items(s, n)
  {
    var m := s[1..n + 1];
    assert Swapped(s, i, j)[1..n + 1] == m[i - 1 := m[j - 1]][j - 1 := m[i - 1]];
  }

  /** Slots behind the last element do not matter. */
  lemma SamePrefix<T(!new)>(s: seq<T>, t: seq<T>, n: nat, comp: (T, T) -> bool)
    requires n < |s| && n < |t| && s[..n + 1] == t[..n + 1]
    ensures Items(s, n) == Items(t, n) && (Heap(s, n, comp) <==> Heap(t, n, comp))
  {
    assert s[1..n + 1] == s[..n + 1][1..] == t[1..n + 1];
    assert forall i :: 0 <= i <= n ==> s[i] == s[..n + 1][i] == t[..n + 1][i] == t[i];
  }

  /** The element moved up takes its parent's place. */
  lemma SwimStep<T(!new)>(s: seq<T>, n: nat, k: nat, comp: (T, T) -> bool)
    requires StrictWeakOrder(comp) && 2 <= k <= n && HeapBut(s, n, k, comp) && comp(s[k], s[k / 2])
    ensures HeapBut(Swapped(s, k, k / 2), n, k / 2, comp)
  {
    var p, t := k / 2, Swapped(s, k, k / 2);
    forall i | 2 <= i <= n && i != p
      ensures !comp(t[i], t[i / 2])
    {
      if i / 2 == p && i != k {
        assert !comp(s[i], s[p]) && !comp(s[p], s[k]);
      }
    }
    forall i | 2 <= i <= n && i / 2 == p && 2 <= p
      ensures !comp(t[i], t[p / 2])
    {
      assert !comp(s[p], s[p / 2]);
      if i != k { assert !comp(s[i], s[p]); }
    }
  }

  /** The lesser child j takes the place of its parent k. */
  lemma SinkStep<T(!new)>(s: seq<T>, n: nat, k: nat, j: nat, comp: (T, T) -> bool)
    requires StrictWeakOrder(comp) && HeapBelow(s, n, k, comp)
    requires 1 <= k && 2 * k <= j <= n && j <= 2 * k + 1 && comp(s[j], s[k])
    requires forall i :: 2 <= i <= n && i / 2 == k ==> !comp(s[i], s[j])
    ensures HeapBelow(Swapped(s, j, k), n, j, comp)
  {
    var t := Swapped(s, j, k);
    forall i | 2 <= i <= n && i / 2 != j
      ensures !comp(t[i], t[i / 2])
    {
      if i / 2 == k && i != j {
        assert t[i] == s[i] && t[k] == s[j];
      } else if i == k {
        assert t[k] == s[j] && t[k / 2] == s[k / 2];
      }
    }
    forall i | 2 <= i <= n && i / 2 == j && 2 <= j
      ensures !comp(t[i], t[j / 2])
    {
      assert t[i] == s[i] && t[k] == s[j] && j / 2 == k;
    }
  }

  /** The root swapped with the last element and cut off. */
  lemma RootCut<T(!new)>(s: seq<T>, n: nat, comp: (T, T) -> bool)
    requires n > 0 && Heap(s, n, comp)
    ensures var t := Swapped(s, 1, n);
            HeapBelow(t, n - 1, 1, comp) && Items(t, n - 1) + multiset{s[1]} == Items(t, n)
  {
    var t := Swapped(s, 1, n);
    assert t[1..n + 1] == t[1..n] + [s[1]];
    forall i | 2 <= i <= n - 1 && i / 2 != 1 ensures !comp(t[i], t[i / 2]) {
      assert t[i] == s[i] && t[i / 2] == s[i / 2];
    }
  }

  /** Once no child comes before k, the heap is whole. */
  lemma SinkEnds<T(!new)>(s: seq<T>, n: nat, k: nat, comp: (T, T) -> bool)
    requires HeapBelow(s, n, k, comp)
    requires forall i :: 2 <= i <= n && i / 2 == k ==> !comp(s[i], s[k])
    ensures Heap(s, n, comp)
  {
  }

  /** The root of a heap comes first. */
  lemma {:induction false} RootIsFirst<T(!new)>(s: seq<T>, n: nat, i: nat, comp: (T, T) -> bool)
    requires StrictWeakOrder(comp) && Heap(s, n, comp) && 1 <= i <= n
    ensures !comp(s[i], s[1])
  {
    if 2 <= i {
      RootIsFirst(s, n, i / 2, comp);
    }
  }

  lemma MinOfItems<T(!new)>(s: seq<T>, n: nat, comp: (T, T) -> bool)
    requires StrictWeakOrder(comp) && Heap(s, n, comp) && 1 <= n
    ensures s[1] in Items(s, n) && forall x :: x in Items(s, n) ==> !comp(x, s[1])
  {
    var m := s[1..n + 1];
    assert m[0] == s[1];
    forall x | x in Items(s, n) ensures !comp(x, s[1]) {
      var i :| 0 <= i < |m| && m[i] == x;
      RootIsFirst(s, n, i + 1, comp);
    }
  }

  // ---------- The cost of resizing ----------

  /** Work paid for in advance: by inserts towards the next doubling, by
      deletions (or by the initial capacity) towards the next halving. */
  function Potential(n: nat, size: nat): nat {
    (if 2 * (n + 1) > size then 2 * (n + 1) - size else 0) + (if size / 2 > n then size / 2 - n else 0)
  }

  lemma GrowIsPaid(n: nat, size: nat)
    requires n + 1 == size
    ensures (n + 1) + Potential(n + 1, 2 * size) <= Potential(n, size) + 3
  {
  }

  lemma InsertIsPaid(n: nat, size: nat)
    requires n + 1 < size
    ensures Potential(n + 1, size) <= Potential(n, size) + 2
  {
  }

  lemma DeleteIsPaid(n: nat, size: nat)
    requires 1 <= n < size
    ensures Potential(n - 1, size) <= Potential(n, size) + 1
  {
  }

  lemma ShrinkIsPaid(n: nat, size: nat)
    requires 1 <= n <= (size - 1) / 4
    ensures n + 1 < size / 2 + 1 && n < size / 2
    ensures (n + 1) + Potential(n, size / 2) <= Potential(n, size) + 3
  {
  }

  /** The whole part of the binary logarithm. */
  function Log2(n: nat): nat {
    if n < 2 then 0 else 1 + Log2(n / 2)
  }

  function Pow2(n: nat): nat {
    if n == 0 then 1 else 2 * Pow2(n - 1)
  }

  lemma {:induction false} Log2Means(n: nat)
    requires n > 0
    ensures Pow2(Log2(n)) <= n < 2 * Pow2(Log2(n))
  {
    if n >= 2 { Log2Means(n / 2); }
  }

  lemma {:induction false} Log2Grows(m: nat, n: nat)
    requires m <= n
    ensures Log2(m) <= Log2(n)
  {
    if m >= 2 { Log2Grows(m / 2, n / 2); }
  }

  class Queue<T(0, !new)> {
    const comp: (T, T) -> bool
    var pq: array<T>
    var nalloc: nat
    var size: nat

    /** Slots copied by all resizes, operations done, and the capacity at the start. */
    ghost var copied: nat
    ghost var ops: nat
    ghost const initial: nat

    ghost predicate Sizes()
      reads this
    {
      pq.Length == size && nalloc < size
    }

    ghost predicate Valid()
      reads this, pq
    {
      && Sizes() && StrictWeakOrder(comp) && Heap(pq[..], nalloc, comp)
      && copied + Potential(nalloc, size) <= 4 * ops + initial
    }

    ghost function Contents(): multiset<T>
      reads this, pq
      requires Sizes()
    {
      Items(pq[..], nalloc)
    }

    constructor (comp: (T, T) -> bool, capacity: nat)
      requires StrictWeakOrder(comp)
      ensures Valid() && Contents() == multiset{} && nalloc == 0
      ensures this.comp == comp && initial == capacity + 2 && ops == 0 && copied == 0 && fresh(pq)
    {
      this.comp := comp;
      pq := new T[capacity + 1];
      nalloc, size := 0, capacity + 1;
      copied, ops, initial := 0, 0, capacity + 2;
    }

    method Min() returns (x: T)
      requires Valid() && nalloc > 0
      ensures x in Contents() && forall y :: y in Contents() ==> !comp(y, x)
      ensures x == pq[1]
    {
      MinOfItems(pq[..], nalloc, comp);
      x := pq[1];
    }

    /** Moves the elements to an array of another size.  False if it would be too small. */
    method Resize(newSize: nat) returns (ok: bool)
      requires Sizes()
      modifies this`pq, this`size, this`copied
      ensures ok == (newSize > nalloc)
      ensures ok ==> Sizes() && size == newSize && fresh(pq) && copied == old(copied) + nalloc + 1
      ensures ok ==> pq[..nalloc + 1] == old(pq[..nalloc + 1])
      ensures !ok ==> pq == old(pq) && size == old(size) && copied == old(copied)
    {
      if newSize <= nalloc { return false; }
      var bigger := new T[newSize];
      forall i | 0 <= i < nalloc + 1 { bigger[i] := pq[i]; }
      pq, size, copied := bigger, newSize, copied + nalloc + 1;
      ok := true;
    }

    method Exch(i: nat, j: nat)
      requires Sizes() && 1 <= i <= nalloc && 1 <= j <= nalloc
      modifies pq
      ensures pq[..] == Swapped(old(pq[..]), i, j)
      ensures Items(pq[..], nalloc) == Items(old(pq[..]), nalloc)
    {
      SwapKeepsItems(pq[..], nalloc, i, j);
      var tmp := pq[i];
      pq[i] := pq[j];
      pq[j] := tmp;
      assert pq[..] == Swapped(old(pq[..]), i, j);
    }

    method SwimOnce(k: nat)
      requires Sizes() && StrictWeakOrder(comp) && 2 <= k <= nalloc && HeapBut(pq[..], nalloc, k, comp)
      requires comp(pq[k], pq[k / 2])
      modifies pq
      ensures HeapBut(pq[..], nalloc, k / 2, comp) && Items(pq[..], nalloc) == Items(old(pq[..]), nalloc)
    {
      SwimStep(pq[..], nalloc, k, comp);
      Exch(k, k / 2);
    }

    /** Moves the element at `start` up to its place, in at most log2(start) exchanges. */
    method Swim(start: nat) returns (ghost exchanges: nat)
      requires Sizes() && StrictWeakOrder(comp) && 1 <= start <= nalloc && HeapBut(pq[..], nalloc, start, comp)
      modifies pq
      ensures Heap(pq[..], nalloc, comp)
      ensures Items(pq[..], nalloc) == Items(old(pq[..]), nalloc)
      ensures exchanges <= Log2(start)
    {
      var k := start;
      exchanges := 0;
      while k > 1 && comp(pq[k], pq[k / 2])
        invariant 1 <= k <= start && HeapBut(pq[..], nalloc, k, comp)
        invariant Items(pq[..], nalloc) == Items(old(pq[..]), nalloc)
        invariant exchanges + Log2(k) == Log2(start)
      {
        SwimOnce(k);
        k, exchanges := k / 2, exchanges + 1;
      }
    }

    /** The place of the lesser child of k, or k itself if no child comes before it. */
    method LesserChild(k: nat) returns (j: nat)
      requires Sizes() && StrictWeakOrder(comp) && 1 <= k && 2 * k <= nalloc && HeapBelow(pq[..], nalloc, k, comp)
      ensures j == k ==> Heap(pq[..], nalloc, comp)
      ensures j != k ==> 2 * k <= j <= 2 * k + 1 && j <= nalloc && comp(pq[j], pq[k]) &&
                         forall i :: 2 <= i <= nalloc && i / 2 == k ==> !comp(pq[..][i], pq[..][j])
    {
      j := 2 * k;
      if j < nalloc && comp(pq[j + 1], pq[j]) { j := j + 1; }
      assert forall i :: 2 <= i <= nalloc && i / 2 == k ==> !comp(pq[..][i], pq[..][j]);
      if !comp(pq[j], pq[k]) {
        SinkEnds(pq[..], nalloc, k, comp);
        j := k;
      }
    }

    method SinkOnce(k: nat, j: nat)
      requires Sizes() && StrictWeakOrder(comp) && HeapBelow(pq[..], nalloc, k, comp)
      requires 1 <= k && 2 * k <= j <= nalloc && j <= 2 * k + 1 && comp(pq[j], pq[k])
      requires forall i :: 2 <= i <= nalloc && i / 2 == k ==> !comp(pq[..][i], pq[..][j])
      modifies pq
      ensures HeapBelow(pq[..], nalloc, j, comp) && Items(pq[..], nalloc) == Items(old(pq[..]), nalloc)
    {
      SinkStep(pq[..], nalloc, k, j, comp);
      Exch(j, k);
    }

    /** Moves the element at `start` down to its place, in at most log2(nalloc) exchanges. */
    method Sink(start: nat) returns (k: nat, ghost exchanges: nat)
      requires Sizes() && StrictWeakOrder(comp) && 1 <= start && HeapBelow(pq[..], nalloc, start, comp)
      modifies pq
      ensures Heap(pq[..], nalloc, comp)
      ensures Items(pq[..], nalloc) == Items(old(pq[..]), nalloc)
      ensures exchanges <= Log2(nalloc)
    {
      k, exchanges := start, 0;
      while 2 * k <= nalloc
        invariant start <= k && HeapBelow(pq[..], nalloc, k, comp)
        invariant Items(pq[..], nalloc) == Items(old(pq[..]), nalloc)
        invariant exchanges <= Log2(k) && (exchanges > 0 ==> k <= nalloc)
        decreases nalloc - k
      {
        Log2Grows(k, nalloc);
        var j := LesserChild(k);
        if j == k { return; }
        SinkOnce(k, j);
        Log2Grows(k, j / 2);
        k, exchanges := j, exchanges + 1;
      }
      if exchanges > 0 { Log2Grows(k, nalloc); }
      SinkEnds(pq[..], nalloc, k, comp);
    }

    /** Puts x behind the last element. */
    method Append(x: T)
      requires Sizes() && nalloc + 1 < size && Heap(pq[..], nalloc, comp)
      modifies this`nalloc, pq
      ensures Sizes() && nalloc == old(nalloc) + 1 && HeapBut(pq[..], nalloc, nalloc, comp)
      ensures Items(pq[..], nalloc) == Items(old(pq[..]), old(nalloc)) + multiset{x}
    {
      ghost var s := pq[..];
      nalloc := nalloc + 1;
      pq[nalloc] := x;
      assert pq[..] == s[nalloc := x];
      assert pq[..][1..nalloc + 1] == s[1..nalloc] + [x];
    }

    /** Swaps the root with the last element and cuts it off. */
    method CutRoot()
      requires Sizes() && nalloc > 0 && Heap(pq[..], nalloc, comp)
      modifies this`nalloc, pq
      ensures Sizes() && nalloc == old(nalloc) - 1 && HeapBelow(pq[..], nalloc, 1, comp)
      ensures Items(pq[..], nalloc) + multiset{old(pq[1])} == Items(old(pq[..]), old(nalloc))
    {
      hide HeapBelow, Items;
      ghost var s := pq[..];
      Exch(1, nalloc);
      RootCut(s, nalloc, comp);
      nalloc := nalloc - 1;
    }

    /** Charges the next operation. */
    ghost method Charge()
      modifies this`ops
      ensures ops == old(ops) + 1
    {
      ops := ops + 1;
    }

    /** Makes room for one more; the resize it may take never fails. */
    method Grow() returns (ok: bool)
      requires Sizes()
      modifies this`pq, this`size, this`copied
      ensures ok && Sizes() && nalloc + 1 < size && Items(pq[..], nalloc) == old(Items(pq[..], nalloc))
      ensures Heap(pq[..], nalloc, comp) == old(Heap(pq[..], nalloc, comp))
      ensures pq == old(pq) || fresh(pq)
      ensures copied + Potential(nalloc + 1, size) <= old(copied + Potential(nalloc, size)) + 3
      ensures nalloc == old(nalloc) && size == if nalloc + 1 == old(size) then 2 * old(size) else old(size)
    {
      ok := true;
      if nalloc + 1 == size {
        GrowIsPaid(nalloc, size);
        ghost var s := pq[..];
        ok := Resize(size * 2);
        assert pq[..][..nalloc + 1] == pq[..nalloc + 1] == s[..nalloc + 1];
        SamePrefix(s, pq[..], nalloc, comp);
      } else {
        InsertIsPaid(nalloc, size);
      }
    }

    /** Growing always succeeds, the contents gain x, and the copying is paid for. */
    method Insert(x: T) returns (ghost exchanges: nat)
      requires Valid()
      modifies this`pq, this`size, this`copied, this`nalloc, this`ops, pq
      ensures Valid() && Contents() == old(Contents()) + multiset{x}
      ensures nalloc == old(nalloc) + 1 && ops == old(ops) + 1 && exchanges <= Log2(nalloc)
      ensures size == if nalloc == old(size) then 2 * old(size) else old(size)
      ensures pq == old(pq) || fresh(pq)
    {
      hide StrictWeakOrder, HeapBut, Heap, Items, Potential;
      var ok := Grow();
      Append(x);
      exchanges := Swim(nalloc);
      Charge();
    }

    /** Halves a queue a quarter full; the resize never fails. */
    method Shrink() returns (ok: bool)
      requires Sizes()
      modifies this`pq, this`size, this`copied
      ensures ok && Sizes() && Items(pq[..], nalloc) == old(Items(pq[..], nalloc))
      ensures Heap(pq[..], nalloc, comp) == old(Heap(pq[..], nalloc, comp))
      ensures pq == old(pq) || fresh(pq)
      ensures copied + Potential(nalloc, size) <= old(copied + Potential(nalloc, size)) + 3
      ensures nalloc == old(nalloc)
      ensures size == if 0 < nalloc <= (old(size) - 1) / 4 then old(size) / 2 else old(size)
    {
      ok := true;
      if nalloc > 0 && nalloc <= (size - 1) / 4 {
        ShrinkIsPaid(nalloc, size);
        ghost var s := pq[..];
        ok := Resize(size / 2);
        assert pq[..][..nalloc + 1] == pq[..nalloc + 1] == s[..nalloc + 1];
        SamePrefix(s, pq[..], nalloc, comp);
      }
    }

    /** Removes the root; shrinking always succeeds and is paid for. */
    method DelMin() returns (ghost exchanges: nat)
      requires Valid()
      modifies this`pq, this`size, this`copied, this`nalloc, this`ops, pq
      ensures Valid() && ops == old(ops) + 1 && (pq == old(pq) || fresh(pq))
      ensures old(nalloc) == 0 ==> nalloc == 0 && Contents() == old(Contents())
      ensures old(nalloc) > 0 ==> nalloc == old(nalloc) - 1 && Contents() + multiset{old(pq[1])} == old(Contents())
      ensures size == if old(nalloc) > 0 && 0 < nalloc <= (old(size) - 1) / 4 then old(size) / 2 else old(size)
      ensures exchanges <= Log2(nalloc)
    {
      hide StrictWeakOrder, HeapBelow, Heap, Items, Potential;
      exchanges := 0;
      Charge();
      if nalloc == 0 { return; }
      DeleteIsPaid(nalloc, size);
      CutRoot();
      var k;
      k, exchanges := Sink(1);
      var ok := Shrink();
    }

    /** Takes out the least element. */
    method Pop() returns (x: T)
      requires Valid() && nalloc > 0
      modifies this`pq, this`size, this`copied, this`nalloc, this`ops, pq
      ensures Valid() && (pq == old(pq) || fresh(pq)) && nalloc == old(nalloc) - 1 && ops == old(ops) + 1
      ensures x in old(Contents()) && Contents() == old(Contents()) - multiset{x}
      ensures forall y :: y in old(Contents()) ==> !comp(y, x)
    {
      x := Min();
      ghost var exchanges := DelMin();
    }

    /** Emptying the queue yields exactly its contents, in order, for any strict
        weak order; and all copying so far stays linear in the operations done. */
    method Drain() returns (out: seq<T>)
      requires Valid()
      modifies this`pq, this`size, this`copied, this`nalloc, this`ops, pq
      ensures Valid() && nalloc == 0 && multiset(out) == old(Contents())
      ensures forall i, j :: 0 <= i < j < |out| ==> !comp(out[j], out[i])
      ensures copied <= 4 * ops + initial && ops == old(ops) + |out|
    {
      out := [];
      ghost var all, before := Contents(), ops;
      while nalloc > 0
        invariant Valid() && (pq == old(pq) || fresh(pq)) && ops == before + |out|
        invariant Drained(out, Contents(), all, comp)
        decreases nalloc
      {
        ghost var rest := Contents();
        var x := Pop();
        DrainStep(out, rest, all, x, comp);
        out := out + [x];
      }
      assert Contents() == multiset{};
    }
  }

  /** out is sorted, and nothing in the rest comes before any of it. */
  ghost predicate Drained<T(!new)>(out: seq<T>, rest: multiset<T>, all: multiset<T>, comp: (T, T) -> bool) {
    && multiset(out) + rest == all
    && (forall i, j :: 0 <= i < j < |out| ==> !comp(out[j], out[i]))
    && (forall i, y :: 0 <= i < |out| && y in rest ==> !comp(y, out[i]))
  }

  lemma DrainStep<T(!new)>(out: seq<T>, rest: multiset<T>, all: multiset<T>, x: T, comp: (T, T) -> bool)
    requires Drained(out, rest, all, comp) && x in rest && forall y :: y in rest ==> !comp(y, x)
    ensures Drained(out + [x], rest - multiset{x}, all, comp)
  {
    assert multiset(out + [x]) == multiset(out) + multiset{x};
  }
}
