/** Timers with lazy deletion over the heap.  Node memory is explicit: a node
    that has been freed is no longer in `nodes`, so every use of a node below is
    also a proof that it has not been freed. */
module Timer {
  import opened PriorityQueue

  const INFINITE := -1
  const DEFAULT_SIZE := 10

  /** Timeouts are positive ints, in milliseconds. */
  const MAX_INT := 0x7fff_ffff

  type Timeout = t: int | 0 < t <= MAX_INT witness 5000

  /** A monotonic clock, as a function from the number of a reading to its value. */
  ghost predicate Rising(clock: nat -> nat) {
    forall i: nat, j: nat :: i <= j ==> clock(i) <= clock(j)
  }

  /** No deadline is further ahead than a timeout can be. */
  ghost predicate Near(nodes: map<nat, TimerNode>, now: nat) {
    forall id :: id in nodes ==> nodes[id].key <= now + MAX_INT
  }

  /** A pointer to a node, with the key the node was given. */
  datatype TimerRef = TimerRef(node: nat, key: nat)

  datatype TimerNode = TimerNode(key: nat, deleted: bool, rq: nat)

  predicate Earlier(a: TimerRef, b: TimerRef) {
    a.key < b.key
  }

  ghost predicate Live(nodes: map<nat, TimerNode>, id: nat) {
    id in nodes && !nodes[id].deleted
  }

  /** A live node whose key no live node undercuts. */
  ghost predicate Earliest(nodes: map<nat, TimerNode>, id: nat) {
    Live(nodes, id) && forall j :: Live(nodes, j) ==> nodes[id].key <= nodes[j].key
  }

  /** Some deleted nodes have been freed; nothing else changed. */
  ghost predicate OnlyDeletedFreed(before: map<nat, TimerNode>, after: map<nat, TimerNode>) {
    && (forall id :: id in after ==> id in before && after[id] == before[id])
    && (forall id :: Live(before, id) ==> id in after)
  }

  /** The heap holds each allocated node exactly once, under the node's own key. */
  ghost predicate Holds(items: multiset<TimerRef>, nodes: map<nat, TimerNode>) {
    forall t :: items[t] == if t.node in nodes && nodes[t.node].key == t.key then 1 else 0
  }

  lemma HoldsMore(items: multiset<TimerRef>, nodes: map<nat, TimerNode>, id: nat, n: TimerNode)
    requires Holds(items, nodes) && id !in nodes
    ensures Holds(items + multiset{TimerRef(id, n.key)}, nodes[id := n])
  {
  }

  lemma HoldsMarked(items: multiset<TimerRef>, nodes: map<nat, TimerNode>, id: nat)
    requires Holds(items, nodes) && id in nodes
    ensures Holds(items, nodes[id := nodes[id].(deleted := true)])
  {
  }

  lemma HoldsLess(items: multiset<TimerRef>, rest: multiset<TimerRef>, nodes: map<nat, TimerNode>, id: nat)
    requires Holds(items, nodes) && id in nodes && rest + multiset{TimerRef(id, nodes[id].key)} == items
    ensures Holds(rest, nodes - {id})
  {
    forall t ensures rest[t] == if t.node in nodes - {id} && nodes[t.node].key == t.key then 1 else 0 {
      assert (rest + multiset{TimerRef(id, nodes[id].key)})[t] == items[t];
    }
  }

  lemma HoldsSome(items: multiset<TimerRef>, nodes: map<nat, TimerNode>)
    requires Holds(items, nodes) && nodes != map[]
    ensures items != multiset{}
  {
    var id :| id in nodes;
    assert TimerRef(id, nodes[id].key) in items;
  }

  /** No node at all has a smaller key. */
  ghost predicate Least(nodes: map<nat, TimerNode>, id: nat) {
    id in nodes && forall j :: j in nodes ==> nodes[id].key <= nodes[j].key
  }

  /** The least node is the earliest one even among those freed before, if it is live. */
  lemma StillEarliest(before: map<nat, TimerNode>, after: map<nat, TimerNode>, id: nat)
    requires OnlyDeletedFreed(before, after) && Least(after, id) && Live(after, id)
    ensures Earliest(before, id) && before[id] == after[id]
  {
    forall j | Live(before, j) ensures before[id].key <= before[j].key {
      assert j in after;
    }
  }

  /** Conversion of a 64-bit difference to a 32-bit int: the low half, read as signed. */
  function ToInt32(d: int): int {
    var low := d % 0x1_0000_0000;
    if low >= 0x8000_0000 then low - 0x1_0000_0000 else low
  }

  function AtLeastZero(d: int): nat {
    if d > 0 then d else 0
  }

  /** Overdue, if at all, by at most 2^31 ms modulo 2^32. */
  predicate Timely(d: int) {
    d <= 0 ==> (-d) % 0x1_0000_0000 <= 0x8000_0000
  }

  /** The conversion gives the right waiting time exactly when the deadline is
      at most 2^31 - 1 ms ahead and is not overdue by too much. */
  lemma WaitIsRight(d: int)
    ensures AtLeastZero(ToInt32(d)) == AtLeastZero(d) <==> d <= MAX_INT && Timely(d)
  {
    if d <= 0 {
      var o := (-d) % 0x1_0000_0000;
      assert d % 0x1_0000_0000 == if o == 0 then 0 else 0x1_0000_0000 - o;
    }
  }

  /** The waiting time for a deadline at most an int ahead: exact if it is to
      come; 0 if it has been missed by at most 2^31 ms modulo 2^32; else some
      positive int that differs from it by a multiple of 2^32. */
  lemma WaitIs(d: int)
    requires d <= MAX_INT
    ensures var time := AtLeastZero(ToInt32(d));
            && (d > 0 ==> time == d) && (d <= 0 ==> (time == 0 <==> (-d) % 0x1_0000_0000 <= 0x8000_0000))
            && 0 <= time <= MAX_INT && (time != 0 ==> (time - d) % 0x1_0000_0000 == 0)
  {
    if d <= 0 {
      var o := (-d) % 0x1_0000_0000;
      assert d % 0x1_0000_0000 == if o == 0 then 0 else 0x1_0000_0000 - o;
    }
  }

  class Timers {
    const heap: Queue<TimerRef>
    const clock: nat -> nat
    var looks: nat
    var nodes: map<nat, TimerNode>
    var now: nat

    ghost predicate Valid()
      reads this, heap, heap.pq
    {
      && heap.Valid()
      && (forall a, b :: heap.comp(a, b) <==> Earlier(a, b))
      && Holds(heap.Contents(), nodes) && Ticking() && Near(nodes, now)
    }

    /** `now` is what the clock said when it was last read. */
    ghost predicate Ticking()
      reads `now, `looks
    {
      Rising(clock) && 0 < looks && now == clock(looks - 1)
    }

    constructor (clock: nat -> nat)
      requires Rising(clock)
      ensures Valid() && nodes == map[] && looks == 1 && this.clock == clock && fresh(heap) && fresh(heap.pq)
    {
      heap := new Queue<TimerRef>(Earlier, DEFAULT_SIZE);
      this.clock := clock;
      nodes, now, looks := map[], clock(0), 1;
    }

    /** Reads the clock. */
    method TimeUpdate()
      requires Ticking()
      modifies this`now, this`looks
      ensures Ticking() && now >= old(now) && looks == old(looks) + 1
    {
      now, looks := clock(looks), looks + 1;
    }

    /** Stores a node at the free address `addr` and puts it into the heap. */
    method Push(addr: nat, node: TimerNode)
      requires Valid() && addr !in nodes && node.key <= now + MAX_INT
      modifies this`nodes, heap, heap.pq
      ensures Valid() && (heap.pq == old(heap.pq) || fresh(heap.pq))
      ensures nodes == old(nodes)[addr := node]
    {
      hide Holds, Heap, StrictWeakOrder, Potential, Items;
      HoldsMore(heap.Contents(), nodes, addr, node);
      ghost var exchanges := heap.Insert(TimerRef(addr, node.key));
      nodes := nodes[addr := node];
    }

    /** A new live node for request `rq`, due after `timeout`. */
    method Add(rq: nat, timeout: Timeout, addr: nat)
      requires Valid() && addr !in nodes
      modifies this`now, this`looks, this`nodes, heap, heap.pq
      ensures Valid() && (heap.pq == old(heap.pq) || fresh(heap.pq)) && looks == old(looks) + 1
      ensures now >= old(now) && nodes == old(nodes)[addr := TimerNode(now + timeout, false, rq)]
    {
      hide Holds, Heap, StrictWeakOrder, Potential, Items;
      TimeUpdate();
      Push(addr, TimerNode(now + timeout, false, rq));
    }

    /** Marks a node; it stays in the heap until it comes to the top. */
    method Delete(id: nat)
      requires Valid() && Live(nodes, id)
      modifies this`now, this`looks, this`nodes
      ensures Valid() && now >= old(now) && nodes == old(nodes)[id := old(nodes)[id].(deleted := true)]
    {
      TimeUpdate();
      HoldsMarked(heap.Contents(), nodes, id);
      nodes := nodes[id := nodes[id].(deleted := true)];
    }

    /** The node at the top of the heap: no node at all has a smaller key. */
    method Top() returns (id: nat)
      requires Valid() && heap.nalloc > 0
      ensures Least(nodes, id) && heap.pq[1] == TimerRef(id, nodes[id].key)
    {
      var t := heap.Min();
      id := t.node;
      forall j | j in nodes ensures nodes[id].key <= nodes[j].key {
        assert TimerRef(j, nodes[j].key) in heap.Contents();
      }
    }

    /** Removes the top node from the heap and frees it. */
    method FreeTop(ghost id: nat)
      requires Valid() && heap.nalloc > 0 && id in nodes && heap.pq[1] == TimerRef(id, nodes[id].key)
      modifies this`nodes, heap, heap.pq
      ensures Valid() && (heap.pq == old(heap.pq) || fresh(heap.pq))
      ensures nodes == old(nodes) - {id} && heap.nalloc == old(heap.nalloc) - 1
    {
      hide Holds, Heap, StrictWeakOrder, Potential, Items;
      var t := heap.Min();
      ghost var before := heap.Contents();
      ghost var exchanges := heap.DelMin();
      HoldsLess(before, heap.Contents(), nodes, id);
      nodes := nodes - {t.node};
    }

    lemma EmptyHeap()
      requires Valid() && heap.nalloc == 0
      ensures nodes == map[]
    {
      assert heap.Contents() == multiset{};
      if nodes != map[] { HoldsSome(heap.Contents(), nodes); }
    }

    /** Looks at the top node under a fresh clock, and frees it if it is deleted. */
    method Next() returns (id: nat, live: bool)
      requires Valid() && heap.nalloc > 0
      modifies this`now, this`looks, this`nodes, heap, heap.pq
      ensures Valid() && (heap.pq == old(heap.pq) || fresh(heap.pq)) && now >= old(now) && looks > old(looks)
      ensures Least(old(nodes), id) && live == Live(old(nodes), id)
      ensures if live then nodes == old(nodes) && heap.nalloc == old(heap.nalloc) && heap.pq[1] == TimerRef(id, nodes[id].key)
              else nodes == old(nodes) - {id} && heap.nalloc == old(heap.nalloc) - 1
    {
      TimeUpdate();
      id := Top();
      live := !nodes[id].deleted;
      if !live { FreeTop(id); }
    }

    /** Time to the earliest live deadline; -1 exactly when no node is live.
        Only deleted nodes are freed on the way.  The time is right unless the
        deadline has been missed by more than 2^31 ms, modulo 2^32. */
    method Find() returns (time: int, ghost next: nat)
      requires Valid()
      modifies this`now, this`looks, this`nodes, heap, heap.pq
      ensures Valid() && (heap.pq == old(heap.pq) || fresh(heap.pq)) && now >= old(now)
      ensures OnlyDeletedFreed(old(nodes), nodes)
      ensures time == INFINITE <==> forall id :: !Live(old(nodes), id)
      ensures time != INFINITE ==> Earliest(old(nodes), next) && looks > old(looks)
      ensures time != INFINITE ==>
                var ahead := old(nodes)[next].key - now;
                && time == AtLeastZero(ToInt32(ahead)) && (time == AtLeastZero(ahead) <==> Timely(ahead))
                && (ahead > 0 ==> time == ahead)
                && (ahead <= 0 ==> (time == 0 <==> (-ahead) % 0x1_0000_0000 <= 0x8000_0000))
                && 0 <= time <= MAX_INT && (time != 0 ==> (time - ahead) % 0x1_0000_0000 == 0)
    {
      hide Valid, Earliest, Least, Timely, ToInt32;
      time, next := INFINITE, 0;
      while heap.nalloc > 0
        invariant Valid() && (heap.pq == old(heap.pq) || fresh(heap.pq)) && now >= old(now) && looks >= old(looks)
        invariant OnlyDeletedFreed(old(nodes), nodes)
        decreases heap.nalloc
      {
        var id, live := Next();
        if live {
          StillEarliest(old(nodes), nodes, id);
          IsNear(id);
          WaitIsRight(nodes[id].key - now);
          WaitIs(nodes[id].key - now);
          return AtLeastZero(ToInt32(nodes[id].key - now)), id;
        }
      }
      EmptyHeap();
    }

    lemma LastReading()
      requires Valid()
      ensures 0 < looks && now == clock(looks - 1)
    {
    }

    lemma IsNear(id: nat)
      requires Valid() && id in nodes
      ensures nodes[id].key <= now + MAX_INT
    {
    }
  }

  /** One timer, set at 0 for 1 ms later, on a clock that then jumps to 2^31 + 2 ms. */
  method Paused() returns (t: Timers)
    ensures t.Valid() && fresh(t) && fresh(t.heap) && fresh(t.heap.pq)
    ensures t.nodes == map[0 := TimerNode(1, false, 0)] && t.looks == 2
    ensures forall k: nat :: k >= 2 ==> t.clock(k) == 0x8000_0002
  {
    var clock := (k: nat) => if k <= 1 then 0 else 0x8000_0002;
    t := new Timers(clock);
    t.Add(0, 1, 0);
    t.LastReading();
  }

  /** A deadline missed by 2^31 + 1 ms, as when the process is stopped for 25 days
      between two readings of the clock, is waited for 2^31 - 1 ms more. */
  method MissedDeadlineIsAwaited() returns (time: int)
    ensures time == MAX_INT
  {
    var t := Paused();
    assert Live(t.nodes, 0);
    ghost var next;
    time, next := t.Find();
    t.LastReading();
  }
}
