/** The free list of request blocks.  A block closed in the middle of an event
    batch waits on the deferred list until the batch is over.  Blocks are named
    by their addresses; the two lists are kept as sequences, head first. */
module RequestCache {
  import opened Bytes
  import opened List

  const REQUEST_CAP := 65536

  /** What the counters say. */
  datatype Stats = Stats(getCalls: nat, getHits: nat, getMallocs: nat, putCalls: nat, putFrees: nat, maxFree: nat)

  ghost predicate NoRepeats(s: seq<nat>) {
    forall i, j :: 0 <= i < j < |s| ==> s[i] != s[j]
  }

  /** No block is in two places. */
  ghost predicate Separate(inUse: set<nat>, free: seq<nat>, deferred: seq<nat>) {
    && NoRepeats(free) && NoRepeats(deferred)
    && (forall x :: x in free ==> x !in deferred && x !in inUse)
    && (forall x :: x in deferred ==> x !in inUse)
  }

  /** Every block got was a hit or came from malloc; every block put went to the
      free list, was freed, or has been a hit since; and the blocks got but not
      yet put are those in use or deferred. */
  ghost predicate Accounted(s: Stats, inUse: nat, free: nat, deferred: nat) {
    && s.getCalls == s.getHits + s.getMallocs
    && s.getHits + s.putFrees + free == s.putCalls
    && s.putCalls + inUse + deferred == s.getCalls
    && free <= s.maxFree <= REQUEST_CAP
  }

  class Cache {
    var free: seq<nat>
    var freeCount: nat
    var deferred: seq<nat>
    var stats: Stats

    ghost var inUse: set<nat>

    ghost predicate Valid()
      reads this
    {
      && Separate(inUse, free, deferred) && freeCount == |free| <= REQUEST_CAP
      && Accounted(stats, |inUse|, |free|, |deferred|)
    }

    constructor ()
      ensures Valid() && inUse == {} && free == [] && deferred == []
    {
      free, freeCount, deferred, stats, inUse := [], 0, [], Stats(0, 0, 0, 0, 0, 0), {};
      new;
      assert |inUse| == 0;
    }

    /** A block for a new connection; `addr` is what malloc would answer.  It is
        never one that was closed since the last flush. */
    method Get(addr: nat) returns (r: nat)
      requires Valid() && addr !in inUse && addr !in free && addr !in deferred
      modifies this
      ensures Valid() && r !in old(inUse) && r !in deferred && inUse == old(inUse) + {r}
      ensures deferred == old(deferred)
      ensures if old(free) == [] then r == addr && free == [] else r == old(free)[0] && free == old(free)[1..]
      ensures stats == if old(free) == []
                       then old(stats).(getCalls := old(stats).getCalls + 1, getMallocs := old(stats).getMallocs + 1)
                       else old(stats).(getCalls := old(stats).getCalls + 1, getHits := old(stats).getHits + 1)
    {
      stats := stats.(getCalls := stats.getCalls + 1);
      if |free| > 0 {
        r := free[0];
        free, stats := free[1..], stats.(getHits := stats.getHits + 1);
        if freeCount > 0 { freeCount := freeCount - 1; }
      } else {
        r := addr;
        stats := stats.(getMallocs := stats.getMallocs + 1);
      }
      inUse := inUse + {r};
    }

    /** Puts a block that is in no place on the free list, or frees it. */
    method Put(r: nat)
      requires Separate(inUse, free, deferred) && freeCount == |free| <= REQUEST_CAP
      requires Accounted(stats, |inUse|, |free|, |deferred| + 1) && r !in free && r !in deferred && r !in inUse
      modifies this`free, this`freeCount, this`stats
      ensures Valid()
      ensures free == if old(freeCount) < REQUEST_CAP then [r] + old(free) else old(free)
      ensures stats.putCalls == old(stats).putCalls + 1
      ensures stats.putFrees == old(stats).putFrees + if old(freeCount) < REQUEST_CAP then 0 else 1
      ensures stats.maxFree == if |free| > old(stats).maxFree then |free| else old(stats).maxFree
    {
      stats := stats.(putCalls := stats.putCalls + 1);
      if freeCount >= REQUEST_CAP {
        stats := stats.(putFrees := stats.putFrees + 1);
        return;
      }
      free, freeCount := [r] + free, freeCount + 1;
      if freeCount > stats.maxFree { stats := stats.(maxFree := freeCount); }
    }

    /** Closes the connection of a block; the block stays out of reach of Get. */
    method PutDeferred(r: nat)
      requires Valid() && r in inUse
      modifies this`deferred, this`inUse
      ensures Valid() && deferred == [r] + old(deferred) && inUse == old(inUse) - {r}
    {
      deferred := [r] + deferred;
      inUse := inUse - {r};
    }

    /** Takes the first deferred block and puts it. */
    method FlushOne() returns (r: nat)
      requires Valid() && deferred != []
      modifies this`free, this`freeCount, this`stats, this`deferred
      ensures Valid() && r == old(deferred)[0] && deferred == old(deferred)[1..]
      ensures free == if old(freeCount) < REQUEST_CAP then [r] + old(free) else old(free)
    {
      r := deferred[0];
      deferred := deferred[1..];
      Put(r);
    }

    /** The end of a batch: every deferred block goes to the free list while it
        has room, the others are freed; no block in use is touched. */
    method DeferredFlush()
      requires Valid()
      modifies this`free, this`freeCount, this`stats, this`deferred
      ensures Valid() && deferred == []
      ensures free == Freed(old(deferred), REQUEST_CAP - old(freeCount)) + old(free)
    {
      ghost var visited, base, all, room := [], free, deferred, REQUEST_CAP - freeCount;
      while |deferred| > 0
        invariant Valid() && Moved(visited, deferred, all, free, base, room) && room == REQUEST_CAP - |base|
        decreases |deferred|
      {
        MovedOneMore(visited, deferred, all, free, base, room);
        var r := FlushOne();
        visited := visited + [r];
      }
      assert visited + [] == visited;
    }
  }
}
