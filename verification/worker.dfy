/** The worker's event loop: accept, dispatch, expire, flush.  What a handler
    decides is arbitrary; what it does to registrations, timers and request
    blocks is as in the handlers. */
module Worker {
  import opened Bytes
  import opened Timer
  import opened RequestCache
  import opened Registry
  import HttpConn
  import ResponseWriter

  datatype PipeOutcome = PipeEmpty | ChunkQueued | EndQueued | PipeFatal

  /** How one handler call turns out, whichever handler it is; `chunk`: it leaves a
      chunk of a script's output waiting to be sent. */
  datatype Outcome = Outcome(request: HttpConn.RequestExit, inFlight: bool, pipe: PipeOutcome,
                             send: ResponseWriter.WriteResult, keepAlive: bool, chunk: bool)

  /** What the kernel could report next. */
  datatype Notice =
    | Incoming(arrivals: nat)
    | SocketReady(rq: nat, ready: bool, error: bool, hangup: bool)
    | PipeReady(rq: nat)

  datatype Round = Round(notices: seq<Notice>, outcomes: seq<Outcome>)

  /** malloc: any address not in use. */
  method Malloc(used: set<nat>) returns (addr: nat)
    ensures addr !in used
  {
    addr := 0;
    var left := used;
    while left != {}
      invariant forall x :: x in used && x !in left ==> x < addr
      decreases |left|
    {
      var x :| x in left;
      if x >= addr { addr := x + 1; }
      left := left - {x};
    }
  }

  const MAX_EVENTS := 1024

  const DEFAULT := Outcome(HttpConn.Closed, false, PipeFatal, ResponseWriter.Broken, false, false)

  /** One notice of the kernel, taken to the batch if its registration is armed, which it disarms. */
  predicate Reported(n: Notice, conns0: Conns, pending0: seq<Event>, conns: Conns, pending: seq<Event>) {
    match n
    case Incoming(arrivals) => pending == [Listen(arrivals)] + pending0 && conns == conns0
    case SocketReady(r, ready, error, hangup) =>
      if r in conns0 && conns0[r].sock != Off && (ready || error || hangup) then
        var c := conns0[r];
        && pending == [OnConn(r, error, ready && c.sock == In, ready && c.sock == Out, hangup)] + pending0
        && conns == conns0[r := c.(sock := Off)]
      else pending == pending0 && conns == conns0
    case PipeReady(r) =>
      if r in conns0 && conns0[r].pipe == Armed then
        pending == [OnCgiOut(r)] + pending0 && conns == conns0[r := conns0[r].(pipe := Fired)]
      else pending == pending0 && conns == conns0
  }

  // ---------- What each event does to its connection ----------

  /** A connection ends, or waits as `c` says under the keep-alive or the request timeout. */
  datatype Move = Ends | Waits(c: Conn, keepAlive: bool)

  function RequestMove(c: Conn, o: Outcome): Move {
    match o.request
    case Closed => Ends
    case AwaitRead => Waits(c.(sock := In), !o.inFlight)
    case AwaitWrite => Waits(c.(sock := Out), false)
    case AwaitLastWrite => Waits(c.(sock := Out), false)
    case AwaitScript => Waits(c.(cgi := true, pipe := Armed), false)
  }

  function StdoutMove(c: Conn, o: Outcome): Move {
    match o.pipe
    case PipeFatal => Ends
    case PipeEmpty => Waits(c.(pipe := Armed), false)
    case ChunkQueued => Waits(c.(sock := Out, queued := o.chunk), false)
    case EndQueued => Waits(c.(sock := Out, pipe := NoPipe, queued := o.chunk), false)
  }

  /** A script's reply is over once all is sent and its pipe has ended. */
  function WriteMove(c: Conn, o: Outcome): Move {
    match o.send
    case Broken => Ends
    case Blocked => Waits(c.(sock := Out, queued := c.cgi && o.chunk), false)
    case Complete =>
      if c.cgi then if c.pipe == NoPipe then Ends else Waits(c.(pipe := Armed, queued := false), false)
      else if o.keepAlive then Waits(c.(sock := In), true)
      else Ends
  }

  function EventMove(e: Event, c: Conn, o: Outcome): Move
    requires !e.Listen?
  {
    if e.OnCgiOut? then StdoutMove(c, o)
    else if e.error then Ends
    else if e.readable then RequestMove(c, o)
    else if e.writable then WriteMove(c, o)
    else Ends
  }

  /** Whatever the outcome, a connection that goes on has exactly one registration armed. */
  lemma GoesOnArmed(e: Event, conns: Conns, c: Conn, o: Outcome)
    requires !e.Listen? && e.rq in conns && conns[e.rq] == c && Handleable(e, conns)
    requires c.Shape() && c.Registrations() == 0
    ensures var m := EventMove(e, c, o);
            m.Waits? ==> m.c.Shape() && m.c.Registrations() == 1 && (c.cgi ==> m.c.cgi && m.c.sock != In)
  {
  }

  /** A worker between two steps of its loop. */
  datatype World = World(nodes: Nodes, now: nat, conns: Conns, pending: seq<Event>, deferred: seq<nat>)

  /** What one round did: the answer to epoll_wait's timeout and the node it is
      for, the worlds from the first report to the last and from the first event
      to the last, and the timers that went off. */
  datatype Log = Log(wait: int, next: nat, told: seq<World>, handled: seq<World>, fired: seq<nat>)

  function OutcomeAt(outcomes: seq<Outcome>, i: nat): Outcome {
    if i < |outcomes| then outcomes[i] else DEFAULT
  }

  /** The earliest timer has been looked up, and deleted ones before it freed. */
  ghost predicate Looked(a: World, wait: int, next: nat, b: World) {
    && OnlyDeletedFreed(a.nodes, b.nodes) && a.now <= b.now
    && b.conns == a.conns && b.pending == a.pending && b.deferred == a.deferred
    && (wait == INFINITE <==> a.conns == map[])
    && (wait != INFINITE ==> Earliest(a.nodes, next) && wait == AtLeastZero(ToInt32(a.nodes[next].key - b.now)))
  }

  ghost predicate Told(a: World, n: Notice, b: World) {
    b == a.(conns := b.conns, pending := b.pending) && Reported(n, a.conns, a.pending, b.conns, b.pending)
  }

  /** Reports are taken in order, until all are in or the event array is full. */
  ghost predicate IsTelling(notices: seq<Notice>, told: seq<World>) {
    && 0 < |told| <= |notices| + 1
    && forall i :: 0 <= i < |told| - 1 ==> Told(told[i], notices[i], told[i + 1])
  }

  lemma NoneTold(notices: seq<Notice>, told: seq<World>)
    requires |told| == 1
    ensures IsTelling(notices, told)
  {
  }

  lemma OneToldMore(notices: seq<Notice>, told: seq<World>, b: World)
    requires IsTelling(notices, told) && |told| <= |notices| && Told(told[|told| - 1], notices[|told| - 1], b)
    ensures IsTelling(notices, told + [b])
  {
  }

  /** No timer but x is touched; new ones may have been set. */
  ghost predicate OthersKept(nodes0: Nodes, nodes: Nodes, x: Option<nat>) {
    forall id :: id in nodes0 && x != Some(id) ==> id in nodes && nodes[id] == nodes0[id]
  }

  /** The timers that went off close exactly the connections that are due. */
  ghost predicate Lapsed(a: World, fired: seq<nat>, b: World) {
    && a.now <= b.now && b.pending == a.pending
    && Expiring(a.nodes, a.conns, b.nodes, b.conns, fired, b.now)
    && ClosedIfDue(a.nodes, a.conns, b.conns, b.now)
    && forall id :: id in b.nodes ==> b.nodes[id].key > b.now
  }

  /** Connections closed since conns0 are deferred, the others are not, and
      nothing deferred is open again. */
  ghost predicate Tracks(conns0: Conns, deferred0: seq<nat>, conns: Conns, deferred: seq<nat>) {
    && (forall r :: r in conns0 ==> (r in deferred <==> r !in conns))
    && (forall r :: r in deferred0 ==> r in deferred && r !in conns)
  }

  lemma NothingDeferred(conns: Conns)
    ensures Tracks(conns, [], conns, [])
  {
  }

  lemma TracksOn(conns0: Conns, d0: seq<nat>, conns1: Conns, d1: seq<nat>, conns2: Conns, d2: seq<nat>)
    requires Tracks(conns0, d0, conns1, d1) && Tracks(conns1, d1, conns2, d2)
    ensures Tracks(conns0, d0, conns2, d2)
  {
  }

  class Worker {
    const timers: Timers
    const cache: Cache
    const listener: nat
    const requestTimeout: Timeout
    const keepAliveTimeout: Timeout
    var conns: Conns
    var pending: seq<Event>

    /** Between handlers `busy` is empty; inside one it is the request handled. */
    ghost predicate State(busy: set<nat>)
      reads this, timers, timers.heap, timers.heap.pq, cache
    {
      && timers.Valid() && cache.Valid()
      && Sound(timers.nodes, conns, pending, busy)
      && listener !in conns && cache.inUse == conns.Keys + {listener}
    }

    constructor (requestTimeout: Timeout, keepAliveTimeout: Timeout, clock: nat -> nat)
      requires Rising(clock)
      ensures State({}) && conns == map[] && pending == []
      ensures fresh(timers) && fresh(timers.heap) && fresh(timers.heap.pq) && fresh(cache)
    {
      var t := new Timers(clock);
      var c := new Cache();
      var block := c.Get(0);
      timers, cache, listener := t, c, block;
      this.requestTimeout, this.keepAliveTimeout := requestTimeout, keepAliveTimeout;
      conns, pending := map[], [];
    }

    /** Takes the next event of the batch and drops the timer of its request,
        which every handler does first: there is always one to drop. */
    method Begin() returns (e: Event)
      requires State({}) && pending != [] && !pending[0].Listen?
      modifies this`pending, this`conns, timers`now, timers`looks, timers`nodes
      ensures e == old(pending)[0] && pending == old(pending)[1..] && State({e.rq})
      ensures e.rq in conns && conns[e.rq].Registrations() == 0 && conns[e.rq].timer == None && Handleable(e, conns)
      ensures e.rq in old(conns) && conns == old(conns)[e.rq := old(conns)[e.rq].(timer := None)]
      ensures OthersKept(old(timers.nodes), timers.nodes, old(conns)[e.rq].timer) && old(timers.now) <= timers.now
    {
      hide Timers.Valid, Cache.Valid, Sound, Batch;
      e := pending[0];
      FirstHasTimer(timers.nodes, conns, pending);
      var id := conns[e.rq].timer.value;
      EventBegun(timers.nodes, conns, pending, e.rq, id);
      timers.Delete(id);
      pending := pending[1..];
      conns := conns[e.rq := conns[e.rq].(timer := None)];
    }

    /** A new timer node for r, at an address malloc gives. */
    method SetTimer(r: nat, timeout: Timeout) returns (addr: nat)
      requires timers.Valid()
      modifies timers, timers.heap, timers.heap.pq
      ensures timers.Valid() && (timers.heap.pq == old(timers.heap.pq) || fresh(timers.heap.pq))
      ensures addr !in old(timers.nodes) && timers.nodes == old(timers.nodes)[addr := TimerNode(timers.now + timeout, false, r)]
      ensures old(timers.now) <= timers.now
    {
      addr := Malloc(timers.nodes.Keys);
      timers.Add(r, timeout, addr);
    }

    /** Leaves a request as `c` says, with a new timer. */
    method Rest(r: nat, c: Conn, timeout: Timeout)
      requires timers.Valid() && cache.Valid() && Sound(timers.nodes, conns, pending, if r in conns then {r} else {})
      requires r != listener && listener !in conns && cache.inUse == conns.Keys + {listener, r}
      requires c.Shape() && c.Registrations() == 1
      modifies this`conns, timers, timers.heap, timers.heap.pq
      ensures State({}) && (timers.heap.pq == old(timers.heap.pq) || fresh(timers.heap.pq))
      ensures conns.Keys == old(conns).Keys + {r} && conns == old(conns)[r := c.(timer := conns[r].timer)]
      ensures conns[r].timer.Some? && conns[r].timer.value in timers.nodes
      ensures Deadline(timers.nodes, r, conns) == timers.now + timeout
      ensures OthersKept(old(timers.nodes), timers.nodes, None) && old(timers.now) <= timers.now
    {
      hide Sound, Timers.Valid, Cache.Valid;
      ghost var nodes := timers.nodes;
      var addr := SetTimer(r, timeout);
      Rested(nodes, conns, pending, r, c.(timer := Some(addr)), addr, timers.nodes[addr]);
      conns := conns[r := c.(timer := Some(addr))];
    }

    /** Closes a connection whose timer has been dropped: its descriptors and
        registrations go, and its block waits for the end of the batch. */
    method CloseConn(r: nat)
      requires r in conns && conns[r].timer == None && r != listener
      requires cache.Valid() && r in cache.inUse
      modifies this`conns, cache
      ensures conns == old(conns) - {r}
      ensures cache.Valid() && cache.inUse == old(cache.inUse) - {r} && cache.deferred == [r] + old(cache.deferred)
      ensures cache.free == old(cache.free)
    {
      conns := conns - {r};
      cache.PutDeferred(r);
    }

    method Close(r: nat)
      requires State({r})
      modifies this`conns, cache
      ensures State({}) && conns == old(conns) - {r} && cache.deferred == [r] + old(cache.deferred)
    {
      hide Sound, Timers.Valid, Cache.Valid;
      InHandlerShape(r);
      Closed(timers.nodes, conns, pending, r);
      CloseConn(r);
    }

    /** A block from the cache, or a new one. */
    method TakeBlock() returns (r: nat)
      requires cache.Valid() && cache.inUse == conns.Keys + {listener}
      modifies cache
      ensures cache.Valid() && cache.inUse == old(cache.inUse) + {r} && r !in old(cache.inUse)
      ensures r !in cache.deferred && cache.deferred == old(cache.deferred)
    {
      hide Accounted;
      var addr := Malloc(conns.Keys + {listener} + (set x | x in cache.free) + (set x | x in cache.deferred));
      r := cache.Get(addr);
    }

    /** One accepted connection, on a block that is not in use and was not
        closed in this batch. */
    method AcceptOne() returns (r: nat)
      requires State({})
      modifies this`conns, timers, timers.heap, timers.heap.pq, cache
      ensures State({}) && (timers.heap.pq == old(timers.heap.pq) || fresh(timers.heap.pq))
      ensures r !in old(conns) && conns.Keys == old(conns).Keys + {r} && r !in cache.deferred
      ensures conns[r].sock == In && !conns[r].cgi && conns == old(conns)[r := conns[r]]
      ensures |conns| == |old(conns)| + 1 && cache.deferred == old(cache.deferred)
      ensures Deadline(timers.nodes, r, conns) == timers.now + keepAliveTimeout
      ensures OthersKept(old(timers.nodes), timers.nodes, None) && old(timers.now) <= timers.now
    {
      hide Sound, Timers.Valid, Cache.Valid;
      r := TakeBlock();
      Rest(r, Conn(In, NoPipe, false, false, None), keepAliveTimeout);
    }

    /** Accepts until no connection is waiting. */
    method Accept()
      requires State({}) && pending != [] && pending[0].Listen?
      modifies this`pending, this`conns, timers, timers.heap, timers.heap.pq, cache
      ensures State({}) && (timers.heap.pq == old(timers.heap.pq) || fresh(timers.heap.pq))
      ensures pending == old(pending)[1..] && cache.deferred == old(cache.deferred)
      ensures |conns| == |old(conns)| + old(pending)[0].arrivals
      ensures forall r :: r in old(conns) ==> r in conns && conns[r] == old(conns)[r]
      ensures forall r :: r in conns && r !in old(conns) ==> r !in cache.deferred && conns[r].sock == In && !conns[r].cgi
      ensures OthersKept(old(timers.nodes), timers.nodes, None) && old(timers.now) <= timers.now
    {
      hide Sound, Timers.Valid, Cache.Valid, OthersKept;
      NoneTouched(timers.nodes);
      var left := pending[0].arrivals;
      ListenTaken(timers.nodes, conns, pending);
      pending := pending[1..];
      while left > 0
        invariant State({}) && (timers.heap.pq == old(timers.heap.pq) || fresh(timers.heap.pq))
        invariant pending == old(pending)[1..] && cache.deferred == old(cache.deferred)
        invariant |conns| + left == |old(conns)| + old(pending)[0].arrivals
        invariant forall r :: r in old(conns) ==> r in conns && conns[r] == old(conns)[r]
        invariant forall r :: r in conns && r !in old(conns) ==> r !in cache.deferred && conns[r].sock == In && !conns[r].cgi
        invariant OthersKept(old(timers.nodes), timers.nodes, None) && old(timers.now) <= timers.now
      {
        ghost var nodes := timers.nodes;
        var r := AcceptOne();
        KeptSince(old(timers.nodes), nodes, timers.nodes, None);
        left := left - 1;
      }
    }

    ghost function Here(): World
      reads this, timers, cache
    {
      World(timers.nodes, timers.now, conns, pending, cache.deferred)
    }

    ghost predicate MovedTo(a: World, r: nat, m: Move, b: World) {
      match m
      case Ends => b.conns == a.conns - {r} && b.deferred == [r] + a.deferred
      case Waits(c, keepAlive) =>
        && r in b.conns && b.conns == a.conns[r := c.(timer := b.conns[r].timer)] && b.deferred == a.deferred
        && b.conns[r].timer.Some? && b.conns[r].timer.value in b.nodes
        && Deadline(b.nodes, r, b.conns) == b.now + if keepAlive then keepAliveTimeout else requestTimeout
    }

    /** New connections wait for a request; the others are as before. */
    ghost predicate Accepted(a: World, arrivals: nat, b: World) {
      && |b.conns| == |a.conns| + arrivals && b.deferred == a.deferred && OthersKept(a.nodes, b.nodes, None)
      && (forall r :: r in a.conns ==> r in b.conns && b.conns[r] == a.conns[r])
      && (forall r :: r in b.conns && r !in a.conns ==> b.conns[r].sock == In && !b.conns[r].cgi)
    }

    /** The first event of the batch is handled: its connection moves as the
        event and the handler's outcome say, and no other connection and no other
        timer is touched. */
    ghost predicate Handled(a: World, o: Outcome, b: World) {
      && a.pending != [] && b.pending == a.pending[1..] && a.now <= b.now
      && var e := a.pending[0];
      if e.Listen? then Accepted(a, e.arrivals, b)
      else && e.rq in a.conns && OthersKept(a.nodes, b.nodes, a.conns[e.rq].timer)
           && MovedTo(a, e.rq, EventMove(e, a.conns[e.rq], o), b)
    }

    ghost predicate IsHandling(outcomes: seq<Outcome>, handled: seq<World>) {
      && 0 < |handled|
      && forall i :: 0 <= i < |handled| - 1 ==> Handled(handled[i], OutcomeAt(outcomes, i), handled[i + 1])
    }

    lemma OneHandledMore(outcomes: seq<Outcome>, handled: seq<World>, b: World)
      requires IsHandling(outcomes, handled) && Handled(handled[|handled| - 1], OutcomeAt(outcomes, |handled| - 1), b)
      ensures IsHandling(outcomes, handled + [b])
    {
      hide Handled, OutcomeAt;
    }

    /** One round: look up the earliest timer, take reports, handle every event,
        expire, and flush what was closed. */
    ghost predicate IsRound(a: World, r: Round, l: Log, b: World) {
      && IsTelling(r.notices, l.told) && Looked(a, l.wait, l.next, l.told[0])
      && (|l.told| <= |r.notices| ==> |l.told[|l.told| - 1].pending| >= MAX_EVENTS)
      && IsHandling(r.outcomes, l.handled) && l.handled[0] == l.told[|l.told| - 1]
      && l.handled[|l.handled| - 1].pending == []
      && Lapsed(l.handled[|l.handled| - 1], l.fired, b) && b.deferred == []
    }

    /** A handler has moved r as m says, and touched no other connection. */
    ghost predicate Moved(r: nat, conns0: Conns, deferred0: seq<nat>, m: Move)
      reads this, cache, timers
    {
      match m
      case Ends => conns == conns0 - {r} && cache.deferred == [r] + deferred0
      case Waits(c, keepAlive) =>
        && r in conns && conns == conns0[r := c.(timer := conns[r].timer)] && cache.deferred == deferred0
        && conns[r].timer.Some? && conns[r].timer.value in timers.nodes
        && Deadline(timers.nodes, r, conns) == timers.now + if keepAlive then keepAliveTimeout else requestTimeout
    }

    /** The read event of a socket: the request loop ran and came out as `o` says. */
    method DoRequest(r: nat, o: Outcome)
      requires State({r}) && !conns[r].cgi
      modifies this`conns, timers, timers.heap, timers.heap.pq, cache
      ensures State({}) && (timers.heap.pq == old(timers.heap.pq) || fresh(timers.heap.pq))
      ensures Moved(r, old(conns), old(cache.deferred), RequestMove(old(conns)[r], o))
      ensures o.request == HttpConn.Closed <==> r !in conns
      ensures r in conns ==>
                && conns[r].timer.Some? && conns[r].timer.value in timers.nodes
                && (conns[r].sock == In <==> o.request == HttpConn.AwaitRead)
                && (conns[r].sock == Out <==> o.request in {HttpConn.AwaitWrite, HttpConn.AwaitLastWrite})
                && (conns[r].cgi && conns[r].pipe == Armed <==> o.request == HttpConn.AwaitScript)
                && Deadline(timers.nodes, r, conns) ==
                   timers.now + if o.request == HttpConn.AwaitRead && !o.inFlight then keepAliveTimeout else requestTimeout
      ensures OthersKept(old(timers.nodes), timers.nodes, None) && old(timers.now) <= timers.now
    {
      hide Sound, Timers.Valid, Cache.Valid;
      InHandlerShape(r);
      var c := conns[r];
      match o.request {
        case Closed => Close(r);
        case AwaitRead =>
          Rest(r, c.(sock := In), if o.inFlight then requestTimeout else keepAliveTimeout);
        case AwaitWrite | AwaitLastWrite =>
          Rest(r, c.(sock := Out), requestTimeout);
        case AwaitScript =>
          Rest(r, c.(cgi := true, pipe := Armed), requestTimeout);
      }
    }

    /** The pipe of a script is readable or has ended. */
    method OnStdoutReady(r: nat, o: Outcome)
      requires State({r}) && conns[r].pipe == Fired && !conns[r].queued
      modifies this`conns, timers, timers.heap, timers.heap.pq, cache
      ensures State({}) && (timers.heap.pq == old(timers.heap.pq) || fresh(timers.heap.pq))
      ensures Moved(r, old(conns), old(cache.deferred), StdoutMove(old(conns)[r], o))
      ensures o.pipe == PipeFatal <==> r !in conns
      ensures r in conns ==>
                && conns[r].timer.Some? && conns[r].timer.value in timers.nodes
                && Deadline(timers.nodes, r, conns) == timers.now + requestTimeout
                && (conns[r].pipe == Armed <==> o.pipe == PipeEmpty) && (conns[r].pipe == NoPipe <==> o.pipe == EndQueued)
                && (conns[r].sock == Out <==> o.pipe in {ChunkQueued, EndQueued})
      ensures OthersKept(old(timers.nodes), timers.nodes, None) && old(timers.now) <= timers.now
    {
      hide Sound, Timers.Valid, Cache.Valid;
      InHandlerShape(r);
      var c := conns[r];
      match o.pipe {
        case PipeFatal => Close(r);
        case PipeEmpty => Rest(r, c.(pipe := Armed), requestTimeout);
        case ChunkQueued => Rest(r, c.(sock := Out, queued := o.chunk), requestTimeout);
        case EndQueued => Rest(r, c.(sock := Out, pipe := NoPipe, queued := o.chunk), requestTimeout);
      }
    }

    /** The write event of a socket whose reply comes from a script.  Once all is
        sent the pipe is armed again, or if it has ended the connection closes. */
    method OnCgiWritable(r: nat, o: Outcome)
      requires State({r}) && conns[r].cgi
      modifies this`conns, timers, timers.heap, timers.heap.pq, cache
      ensures State({}) && (timers.heap.pq == old(timers.heap.pq) || fresh(timers.heap.pq))
      ensures Moved(r, old(conns), old(cache.deferred), WriteMove(old(conns)[r], o))
      ensures r !in conns <==>
                o.send == ResponseWriter.Broken || (o.send == ResponseWriter.Complete && old(conns)[r].pipe == NoPipe)
      ensures r in conns ==>
                && conns[r].timer.Some? && conns[r].timer.value in timers.nodes
                && Deadline(timers.nodes, r, conns) == timers.now + requestTimeout
                && (conns[r].sock == Out <==> o.send == ResponseWriter.Blocked)
                && (conns[r].pipe == Armed <==> o.send == ResponseWriter.Complete)
      ensures OthersKept(old(timers.nodes), timers.nodes, None) && old(timers.now) <= timers.now
    {
      hide Sound, Timers.Valid, Cache.Valid;
      InHandlerShape(r);
      var c := conns[r];
      match o.send {
        case Broken => Close(r);
        case Blocked => Rest(r, c.(sock := Out, queued := o.chunk), requestTimeout);
        case Complete =>
          if c.pipe == NoPipe {
            Close(r);
          } else {
            Rest(r, c.(pipe := Armed, queued := false), requestTimeout);
          }
      }
    }

    /** The write event of a socket. */
    method DoWrite(r: nat, o: Outcome)
      requires State({r})
      modifies this`conns, timers, timers.heap, timers.heap.pq, cache
      ensures State({}) && (timers.heap.pq == old(timers.heap.pq) || fresh(timers.heap.pq))
      ensures Moved(r, old(conns), old(cache.deferred), WriteMove(old(conns)[r], o))
      ensures !old(conns)[r].cgi ==>
                (r !in conns <==>
                 o.send == ResponseWriter.Broken || (o.send == ResponseWriter.Complete && !o.keepAlive))
      ensures r in conns ==>
                && conns[r].timer.Some? && conns[r].timer.value in timers.nodes
                && Deadline(timers.nodes, r, conns) ==
                   timers.now + (if conns[r].sock == In then keepAliveTimeout else requestTimeout)
                && (conns[r].sock == Out <==> o.send == ResponseWriter.Blocked)
                && (conns[r].sock == In <==> o.send == ResponseWriter.Complete && !old(conns)[r].cgi)
      ensures OthersKept(old(timers.nodes), timers.nodes, None) && old(timers.now) <= timers.now
    {
      hide Sound, Timers.Valid, Cache.Valid;
      InHandlerShape(r);
      var c := conns[r];
      if c.cgi {
        OnCgiWritable(r, o);
        return;
      }
      match o.send {
        case Blocked => Rest(r, c.(sock := Out, queued := false), requestTimeout);
        case Broken => Close(r);
        case Complete =>
          if o.keepAlive {
            Rest(r, c.(sock := In), keepAliveTimeout);
          } else {
            Close(r);
          }
      }
    }

    /** An event of a socket: an error first, then reading, writing, a hangup. */
    method OnConnEvent(e: Event, o: Outcome)
      requires e.OnConn? && State({e.rq}) && Handleable(e, conns)
      modifies this`conns, timers, timers.heap, timers.heap.pq, cache
      ensures State({}) && (timers.heap.pq == old(timers.heap.pq) || fresh(timers.heap.pq))
      ensures Moved(e.rq, old(conns), old(cache.deferred), EventMove(e, old(conns)[e.rq], o))
      ensures e.error ==> e.rq !in conns
      ensures !e.error && e.readable ==> (e.rq in conns <==> o.request != HttpConn.Closed)
      ensures !e.error && !e.readable && e.writable && !old(conns)[e.rq].cgi ==>
                (e.rq in conns <==>
                 o.send == ResponseWriter.Blocked || (o.send == ResponseWriter.Complete && o.keepAlive))
      ensures !e.error && !e.readable && !e.writable ==> e.rq !in conns
      ensures OthersKept(old(timers.nodes), timers.nodes, None) && old(timers.now) <= timers.now
    {
      hide Sound, Timers.Valid, Cache.Valid, RequestMove, WriteMove, Moved;
      if e.error {
        CloseBroken(e.rq);
      } else if e.readable {
        DoRequest(e.rq, o);
      } else if e.writable {
        DoWrite(e.rq, o);
      } else if e.hangup {
        CloseBroken(e.rq);
      } else {
        assert false;
      }
    }

    method CloseBroken(r: nat)
      requires State({r})
      modifies this`conns, cache
      ensures State({}) && Moved(r, old(conns), old(cache.deferred), Ends) && conns == old(conns) - {r}
    {
      hide Sound, Timers.Valid, Cache.Valid;
      Close(r);
    }

    /** One event of the batch.  It is for a connection that is still open, on a
        block not reissued since; the connection moves as the event and the
        handler's outcome say, and no other is touched. */
    method HandleEvent(o: Outcome)
      requires State({}) && pending != []
      modifies this`pending, this`conns, timers, timers.heap, timers.heap.pq, cache
      ensures State({}) && (timers.heap.pq == old(timers.heap.pq) || fresh(timers.heap.pq))
      ensures pending == old(pending)[1..]
      ensures Handled(old(Here()), o, Here())
      ensures Tracks(old(conns), old(cache.deferred), conns, cache.deferred)
      ensures var e := old(pending)[0];
              e.OnConn? && (e.error || !(e.readable || e.writable)) ==> e.rq !in conns
    {
      hide Sound, Timers.Valid, Cache.Valid, RequestMove, WriteMove, StdoutMove, EventMove, Moved;
      OpenNotDeferred();
      if pending[0].Listen? {
        Accept();
        OpenNotDeferred();
      } else {
        HandleConn(o);
      }
    }

    method HandleConn(o: Outcome)
      requires State({}) && pending != [] && !pending[0].Listen?
      modifies this`pending, this`conns, timers, timers.heap, timers.heap.pq, cache
      ensures State({}) && (timers.heap.pq == old(timers.heap.pq) || fresh(timers.heap.pq))
      ensures pending == old(pending)[1..]
      ensures Handled(old(Here()), o, Here())
      ensures Tracks(old(conns), old(cache.deferred), conns, cache.deferred)
      ensures var e := old(pending)[0];
              e.OnConn? && (e.error || !(e.readable || e.writable)) ==> e.rq !in conns
    {
      hide Sound, Timers.Valid, Cache.Valid, RequestMove, WriteMove, StdoutMove, EventMove, Moved, Handled, Tracks,
           Handleable, OthersKept;
      ghost var a := Here();
      OpenNotDeferred();
      var e := Begin();
      ghost var began := Here();
      if e.OnCgiOut? {
        FiredPipe(e);
        OnStdoutReady(e.rq, o);
      } else {
        OnConnEvent(e, o);
      }
      KeptSince(a.nodes, began.nodes, timers.nodes, a.conns[e.rq].timer);
      StdoutIsEvent(e, began.conns[e.rq], o);
      MovedSince(e, o, a.conns, began.conns, a.deferred);
      MovedTracks(e.rq, a.conns, a.deferred, EventMove(e, a.conns[e.rq], o));
      MovedHandles(a, e, o);
    }

    lemma FiredPipe(e: Event)
      requires e.OnCgiOut? && Handleable(e, conns)
      ensures e.rq in conns && conns[e.rq].pipe == Fired && !conns[e.rq].queued
    {
    }

    lemma StdoutIsEvent(e: Event, c: Conn, o: Outcome)
      requires !e.Listen?
      ensures e.OnCgiOut? ==> EventMove(e, c, o) == StdoutMove(c, o)
    {
    }

    lemma NoneTouched(nodes: Nodes)
      ensures OthersKept(nodes, nodes, None)
    {
    }

    lemma KeptSince(a: Nodes, b: Nodes, c: Nodes, x: Option<nat>)
      requires OthersKept(a, b, x) && OthersKept(b, c, None)
      ensures OthersKept(a, c, x)
    {
    }

    lemma MovedHandles(a: World, e: Event, o: Outcome)
      requires a.pending != [] && pending == a.pending[1..] && a.now <= timers.now && e == a.pending[0] && !e.Listen?
      requires e.rq in a.conns && OthersKept(a.nodes, timers.nodes, a.conns[e.rq].timer)
      requires Moved(e.rq, a.conns, a.deferred, EventMove(e, a.conns[e.rq], o))
      ensures Handled(a, o, Here())
    {
      hide EventMove, OthersKept;
    }

    /** The kernel reports an armed registration and, being one-shot, disarms
        it.  A notice for a registration that is not armed is one it cannot give. */
    method Report(n: Notice)
      requires State({})
      modifies this`pending, this`conns
      ensures State({}) && conns.Keys == old(conns).Keys
      ensures Reported(n, old(conns), old(pending), conns, pending)
      ensures |pending| == |old(pending)| + 1 && pending[0].OnConn? ==>
                var e := pending[0];
                && e.rq in old(conns) && e.rq in conns && conns[e.rq].sock == Off
                && (e.readable ==> old(conns)[e.rq].sock == In) && (e.writable ==> old(conns)[e.rq].sock == Out)
      ensures |pending| == |old(pending)| + 1 && pending[0].OnCgiOut? ==>
                && pending[0].rq in old(conns) && pending[0].rq in conns
                && old(conns)[pending[0].rq].pipe == Armed && conns[pending[0].rq].pipe == Fired
    {
      hide Sound, Timers.Valid, Cache.Valid;
      match n {
        case Incoming(arrivals) =>
          ListenReported(timers.nodes, conns, pending, arrivals);
          pending := [Listen(arrivals)] + pending;
        case SocketReady(r, ready, error, hangup) =>
          if r in conns && conns[r].sock != Off && (ready || error || hangup) {
            var c := conns[r];
            SocketReported(timers.nodes, conns, pending, r, ready, error, hangup);
            pending := [OnConn(r, error, ready && c.sock == In, ready && c.sock == Out, hangup)] + pending;
            conns := conns[r := c.(sock := Off)];
          }
        case PipeReady(r) =>
          if r in conns && conns[r].pipe == Armed {
            PipeReported(timers.nodes, conns, pending, r);
            pending := [OnCgiOut(r)] + pending;
            conns := conns[r := conns[r].(pipe := Fired)];
          }
      }
    }

    method EpollWait(notices: seq<Notice>) returns (ghost told: seq<World>)
      requires State({})
      modifies this`pending, this`conns
      ensures State({}) && conns.Keys == old(conns).Keys
      ensures 0 < |told| && IsTelling(notices, told) && told[0] == old(Here()) && told[|told| - 1] == Here()
      ensures |told| <= |notices| ==> |pending| >= MAX_EVENTS
    {
      hide Sound, Timers.Valid, Cache.Valid, IsTelling, Reported;
      told := [Here()];
      assert IsTelling(notices, told) by { NoneTold(notices, told); }
      var i := 0;
      while i < |notices| && |pending| < MAX_EVENTS
        invariant State({}) && conns.Keys == old(conns).Keys && |told| == i + 1 <= |notices| + 1
        invariant IsTelling(notices, told) && told[0] == old(Here()) && told[i] == Here()
      {
        Report(notices[i]);
        OneToldMore(notices, told, Here());
        told := told + [Here()];
        i := i + 1;
      }
    }

    /** All events of a batch.  A block closed meanwhile is deferred, and no
        deferred block belongs to an open connection. */
    method HandleBatch(outcomes: seq<Outcome>) returns (ghost handled: seq<World>)
      requires State({}) && cache.deferred == []
      modifies this`pending, this`conns, timers, timers.heap, timers.heap.pq, cache
      ensures State({}) && (timers.heap.pq == old(timers.heap.pq) || fresh(timers.heap.pq))
      ensures pending == []
      ensures 0 < |handled| && IsHandling(outcomes, handled) && handled[0] == old(Here()) && handled[|handled| - 1] == Here()
      ensures Tracks(old(conns), [], conns, cache.deferred)
    {
      hide Sound, Timers.Valid, Cache.Valid, Tracks, IsHandling, Handled;
      ghost var conns0 := conns;
      NothingDeferred(conns);
      handled := [Here()];
      NoneHandled(outcomes, handled);
      var i := 0;
      while |pending| > 0
        invariant State({}) && (timers.heap.pq == old(timers.heap.pq) || fresh(timers.heap.pq))
        invariant Tracks(conns0, [], conns, cache.deferred)
        invariant |handled| == i + 1 && IsHandling(outcomes, handled) && handled[0] == old(Here()) && handled[i] == Here()
        decreases |pending|
      {
        ghost var conns1, d1 := conns, cache.deferred;
        HandleEvent(OutcomeAt(outcomes, i));
        TracksOn(conns0, [], conns1, d1, conns, cache.deferred);
        OneHandledMore(outcomes, handled, Here());
        handled := handled + [Here()];
        i := i + 1;
      }
    }

    lemma NoneHandled(outcomes: seq<Outcome>, handled: seq<World>)
      requires |handled| == 1
      ensures IsHandling(outcomes, handled)
    {
    }

    /** Forgets the timer that went off, without marking its node, and closes. */
    method CloseExpired(r: nat)
      requires r in conns && r != listener && cache.Valid() && r in cache.inUse
      modifies this`conns, cache
      ensures conns == old(conns) - {r}
      ensures cache.Valid() && cache.inUse == old(cache.inUse) - {r} && cache.deferred == [r] + old(cache.deferred)
    {
      hide Cache.Valid;
      conns := conns[r := conns[r].(timer := None)];
      CloseConn(r);
      assert conns == old(conns) - {r};
    }

    /** The node at the top is due: its handler closes the connection and
        inserts nothing, so the node removed afterwards is the one that fired. */
    method Fire(id: nat)
      requires State({}) && pending == [] && Live(timers.nodes, id)
      requires timers.heap.nalloc > 0 && timers.heap.pq[1] == TimerRef(id, timers.nodes[id].key)
      modifies this`conns, timers`nodes, timers.heap, timers.heap.pq, cache
      ensures State({}) && (timers.heap.pq == old(timers.heap.pq) || fresh(timers.heap.pq))
      ensures timers.nodes == old(timers.nodes) - {id} && conns == old(conns) - {old(timers.nodes)[id].rq}
      ensures timers.heap.nalloc == old(timers.heap.nalloc) - 1
    {
      hide Sound, Timers.Valid, Cache.Valid;
      Expired(timers.nodes, conns, id);
      CloseExpired(timers.nodes[id].rq);
      timers.FreeTop(id);
    }

    /** Every connection whose deadline has come is closed, and no other; the
        timers go off in order of their deadlines; nothing due is left. */
    method HandleExpireTimers() returns (ghost fired: seq<nat>)
      requires State({}) && pending == []
      modifies this`conns, timers, timers.heap, timers.heap.pq, cache
      ensures State({}) && (timers.heap.pq == old(timers.heap.pq) || fresh(timers.heap.pq))
      ensures Lapsed(old(Here()), fired, Here())
      ensures forall r :: r in conns ==> r in old(conns) && conns[r] == old(conns)[r]
      ensures forall r :: r in old(conns) && old(conns)[r].timer.Some? && old(conns)[r].timer.value in old(timers.nodes) ==>
                (r in conns <==> old(timers.nodes)[old(conns)[r].timer.value].key > timers.now)
      ensures forall id :: id in timers.nodes ==> timers.nodes[id].key > timers.now
    {
      hide Sound, Timers.Valid, Cache.Valid, Expiring, ClosedIfDue;
      ghost var nodes0, conns0 := timers.nodes, conns;
      fired := [];
      ExpiringBegins(timers.nodes, conns, timers.now);
      while timers.heap.nalloc > 0
        invariant State({}) && (timers.heap.pq == old(timers.heap.pq) || fresh(timers.heap.pq))
        invariant Expiring(nodes0, conns0, timers.nodes, conns, fired, timers.now) && old(timers.now) <= timers.now
        decreases timers.heap.nalloc
      {
        ghost var nodes, now := timers.nodes, timers.now;
        var id, live := timers.Next();
        if live {
          ExpiringSkips(nodes0, conns0, nodes, conns, fired, now, timers.now);
          if timers.nodes[id].key > timers.now {
            ExpiredExactly(nodes0, conns0, timers.nodes, conns, fired, timers.now);
            ClosedMeans(nodes0, conns0, timers.nodes, conns, fired, timers.now);
            return;
          }
          ExpiringFires(nodes0, conns0, nodes, conns, fired, timers.now, id);
          Fire(id);
          fired := fired + [id];
        } else {
          FreedOne(nodes, conns, id);
          ExpiringFrees(nodes0, conns0, nodes, conns, fired, now, id, timers.now);
        }
      }
      timers.EmptyHeap();
      ExpiredExactly(nodes0, conns0, timers.nodes, conns, fired, timers.now);
      ClosedMeans(nodes0, conns0, timers.nodes, conns, fired, timers.now);
    }

    /** Looks up how long epoll_wait may wait. */
    method LookUp() returns (time: int, ghost next: nat)
      requires State({}) && pending == []
      modifies timers, timers.heap, timers.heap.pq
      ensures State({}) && (timers.heap.pq == old(timers.heap.pq) || fresh(timers.heap.pq))
      ensures Looked(old(Here()), time, next, Here())
      ensures time == -1 <==> conns == map[]
      ensures time != -1 ==>
                && Earliest(old(timers.nodes), next) && 0 <= time <= MAX_INT
                && (old(timers.nodes)[next].key > timers.now ==> time == old(timers.nodes)[next].key - timers.now)
    {
      hide Sound, Timers.Valid, Cache.Valid, Earliest, Timely, ToInt32, AtLeastZero;
      ghost var nodes := timers.nodes;
      NoneOpen(nodes, conns);
      time, next := timers.Find();
      DeletedFreed(nodes, timers.nodes, conns, pending);
    }

    /** One round of the loop. */
    method Once(r: Round) returns (ghost l: Log)
      requires State({}) && pending == [] && cache.deferred == []
      modifies this`pending, this`conns, timers, timers.heap, timers.heap.pq, cache
      ensures State({}) && (timers.heap.pq == old(timers.heap.pq) || fresh(timers.heap.pq))
      ensures pending == [] && cache.deferred == [] && IsRound(old(Here()), r, l, Here())
    {
      hide Sound, Timers.Valid, Cache.Valid, IsTelling, IsHandling, Looked, Lapsed, Tracks, IsRound;
      ghost var a := Here();
      var time;
      ghost var next;
      time, next := LookUp();
      ghost var told := EpollWait(r.notices);
      ghost var handled := HandleBatch(r.outcomes);
      ghost var fired := HandleExpireTimers();
      ghost var lapsed := Here();
      Flush();
      l := Log(time, next, told, handled, fired);
      RoundDone(a, r, l, lapsed, Here());
    }

    lemma RoundDone(a: World, r: Round, l: Log, lapsed: World, b: World)
      requires IsTelling(r.notices, l.told) && 0 < |l.told| && Looked(a, l.wait, l.next, l.told[0])
      requires |l.told| <= |r.notices| ==> |l.told[|l.told| - 1].pending| >= MAX_EVENTS
      requires IsHandling(r.outcomes, l.handled) && 0 < |l.handled| && l.handled[0] == l.told[|l.told| - 1]
      requires l.handled[|l.handled| - 1].pending == []
      requires Lapsed(l.handled[|l.handled| - 1], l.fired, lapsed) && b == lapsed.(deferred := [])
      ensures IsRound(a, r, l, b)
    {
      hide Expiring, ClosedIfDue, IsTelling, IsHandling, Looked;
    }

    /** The safe point at the end of a round: closed blocks may be issued again. */
    method Flush()
      requires State({})
      modifies cache
      ensures State({}) && Here() == old(Here()).(deferred := [])
    {
      hide Sound, Timers.Valid;
      cache.DeferredFlush();
    }

    /** The worker's loop, for any clock, any reports and any outcomes: every
        round does all its steps, and between rounds connections and timers
        belong together, with no event and no closed block left over. */
    method Run(rounds: seq<Round>) returns (ghost logs: seq<Log>, ghost trace: seq<World>)
      requires State({}) && pending == [] && cache.deferred == []
      modifies this, timers, timers.heap, timers.heap.pq, cache
      ensures State({}) && pending == [] && cache.deferred == []
      ensures |logs| == |rounds| && |trace| == |rounds| + 1
      ensures trace[0] == old(Here()) && trace[|rounds|] == Here()
      ensures forall i :: 0 <= i < |rounds| ==> IsRound(trace[i], rounds[i], logs[i], trace[i + 1])
    {
      hide Sound, Timers.Valid, Cache.Valid, IsRound;
      logs, trace := [], [Here()];
      var i := 0;
      while i < |rounds|
        invariant i <= |rounds| && |logs| == i && |trace| == i + 1
        invariant State({}) && (timers.heap.pq == old(timers.heap.pq) || fresh(timers.heap.pq))
        invariant pending == [] && cache.deferred == []
        invariant trace[0] == old(Here()) && trace[i] == Here()
        invariant forall k :: 0 <= k < i ==> IsRound(trace[k], rounds[k], logs[k], trace[k + 1])
      {
        ghost var l := Once(rounds[i]);
        logs, trace := logs + [l], trace + [Here()];
        i := i + 1;
      }
    }

    lemma OpenNotDeferred()
      requires State({})
      ensures forall r :: r in conns ==> r !in cache.deferred
    {
    }

    /** Dropping the timer first makes no difference to where a connection ends up. */
    lemma MovedSince(e: Event, o: Outcome, conns0: Conns, began: Conns, deferred0: seq<nat>)
      requires !e.Listen? && e.rq in conns0 && began == conns0[e.rq := conns0[e.rq].(timer := None)]
      requires Moved(e.rq, began, deferred0, EventMove(e, began[e.rq], o))
      ensures Moved(e.rq, conns0, deferred0, EventMove(e, conns0[e.rq], o))
    {
      hide StdoutMove, RequestMove, WriteMove;
      SameConn(e, o, conns0[e.rq]);
      assert began - {e.rq} == conns0 - {e.rq};
    }

    lemma SameConn(e: Event, o: Outcome, c: Conn)
      requires !e.Listen?
      ensures var m, n := EventMove(e, c.(timer := None), o), EventMove(e, c, o);
              m.Ends? == n.Ends? && (m.Waits? ==> m.keepAlive == n.keepAlive && m.c == n.c.(timer := None))
    {
    }

    lemma MovedTracks(r: nat, conns0: Conns, deferred0: seq<nat>, m: Move)
      requires r in conns0 && Moved(r, conns0, deferred0, m) && State({})
      requires forall x :: x in conns0 ==> x !in deferred0
      ensures Tracks(conns0, deferred0, conns, cache.deferred)
    {
      hide Sound, Timers.Valid, Cache.Valid;
      OpenNotDeferred();
    }

    lemma InHandlerShape(r: nat)
      requires State({r})
      ensures r in conns && conns[r].Shape() && InHandler(conns[r])
    {
    }
  }
}
