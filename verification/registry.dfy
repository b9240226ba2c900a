/** What a worker knows about its connections: registrations, timers and the
    events of the current batch, and what every step keeps of it. */
module Registry {
  import opened Bytes
  import opened Timer

  /** What a connection's socket is registered for; a one-shot registration
      that has fired is Off until it is modified. */
  datatype Arm = Off | In | Out

  /** The read end of a CGI script's output. */
  datatype Pipe = NoPipe | Fired | Armed

  /** `queued`: a chunk of a script's output is waiting to be sent. */
  datatype Conn = Conn(sock: Arm, pipe: Pipe, cgi: bool, queued: bool, timer: Option<nat>) {
    function Registrations(): nat {
      (if sock != Off then 1 else 0) + if pipe == Armed then 1 else 0
    }

    /** Reading ends when a script starts, only a script has a pipe, and the pipe
        is armed only with no chunk waiting. */
    ghost predicate Shape() {
      (sock == In ==> !cgi) && (pipe != NoPipe || queued ==> cgi) && (pipe == Armed ==> !queued)
    }
  }

  /** One entry of the array epoll_wait fills. */
  datatype Event =
    | Listen(arrivals: nat)
    | OnConn(rq: nat, error: bool, readable: bool, writable: bool, hangup: bool)
    | OnCgiOut(rq: nat)

  type Nodes = map<nat, TimerNode>
  type Conns = map<nat, Conn>

  ghost function Waiting(pending: seq<Event>): set<nat> {
    if pending == [] then {}
    else Waiting(pending[1..]) + if pending[0].Listen? then {} else {pending[0].rq}
  }

  /** The event belongs to an open connection that can handle it. */
  ghost predicate Handleable(e: Event, conns: Conns) {
    match e
    case Listen(_) => true
    case OnConn(rq, error, readable, writable, hangup) =>
      rq in conns && (error || readable || writable || hangup) && (readable ==> !conns[rq].cgi)
    case OnCgiOut(rq) =>
      rq in conns && conns[rq].pipe == Fired && !conns[rq].queued
  }

  /** At most one event for each request. */
  ghost predicate Batch(pending: seq<Event>, conns: Conns) {
    pending != [] ==>
      && Handleable(pending[0], conns) && Batch(pending[1..], conns)
      && (!pending[0].Listen? ==> pending[0].rq !in Waiting(pending[1..]))
  }

  /** A connection at rest has its timer, and exactly one armed registration
      unless its event is in the batch.  One in a handler has neither. */
  ghost predicate AtRest(nodes: Nodes, r: nat, c: Conn, waiting: bool) {
    && c.timer.Some? && Live(nodes, c.timer.value) && nodes[c.timer.value].rq == r
    && c.Registrations() == if waiting then 0 else 1
  }

  ghost predicate InHandler(c: Conn) {
    c.timer == None && c.Registrations() == 0
  }

  /** Connections and undeleted timer nodes point at each other. */
  ghost predicate Linked(nodes: Nodes, conns: Conns, waiting: set<nat>, busy: set<nat>) {
    && (forall r :: r in conns ==> conns[r].Shape() && if r in busy then InHandler(conns[r])
                                                       else AtRest(nodes, r, conns[r], r in waiting))
    && (forall id :: Live(nodes, id) ==> nodes[id].rq in conns && conns[nodes[id].rq].timer == Some(id))
  }

  ghost predicate Sound(nodes: Nodes, conns: Conns, pending: seq<Event>, busy: set<nat>) {
    && Linked(nodes, conns, Waiting(pending), busy) && Batch(pending, conns)
    && busy <= conns.Keys && busy !! Waiting(pending)
  }

  ghost function LiveNodes(nodes: Nodes): set<nat> {
    set id | id in nodes && !nodes[id].deleted
  }

  /** The timer of each connection, and the connection of each undeleted node,
      are maps that undo each other. */
  lemma MutuallyInverse(nodes: Nodes, conns: Conns, pending: seq<Event>)
    returns (timerOf: map<nat, nat>, rqOf: map<nat, nat>)
    requires Sound(nodes, conns, pending, {})
    ensures timerOf.Keys == conns.Keys && rqOf.Keys == LiveNodes(nodes)
    ensures forall r :: r in conns ==> conns[r].timer == Some(timerOf[r]) && timerOf[r] in rqOf && rqOf[timerOf[r]] == r
    ensures forall id :: id in rqOf ==> rqOf[id] == nodes[id].rq && rqOf[id] in timerOf && timerOf[rqOf[id]] == id
  {
    assert forall r :: r in conns ==> AtRest(nodes, r, conns[r], r in Waiting(pending));
    timerOf := map r | r in conns :: conns[r].timer.value;
    rqOf := map id | id in LiveNodes(nodes) :: nodes[id].rq;
    assert forall id :: id in rqOf ==> Live(nodes, id);
  }

  /** There are as many open connections as undeleted timer nodes. */
  lemma Bijection(nodes: Nodes, conns: Conns, pending: seq<Event>)
    requires Sound(nodes, conns, pending, {})
    ensures |conns| == |LiveNodes(nodes)|
  {
    var timerOf, rqOf := MutuallyInverse(nodes, conns, pending);
    Counted(conns.Keys, LiveNodes(nodes), timerOf, rqOf);
  }

  /** Two finite sets with mutually inverse maps have the same size. */
  lemma {:induction false} Counted(a: set<nat>, b: set<nat>, f: map<nat, nat>, g: map<nat, nat>)
    requires f.Keys == a && g.Keys == b
    requires forall x :: x in a ==> f[x] in b && g[f[x]] == x
    requires forall y :: y in b ==> g[y] in a && f[g[y]] == y
    ensures |a| == |b|
  {
    if a == {} {
      assert b == {} by { if y :| y in b { assert g[y] in a; } }
    } else {
      var x :| x in a;
      Counted(a - {x}, b - {f[x]}, f - {x}, g - {f[x]});
    }
  }

  lemma {:induction false} WaitingAreOpen(pending: seq<Event>, conns: Conns)
    requires Batch(pending, conns)
    ensures Waiting(pending) <= conns.Keys
  {
    if pending != [] { WaitingAreOpen(pending[1..], conns); }
  }

  function EventsFor(pending: seq<Event>, r: nat): nat {
    if pending == [] then 0
    else EventsFor(pending[1..], r) + if !pending[0].Listen? && pending[0].rq == r then 1 else 0
  }

  lemma {:induction false} AtMostOneEvent(pending: seq<Event>, conns: Conns, r: nat)
    requires Batch(pending, conns)
    ensures EventsFor(pending, r) == if r in Waiting(pending) then 1 else 0
  {
    if pending != [] { AtMostOneEvent(pending[1..], conns, r); }
  }

  /** Whatever can still happen to a connection will: exactly one of its
      registrations is armed or one event for it is in the batch. */
  lemma OneWayOn(nodes: Nodes, conns: Conns, pending: seq<Event>, r: nat)
    requires Sound(nodes, conns, pending, {}) && r in conns
    ensures conns[r].Registrations() + EventsFor(pending, r) == 1
  {
    AtMostOneEvent(pending, conns, r);
  }

  /** A batch depends on the requests it names only. */
  lemma {:induction false} BatchKept(pending: seq<Event>, conns: Conns, conns': Conns)
    requires Batch(pending, conns)
    requires forall r :: r in Waiting(pending) && r in conns ==> r in conns' && conns'[r] == conns[r]
    ensures Batch(pending, conns')
  {
    if pending != [] { BatchKept(pending[1..], conns, conns'); }
  }

  /** An event always finds a timer to drop. */
  lemma FirstHasTimer(nodes: Nodes, conns: Conns, pending: seq<Event>)
    requires Sound(nodes, conns, pending, {}) && pending != [] && !pending[0].Listen?
    ensures pending[0].rq in conns && AtRest(nodes, pending[0].rq, conns[pending[0].rq], true)
  {
  }

  /** The handler of an event has dropped the timer of its request. */
  lemma EventBegun(nodes: Nodes, conns: Conns, pending: seq<Event>, r: nat, id: nat)
    requires Sound(nodes, conns, pending, {}) && pending != [] && !pending[0].Listen? && pending[0].rq == r
    requires r in conns && conns[r].timer == Some(id)
    ensures id in nodes
    ensures Sound(nodes[id := nodes[id].(deleted := true)], conns[r := conns[r].(timer := None)], pending[1..], {r})
    ensures Handleable(pending[0], conns) && conns[r].Registrations() == 0
  {
    BatchKept(pending[1..], conns, conns[r := conns[r].(timer := None)]);
  }

  lemma ListenTaken(nodes: Nodes, conns: Conns, pending: seq<Event>)
    requires Sound(nodes, conns, pending, {}) && pending != [] && pending[0].Listen?
    ensures Sound(nodes, conns, pending[1..], {})
  {
  }

  /** A handler, or an accept, has armed one registration and set a new timer. */
  lemma Rested(nodes: Nodes, conns: Conns, pending: seq<Event>, r: nat, c: Conn, id: nat, node: TimerNode)
    requires Sound(nodes, conns, pending, if r in conns then {r} else {})
    requires c.Shape() && c.Registrations() == 1 && c.timer == Some(id)
    requires id !in nodes && !node.deleted && node.rq == r
    ensures Sound(nodes[id := node], conns[r := c], pending, {})
  {
    WaitingAreOpen(pending, conns);
    BatchKept(pending, conns, conns[r := c]);
  }

  /** A handler has closed its connection. */
  lemma Closed(nodes: Nodes, conns: Conns, pending: seq<Event>, r: nat)
    requires Sound(nodes, conns, pending, {r})
    ensures Sound(nodes, conns - {r}, pending, {})
  {
    BatchKept(pending, conns, conns - {r});
  }

  /** A deadline has passed: the connection is closed and its node freed. */
  lemma Expired(nodes: Nodes, conns: Conns, id: nat)
    requires Sound(nodes, conns, [], {}) && Live(nodes, id)
    ensures nodes[id].rq in conns && Sound(nodes - {id}, conns - {nodes[id].rq}, [], {})
  {
  }

  /** No connection is open exactly if no timer is set. */
  lemma NoneOpen(nodes: Nodes, conns: Conns)
    requires Sound(nodes, conns, [], {})
    ensures (forall id :: !Live(nodes, id)) <==> conns == map[]
  {
    if conns != map[] {
      var r :| r in conns;
      assert AtRest(nodes, r, conns[r], false);
    }
  }

  lemma DeletedFreed(nodes: Nodes, nodes': Nodes, conns: Conns, pending: seq<Event>)
    requires Sound(nodes, conns, pending, {}) && OnlyDeletedFreed(nodes, nodes')
    ensures Sound(nodes', conns, pending, {})
  {
  }

  lemma FreedOne(nodes: Nodes, conns: Conns, id: nat)
    requires Sound(nodes, conns, [], {}) && !Live(nodes, id)
    ensures Sound(nodes - {id}, conns, [], {})
  {
  }

  /** The kernel reports an event: its one-shot registration is disarmed. */
  lemma Delivered(nodes: Nodes, conns: Conns, pending: seq<Event>, e: Event, c: Conn)
    requires Sound(nodes, conns, pending, {}) && !e.Listen? && e.rq in conns
    requires conns[e.rq].Registrations() == 1
    requires c.Registrations() == 0 && c.Shape() && c.timer == conns[e.rq].timer && Handleable(e, conns[e.rq := c])
    ensures Sound(nodes, conns[e.rq := c], [e] + pending, {})
  {
    assert ([e] + pending)[1..] == pending;
    BatchKept(pending, conns, conns[e.rq := c]);
  }

  lemma ListenReported(nodes: Nodes, conns: Conns, pending: seq<Event>, arrivals: nat)
    requires Sound(nodes, conns, pending, {})
    ensures Sound(nodes, conns, [Listen(arrivals)] + pending, {})
  {
    assert ([Listen(arrivals)] + pending)[1..] == pending;
  }

  /** A socket that is armed has nothing else armed; its event can be handled. */
  lemma SocketReported(nodes: Nodes, conns: Conns, pending: seq<Event>, r: nat, ready: bool, error: bool, hangup: bool)
    requires Sound(nodes, conns, pending, {}) && r in conns && conns[r].sock != Off && (ready || error || hangup)
    ensures var c := conns[r];
            Sound(nodes, conns[r := c.(sock := Off)],
                  [OnConn(r, error, ready && c.sock == In, ready && c.sock == Out, hangup)] + pending, {})
  {
    var c := conns[r];
    assert AtRest(nodes, r, c, r in Waiting(pending));
    Delivered(nodes, conns, pending, OnConn(r, error, ready && c.sock == In, ready && c.sock == Out, hangup), c.(sock := Off));
  }

  lemma PipeReported(nodes: Nodes, conns: Conns, pending: seq<Event>, r: nat)
    requires Sound(nodes, conns, pending, {}) && r in conns && conns[r].pipe == Armed
    ensures Sound(nodes, conns[r := conns[r].(pipe := Fired)], [OnCgiOut(r)] + pending, {})
  {
    assert AtRest(nodes, r, conns[r], r in Waiting(pending));
    Delivered(nodes, conns, pending, OnCgiOut(r), conns[r].(pipe := Fired));
  }

  // ---------- Expiry ----------

  function Deadline(nodes: Nodes, r: nat, conns: Conns): nat
    requires r in conns && conns[r].timer.Some? && conns[r].timer.value in nodes
  {
    nodes[conns[r].timer.value].key
  }

  /** From nodes0 and conns0, the timers `fired` have gone off: undeleted, due
      and in order of their keys, none later than a key still in the heap; their
      connections are closed and all the others are as they were. */
  ghost predicate Expiring(nodes0: Nodes, conns0: Conns, nodes: Nodes, conns: Conns, fired: seq<nat>, now: nat) {
    && (forall id :: id in nodes ==> id in nodes0 && nodes[id] == nodes0[id] && id !in fired)
    && (forall i :: 0 <= i < |fired| ==> Live(nodes0, fired[i]) && nodes0[fired[i]].key <= now)
    && (forall i, j :: 0 <= i < j < |fired| ==> nodes0[fired[i]].key <= nodes0[fired[j]].key && fired[i] != fired[j])
    && (forall i, id :: 0 <= i < |fired| && id in nodes ==> nodes0[fired[i]].key <= nodes[id].key)
    && (forall r :: r in conns <==> r in conns0 && conns0[r].timer.Some? && conns0[r].timer.value !in fired)
    && (forall r :: r in conns ==> conns[r] == conns0[r])
  }

  lemma ExpiringBegins(nodes: Nodes, conns: Conns, now: nat)
    requires Sound(nodes, conns, [], {})
    ensures Expiring(nodes, conns, nodes, conns, [], now)
  {
    assert forall r :: r in conns ==> AtRest(nodes, r, conns[r], false);
  }

  lemma ExpiringSkips(nodes0: Nodes, conns0: Conns, nodes: Nodes, conns: Conns, fired: seq<nat>, now: nat, now': nat)
    requires Expiring(nodes0, conns0, nodes, conns, fired, now) && now <= now'
    ensures Expiring(nodes0, conns0, nodes, conns, fired, now')
  {
  }

  lemma ExpiringFrees(nodes0: Nodes, conns0: Conns, nodes: Nodes, conns: Conns, fired: seq<nat>, now: nat, id: nat, now': nat)
    requires Expiring(nodes0, conns0, nodes, conns, fired, now) && now <= now'
    ensures Expiring(nodes0, conns0, nodes - {id}, conns, fired, now')
  {
  }

  lemma ExpiringFires(nodes0: Nodes, conns0: Conns, nodes: Nodes, conns: Conns, fired: seq<nat>, now: nat, id: nat)
    requires Expiring(nodes0, conns0, nodes, conns, fired, now) && Sound(nodes, conns, [], {})
    requires Least(nodes, id) && Live(nodes, id) && nodes[id].key <= now
    ensures nodes[id].rq in conns
    ensures Expiring(nodes0, conns0, nodes - {id}, conns - {nodes[id].rq}, fired + [id], now)
  {
    var r, fired' := nodes[id].rq, fired + [id];
    forall x ensures x in conns - {r} <==> x in conns0 && conns0[x].timer.Some? && conns0[x].timer.value !in fired' {
      if x in conns { assert AtRest(nodes, x, conns[x], false); }
    }
  }

  /** The connections closed are exactly those whose deadline has come. */
  ghost predicate ClosedIfDue(nodes0: Nodes, conns0: Conns, conns: Conns, now: nat) {
    forall r :: r in conns0 ==> AtRest(nodes0, r, conns0[r], false) && (r in conns <==> Deadline(nodes0, r, conns0) > now)
  }

  /** So it is when nothing due is left. */
  lemma ExpiredExactly(nodes0: Nodes, conns0: Conns, nodes: Nodes, conns: Conns, fired: seq<nat>, now: nat)
    requires Sound(nodes0, conns0, [], {}) && Sound(nodes, conns, [], {})
    requires Expiring(nodes0, conns0, nodes, conns, fired, now)
    requires forall id :: id in nodes ==> nodes[id].key > now
    ensures ClosedIfDue(nodes0, conns0, conns, now)
  {
    forall r | r in conns0
      ensures AtRest(nodes0, r, conns0[r], false) && (r in conns <==> Deadline(nodes0, r, conns0) > now)
    {
      assert AtRest(nodes0, r, conns0[r], false);
      if r in conns { assert AtRest(nodes, r, conns[r], false); }
    }
  }

  lemma ClosedMeans(nodes0: Nodes, conns0: Conns, nodes: Nodes, conns: Conns, fired: seq<nat>, now: nat)
    requires Expiring(nodes0, conns0, nodes, conns, fired, now) && ClosedIfDue(nodes0, conns0, conns, now)
    ensures forall r :: r in conns ==> r in conns0 && conns[r] == conns0[r]
    ensures forall r :: r in conns0 && conns0[r].timer.Some? && conns0[r].timer.value in nodes0 ==>
              (r in conns <==> nodes0[conns0[r].timer.value].key > now)
  {
  }
}
