/** The thread pool as a transition system: any number of workers and adders
    and one destroyer share a mutex, a condition variable and a task list.  A
    step is what one thread does between two points where others can see it;
    a schedule is any sequence of steps. */
module ThreadPool {

  datatype Shutdown = Running | Immediate | Graceful

  /** Where a worker is; a thread woken from its wait has to take the lock again. */
  datatype WorkerPc = WantLock | Inside | Waiting | Took(task: nat) | Runs(task: nat) | Leaving | Exited

  /** Where an adder is; each adds the task of its own number, once. */
  datatype AdderPc = AddStart | AddInside | AddPushed | AddCounted | AddOut(code: int) | AddDone(code: int)

  datatype DestroyPc = DestroyStart | DestroyInside | Flagged | Broadcast | Joining(next: nat) | Freeing | Destroyed

  datatype Holder = Nobody | WorkerHolds(w: nat) | AdderHolds(a: nat) | DestroyerHolds

  const ALREADY_SHUTDOWN := -3

  datatype State = State(
    holder: Holder,
    queue: seq<nat>,        // the task list, head first
    queueSize: int,
    shutdown: Shutdown,
    started: int,
    workers: seq<WorkerPc>,
    adders: seq<AdderPc>,
    destroyer: DestroyPc,
    graceful: bool,
    queued: multiset<nat>,  // every task ever put on the list
    ran: multiset<nat>,
    freed: multiset<nat>,   // tasks freed without having run
    noMemory: set<nat>)     // adders whose malloc failed

  datatype Step =
    | WorkerStep(w: nat)
    | SpuriousWakeup(w: nat)
    | AddStep(a: nat, memory: bool, chosen: set<nat>)
    | DestroyStep

  function Init(workers: nat, adders: nat, graceful: bool): State {
    State(Nobody, [], 0, Running, workers, seq(workers, _ => WantLock), seq(adders, _ => AddStart),
          DestroyStart, graceful, multiset{}, multiset{}, multiset{}, {})
  }

  // ---------- The condition variable ----------

  function WakeAll(ws: seq<WorkerPc>): (r: seq<WorkerPc>)
    ensures |r| == |ws|
    ensures forall i :: 0 <= i < |ws| ==> r[i] == if ws[i] == Waiting then WantLock else ws[i]
  {
    seq(|ws|, i requires 0 <= i < |ws| => if ws[i] == Waiting then WantLock else ws[i])
  }

  /** Wakes some waiting threads, at least one if there is one. */
  function Signal(ws: seq<WorkerPc>, chosen: set<nat>): (r: seq<WorkerPc>)
    ensures |r| == |ws|
    ensures forall i :: 0 <= i < |ws| ==> r[i] == ws[i] || (ws[i] == Waiting && r[i] == WantLock)
    ensures (exists i :: 0 <= i < |ws| && ws[i] == Waiting) ==>
              exists i :: 0 <= i < |ws| && ws[i] == Waiting && r[i] == WantLock
  {
    if exists i :: i in chosen && i < |ws| && ws[i] == Waiting then
      seq(|ws|, i requires 0 <= i < |ws| => if ws[i] == Waiting && i in chosen then WantLock else ws[i])
    else
      WakeAll(ws)
  }

  // ---------- Steps ----------

  predicate MutexAlive(s: State) {
    !s.destroyer.Freeing? && !s.destroyer.Destroyed?
  }

  predicate Enabled(s: State, step: Step) {
    match step
    case WorkerStep(w) =>
      w < |s.workers| && (
        match s.workers[w]
        case WantLock => s.holder == Nobody
        case Waiting => false
        case Exited => false
        case _ => true)
    case SpuriousWakeup(w) => w < |s.workers| && s.workers[w] == Waiting
    case AddStep(a, _, _) =>
      a < |s.adders| && (
        match s.adders[a]
        case AddStart => s.holder == Nobody && MutexAlive(s)
        case AddDone(_) => false
        case _ => true)
    case DestroyStep =>
      match s.destroyer
      case DestroyStart => s.holder == Nobody
      case Joining(next) => if next < |s.workers| then s.workers[next] == Exited else s.holder == Nobody
      case Destroyed => false
      case _ => true
  }

  function Worker(s: State, w: nat): State
    requires Enabled(s, WorkerStep(w))
  {
    var At := (pc: WorkerPc) => s.workers[w := pc];
    match s.workers[w]
    case WantLock =>
      s.(holder := WorkerHolds(w), workers := At(Inside))
    case Inside =>
      if s.queueSize == 0 && s.shutdown == Running then s.(holder := Nobody, workers := At(Waiting))
      else if s.shutdown == Immediate || (s.shutdown == Graceful && s.queueSize == 0) then
        s.(started := s.started - 1, workers := At(Leaving))
      else if s.queue == [] then s.(holder := Nobody, workers := At(WantLock))
      else s.(queue := s.queue[1..], queueSize := s.queueSize - 1, workers := At(Took(s.queue[0])))
    case Took(task) => s.(holder := Nobody, workers := At(Runs(task)))
    case Runs(task) => s.(ran := s.ran + multiset{task}, workers := At(WantLock))
    case Leaving => s.(holder := Nobody, workers := At(Exited))
  }

  function Add(s: State, a: nat, memory: bool, chosen: set<nat>): State
    requires Enabled(s, AddStep(a, memory, chosen))
  {
    var At := (pc: AdderPc) => s.adders[a := pc];
    match s.adders[a]
    case AddStart => s.(holder := AdderHolds(a), adders := At(AddInside))
    case AddInside =>
      if s.shutdown != Running then s.(adders := At(AddOut(ALREADY_SHUTDOWN)))
      else if !memory then s.(noMemory := s.noMemory + {a}, adders := At(AddOut(0)))
      else s.(queue := [a] + s.queue, queued := s.queued + multiset{a}, adders := At(AddPushed))
    case AddPushed => s.(queueSize := s.queueSize + 1, adders := At(AddCounted))
    case AddCounted => s.(workers := Signal(s.workers, chosen), adders := At(AddOut(0)))
    case AddOut(code) => s.(holder := Nobody, adders := At(AddDone(code)))
  }

  function Destroy(s: State): State
    requires Enabled(s, DestroyStep)
  {
    match s.destroyer
    case DestroyStart => s.(holder := DestroyerHolds, destroyer := DestroyInside)
    case DestroyInside => s.(shutdown := if s.graceful then Graceful else Immediate, destroyer := Flagged)
    case Flagged => s.(workers := WakeAll(s.workers), destroyer := Broadcast)
    case Broadcast => s.(holder := Nobody, destroyer := Joining(0))
    case Joining(next) => s.(destroyer := if next < |s.workers| then Joining(next + 1) else Freeing)
    case Freeing =>
      if s.started > 0 || s.queue == [] then s.(destroyer := Destroyed)
      else s.(queue := s.queue[1..], freed := s.freed + multiset{s.queue[0]})
  }

  function Do(s: State, step: Step): State
    requires Enabled(s, step)
  {
    match step
    case WorkerStep(w) => Worker(s, w)
    case SpuriousWakeup(w) => s.(workers := s.workers[w := WantLock])
    case AddStep(a, memory, chosen) => Add(s, a, memory, chosen)
    case DestroyStep => Destroy(s)
  }

  /** A schedule; a step that is not possible when its turn comes is skipped. */
  function Run(s: State, schedule: seq<Step>): State
    decreases |schedule|
  {
    if schedule == [] then s
    else Run(if Enabled(s, schedule[0]) then Do(s, schedule[0]) else s, schedule[1..])
  }

  // ---------- What every step keeps ----------

  predicate WorkerInside(pc: WorkerPc) {
    pc.Inside? || pc.Took? || pc.Leaving?
  }

  predicate AdderInside(pc: AdderPc) {
    !pc.AddStart? && !pc.AddDone?
  }

  predicate DestroyerInside(pc: DestroyPc) {
    pc.DestroyInside? || pc.Flagged? || pc.Broadcast?
  }

  predicate Gone(pc: WorkerPc) {
    pc.Leaving? || pc.Exited?
  }

  /** Neither asleep nor on its way out. */
  predicate Active(pc: WorkerPc) {
    !pc.Waiting? && !Gone(pc)
  }

  /** A task is on the list and its signal is still to come. */
  predicate Announcing(s: State) {
    s.holder.AdderHolds? && s.holder.a < |s.adders| && (s.adders[s.holder.a].AddPushed? || s.adders[s.holder.a].AddCounted?)
  }

  predicate Uncounted(s: State) {
    Announcing(s) && s.adders[s.holder.a].AddPushed?
  }

  /** One thread at most is in a critical section: the one that holds the lock. */
  ghost predicate Mutex(s: State) {
    && (forall w :: 0 <= w < |s.workers| ==> (WorkerInside(s.workers[w]) <==> s.holder == WorkerHolds(w)))
    && (forall a :: 0 <= a < |s.adders| ==> (AdderInside(s.adders[a]) <==> s.holder == AdderHolds(a)))
    && (DestroyerInside(s.destroyer) <==> s.holder == DestroyerHolds)
    && (s.holder.WorkerHolds? ==> s.holder.w < |s.workers|) && (s.holder.AdderHolds? ==> s.holder.a < |s.adders|)
  }

  ghost predicate Size(s: State) {
    MutexAlive(s) ==> s.queueSize == |s.queue| - if Uncounted(s) then 1 else 0
  }

  ghost predicate AllExited(s: State, n: nat) {
    n <= |s.workers| && forall w :: 0 <= w < n ==> s.workers[w] == Exited
  }

  ghost predicate Awake(s: State) {
    forall w :: 0 <= w < |s.workers| ==> s.workers[w] != Waiting
  }

  ghost predicate Phases(s: State) {
    && |s.workers| > 0
    && (s.shutdown == Running <==> s.destroyer.DestroyStart? || s.destroyer.DestroyInside?)
    && (s.shutdown != Running ==> s.shutdown == if s.graceful then Graceful else Immediate)
    && (s.shutdown != Running && !s.destroyer.Flagged? ==> Awake(s))
    && (s.destroyer.Joining? ==> AllExited(s, s.destroyer.next))
    && (!MutexAlive(s) ==> AllExited(s, |s.workers|) && !Announcing(s))
    && (s.destroyer.Destroyed? ==> s.queue == [])
    && (Announcing(s) ==> s.shutdown == Running)
    && (forall w :: 0 <= w < |s.workers| && Gone(s.workers[w]) ==>
          s.shutdown != Running && (s.shutdown == Graceful ==> s.queue == []))
  }

  /** Work is never left to sleepers. */
  ghost predicate Attended(s: State) {
    s.queue != [] && s.shutdown != Immediate && !Announcing(s) ==>
      exists w :: 0 <= w < |s.workers| && Active(s.workers[w])
  }

  function Alive(ws: seq<WorkerPc>): nat {
    if ws == [] then 0 else Alive(ws[1..]) + if Gone(ws[0]) then 0 else 1
  }

  function Holds(pc: WorkerPc, task: nat): nat {
    if (pc.Took? || pc.Runs?) && pc.task == task then 1 else 0
  }

  function InHand(ws: seq<WorkerPc>, task: nat): nat {
    if ws == [] then 0 else Holds(ws[0], task) + InHand(ws[1..], task)
  }

  function InList(queue: seq<nat>, task: nat): nat {
    if queue == [] then 0 else InList(queue[1..], task) + if queue[0] == task then 1 else 0
  }

  ghost predicate Balanced(s: State, x: nat) {
    s.queued[x] == InList(s.queue, x) + InHand(s.workers, x) + s.ran[x] + s.freed[x]
  }

  /** Every task ever put on the list is on it, in a worker's hands, has run, or was freed unrun. */
  ghost predicate Conserved(s: State) {
    && s.started == Alive(s.workers)
    && (forall x :: Balanced(s, x))
    && (s.freed != multiset{} ==> !s.graceful && !MutexAlive(s))
  }

  predicate Put(s: State, a: nat) {
    a < |s.adders| && (s.adders[a].AddPushed? || s.adders[a].AddCounted? ||
                       ((s.adders[a] == AddOut(0) || s.adders[a] == AddDone(0)) && a !in s.noMemory))
  }

  /** What add returns: 0 for a queued task, but also when there was no memory for it. */
  ghost predicate Result(s: State, a: nat) {
    && s.queued[a] == (if Put(s, a) then 1 else 0)
    && (a in s.noMemory ==> a < |s.adders| && (s.adders[a] == AddOut(0) || s.adders[a] == AddDone(0)))
    && (a < |s.adders| && (s.adders[a].AddOut? || s.adders[a].AddDone?) ==>
          s.adders[a].code in {0, ALREADY_SHUTDOWN} && (s.adders[a].code == ALREADY_SHUTDOWN ==> s.shutdown != Running))
  }

  ghost predicate Results(s: State) {
    forall a :: Result(s, a)
  }

  ghost predicate Inv(s: State) {
    && Mutex(s) && Size(s) && Phases(s) && Attended(s) && Conserved(s) && Results(s)
  }

  // ---------- One step of each thread ----------

  lemma WorkerMutex(s: State, w: nat)
    requires Mutex(s) && Enabled(s, WorkerStep(w))
    ensures Mutex(Worker(s, w))
  {
  }

  lemma AddMutex(s: State, a: nat, memory: bool, chosen: set<nat>)
    requires Mutex(s) && Enabled(s, AddStep(a, memory, chosen))
    ensures Mutex(Add(s, a, memory, chosen))
  {
  }

  lemma DestroyMutex(s: State)
    requires Mutex(s) && Enabled(s, DestroyStep)
    ensures Mutex(Destroy(s))
  {
  }

  lemma WakeMutex(s: State, w: nat)
    requires Mutex(s) && Enabled(s, SpuriousWakeup(w))
    ensures Mutex(Do(s, SpuriousWakeup(w)))
  {
  }

  lemma WorkerSize(s: State, w: nat)
    requires Mutex(s) && Size(s) && Phases(s) && Enabled(s, WorkerStep(w))
    ensures Size(Worker(s, w))
  {
  }

  lemma AddSize(s: State, a: nat, memory: bool, chosen: set<nat>)
    requires Mutex(s) && Size(s) && Phases(s) && Enabled(s, AddStep(a, memory, chosen))
    ensures Size(Add(s, a, memory, chosen))
  {
  }

  lemma DestroySize(s: State)
    requires Mutex(s) && Size(s) && Enabled(s, DestroyStep)
    ensures Size(Destroy(s))
  {
  }

  lemma WakeSize(s: State, w: nat)
    requires Mutex(s) && Size(s) && Enabled(s, SpuriousWakeup(w))
    ensures Size(Do(s, SpuriousWakeup(w)))
  {
  }

  lemma WorkerPhases(s: State, w: nat)
    requires Mutex(s) && Size(s) && Phases(s) && Enabled(s, WorkerStep(w))
    ensures Phases(Worker(s, w))
  {
  }

  lemma AddPhases(s: State, a: nat, memory: bool, chosen: set<nat>)
    requires Mutex(s) && Phases(s) && Enabled(s, AddStep(a, memory, chosen))
    ensures Phases(Add(s, a, memory, chosen))
  {
  }

  lemma {:induction false} NoneLeft(ws: seq<WorkerPc>)
    requires forall w :: 0 <= w < |ws| ==> ws[w] == Exited
    ensures Alive(ws) == 0 && forall x :: InHand(ws, x) == 0
  {
    if ws != [] { NoneLeft(ws[1..]); }
  }

  lemma DestroyPhases(s: State)
    requires Mutex(s) && Phases(s) && s.started == Alive(s.workers) && Enabled(s, DestroyStep)
    ensures Phases(Destroy(s))
  {
    if s.destroyer.Freeing? { NoneLeft(s.workers); }
  }

  lemma WakePhases(s: State, w: nat)
    requires Mutex(s) && Phases(s) && Enabled(s, SpuriousWakeup(w))
    ensures Phases(Do(s, SpuriousWakeup(w)))
  {
  }

  lemma WorkerAttended(s: State, w: nat)
    requires Mutex(s) && Size(s) && Phases(s) && Attended(s) && Enabled(s, WorkerStep(w))
    ensures Attended(Worker(s, w))
  {
    var t := Worker(s, w);
    if t.queue != [] && t.shutdown != Immediate && !Announcing(t) {
      assert Active(t.workers[w]);
    }
  }

  lemma AddAttended(s: State, a: nat, memory: bool, chosen: set<nat>)
    requires Mutex(s) && Phases(s) && Attended(s) && Enabled(s, AddStep(a, memory, chosen))
    ensures Attended(Add(s, a, memory, chosen))
  {
    var t := Add(s, a, memory, chosen);
    if s.adders[a].AddCounted? {
      if i :| 0 <= i < |s.workers| && s.workers[i] == Waiting && t.workers[i] == WantLock {
        assert Active(t.workers[i]);
      } else {
        assert Active(t.workers[0]);
      }
    } else if t.queue != [] && t.shutdown != Immediate && !Announcing(t) {
      var w :| 0 <= w < |s.workers| && Active(s.workers[w]);
      assert Active(t.workers[w]);
    }
  }

  lemma DestroyAttended(s: State)
    requires Mutex(s) && Phases(s) && Attended(s) && Enabled(s, DestroyStep)
    ensures Attended(Destroy(s))
  {
    var t := Destroy(s);
    if s.queue != [] && s.shutdown != Immediate && !Announcing(s) {
      var w :| 0 <= w < |s.workers| && Active(s.workers[w]);
      assert Active(t.workers[w]);
    }
  }

  lemma WakeAttended(s: State, w: nat)
    requires Mutex(s) && Attended(s) && Enabled(s, SpuriousWakeup(w))
    ensures Attended(Do(s, SpuriousWakeup(w)))
  {
    assert Active(Do(s, SpuriousWakeup(w)).workers[w]);
  }

  lemma WorkerResults(s: State, w: nat)
    requires Results(s) && Enabled(s, WorkerStep(w))
    ensures Results(Worker(s, w))
  {
    forall x ensures Result(Worker(s, w), x) {
      assert Result(s, x);
    }
  }

  lemma AddResults(s: State, a: nat, memory: bool, chosen: set<nat>)
    requires Mutex(s) && Results(s) && Enabled(s, AddStep(a, memory, chosen))
    ensures Results(Add(s, a, memory, chosen))
  {
    forall x ensures Result(Add(s, a, memory, chosen), x) {
      assert Result(s, x);
    }
  }

  lemma DestroyResults(s: State)
    requires Results(s) && Enabled(s, DestroyStep)
    ensures Results(Destroy(s))
  {
    forall x ensures Result(Destroy(s), x) {
      assert Result(s, x);
    }
  }

  lemma WakeResults(s: State, w: nat)
    requires Results(s) && Enabled(s, SpuriousWakeup(w))
    ensures Results(Do(s, SpuriousWakeup(w)))
  {
    forall x ensures Result(Do(s, SpuriousWakeup(w)), x) {
      assert Result(s, x);
    }
  }

  lemma {:induction false} InHandUpdate(ws: seq<WorkerPc>, i: nat, pc: WorkerPc, task: nat)
    requires i < |ws|
    ensures InHand(ws[i := pc], task) + Holds(ws[i], task) == InHand(ws, task) + Holds(pc, task)
  {
    hide Holds;
    var u := ws[i := pc];
    if i == 0 {
      assert u[0] == pc && u[1..] == ws[1..];
    } else {
      assert u[0] == ws[0] && u[1..] == ws[1..][i - 1 := pc];
      InHandUpdate(ws[1..], i - 1, pc, task);
    }
  }

  lemma {:induction false} AliveUpdate(ws: seq<WorkerPc>, i: nat, pc: WorkerPc)
    requires i < |ws|
    ensures Alive(ws[i := pc]) + (if Gone(ws[i]) then 0 else 1) == Alive(ws) + if Gone(pc) then 0 else 1
  {
    hide Gone;
    var u := ws[i := pc];
    if i == 0 {
      assert u[0] == pc && u[1..] == ws[1..];
    } else {
      assert u[0] == ws[0] && u[1..] == ws[1..][i - 1 := pc];
      AliveUpdate(ws[1..], i - 1, pc);
    }
  }

  lemma Pushed(q: seq<nat>, a: nat, x: nat)
    ensures InList([a] + q, x) == InList(q, x) + if a == x then 1 else 0
  {
    assert ([a] + q)[1..] == q;
  }

  lemma Popped(q: seq<nat>, x: nat)
    requires q != []
    ensures InList(q, x) == InList(q[1..], x) + if q[0] == x then 1 else 0
  {
  }

  lemma {:induction false} WakingMovesNoTask(ws: seq<WorkerPc>, r: seq<WorkerPc>, task: nat)
    requires |r| == |ws| && forall i :: 0 <= i < |ws| ==> r[i] == ws[i] || (ws[i] == Waiting && r[i] == WantLock)
    ensures InHand(r, task) == InHand(ws, task) && Alive(r) == Alive(ws)
  {
    if ws != [] {
      assert r[0] == ws[0] || (ws[0] == Waiting && r[0] == WantLock);
      WakingMovesNoTask(ws[1..], r[1..], task);
    }
  }

  lemma WorkerBalanced(s: State, w: nat, x: nat)
    requires Balanced(s, x) && Enabled(s, WorkerStep(w))
    ensures Balanced(Worker(s, w), x)
  {
    hide InHand, InList;
    InHandUpdate(s.workers, w, Worker(s, w).workers[w], x);
    if s.queue != [] { Popped(s.queue, x); }
  }

  lemma WorkerConserved(s: State, w: nat)
    requires Conserved(s) && Enabled(s, WorkerStep(w))
    ensures Conserved(Worker(s, w))
  {
    hide Balanced, Alive;
    AliveUpdate(s.workers, w, Worker(s, w).workers[w]);
    forall x ensures Balanced(Worker(s, w), x) { WorkerBalanced(s, w, x); }
  }

  lemma AddBalanced(s: State, a: nat, memory: bool, chosen: set<nat>, x: nat)
    requires Balanced(s, x) && Enabled(s, AddStep(a, memory, chosen))
    ensures Balanced(Add(s, a, memory, chosen), x)
  {
    hide InHand, InList;
    WakingMovesNoTask(s.workers, Add(s, a, memory, chosen).workers, x);
    Pushed(s.queue, a, x);
  }

  lemma AddConserved(s: State, a: nat, memory: bool, chosen: set<nat>)
    requires Conserved(s) && Enabled(s, AddStep(a, memory, chosen))
    ensures Conserved(Add(s, a, memory, chosen))
  {
    hide Balanced, Alive;
    WakingMovesNoTask(s.workers, Add(s, a, memory, chosen).workers, a);
    forall x ensures Balanced(Add(s, a, memory, chosen), x) { AddBalanced(s, a, memory, chosen, x); }
  }

  /** A graceful shutdown leaves nothing to free. */
  lemma NothingToFree(s: State)
    requires Phases(s) && Attended(s) && s.graceful && !MutexAlive(s)
    ensures s.queue == []
  {
  }

  lemma DestroyBalanced(s: State, x: nat)
    requires Balanced(s, x) && Enabled(s, DestroyStep)
    ensures Balanced(Destroy(s), x)
  {
    hide InHand, InList;
    WakingMovesNoTask(s.workers, Destroy(s).workers, x);
    if s.queue != [] { Popped(s.queue, x); }
  }

  lemma DestroyConserved(s: State)
    requires Phases(s) && Conserved(s) && Attended(s) && Enabled(s, DestroyStep)
    ensures Conserved(Destroy(s))
  {
    hide Balanced, Alive, Phases, Attended;
    WakingMovesNoTask(s.workers, Destroy(s).workers, 0);
    forall x ensures Balanced(Destroy(s), x) { DestroyBalanced(s, x); }
    if s.destroyer.Freeing? && s.graceful { NothingToFree(s); }
  }

  lemma WakeConserved(s: State, w: nat)
    requires Conserved(s) && Enabled(s, SpuriousWakeup(w))
    ensures Conserved(Do(s, SpuriousWakeup(w)))
  {
    hide InHand, Alive;
    var t := Do(s, SpuriousWakeup(w));
    WakingMovesNoTask(s.workers, t.workers, 0);
    forall x ensures Balanced(t, x) {
      assert Balanced(s, x);
      WakingMovesNoTask(s.workers, t.workers, x);
    }
  }

  lemma StartedAreAlive(s: State)
    requires Conserved(s)
    ensures s.started == Alive(s.workers)
  {
  }

  lemma Keeps(s: State, step: Step)
    requires Inv(s) && Enabled(s, step)
    ensures Inv(Do(s, step))
  {
    hide Mutex, Size, Phases, Attended, Conserved, Results, Worker, Add, Destroy, Enabled;
    match step {
      case WorkerStep(w) =>
        WorkerMutex(s, w); WorkerSize(s, w); WorkerPhases(s, w);
        WorkerAttended(s, w); WorkerConserved(s, w); WorkerResults(s, w);
      case SpuriousWakeup(w) =>
        WakeMutex(s, w); WakeSize(s, w); WakePhases(s, w);
        WakeAttended(s, w); WakeConserved(s, w); WakeResults(s, w);
      case AddStep(a, memory, chosen) =>
        AddMutex(s, a, memory, chosen); AddSize(s, a, memory, chosen); AddPhases(s, a, memory, chosen);
        AddAttended(s, a, memory, chosen); AddConserved(s, a, memory, chosen); AddResults(s, a, memory, chosen);
      case DestroyStep =>
        DestroyMutex(s); DestroySize(s);
        StartedAreAlive(s);
        DestroyPhases(s);
        DestroyAttended(s); DestroyConserved(s); DestroyResults(s);
    }
  }

  lemma {:induction false} Begins(workers: nat, adders: nat, graceful: bool)
    requires workers > 0
    ensures Inv(Init(workers, adders, graceful))
  {
    AllAlive(seq(workers, _ => WantLock));
  }

  lemma {:induction false} AllAlive(ws: seq<WorkerPc>)
    requires forall i :: 0 <= i < |ws| ==> ws[i] == WantLock
    ensures Alive(ws) == |ws| && forall x :: InHand(ws, x) == 0
  {
    if ws != [] { AllAlive(ws[1..]); }
  }

  lemma {:induction false} RunKeeps(s: State, schedule: seq<Step>)
    requires Inv(s)
    ensures Inv(Run(s, schedule))
    decreases |schedule|
  {
    if schedule != [] {
      if Enabled(s, schedule[0]) { Keeps(s, schedule[0]); }
      RunKeeps(if Enabled(s, schedule[0]) then Do(s, schedule[0]) else s, schedule[1..]);
    }
  }

  // ---------- Every run ----------

  /** In every interleaving: while nobody holds the lock queue_size is the
      length of the list, and a task on the list has a worker awake to take it
      unless the pool is being shut down at once. */
  lemma EveryRun(workers: nat, adders: nat, graceful: bool, schedule: seq<Step>)
    requires workers > 0
    ensures var s := Run(Init(workers, adders, graceful), schedule);
            s.holder == Nobody && MutexAlive(s) ==>
              && s.queueSize == |s.queue|
              && (s.queue != [] && s.shutdown != Immediate ==> exists w :: 0 <= w < |s.workers| && Active(s.workers[w]))
  {
    Begins(workers, adders, graceful);
    RunKeeps(Init(workers, adders, graceful), schedule);
  }

  /** What add returned, in every interleaving: a task was queued, once, if and
      only if add returned 0 and had memory for it; it was refused only by a pool
      that is being shut down. */
  lemma AddMeansQueued(workers: nat, adders: nat, graceful: bool, schedule: seq<Step>, a: nat)
    requires workers > 0
    ensures var s := Run(Init(workers, adders, graceful), schedule);
            a < |s.adders| && s.adders[a].AddDone? ==>
              && s.adders[a].code in {0, ALREADY_SHUTDOWN} && s.queued[a] <= 1
              && (s.queued[a] == 1 <==> s.adders[a].code == 0 && a !in s.noMemory)
              && (s.shutdown == Running ==> s.adders[a].code == 0)
  {
    Begins(workers, adders, graceful);
    RunKeeps(Init(workers, adders, graceful), schedule);
    assert Result(Run(Init(workers, adders, graceful), schedule), a);
  }

  /** Without memory add returns 0 and its task is nowhere. */
  lemma LostTask()
    ensures var s := Run(Init(1, 1, true), [AddStep(0, true, {}), AddStep(0, false, {}), AddStep(0, true, {})]);
            s.adders[0] == AddDone(0) && s.queued == multiset{} && s.queue == []
  {
    var s0 := Init(1, 1, true);
    var s1 := Do(s0, AddStep(0, true, {}));
    var s2 := Do(s1, AddStep(0, false, {}));
    var s3 := Do(s2, AddStep(0, true, {}));
    var last := [AddStep(0, true, {})];
    assert last[1..] == [] && Run(s2, last) == Run(s3, []) == s3;
    var two := [AddStep(0, false, {})] + last;
    assert two[1..] == last && Run(s1, two) == s3;
    var three := [AddStep(0, true, {})] + two;
    assert three == [AddStep(0, true, {}), AddStep(0, false, {}), AddStep(0, true, {})];
    assert three[1..] == two && Run(s0, three) == s3;
  }

  /** Once destroy has returned, in every interleaving, each queued task has run
      exactly once, or, after an immediate shutdown only, was freed unrun. */
  lemma DestroyAccountsForAll(workers: nat, adders: nat, graceful: bool, schedule: seq<Step>, a: nat)
    requires workers > 0
    ensures var s := Run(Init(workers, adders, graceful), schedule);
            s.destroyer == Destroyed ==>
              && s.queue == [] && s.queued[a] == s.ran[a] + s.freed[a] <= 1
              && (graceful ==> s.freed == multiset{} && s.ran[a] == s.queued[a])
              && s.shutdown == (if graceful then Graceful else Immediate)
  {
    var s := Run(Init(workers, adders, graceful), schedule);
    Begins(workers, adders, graceful);
    RunKeeps(Init(workers, adders, graceful), schedule);
    RunKeepsManner(Init(workers, adders, graceful), schedule);
    if s.destroyer == Destroyed {
      NoneLeft(s.workers);
      assert Balanced(s, a) && Result(s, a);
    }
  }

  lemma {:induction false} RunKeepsManner(s: State, schedule: seq<Step>)
    ensures Run(s, schedule).graceful == s.graceful
    decreases |schedule|
  {
    if schedule != [] {
      RunKeepsManner(if Enabled(s, schedule[0]) then Do(s, schedule[0]) else s, schedule[1..]);
    }
  }

  // ---------- Who takes what ----------

  lemma {:induction false} RunTwo(s: State, a: seq<Step>, b: seq<Step>)
    ensures Run(s, a + b) == Run(Run(s, a), b)
    decreases |a|
  {
    if a == [] {
      assert [] + b == b;
    } else {
      assert (a + b)[1..] == a[1..] + b;
      RunTwo(if Enabled(s, a[0]) then Do(s, a[0]) else s, a[1..], b);
    }
  }

  lemma RunOne(s: State, step: Step)
    requires Enabled(s, step)
    ensures Run(s, [step]) == Do(s, step)
  {
    assert [step][1..] == [];
  }

  /** n rounds of one worker on its own: lock, take, unlock, run. */
  function Rounds(w: nat, n: nat): seq<Step> {
    if n == 0 then [] else Rounds(w, n - 1) + [WorkerStep(w), WorkerStep(w), WorkerStep(w), WorkerStep(w)]
  }

  lemma OneRound(s: State, w: nat)
    requires w < |s.workers| && s.holder == Nobody && s.workers[w] == WantLock
    requires s.shutdown != Immediate && s.queue != [] && s.queueSize == |s.queue|
    ensures var t := Run(s, [WorkerStep(w), WorkerStep(w), WorkerStep(w), WorkerStep(w)]);
            t == s.(queue := s.queue[1..], queueSize := |s.queue| - 1, ran := s.ran + multiset{s.queue[0]})
  {
    var x := WorkerStep(w);
    var s1 := Do(s, x);
    var s2 := Do(s1, x);
    var s3 := Do(s2, x);
    hide Run;
    BackAgain(s.workers, w, Inside, Took(s.queue[0]), Runs(s.queue[0]));
    assert Do(s3, x).workers == s.workers;
    hide Do, Enabled;
    RunFour(s, s1, s2, s3, x);
  }

  lemma BackAgain(ws: seq<WorkerPc>, w: nat, a: WorkerPc, b: WorkerPc, c: WorkerPc)
    requires w < |ws|
    ensures ws[w := a][w := b][w := c][w := ws[w]] == ws
  {
  }

  lemma RunFour(s: State, s1: State, s2: State, s3: State, x: Step)
    requires Enabled(s, x) && s1 == Do(s, x) && Enabled(s1, x) && s2 == Do(s1, x)
    requires Enabled(s2, x) && s3 == Do(s2, x) && Enabled(s3, x)
    ensures Run(s, [x, x, x, x]) == Do(s3, x)
  {
    hide Do, Enabled;
    RunOne(s, x);
    RunOne(s1, x);
    RunOne(s2, x);
    RunOne(s3, x);
    hide Run;
    RunTwo(s, [x], [x]);
    RunTwo(s, [x] + [x], [x]);
    RunTwo(s, [x] + [x] + [x], [x]);
    assert [x] + [x] + [x] + [x] == [x, x, x, x];
  }

  /** A worker on its own takes the tasks from the head of the list, one a round,
      and runs them, unless the pool is being shut down at once. */
  lemma {:induction false} WorkerDrains(s: State, w: nat, n: nat)
    requires w < |s.workers| && s.holder == Nobody && s.workers[w] == WantLock
    requires s.shutdown != Immediate && s.queueSize == |s.queue| && n <= |s.queue|
    ensures var t := Run(s, Rounds(w, n));
            t == s.(queue := s.queue[n..], queueSize := |s.queue| - n, ran := s.ran + multiset(s.queue[..n]))
  {
    if n == 0 {
      assert s.queue[..0] == [] && s.queue[0..] == s.queue && s.ran + multiset{} == s.ran;
    } else {
      WorkerDrains(s, w, n - 1);
      var t := Run(s, Rounds(w, n - 1));
      RunTwo(s, Rounds(w, n - 1), [WorkerStep(w), WorkerStep(w), WorkerStep(w), WorkerStep(w)]);
      OneRound(t, w);
      assert s.queue[..n] == s.queue[..n - 1] + [s.queue[n - 1]];
      assert |s.queue[n - 1..]| > 0 && s.queue[n - 1..][0] == s.queue[n - 1] && s.queue[n - 1..][1..] == s.queue[n..];
    }
  }

  /** An add on its own puts its task at the head of the list of a running pool. */
  lemma AddGoesFirst(s: State, a: nat, chosen: set<nat>)
    requires a < |s.adders| && s.adders[a] == AddStart && s.holder == Nobody && MutexAlive(s) && s.shutdown == Running
    ensures var x := AddStep(a, true, chosen);
            var t := Run(s, [x, x, x, x, x]);
            && a < |t.adders| && t.adders[a] == AddDone(0) && t.queue == [a] + s.queue
            && t.queueSize == s.queueSize + 1 && t.holder == Nobody
  {
    var x := AddStep(a, true, chosen);
    var s1 := Do(s, x);
    var s2 := Do(s1, x);
    var s3 := Do(s2, x);
    var s4 := Do(s3, x);
    hide Do, Enabled;
    RunFour(s, s1, s2, s3, x);
    RunOne(s4, x);
    hide Run;
    RunTwo(s, [x, x, x, x], [x]);
    assert [x, x, x, x] + [x] == [x, x, x, x, x];
  }

  /** Once a shutdown is flagged nothing more is queued, and in an immediate one
      no task on the list is taken: it stays as it is until destroy frees it. */
  lemma {:induction false} ShutdownStops(s: State, schedule: seq<Step>)
    requires Inv(s) && s.shutdown != Running
    ensures var t := Run(s, schedule);
            && t.shutdown == s.shutdown && t.queued == s.queued
            && (s.shutdown == Immediate && MutexAlive(t) ==> t.queue == s.queue)
    decreases |schedule|
  {
    if schedule != [] && Enabled(s, schedule[0]) {
      Keeps(s, schedule[0]);
      ShutdownStep(s, schedule[0]);
      ShutdownStops(Do(s, schedule[0]), schedule[1..]);
      NeverAlive(Do(s, schedule[0]), schedule[1..]);
    } else if schedule != [] {
      ShutdownStops(s, schedule[1..]);
    }
  }

  lemma ShutdownStep(s: State, step: Step)
    requires Mutex(s) && Phases(s) && s.shutdown != Running && Enabled(s, step)
    ensures var t := Do(s, step);
            && t.shutdown == s.shutdown && t.queued == s.queued
            && (s.shutdown == Immediate && MutexAlive(t) ==> t.queue == s.queue)
  {
  }

  /** The lock, once destroyed, stays so. */
  lemma {:induction false} NeverAlive(s: State, schedule: seq<Step>)
    ensures MutexAlive(Run(s, schedule)) ==> MutexAlive(s)
    decreases |schedule|
  {
    if schedule != [] {
      NeverAlive(if Enabled(s, schedule[0]) then Do(s, schedule[0]) else s, schedule[1..]);
    }
  }

  // ---------- Destroy returns ----------

  /** From the broadcast on, destroy is only waiting for others. */
  predicate Ending(s: State) {
    s.shutdown != Running && !s.destroyer.Flagged?
  }

  function WorkerLeft(pc: WorkerPc): nat {
    match pc
    case Took(_) => 5
    case Runs(_) => 4
    case WantLock => 3
    case Waiting => 3
    case Inside => 2
    case Leaving => 1
    case Exited => 0
  }

  function AdderLeft(pc: AdderPc): nat {
    match pc
    case AddStart => 5
    case AddInside => 4
    case AddPushed => 3
    case AddCounted => 2
    case AddOut(_) => 1
    case AddDone(_) => 0
  }

  function DestroyerLeft(s: State): nat {
    match s.destroyer
    case Broadcast => |s.workers| + 3
    case Joining(next) => if next <= |s.workers| then |s.workers| - next + 2 else 2
    case Freeing => 1
    case _ => 0
  }

  function WorkersLeft(ws: seq<WorkerPc>): nat {
    if ws == [] then 0 else WorkerLeft(ws[0]) + WorkersLeft(ws[1..])
  }

  function AddersLeft(ps: seq<AdderPc>): nat {
    if ps == [] then 0 else AdderLeft(ps[0]) + AddersLeft(ps[1..])
  }

  /** A bound on the steps still to come. */
  function StepsLeft(s: State): nat {
    4 * |s.queue| + WorkersLeft(s.workers) + AddersLeft(s.adders) + DestroyerLeft(s)
  }

  lemma {:induction false} WorkersLeftUpdate(ws: seq<WorkerPc>, i: nat, pc: WorkerPc)
    requires i < |ws|
    ensures WorkersLeft(ws[i := pc]) + WorkerLeft(ws[i]) == WorkersLeft(ws) + WorkerLeft(pc)
  {
    hide WorkerLeft;
    var u := ws[i := pc];
    if i == 0 {
      assert u[0] == pc && u[1..] == ws[1..];
    } else {
      assert u[0] == ws[0] && u[1..] == ws[1..][i - 1 := pc];
      WorkersLeftUpdate(ws[1..], i - 1, pc);
    }
  }

  lemma {:induction false} AddersLeftUpdate(ps: seq<AdderPc>, i: nat, pc: AdderPc)
    requires i < |ps|
    ensures AddersLeft(ps[i := pc]) + AdderLeft(ps[i]) == AddersLeft(ps) + AdderLeft(pc)
  {
    hide AdderLeft;
    var u := ps[i := pc];
    if i == 0 {
      assert u[0] == pc && u[1..] == ps[1..];
    } else {
      assert u[0] == ps[0] && u[1..] == ps[1..][i - 1 := pc];
      AddersLeftUpdate(ps[1..], i - 1, pc);
    }
  }

  lemma WorkerEnds(s: State, w: nat)
    requires Mutex(s) && Size(s) && Phases(s) && Ending(s) && Enabled(s, WorkerStep(w))
    ensures Ending(Worker(s, w)) && StepsLeft(Worker(s, w)) < StepsLeft(s)
  {
    hide WorkersLeft, AddersLeft;
    WorkersLeftUpdate(s.workers, w, Worker(s, w).workers[w]);
  }

  lemma AddEnds(s: State, a: nat, memory: bool, chosen: set<nat>)
    requires Mutex(s) && Phases(s) && Ending(s) && Enabled(s, AddStep(a, memory, chosen))
    ensures Ending(Add(s, a, memory, chosen)) && StepsLeft(Add(s, a, memory, chosen)) < StepsLeft(s)
  {
    hide WorkersLeft, AddersLeft;
    AddersLeftUpdate(s.adders, a, Add(s, a, memory, chosen).adders[a]);
  }

  lemma DestroyEnds(s: State)
    requires Phases(s) && Ending(s) && Enabled(s, DestroyStep)
    ensures Ending(Destroy(s)) && StepsLeft(Destroy(s)) < StepsLeft(s)
  {
    hide WorkersLeft, AddersLeft;
  }

  /** After the broadcast every step of any thread brings the end nearer, so no
      schedule can go on for ever. */
  lemma EveryStepEnds(s: State, step: Step)
    requires Inv(s) && Ending(s) && Enabled(s, step)
    ensures Inv(Do(s, step)) && Ending(Do(s, step)) && StepsLeft(Do(s, step)) < StepsLeft(s)
  {
    hide Size, Attended, Conserved, Results, StepsLeft, Worker, Add, Destroy;
    Keeps(s, step);
    match step {
      case WorkerStep(w) => WorkerEnds(s, w);
      case SpuriousWakeup(w) => assert false;
      case AddStep(a, memory, chosen) => AddEnds(s, a, memory, chosen);
      case DestroyStep => DestroyEnds(s);
    }
  }

  /** Until destroy has returned some thread can always go on: no deadlock. */
  lemma SomeStepIsPossible(s: State)
    requires Inv(s) && Ending(s) && s.destroyer != Destroyed
    ensures exists step :: Enabled(s, step)
  {
    hide Size, Attended, Conserved, Results;
    match s.holder {
      case WorkerHolds(w) => assert Enabled(s, WorkerStep(w));
      case AdderHolds(a) => assert Enabled(s, AddStep(a, true, {}));
      case DestroyerHolds => assert Enabled(s, DestroyStep);
      case Nobody =>
        if s.destroyer.Joining? && s.destroyer.next < |s.workers| && s.workers[s.destroyer.next] != Exited {
          assert Enabled(s, WorkerStep(s.destroyer.next));
        } else {
          assert Enabled(s, DestroyStep);
        }
    }
  }

  ghost predicate AllEnabled(s: State, schedule: seq<Step>)
    decreases |schedule|
  {
    schedule == [] || (Enabled(s, schedule[0]) && AllEnabled(Do(s, schedule[0]), schedule[1..]))
  }

  /** From the broadcast on, threads that keep going take a bounded number of
      steps, and when none can go on destroy has returned. */
  lemma {:induction false} DestroyReturns(s: State, schedule: seq<Step>)
    requires Inv(s) && Ending(s) && AllEnabled(s, schedule)
    ensures |schedule| <= StepsLeft(s)
    ensures (forall step :: !Enabled(Run(s, schedule), step)) ==> Run(s, schedule).destroyer == Destroyed
    decreases |schedule|
  {
    hide Inv, Ending, StepsLeft;
    if schedule == [] {
      if s.destroyer != Destroyed { SomeStepIsPossible(s); }
    } else {
      EveryStepEnds(s, schedule[0]);
      DestroyReturns(Do(s, schedule[0]), schedule[1..]);
    }
  }
}
