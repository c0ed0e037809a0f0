/** The protocol of cxx_guards.cpp once the scheduler runs: any number of tasks and guards share
    one mutex, one counting semaphore and one count of waiting tasks. */
module Guards {
  import opened Common

  type Task = nat
  type Guard = nat

  /** The two bytes of a guard object. */
  datatype GuardObj = GuardObj(ready: bool, pending: bool)

  /** Where a task is.  The comment names the next thing it does. */
  datatype Pc =
    | Outside                                 // running user code, possibly an initialiser
    | AcqTake(g: Guard)                       // take the mutex in acquire
    | AcqTest(g: Guard)                       // test g.pending
    | WaitGive(g: Guard)                      // give the mutex in the wait loop
    | WaitSem(g: Guard)                       // take the wait semaphore
    | WaitTake(g: Guard)                      // take the mutex again
    | WaitTest(g: Guard)                      // test g.pending at the end of the loop body
    | AcqDecide(g: Guard)                     // test g.ready
    | AcqGive(g: Guard, ret: int)             // give the mutex and return
    | FinTake(g: Guard, released: bool)       // take the mutex in release or abort
    | FinSet(g: Guard, released: bool)        // clear pending, and set ready in release
    | FinSignal(g: Guard, released: bool, count: nat)  // give the semaphore count times, then the mutex

  /** What a task outside the protocol may decide to do. */
  datatype Call = Acquire(g: Guard) | Release(g: Guard) | Abort(g: Guard)

  datatype State = State(
    mutex: Option<Task>,
    sem: nat,
    waiting: int,
    guards: map<Guard, GuardObj>,
    pcs: map<Task, Pc>,
    initialising: set<(Task, Guard)>, // whose acquire decided on 1, until release or abort clears pending
    releases: map<Guard, nat>)        // completed calls of release

  predicate OwnsMutex(pc: Pc) {
    pc.AcqTest? || pc.WaitGive? || pc.WaitTest? || pc.AcqDecide? || pc.AcqGive? || pc.FinSet? || pc.FinSignal?
  }

  /** Between the two updates of the waiting count. */
  predicate InWait(pc: Pc) {
    pc.WaitGive? || pc.WaitSem? || pc.WaitTake? || pc.WaitTest?
  }

  function Init(tasks: set<Task>, guards: set<Guard>): State {
    State(None, 0, 0, map g | g in guards :: GuardObj(false, false), map t | t in tasks :: Outside, {},
          map g | g in guards :: 0)
  }

  function Goto(s: State, t: Task, pc: Pc): State {
    s.(pcs := s.pcs[t := pc])
  }

  /** A task in user code calls one of the three functions.  Release and abort are only called by
      the task that initialises the guard. */
  predicate CallEnabled(s: State, t: Task, c: Call) {
    && t in s.pcs && s.pcs[t].Outside? && c.g in s.guards
    && (c.Acquire? || (t, c.g) in s.initialising)
  }

  function Enter(s: State, t: Task, c: Call): State
    requires CallEnabled(s, t, c)
  {
    match c
    case Acquire(g) => Goto(s, t, AcqTake(g))
    case Release(g) => Goto(s, t, FinTake(g, true))
    case Abort(g) => Goto(s, t, FinTake(g, false))
  }

  /** The next protocol step of task t can be made: only taking the mutex or the semaphore blocks. */
  predicate StepEnabled(s: State, t: Task) {
    && t in s.pcs && !s.pcs[t].Outside? && s.pcs[t].g in s.guards && s.pcs[t].g in s.releases
    && (s.pcs[t].AcqTake? || s.pcs[t].WaitTake? || s.pcs[t].FinTake? ==> s.mutex.None?)
    && (s.pcs[t].WaitSem? ==> s.sem > 0)
  }

  /** The next protocol step of task t. */
  function Step(s: State, t: Task): State
    requires StepEnabled(s, t)
  {
    var o := s.guards[s.pcs[t].g];
    match s.pcs[t]
    case Outside => s
    case AcqTake(g) => Goto(s.(mutex := Some(t)), t, AcqTest(g))
    case AcqTest(g) =>
      if o.pending then Goto(s.(waiting := s.waiting + 1), t, WaitGive(g)) else Goto(s, t, AcqDecide(g))
    case WaitGive(g) => Goto(s.(mutex := None), t, WaitSem(g))
    case WaitSem(g) => Goto(s.(sem := s.sem - 1), t, WaitTake(g))
    case WaitTake(g) => Goto(s.(mutex := Some(t)), t, WaitTest(g))
    case WaitTest(g) =>
      if o.pending then Goto(s, t, WaitGive(g)) else Goto(s.(waiting := s.waiting - 1), t, AcqDecide(g))
    case AcqDecide(g) =>
      if o.ready then Goto(s, t, AcqGive(g, 0))
      else Goto(s.(guards := s.guards[g := o.(pending := true)], initialising := s.initialising + {(t, g)}),
                t, AcqGive(g, 1))
    case AcqGive(g, ret) => Goto(s.(mutex := None), t, Outside)
    case FinTake(g, released) => Goto(s.(mutex := Some(t)), t, FinSet(g, released))
    case FinSet(g, released) =>
      Goto(s.(guards := s.guards[g := GuardObj(o.ready || released, false)],
              initialising := s.initialising - {(t, g)},
              releases := s.releases[g := s.releases[g] + if released then 1 else 0]),
           t, FinSignal(g, released, if s.waiting < 0 then 0 else s.waiting))
    case FinSignal(g, released, count) =>
      if count > 0 then Goto(s.(sem := s.sem + 1), t, FinSignal(g, released, count - 1))
      else Goto(s.(mutex := None), t, Outside)
  }

  ghost predicate Next(s: State, s': State) {
    || (exists t, c :: CallEnabled(s, t, c) && s' == Enter(s, t, c))
    || (exists t :: StepEnabled(s, t) && s' == Step(s, t))
  }

  /** n moves of the system lead from s to s'. */
  ghost predicate Leads(s: State, s': State, n: nat)
    decreases n
  {
    if n == 0 then s == s' else exists m :: Next(s, m) && Leads(m, s', n - 1)
  }

  ghost predicate Reachable(s: State, tasks: set<Task>, guards: set<Guard>) {
    exists n :: Leads(Init(tasks, guards), s, n)
  }

  function Waiters(s: State): set<Task> {
    set t | t in s.pcs && InWait(s.pcs[t])
  }

  /** The tasks that still have to take the semaphore. */
  function Sleepers(s: State): set<Task> {
    set t | t in s.pcs && s.pcs[t].WaitSem?
  }

  /** Task t is in the wait, and the guard it waits for is still pending. */
  predicate WaitsBehindPending(s: State, t: Task) {
    t in s.pcs && InWait(s.pcs[t]) && s.pcs[t].g in s.guards && s.guards[s.pcs[t].g].pending
  }

  ghost predicate SomeWaitsBehindPending(s: State) {
    exists t :: WaitsBehindPending(s, t)
  }

  /** Semaphore gives that a signalling task has still to make. */
  function SignalsLeft(s: State): nat {
    if s.mutex.Some? && s.mutex.value in s.pcs && s.pcs[s.mutex.value].FinSignal? then s.pcs[s.mutex.value].count else 0
  }

  /** What the program counter of task t promises. */
  ghost predicate PcOk(s: State, t: Task)
    requires t in s.pcs
  {
    var pc := s.pcs[t];
    && (OwnsMutex(pc) <==> s.mutex == Some(t))
    && (!pc.Outside? ==> pc.g in s.guards)
    && (pc.WaitGive? ==> s.guards[pc.g].pending)
    && (pc.AcqDecide? ==> !s.guards[pc.g].pending)
    && (pc.AcqGive? ==> pc.ret == 0 || pc.ret == 1)
    && (pc.AcqGive? && pc.ret == 0 ==> s.guards[pc.g].ready)
    && (pc.AcqGive? && pc.ret == 1 ==> (t, pc.g) in s.initialising)
    && (pc.FinTake? || pc.FinSet? ==> (t, pc.g) in s.initialising)
  }

  ghost predicate GuardOk(s: State, g: Guard)
    requires g in s.guards && g in s.releases
  {
    && (s.guards[g].pending ==> exists t :: t in s.pcs && (t, g) in s.initialising)
    && (forall t :: (t, g) in s.initialising ==> s.guards[g].pending && t in s.pcs)
    && (forall t, u :: (t, g) in s.initialising && (u, g) in s.initialising ==> t == u)
    && !(s.guards[g].pending && s.guards[g].ready)
    && s.releases[g] == (if s.guards[g].ready then 1 else 0)
  }

  ghost predicate NoStranded(s: State) {
    SomeWaitsBehindPending(s) || s.sem + SignalsLeft(s) >= |Sleepers(s)|
  }

  ghost predicate Inv(s: State) {
    && s.releases.Keys == s.guards.Keys && (forall p :: p in s.initialising ==> p.1 in s.guards)
    && (s.mutex.Some? ==> s.mutex.value in s.pcs)
    && (forall t :: t in s.pcs ==> PcOk(s, t))
    && (forall g :: g in s.guards ==> GuardOk(s, g))
    && s.waiting == |Waiters(s)|
    && NoStranded(s)
  }

  lemma MoveOne(a: set<Task>, b: set<Task>, t: Task)
    requires a - {t} == b - {t}
    ensures |b| == |a| - (if t in a then 1 else 0) + (if t in b then 1 else 0)
  {
    assert a == (a - {t}) + (if t in a then {t} else {});
    assert b == (b - {t}) + (if t in b then {t} else {});
  }

  /** Moving one task changes each of the two task sets by at most that task. */
  lemma CountMove(s: State, s': State, t: Task)
    requires t in s.pcs && t in s'.pcs && s'.pcs == s.pcs[t := s'.pcs[t]]
    ensures |Waiters(s')| == |Waiters(s)| - (if InWait(s.pcs[t]) then 1 else 0) + (if InWait(s'.pcs[t]) then 1 else 0)
    ensures |Sleepers(s')| ==
            |Sleepers(s)| - (if s.pcs[t].WaitSem? then 1 else 0) + (if s'.pcs[t].WaitSem? then 1 else 0)
  {
    MoveOne(Waiters(s), Waiters(s'), t);
    MoveOne(Sleepers(s), Sleepers(s'), t);
  }

  lemma SleepersWait(s: State)
    ensures |Sleepers(s)| <= |Waiters(s)|
  {
    SubsetSize(Sleepers(s), Waiters(s));
  }

  lemma {:induction false} SubsetSize<T>(a: set<T>, b: set<T>)
    requires a <= b
    ensures |a| <= |b|
  {
    if a != {} {
      var x :| x in a;
      SubsetSize(a - {x}, b - {x});
    }
  }

  lemma InitInv(tasks: set<Task>, guards: set<Guard>)
    ensures Inv(Init(tasks, guards))
  {
    assert Waiters(Init(tasks, guards)) == {} && Sleepers(Init(tasks, guards)) == {};
  }

  lemma EnterKeepsPc(s: State, t: Task, c: Call, u: Task)
    requires CallEnabled(s, t, c) && u in s.pcs && PcOk(s, u) && PcOk(s, t)
    ensures u in Enter(s, t, c).pcs && PcOk(Enter(s, t, c), u)
  {
  }

  /** Nobody is in the wait who was not before. */
  lemma EnterKeepsNoStranded(s: State, t: Task, c: Call)
    requires CallEnabled(s, t, c) && PcOk(s, t) && NoStranded(s)
    ensures NoStranded(Enter(s, t, c))
  {
    hide Waiters, Sleepers;
    CountMove(s, Enter(s, t, c), t);
    if SomeWaitsBehindPending(s) {
      var u :| WaitsBehindPending(s, u);
      assert WaitsBehindPending(Enter(s, t, c), u);
    }
  }

  lemma EnterInv(s: State, t: Task, c: Call)
    requires Inv(s) && CallEnabled(s, t, c)
    ensures Inv(Enter(s, t, c))
  {
    hide Waiters, Sleepers, PcOk, GuardOk, NoStranded;
    var s' := Enter(s, t, c);
    CountMove(s, s', t);
    EnterKeepsNoStranded(s, t, c);
    forall u | u in s'.pcs
      ensures PcOk(s', u)
    {
      EnterKeepsPc(s, t, c, u);
    }
    forall g | g in s'.guards
      ensures GuardOk(s', g)
    {
      SameGuard(s, s', g);
    }
  }

  lemma StepKeepsOwnPc(s: State, t: Task)
    requires StepEnabled(s, t) && PcOk(s, t) && GuardOk(s, s.pcs[t].g)
    ensures t in Step(s, t).pcs && PcOk(Step(s, t), t)
  {
  }

  lemma StepKeepsOtherPc(s: State, t: Task, u: Task)
    requires StepEnabled(s, t) && PcOk(s, t) && GuardOk(s, s.pcs[t].g)
    requires u in s.pcs && u != t && PcOk(s, u)
    ensures u in Step(s, t).pcs && PcOk(Step(s, t), u)
  {
  }

  /** A guard is unaffected by moves that change neither it nor who initialises it. */
  lemma SameGuard(s: State, s': State, g: Guard)
    requires g in s.guards && g in s.releases && GuardOk(s, g) && s.pcs.Keys <= s'.pcs.Keys
    requires g in s'.guards && g in s'.releases && s'.guards[g] == s.guards[g] && s'.releases[g] == s.releases[g]
    requires forall t :: (t, g) in s'.initialising <==> (t, g) in s.initialising
    ensures GuardOk(s', g)
  {
    if s.guards[g].pending {
      var u :| u in s.pcs && (u, g) in s.initialising;
      assert (u, g) in s'.initialising;
    }
  }

  lemma DecideKeepsGuard(s: State, t: Task, g: Guard)
    requires StepEnabled(s, t) && PcOk(s, t) && s.pcs[t].AcqDecide?
    requires g in s.guards && g in s.releases && GuardOk(s, g)
    ensures GuardOk(Step(s, t), g)
  {
    if s.pcs[t].g != g || s.guards[g].ready {
      SameGuard(s, Step(s, t), g);
    } else {
      assert (t, g) in Step(s, t).initialising;
    }
  }

  lemma FinKeepsGuard(s: State, t: Task, g: Guard)
    requires StepEnabled(s, t) && PcOk(s, t) && s.pcs[t].FinSet?
    requires g in s.guards && g in s.releases && GuardOk(s, g)
    ensures GuardOk(Step(s, t), g)
  {
    if s.pcs[t].g != g {
      SameGuard(s, Step(s, t), g);
    }
  }

  lemma StepKeepsGuard(s: State, t: Task, g: Guard)
    requires StepEnabled(s, t) && PcOk(s, t)
    requires g in s.guards && g in s.releases && GuardOk(s, g)
    ensures g in Step(s, t).guards && g in Step(s, t).releases && GuardOk(Step(s, t), g)
  {
    if s.pcs[t].AcqDecide? {
      DecideKeepsGuard(s, t, g);
    } else if s.pcs[t].FinSet? {
      FinKeepsGuard(s, t, g);
    } else {
      hide GuardOk, PcOk;
      SameGuard(s, Step(s, t), g);
    }
  }

  lemma StepKeepsWaiting(s: State, t: Task)
    requires StepEnabled(s, t) && s.waiting == |Waiters(s)|
    ensures Step(s, t).waiting == |Waiters(Step(s, t))|
  {
    hide Waiters, Sleepers;
    CountMove(s, Step(s, t), t);
  }

  /** A step that clears no guard keeps the waiters behind pending ones. */
  lemma StepKeepsWaiter(s: State, t: Task, u: Task)
    requires StepEnabled(s, t) && WaitsBehindPending(s, u) && !s.pcs[t].FinSet?
    ensures WaitsBehindPending(Step(s, t), u)
  {
  }

  /** A task that enters the wait does so behind a pending guard. */
  lemma EntersWaitBehindPending(s: State, t: Task)
    requires StepEnabled(s, t) && PcOk(s, t)
    requires s.pcs[t].WaitGive? || (s.pcs[t].AcqTest? && InWait(Step(s, t).pcs[t]))
    ensures WaitsBehindPending(Step(s, t), t)
  {
  }

  /** No step strands a waiter: tokens are only taken by sleepers, a task only falls asleep behind
      a pending guard, and whoever clears a guard owes one token to every waiter. */
  lemma StepKeepsNoStranded(s: State, t: Task)
    requires StepEnabled(s, t) && PcOk(s, t)
    requires s.mutex.Some? ==> s.mutex.value in s.pcs && PcOk(s, s.mutex.value)
    requires s.waiting == |Waiters(s)| && NoStranded(s)
    ensures NoStranded(Step(s, t))
  {
    hide Waiters, Sleepers, WaitsBehindPending;
    CountMove(s, Step(s, t), t);
    SleepersWait(s);
    if SomeWaitsBehindPending(s) && !s.pcs[t].FinSet? {
      var u :| WaitsBehindPending(s, u);
      StepKeepsWaiter(s, t, u);
    } else if s.pcs[t].WaitGive? || (s.pcs[t].AcqTest? && InWait(Step(s, t).pcs[t])) {
      EntersWaitBehindPending(s, t);
    }
  }

  /** Only the stepping task's own entries move. */
  lemma StepFrame(s: State, t: Task)
    requires StepEnabled(s, t) && PcOk(s, t)
    requires s.mutex.Some? ==> s.mutex.value in s.pcs
    requires forall p :: p in s.initialising ==> p.1 in s.guards
    ensures Step(s, t).pcs.Keys == s.pcs.Keys && Step(s, t).guards.Keys == s.guards.Keys
    ensures s.releases.Keys == s.guards.Keys ==> Step(s, t).releases.Keys == s.guards.Keys
    ensures Step(s, t).mutex.Some? ==> Step(s, t).mutex.value in s.pcs
    ensures forall p :: p in Step(s, t).initialising ==> p.1 in s.guards
  {
  }

  lemma StepInv(s: State, t: Task)
    requires Inv(s) && StepEnabled(s, t)
    ensures Inv(Step(s, t))
  {
    hide Waiters, NoStranded, PcOk, GuardOk, Step;
    assert PcOk(s, t) && GuardOk(s, s.pcs[t].g);
    StepFrame(s, t);
    forall u | u in s.pcs
      ensures PcOk(Step(s, t), u)
    {
      if u == t {
        StepKeepsOwnPc(s, t);
      } else {
        StepKeepsOtherPc(s, t, u);
      }
    }
    forall g | g in s.guards
      ensures GuardOk(Step(s, t), g)
    {
      StepKeepsGuard(s, t, g);
    }
    StepKeepsWaiting(s, t);
    if s.mutex.Some? {
      assert PcOk(s, s.mutex.value);
    }
    StepKeepsNoStranded(s, t);
  }

  lemma NextInv(s: State, s': State)
    requires Inv(s) && Next(s, s')
    ensures Inv(s')
  {
    if t, c :| CallEnabled(s, t, c) && s' == Enter(s, t, c) {
      EnterInv(s, t, c);
    } else {
      var t :| StepEnabled(s, t) && s' == Step(s, t);
      StepInv(s, t);
    }
  }

  lemma {:induction false} LeadsInv(s: State, s': State, n: nat)
    requires Inv(s) && Leads(s, s', n)
    ensures Inv(s')
    decreases n
  {
    hide Inv, Next;
    if n > 0 {
      var m :| Next(s, m) && Leads(m, s', n - 1);
      NextInv(s, m);
      LeadsInv(m, s', n - 1);
    }
  }

  lemma ReachableInv(s: State, tasks: set<Task>, guards: set<Guard>)
    requires Reachable(s, tasks, guards)
    ensures Inv(s)
  {
    var n :| Leads(Init(tasks, guards), s, n);
    InitInv(tasks, guards);
    LeadsInv(Init(tasks, guards), s, n);
  }

  /** No waiter is stranded: unless some task waits behind a guard that is still pending, the
      semaphore holds (or a task is about to give) a token for every task that still has to take
      one.  The waiting count is exact. */
  lemma NoStrandedWaiters(s: State, tasks: set<Task>, guards: set<Guard>)
    requires Reachable(s, tasks, guards)
    ensures SomeWaitsBehindPending(s) || s.sem + SignalsLeft(s) >= |Sleepers(s)|
    ensures s.waiting == |Waiters(s)|
  {
    ReachableInv(s, tasks, guards);
  }

  /** Exactly-once: one initialiser at a time, none for a ready guard, one release at most. */
  lemma ExactlyOnce(s: State, tasks: set<Task>, guards: set<Guard>, g: Guard)
    requires Reachable(s, tasks, guards) && g in s.guards
    ensures forall t, u :: (t, g) in s.initialising && (u, g) in s.initialising ==> t == u
    ensures s.guards[g].pending <==> exists t :: (t, g) in s.initialising
    ensures !(s.guards[g].ready && s.guards[g].pending)
    ensures g in s.releases && s.releases[g] <= 1 && (s.releases[g] == 1 <==> s.guards[g].ready)
  {
    ReachableInv(s, tasks, guards);
    assert GuardOk(s, g);
  }

  /** What acquire returns: 0 for a ready guard only, 1 to the one task that must initialise. */
  lemma AcquireReturns(s: State, tasks: set<Task>, guards: set<Guard>, t: Task)
    requires Reachable(s, tasks, guards) && t in s.pcs && s.pcs[t].AcqGive? && s.pcs[t].g in s.guards
    ensures s.pcs[t].ret == 0 <==> s.guards[s.pcs[t].g].ready
    ensures s.pcs[t].ret == 1 <==> (t, s.pcs[t].g) in s.initialising
  {
    ReachableInv(s, tasks, guards);
    assert PcOk(s, t) && GuardOk(s, s.pcs[t].g);
  }

  /** The assertions in release and abort, and the documented pre- and postcondition of the wait. */
  lemma AssertionsHold(s: State, tasks: set<Task>, guards: set<Guard>, t: Task)
    requires Reachable(s, tasks, guards) && t in s.pcs && !s.pcs[t].Outside? && s.pcs[t].g in s.guards
    ensures s.pcs[t].FinSet? ==> s.guards[s.pcs[t].g].pending && !s.guards[s.pcs[t].g].ready
    ensures s.pcs[t].WaitGive? ==> s.mutex == Some(t) && s.guards[s.pcs[t].g].pending
    ensures s.pcs[t].AcqDecide? ==> s.mutex == Some(t) && !s.guards[s.pcs[t].g].pending
  {
    ReachableInv(s, tasks, guards);
    assert PcOk(s, t) && GuardOk(s, s.pcs[t].g);
  }

  lemma NextKeepsReady(s: State, s': State, g: Guard)
    requires Next(s, s') && g in s.guards && s.guards[g].ready
    ensures g in s'.guards && s'.guards[g].ready
  {
    if t, c :| CallEnabled(s, t, c) && s' == Enter(s, t, c) {
    } else {
      var t :| StepEnabled(s, t) && s' == Step(s, t);
    }
  }

  lemma {:induction false} LeadsKeepsReady(s: State, s': State, n: nat, g: Guard)
    requires Leads(s, s', n) && g in s.guards && s.guards[g].ready
    ensures g in s'.guards && s'.guards[g].ready
    decreases n
  {
    hide Next;
    if n > 0 {
      var m :| Next(s, m) && Leads(m, s', n - 1);
      NextKeepsReady(s, m, g);
      LeadsKeepsReady(m, s', n - 1, g);
    }
  }

  /** Once ready, a guard stays ready and is never pending again. */
  lemma ReadyIsForever(s: State, s': State, n: nat, g: Guard)
    requires Inv(s) && Leads(s, s', n) && g in s.guards && s.guards[g].ready
    ensures g in s'.guards && s'.guards[g].ready && !s'.guards[g].pending
  {
    LeadsInv(s, s', n);
    LeadsKeepsReady(s, s', n, g);
    assert GuardOk(s', g);
  }

  /** The protocol itself never deadlocks: if no protocol step is possible, then every task inside
      it sleeps behind an empty semaphore, and some guard is still being initialised by a task
      that is in user code or sleeps for another guard. */
  lemma Progress(s: State, tasks: set<Task>, guards: set<Guard>, t: Task)
    requires Reachable(s, tasks, guards) && t in s.pcs && !s.pcs[t].Outside?
    requires forall u :: !StepEnabled(s, u)
    ensures s.sem == 0 && s.mutex.None?
    ensures forall u :: u in s.pcs ==> s.pcs[u].Outside? || s.pcs[u].WaitSem?
    ensures exists u, g :: g in s.guards && s.guards[g].pending && (u, g) in s.initialising && u in s.pcs
  {
    ReachableInv(s, tasks, guards);
    if s.mutex.Some? {
      assert PcOk(s, s.mutex.value);
      assert StepEnabled(s, s.mutex.value);
      assert false;
    }
    forall u | u in s.pcs
      ensures s.pcs[u].Outside? || s.pcs[u].WaitSem?
    {
      assert PcOk(s, u) && !StepEnabled(s, u);
    }
    assert t in Sleepers(s) && PcOk(s, t) && !StepEnabled(s, t);
    var w :| WaitsBehindPending(s, w);
    assert GuardOk(s, s.pcs[w].g);
  }
}
