/** When the tasks in the wait can leave it by their own steps.  Waking up is not enough: of two
    tasks that wait for a guard whose initialiser gave up, the first one out becomes the new
    initialiser and the other one waits on. */
module GuardDrain {
  import opened Common
  import opened Guards

  /** n protocol steps of the tasks in w lead from s to s'. */
  ghost predicate LeadsFor(s: State, w: set<Task>, s': State, n: nat)
    decreases n
  {
    if n == 0 then s == s' else exists t :: t in w && StepEnabled(s, t) && LeadsFor(Step(s, t), w, s', n - 1)
  }

  /** Every waiter's guard has been released, or was given up and is waited for by one task only. */
  ghost predicate Drainable(s: State) {
    && !SomeWaitsBehindPending(s)
    && forall t, u :: t in Waiters(s) && u in Waiters(s) && t != u && s.pcs[t].g == s.pcs[u].g ==>
         IsReady(s, s.pcs[t].g)
  }

  predicate IsReady(s: State, g: Guard) {
    g in s.guards && s.guards[g].ready
  }

  /** In the wait, or out of it and about to test whether the guard is ready. */
  predicate Contends(s: State, t: Task) {
    t in s.pcs && (InWait(s.pcs[t]) || s.pcs[t].AcqDecide?)
  }

  /** Where a task is that was in the wait and has only made protocol steps since. */
  predicate Woken(pc: Pc) {
    InWait(pc) || pc.AcqDecide? || pc.AcqGive? || pc.Outside?
  }

  // ---- Drainable: every run ends, and ends with nobody in the wait ----

  /** What is left of the way out. */
  function Rank(pc: Pc): nat {
    match pc
    case WaitSem(_) => 5
    case WaitTake(_) => 4
    case WaitTest(_) => 3
    case AcqDecide(_) => 2
    case AcqGive(_, _) => 1
    case _ => 0
  }

  function Above(s: State, w: set<Task>, k: nat): set<Task> {
    set t | t in w && t in s.pcs && Rank(s.pcs[t]) > k
  }

  function StepsLeft(s: State, w: set<Task>): nat {
    |Above(s, w, 0)| + |Above(s, w, 1)| + |Above(s, w, 2)| + |Above(s, w, 3)| + |Above(s, w, 4)|
  }

  ghost predicate TwoMeetOnReady(s: State, t: Task, u: Task) {
    Contends(s, t) && Contends(s, u) && t != u && s.pcs[t].g == s.pcs[u].g ==> IsReady(s, s.pcs[t].g)
  }

  /** What a run of the tasks in w keeps. */
  ghost predicate Draining(s: State, w: set<Task>) {
    && Inv(s) && !SomeWaitsBehindPending(s)
    && (s.mutex.Some? ==> s.mutex.value in w)
    && (forall t :: t in w ==> t in s.pcs && Woken(s.pcs[t]))
    && (forall t :: t in Waiters(s) ==> t in w)
    && (forall t, u :: t in w && u in w ==> TwoMeetOnReady(s, t, u))
  }

  lemma StepKeepsMeetings(s: State, t: Task, u: Task, v: Task)
    requires StepEnabled(s, t) && Woken(s.pcs[t]) && TwoMeetOnReady(s, u, v)
    ensures TwoMeetOnReady(Step(s, t), u, v)
  {
  }

  /** The only step that makes a guard pending is made when no one else waits for it. */
  lemma StepKeepsNoneBehind(s: State, w: set<Task>, t: Task, u: Task)
    requires Draining(s, w) && t in w && StepEnabled(s, t)
    ensures !WaitsBehindPending(Step(s, t), u)
  {
    hide Inv;
    assert PcOk(s, t) by { InvPc(s, t); }
    assert !WaitsBehindPending(s, u) && !WaitsBehindPending(s, t);
    if u in Waiters(s) && u != t {
      assert TwoMeetOnReady(s, t, u);
    }
  }

  lemma InvPc(s: State, t: Task)
    requires Inv(s) && t in s.pcs
    ensures PcOk(s, t)
  {
  }

  lemma StepDrains(s: State, w: set<Task>, t: Task)
    requires Draining(s, w) && t in w && StepEnabled(s, t)
    ensures Draining(Step(s, t), w) && StepsLeft(s, w) == StepsLeft(Step(s, t), w) + 1
  {
    hide Inv, Step, TwoMeetOnReady, WaitsBehindPending, StepsLeft, Waiters, Woken, PcOk;
    StepInv(s, t);
    InvPc(s, t);
    WokenMoves(s, t);
    forall u, v | u in w && v in w ensures TwoMeetOnReady(Step(s, t), u, v) {
      StepKeepsMeetings(s, t, u, v);
    }
    forall u ensures !WaitsBehindPending(Step(s, t), u) {
      StepKeepsNoneBehind(s, w, t, u);
    }
    StepCounts(s, w, t);
  }

  /** Only the stepping task moves, and only it can become the owner of the mutex. */
  lemma WokenMoves(s: State, t: Task)
    requires StepEnabled(s, t) && Woken(s.pcs[t]) && PcOk(s, t)
    ensures Step(s, t).pcs.Keys == s.pcs.Keys && Woken(Step(s, t).pcs[t])
    ensures forall u :: u in s.pcs && u != t ==> Step(s, t).pcs[u] == s.pcs[u]
    ensures forall u :: u in Waiters(Step(s, t)) ==> u in Waiters(s) || u == t
    ensures Step(s, t).mutex == s.mutex || Step(s, t).mutex == Some(t) || Step(s, t).mutex == None
  {
  }

  lemma StepCounts(s: State, w: set<Task>, t: Task)
    requires t in w && StepEnabled(s, t) && Woken(s.pcs[t]) && PcOk(s, t) && !WaitsBehindPending(s, t)
    ensures StepsLeft(s, w) == StepsLeft(Step(s, t), w) + 1
  {
    var s' := Step(s, t);
    forall k: nat ensures |Above(s', w, k)| == |Above(s, w, k)| - if Rank(s.pcs[t]) == k + 1 then 1 else 0 {
      assert Rank(s'.pcs[t]) + 1 == Rank(s.pcs[t]);
      MoveOne(Above(s, w, k), Above(s', w, k), t);
    }
  }

  lemma OwnerMoves(s: State)
    requires Inv(s) && s.mutex.Some?
    ensures StepEnabled(s, s.mutex.value)
  {
    assert PcOk(s, s.mutex.value);
  }

  /** A run that cannot go on has left the wait. */
  lemma StuckIsDrained(s: State, w: set<Task>)
    requires Draining(s, w) && forall t :: t in w ==> !StepEnabled(s, t)
    ensures Waiters(s) == {} && s.mutex.None? && forall t :: t in w ==> t in s.pcs && s.pcs[t].Outside?
  {
    if s.mutex.Some? {
      OwnerMoves(s);
      assert false;
    }
    forall t | t in w ensures s.pcs[t].Outside? {
      assert PcOk(s, t) && !StepEnabled(s, t);
      if s.pcs[t].WaitSem? {
        assert t in Sleepers(s);
      }
    }
  }

  lemma {:induction false} RunDrains(s: State, w: set<Task>, s': State, n: nat)
    requires Draining(s, w) && LeadsFor(s, w, s', n)
    ensures Draining(s', w) && StepsLeft(s, w) == StepsLeft(s', w) + n
    decreases n
  {
    hide Draining, StepsLeft, Step, StepEnabled;
    if n > 0 {
      var t :| t in w && StepEnabled(s, t) && LeadsFor(Step(s, t), w, s', n - 1);
      StepDrains(s, w, t);
      RunDrains(Step(s, t), w, s', n - 1);
    }
  }

  lemma {:induction false} SomeRunDrains(s: State, w: set<Task>) returns (s': State, n: nat)
    requires Draining(s, w)
    ensures LeadsFor(s, w, s', n) && Waiters(s') == {}
    decreases StepsLeft(s, w)
  {
    hide Draining, Step, StepEnabled, StepsLeft, Waiters;
    if t :| t in w && StepEnabled(s, t) {
      StepDrains(s, w, t);
      s', n := SomeRunDrains(Step(s, t), w);
      n := n + 1;
    } else {
      StuckIsDrained(s, w);
      s', n := s, 0;
    }
  }

  // ---- Not drainable: no run empties the wait ----

  /** Task x waits, and will still wait when y has taken over the guard. */
  ghost predicate StaysBehind(s: State, x: Task, y: Task) {
    && x in Waiters(s)
    && s.pcs[x].g in s.guards
    && (s.guards[s.pcs[x].g].pending
        || (x != y && Contends(s, y) && s.pcs[y].g == s.pcs[x].g && !IsReady(s, s.pcs[x].g)))
  }

  ghost predicate AllWoken(s: State, w: set<Task>) {
    forall t :: t in w ==> t in s.pcs && Woken(s.pcs[t])
  }

  lemma OthersKeepBehind(s: State, t: Task, x: Task, y: Task)
    requires StepEnabled(s, t) && Woken(s.pcs[t]) && StaysBehind(s, x, y) && t != x && t != y
    ensures StaysBehind(Step(s, t), x, y)
  {
  }

  /** Whoever stays behind leaves the wait only past a guard that is not pending, and before the
      other one has left it. */
  lemma FirstKeepsBehind(s: State, x: Task, y: Task)
    requires StepEnabled(s, x) && PcOk(s, x) && StaysBehind(s, x, y) && (y in s.pcs ==> PcOk(s, y))
    ensures StaysBehind(Step(s, x), x, y) || StaysBehind(Step(s, x), y, x)
  {
  }

  /** The other one makes the guard pending again when it is out of the wait. */
  lemma SecondKeepsBehind(s: State, x: Task, y: Task)
    requires StepEnabled(s, y) && Woken(s.pcs[y]) && PcOk(s, y) && StaysBehind(s, x, y) && x != y
    ensures StaysBehind(Step(s, y), x, y)
  {
  }

  lemma StepKeepsBehind(s: State, t: Task, x: Task, y: Task)
    requires Inv(s) && StepEnabled(s, t) && Woken(s.pcs[t]) && StaysBehind(s, x, y)
    ensures StaysBehind(Step(s, t), x, y) || StaysBehind(Step(s, t), y, x)
  {
    hide Step, StaysBehind, PcOk, GuardOk;
    if t == x {
      FirstKeepsBehind(s, x, y);
    } else if t == y {
      SecondKeepsBehind(s, x, y);
    } else {
      OthersKeepBehind(s, t, x, y);
    }
  }

  lemma {:induction false} RunKeepsBehind(s: State, w: set<Task>, s': State, n: nat, x: Task, y: Task)
    requires Inv(s) && AllWoken(s, w) && LeadsFor(s, w, s', n) && (StaysBehind(s, x, y) || StaysBehind(s, y, x))
    ensures Waiters(s') != {}
    decreases n
  {
    hide Inv, Step, StepEnabled;
    if n > 0 {
      var t :| t in w && StepEnabled(s, t) && LeadsFor(Step(s, t), w, s', n - 1);
      StepInv(s, t);
      InvPc(s, t);
      WokenMoves(s, t);
      if StaysBehind(s, x, y) {
        StepKeepsBehind(s, t, x, y);
      } else {
        StepKeepsBehind(s, t, y, x);
      }
      RunKeepsBehind(Step(s, t), w, s', n - 1, x, y);
    }
  }

  // ---- Both directions ----

  lemma StartDraining(s: State)
    requires Inv(s) && Drainable(s) && (s.mutex.Some? ==> s.mutex.value in Waiters(s))
    ensures Draining(s, Waiters(s))
  {
    hide Inv;
    forall t, u | t in Waiters(s) && u in Waiters(s) ensures TwoMeetOnReady(s, t, u) {
    }
  }

  /** While no other task owns the mutex, the tasks in the wait can all leave it by their own
      protocol steps if and only if each of them waits for a ready guard, or alone for one that
      was given up. */
  lemma WaitersDrainExactly(s: State, tasks: set<Task>, guards: set<Guard>)
    requires Reachable(s, tasks, guards) && (s.mutex.Some? ==> s.mutex.value in Waiters(s))
    ensures Drainable(s) <==> exists s', n: nat :: LeadsFor(s, Waiters(s), s', n) && Waiters(s') == {}
  {
    ReachableInv(s, tasks, guards);
    if Drainable(s) {
      StartDraining(s);
      var s', n := SomeRunDrains(s, Waiters(s));
    } else {
      var x, y := SomeoneStays(s);
      forall s', n: nat | LeadsFor(s, Waiters(s), s', n) ensures Waiters(s') != {} {
        RunKeepsBehind(s, Waiters(s), s', n, x, y);
      }
    }
  }

  lemma SomeoneStays(s: State) returns (x: Task, y: Task)
    requires Inv(s) && !Drainable(s)
    ensures StaysBehind(s, x, y)
  {
    if SomeWaitsBehindPending(s) {
      x :| WaitsBehindPending(s, x);
      y := x;
    } else {
      x, y :| x in Waiters(s) && y in Waiters(s) && x != y && s.pcs[x].g == s.pcs[y].g && !IsReady(s, s.pcs[x].g);
      InvPc(s, x);
    }
  }

  /** Then they leave whatever the order of their steps is: no run of theirs is longer than five
      steps each, and one that cannot go on has left nobody in the wait. */
  lemma EveryRunDrains(s: State, tasks: set<Task>, guards: set<Guard>, s': State, n: nat)
    requires Reachable(s, tasks, guards) && (s.mutex.Some? ==> s.mutex.value in Waiters(s))
    requires Drainable(s) && LeadsFor(s, Waiters(s), s', n)
    ensures n <= 5 * |Waiters(s)|
    ensures (forall t :: t in Waiters(s) ==> !StepEnabled(s', t)) ==>
              Waiters(s') == {} && s'.mutex.None? && forall t :: t in Waiters(s) ==> t in s'.pcs && s'.pcs[t].Outside?
  {
    hide Inv, Draining, Drainable, Step, StepEnabled, LeadsFor, Waiters;
    var w := Waiters(s);
    ReachableInv(s, tasks, guards);
    StartDraining(s);
    RunDrains(s, w, s', n);
    forall k: nat ensures |Above(s, w, k)| <= |w| {
      SubsetSize(Above(s, w, k), w);
    }
    if forall t :: t in w ==> !StepEnabled(s', t) {
      StuckIsDrained(s', w);
    }
  }
}
