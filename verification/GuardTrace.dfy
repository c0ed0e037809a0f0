/** A reachable state in which a task sleeps for a guard that has already been released and the
    semaphore is empty: another waiter, whose own guard is still pending, took both tokens.  So
    the tokens given by a release do not belong to the tasks they were counted for, and the sleeper
    only moves on after another guard is released or aborted. */
module GuardTrace {
  import opened Common
  import opened Guards

  ghost predicate Reaches(s: State, s': State) {
    exists n :: Leads(s, s', n)
  }

  lemma {:induction false} LeadsTrans(a: State, b: State, c: State, n: nat, m: nat)
    requires Leads(a, b, n) && Leads(b, c, m)
    ensures Leads(a, c, n + m)
    decreases n
  {
    hide Next;
    if n > 0 {
      var x :| Next(a, x) && Leads(x, b, n - 1);
      LeadsTrans(x, b, c, n - 1, m);
    }
  }

  lemma Trans(a: State, b: State, c: State)
    requires Reaches(a, b) && Reaches(b, c)
    ensures Reaches(a, c)
  {
    hide Leads;
    var n :| Leads(a, b, n);
    var m :| Leads(b, c, m);
    LeadsTrans(a, b, c, n, m);
  }

  /** Appends one protocol step of task t. */
  lemma Then(a: State, s: State, t: Task)
    requires Reaches(a, s) && StepEnabled(s, t)
    ensures Reaches(a, Step(s, t))
  {
    hide Step, StepEnabled;
    assert Leads(Step(s, t), Step(s, t), 0);
    assert Next(s, Step(s, t));
    assert Leads(s, Step(s, t), 1);
    Trans(a, s, Step(s, t));
  }

  lemma Calls(s: State, t: Task, c: Call)
    requires CallEnabled(s, t, c)
    ensures Reaches(s, Enter(s, t, c))
  {
    hide Enter, CallEnabled;
    assert Leads(Enter(s, t, c), Enter(s, t, c), 0);
    assert Next(s, Enter(s, t, c));
    assert Leads(s, Enter(s, t, c), 1);
  }

  /** The mutex is free, task t is at pc, and guard g is known. */
  predicate At(s: State, t: Task, pc: Pc, g: Guard, o: GuardObj) {
    s.mutex.None? && t in s.pcs && s.pcs[t] == pc && g in s.guards && g in s.releases && s.guards[g] == o
  }

  /** An acquire that nobody contends for. */
  lemma AcquireAlone(s: State, t: Task, g: Guard)
    requires At(s, t, Outside, g, GuardObj(false, false))
    ensures Reaches(s, s.(guards := s.guards[g := GuardObj(false, true)], initialising := s.initialising + {(t, g)}))
  {
    hide Reaches;
    var s1 := Enter(s, t, Acquire(g));
    var s2 := Step(s1, t);
    var s3 := Step(s2, t);
    var s4 := Step(s3, t);
    var s5 := Step(s4, t);
    Calls(s, t, Acquire(g));
    Then(s, s1, t);
    Then(s, s2, t);
    Then(s, s3, t);
    Then(s, s4, t);
    assert s5 == s.(guards := s.guards[g := GuardObj(false, true)], initialising := s.initialising + {(t, g)}) by {
      assert s5.pcs == s.pcs;
    }
  }

  /** An acquire of a pending guard ends asleep. */
  lemma AcquireSleeps(s: State, t: Task, g: Guard)
    requires At(s, t, Outside, g, GuardObj(false, true))
    ensures Reaches(s, s.(waiting := s.waiting + 1, pcs := s.pcs[t := WaitSem(g)]))
  {
    hide Reaches;
    var s1 := Enter(s, t, Acquire(g));
    var s2 := Step(s1, t);
    var s3 := Step(s2, t);
    var s4 := Step(s3, t);
    Calls(s, t, Acquire(g));
    Then(s, s1, t);
    Then(s, s2, t);
    Then(s, s3, t);
    assert s4 == s.(waiting := s.waiting + 1, pcs := s.pcs[t := WaitSem(g)]) by {
      assert s4.pcs == s.pcs[t := WaitSem(g)];
    }
  }

  lemma {:induction false} SignalAll(a: State, s: State, t: Task, g: Guard, count: nat)
    requires Reaches(a, s) && t in s.pcs && s.pcs[t] == FinSignal(g, true, count) && g in s.guards && g in s.releases
    ensures Reaches(a, s.(sem := s.sem + count, mutex := None, pcs := s.pcs[t := Outside]))
    decreases count
  {
    hide Reaches;
    Then(a, s, t);
    if count > 0 {
      var s1 := Step(s, t);
      SignalAll(a, s1, t, g, count - 1);
      assert s1.pcs[t := Outside] == s.pcs[t := Outside];
    }
  }

  /** A release gives one token to every task that waits, for whatever guard. */
  lemma ReleaseSignals(s: State, t: Task, g: Guard)
    requires At(s, t, Outside, g, GuardObj(false, true)) && (t, g) in s.initialising && s.waiting >= 0
    ensures Reaches(s, s.(guards := s.guards[g := GuardObj(true, false)], initialising := s.initialising - {(t, g)},
                          releases := s.releases[g := s.releases[g] + 1], sem := s.sem + s.waiting))
  {
    hide Reaches;
    var s1 := Enter(s, t, Release(g));
    var s2 := Step(s1, t);
    var s3 := Step(s2, t);
    Calls(s, t, Release(g));
    Then(s, s1, t);
    Then(s, s2, t);
    SignalAll(s, s3, t, g, s.waiting);
    assert s3.pcs[t := Outside] == s.pcs;
  }

  /** A sleeper whose guard is still pending takes a token and goes back to sleep. */
  lemma StealToken(s: State, t: Task, g: Guard, o: GuardObj)
    requires At(s, t, WaitSem(g), g, o) && o.pending && s.sem > 0
    ensures Reaches(s, s.(sem := s.sem - 1))
  {
    hide Reaches;
    var s1 := Step(s, t);
    var s2 := Step(s1, t);
    var s3 := Step(s2, t);
    var s4 := Step(s3, t);
    Self(s);
    Then(s, s, t);
    Then(s, s1, t);
    Then(s, s2, t);
    Then(s, s3, t);
    assert s4.pcs == s.pcs;
  }

  lemma Self(s: State)
    ensures Reaches(s, s)
  {
    assert Leads(s, s, 0);
  }

  /** Task 1 initialises guards 1 and 2, task 2 waits for guard 1 and task 3 for guard 2; guard 1
      is released and task 3 takes both tokens. */
  lemma TokensCanBeStolen() returns (s: State)
    ensures Reachable(s, {1, 2, 3}, {1, 2})
    ensures At(s, 2, WaitSem(1), 1, GuardObj(true, false)) && s.sem == 0
    ensures At(s, 1, Outside, 2, GuardObj(false, true)) && (1, 2) in s.initialising
  {
    hide Reaches;
    var a := Init({1, 2, 3}, {1, 2});
    s := a;
    Self(a);
    AcquireAlone(s, 1, 1);
    s := s.(guards := s.guards[1 := GuardObj(false, true)], initialising := s.initialising + {(1, 1)});
    AcquireAlone(s, 1, 2);
    var s2 := s.(guards := s.guards[2 := GuardObj(false, true)], initialising := s.initialising + {(1, 2)});
    Trans(a, s, s2);
    AcquireSleeps(s2, 2, 1);
    var s3 := s2.(waiting := 1, pcs := s2.pcs[2 := WaitSem(1)]);
    Trans(a, s2, s3);
    AcquireSleeps(s3, 3, 2);
    var s4 := s3.(waiting := 2, pcs := s3.pcs[3 := WaitSem(2)]);
    Trans(a, s3, s4);
    ReleaseSignals(s4, 1, 1);
    var s5 := s4.(guards := s4.guards[1 := GuardObj(true, false)], initialising := s4.initialising - {(1, 1)},
                  releases := s4.releases[1 := s4.releases[1] + 1], sem := 2);
    Trans(a, s4, s5);
    StealToken(s5, 3, 2, GuardObj(false, true));
    var s6 := s5.(sem := 1);
    Trans(a, s5, s6);
    StealToken(s6, 3, 2, GuardObj(false, true));
    s := s6.(sem := 0);
    Trans(a, s6, s);
    ReachesFromInit(s);
  }

  lemma ReachesFromInit(s: State)
    requires Reaches(Init({1, 2, 3}, {1, 2}), s)
    ensures Reachable(s, {1, 2, 3}, {1, 2})
  {
  }

  // ---- When the tokens can run out ----

  /** n protocol steps of tasks inside the wait lead from s to s'. */
  ghost predicate WaitLeads(s: State, s': State, n: nat)
    decreases n
  {
    if n == 0 then s == s'
    else exists t :: StepEnabled(s, t) && InWait(s.pcs[t]) && WaitLeads(Step(s, t), s', n - 1)
  }

  ghost predicate WaitReaches(s: State, s': State) {
    exists n: nat :: WaitLeads(s, s', n)
  }

  /** Some task that still has to take the semaphore will not find a token. */
  ghost predicate TokensShort(s: State) {
    s.sem + SignalsLeft(s) < |Sleepers(s)|
  }

  lemma WaitStep(s: State, t: Task, s': State)
    requires StepEnabled(s, t) && InWait(s.pcs[t]) && WaitReaches(Step(s, t), s')
    ensures WaitReaches(s, s')
  {
    hide Step, StepEnabled;
    var n: nat :| WaitLeads(Step(s, t), s', n);
    assert WaitLeads(s, s', n + 1);
  }

  lemma WaitSelf(s: State)
    ensures WaitReaches(s, s)
  {
    assert WaitLeads(s, s, 0);
  }

  lemma NoneBehindStays(s: State, t: Task)
    requires StepEnabled(s, t) && InWait(s.pcs[t]) && !SomeWaitsBehindPending(s)
    ensures !SomeWaitsBehindPending(Step(s, t))
  {
    forall u ensures !WaitsBehindPending(Step(s, t), u) {
      assert !WaitsBehindPending(s, u);
    }
  }

  lemma {:induction false} NoneBehindNeverShort(s: State, s': State, n: nat)
    requires Inv(s) && !SomeWaitsBehindPending(s) && WaitLeads(s, s', n)
    ensures !TokensShort(s')
    decreases n
  {
    hide Step, PcOk, GuardOk, Waiters, Sleepers, SomeWaitsBehindPending;
    if n > 0 {
      var t :| StepEnabled(s, t) && InWait(s.pcs[t]) && WaitLeads(Step(s, t), s', n - 1);
      StepInv(s, t);
      NoneBehindStays(s, t);
      NoneBehindNeverShort(Step(s, t), s', n - 1);
    }
  }

  /** A sleeper behind a pending guard can take every token there is. */
  lemma {:induction false} SleeperTakesAll(s: State, t: Task, g: Guard) returns (s': State)
    requires g in s.guards && At(s, t, WaitSem(g), g, s.guards[g]) && s.guards[g].pending
    ensures WaitReaches(s, s') && TokensShort(s')
    decreases s.sem
  {
    hide WaitReaches;
    if s.sem == 0 {
      s' := s;
      WaitSelf(s);
      assert t in Sleepers(s);
    } else {
      var s1 := Step(s, t);
      var s2 := Step(s1, t);
      var s3 := Step(s2, t);
      var s4 := Step(s3, t);
      s' := SleeperTakesAll(s4, t, g);
      WaitStep(s3, t, s');
      WaitStep(s2, t, s');
      WaitStep(s1, t, s');
      WaitStep(s, t, s');
    }
  }

  lemma WaiterTakesAll(s: State, t: Task) returns (s': State)
    requires WaitsBehindPending(s, t) && PcOk(s, t)
    requires s.mutex.None? && s.releases.Keys == s.guards.Keys
    ensures WaitReaches(s, s') && TokensShort(s')
  {
    hide WaitReaches, TokensShort;
    var g := s.pcs[t].g;
    if s.pcs[t].WaitSem? {
      s' := SleeperTakesAll(s, t, g);
    } else {
      var s1 := Step(s, t);
      var s2 := Step(s1, t);
      var s3 := Step(s2, t);
      s' := SleeperTakesAll(s3, t, g);
      WaitStep(s2, t, s');
      WaitStep(s1, t, s');
      WaitStep(s, t, s');
    }
  }

  /** The exact condition for the claim that a task which still has to take the semaphore will
      succeed at once: while nobody owns the mutex, the tasks inside the wait can by themselves
      bring the tokens below the number of sleepers if and only if one of them waits behind a
      guard that is still pending. */
  lemma TokensCanRunOutExactly(s: State, tasks: set<Task>, guards: set<Guard>)
    requires Reachable(s, tasks, guards) && s.mutex.None?
    ensures SomeWaitsBehindPending(s) <==> exists s' :: WaitReaches(s, s') && TokensShort(s')
  {
    hide TokensShort, GuardOk, NoStranded;
    ReachableInv(s, tasks, guards);
    if SomeWaitsBehindPending(s) {
      var t :| WaitsBehindPending(s, t);
      assert PcOk(s, t);
      var s' := WaiterTakesAll(s, t);
    } else {
      forall s' | WaitReaches(s, s') ensures !TokensShort(s') {
        var n: nat :| WaitLeads(s, s', n);
        NoneBehindNeverShort(s, s', n);
      }
    }
  }
}
