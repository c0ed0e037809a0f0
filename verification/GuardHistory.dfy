/** The calls that the tasks make, against the state of the guards: a guard is ready exactly if a call of
    release got past clearing it, and an abort leaves it as if nobody had tried. */
module GuardHistory {
  import opened Common
  import opened Guards
  import opened GuardTrace

  /** One move of the system: a task in user code makes a call, or a task makes its next step. */
  datatype Move = Calls(t: Task, c: Call) | Steps(t: Task)

  predicate Enabled(s: State, m: Move) {
    match m
    case Calls(t, c) => CallEnabled(s, t, c)
    case Steps(t) => StepEnabled(s, t)
  }

  function After(s: State, m: Move): State
    requires Enabled(s, m)
  {
    match m
    case Calls(t, c) => Enter(s, t, c)
    case Steps(t) => Step(s, t)
  }

  /** The moves lead from s to s'. */
  ghost predicate Runs(s: State, moves: seq<Move>, s': State)
    decreases |moves|
  {
    if moves == [] then s == s'
    else
      var n := |moves| - 1;
      exists m :: Runs(s, moves[..n], m) && Enabled(m, moves[n]) && After(m, moves[n]) == s'
  }

  /** The last call of task t, and how many steps it has made since. */
  function Since(moves: seq<Move>, t: Task): (Option<Call>, nat) {
    if moves == [] then (None, 0)
    else
      var n := |moves| - 1;
      match moves[n]
      case Calls(u, c) => if u == t then (Some(c), 0) else Since(moves[..n], t)
      case Steps(u) => var (c, k) := Since(moves[..n], t); (c, if u == t then k + 1 else k)
  }

  /** Some task called release for g and has made at least two steps since: it took the mutex and
      cleared the guard. */
  predicate WasReleased(moves: seq<Move>, g: Guard) {
    if moves == [] then false
    else
      var n := |moves| - 1;
      || WasReleased(moves[..n], g)
      || (moves[n].Steps? && Since(moves, moves[n].t) == (Some(Release(g)), 2))
  }

  /** Where a task is, by what it has called. */
  ghost predicate PcFollows(pc: Pc, since: (Option<Call>, nat)) {
    match pc
    case FinTake(g, released) => since == (Some(if released then Release(g) else Abort(g)), 0)
    case FinSet(g, released) => since == (Some(if released then Release(g) else Abort(g)), 1)
    case FinSignal(g, released, _) => since.0 == Some(if released then Release(g) else Abort(g)) && since.1 >= 2
    case Outside => since.0.None? || since.0.value.Acquire? || since.1 >= 3
    case _ => since.0 == Some(Acquire(pc.g))
  }

  ghost predicate Follows(s: State, moves: seq<Move>) {
    && (forall t :: t in s.pcs ==> PcFollows(s.pcs[t], Since(moves, t)))
    && (forall g :: g in s.guards ==> (s.guards[g].ready <==> WasReleased(moves, g)))
  }

  lemma PcStepFollows(s: State, moves: seq<Move>, m: Move, t: Task)
    requires Enabled(s, m) && t in s.pcs && PcFollows(s.pcs[t], Since(moves, t))
    requires m.t in s.pcs && PcFollows(s.pcs[m.t], Since(moves, m.t))
    ensures t in After(s, m).pcs && PcFollows(After(s, m).pcs[t], Since(moves + [m], t))
  {
    assert (moves + [m])[..|moves|] == moves;
  }

  lemma ReadyStepFollows(s: State, moves: seq<Move>, m: Move, g: Guard)
    requires Enabled(s, m) && m.t in s.pcs && PcFollows(s.pcs[m.t], Since(moves, m.t))
    requires g in s.guards && (s.guards[g].ready <==> WasReleased(moves, g))
    ensures g in After(s, m).guards && (After(s, m).guards[g].ready <==> WasReleased(moves + [m], g))
  {
    assert (moves + [m])[..|moves|] == moves;
  }

  lemma {:induction false} RunFollows(tasks: set<Task>, guards: set<Guard>, moves: seq<Move>, s: State)
    requires Runs(Init(tasks, guards), moves, s)
    ensures Follows(s, moves) && s.pcs.Keys == tasks && s.guards.Keys == guards
    decreases |moves|
  {
    hide After, Enabled, PcFollows;
    if moves == [] {
      StartFollows(tasks, guards);
    } else {
      var n := |moves| - 1;
      var m :| Runs(Init(tasks, guards), moves[..n], m) && Enabled(m, moves[n]) && After(m, moves[n]) == s;
      RunFollows(tasks, guards, moves[..n], m);
      assert moves[..n] + [moves[n]] == moves;
      SameKeys(m, moves[n]);
      forall t | t in s.pcs ensures PcFollows(s.pcs[t], Since(moves, t)) {
        PcStepFollows(m, moves[..n], moves[n], t);
      }
      forall g | g in s.guards ensures s.guards[g].ready <==> WasReleased(moves, g) {
        ReadyStepFollows(m, moves[..n], moves[n], g);
      }
    }
  }

  lemma StartFollows(tasks: set<Task>, guards: set<Guard>)
    ensures Follows(Init(tasks, guards), [])
  {
  }

  lemma SameKeys(s: State, m: Move)
    requires Enabled(s, m)
    ensures m.t in s.pcs && After(s, m).pcs.Keys == s.pcs.Keys && After(s, m).guards.Keys == s.guards.Keys
  {
  }

  /** For every run: a guard is ready if and only if some task called release for it and got past
      clearing it.  Aborted initialisations leave no trace in it. */
  lemma ReadyExactlyAfterRelease(tasks: set<Task>, guards: set<Guard>, moves: seq<Move>, s: State, g: Guard)
    requires Runs(Init(tasks, guards), moves, s) && g in guards
    ensures g in s.guards && (s.guards[g].ready <==> WasReleased(moves, g))
  {
    RunFollows(tasks, guards, moves, s);
  }

  /** These runs reach exactly the reachable states. */
  lemma RunsReach(tasks: set<Task>, guards: set<Guard>, s: State)
    ensures Reachable(s, tasks, guards) <==> exists moves :: Runs(Init(tasks, guards), moves, s)
  {
    var a := Init(tasks, guards);
    if Reachable(s, tasks, guards) {
      var n :| Leads(a, s, n);
      assert Runs(a, [], a);
      var moves := LeadsRuns(a, [], a, s, n);
    }
    if moves :| Runs(a, moves, s) {
      RunsLeads(a, moves, s);
    }
  }

  lemma {:induction false} LeadsRuns(a: State, moves: seq<Move>, s: State, s': State, n: nat) returns (all: seq<Move>)
    requires Runs(a, moves, s) && Leads(s, s', n)
    ensures Runs(a, all, s')
    decreases n
  {
    hide Enter, Step, CallEnabled, StepEnabled;
    if n == 0 {
      all := moves;
    } else {
      var m :| Next(s, m) && Leads(m, s', n - 1);
      var move: Move;
      if t, c :| CallEnabled(s, t, c) && m == Enter(s, t, c) {
        move := Calls(t, c);
      } else {
        var t :| StepEnabled(s, t) && m == Step(s, t);
        move := Steps(t);
      }
      assert (moves + [move])[..|moves|] == moves;
      assert Runs(a, moves + [move], m);
      all := LeadsRuns(a, moves + [move], m, s', n - 1);
    }
  }

  lemma {:induction false} RunsLeads(a: State, moves: seq<Move>, s: State)
    requires Runs(a, moves, s)
    ensures Leads(a, s, |moves|)
    decreases |moves|
  {
    hide Enter, Step, CallEnabled, StepEnabled;
    if moves != [] {
      var n := |moves| - 1;
      var m :| Runs(a, moves[..n], m) && Enabled(m, moves[n]) && After(m, moves[n]) == s;
      RunsLeads(a, moves[..n], m);
      assert Next(m, s);
      assert Leads(s, s, 0) && Leads(m, s, 1);
      LeadsTrans(a, m, s, n, 1);
    }
  }

  // ---- What one call does when nobody comes between ----

  /** n steps of task t alone lead from s to s'. */
  ghost predicate OwnSteps(s: State, t: Task, s': State, n: nat)
    decreases n
  {
    if n == 0 then s == s' else StepEnabled(s, t) && OwnSteps(Step(s, t), t, s', n - 1)
  }

  lemma {:induction false} SignalsAll(s: State, t: Task, g: Guard, released: bool, count: nat, s': State, n: nat)
    requires t in s.pcs && s.pcs[t] == FinSignal(g, released, count) && g in s.guards && g in s.releases
    ensures var done := s.(sem := s.sem + count, mutex := None, pcs := s.pcs[t := Outside]);
            OwnSteps(s, t, s', n) && t in s'.pcs && s'.pcs[t].Outside? <==> s' == done && n == count + 1
    decreases count
  {
    if n > 0 {
      var s1 := Step(s, t);
      if count > 0 {
        SignalsAll(s1, t, g, released, count - 1, s', n - 1);
        assert s1.pcs[t := Outside] == s.pcs[t := Outside];
      } else {
        assert n > 1 ==> !StepEnabled(s1, t);
      }
    }
  }

  /** The guard's initialiser is in user code, and the mutex is free. */
  ghost predicate MayFinish(s: State, t: Task, g: Guard) {
    At(s, t, Outside, g, GuardObj(false, true)) && (t, g) in s.initialising && s.waiting >= 0
  }

  /** An abort is complete after these steps and leads to this state only: the guard is neither
      ready nor pending, no release is counted, and every waiting task gets a token. */
  lemma AbortUndoes(s: State, t: Task, g: Guard, s': State, n: nat)
    requires MayFinish(s, t, g)
    ensures OwnSteps(Enter(s, t, Abort(g)), t, s', n) && t in s'.pcs && s'.pcs[t].Outside? <==>
            && n == s.waiting + 3
            && s' == s.(guards := s.guards[g := GuardObj(false, false)], initialising := s.initialising - {(t, g)},
                        sem := s.sem + s.waiting)
  {
    FinishOf(s, t, g, false, s', n);
    assert s.releases[g := s.releases[g]] == s.releases;
  }

  /** A release makes the guard ready instead, and is counted. */
  lemma ReleaseCompletes(s: State, t: Task, g: Guard, s': State, n: nat)
    requires MayFinish(s, t, g)
    ensures OwnSteps(Enter(s, t, Release(g)), t, s', n) && t in s'.pcs && s'.pcs[t].Outside? <==>
            && n == s.waiting + 3
            && s' == s.(guards := s.guards[g := GuardObj(true, false)], initialising := s.initialising - {(t, g)},
                        releases := s.releases[g := s.releases[g] + 1], sem := s.sem + s.waiting)
  {
    FinishOf(s, t, g, true, s', n);
  }

  lemma FinishOf(s: State, t: Task, g: Guard, released: bool, s': State, n: nat)
    requires MayFinish(s, t, g)
    ensures var e := Goto(s, t, FinTake(g, released));
            OwnSteps(e, t, s', n) && t in s'.pcs && s'.pcs[t].Outside? <==>
            && n == s.waiting + 3
            && s' == s.(guards := s.guards[g := GuardObj(released, false)],
                        initialising := s.initialising - {(t, g)},
                        releases := s.releases[g := s.releases[g] + if released then 1 else 0],
                        sem := s.sem + s.waiting)
  {
    var e := Goto(s, t, FinTake(g, released));
    var s1 := Step(e, t);
    var s2 := Step(s1, t);
    if n >= 2 {
      assert OwnSteps(e, t, s', n) <==> OwnSteps(s2, t, s', n - 2);
      SignalsAll(s2, t, g, released, s.waiting, s', n - 2);
      assert s2.pcs[t := Outside] == s.pcs;
    }
  }

  /** An acquire that nobody contends for returns 0 for a ready guard and 1 for any other, to which it
      makes this task the initialiser. */
  lemma AcquireAloneReturns(s: State, t: Task, g: Guard, s': State, n: nat)
    requires t in s.pcs && g in s.guards && At(s, t, Outside, g, s.guards[g]) && !s.guards[g].pending
    requires OwnSteps(Enter(s, t, Acquire(g)), t, s', n) && t in s'.pcs && s'.pcs[t].AcqGive?
    ensures s'.pcs[t] == AcqGive(g, if s.guards[g].ready then 0 else 1)
    ensures !s.guards[g].ready ==> (t, g) in s'.initialising && s'.guards == s.guards[g := GuardObj(false, true)]
    ensures s.guards[g].ready ==> s'.initialising == s.initialising && s'.guards == s.guards
  {
    var s0 := Enter(s, t, Acquire(g));
    var s1 := Step(s0, t);
    var s2 := Step(s1, t);
    var s3 := Step(s2, t);
    if n >= 3 {
      assert OwnSteps(s1, t, s', n - 1);
      assert OwnSteps(s2, t, s', n - 2);
      ReturnsAtOnce(s3, t, s', n - 3);
    }
  }

  lemma ReturnsAtOnce(s: State, t: Task, s': State, n: nat)
    requires t in s.pcs && s.pcs[t].AcqGive? && OwnSteps(s, t, s', n) && t in s'.pcs && s'.pcs[t].AcqGive?
    ensures s' == s
  {
  }

  /** After an abort any task that asks next becomes the initialiser. */
  lemma AbortThenAcquire(s: State, t: Task, u: Task, g: Guard, s1: State, n: nat, s2: State, m: nat)
    requires MayFinish(s, t, g) && OwnSteps(Enter(s, t, Abort(g)), t, s1, n) && t in s1.pcs && s1.pcs[t].Outside?
    requires CallEnabled(s1, u, Acquire(g))
    requires OwnSteps(Enter(s1, u, Acquire(g)), u, s2, m) && u in s2.pcs && s2.pcs[u].AcqGive?
    ensures s2.pcs[u] == AcqGive(g, 1) && (u, g) in s2.initialising
    ensures g in s2.guards && s2.guards[g] == GuardObj(false, true)
  {
    AbortUndoes(s, t, g, s1, n);
    AcquireAloneReturns(s1, u, g, s2, m);
  }
}
