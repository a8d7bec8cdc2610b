/**
 * What a run says about one thread of a tree: whether joining it fails, what its status is, and
 * when no thread of the tree takes messages any more.
 */
module ThreadLifecycle {
  import opened Budget
  import opened CognitiveThread
  import opened Options
  import opened ThreadTree

  // ---- Failing ---------------------------------------------------------------------------------

  /** The operation makes node `i` fail: its work throws, or somebody kills it, itself or by the pool. */
  predicate Fails(w: World, op: Op, i: nat) {
    match op
    case EndRun(j, outcome) => j == i && outcome.Threw?
    case Kill(j, _) => j == i
    case PoolKill(c) => c in w.pool && w.pool[c] == i
    case _ => false
  }

  lemma StepFails(w: World, op: Op, i: nat)
    requires i < |w.nodes|
    ensures i < |Step(w, op).nodes|
    ensures Step(w, op).nodes[i].error.Some? <==> w.nodes[i].error.Some? || Fails(w, op, i)
  {
    if Local(op) && InRange(w, op) {
      LocalFails(w, op);
    }
  }

  lemma LocalFails(w: World, op: Op)
    requires Local(op) && InRange(w, op)
    ensures LocalResult(w, op).error.Some? <==> w.nodes[op.i].error.Some? || Fails(w, op, op.i)
  {
  }

  /**
   * An error is never taken back: a thread's join throws if and only if at some time its work
   * threw or it was killed, even if it was run again since and has completed.
   */
  lemma {:induction false} JoinThrowsIff(w: World, ops: seq<Op>, i: nat)
    requires i < |w.nodes| && w.nodes[i].error.None?
    ensures i < |Run(w, ops).nodes|
    ensures Run(w, ops).nodes[i].error.Some? <==> exists k: nat :: FailsAt(w, ops, i, k)
  {
    if ops != [] {
      var n := |ops| - 1;
      JoinThrowsIff(w, ops[..n], i);
      StepFails(Run(w, ops[..n]), ops[n], i);
      forall k: nat | FailsAt(w, ops[..n], i, k) ensures FailsAt(w, ops, i, k) {
        assert ops[..n][..k] == ops[..k];
      }
      forall k: nat | FailsAt(w, ops, i, k) ensures k == n || FailsAt(w, ops[..n], i, k) {
        assert k < n ==> ops[..n][..k] == ops[..k];
      }
      assert Fails(Run(w, ops[..n]), ops[n], i) ==> FailsAt(w, ops, i, n);
    }
  }

  ghost predicate FailsAt(w: World, ops: seq<Op>, i: nat, k: nat) {
    k < |ops| && Fails(Run(w, ops[..k]), ops[k], i)
  }

  /** A thread killed while its work was going on ends up completed, and its join throws all the same. */
  lemma KilledAndCompleted(w: World, i: nat, why: string, value: int)
    requires i < |w.nodes|
    ensures var v := Step(Step(w, Kill(i, why)), EndRun(i, Returned(value)));
            && v.nodes[i].status == Status.Completed && v.nodes[i].result == Some(value)
            && v.nodes[i].error == Some(ThreadKilled(why))
  {
  }

  /** What starting, ending and killing leave on record, each on its thread alone. */
  lemma OnRecord(w: World, i: nat)
    requires i < |w.nodes|
    ensures Step(w, BeginRun(i)).nodes[i].status == Running
    ensures forall v :: var t := Step(w, EndRun(i, Returned(v))).nodes[i];
                        t.status == Status.Completed && t.result == Some(v) && t.error == w.nodes[i].error
    ensures forall e :: var t := Step(w, EndRun(i, Threw(e))).nodes[i];
                        t.status == Errored && t.error == Some(WorkThrew(e)) && t.result == w.nodes[i].result
    ensures forall why :: var t := Step(w, Kill(i, why)).nodes[i];
                          t.status == Status.Killed && t.error == Some(ThreadKilled(why)) && t.slice == w.nodes[i].slice
    ensures forall c :: c in w.pool && w.pool[c] == i ==>
              var v := Step(w, PoolKill(c));
              && v.nodes[i].status == Status.Killed && v.nodes[i].error == Some(ThreadKilled("killed"))
              && v.nodes[i].slice == w.nodes[i].slice && v.pool == w.pool - {c}
  {
  }

  /** Time passes and the signal is given for all threads at once. */
  lemma ClockAndSignal(w: World, elapsed: real)
    ensures Step(w, Tick(elapsed)) == w.(clock := w.clock + elapsed)
    ensures Step(w, Abort).aborted && Step(w, Abort).(aborted := w.aborted) == w
  {
  }

  /**
   * Work is charged in one dimension, wholly or, if there is not enough left, not at all and with
   * a reason on record; starting a run is charged like one cycle of work.
   */
  lemma WorkCharges(w: World, i: nat, r: Resource, amount: real, q: Resource)
    requires i < |w.nodes|
    ensures var (s, t) := (w.nodes[i].slice, Step(w, Op.Consume(i, r, amount)).nodes[i].slice);
            if amount <= s.max.Get(r) - s.used.Get(r) then
              && t == s.(used := t.used, worked := t.worked)
              && t.used.Get(q) == s.used.Get(q) + (if q == r then amount else 0.0)
              && t.worked.Get(q) == s.worked.Get(q) + (if q == r then amount else 0.0)
            else
              && t == s.(reason := t.reason) && t.reason.Some?
              && (t.reason == Some(Backpressure) <==> s.max.Get(r) > s.used.Get(r))
    ensures Step(w, BeginRun(i)).nodes[i] == Step(w, Op.Consume(i, Cycles, 1.0)).nodes[i].(status := Running)
  {
    ChargeMeans(w.nodes[i].slice, r, amount, q);
  }

  /** A pool takes a thread under a new name while it has room, and lets one go by its name. */
  lemma PoolAdmits(w: World, c: string, req: Request)
    requires |w.nodes| > 0
    ensures var v := Step(w, PoolSpawn(c, req));
            if c in w.pool || |w.pool| >= w.maxThreads then v == w
            else
              && |v.nodes| == |w.nodes| + 1 && v.nodes[1..|w.nodes|] == w.nodes[1..] && v.parents == w.parents + [0]
              && v.pool == w.pool[c := |w.nodes|]
              && v.nodes[|w.nodes|] == PoolChild(w.nodes[0].slice, c, req)
              && v.nodes[0] == w.nodes[0].(slice := v.nodes[0].slice)
  {
  }

  // ---- Stopping the whole tree --------------------------------------------------------------------

  /** All threads have one deadline and one signal. */
  ghost predicate OneClock(w: World, deadline: Option<real>, watches: bool) {
    forall i :: 0 <= i < |w.nodes| ==> KeepsClock(w.nodes[i].slice, deadline, watches)
  }

  predicate KeepsClock(b: Slice, deadline: Option<real>, watches: bool) {
    b.deadline == deadline && b.watchesAbort == watches
  }

  lemma StepOneClock(w: World, op: Op, deadline: Option<real>, watches: bool)
    requires OneClock(w, deadline, watches)
    ensures OneClock(Step(w, op), deadline, watches)
  {
    if InRange(w, op) {
      match op
      case SpawnChild(i, c, req) =>
        SpawnStartsAnew(w.nodes[i], c, req);
        GrowOneClock(w, i, AfterSpawn(w.nodes[i], c, req), SpawnedChild(w.nodes[i], c, req), deadline, watches);
      case PoolSpawn(c, req) =>
        var root := w.nodes[0];
        PoolSpawnStartsAnew(root.slice, c, req);
        GrowOneClock(w, 0, root.(slice := AfterPoolSpawn(root.slice, req)), PoolChild(root.slice, c, req),
                     deadline, watches);
      case PoolKill(_) =>
      case Tick(_) =>
      case Abort =>
      case _ => LocalKeepsClock(w, op, deadline, watches);
    }
  }

  lemma GrowOneClock(w: World, i: nat, t: ThreadState, child: ThreadState, deadline: Option<real>, watches: bool)
    requires OneClock(w, deadline, watches) && i < |w.nodes|
    requires KeepsClock(t.slice, deadline, watches) && KeepsClock(child.slice, deadline, watches)
    ensures OneClock(Grow(w, i, t, child), deadline, watches)
  {
  }

  lemma LocalKeepsClock(w: World, op: Op, deadline: Option<real>, watches: bool)
    requires Local(op) && InRange(w, op) && KeepsClock(w.nodes[op.i].slice, deadline, watches)
    ensures KeepsClock(LocalResult(w, op).slice, deadline, watches)
  {
  }

  lemma {:induction false} RunOneClock(w: World, ops: seq<Op>, deadline: Option<real>, watches: bool)
    requires OneClock(w, deadline, watches)
    ensures OneClock(Run(w, ops), deadline, watches)
  {
    if ops != [] {
      RunOneClock(w, ops[..|ops| - 1], deadline, watches);
      StepOneClock(Run(w, ops[..|ops| - 1]), ops[|ops| - 1], deadline, watches);
    }
  }

  /** Every thread of a run has the origin's deadline and signal. */
  lemma ClockOfOrigin(w: World, ops: seq<Op>, i: nat)
    requires Origin(w) && i < |Run(w, ops).nodes|
    ensures KeepsClock(Run(w, ops).nodes[i].slice, w.nodes[0].slice.deadline, w.nodes[0].slice.watchesAbort)
  {
    RunOneClock(w, ops, w.nodes[0].slice.deadline, w.nodes[0].slice.watchesAbort);
  }

  /** Some dimension has nothing left. */
  predicate SpentSomewhere(s: Slice) {
    exists r: Resource :: s.max.Get(r) <= s.used.Get(r)
  }

  /**
   * The origin's deadline, if it is not zero, and its abort signal hold for every thread that was
   * ever spawned from it: once one has passed or the other is given, no thread takes a message.
   */
  lemma TreeStops(w: World, ops: seq<Op>, i: nat, m: Message)
    requires Origin(w) && i < |Run(w, ops).nodes|
    requires var (v, b) := (Run(w, ops), w.nodes[0].slice);
             || (b.deadline.Some? && b.deadline.value != 0.0 && b.deadline.value < v.clock)
             || (b.watchesAbort && v.aborted)
    ensures var v := Run(w, ops);
            Step(v, Send(i, m)) == v && SendVerdict(v.nodes[i], v.clock, v.aborted) == BudgetExhausted
  {
    ClockOfOrigin(w, ops, i);
    var v := Run(w, ops);
    assert v.nodes[i := v.nodes[i]] == v.nodes;
  }

  /**
   * Otherwise a message is refused for want of budget only by a slice that has recorded a reason,
   * or has a dimension spent, or less than one cycle left.
   */
  lemma TreeGoesOn(w: World, ops: seq<Op>, i: nat)
    requires Origin(w) && i < |Run(w, ops).nodes|
    requires var (v, b) := (Run(w, ops), w.nodes[0].slice);
             && (b.deadline.None? || b.deadline.value == 0.0 || v.clock <= b.deadline.value)
             && (!b.watchesAbort || !v.aborted)
    ensures var (v, s) := (Run(w, ops), Run(w, ops).nodes[i].slice);
            SendVerdict(v.nodes[i], v.clock, v.aborted) == BudgetExhausted <==>
              || s.reason.Some?
              || SpentSomewhere(s)
              || s.max.cycles < s.used.cycles + 1.0
  {
    ClockOfOrigin(w, ops, i);
    var v := Run(w, ops);
    RefusedIff(v.nodes[i], v.clock, v.aborted);
  }

  lemma RefusedIff(t: ThreadState, clock: real, aborted: bool)
    requires t.slice.deadline.None? || t.slice.deadline.value == 0.0 || clock <= t.slice.deadline.value
    requires !t.slice.watchesAbort || !aborted
    ensures SendVerdict(t, clock, aborted) == BudgetExhausted <==>
              || t.slice.reason.Some?
              || SpentSomewhere(t.slice)
              || t.slice.max.cycles < t.slice.used.cycles + 1.0
  {
    SpentIff(t.slice);
  }

  lemma SpentIff(s: Slice)
    ensures CapacityExhausted(s) <==> SpentSomewhere(s)
    ensures Affords(s, Cycles, 1.0) <==> s.max.cycles >= s.used.cycles + 1.0
  {
    forall r: Resource ensures r in ALL_RESOURCES {
      AllResources(r);
    }
    assert forall r: Resource :: s.max.Get(r) <= s.used.Get(r) <==> Remaining(s, r) <= 0.0;
  }
}
