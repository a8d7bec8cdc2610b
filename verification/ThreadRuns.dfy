/** What every run of a thread tree conserves, bounds and never undoes. */
module ThreadRuns {
  import opened Numbers
  import opened Options
  import opened Budget
  import opened CognitiveThread
  import opened ThreadTree

  // ---- Sums over the tree ------------------------------------------------------------

  datatype Measure =
    | Headroom(r: Resource) | Worked(r: Resource) | Used(r: Resource) | Ceiling(r: Resource) | Admissions

  function Eval(m: Measure, t: ThreadState): real {
    match m
    case Headroom(r) => Remaining(t.slice, r)
    case Worked(r) => t.slice.worked.Get(r)
    case Used(r) => t.slice.used.Get(r)
    case Ceiling(r) => t.slice.max.Get(r)
    case Admissions => |t.admitted| as real
  }

  function Sum(nodes: seq<ThreadState>, m: Measure): real {
    if nodes == [] then 0.0 else Sum(nodes[..|nodes| - 1], m) + Eval(m, nodes[|nodes| - 1])
  }

  lemma {:induction false} SumLinear(nodes: seq<ThreadState>, r: Resource)
    ensures Sum(nodes, Headroom(r)) + Sum(nodes, Used(r)) == Sum(nodes, Ceiling(r))
  {
    if nodes != [] {
      SumLinear(nodes[..|nodes| - 1], r);
    }
  }

  lemma {:induction false} SumPut(nodes: seq<ThreadState>, i: nat, t: ThreadState, m: Measure)
    requires i < |nodes|
    ensures Sum(nodes[i := t], m) == Sum(nodes, m) - Eval(m, nodes[i]) + Eval(m, t)
  {
    var n := |nodes| - 1;
    if i < n {
      SumPut(nodes[..n], i, t, m);
      assert nodes[i := t][..n] == nodes[..n][i := t];
    } else {
      assert nodes[i := t][..n] == nodes[..n];
    }
  }

  lemma SumGrow(w: World, i: nat, t: ThreadState, child: ThreadState, m: Measure)
    requires i < |w.nodes|
    ensures Sum(Grow(w, i, t, child).nodes, m) == Sum(w.nodes, m) - Eval(m, w.nodes[i]) + Eval(m, t) + Eval(m, child)
  {
    SumPut(w.nodes, i, t, m);
    assert Grow(w, i, t, child).nodes[..|w.nodes|] == w.nodes[i := t];
  }

  lemma {:induction false} SumBelow(nodes: seq<ThreadState>, a: Measure, b: Measure)
    requires forall i :: 0 <= i < |nodes| ==> Eval(a, nodes[i]) <= Eval(b, nodes[i])
    ensures Sum(nodes, a) <= Sum(nodes, b)
  {
    if nodes != [] {
      SumBelow(nodes[..|nodes| - 1], a, b);
    }
  }

  lemma {:induction false} SumNonNegative(nodes: seq<ThreadState>, m: Measure)
    requires forall i :: 0 <= i < |nodes| ==> Eval(m, nodes[i]) >= 0.0
    ensures Sum(nodes, m) >= 0.0
  {
    if nodes != [] {
      SumNonNegative(nodes[..|nodes| - 1], m);
    }
  }

  // ---- Conservation --------------------------------------------------------------------

  /** Child ceilings among the first `m` nodes, summed over the first `n` possible parents. */
  ghost function Handed(w: World, r: Resource, n: nat, m: nat): real
    requires |w.parents| == |w.nodes| && m <= |w.nodes|
  {
    if n == 0 then 0.0 else Handed(w, r, n - 1, m) + ChildSum(w, n - 1, r, m)
  }

  /** Node `m`'s ceiling is counted once, under its one parent. */
  lemma {:induction false} HandedOnce(w: World, r: Resource, n: nat, m: nat)
    requires |w.parents| == |w.nodes| && 1 <= m < |w.nodes|
    ensures Handed(w, r, n, m + 1)
         == Handed(w, r, n, m) + (if w.parents[m] < n then w.nodes[m].slice.max.Get(r) else 0.0)
  {
    if n > 0 {
      HandedOnce(w, r, n - 1, m);
    }
  }

  lemma {:induction false} HandedNothing(w: World, r: Resource, n: nat, m: nat)
    requires |w.parents| == |w.nodes| && m <= |w.nodes| && m <= 1
    ensures Handed(w, r, n, m) == 0.0
  {
    if n > 0 {
      HandedNothing(w, r, n - 1, m);
    }
  }

  /** Everything handed to children is every ceiling but the origin's. */
  lemma {:induction false} HandedIsCeilings(w: World, r: Resource, m: nat)
    requires Shape(w) && 1 <= m <= |w.nodes|
    ensures Handed(w, r, |w.nodes|, m) + w.nodes[0].slice.max.Get(r) == Sum(w.nodes[..m], Ceiling(r))
  {
    if m == 1 {
      HandedNothing(w, r, |w.nodes|, 1);
      assert w.nodes[..1] == [w.nodes[0]];
      assert w.nodes[..1][..0] == [];
    } else {
      HandedIsCeilings(w, r, m - 1);
      HandedOnce(w, r, |w.nodes|, m - 1);
      assert w.nodes[..m][..m - 1] == w.nodes[..m - 1];
    }
  }

  lemma {:induction false} UsedIsWorkedPlusHanded(w: World, r: Resource, n: nat)
    requires Inv(w) && n <= |w.nodes|
    ensures Sum(w.nodes[..n], Used(r)) == Sum(w.nodes[..n], Worked(r)) + Handed(w, r, n, |w.nodes|)
  {
    if n > 0 {
      UsedIsWorkedPlusHanded(w, r, n - 1);
      assert Balanced(w, n - 1);
      assert w.nodes[..n][..n - 1] == w.nodes[..n - 1];
    }
  }

  /** The law of the whole tree, in one world: unspent plus worked is the origin's ceiling. */
  ghost predicate Conserved(w: World, r: Resource)
    requires |w.nodes| > 0
  {
    Sum(w.nodes, Headroom(r)) + Sum(w.nodes, Worked(r)) == w.nodes[0].slice.max.Get(r)
  }

  lemma InvConserves(w: World, r: Resource)
    requires Inv(w)
    ensures Conserved(w, r)
  {
    var n := |w.nodes|;
    assert w.nodes[..n] == w.nodes;
    HandedIsCeilings(w, r, n);
    UsedIsWorkedPlusHanded(w, r, n);
    SumLinear(w.nodes, r);
  }

  /**
   * Conservation over whole runs.  From one fresh slice, after any sequence of well-formed
   * operations, in every dimension: what all slices have left plus what work has spent is the
   * origin's ceiling, no slice is overspent, and each slice's spending is its own work plus
   * exactly its children's ceilings.
   */
  lemma Conservation(w: World, ops: seq<Op>, r: Resource)
    requires Origin(w) && AllWellFormed(ops)
    ensures var v := Run(w, ops);
            && Inv(v) && Conserved(v, r)
            && v.nodes[0].slice.max == w.nodes[0].slice.max
            && forall i :: 0 <= i < |v.nodes| ==> Sound(v.nodes[i].slice) && Balanced(v, i)
  {
    OriginInv(w);
    RunInv(w, ops);
    RunHistory(w, ops);
    InvConserves(Run(w, ops), r);
  }

  /**
   * The message bound: over any run, across the whole tree, the number of admitted messages
   * is at most the origin's cycle ceiling; every mailbox stays within its capacity, and what
   * was received is a prefix of what was admitted, in order.
   */
  lemma MessageBound(w: World, ops: seq<Op>)
    requires Origin(w) && AllWellFormed(ops)
    ensures var v := Run(w, ops);
            && Sum(v.nodes, Admissions) <= w.nodes[0].slice.max.cycles
            && forall i :: 0 <= i < |v.nodes| ==>
                 && |v.nodes[i].mailbox| <= v.nodes[i].capacity
                 && v.nodes[i].received <= v.nodes[i].admitted
                 && v.nodes[i].mailbox == v.nodes[i].admitted[|v.nodes[i].received|..]
  {
    Conservation(w, ops, Cycles);
    AdmissionsArePaid(Run(w, ops));
    assert w.nodes[0].slice.max.cycles == w.nodes[0].slice.max.Get(Cycles);
  }

  lemma AdmissionsArePaid(v: World)
    requires Inv(v)
    ensures Sum(v.nodes, Admissions) <= Sum(v.nodes, Worked(Cycles))
    ensures Sum(v.nodes, Headroom(Cycles)) >= 0.0
    ensures forall i :: 0 <= i < |v.nodes| ==>
              && |v.nodes[i].mailbox| <= v.nodes[i].capacity
              && v.nodes[i].received <= v.nodes[i].admitted
              && v.nodes[i].mailbox == v.nodes[i].admitted[|v.nodes[i].received|..]
  {
    forall i | 0 <= i < |v.nodes|
      ensures NodeOk(v.nodes[i]) && Eval(Admissions, v.nodes[i]) <= Eval(Worked(Cycles), v.nodes[i])
      ensures Eval(Headroom(Cycles), v.nodes[i]) >= 0.0
    {
      assert v.nodes[i].slice.used.Get(Cycles) <= v.nodes[i].slice.max.Get(Cycles);
    }
    SumBelow(v.nodes, Admissions, Worked(Cycles));
    SumNonNegative(v.nodes, Headroom(Cycles));
  }

  /** Some of the origin's ceiling is gone: neither unspent anywhere nor worked off. */
  ghost predicate Leaks(w: World, r: Resource)
    requires |w.nodes| > 0
  {
    Sum(w.nodes, Headroom(r)) + Sum(w.nodes, Worked(r)) < w.nodes[0].slice.max.Get(r)
  }

  /**
   * Without the schema's sign rule: a spawn conserves a dimension exactly when the request does
   * not ask for a negative amount of it; otherwise budget is lost.
   */
  lemma SpawnConservesIff(w: World, i: nat, c: string, req: Request, r: Resource)
    requires Inv(w) && i < |w.nodes|
    ensures Conserved(Step(w, SpawnChild(i, c, req)), r) <==> req.Get(r).GetOr(0.0) >= 0.0
    ensures req.Get(r).GetOr(0.0) < 0.0 ==> Leaks(Step(w, SpawnChild(i, c, req)), r)
  {
    var t := w.nodes[i];
    SpawnShift(t, c, req, r);
    GrownSums(w, i, AfterSpawn(t, c, req), SpawnedChild(t, c, req), r);
  }

  /** How much more, with a new child, is unspent or worked off. */
  function Shift(t: ThreadState, after: ThreadState, child: ThreadState, r: Resource): real {
    Eval(Headroom(r), after) - Eval(Headroom(r), t) + Eval(Headroom(r), child)
    + Eval(Worked(r), after) - Eval(Worked(r), t) + Eval(Worked(r), child)
  }

  lemma SpawnShift(t: ThreadState, c: string, req: Request, r: Resource)
    requires NodeOk(t)
    ensures var after := AfterSpawn(t, c, req);
            && after.slice.max == t.slice.max
            && Tips(Shift(t, after, SpawnedChild(t, c, req), r), req, r)
  {
    InheritanceBound(t.slice, req, Shares(Unspent(t.slice), |t.children| + 2), r);
    assert 0.0 <= t.slice.used.Get(r) <= t.slice.max.Get(r);
    assert SpawnedChild(t, c, req).slice.max == Granted(t, req);
  }

  /** Only a negative request moves the balance, and then downwards. */
  predicate Tips(shift: real, req: Request, r: Resource) {
    if req.Get(r).GetOr(0.0) >= 0.0 then shift == 0.0 else shift < 0.0
  }

  /** The same for the pool, whose refused spawns change nothing. */
  lemma PoolSpawnConservesIff(w: World, c: string, req: Request, r: Resource)
    requires Inv(w)
    ensures var admitted := c !in w.pool && |w.pool| < w.maxThreads;
            && (Conserved(Step(w, PoolSpawn(c, req)), r) <==> !admitted || req.Get(r).GetOr(0.0) >= 0.0)
            && (admitted && req.Get(r).GetOr(0.0) < 0.0 ==> Leaks(Step(w, PoolSpawn(c, req)), r))
  {
    var root := w.nodes[0];
    InvConserves(w, r);
    PoolSpawnShift(root, c, req, r);
    GrownSums(w, 0, root.(slice := AfterPoolSpawn(root.slice, req)), PoolChild(root.slice, c, req), r);
  }

  lemma PoolSpawnShift(root: ThreadState, c: string, req: Request, r: Resource)
    requires NodeOk(root)
    ensures var after := root.(slice := AfterPoolSpawn(root.slice, req));
            && after.slice.max == root.slice.max
            && Tips(Shift(root, after, PoolChild(root.slice, c, req), r), req, r)
  {
    InheritanceBound(root.slice, req, Exactly(Unspent(root.slice)), r);
    assert 0.0 <= root.slice.used.Get(r) <= root.slice.max.Get(r);
    assert PoolChild(root.slice, c, req).slice.max == PoolGranted(root.slice, req);
  }

  /** What a new child does to the balance of one dimension. */
  lemma GrownSums(w: World, i: nat, t: ThreadState, child: ThreadState, r: Resource)
    requires Inv(w) && i < |w.nodes| && t.slice.max == w.nodes[i].slice.max
    ensures var v := Grow(w, i, t, child);
            && (Conserved(v, r) <==> Shift(w.nodes[i], t, child, r) == 0.0)
            && (Leaks(v, r) <==> Shift(w.nodes[i], t, child, r) < 0.0)
  {
    InvConserves(w, r);
    SumGrow(w, i, t, child, Headroom(r));
    SumGrow(w, i, t, child, Worked(r));
  }

  // ---- History and exhaustion --------------------------------------------------------------

  ghost predicate NodeHistory(t: ThreadState, u: ThreadState) {
    && Later(t.slice, u.slice) && t.admitted <= u.admitted && t.received <= u.received
    && t.capacity == u.capacity
  }

  ghost predicate History(w: World, v: World) {
    && |w.nodes| <= |v.nodes| && w.clock <= v.clock && (w.aborted ==> v.aborted)
    && forall i :: 0 <= i < |w.nodes| ==>
         && NodeHistory(w.nodes[i], v.nodes[i])
         && (Exhausted(w.nodes[i].slice, w.clock, w.aborted) ==>
               && Exhausted(v.nodes[i].slice, v.clock, v.aborted)
               && w.nodes[i].admitted == v.nodes[i].admitted)
  }

  /** Later spending, a later clock and a later signal never lift an exhaustion. */
  lemma ExhaustionIsStable(a: Slice, b: Slice, clock: real, aborted: bool, clock': real, aborted': bool)
    requires Later(a, b) && clock <= clock' && (aborted ==> aborted')
    requires Exhausted(a, clock, aborted)
    ensures Exhausted(b, clock', aborted')
  {
    if CapacityExhausted(a) {
      var r :| r in ALL_RESOURCES && Remaining(a, r) <= 0.0;
      assert Remaining(b, r) <= 0.0;
    }
  }

  lemma LocalHistory(w: World, op: Op)
    requires Local(op) && InRange(w, op) && WellFormed(op) && NodeOk(w.nodes[op.i])
    ensures NodeHistory(w.nodes[op.i], LocalResult(w, op))
    ensures Exhausted(w.nodes[op.i].slice, w.clock, w.aborted) ==>
              LocalResult(w, op).admitted == w.nodes[op.i].admitted
  {
    var t := w.nodes[op.i];
    match op
    case Send(_, m) => WorkKeeps(t.slice, Cycles, 1.0);
    case BeginRun(_) => WorkKeeps(t.slice, Cycles, 1.0);
    case Consume(_, r, amount) => WorkKeeps(t.slice, r, amount);
    case _ =>
  }

  lemma GrantHistory(t: ThreadState, requested: Request, defaults: Request)
    requires NodeOk(t)
    ensures Later(t.slice, ChargeAll(t.slice, Resolve(Unspent(t.slice), requested, defaults)))
  {
    InheritanceBound(t.slice, requested, defaults, Cycles);
  }

  lemma PutHistory(w: World, v: World, i: nat)
    requires i < |w.nodes| <= |v.nodes| && w.clock <= v.clock && (w.aborted ==> v.aborted)
    requires forall k :: 0 <= k < |w.nodes| && k != i ==> v.nodes[k] == w.nodes[k]
    requires NodeHistory(w.nodes[i], v.nodes[i])
    requires Exhausted(w.nodes[i].slice, w.clock, w.aborted) ==> v.nodes[i].admitted == w.nodes[i].admitted
    ensures History(w, v)
  {
    forall k | 0 <= k < |w.nodes|
      ensures NodeHistory(w.nodes[k], v.nodes[k])
      ensures Exhausted(w.nodes[k].slice, w.clock, w.aborted) ==>
                && Exhausted(v.nodes[k].slice, v.clock, v.aborted)
                && w.nodes[k].admitted == v.nodes[k].admitted
    {
      if Exhausted(w.nodes[k].slice, w.clock, w.aborted) {
        ExhaustionIsStable(w.nodes[k].slice, v.nodes[k].slice, w.clock, w.aborted, v.clock, v.aborted);
      }
    }
  }

  lemma StepHistory(w: World, op: Op)
    requires Inv(w) && WellFormed(op)
    ensures History(w, Step(w, op))
  {
    if !InRange(w, op) {
      QuietHistory(w, w);
    } else {
      match op
      case SpawnChild(_, _, _) => GrowthHistory(w, op);
      case PoolSpawn(_, _) => GrowthHistory(w, op);
      case PoolKill(c) => PutHistory(w, Step(w, op), w.pool[c]);
      case Tick(_) => QuietHistory(w, Step(w, op));
      case Abort => QuietHistory(w, Step(w, op));
      case _ => LocalStepHistory(w, op);
    }
  }

  /** A step that leaves the nodes alone. */
  lemma QuietHistory(w: World, v: World)
    requires |w.nodes| > 0 && v.nodes == w.nodes && w.clock <= v.clock && (w.aborted ==> v.aborted)
    ensures History(w, v)
  {
    PutHistory(w, v, 0);
  }

  lemma LocalStepHistory(w: World, op: Op)
    requires Inv(w) && WellFormed(op) && Local(op) && InRange(w, op)
    ensures History(w, Step(w, op))
  {
    LocalHistory(w, op);
    PutHistory(w, Step(w, op), op.i);
  }

  lemma GrowthHistory(w: World, op: Op)
    requires Inv(w) && InRange(w, op) && (op.SpawnChild? || op.PoolSpawn?)
    ensures History(w, Step(w, op))
  {
    match op
    case SpawnChild(i, c, req) =>
      GrantHistory(w.nodes[i], req, Shares(Unspent(w.nodes[i].slice), |w.nodes[i].children| + 2));
      PutHistory(w, Step(w, op), i);
    case PoolSpawn(c, req) =>
      GrantHistory(w.nodes[0], req, Exactly(Unspent(w.nodes[0].slice)));
      PutHistory(w, Step(w, op), 0);
  }

  /**
   * Over any run: counters and histories only grow, ceilings never move, and a node that is
   * exhausted once, for whatever reason, stays exhausted and never admits a message again.
   */
  lemma {:induction false} RunHistory(w: World, ops: seq<Op>)
    requires Inv(w) && AllWellFormed(ops)
    ensures History(w, Run(w, ops))
  {
    if ops != [] {
      var u := Run(w, ops[..|ops| - 1]);
      RunInv(w, ops[..|ops| - 1]);
      RunHistory(w, ops[..|ops| - 1]);
      StepHistory(u, ops[|ops| - 1]);
    } else {
      forall i | 0 <= i < |w.nodes| ensures NodeHistory(w.nodes[i], w.nodes[i]) {}
    }
  }

  /** A send to a node exhausted at some earlier moment changes nothing at all, ever after. */
  lemma ExhaustedForEver(w: World, ops: seq<Op>, i: nat, m: Message)
    requires Inv(w) && AllWellFormed(ops) && i < |w.nodes|
    requires Exhausted(w.nodes[i].slice, w.clock, w.aborted)
    ensures var v := Run(w, ops);
            && i < |v.nodes| && Step(v, Send(i, m)) == v
            && SendVerdict(v.nodes[i], v.clock, v.aborted) == BudgetExhausted
  {
    RunHistory(w, ops);
    var v := Run(w, ops);
    assert v.nodes[i := v.nodes[i]] == v.nodes;
  }

  /** A dimension's own reason, once read, tells the truth now and for ever. */
  lemma ReasonsAreTruthful(w: World, ops: seq<Op>, i: nat, r: Resource)
    requires Inv(w) && AllWellFormed(ops) && i < |w.nodes|
    requires w.nodes[i].slice.reason == Some(ReasonOf(r))
    ensures var v := Run(w, ops);
            i < |v.nodes| && Remaining(v.nodes[i].slice, r) <= 0.0 && v.nodes[i].slice.reason.Some?
  {
    RunHistory(w, ops);
    assert NodeOk(w.nodes[i]);
    assert w.nodes[i].slice.used.Get(r) <= Run(w, ops).nodes[i].slice.used.Get(r);
  }

  // ---- Integer budgets -----------------------------------------------------------------------

  ghost predicate Whole(x: real) { x == x.Floor as real }

  ghost predicate WholeOp(op: Op) {
    match op
    case SpawnChild(_, _, req) => Whole(req.cycles.GetOr(0.0))
    case PoolSpawn(_, req) => Whole(req.cycles.GetOr(0.0))
    case Consume(_, r, amount) => r == Cycles ==> Whole(amount)
    case _ => true
  }

  ghost predicate WholeNode(t: ThreadState) {
    Whole(t.slice.used.cycles) && Whole(t.slice.max.cycles)
  }

  lemma WholeClosed(a: real, b: real)
    requires Whole(a) && Whole(b)
    ensures Whole(a + b) && Whole(a - b) && Whole(Max(a, b)) && Whole(Min(a, b))
  {
    IntIsWhole(a.Floor + b.Floor);
    IntIsWhole(a.Floor - b.Floor);
  }

  lemma IntIsWhole(n: int)
    ensures Whole(n as real)
  {
  }

  lemma PositiveWholeIsOne(x: real)
    requires Whole(x) && x > 0.0
    ensures x >= 1.0
  {
    assert x.Floor > 0;
  }

  lemma GrantIsWhole(t: ThreadState, requested: Request, defaults: Request)
    requires WholeNode(t) && NodeOk(t)
    requires Whole(requested.cycles.GetOr(0.0)) && Whole(defaults.cycles.GetOr(0.0))
    ensures var a := Resolve(Unspent(t.slice), requested, defaults);
            Whole(a.cycles) && Whole(ChargeAll(t.slice, a).used.cycles) && ChargeAll(t.slice, a).max == t.slice.max
  {
    var a := Resolve(Unspent(t.slice), requested, defaults);
    WholeClosed(t.slice.max.cycles, t.slice.used.cycles);
    WholeClosed(t.slice.max.cycles - t.slice.used.cycles, 0.0);
    WholeClosed(requested.cycles.GetOr(defaults.cycles.GetOr(0.0)), Unspent(t.slice).cycles);
    forall q: Resource ensures a.Get(q) <= Max(Remaining(t.slice, q), 0.0) {}
    ChargeAllExact(t.slice, a);
    WholeClosed(a.cycles, 0.0);
    WholeClosed(t.slice.used.cycles, Max(a.cycles, 0.0));
    assert ChargeAll(t.slice, a).used.Get(Cycles) == ChargeAll(t.slice, a).used.cycles;
  }

  lemma PerPartIsWhole(whole: real, parts: nat)
    requires parts > 0
    ensures Whole(PerPart(whole, parts))
  {
  }

  lemma WorkIsWhole(t: ThreadState, r: Resource, amount: real)
    requires WholeNode(t) && (r == Cycles ==> Whole(amount))
    ensures Whole(Work(t.slice, r, amount).used.cycles) && Work(t.slice, r, amount).max == t.slice.max
  {
    if r == Cycles {
      WholeClosed(t.slice.used.cycles, amount);
    }
  }

  ghost predicate WholeWorld(w: World) {
    forall i :: 0 <= i < |w.nodes| ==> WholeNode(w.nodes[i])
  }

  lemma PutIsWhole(w: World, i: nat, t: ThreadState)
    requires WholeWorld(w) && i < |w.nodes| && WholeNode(t)
    ensures WholeWorld(Put(w, i, t))
  {
  }

  lemma GrowthIsWhole(w: World, i: nat, t: ThreadState, child: ThreadState)
    requires WholeWorld(w) && i < |w.nodes| && WholeNode(t) && WholeNode(child)
    ensures WholeWorld(Grow(w, i, t, child))
  {
  }

  lemma SpawnIsWhole(w: World, i: nat, c: string, req: Request)
    requires Inv(w) && WholeWorld(w) && i < |w.nodes| && Whole(req.cycles.GetOr(0.0))
    ensures WholeWorld(Step(w, SpawnChild(i, c, req)))
  {
    var t := w.nodes[i];
    PerPartIsWhole(Unspent(t.slice).cycles, |t.children| + 2);
    GrantIsWhole(t, req, Shares(Unspent(t.slice), |t.children| + 2));
    GrowthIsWhole(w, i, AfterSpawn(t, c, req), SpawnedChild(t, c, req));
  }

  lemma PoolSpawnIsWhole(w: World, c: string, req: Request)
    requires Inv(w) && WholeWorld(w) && Whole(req.cycles.GetOr(0.0))
    ensures WholeWorld(PoolSpawned(w, c, req))
  {
    var root := w.nodes[0];
    WholeClosed(root.slice.max.cycles, root.slice.used.cycles);
    WholeClosed(root.slice.max.cycles - root.slice.used.cycles, 0.0);
    GrantIsWhole(root, req, Exactly(Unspent(root.slice)));
    GrowthIsWhole(w, 0, root.(slice := AfterPoolSpawn(root.slice, req)), PoolChild(root.slice, c, req));
  }

  lemma LocalIsWhole(w: World, op: Op)
    requires WholeWorld(w) && WholeOp(op) && Local(op) && InRange(w, op)
    ensures WholeNode(LocalResult(w, op))
  {
    match op
    case Send(i, m) => WorkIsWhole(w.nodes[i], Cycles, 1.0);
    case BeginRun(i) => WorkIsWhole(w.nodes[i], Cycles, 1.0);
    case Consume(i, r, amount) => WorkIsWhole(w.nodes[i], r, amount);
    case _ =>
  }

  lemma StepIsWhole(w: World, op: Op)
    requires Inv(w) && WholeOp(op) && WholeWorld(w)
    ensures WholeWorld(Step(w, op))
  {
    if InRange(w, op) {
      match op
      case SpawnChild(i, c, req) => SpawnIsWhole(w, i, c, req);
      case PoolSpawn(c, req) => PoolSpawnIsWhole(w, c, req);
      case PoolKill(c) => PutIsWhole(w, w.pool[c], ThreadTree.Killed(w.nodes[w.pool[c]], DEFAULT_KILL_REASON));
      case Tick(_) =>
      case Abort =>
      case _ =>
        LocalIsWhole(w, op);
        PutIsWhole(w, op.i, LocalResult(w, op));
    }
  }

  lemma {:induction false} RunIsWhole(w: World, ops: seq<Op>)
    requires Inv(w) && AllWellFormed(ops) && WholeWorld(w)
    requires forall k :: 0 <= k < |ops| ==> WholeOp(ops[k])
    ensures WholeWorld(Run(w, ops))
  {
    if ops != [] {
      RunInv(w, ops[..|ops| - 1]);
      RunIsWhole(w, ops[..|ops| - 1]);
      StepIsWhole(Run(w, ops[..|ops| - 1]), ops[|ops| - 1]);
    }
  }

  /** No thread can be refused for want of one cycle without being exhausted. */
  ghost predicate NoSecondRefusal(w: World) {
    forall i :: 0 <= i < |w.nodes| ==>
      Exhausted(w.nodes[i].slice, w.clock, w.aborted) || Affords(w.nodes[i].slice, Cycles, 1.0)
  }

  /** With whole cycle amounts, no run ever reaches the second budget refusal in `send`. */
  lemma SecondRefusalUnreachable(w: World, ops: seq<Op>)
    requires Origin(w) && Whole(w.nodes[0].slice.max.cycles) && AllWellFormed(ops)
    requires forall k :: 0 <= k < |ops| ==> WholeOp(ops[k])
    ensures NoSecondRefusal(Run(w, ops))
  {
    OriginInv(w);
    RunIsWhole(w, ops);
    WholeWorldAffordsOne(Run(w, ops));
  }

  lemma WholeWorldAffordsOne(w: World)
    requires WholeWorld(w)
    ensures NoSecondRefusal(w)
  {
    forall i | 0 <= i < |w.nodes|
      ensures CapacityExhausted(w.nodes[i].slice) || Affords(w.nodes[i].slice, Cycles, 1.0)
    {
      assert WholeNode(w.nodes[i]);
      WholeSliceAffordsOne(w.nodes[i].slice);
    }
  }

  lemma WholeSliceAffordsOne(s: Slice)
    requires Whole(s.max.cycles) && Whole(s.used.cycles)
    ensures CapacityExhausted(s) || Affords(s, Cycles, 1.0)
  {
    WholeClosed(s.max.cycles, s.used.cycles);
    if Remaining(s, Cycles) > 0.0 {
      PositiveWholeIsOne(s.max.cycles - s.used.cycles);
    } else {
      AllResources(Cycles);
    }
  }
}
