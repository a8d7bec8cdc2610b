/**
 * Whole runs of a tree of threads grown from one slice: any interleaving of spawning,
 * sending, receiving, running, charging and killing, while the clock moves and the shared
 * abort signal may fire.
 */
module ThreadTree {
  import opened Numbers
  import opened Options
  import opened Budget
  import opened CognitiveThread

  /** Node 0 owns the origin slice; `parents[j]` is the node that spawned node `j`. */
  datatype World = World(
    nodes: seq<ThreadState>,
    parents: seq<nat>,
    pool: map<string, nat>,
    maxThreads: nat,
    clock: real,
    aborted: bool)

  datatype Op =
    | SpawnChild(i: nat, childId: string, requested: Request)
    | PoolSpawn(childId: string, requested: Request)
    | PoolKill(childId: string)
    | Send(i: nat, m: Message)
    | Receive(i: nat)
    | BeginRun(i: nat)
    | EndRun(i: nat, outcome: WorkOutcome)
    | Consume(i: nat, r: Resource, amount: real)
    | Kill(i: nat, why: string)
    | Tick(elapsed: real)
    | Abort

  function Put(w: World, i: nat, t: ThreadState): World
    requires i < |w.nodes|
  {
    w.(nodes := w.nodes[i := t])
  }

  function Grow(w: World, i: nat, t: ThreadState, child: ThreadState): World
    requires i < |w.nodes|
  {
    w.(nodes := w.nodes[i := t] + [child], parents := w.parents + [i])
  }

  predicate InRange(w: World, op: Op) {
    match op
    case SpawnChild(i, _, _) => i < |w.nodes|
    case PoolSpawn(_, _) => |w.nodes| > 0
    case PoolKill(c) => c in w.pool && w.pool[c] < |w.nodes|
    case Send(i, _) => i < |w.nodes|
    case Receive(i) => i < |w.nodes|
    case BeginRun(i) => i < |w.nodes|
    case EndRun(i, _) => i < |w.nodes|
    case Consume(i, _, _) => i < |w.nodes|
    case Kill(i, _) => i < |w.nodes|
    case Tick(_) => true
    case Abort => true
  }

  function Begun(t: ThreadState): ThreadState {
    t.(status := Running, slice := Work(t.slice, Cycles, 1.0))
  }

  function Killed(t: ThreadState, why: string): ThreadState {
    t.(status := Status.Killed, error := Some(ThreadKilled(why)))
  }

  /** The operations that charge or change a single node. */
  predicate Local(op: Op) {
    op.Send? || op.Receive? || op.BeginRun? || op.EndRun? || op.Consume? || op.Kill?
  }

  function LocalAfter(t: ThreadState, op: Op, clock: real, aborted: bool): ThreadState
    requires Local(op)
  {
    match op
    case Send(_, m) => AfterSend(t, m, clock, aborted)
    case Receive(_) => AfterReceive(t)
    case BeginRun(_) => Begun(t)
    case EndRun(_, outcome) => AfterRun(t, outcome)
    case Consume(_, r, amount) => t.(slice := Work(t.slice, r, amount))
    case Kill(_, why) => Killed(t, why)
  }

  function LocalResult(w: World, op: Op): ThreadState
    requires Local(op) && InRange(w, op)
  {
    LocalAfter(w.nodes[op.i], op, w.clock, w.aborted)
  }

  function PoolSpawned(w: World, c: string, req: Request): World
    requires |w.nodes| > 0
  {
    if c in w.pool || |w.pool| >= w.maxThreads then w else
      var root := w.nodes[0];
      Grow(w, 0, root.(slice := AfterPoolSpawn(root.slice, req)), PoolChild(root.slice, c, req))
        .(pool := w.pool[c := |w.nodes|])
  }

  function PoolKilled(w: World, c: string): World
    requires c in w.pool ==> w.pool[c] < |w.nodes|
  {
    if c !in w.pool then w
    else Put(w, w.pool[c], Killed(w.nodes[w.pool[c]], DEFAULT_KILL_REASON)).(pool := w.pool - {c})
  }

  function Step(w: World, op: Op): World {
    if !InRange(w, op) then w else
      match op
      case SpawnChild(i, c, req) =>
        Grow(w, i, AfterSpawn(w.nodes[i], c, req), SpawnedChild(w.nodes[i], c, req))
      case PoolSpawn(c, req) => PoolSpawned(w, c, req)
      case PoolKill(c) => PoolKilled(w, c)
      case Tick(elapsed) => w.(clock := w.clock + elapsed)
      case Abort => w.(aborted := true)
      case _ => Put(w, op.i, LocalResult(w, op))
  }

  function Run(w: World, ops: seq<Op>): World {
    if ops == [] then w else Step(Run(w, ops[..|ops| - 1]), ops[|ops| - 1])
  }

  /** What the schema asks of amounts (non-negative), and what time does (never goes back). */
  predicate WellFormed(op: Op) {
    match op
    case SpawnChild(_, _, req) => NonNegative(req)
    case PoolSpawn(_, req) => NonNegative(req)
    case Consume(_, _, amount) => amount >= 0.0
    case Tick(elapsed) => elapsed >= 0.0
    case _ => true
  }

  predicate NonNegative(req: Request) {
    forall r | r in ALL_RESOURCES :: req.Get(r).GetOr(0.0) >= 0.0
  }

  predicate AllWellFormed(ops: seq<Op>) {
    forall k | 0 <= k < |ops| :: WellFormed(ops[k])
  }

  /** One slice with nothing spent, no reason recorded, and an empty pool. */
  ghost predicate Origin(w: World) {
    && |w.nodes| == 1 && w.parents == [0] && w.pool == map[]
    && var t := w.nodes[0];
       && t == NewThread(t.slice, t.capacity)
       && t.slice.used == ZERO && t.slice.worked == ZERO && t.slice.reason.None?
       && forall r: Resource :: t.slice.max.Get(r) >= 0.0
  }

  // ---- The invariant ---------------------------------------------------------------

  ghost predicate NodeOk(t: ThreadState) {
    && Sound(t.slice) && Truthful(t.slice) && Fifo(t)
    && (forall r: Resource :: t.slice.worked.Get(r) >= 0.0)
    && |t.admitted| as real <= t.slice.worked.cycles
  }

  ghost predicate Shape(w: World) {
    && |w.parents| == |w.nodes| > 0
    && (forall j :: 0 < j < |w.nodes| ==> w.parents[j] < j)
    && (forall c :: c in w.pool ==> w.pool[c] < |w.nodes|)
    && |w.pool| <= w.maxThreads
  }

  /** The ceilings handed to node `i`'s children among the first `n` nodes. */
  ghost function ChildSum(w: World, i: nat, r: Resource, n: nat): real
    requires |w.parents| == |w.nodes| && n <= |w.nodes|
  {
    if n <= 1 then 0.0
    else ChildSum(w, i, r, n - 1) + (if w.parents[n - 1] == i then w.nodes[n - 1].slice.max.Get(r) else 0.0)
  }

  /** All a node has spent went into its own work or into its children's ceilings. */
  ghost predicate Balanced(w: World, i: nat)
    requires |w.parents| == |w.nodes| && i < |w.nodes|
  {
    forall r: Resource ::
      w.nodes[i].slice.used.Get(r) == w.nodes[i].slice.worked.Get(r) + ChildSum(w, i, r, |w.nodes|)
  }

  ghost predicate Inv(w: World) {
    && Shape(w)
    && forall i :: 0 <= i < |w.nodes| ==> NodeOk(w.nodes[i]) && Balanced(w, i)
  }

  lemma {:induction false} ChildSumFrame(v: World, w: World, i: nat, r: Resource, n: nat)
    requires |v.parents| == |v.nodes| && |w.parents| == |w.nodes|
    requires n <= |v.nodes| && n <= |w.nodes|
    requires forall j :: 0 <= j < n ==> v.parents[j] == w.parents[j] && v.nodes[j].slice.max == w.nodes[j].slice.max
    ensures ChildSum(v, i, r, n) == ChildSum(w, i, r, n)
  {
    if n > 1 {
      ChildSumFrame(v, w, i, r, n - 1);
    }
  }

  lemma {:induction false} ChildSumNone(w: World, i: nat, r: Resource, n: nat)
    requires |w.parents| == |w.nodes| && n <= |w.nodes|
    requires forall j :: 0 < j < n ==> w.parents[j] != i
    ensures ChildSum(w, i, r, n) == 0.0
  {
    if n > 1 {
      ChildSumNone(w, i, r, n - 1);
    }
  }

  /** Node `i` changes without touching what it owes its children. */
  lemma PutKeeps(w: World, i: nat, t: ThreadState)
    requires Inv(w) && i < |w.nodes| && NodeOk(t) && t.slice.max == w.nodes[i].slice.max
    requires forall r: Resource ::
               t.slice.used.Get(r) - t.slice.worked.Get(r)
                 == w.nodes[i].slice.used.Get(r) - w.nodes[i].slice.worked.Get(r)
    ensures Inv(Put(w, i, t))
  {
    var v := Put(w, i, t);
    forall k, r: Resource | 0 <= k < |v.nodes|
      ensures v.nodes[k].slice.used.Get(r) == v.nodes[k].slice.worked.Get(r) + ChildSum(v, k, r, |v.nodes|)
    {
      assert Balanced(w, k);
      ChildSumFrame(w, v, k, r, |w.nodes|);
    }
  }

  /** Node `i` pays the new child's ceiling, in every dimension. */
  ghost predicate PaysFor(before: ThreadState, after: ThreadState, child: ThreadState) {
    && after.slice.max == before.slice.max
    && child.slice.used == ZERO && child.slice.worked == ZERO
    && forall r: Resource ::
         after.slice.used.Get(r) - after.slice.worked.Get(r)
         == before.slice.used.Get(r) - before.slice.worked.Get(r) + child.slice.max.Get(r)
  }

  lemma GrowBalanced(w: World, i: nat, t: ThreadState, child: ThreadState, k: nat, r: Resource)
    requires Inv(w) && i < |w.nodes| && k <= |w.nodes| && PaysFor(w.nodes[i], t, child)
    ensures var v := Grow(w, i, t, child);
            v.nodes[k].slice.used.Get(r) == v.nodes[k].slice.worked.Get(r) + ChildSum(v, k, r, |v.nodes|)
  {
    var v := Grow(w, i, t, child);
    if k < |w.nodes| {
      assert Balanced(w, k);
      ChildSumFrame(w, v, k, r, |w.nodes|);
    } else {
      ChildSumNone(v, k, r, |v.nodes|);
    }
  }

  lemma GrowKeeps(w: World, i: nat, t: ThreadState, child: ThreadState)
    requires Inv(w) && i < |w.nodes| && NodeOk(t) && NodeOk(child) && PaysFor(w.nodes[i], t, child)
    ensures Inv(Grow(w, i, t, child))
  {
    var v := Grow(w, i, t, child);
    forall k | 0 <= k < |v.nodes| ensures Balanced(v, k) && NodeOk(v.nodes[k]) {
      forall r: Resource
        ensures v.nodes[k].slice.used.Get(r) == v.nodes[k].slice.worked.Get(r) + ChildSum(v, k, r, |v.nodes|)
      {
        GrowBalanced(w, i, t, child, k, r);
      }
    }
  }

  lemma NewChildOk(slice: Slice)
    requires slice.used == ZERO && slice.worked == ZERO && slice.reason.None?
    requires forall r: Resource :: slice.max.Get(r) >= 0.0
    ensures NodeOk(NewThread(slice, DEFAULT_MAILBOX_CAPACITY))
  {
  }

  /** Charging a resolved non-negative allocation moves exactly that allocation out of the parent. */
  lemma GrantMoves(t: ThreadState, requested: Request, defaults: Request)
    requires NodeOk(t)
    requires forall r: Resource :: requested.Get(r).GetOr(defaults.Get(r).GetOr(0.0)) >= 0.0
    ensures var a := Resolve(Unspent(t.slice), requested, defaults);
            var s := ChargeAll(t.slice, a);
            && NodeOk(t.(slice := s)) && s.max == t.slice.max && s.worked == t.slice.worked
            && forall r: Resource :: a.Get(r) >= 0.0 && s.used.Get(r) == t.slice.used.Get(r) + a.Get(r)
  {
    var a := Resolve(Unspent(t.slice), requested, defaults);
    var s := ChargeAll(t.slice, a);
    forall r: Resource
      ensures a.Get(r) >= 0.0 && a.Get(r) <= Max(Remaining(t.slice, r), 0.0)
    {
      assert 0.0 <= t.slice.used.Get(r) <= t.slice.max.Get(r);
      assert requested.Get(r).GetOr(defaults.Get(r).GetOr(0.0)) >= 0.0;
    }
    ChargeAllExact(t.slice, a);
    InheritanceBound(t.slice, requested, defaults, Cycles);
    assert Truthful(s) by {
      forall r: Resource ensures s.reason == Some(ReasonOf(r)) ==> Remaining(s, r) <= 0.0 {
        assert Remaining(s, r) <= Remaining(t.slice, r);
      }
    }
  }

  lemma NonNegativeEverywhere(req: Request, r: Resource)
    requires NonNegative(req)
    ensures req.Get(r).GetOr(0.0) >= 0.0
  {
    AllResources(r);
  }

  lemma SpawnKeeps(w: World, i: nat, c: string, req: Request)
    requires Inv(w) && i < |w.nodes| && NonNegative(req)
    ensures Inv(Grow(w, i, AfterSpawn(w.nodes[i], c, req), SpawnedChild(w.nodes[i], c, req)))
  {
    var t := w.nodes[i];
    var defaults := Shares(Unspent(t.slice), |t.children| + 2);
    forall r: Resource ensures req.Get(r).GetOr(defaults.Get(r).GetOr(0.0)) >= 0.0 {
      NonNegativeEverywhere(req, r);
    }
    GrantMoves(t, req, defaults);
    var child := SpawnedChild(t, c, req);
    assert child.slice.max == Granted(t, req);
    NewChildOk(child.slice);
    GrowKeeps(w, i, AfterSpawn(t, c, req), child);
  }

  lemma PoolSpawnKeeps(w: World, c: string, req: Request)
    requires Inv(w) && NonNegative(req)
    ensures var root := w.nodes[0];
            Inv(Grow(w, 0, root.(slice := AfterPoolSpawn(root.slice, req)), PoolChild(root.slice, c, req)))
  {
    var root := w.nodes[0];
    var defaults := Exactly(Unspent(root.slice));
    forall r: Resource ensures req.Get(r).GetOr(defaults.Get(r).GetOr(0.0)) >= 0.0 {
      NonNegativeEverywhere(req, r);
    }
    GrantMoves(root, req, defaults);
    var child := PoolChild(root.slice, c, req);
    assert child.slice.max == PoolGranted(root.slice, req);
    NewChildOk(child.slice);
    GrowKeeps(w, 0, root.(slice := AfterPoolSpawn(root.slice, req)), child);
  }

  lemma WorkNodeOk(t: ThreadState, r: Resource, amount: real)
    requires NodeOk(t) && amount >= 0.0
    ensures NodeOk(t.(slice := Work(t.slice, r, amount)))
    ensures forall q: Resource ::
              Work(t.slice, r, amount).used.Get(q) - Work(t.slice, r, amount).worked.Get(q)
              == t.slice.used.Get(q) - t.slice.worked.Get(q)
  {
    WorkKeeps(t.slice, r, amount);
    var s := Work(t.slice, r, amount);
    forall q: Resource ensures s.worked.Get(q) >= t.slice.worked.Get(q) >= 0.0 {}
    assert s.worked.cycles == s.worked.Get(Cycles) && t.slice.worked.cycles == t.slice.worked.Get(Cycles);
  }

  lemma SendNodeOk(t: ThreadState, m: Message, clock: real, aborted: bool)
    requires NodeOk(t)
    ensures NodeOk(AfterSend(t, m, clock, aborted))
  {
    WorkNodeOk(t, Cycles, 1.0);
    MailKeepsFifo(t, m, clock, aborted);
  }

  lemma PoolStepKeeps(w: World, op: Op)
    requires Inv(w) && WellFormed(op) && InRange(w, op) && (op.PoolSpawn? || op.PoolKill?)
    ensures Inv(Step(w, op))
  {
    match op
    case PoolSpawn(c, req) =>
      if c !in w.pool && |w.pool| < w.maxThreads {
        PoolSpawnKeeps(w, c, req);
        var root := w.nodes[0];
        var v := Grow(w, 0, root.(slice := AfterPoolSpawn(root.slice, req)), PoolChild(root.slice, c, req));
        EnvironmentKeeps(v, w.pool[c := |w.nodes|], w.clock, w.aborted);
      }
    case PoolKill(c) =>
      var k := w.pool[c];
      PutKeeps(w, k, Killed(w.nodes[k], DEFAULT_KILL_REASON));
      EnvironmentKeeps(Put(w, k, Killed(w.nodes[k], DEFAULT_KILL_REASON)), w.pool - {c}, w.clock, w.aborted);
  }

  lemma LocalNodeOk(w: World, op: Op)
    requires Local(op) && InRange(w, op) && NodeOk(w.nodes[op.i]) && WellFormed(op)
    ensures NodeOk(LocalResult(w, op)) && LocalResult(w, op).slice.max == w.nodes[op.i].slice.max
    ensures forall r: Resource ::
              LocalResult(w, op).slice.used.Get(r) - LocalResult(w, op).slice.worked.Get(r)
              == w.nodes[op.i].slice.used.Get(r) - w.nodes[op.i].slice.worked.Get(r)
  {
    var t := w.nodes[op.i];
    match op
    case Send(_, m) =>
      WorkNodeOk(t, Cycles, 1.0);
      SendNodeOk(t, m, w.clock, w.aborted);
    case BeginRun(_) => WorkNodeOk(t, Cycles, 1.0);
    case Consume(_, r, amount) => WorkNodeOk(t, r, amount);
    case _ =>
  }

  /** Every operation, on every world, keeps the invariant. */
  lemma StepKeeps(w: World, op: Op)
    requires Inv(w) && WellFormed(op)
    ensures Inv(Step(w, op))
  {
    if InRange(w, op) {
      match op
      case SpawnChild(i, c, req) => SpawnKeeps(w, i, c, req);
      case PoolSpawn(_, _) => PoolStepKeeps(w, op);
      case PoolKill(_) => PoolStepKeeps(w, op);
      case Tick(elapsed) => EnvironmentKeeps(w, w.pool, w.clock + elapsed, w.aborted);
      case Abort => EnvironmentKeeps(w, w.pool, w.clock, true);
      case _ =>
        LocalNodeOk(w, op);
        PutKeeps(w, op.i, LocalResult(w, op));
        assert Step(w, op) == Put(w, op.i, LocalResult(w, op));
    }
  }

  lemma EnvironmentKeeps(w: World, pool: map<string, nat>, clock: real, aborted: bool)
    requires Inv(w) && |pool| <= w.maxThreads
    requires forall c :: c in pool ==> pool[c] < |w.nodes|
    ensures Inv(w.(pool := pool, clock := clock, aborted := aborted))
  {
    var v := w.(pool := pool, clock := clock, aborted := aborted);
    forall k, r: Resource | 0 <= k < |v.nodes|
      ensures v.nodes[k].slice.used.Get(r) == v.nodes[k].slice.worked.Get(r) + ChildSum(v, k, r, |v.nodes|)
    {
      assert Balanced(w, k);
      ChildSumFrame(w, v, k, r, |w.nodes|);
    }
  }

  lemma OriginInv(w: World)
    requires Origin(w)
    ensures Inv(w)
  {
    forall r: Resource ensures ChildSum(w, 0, r, 1) == 0.0 {}
    assert Balanced(w, 0);
  }

  lemma {:induction false} RunInv(w: World, ops: seq<Op>)
    requires Inv(w) && AllWellFormed(ops)
    ensures Inv(Run(w, ops))
  {
    if ops != [] {
      RunInv(w, ops[..|ops| - 1]);
      StepKeeps(Run(w, ops[..|ops| - 1]), ops[|ops| - 1]);
    }
  }
}
