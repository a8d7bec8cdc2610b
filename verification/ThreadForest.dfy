/**
 * The objects of one tree side by side.  `Forest` is the environment that holds every thread
 * grown from one slice and may call any method of any of them in any order; each call on the
 * objects is exactly one `Step` of the abstract world, so the run theorems speak about them.
 */
module ThreadForest {
  import opened Options
  import opened Budget
  import opened CognitiveThread
  import opened ThreadTree

  class Forest {
    const pool: ThreadPool
    var threads: seq<CognitiveThread>
    var clock: real
    var aborted: bool

    static predicate Separate(ts: seq<CognitiveThread>, i: nat, j: nat)
      requires i < |ts| && j < |ts|
    {
      ts[i].budget != ts[j].budget
    }

    /** The objects are in the states of `w`, and no two threads share a slice. */
    ghost predicate Shows(w: World)
      reads this, pool, threads, set t | t in threads :: t.budget
    {
      && |threads| == |w.nodes| > 0
      && clock == w.clock && aborted == w.aborted
      && (forall i, j :: 0 <= i < |threads| && 0 <= j < |threads| && i != j ==> Separate(threads, i, j))
      && (forall i :: 0 <= i < |threads| ==> threads[i].State() == w.nodes[i])
      && PoolShows(w)
    }

    ghost predicate PoolShows(w: World)
      requires |threads| > 0
      reads this, pool
    {
      && pool.rootBudget == threads[0].budget && pool.maxThreads == w.maxThreads
      && (forall c :: c in pool.threads <==> c in w.pool)
      && forall c :: c in w.pool ==> w.pool[c] < |threads| && pool.threads[c] == threads[w.pool[c]]
    }

    /** Threads only join, and those that did are new objects. */
    twostate predicate Joined(before: seq<CognitiveThread>)
      reads this
    {
      && before <= threads
      && forall k :: |before| <= k < |threads| ==> fresh(threads[k]) && fresh(threads[k].budget)
    }

    twostate lemma JoinedByOne(before: seq<CognitiveThread>)
      requires |threads| == |before| + 1 && before <= threads
      requires fresh(threads[|before|]) && fresh(threads[|before|].budget)
      ensures Joined(before)
    {
    }

    /** A forest of one thread, whose slice is also the pool's root slice. */
    constructor (origin: CognitiveThread, maxThreads: nat)
      ensures threads == [origin] && fresh(pool)
      ensures Shows(World([origin.State()], [0], map[], maxThreads, 0.0, false))
    {
      var p := new ThreadPool(origin.budget, maxThreads);
      pool, threads, clock, aborted := p, [origin], 0.0, false;
    }

    method Perform(op: Op, ghost w: World) returns (ghost v: World)
      requires Shows(w)
      modifies this, pool, threads, set t | t in threads :: t.budget
      ensures v == Step(w, op) && Shows(v)
      ensures Joined(old(threads))
    {
      v := Step(w, op);
      match op
      case SpawnChild(i, c, req) =>
        if i < |threads| { PerformSpawn(i, c, req, w); }
      case PoolSpawn(c, req) => PerformPoolSpawn(c, req, w);
      case PoolKill(c) => PerformPoolKill(c, w);
      case Tick(_) => PerformEnvironment(op, w);
      case Abort => PerformEnvironment(op, w);
      case _ => if op.i < |threads| { PerformLocal(op, w); }
    }

    method PerformEnvironment(op: Op, ghost w: World)
      requires Shows(w) && (op.Tick? || op.Abort?)
      modifies this`clock, this`aborted
      ensures Shows(Step(w, op))
    {
      match op
      case Tick(elapsed) => clock := clock + elapsed;
      case Abort => aborted := true;
    }

    /** A whole run on the objects is a whole run of the world. */
    method PerformAll(ops: seq<Op>, ghost w: World) returns (ghost v: World)
      requires Shows(w)
      modifies this, pool, threads, set t | t in threads :: t.budget
      ensures v == Run(w, ops) && Shows(v)
    {
      v := w;
      for k := 0 to |ops|
        invariant Shows(v) && v == Run(w, ops[..k])
        invariant Joined(old(threads))
      {
        v := Perform(ops[k], v);
        assert ops[..k + 1][..k] == ops[..k];
      }
      assert ops[..|ops|] == ops;
    }

    method PerformSpawn(i: nat, c: string, req: Request, ghost w: World)
      requires Shows(w) && i < |threads|
      modifies this, threads[i], threads[i].budget
      ensures Shows(Step(w, SpawnChild(i, c, req)))
      ensures Joined(old(threads))
    {
      ghost var v := Step(w, SpawnChild(i, c, req));
      var child, _ := threads[i].Spawn(c, req);
      forall k | 0 <= k < |threads| ensures threads[k].State() == v.nodes[k] {
        assert k == i || Separate(threads, i, k);
      }
      Adopt(child, v);
      JoinedByOne(old(threads));
    }

    method PerformPoolSpawn(c: string, req: Request, ghost w: World)
      requires Shows(w)
      modifies this`threads, pool, threads[0].budget
      ensures Shows(PoolSpawned(w, c, req))
      ensures Joined(old(threads))
    {
      SameRoom(pool.threads, w.pool);
      if pool.Admits(c) {
        PerformAdmission(c, req, w, PoolSpawned(w, c, req));
        JoinedByOne(old(threads));
      } else {
        Refuse(c, req, w);
      }
    }

    method PerformAdmission(c: string, req: Request, ghost w: World, ghost v: World)
      requires Shows(w) && pool.Admits(c) && c !in w.pool && |w.pool| < w.maxThreads
      requires v == PoolSpawned(w, c, req)
      modifies this`threads, pool, threads[0].budget
      ensures Shows(v) && |threads| == |old(threads)| + 1 && old(threads) <= threads
      ensures fresh(threads[|old(threads)|]) && fresh(threads[|old(threads)|].budget)
    {
      var child := Admit(c, req, w, v);
      Adopt(child, v);
    }

    method Refuse(c: string, req: Request, ghost w: World)
      requires Shows(w) && !pool.Admits(c)
      modifies pool, threads[0].budget
      ensures Shows(w)
    {
      var refused, _ := pool.SpawnWithBudget(c, req);
      assert refused.None?;
    }

    /** A new thread joins those that already are in their states. */
    method Adopt(child: CognitiveThread, ghost v: World)
      requires 0 < |threads| == |v.nodes| - 1 && clock == v.clock && aborted == v.aborted
      requires forall i, j :: 0 <= i < |threads| && 0 <= j < |threads| && i != j ==> Separate(threads, i, j)
      requires forall i :: 0 <= i < |threads| ==> child.budget != threads[i].budget && threads[i].State() == v.nodes[i]
      requires child.State() == v.nodes[|threads|]
      requires pool.rootBudget == threads[0].budget && pool.maxThreads == v.maxThreads
      requires forall c :: c in pool.threads <==> c in v.pool
      requires forall c :: c in v.pool ==> v.pool[c] <= |threads| && pool.threads[c] == (threads + [child])[v.pool[c]]
      modifies this`threads
      ensures threads == old(threads) + [child] && Shows(v)
    {
      threads := threads + [child];
      forall i, j | 0 <= i < |threads| && 0 <= j < |threads| && i != j ensures Separate(threads, i, j) {
        assert i == |old(threads)| || j == |old(threads)| || Separate(old(threads), i, j);
      }
    }

    /** The pool's side of an admission: the root pays, the child is born, the others stay. */
    method Admit(c: string, req: Request, ghost w: World, ghost v: World) returns (child: CognitiveThread)
      requires Shows(w) && pool.Admits(c) && c !in w.pool && |w.pool| < w.maxThreads
      requires v == PoolSpawned(w, c, req)
      modifies pool, threads[0].budget
      ensures fresh(child) && fresh(child.budget) && child.State() == v.nodes[|w.nodes|]
      ensures forall i :: 0 <= i < |threads| ==> threads[i].State() == v.nodes[i]
      ensures pool.threads == old(pool.threads)[c := child]
      ensures |v.nodes| == |w.nodes| + 1 && v.pool == w.pool[c := |w.nodes|]
      ensures v.clock == w.clock && v.aborted == w.aborted && v.maxThreads == w.maxThreads
    {
      var spawned, _ := pool.SpawnWithBudget(c, req);
      child := spawned.value;
      forall k | 0 <= k < |threads| ensures threads[k].State() == v.nodes[k] {
        assert k == 0 || Separate(threads, 0, k);
      }
    }

    method PerformPoolKill(c: string, ghost w: World)
      requires Shows(w)
      modifies this, pool, threads
      ensures Shows(PoolKilled(w, c))
      ensures threads == old(threads)
    {
      if c in pool.threads {
        PerformKill(c, w, PoolKilled(w, c));
      } else {
        var found := pool.KillThread(c);
        assert pool.threads == old(pool.threads);
      }
    }

    method PerformKill(c: string, ghost w: World, ghost v: World)
      requires Shows(w) && c in w.pool && v == PoolKilled(w, c)
      modifies pool, threads[w.pool[c]]
      ensures Shows(v)
    {
      KillMember(c, w, v);
      assert v.pool == w.pool - {c};
    }

    /** The pool's side of a kill: one member leaves, in its last state, and the others stay. */
    method KillMember(c: string, ghost w: World, ghost v: World)
      requires Shows(w) && c in w.pool && v == PoolKilled(w, c)
      modifies pool, threads[w.pool[c]]
      ensures forall k :: 0 <= k < |threads| ==> threads[k].State() == v.nodes[k]
      ensures pool.threads == old(pool.threads) - {c}
    {
      var found := pool.KillThread(c);
      forall k | 0 <= k < |threads| ensures threads[k].State() == v.nodes[k] {
        assert k == w.pool[c] || Separate(threads, w.pool[c], k);
      }
    }

    /** The operations on one thread; their replies go to the caller and are dropped here. */
    method PerformLocal(op: Op, ghost w: World)
      requires Shows(w) && Local(op) && op.i < |threads|
      modifies threads[op.i], threads[op.i].budget
      ensures Shows(Step(w, op))
    {
      ghost var v := Step(w, op);
      PerformOn(threads[op.i], op, clock, aborted);
      forall k | 0 <= k < |threads| ensures threads[k].State() == v.nodes[k] {
        assert k == op.i || Separate(threads, op.i, k);
      }
    }

    static method PerformOn(thread: CognitiveThread, op: Op, clock: real, aborted: bool)
      requires Local(op)
      modifies thread, thread.budget
      ensures thread.State() == LocalAfter(old(thread.State()), op, clock, aborted)
    {
      match op
      case Send(_, m) => var _, _ := thread.Send(m, clock, aborted);
      case Receive(_) => var _ := thread.Receive();
      case BeginRun(_) => thread.BeginRun();
      case EndRun(_, outcome) => thread.EndRun(outcome);
      case Consume(_, r, amount) => var _ := thread.budget.ConsumeForWork(r, amount);
      case Kill(_, why) => thread.Kill(why);
    }
  }

  /** Two maps with the same keys are equally full. */
  lemma SameRoom<S, T>(a: map<string, S>, b: map<string, T>)
    requires forall c :: c in a <==> c in b
    ensures |a| == |b|
  {
    assert a.Keys == b.Keys;
    assert |a| == |a.Keys| == |b.Keys| == |b|;
  }
}
