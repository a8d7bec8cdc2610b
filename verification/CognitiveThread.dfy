/**
 * Cognitive threads and the thread pool (core/src/cognitive-thread.ts): a mailbox that
 * refuses when full, a budget slice inherited by allocation, and a lifecycle.
 *
 * `ThreadState` and the functions on it say what each operation does to one thread;
 * `CognitiveThread` and `ThreadPool` are the objects that do it in place.
 */
module CognitiveThread {
  import opened Numbers
  import opened Options
  import opened Budget

  datatype Status = Created | Running | Waiting | Completed | Killed | Errored

  /** A stamped message: its id and time come from the environment. */
  datatype Message = Message(id: int, payload: int, timestamp: real)

  datatype Backpressure = Ok | BudgetExhausted | MailboxFull

  /** Why a thread failed; `kill` renders its reason as "Thread killed: <why>". */
  datatype ThreadError = WorkThrew(message: string) | ThreadKilled(why: string)

  datatype WorkOutcome = Returned(value: int) | Threw(message: string)

  datatype Joined = JoinedWith(result: Option<int>, unconsumed: Amounts) | JoinThrew(error: ThreadError)

  const DEFAULT_MAILBOX_CAPACITY: nat := 50

  const DEFAULT_KILL_REASON: string := "killed"

  /**
   * One thread at one moment.  `admitted` and `received` are history values: every message
   * the mailbox took, and every message handed out, in order.
   */
  datatype ThreadState = ThreadState(
    slice: Slice,
    mailbox: seq<Message>,
    capacity: nat,
    status: Status,
    children: set<string>,
    result: Option<int>,
    error: Option<ThreadError>,
    admitted: seq<Message>,
    received: seq<Message>)

  function NewThread(slice: Slice, capacity: nat): ThreadState {
    ThreadState(slice, [], capacity, Created, {}, None, None, [], [])
  }

  // ---- Sending and receiving -----------------------------------------------------

  function SendVerdict(t: ThreadState, clock: real, aborted: bool): Backpressure {
    if Exhausted(t.slice, clock, aborted) || !Affords(t.slice, Cycles, 1.0) then BudgetExhausted
    else if |t.mailbox| >= t.capacity then MailboxFull
    else Ok
  }

  function AfterSend(t: ThreadState, m: Message, clock: real, aborted: bool): ThreadState {
    if Exhausted(t.slice, clock, aborted) then t else
      var paid := t.(slice := Work(t.slice, Cycles, 1.0));
      if SendVerdict(t, clock, aborted).Ok?
      then paid.(mailbox := t.mailbox + [m], admitted := t.admitted + [m])
      else paid
  }

  function AfterReceive(t: ThreadState): ThreadState {
    if t.mailbox == [] then t
    else t.(mailbox := t.mailbox[1..], received := t.received + [t.mailbox[0]])
  }

  /** A refused send that still cost a cycle is exactly a send refused by a full mailbox. */
  lemma SendCost(t: ThreadState, m: Message, clock: real, aborted: bool)
    ensures var s := AfterSend(t, m, clock, aborted);
            var v := SendVerdict(t, clock, aborted);
            && (s.slice.used.cycles == t.slice.used.cycles + 1.0 <==> v != BudgetExhausted)
            && (s.mailbox != t.mailbox <==> v == Ok)
            && (v == BudgetExhausted ==> s.slice.used == t.slice.used)
  {
    if SendVerdict(t, clock, aborted).Ok? {
      assert |AfterSend(t, m, clock, aborted).mailbox| == |t.mailbox| + 1;
    }
  }

  /**
   * The second budget test in `send` refuses exactly when the slice is not exhausted but
   * has less than one cycle left; that refusal then terminates the slice.
   */
  lemma SecondRefusalIff(t: ThreadState, m: Message, clock: real, aborted: bool)
    ensures !Exhausted(t.slice, clock, aborted) && !Affords(t.slice, Cycles, 1.0)
       <==> !Exhausted(t.slice, clock, aborted) && 0.0 < Remaining(t.slice, Cycles) < 1.0
    ensures AfterSend(t, m, clock, aborted).slice.reason != t.slice.reason
       <==> !Exhausted(t.slice, clock, aborted) && Remaining(t.slice, Cycles) < 1.0
  {
    AllResources(Cycles);
  }

  /** A sends history for one more message and for one message fewer stays first-in first-out. */
  ghost predicate Fifo(t: ThreadState) {
    |t.mailbox| <= t.capacity && t.admitted == t.received + t.mailbox
  }

  lemma MailKeepsFifo(t: ThreadState, m: Message, clock: real, aborted: bool)
    requires Fifo(t)
    ensures Fifo(AfterSend(t, m, clock, aborted)) && Fifo(AfterReceive(t))
  {
  }

  // ---- Spawning ------------------------------------------------------------------

  /** An equal share rounded down, never negative. */
  function PerPart(whole: real, parts: nat): real
    requires parts > 0
  {
    Max(0.0, (whole / parts as real).Floor as real)
  }

  /** A thread's default for its next child: shares of three dimensions and all the depth. */
  function Shares(left: Amounts, parts: nat): Request
    requires parts > 0
  {
    Request(Some(PerPart(left.cycles, parts)), Some(left.depth),
            Some(PerPart(left.memoryOps, parts)), Some(PerPart(left.llmCalls, parts)))
  }

  function Granted(t: ThreadState, requested: Request): Amounts {
    var left := Unspent(t.slice);
    Resolve(left, requested, Shares(left, |t.children| + 2))
  }

  function AfterSpawn(t: ThreadState, childId: string, requested: Request): ThreadState {
    t.(slice := ChargeAll(t.slice, Granted(t, requested)), children := t.children + {childId})
  }

  function SpawnedChild(t: ThreadState, childId: string, requested: Request): ThreadState {
    var parent := AfterSpawn(t, childId, requested).slice;
    NewThread(ChildSlice(parent, childId, Exactly(Granted(t, requested))), DEFAULT_MAILBOX_CAPACITY)
  }

  /** The pool's default is everything its root slice has left. */
  function PoolGranted(root: Slice, requested: Request): Amounts {
    Resolve(Unspent(root), requested, Exactly(Unspent(root)))
  }

  function AfterPoolSpawn(root: Slice, requested: Request): Slice {
    ChargeAll(root, PoolGranted(root, requested))
  }

  function PoolChild(root: Slice, childId: string, requested: Request): ThreadState {
    NewThread(ChildSlice(AfterPoolSpawn(root, requested), childId, Exactly(PoolGranted(root, requested))),
              DEFAULT_MAILBOX_CAPACITY)
  }

  /**
   * Spawning spends the parent's depth to nothing, and so exhausts it, exactly when the
   * request leaves depth to its default or asks for all that is left.
   */
  lemma SpawnSpendsDepthIff(t: ThreadState, childId: string, requested: Request)
    requires Sound(t.slice)
    ensures var s := AfterSpawn(t, childId, requested).slice;
            && (Remaining(s, Depth) <= 0.0
                <==> requested.depth.None? || requested.depth.value >= Remaining(t.slice, Depth) ||
                     Remaining(t.slice, Depth) == 0.0)
            && (requested.depth.None? ==> CapacityExhausted(s))
  {
    assert 0.0 <= t.slice.used.Get(Depth) <= t.slice.max.Get(Depth);
    AllResources(Depth);
    var a := Granted(t, requested);
    forall q: Resource ensures a.Get(q) <= Max(Remaining(t.slice, q), 0.0) {}
    ChargeAllExact(t.slice, a);
    assert Remaining(ChargeAll(t.slice, a), Depth) == Remaining(t.slice, Depth) - Max(a.Get(Depth), 0.0);
  }

  /** A whole number of which `parts` fit in `whole`, while as many of the next one would not. */
  predicate IsShare(share: real, whole: real, parts: nat) {
    share == share.Floor as real && Fits(share, whole, parts as real)
  }

  predicate Fits(share: real, whole: real, parts: real) {
    parts * share <= whole < parts * (share + 1.0)
  }

  lemma PerPartIsShare(whole: real, parts: nat)
    requires whole >= 0.0 && parts > 0
    ensures IsShare(PerPart(whole, parts), whole, parts) && 0.0 <= PerPart(whole, parts) <= whole
  {
    var q := whole / parts as real;
    assert q * parts as real == whole;
    NonNegativeQuotient(whole, parts as real);
    FloorFits(q, q.Floor as real, parts as real, whole);
  }

  lemma FloorFits(q: real, s: real, n: real, whole: real)
    requires 0.0 <= s <= q < s + 1.0 && n >= 1.0 && q * n == whole
    ensures Fits(s, whole, n) && s <= whole
  {
    NonNegativeProduct(q - s, n);
    NonNegativeProduct(s + 1.0 - q, n);
    NonNegativeProduct(n - 1.0, q);
  }

  /**
   * What a child gets by default: all the depth, and of every other dimension the largest whole
   * share that each child, one more and the parent could have of what is left.
   */
  lemma SpawnDefaults(t: ThreadState, requested: Request, r: Resource)
    requires requested.Get(r).None?
    ensures var (share, left) := (Granted(t, requested).Get(r), Unspent(t.slice).Get(r));
            if r == Depth then share == left else IsShare(share, left, |t.children| + 2)
  {
    PerPartIsShare(Unspent(t.slice).Get(r), |t.children| + 2);
  }

  /** What is left of a dimension; nothing if it is overspent. */
  function LeftOf(b: Slice, r: Resource): (left: real)
    ensures left >= 0.0 && left >= b.max.Get(r) - b.used.Get(r)
  {
    if b.max.Get(r) > b.used.Get(r) then b.max.Get(r) - b.used.Get(r) else 0.0
  }

  /** An amount that was asked for is granted as it is, or cut to what is left. */
  predicate GrantedAsAsked(granted: real, asked: real, left: real) {
    if asked <= left then granted == asked else granted == left
  }

  /**
   * What a spawn does, dimension by dimension: an amount asked for is the child's ceiling, or else
   * all that is left; an unset dimension gets a whole share, depth all; and the parent's counter
   * rises by just the child's ceiling, if that is positive.
   */
  lemma SpawnGrants(t: ThreadState, c: string, req: Request, r: Resource)
    ensures var (child, after) := (SpawnedChild(t, c, req).slice, AfterSpawn(t, c, req).slice);
            var left := LeftOf(t.slice, r);
            && (req.Get(r).Some? ==> GrantedAsAsked(child.max.Get(r), req.Get(r).value, left))
            && (req.Get(r).None? && r == Depth ==> child.max.Get(r) == left)
            && (req.Get(r).None? && r != Depth ==> IsShare(child.max.Get(r), left, |t.children| + 2))
            && after.used.Get(r) == t.slice.used.Get(r) + (if child.max.Get(r) > 0.0 then child.max.Get(r) else 0.0)
  {
    GrantCharges(t.slice, Granted(t, req), r);
    PerPartIsShare(Unspent(t.slice).Get(r), |t.children| + 2);
  }

  /** The same for the pool, where an unset dimension gets all that is left. */
  lemma PoolSpawnGrants(root: Slice, c: string, req: Request, r: Resource)
    ensures var (child, after, left) := (PoolChild(root, c, req).slice, AfterPoolSpawn(root, req), LeftOf(root, r));
            && (req.Get(r).Some? ==> GrantedAsAsked(child.max.Get(r), req.Get(r).value, left))
            && (req.Get(r).None? ==> child.max.Get(r) == left)
            && after.used.Get(r) == root.used.Get(r) + (if child.max.Get(r) > 0.0 then child.max.Get(r) else 0.0)
  {
    GrantCharges(root, PoolGranted(root, req), r);
  }

  lemma GrantCharges(b: Slice, a: Amounts, r: Resource)
    requires forall q: Resource :: a.Get(q) <= Max(Remaining(b, q), 0.0)
    ensures ChargeAll(b, a).used.Get(r) == b.used.Get(r) + Max(a.Get(r), 0.0)
  {
    ChargeAllExact(b, a);
  }

  /** Apart from the amounts, a spawn adds the child's id, and the child starts anew under its parent's deadline. */
  lemma SpawnStartsAnew(t: ThreadState, c: string, req: Request)
    ensures var (after, child) := (AfterSpawn(t, c, req), SpawnedChild(t, c, req));
            && after == t.(slice := t.slice.(used := after.slice.used), children := t.children + {c})
            && child == NewThread(StartingSlice(t.slice, c, child.slice.max), 50)
  {
    ChargeAllExact(t.slice, Granted(t, req));
  }

  lemma PoolSpawnStartsAnew(root: Slice, c: string, req: Request)
    ensures var (after, child) := (AfterPoolSpawn(root, req), PoolChild(root, c, req));
            && after == root.(used := after.used)
            && child == NewThread(StartingSlice(root, c, child.slice.max), 50)
  {
    ChargeAllExact(root, PoolGranted(root, req));
  }

  /** A slice with nothing spent and no reason, under its parent's deadline and signal. */
  function StartingSlice(parent: Slice, id: string, max: Amounts): Slice {
    Slice(id, Some(parent.id), max, Amounts(0.0, 0.0, 0.0, 0.0), None, parent.deadline, parent.watchesAbort,
          Amounts(0.0, 0.0, 0.0, 0.0))
  }

  // ---- The objects ---------------------------------------------------------------

  class CognitiveThread {
    const id: string
    const parentId: Option<string>
    const budget: BudgetSlice
    const capacity: nat
    var mailbox: seq<Message>
    var status: Status
    var children: set<string>
    var result: Option<int>
    var error: Option<ThreadError>
    ghost var admitted: seq<Message>
    ghost var received: seq<Message>

    ghost function State(): ThreadState
      reads this, budget
    {
      ThreadState(budget.State(), mailbox, capacity, status, children, result, error, admitted, received)
    }

    /** The ring behind the mailbox throws on a capacity below one. */
    constructor (id: string, parentBudget: BudgetSlice, allocation: Request, mailboxCapacity: nat)
      requires mailboxCapacity >= 1
      ensures State() == NewThread(ChildSlice(parentBudget.State(), id, allocation), mailboxCapacity)
      ensures fresh(budget)
    {
      this.id, parentId := id, Some(parentBudget.id);
      var slice := new BudgetSlice.Child(parentBudget, id, allocation);
      budget, capacity := slice, mailboxCapacity;
      mailbox, status, children, result, error := [], Created, {}, None, None;
      admitted, received := [], [];
    }

    method Spawn(childId: string, allocation: Request) returns (child: CognitiveThread, left: Amounts)
      modifies this, budget
      ensures State() == AfterSpawn(old(State()), childId, allocation)
      ensures fresh(child) && fresh(child.budget)
      ensures child.State() == SpawnedChild(old(State()), childId, allocation)
      ensures left == Unspent(budget.State())
    {
      var shares := |children| + 2;
      var granted := budget.ResolveAllocation(allocation, remaining => Shares(remaining, shares));
      budget.ChargeAllocation(granted);
      child := new CognitiveThread(childId, budget, Exactly(granted), DEFAULT_MAILBOX_CAPACITY);
      children := children + {childId};
      left := budget.RemainingAll();
    }

    method Send(m: Message, clock: real, aborted: bool) returns (allowed: bool, reason: Backpressure)
      modifies this, budget
      ensures State() == AfterSend(old(State()), m, clock, aborted)
      ensures reason == SendVerdict(old(State()), clock, aborted)
      ensures allowed <==> reason.Ok?
    {
      var exhausted := budget.IsExhausted(clock, aborted);
      if exhausted {
        return false, BudgetExhausted;
      }
      var paid := budget.ConsumeForWork(Cycles, 1.0);
      if !paid {
        return false, BudgetExhausted;
      }
      if |mailbox| >= capacity {
        return false, MailboxFull;
      }
      mailbox := mailbox + [m];
      admitted := admitted + [m];
      return true, Ok;
    }

    method Receive() returns (m: Option<Message>)
      modifies this
      ensures State() == AfterReceive(old(State()))
      ensures m == if old(mailbox) == [] then None else Some(old(mailbox)[0])
    {
      if mailbox == [] {
        return None;
      }
      m := Some(mailbox[0]);
      received := received + [mailbox[0]];
      mailbox := mailbox[1..];
    }

    /** The part of `run` before the work: its overhead is charged and a refusal is ignored. */
    method BeginRun()
      modifies this, budget
      ensures State() == old(State()).(status := Running, slice := Work(old(budget.State()), Cycles, 1.0))
    {
      status := Running;
      var _ := budget.ConsumeForWork(Cycles, 1.0);
    }

    /** The part of `run` after the work. */
    method EndRun(outcome: WorkOutcome)
      modifies this
      ensures State() == AfterRun(old(State()), outcome)
    {
      match outcome
      case Returned(value) => result, status := Some(value), Status.Completed;
      case Threw(e) => error, status := Some(WorkThrew(e)), Errored;
    }

    /** Joining reports what is unspent; it changes no slice, so nothing is credited back. */
    method Join() returns (joined: Joined)
      ensures joined == if error.Some? then JoinThrew(error.value) else JoinedWith(result, Unspent(budget.State()))
    {
      if error.Some? {
        return JoinThrew(error.value);
      }
      var left := budget.RemainingAll();
      return JoinedWith(result, left);
    }

    method Kill(why: string)
      modifies this
      ensures State() == old(State()).(status := Killed, error := Some(ThreadKilled(why)))
    {
      status, error := Killed, Some(ThreadKilled(why));
    }

    method CanContinue(clock: real, aborted: bool) returns (can: bool)
      ensures can <==> !Exhausted(budget.State(), clock, aborted) && status == Running
    {
      var exhausted := budget.IsExhausted(clock, aborted);
      can := !exhausted && status == Running;
    }

    method Consume(cycles: real) returns (ok: bool)
      modifies budget
      ensures State() == old(State()).(slice := Work(old(budget.State()), Cycles, cycles))
      ensures ok == Affords(old(budget.State()), Cycles, cycles)
    {
      ok := budget.ConsumeForWork(Cycles, cycles);
    }
  }

  function AfterRun(t: ThreadState, outcome: WorkOutcome): ThreadState {
    match outcome
    case Returned(value) => t.(result := Some(value), status := Status.Completed)
    case Threw(e) => t.(error := Some(WorkThrew(e)), status := Errored)
  }

  class ThreadPool {
    const rootBudget: BudgetSlice
    const maxThreads: nat
    var threads: map<string, CognitiveThread>

    constructor (rootBudget: BudgetSlice, maxThreads: nat)
      ensures this.rootBudget == rootBudget && this.maxThreads == maxThreads && threads == map[]
    {
      this.rootBudget, this.maxThreads, threads := rootBudget, maxThreads, map[];
    }

    predicate Admits(id: string)
      reads this
    {
      id !in threads && |threads| < maxThreads
    }

    /** The new thread with what the root has left, or neither. */
    method SpawnWithBudget(id: string, allocation: Request)
      returns (spawned: Option<CognitiveThread>, left: Option<Amounts>)
      modifies this, rootBudget
      ensures spawned.Some? <==> old(Admits(id))
      ensures spawned.None? ==> unchanged(this) && unchanged(rootBudget)
      ensures spawned.Some? ==>
                && fresh(spawned.value) && fresh(spawned.value.budget)
                && rootBudget.State() == AfterPoolSpawn(old(rootBudget.State()), allocation)
                && spawned.value.State() == PoolChild(old(rootBudget.State()), id, allocation)
                && threads == old(threads)[id := spawned.value]
      ensures left == if spawned.Some? then Some(Unspent(rootBudget.State())) else None
    {
      if !Admits(id) {
        return None, None;
      }
      var granted := rootBudget.ResolveAllocation(allocation, remaining => Exactly(remaining));
      rootBudget.ChargeAllocation(granted);
      var child := new CognitiveThread(id, rootBudget, Exactly(granted), DEFAULT_MAILBOX_CAPACITY);
      threads := threads[id := child];
      var remaining := rootBudget.RemainingAll();
      return Some(child), Some(remaining);
    }

    /** The thread leaves the pool and is killed; its slice is not credited back. */
    method KillThread(id: string) returns (found: bool)
      modifies this, if id in threads then {threads[id]} else {}
      ensures found <==> id in old(threads)
      ensures threads == old(threads) - {id}
      ensures found ==>
                old(threads)[id].State()
                  == old(threads[id].State()).(status := Killed, error := Some(ThreadKilled(DEFAULT_KILL_REASON)))
    {
      if id !in threads {
        return false;
      }
      var thread := threads[id];
      thread.Kill(DEFAULT_KILL_REASON);
      threads := threads - {id};
      return true;
    }
  }
}
