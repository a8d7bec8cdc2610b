/**
 * Budget slices: four ceilings, four counters, one termination reason
 * (core/src/budget.ts, core/src/budget-resources.ts).
 *
 * `Slice` is the value a slice holds at one moment; `BudgetSlice` is the object whose
 * counters are charged in place.  Amounts are reals, which covers the non-negative
 * integers of the schema and the fractions a caller can pass as plain numbers.
 */
module Budget {
  import opened Numbers
  import opened Options

  datatype Resource = Cycles | Depth | MemoryOps | LlmCalls

  /** The dimensions in the order in which every loop of the source visits them. */
  const ALL_RESOURCES: seq<Resource> := [Cycles, Depth, MemoryOps, LlmCalls]

  datatype Reason =
    | CycleBudget | DepthBudget | MemoryBudget | LlmBudget
    | Deadline | Backpressure | Aborted | Completed

  datatype Amounts = Amounts(cycles: real, depth: real, memoryOps: real, llmCalls: real) {
    function Get(r: Resource): real {
      match r
      case Cycles => cycles
      case Depth => depth
      case MemoryOps => memoryOps
      case LlmCalls => llmCalls
    }

    function With(r: Resource, v: real): Amounts {
      match r
      case Cycles => this.(cycles := v)
      case Depth => this.(depth := v)
      case MemoryOps => this.(memoryOps := v)
      case LlmCalls => this.(llmCalls := v)
    }
  }

  /** A partial allocation: dimensions the caller left unset are `None`. */
  datatype Request = Request(cycles: Option<real>, depth: Option<real>, memoryOps: Option<real>,
                             llmCalls: Option<real>) {
    function Get(r: Resource): Option<real> {
      match r
      case Cycles => cycles
      case Depth => depth
      case MemoryOps => memoryOps
      case LlmCalls => llmCalls
    }
  }

  const ZERO := Amounts(0.0, 0.0, 0.0, 0.0)

  function Exactly(a: Amounts): Request {
    Request(Some(a.cycles), Some(a.depth), Some(a.memoryOps), Some(a.llmCalls))
  }

  /**
   * A slice at one moment.  `worked` is a history value: what successful charges other
   * than `ChargeAllocation` have spent so far.
   */
  datatype Slice = Slice(
    id: string,
    parentId: Option<string>,
    max: Amounts,
    used: Amounts,
    reason: Option<Reason>,
    deadline: Option<real>,
    watchesAbort: bool,
    worked: Amounts)

  function ReasonOf(r: Resource): Reason {
    match r
    case Cycles => CycleBudget
    case Depth => DepthBudget
    case MemoryOps => MemoryBudget
    case LlmCalls => LlmBudget
  }

  function Remaining(b: Slice, r: Resource): real {
    b.max.Get(r) - b.used.Get(r)
  }

  predicate Affords(b: Slice, r: Resource, amount: real) {
    Remaining(b, r) >= amount
  }

  function Refusal(b: Slice, r: Resource): Reason {
    if Remaining(b, r) <= 0.0 then ReasonOf(r) else Backpressure
  }

  /** One charge: the counter grows, or the slice is terminated and the counter stays. */
  function Charge(b: Slice, r: Resource, amount: real): Slice {
    if Affords(b, r, amount)
    then b.(used := b.used.With(r, b.used.Get(r) + amount))
    else b.(reason := Some(Refusal(b, r)))
  }

  /** A charge made for work, recorded in the history value when it succeeds. */
  function Work(b: Slice, r: Resource, amount: real): Slice {
    if Affords(b, r, amount)
    then Charge(b, r, amount).(worked := b.worked.With(r, b.worked.Get(r) + amount))
    else Charge(b, r, amount)
  }

  function Unspent(b: Slice): Amounts {
    Amounts(Max(Remaining(b, Cycles), 0.0), Max(Remaining(b, Depth), 0.0),
            Max(Remaining(b, MemoryOps), 0.0), Max(Remaining(b, LlmCalls), 0.0))
  }

  /** A request met dimension by dimension: own amount, else the default, else zero; never above `left`. */
  function Resolve(left: Amounts, requested: Request, defaults: Request): Amounts {
    Amounts(Min(requested.cycles.GetOr(defaults.cycles.GetOr(0.0)), left.cycles),
            Min(requested.depth.GetOr(defaults.depth.GetOr(0.0)), left.depth),
            Min(requested.memoryOps.GetOr(defaults.memoryOps.GetOr(0.0)), left.memoryOps),
            Min(requested.llmCalls.GetOr(defaults.llmCalls.GetOr(0.0)), left.llmCalls))
  }

  /** The first `k` dimensions of an allocation charged in order; non-positive amounts are skipped. */
  function ChargeFirst(b: Slice, allocation: Amounts, k: nat): Slice
    requires k <= |ALL_RESOURCES|
  {
    if k == 0 then b else
      var p := ChargeFirst(b, allocation, k - 1);
      var r := ALL_RESOURCES[k - 1];
      if allocation.Get(r) > 0.0 then Charge(p, r, allocation.Get(r)) else p
  }

  function ChargeAll(b: Slice, allocation: Amounts): Slice {
    ChargeFirst(b, allocation, |ALL_RESOURCES|)
  }

  /** A fresh child slice under `parent`; unset dimensions default as the source defaults them. */
  function ChildSlice(parent: Slice, childId: string, allocation: Request): Slice {
    Slice(childId, Some(parent.id),
          Amounts(allocation.cycles.GetOr(Remaining(parent, Cycles)),
                  allocation.depth.GetOr(parent.max.depth),
                  allocation.memoryOps.GetOr(Remaining(parent, MemoryOps)),
                  allocation.llmCalls.GetOr(Remaining(parent, LlmCalls))),
          ZERO, None, parent.deadline, parent.watchesAbort, ZERO)
  }

  predicate CapacityExhausted(b: Slice) {
    exists r | r in ALL_RESOURCES :: Remaining(b, r) <= 0.0
  }

  /** A deadline of zero counts as no deadline: the source tests it for truthiness. */
  predicate Exhausted(b: Slice, clock: real, aborted: bool) {
    || b.reason.Some?
    || CapacityExhausted(b)
    || (b.deadline.Some? && b.deadline.value != 0.0 && clock > b.deadline.value)
    || (b.watchesAbort && aborted)
  }

  // ---- What a slice keeps --------------------------------------------------------

  /** Counters stay between zero and their ceilings, in every dimension. */
  ghost predicate Sound(b: Slice) {
    forall r: Resource :: 0.0 <= b.used.Get(r) <= b.max.Get(r)
  }

  /** A dimension's own reason is only ever recorded while that dimension is fully spent. */
  ghost predicate Truthful(b: Slice) {
    forall r: Resource :: b.reason == Some(ReasonOf(r)) ==> Remaining(b, r) <= 0.0
  }

  /** Each slice's spending is history: later states differ from earlier ones only upwards. */
  ghost predicate Later(a: Slice, b: Slice) {
    && b == a.(used := b.used, reason := b.reason, worked := b.worked)
    && (forall r: Resource :: a.used.Get(r) <= b.used.Get(r))
    && (a.reason.Some? ==> b.reason.Some?)
  }

  lemma AllResources(r: Resource)
    ensures r in ALL_RESOURCES
  {
    assert ALL_RESOURCES[0] == Cycles && ALL_RESOURCES[1] == Depth;
    assert ALL_RESOURCES[2] == MemoryOps && ALL_RESOURCES[3] == LlmCalls;
  }

  /** Two records that agree at every visited dimension are the same record. */
  lemma SameAmounts(a: Amounts, b: Amounts)
    requires forall k :: 0 <= k < |ALL_RESOURCES| ==> a.Get(ALL_RESOURCES[k]) == b.Get(ALL_RESOURCES[k])
    ensures a == b
  {
    assert a.Get(ALL_RESOURCES[0]) == b.Get(ALL_RESOURCES[0]);
    assert a.Get(ALL_RESOURCES[1]) == b.Get(ALL_RESOURCES[1]);
    assert a.Get(ALL_RESOURCES[2]) == b.Get(ALL_RESOURCES[2]);
    assert a.Get(ALL_RESOURCES[3]) == b.Get(ALL_RESOURCES[3]);
  }

  ghost predicate RefusesAll(b: Slice, r: Resource) {
    forall amount: real :: amount > 0.0 ==> !Affords(b, r, amount)
  }

  /** Capacity is exhausted exactly when some dimension refuses every positive charge, however small. */
  lemma CapacityExhaustedIff(b: Slice)
    ensures CapacityExhausted(b) <==> exists r: Resource :: RefusesAll(b, r)
  {
    forall r: Resource ensures r in ALL_RESOURCES { AllResources(r); }
    forall r: Resource ensures RefusesAll(b, r) <==> Remaining(b, r) <= 0.0 {
      if Remaining(b, r) > 0.0 {
        assert Affords(b, r, Remaining(b, r));
      }
    }
  }

  /**
   * What a charge does: it is granted exactly if that much is left, and then the one counter rises
   * by it.  Otherwise the reason is the dimension's own if nothing is left, else backpressure.
   */
  lemma ChargeMeans(b: Slice, r: Resource, amount: real, q: Resource)
    ensures var (c, left) := (Charge(b, r, amount), b.max.Get(r) - b.used.Get(r));
            if amount <= left then
              && c == b.(used := c.used)
              && c.used.Get(q) == b.used.Get(q) + (if q == r then amount else 0.0)
            else if left > 0.0 then c == b.(reason := Some(Backpressure))
            else c == b.(reason := Some(match r case Cycles => CycleBudget case Depth => DepthBudget
                                                case MemoryOps => MemoryBudget case LlmCalls => LlmBudget))
    ensures var w := Work(b, r, amount);
            && w == Charge(b, r, amount).(worked := w.worked)
            && w.worked.Get(q) == b.worked.Get(q) + w.used.Get(q) - b.used.Get(q)
  {
  }

  /**
   * The ceilings of a slice cut from another without a policy: what is asked for, however much; else
   * what the parent has left, but of depth the parent's whole ceiling.
   */
  lemma SliceCeilings(parent: Slice, id: string, allocation: Request, r: Resource)
    ensures ChildSlice(parent, id, allocation).max.Get(r)
         == match allocation.Get(r)
            case Some(v) => v
            case None => if r == Depth then parent.max.Get(r) else parent.max.Get(r) - parent.used.Get(r)
  {
  }

  /** A non-negative charge, granted or refused, keeps the slice sound and its reason truthful. */
  lemma WorkKeeps(b: Slice, r: Resource, amount: real)
    requires Sound(b) && Truthful(b) && amount >= 0.0
    ensures Sound(Work(b, r, amount)) && Truthful(Work(b, r, amount)) && Later(b, Work(b, r, amount))
  {
    var c := Work(b, r, amount);
    forall q: Resource
      ensures 0.0 <= c.used.Get(q) <= c.max.Get(q) && b.used.Get(q) <= c.used.Get(q)
      ensures c.reason == Some(ReasonOf(q)) ==> Remaining(c, q) <= 0.0
    {
      assert Remaining(c, q) <= Remaining(b, q);
      assert ReasonOf(r) == ReasonOf(q) ==> r == q;
    }
  }

  /**
   * Charging a resolved allocation never refuses: the counters grow by exactly the
   * positive part of the allocation, and no reason is recorded.  `k` dimensions in.
   */
  lemma {:induction false} ChargeFirstExact(b: Slice, allocation: Amounts, k: nat, q: Resource)
    requires k <= |ALL_RESOURCES|
    requires forall r: Resource :: allocation.Get(r) <= Max(Remaining(b, r), 0.0)
    ensures var c := ChargeFirst(b, allocation, k);
            && c == b.(used := c.used)
            && c.used.Get(q) == b.used.Get(q) +
                 (if q in ALL_RESOURCES[..k] then Max(allocation.Get(q), 0.0) else 0.0)
  {
    if k > 0 {
      var r := ALL_RESOURCES[k - 1];
      assert ALL_RESOURCES[..k] == ALL_RESOURCES[..k - 1] + [r];
      ChargeFirstExact(b, allocation, k - 1, q);
      ChargeFirstExact(b, allocation, k - 1, r);
      assert r !in ALL_RESOURCES[..k - 1] && (q in ALL_RESOURCES[..k] <==> q in ALL_RESOURCES[..k - 1] || q == r);
      assert Remaining(ChargeFirst(b, allocation, k - 1), r) == Remaining(b, r);
      if allocation.Get(r) > 0.0 {
        ChargeExact(ChargeFirst(b, allocation, k - 1), r, allocation.Get(r), q);
      }
    }
  }

  /** An affordable charge adds to its own dimension only. */
  lemma ChargeExact(b: Slice, r: Resource, amount: real, q: Resource)
    requires Affords(b, r, amount)
    ensures var c := Charge(b, r, amount);
            c == b.(used := c.used) && c.used.Get(q) == b.used.Get(q) + if q == r then amount else 0.0
  {
  }

  lemma ChargeAllExact(b: Slice, allocation: Amounts)
    requires forall r: Resource :: allocation.Get(r) <= Max(Remaining(b, r), 0.0)
    ensures var c := ChargeAll(b, allocation);
            && c == b.(used := c.used)
            && forall r: Resource :: c.used.Get(r) == b.used.Get(r) + Max(allocation.Get(r), 0.0)
  {
    assert ALL_RESOURCES[..|ALL_RESOURCES|] == ALL_RESOURCES;
    forall r: Resource
      ensures var c := ChargeAll(b, allocation);
              c == b.(used := c.used) && c.used.Get(r) == b.used.Get(r) + Max(allocation.Get(r), 0.0)
    {
      AllResources(r);
      ChargeFirstExact(b, allocation, |ALL_RESOURCES|, r);
    }
    ChargeFirstExact(b, allocation, |ALL_RESOURCES|, Cycles);
  }

  /**
   * The hard inheritance bound, for every slice, request and policy: what is resolved fits
   * in what is left and is nothing where neither names an amount, its charge is never refused,
   * and parent headroom plus child ceiling stays what parent headroom was exactly in the
   * dimensions resolved to no negative amount.
   */
  lemma InheritanceBound(b: Slice, requested: Request, defaults: Request, r: Resource)
    requires Sound(b)
    ensures var a := Resolve(Unspent(b), requested, defaults);
            var c := ChargeAll(b, a);
            && Sound(c) && c.reason == b.reason && c.worked == b.worked && Later(b, c)
            && a.Get(r) <= Remaining(b, r)
            && (requested.Get(r).None? && defaults.Get(r).None? ==> a.Get(r) == 0.0)
            && (Remaining(c, r) + a.Get(r) == Remaining(b, r)
                <==> requested.Get(r).GetOr(defaults.Get(r).GetOr(0.0)) >= 0.0)
  {
    var a := Resolve(Unspent(b), requested, defaults);
    forall q: Resource ensures a.Get(q) <= Max(Remaining(b, q), 0.0) && a.Get(q) <= Remaining(b, q) {}
    ChargeAllExact(b, a);
  }

  // ---- The object ----------------------------------------------------------------

  class BudgetSlice {
    const id: string
    const parentId: Option<string>
    const max: Amounts
    const deadline: Option<real>
    const watchesAbort: bool
    var used: Amounts
    var reason: Option<Reason>
    ghost var worked: Amounts

    ghost function State(): Slice
      reads this
    {
      Slice(id, parentId, max, used, reason, deadline, watchesAbort, worked)
    }

    constructor (id: string, parentId: Option<string>, max: Amounts, deadline: Option<real>, watchesAbort: bool)
      ensures State() == Slice(id, parentId, max, ZERO, None, deadline, watchesAbort, ZERO)
    {
      this.id, this.parentId, this.max := id, parentId, max;
      this.deadline, this.watchesAbort := deadline, watchesAbort;
      used, reason, worked := ZERO, None, ZERO;
    }

    /** A fresh child of `parent`, which is read but not charged. */
    constructor Child(parent: BudgetSlice, childId: string, allocation: Request)
      ensures State() == ChildSlice(parent.State(), childId, allocation)
    {
      id, parentId := childId, Some(parent.id);
      max := Amounts(allocation.cycles.GetOr(parent.max.cycles - parent.used.cycles),
                     allocation.depth.GetOr(parent.max.depth),
                     allocation.memoryOps.GetOr(parent.max.memoryOps - parent.used.memoryOps),
                     allocation.llmCalls.GetOr(parent.max.llmCalls - parent.used.llmCalls));
      deadline, watchesAbort := parent.deadline, parent.watchesAbort;
      used, reason, worked := ZERO, None, ZERO;
    }

    method Consume(r: Resource, amount: real) returns (ok: bool)
      modifies this
      ensures State() == Charge(old(State()), r, amount)
      ensures ok == Affords(old(State()), r, amount)
    {
      var left := max.Get(r) - used.Get(r);
      if !(left >= amount) {
        reason := Some(if left <= 0.0 then ReasonOf(r) else Backpressure);
        return false;
      }
      used := used.With(r, used.Get(r) + amount);
      return true;
    }

    /** `consumeCycles`, `consumeDepth`, `consumeMemoryOps` and `consumeLMCalls`. */
    method ConsumeForWork(r: Resource, amount: real) returns (ok: bool)
      modifies this
      ensures State() == Work(old(State()), r, amount)
      ensures ok == Affords(old(State()), r, amount)
    {
      ok := Consume(r, amount);
      if ok {
        worked := worked.With(r, worked.Get(r) + amount);
      }
    }

    method RemainingAll() returns (left: Amounts)
      ensures left == Unspent(State())
    {
      left := ZERO;
      for k := 0 to |ALL_RESOURCES|
        invariant forall j :: 0 <= j < k ==> left.Get(ALL_RESOURCES[j]) == Unspent(State()).Get(ALL_RESOURCES[j])
      {
        var r := ALL_RESOURCES[k];
        left := left.With(r, Max(max.Get(r) - used.Get(r), 0.0));
      }
      SameAmounts(left, Unspent(State()));
    }

    method ResolveAllocation(requested: Request, fallback: Amounts -> Request) returns (resolved: Amounts)
      ensures resolved == Resolve(Unspent(State()), requested, fallback(Unspent(State())))
    {
      var left := RemainingAll();
      var defaults := fallback(left);
      resolved := ZERO;
      for k := 0 to |ALL_RESOURCES|
        invariant forall j :: 0 <= j < k ==>
          resolved.Get(ALL_RESOURCES[j]) == Resolve(left, requested, defaults).Get(ALL_RESOURCES[j])
      {
        var r := ALL_RESOURCES[k];
        resolved := resolved.With(r, Min(requested.Get(r).GetOr(defaults.Get(r).GetOr(0.0)), left.Get(r)));
      }
      SameAmounts(resolved, Resolve(left, requested, defaults));
    }

    method ChargeAllocation(allocation: Amounts)
      modifies this
      ensures State() == ChargeAll(old(State()), allocation)
    {
      for k := 0 to |ALL_RESOURCES|
        invariant State() == ChargeFirst(old(State()), allocation, k)
      {
        var amount := allocation.Get(ALL_RESOURCES[k]);
        if amount > 0.0 {
          var _ := Consume(ALL_RESOURCES[k], amount);
        }
      }
    }

    method IsExhausted(clock: real, aborted: bool) returns (exhausted: bool)
      ensures exhausted == Exhausted(State(), clock, aborted)
    {
      var spent := exists r | r in ALL_RESOURCES :: max.Get(r) - used.Get(r) <= 0.0;
      assert spent == CapacityExhausted(State());
      exhausted := reason.Some? || spent
        || (deadline.Some? && deadline.value != 0.0 && clock > deadline.value)
        || (watchesAbort && aborted);
    }

    method MergeConsumption(child: BudgetSlice)
      modifies this
      ensures State() == Merge(old(State()), old(child.State()))
    {
      for k := 0 to |ALL_RESOURCES|
        invariant State() == old(State()).(used := used)
        invariant this != child ==> child.State() == old(child.State())
        invariant forall j :: 0 <= j < k ==>
          used.Get(ALL_RESOURCES[j]) == MergeUsed(old(used), old(child.used)).Get(ALL_RESOURCES[j])
        invariant forall j :: k <= j < |ALL_RESOURCES| ==> used.Get(ALL_RESOURCES[j]) == old(used).Get(ALL_RESOURCES[j])
      {
        var r := ALL_RESOURCES[k];
        used := used.With(r, if r == Depth then Max(used.Get(r), child.used.Get(r))
                             else used.Get(r) + child.used.Get(r));
      }
      SameAmounts(used, MergeUsed(old(used), old(child.used)));
      if child.reason.Some? && reason.None? {
        reason := child.reason;
      }
    }
  }

  // ---- Merging consumption -----------------------------------------------------

  function MergeUsed(p: Amounts, c: Amounts): Amounts {
    Amounts(p.cycles + c.cycles, Max(p.depth, c.depth), p.memoryOps + c.memoryOps, p.llmCalls + c.llmCalls)
  }

  function Merge(p: Slice, c: Slice): Slice {
    p.(used := MergeUsed(p.used, c.used), reason := if p.reason.Some? then p.reason else c.reason)
  }
}
