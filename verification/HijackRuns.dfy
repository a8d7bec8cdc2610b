/**
 * Whole runs of a hijack bag: whatever is done to it and to the items' priorities, in any order,
 * every taking-in of an item is accounted for, and nothing live is lost.
 */
module HijackRuns {
  import opened BagItems
  import opened HijackBag
  import opened HijackTable
  import opened Options

  /** What callers do to the bag, and what the items' owner does to their priorities. */
  datatype BagOp =
    | PutOp(x: Item)
    | RemoveOp(k: Key)
    | CommitOp(update: Option<Priorities>)
    | CapacityOp(capacity: nat)
    | ClearOp
    | OwnerOp(pri: Priorities)

  /** One operation's account: what it took in, what it reported, and what it dropped unreported. */
  datatype Account = Account(entered: set<Item>, gone: set<Item>, dropped: set<Item>)

  const IDLE: Account := Account({}, {}, {})

  /**
   * What was held and what came in is held, reported or dropped, and only one of these; what is
   * dropped has been deleted by its owner.
   */
  ghost predicate Settles(a: Account, before: set<Item>, after: set<Item>, live: set<Item>) {
    && before !! a.entered && after !! a.gone && after + a.gone !! a.dropped
    && before + a.entered == after + a.gone + a.dropped
    && a.dropped !! live
  }

  /** The account of an operation that only loses items. */
  function Losing(before: set<Item>, after: set<Item>, gone: set<Item>): Account {
    Account({}, gone, before - after - gone)
  }

  lemma LosingSettles(before: set<Item>, after: set<Item>, gone: set<Item>, live: set<Item>)
    requires Accounts(before, after, gone, live)
    ensures Settles(Losing(before, after, gone), before, after, live)
  {
  }

  function PutAccount(before: set<Item>, after: set<Item>, x: Item, returning: Option<Item>, gone: set<Item>): Account {
    var entered := if returning == Some(x) && x !in before then {x} else {};
    Account(entered, gone, before + entered - after - gone)
  }

  lemma PutSettles(code: Key -> int, n: nat, v: Cells, p: Priorities, w: Cells, q: Priorities, x: Item,
                   returning: Option<Item>, gone: set<Item>)
    requires PutOutcome(code, n, v, p, w, q, x, returning, gone)
    ensures Settles(PutAccount(Held(v), Held(w), x, returning, gone), Held(v), Held(w), q.Keys)
  {
  }

  // ---- One operation --------------------------------------------------------------------------

  /** The bag is in order and its counter exact. */
  ghost predicate Exact(bag: HijackBag)
    reads bag, bag.values, bag.hashes
  {
    bag.Ok() && bag.size == |bag.Items()|
  }

  /** The bag's arrays are its own or new. */
  twostate predicate SameOrNew(bag: HijackBag)
    reads bag
  {
    (bag.values == old(bag.values) || fresh(bag.values)) && (bag.hashes == old(bag.hashes) || fresh(bag.hashes))
  }

  /** Items come in only by a put that is answered with them. */
  ghost predicate EnteredBy(a: Account, op: BagOp, answer: Option<Item>) {
    a.entered != {} ==> op.PutOp? && answer == Some(op.x) && a.entered == {op.x}
  }

  /** What an operation reports and drops; only a put and a change of capacity drop anything. */
  ghost predicate LeavesBy(a: Account, op: BagOp, answer: Option<Item>, before: set<Item>, after: set<Item>,
                           live: set<Item>)
  {
    match op
    case PutOp(_) => true
    case CapacityOp(_) => true
    case RemoveOp(k) =>
      && (answer.Some? ==> answer.value.key == k)
      && a == Account({}, if answer.Some? then {answer.value} else {}, {})
    case CommitOp(_) => a == Account({}, before - live, {})
    case ClearOp => a == Account({}, before, {}) && after == {}
    case OwnerOp(_) => a == IDLE
  }

  /** What an operation does to the priorities; a put can change only a held item of its key. */
  ghost predicate PricedBy(op: BagOp, before: set<Item>, p: Priorities, q: Priorities) {
    match op
    case OwnerOp(pri) => q == pri
    case CommitOp(update) => q == After(p, before, update)
    case PutOp(x) => forall y :: (y in before && y.key == x.key) || SamePrice(y, p, q)
    case _ => q == p
  }

  predicate SamePrice(y: Item, p: Priorities, q: Priorities) {
    (y in p <==> y in q) && (y in p ==> p[y] == q[y])
  }

  /** What is known of an operation: its account settles, and how items come, leave and are priced. */
  ghost predicate Accounted(op: BagOp, answer: Option<Item>, a: Account, before: set<Item>, p: Priorities,
                            after: set<Item>, q: Priorities)
  {
    && Settles(a, before, after, q.Keys) && a.entered <= p.Keys
    && EnteredBy(a, op, answer) && LeavesBy(a, op, answer, before, after, q.Keys) && PricedBy(op, before, p, q)
  }

  /** What is neither held nor live stays so, unless the owner revives it. */
  lemma DeadStaysDead(op: BagOp, before: set<Item>, p: Priorities, q: Priorities, y: Item)
    requires PricedBy(op, before, p, q) && y !in before && y !in p && (op.OwnerOp? ==> y !in op.pri)
    ensures y !in q
  {
    assert op.PutOp? ==> SamePrice(y, p, q);
  }

  lemma PutPrices(code: Key -> int, n: nat, v: Cells, p: Priorities, w: Cells, q: Priorities, x: Item,
                  returning: Option<Item>, gone: set<Item>)
    requires PutOutcome(code, n, v, p, w, q, x, returning, gone)
    ensures PricedBy(PutOp(x), Held(v), p, q)
  {
    if |v| > 0 && x in p && HoldsKey(v, x.key) {
      var held := returning.value;
      forall y | y != held ensures SamePrice(y, p, q) {
        assert y in p ==> y in p - {held};
        assert y in q ==> y in q - {held};
      }
    }
  }

  lemma PutAccounted(code: Key -> int, n: nat, v: Cells, p: Priorities, w: Cells, q: Priorities, x: Item,
                     returning: Option<Item>, gone: set<Item>)
    requires PutOutcome(code, n, v, p, w, q, x, returning, gone)
    ensures var a := PutAccount(Held(v), Held(w), x, returning, gone);
            a.gone == gone && Accounted(PutOp(x), returning, a, Held(v), p, Held(w), q)
  {
    PutSettles(code, n, v, p, w, q, x, returning, gone);
    PutPrices(code, n, v, p, w, q, x, returning, gone);
  }

  method Put(bag: HijackBag, x: Item) returns (answer: Option<Item>, ghost a: Account)
    requires Exact(bag)
    modifies bag, bag.values, bag.hashes
    ensures Exact(bag) && SameOrNew(bag) && bag.removed == old(bag.removed) + multiset(a.gone)
    ensures Accounted(PutOp(x), answer, a, old(bag.Items()), old(bag.pri), bag.Items(), bag.pri)
  {
    ghost var v, p := bag.values[..], bag.pri;
    var returning, gone := bag.Put(x);
    PutAccounted(bag.code, bag.reprobes, v, p, bag.values[..], bag.pri, x, returning, gone);
    answer, a := returning, PutAccount(Held(v), bag.Items(), x, returning, gone);
  }

  method Remove(bag: HijackBag, k: Key) returns (answer: Option<Item>, ghost a: Account)
    requires Exact(bag)
    modifies bag, bag.values, bag.hashes
    ensures Exact(bag) && SameOrNew(bag) && bag.removed == old(bag.removed) + multiset(a.gone)
    ensures Accounted(RemoveOp(k), answer, a, old(bag.Items()), old(bag.pri), bag.Items(), bag.pri)
  {
    answer := bag.Remove(k);
    a := if answer.Some? then Account({}, {answer.value}, {}) else IDLE;
  }

  /** Everything else that is done to the bag only loses items. */
  method Tidy(bag: HijackBag, op: BagOp) returns (ghost a: Account)
    requires Exact(bag) && (op.CommitOp? || op.CapacityOp? || op.ClearOp?)
    modifies bag, bag.values, bag.hashes
    ensures Exact(bag) && SameOrNew(bag) && bag.removed == old(bag.removed) + multiset(a.gone)
    ensures Accounted(op, None, a, old(bag.Items()), old(bag.pri), bag.Items(), bag.pri)
  {
    ghost var before, gone := bag.Items(), bag.Items();
    match op {
      case CommitOp(update) =>
        gone := bag.CommitAll(update);
      case CapacityOp(capacity) =>
        gone := bag.SetCapacity(capacity);
      case ClearOp =>
        bag.Clear();
    }
    LosingSettles(before, bag.Items(), gone, bag.pri.Keys);
    a := Losing(before, bag.Items(), gone);
  }

  method Perform(bag: HijackBag, op: BagOp) returns (answer: Option<Item>, ghost a: Account)
    requires Exact(bag)
    modifies bag, bag.values, bag.hashes
    ensures Exact(bag) && SameOrNew(bag) && bag.removed == old(bag.removed) + multiset(a.gone)
    ensures Accounted(op, answer, a, old(bag.Items()), old(bag.pri), bag.Items(), bag.pri)
  {
    answer := None;
    match op
    case PutOp(x) => answer, a := Put(bag, x);
    case RemoveOp(k) => answer, a := Remove(bag, k);
    case OwnerOp(pri) =>
      bag.pri := pri;
      a := IDLE;
    case _ => a := Tidy(bag, op);
  }

  // ---- Whole runs -----------------------------------------------------------------------------

  /** What is held and what is live at some moment of a run. */
  datatype Moment = Moment(held: set<Item>, pri: Priorities)

  /** A run step by step: what was done, what it answered, its account, and the moments between the steps. */
  datatype Trace = Trace(ops: seq<BagOp>, answers: seq<Option<Item>>, book: seq<Account>, moments: seq<Moment>)

  /** Every step of the run is accounted for. */
  ghost predicate Traced(t: Trace) {
    && |t.answers| == |t.book| == |t.ops| && |t.moments| == |t.ops| + 1
    && forall i :: 0 <= i < |t.ops| ==> StepTraced(t, i)
  }

  ghost predicate StepTraced(t: Trace, i: nat)
    requires |t.answers| == |t.book| == |t.ops| && |t.moments| == |t.ops| + 1 && i < |t.ops|
  {
    var (m, n) := (t.moments[i], t.moments[i + 1]);
    Accounted(t.ops[i], t.answers[i], t.book[i], m.held, m.pri, n.held, n.pri)
  }

  function Extended(t: Trace, op: BagOp, answer: Option<Item>, a: Account, m: Moment): Trace {
    Trace(t.ops + [op], t.answers + [answer], t.book + [a], t.moments + [m])
  }

  lemma TracedOn(t: Trace, op: BagOp, answer: Option<Item>, a: Account, m: Moment)
    requires Traced(t)
    requires var last := t.moments[|t.ops|]; Accounted(op, answer, a, last.held, last.pri, m.held, m.pri)
    ensures Traced(Extended(t, op, answer, a, m))
  {
    var u := Extended(t, op, answer, a, m);
    forall i | 0 <= i < |u.ops| ensures StepTraced(u, i) {
      assert i == |t.ops| || StepTraced(t, i);
    }
  }

  /** How often each item was taken in, reported and dropped. */
  datatype Ledger = Ledger(taken: multiset<Item>, reported: multiset<Item>, dropped: multiset<Item>)

  function Booked(l: Ledger, a: Account): Ledger {
    Ledger(l.taken + multiset(a.entered), l.reported + multiset(a.gone), l.dropped + multiset(a.dropped))
  }

  /** The ledger after the first `i` operations. */
  function Ledgered(first: set<Item>, book: seq<Account>, i: nat): Ledger
    requires i <= |book|
  {
    if i == 0 then Ledger(multiset(first), multiset{}, multiset{})
    else Booked(Ledgered(first, book, i - 1), book[i - 1])
  }

  lemma {:induction false} LedgeredPrefix(first: set<Item>, book: seq<Account>, a: Account, i: nat)
    requires i <= |book|
    ensures Ledgered(first, book + [a], i) == Ledgered(first, book, i)
  {
    if i > 0 {
      LedgeredPrefix(first, book, a, i - 1);
    }
  }

  lemma BookingBalances(l: Ledger, before: set<Item>, a: Account, after: set<Item>, live: set<Item>)
    requires l.taken == multiset(before) + l.reported + l.dropped && Settles(a, before, after, live)
    ensures var m := Booked(l, a); m.taken == multiset(after) + m.reported + m.dropped
  {
    assert multiset(before) + multiset(a.entered) == multiset(before + a.entered);
    assert multiset(after) + multiset(a.gone) + multiset(a.dropped) == multiset(after + a.gone + a.dropped);
  }

  /**
   * Every taking-in is accounted for: at each moment of a run, how often an item was held at first
   * or taken in since is how often it is held, was reported, or was dropped.
   */
  lemma {:induction false} LedgerBalances(t: Trace, i: nat)
    requires Traced(t) && i <= |t.ops|
    ensures var l := Ledgered(t.moments[0].held, t.book, i);
            l.taken == multiset(t.moments[i].held) + l.reported + l.dropped
  {
    if i > 0 {
      LedgerBalances(t, i - 1);
      assert StepTraced(t, i - 1);
      var (m, n) := (t.moments[i - 1], t.moments[i]);
      BookingBalances(Ledgered(t.moments[0].held, t.book, i - 1), m.held, t.book[i - 1], n.held, n.pri.Keys);
    }
  }

  /**
   * Nothing live gets lost: an item held at one moment and not at a later one was reported in
   * between, or dropped at a moment when it was not live.
   */
  lemma {:induction false} NothingLiveIsLost(t: Trace, y: Item, i: nat, j: nat)
    requires Traced(t) && i <= j <= |t.ops| && y in t.moments[i].held && y !in t.moments[j].held
    ensures exists k :: i <= k < j && LostAt(t, y, k)
  {
    assert StepTraced(t, j - 1);
    if y in t.moments[j - 1].held {
      assert LostAt(t, y, j - 1);
    } else {
      NothingLiveIsLost(t, y, i, j - 1);
      var k :| i <= k < j - 1 && LostAt(t, y, k);
    }
  }

  /** The step reports the item, or drops it and then it is not live. */
  ghost predicate LostAt(t: Trace, y: Item, k: nat)
    requires k < |t.book| && |t.moments| == |t.book| + 1
  {
    y in t.book[k].gone || (y in t.book[k].dropped && y !in t.moments[k + 1].pri)
  }

  /** What was dropped stays away, neither live nor held, until the owner revives that very item. */
  lemma {:induction false} DroppedStaysDead(t: Trace, y: Item, i: nat, j: nat)
    requires Traced(t) && i < j <= |t.ops| && y in t.book[i].dropped
    requires forall k :: i < k < j && t.ops[k].OwnerOp? ==> y !in t.ops[k].pri
    ensures y !in t.moments[j].held && y !in t.moments[j].pri
  {
    assert StepTraced(t, j - 1);
    if i < j - 1 {
      DroppedStaysDead(t, y, i, j - 1);
      DeadStaysDead(t.ops[j - 1], t.moments[j - 1].held, t.moments[j - 1].pri, t.moments[j].pri, y);
    }
  }

  /** What comes in comes in by a put of that item that is answered with it, and is live before. */
  lemma {:induction false} EntersByPut(t: Trace, y: Item, i: nat, j: nat)
    requires Traced(t) && i <= j <= |t.ops| && y !in t.moments[i].held && y in t.moments[j].held
    ensures exists k :: i <= k < j && t.ops[k] == PutOp(y) && t.answers[k] == Some(y) && y in t.moments[k].pri
  {
    assert StepTraced(t, j - 1);
    if y !in t.moments[j - 1].held {
      assert t.ops[j - 1] == PutOp(y);
    } else {
      EntersByPut(t, y, i, j - 1);
    }
  }

  /** All that was reported in a run. */
  function Reported(t: Trace): multiset<Item>
    requires |t.moments| > 0
  {
    Ledgered(t.moments[0].held, t.book, |t.book|).reported
  }

  lemma ReportedOn(t: Trace, op: BagOp, answer: Option<Item>, a: Account, m: Moment)
    requires |t.moments| > 0
    ensures Reported(Extended(t, op, answer, a, m)) == Reported(t) + multiset(a.gone)
  {
    LedgeredPrefix(t.moments[0].held, t.book, a, |t.book|);
  }

  /** The trace ends where the bag is, and what the bag has reported since `r` is what the accounts say. */
  ghost predicate Shows(bag: HijackBag, t: Trace, r: multiset<Item>)
    reads bag, bag.values
  {
    && Traced(t) && t.moments[|t.ops|] == Moment(bag.Items(), bag.pri)
    && bag.removed == r + Reported(t)
  }

  /** One more operation of a run. */
  method Proceed(bag: HijackBag, op: BagOp, ghost t: Trace, ghost r: multiset<Item>)
    returns (answer: Option<Item>, ghost u: Trace)
    requires Exact(bag) && Shows(bag, t, r)
    modifies bag, bag.values, bag.hashes
    ensures Exact(bag) && SameOrNew(bag) && Shows(bag, u, r)
    ensures u.ops == t.ops + [op] && u.answers == t.answers + [answer] && u.moments[0] == t.moments[0]
  {
    ghost var a;
    answer, a := Perform(bag, op);
    ghost var m := Moment(bag.Items(), bag.pri);
    TracedOn(t, op, answer, a, m);
    ReportedOn(t, op, answer, a, m);
    u := Extended(t, op, answer, a, m);
  }

  /**
   * Any run of calls, mixed with what the owner does to the priorities, has a trace from the state
   * before to the state after in which every step is accounted for; the size counter is exact, and
   * the reports are those of the accounts.  So the laws of traces hold of the bag.
   */
  method PerformAll(bag: HijackBag, ops: seq<BagOp>) returns (answers: seq<Option<Item>>, ghost t: Trace)
    requires Exact(bag)
    modifies bag, bag.values, bag.hashes
    ensures Exact(bag) && SameOrNew(bag)
    ensures t.ops == ops && t.answers == answers && Shows(bag, t, old(bag.removed))
    ensures t.moments[0] == Moment(old(bag.Items()), old(bag.pri))
  {
    if ops == [] {
      return [], Trace([], [], [], [Moment(bag.Items(), bag.pri)]);
    }
    var n := |ops| - 1;
    assert ops[..n] + [ops[n]] == ops;
    answers, t := PerformAll(bag, ops[..n]);
    var answer;
    answer, t := Proceed(bag, ops[n], t, old(bag.removed));
    answers := answers + [answer];
  }

  // ---- Clearing beyond the capacity -------------------------------------------------------------

  /** A put into an empty window fills a cell. */
  lemma EmptyWindowTakes(code: Key -> int, n: nat, v: Cells, p: Priorities, w: Cells, q: Priorities, x: Item,
                         returning: Option<Item>, gone: set<Item>)
    requires n > 0 && v == [None] && |w| == 1 && x in p
    requires PutOutcome(code, n, v, p, w, q, x, returning, gone)
    ensures x in Held(w)
  {
    assert Probe(Index(Hash(code, x.key), 1), 0, 1) == 0;
    assert !HoldsKey(v, x.key);
  }

  lemma OneEmptyCell(v: Cells)
    requires |v| == 1
    ensures v == [None] || Held(v) != {}
  {
    if v[0].Some? {
      assert v[0].value in Held(v);
    }
  }

  /** A bag of capacity one and window three that took an item in and was cleared: three cells. */
  method ClearedBeyondCapacity(code: Key -> int, x: Item) returns (bag: HijackBag)
    ensures Exact(bag) && bag.capacity == 1 < bag.Space()
  {
    bag := new HijackBag(3, code);
    var _ := bag.SetCapacity(1);
    bag.pri := map[x := 1.0];
    ghost var v := bag.values[..];
    OneEmptyCell(v);
    var returning, gone := bag.Put(x);
    EmptyWindowTakes(code, 3, v, map[x := 1.0], bag.values[..], bag.pri, x, returning, gone);
    bag.Clear();
  }
}
