/**
 * Whole runs of an array bag: how far its structures stay in agreement, and what happens to a bag
 * in which a clearing missed some items.
 */
module ArrayBagRuns {
  import opened BagItems
  import opened Options
  import opened TopK
  import opened ArrayBagRep
  import opened ArrayBag

  /** What callers do to the bag, and what the items' owner does to their priorities. */
  datatype BagOp =
    | PutOp(x: Item)
    | RemoveOp(k: Key)
    | CommitOp(update: Option<map<Item, real>>)
    | PopOp(n: int, update: Option<map<Item, real>>)
    | CapacityOp(after: nat)
    | OwnerOp(own: map<Item, real>)

  /** The operation clears the bag, and some item sits beyond the limit. */
  predicate Misses(bag: ArrayBag, op: BagOp)
    reads bag
  {
    op.PopOp? && 0 < |bag.ids| <= op.n && exists i :: i in bag.used && i >= bag.cap
  }

  /** The bag's arrays are its own or new. */
  twostate predicate SameOrNew(bag: ArrayBag)
    reads bag
  {
    (bag.slots == old(bag.slots) && bag.pri == old(bag.pri)) || (fresh(bag.slots) && fresh(bag.pri))
  }

  /** No slot is beyond the limit. */
  predicate Snug(bag: ArrayBag)
    reads bag
  {
    bag.slots.Length == bag.cap
  }

  /** One operation keeps the structures in agreement, exactly unless it is a clearing that misses an item. */
  method Perform(bag: ArrayBag, op: BagOp)
    requires bag.Valid()
    modifies bag, bag.slots, bag.pri
    ensures bag.Valid() <==> !old(Misses(bag, op))
    ensures bag.capacity == bag.cap == (if op.CapacityOp? then op.after else old(bag.capacity)) && SameOrNew(bag)
    ensures old(Snug(bag)) && (op.CapacityOp? ==> old(bag.capacity) <= op.after) ==> Snug(bag)
    ensures old(NotedLow(bag)) ==> NotedLow(bag)
  {
    match op
    case PutOp(x) => PerformPut(bag, x);
    case RemoveOp(k) => PerformRemove(bag, k);
    case CommitOp(update) => PerformCommit(bag, update);
    case PopOp(n, update) => PerformPop(bag, n, update);
    case CapacityOp(after) => PerformCapacity(bag, after);
    case OwnerOp(own) => bag.own := own;
  }

  method PerformRemove(bag: ArrayBag, k: Key)
    requires bag.Valid()
    modifies bag, bag.slots, bag.pri
    ensures bag.Valid() && bag.Limits() == old(bag.Limits())
    ensures old(NotedLow(bag)) ==> NotedLow(bag)
  {
    var _ := bag.Remove(k);
  }

  method PerformCommit(bag: ArrayBag, update: Option<map<Item, real>>)
    requires bag.Valid()
    modifies bag, bag.slots, bag.pri
    ensures bag.Valid() && bag.Limits() == old(bag.Limits()) && NotedLow(bag)
  {
    bag.Commit(update);
    LowestIsLow(bag.R());
  }

  method PerformCapacity(bag: ArrayBag, after: nat)
    requires bag.Valid()
    modifies bag, bag.slots, bag.pri
    ensures bag.Valid() && bag.capacity == after && SameOrNew(bag)
    ensures bag.slots.Length == if old(bag.slots.Length) < after then after else old(bag.slots.Length)
    ensures old(NotedLow(bag)) ==> NotedLow(bag)
  {
    bag.SetCapacity(after);
    LowestIsLow(bag.R());
  }

  /** What is noted as the lowest priority, if anything, is no higher than any priority held. */
  ghost predicate NotedLow(bag: ArrayBag)
    reads bag, bag.slots, bag.pri
  {
    bag.priMin.Some? ==> NoneBelow(bag.Entries(), bag.priMin.value)
  }

  ghost predicate NoneBelow(v: seq<Entry>, low: real) {
    forall e :: e in v ==> low <= e.pri
  }

  lemma LowestIsLow(r: Rep)
    requires Sorted(r)
    ensures NoneBelow(View(r), Lowest(View(r)))
  {
    ViewDescends(r);
    var v := View(r);
    forall a | 0 <= a < |v| ensures v[|v| - 1].pri <= v[a].pri {
      assert PrisOf(v)[|v| - 1] <= PrisOf(v)[a];
    }
  }

  method PerformPut(bag: ArrayBag, x: Item)
    requires bag.Valid()
    modifies bag, bag.slots, bag.pri
    ensures bag.Valid() && bag.Limits() == old(bag.Limits())
    ensures old(NotedLow(bag)) ==> NotedLow(bag)
  {
    ghost var v, low := bag.Entries(), bag.priMin;
    var result := bag.Put(x);
    LowestIsLow(bag.R());
    NotesLow(v, low, x, result, bag.Entries(), bag.priMin);
  }

  lemma NotesLow(v: seq<Entry>, was: Option<real>, x: Item, result: PutResult, w: seq<Entry>, low: Option<real>)
    requires Notes(result, was, v, low, w) && NoneBelow(w, Lowest(w))
    requires result.Accepted? || result.Merged? || w == v
    requires result.Merged? ==> Exchanges(v, x, result.existing, result.pri, w)
    ensures (was.Some? ==> NoneBelow(v, was.value)) ==> (low.Some? ==> NoneBelow(w, low.value))
  {
    if result.Merged? && (was.Some? ==> NoneBelow(v, was.value)) {
      MergeNotes(v, was, x, result.existing, result.pri, w, low);
    }
  }

  lemma MergeNotes(v: seq<Entry>, was: Option<real>, x: Item, existing: Item, p: Option<real>, w: seq<Entry>,
                   low: Option<real>)
    requires Exchanges(v, x, existing, p, w) && (low == Lowered(was, p) || (low == was && w == v))
    requires was.Some? ==> NoneBelow(v, was.value)
    ensures low.Some? ==> NoneBelow(w, low.value)
  {
    var now := Entry(existing, if p.Some? then p.value else -1.0);
    forall e | e in w && e != now ensures e in v {
      assert e in multiset(w);
    }
  }

  method PerformPop(bag: ArrayBag, n: int, update: Option<map<Item, real>>)
    requires bag.Valid()
    modifies bag, bag.slots, bag.pri
    ensures bag.Valid() <==> !old(Misses(bag, PopOp(n, update)))
    ensures bag.Limits() == old(bag.Limits())
    ensures old(NotedLow(bag)) ==> NotedLow(bag)
  {
    ghost var v := bag.Entries();
    var _ := bag.PopBatch(n, update);
    if 0 < n < |v| {
      LowestIsLow(bag.R());
    }
  }

  /** The capacity after some operations. */
  function CapacityAfter(capacity: nat, ops: seq<BagOp>): nat {
    if ops == [] then capacity
    else if ops[|ops| - 1].CapacityOp? then ops[|ops| - 1].after
    else CapacityAfter(capacity, ops[..|ops| - 1])
  }

  predicate NeverShrinks(capacity: nat, ops: seq<BagOp>) {
    forall i | 0 <= i < |ops| && ops[i].CapacityOp? :: CapacityAfter(capacity, ops[..i]) <= ops[i].after
  }

  /**
   * A run up to the first clearing that would miss an item: until then all structures agree.  A
   * run that never lowers the capacity of a bag whose arrays are no longer than its limit does not
   * get to such a clearing at all.
   */
  method PerformAll(bag: ArrayBag, ops: seq<BagOp>) returns (done: nat)
    requires bag.Valid()
    modifies bag, bag.slots, bag.pri
    ensures bag.Valid() && done <= |ops| && (done < |ops| ==> Misses(bag, ops[done]))
    ensures old(Snug(bag)) && NeverShrinks(old(bag.capacity), ops) ==> done == |ops|
  {
    done := 0;
    while done < |ops| && !Misses(bag, ops[done])
      invariant bag.Valid() && done <= |ops| && SameOrNew(bag)
      invariant bag.capacity == CapacityAfter(old(bag.capacity), ops[..done])
      invariant old(Snug(bag)) && NeverShrinks(old(bag.capacity), ops) ==> Snug(bag)
    {
      assert ops[..done + 1][..done] == ops[..done];
      Perform(bag, ops[done]);
      done := done + 1;
    }
    if done < |ops| {
      UsedFits(bag);
    }
  }

  lemma UsedFits(bag: ArrayBag)
    requires bag.Valid()
    ensures forall i :: i in bag.used ==> i < bag.slots.Length
  {
  }

  // ---- After a clearing that missed something ---------------------------------------------------

  /** All of the bag agrees but for the slots of some stray items, which count as used. */
  ghost predicate Strayed(bag: ArrayBag, strays: set<nat>)
    reads bag, bag.slots, bag.pri
  {
    && AgreeBut(bag.R(), strays) && strays <= bag.used && Sorted(bag.R())
    && bag.capacity == bag.cap == bag.slots.Length
  }

  /** A clearing that missed something, and a growth: the items missed are strays. */
  method ClearAndGrow(bag: ArrayBag, n: int, after: nat) returns (ghost strays: set<nat>)
    requires bag.Valid() && 0 < |bag.ids| <= n && bag.slots.Length < after
    modifies bag, bag.slots, bag.pri
    ensures strays == (set i | i in old(bag.used) && i >= old(bag.cap))
    ensures Strayed(bag, strays) && bag.capacity == after
    ensures bag.ids == [] && bag.keys == map[] && bag.own == old(bag.own)
  {
    ghost var r, cap := bag.R(), bag.cap;
    strays := set i | i in bag.used && i >= bag.cap;
    ClearedLeaves(r, cap);
    GrownAmong(Cleared(r, cap), after, strays);
    var _ := bag.PopBatch(n, None);
    bag.SetCapacityWhenEmpty(after);
  }

  /** A put into such a bag throws exactly when listed and stray items fill all its slots. */
  method PutStrayed(bag: ArrayBag, x: Item, ghost strays: set<nat>) returns (thrown: bool)
    requires Strayed(bag, strays) && x in bag.own && x.key !in bag.keys && |bag.ids| < bag.capacity
    modifies bag, bag.slots, bag.pri
    ensures Strayed(bag, strays) && bag.Limits() == old(bag.Limits()) && bag.own == old(bag.own)
    ensures thrown <==> |old(bag.ids)| + |strays| == bag.capacity
    ensures thrown ==> bag.R() == old(bag.R())
    ensures !thrown ==> |bag.ids| == |old(bag.ids)| + 1 && bag.keys.Keys == old(bag.keys.Keys) + {x.key}
  {
    ghost var r := bag.R();
    NoSlotIff(r, strays);
    thrown := bag.PutAmong(x, strays);
    if !thrown {
      FiledFirstAmong(r, bag.cap, x, Floored(bag.own[x], bag.epsilon), bag.R(), strays);
    }
  }

  /**
   * So of new live items offered one by one, exactly as many are taken as there are slots without a
   * stray or listed item; the next one throws, though the bag is below its capacity.
   */
  method Fill(bag: ArrayBag, xs: seq<Item>, ghost strays: set<nat>) returns (taken: nat)
    requires Strayed(bag, strays) && strays != {}
    requires DistinctKeys(xs) && forall x :: x in xs ==> x in bag.own && x.key !in bag.keys
    modifies bag, bag.slots, bag.pri
    ensures Strayed(bag, strays) && |bag.ids| == |old(bag.ids)| + taken
    ensures var free := old(bag.capacity) - |old(bag.ids)| - |strays|;
            free >= 0 && taken == if |xs| <= free then |xs| else free
  {
    NoSlotIff(bag.R(), strays);
    taken := 0;
    while taken < |xs|
      invariant Strayed(bag, strays) && taken <= |xs| && bag.Limits() == old(bag.Limits()) && bag.own == old(bag.own)
      invariant |bag.ids| == |old(bag.ids)| + taken && |bag.ids| + |strays| <= bag.capacity
      invariant forall j :: taken <= j < |xs| ==> xs[j].key !in bag.keys
    {
      assert |strays| > 0;
      var thrown := PutStrayed(bag, xs[taken], strays);
      if thrown {
        return;
      }
      taken := taken + 1;
      NoSlotIff(bag.R(), strays);
    }
  }

  // ---- A way to a stray -------------------------------------------------------------------------

  lemma EmptyRep(r: Rep)
    requires Agree(r) && r.ids == []
    ensures r.used == {} && r.keys == map[]
  {
    assert forall k :: k in r.keys ==> r.keys[k] in r.ids;
    assert r.keys.Keys == {};
  }

  /** The first item of an empty bag goes to slot 0, a second one to slot 1. */
  lemma FirstSlots()
    ensures FirstFree({}, 2) == 0 && FirstFree({0}, 2) == 1
  {
    assert FirstFreeFrom({0}, 0, 2) == FirstFreeFrom({0}, 1, 2);
  }

  lemma {:induction false} AllLiveStay(v: seq<Entry>, live: set<Item>)
    requires forall e :: e in v ==> e.item in live
    ensures LiveOnly(v, live) == v
  {
    if v != [] {
      var n := |v| - 1;
      assert v == v[..n] + [v[n]];
      AllLiveStay(v[..n], live);
    }
  }

  /** Live entries in order are left alone but for the cut. */
  lemma InOrderStay(v: seq<Entry>, live: set<Item>, k: nat)
    requires Descending(PrisOf(v)) && forall e :: e in v ==> e.item in live
    ensures CommitView(v, None, live, k) == Cut(v, k)
  {
    AllRefreshed(v, None);
    AllLiveStay(v, live);
    SortedEntriesStay(v);
  }

  /** The better of two entries goes before the other. */
  lemma BetterFirst(low: Entry, high: Entry)
    requires low.pri < high.pri
    ensures InsertEntry([], low) == [low] && InsertEntry([low], high) == [high, low]
  {
    RankUnique(PrisOf([]), low.pri, 0);
    RankUnique(PrisOf([low]), high.pri, 0);
  }

  lemma FirstOfTwo(e: Entry)
    ensures FirstFree({}, 2) == 0 && InsertEntry([], e) == [e]
  {
    RankUnique(PrisOf([]), e.pri, 0);
  }

  /** What the one entry listed is filed under is used. */
  lemma SlotIsUsed(r: Rep, e: Entry)
    requires Agree(r) && View(r) == [e]
    ensures e.item.key in r.keys && r.keys[e.item.key] in r.used
  {
    assert e in View(r);
    KeysAreViewed(r, e.item.key);
  }

  /** A put of a new live item where there is room. */
  method PutNew(bag: ArrayBag, x: Item, p: real)
    requires bag.Valid() && x in bag.own && p == Floored(bag.own[x], bag.epsilon)
    requires x.key !in bag.keys && |bag.ids| < bag.capacity
    modifies bag, bag.slots, bag.pri
    ensures bag.Valid() && bag.Limits() == old(bag.Limits()) && bag.own == old(bag.own)
    ensures var i := FirstFree(old(bag.used), bag.cap);
            bag.keys == old(bag.keys)[x.key := i] && bag.used == old(bag.used) + {i}
    ensures bag.Entries() == InsertEntry(old(bag.Entries()), Entry(x, p))
  {
    var _ := bag.Put(x);
  }

  /** An empty bag of two in which two items are live. */
  method EmptyPair(low: Item, high: Item) returns (bag: ArrayBag)
    requires low.key != high.key
    ensures fresh(bag) && fresh(bag.slots) && fresh(bag.pri) && bag.Valid() && bag.capacity == 2 && Snug(bag)
    ensures bag.Entries() == [] && bag.keys == map[] && bag.used == {}
    ensures bag.own == map[low := 0.25, high := 0.5] && bag.epsilon == 0.0
  {
    bag := new ArrayBag(0.0);
    bag.SetCapacity(2);
    bag.own := map[low := 0.25, high := 0.5];
    EmptyRep(bag.R());
  }

  /** The same bag with the first item in it. */
  method FilledOnce(low: Item, high: Item) returns (bag: ArrayBag)
    requires low.key != high.key
    ensures fresh(bag) && fresh(bag.slots) && fresh(bag.pri) && bag.Valid() && bag.capacity == 2 && Snug(bag)
    ensures bag.Entries() == [Entry(low, 0.25)] && bag.keys == map[low.key := 0] && bag.used == {0}
    ensures bag.own == map[low := 0.25, high := 0.5] && bag.epsilon == 0.0
  {
    bag := EmptyPair(low, high);
    FirstOfTwo(Entry(low, 0.25));
    PutNew(bag, low, 0.25);
  }

  /** The same bag with both items in it, the better one in the second slot. */
  method FilledPair(low: Item, high: Item) returns (bag: ArrayBag)
    requires low.key != high.key
    ensures fresh(bag) && fresh(bag.slots) && fresh(bag.pri) && bag.Valid() && bag.capacity == 2 && Snug(bag)
    ensures bag.Entries() == [Entry(high, 0.5), Entry(low, 0.25)] && bag.own.Keys == {low, high}
    ensures bag.keys == map[low.key := 0, high.key := 1]
  {
    bag := FilledOnce(low, high);
    BetterFirst(Entry(low, 0.25), Entry(high, 0.5));
    FirstSlots();
    PutNew(bag, high, 0.5);
  }

  /** A bag of two, filled and shrunk to one: the item that stays sits in the second slot. */
  method ShrunkPair(low: Item, high: Item) returns (bag: ArrayBag)
    requires low.key != high.key
    ensures fresh(bag) && fresh(bag.slots) && fresh(bag.pri)
    ensures bag.Valid() && bag.capacity == 1 && bag.slots.Length == 2 && |bag.ids| == 1 && 1 in bag.used
  {
    bag := FilledPair(low, high);
    InOrderStay(bag.Entries(), bag.own.Keys, 1);
    bag.SetCapacity(1);
    SlotIsUsed(bag.R(), Entry(high, 0.5));
  }

  /**
   * By calls alone: a bag of three that is empty, its structures not in agreement, and that takes
   * only two items.
   */
  method StrayedBag(low: Item, high: Item) returns (bag: ArrayBag, ghost strays: set<nat>)
    requires low.key != high.key
    ensures !bag.Valid() && bag.capacity == 3 && bag.ids == [] && bag.keys == map[]
    ensures Strayed(bag, strays) && |strays| == 1
  {
    bag := ShrunkPair(low, high);
    UsedFits(bag);
    strays := ClearAndGrow(bag, 1, 3);
    assert strays == {1};
    assert 1 in bag.used;
  }
}
