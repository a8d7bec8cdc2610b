/**
 * The array bag (docs/java/ArrayBag.java) with its list model, run sequentially.
 *
 * `own` holds the items' own priorities, which their owner may change at any time; an item
 * that is absent there has been deleted.  `pri` holds the bag's copies, one per slot.
 * `evicted` is the list of items removed without being asked for.
 */
module ArrayBag {
  import opened BagItems
  import opened Numbers
  import opened Options
  import opened Sequences
  import opened TopK
  import opened ArrayBagRep
  import opened ZigZag

  datatype PutResult =
    | Accepted | Rejected | Deleted
    | Merged(existing: Item, pri: Option<real>)
    | SameInstance

  class ArrayBag {
    const epsilon: real
    var capacity: nat
    var own: map<Item, real>
    /** The lowest priority as last noted; nothing after a merge that gave none. */
    var priMin: Option<real>
    // the list model
    var keys: map<Key, nat>
    var slots: array<Option<Item>>
    var pri: array<Option<real>>
    var used: set<nat>
    var cap: nat
    // the sorted id list
    var ids: seq<nat>
    ghost var evicted: seq<Item>

    ghost function R(): Rep
      reads this, slots, pri
    {
      Rep(keys, slots[..], pri[..], used, ids)
    }

    ghost function Entries(): seq<Entry>
      reads this, slots, pri
    {
      View(R())
    }

    /** What no operation on the contents changes. */
    ghost function Limits(): (nat, nat, array<Option<Item>>, array<Option<real>>)
      reads this
    {
      (capacity, cap, slots, pri)
    }

    /** All structures agree, the list is sorted, and the size is within the capacity. */
    ghost predicate Valid()
      reads this, slots, pri
    {
      Agree(R()) && Sorted(R()) && |ids| <= capacity == cap <= slots.Length
    }

    constructor (epsilon: real)
      ensures Valid() && Entries() == [] && capacity == 0 && evicted == [] && this.epsilon == epsilon
      ensures fresh(slots) && fresh(pri) && own == map[] && slots.Length == 0
    {
      this.epsilon := epsilon;
      capacity, own, priMin, keys, used, cap, ids, evicted := 0, map[], Some(0.0), map[], {}, 0, [], [];
      slots, pri := new Option<Item>[0], new Option<real>[0];
    }

    method Get(k: Key) returns (found: Option<Item>)
      requires Valid()
      ensures found.Some? <==> exists e :: e in Entries() && e.item.key == k
      ensures found.Some? ==> found.value.key == k && exists e :: e in Entries() && e.item == found.value
    {
      KeysAreViewed(R(), k);
      if k !in keys {
        return None;
      }
      found := slots[keys[k]];
      assert keys[k] in ids;
      ghost var a :| 0 <= a < |ids| && ids[a] == keys[k];
      assert Entries()[a] in Entries();
    }

    /** The first clear bit below `cap`, which is then set; -1 when there is none. */
    method SetNext() returns (i: int)
      modifies this`used
      ensures i < 0 <==> FirstFree(old(used), cap) == cap
      ensures i < 0 ==> used == old(used)
      ensures i >= 0 ==> i == FirstFree(old(used), cap) && R() == old(R()).(used := old(used) + {i})
      ensures Limits() == old(Limits())
    {
      for j: nat := 0 to cap
        invariant used == old(used)
        invariant FirstFreeFrom(used, j, cap) == FirstFree(used, cap)
      {
        if j !in used {
          used := used + {j};
          return j;
        }
      }
      return -1;
    }

    /** Removes the item at place `a` from the list and from the model. */
    method RemoveAt(a: nat) returns (removed: Item)
      requires Agree(R()) && a < |ids|
      modifies this`keys, this`used, this`ids, slots, pri
      ensures Agree(R()) && (old(Sorted(R())) ==> Sorted(R())) && |ids| == |old(ids)| - 1
      ensures removed == old(Entries())[a].item
      ensures Entries() == old(Entries())[..a] + old(Entries())[a + 1..]
      ensures Limits() == old(Limits()) && own == old(own) && KeepsSlots(old(keys), keys)
    {
      ListedInRange(R(), a);
      DroppedAgrees(R(), a);
      var i := ids[a];
      removed := slots[i].value;
      keys, used, ids := keys - {removed.key}, used - {i}, Without(ids, a);
      slots[i], pri[i] := None, None;
      assert R() == Dropped(old(R()), a);
    }

    /** Removal by key; every structure forgets exactly that item. */
    method Remove(k: Key) returns (removed: Option<Item>)
      requires Valid()
      modifies this`keys, this`used, this`ids, slots, pri
      ensures Valid() && Limits() == old(Limits())
      ensures removed.None? ==> Entries() == old(Entries()) && forall e :: e in Entries() ==> e.item.key != k
      ensures removed.Some? ==> exists a ::
                && 0 <= a < |old(Entries())| && old(Entries())[a].item == removed.value && removed.value.key == k
                && Entries() == old(Entries())[..a] + old(Entries())[a + 1..]
    {
      KeysAreViewed(R(), k);
      if k !in keys {
        return None;
      }
      var x := RemoveFiled(k);
      return Some(x);
    }

    method RemoveFiled(k: Key) returns (x: Item)
      requires Valid() && k in keys
      modifies this`keys, this`used, this`ids, slots, pri
      ensures Valid() && x.key == k && Limits() == old(Limits())
      ensures exists a ::
                && 0 <= a < |old(Entries())| && old(Entries())[a].item == x
                && Entries() == old(Entries())[..a] + old(Entries())[a + 1..]
    {
      var a := IndexOf(keys[k]);
      ListedInRange(R(), a);
      x := RemoveAt(a);
    }

    /** The place of an id in the list. */
    method IndexOf(id: nat) returns (a: nat)
      requires id in ids
      ensures a < |ids| && ids[a] == id
    {
      a := 0;
      while ids[a] != id
        invariant a < |ids| && id in ids[a..]
        decreases |ids| - a
      {
        a := a + 1;
      }
    }

    /** Evicts the `toRemove` lowest items, lowest first. */
    method Free(toRemove: int)
      requires Agree(R()) && Sorted(R()) && toRemove <= |ids|
      modifies this`keys, this`used, this`ids, this`evicted, slots, pri
      ensures Agree(R()) && Sorted(R())
      ensures var left := if toRemove > 0 then |old(ids)| - toRemove else |old(ids)|;
              && |ids| == left && Entries() == old(Entries())[..left]
              && evicted == old(evicted) + BottomUp(old(Entries())[left..])
      ensures toRemove <= 0 ==> R() == old(R())
      ensures Limits() == old(Limits()) && own == old(own) && KeepsSlots(old(keys), keys)
    {
      ghost var all := Entries();
      var left := if toRemove > 0 then |ids| - toRemove else |ids|;
      assert all[..|ids|] == all;
      var s := |ids|;
      assert all[left..s] == all[left..];
      while s > left
        invariant left <= s == |ids| && Limits() == old(Limits()) && KeepsSlots(old(keys), keys)
        invariant toRemove <= 0 ==> R() == old(R())
        invariant Agree(R()) && Sorted(R())
        invariant Entries() == all[..s]
        invariant evicted + BottomUp(all[left..s]) == old(evicted) + BottomUp(all[left..])
      {
        s := s - 1;
        EvictAbove(all, left, s);
      }
    }

    /** One round: the lowest of the first `s + 1` entries goes, and is the next to be reported. */
    method EvictAbove(ghost all: seq<Entry>, ghost left: nat, ghost s: nat)
      requires Agree(R()) && Sorted(R())
      requires left <= s < |all| && |ids| == s + 1 && Entries() == all[..s + 1]
      modifies this`keys, this`used, this`ids, this`evicted, slots, pri
      ensures Agree(R()) && Sorted(R()) && |ids| == s && Entries() == all[..s]
      ensures evicted + BottomUp(all[left..s]) == old(evicted) + BottomUp(all[left..s + 1])
      ensures Limits() == old(Limits()) && KeepsSlots(old(keys), keys)
    {
      BottomUpStep(all, left, s);
      EvictLast();
      assert all[..s + 1][..s] == all[..s];
      assert evicted == old(evicted) + [all[s].item];
      Regroup(old(evicted), [all[s].item], BottomUp(all[left..s]));
    }

    method EvictLast()
      requires Agree(R()) && Sorted(R()) && |ids| > 0
      modifies this`keys, this`used, this`ids, this`evicted, slots, pri
      ensures Agree(R()) && Sorted(R()) && |ids| == |old(ids)| - 1
      ensures Entries() == old(Entries())[..|ids|]
      ensures evicted == old(evicted) + [old(Entries())[|ids|].item]
      ensures Limits() == old(Limits()) && own == old(own) && KeepsSlots(old(keys), keys)
    {
      var x := RemoveAt(|ids| - 1);
      evicted := evicted + [x];
    }

    method AcceptInsert(p: real) returns (accept: bool)
      requires Valid()
      modifies this`priMin
      ensures accept <==> Accepts(Entries(), p, capacity)
      ensures R() == old(R()) && Limits() == old(Limits())
      ensures priMin == if ids == [] || |ids| < capacity then old(priMin) else Some(Lowest(Entries()))
    {
      if |ids| < capacity {
        return true;
      }
      if |ids| > 0 {
        ListedInRange(R(), |ids| - 1);
        var lowest := LowestPri();
        return lowest <= p;
      }
      return false;
    }

    /**
     * Files a new item, evicting the lowest when the bag is full.  There is always a free slot,
     * so the model never fails to find one.
     */
    method Insert(x: Item, p: real)
      requires Valid() && x.key !in keys && Accepts(Entries(), p, capacity)
      modifies this`keys, this`used, this`ids, this`evicted, this`priMin, slots, pri
      ensures Valid()
      ensures Entries() == AfterInsert(old(Entries()), Entry(x, p), capacity)
      ensures evicted == old(evicted) + BottomUp(Displaced(old(Entries()), capacity))
      ensures priMin == Some(Entries()[|Entries()| - 1].pri) && Limits() == old(Limits())
      ensures |old(ids)| < capacity ==> FilesFirst(old(R()), cap, x, p, R())
    {
      MakeRoom(x.key);
      Store(x, p);
    }

    /** Evicts what has to go for one more item. */
    method MakeRoom(ghost k: Key)
      requires Valid() && k !in keys && capacity > 0
      modifies this`keys, this`used, this`ids, this`evicted, slots, pri
      ensures Valid() && k !in keys && |ids| < capacity && Limits() == old(Limits())
      ensures Entries() == Roomier(old(Entries()), capacity)
      ensures evicted == old(evicted) + BottomUp(Displaced(old(Entries()), capacity))
      ensures |old(ids)| < capacity ==> R() == old(R())
    {
      ghost var before := R();
      RoomierIs(Entries(), capacity);
      Free(1 + |ids| - capacity);
      KeyStillNew(before, R(), k);
    }

    /** Files a new item where there is room for it. */
    method Store(x: Item, p: real)
      requires Valid() && x.key !in keys && |ids| < capacity
      modifies this`keys, this`used, this`ids, this`priMin, slots, pri
      ensures Valid() && Entries() == InsertEntry(old(Entries()), Entry(x, p))
      ensures FilesFirst(old(R()), cap, x, p, R())
      ensures priMin == Some(Entries()[|Entries()| - 1].pri) && Limits() == old(Limits())
    {
      SizeIsUsed(ids, used);
      FreeSlot(used, cap);
      FirstFreeIsFirst(used, 0, cap);
      NoStrays(R());
      ghost var r := R();
      var _ := StoreAmong(x, p, {});
      FiledFirstAmong(r, cap, x, p, R(), {});
      NoStrays(R());
    }

    /**
     * Acquires the first free slot for a new item, be there stray items or not; without a free slot
     * it throws, and the bag is as it was.
     */
    method StoreAmong(x: Item, p: real, ghost strays: set<nat>) returns (thrown: bool)
      requires AgreeBut(R(), strays) && strays <= used && Sorted(R()) && x.key !in keys && cap <= slots.Length
      modifies this`keys, this`used, this`ids, this`priMin, slots, pri
      ensures thrown <==> FirstFree(old(used), cap) == cap
      ensures Limits() == old(Limits()) && (thrown ==> R() == old(R()))
      ensures !thrown ==> FilesFirst(old(R()), cap, x, p, R())
      ensures !thrown ==> ids != [] && priMin == Some(Entries()[|ids| - 1].pri)
    {
      ghost var r := R();
      FirstFreeIsFirst(used, 0, cap);
      var i := SetNext();
      if i < 0 {
        return true;
      }
      LastIsListed(r, i, x, p, strays);
      FileIn(i, x, p, r);
      var _ := LowestPri();
      return false;
    }

    /** `put` of a new live item into a bag that is not full but may have stray items. */
    method PutAmong(x: Item, ghost strays: set<nat>) returns (thrown: bool)
      requires AgreeBut(R(), strays) && strays <= used && Sorted(R()) && cap <= slots.Length
      requires x in own && x.key !in keys && |ids| < capacity
      modifies this`keys, this`used, this`ids, this`priMin, slots, pri
      ensures thrown <==> FirstFree(old(used), cap) == cap
      ensures Limits() == old(Limits()) && (thrown ==> R() == old(R()))
      ensures !thrown ==> FilesFirst(old(R()), cap, x, Floored(own[x], epsilon), R())
    {
      thrown := StoreAmong(x, Floored(own[x], epsilon), strays);
    }

    /** The writes of an insertion, once its bit is set. */
    method FileIn(i: nat, x: Item, p: real, ghost r: Rep)
      requires i < slots.Length && R() == r.(used := r.used + {i}) && |r.slots| == |r.pri|
      modifies this`keys, this`ids, slots, pri
      ensures R() == Filed(r, i, x, p) && Limits() == old(Limits())
    {
      slots[i], pri[i] := Some(x), Some(p);
      keys := keys[x.key := i];
      ids := InsertId(ids, i, pri[..]);
    }

    method LowestPri() returns (p: real)
      requires |ids| > 0 && ids[|ids| - 1] < pri.Length && pri[ids[|ids| - 1]].Some?
      modifies this`priMin
      ensures p == Entries()[|ids| - 1].pri && priMin == Some(p)
      ensures R() == old(R()) && Limits() == old(Limits()) && own == old(own)
    {
      p := pri[ids[|ids| - 1]].value;
      priMin := Some(p);
    }

    /**
     * `put`.  A new item leaves the priorities held exactly as one step of the top-k buffer
     * does; an equal key is merged and re-filed at whatever priority the merge policy gives.
     */
    method Put(x: Item) returns (result: PutResult)
      requires Valid()
      modifies this, slots, pri
      ensures Valid() && Limits() == old(Limits())
      ensures x !in old(own) ==> result == Deleted && R() == old(R())
      ensures own == Owned(old(own), result)
      ensures evicted == old(evicted) + BottomUp(if result.Accepted? then Displaced(old(Entries()), capacity) else [])
      ensures x in old(own) && x.key !in old(keys) ==>
                var p := Floored(old(own)[x], epsilon);
                && Offers(old(Entries()), Entry(x, p), capacity, result, Entries())
                && (|old(ids)| < capacity ==> FilesFirst(old(R()), cap, x, p, R()))
      ensures x in old(own) && x.key in old(keys) ==>
                Merging(old(Entries()), x, old(priMin), result, Entries(), priMin)
      ensures result.Accepted? ==> Takes(old(Entries()), Entry(x, Floored(old(own)[x], epsilon)), capacity, Entries())
      ensures result.Merged? ==> Exchanges(old(Entries()), x, result.existing, result.pri, Entries())
      ensures Notes(result, old(priMin), old(Entries()), priMin, Entries())
    {
      if x !in own {
        return Deleted;
      }
      var p := Floored(own[x], epsilon);
      if x.key in keys {
        result := MergeInto(keys[x.key], x);
        return;
      }
      result := TryInsert(x, p);
    }

    /** Offers a new item: to the priorities held, exactly one step of the top-k buffer. */
    method TryInsert(x: Item, p: real) returns (result: PutResult)
      requires Valid() && x.key !in keys
      modifies this`keys, this`used, this`ids, this`evicted, this`priMin, slots, pri
      ensures Valid() && Limits() == old(Limits())
      ensures Offers(old(Entries()), Entry(x, p), capacity, result, Entries())
      ensures evicted == old(evicted) + BottomUp(if result.Accepted? then Displaced(old(Entries()), capacity) else [])
      ensures |old(ids)| < capacity ==> FilesFirst(old(R()), cap, x, p, R())
      ensures result.Accepted? ==> Takes(old(Entries()), Entry(x, p), capacity, Entries())
      ensures Notes(result, old(priMin), old(Entries()), priMin, Entries())
    {
      ghost var v := Entries();
      ViewPris(R());
      OfferIsTopKStep(v, Entry(x, p), capacity);
      var accept := AcceptInsert(p);
      if !accept {
        return Rejected;
      }
      InsertTakes(v, Entry(x, p), capacity);
      Insert(x, p);
      return Accepted;
    }

    /**
     * Streaming top-k.  Offering distinct new keys, in any order, to a bag in any state leaves
     * exactly the `capacity` largest of all priorities it held and was offered, descending.
     */
    method OfferAll(xs: seq<Item>)
      requires Valid() && DistinctKeys(xs) && forall x :: x in xs ==> x.key !in keys
      modifies this, slots, pri
      ensures Valid() && own == old(own)
      ensures PrisOf(Entries()) == Take(SortDesc(PrisOf(old(Entries())) + Offered(xs, own, epsilon)), capacity)
      ensures Limits() == old(Limits())
    {
      ghost var base := PrisOf(Entries());
      ghost var had := keys.Keys;
      NothingOffered(base, xs, own, epsilon, capacity) by {
        ViewPris(R());
      }
      KeysWithin(R(), had);
      for i := 0 to |xs|
        invariant Valid() && own == old(own) && Limits() == old(Limits())
        invariant PrisOf(Entries()) == Take(SortDesc(base + Offered(xs[..i], own, epsilon)), capacity)
        invariant KeysFrom(Entries(), had, xs[..i])
      {
        OfferNext(xs, i, base, had);
      }
      assert xs[..|xs|] == xs;
    }

    method OfferNext(xs: seq<Item>, i: nat, ghost base: seq<real>, ghost had: set<Key>)
      requires Valid() && DistinctKeys(xs) && i < |xs| && (forall x :: x in xs ==> x.key !in had)
      requires PrisOf(Entries()) == Take(SortDesc(base + Offered(xs[..i], own, epsilon)), capacity)
      requires KeysFrom(Entries(), had, xs[..i])
      modifies this, slots, pri
      ensures Valid() && own == old(own) && Limits() == old(Limits())
      ensures PrisOf(Entries()) == Take(SortDesc(base + Offered(xs[..i + 1], own, epsilon)), capacity)
      ensures KeysFrom(Entries(), had, xs[..i + 1])
    {
      OfferedStep(base, xs, own, epsilon, capacity, i);
      NewKey(R(), had, xs, i);
      ghost var v := Entries();
      var _ := Put(xs[i]);
      KeysFromStep(v, had, xs, i, Entries(), capacity);
    }

    method MergeInto(id: nat, x: Item) returns (result: PutResult)
      requires Valid() && x.key in keys && id == keys[x.key]
      modifies this`own, this`ids, this`priMin, pri
      ensures Valid() && Limits() == old(Limits())
      ensures own == Owned(old(own), result)
      ensures !result.Accepted? && evicted == old(evicted)
      ensures Merging(old(Entries()), x, old(priMin), result, Entries(), priMin)
    {
      var a := PlaceOf(id, x.key);
      result := MergeAt(a, id, x);
    }

    method MergeAt(a: nat, id: nat, x: Item) returns (result: PutResult)
      requires Valid() && a < |ids| && id < slots.Length && slots[id] == Some(Entries()[a].item)
      requires Entries()[a].item.key == x.key
      modifies this`own, this`ids, this`priMin, pri
      ensures Valid() && Limits() == old(Limits())
      ensures own == Owned(old(own), result) && !result.Accepted?
      ensures Merging(old(Entries()), x, old(priMin), result, Entries(), priMin)
    {
      if slots[id].value == x {
        SameIsMerging(Entries(), a, x, priMin);
        return SameInstance;
      }
      result := Remerge(a, x, Entries());
    }

    /** The place of a filed key in the list. */
    method PlaceOf(id: nat, ghost k: Key) returns (a: nat)
      requires Valid() && k in keys && id == keys[k]
      ensures a < |ids| && id < slots.Length && slots[id] == Some(Entries()[a].item) && Entries()[a].item.key == k
    {
      assert id in ids;
      a := IndexOf(id);
      FiledAt(R(), a, k);
    }

    /** Another item of the same key is merged into the one at place `a`. */
    method Remerge(a: nat, x: Item, ghost v: seq<Entry>) returns (result: PutResult)
      requires Valid() && a < |ids| && v == Entries() && v[a].item.key == x.key && v[a].item != x
      modifies this`own, this`ids, this`priMin, pri
      ensures Valid() && Limits() == old(Limits()) && result.Merged? && own == Owned(old(own), result)
      ensures Merging(v, x, old(priMin), result, Entries(), priMin)
    {
      KeysOnce(R());
      ListedInRange(R(), a);
      var existing := slots[ids[a]].value;
      ghost var was := priMin;
      var p := Absorb(a);
      ViewDescends(R());
      RemergedIsMerging(v, a, x, p, Entries(), was, priMin);
      return Merged(existing, p);
    }

    /** The merge policy gives the item at place `a` a priority, or deletes it. */
    method Absorb(a: nat) returns (p: Option<real>)
      requires Valid() && a < |ids|
      modifies this`own, this`ids, this`priMin, pri
      ensures Valid() && Limits() == old(Limits())
      ensures own == Owned(old(own), Merged(old(Entries())[a].item, p))
      ensures Entries() == Remerged(old(Entries()), a, p)
      ensures priMin == if p == Some(old(Entries())[a].pri) then old(priMin) else Lowered(old(priMin), p)
    {
      ListedInRange(R(), a);
      var existing, before := slots[ids[a]].value, pri[ids[a]].value;
      p := *;
      own := if p.Some? then own[existing := p.value] else own - {existing};
      if p != Some(before) {
        Reprice(a, p);
      }
    }

    /** The item at place `a` gets another priority, -1 for none, and moves to where it belongs. */
    method Reprice(a: nat, p: Option<real>)
      requires Valid() && a < |ids|
      modifies this`ids, this`priMin, pri
      ensures Valid() && Limits() == old(Limits())
      ensures Entries() == InsertEntry(old(Entries())[..a] + old(Entries())[a + 1..],
                                       Entry(old(Entries())[a].item, p.GetOr(-1.0)))
      ensures priMin == Lowered(old(priMin), p)
    {
      ListedInRange(R(), a);
      var stored := p.GetOr(-1.0);
      RepricedAgrees(R(), a, stored);
      RepricedView(R(), a, stored);
      var id := ids[a];
      pri[id] := Some(stored);
      priMin := Lowered(priMin, p);
      ids := InsertId(Without(ids, a), id, pri[..]);
      assert R() == Repriced(old(R()), a, stored);
      assert |ids| == |old(ids)|;
    }

    /**
     * `sampleUnique`, run to its end: from any starting place every item of the bag is sampled,
     * and each only once.
     */
    method SampleUnique(start: nat) returns (out: seq<Item>)
      requires Valid() && (ids != [] ==> start < |ids|)
      ensures |out| == |Entries()| && forall e :: e in Entries() ==> e.item in out
      ensures ids != [] ==>
                var order := Rest(start, start + 1, |ids|, true);
                |order| == |ids| && forall k :: 0 <= k < |order| ==>
                  0 <= order[k] < |ids| && out[k] == Entries()[order[k]].item
    {
      out := [];
      if ids == [] {
        return;
      }
      SlotsOfListed(R());
      OrderIsComplete(start, |ids|);
      out := SampleAll(start, ids, slots);
      SampledAll(Entries(), Rest(start, start + 1, |ids|, true), out);
    }

    ghost predicate Consistent()
      reads this, slots, pri
    {
      Agree(R()) && Sorted(R())
    }

    /**
     * `commit`: every item is refreshed by the caller's update, deleted items leave, the list is
     * sorted again if need be, and what exceeds the capacity is evicted, lowest first.
     */
    method Commit(update: Option<map<Item, real>>)
      requires Consistent()
      modifies this, slots, pri
      ensures Consistent() && |ids| <= capacity && Limits() == old(Limits())
      ensures own == Applied(old(own), old(Entries()), update)
      ensures Entries() == CommitView(old(Entries()), update, own.Keys, capacity)
      ensures evicted == old(evicted) + BottomUp(Beyond(LiveSorted(old(Entries()), update, own.Keys), capacity))
      ensures priMin == Some(Lowest(Entries())) && KeepsSlots(old(keys), keys)
    {
      ghost var v := Entries();
      Tidy(update);
      Trim(LiveSorted(v, update, own.Keys));
    }

    /** Refreshes, drops the deleted and sorts, but evicts nothing. */
    method Tidy(update: Option<map<Item, real>>)
      requires Consistent()
      modifies this`own, this`keys, this`used, this`ids, slots, pri
      ensures Agree(R()) && Sorted(R()) && Limits() == old(Limits())
      ensures own == Applied(old(own), old(Entries()), update)
      ensures Entries() == LiveSorted(old(Entries()), update, own.Keys) && KeepsSlots(old(keys), keys)
    {
      ghost var v := Entries();
      var sorted, removals := Refresh(update);
      RemoveDead(removals, Refreshed(v, update));
      Resort(sorted);
    }

    /**
     * `popBatch`: hands out the best `n` items, best first, and commits what remains.  When all
     * go, the model is cleared instead, which agrees exactly if no item sat beyond `cap`.
     */
    method PopBatch(n: int, update: Option<map<Item, real>>) returns (popped: seq<Item>)
      requires Valid()
      modifies this, slots, pri
      ensures popped == Items(old(Entries())[..Count(n, |old(Entries())|)]) && Limits() == old(Limits())
      ensures Count(n, |old(Entries())|) == 0 ==> R() == old(R()) && priMin == old(priMin)
      ensures 0 < n < |old(Entries())| ==>
                var rest := old(Entries())[n..];
                && Valid() && own == Applied(old(own), rest, update)
                && Entries() == CommitView(rest, update, own.Keys, capacity)
                && evicted == old(evicted) + BottomUp(Beyond(LiveSorted(rest, update, own.Keys), capacity))
                && priMin == Some(Lowest(Entries()))
      ensures 0 < |old(Entries())| <= n ==> R() == Cleared(old(R()), cap) && Entries() == [] && priMin == Some(0.0)
      ensures 0 < |old(Entries())| <= n ==> evicted == old(evicted) && own == old(own)
      ensures 0 < |old(Entries())| <= n ==> (Valid() <==> forall i :: i in old(used) ==> i < cap)
    {
      popped := [];
      if n <= 0 || |ids| == 0 {
        return;
      }
      if n < |ids| {
        popped := PopSome(n);
        Commit(update);
      } else {
        popped := ListItems();
        ClearedAgrees(R(), cap);
        Clear();
        assert |old(Entries())| == |old(ids)|;
        assert old(Entries())[..|old(ids)|] == old(Entries());
      }
    }

    /** Hands out the first `n` entries, which leave every structure. */
    method PopSome(n: nat) returns (popped: seq<Item>)
      requires Agree(R()) && Sorted(R()) && n <= |ids|
      modifies this`keys, this`used, this`ids, slots, pri
      ensures Agree(R()) && Sorted(R()) && Limits() == old(Limits()) && own == old(own)
      ensures popped == Items(old(Entries())[..n]) && Entries() == old(Entries())[n..]
    {
      ghost var v := Entries();
      popped := [];
      assert v[0..] == v;
      for k := 0 to n
        invariant Agree(R()) && Sorted(R()) && Limits() == old(Limits()) && own == old(own)
        invariant |ids| == |v| - k && Entries() == v[k..]
        invariant popped == Items(v[..k])
      {
        FrontGoes(v, k);
        var x := RemoveAt(0);
        popped := popped + [x];
      }
    }

    /** Every listed item, best first. */
    method ListItems() returns (items: seq<Item>)
      requires Agree(R())
      ensures items == Items(Entries())
    {
      items := [];
      for k := 0 to |ids|
        invariant items == Items(Entries())[..k]
      {
        ListedInRange(R(), k);
        items := items + [slots[ids[k]].value];
      }
    }

    /** Clears the model and the list; of the slots, only the first `cap` are emptied. */
    method Clear()
      requires cap <= slots.Length
      modifies this`keys, this`used, this`ids, this`priMin, slots
      ensures R() == Cleared(old(R()), cap) && priMin == Some(0.0) && Limits() == old(Limits())
    {
      used := {};
      ghost var was := slots[..];
      for i := 0 to cap
        invariant used == {} && forall k :: 0 <= k < slots.Length ==> slots[k] == if k < i then None else was[k]
      {
        slots[i] := None;
      }
      keys, ids, priMin := map[], [], Some(0.0);
      assert slots[..] == Cleared(old(R()), cap).slots;
    }

    /**
     * `setCapacity`: shrinking below the size commits first, so that only the best stay; the
     * arrays only ever grow.
     */
    method SetCapacity(after: nat)
      requires Valid()
      modifies this, slots, pri
      ensures Valid() && capacity == after && own == old(own) && KeepsSlots(old(keys), keys)
      ensures Entries() == if after < |old(Entries())| then CommitView(old(Entries()), None, old(own).Keys, after)
                           else old(Entries())
      ensures evicted == old(evicted) + if after < |old(Entries())| then Overflow(old(Entries()), old(own).Keys, after)
                                        else []
      ensures slots.Length == if old(slots.Length) < after then after else old(slots.Length)
      ensures priMin == if after < |old(Entries())| then Some(Lowest(Entries())) else old(priMin)
      ensures (slots == old(slots) && pri == old(pri)) || (fresh(slots) && fresh(pri))
    {
      capacity := after;
      if after < |ids| {
        Commit(None);
      }
      if pri.Length < after {
        GrownAgrees(R(), after);
      }
      Reserve(after);
    }

    /** `setCapacity` on an empty list, where there is nothing to commit. */
    method SetCapacityWhenEmpty(after: nat)
      requires ids == [] && slots.Length == pri.Length
      modifies this`capacity, this`cap, this`slots, this`pri, this`used
      ensures capacity == cap == after && R() == if old(slots.Length) < after then Grown(old(R()), after) else old(R())
      ensures slots.Length == pri.Length
    {
      capacity := after;
      Reserve(after);
    }

    /** The model's capacity: its arrays only ever grow. */
    method Reserve(after: nat)
      requires slots.Length == pri.Length
      modifies this`cap, this`slots, this`pri, this`used
      ensures cap == after && slots.Length == pri.Length
      ensures R() == if old(slots.Length) < after then Grown(old(R()), after) else old(R())
      ensures (slots == old(slots) && pri == old(pri)) || (fresh(slots) && fresh(pri))
    {
      if pri.Length < after {
        Grow(after);
      }
      cap := after;
    }

    /** Longer arrays, with the used bits rebuilt from the slots that are not empty. */
    method Grow(after: nat)
      requires slots.Length == pri.Length < after
      modifies this`slots, this`pri, this`used
      ensures R() == Grown(old(R()), after) && fresh(slots) && fresh(pri) && slots.Length == pri.Length == after
    {
      ghost var r := R();
      var n := pri.Length;
      var ps, ss := pri[..], slots[..];
      var nextPri := new Option<real>[after](k requires 0 <= k => if k < |ps| then ps[k] else None);
      var nextSlots := new Option<Item>[after](k requires 0 <= k => if k < |ss| then ss[k] else None);
      var u: set<nat> := {};
      for i := 0 to n
        invariant forall j :: j in u <==> 0 <= j < i && nextSlots[j].Some?
      {
        if nextSlots[i].Some? {
          u := u + {i};
        }
      }
      used, slots, pri := u, nextSlots, nextPri;
      assert slots[..] == Grown(r, after).slots && pri[..] == Grown(r, after).pri;
      assert used == Grown(r, after).used;
    }

    /** The last pass: what exceeds the capacity goes, and the lowest priority is noted. */
    method Trim(ghost w: seq<Entry>)
      requires Agree(R()) && Sorted(R()) && Entries() == w
      modifies this`keys, this`used, this`ids, this`evicted, this`priMin, slots, pri
      ensures Agree(R()) && Sorted(R()) && |ids| <= capacity
      ensures Limits() == old(Limits()) && own == old(own)
      ensures Entries() == Cut(w, capacity) && evicted == old(evicted) + BottomUp(Beyond(w, capacity))
      ensures KeepsSlots(old(keys), keys)
      ensures priMin == Some(Lowest(Entries()))
    {
      CutAt(w, capacity);
      Free(|ids| - capacity);
      NotePriMin();
    }

    method NotePriMin()
      requires Agree(R())
      modifies this`priMin
      ensures R() == old(R()) && Limits() == old(Limits()) && priMin == Some(Lowest(Entries()))
    {
      if |ids| > 0 {
        ListedInRange(R(), |ids| - 1);
        var _ := LowestPri();
      } else {
        priMin := Some(0.0);
      }
    }

    /**
     * The first pass of a commit: refreshes every item and reports whether the live priorities
     * met were strictly descending, and which places hold deleted items.
     */
    method Refresh(update: Option<map<Item, real>>) returns (sorted: bool, removals: set<nat>)
      requires Consistent()
      modifies this`own, pri
      ensures Agree(R()) && Limits() == old(Limits())
      ensures own == Applied(old(own), old(Entries()), update)
      ensures Entries() == Refreshed(old(Entries()), update)
      ensures forall a: nat :: a in removals <==> a < |old(Entries())| && old(Entries())[a].item !in own
      ensures sorted ==> Descending(PrisOf(LiveOnly(Entries(), own.Keys)))
    {
      ghost var v, own0 := Entries(), own;
      ViewIsDistinct(R());
      ViewPris(R());
      PassedAtStart(v, update, own0);
      AllRefreshed(v, update);
      sorted, removals := true, {};
      var p0: Option<real> := None;
      for i := 0 to |ids|
        invariant Agree(R()) && Limits() == old(Limits())
        invariant Entries() == HalfRefreshed(v, update, i)
        invariant update.None? ==> R() == old(R())
        invariant Passed(v, i, update, own0, own, sorted, removals, p0)
      {
        sorted, removals, p0 := RefreshPlace(i, v, own0, update, sorted, removals, p0);
      }
      PassedAtEnd(v, update, own0, own, sorted, removals, p0);
    }

    /** One round of the first pass. */
    method RefreshPlace(i: nat, ghost v: seq<Entry>, ghost own0: map<Item, real>, update: Option<map<Item, real>>,
                        sorted0: bool, removals0: set<nat>, last: Option<real>)
      returns (sorted: bool, removals: set<nat>, p0: Option<real>)
      requires Agree(R()) && i < |ids| == |v| && Distinct(v)
      requires Entries() == HalfRefreshed(v, update, i)
      requires Passed(v, i, update, own0, own, sorted0, removals0, last)
      modifies this`own, pri
      ensures Agree(R()) && Limits() == old(Limits())
      ensures Entries() == HalfRefreshed(v, update, i + 1)
      ensures update.None? ==> R() == old(R())
      ensures Passed(v, i + 1, update, own0, own, sorted, removals, p0)
    {
      RefreshedStep(v, update, i);
      ghost var own1 := own;
      var p := RefreshOne(i, update);
      sorted, removals, p0 := sorted0, removals0, last;
      if p.None? {
        removals := removals + {i};
      } else if sorted {
        if p0.Some? && p.value - p0.value >= 0.0 {
          sorted := false;
        } else {
          p0 := p;
        }
      }
      PassedStep(v, i, update, own0, own1, sorted0, removals0, last, own);
    }

    /** The update of the item at place `i`: its own priority and the bag's copy. */
    method RefreshOne(i: nat, update: Option<map<Item, real>>) returns (p: Option<real>)
      requires Agree(R()) && i < |ids|
      modifies this`own, pri
      ensures Agree(R()) && Limits() == old(Limits())
      ensures own == Applied(old(own), [old(Entries())[i]], update)
      ensures p == if old(Entries())[i].item in own then Some(own[old(Entries())[i].item]) else None
      ensures Entries() == old(Entries())[i := Refreshed([old(Entries())[i]], update)[0]]
      ensures update.None? ==> R() == old(R())
    {
      ListedInRange(R(), i);
      var x := ids[i];
      var y := slots[x].value;
      if update.Some? {
        own := if y in update.value then own[y := update.value[y]] else own - {y};
        RefreshedAgrees(R(), i, PriNow(update.value, y));
        pri[x] := Some(if y in own then own[y] else -1.0);
        assert pri[..] == old(pri[..])[x := Some(PriNow(update.value, y))];
      }
      p := if y in own then Some(own[y]) else None;
    }

    /** The second pass: the marked places are emptied, from the last to the first. */
    method RemoveDead(removals: set<nat>, ghost w: seq<Entry>)
      requires Agree(R()) && Entries() == w
      requires forall a: nat :: a in removals <==> a < |w| && w[a].item !in own
      modifies this`keys, this`used, this`ids, slots, pri
      ensures Agree(R()) && Limits() == old(Limits())
      ensures Entries() == LiveOnly(w, own.Keys) && own == old(own) && KeepsSlots(old(keys), keys)
    {
      ghost var live := own.Keys;
      NoneAndAll(w, live);
      for a := |ids| downto 0
        invariant Agree(R()) && Limits() == old(Limits()) && own == old(own)
        invariant Entries() == w[..a] + LiveOnly(w[a..], live) && KeepsSlots(old(keys), keys)
      {
        RemoveIfDead(a, removals, w, live);
      }
    }

    method RemoveIfDead(a: nat, removals: set<nat>, ghost w: seq<Entry>, ghost live: set<Item>)
      requires Agree(R()) && a < |w|
      requires Entries() == w[..a + 1] + LiveOnly(w[a + 1..], live)
      requires a in removals <==> w[a].item !in live
      modifies this`keys, this`used, this`ids, slots, pri
      ensures Agree(R()) && Limits() == old(Limits()) && own == old(own)
      ensures Entries() == w[..a] + LiveOnly(w[a..], live) && KeepsSlots(old(keys), keys)
    {
      DeadStep(w, a, live);
      if a in removals {
        var _ := RemoveAt(a);
      }
    }

    /** The third pass: a full sort, unless the list is known to be in order. */
    method Resort(sorted: bool)
      requires Agree(R()) && (sorted ==> Descending(PrisOf(Entries())))
      modifies this`ids
      ensures Agree(R()) && Sorted(R()) && Limits() == old(Limits())
      ensures Entries() == SortEntries(old(Entries())) && own == old(own)
    {
      SortIdsLists(ids, pri[..], used);
      SortIdsView(R(), ids);
      ViewPris(R());
      if !sorted && |ids| > 1 {
        ids := SortIds(ids, pri[..]);
        assert R() == old(R()).(ids := SortIds(old(ids), old(pri[..])));
      } else {
        SortedEntriesStay(Entries());
      }
    }
  }

  /** Before the second pass nothing has been looked at, after it everything has. */
  lemma NoneAndAll(w: seq<Entry>, live: set<Item>)
    ensures w[..|w|] + LiveOnly(w[|w|..], live) == w
    ensures w[..0] + LiveOnly(w[0..], live) == LiveOnly(w, live)
  {
    assert w[0..] == w;
  }

  lemma CutAt(w: seq<Entry>, k: nat)
    ensures var left := if |w| > k then |w| - (|w| - k) else |w|; Cut(w, k) == w[..left] && Beyond(w, k) == w[left..]
  {
  }

  lemma SlotsOfListed(r: Rep)
    requires Agree(r)
    ensures forall a :: 0 <= a < |r.ids| ==>
              r.ids[a] < |r.slots| && r.slots[r.ids[a]] == Some(View(r)[a].item)
  {
    forall a | 0 <= a < |r.ids| ensures r.ids[a] < |r.slots| && r.slots[r.ids[a]].Some? {
      ListedInRange(r, a);
    }
  }

  lemma SampledAll(v: seq<Entry>, order: seq<int>, out: seq<Item>)
    requires |out| == |order| && forall k :: 0 <= k < |order| ==> 0 <= order[k] < |v| && out[k] == v[order[k]].item
    requires forall i :: 0 <= i < |v| ==> i in order
    ensures forall e :: e in v ==> e.item in out
  {
    forall a | 0 <= a < |v| ensures v[a].item in out {
      assert a in order;
      var k :| 0 <= k < |order| && order[k] == a;
      assert out[k] == v[a].item;
    }
  }

  /** What is still filed is in the slot where it was. */
  predicate KeepsSlots(before: map<Key, nat>, after: map<Key, nat>) {
    forall k :: k in after ==> k in before && after[k] == before[k]
  }

  /** How many of `size` items a request for `n` gets. */
  function Count(n: int, size: nat): (k: nat)
    ensures n <= 0 ==> k == 0
    ensures 0 <= n <= size ==> k == n
    ensures n >= size ==> k == size
  {
    if n <= 0 then 0 else if n < size then n else size
  }

  function Items(v: seq<Entry>): (s: seq<Item>)
    ensures |s| == |v| && forall k :: 0 <= k < |v| ==> s[k] == v[k].item
  {
    seq(|v|, k requires 0 <= k < |v| => v[k].item)
  }

  lemma FrontGoes(v: seq<Entry>, k: nat)
    requires k < |v|
    ensures v[k..][0] == v[k] && v[k..][..0] + v[k..][1..] == v[k + 1..]
    ensures Items(v[..k + 1]) == Items(v[..k]) + [v[k].item]
  {
  }

  /** A priority, or the least one that is stored. */
  function Floored(p: real, epsilon: real): (r: real)
    ensures r >= p && r >= epsilon && (r == p || r == epsilon)
  {
    if p >= epsilon then p else epsilon
  }

  /** The owner's priorities after a put: a merge sets the held item's, or deletes it. */
  function Owned(own: map<Item, real>, result: PutResult): map<Item, real> {
    match result
    case Merged(existing, Some(p)) => own[existing := p]
    case Merged(existing, None) => own - {existing}
    case _ => own
  }

  /** The entry at `a` is re-filed at its merged priority; the very same instance is refused. */
  ghost predicate MergeOutcome(v: seq<Entry>, a: nat, x: Item, result: PutResult, w: seq<Entry>)
    requires a < |v|
  {
    if v[a].item == x then result == SameInstance && w == v
    else
      result.Merged? && result.existing == v[a].item && w == Remerged(v, a, result.pri)
  }

  /**
   * A new entry is taken if there is room or the last one is not above it, and refused otherwise; to
   * the priorities it is one step of the top-k buffer.
   */
  ghost predicate Offers(v: seq<Entry>, e: Entry, capacity: nat, result: PutResult, w: seq<Entry>) {
    && result == (if |v| < capacity || (v != [] && v[|v| - 1].pri <= e.pri) then Accepted else Rejected)
    && w == (if result.Accepted? then AfterInsert(v, e, capacity) else v)
    && PrisOf(w) == Take(InsertDesc(PrisOf(v), e.pri), capacity)
  }

  /** The entry of this key is merged. */
  ghost predicate Merges(v: seq<Entry>, x: Item, result: PutResult, w: seq<Entry>) {
    exists a :: 0 <= a < |v| && v[a].item.key == x.key && MergeOutcome(v, a, x, result, w)
  }

  /** What a put notes as the lowest priority: what it is, or after a merge a lower bound. */
  ghost predicate Notes(result: PutResult, was: Option<real>, v: seq<Entry>, low: Option<real>, w: seq<Entry>) {
    match result
    case Accepted => low == Some(Lowest(w))
    case Rejected => low == if w == [] then was else Some(Lowest(w))
    case Merged(_, p) => low == Lowered(was, p) || (low == was && w == v)
    case Deleted => low == was
    case SameInstance => low == was
  }

  /** A put of a key that is held. */
  ghost predicate Merging(v: seq<Entry>, x: Item, was: Option<real>, result: PutResult, w: seq<Entry>,
                          low: Option<real>)
  {
    && Merges(v, x, result, w) && Notes(result, was, v, low, w)
    && (result.Merged? ==> Exchanges(v, x, result.existing, result.pri, w))
  }

  lemma SameIsMerging(v: seq<Entry>, a: nat, x: Item, low: Option<real>)
    requires a < |v| && v[a].item == x
    ensures Merging(v, x, low, SameInstance, v, low)
  {
    MergesAt(v, a, x, SameInstance, v);
  }

  lemma RemergedIsMerging(v: seq<Entry>, a: nat, x: Item, p: Option<real>, w: seq<Entry>, was: Option<real>,
                          low: Option<real>)
    requires KeyedOnce(v) && a < |v| && v[a].item.key == x.key && v[a].item != x && w == Remerged(v, a, p)
    requires Descending(PrisOf(w)) && low == (if p == Some(v[a].pri) then was else Lowered(was, p))
    ensures Merging(v, x, was, Merged(v[a].item, p), w, low)
  {
    MergeExchanges(v, a, x, p, w);
    MergesAt(v, a, x, Merged(v[a].item, p), w);
  }

  lemma MergesAt(v: seq<Entry>, a: nat, x: Item, result: PutResult, w: seq<Entry>)
    requires a < |v| && v[a].item.key == x.key && MergeOutcome(v, a, x, result, w)
    ensures Merges(v, x, result, w)
  {
  }

  lemma FiledAt(r: Rep, a: nat, k: Key)
    requires Agree(r) && k in r.keys && a < |r.ids| && r.ids[a] == r.keys[k]
    ensures r.ids[a] < |r.slots| && r.slots[r.ids[a]] == Some(View(r)[a].item) && View(r)[a].item.key == k
  {
    ListedInRange(r, a);
  }

  /**
   * The one entry of this key has another priority, -1 for none; all other entries are as they
   * were, and the order is descending.
   */
  ghost predicate Exchanges(v: seq<Entry>, x: Item, existing: Item, p: Option<real>, w: seq<Entry>) {
    var now := Entry(existing, if p.Some? then p.value else -1.0);
    && existing.key == x.key && existing != x
    && now in w && (forall e :: e in w && e.item.key == x.key ==> e == now)
    && (exists was: Entry ::
          was in v && was.item == existing && multiset(w) == multiset(v) - multiset{was} + multiset{now})
    && Descending(PrisOf(w))
  }

  /** A new entry comes in, behind all of at least its priority, and only if the bag is full the last one leaves. */
  ghost predicate Takes(v: seq<Entry>, e: Entry, capacity: nat, w: seq<Entry>) {
    && multiset(w) == multiset(v) - (if |v| < capacity || v == [] then multiset{} else multiset{v[|v| - 1]})
                    + multiset{e}
    && Descending(PrisOf(w))
  }

  lemma InsertTakes(v: seq<Entry>, e: Entry, capacity: nat)
    requires Descending(PrisOf(v)) && |v| <= capacity && Accepts(v, e.pri, capacity)
    ensures Takes(v, e, capacity, AfterInsert(v, e, capacity))
  {
    var rest := Roomier(v, capacity);
    RoomierCounts(v, capacity);
    InsertEntryCounts(rest, e);
    InsertEntryDescends(rest, e);
  }

  lemma RoomierCounts(v: seq<Entry>, capacity: nat)
    requires Descending(PrisOf(v)) && |v| <= capacity
    ensures multiset(Roomier(v, capacity))
         == multiset(v) - (if |v| < capacity || v == [] then multiset{} else multiset{v[|v| - 1]})
    ensures Descending(PrisOf(Roomier(v, capacity)))
  {
    if v != [] {
      assert v == v[..|v| - 1] + [v[|v| - 1]];
      assert PrisOf(v[..|v| - 1]) == PrisOf(v)[..|v| - 1];
    }
  }

  lemma InsertEntryDescends(v: seq<Entry>, e: Entry)
    requires Descending(PrisOf(v))
    ensures Descending(PrisOf(InsertEntry(v, e)))
  {
    InsertEntryPris(v, e);
    InsertDescKeeps(PrisOf(v), e.pri);
  }

  lemma ViewDescends(r: Rep)
    requires Sorted(r)
    ensures Descending(PrisOf(View(r)))
  {
    ViewPris(r);
  }

  ghost predicate KeyedOnce(v: seq<Entry>) {
    forall a, b :: 0 <= a < |v| && 0 <= b < |v| && a != b ==> OtherKey(v, a, b)
  }

  predicate OtherKey(v: seq<Entry>, a: nat, b: nat)
    requires a < |v| && b < |v|
  {
    v[a].item.key != v[b].item.key
  }

  lemma KeysOnce(r: Rep)
    requires Agree(r)
    ensures KeyedOnce(View(r))
  {
    forall a, b | 0 <= a < |r.ids| && 0 <= b < |r.ids| && a != b ensures OtherKey(View(r), a, b) {
      ListedInRange(r, a);
      ListedInRange(r, b);
      assert Differ(r.ids, a, b);
    }
  }

  lemma MergeExchanges(v: seq<Entry>, a: nat, x: Item, p: Option<real>, w: seq<Entry>)
    requires KeyedOnce(v) && a < |v| && v[a].item.key == x.key && v[a].item != x && w == Remerged(v, a, p)
    requires Descending(PrisOf(w))
    ensures Exchanges(v, x, v[a].item, p, w)
  {
    var rest, now := v[..a] + v[a + 1..], Entry(v[a].item, p.GetOr(-1.0));
    RemergedCounts(v, a, p);
    OthersDiffer(v, a);
    OneMore(w, rest, now);
  }

  lemma OneMore(w: seq<Entry>, rest: seq<Entry>, now: Entry)
    requires multiset(w) == multiset(rest) + multiset{now}
    ensures now in w && forall e :: e in w ==> e == now || e in rest
  {
    forall e | e in w ensures e == now || e in rest {
      assert e in multiset(w);
    }
    assert now in multiset(w);
  }

  lemma RemergedCounts(v: seq<Entry>, a: nat, p: Option<real>)
    requires a < |v|
    ensures var (rest, now) := (v[..a] + v[a + 1..], Entry(v[a].item, p.GetOr(-1.0)));
            && multiset(v) == multiset(rest) + multiset{v[a]}
            && multiset(Remerged(v, a, p)) == multiset(rest) + multiset{now}
  {
    assert v == v[..a] + [v[a]] + v[a + 1..];
    InsertEntryCounts(v[..a] + v[a + 1..], Entry(v[a].item, p.GetOr(-1.0)));
  }

  lemma OthersDiffer(v: seq<Entry>, a: nat)
    requires KeyedOnce(v) && a < |v|
    ensures forall e :: e in v[..a] + v[a + 1..] ==> e.item.key != v[a].item.key
  {
    var rest := v[..a] + v[a + 1..];
    forall e | e in rest ensures e.item.key != v[a].item.key {
      var b :| 0 <= b < |rest| && rest[b] == e;
      assert OtherKey(v, a, if b < a then b else b + 1);
    }
  }

  function Remerged(v: seq<Entry>, a: nat, p: Option<real>): seq<Entry>
    requires a < |v|
  {
    if p == Some(v[a].pri) then v
    else InsertEntry(v[..a] + v[a + 1..], Entry(v[a].item, p.GetOr(-1.0)))
  }

  function Lowered(low: Option<real>, p: Option<real>): Option<real> {
    if low.Some? && p.Some? then Some(Min(low.value, p.value)) else None
  }

  /** The lowest priority of a sorted list, zero if it is empty. */
  function Lowest(v: seq<Entry>): (low: real)
    ensures if v == [] then low == 0.0 else exists e :: e in v && e.pri == low
  {
    if v == [] then 0.0 else v[|v| - 1].pri
  }

  /** What a commit without an update reports as evicted: the live items beyond the best `k`, lowest first. */
  function Overflow(v: seq<Entry>, live: set<Item>, k: nat): seq<Item> {
    BottomUp(Beyond(LiveSorted(v, None, live), k))
  }

  /** The items of some entries, last first. */
  function BottomUp(v: seq<Entry>): seq<Item> {
    if v == [] then [] else [v[|v| - 1].item] + BottomUp(v[..|v| - 1])
  }

  lemma {:induction false} BottomUpAt(v: seq<Entry>, k: nat)
    requires k < |v|
    ensures |BottomUp(v)| == |v| && BottomUp(v)[k] == v[|v| - 1 - k].item
  {
    if |v| > 1 {
      BottomUpAt(v[..|v| - 1], if k > 0 then k - 1 else 0);
    }
  }

  lemma BottomUpStep(v: seq<Entry>, lo: nat, s: nat)
    requires lo <= s < |v|
    ensures BottomUp(v[lo..s + 1]) == [v[s].item] + BottomUp(v[lo..s])
  {
    assert v[lo..s + 1][..s - lo] == v[lo..s];
  }

  /** Room, or nothing smaller than the newcomer at the bottom. */
  predicate Accepts(v: seq<Entry>, p: real, capacity: nat) {
    |v| < capacity || (|v| > 0 && v[|v| - 1].pri <= p)
  }

  /** The entries after an accepted insertion: the lowest goes first if the bag is full. */
  function AfterInsert(v: seq<Entry>, e: Entry, capacity: nat): seq<Entry> {
    InsertEntry(Roomier(v, capacity), e)
  }

  /** What stays and what has to go for one more item. */
  function Roomier(v: seq<Entry>, capacity: nat): seq<Entry> {
    if |v| < capacity || |v| == 0 then v else v[..|v| - 1]
  }

  function Displaced(v: seq<Entry>, capacity: nat): seq<Entry> {
    if |v| < capacity || |v| == 0 then [] else [v[|v| - 1]]
  }

  lemma RoomierIs(v: seq<Entry>, capacity: nat)
    requires |v| <= capacity && capacity > 0
    ensures var left := if 1 + |v| - capacity > 0 then |v| - (1 + |v| - capacity) else |v|;
            Roomier(v, capacity) == v[..left] && Displaced(v, capacity) == v[left..] && v[..left] <= v
  {
  }

  /** A key not filed before some entries were cut off is not filed afterwards. */
  lemma KeyStillNew(r: Rep, q: Rep, k: Key)
    requires Agree(r) && Agree(q) && k !in r.keys && View(q) <= View(r)
    ensures k !in q.keys
  {
    KeysAreViewed(r, k);
    KeysAreViewed(q, k);
  }

  /** What an offered new item does to the priorities held: exactly one step of the top-k buffer. */
  lemma OfferIsTopKStep(v: seq<Entry>, e: Entry, capacity: nat)
    requires Descending(PrisOf(v)) && |v| <= capacity
    ensures Take(InsertDesc(PrisOf(v), e.pri), capacity)
         == PrisOf(if Accepts(v, e.pri, capacity) then AfterInsert(v, e, capacity) else v)
  {
    StepIsTake(PrisOf(v), e.pri, capacity);
    InsertEntryPris(v, e);
    if |v| > 0 {
      InsertEntryPris(v[..|v| - 1], e);
      assert PrisOf(v[..|v| - 1]) == PrisOf(v)[..|v| - 1];
    }
  }

  ghost predicate DistinctKeys(xs: seq<Item>) {
    forall i, j :: 0 <= i < j < |xs| ==> xs[i].key != xs[j].key
  }

  /** The floored priorities of the offered items that are not deleted. */
  function Offered(xs: seq<Item>, own: map<Item, real>, epsilon: real): seq<real> {
    if xs == [] then [] else
      Offered(xs[..|xs| - 1], own, epsilon)
      + (if xs[|xs| - 1] in own then [Floored(own[xs[|xs| - 1]], epsilon)] else [])
  }

  lemma NothingOffered(base: seq<real>, xs: seq<Item>, own: map<Item, real>, epsilon: real, k: nat)
    requires Descending(base) && |base| <= k
    ensures base == Take(SortDesc(base + Offered(xs[..0], own, epsilon)), k)
  {
    SortedStays(base);
    assert base + [] == base;
  }

  lemma OfferedStep(base: seq<real>, xs: seq<Item>, own: map<Item, real>, epsilon: real, k: nat, i: nat)
    requires i < |xs|
    ensures var held, next := base + Offered(xs[..i], own, epsilon), base + Offered(xs[..i + 1], own, epsilon);
            if xs[i] in own
            then Take(InsertDesc(Take(SortDesc(held), k), Floored(own[xs[i]], epsilon)), k) == Take(SortDesc(next), k)
            else held == next
  {
    assert xs[..i + 1][..i] == xs[..i];
    var held, next := base + Offered(xs[..i], own, epsilon), base + Offered(xs[..i + 1], own, epsilon);
    if xs[i] in own {
      var p := Floored(own[xs[i]], epsilon);
      assert next == held + [p] && next[..|next| - 1] == held;
      SortDescSorts(held);
      TakeInsert(SortDesc(held), p, k);
    }
  }

  /** Every key in view was there before or has been offered. */
  ghost predicate KeysFrom(v: seq<Entry>, had: set<Key>, xs: seq<Item>) {
    forall e :: e in v ==> e.item.key in had || e.item in xs
  }

  lemma KeysWithin(r: Rep, had: set<Key>)
    requires Agree(r) && had == r.keys.Keys
    ensures KeysFrom(View(r), had, [])
  {
    forall e | e in View(r) ensures e.item.key in had {
      KeysAreViewed(r, e.item.key);
    }
  }

  lemma NewKey(r: Rep, had: set<Key>, xs: seq<Item>, i: nat)
    requires Agree(r) && i < |xs| && DistinctKeys(xs) && KeysFrom(View(r), had, xs[..i])
    requires xs[i].key !in had
    ensures xs[i].key !in r.keys
  {
    KeysAreViewed(r, xs[i].key);
  }

  lemma KeysFromStep(v: seq<Entry>, had: set<Key>, xs: seq<Item>, i: nat, w: seq<Entry>, capacity: nat)
    requires i < |xs| && KeysFrom(v, had, xs[..i])
    requires w == v || exists p :: w == AfterInsert(v, Entry(xs[i], p), capacity)
    ensures KeysFrom(w, had, xs[..i + 1])
  {
    assert xs[..i + 1] == xs[..i] + [xs[i]];
  }

  /** What a refreshing pass knows after `i` places, in terms of the final set of live items. */
  ghost predicate Scanned(w: seq<Entry>, i: nat, live: set<Item>, sorted: bool, p0: Option<real>)
    requires i <= |w|
  {
    var kept := PrisOf(LiveOnly(w[..i], live));
    sorted ==>
      && Descending(kept) && (p0.None? <==> kept == [])
      && (p0.Some? ==> kept != [] && kept[|kept| - 1] == p0.value)
  }

  lemma AllRefreshed(v: seq<Entry>, update: Option<map<Item, real>>)
    ensures HalfRefreshed(v, update, 0) == v && HalfRefreshed(v, update, |v|) == Refreshed(v, update)
    ensures update.None? ==> Refreshed(v, update) == v
  {
  }

  /** The view after the first `i` places have been refreshed. */
  function HalfRefreshed(v: seq<Entry>, update: Option<map<Item, real>>, i: nat): (w: seq<Entry>)
    requires i <= |v|
    ensures |w| == |v| && forall k :: 0 <= k < |v| ==> w[k] == if k < i then Refreshed(v, update)[k] else v[k]
  {
    Refreshed(v, update)[..i] + v[i..]
  }

  /** The update of place `i` decides that item for good. */
  lemma LiveStaysLive(own: map<Item, real>, v: seq<Entry>, update: Option<map<Item, real>>, i: nat)
    requires Distinct(v) && i < |v|
    ensures var now := Applied(Applied(own, v[..i], update), [v[i]], update);
            var done := Applied(own, v, update);
            && now == Applied(own, v[..i + 1], update)
            && (v[i].item in now <==> v[i].item in done)
            && (v[i].item in done ==> now[v[i].item] == done[v[i].item])
  {
    assert v[..i + 1][..i] == v[..i];
    assert [v[i]][..0] == [];
    if update.Some? {
      DistinctPrefix(v, i + 1);
      AppliedAt(own, v, update, i);
      AppliedAt(own, v[..i + 1], update, i);
    }
  }

  /**
   * What the refreshing pass knows after `i` places: the owner's priorities, the places of the
   * deleted items, and whether the live priorities met descend.
   */
  ghost predicate Passed(v: seq<Entry>, i: nat, update: Option<map<Item, real>>, own0: map<Item, real>,
                         own: map<Item, real>, sorted: bool, removals: set<nat>, p0: Option<real>)
    requires i <= |v|
  {
    var done := Applied(own0, v, update);
    && own == Applied(own0, v[..i], update)
    && (forall a: nat :: a in removals <==> a < i && v[a].item !in done)
    && (update.Some? ==> Scanned(Refreshed(v, update), i, done.Keys, sorted, p0))
  }

  lemma PassedStep(v: seq<Entry>, i: nat, update: Option<map<Item, real>>, own0: map<Item, real>, own: map<Item, real>,
                   sorted: bool, removals: set<nat>, p0: Option<real>, now: map<Item, real>)
    requires Distinct(v) && i < |v| && Passed(v, i, update, own0, own, sorted, removals, p0)
    requires now == Applied(own, [v[i]], update)
    ensures v[i].item !in now ==> Passed(v, i + 1, update, own0, now, sorted, removals + {i}, p0)
    ensures v[i].item in now ==>
              var p := now[v[i].item];
              && (!sorted ==> Passed(v, i + 1, update, own0, now, false, removals, p0))
              && (sorted && p0.Some? && p >= p0.value ==> Passed(v, i + 1, update, own0, now, false, removals, p0))
              && (sorted && (p0.Some? ==> p < p0.value) ==>
                  Passed(v, i + 1, update, own0, now, true, removals, Some(p)))
  {
    LiveStaysLive(own0, v, update, i);
    if update.Some? {
      var done := Applied(own0, v, update);
      AppliedAt(own0, v, update, i);
      ScanStep(Refreshed(v, update), i, done.Keys, sorted, p0);
    }
  }

  lemma PassedAtStart(v: seq<Entry>, update: Option<map<Item, real>>, own0: map<Item, real>)
    ensures Passed(v, 0, update, own0, own0, true, {}, None)
  {
    assert v[..0] == [];
  }

  lemma PassedAtEnd(v: seq<Entry>, update: Option<map<Item, real>>, own0: map<Item, real>, own: map<Item, real>,
                    sorted: bool, removals: set<nat>, p0: Option<real>)
    requires Passed(v, |v|, update, own0, own, sorted, removals, p0) && Descending(PrisOf(v))
    ensures own == Applied(own0, v, update)
    ensures forall a: nat :: a in removals <==> a < |v| && v[a].item !in own
    ensures sorted ==> Descending(PrisOf(LiveOnly(Refreshed(v, update), own.Keys)))
  {
    var w := Refreshed(v, update);
    assert v[..|v|] == v && w[..|v|] == w;
    AllRefreshed(v, update);
    if update.None? {
      LiveOnlyDescends(v, own.Keys);
    }
  }

  lemma {:induction false} LiveOnlyDescends(v: seq<Entry>, live: set<Item>)
    requires Descending(PrisOf(v))
    ensures Descending(PrisOf(LiveOnly(v, live)))
    ensures forall e :: e in LiveOnly(v, live) ==> e in v
  {
    if v != [] {
      var n := |v| - 1;
      assert PrisOf(v[..n]) == PrisOf(v)[..n];
      LiveOnlyDescends(v[..n], live);
      var w := LiveOnly(v[..n], live);
      forall k | 0 <= k < |w| ensures w[k].pri >= v[n].pri {
        assert w[k] in w;
        var i :| 0 <= i < n && v[..n][i] == w[k];
        assert PrisOf(v)[i] >= PrisOf(v)[n];
      }
    }
  }

  lemma RefreshedStep(v: seq<Entry>, update: Option<map<Item, real>>, i: nat)
    requires i < |v|
    ensures HalfRefreshed(v, update, i)[i] == v[i]
    ensures HalfRefreshed(v, update, i)[i := Refreshed([v[i]], update)[0]] == HalfRefreshed(v, update, i + 1)
  {
  }

  lemma ScanStep(w: seq<Entry>, i: nat, live: set<Item>, sorted: bool, p0: Option<real>)
    requires i < |w| && Scanned(w, i, live, sorted, p0)
    ensures var p := w[i].pri;
            && (w[i].item !in live ==> Scanned(w, i + 1, live, sorted, p0))
            && (w[i].item in live && sorted && (p0.Some? ==> p < p0.value) ==> Scanned(w, i + 1, live, true, Some(p)))
            && Scanned(w, i + 1, live, false, p0)
  {
    assert w[..i + 1][..i] == w[..i];
    var kept := LiveOnly(w[..i], live);
    if w[i].item in live {
      assert LiveOnly(w[..i + 1], live) == kept + [w[i]];
      assert PrisOf(kept + [w[i]]) == PrisOf(kept) + [w[i].pri];
    }
  }

  lemma LiveOnlyCons(w: seq<Entry>, a: nat, live: set<Item>)
    requires a < |w|
    ensures LiveOnly(w[a..], live) == (if w[a].item in live then [w[a]] else []) + LiveOnly(w[a + 1..], live)
  {
    LiveOnlyConcat([w[a]], w[a + 1..], live);
    assert w[a..] == [w[a]] + w[a + 1..];
    assert [w[a]][..0] == [];
  }

  /** One round of the backward removal: a live entry stays, a dead one goes. */
  lemma DeadStep(w: seq<Entry>, a: nat, live: set<Item>)
    requires a < |w|
    ensures w[a].item in live ==> w[..a + 1] + LiveOnly(w[a + 1..], live) == w[..a] + LiveOnly(w[a..], live)
    ensures w[a].item !in live ==>
              var e := w[..a + 1] + LiveOnly(w[a + 1..], live);
              e[..a] + e[a + 1..] == w[..a] + LiveOnly(w[a..], live)
  {
    LiveOnlyCons(w, a, live);
    SpliceOut(w[..a], w[a], LiveOnly(w[a + 1..], live));
    assert w[..a + 1] == w[..a] + [w[a]];
  }

  lemma SpliceOut(u: seq<Entry>, e: Entry, t: seq<Entry>)
    ensures (u + [e]) + t == u + ([e] + t)
    ensures ((u + [e]) + t)[..|u|] + ((u + [e]) + t)[|u| + 1..] == u + ([] + t)
  {
  }
}
