/**
 * The four structures of an array bag (docs/java/ArrayBag.java) that must describe one set of
 * items: the key map, the slots with their priorities, the used bits, and the sorted id list.
 */
module ArrayBagRep {
  import opened BagItems
  import opened Options
  import opened Sequences
  import opened TopK

  /** One line of the bag as its readers see it. */
  datatype Entry = Entry(item: Item, pri: real)

  datatype Rep = Rep(
    keys: map<Key, nat>,
    slots: seq<Option<Item>>,
    pri: seq<Option<real>>,
    used: set<nat>,
    ids: seq<nat>)

  /** The priority of a slot, with -1 for a missing one. */
  function PriOf(pri: seq<Option<real>>, id: nat): real {
    if id < |pri| && pri[id].Some? then pri[id].value else -1.0
  }

  function Pris(ids: seq<nat>, pri: seq<Option<real>>): (s: seq<real>)
    ensures |s| == |ids| && forall k :: 0 <= k < |ids| ==> s[k] == PriOf(pri, ids[k])
  {
    seq(|ids|, k requires 0 <= k < |ids| => PriOf(pri, ids[k]))
  }

  // ---- Agreement -----------------------------------------------------------------------

  /** Key map, slots, priorities and used bits describe the same items. */
  ghost predicate Linked(r: Rep) {
    && |r.slots| == |r.pri|
    && (forall i :: i in r.used ==>
          && i < |r.slots| && r.slots[i].Some? && r.pri[i].Some?
          && r.slots[i].value.key in r.keys && r.keys[r.slots[i].value.key] == i)
    && (forall k :: k in r.keys ==> r.keys[k] in r.used && SlotItem(r.slots, r.keys[k]).key == k)
    && (forall i :: 0 <= i < |r.slots| && r.slots[i].Some? ==> i in r.used)
  }

  /** The id list holds exactly the used ids, once each. */
  ghost predicate Listed(ids: seq<nat>, used: set<nat>) {
    && (forall i :: i in ids <==> i in used)
    && (forall a, b :: 0 <= a < |ids| && 0 <= b < |ids| && a != b ==> Differ(ids, a, b))
  }

  predicate Differ(ids: seq<nat>, a: nat, b: nat)
    requires a < |ids| && b < |ids|
  {
    ids[a] != ids[b]
  }

  ghost predicate Agree(r: Rep) {
    Linked(r) && Listed(r.ids, r.used)
  }

  /** The id list is in descending order of priority. */
  ghost predicate Sorted(r: Rep) {
    Descending(Pris(r.ids, r.pri))
  }

  const NO_ITEM: Item := Item(-1, -1)

  function SlotItem(slots: seq<Option<Item>>, id: nat): Item {
    if id < |slots| && slots[id].Some? then slots[id].value else NO_ITEM
  }

  function View(r: Rep): (v: seq<Entry>)
    ensures |v| == |r.ids|
    ensures forall k :: 0 <= k < |v| ==> v[k] == Entry(SlotItem(r.slots, r.ids[k]), PriOf(r.pri, r.ids[k]))
  {
    seq(|r.ids|, k requires 0 <= k < |r.ids| => Entry(SlotItem(r.slots, r.ids[k]), PriOf(r.pri, r.ids[k])))
  }

  function PrisOf(v: seq<Entry>): (s: seq<real>)
    ensures |s| == |v| && forall k :: 0 <= k < |v| ==> s[k] == v[k].pri
  {
    seq(|v|, k requires 0 <= k < |v| => v[k].pri)
  }

  /** A key is filed exactly when an item with this key is in view. */
  lemma KeysAreViewed(r: Rep, k: Key)
    requires Agree(r)
    ensures k in r.keys <==> exists e :: e in View(r) && e.item.key == k
  {
    if k in r.keys {
      var i := r.keys[k];
      assert i in r.ids;
      var a :| 0 <= a < |r.ids| && r.ids[a] == i;
      assert View(r)[a] in View(r);
    }
    if e :| e in View(r) && e.item.key == k {
      var a :| 0 <= a < |r.ids| && View(r)[a] == e;
      assert r.ids[a] in r.ids;
    }
  }

  lemma {:induction false} SizeIsUsed(ids: seq<nat>, used: set<nat>)
    requires Listed(ids, used)
    ensures |ids| == |used|
  {
    if ids == [] {
      assert used == {};
    } else {
      var n := |ids| - 1;
      WithoutLists(ids, n, used);
      assert Without(ids, n) == ids[..n];
      SizeIsUsed(ids[..n], used - {ids[n]});
    }
  }

  /** Fewer used bits than slots leave one slot free. */
  lemma {:induction false} FreeSlot(used: set<nat>, cap: nat)
    requires |used| < cap
    ensures exists i: nat :: i < cap && i !in used
  {
    if cap - 1 in used {
      FreeSlot(used - {cap - 1}, cap - 1);
      var i: nat :| i < cap - 1 && i !in used - {cap - 1};
      assert i !in used;
    }
  }

  /** The first free slot below `cap`, or `cap`. */
  function FirstFree(used: set<nat>, cap: nat): nat {
    FirstFreeFrom(used, 0, cap)
  }

  function FirstFreeFrom(used: set<nat>, from: nat, cap: nat): nat
    decreases cap - from
  {
    if from >= cap then cap else if from !in used then from else FirstFreeFrom(used, from + 1, cap)
  }

  /** It is free unless there is none, and all slots before it are used. */
  lemma {:induction false} FirstFreeIsFirst(used: set<nat>, from: nat, cap: nat)
    requires from <= cap
    ensures var i := FirstFreeFrom(used, from, cap);
            && from <= i <= cap && (i < cap ==> i !in used) && forall j :: from <= j < i ==> j in used
    decreases cap - from
  {
    if from < cap && from in used {
      FirstFreeIsFirst(used, from + 1, cap);
    }
  }

  // ---- Filing, dropping and repricing -----------------------------------------------------

  /** Where an id goes: behind all of at least its priority. */
  function InsertId(ids: seq<nat>, id: nat, pri: seq<Option<real>>): (s: seq<nat>)
    ensures |s| == |ids| + 1
  {
    var r := Rank(Pris(ids, pri), PriOf(pri, id));
    ids[..r] + [id] + ids[r..]
  }

  lemma InsertIdFiles(ids: seq<nat>, id: nat, pri: seq<Option<real>>, used: set<nat>)
    requires Listed(ids, used) && id !in used && Descending(Pris(ids, pri))
    ensures Pris(InsertId(ids, id, pri), pri) == InsertDesc(Pris(ids, pri), PriOf(pri, id))
    ensures Descending(Pris(InsertId(ids, id, pri), pri))
    ensures Listed(InsertId(ids, id, pri), used + {id})
  {
    var r := Rank(Pris(ids, pri), PriOf(pri, id));
    assert id !in ids;
    InsertDescKeeps(Pris(ids, pri), PriOf(pri, id));
    assert Pris(InsertId(ids, id, pri), pri) == InsertDesc(Pris(ids, pri), PriOf(pri, id));
    SplicedLists(ids, id, used, r);
  }

  lemma SplicedLists(ids: seq<nat>, id: nat, used: set<nat>, r: nat)
    requires Listed(ids, used) && id !in used && r <= |ids|
    ensures Listed(ids[..r] + [id] + ids[r..], used + {id})
  {
    var s := ids[..r] + [id] + ids[r..];
    assert id !in ids;
    assert s[r] == id;
    forall i | i in ids ensures i in s {
      var a :| 0 <= a < |ids| && ids[a] == i;
      assert s[if a < r then a else a + 1] == i;
    }
    forall a | 0 <= a < |s| && a != r ensures s[a] == ids[if a < r then a else a - 1] && s[a] in ids {}
    forall a, b | 0 <= a < |s| && 0 <= b < |s| && a != b ensures Differ(s, a, b) {
      assert a == r || b == r || Differ(ids, if a < r then a else a - 1, if b < r then b else b - 1);
    }
  }

  lemma WithoutLists(ids: seq<nat>, a: nat, used: set<nat>)
    requires Listed(ids, used) && a < |ids|
    ensures Listed(Without(ids, a), used - {ids[a]})
  {
    var s := Without(ids, a);
    forall b | 0 <= b < |s| ensures s[b] == ids[if b < a then b else b + 1] && s[b] in ids && s[b] != ids[a] {
      assert Differ(ids, a, if b < a then b else b + 1);
    }
    forall b, c | 0 <= b < |s| && 0 <= c < |s| && b != c ensures Differ(s, b, c) {
      assert Differ(ids, if b < a then b else b + 1, if c < a then c else c + 1);
    }
    forall i | i in ids && i != ids[a] ensures i in s {
      var b :| 0 <= b < |ids| && ids[b] == i;
      assert s[if b < a then b else b - 1] == i;
    }
  }

  /** Filing a new item in a free slot. */
  function Filed(r: Rep, i: nat, x: Item, p: real): (f: Rep)
    requires i < |r.slots| == |r.pri|
    ensures |f.slots| == |f.pri| == |r.slots| && |f.ids| == |r.ids| + 1
  {
    var pri := r.pri[i := Some(p)];
    Rep(r.keys[x.key := i], r.slots[i := Some(x)], pri, r.used + {i}, InsertId(r.ids, i, pri))
  }

  lemma FiledAgrees(r: Rep, i: nat, x: Item, p: real)
    requires Agree(r) && Sorted(r) && i < |r.slots| && i !in r.used && x.key !in r.keys
    ensures Agree(Filed(r, i, x, p)) && Sorted(Filed(r, i, x, p))
  {
    var f := Filed(r, i, x, p);
    assert Pris(r.ids, f.pri) == Pris(r.ids, r.pri) by {
      assert i !in r.ids;
    }
    InsertIdFiles(r.ids, i, f.pri, r.used);
    FiledLinked(r, i, x, p);
  }

  lemma FiledLinked(r: Rep, i: nat, x: Item, p: real)
    requires Linked(r) && i < |r.slots| && i !in r.used && x.key !in r.keys
    ensures Linked(Filed(r, i, x, p))
  {
    var f := Filed(r, i, x, p);
    assert forall j :: 0 <= j < |r.slots| && j != i ==> f.slots[j] == r.slots[j];
  }

  /** An entry goes behind all of at least its priority. */
  function InsertEntry(v: seq<Entry>, e: Entry): (w: seq<Entry>)
    ensures |w| == |v| + 1
  {
    var at := Rank(PrisOf(v), e.pri);
    v[..at] + [e] + v[at..]
  }

  lemma InsertEntryPris(v: seq<Entry>, e: Entry)
    ensures PrisOf(InsertEntry(v, e)) == InsertDesc(PrisOf(v), e.pri)
  {
  }

  lemma ViewPris(r: Rep)
    ensures PrisOf(View(r)) == Pris(r.ids, r.pri)
  {
  }

  /** Filing an id in the list files its entry in the view. */
  lemma InsertIdView(r: Rep, id: nat)
    ensures View(r.(ids := InsertId(r.ids, id, r.pri)))
         == InsertEntry(View(r), Entry(SlotItem(r.slots, id), PriOf(r.pri, id)))
  {
    ViewPris(r);
  }

  /** The view depends only on the slots of the listed ids. */
  lemma SameView(r: Rep, q: Rep)
    requires r.ids == q.ids
    requires forall i :: i in r.ids ==>
               SlotItem(r.slots, i) == SlotItem(q.slots, i) && PriOf(r.pri, i) == PriOf(q.pri, i)
    ensures View(r) == View(q) && Pris(r.ids, r.pri) == Pris(q.ids, q.pri)
  {
    assert forall k :: 0 <= k < |r.ids| ==> r.ids[k] in r.ids;
  }

  lemma FiledView(r: Rep, i: nat, x: Item, p: real)
    requires Agree(r) && i < |r.slots| && i !in r.used
    ensures View(Filed(r, i, x, p)) == InsertEntry(View(r), Entry(x, p))
  {
    var stored := r.(slots := r.slots[i := Some(x)], pri := r.pri[i := Some(p)]);
    SameView(r, stored);
    InsertIdView(stored, i);
    SameView(Filed(r, i, x, p), stored.(ids := InsertId(r.ids, i, stored.pri)));
  }

  /** Dropping the item at place `a` of the id list. */
  function Dropped(r: Rep, a: nat): Rep
    requires |r.slots| == |r.pri| && a < |r.ids| && r.ids[a] < |r.slots|
  {
    var i := r.ids[a];
    Rep(r.keys - {SlotItem(r.slots, i).key}, r.slots[i := None], r.pri[i := None], r.used - {i}, Without(r.ids, a))
  }

  lemma ListedInRange(r: Rep, a: nat)
    requires Agree(r) && a < |r.ids|
    ensures r.ids[a] in r.used && r.ids[a] < |r.slots| && r.slots[r.ids[a]].Some? && r.pri[r.ids[a]].Some?
    ensures r.keys[SlotItem(r.slots, r.ids[a]).key] == r.ids[a]
  {
    assert r.ids[a] in r.ids;
  }

  lemma WithoutView(r: Rep, a: nat)
    requires a < |r.ids|
    ensures View(r.(ids := Without(r.ids, a))) == View(r)[..a] + View(r)[a + 1..]
    ensures Sorted(r) ==> Sorted(r.(ids := Without(r.ids, a)))
  {
    var s := Without(r.ids, a);
    assert forall b :: 0 <= b < |s| ==> s[b] == r.ids[if b < a then b else b + 1];
  }

  lemma DroppedAgrees(r: Rep, a: nat)
    requires Agree(r) && a < |r.ids| && r.ids[a] < |r.slots|
    ensures Agree(Dropped(r, a)) && (Sorted(r) ==> Sorted(Dropped(r, a)))
    ensures View(Dropped(r, a)) == View(r)[..a] + View(r)[a + 1..]
  {
    var d := Dropped(r, a);
    WithoutLists(r.ids, a, r.used);
    DroppedLinked(r, a);
    WithoutView(r, a);
    assert r.ids[a] !in d.ids;
    SameView(d, r.(ids := d.ids));
  }

  lemma DroppedLinked(r: Rep, a: nat)
    requires Agree(r) && a < |r.ids| && r.ids[a] < |r.slots|
    ensures Linked(Dropped(r, a))
  {
    ListedInRange(r, a);
    var i, d := r.ids[a], Dropped(r, a);
    assert forall j :: 0 <= j < |r.slots| && j != i ==> d.slots[j] == r.slots[j] && d.pri[j] == r.pri[j];
    forall k | k in d.keys ensures d.keys[k] in d.used && SlotItem(d.slots, d.keys[k]).key == k {
      assert r.keys[k] != i;
    }
  }

  /** A new priority for the item at place `a`, which moves to where it now belongs. */
  function Repriced(r: Rep, a: nat, p: real): Rep
    requires a < |r.ids| && r.ids[a] < |r.pri|
  {
    var pri := r.pri[r.ids[a] := Some(p)];
    r.(pri := pri, ids := InsertId(Without(r.ids, a), r.ids[a], pri))
  }

  lemma RepricedAgrees(r: Rep, a: nat, p: real)
    requires Agree(r) && Sorted(r) && a < |r.ids| && r.ids[a] < |r.pri|
    ensures Agree(Repriced(r, a, p)) && Sorted(Repriced(r, a, p))
  {
    var i, rest, pri := r.ids[a], Without(r.ids, a), r.pri[r.ids[a] := Some(p)];
    RestKeepsPris(r, a, p);
    InsertIdFiles(rest, i, pri, r.used - {i});
    assert i in r.ids;
    assert r.used - {i} + {i} == r.used;
  }

  /** The other ids keep their priorities and their order. */
  lemma RestKeepsPris(r: Rep, a: nat, p: real)
    requires Agree(r) && a < |r.ids| && r.ids[a] < |r.pri|
    ensures var rest, pri := Without(r.ids, a), r.pri[r.ids[a] := Some(p)];
            && Listed(rest, r.used - {r.ids[a]}) && Pris(rest, pri) == Pris(rest, r.pri)
            && View(r.(ids := rest, pri := pri)) == View(r)[..a] + View(r)[a + 1..]
            && (Sorted(r) ==> Descending(Pris(rest, pri)))
  {
    var i, rest := r.ids[a], Without(r.ids, a);
    WithoutLists(r.ids, a, r.used);
    WithoutView(r, a);
    assert i !in rest;
    SameView(r.(ids := rest), r.(ids := rest, pri := r.pri[i := Some(p)]));
  }

  lemma RepricedView(r: Rep, a: nat, p: real)
    requires Agree(r) && a < |r.ids| && r.ids[a] < |r.pri|
    ensures var rest := View(r)[..a] + View(r)[a + 1..];
            View(Repriced(r, a, p)) == InsertEntry(rest, Entry(View(r)[a].item, p))
  {
    var i, pri := r.ids[a], r.pri[r.ids[a] := Some(p)];
    ListedInRange(r, a);
    RestKeepsPris(r, a, p);
    InsertIdView(r.(ids := Without(r.ids, a), pri := pri), i);
  }

  // ---- Committing -------------------------------------------------------------------------

  /** Insertion sort of ids by priority; equals keep their order. */
  function SortIds(ids: seq<nat>, pri: seq<Option<real>>): seq<nat> {
    if ids == [] then [] else InsertId(SortIds(ids[..|ids| - 1], pri), ids[|ids| - 1], pri)
  }

  function SortEntries(v: seq<Entry>): (w: seq<Entry>)
    ensures |w| == |v|
  {
    if v == [] then [] else InsertEntry(SortEntries(v[..|v| - 1]), v[|v| - 1])
  }

  lemma {:induction false} SortEntriesPris(v: seq<Entry>)
    ensures PrisOf(SortEntries(v)) == SortDesc(PrisOf(v))
  {
    if v != [] {
      var n := |v| - 1;
      assert PrisOf(v)[..n] == PrisOf(v[..n]);
      SortEntriesPris(v[..n]);
      InsertEntryPris(SortEntries(v[..n]), v[n]);
    }
  }

  lemma InsertEntryCounts(w: seq<Entry>, e: Entry)
    ensures multiset(InsertEntry(w, e)) == multiset(w) + multiset{e}
  {
    var at := Rank(PrisOf(w), e.pri);
    assert w == w[..at] + w[at..];
  }

  /** Sorting rearranges. */
  lemma {:induction false} SortEntriesCounts(v: seq<Entry>)
    ensures multiset(SortEntries(v)) == multiset(v)
  {
    if v != [] {
      var n := |v| - 1;
      assert v == v[..n] + [v[n]];
      SortEntriesCounts(v[..n]);
      InsertEntryCounts(SortEntries(v[..n]), v[n]);
    }
  }

  lemma InsertLast(w: seq<Entry>, e: Entry)
    requires Rank(PrisOf(w), e.pri) == |w|
    ensures InsertEntry(w, e) == w + [e]
  {
  }

  /** What is in order stays as it is. */
  lemma {:induction false} SortedEntriesStay(v: seq<Entry>)
    requires Descending(PrisOf(v))
    ensures SortEntries(v) == v
  {
    if v != [] {
      var n := |v| - 1;
      assert v == v[..n] + [v[n]] && PrisOf(v[..n]) == PrisOf(v)[..n];
      LastRanksLast(PrisOf(v));
      SortedEntriesStay(v[..n]);
      InsertLast(v[..n], v[n]);
    }
  }

  lemma LastRanksLast(s: seq<real>)
    requires s != [] && Descending(s)
    ensures Rank(s[..|s| - 1], s[|s| - 1]) == |s| - 1
  {
    RankUnique(s[..|s| - 1], s[|s| - 1], |s| - 1);
  }

  lemma {:induction false} SortIdsLists(ids: seq<nat>, pri: seq<Option<real>>, used: set<nat>)
    requires Listed(ids, used)
    ensures Listed(SortIds(ids, pri), used) && Descending(Pris(SortIds(ids, pri), pri))
  {
    if ids != [] {
      var n := |ids| - 1;
      assert ids[..n] == Without(ids, n);
      WithoutLists(ids, n, used);
      SortIdsLists(ids[..n], pri, used - {ids[n]});
      InsertIdFiles(SortIds(ids[..n], pri), ids[n], pri, used - {ids[n]});
      assert ids[n] in ids;
      assert used - {ids[n]} + {ids[n]} == used;
    } else {
      assert used == {};
    }
  }

  /** Sorting the ids sorts the view. */
  lemma {:induction false} SortIdsView(r: Rep, ids: seq<nat>)
    ensures View(r.(ids := SortIds(ids, r.pri))) == SortEntries(View(r.(ids := ids)))
  {
    if ids != [] {
      var n := |ids| - 1;
      SortIdsView(r, ids[..n]);
      assert View(r.(ids := ids))[..n] == View(r.(ids := ids[..n]));
      InsertIdView(r.(ids := SortIds(ids[..n], r.pri)), ids[n]);
    }
  }

  /** Entries whose item is still live. */
  function LiveOnly(v: seq<Entry>, live: set<Item>): (w: seq<Entry>)
    ensures |w| <= |v|
  {
    if v == [] then []
    else LiveOnly(v[..|v| - 1], live) + (if v[|v| - 1].item in live then [v[|v| - 1]] else [])
  }

  lemma {:induction false} LiveOnlyConcat(v: seq<Entry>, w: seq<Entry>, live: set<Item>)
    ensures LiveOnly(v + w, live) == LiveOnly(v, live) + LiveOnly(w, live)
  {
    if w == [] {
      assert v + w == v;
    } else {
      var n := |w| - 1;
      assert (v + w)[..|v| + n] == v + w[..n];
      LiveOnlyConcat(v, w[..n], live);
    }
  }

  /** The owner's priorities after its update has visited some entries; without one they stay. */
  function Applied(own: map<Item, real>, v: seq<Entry>, update: Option<map<Item, real>>): map<Item, real> {
    if v == [] || update.None? then own else
      var o := Applied(own, v[..|v| - 1], update);
      var x := v[|v| - 1].item;
      if x in update.value then o[x := update.value[x]] else o - {x}
  }

  /** The view once the caller's update has set the priorities `now`; without an update they stay. */
  function Refreshed(v: seq<Entry>, update: Option<map<Item, real>>): (w: seq<Entry>)
    ensures |w| == |v|
    ensures forall k :: 0 <= k < |v| ==>
              w[k] == Entry(v[k].item, if update.Some? then PriNow(update.value, v[k].item) else v[k].pri)
  {
    seq(|v|, k requires 0 <= k < |v| =>
      Entry(v[k].item, if update.Some? then PriNow(update.value, v[k].item) else v[k].pri))
  }

  function PriNow(now: map<Item, real>, x: Item): real {
    if x in now then now[x] else -1.0
  }

  function Cut(w: seq<Entry>, k: nat): seq<Entry> {
    if |w| <= k then w else w[..k]
  }

  function Beyond(w: seq<Entry>, k: nat): seq<Entry> {
    if |w| <= k then [] else w[k..]
  }

  function LiveSorted(v: seq<Entry>, update: Option<map<Item, real>>, live: set<Item>): seq<Entry> {
    SortEntries(LiveOnly(Refreshed(v, update), live))
  }

  /** The specification of a commit: refresh, forget the deleted, sort, and keep the best `k`. */
  function CommitView(v: seq<Entry>, update: Option<map<Item, real>>, live: set<Item>, k: nat): seq<Entry> {
    Cut(LiveSorted(v, update, live), k)
  }

  /** A commit keeps the best of what is live: the `k` largest refreshed priorities, descending. */
  lemma CommitKeepsBest(v: seq<Entry>, update: Option<map<Item, real>>, live: set<Item>, k: nat)
    ensures PrisOf(CommitView(v, update, live, k)) == Take(SortDesc(PrisOf(LiveOnly(Refreshed(v, update), live))), k)
  {
    var w := LiveOnly(Refreshed(v, update), live);
    SortEntriesPris(w);
    CutPris(SortEntries(w), k);
  }

  lemma {:induction false} LiveOnlyIff(v: seq<Entry>, live: set<Item>, e: Entry)
    ensures e in LiveOnly(v, live) <==> e in v && e.item in live
  {
    if v != [] {
      var n := |v| - 1;
      assert v == v[..n] + [v[n]];
      LiveOnlyIff(v[..n], live, e);
    }
  }

  lemma SortedIff(v: seq<Entry>, update: Option<map<Item, real>>, live: set<Item>, e: Entry)
    ensures e in LiveSorted(v, update, live) <==> e in Refreshed(v, update) && e.item in live
  {
    var w := LiveOnly(Refreshed(v, update), live);
    SortEntriesCounts(w);
    assert e in SortEntries(w) <==> e in multiset(SortEntries(w));
    assert e in w <==> e in multiset(w);
    LiveOnlyIff(Refreshed(v, update), live, e);
  }

  /** The entry of an item that was listed, at the priority the update gives it, or without one as it was. */
  predicate FollowsFrom(e: Entry, d: Entry, update: Option<map<Item, real>>) {
    e.item == d.item
    && if update.None? then e.pri == d.pri else e.item in update.value && e.pri == update.value[e.item]
  }

  /** Who is listed after a commit, or evicted by it, and at what priority. */
  lemma CommitLists(v: seq<Entry>, update: Option<map<Item, real>>, live: set<Item>, k: nat, e: Entry)
    requires forall d :: d in v && d.item in live && update.Some? ==> d.item in update.value
    ensures e in CommitView(v, update, live, k) || e in Beyond(LiveSorted(v, update, live), k)
       <==> e.item in live && exists d :: d in v && FollowsFrom(e, d, update)
    ensures |CommitView(v, update, live, k)| <= k
  {
    var w, sorted := Refreshed(v, update), LiveSorted(v, update, live);
    assert CommitView(v, update, live, k) + Beyond(sorted, k) == sorted;
    SortedIff(v, update, live, e);
    if e in w && e.item in live {
      var a :| 0 <= a < |w| && w[a] == e;
      assert FollowsFrom(e, v[a], update);
    }
    if e.item in live && exists d :: d in v && FollowsFrom(e, d, update) {
      var d :| d in v && FollowsFrom(e, d, update);
      var a :| 0 <= a < |v| && v[a] == d;
      assert w[a] == e;
    }
  }

  /** And what it keeps is part of what is live. */
  lemma CommitKeepsLive(v: seq<Entry>, update: Option<map<Item, real>>, live: set<Item>, k: nat)
    ensures multiset(CommitView(v, update, live, k)) <= multiset(LiveOnly(Refreshed(v, update), live))
  {
    var w := LiveOnly(Refreshed(v, update), live);
    SortEntriesCounts(w);
    CutCounts(SortEntries(w), k);
  }

  lemma CutPris(w: seq<Entry>, k: nat)
    ensures PrisOf(Cut(w, k)) == Take(PrisOf(w), k)
  {
  }

  lemma CutCounts(w: seq<Entry>, k: nat)
    ensures multiset(Cut(w, k)) <= multiset(w)
  {
    if |w| > k {
      assert w == w[..k] + w[k..];
    }
  }

  ghost predicate Distinct(v: seq<Entry>) {
    forall a, b :: 0 <= a < |v| && 0 <= b < |v| && a != b ==> Unlike(v, a, b)
  }

  predicate Unlike(v: seq<Entry>, a: nat, b: nat)
    requires a < |v| && b < |v|
  {
    v[a].item != v[b].item
  }

  lemma ViewIsDistinct(r: Rep)
    requires Agree(r)
    ensures Distinct(View(r))
  {
    forall a, b | 0 <= a < |r.ids| && 0 <= b < |r.ids| && a != b ensures Unlike(View(r), a, b) {
      ListedInRange(r, a);
      ListedInRange(r, b);
      assert Differ(r.ids, a, b);
    }
  }

  /** Each distinct item ends up with what the update gives it. */
  lemma {:induction false} AppliedAt(own: map<Item, real>, v: seq<Entry>, update: Option<map<Item, real>>, a: nat)
    requires Distinct(v) && update.Some? && a < |v|
    ensures var o, x := Applied(own, v, update), v[a].item;
            (x in o <==> x in update.value) && (x in o ==> o[x] == update.value[x])
  {
    var n := |v| - 1;
    if a < n {
      assert Unlike(v, a, n);
      DistinctPrefix(v, n);
      AppliedAt(own, v[..n], update, a);
    }
  }

  /** Items that are not listed keep what they have, deleted ones included. */
  lemma {:induction false} AppliedElsewhere(own: map<Item, real>, v: seq<Entry>, update: Option<map<Item, real>>,
                                            x: Item)
    requires forall e :: e in v ==> e.item != x
    ensures var o := Applied(own, v, update); (x in o <==> x in own) && (x in o ==> o[x] == own[x])
  {
    if v != [] {
      var n := |v| - 1;
      assert v == v[..n] + [v[n]];
      AppliedElsewhere(own, v[..n], update, x);
    }
  }

  lemma DistinctPrefix(v: seq<Entry>, n: nat)
    requires Distinct(v) && n <= |v|
    ensures Distinct(v[..n])
  {
    forall a, b | 0 <= a < n && 0 <= b < n && a != b ensures Unlike(v[..n], a, b) {
      assert Unlike(v, a, b);
    }
  }

  /** Overwriting a listed slot's priority changes that entry and nothing else. */
  lemma RefreshedAgrees(r: Rep, a: nat, p: real)
    requires Agree(r) && a < |r.ids| && r.ids[a] < |r.pri|
    ensures var q := r.(pri := r.pri[r.ids[a] := Some(p)]);
            Agree(q) && View(q) == View(r)[a := Entry(View(r)[a].item, p)]
  {
    var q := r.(pri := r.pri[r.ids[a] := Some(p)]);
    forall b | 0 <= b < |r.ids| && b != a ensures r.ids[b] != r.ids[a] {
      assert Differ(r.ids, a, b);
    }
  }

  // ---- Clearing and growing -----------------------------------------------------------------

  /** Clearing empties the first `cap` slots only. */
  function Cleared(r: Rep, cap: nat): Rep {
    Rep(map[], seq(|r.slots|, k requires 0 <= k < |r.slots| => if k < cap then None else r.slots[k]), r.pri, {}, [])
  }

  /** Growing to `n` slots rebuilds the used bits from the slots. */
  function Grown(r: Rep, n: nat): Rep {
    Rep(r.keys,
      seq(n, k requires 0 <= k < n => if k < |r.slots| then r.slots[k] else None),
      seq(n, k requires 0 <= k < n => if k < |r.pri| then r.pri[k] else None),
      (set i: nat | i < |r.slots| && r.slots[i].Some?),
      r.ids)
  }

  /** Clearing leaves the structures in agreement exactly when no item sat beyond `cap`. */
  lemma ClearedAgrees(r: Rep, cap: nat)
    requires Agree(r) && cap <= |r.slots|
    ensures Agree(Cleared(r, cap)) <==> forall i :: i in r.used ==> i < cap
  {
    var c := Cleared(r, cap);
    if i :| i in r.used && i >= cap {
      assert c.slots[i] == r.slots[i];
    }
  }

  lemma GrownAgrees(r: Rep, n: nat)
    requires Agree(r) && Sorted(r) && |r.slots| <= n
    ensures Agree(Grown(r, n)) && Sorted(Grown(r, n)) && View(Grown(r, n)) == View(r)
  {
    var g := Grown(r, n);
    assert g.used == r.used;
    forall i | i in r.ids ensures i < |r.slots| {
      assert i in r.used;
    }
    SameView(r, g);
  }

  // ---- Strays -------------------------------------------------------------------------------

  function Emptied(slots: seq<Option<Item>>, strays: set<nat>): (s: seq<Option<Item>>)
    ensures |s| == |slots| && forall k :: 0 <= k < |s| ==> s[k] == if k in strays then None else slots[k]
  {
    seq(|slots|, k requires 0 <= k < |slots| => if k in strays then None else slots[k])
  }

  function WithoutStrays(r: Rep, strays: set<nat>): Rep {
    r.(used := r.used - strays, slots := Emptied(r.slots, strays))
  }

  /** The structures agree but for some slots, whose items are neither filed nor listed. */
  ghost predicate AgreeBut(r: Rep, strays: set<nat>) {
    && Agree(WithoutStrays(r, strays))
    && forall i :: i in strays ==> i < |r.slots| && r.slots[i].Some?
  }

  lemma NoStrays(r: Rep)
    ensures AgreeBut(r, {}) <==> Agree(r)
  {
    assert Emptied(r.slots, {}) == r.slots;
    assert WithoutStrays(r, {}) == r;
  }

  lemma StraysAreUnlisted(r: Rep, strays: set<nat>)
    requires AgreeBut(r, strays)
    ensures forall i :: i in r.ids ==> i !in strays && i < |r.slots| == |r.pri| && r.pri[i].Some?
    ensures View(r) == View(WithoutStrays(r, strays))
  {
    SameView(r, WithoutStrays(r, strays));
  }

  /** Strays do not get in the way of filing, but they take up slots. */
  lemma FiledAmong(r: Rep, i: nat, x: Item, p: real, strays: set<nat>)
    requires AgreeBut(r, strays) && strays <= r.used && Sorted(r)
    requires i < |r.slots| == |r.pri| && i !in r.used && x.key !in r.keys
    ensures AgreeBut(Filed(r, i, x, p), strays) && strays <= Filed(r, i, x, p).used && Sorted(Filed(r, i, x, p))
  {
    FiledAgrees(WithoutStrays(r, strays), i, x, p);
    FiledBeside(r, i, x, p, strays);
  }

  lemma FiledAmongView(r: Rep, i: nat, x: Item, p: real, strays: set<nat>)
    requires AgreeBut(r, strays) && strays <= r.used && Sorted(r)
    requires i < |r.slots| == |r.pri| && i !in r.used && x.key !in r.keys
    ensures View(Filed(r, i, x, p)) == InsertEntry(View(r), Entry(x, p))
  {
    FiledAmong(r, i, x, p, strays);
    StraysAreUnlisted(r, strays);
    StraysAreUnlisted(Filed(r, i, x, p), strays);
    FiledView(WithoutStrays(r, strays), i, x, p);
    FiledBeside(r, i, x, p, strays);
  }

  lemma LastIsListed(r: Rep, i: nat, x: Item, p: real, strays: set<nat>)
    requires AgreeBut(r, strays) && strays <= r.used && Sorted(r)
    requires i < |r.slots| && i !in r.used && x.key !in r.keys
    ensures |r.slots| == |r.pri|
    ensures var f := Filed(r, i, x, p);
            var last := f.ids[|f.ids| - 1];
            last < |f.pri| && f.pri[last].Some?
  {
    var f := Filed(r, i, x, p);
    FiledAmong(r, i, x, p, strays);
    StraysAreUnlisted(f, strays);
    assert f.ids[|f.ids| - 1] in f.ids;
  }

  /** The item is filed in the first free slot. */
  ghost predicate FilesFirst(r: Rep, cap: nat, x: Item, p: real, q: Rep) {
    var i := FirstFree(r.used, cap);
    i < cap && i < |r.slots| == |r.pri| && q == Filed(r, i, x, p)
  }

  lemma FiledFirstAmong(r: Rep, cap: nat, x: Item, p: real, q: Rep, strays: set<nat>)
    requires AgreeBut(r, strays) && strays <= r.used && Sorted(r) && x.key !in r.keys
    requires FilesFirst(r, cap, x, p, q)
    ensures AgreeBut(q, strays) && strays <= q.used && Sorted(q)
    ensures View(q) == InsertEntry(View(r), Entry(x, p)) && |q.ids| == |r.ids| + 1
  {
    FirstFreeIsFirst(r.used, 0, cap);
    FiledAmong(r, FirstFree(r.used, cap), x, p, strays);
    FiledAmongView(r, FirstFree(r.used, cap), x, p, strays);
  }

  lemma FiledBeside(r: Rep, i: nat, x: Item, p: real, strays: set<nat>)
    requires i < |r.slots| == |r.pri| && i !in strays
    ensures WithoutStrays(Filed(r, i, x, p), strays) == Filed(WithoutStrays(r, strays), i, x, p)
  {
    assert Emptied(r.slots[i := Some(x)], strays) == Emptied(r.slots, strays)[i := Some(x)];
    assert r.used + {i} - strays == r.used - strays + {i};
  }

  lemma UsedAmong(r: Rep, strays: set<nat>)
    requires AgreeBut(r, strays) && strays <= r.used
    ensures |r.used| == |r.ids| + |strays|
    ensures forall i :: i in r.used ==> i < |r.slots|
  {
    SizeIsUsed(r.ids, r.used - strays);
    assert |r.used - strays| == |r.used| - |strays|;
    forall i | i in r.used ensures i < |r.slots| {
      assert i in strays || i in WithoutStrays(r, strays).used;
    }
  }

  /** There is no free slot exactly when listed and stray items fill all of them. */
  lemma NoSlotIff(r: Rep, strays: set<nat>)
    requires AgreeBut(r, strays) && strays <= r.used
    ensures FirstFree(r.used, |r.slots|) == |r.slots| <==> |r.ids| + |strays| == |r.slots|
    ensures |r.ids| + |strays| <= |r.slots|
  {
    var n := |r.slots|;
    UsedAmong(r, strays);
    FirstFreeIsFirst(r.used, 0, n);
    AllBelow(r.used, n);
    if |r.used| < n {
      FreeSlot(r.used, n);
    }
  }

  lemma {:induction false} AllBelow(s: set<nat>, n: nat)
    requires forall i :: i in s ==> i < n
    ensures |s| <= n && (|s| == n <==> forall i: nat :: i < n ==> i in s)
  {
    if n == 0 {
      assert s == {};
    } else {
      AllBelow(s - {n - 1}, n - 1);
      assert n - 1 !in s ==> s - {n - 1} == s;
    }
  }

  /** Of what a clearing misses, nothing is filed or listed any more. */
  lemma ClearedLeaves(r: Rep, cap: nat)
    requires Agree(r) && cap <= |r.slots|
    ensures AgreeBut(Cleared(r, cap), set i | i in r.used && i >= cap)
  {
    var strays := set i | i in r.used && i >= cap;
    var u := WithoutStrays(Cleared(r, cap), strays);
    forall i | 0 <= i < |u.slots| ensures u.slots[i].None? {
      assert i < cap || i in strays || r.slots[i].None?;
    }
  }

  /** Growing turns every stray's slot into a used one. */
  lemma GrownAmong(r: Rep, n: nat, strays: set<nat>)
    requires AgreeBut(r, strays) && Sorted(r) && |r.slots| <= n
    ensures var g := Grown(r, n); AgreeBut(g, strays) && strays <= g.used && Sorted(g) && View(g) == View(r)
  {
    var g := Grown(r, n);
    StraysAreUnlisted(r, strays);
    assert forall i :: i in g.used <==> i in WithoutStrays(r, strays).used || i in strays;
    SameView(r, g);
  }

  /** Items that a clearing left behind take their slots for good once the bag grows. */
  lemma StraysKeepTheirSlots(r: Rep, cap: nat, n: nat)
    requires Agree(r) && cap <= |r.slots| <= n
    ensures Grown(Cleared(r, cap), n).used == set i | i in r.used && i >= cap
    ensures Grown(Cleared(r, cap), n).keys == map[] && Grown(Cleared(r, cap), n).ids == []
  {
  }
}
