/**
 * The hijack bag (docs/java/HijackBag.java), run sequentially: a bounded-probe hash table
 * whose full windows let a newcomer push the weakest item out.
 *
 * The policy that decides a fight (`replace`) and the policy that merges equal keys are
 * open: both are arbitrary choices here.  `removed` is the list of `onRemove` calls.
 */
module HijackBag {
  import opened BagItems
  import opened Options
  import opened HijackRoom
  import opened HijackTable

  class HijackBag {
    const reprobes: nat
    const code: Key -> int
    var values: array<Option<Item>>
    var hashes: array<int>
    var size: int
    var capacity: nat
    var min: real
    var max: real
    var pri: Priorities
    ghost var removed: multiset<Item>

    ghost predicate Ok()
      reads this, values, hashes
    {
      reprobes >= 2 && TableOk(values[..], hashes[..], code, reprobes)
    }

    ghost function Items(): set<Item>
      reads this, values
    {
      Held(values[..])
    }

    function Space(): nat
      reads this
    {
      values.Length
    }

    /** How far the table may still grow. */
    function Room(): nat
      reads this
    {
      if values.Length < capacity then capacity - values.Length else 0
    }

    /** The table is the same object, or a longer new one within the capacity. */
    twostate predicate SameOrRegrown()
      reads this
    {
      if Space() == old(Space()) then values == old(values) && hashes == old(hashes)
      else fresh(values) && fresh(hashes) && old(Space()) < Space() <= capacity
    }

    constructor (reprobes: nat, code: Key -> int)
      requires reprobes >= 2
      ensures Ok() && Items() == {} && size == 0 && Space() == 0 && capacity == 0
      ensures fresh(values) && fresh(hashes) && removed == multiset{} && this.reprobes == reprobes && this.code == code
    {
      this.reprobes, this.code := reprobes, code;
      values, hashes := new Option<Item>[0], new int[0];
      size, capacity, min, max, pri, removed := 0, 0, 0.0, 0.0, map[], multiset{};
    }

    /** Finds an item exactly when one with this key is stored anywhere in the table. */
    method Get(k: Key) returns (found: Option<Item>)
      requires Ok()
      ensures found.Some? <==> HoldsKey(values[..], k)
      ensures found.Some? ==> found.value in Items() && found.value.key == k
    {
      var c := values.Length;
      if c == 0 {
        return None;
      }
      var kHash := Hash(code, k);
      ghost var start := Index(kHash, c);
      var i := Index(kHash, c);
      for j := 0 to reprobes
        invariant i == Probe(start, j, c)
        invariant forall m: nat :: m < j ==> !HasKey(values[..][Probe(start, m, c)], k)
      {
        if kHash == hashes[i] && values[i].Some? && values[i].value.key == k {
          assert values[..][i] == values[i];
          return values[i];
        }
        assert !HasKey(values[i], k);
        i := if i + 1 == c then 0 else i + 1;
      }
      WindowDecides(values[..], hashes[..], code, reprobes, k);
      return None;
    }

    /** The scan of a put: the cell it chooses, as `Chooses` demands. */
    method Scan(k: Key) returns (slot: Slot)
      requires Ok() && values.Length > 0
      ensures Chooses(values[..], pri, k, Index(Hash(code, k), values.Length), reprobes, slot)
    {
      var kHash := Hash(code, k);
      slot := ScanFrom(k, kHash, Index(kHash, values.Length));
    }

    method ScanFrom(k: Key, kHash: int, start: nat) returns (slot: Slot)
      requires Ok() && start < values.Length && kHash == Hash(code, k)
      ensures Chooses(values[..], pri, k, start, reprobes, slot)
    {
      var c := values.Length;
      ghost var v := values[..];
      var i := start;
      var victim: Option<Slot> := None;
      var victimPri := 0.0;
      for j := 0 to reprobes
        invariant i == Probe(start, j, c)
        invariant Scanned(v, pri, k, start, j, victim, victimPri)
      {
        var y := values[i];
        assert v[Probe(start, j, c)] == y;
        if y.None? {
          if victim.None? || !victim.value.Vacant? {
            ScanVacant(v, pri, k, start, j, victim, victimPri);
            victim := Some(Vacant(i));
          } else {
            ScanOn(v, pri, k, start, j, victim, victimPri);
          }
        } else if kHash == hashes[i] && y.value.key == k {
          return Match(i);
        } else if victim.None? || !victim.value.Vacant? {
          var yp := PriElseZero(pri, y.value);
          if victim.None? || victimPri > yp {
            ScanWeaker(v, pri, k, start, j, victim, victimPri);
            victim, victimPri := Some(Weakest(i)), yp;
          } else {
            ScanOn(v, pri, k, start, j, victim, victimPri);
          }
        } else {
          ScanOn(v, pri, k, start, j, victim, victimPri);
        }
        i := Next(i, c);
      }
      slot := victim.value;
    }

    /** Two items with one key: the held one survives, with whatever priority the policy gives it. */
    method Merge(existing: Item)
      modifies this`pri
      ensures pri - {existing} == old(pri) - {existing}
    {
      if * {
        var p: real := *;
        pri := pri[existing := p];
      } else {
        pri := pri - {existing};
      }
    }

    /** The attempt to file `x` in the current table, before any bookkeeping. */
    method TryPut(x: Item) returns (returning: Option<Item>, adding: bool, removing: Option<Item>)
      requires Ok()
      modifies this`pri, values, hashes
      ensures Ok()
      ensures Attempt(code, reprobes, old(values[..]), old(pri), values[..], pri, x, returning, adding, removing)
    {
      returning, adding, removing := None, false, None;
      if values.Length == 0 || x !in pri {
        return;
      }
      ghost var v := values[..];
      ghost var c := values.Length;
      ghost var start := Index(Hash(code, x.key), c);
      var slot := Scan(x.key);
      match slot
      case Match(i) =>
        returning := values[i];
        assert HasKey(v[i], x.key);
        UniqueKey(v, hashes[..], code, reprobes, i, x);
        if returning.value != x {
          Merge(returning.value);
        }
      case _ =>
        var i := slot.i;
        WindowDecides(v, hashes[..], code, reprobes, x.key);
        assert InWindow(i, start, reprobes, c);
        var win := slot.Vacant?;
        if !win {
          win := *;
        }
        if win {
          StoreKeeps(v, hashes[..], code, reprobes, i, x);
          removing := values[i];
          values[i], hashes[i] := Some(x), Hash(code, x.key);
          assert values[..] == v[i := Some(x)];
          assert hashes[..] == old(hashes[..])[i := Hash(code, x.key)];
          returning, adding := Some(x), true;
        } else {
          NotHeld(v, x);
        }
    }

    /** `put`: the attempt, then the bookkeeping.  `gone` lists the `onRemove` calls on the way. */
    method Put(x: Item) returns (returning: Option<Item>, ghost gone: set<Item>)
      requires Ok()
      modifies this, values, hashes
      ensures Ok() && capacity == old(capacity)
      ensures SameOrRegrown()
      ensures removed == old(removed) + multiset(gone)
      ensures PutOutcome(code, reprobes, old(values[..]), old(pri), values[..], pri, x, returning, gone)
      ensures Space() == old(Space()) ==> size - |Items()| == old(size) - |old(Items())|
      ensures Space() != old(Space()) ==> size == |Items()|
      ensures AllSqueezed(gone, code, reprobes, old(Space()), old(Items()) + {x})
      ensures x in old(pri) && !HoldsKey(old(values[..]), x.key) && Roomy(old(values[..]), reprobes) ==>
                returning == Some(x) && gone == {} && (old(Items()) + {x}) * pri.Keys <= Items()
      decreases Room(), 4
    {
      ghost var v, h, p := values[..], hashes[..], pri;
      var adding, removing;
      returning, adding, removing := TryPut(x);
      gone := Finish(x, returning, adding, removing, v, h, p);
      if x in p && !HoldsKey(v, x.key) && Roomy(v, reprobes) {
        RoomyTakes(code, reprobes, v, h, p, values[..], pri, x, returning, gone);
      }
    }

    /** The bookkeeping of a put. */
    method Finish(x: Item, returning: Option<Item>, adding: bool, removing: Option<Item>,
                  ghost v: Cells, ghost h: seq<int>, ghost p: Priorities) returns (ghost gone: set<Item>)
      requires Ok() && TableOk(v, h, code, reprobes)
      requires Attempt(code, reprobes, v, p, values[..], pri, x, returning, adding, removing)
      modifies this, values, hashes
      ensures Ok() && capacity == old(capacity) && pri == old(pri)
      ensures SameOrRegrown()
      ensures removed == old(removed) + multiset(gone)
      ensures PutOutcome(code, reprobes, v, p, values[..], pri, x, returning, gone)
      ensures Space() == old(Space()) ==> size - |Items()| == old(size) - |Held(v)|
      ensures Space() != old(Space()) ==> size == |Items()|
      ensures AllSqueezed(gone, code, reprobes, |v|, Held(v) + {x})
      decreases Room(), 3
    {
      ghost var u := values[..];
      AttemptKeeps(code, reprobes, v, h, p, u, pri, x, returning, adding, removing);
      AttemptIsPut(code, reprobes, v, h, p, u, pri, x, returning, adding, removing);
      gone := Commit(if adding then Some(x) else None, removing);
      if Space() != |v| {
        AttemptAndGrowthIsPut(code, reprobes, v, h, p, u, values[..], x, returning, gone);
      } else {
        PutIsSqueezed(code, reprobes, v, h, p, u, pri, x, returning, gone);
      }
    }

    /** Completes a put or a removal; only a pure addition can trigger a regrowth. */
    method Commit(toAdd: Option<Item>, toRemove: Option<Item>) returns (ghost gone: set<Item>)
      requires Ok() && (toRemove.Some? ==> toRemove.value !in Items())
      modifies this, values, hashes
      ensures Ok() && capacity == old(capacity) && pri == old(pri)
      ensures removed == old(removed) + multiset(gone)
      ensures var grows := toAdd.Some? && toRemove.None? && Regrows(old(size) + 1, old(Space()), capacity);
              if grows then
                && fresh(values) && fresh(hashes) && old(Space()) < Space() <= capacity
                && Accounts(old(Items()), Items(), gone, pri.Keys) && size == |Items()|
                && AllSqueezed(gone, code, reprobes, old(Space()), old(Items()))
              else
                && values == old(values) && hashes == old(hashes) && values[..] == old(values[..])
                && gone == (if toRemove.Some? then {toRemove.value} else {})
                && size == old(size) + (if toAdd.Some? then 1 else 0) - (if toRemove.Some? then 1 else 0)
      decreases Room(), 2
    {
      gone := {};
      size := size + (if toAdd.Some? then 1 else 0) - (if toRemove.Some? then 1 else 0);
      if toAdd.Some? && toRemove.None? {
        var _, g := RegrowForSize(size, values.Length);
        gone := g;
      }
      if toRemove.Some? {
        OnRemove(toRemove.value);
        gone := {toRemove.value};
      }
    }

    method OnRemove(x: Item)
      modifies this`removed
      ensures removed == old(removed) + multiset{x}
    {
      removed := removed + multiset{x};
    }

    method RegrowForSize(s: int, sp: nat) returns (grew: bool, ghost gone: set<Item>)
      requires Ok() && sp == values.Length
      modifies this, values, hashes
      ensures Ok() && capacity == old(capacity) && pri == old(pri)
      ensures removed == old(removed) + multiset(gone)
      ensures grew == Regrows(s, sp, capacity)
      ensures if grew then
                && fresh(values) && fresh(hashes) && sp < Space() <= capacity
                && Accounts(old(Items()), Items(), gone, pri.Keys) && size == |Items()|
                && AllSqueezed(gone, code, reprobes, sp, old(Items()))
              else
                && values == old(values) && hashes == old(hashes) && values[..] == old(values[..])
                && gone == {} && size == old(size)
      decreases Room(), 1
    {
      if Regrows(s, sp, capacity) {
        RegrowthGrows(s, sp, capacity);
        ghost var items := Items();
        gone := Resize(GrowTarget(sp, capacity));
        SqueezedAlso(gone, code, reprobes, GrowTarget(sp, capacity), items * pri.Keys, sp, items);
        return true, gone;
      }
      return false, {};
    }

    /** One re-put; a refused item is reported. */
    method Refile(b: Item) returns (ghost y: Option<Item>, ghost g: set<Item>)
      requires Ok()
      modifies this, values, hashes
      ensures Ok() && capacity == old(capacity) && SameOrRegrown()
      ensures removed == old(removed) + multiset(WithRefused(b, y, g))
      ensures PutOutcome(code, reprobes, old(values[..]), old(pri), values[..], pri, b, y, g)
      ensures AllSqueezed(g, code, reprobes, old(Space()), old(Items()) + {b})
      decreases Room(), 5
    {
      var returning;
      ghost var v, p := values[..], pri;
      returning, g := Put(b);
      RefusedAlone(code, reprobes, v, p, values[..], pri, b, returning, g);
      ReportRefused(b, returning);
      y := returning;
    }

    method ReportRefused(b: Item, y: Option<Item>)
      modifies this`removed
      ensures removed == old(removed) + multiset(if y.None? then {b} else {})
    {
      if y.None? {
        OnRemove(b);
      }
    }

    function RoomAt(space: nat): nat
      reads this
    {
      if space < capacity then capacity - space else 0
    }

    /**
     * Re-files every live item into a table of another length, in cell order.  The size counter
     * is still inflated while this happens, so the puts may regrow the table again underneath;
     * at the end the counter is exact and every live item is held or was reported.
     */
    method Resize(newSpace: nat) returns (ghost gone: set<Item>)
      requires Ok() && (newSpace != 0 || values.Length != 0)
      modifies this, values, hashes
      ensures Ok() && capacity == old(capacity) && pri == old(pri)
      ensures removed == old(removed) + multiset(gone)
      ensures newSpace == old(Space()) ==>
                && values == old(values) && hashes == old(hashes) && values[..] == old(values[..])
                && gone == {} && size == old(size)
      ensures newSpace != old(Space()) ==>
                && fresh(values) && fresh(hashes) && newSpace <= Space()
                && (Space() <= newSpace || Space() <= capacity)
                && Accounts(old(Items()), Items(), gone, pri.Keys) && Items() <= pri.Keys && size == |Items()|
                && AllSqueezed(gone, code, reprobes, newSpace, old(Items()) * pri.Keys)
                && (Space() == newSpace ==> AllCrowdedOut(values[..], code, reprobes, old(Items()) * pri.Keys, gone))
      ensures |old(Items()) * pri.Keys| <= reprobes && |old(Items()) * pri.Keys| <= newSpace != old(Space()) ==>
                gone == {} && Items() == old(Items()) * pri.Keys
      decreases RoomAt(newSpace), 9
    {
      if newSpace == values.Length {
        return {};
      }
      var prev := values;
      ghost var cells, marks := values[..], hashes[..];
      values, hashes := new Option<Item>[newSpace](_ => None), new int[newSpace](_ => 0);
      BlankTable(values[..], hashes[..], code, reprobes);
      gone := Rebuild(prev, marks, Held(cells));
      FewRefiled(Held(cells), Items(), gone, pri, code, reprobes, newSpace);
    }

    /** Fills a new table from the previous one, and then sets counter and range. */
    method Rebuild(prev: array<Option<Item>>, ghost marks: seq<int>, ghost items: set<Item>)
      returns (ghost gone: set<Item>)
      requires Ok() && Items() == {} && prev != values
      requires TableOk(prev[..], marks, code, reprobes) && items == Held(prev[..])
      modifies this, values, hashes
      ensures Ok() && capacity == old(capacity) && pri == old(pri)
      ensures SameOrRegrown()
      ensures removed == old(removed) + multiset(gone)
      ensures Accounts(items, Items(), gone, pri.Keys) && Items() <= pri.Keys && size == |Items()|
      ensures AllSqueezed(gone, code, reprobes, old(Space()), items * pri.Keys)
      ensures Space() == old(Space()) ==> AllCrowdedOut(values[..], code, reprobes, items * pri.Keys, gone)
      decreases Room(), 8
    {
      gone := RefileAll(prev, marks);
      Recount();
    }

    /** The commit that ends a resize: all items being live, it sets counter and range and no more. */
    method Recount()
      requires Ok() && Items() <= pri.Keys
      modifies this`pri, this`removed, this`size, this`min, this`max, values, hashes
      ensures Ok() && pri == old(pri) && removed == old(removed) && size == |Items()|
      ensures values[..] == old(values[..])
    {
      ghost var cells, marks := values[..], hashes[..];
      var evicted := CommitAll(None);
      AllStay(cells, marks, code, reprobes, values[..]);
    }

    /** The puts of a resize, in the order of the previous table's cells. */
    method RefileAll(prev: array<Option<Item>>, ghost marks: seq<int>) returns (ghost gone: set<Item>)
      requires Ok() && Items() == {} && prev != values && TableOk(prev[..], marks, code, reprobes)
      modifies this, values, hashes
      ensures Ok() && capacity == old(capacity) && pri == old(pri)
      ensures SameOrRegrown()
      ensures removed == old(removed) + multiset(gone)
      ensures Accounts(Held(prev[..]), Items(), gone, pri.Keys) && Items() <= pri.Keys
      ensures AllSqueezed(gone, code, reprobes, old(Space()), Held(prev[..]) * pri.Keys)
      ensures Space() == old(Space()) ==> AllCrowdedOut(values[..], code, reprobes, Held(prev[..]) * pri.Keys, gone)
      decreases Room(), 7
    {
      ghost var cells := prev[..];
      HeldToAll(cells);
      gone := {};
      for k := 0 to prev.Length
        invariant SameOrRegrown() && prev != values
        invariant Ok() && capacity == old(capacity) && pri == old(pri)
        invariant removed == old(removed) + multiset(gone)
        invariant Accounts(HeldTo(cells, k) * pri.Keys, Items(), gone, pri.Keys)
        invariant AllSqueezed(gone, code, reprobes, old(Space()), Held(cells) * pri.Keys)
        invariant Space() == old(Space()) ==> AllCrowdedOut(values[..], code, reprobes, Held(cells) * pri.Keys, gone)
      {
        gone := RefileCell(cells, marks, k, prev[k], old(removed), gone, old(Space()));
      }
    }

    /** One round of a resize: a live item of cell `k` is put again. */
    method RefileCell(ghost cells: Cells, ghost marks: seq<int>, ghost k: nat, cell: Option<Item>,
                      ghost base: multiset<Item>, ghost gone: set<Item>, ghost least: nat)
      returns (ghost gone': set<Item>)
      requires Ok() && TableOk(cells, marks, code, reprobes) && k < |cells| && cells[k] == cell
      requires removed == base + multiset(gone)
      requires Accounts(HeldTo(cells, k) * pri.Keys, Items(), gone, pri.Keys)
      requires least <= Space() && AllSqueezed(gone, code, reprobes, least, Held(cells) * pri.Keys)
      requires Space() == least ==> AllCrowdedOut(values[..], code, reprobes, Held(cells) * pri.Keys, gone)
      modifies this, values, hashes
      ensures Ok() && SameOrRegrown() && capacity == old(capacity) && pri == old(pri)
      ensures removed == base + multiset(gone')
      ensures Accounts(HeldTo(cells, k + 1) * pri.Keys, Items(), gone', pri.Keys)
      ensures AllSqueezed(gone', code, reprobes, least, Held(cells) * pri.Keys)
      ensures Space() == least ==> AllCrowdedOut(values[..], code, reprobes, Held(cells) * pri.Keys, gone')
      decreases Room(), 6
    {
      KeyIsNew(cells, marks, code, reprobes, k);
      LiveStep(cells, k, pri);
      HeldToWithin(cells, k);
      gone' := gone;
      if cell.Some? && cell.value in pri {
        ghost var v, h, p, live := values[..], hashes[..], pri, HeldTo(cells, k) * pri.Keys;
        NoKeyHeld(v, cell.value.key);
        var y, g := Refile(cell.value);
        CellRefiled(code, reprobes, v, h, p, values[..], pri, cell.value, y, g, live, gone, least,
                    Held(cells) * p.Keys);
        gone' := gone + WithRefused(cell.value, y, g);
        ReportMore(base, gone, WithRefused(cell.value, y, g));
      } else {
        assert HeldTo(cells, k + 1) * pri.Keys == HeldTo(cells, k) * pri.Keys;
      }
    }

    /**
     * `commit`: every live item is updated, deleted items are evicted and reported, and the
     * size counter and the priority range are recomputed.
     */
    method CommitAll(update: Option<Priorities>) returns (ghost gone: set<Item>)
      requires Ok()
      modifies this`pri, this`removed, this`size, this`min, this`max, values, hashes
      ensures Ok() && capacity == old(capacity) && values == old(values) && hashes == old(hashes)
      ensures pri == After(old(pri), old(Items()), update)
      ensures removed == old(removed) + multiset(gone)
      ensures Items() == old(Items()) * pri.Keys && gone == old(Items()) - pri.Keys
      ensures size == |Items()| && IsRange(Items(), pri, min, max)
      ensures OnlyEmptied(old(values[..]), values[..])
    {
      ghost var cells, was := values[..], pri;
      gone := Sweep(update);
      CommitEnd(cells, was, update, Items(), pri, gone, size, min, max);
    }

    /** The loop of a commit over all cells, and the new counter and range. */
    method Sweep(update: Option<Priorities>) returns (ghost gone: set<Item>)
      requires Ok()
      modifies this`pri, this`removed, this`size, this`min, this`max, values, hashes
      ensures Ok() && removed == old(removed) + multiset(gone)
      ensures Committed(old(values[..]), values.Length, old(pri), update, Items(), pri, gone, size, min, max)
      ensures OnlyEmptied(old(values[..]), values[..])
    {
      var count, lo, hi;
      gone, count, lo, hi := {}, 0, 0.0, 0.0;
      ghost var cells, marks := values[..], hashes[..];
      CommitStart(cells, pri, update);
      for i := 0 to values.Length
        invariant Ok() && removed == old(removed) + multiset(gone)
        invariant forall k :: i <= k < values.Length ==> values[k] == cells[k]
        invariant OnlyEmptied(cells, values[..])
        // compared with `true`, so that the predicate is carried whole and not taken apart
        invariant true == Committed(cells, i, old(pri), update, Items(), pri, gone, count, lo, hi)
      {
        gone, count, lo, hi := CommitCell(i, update, cells, marks, old(pri), old(removed), gone, count, lo, hi);
      }
      size, min, max := count, lo, hi;
    }

    /** One round of a commit. */
    method CommitCell(i: nat, update: Option<Priorities>, ghost cells: Cells, ghost marks: seq<int>,
                      ghost was: Priorities, ghost base: multiset<Item>, ghost gone: set<Item>,
                      count: int, lo: real, hi: real)
      returns (ghost gone': set<Item>, count': int, lo': real, hi': real)
      requires Ok() && i < values.Length == |cells| && TableOk(cells, marks, code, reprobes) && values[i] == cells[i]
      requires removed == base + multiset(gone)
      requires Committed(cells, i, was, update, Items(), pri, gone, count, lo, hi) && OnlyEmptied(cells, values[..])
      modifies this`pri, this`removed, values, hashes
      ensures Ok() && removed == base + multiset(gone')
      ensures forall k :: 0 <= k < values.Length && k != i ==> values[k] == old(values[k])
      ensures Committed(cells, i + 1, was, update, Items(), pri, gone', count', lo', hi')
      ensures OnlyEmptied(cells, values[..])
    {
      gone', count', lo', hi' := gone, count, lo, hi;
      var f := values[i];
      ghost var items, p, v := Items(), pri, values[..];
      if f.None? {
        CommitSkip(cells, i, was, update, items, p, gone, count, lo, hi);
      } else {
        KeyIsNew(cells, marks, code, reprobes, i);
        var q := Visit(i, f.value, update);
        EmptiedChain(cells, v, values[..]);
        if q.Some? {
          CommitKeep(cells, i, was, update, items, p, gone, count, lo, hi, f.value, pri);
          lo' := if count == 0 || q.value < lo then q.value else lo;
          hi' := if count == 0 || q.value > hi then q.value else hi;
          count' := count + 1;
        } else {
          CommitDrop(cells, i, was, update, items, p, gone, count, lo, hi, f.value, pri);
          ReportOne(base, gone, f.value);
          gone' := gone + {f.value};
        }
      }
    }

    /** The update of one occupied cell: its item's new priority, or nothing and an empty cell. */
    method Visit(i: nat, x: Item, update: Option<Priorities>) returns (p: Option<real>)
      requires Ok() && i < values.Length && values[i] == Some(x)
      modifies this`pri, this`removed, values, hashes
      ensures Ok() && pri == After(old(pri), {x}, update)
      ensures p == if x in pri then Some(pri[x]) else None
      ensures forall k :: 0 <= k < values.Length && k != i ==> values[k] == old(values[k])
      ensures x in old(Items()) && Items() == if p.Some? then old(Items()) else old(Items()) - {x}
      ensures OnlyEmptied(old(values[..]), values[..])
      ensures removed == if p.Some? then old(removed) else old(removed) + multiset{x}
    {
      if update.Some? && x in pri {
        pri := if x in update.value then pri[x := update.value[x]] else pri - {x};
      }
      assert values[..][i] == Some(x);
      p := if x in pri then Some(pri[x]) else None;
      if p.None? {
        Evict(i, x);
      }
    }

    method Evict(i: nat, x: Item)
      requires Ok() && i < values.Length && values[i] == Some(x)
      modifies this`removed, values, hashes
      ensures Ok() && x in old(Items()) && Items() == old(Items()) - {x}
      ensures forall k :: 0 <= k < values.Length && k != i ==> values[k] == old(values[k])
      ensures removed == old(removed) + multiset{x} && OnlyEmptied(old(values[..]), values[..])
    {
      ClearKeeps(values[..], hashes[..], code, reprobes, i);
      values[i], hashes[i] := None, 0;
      assert values[..] == old(values[..])[i := None];
      assert hashes[..] == old(hashes[..])[i := 0];
      OnRemove(x);
    }

    /** Removes and reports exactly the item with this key, if one is held. */
    method Remove(k: Key) returns (found: Option<Item>)
      requires Ok()
      modifies this, values, hashes
      ensures Ok() && capacity == old(capacity) && pri == old(pri) && values == old(values) && hashes == old(hashes)
      ensures found.Some? <==> HoldsKey(old(values[..]), k)
      ensures found.Some? ==> found.value in old(Items()) && found.value.key == k
      ensures Items() == if found.Some? then old(Items()) - {found.value} else old(Items())
      ensures removed == if found.Some? then old(removed) + multiset{found.value} else old(removed)
      ensures size == old(size) - (if found.Some? then 1 else 0)
    {
      var c := values.Length;
      if c == 0 {
        return None;
      }
      var kHash := Hash(code, k);
      ghost var start := Index(kHash, c);
      var i := Index(kHash, c);
      found := None;
      for j := 0 to reprobes
        invariant i == Probe(start, j, c)
        invariant forall m: nat :: m < j ==> !HasKey(values[..][Probe(start, m, c)], k)
      {
        if kHash == hashes[i] && values[i].Some? && values[i].value.key == k {
          ClearKeeps(values[..], hashes[..], code, reprobes, i);
          found := values[i];
          assert HasKey(values[..][i], k);
          values[i], hashes[i] := None, 0;
          assert values[..] == old(values[..])[i := None];
          assert hashes[..] == old(hashes[..])[i := 0];
          break;
        }
        assert !HasKey(values[i], k);
        i := if i + 1 == c then 0 else i + 1;
      }
      if found.None? {
        WindowDecides(values[..], hashes[..], code, reprobes, k);
      }
      var _ := Commit(None, found);
    }

    /**
     * `clear`: everything held is reported and gone.  A non-empty bag gets a table of
     * `reprobes` cells, so the allocation then exceeds the capacity exactly when the capacity
     * is below `reprobes`.
     */
    method Clear()
      requires Ok() && size == |Items()|
      modifies this, values, hashes
      ensures Ok() && Items() == {} && size == 0 && min == max == 0.0 && capacity == old(capacity) && pri == old(pri)
      ensures removed == old(removed) + multiset(old(Items()))
      ensures old(Items()) != {} ==> (Space() > capacity <==> capacity < reprobes)
      ensures old(Items()) == {} ==> Space() == old(Space())
      ensures (values == old(values) && hashes == old(hashes)) || (fresh(values) && fresh(hashes))
    {
      if size != 0 {
        var prev, prevHashes := values, hashes;
        values, hashes := new Option<Item>[reprobes](_ => None), new int[reprobes](_ => 0);
        BlankTable(values[..], hashes[..], code, reprobes);
        Empty(prev, prevHashes);
      }
      size, min, max := 0, 0.0, 0.0;
    }

    /** Takes every item out of a table that is no longer in use, and reports it. */
    method Empty(prev: array<Option<Item>>, prevHashes: array<int>)
      requires TableOk(prev[..], prevHashes[..], code, reprobes)
      modifies this`removed, prev, prevHashes
      ensures removed == old(removed) + multiset(Held(old(prev[..])))
    {
      ghost var cells, marks := prev[..], prevHashes[..];
      HeldToAll(cells);
      for i := 0 to prev.Length
        invariant forall k :: i <= k < prev.Length ==> prev[k] == cells[k]
        invariant removed == old(removed) + multiset(HeldTo(cells, i))
      {
        var x := prev[i];
        prev[i] := None;
        if x.Some? {
          KeyIsNew(cells, marks, code, reprobes, i);
          ReportOne(old(removed), HeldTo(cells, i), x.value);
          prevHashes[i] := 0;
          OnRemove(x.value);
        }
      }
    }

    /** The allocation a new capacity calls for: no more than the items or one window need. */
    function Target(count: int, newCapacity: nat): (t: nat)
      ensures t <= newCapacity
      ensures t < newCapacity ==> t >= reprobes && t >= count && (t == reprobes || t == count)
    {
      var s := if reprobes >= count then reprobes else count;
      if s < newCapacity then s else newCapacity
    }

    /** Whether the table should grow, or has to shrink. */
    predicate Retargets(oldCapacity: nat, count: int, space: nat, newCapacity: nat) {
      || (oldCapacity < Target(count, newCapacity) && (reprobes >= oldCapacity || count >= oldCapacity))
      || Target(count, newCapacity) < space
    }

    /**
     * Changing the capacity.  Whatever it was before, the allocation afterwards is within the
     * new capacity, the counter is exact, and every live item is held or was reported.
     */
    method SetCapacity(newCapacity: nat) returns (ghost gone: set<Item>)
      requires Ok() && size == |Items()|
      modifies this, values, hashes
      ensures Ok() && capacity == newCapacity && pri == old(pri)
      ensures Space() <= capacity && size == |Items()|
      ensures var (before, t) := (old(capacity), Target(old(size), newCapacity));
              if (before < t && (reprobes >= before || old(size) >= before)) || t < old(Space()) then Space() >= t
              else values == old(values) && hashes == old(hashes) && values[..] == old(values[..]) && gone == {}
      ensures removed == old(removed) + multiset(gone)
      ensures Accounts(old(Items()), Items(), gone, pri.Keys)
      ensures |old(Items()) * pri.Keys| <= reprobes && |old(Items()) * pri.Keys| <= newCapacity ==>
                gone == {} && old(Items()) * pri.Keys <= Items()
      ensures (values == old(values) && hashes == old(hashes)) || (fresh(values) && fresh(hashes))
    {
      Subset(Items() * pri.Keys, Items());
      var oldCapacity := capacity;
      capacity := newCapacity;
      gone := {};
      if Retargets(oldCapacity, size, values.Length, newCapacity) {
        gone := Resize(Target(size, newCapacity));
      }
    }
  }

  lemma UniqueKey(cells: Cells, hashes: seq<int>, code: Key -> int, n: nat, i: nat, x: Item)
    requires TableOk(cells, hashes, code, n) && i < |cells| && HasKey(cells[i], x.key)
    ensures HoldsKey(cells, x.key)
    ensures cells[i].value in Held(cells)
    ensures x in Held(cells) ==> cells[i].value == x
  {
    if x in Held(cells) {
      var j :| 0 <= j < |cells| && cells[j] == Some(x);
      SameCell(cells, hashes, code, n, i, j);
    }
  }

  lemma NotHeld(cells: Cells, x: Item)
    requires !HoldsKey(cells, x.key)
    ensures x !in Held(cells)
  {
  }
}
