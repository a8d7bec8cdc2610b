/**
 * The cells of a hijack bag (docs/java/HijackBag.java): probe windows, which cell a put
 * chooses, and the accounting of items that leave.
 */
module HijackTable {
  import opened BagItems
  import opened Options

  type Cells = seq<Option<Item>>

  /** Priorities of live items; an item that is absent has been deleted. */
  type Priorities = map<Item, real>

  // ---- Hashing and probing -----------------------------------------------------------

  /** The key's own hash code; zero, which marks an empty cell, gives way to one. */
  function Hash(code: Key -> int, k: Key): (h: int)
    ensures h != 0 && (code(k) != 0 ==> h == code(k)) && (code(k) == 0 ==> h == 1)
  {
    if code(k) == 0 then 1 else code(k)
  }

  /** Java's remainder: its sign follows the dividend. */
  function JavaRem(h: int, cap: nat): int
    requires cap > 0
  {
    if h >= 0 then h % cap else -((-h) % cap)
  }

  /** The home cell: the remainder, moved up by one period when it is negative. */
  function Index(h: int, cap: nat): (i: int)
    requires cap > 0
    ensures 0 <= i < cap
  {
    var r := JavaRem(h, cap);
    if r < 0 then r + cap else r
  }

  /** For every 32-bit hash, negative ones included, the home cell is the mathematical residue. */
  lemma IndexIsResidue(h: int, cap: nat)
    requires cap > 0
    ensures Index(h, cap) == h % cap
  {
    if h < 0 {
      var q, r := (-h) / cap, (-h) % cap;
      if r == 0 {
        assert h == (-q) * cap;
        ResidueUnique(h, -q, 0, cap);
      } else {
        assert h == (-q - 1) * cap + (cap - r);
        ResidueUnique(h, -q - 1, cap - r, cap);
      }
    }
  }

  /** So the window of a key begins at the residue of its hash code. */
  lemma HomeIsResidue(code: Key -> int, k: Key, cap: nat)
    requires cap > 0
    ensures Index(Hash(code, k), cap) == if code(k) == 0 then 1 % cap else code(k) % cap
  {
    IndexIsResidue(Hash(code, k), cap);
  }

  lemma ResidueUnique(h: int, k: int, i: int, cap: nat)
    requires 0 <= i < cap && h == k * cap + i
    ensures h % cap == i
  {
    var q := h / cap;
    assert h == q * cap + h % cap;
    assert (q - k) * cap == q * cap - k * cap;
    NonZeroMultiple(q - k, cap);
  }

  lemma NonZeroMultiple(d: int, cap: int)
    requires cap >= 0
    ensures d >= 1 ==> d * cap >= cap
    ensures d <= -1 ==> d * cap <= -cap
  {
  }

  /** The cell `j` steps after `start`, wrapping at the end. */
  function Probe(start: nat, j: nat, c: nat): (i: nat)
    requires start < c
    ensures i < c
  {
    if j == 0 then start else Next(Probe(start, j - 1, c), c)
  }

  function Next(i: nat, c: nat): (n: nat)
    requires i < c
    ensures n < c
  {
    if i + 1 == c then 0 else i + 1
  }

  ghost predicate InWindow(i: nat, start: nat, n: nat, c: nat)
    requires start < c
  {
    exists j: nat :: j < n && Probe(start, j, c) == i
  }

  // ---- The invariant of a table --------------------------------------------------------

  predicate HasKey(cell: Option<Item>, k: Key) {
    cell.Some? && cell.value.key == k
  }

  /** Every occupied cell lies within reach of its key's home, hash cells agree, keys are unique. */
  ghost predicate TableOk(cells: Cells, hashes: seq<int>, code: Key -> int, n: nat) {
    && |cells| == |hashes|
    && (forall i :: 0 <= i < |cells| && cells[i].Some? ==>
          && hashes[i] == Hash(code, cells[i].value.key)
          && InWindow(i, Index(hashes[i], |cells|), n, |cells|))
    && (forall i :: 0 <= i < |cells| && cells[i].None? ==> hashes[i] == 0)
    && (forall i, j :: 0 <= i < |cells| && 0 <= j < |cells| && i != j ==> Apart(cells, i, j))
  }

  predicate Apart(cells: Cells, i: nat, j: nat)
    requires i < |cells| && j < |cells|
  {
    cells[i].Some? && cells[j].Some? ==> cells[i].value.key != cells[j].value.key
  }

  /** A key is in one cell only. */
  lemma SameCell(cells: Cells, hashes: seq<int>, code: Key -> int, n: nat, i: nat, j: nat)
    requires TableOk(cells, hashes, code, n) && i < |cells| && j < |cells|
    requires cells[i].Some? && cells[j].Some? && cells[i].value.key == cells[j].value.key
    ensures i == j
  {
    var apart := Apart(cells, i, j);
  }

  ghost function Held(cells: Cells): set<Item> {
    set i | 0 <= i < |cells| && cells[i].Some? :: cells[i].value
  }

  lemma BlankTable(cells: Cells, hashes: seq<int>, code: Key -> int, n: nat)
    requires |cells| == |hashes| && forall i :: 0 <= i < |cells| ==> cells[i].None? && hashes[i] == 0
    ensures TableOk(cells, hashes, code, n) && Held(cells) == {}
  {
  }

  ghost predicate HoldsKey(cells: Cells, k: Key) {
    exists i :: 0 <= i < |cells| && HasKey(cells[i], k)
  }

  /** The key is found somewhere in its probe window. */
  ghost predicate WindowHolds(cells: Cells, code: Key -> int, n: nat, k: Key)
    requires |cells| > 0
  {
    exists j: nat :: j < n && HasKey(cells[Probe(Index(Hash(code, k), |cells|), j, |cells|)], k)
  }

  /** A key is in the table exactly when it is in its probe window. */
  lemma WindowDecides(cells: Cells, hashes: seq<int>, code: Key -> int, n: nat, k: Key)
    requires TableOk(cells, hashes, code, n) && |cells| > 0
    ensures HoldsKey(cells, k) <==> WindowHolds(cells, code, n, k)
  {
    var start := Index(Hash(code, k), |cells|);
    assert forall i :: 0 <= i < |cells| && cells[i].Some? && hashes[i] == Hash(code, k) ==>
             InWindow(i, start, n, |cells|);
  }

  // ---- Choosing a cell -----------------------------------------------------------------

  /** What a scan of the window finds for a key. */
  datatype Slot = Match(i: nat) | Vacant(i: nat) | Weakest(i: nat)

  function PriElseZero(pri: Priorities, x: Item): real {
    if x in pri then pri[x] else 0.0
  }

  /**
   * The cell a put must choose: the one holding the key; else the first empty one; else the
   * first of the weakest, where deleted items count as priority zero.
   */
  ghost predicate Chooses(cells: Cells, pri: Priorities, k: Key, start: nat, n: nat, slot: Slot)
    requires start < |cells|
  {
    var c := |cells|;
    match slot
    case Match(i) => InWindow(i, start, n, c) && i < c && HasKey(cells[i], k)
    case Vacant(i) =>
      && i < c && (forall j: nat :: j < n ==> !HasKey(cells[Probe(start, j, c)], k))
      && exists f: nat :: f < n && FirstVacant(cells, start, f) && Probe(start, f, c) == i
    case Weakest(i) =>
      && i < c && (forall j: nat :: j < n ==> !HasKey(cells[Probe(start, j, c)], k) && cells[Probe(start, j, c)].Some?)
      && exists f: nat :: f < n && FirstWeakest(cells, pri, start, f, n) && Probe(start, f, c) == i
  }

  ghost predicate FirstVacant(cells: Cells, start: nat, f: nat)
    requires start < |cells|
  {
    && cells[Probe(start, f, |cells|)].None?
    && forall j: nat :: j < f ==> cells[Probe(start, j, |cells|)].Some?
  }

  function PriAt(cells: Cells, pri: Priorities, start: nat, j: nat): real
    requires start < |cells|
  {
    var cell := cells[Probe(start, j, |cells|)];
    if cell.Some? then PriElseZero(pri, cell.value) else 0.0
  }

  ghost predicate FirstWeakest(cells: Cells, pri: Priorities, start: nat, f: nat, n: nat)
    requires start < |cells|
  {
    && (forall j: nat :: j < n ==> PriAt(cells, pri, start, f) <= PriAt(cells, pri, start, j))
    && forall j: nat :: j < f ==> PriAt(cells, pri, start, f) < PriAt(cells, pri, start, j)
  }

  /** A scan after `j` cells without the key: its choice so far, and the priority to beat. */
  ghost predicate Scanned(v: Cells, pri: Priorities, k: Key, start: nat, j: nat, victim: Option<Slot>, low: real)
    requires start < |v|
  {
    match victim
    case None => j == 0
    case Some(Match(_)) => false
    case Some(Vacant(_)) => Chooses(v, pri, k, start, j, victim.value)
    case Some(Weakest(i)) =>
      && Chooses(v, pri, k, start, j, victim.value)
      && v[i].Some? && low == PriElseZero(pri, v[i].value)
  }

  /** An empty cell is chosen over every weakest one. */
  lemma ScanVacant(v: Cells, pri: Priorities, k: Key, start: nat, j: nat, victim: Option<Slot>, low: real)
    requires start < |v| && Scanned(v, pri, k, start, j, victim, low) && (victim.Some? ==> victim.value.Weakest?)
    requires v[Probe(start, j, |v|)].None?
    ensures Scanned(v, pri, k, start, j + 1, Some(Vacant(Probe(start, j, |v|))), low)
  {
    assert FirstVacant(v, start, j);
  }

  lemma LowestSoFar(v: Cells, pri: Priorities, k: Key, start: nat, j: nat, victim: Option<Slot>, low: real)
    requires start < |v| && Scanned(v, pri, k, start, j, victim, low) && victim.Some? && victim.value.Weakest?
    ensures forall m: nat :: m < j ==> low <= PriAt(v, pri, start, m)
  {
    var f: nat :| f < j && FirstWeakest(v, pri, start, f, j) && Probe(start, f, |v|) == victim.value.i;
    assert low == PriAt(v, pri, start, f);
  }

  /** A strictly weaker item replaces the choice. */
  lemma ScanWeaker(v: Cells, pri: Priorities, k: Key, start: nat, j: nat, victim: Option<Slot>, low: real)
    requires start < |v| && Scanned(v, pri, k, start, j, victim, low) && (victim.Some? ==> victim.value.Weakest?)
    requires var y := v[Probe(start, j, |v|)];
             y.Some? && y.value.key != k && (victim.Some? ==> low > PriElseZero(pri, y.value))
    ensures Scanned(v, pri, k, start, j + 1, Some(Weakest(Probe(start, j, |v|))),
                    PriElseZero(pri, v[Probe(start, j, |v|)].value))
  {
    if victim.Some? {
      LowestSoFar(v, pri, k, start, j, victim, low);
    }
    assert FirstWeakest(v, pri, start, j, j + 1);
  }

  /** Any other cell without the key leaves the choice as it is. */
  lemma ScanOn(v: Cells, pri: Priorities, k: Key, start: nat, j: nat, victim: Option<Slot>, low: real)
    requires start < |v| && Scanned(v, pri, k, start, j, victim, low) && victim.Some?
    requires var y := v[Probe(start, j, |v|)];
             if y.None? then victim.value.Vacant?
             else y.value.key != k && (victim.value.Weakest? ==> low <= PriElseZero(pri, y.value))
    ensures Scanned(v, pri, k, start, j + 1, victim, low)
  {
    if victim.value.Weakest? {
      var f: nat :| f < j && FirstWeakest(v, pri, start, f, j) && Probe(start, f, |v|) == victim.value.i;
      assert low == PriAt(v, pri, start, f);
      assert FirstWeakest(v, pri, start, f, j + 1);
    }
  }

  /**
   * One attempt to file `x`: identity and equal keys keep the held item and the table;
   * otherwise the chosen cell is filled, or fought for and perhaps won.
   */
  ghost predicate Attempt(code: Key -> int, n: nat, v: Cells, p: Priorities, w: Cells, q: Priorities, x: Item,
                          returning: Option<Item>, adding: bool, removing: Option<Item>)
  {
    if |v| == 0 || x !in p then
      w == v && q == p && returning.None? && !adding && removing.None?
    else if HoldsKey(v, x.key) then
      w == v && !adding && removing.None? && Merged(v, p, q, x, returning)
    else
      && q == p && x !in Held(v)
      && returning == (if adding then Some(x) else None)
      && exists slot: Slot ::
           && Chooses(v, p, x.key, Index(Hash(code, x.key), |v|), n, slot) && slot.i < |v|
           && (slot.Vacant? ==> adding)
           && (if adding then w == v[slot.i := Some(x)] && removing == v[slot.i] else w == v && removing.None?)
  }

  /** The held item with `x`'s key comes back, and only its priority can have changed. */
  ghost predicate Merged(v: Cells, p: Priorities, q: Priorities, x: Item, returning: Option<Item>) {
    && returning.Some? && returning.value in Held(v) && returning.value.key == x.key
    && q - {returning.value} == p - {returning.value}
    && (x in Held(v) ==> q == p)
  }

  /**
   * A whole put, with `gone` reported.  With the key already held, or `x` deleted, or no table,
   * the table stays as it is.  Otherwise every live item held before, and `x` if it was taken,
   * ends up either held or reported; and while the table keeps its length, the change is exactly
   * one attempt: nothing, or `x` in the chosen cell with that cell's item reported.
   */
  ghost predicate PutOutcome(code: Key -> int, n: nat, v: Cells, p: Priorities, w: Cells, q: Priorities, x: Item,
                             returning: Option<Item>, gone: set<Item>)
  {
    if |v| == 0 || x !in p then
      w == v && q == p && returning.None? && gone == {}
    else if HoldsKey(v, x.key) then
      w == v && gone == {} && Merged(v, p, q, x, returning)
    else
      && q == p && x !in Held(v) && returning in {None, Some(x)}
      && Accounts(Held(v) + (if returning.Some? then {x} else {}), Held(w), gone, p.Keys)
      && (returning.None? ==> w == v && gone == {})
      && (|w| == |v| ==>
            exists removing: Option<Item> ::
              && Attempt(code, n, v, p, w, q, x, returning, returning.Some?, removing)
              && gone == (if removing.Some? then {removing.value} else {}))
  }

  lemma AttemptKeeps(code: Key -> int, n: nat, v: Cells, h: seq<int>, p: Priorities, w: Cells, q: Priorities, x: Item,
                     returning: Option<Item>, adding: bool, removing: Option<Item>)
    requires TableOk(v, h, code, n) && Attempt(code, n, v, p, w, q, x, returning, adding, removing)
    ensures adding ==> !HoldsKey(v, x.key) && x in p && q == p && x !in Held(v) && returning == Some(x) && |v| > 0
    ensures adding ==> Held(w) == Held(v) - (if removing.Some? then {removing.value} else {}) + {x}
    ensures adding && removing.None? ==> Held(w) == Held(v) + {x}
    ensures removing.Some? ==> adding && removing.value in Held(v) && removing.value !in Held(w)
    ensures !adding ==> w == v && removing.None?
    ensures |w| == |v|
  {
    if adding {
      var slot: Slot :|
        && Chooses(v, p, x.key, Index(Hash(code, x.key), |v|), n, slot) && slot.i < |v|
        && w == v[slot.i := Some(x)] && removing == v[slot.i];
      assert !slot.Match?;
      assert InWindow(slot.i, Index(Hash(code, x.key), |v|), n, |v|);
      StoreKeeps(v, h, code, n, slot.i, x);
    }
  }

  /** An attempt followed by reporting its victim is a put. */
  lemma AttemptIsPut(code: Key -> int, n: nat, v: Cells, h: seq<int>, p: Priorities, w: Cells, q: Priorities, x: Item,
                     returning: Option<Item>, adding: bool, removing: Option<Item>)
    requires TableOk(v, h, code, n) && Attempt(code, n, v, p, w, q, x, returning, adding, removing)
    ensures PutOutcome(code, n, v, p, w, q, x, returning, if removing.Some? then {removing.value} else {})
  {
    AttemptKeeps(code, n, v, h, p, w, q, x, returning, adding, removing);
  }

  /** An attempt that filled an empty cell, followed by a regrowth, is a put. */
  lemma AttemptAndGrowthIsPut(code: Key -> int, n: nat, v: Cells, h: seq<int>, p: Priorities, u: Cells, w: Cells,
                              x: Item, returning: Option<Item>, gone: set<Item>)
    requires TableOk(v, h, code, n) && Attempt(code, n, v, p, u, p, x, returning, true, None)
    requires |w| > |v| && Accounts(Held(u), Held(w), gone, p.Keys)
    ensures PutOutcome(code, n, v, p, w, p, x, returning, gone)
  {
    AttemptKeeps(code, n, v, h, p, u, p, x, returning, true, None);
    assert Held(u) == Held(v) + {x};
  }

  /** `m` is the plain map that the table stands for. */
  ghost predicate StandsFor(m: map<Key, Item>, cells: Cells) {
    && (forall k :: k in m <==> HoldsKey(cells, k))
    && forall k :: k in m ==> m[k] in Held(cells) && m[k].key == k
  }

  /** No cell of the window is empty, and none of its items is below `y`; a deleted item counts as zero. */
  ghost predicate WeakestOf(v: Cells, p: Priorities, start: nat, n: nat, y: Item)
    requires start < |v|
  {
    forall j: nat :: j < n ==> v[Probe(start, j, |v|)].Some? && NotBelow(p, v[Probe(start, j, |v|)].value, y)
  }

  predicate NotBelow(p: Priorities, z: Item, y: Item) {
    && (y in p && z in p ==> p[y] <= p[z])
    && (y in p && z !in p ==> p[y] <= 0.0)
    && (y !in p && z in p ==> 0.0 <= p[z])
  }

  /** `w` stands for `m` with `x` in the place of `victim`, which was the weakest of a full window. */
  ghost predicate Displaces(m: map<Key, Item>, v: Cells, p: Priorities, w: Cells, start: nat, n: nat, x: Item,
                            victim: Item)
    requires start < |v|
  {
    && victim.key in m && m[victim.key] == victim
    && StandsFor((m - {victim.key})[x.key := x], w) && WeakestOf(v, p, start, n, victim)
  }

  /**
   * A put is a map update with at most one eviction.  Of a new live key into a table that keeps
   * its length: the plain map plus that key, minus the victim's key if there is one; and there
   * is a victim only when no cell of the window is empty, no item of the window being weaker.
   */
  lemma PutRefinesMap(m: map<Key, Item>, code: Key -> int, n: nat, v: Cells, h: seq<int>, p: Priorities, w: Cells,
                      q: Priorities, x: Item, returning: Option<Item>, gone: set<Item>)
    requires TableOk(v, h, code, n) && StandsFor(m, v) && |w| == |v|
    requires PutOutcome(code, n, v, p, w, q, x, returning, gone)
    ensures x.key in m || x !in p || returning.None? ==> StandsFor(m, w)
    ensures x.key !in m && x in p && returning.Some? && gone == {} ==> StandsFor(m[x.key := x], w)
    ensures x.key !in m && x in p && returning.Some? && gone != {} ==>
              exists victim: Item ::
                gone == {victim} && Displaces(m, v, p, w, Index(Hash(code, x.key), |v|), n, x, victim)
    ensures x.key !in m ==>
              forall y, j: nat :: y in gone && j < n ==>
                var cell := v[Probe(Index(Hash(code, x.key), |v|), j, |v|)];
                && cell.Some?
                && (y in p && cell.value in p ==> p[y] <= p[cell.value])
                && (y in p && cell.value !in p ==> p[y] <= 0.0)
                && (y !in p && cell.value in p ==> 0.0 <= p[cell.value])
  {
    if |v| > 0 && x in p && !HoldsKey(v, x.key) && returning.Some? {
      var removing: Option<Item> :|
        && Attempt(code, n, v, p, w, q, x, returning, true, removing)
        && gone == (if removing.Some? then {removing.value} else {});
      AttemptKeeps(code, n, v, h, p, w, q, x, returning, true, removing);
      var start := Index(Hash(code, x.key), |v|);
      var slot: Slot :|
        && Chooses(v, p, x.key, start, n, slot) && slot.i < |v|
        && w == v[slot.i := Some(x)] && removing == v[slot.i];
      StoreRefinesMap(m, code, n, v, h, p, w, x, start, slot);
    }
  }

  lemma StoreRefinesMap(m: map<Key, Item>, code: Key -> int, n: nat, v: Cells, h: seq<int>, p: Priorities, w: Cells,
                        x: Item, start: nat, slot: Slot)
    requires TableOk(v, h, code, n) && StandsFor(m, v) && !HoldsKey(v, x.key)
    requires start < |v| && Chooses(v, p, x.key, start, n, slot) && slot.i < |v| && w == v[slot.i := Some(x)]
    ensures v[slot.i].None? ==> StandsFor(m[x.key := x], w)
    ensures v[slot.i].Some? ==> Displaces(m, v, p, w, start, n, x, v[slot.i].value)
  {
    forall k ensures HoldsKey(w, k) <==> k == x.key || (HoldsKey(v, k) && !HasKey(v[slot.i], k)) {
      NewKeys(v, h, code, n, slot.i, x, k);
    }
    if v[slot.i].Some? {
      var victim := v[slot.i].value;
      HeldKeyIs(m, v, h, code, n, victim);
      VictimIsWeakest(v, p, x.key, start, n, slot);
      ReplacedStandsFor(m, v, h, code, n, slot.i, x, victim, w);
    } else {
      AddedStandsFor(m, v, slot.i, x, w);
    }
  }

  lemma AddedStandsFor(m: map<Key, Item>, v: Cells, i: nat, x: Item, w: Cells)
    requires StandsFor(m, v) && i < |v| && v[i].None? && w == v[i := Some(x)]
    requires forall k :: HoldsKey(w, k) <==> k == x.key || HoldsKey(v, k)
    ensures StandsFor(m[x.key := x], w)
  {
    assert w[i] == Some(x);
    forall k | k in m ensures m[k] in Held(w) {
      var j :| 0 <= j < |v| && v[j] == Some(m[k]);
      assert w[j] == v[j];
    }
  }

  /** The entries of a map whose items are in a set. */
  function Restricted(m: map<Key, Item>, s: set<Item>): map<Key, Item> {
    map k | k in m && m[k] in s :: m[k]
  }

  /**
   * A put that makes the table grow is a map update too, minus the items that found no place in
   * the longer table; each of them was reported or had been deleted by its owner.
   */
  lemma GrowingPutRefinesMap(m: map<Key, Item>, code: Key -> int, n: nat, v: Cells, h: seq<int>, p: Priorities,
                             w: Cells, g: seq<int>, q: Priorities, x: Item, returning: Option<Item>, gone: set<Item>)
    requires TableOk(v, h, code, n) && StandsFor(m, v) && TableOk(w, g, code, n) && |w| != |v|
    requires PutOutcome(code, n, v, p, w, q, x, returning, gone)
    ensures x.key !in m && x in p && returning == Some(x) && StandsFor(Restricted(m[x.key := x], Held(w)), w)
    ensures forall y :: (y in Held(v) || y == x) && y !in Held(w) ==> y in gone || y !in p
  {
    assert returning == Some(x) && Held(w) <= Held(v) + {x};
    GrownStandsFor(m, code, n, v, h, w, x);
    forall y | (y in Held(v) || y == x) && y in p ensures y in Held(w) || y in gone {
      assert y in (Held(v) + {x}) * p.Keys;
    }
  }

  lemma GrownStandsFor(m: map<Key, Item>, code: Key -> int, n: nat, v: Cells, h: seq<int>, w: Cells, x: Item)
    requires TableOk(v, h, code, n) && StandsFor(m, v) && x.key !in m && Held(w) <= Held(v) + {x}
    ensures StandsFor(Restricted(m[x.key := x], Held(w)), w)
  {
    var u := m[x.key := x];
    forall k ensures HoldsKey(w, k) <==> k in u && u[k] in Held(w) {
      if k in u && u[k] in Held(w) {
        HeldHasKey(w, u[k]);
      }
      if HoldsKey(w, k) {
        var i :| 0 <= i < |w| && HasKey(w[i], k);
        var y := w[i].value;
        assert y in Held(w);
        if y != x {
          HeldHasKey(v, y);
          HeldKeyIs(m, v, h, code, n, y);
        }
      }
    }
  }

  lemma HeldHasKey(cells: Cells, y: Item)
    requires y in Held(cells)
    ensures HoldsKey(cells, y.key)
  {
    var i :| 0 <= i < |cells| && cells[i] == Some(y);
    assert HasKey(cells[i], y.key);
  }

  lemma ReplacedStandsFor(m: map<Key, Item>, v: Cells, h: seq<int>, code: Key -> int, n: nat, i: nat, x: Item,
                          victim: Item, w: Cells)
    requires TableOk(v, h, code, n) && StandsFor(m, v) && i < |v| && v[i] == Some(victim) && w == v[i := Some(x)]
    requires forall k :: HoldsKey(w, k) <==> k == x.key || (HoldsKey(v, k) && k != victim.key)
    ensures StandsFor((m - {victim.key})[x.key := x], w)
  {
    var q := (m - {victim.key})[x.key := x];
    assert w[i] == Some(x);
    forall k | k in q && k != x.key ensures q[k] in Held(w) {
      assert m[k] in Held(v);
      var j :| 0 <= j < |v| && v[j] == Some(m[k]);
      assert w[j] == v[j];
    }
  }

  lemma VictimIsWeakest(v: Cells, p: Priorities, k: Key, start: nat, n: nat, slot: Slot)
    requires start < |v| && Chooses(v, p, k, start, n, slot) && slot.i < |v| && v[slot.i].Some? && !HoldsKey(v, k)
    ensures WeakestOf(v, p, start, n, v[slot.i].value)
  {
    assert slot.Weakest?;
    var f: nat :| f < n && FirstWeakest(v, p, start, f, n) && Probe(start, f, |v|) == slot.i;
    forall j: nat | j < n
      ensures v[Probe(start, j, |v|)].Some? && NotBelow(p, v[Probe(start, j, |v|)].value, v[slot.i].value)
    {
      assert PriAt(v, p, start, f) <= PriAt(v, p, start, j);
    }
  }

  /** The first empty cell of a window takes the newcomer. */
  ghost predicate FillsFirst(v: Cells, start: nat, n: nat, x: Item, w: Cells, f: nat)
    requires start < |v|
  {
    && f < n && w == v[Probe(start, f, |v|) := Some(x)] && v[Probe(start, f, |v|)].None?
    && forall j: nat :: j < f ==> v[Probe(start, j, |v|)].Some?
  }

  /** The newcomer takes the cell of `y` in a full window, in which none is below `y`, and those before it are above. */
  ghost predicate TakesFirstLowest(v: Cells, p: Priorities, start: nat, n: nat, x: Item, y: Item, w: Cells, f: nat)
    requires start < |v|
  {
    && f < n && w == v[Probe(start, f, |v|) := Some(x)] && v[Probe(start, f, |v|)] == Some(y)
    && WeakestOf(v, p, start, n, y)
    && forall j: nat :: j < f ==> v[Probe(start, j, |v|)].Some? && !NotBelow(p, y, v[Probe(start, j, |v|)].value)
  }

  /**
   * Where a new item goes while the table keeps its length, if it is taken: into the first empty cell of its
   * window, or else over the first of the lowest items there, which is reported.
   */
  lemma PutPlaces(code: Key -> int, n: nat, v: Cells, h: seq<int>, p: Priorities, w: Cells, q: Priorities, x: Item,
                  returning: Option<Item>, gone: set<Item>)
    requires TableOk(v, h, code, n) && PutOutcome(code, n, v, p, w, q, x, returning, gone)
    requires |w| == |v| > 0 && x in p && !HoldsKey(v, x.key) && returning.Some?
    ensures var start := Index(Hash(code, x.key), |v|);
            if gone == {} then exists f: nat :: FillsFirst(v, start, n, x, w, f)
            else exists y: Item, f: nat :: gone == {y} && TakesFirstLowest(v, p, start, n, x, y, w, f)
  {
    var removing: Option<Item> :|
      && Attempt(code, n, v, p, w, q, x, returning, true, removing)
      && gone == (if removing.Some? then {removing.value} else {});
    var start := Index(Hash(code, x.key), |v|);
    var slot: Slot :|
      && Chooses(v, p, x.key, start, n, slot) && slot.i < |v|
      && w == v[slot.i := Some(x)] && removing == v[slot.i];
    if slot.Vacant? {
      var f: nat :| f < n && FirstVacant(v, start, f) && Probe(start, f, |v|) == slot.i;
      assert FillsFirst(v, start, n, x, w, f);
    } else {
      VictimIsWeakest(v, p, x.key, start, n, slot);
      var f: nat :| f < n && FirstWeakest(v, p, start, f, n) && Probe(start, f, |v|) == slot.i;
      forall j: nat | j < f
        ensures v[Probe(start, j, |v|)].Some? && !NotBelow(p, removing.value, v[Probe(start, j, |v|)].value)
      {
        assert PriAt(v, p, start, f) < PriAt(v, p, start, j);
      }
      assert TakesFirstLowest(v, p, start, n, x, removing.value, w, f);
    }
  }

  lemma NewKeys(v: Cells, h: seq<int>, code: Key -> int, n: nat, i: nat, x: Item, k: Key)
    requires TableOk(v, h, code, n) && i < |v|
    ensures HoldsKey(v[i := Some(x)], k) <==> k == x.key || (HoldsKey(v, k) && !HasKey(v[i], k))
  {
    var w := v[i := Some(x)];
    assert HasKey(w[i], x.key);
    if HoldsKey(v, k) && !HasKey(v[i], k) {
      var j :| 0 <= j < |v| && HasKey(v[j], k);
      assert HasKey(w[j], k);
    }
    if HoldsKey(w, k) && k != x.key {
      var j :| 0 <= j < |w| && HasKey(w[j], k);
      assert HasKey(v[j], k);
      if HasKey(v[i], k) {
        SameCell(v, h, code, n, i, j);
      }
    }
  }

  lemma HeldKeyIs(m: map<Key, Item>, v: Cells, h: seq<int>, code: Key -> int, n: nat, y: Item)
    requires TableOk(v, h, code, n) && StandsFor(m, v) && y in Held(v)
    ensures y.key in m && m[y.key] == y
  {
    var i :| 0 <= i < |v| && v[i] == Some(y);
    assert HasKey(v[i], y.key);
    var j :| 0 <= j < |v| && v[j] == Some(m[y.key]);
    SameCell(v, h, code, n, i, j);
  }

  // ---- Writing one cell ------------------------------------------------------------------

  /** Filing a new key in a cell of its window keeps the table and swaps at most that cell's item. */
  lemma StoreKeeps(cells: Cells, hashes: seq<int>, code: Key -> int, n: nat, i: nat, x: Item)
    requires TableOk(cells, hashes, code, n) && i < |cells|
    requires InWindow(i, Index(Hash(code, x.key), |cells|), n, |cells|) && !HoldsKey(cells, x.key)
    ensures TableOk(cells[i := Some(x)], hashes[i := Hash(code, x.key)], code, n)
    ensures x !in Held(cells)
    ensures Held(cells[i := Some(x)])
         == Held(cells) - (if cells[i].Some? then {cells[i].value} else {}) + {x}
  {
    var v, h := cells[i := Some(x)], hashes[i := Hash(code, x.key)];
    forall k | 0 <= k < |v| && v[k].Some?
      ensures h[k] == Hash(code, v[k].value.key) && InWindow(k, Index(h[k], |v|), n, |v|)
    {
      if k != i { assert InWindow(k, Index(hashes[k], |cells|), n, |cells|); }
    }
    forall a, b | 0 <= a < |v| && 0 <= b < |v| && a != b ensures Apart(v, a, b) {
      assert Apart(cells, a, b);
      if a == i { assert !HasKey(cells[b], x.key); }
      if b == i { assert !HasKey(cells[a], x.key); }
    }
    assert forall y :: y in Held(v) ==> y == x || y in Held(cells);
    assert v[i].value == x;
    forall y | y in Held(cells) && (cells[i].None? || y != cells[i].value) ensures y in Held(v) {
      var k :| 0 <= k < |cells| && cells[k] == Some(y);
      assert v[k] == Some(y);
    }
    if cells[i].Some? {
      forall k | 0 <= k < |v| && v[k].Some? ensures v[k].value != cells[i].value {
        if k != i {
          assert Apart(cells, i, k);
        }
      }
    }
  }

  /** Emptying a cell keeps the table and removes exactly its item. */
  lemma ClearKeeps(cells: Cells, hashes: seq<int>, code: Key -> int, n: nat, i: nat)
    requires TableOk(cells, hashes, code, n) && i < |cells| && cells[i].Some?
    ensures TableOk(cells[i := None], hashes[i := 0], code, n)
    ensures cells[i].value in Held(cells) && Held(cells[i := None]) == Held(cells) - {cells[i].value}
  {
    var v := cells[i := None];
    forall a, b | 0 <= a < |v| && 0 <= b < |v| && a != b ensures Apart(v, a, b) {
      assert Apart(cells, a, b);
    }
    forall k | 0 <= k < |v| && v[k].Some? ensures InWindow(k, Index(hashes[i := 0][k], |v|), n, |v|) {
      assert InWindow(k, Index(hashes[k], |cells|), n, |cells|);
    }
    forall y | y in Held(cells) && y != cells[i].value ensures y in Held(v) {
      var k :| 0 <= k < |cells| && cells[k] == Some(y);
      assert v[k] == Some(y);
    }
    forall k | 0 <= k < |v| && v[k].Some? ensures v[k].value != cells[i].value {
      assert k != i && Apart(cells, i, k);
    }
  }

  // ---- Priorities ------------------------------------------------------------------------

  /**
   * The priorities once `update`, which says what the caller's update gives each item, has been
   * applied to the live items of `s`; items it gives nothing are deleted by it.
   */
  function Updated(p: Priorities, s: set<Item>, update: Priorities): Priorities {
    map x | x in p && (x in s ==> x in update) :: if x in s then update[x] else p[x]
  }

  /** The lowest and highest priority of a set of live items; both zero when it is empty. */
  ghost predicate IsRange(s: set<Item>, p: Priorities, lo: real, hi: real) {
    && (s == {} ==> lo == hi == 0.0)
    && (forall x :: x in s ==> x in p && lo <= p[x] <= hi)
    && (s != {} ==> exists x, y :: x in s && y in s && x in p && y in p && p[x] == lo && p[y] == hi)
  }

  /** What a commit makes of the priorities; without an update it leaves them alone. */
  function After(p: Priorities, s: set<Item>, update: Option<Priorities>): Priorities {
    if update.Some? then Updated(p, s, update.value) else p
  }

  /** A commit without an update leaves the priorities alone; with one it decides the items it visits, and no others. */
  lemma AfterMeans(p: Priorities, s: set<Item>, update: Option<Priorities>, x: Item)
    ensures var q := After(p, s, update);
            if update.None? || x !in s || x !in p then (x in q <==> x in p) && (x in p ==> q[x] == p[x])
            else (x in q <==> x in update.value) && (x in q ==> q[x] == update.value[x])
  {
  }

  lemma AfterStep(p: Priorities, s: set<Item>, f: Item, update: Option<Priorities>)
    requires f !in s
    ensures After(After(p, s, update), {f}, update) == After(p, s + {f}, update)
    ensures AgreeOn(s, After(p, s, update), After(p, s + {f}, update))
  {
  }

  lemma RangeStep(s: set<Item>, p: Priorities, q: Priorities, lo: real, hi: real, f: Item)
    requires IsRange(s, p, lo, hi) && f !in s && f in q
    requires forall x :: x in s ==> x in q && q[x] == p[x]
    ensures IsRange(s + {f}, q, if s == {} || q[f] < lo then q[f] else lo, if s == {} || q[f] > hi then q[f] else hi)
  {
    if s != {} {
      var x, y :| x in s && y in s && x in p && y in p && p[x] == lo && p[y] == hi;
      var x' := if q[f] < lo then f else x;
      var y' := if q[f] > hi then f else y;
      assert x' in s + {f} && y' in s + {f} && x' in q && y' in q;
    } else {
      assert f in s + {f};
    }
  }

  /** Among the items of `s`, `p` and `q` know the same ones at the same priorities. */
  ghost predicate AgreeOn(s: set<Item>, p: Priorities, q: Priorities) {
    s * p.Keys == s * q.Keys && forall x :: x in s * p.Keys ==> p[x] == q[x]
  }

  lemma AgreeSets(seen: set<Item>, p: Priorities, q: Priorities, f: Item)
    requires f !in seen && AgreeOn(seen, p, q)
    ensures f in q ==> (seen + {f}) * q.Keys == seen * p.Keys + {f} && (seen + {f}) - q.Keys == seen - p.Keys
    ensures f !in q ==> (seen + {f}) * q.Keys == seen * p.Keys && (seen + {f}) - q.Keys == (seen - p.Keys) + {f}
  {
    assert seen * q.Keys == seen * p.Keys;
  }

  lemma AgreeRange(s: set<Item>, p: Priorities, q: Priorities, lo: real, hi: real)
    requires IsRange(s, p, lo, hi) && forall x :: x in s ==> x in q && q[x] == p[x]
    ensures IsRange(s, q, lo, hi)
  {
    if s != {} {
      var x, y :| x in s && y in s && x in p && y in p && p[x] == lo && p[y] == hi;
      assert x in q && y in q;
    }
  }

  /**
   * A commit that has visited the first `i` of `cells`: the items met have been updated, exactly
   * the deleted ones among them have left, and the counters cover the others.
   */
  ghost predicate Committed(cells: Cells, i: nat, was: Priorities, update: Option<Priorities>, items: set<Item>,
                            p: Priorities, gone: set<Item>, count: int, lo: real, hi: real)
    requires i <= |cells|
  {
    var seen := HeldTo(cells, i);
    && p == After(was, seen, update) && gone == seen - p.Keys
    && items == Held(cells) - gone
    && count == |seen * p.Keys| && IsRange(seen * p.Keys, p, lo, hi)
  }

  lemma CommitStart(cells: Cells, p: Priorities, update: Option<Priorities>)
    ensures Committed(cells, 0, p, update, Held(cells), p, {}, 0, 0.0, 0.0)
  {
  }

  lemma CommitSkip(cells: Cells, i: nat, was: Priorities, update: Option<Priorities>, items: set<Item>,
                   p: Priorities, gone: set<Item>, count: int, lo: real, hi: real)
    requires i < |cells| && cells[i].None? && Committed(cells, i, was, update, items, p, gone, count, lo, hi)
    ensures Committed(cells, i + 1, was, update, items, p, gone, count, lo, hi)
  {
  }

  lemma CommitKeep(cells: Cells, i: nat, was: Priorities, update: Option<Priorities>, items: set<Item>,
                   p: Priorities, gone: set<Item>, count: int, lo: real, hi: real, f: Item, q: Priorities)
    requires i < |cells| && cells[i] == Some(f) && Committed(cells, i, was, update, items, p, gone, count, lo, hi)
    requires f !in HeldTo(cells, i) && q == After(p, {f}, update) && f in q
    ensures Committed(cells, i + 1, was, update, items, q, gone, count + 1,
                      if count == 0 || q[f] < lo then q[f] else lo, if count == 0 || q[f] > hi then q[f] else hi)
  {
    var seen := HeldTo(cells, i);
    AfterStep(was, seen, f, update);
    AgreeSets(seen, p, q, f);
    RangeStep(seen * p.Keys, p, q, lo, hi, f);
  }

  lemma CommitDrop(cells: Cells, i: nat, was: Priorities, update: Option<Priorities>, items: set<Item>,
                   p: Priorities, gone: set<Item>, count: int, lo: real, hi: real, f: Item, q: Priorities)
    requires i < |cells| && cells[i] == Some(f) && Committed(cells, i, was, update, items, p, gone, count, lo, hi)
    requires f !in HeldTo(cells, i) && q == After(p, {f}, update) && f !in q
    ensures f !in gone
    ensures Committed(cells, i + 1, was, update, items - {f}, q, gone + {f}, count, lo, hi)
  {
    var seen := HeldTo(cells, i);
    AfterStep(was, seen, f, update);
    AgreeSets(seen, p, q, f);
    AgreeRange(seen * p.Keys, p, q, lo, hi);
    DropOne(Held(cells), gone, f);
  }

  /** Some cells have been emptied, the others are as they were. */
  ghost predicate OnlyEmptied(v: Cells, w: Cells) {
    |v| == |w| && forall i :: 0 <= i < |v| ==> w[i] == v[i] || w[i].None?
  }

  lemma EmptiedChain(u: Cells, v: Cells, w: Cells)
    requires OnlyEmptied(u, v) && OnlyEmptied(v, w)
    ensures OnlyEmptied(u, w)
  {
  }

  lemma AllStay(v: Cells, h: seq<int>, code: Key -> int, n: nat, w: Cells)
    requires TableOk(v, h, code, n) && OnlyEmptied(v, w) && Held(w) == Held(v)
    ensures w == v
  {
    forall i | 0 <= i < |v| && v[i].Some? ensures w[i] == v[i] {
      assert v[i].value in Held(w);
      var j :| 0 <= j < |w| && w[j] == v[i];
      SameCell(v, h, code, n, i, j);
    }
  }

  lemma DropOne(s: set<Item>, gone: set<Item>, f: Item)
    ensures (s - gone) - {f} == s - (gone + {f})
  {
  }

  lemma CommitEnd(cells: Cells, was: Priorities, update: Option<Priorities>, items: set<Item>,
                  p: Priorities, gone: set<Item>, count: int, lo: real, hi: real)
    requires Committed(cells, |cells|, was, update, items, p, gone, count, lo, hi)
    ensures p == After(was, Held(cells), update) && items == Held(cells) * p.Keys && gone == Held(cells) - p.Keys
    ensures count == |items| && IsRange(items, p, lo, hi)
  {
    HeldToAll(cells);
    assert items == Held(cells) * p.Keys;
  }

  // ---- Accounting --------------------------------------------------------------------------

  /**
   * From `before` to `after` with `gone` reported, once each: nothing appears from nowhere,
   * what is reported was held and no longer is, and every live item is still held or was reported.
   */
  ghost predicate Accounts(before: set<Item>, after: set<Item>, gone: set<Item>, live: set<Item>) {
    after <= before && gone <= before && gone !! after && before * live <= after + gone
  }

  /** Accounts of consecutive steps add up, with `more` arriving in between. */
  lemma AccountsChain(a: set<Item>, b: set<Item>, c: set<Item>, more: set<Item>, g: set<Item>, h: set<Item>,
                      live: set<Item>)
    requires Accounts(a, b, g, live) && Accounts(b + more, c, h, live) && a !! more
    ensures Accounts(a + more, c, g + h, live) && g !! h
  {
  }

  lemma ReportMore(base: multiset<Item>, g: set<Item>, h: set<Item>)
    requires g !! h
    ensures base + multiset(g + h) == base + multiset(g) + multiset(h)
  {
  }

  /** The live item of a cell, if any. */
  function LiveOf(cell: Option<Item>, p: Priorities): set<Item> {
    if cell.Some? && cell.value in p then {cell.value} else {}
  }

  lemma LiveStep(cells: Cells, k: nat, p: Priorities)
    requires k < |cells|
    ensures HeldTo(cells, k + 1) * p.Keys == HeldTo(cells, k) * p.Keys + LiveOf(cells[k], p)
  {
  }

  lemma ReportOne(base: multiset<Item>, gone: set<Item>, x: Item)
    requires x !in gone
    ensures base + multiset(gone + {x}) == base + multiset(gone) + multiset{x}
  {
  }

  /** The items of the first `k` cells. */
  ghost function HeldTo(cells: Cells, k: nat): set<Item>
    requires k <= |cells|
  {
    if k == 0 then {}
    else if cells[k - 1].Some? then HeldTo(cells, k - 1) + {cells[k - 1].value}
    else HeldTo(cells, k - 1)
  }

  lemma {:induction false} HeldToMeaning(cells: Cells, k: nat)
    requires k <= |cells|
    ensures forall y :: y in HeldTo(cells, k) <==> exists i :: 0 <= i < k && cells[i] == Some(y)
  {
    if k > 0 {
      HeldToMeaning(cells, k - 1);
      forall y ensures y in HeldTo(cells, k) <==> exists i :: 0 <= i < k && cells[i] == Some(y) {
        if cells[k - 1] == Some(y) {
          assert cells[k - 1] == Some(y);
        }
      }
    }
  }

  lemma HeldToAll(cells: Cells)
    ensures HeldTo(cells, |cells|) == Held(cells)
  {
    HeldToMeaning(cells, |cells|);
    forall y | y in HeldTo(cells, |cells|) ensures y in Held(cells) {
      var i :| 0 <= i < |cells| && cells[i] == Some(y);
    }
  }

  /** Walking over the cells, each item met is held and its key has not been met before. */
  lemma KeyIsNew(cells: Cells, hashes: seq<int>, code: Key -> int, n: nat, k: nat)
    requires TableOk(cells, hashes, code, n) && k < |cells|
    ensures cells[k].Some? ==> cells[k].value in Held(cells)
    ensures cells[k].Some? ==> forall y :: y in HeldTo(cells, k) ==> y.key != cells[k].value.key
  {
    HeldToMeaning(cells, k);
    forall y | y in HeldTo(cells, k) && cells[k].Some? ensures y.key != cells[k].value.key {
      var i :| 0 <= i < k && cells[i] == Some(y);
      assert Apart(cells, i, k);
    }
  }

  lemma NoKeyHeld(cells: Cells, k: Key)
    ensures HoldsKey(cells, k) <==> exists y :: y in Held(cells) && y.key == k
  {
    if HoldsKey(cells, k) {
      var i :| 0 <= i < |cells| && HasKey(cells[i], k);
      assert cells[i].value in Held(cells);
    }
  }

  /** When to grow and to what: at three quarters full, by half, up to the capacity. */
  function GrowTarget(space: nat, capacity: nat): nat {
    var half := (3 * space + 1) / 2;
    if half < capacity then half else capacity
  }

  predicate Regrows(size: int, space: nat, capacity: nat) {
    4 * size >= 3 * space && space < capacity && GrowTarget(space, capacity) != space
  }

  /** When a table grows, and to what: three quarters full and below its capacity, to half as much again, rounded. */
  lemma RegrowthMeans(size: int, space: nat, capacity: nat)
    ensures Regrows(size, space, capacity) <==> 0 < space < capacity && size as real >= 0.75 * space as real
    ensures var t := GrowTarget(space, capacity);
            || t == capacity
            || (t < capacity && t as real - 0.5 <= 1.5 * space as real < t as real + 0.5)
    ensures GrowTarget(space, capacity) == capacity ==> 1.5 * space as real >= capacity as real - 0.5
  {
  }

  /** A regrowth is a strict growth that stays within the capacity, so regrowths cannot go on for ever. */
  lemma RegrowthGrows(size: int, space: nat, capacity: nat)
    requires Regrows(size, space, capacity)
    ensures 0 < space < GrowTarget(space, capacity) <= capacity
  {
  }
}
