/**
 * Room in a hijack table (docs/java/HijackBag.java): which items a full window costs, and how few
 * items there must be for none to be lost.
 */
module HijackRoom {
  import opened BagItems
  import opened HijackTable
  import opened Options

  /** Where the window of a key begins. */
  function Home(code: Key -> int, k: Key, c: nat): (i: nat)
    requires c > 0
    ensures i < c
  {
    Index(Hash(code, k), c)
  }

  /** No cell in the window of the key is empty. */
  ghost predicate NoRoom(u: Cells, code: Key -> int, n: nat, k: Key) {
    |u| > 0 ==> forall j: nat :: j < n ==> u[Probe(Home(code, k, |u|), j, |u|)].Some?
  }

  /** In a full window `x` finds no place, or takes that of `y`. */
  ghost predicate Squeezes(u: Cells, code: Key -> int, n: nat, x: Item, y: Item) {
    NoRoom(u, code, n, x.key) && (y == x || exists i: nat :: HeldInWindow(u, code, n, x.key, i) && u[i] == Some(y))
  }

  ghost predicate HeldInWindow(u: Cells, code: Key -> int, n: nat, k: Key, i: nat) {
    i < |u| && InWindow(i, Home(code, k, |u|), n, |u|)
  }

  ghost predicate KeysApart(u: Cells) {
    forall i, j :: 0 <= i < |u| && 0 <= j < |u| && i != j ==> Apart(u, i, j)
  }

  /** A table of at least that length, with some of these items in it, had no room for another of them. */
  ghost predicate Squeezed(y: Item, code: Key -> int, n: nat, least: nat, items: set<Item>) {
    exists u: Cells, x: Item :: SqueezedIn(u, x, y, code, n, least, items)
  }

  ghost predicate SqueezedIn(u: Cells, x: Item, y: Item, code: Key -> int, n: nat, least: nat, items: set<Item>) {
    && |u| >= least && KeysApart(u) && x !in Held(u) && Held(u) + {x} <= items
    && Squeezes(u, code, n, x, y)
  }

  ghost predicate AllSqueezed(gone: set<Item>, code: Key -> int, n: nat, least: nat, items: set<Item>) {
    forall y :: y in gone ==> Squeezed(y, code, n, least, items)
  }

  lemma SqueezedAlso(gone: set<Item>, code: Key -> int, n: nat, least: nat, items: set<Item>, less: nat,
                     more: set<Item>)
    requires AllSqueezed(gone, code, n, least, items) && less <= least && items <= more
    ensures AllSqueezed(gone, code, n, less, more)
  {
    forall y | y in gone ensures Squeezed(y, code, n, less, more) {
      var u, x :| SqueezedIn(u, x, y, code, n, least, items);
      assert SqueezedIn(u, x, y, code, n, less, more);
    }
  }

  // ---- Counting --------------------------------------------------------------------------------

  lemma {:induction false} ProbeIs(start: nat, j: nat, c: nat)
    requires start < c && j < c
    ensures Probe(start, j, c) == if start + j < c then start + j else start + j - c
  {
    if j > 0 {
      ProbeIs(start, j - 1, c);
    }
  }

  /** The items in the first `m` cells from `start`. */
  ghost function WindowItems(u: Cells, start: nat, m: nat): set<Item>
    requires start < |u|
  {
    if m == 0 then {} else WindowItems(u, start, m - 1) + InCell(u[Probe(start, m - 1, |u|)])
  }

  function InCell(cell: Option<Item>): set<Item> {
    if cell.Some? then {cell.value} else {}
  }

  lemma {:induction false} InStretch(u: Cells, start: nat, m: nat, y: Item)
    requires start < |u| && y in WindowItems(u, start, m)
    ensures y in Held(u) && exists j: nat :: j < m && u[Probe(start, j, |u|)] == Some(y)
  {
    if y in WindowItems(u, start, m - 1) {
      InStretch(u, start, m - 1, y);
    } else {
      var last: nat := m - 1;
      assert u[Probe(start, last, |u|)] == Some(y);
    }
  }

  /** A stretch within the table does not come back to a cell, so each item in it is met once. */
  lemma LastIsNew(u: Cells, start: nat, m: nat)
    requires start < |u| && m < |u| && KeysApart(u) && u[Probe(start, m, |u|)].Some?
    ensures u[Probe(start, m, |u|)].value !in WindowItems(u, start, m)
  {
    var last := Probe(start, m, |u|);
    forall j: nat | j < m ensures u[Probe(start, j, |u|)] != u[last] {
      ProbeIs(start, j, |u|);
      ProbeIs(start, m, |u|);
      assert Apart(u, Probe(start, j, |u|), last);
    }
    if u[last].value in WindowItems(u, start, m) {
      InStretch(u, start, m, u[last].value);
      assert false;
    }
  }

  /** A full stretch of distinct cells holds as many items. */
  lemma {:induction false} FullWindowHolds(u: Cells, start: nat, m: nat)
    requires start < |u| && m <= |u| && KeysApart(u)
    requires forall j: nat :: j < m ==> u[Probe(start, j, |u|)].Some?
    ensures |WindowItems(u, start, m)| == m
  {
    if m > 0 {
      FullWindowHolds(u, start, m - 1);
      LastIsNew(u, start, m - 1);
    }
  }

  /** A full window takes more items than its length, or than the table has cells. */
  lemma NoRoomCosts(u: Cells, code: Key -> int, n: nat, k: Key)
    requires |u| > 0 && KeysApart(u) && NoRoom(u, code, n, k)
    ensures |Held(u)| >= if n < |u| then n else |u|
  {
    var m := if n < |u| then n else |u|;
    FullWindowHolds(u, Home(code, k, |u|), m);
    forall y | y in WindowItems(u, Home(code, k, |u|), m) ensures y in Held(u) {
      InStretch(u, Home(code, k, |u|), m, y);
    }
    Subset(WindowItems(u, Home(code, k, |u|), m), Held(u));
  }

  lemma Subset(a: set<Item>, b: set<Item>)
    requires a <= b
    ensures |a| <= |b|
  {
    assert b == a + (b - a);
  }

  /** With no more items than cells in a window and in the table, nothing is squeezed out. */
  lemma FewFit(gone: set<Item>, code: Key -> int, n: nat, least: nat, items: set<Item>)
    requires AllSqueezed(gone, code, n, least, items) && |items| <= n && |items| <= least
    ensures gone == {}
  {
    if y :| y in gone {
      var u, x :| SqueezedIn(u, x, y, code, n, least, items);
      Subset(Held(u) + {x}, items);
      NoRoomCosts(u, code, n, x.key);
    }
  }

  lemma FewRefiled(before: set<Item>, after: set<Item>, gone: set<Item>, p: Priorities, code: Key -> int, n: nat,
                   least: nat)
    requires Accounts(before, after, gone, p.Keys) && after <= p.Keys
    requires AllSqueezed(gone, code, n, least, before * p.Keys)
    ensures |before * p.Keys| <= n && |before * p.Keys| <= least ==> gone == {} && after == before * p.Keys
  {
    if |before * p.Keys| <= n && |before * p.Keys| <= least {
      FewFit(gone, code, n, least, before * p.Keys);
    }
  }

  // ---- While the table keeps its length ----------------------------------------------------------

  /** What was occupied stays so. */
  ghost predicate StaysFull(v: Cells, w: Cells) {
    |v| == |w| && forall i :: 0 <= i < |v| && v[i].Some? ==> w[i].Some?
  }

  /**
   * In the table as it is, the item's window meets a full one, of one of these items; or its own
   * is full.
   */
  ghost predicate CrowdedOut(w: Cells, code: Key -> int, n: nat, items: set<Item>, y: Item) {
    exists x :: x in items && NoRoom(w, code, n, x.key) && (y == x || WindowsMeet(w, code, n, x.key, y.key))
  }

  ghost predicate WindowsMeet(w: Cells, code: Key -> int, n: nat, k: Key, l: Key) {
    exists i: nat :: HeldInWindow(w, code, n, k, i) && HeldInWindow(w, code, n, l, i)
  }

  ghost predicate AllCrowdedOut(w: Cells, code: Key -> int, n: nat, items: set<Item>, gone: set<Item>) {
    forall y :: y in gone ==> CrowdedOut(w, code, n, items, y)
  }

  lemma CrowdedStays(v: Cells, w: Cells, code: Key -> int, n: nat, items: set<Item>, gone: set<Item>)
    requires AllCrowdedOut(v, code, n, items, gone) && StaysFull(v, w)
    ensures AllCrowdedOut(w, code, n, items, gone)
  {
    forall y | y in gone ensures CrowdedOut(w, code, n, items, y) {
      var x :| x in items && NoRoom(v, code, n, x.key) && (y == x || WindowsMeet(v, code, n, x.key, y.key));
      assert NoRoom(w, code, n, x.key);
      if y != x {
        var i: nat :| HeldInWindow(v, code, n, x.key, i) && HeldInWindow(v, code, n, y.key, i);
        assert HeldInWindow(w, code, n, x.key, i) && HeldInWindow(w, code, n, y.key, i);
      }
    }
  }

  lemma SqueezedIsCrowded(v: Cells, h: seq<int>, code: Key -> int, n: nat, items: set<Item>, x: Item, y: Item)
    requires TableOk(v, h, code, n) && Squeezes(v, code, n, x, y) && x in items
    ensures CrowdedOut(v, code, n, items, y)
  {
    if y != x {
      var i: nat :| HeldInWindow(v, code, n, x.key, i) && v[i] == Some(y);
      assert HeldInWindow(v, code, n, y.key, i);
      assert WindowsMeet(v, code, n, x.key, y.key);
    }
  }

  /** A put of `x` that keeps what is occupied, and whose window cost all those reported theirs. */
  ghost predicate Crowds(v: Cells, w: Cells, code: Key -> int, n: nat, x: Item, gone: set<Item>) {
    StaysFull(v, w) && forall y :: y in gone ==> Squeezes(v, code, n, x, y)
  }

  lemma CrowdedMore(v: Cells, h: seq<int>, w: Cells, code: Key -> int, n: nat, items: set<Item>, gone: set<Item>,
                    x: Item, more: set<Item>)
    requires TableOk(v, h, code, n) && AllCrowdedOut(v, code, n, items, gone) && x in items
    requires Crowds(v, w, code, n, x, more)
    ensures AllCrowdedOut(w, code, n, items, gone + more)
  {
    forall y | y in more ensures CrowdedOut(v, code, n, items, y) {
      SqueezedIsCrowded(v, h, code, n, items, x, y);
    }
    CrowdedStays(v, w, code, n, items, gone + more);
  }

  lemma SqueezedItself(v: Cells, h: seq<int>, code: Key -> int, n: nat, x: Item)
    requires TableOk(v, h, code, n) && !HoldsKey(v, x.key) && Squeezes(v, code, n, x, x)
    ensures AllSqueezed({x}, code, n, |v|, Held(v) + {x})
  {
    NoKeyHeld(v, x.key);
    assert SqueezedIn(v, x, x, code, n, |v|, Held(v) + {x});
  }

  lemma HeldToWithin(cells: Cells, k: nat)
    requires k <= |cells|
    ensures HeldTo(cells, k) <= Held(cells)
  {
    HeldToMeaning(cells, k);
  }

  // ---- A put -------------------------------------------------------------------------------------

  /** Whom a put costs its place, while the table keeps its length: itself or one victim, in a full window. */
  lemma PutSqueezes(code: Key -> int, n: nat, v: Cells, h: seq<int>, p: Priorities, w: Cells, q: Priorities, x: Item,
                    returning: Option<Item>, gone: set<Item>)
    requires TableOk(v, h, code, n) && PutOutcome(code, n, v, p, w, q, x, returning, gone)
    requires x in p && !HoldsKey(v, x.key)
    ensures returning.None? ==> Squeezes(v, code, n, x, x)
    ensures |w| == |v| ==> StaysFull(v, w) && forall y :: y in gone ==> Squeezes(v, code, n, x, y)
  {
    if |v| > 0 && |w| == |v| {
      var removing: Option<Item> :|
        && Attempt(code, n, v, p, w, q, x, returning, returning.Some?, removing)
        && gone == (if removing.Some? then {removing.value} else {});
      AttemptSqueezes(code, n, v, h, p, w, q, x, returning, returning.Some?, removing);
    }
  }

  lemma AttemptSqueezes(code: Key -> int, n: nat, v: Cells, h: seq<int>, p: Priorities, w: Cells, q: Priorities,
                        x: Item, returning: Option<Item>, adding: bool, removing: Option<Item>)
    requires TableOk(v, h, code, n) && Attempt(code, n, v, p, w, q, x, returning, adding, removing)
    requires |v| > 0 && x in p && !HoldsKey(v, x.key)
    ensures StaysFull(v, w)
    ensures !adding ==> NoRoom(v, code, n, x.key)
    ensures removing.Some? ==> Squeezes(v, code, n, x, removing.value)
  {
    var start := Home(code, x.key, |v|);
    var slot: Slot :|
      && Chooses(v, p, x.key, start, n, slot) && slot.i < |v|
      && (slot.Vacant? ==> adding)
      && (if adding then w == v[slot.i := Some(x)] && removing == v[slot.i] else w == v && removing.None?);
    assert !slot.Match?;
    if slot.Weakest? {
      assert NoRoom(v, code, n, x.key);
      assert HeldInWindow(v, code, n, x.key, slot.i);
    }
  }

  lemma PutIsSqueezed(code: Key -> int, n: nat, v: Cells, h: seq<int>, p: Priorities, w: Cells, q: Priorities, x: Item,
                      returning: Option<Item>, gone: set<Item>)
    requires TableOk(v, h, code, n) && PutOutcome(code, n, v, p, w, q, x, returning, gone) && |w| == |v|
    ensures AllSqueezed(gone, code, n, |v|, Held(v) + {x})
  {
    if x in p && !HoldsKey(v, x.key) {
      PutSqueezes(code, n, v, h, p, w, q, x, returning, gone);
      forall y | y in gone ensures Squeezed(y, code, n, |v|, Held(v) + {x}) {
        assert SqueezedIn(v, x, y, code, n, |v|, Held(v) + {x});
      }
    }
  }

  /** The table has fewer items than a window has cells, and than it has cells itself. */
  ghost predicate Roomy(v: Cells, n: nat) {
    |Held(v)| < n && |Held(v)| < |v|
  }

  /** Into such a table a new live item is taken, and nobody leaves for it. */
  lemma RoomyTakes(code: Key -> int, n: nat, v: Cells, h: seq<int>, p: Priorities, w: Cells, q: Priorities, x: Item,
                   returning: Option<Item>, gone: set<Item>)
    requires TableOk(v, h, code, n) && PutOutcome(code, n, v, p, w, q, x, returning, gone)
    requires AllSqueezed(gone, code, n, |v|, Held(v) + {x})
    requires x in p && !HoldsKey(v, x.key) && Roomy(v, n)
    ensures returning == Some(x) && gone == {} && (Held(v) + {x}) * p.Keys <= Held(w)
  {
    PutSqueezes(code, n, v, h, p, w, q, x, returning, gone);
    if returning.None? {
      NoRoomCosts(v, code, n, x.key);
    }
    assert |Held(v) + {x}| == |Held(v)| + 1;
    FewFit(gone, code, n, |v|, Held(v) + {x});
  }

  /** A refused item counts as reported. */
  function WithRefused(x: Item, returning: Option<Item>, gone: set<Item>): set<Item> {
    if returning.None? then {x} else gone
  }

  lemma RefusedAlone(code: Key -> int, n: nat, v: Cells, p: Priorities, w: Cells, q: Priorities, x: Item,
                     returning: Option<Item>, gone: set<Item>)
    requires PutOutcome(code, n, v, p, w, q, x, returning, gone)
    ensures returning.None? ==> gone == {}
    ensures multiset(WithRefused(x, returning, gone)) == multiset(gone) + multiset(if returning.None? then {x} else {})
  {
  }

  lemma RefileIsSqueezed(code: Key -> int, n: nat, v: Cells, h: seq<int>, p: Priorities, w: Cells, q: Priorities,
                         x: Item, returning: Option<Item>, gone: set<Item>)
    requires TableOk(v, h, code, n) && PutOutcome(code, n, v, p, w, q, x, returning, gone)
    requires x in p && !HoldsKey(v, x.key) && AllSqueezed(gone, code, n, |v|, Held(v) + {x})
    ensures var g := WithRefused(x, returning, gone);
            && AllSqueezed(g, code, n, |v|, Held(v) + {x})
            && (|w| == |v| ==> Crowds(v, w, code, n, x, g))
  {
    PutSqueezes(code, n, v, h, p, w, q, x, returning, gone);
    if returning.None? {
      SqueezedItself(v, h, code, n, x);
    }
  }

  lemma RefileAccounts(code: Key -> int, n: nat, v: Cells, p: Priorities, w: Cells, q: Priorities,
                       x: Item, returning: Option<Item>, gone: set<Item>)
    requires PutOutcome(code, n, v, p, w, q, x, returning, gone) && x in p && !HoldsKey(v, x.key)
    ensures q == p && x !in Held(v) && Accounts(Held(v) + {x}, Held(w), WithRefused(x, returning, gone), p.Keys)
  {
    NoKeyHeld(v, x.key);
  }

  /** One more live item has been put into a table that is being filled. */
  lemma CellRefiled(code: Key -> int, n: nat, v: Cells, h: seq<int>, p: Priorities, w: Cells, q: Priorities, x: Item,
                    returning: Option<Item>, g: set<Item>, live: set<Item>, gone: set<Item>, least: nat, all: set<Item>)
    requires TableOk(v, h, code, n) && PutOutcome(code, n, v, p, w, q, x, returning, g)
    requires x in p && !HoldsKey(v, x.key) && AllSqueezed(g, code, n, |v|, Held(v) + {x})
    requires Accounts(live, Held(v), gone, p.Keys) && x !in live && live + {x} <= all && least <= |v| <= |w|
    requires AllSqueezed(gone, code, n, least, all)
    requires |v| == least ==> AllCrowdedOut(v, code, n, all, gone)
    ensures var more := WithRefused(x, returning, g);
            && gone !! more && Accounts(live + {x}, Held(w), gone + more, p.Keys)
            && AllSqueezed(gone + more, code, n, least, all)
            && (|w| == least ==> AllCrowdedOut(w, code, n, all, gone + more))
  {
    var more := WithRefused(x, returning, g);
    RefileIsSqueezed(code, n, v, h, p, w, q, x, returning, g);
    RefileAccounts(code, n, v, p, w, q, x, returning, g);
    AccountsChain(live, Held(v), Held(w), {x}, gone, more, p.Keys);
    SqueezedAlso(more, code, n, |v|, Held(v) + {x}, least, all);
    if |w| == least {
      CrowdedMore(v, h, w, code, n, all, gone, x, more);
    }
  }
}
