/**
 * Rolling consumption up a tree with `mergeConsumption`: the result depends only on which
 * spendings were merged, never on how they were grouped or in which order.
 */
module BudgetMerge {
  import opened Budget
  import opened Options
  import opened Sequences

  datatype Tree = Tree(own: Slice, kids: seq<Tree>)

  /** Every subtree is rolled up first, then merged into its parent, left to right. */
  function RollUp(t: Tree): Slice
    decreases t, 1
  {
    RollKids(t.own, t.kids)
  }

  function RollKids(acc: Slice, kids: seq<Tree>): Slice
    decreases kids, 0
  {
    if kids == [] then acc else RollKids(Merge(acc, RollUp(kids[0])), kids[1..])
  }

  /** The slices of a tree, parents before children. */
  function Flat(t: Tree): (s: seq<Slice>)
    ensures |s| > 0 && s[0] == t.own
    decreases t, 1
  {
    [t.own] + FlatKids(t.kids)
  }

  function FlatKids(kids: seq<Tree>): seq<Slice>
    decreases kids, 0
  {
    if kids == [] then [] else Flat(kids[0]) + FlatKids(kids[1..])
  }

  /** The flat reference: one list of spendings joined from the front. */
  function JoinAll(s: seq<Slice>): Slice
    requires |s| > 0
  {
    if |s| == 1 then s[0] else Merge(JoinAll(s[..|s| - 1]), s[|s| - 1])
  }

  lemma {:induction false} JoinAllConcat(a: seq<Slice>, b: seq<Slice>)
    requires |a| > 0 && |b| > 0
    ensures JoinAll(a + b) == Merge(JoinAll(a), JoinAll(b))
  {
    var n := |b| - 1;
    assert (a + b)[..|a| + n] == a + b[..n];
    if n == 0 {
      assert a + b[..0] == a;
    } else {
      JoinAllConcat(a, b[..n]);
    }
  }

  /** Rolling a tree up equals joining its slices as one flat list. */
  lemma {:induction false} RollUpIsFlat(t: Tree)
    ensures RollUp(t) == JoinAll(Flat(t))
    decreases t, 1
  {
    RollKidsIsFlat(t.own, [t.own], t.kids);
  }

  lemma {:induction false} RollKidsIsFlat(acc: Slice, done: seq<Slice>, kids: seq<Tree>)
    requires |done| > 0 && acc == JoinAll(done)
    ensures RollKids(acc, kids) == JoinAll(done + FlatKids(kids))
    decreases kids, 0
  {
    if kids == [] {
      assert done + FlatKids(kids) == done;
    } else {
      var kid := kids[0];
      RollUpIsFlat(kid);
      JoinAllConcat(done, Flat(kid));
      RollKidsIsFlat(Merge(acc, RollUp(kid)), done + Flat(kid), kids[1..]);
      Regroup(done, Flat(kid), FlatKids(kids[1..]));
      assert FlatKids(kids) == Flat(kid) + FlatKids(kids[1..]);
    }
  }

  // ---- Order ----------------------------------------------------------------------------------

  function UsedOf(s: seq<Slice>): (u: seq<Amounts>)
    ensures |u| == |s| && forall k :: 0 <= k < |s| ==> u[k] == s[k].used
  {
    seq(|s|, k requires 0 <= k < |s| => s[k].used)
  }

  /** The counters of a joined list, from the counters alone. */
  function UsedAll(u: seq<Amounts>): Amounts
    requires |u| > 0
  {
    if |u| == 1 then u[0] else MergeUsed(UsedAll(u[..|u| - 1]), u[|u| - 1])
  }

  lemma {:induction false} JoinedUse(s: seq<Slice>)
    requires |s| > 0
    ensures JoinAll(s).used == UsedAll(UsedOf(s))
  {
    if |s| > 1 {
      JoinedUse(s[..|s| - 1]);
      assert UsedOf(s)[..|s| - 1] == UsedOf(s[..|s| - 1]);
    }
  }

  lemma MergeSwap(a: Amounts, b: Amounts, c: Amounts)
    ensures MergeUsed(MergeUsed(a, b), c) == MergeUsed(MergeUsed(a, c), b)
    ensures MergeUsed(a, b) == MergeUsed(b, a)
  {
  }

  lemma WithoutInit(u: seq<Amounts>, i: nat)
    requires |u| > 1 && i < |u| - 1
    ensures Without(u, i)[..|u| - 2] == Without(u[..|u| - 1], i)
    ensures Without(u, i)[|u| - 2] == u[|u| - 1]
  {
  }

  /** Any element can be taken out and joined last. */
  lemma {:induction false} TakeOut(u: seq<Amounts>, i: nat)
    requires |u| > 1 && i < |u|
    ensures UsedAll(u) == MergeUsed(UsedAll(Without(u, i)), u[i])
  {
    var n := |u| - 1;
    var rest := Without(u, i);
    if i == n {
      assert rest == u[..n];
    } else if n == 1 {
      assert rest == [u[1]] && u[..n] == [u[0]];
      MergeSwap(u[0], u[1], u[1]);
    } else {
      WithoutInit(u, i);
      TakeOut(u[..n], i);
      var core := UsedAll(Without(u[..n], i));
      assert UsedAll(rest) == MergeUsed(core, u[n]);
      MergeSwap(core, u[i], u[n]);
    }
  }

  /** The counters of a join depend on the multiset of spendings alone. */
  lemma {:induction false} JoinOrderFree(u: seq<Amounts>, v: seq<Amounts>)
    requires |u| > 0 && multiset(u) == multiset(v)
    ensures |v| > 0 && UsedAll(u) == UsedAll(v)
  {
    var n := |u| - 1;
    assert |u| == |multiset(u)| == |multiset(v)| == |v|;
    assert u[n] in multiset(v);
    var i :| 0 <= i < |v| && v[i] == u[n];
    if n == 0 {
      assert u == [u[0]] && v == [v[0]];
    } else {
      SameWithout(u, v, i);
      JoinOrderFree(u[..n], Without(v, i));
      TakeOut(v, i);
    }
  }

  lemma SameWithout(u: seq<Amounts>, v: seq<Amounts>, i: nat)
    requires |u| > 0 && multiset(u) == multiset(v) && i < |v| && v[i] == u[|u| - 1]
    ensures multiset(u[..|u| - 1]) == multiset(Without(v, i))
  {
    WithoutCounts(u, |u| - 1);
    WithoutCounts(v, i);
    assert Without(u, |u| - 1) == u[..|u| - 1];
  }

  /** Trees holding the same spendings, however bracketed and ordered, roll up to the same counters. */
  lemma MergeIsShapeFree(t: Tree, u: Tree)
    requires multiset(UsedOf(Flat(t))) == multiset(UsedOf(Flat(u)))
    ensures RollUp(t).used == RollUp(u).used
  {
    RollUpIsFlat(t);
    RollUpIsFlat(u);
    JoinedUse(Flat(t));
    JoinedUse(Flat(u));
    JoinOrderFree(UsedOf(Flat(t)), UsedOf(Flat(u)));
  }

  // ---- Meaning --------------------------------------------------------------------------------

  function Total(s: seq<Slice>, r: Resource): real {
    if s == [] then 0.0 else Total(s[..|s| - 1], r) + s[|s| - 1].used.Get(r)
  }

  /** `r`'s high-water mark over a non-empty list. */
  ghost predicate IsPeak(s: seq<Slice>, r: Resource, v: real) {
    && (forall i :: 0 <= i < |s| ==> s[i].used.Get(r) <= v)
    && exists i :: 0 <= i < |s| && s[i].used.Get(r) == v
  }

  /** The reason of the first slice that has one. */
  function FirstReason(s: seq<Slice>): Option<Reason> {
    if s == [] then None
    else if FirstReason(s[..|s| - 1]).Some? then FirstReason(s[..|s| - 1])
    else s[|s| - 1].reason
  }

  lemma {:induction false} JoinAllMeaning(s: seq<Slice>)
    requires |s| > 0
    ensures forall r: Resource :: r != Depth ==> JoinAll(s).used.Get(r) == Total(s, r)
    ensures IsPeak(s, Depth, JoinAll(s).used.depth)
    ensures JoinAll(s).reason == FirstReason(s)
  {
    var n := |s| - 1;
    if n > 0 {
      JoinAllMeaning(s[..n]);
      var v := JoinAll(s[..n]).used.depth;
      var i :| 0 <= i < n && s[..n][i].used.Get(Depth) == v;
      assert s[i].used.Get(Depth) == v;
      forall k | 0 <= k < n ensures s[k].used.Get(Depth) <= v { assert s[..n][k] == s[k]; }
      assert s[n].used.Get(Depth) == s[n].used.depth;
    } else {
      assert s[0].used.Get(Depth) == s[0].used.depth;
      assert s[..0] == [];
    }
  }

  /**
   * A rolled-up tree: own plus descendants in three dimensions, the peak in depth, and the
   * first recorded reason met from the root downwards.
   */
  lemma RollUpMeaning(t: Tree)
    ensures forall r: Resource :: r != Depth ==> RollUp(t).used.Get(r) == Total(Flat(t), r)
    ensures IsPeak(Flat(t), Depth, RollUp(t).used.depth)
    ensures RollUp(t).reason == FirstReason(Flat(t))
    ensures t.own.reason.Some? ==> RollUp(t).reason == t.own.reason
  {
    RollUpIsFlat(t);
    JoinAllMeaning(Flat(t));
    if t.own.reason.Some? {
      FirstReasonOfRoot(Flat(t));
    }
  }

  lemma {:induction false} FirstReasonOfRoot(s: seq<Slice>)
    requires |s| > 0 && s[0].reason.Some?
    ensures FirstReason(s) == s[0].reason
  {
    if |s| > 1 {
      FirstReasonOfRoot(s[..|s| - 1]);
    } else {
      assert s[..0] == [];
    }
  }
}
