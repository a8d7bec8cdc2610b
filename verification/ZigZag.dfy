/**
 * The zig-zag sampler (docs/java/ArrayBag.java): from a starting place it alternates upwards
 * and downwards through a ranked list.
 */
module ZigZag {
  import opened Options

  /** The places still to be visited, in order; `up` tells whose turn it is. */
  function Rest(u: int, d: int, s: int, up: bool): (r: seq<int>)
    decreases (if u < 0 then 0 else u + 1) + (if d < s then s - d else 0), if up then u >= 0 else d < s
  {
    if u < 0 && d >= s then []
    else if up then (if u >= 0 then [u] + Rest(u - 1, d, s, false) else [d] + Rest(u, d + 1, s, true))
    else (if d < s then [d] + Rest(u, d + 1, s, true) else [u] + Rest(u - 1, d, s, false))
  }

  /** A side that has run out stays out. */
  lemma {:induction false} ExhaustedSide(u: int, d: int, s: int, up: bool)
    decreases (if u < 0 then 0 else u + 1) + (if d < s then s - d else 0)
    ensures u < 0 ==> Rest(u, d, s, up) == Rest(u - 1, d, s, true) == Rest(u - 1, d, s, false)
    ensures d >= s ==> Rest(u, d, s, up) == Rest(u, d + 1, s, true) == Rest(u, d + 1, s, false)
  {
    if u < 0 && d < s {
      ExhaustedSide(u, d + 1, s, true);
    } else if u >= 0 && d >= s {
      ExhaustedSide(u - 1, d, s, false);
    }
  }

  /** How often a place is visited: once on either side of the gap. */
  function Visits(u: int, d: int, s: int, i: int): nat {
    if 0 <= i <= u || d <= i < s then 1 else 0
  }

  lemma VisitedNext(all: seq<int>, n: int, rest: seq<int>, i: int)
    requires all == [n] + rest
    ensures multiset(all)[i] == multiset(rest)[i] + if i == n then 1 else 0
  {
  }

  /** Every place on either side of the gap is visited exactly once, and any other never. */
  lemma {:induction false} VisitsEachOnce(u: int, d: int, s: int, up: bool, i: int)
    requires u < d
    decreases (if u < 0 then 0 else u + 1) + (if d < s then s - d else 0)
    ensures multiset(Rest(u, d, s, up))[i] == Visits(u, d, s, i)
  {
    if u < 0 && d >= s {
    } else if u >= 0 && (up || d >= s) {
      VisitsEachOnce(u - 1, d, s, false, i);
      VisitedNext(Rest(u, d, s, up), u, Rest(u - 1, d, s, false), i);
    } else {
      VisitsEachOnce(u, d + 1, s, true, i);
      VisitedNext(Rest(u, d, s, up), d, Rest(u, d + 1, s, true), i);
    }
  }

  lemma {:induction false} VisitsAsMany(u: int, d: int, s: int, up: bool)
    requires u < d
    decreases (if u < 0 then 0 else u + 1) + (if d < s then s - d else 0)
    ensures |Rest(u, d, s, up)| == (if u < 0 then 0 else u + 1) + (if d < s then s - d else 0)
  {
    if u < 0 && d >= s {
    } else if u >= 0 && (up || d >= s) {
      VisitsAsMany(u - 1, d, s, false);
    } else {
      VisitsAsMany(u, d + 1, s, true);
    }
  }

  /** As long as there are places on both sides the sampler goes up and down by turns, one place further each time. */
  lemma {:induction false} TakesTurns(u: int, d: int, s: int, k: nat)
    requires k <= u && d + k < s
    ensures var r := Rest(u, d, s, true);
            |r| > 2 * k + 1 && r[2 * k] == u - k && r[2 * k + 1] == d + k
  {
    assert Rest(u, d, s, true) == [u, d] + Rest(u - 1, d + 1, s, true);
    if k > 0 {
      TakesTurns(u - 1, d + 1, s, k - 1);
    }
  }

  class UniqueSampleIterator<T> {
    const items: seq<nat>
    const list: array<Option<T>>
    const s: nat
    var u: int
    var d: int
    var pending: Option<T>
    var dir: bool
    ghost var at: int

    /** What is still to come: the item fetched ahead, if any, then the rest. */
    ghost function Remaining(): seq<int>
      reads this
    {
      (if pending.Some? then [at] else []) + Rest(u, d, s, !dir)
    }

    ghost predicate Valid()
      reads this, list
    {
      && s == |items| && u < d && d >= 0 && u < s
      && (forall i :: 0 <= i < s ==> items[i] < list.Length && list[items[i]].Some?)
      && (pending.Some? ==> 0 <= at < s && pending == list[items[at]])
    }

    constructor (start: nat, items: seq<nat>, list: array<Option<T>>)
      requires start < |items|
      requires forall i :: 0 <= i < |items| ==> items[i] < list.Length && list[items[i]].Some?
      ensures Valid() && this.items == items && this.list == list
      ensures Remaining() == Rest(start, start + 1, |items|, true)
    {
      this.items, this.list, s := items, list, |items|;
      u, d, pending, dir, at := start, start + 1, None, false, 0;
    }

    /** One step to the other side; fails when that side has run out. */
    method Step() returns (found: bool)
      requires Valid() && pending.None?
      modifies this
      ensures Valid() && dir == !old(dir) && found == pending.Some?
      ensures found <==> if dir then old(u) >= 0 else old(d) < s
      ensures found ==> Remaining() == old(Remaining())
      ensures !found ==> Rest(u, d, s, !dir) == old(if dir then Rest(u, d + 1, s, true) else Rest(u - 1, d, s, false))
      ensures !found ==> if dir then u < 0 && d == old(d) else d >= s && u == old(u)
    {
      dir := !dir;
      var n: int;
      if dir {
        n := u;
        u := u - 1;
        if n < 0 {
          return false;
        }
      } else {
        n := d;
        d := d + 1;
        if n >= s {
          return false;
        }
      }
      pending, at := list[items[n]], n;
      return pending.Some?;
    }

    /** Looks ahead at most once: asking again changes nothing that is still to come. */
    method HasNext() returns (more: bool)
      requires Valid()
      modifies this
      ensures Valid() && Remaining() == old(Remaining())
      ensures more == pending.Some? == (Remaining() != [])
      ensures old(pending.Some?) ==> u == old(u) && d == old(d) && dir == old(dir) && pending == old(pending)
    {
      if pending.Some? {
        return true;
      }
      ExhaustedSide(u, d, s, !dir);
      more := Step();
      if !more {
        ExhaustedSide(u, d, s, !dir);
        more := Step();
      }
    }

    /** Hands out what `HasNext` fetched. */
    method Next() returns (n: Option<T>)
      requires Valid()
      modifies this`pending
      ensures Valid() && pending.None? && n == old(pending)
      ensures old(pending.Some?) ==> [old(at)] + Remaining() == old(Remaining()) && n == list[items[old(at)]]
      ensures old(pending.None?) ==> Remaining() == old(Remaining())
    {
      n := pending;
      pending := None;
    }
  }

  /** A finished order visits every place of a list, and each only once. */
  lemma OrderIsComplete(start: nat, n: nat)
    requires start < n
    ensures var order := Rest(start, start + 1, n, true);
            && |order| == n
            && (forall k :: 0 <= k < n ==> 0 <= order[k] < n)
            && (forall i :: 0 <= i < n ==> i in order)
  {
    VisitsAsMany(start, start + 1, n, true);
    var order := Rest(start, start + 1, n, true);
    forall k | 0 <= k < n ensures 0 <= order[k] < n {
      VisitsEachOnce(start, start + 1, n, true, order[k]);
      assert order[k] in multiset(order);
    }
    forall i | 0 <= i < n ensures i in order {
      VisitsEachOnce(start, start + 1, n, true, i);
      assert multiset(order)[i] == 1;
    }
  }

  /** What has come out so far is what the order says. */
  ghost predicate Follows<T>(out: seq<T>, order: seq<int>, items: seq<nat>, list: seq<Option<T>>) {
    && |out| <= |order|
    && forall k :: 0 <= k < |out| ==>
         0 <= order[k] < |items| && items[order[k]] < |list| && list[items[order[k]]] == Some(out[k])
  }

  /** Runs the sampler to its end: the listed items come out in zig-zag order, each place once. */
  method SampleAll<T>(start: nat, items: seq<nat>, list: array<Option<T>>) returns (out: seq<T>)
    requires start < |items|
    requires forall i :: 0 <= i < |items| ==> items[i] < list.Length && list[items[i]].Some?
    ensures |out| == |items| && Follows(out, Rest(start, start + 1, |items|, true), items, list[..])
  {
    ghost var order := Rest(start, start + 1, |items|, true);
    OrderIsComplete(start, |items|);
    out := [];
    var it := new UniqueSampleIterator(start, items, list);
    var more := it.HasNext();
    while more
      invariant it.Valid() && it.items == items && it.list == list && fresh(it)
      invariant more == it.pending.Some? == (it.Remaining() != [])
      invariant |out| <= |order| && it.Remaining() == order[|out|..]
      invariant Follows(out, order, items, list[..])
      decreases |order| - |out|
    {
      out := Fetch(it, order, out);
      more := it.HasNext();
    }
  }

  method Fetch<T>(it: UniqueSampleIterator<T>, ghost order: seq<int>, sofar: seq<T>) returns (out: seq<T>)
    requires it.Valid() && it.pending.Some?
    requires |sofar| <= |order| && it.Remaining() == order[|sofar|..]
    requires Follows(sofar, order, it.items, it.list[..])
    modifies it`pending
    ensures it.Valid()
    ensures |out| == |sofar| + 1 <= |order| && it.Remaining() == order[|out|..]
    ensures Follows(out, order, it.items, it.list[..])
  {
    var n := it.Next();
    assert order[|sofar|] == it.at;
    out := sofar + [n.value];
    assert it.Remaining() == order[|sofar|..][1..];
  }
}
