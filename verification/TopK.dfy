/** Descending lists of priorities: keeping the best `k` as they stream by is sorting and cutting. */
module TopK {
  ghost predicate Descending(s: seq<real>) {
    forall i, j :: 0 <= i < j < |s| ==> s[i] >= s[j]
  }

  /** How far from the end a newcomer moves up: past everything smaller, behind its equals. */
  function Rank(s: seq<real>, p: real): (r: nat)
    ensures r <= |s|
  {
    if s == [] || s[|s| - 1] >= p then |s| else Rank(s[..|s| - 1], p)
  }

  function InsertDesc(s: seq<real>, p: real): seq<real> {
    s[..Rank(s, p)] + [p] + s[Rank(s, p)..]
  }

  function SortDesc(s: seq<real>): seq<real> {
    if s == [] then [] else InsertDesc(SortDesc(s[..|s| - 1]), s[|s| - 1])
  }

  function Take(s: seq<real>, k: nat): seq<real> {
    if |s| <= k then s else s[..k]
  }

  /** A bounded buffer fed one offer at a time. */
  function Stream(offers: seq<real>, k: nat): seq<real> {
    if offers == [] then [] else Take(InsertDesc(Stream(offers[..|offers| - 1], k), offers[|offers| - 1]), k)
  }

  lemma {:induction false} RankSplits(s: seq<real>, p: real)
    requires Descending(s)
    ensures forall i :: 0 <= i < Rank(s, p) ==> s[i] >= p
    ensures forall i :: Rank(s, p) <= i < |s| ==> s[i] < p
  {
    if s != [] && s[|s| - 1] < p {
      RankSplits(s[..|s| - 1], p);
    }
  }

  /** The rank is the only place that splits a list so. */
  lemma RankUnique(s: seq<real>, p: real, r: nat)
    requires Descending(s) && r <= |s|
    requires forall i :: 0 <= i < r ==> s[i] >= p
    requires forall i :: r <= i < |s| ==> s[i] < p
    ensures Rank(s, p) == r
  {
    RankSplits(s, p);
    var q := Rank(s, p);
    assert q < |s| ==> (q < r <==> s[q] >= p);
    assert r < |s| ==> (r < q <==> s[r] >= p);
  }

  lemma InsertDescKeeps(s: seq<real>, p: real)
    requires Descending(s)
    ensures Descending(InsertDesc(s, p)) && |InsertDesc(s, p)| == |s| + 1
  {
    RankSplits(s, p);
  }

  lemma InsertDescCounts(s: seq<real>, p: real)
    ensures multiset(InsertDesc(s, p)) == multiset(s) + multiset{p}
  {
    assert s == s[..Rank(s, p)] + s[Rank(s, p)..];
  }

  /** Sorting is a descending rearrangement. */
  lemma {:induction false} SortDescSorts(s: seq<real>)
    ensures Descending(SortDesc(s)) && multiset(SortDesc(s)) == multiset(s) && |SortDesc(s)| == |s|
  {
    if s != [] {
      SortDescSorts(s[..|s| - 1]);
      InsertDescKeeps(SortDesc(s[..|s| - 1]), s[|s| - 1]);
      InsertDescCounts(SortDesc(s[..|s| - 1]), s[|s| - 1]);
      assert s == s[..|s| - 1] + [s[|s| - 1]];
    }
  }

  lemma RankOfCut(s: seq<real>, p: real, k: nat)
    requires Descending(s) && k <= |s|
    ensures Rank(s[..k], p) == if Rank(s, p) <= k then Rank(s, p) else k
  {
    RankSplits(s, p);
    RankUnique(s[..k], p, if Rank(s, p) <= k then Rank(s, p) else k);
  }

  /** Cutting before an insertion loses nothing that cutting after it would keep. */
  lemma TakeInsert(s: seq<real>, p: real, k: nat)
    requires Descending(s)
    ensures Take(InsertDesc(Take(s, k), p), k) == Take(InsertDesc(s, p), k)
  {
    if |s| > k {
      RankOfCut(s, p, k);
      var r := Rank(s, p);
      var a, b := InsertDesc(s[..k], p), InsertDesc(s, p);
      forall i | 0 <= i < k ensures a[i] == b[i] {
        if r <= k && i > r {
          assert a[i] == s[..k][i - 1] && b[i] == s[i - 1];
        }
      }
      assert a[..k] == b[..k];
    }
  }

  /**
   * Streaming top-k: whatever was offered, in whatever order, the bounded buffer holds exactly
   * the `k` largest offers in descending order.
   */
  lemma {:induction false} StreamIsTopK(offers: seq<real>, k: nat)
    ensures Stream(offers, k) == Take(SortDesc(offers), k)
  {
    if offers != [] {
      var n := |offers| - 1;
      StreamIsTopK(offers[..n], k);
      SortDescSorts(offers[..n]);
      TakeInsert(SortDesc(offers[..n]), offers[n], k);
    }
  }

  /** What a cut keeps is at least as large as anything it drops, and nothing else is lost. */
  lemma TakeIsLargest(s: seq<real>, k: nat)
    ensures var t := Take(SortDesc(s), k);
            var rest := SortDesc(s)[|t|..];
            && multiset(t) + multiset(rest) == multiset(s)
            && |t| == (if |s| <= k then |s| else k)
            && forall x, y :: x in t && y in rest ==> x >= y
  {
    SortDescSorts(s);
    var all := SortDesc(s);
    var t := Take(all, k);
    assert all == t + all[|t|..];
  }

  /**
   * The bag's own step, with an eviction only when full and a refusal only of something smaller
   * than the smallest, is the buffer's step.
   */
  lemma StepIsTake(s: seq<real>, p: real, k: nat)
    requires Descending(s) && |s| <= k
    ensures |s| < k ==> Take(InsertDesc(s, p), k) == InsertDesc(s, p)
    ensures |s| == k > 0 && s[k - 1] <= p ==> Take(InsertDesc(s, p), k) == InsertDesc(s[..k - 1], p)
    ensures |s| == k && (k == 0 || s[k - 1] > p) ==> Take(InsertDesc(s, p), k) == s
  {
    RankSplits(s, p);
    if |s| == k > 0 {
      RankOfCut(s, p, k - 1);
      var r := Rank(s, p);
      if r == k {
        assert InsertDesc(s, p)[..k] == s;
        assert s[k - 1] == p ==> s[..k - 1] + [p] == s;
      } else {
        assert InsertDesc(s, p)[..k] == InsertDesc(s[..k - 1], p);
      }
    }
  }

  lemma {:induction false} SortedStays(s: seq<real>)
    requires Descending(s)
    ensures SortDesc(s) == s
  {
    if s != [] {
      var n := |s| - 1;
      SortedStays(s[..n]);
      RankUnique(s[..n], s[n], n);
      assert s == s[..n] + [s[n]];
    }
  }
}
