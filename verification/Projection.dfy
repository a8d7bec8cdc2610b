/**
 * Temporal projection (docs/java/TruthFunctions.java): how much of a truth survives when it is
 * moved from a source interval to a target interval.  Times are unbounded integers here, and
 * `classic` selects between the two triangle formulas.
 */
module Projection {
  import Numbers

  const ETERNAL: int := -0x8000_0000_0000_0000

  function Abs(x: int): (d: nat)
    ensures d == x || d == -x
  {
    if x < 0 then -x else x
  }

  function MaxInt(x: int, y: int): int {
    if x >= y then x else y
  }

  /** Java's integer division by two: toward zero. */
  function Half(x: int): (h: int)
    ensures x >= 0 ==> 2 * h <= x <= 2 * h + 1
    ensures x <= 0 ==> 2 * h - 1 <= x <= 2 * h
  {
    if x >= 0 then x / 2 else -(-x / 2)
  }

  /** Rounding to the nearest integer, halves up. */
  function Round(x: real): (r: int)
    ensures r as real - 0.5 <= x < r as real + 0.5
  {
    (x + 0.5).Floor
  }

  function Project(from: int, to: int, now: int, dur: real, classic: bool): real {
    if from == to then 0.0
    else
      var y := dur + (if classic then (Abs(now - from) + Abs(now - to)) as real
                      else (MaxInt(Abs(now - from), Abs(now - to)) * 2) as real);
      Abs(from - to) as real / Numbers.Max(1.0, y)
  }

  function RangeDilution(fs: int, fe: int, ts: int, te: int): real
    requires ts <= te
  {
    var q := (1 + fe - fs) as real / (1 + te - ts) as real;
    if q < 1.0 then q else 1.0
  }

  predicate Unit(x: real) {
    0.0 <= x <= 1.0
  }

  lemma QuotientIsUnit(a: real, b: real)
    requires 0.0 <= a <= b && b > 0.0
    ensures Unit(a / b)
  {
  }

  /** The triangle inequality: the way is never longer than the detour through now. */
  lemma ProjectIsUnit(from: int, to: int, now: int, dur: real, classic: bool)
    requires dur >= 0.0
    ensures Unit(Project(from, to, now, dur, classic))
  {
    if from != to {
      var detour := if classic then Abs(now - from) + Abs(now - to) else MaxInt(Abs(now - from), Abs(now - to)) * 2;
      assert Abs(from - to) <= detour;
      QuotientIsUnit(Abs(from - to) as real, Numbers.Max(1.0, dur + detour as real));
    }
  }

  /** A longer duration never discounts more. */
  lemma DurationSoftens(from: int, to: int, now: int, dur: real, longer: real, classic: bool)
    requires 0.0 <= dur <= longer
    ensures Project(from, to, now, longer, classic) <= Project(from, to, now, dur, classic)
  {
    if from != to {
      var detour := if classic then Abs(now - from) + Abs(now - to) else MaxInt(Abs(now - from), Abs(now - to)) * 2;
      SmallerQuotient(Abs(from - to) as real, Numbers.Max(1.0, dur + detour as real),
                      Numbers.Max(1.0, longer + detour as real));
    }
  }

  lemma SmallerQuotient(a: real, b: real, c: real)
    requires a >= 0.0 && 0.0 < b <= c
    ensures a / c <= a / b
  {
    var p, q := a / c, a / b;
    assert p * c == a && q * b == a;
    Numbers.NonNegativeProduct(p, c - b) by {
      Numbers.NonNegativeQuotient(a, c);
    }
    CancelRight(p, q, b);
  }

  lemma CancelRight(x: real, y: real, b: real)
    requires b > 0.0 && x * b <= y * b
    ensures x <= y
  {
    if x > y {
      Numbers.NonNegativeProduct(x - y, b);
    }
  }

  lemma DilutionIsUnit(fs: int, fe: int, ts: int, te: int)
    requires fs <= fe && ts <= te
    ensures 0.0 < RangeDilution(fs, fe, ts, te) <= 1.0
    ensures RangeDilution(fs, fe, ts, te) == 1.0 <==> fe - fs >= te - ts
  {
    var a, b := (1 + fe - fs) as real, (1 + te - ts) as real;
    var q := a / b;
    assert q * b == a;
    if a >= b {
      assert q >= 1.0;
    } else {
      assert q < 1.0;
    }
  }

  // ---- The factor of a projection -----------------------------------------------------------

  /** What is left after a discount, of which eternalization takes its share back. */
  function Kept(discount: real, ete: real): real {
    1.0 - discount * (1.0 - ete)
  }

  lemma KeptBounds(discount: real, ete: real)
    requires Unit(discount) && Unit(ete)
    ensures ete <= Kept(discount, ete) <= 1.0
  {
    Numbers.NonNegativeProduct(discount, 1.0 - ete);
    Numbers.NonNegativeProduct(1.0 - discount, 1.0 - ete);
  }

  /** A discounted share, diluted. */
  function Factor(discount: real, ete: real, dilution: real): real {
    Kept(discount, ete) * dilution
  }

  /** Between what eternalization keeps and what dilution leaves. */
  predicate Between(x: real, ete: real, dilution: real) {
    ete * dilution <= x <= dilution
  }

  lemma FactorBounds(discount: real, ete: real, d: real)
    requires Unit(discount) && Unit(ete) && 0.0 < d <= 1.0
    ensures Between(Factor(discount, ete, d), ete, d) && Unit(Factor(discount, ete, d))
  {
    KeptBounds(discount, ete);
    var x := Kept(discount, ete);
    Numbers.NonNegativeProduct(x - ete, d);
    Numbers.NonNegativeProduct(1.0 - x, d);
    Numbers.NonNegativeProduct(x, d);
  }

  function MidFactor(now: int, fs: int, fe: int, ts: int, te: int, dur: real, ete: real, classic: bool): real
    requires ts <= te
  {
    if fs == ETERNAL then 1.0
    else if fs <= ts && fe >= te then 1.0
    else Factor(Project(Half(fs + fe), Half(ts + te), now, dur, classic), ete, RangeDilution(fs, fe, ts, te))
  }

  /** Between eternalization times dilution and dilution, unless nothing is to be projected. */
  lemma MidFactorBounds(now: int, fs: int, fe: int, ts: int, te: int, dur: real, ete: real, classic: bool)
    requires fs <= fe && ts <= te && dur >= 0.0 && Unit(ete)
    ensures Unit(MidFactor(now, fs, fe, ts, te, dur, ete, classic))
    ensures fs != ETERNAL && !(fs <= ts && fe >= te) ==>
              Between(MidFactor(now, fs, fe, ts, te, dur, ete, classic), ete, RangeDilution(fs, fe, ts, te))
  {
    ProjectIsUnit(Half(fs + fe), Half(ts + te), now, dur, classic);
    DilutionIsUnit(fs, fe, ts, te);
    FactorBounds(Project(Half(fs + fe), Half(ts + te), now, dur, classic), ete, RangeDilution(fs, fe, ts, te));
  }

  /** The whole number nearest to the middle of an interval, toward zero. */
  predicate IsMiddle(m: int, from: int, to: int) {
    var sum := from + to;
    if sum >= 0 then 2 * m == sum || 2 * m + 1 == sum else 2 * m == sum || 2 * m - 1 == sum
  }

  /** A way has no discount exactly when it is none. */
  lemma NoWayNoDiscount(from: int, to: int, now: int, dur: real, classic: bool)
    requires dur >= 0.0
    ensures Project(from, to, now, dur, classic) == 0.0 <==> from == to
  {
    if from != to {
      var y := dur + (if classic then (Abs(now - from) + Abs(now - to)) as real
                      else (MaxInt(Abs(now - from), Abs(now - to)) * 2) as real);
      PositiveRatio(Abs(from - to) as real, Numbers.Max(1.0, y));
    }
  }

  lemma PositiveRatio(a: real, b: real)
    requires a > 0.0 && b > 0.0
    ensures a / b > 0.0
  {
  }

  /**
   * When a projection from middle to middle costs nothing: the source is eternal or around the
   * target, or it is no shorter than the target and either eternalization is full or the middles
   * are the same.
   */
  lemma MidFactorIsOneIff(now: int, fs: int, fe: int, ts: int, te: int, dur: real, ete: real, classic: bool,
                          m: int, k: int)
    requires fs <= fe && ts <= te && dur >= 0.0 && Unit(ete) && IsMiddle(m, fs, fe) && IsMiddle(k, ts, te)
    ensures MidFactor(now, fs, fe, ts, te, dur, ete, classic) == 1.0 <==>
              || fs == ETERNAL || (fs <= ts && te <= fe)
              || (te - ts <= fe - fs && (ete == 1.0 || m == k))
    ensures !(fs == ETERNAL || (fs <= ts && te <= fe)) ==>
              MidFactor(now, fs, fe, ts, te, dur, ete, classic)
              == (1.0 - Project(m, k, now, dur, classic) * (1.0 - ete)) * RangeDilution(fs, fe, ts, te)
  {
    assert m == Half(fs + fe) && k == Half(ts + te);
    var (p, d) := (Project(m, k, now, dur, classic), RangeDilution(fs, fe, ts, te));
    NoWayNoDiscount(m, k, now, dur, classic);
    ProjectIsUnit(m, k, now, dur, classic);
    DilutionIsUnit(fs, fe, ts, te);
    KeptBounds(p, ete);
    KeptIsAll(p, ete);
    ProductIsOne(Kept(p, ete), d);
  }

  lemma KeptIsAll(p: real, ete: real)
    requires Unit(p) && Unit(ete)
    ensures Kept(p, ete) == 1.0 <==> p == 0.0 || ete == 1.0
  {
    if p > 0.0 && ete < 1.0 {
      assert p * (1.0 - ete) > 0.0;
    }
  }

  lemma ProductIsOne(x: real, y: real)
    requires 0.0 <= x <= 1.0 && 0.0 <= y <= 1.0
    ensures x * y == 1.0 <==> x == 1.0 && y == 1.0
  {
    if y < 1.0 {
      Numbers.NonNegativeProduct(1.0 - x, y);
    }
  }

  // ---- Sampling -------------------------------------------------------------------------------

  /** The offset of sample `i`; the last one is the whole end time, not the length. */
  function Offset(i: nat, n: nat, step: real, end: int): (o: int)
    ensures i == 0 ==> o == 0
    ensures 0 < i && i >= n - 1 ==> o == end
    ensures 0 < i < n - 1 ==> o as real - 0.5 <= step * i as real < o as real + 0.5
  {
    if i == 0 then 0 else if i < n - 1 then Round(step * i as real) else end
  }

  /** The discount of sample `i`, with steps `df` in the source and `dt` in the target. */
  function SampleAt(i: nat, n: nat, df: real, dt: real, now: int, fs: int, fe: int, ts: int, te: int, dur: real,
                    classic: bool): real
  {
    var t := ts + Offset(i, n, dt, te);
    if fs <= t <= fe then 0.0 else Project(fs + Offset(i, n, df, fe), t, now, dur, classic)
  }

  function Sample(i: nat, n: nat, now: int, fs: int, fe: int, ts: int, te: int, dur: real, classic: bool): real
    requires n >= 2
  {
    SampleAt(i, n, (fe - fs) as real / (n - 1) as real, (te - ts) as real / (n - 1) as real, now, fs, fe, ts, te, dur,
             classic)
  }

  function SampleSum(k: nat, n: nat, now: int, fs: int, fe: int, ts: int, te: int, dur: real, classic: bool): real
    requires n >= 2
  {
    if k == 0 then 0.0
    else SampleSum(k - 1, n, now, fs, fe, ts, te, dur, classic) + Sample(k - 1, n, now, fs, fe, ts, te, dur, classic)
  }

  lemma {:induction false} SampleSumBounds(k: nat, n: nat, now: int, fs: int, fe: int, ts: int, te: int, dur: real,
                                           classic: bool)
    requires n >= 2 && dur >= 0.0
    ensures 0.0 <= SampleSum(k, n, now, fs, fe, ts, te, dur, classic) <= k as real
  {
    if k > 0 {
      SampleSumBounds(k - 1, n, now, fs, fe, ts, te, dur, classic);
      var t := ts + Offset(k - 1, n, (te - ts) as real / (n - 1) as real, te);
      ProjectIsUnit(fs + Offset(k - 1, n, (fe - fs) as real / (n - 1) as real, fe), t, now, dur, classic);
    }
  }

  predicate Unprojected(fs: int, fe: int, ts: int, te: int, ete: real) {
    fs == ETERNAL || (fs == ts && fe == te) || ete >= 1.0
  }

  /** The discounted, diluted mean of `n` samples, where there is anything to project. */
  function TrapezoidalFactor(now: int, fs: int, fe: int, ts: int, te: int, dur: real, ete: real, n: nat,
                             classic: bool): real
    requires ts <= te && n >= 2
  {
    if Unprojected(fs, fe, ts, te, ete) then 1.0
    else Factor(SampleSum(n, n, now, fs, fe, ts, te, dur, classic) / n as real, ete, RangeDilution(fs, fe, ts, te))
  }

  /**
   * The mean of `n` samples, discounted.  For every number of samples the factor lies between
   * eternalization times dilution and dilution.
   */
  method ProjectTrapezoidal(now: int, fs: int, fe: int, ts: int, te: int, dur: real, ete: real, n: nat, classic: bool)
    returns (r: real)
    requires fs <= fe && ts <= te && dur >= 0.0 && Unit(ete) && n >= 2
    ensures r == TrapezoidalFactor(now, fs, fe, ts, te, dur, ete, n, classic)
    ensures Unprojected(fs, fe, ts, te, ete) ==> r == 1.0
    ensures !Unprojected(fs, fe, ts, te, ete) ==> Between(r, ete, RangeDilution(fs, fe, ts, te))
    ensures Unit(r)
  {
    if fs == ETERNAL || (fs == ts && fe == te) || ete >= 1.0 {
      return 1.0;
    }
    var nmin1 := (n - 1) as real;
    var df, dt := (fe - fs) as real / nmin1, (te - ts) as real / nmin1;
    var xx := 0.0;
    for i := 0 to n
      invariant xx == SampleSum(i, n, now, fs, fe, ts, te, dur, classic)
    {
      xx := xx + SampleAt(i, n, df, dt, now, fs, fe, ts, te, dur, classic);
    }
    SampleSumBounds(n, n, now, fs, fe, ts, te, dur, classic);
    QuotientIsUnit(xx, n as real);
    DilutionIsUnit(fs, fe, ts, te);
    r := Factor(xx / n as real, ete, RangeDilution(fs, fe, ts, te));
    FactorBounds(xx / n as real, ete, RangeDilution(fs, fe, ts, te));
  }

  // ---- The two-sample form --------------------------------------------------------------------

  /** The formula over both ends that the source's closing comment calls equivalent. */
  function TwoEnds(now: int, fs: int, fe: int, ts: int, te: int, dur: real, ete: real, classic: bool): real {
    Kept((FirstEnd(now, fs, fe, ts, dur, classic) + LastEnd(now, fs, fe, te, dur, classic)) / 2.0, ete)
  }

  function FirstEnd(now: int, fs: int, fe: int, ts: int, dur: real, classic: bool): real {
    if fs <= ts <= fe then 0.0 else Project(fs, ts, now, dur, classic)
  }

  function LastEnd(now: int, fs: int, fe: int, te: int, dur: real, classic: bool): real {
    if fs <= te <= fe then 0.0 else Project(fe, te, now, dur, classic)
  }

  /** The sample that is taken instead of the last end: at the sum of start and end. */
  function LastSample(now: int, fs: int, fe: int, ts: int, te: int, dur: real, classic: bool): real {
    if fs <= ts + te <= fe then 0.0 else Project(fs + fe, ts + te, now, dur, classic)
  }

  lemma TwoSampleSum(now: int, fs: int, fe: int, ts: int, te: int, dur: real, classic: bool)
    ensures SampleSum(2, 2, now, fs, fe, ts, te, dur, classic)
         == FirstEnd(now, fs, fe, ts, dur, classic) + LastSample(now, fs, fe, ts, te, dur, classic)
  {
    assert SampleSum(1, 2, now, fs, fe, ts, te, dur, classic) == Sample(0, 2, now, fs, fe, ts, te, dur, classic);
  }

  /** The way through now that a discount is measured against. */
  function Detour(from: int, to: int, now: int, classic: bool): nat {
    if classic then Abs(now - from) + Abs(now - to) else MaxInt(Abs(now - from), Abs(now - to)) * 2
  }

  lemma ProjectIsQuotient(from: int, to: int, now: int, dur: real, classic: bool)
    requires from != to && dur >= 1.0
    ensures dur + Detour(from, to, now, classic) as real > 0.0
    ensures Project(from, to, now, dur, classic)
            == Abs(from - to) as real / (dur + Detour(from, to, now, classic) as real)
    ensures Project(from, to, now, dur, classic) > 0.0
  {
    PositiveQuotient(Abs(from - to) as real, dur + Detour(from, to, now, classic) as real);
  }

  lemma PositiveQuotient(a: real, b: real)
    requires a > 0.0 && b > 0.0
    ensures a / b > 0.0
  {
  }

  /** Two quotients that agree at two durations have the same parts. */
  lemma SameQuotients(d: nat, e: nat, x: nat, y: nat)
    requires d > 0 && x > 0
    requires d as real / (1.0 + e as real) == x as real / (1.0 + y as real)
    requires d as real / (2.0 + e as real) == x as real / (2.0 + y as real)
    ensures d == x && e == y
  {
    CrossMultiply(d as real, 1.0 + e as real, x as real, 1.0 + y as real);
    CrossMultiply(d as real, 2.0 + e as real, x as real, 2.0 + y as real);
    assert d as real * (2.0 + y as real) - d as real * (1.0 + y as real) == d as real;
    assert x as real * (2.0 + e as real) - x as real * (1.0 + e as real) == x as real;
    SameFactor(d as real, 1.0 + y as real, 1.0 + e as real);
  }

  lemma CrossMultiply(a: real, b: real, c: real, d: real)
    requires b > 0.0 && d > 0.0 && a / b == c / d
    ensures a * d == c * b
  {
    var q := a / b;
    assert q * b == a && q * d == c;
  }

  lemma SameFactor(a: real, b: real, c: real)
    requires a > 0.0 && a * b == a * c
    ensures b == c
  {
  }

  /** From every moment and for every duration, two ways are discounted alike. */
  ghost predicate DiscountedAlike(a: int, b: int, c: int, d: int, classic: bool) {
    forall now: int, dur: real :: dur >= 0.0 ==> Project(a, b, now, dur, classic) == Project(c, d, now, dur, classic)
  }

  /** Only a way and its reverse are always discounted alike, in both modes. */
  lemma DiscountedAlikeIff(a: int, b: int, c: int, d: int, classic: bool)
    requires a != b && c != d
    ensures DiscountedAlike(a, b, c, d, classic) <==> (a == c && b == d) || (a == d && b == c)
  {
    if DiscountedAlike(a, b, c, d, classic) {
      SameDetour(a, b, c, d, c, classic);
      SameDetour(a, b, c, d, d, classic);
    }
  }

  lemma SameDetour(a: int, b: int, c: int, d: int, now: int, classic: bool)
    requires a != b && c != d && DiscountedAlike(a, b, c, d, classic)
    ensures Abs(a - b) == Abs(c - d) && Detour(a, b, now, classic) == Detour(c, d, now, classic)
  {
    ProjectIsQuotient(a, b, now, 1.0, classic);
    ProjectIsQuotient(c, d, now, 1.0, classic);
    ProjectIsQuotient(a, b, now, 2.0, classic);
    ProjectIsQuotient(c, d, now, 2.0, classic);
    assert Project(a, b, now, 1.0, classic) == Project(c, d, now, 1.0, classic);
    assert Project(a, b, now, 2.0, classic) == Project(c, d, now, 2.0, classic);
    SameQuotients(Abs(a - b), Detour(a, b, now, classic), Abs(c - d), Detour(c, d, now, classic));
  }

  /** The intervals for which the last sample is always the last end. */
  predicate LastSampleFits(fs: int, fe: int, ts: int, te: int) {
    var (from, to) := (fs + fe, ts + te);
    if fs <= te <= fe then fs <= to <= fe || from == to
    else !(fs <= to <= fe) && ((from == fe && to == te) || (from == te && to == fe))
  }

  ghost predicate LastAlike(fs: int, fe: int, ts: int, te: int, classic: bool) {
    forall now: int, dur: real :: dur >= 0.0 ==>
      LastSample(now, fs, fe, ts, te, dur, classic) == LastEnd(now, fs, fe, te, dur, classic)
  }

  lemma LastAlikeIff(fs: int, fe: int, ts: int, te: int, classic: bool)
    requires fs <= fe && ts <= te
    ensures LastAlike(fs, fe, ts, te, classic) <==> LastSampleFits(fs, fe, ts, te)
  {
    var (from, to) := (fs + fe, ts + te);
    if LastAlike(fs, fe, ts, te, classic) {
      assert LastSample(0, fs, fe, ts, te, 1.0, classic) == LastEnd(0, fs, fe, te, 1.0, classic);
      if from != to {
        ProjectIsQuotient(from, to, 0, 1.0, classic);
      }
      if fe != te {
        ProjectIsQuotient(fe, te, 0, 1.0, classic);
      }
      if !(fs <= te <= fe) {
        forall now: int, dur: real | dur >= 0.0
          ensures Project(from, to, now, dur, classic) == Project(fe, te, now, dur, classic)
        {
          assert LastSample(now, fs, fe, ts, te, dur, classic) == LastEnd(now, fs, fe, te, dur, classic);
        }
        DiscountedAlikeIff(from, to, fe, te, classic);
      }
    }
    if LastSampleFits(fs, fe, ts, te) && !(fs <= te <= fe) {
      DiscountedAlikeIff(from, to, fe, te, classic);
      forall now: int, dur: real | dur >= 0.0
        ensures LastSample(now, fs, fe, ts, te, dur, classic) == LastEnd(now, fs, fe, te, dur, classic)
      {
        assert Project(from, to, now, dur, classic) == Project(fe, te, now, dur, classic);
      }
    }
  }

  /** From every moment and for every duration, the code returns what its closing comment says. */
  ghost predicate AsCommented(fs: int, fe: int, ts: int, te: int, ete: real, classic: bool)
    requires ts <= te
  {
    forall now: int, dur: real :: dur >= 0.0 ==>
      TrapezoidalFactor(now, fs, fe, ts, te, dur, ete, 2, classic) == TwoEnds(now, fs, fe, ts, te, dur, ete, classic)
  }

  /**
   * The intervals for which the closing comment is right: equal ones; those that need no dilution
   * and whose last sample is the last end; and a target inside an eternal source.
   */
  predicate CommentHolds(fs: int, fe: int, ts: int, te: int) {
    if fs == ETERNAL then ts >= fs && te <= fe
    else (fs == ts && fe == te) || (te - ts <= fe - fs && LastSampleFits(fs, fe, ts, te))
  }

  lemma KeptIsInjective(x: real, y: real, ete: real)
    requires ete < 1.0
    ensures Kept(x, ete) == Kept(y, ete) <==> x == y
  {
    if Kept(x, ete) == Kept(y, ete) {
      CancelRight(x, y, 1.0 - ete);
      CancelRight(y, x, 1.0 - ete);
    }
  }

  lemma EndsAreUnit(now: int, fs: int, fe: int, ts: int, te: int, dur: real, classic: bool)
    requires dur >= 0.0
    ensures Unit(FirstEnd(now, fs, fe, ts, dur, classic)) && Unit(LastEnd(now, fs, fe, te, dur, classic))
    ensures Unit(LastSample(now, fs, fe, ts, te, dur, classic))
  {
    ProjectIsUnit(fs, ts, now, dur, classic);
    ProjectIsUnit(fe, te, now, dur, classic);
    ProjectIsUnit(fs + fe, ts + te, now, dur, classic);
  }

  /** Without dilution only the last sample can differ. */
  lemma UndilutedAt(now: int, fs: int, fe: int, ts: int, te: int, dur: real, ete: real, classic: bool)
    requires fs <= fe && ts <= te && !Unprojected(fs, fe, ts, te, ete) && te - ts <= fe - fs
    ensures TrapezoidalFactor(now, fs, fe, ts, te, dur, ete, 2, classic)
            == TwoEnds(now, fs, fe, ts, te, dur, ete, classic)
       <==> LastSample(now, fs, fe, ts, te, dur, classic) == LastEnd(now, fs, fe, te, dur, classic)
  {
    DilutionIsUnit(fs, fe, ts, te);
    TwoSampleSum(now, fs, fe, ts, te, dur, classic);
    var first := FirstEnd(now, fs, fe, ts, dur, classic);
    KeptIsInjective((first + LastSample(now, fs, fe, ts, te, dur, classic)) / 2.0,
                    (first + LastEnd(now, fs, fe, te, dur, classic)) / 2.0, ete);
  }

  lemma UndilutedIff(fs: int, fe: int, ts: int, te: int, ete: real, classic: bool)
    requires fs <= fe && ts <= te && !Unprojected(fs, fe, ts, te, ete) && te - ts <= fe - fs
    ensures AsCommented(fs, fe, ts, te, ete, classic) <==> LastAlike(fs, fe, ts, te, classic)
  {
    forall now: int, dur: real
      ensures TrapezoidalFactor(now, fs, fe, ts, te, dur, ete, 2, classic)
              == TwoEnds(now, fs, fe, ts, te, dur, ete, classic)
         <==> LastSample(now, fs, fe, ts, te, dur, classic) == LastEnd(now, fs, fe, te, dur, classic)
    {
      UndilutedAt(now, fs, fe, ts, te, dur, ete, classic);
    }
  }

  /** Over a long enough duration a discount is as small as one likes. */
  lemma LongDurationsFade(from: int, to: int, now: int, dur: real, bound: real, classic: bool)
    requires dur >= 1.0 && bound > 0.0 && Abs(from - to) as real < dur * bound
    ensures Project(from, to, now, dur, classic) < bound
  {
    if from != to {
      ProjectIsQuotient(from, to, now, dur, classic);
      var detour := Detour(from, to, now, classic) as real;
      Numbers.NonNegativeProduct(detour, bound);
      BelowBound(Abs(from - to) as real, dur + detour, bound);
    }
  }

  lemma BelowBound(a: real, b: real, bound: real)
    requires b > 0.0 && a < b * bound
    ensures a / b < bound
  {
    var q := a / b;
    assert q * b == a;
    if q >= bound {
      Numbers.NonNegativeProduct(q - bound, b);
    }
  }

  /** A diluted value stays at most the dilution; the comment's formula goes above it. */
  lemma DilutedDiffers(fs: int, fe: int, ts: int, te: int, ete: real, classic: bool)
    requires fs <= fe && ts <= te && Unit(ete) && !Unprojected(fs, fe, ts, te, ete) && te - ts > fe - fs
    ensures !AsCommented(fs, fe, ts, te, ete, classic)
  {
    DilutionIsUnit(fs, fe, ts, te);
    var d := RangeDilution(fs, fe, ts, te);
    var bound := 1.0 - d;
    var way := (Abs(fs - ts) + Abs(fe - te) + 1) as real;
    Numbers.NonNegativeQuotient(way, bound);
    var dur := way / bound + 1.0;
    assert way / bound * bound == way;
    assert dur * bound == way + bound;
    LongDurationsFade(fs, ts, 0, dur, bound, classic);
    LongDurationsFade(fe, te, 0, dur, bound, classic);
    EndsAreUnit(0, fs, fe, ts, te, dur, classic);
    TwoSampleSum(0, fs, fe, ts, te, dur, classic);
    FactorBounds((FirstEnd(0, fs, fe, ts, dur, classic) + LastSample(0, fs, fe, ts, te, dur, classic)) / 2.0, ete, d);
    KeptIsAtLeast((FirstEnd(0, fs, fe, ts, dur, classic) + LastEnd(0, fs, fe, te, dur, classic)) / 2.0, ete);
    assert TwoEnds(0, fs, fe, ts, te, dur, ete, classic) > d
        >= TrapezoidalFactor(0, fs, fe, ts, te, dur, ete, 2, classic);
  }

  lemma KeptIsAtLeast(x: real, ete: real)
    requires 0.0 <= x && 0.0 <= ete
    ensures Kept(x, ete) >= 1.0 - x
  {
    Numbers.NonNegativeProduct(x, ete);
  }

  /** An eternal source is not projected; the comment's formula discounts a target outside it. */
  lemma EternalIff(fs: int, fe: int, ts: int, te: int, ete: real, classic: bool)
    requires fs <= fe && ts <= te && 0.0 <= ete < 1.0 && fs == ETERNAL
    ensures AsCommented(fs, fe, ts, te, ete, classic) <==> ts >= fs && te <= fe
  {
    if ts < fs || te > fe {
      if ts < fs {
        ProjectIsQuotient(fs, ts, 0, 1.0, classic);
      } else {
        ProjectIsQuotient(fe, te, 0, 1.0, classic);
      }
      EndsAreUnit(0, fs, fe, ts, te, 1.0, classic);
      KeptIsInjective((FirstEnd(0, fs, fe, ts, 1.0, classic) + LastEnd(0, fs, fe, te, 1.0, classic)) / 2.0, 0.0, ete);
      assert TwoEnds(0, fs, fe, ts, te, 1.0, ete, classic)
          != TrapezoidalFactor(0, fs, fe, ts, te, 1.0, ete, 2, classic);
    }
  }

  /**
   * When the closing comment is right, for every pair of intervals, every eternalization and both
   * modes: exactly under full eternalization or for the intervals of `CommentHolds`.
   */
  lemma AsCommentedIff(fs: int, fe: int, ts: int, te: int, ete: real, classic: bool)
    requires fs <= fe && ts <= te && Unit(ete)
    ensures AsCommented(fs, fe, ts, te, ete, classic) <==> ete == 1.0 || CommentHolds(fs, fe, ts, te)
  {
    if ete == 1.0 || (fs == ts && fe == te) {
    } else if fs == ETERNAL {
      EternalIff(fs, fe, ts, te, ete, classic);
    } else if te - ts <= fe - fs {
      UndilutedIff(fs, fe, ts, te, ete, classic);
      LastAlikeIff(fs, fe, ts, te, classic);
    } else {
      DilutedDiffers(fs, fe, ts, te, ete, classic);
    }
  }

  /** With both intervals starting at 0 the comment is right exactly if the target is the shorter one. */
  lemma TwoSamplesFromZero(fe: nat, te: nat, ete: real, classic: bool)
    requires Unit(ete)
    ensures AsCommented(0, fe, 0, te, ete, classic) <==> ete == 1.0 || te <= fe
  {
    AsCommentedIff(0, fe, 0, te, ete, classic);
  }

  /** Intervals of one length, apart from each other, for which it is wrong already without dilution. */
  lemma TwoSamplesDiffer(classic: bool)
    ensures RangeDilution(10, 12, 20, 22) == 1.0 && !AsCommented(10, 12, 20, 22, 0.0, classic)
  {
    AsCommentedIff(10, 12, 20, 22, 0.0, classic);
  }

  // ---- Confidence and evidence ------------------------------------------------------------------

  function C2E(c: real, horizon: real): real
    requires c < 1.0
  {
    horizon * c / (1.0 - c)
  }

  function E2C(e: real, horizon: real): real
    requires e + horizon > 0.0
  {
    e / (e + horizon)
  }

  /** Evidence and confidence are inverse to each other, for any horizon. */
  lemma EvidenceRoundTrip(c: real, e: real, horizon: real)
    requires 0.0 <= c < 1.0 && e >= 0.0 && horizon > 0.0
    ensures C2E(c, horizon) >= 0.0 && E2C(C2E(c, horizon), horizon) == c
    ensures 0.0 <= E2C(e, horizon) < 1.0 && C2E(E2C(e, horizon), horizon) == e
  {
    var v := C2E(c, horizon);
    assert v * (1.0 - c) == horizon * c;
    Numbers.NonNegativeProduct(horizon, c);
    Numbers.NonNegativeQuotient(horizon * c, 1.0 - c);
    assert c * (v + horizon) == v;
    var q := E2C(e, horizon);
    assert q * (e + horizon) == e;
    assert (1.0 - q) * (e + horizon) == horizon;
    assert q < 1.0;
    assert e * (1.0 - q) == horizon * q;
  }
}
