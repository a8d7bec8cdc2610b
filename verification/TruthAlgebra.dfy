/**
 * The verifier's truth table (core/src/verify-derivation.ts) over exact reals, and the algebra
 * it obeys.  The curves are those of util/src/types/truth.ts and util/src/utils/numeric.ts.
 */
module TruthAlgebra {
  import opened Numbers
  import opened Sequences

  datatype Truth = Truth(f: real, c: real)

  datatype BinaryOp =
    | Deduction | Induction | Abduction | Exemplification | Comparison | Analogy | Resemblance
    | Intersection | Union | Revision | Detachment | Contraposition | Sameness

  datatype UnaryOp = NegationIntro | NegationElim | Negation | Conversion

  /** What the record's schema guarantees of every truth value. */
  predicate InUnit(t: Truth) {
    0.0 <= t.f <= 1.0 && 0.0 <= t.c <= 1.0
  }

  const WEIGHT_AT_CERTAINTY: real := 10000000000.0
  const MAX_CONFIDENCE: real := 0.999
  /** The weight of `MAX_CONFIDENCE`. */
  const MAX_WEIGHT: real := 999.0

  function SafeRatio(num: real, den: real): real {
    if den > 0.0 then num / den else 0.0
  }

  function SoftSquash(x: real): real
    requires x >= 0.0
  {
    x / (x + 1.0)
  }

  function C2W(c: real): real {
    if c == 1.0 then WEIGHT_AT_CERTAINTY else c / (1.0 - c)
  }

  function W2C(w: real): real
    requires w >= 0.0
  {
    SoftSquash(w)
  }

  /** Multiplication, named so that facts about products can be stated of it. */
  function Times(x: real, y: real): real {
    x * y
  }

  lemma NonNegative(x: real, y: real)
    requires 0.0 <= x && 0.0 <= y
    ensures 0.0 <= Times(x, y)
    ensures 0.0 < x && 0.0 < y ==> 0.0 < Times(x, y)
  {
    if x == 0.0 {
    } else if y == 0.0 {
    } else {
      assert x * y > 0.0;
    }
  }

  lemma TimesMinus(x: real, y: real, z: real)
    ensures Times(x - y, z) == Times(x, z) - Times(y, z)
    ensures Times(z, x - y) == Times(z, x) - Times(z, y)
  {
  }

  lemma TimesOne(x: real)
    ensures Times(x, 1.0) == x == Times(1.0, x) && Times(x, 0.0) == 0.0 == Times(0.0, x)
  {
  }

  /** A share of something is no more than the whole, and a share of a share is one. */
  lemma TimesBounds(x: real, y: real)
    requires 0.0 <= x && 0.0 <= y
    ensures 0.0 <= Times(x, y)
    ensures y <= 1.0 ==> Times(x, y) <= x
    ensures x <= 1.0 ==> Times(x, y) <= y
  {
    NonNegative(x, y);
    TimesMinus(1.0, y, x);
    TimesMinus(1.0, x, y);
    TimesOne(x);
    TimesOne(y);
    if y <= 1.0 {
      NonNegative(x, 1.0 - y);
    }
    if x <= 1.0 {
      NonNegative(1.0 - x, y);
    }
  }

  lemma Times3Bounds(x: real, y: real, z: real)
    requires 0.0 <= x <= 1.0 && 0.0 <= y <= 1.0 && 0.0 <= z <= 1.0
    ensures 0.0 <= Times(Times(x, y), z) <= Times(x, y) <= x
    ensures Times(Times(x, y), z) <= Times(y, z) <= y
  {
    TimesBounds(x, y);
    TimesBounds(Times(x, y), z);
    TimesBounds(y, z);
    TimesMonotone(Times(x, y), z, y, z);
  }

  function Binary(op: BinaryOp, a: Truth, b: Truth): Truth
    requires InUnit(a) && InUnit(b)
  {
    if op == Revision then Revise(a, b)
    else Truth(FrequencyEntry(op, a.f, b.f), ConfidenceEntry(op, a.f, b.f, a.c, b.c))
  }

  function FrequencyEntry(op: BinaryOp, f1: real, f2: real): real
    requires op != Revision
  {
    match op
    case Deduction => Times(f1, f2)
    case Induction => f2
    case Abduction => f1
    case Exemplification => Times(f1, f2)
    case Comparison => Agreement(f1, f2)
    case Analogy => Times(f1, f2)
    case Resemblance => (f1 + f2) / 2.0
    case Intersection => Times(f1, f2)
    case Union => 1.0 - Times(1.0 - f1, 1.0 - f2)
    case Detachment => f2
    case Contraposition => Agreement(f2, 1.0 - f1)
    case Sameness => 1.0 - Abs(f1 - f2)
  }

  function ConfidenceEntry(op: BinaryOp, f1: real, f2: real, c1: real, c2: real): real
    requires op != Revision && 0.0 <= f1 <= 1.0 && 0.0 <= f2 <= 1.0 && 0.0 <= c1 <= 1.0 && 0.0 <= c2 <= 1.0
  {
    Times3Bounds(f1, c1, c2);
    Times3Bounds(f2, c1, c2);
    match op
    case Induction => SoftSquash(Times(Times(f2, c1), c2))
    case Abduction => SoftSquash(Times(Times(f1, c1), c2))
    case Exemplification => Times(Times(Times(Times(SoftSquash(c1), c1), c2), f1), f2)
    case Analogy => Times(Times(c1, c2), f2)
    case Detachment => Times(Times(f1, c1), c2)
    case _ => Times(c1, c2)
  }

  /** The share that agreeing on yes has among all agreements. */
  function Agreement(x: real, y: real): real {
    SafeRatio(Times(x, y), Times(x, y) + Times(1.0 - x, 1.0 - y))
  }

  function Unary(op: UnaryOp, a: Truth): Truth {
    match op
    case NegationIntro | NegationElim | Negation => Truth(1.0 - a.f, a.c)
    case Conversion => Truth(a.f, Times(a.f, a.c))
  }

  function Mean(x: real, y: real, w1: real, w2: real): real {
    SafeRatio(Times(x, w1) + Times(y, w2), w1 + w2)
  }

  /** Revision adds weights and caps the confidence. */
  function Revise(a: Truth, b: Truth): Truth
    requires InUnit(a) && InUnit(b)
  {
    WeightIsNonNegative(a.c);
    WeightIsNonNegative(b.c);
    var (w1, w2) := (C2W(a.c), C2W(b.c));
    Truth(Mean(a.f, b.f, w1, w2), Min(W2C(w1 + w2), MAX_CONFIDENCE))
  }

  // ---- The curves -----------------------------------------------------------------------

  lemma TimesMonotone(x: real, y: real, p: real, q: real)
    requires 0.0 <= x <= p && 0.0 <= y <= q
    ensures Times(x, y) <= Times(p, q)
  {
    TimesKeepsOrder(x, p, y);
    NonNegative(p, q - y);
    TimesMinus(q, y, p);
  }

  lemma TimesKeepsOrder(x: real, y: real, w: real)
    requires x <= y && w >= 0.0
    ensures Times(x, w) <= Times(y, w)
    ensures x < y && w > 0.0 ==> Times(x, w) < Times(y, w)
  {
    NonNegative(y - x, w);
    TimesMinus(y, x, w);
  }

  lemma RatioIsUnit(n: real, d: real)
    requires 0.0 <= n <= d
    ensures 0.0 <= SafeRatio(n, d) <= 1.0
  {
  }

  /** The curve stays below its argument and below one. */
  lemma SquashBounds(x: real)
    requires x >= 0.0
    ensures 0.0 <= SoftSquash(x) <= x && SoftSquash(x) < 1.0
  {
    var q := SoftSquash(x);
    assert q * (x + 1.0) == x;
    assert q >= 0.0;
    assert q * x >= 0.0;
  }

  lemma WeightIsNonNegative(c: real)
    requires 0.0 <= c <= 1.0
    ensures C2W(c) >= 0.0 && (C2W(c) == 0.0 <==> c == 0.0)
  {
    if c < 1.0 {
      var v := C2W(c);
      assert v * (1.0 - c) == c;
      Sign(Abs(v), 1.0 - c);
      assert v < 0.0 ==> v * (1.0 - c) == -(Abs(v) * (1.0 - c));
    }
  }

  /** Weight and confidence are inverse to each other, except at certainty. */
  lemma WeightRoundTrip(c: real, w: real)
    requires 0.0 <= c <= 1.0 && w >= 0.0
    ensures C2W(W2C(w)) == w
    ensures C2W(c) >= 0.0 && (W2C(C2W(c)) == c <==> c < 1.0)
  {
    SquashBounds(w);
    var q := W2C(w);
    assert q * (w + 1.0) == w;
    assert w * (1.0 - q) == q;
    WeightIsNonNegative(c);
    if c < 1.0 {
      var v := C2W(c);
      assert v * (1.0 - c) == c;
      assert c * (v + 1.0) == v;
    }
  }

  lemma SquashIsMonotone(x: real, y: real)
    requires 0.0 <= x && 0.0 <= y
    ensures x <= y <==> SoftSquash(x) <= SoftSquash(y)
  {
    var p, q := SoftSquash(x), SoftSquash(y);
    assert p * (x + 1.0) == x && q * (y + 1.0) == y;
    SquashBounds(x);
    SquashBounds(y);
    assert x - y == p * (x + 1.0) - q * (y + 1.0);
    // x == p / (1 - p), so the comparison is that of p and q
    assert x * (1.0 - p) == p && y * (1.0 - q) == q;
    assert (x - y) * (1.0 - p) * (1.0 - q) == p * (1.0 - q) - q * (1.0 - p) == p - q;
    var k := (1.0 - p) * (1.0 - q);
    assert k > 0.0;
    assert (x - y) * k == p - q;
    if x <= y {
      Sign(y - x, k);
    } else {
      Sign(x - y, k);
      assert (x - y) * k > 0.0;
    }
  }

  lemma Sign(x: real, k: real)
    requires x >= 0.0 && k > 0.0
    ensures x * k >= 0.0 && (x > 0.0 ==> x * k > 0.0)
  {
  }

  /**
   * The stand-in for the unbounded weight of certainty is finite, so some uncertain premises
   * outweigh a certain one: the weight grows with confidence except just there.
   */
  lemma WeightIsMonotoneIff(c: real, d: real)
    requires 0.0 <= c < d <= 1.0
    ensures C2W(c) <= C2W(d) <==> d < 1.0 || c <= 10000000000.0 / 10000000001.0
  {
    WeightRoundTrip(c, WEIGHT_AT_CERTAINTY);
    SquashIsMonotone(C2W(c), WEIGHT_AT_CERTAINTY);
    if d < 1.0 {
      WeightRoundTrip(d, 0.0);
      SquashIsMonotone(C2W(c), C2W(d));
    }
  }

  // ---- Closure and confidence discipline --------------------------------------------------

  /** Every table entry maps truths to truths, revision of certain premises included. */
  lemma BinaryStaysInUnit(op: BinaryOp, a: Truth, b: Truth)
    requires InUnit(a) && InUnit(b)
    ensures InUnit(Binary(op, a, b))
  {
    if op == Revision {
      ReviseStaysInUnit(a, b);
    } else {
      FrequencyStaysInUnit(op, a, b);
      ConfidenceBelowProduct(op, a, b);
    }
  }

  lemma UnaryStaysInUnit(op: UnaryOp, a: Truth)
    requires InUnit(a)
    ensures InUnit(Unary(op, a)) && Unary(op, a).c <= a.c
  {
    TimesBounds(a.f, a.c);
  }

  lemma FrequencyStaysInUnit(op: BinaryOp, a: Truth, b: Truth)
    requires InUnit(a) && InUnit(b) && op != Revision
    ensures 0.0 <= Binary(op, a, b).f <= 1.0
  {
    TimesBounds(a.f, b.f);
    TimesBounds(1.0 - a.f, 1.0 - b.f);
    AgreementIsUnit(a.f, b.f);
    AgreementIsUnit(b.f, 1.0 - a.f);
  }

  lemma AgreementIsUnit(x: real, y: real)
    requires 0.0 <= x <= 1.0 && 0.0 <= y <= 1.0
    ensures 0.0 <= Agreement(x, y) <= 1.0
  {
    TimesBounds(x, y);
    TimesBounds(1.0 - x, 1.0 - y);
    RatioIsUnit(Times(x, y), Times(x, y) + Times(1.0 - x, 1.0 - y));
  }

  /** Apart from revision, no entry is more confident than its premises are together. */
  lemma ConfidenceBelowProduct(op: BinaryOp, a: Truth, b: Truth)
    requires InUnit(a) && InUnit(b) && op != Revision
    ensures 0.0 <= Binary(op, a, b).c <= Times(a.c, b.c) <= 1.0
  {
    TimesBounds(a.c, b.c);
    Times3Bounds(b.f, a.c, b.c);
    SquashBounds(Times(Times(b.f, a.c), b.c));
    Times3Bounds(a.f, a.c, b.c);
    SquashBounds(Times(Times(a.f, a.c), b.c));
    TimesBounds(Times(a.c, b.c), b.f);
    SquashBounds(a.c);
    var q := SoftSquash(a.c);
    Times3Bounds(q, a.c, b.c);
    Times3Bounds(Times(Times(q, a.c), b.c), a.f, b.f);
  }

  lemma ReviseStaysInUnit(a: Truth, b: Truth)
    requires InUnit(a) && InUnit(b)
    ensures InUnit(Revise(a, b)) && Revise(a, b).c <= MAX_CONFIDENCE
  {
    WeightIsNonNegative(a.c);
    WeightIsNonNegative(b.c);
    MeanIsUnit(a.f, b.f, C2W(a.c), C2W(b.c));
    SquashBounds(C2W(a.c) + C2W(b.c));
  }

  lemma MeanIsUnit(x: real, y: real, w1: real, w2: real)
    requires 0.0 <= x <= 1.0 && 0.0 <= y <= 1.0 && w1 >= 0.0 && w2 >= 0.0
    ensures 0.0 <= Mean(x, y, w1, w2) <= 1.0
  {
    if w1 + w2 > 0.0 {
      MeanIsBetween(x, y, w1, w2);
    }
  }

  /** A derivation: premises combined by table entries. */
  datatype Proof =
    | Premise(truth: Truth)
    | One(uop: UnaryOp, from: Proof)
    | Two(bop: BinaryOp, left: Proof, right: Proof)

  predicate PremisesInUnit(p: Proof) {
    match p
    case Premise(t) => InUnit(t)
    case One(_, q) => PremisesInUnit(q)
    case Two(_, l, r) => PremisesInUnit(l) && PremisesInUnit(r)
  }

  predicate RevisionFree(p: Proof) {
    match p
    case Premise(_) => true
    case One(_, q) => RevisionFree(q)
    case Two(op, l, r) => op != Revision && RevisionFree(l) && RevisionFree(r)
  }

  /** What a whole derivation concludes; always a truth again. */
  function Conclusion(p: Proof): (t: Truth)
    requires PremisesInUnit(p)
    ensures InUnit(t)
  {
    match p
    case Premise(t) => t
    case One(op, q) =>
      UnaryStaysInUnit(op, Conclusion(q));
      Unary(op, Conclusion(q))
    case Two(op, l, r) =>
      BinaryStaysInUnit(op, Conclusion(l), Conclusion(r));
      Binary(op, Conclusion(l), Conclusion(r))
  }

  /** The product of the premises' confidences. */
  function JointConfidence(p: Proof): (c: real)
    requires PremisesInUnit(p)
    ensures 0.0 <= c <= 1.0
  {
    match p
    case Premise(t) => t.c
    case One(_, q) => JointConfidence(q)
    case Two(_, l, r) =>
      TimesBounds(JointConfidence(l), JointConfidence(r));
      Times(JointConfidence(l), JointConfidence(r))
  }

  predicate IsPremiseOf(t: Truth, p: Proof) {
    match p
    case Premise(u) => t == u
    case One(_, q) => IsPremiseOf(t, q)
    case Two(_, l, r) => IsPremiseOf(t, l) || IsPremiseOf(t, r)
  }

  /**
   * Without revision, however deep the derivation, the conclusion is no more confident than all
   * its premises jointly, and so than any one of them.
   */
  lemma {:induction false} ConfidenceNeverGrows(p: Proof)
    requires PremisesInUnit(p) && RevisionFree(p)
    ensures Conclusion(p).c <= JointConfidence(p)
    ensures forall t :: IsPremiseOf(t, p) ==> Conclusion(p).c <= t.c
  {
    ConclusionBelowJoint(p);
    forall t | IsPremiseOf(t, p) ensures JointConfidence(p) <= t.c {
      JointBelowEach(p, t);
    }
  }

  lemma {:induction false} ConclusionBelowJoint(p: Proof)
    requires PremisesInUnit(p) && RevisionFree(p)
    ensures Conclusion(p).c <= JointConfidence(p)
  {
    match p
    case Premise(_) =>
    case One(op, q) =>
      ConclusionBelowJoint(q);
      UnaryStaysInUnit(op, Conclusion(q));
    case Two(op, l, r) =>
      ConclusionBelowJoint(l);
      ConclusionBelowJoint(r);
      ConfidenceBelowProduct(op, Conclusion(l), Conclusion(r));
      TimesMonotone(Conclusion(l).c, Conclusion(r).c, JointConfidence(l), JointConfidence(r));
  }

  lemma {:induction false} JointBelowEach(p: Proof, t: Truth)
    requires PremisesInUnit(p) && IsPremiseOf(t, p)
    ensures JointConfidence(p) <= t.c
  {
    match p
    case Premise(_) =>
    case One(_, q) => JointBelowEach(q, t);
    case Two(_, l, r) =>
      TimesBounds(JointConfidence(l), JointConfidence(r));
      if IsPremiseOf(t, l) {
        JointBelowEach(l, t);
      } else {
        JointBelowEach(r, t);
      }
  }

  // ---- Identities of the table --------------------------------------------------------------

  /** Union is the negation dual of intersection. */
  lemma UnionIsDual(a: Truth, b: Truth)
    requires InUnit(a) && InUnit(b)
    ensures Binary(Union, a, b) == Unary(Negation, Binary(Intersection, Unary(Negation, a), Unary(Negation, b)))
    ensures Unary(Negation, Unary(Negation, a)) == a
  {
  }

  /** Abduction is induction read backwards. */
  lemma AbductionIsInduction(a: Truth, b: Truth)
    requires InUnit(a) && InUnit(b)
    ensures Binary(Abduction, a, b) == Binary(Induction, b, a)
  {
    TimesRegroup(a.f, a.c, b.c);
  }

  /** Contraposition compares with the negation. */
  lemma ContrapositionCompares(a: Truth, b: Truth)
    requires InUnit(a) && InUnit(b)
    ensures Binary(Contraposition, a, b) == Binary(Comparison, b, Unary(Negation, a))
  {
    TimesCommutes(a.c, b.c);
  }

  lemma TimesRegroup(x: real, y: real, z: real)
    ensures Times(Times(x, y), z) == Times(Times(x, z), y)
  {
    assert x * y * z == x * z * y;
  }

  lemma TimesCommutes(x: real, y: real)
    ensures Times(x, y) == Times(y, x)
  {
  }

  lemma SymmetricEntries(op: BinaryOp, a: Truth, b: Truth)
    requires InUnit(a) && InUnit(b) && op in {Intersection, Union, Comparison, Resemblance, Sameness, Revision}
    ensures Binary(op, a, b) == Binary(op, b, a)
  {
    TimesCommutes(a.f, b.f);
    TimesCommutes(a.c, b.c);
    TimesCommutes(1.0 - a.f, 1.0 - b.f);
    match op
    case Revision => assert C2W(a.c) + C2W(b.c) == C2W(b.c) + C2W(a.c);
    case _ =>
  }

  // ---- Revision -----------------------------------------------------------------------------

  /**
   * The revised frequency lies between the two, unless there is no evidence at all: then the
   * empty ratio answers 0.
   */
  lemma RevisedFrequencyBetweenIff(a: Truth, b: Truth)
    requires InUnit(a) && InUnit(b)
    ensures (Min(a.f, b.f) <= Revise(a, b).f <= Max(a.f, b.f)) <==> (a.c > 0.0 || b.c > 0.0 || a.f == 0.0 || b.f == 0.0)
  {
    WeightIsNonNegative(a.c);
    WeightIsNonNegative(b.c);
    if C2W(a.c) + C2W(b.c) > 0.0 {
      MeanIsBetween(a.f, b.f, C2W(a.c), C2W(b.c));
    }
  }

  lemma MeanIsBetween(x: real, y: real, w1: real, w2: real)
    requires w1 >= 0.0 && w2 >= 0.0 && w1 + w2 > 0.0
    ensures Min(x, y) <= Mean(x, y, w1, w2) <= Max(x, y)
  {
    var lo, hi, m := Min(x, y), Max(x, y), Mean(x, y, w1, w2);
    MeanTimes(x, y, w1, w2);
    Distributes(lo, w1, w2);
    Distributes(hi, w1, w2);
    TimesKeepsOrder(lo, x, w1);
    TimesKeepsOrder(lo, y, w2);
    TimesKeepsOrder(x, hi, w1);
    TimesKeepsOrder(y, hi, w2);
    BySign(lo, m, w1 + w2);
    BySign(m, hi, w1 + w2);
  }

  lemma Distributes(x: real, u: real, v: real)
    ensures Times(x, u + v) == Times(x, u) + Times(x, v)
  {
  }

  lemma BySign(x: real, y: real, d: real)
    requires d > 0.0 && Times(x, d) <= Times(y, d)
    ensures x <= y
  {
    if y < x {
      TimesKeepsOrder(y, x, d);
    }
  }

  /** Evidence accumulates: revision is at least as confident as both, exactly within the cap. */
  lemma RevisionGainsConfidenceIff(a: Truth, b: Truth)
    requires InUnit(a) && InUnit(b)
    ensures Revise(a, b).c >= a.c && Revise(a, b).c >= b.c <==> a.c <= MAX_CONFIDENCE && b.c <= MAX_CONFIDENCE
  {
    WeightRoundTrip(a.c, C2W(b.c)) by {
      WeightIsNonNegative(b.c);
    }
    WeightRoundTrip(b.c, C2W(a.c));
    SquashIsMonotone(C2W(a.c), C2W(a.c) + C2W(b.c));
    SquashIsMonotone(C2W(b.c), C2W(a.c) + C2W(b.c));
  }

  /** The weight of a revision is the sum of the weights, cut off at the cap's weight. */
  lemma RevisedWeight(a: Truth, b: Truth)
    requires InUnit(a) && InUnit(b)
    ensures InUnit(Revise(a, b))
    ensures C2W(Revise(a, b).c) == Min(C2W(a.c) + C2W(b.c), MAX_WEIGHT)
  {
    ReviseStaysInUnit(a, b);
    WeightIsNonNegative(a.c);
    WeightIsNonNegative(b.c);
    var w := C2W(a.c) + C2W(b.c);
    WeightRoundTrip(0.0, w);
    assert W2C(MAX_WEIGHT) == MAX_CONFIDENCE;
    assert C2W(MAX_CONFIDENCE) == MAX_WEIGHT;
    SquashIsMonotone(w, MAX_WEIGHT);
  }

  /** A tree of revisions over pieces of evidence. */
  datatype Pool = Piece(truth: Truth) | Joined(left: Pool, right: Pool)

  predicate PiecesInUnit(p: Pool) {
    match p
    case Piece(t) => InUnit(t)
    case Joined(l, r) => PiecesInUnit(l) && PiecesInUnit(r)
  }

  function Pooled(p: Pool): (t: Truth)
    requires PiecesInUnit(p)
    ensures InUnit(t)
  {
    match p
    case Piece(t) => t
    case Joined(l, r) =>
      ReviseStaysInUnit(Pooled(l), Pooled(r));
      Revise(Pooled(l), Pooled(r))
  }

  function Weight(p: Pool): (w: real)
    requires PiecesInUnit(p)
    ensures w >= 0.0
  {
    match p
    case Piece(t) =>
      WeightIsNonNegative(t.c);
      C2W(t.c)
    case Joined(l, r) => Weight(l) + Weight(r)
  }

  /** The positive evidence: each weight counted with its frequency. */
  function Positive(p: Pool): real
    requires PiecesInUnit(p)
  {
    match p
    case Piece(t) => Times(t.f, C2W(t.c))
    case Joined(l, r) => Positive(l) + Positive(r)
  }

  /**
   * Whatever the shape of the tree, the pooled confidence depends only on the total weight, even
   * where caps are reached inside: revision is associative in confidence, for all inputs.
   */
  lemma {:induction false} PooledConfidence(p: Pool)
    requires PiecesInUnit(p) && p.Joined?
    ensures C2W(Pooled(p).c) == Min(Weight(p), MAX_WEIGHT)
    ensures Pooled(p).c == W2C(Min(Weight(p), MAX_WEIGHT))
  {
    var l, r := p.left, p.right;
    if l.Joined? {
      PooledConfidence(l);
    }
    if r.Joined? {
      PooledConfidence(r);
    }
    RevisedWeight(Pooled(l), Pooled(r));
    ReviseStaysInUnit(Pooled(l), Pooled(r));
    WeightRoundTrip(Pooled(p).c, 0.0);
  }

  /** No revision strictly inside the tree reaches the cap. */
  predicate Uncapped(p: Pool)
    requires PiecesInUnit(p)
  {
    p.Joined? ==> BelowCap(p.left) && BelowCap(p.right)
  }

  predicate BelowCap(p: Pool)
    requires PiecesInUnit(p)
  {
    p.Joined? ==> Weight(p) <= MAX_WEIGHT && BelowCap(p.left) && BelowCap(p.right)
  }

  /**
   * While no inner revision reaches the cap, the pooled frequency is the positive share of all
   * evidence: the order and the bracketing of the pieces do not matter.
   */
  lemma PooledFrequency(p: Pool)
    requires PiecesInUnit(p) && p.Joined? && Uncapped(p)
    ensures Pooled(p).f == SafeRatio(Positive(p), Weight(p))
  {
    EvidenceKept(p.left);
    EvidenceKept(p.right);
    MeanOfKept(Pooled(p.left).f, Pooled(p.right).f, Weight(p.left), Weight(p.right), Positive(p.left),
               Positive(p.right));
  }

  lemma MeanOfKept(x: real, y: real, w1: real, w2: real, p1: real, p2: real)
    requires Times(x, w1) == p1 && Times(y, w2) == p2
    ensures Mean(x, y, w1, w2) == SafeRatio(p1 + p2, w1 + w2)
  {
  }

  /** Below the cap a pooled truth carries exactly the evidence that went into it. */
  lemma {:induction false} EvidenceKept(p: Pool)
    requires PiecesInUnit(p) && BelowCap(p)
    ensures C2W(Pooled(p).c) == Weight(p)
    ensures Times(Pooled(p).f, Weight(p)) == Positive(p)
  {
    if p.Joined? {
      EvidenceKept(p.left);
      EvidenceKept(p.right);
      MeanOfKept(Pooled(p.left).f, Pooled(p.right).f, Weight(p.left), Weight(p.right), Positive(p.left),
                 Positive(p.right));
      PooledConfidence(p);
      if Weight(p) == 0.0 {
        NoWeightNoEvidence(p);
      }
      RatioTimes(Positive(p), Weight(p));
    }
  }

  lemma RatioTimes(n: real, d: real)
    requires d > 0.0 || (d == 0.0 && n == 0.0)
    ensures Times(SafeRatio(n, d), d) == n
  {
  }

  lemma {:induction false} NoWeightNoEvidence(p: Pool)
    requires PiecesInUnit(p) && Weight(p) == 0.0
    ensures Positive(p) == 0.0
  {
    if p.Joined? {
      NoWeightNoEvidence(p.left);
      NoWeightNoEvidence(p.right);
    }
  }

  function Pieces(p: Pool): seq<Truth> {
    match p
    case Piece(t) => [t]
    case Joined(l, r) => Pieces(l) + Pieces(r)
  }

  /** The total weight of some pieces, or their positive evidence. */
  function Sum(s: seq<Truth>, positive: bool): real {
    if s == [] then 0.0
    else (if positive then Times(s[0].f, C2W(s[0].c)) else C2W(s[0].c)) + Sum(s[1..], positive)
  }

  lemma {:induction false} SumConcat(s: seq<Truth>, t: seq<Truth>, positive: bool)
    ensures Sum(s + t, positive) == Sum(s, positive) + Sum(t, positive)
  {
    if s == [] {
      assert s + t == t;
    } else {
      assert (s + t)[1..] == s[1..] + t;
      SumConcat(s[1..], t, positive);
    }
  }

  lemma SumWithout(s: seq<Truth>, i: nat, positive: bool)
    requires i < |s|
    ensures Sum(s, positive) == Sum([s[i]], positive) + Sum(Without(s, i), positive)
  {
    assert s == s[..i] + ([s[i]] + s[i + 1..]);
    SumConcat(s[..i], [s[i]] + s[i + 1..], positive);
    SumConcat([s[i]], s[i + 1..], positive);
    SumConcat(s[..i], s[i + 1..], positive);
  }

  lemma {:induction false} SumPermutes(s: seq<Truth>, t: seq<Truth>, positive: bool)
    requires multiset(s) == multiset(t)
    ensures Sum(s, positive) == Sum(t, positive)
  {
    if s != [] {
      assert s[0] in multiset(t);
      var i :| 0 <= i < |t| && t[i] == s[0];
      WithoutCounts(s, 0);
      WithoutCounts(t, i);
      assert Without(s, 0) == s[1..];
      SumPermutes(s[1..], Without(t, i), positive);
      SumWithout(t, i, positive);
    } else {
      assert |multiset(t)| == 0;
    }
  }

  lemma {:induction false} PoolSums(p: Pool)
    requires PiecesInUnit(p)
    ensures Weight(p) == Sum(Pieces(p), false) && Positive(p) == Sum(Pieces(p), true)
  {
    if p.Joined? {
      PoolSums(p.left);
      PoolSums(p.right);
      SumConcat(Pieces(p.left), Pieces(p.right), false);
      SumConcat(Pieces(p.left), Pieces(p.right), true);
    }
  }

  /**
   * Revision is commutative and associative at once: two pools of the same pieces, in any order
   * and bracketing, agree in confidence always, and in frequency while no inner revision caps.
   */
  lemma PoolingIsOrderFree(p: Pool, q: Pool)
    requires PiecesInUnit(p) && PiecesInUnit(q) && p.Joined? && q.Joined?
    requires multiset(Pieces(p)) == multiset(Pieces(q))
    ensures Pooled(p).c == Pooled(q).c
    ensures Uncapped(p) && Uncapped(q) ==> Pooled(p) == Pooled(q)
  {
    PoolSums(p);
    PoolSums(q);
    SumPermutes(Pieces(p), Pieces(q), false);
    SumPermutes(Pieces(p), Pieces(q), true);
    PooledConfidence(p);
    PooledConfidence(q);
    if Uncapped(p) && Uncapped(q) {
      PooledFrequency(p);
      PooledFrequency(q);
    }
  }

  /**
   * Where exactly one bracketing caps inside, the two frequencies agree only when the third
   * piece adds nothing: it carries no weight, or says what the first two say together.
   */
  lemma AssociativeUnderOneCapIff(a: Truth, b: Truth, c: Truth)
    requires InUnit(a) && InUnit(b) && InUnit(c)
    requires C2W(a.c) + C2W(b.c) > MAX_WEIGHT >= C2W(b.c) + C2W(c.c)
    ensures InUnit(Revise(a, b)) && InUnit(Revise(b, c))
    ensures Revise(Revise(a, b), c).f == Revise(a, Revise(b, c)).f <==> c.c == 0.0 || Revise(a, b).f == c.f
  {
    RevisedWeight(a, b);
    RevisedWeight(b, c);
    WeightIsNonNegative(a.c);
    WeightIsNonNegative(b.c);
    WeightIsNonNegative(c.c);
    OneCapIff(a.f, b.f, c.f, C2W(a.c), C2W(b.c), C2W(c.c));
  }

  lemma MeanTimes(x: real, y: real, u: real, v: real)
    requires u >= 0.0 && v >= 0.0
    ensures Times(Mean(x, y, u, v), u + v) == Times(x, u) + Times(y, v)
  {
    if u + v > 0.0 {
      RatioTimes(Times(x, u) + Times(y, v), u + v);
    } else {
      assert u == 0.0 && v == 0.0;
      TimesOne(x);
      TimesOne(y);
      TimesOne(Mean(x, y, u, v));
    }
  }

  lemma MeanOfMean(x: real, y: real, z: real, u: real, v: real, w: real)
    requires u >= 0.0 && v >= 0.0 && w >= 0.0
    ensures Mean(x, Mean(y, z, v, w), u, v + w) == Mean(Mean(x, y, u, v), z, u + v, w)
  {
    MeanTimes(y, z, v, w);
    MeanTimes(x, y, u, v);
    assert u + (v + w) == (u + v) + w;
  }

  lemma OneCapIff(x: real, y: real, z: real, u: real, v: real, w: real)
    requires u >= 0.0 && v >= 0.0 && w >= 0.0 && u + v > MAX_WEIGHT
    ensures Mean(Mean(x, y, u, v), z, MAX_WEIGHT, w) == Mean(x, Mean(y, z, v, w), u, v + w)
            <==> w == 0.0 || Mean(x, y, u, v) == z
  {
    MeanOfMean(x, y, z, u, v, w);
    MeansAgreeIff(Mean(x, y, u, v), z, MAX_WEIGHT, u + v, w);
  }

  lemma MeansAgreeIff(x: real, y: real, u: real, v: real, w: real)
    requires 0.0 < u < v && 0.0 <= w
    ensures Mean(x, y, u, w) == Mean(x, y, v, w) <==> w == 0.0 || x == y
  {
    var p, q := Mean(x, y, u, w), Mean(x, y, v, w);
    MeanTimes(x, y, u, w);
    MeanTimes(x, y, v, w);
    PulledBy(x, y, u, w, p);
    PulledBy(x, y, v, w, q);
    PullsAgreeIff(p - x, q - x, y - x, u, v, w);
  }

  /** How far a mean is pulled from `x`, in terms of how far `y` is. */
  lemma PulledBy(x: real, y: real, u: real, w: real, m: real)
    requires Times(m, u + w) == Times(x, u) + Times(y, w)
    ensures Times(m - x, u + w) == Times(y - x, w)
  {
  }

  lemma PullsAgreeIff(d: real, e: real, z: real, u: real, v: real, w: real)
    requires 0.0 < u < v && 0.0 <= w && Times(d, u + w) == Times(z, w) == Times(e, v + w)
    ensures d == e <==> w == 0.0 || z == 0.0
  {
    if d == e {
      Distributes(d, u + w, v - u);
      assert u + w + (v - u) == v + w;
      ZeroProduct(d, v - u);
      assert Times(z, w) == 0.0;
      if w > 0.0 {
        ZeroProduct(z, w);
      }
    }
    if w == 0.0 || z == 0.0 {
      assert Times(z, w) == 0.0;
      ZeroProduct(d, u + w);
      ZeroProduct(e, v + w);
    }
  }

  lemma ZeroProduct(x: real, k: real)
    requires Times(x, k) == 0.0 && k > 0.0
    ensures x == 0.0
  {
  }

  /** How strongly the outer piece of weight `u` pulls, once both inner revisions are capped. */
  function CappedPull(u: real, v: real, w: real): real {
    u * (v + w) * (MAX_WEIGHT * v + w * (u + v) - MAX_WEIGHT * MAX_WEIGHT)
  }

  function CappedSum(x: real, z: real, u: real, v: real, w: real): real {
    Times(MAX_WEIGHT * u, x) + Times(w * (u + v), z)
  }

  /** A capped bracketing, measured from the middle piece and cleared of its denominators. */
  lemma CappedBracket(x: real, y: real, z: real, u: real, v: real, w: real)
    requires u >= 0.0 && v >= 0.0 && w >= 0.0 && u + v > 0.0
    ensures var l := Mean(Mean(x, y, u, v), z, MAX_WEIGHT, w);
            Times(l - y, Times(MAX_WEIGHT + w, u + v)) == CappedSum(x - y, z - y, u, v, w)
  {
    var m := Mean(x, y, u, v);
    var l := Mean(m, z, MAX_WEIGHT, w);
    MeanTimes(x, y, u, v);
    MeanTimes(m, z, MAX_WEIGHT, w);
    ClearDenominators(x, y, z, u, v, w, m, l);
  }

  lemma ClearDenominators(x: real, y: real, z: real, u: real, v: real, w: real, m: real, l: real)
    requires Times(m, u + v) == Times(x, u) + Times(y, v)
    requires Times(l, MAX_WEIGHT + w) == Times(m, MAX_WEIGHT) + Times(z, w)
    ensures Times(l - y, Times(MAX_WEIGHT + w, u + v)) == CappedSum(x - y, z - y, u, v, w)
  {
    assert (m - y) * (u + v) == (x - y) * u;
    assert (l - y) * (MAX_WEIGHT + w) == (m - y) * MAX_WEIGHT + (z - y) * w;
    assert (l - y) * (MAX_WEIGHT + w) * (u + v) == ((m - y) * MAX_WEIGHT + (z - y) * w) * (u + v);
    assert (m - y) * MAX_WEIGHT * (u + v) == MAX_WEIGHT * ((x - y) * u);
  }

  lemma CrossIff(l: real, r: real, a: real, b: real, m: real, n: real)
    requires a > 0.0 && b > 0.0 && Times(l, a) == m && Times(r, b) == n
    ensures l == r <==> Times(m, b) == Times(n, a)
  {
    NonNegative(a, b);
    assert Times(m, b) == Times(l, Times(a, b)) && Times(n, a) == Times(r, Times(a, b));
    if Times(m, b) == Times(n, a) {
      BySign(l, r, Times(a, b));
      BySign(r, l, Times(a, b));
    }
  }

  lemma PullsCancel(x: real, z: real, u: real, v: real, w: real)
    ensures Times(CappedSum(x, z, u, v, w), Times(MAX_WEIGHT + u, w + v))
          - Times(CappedSum(z, x, w, v, u), Times(MAX_WEIGHT + w, u + v))
         == Times(CappedPull(w, v, u), z) - Times(CappedPull(u, v, w), x)
  {
    PullIsCoefficient(u, v, w);
    PullIsCoefficient(w, v, u);
    CollectTerms(x, z, MAX_WEIGHT * u, w * (u + v), MAX_WEIGHT * w, u * (w + v),
                 Times(MAX_WEIGHT + w, u + v), Times(MAX_WEIGHT + u, w + v));
  }

  lemma PullIsCoefficient(u: real, v: real, w: real)
    ensures Times(u * (w + v), Times(MAX_WEIGHT + w, u + v)) - Times(MAX_WEIGHT * u, Times(MAX_WEIGHT + u, w + v))
         == CappedPull(u, v, w)
  {
    var k := u * (w + v);
    assert Times(k, (MAX_WEIGHT + w) * (u + v) - MAX_WEIGHT * (MAX_WEIGHT + u))
        == k * (MAX_WEIGHT * v + w * (u + v) - MAX_WEIGHT * MAX_WEIGHT);
  }

  lemma CollectTerms(x: real, z: real, p: real, q: real, r: real, s: real, a: real, b: real)
    ensures Times(Times(p, x) + Times(q, z), b) - Times(Times(r, z) + Times(s, x), a)
         == Times(Times(q, b) - Times(r, a), z) - Times(Times(s, a) - Times(p, b), x)
  {
  }

  lemma BothCapIff(x: real, y: real, z: real, u: real, v: real, w: real)
    requires u >= 0.0 && v >= 0.0 && w >= 0.0 && u + v > 0.0 && v + w > 0.0
    ensures Mean(Mean(x, y, u, v), z, MAX_WEIGHT, w) == Mean(x, Mean(y, z, v, w), u, MAX_WEIGHT)
       <==> Times(CappedPull(u, v, w), x - y) == Times(CappedPull(w, v, u), z - y)
  {
    CappedBracket(x, y, z, u, v, w);
    CappedBracket(z, y, x, w, v, u);
    MeanCommutes(z, y, w, v);
    MeanCommutes(Mean(z, y, w, v), x, MAX_WEIGHT, u);
    NonNegative(MAX_WEIGHT + w, u + v);
    NonNegative(MAX_WEIGHT + u, w + v);
    var l, r := Mean(Mean(x, y, u, v), z, MAX_WEIGHT, w), Mean(x, Mean(y, z, v, w), u, MAX_WEIGHT);
    CrossIff(l - y, r - y, Times(MAX_WEIGHT + w, u + v), Times(MAX_WEIGHT + u, w + v),
             CappedSum(x - y, z - y, u, v, w), CappedSum(z - y, x - y, w, v, u));
    PullsCancel(x - y, z - y, u, v, w);
  }

  lemma MeanCommutes(x: real, y: real, u: real, v: real)
    ensures Mean(x, y, u, v) == Mean(y, x, v, u)
  {
  }

  /**
   * The condition for revising three pieces to be associative: no inner cap; one inner cap and an
   * outer piece that adds nothing to the capped two; or two inner caps and outer pieces that pull
   * the middle one alike.
   */
  predicate Associates(a: Truth, b: Truth, c: Truth)
    requires InUnit(a) && InUnit(b) && InUnit(c)
  {
    var (u, v, w) := (C2W(a.c), C2W(b.c), C2W(c.c));
    if u + v <= MAX_WEIGHT then
      v + w <= MAX_WEIGHT || a.c == 0.0 || a.f == Revise(b, c).f
    else if v + w <= MAX_WEIGHT then
      c.c == 0.0 || Revise(a, b).f == c.f
    else
      Times(CappedPull(u, v, w), a.f - b.f) == Times(CappedPull(w, v, u), c.f - b.f)
  }

  /** Revision of three truths is associative exactly under this condition, caps or no caps. */
  lemma RevisionAssociatesIff(a: Truth, b: Truth, c: Truth)
    requires InUnit(a) && InUnit(b) && InUnit(c)
    ensures InUnit(Revise(a, b)) && InUnit(Revise(b, c))
    ensures Revise(Revise(a, b), c).c == Revise(a, Revise(b, c)).c
    ensures Revise(Revise(a, b), c) == Revise(a, Revise(b, c)) <==> Associates(a, b, c)
  {
    RevisedWeight(a, b);
    RevisedWeight(b, c);
    BracketConfidence(a, b, c);
    WeightIsNonNegative(a.c);
    WeightIsNonNegative(b.c);
    WeightIsNonNegative(c.c);
    var (u, v, w) := (C2W(a.c), C2W(b.c), C2W(c.c));
    BracketsAgreeIff(a.f, b.f, c.f, u, v, w);
  }

  lemma BracketConfidence(a: Truth, b: Truth, c: Truth)
    requires InUnit(a) && InUnit(b) && InUnit(c)
    ensures InUnit(Revise(a, b)) && InUnit(Revise(b, c))
    ensures Revise(Revise(a, b), c).c == Revise(a, Revise(b, c)).c
  {
    RevisedWeight(a, b);
    RevisedWeight(b, c);
    RevisedWeight(Revise(a, b), c);
    RevisedWeight(a, Revise(b, c));
    WeightIsNonNegative(a.c);
    WeightIsNonNegative(c.c);
    SameWeightSameConfidence(Revise(Revise(a, b), c).c, Revise(a, Revise(b, c)).c);
  }

  lemma SameWeightSameConfidence(c: real, d: real)
    requires 0.0 <= c < 1.0 && 0.0 <= d < 1.0 && C2W(c) == C2W(d)
    ensures c == d
  {
    WeightRoundTrip(c, 0.0);
    WeightRoundTrip(d, 0.0);
  }

  /** The same on frequencies and weights. */
  lemma BracketsAgreeIff(x: real, y: real, z: real, u: real, v: real, w: real)
    requires u >= 0.0 && v >= 0.0 && w >= 0.0
    ensures Mean(Mean(x, y, u, v), z, Min(u + v, MAX_WEIGHT), w) == Mean(x, Mean(y, z, v, w), u, Min(v + w, MAX_WEIGHT))
       <==> if u + v <= MAX_WEIGHT then v + w <= MAX_WEIGHT || u == 0.0 || x == Mean(y, z, v, w)
            else if v + w <= MAX_WEIGHT then w == 0.0 || Mean(x, y, u, v) == z
            else Times(CappedPull(u, v, w), x - y) == Times(CappedPull(w, v, u), z - y)
  {
    if u + v <= MAX_WEIGHT && v + w <= MAX_WEIGHT {
      MeanOfMean(x, y, z, u, v, w);
    } else if v + w <= MAX_WEIGHT {
      OneCapIff(x, y, z, u, v, w);
    } else if u + v <= MAX_WEIGHT {
      MirroredCapIff(x, y, z, u, v, w);
    } else {
      BothCapIff(x, y, z, u, v, w);
    }
  }

  lemma MirroredCapIff(x: real, y: real, z: real, u: real, v: real, w: real)
    requires u >= 0.0 && v >= 0.0 && w >= 0.0 && v + w > MAX_WEIGHT
    ensures Mean(Mean(x, y, u, v), z, u + v, w) == Mean(x, Mean(y, z, v, w), u, MAX_WEIGHT)
            <==> u == 0.0 || x == Mean(y, z, v, w)
  {
    OneCapIff(z, y, x, w, v, u);
    MeanCommutes(x, y, u, v);
    MeanCommutes(z, y, w, v);
    MeanCommutes(Mean(x, y, u, v), z, u + v, w);
    MeanCommutes(x, Mean(y, z, v, w), u, MAX_WEIGHT);
    assert v + u == u + v && w + v == v + w;
  }

  /** Three saturated truths associate exactly when the outer two say the same. */
  lemma SaturatedAssociatesIff(a: Truth, b: Truth, c: Truth)
    requires InUnit(a) && InUnit(b) && InUnit(c) && a.c == b.c == c.c == MAX_CONFIDENCE
    ensures InUnit(Revise(a, b)) && InUnit(Revise(b, c))
    ensures Revise(Revise(a, b), c) == Revise(a, Revise(b, c)) <==> a.f == c.f
  {
    RevisionAssociatesIff(a, b, c);
    assert C2W(MAX_CONFIDENCE) == MAX_WEIGHT;
    var k := CappedPull(MAX_WEIGHT, MAX_WEIGHT, MAX_WEIGHT);
    assert k > 0.0;
    if Times(k, a.f - b.f) == Times(k, c.f - b.f) {
      TimesCommutes(k, a.f - b.f);
      TimesCommutes(k, c.f - b.f);
      BySign(a.f - b.f, c.f - b.f, k);
      BySign(c.f - b.f, a.f - b.f, k);
    }
  }

  /** Three saturated opinions, two of them against: the bracketing decides the frequency. */
  lemma CapBreaksAssociativity()
    ensures var (yes, no) := (Truth(1.0, 0.999), Truth(0.0, 0.999));
            Revise(Revise(yes, no), no).f == 0.25 && Revise(yes, Revise(no, no)).f == 0.5
  {
    var (yes, no) := (Truth(1.0, 0.999), Truth(0.0, 0.999));
    RevisedWeight(yes, no);
    RevisedWeight(no, no);
    assert C2W(0.999) == 999.0;
  }
}
