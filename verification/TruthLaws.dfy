/**
 * What each entry of the truth table means: on certain yes and no it is a truth table in the plain
 * sense, between them it interpolates or follows odds, and its confidence is that of its premises
 * together, or less by just what the entry says.
 */
module TruthLaws {
  import opened Numbers
  import opened TruthAlgebra

  function Crisp(yes: bool): real {
    if yes then 1.0 else 0.0
  }

  /** The entries as connectives. */
  predicate Connective(op: BinaryOp, x: bool, y: bool) {
    match op
    case Deduction | Exemplification | Analogy | Intersection | Comparison => x && y
    case Induction | Detachment => y
    case Abduction => x
    case Union => x || y
    case Contraposition => !x && y
    case Sameness => x == y
    case Resemblance | Revision => x
  }

  /** On plain yes and no every entry is its connective; resemblance goes halfway, revision weighs. */
  lemma CrispEntries(op: BinaryOp, x: bool, y: bool)
    requires op != Revision
    ensures FrequencyEntry(op, Crisp(x), Crisp(y))
         == if op == Resemblance && x != y then 0.5 else Crisp(Connective(op, x, y))
  {
    CrispAgreement(x, y);
    CrispAgreement(y, !x);
  }

  lemma CrispAgreement(x: bool, y: bool)
    ensures Agreement(Crisp(x), Crisp(y)) == Crisp(x && y)
  {
  }

  /** The entries whose frequency is linear in each premise's frequency. */
  predicate Interpolates(op: BinaryOp) {
    op in {Deduction, Induction, Abduction, Exemplification, Analogy, Resemblance, Intersection, Union, Detachment}
  }

  /** Between yes and no these entries interpolate, in either premise; with the crisp values that fixes them. */
  lemma FrequencyInterpolates(op: BinaryOp, x: real, y: real)
    requires Interpolates(op) && 0.0 <= x <= 1.0 && 0.0 <= y <= 1.0
    ensures Between(x, FrequencyEntry(op, 0.0, y), FrequencyEntry(op, 1.0, y), FrequencyEntry(op, x, y))
    ensures Between(y, FrequencyEntry(op, x, 0.0), FrequencyEntry(op, x, 1.0), FrequencyEntry(op, x, y))
  {
    if op == Union {
      UnionInterpolates(x, y);
    } else {
      TimesCommutes(x, y);
    }
  }

  lemma UnionInterpolates(x: real, y: real)
    requires 0.0 <= x <= 1.0 && 0.0 <= y <= 1.0
    ensures Between(x, FrequencyEntry(Union, 0.0, y), FrequencyEntry(Union, 1.0, y), FrequencyEntry(Union, x, y))
    ensures Between(y, FrequencyEntry(Union, x, 0.0), FrequencyEntry(Union, x, 1.0), FrequencyEntry(Union, x, y))
  {
    assert (1.0 - x) * (1.0 - y) == 1.0 - x - y + x * y;
    assert FrequencyEntry(Union, x, y) == x + y - x * y;
    assert x * (1.0 - y) == x - x * y && y * (1.0 - x) == y - x * y;
  }

  /** `v` lies between `no` and `yes` as far as `x` goes. */
  predicate Between(x: real, no: real, yes: real, v: real) {
    v - no == Times(x, yes - no)
  }

  lemma InBetween(x: real, no: real, yes: real, v: real)
    requires no == 0.0 && v == Times(x, yes)
    ensures Between(x, no, yes, v)
  {
  }

  /** Comparison gives the odds of both yes against both no; without either it answers no. */
  lemma ComparisonIsOdds(a: Truth, b: Truth)
    requires InUnit(a) && InUnit(b)
    ensures var (f, yes, no) := (Binary(Comparison, a, b).f, Times(a.f, b.f), Times(1.0 - a.f, 1.0 - b.f));
            if yes + no == 0.0 then f == 0.0 else Times(f, yes + no) == yes
  {
    var (yes, no) := (Times(a.f, b.f), Times(1.0 - a.f, 1.0 - b.f));
    NonNegative(a.f, b.f);
    NonNegative(1.0 - a.f, 1.0 - b.f);
    RatioTimes(yes, yes + no);
  }

  /** Sameness falls by just the distance. */
  lemma SamenessIsDistance(a: Truth, b: Truth)
    requires InUnit(a) && InUnit(b)
    ensures var away := 1.0 - Binary(Sameness, a, b).f; away >= 0.0 && (a.f == b.f + away || b.f == a.f + away)
  {
  }

  // ---- Confidence --------------------------------------------------------------------------------

  /** Seven entries are just as confident as their premises are together. */
  lemma JointEntries(op: BinaryOp, a: Truth, b: Truth)
    requires InUnit(a) && InUnit(b)
    requires op in {Deduction, Comparison, Resemblance, Intersection, Union, Contraposition, Sameness}
    ensures Binary(op, a, b).c == a.c * b.c
  {
  }

  /** Two more lose in proportion to a doubtful condition. */
  lemma ConditionalEntries(a: Truth, b: Truth)
    requires InUnit(a) && InUnit(b)
    ensures Binary(Analogy, a, b).c == Times(Times(a.c, b.c), b.f)
    ensures Binary(Detachment, a, b).c == Times(Times(a.c, b.c), a.f)
  {
    Regroup(a.f, a.c, b.c);
  }

  lemma Regroup(x: real, y: real, z: real)
    ensures Times(Times(x, y), z) == Times(Times(y, z), x)
  {
    assert x * y * z == y * z * x;
  }

  /** The inductive entries make the joint confidence, as far as the condition holds, their weight. */
  lemma InductiveEntries(a: Truth, b: Truth)
    requires InUnit(a) && InUnit(b)
    ensures C2W(Binary(Induction, a, b).c) == Times(Times(a.c, b.c), b.f)
    ensures C2W(Binary(Abduction, a, b).c) == Times(Times(a.c, b.c), a.f)
  {
    Times3Bounds(a.f, a.c, b.c);
    Times3Bounds(b.f, a.c, b.c);
    Regroup(a.f, a.c, b.c);
    Regroup(b.f, a.c, b.c);
    WeightRoundTrip(0.0, Times(Times(b.f, a.c), b.c));
    WeightRoundTrip(0.0, Times(Times(a.f, a.c), b.c));
  }

  /** Exemplification is the weakest: what both frequencies leave of the joint confidence, squashed once more. */
  lemma ExemplificationEntry(a: Truth, b: Truth)
    requires InUnit(a) && InUnit(b)
    ensures (a.c + 1.0) * Binary(Exemplification, a, b).c == a.c * (Binary(Analogy, a, b).c * a.f)
  {
    var q := SoftSquash(a.c);
    assert q * (a.c + 1.0) == a.c;
    assert Binary(Exemplification, a, b).c == q * a.c * b.c * a.f * b.f;
    assert (a.c + 1.0) * (q * a.c * b.c * a.f * b.f) == (q * (a.c + 1.0)) * (a.c * b.c * b.f * a.f);
  }

  /** The unary entries: three names for negation, and conversion, which trusts a claim as far as it is true. */
  lemma UnaryEntries(a: Truth)
    ensures Unary(Negation, a).f + a.f == 1.0 && Unary(Negation, a).c == a.c
    ensures Unary(NegationIntro, a) == Unary(NegationElim, a) == Unary(Negation, a)
    ensures Unary(Conversion, a).f == a.f && Unary(Conversion, a).c == a.f * a.c
  {
  }

  /** Revision pools the evidence: the weights add up, and each frequency counts by its weight. */
  lemma RevisionPools(a: Truth, b: Truth)
    requires InUnit(a) && InUnit(b) && C2W(a.c) + C2W(b.c) > 0.0
    ensures var r := Binary(Revision, a, b);
            && r.f * (C2W(a.c) + C2W(b.c)) == a.f * C2W(a.c) + b.f * C2W(b.c)
            && (C2W(a.c) + C2W(b.c) <= 999.0 ==> C2W(r.c) == C2W(a.c) + C2W(b.c))
            && (C2W(a.c) + C2W(b.c) >= 999.0 ==> r.c == 0.999)
  {
    var (u, v) := (C2W(a.c), C2W(b.c));
    RevisedWeight(a, b);
    assert Times(a.f, u) == a.f * u && Times(b.f, v) == b.f * v;
    var num := a.f * u + b.f * v;
    assert num / (u + v) * (u + v) == num;
    WeightRoundTrip(0.0, u + v);
    WeightRoundTrip(0.0, 999.0);
    SquashIsMonotone(999.0, u + v);
    assert W2C(999.0) == 0.999;
  }
}
