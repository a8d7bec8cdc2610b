/**
 * The derivation verifier (core/src/verify-derivation.ts): one pass over a record's steps with a
 * growing set of seen ids, proved to accept exactly what a loop-free predicate describes.
 */
module DerivationVerifier {
  import opened Numbers
  import opened Options
  import opened TruthAlgebra

  datatype Independence = Independent | Dependent | Unknown

  datatype Step = Step(
    stepId: string,
    ruleId: string,
    premises: seq<string>,
    conclusion: string,
    truth: Truth,
    truthFn: Option<string>,
    substitution: seq<(string, string)>,
    premiseTruths: Option<seq<Truth>>,
    evidenceLineage: seq<string>,
    independence: Independence)

  datatype Record = Record(taskId: string, steps: seq<Step>, finalTruth: Truth, totalCycles: int)

  datatype Check =
    | RuleShape | PremiseShape | ConclusionShape
    | SubstitutionValue | SubstitutionPremise | SubstitutionConclusion
    | LineageDag | EvidenceIndependence | UnknownRule | TruthMismatch
    | RecordShape | UniqueStepId | FinalTruth | EmptyDerivation

  /** A defect: the check that caught it, and what it is about. */
  datatype Finding = Finding(stepId: Option<string>, check: Check, subject: string)

  datatype VerifyOptions = VerifyOptions(strict: bool, epsilon: real, maxSteps: Option<int>)

  datatype StepResult = StepResult(stepId: string, ok: bool, findings: seq<Finding>, computed: Option<Truth>)

  datatype Result = Result(ok: bool, findings: seq<Finding>, stepResults: seq<StepResult>, verified: nat, skipped: nat)

  class ProofState {
    var verified: nat
    var skipped: nat

    constructor ()
      ensures verified == skipped == 0
    {
      verified, skipped := 0, 0;
    }
  }

  // ---- Strings ------------------------------------------------------------------------------

  /** What trimming removes. */
  predicate IsSpace(c: char) {
    || '\t' <= c <= '\r' || c == ' ' || c == '\U{00A0}' || c == '\U{1680}' || '\U{2000}' <= c <= '\U{200A}'
    || c == '\U{2028}' || c == '\U{2029}' || c == '\U{202F}' || c == '\U{205F}' || c == '\U{3000}' || c == '\U{FEFF}'
  }

  predicate Blank(s: string) {
    forall c :: c in s ==> IsSpace(c)
  }

  predicate OccursAt(s: string, sub: string, i: nat) {
    i + |sub| <= |s| && s[i..i + |sub|] == sub
  }

  predicate Contains(s: string, sub: string) {
    exists i :: 0 <= i <= |s| && OccursAt(s, sub, i)
  }

  function LowerCase(s: string): string {
    seq(|s|, i requires 0 <= i < |s| => if 'A' <= s[i] <= 'Z' then s[i] - 'A' + 'a' else s[i])
  }

  function Dashed(s: string): string {
    seq(|s|, i requires 0 <= i < |s| => if s[i] == '_' then '-' else s[i])
  }

  // ---- Which truth function a step was derived with ---------------------------------------------

  datatype TruthFn = OfTwo(bop: BinaryOp) | OfOne(uop: UnaryOp)

  /** The table's keys in the order in which they are scanned: all binary ones first. */
  const TABLE: seq<(string, TruthFn)> := [
    ("deduction", OfTwo(Deduction)), ("induction", OfTwo(Induction)), ("abduction", OfTwo(Abduction)),
    ("exemplification", OfTwo(Exemplification)), ("comparison", OfTwo(Comparison)), ("analogy", OfTwo(Analogy)),
    ("resemblance", OfTwo(Resemblance)), ("intersection", OfTwo(Intersection)), ("union", OfTwo(Union)),
    ("revision", OfTwo(Revision)), ("detachment", OfTwo(Detachment)), ("contraposition", OfTwo(Contraposition)),
    ("sameness", OfTwo(Sameness)),
    ("negation-intro", OfOne(NegationIntro)), ("negation-elim", OfOne(NegationElim)),
    ("negation", OfOne(Negation)), ("conversion", OfOne(Conversion))]

  /** The first entry whose key is the name. */
  function Exact(table: seq<(string, TruthFn)>, name: string): Option<TruthFn> {
    if table == [] then None
    else if table[0].0 == name then Some(table[0].1)
    else Exact(table[1..], name)
  }

  /** The first entry whose key occurs in the rule id. */
  function BySubstring(table: seq<(string, TruthFn)>, key: string): Option<TruthFn> {
    if table == [] then None
    else if Contains(key, table[0].0) then Some(table[0].1)
    else BySubstring(table[1..], key)
  }

  function Declared(name: Option<string>): Option<TruthFn> {
    if name.None? || name.value == "" then None else Exact(TABLE, name.value)
  }

  /** The declared operation, or a guess from the rule id: an exact key, else a contained one. */
  function Resolve(ruleId: string, declared: Option<string>): Option<TruthFn> {
    var key := Dashed(LowerCase(ruleId));
    if Declared(declared).Some? then Declared(declared)
    else if Declared(Some(key)).Some? then Declared(Some(key))
    else BySubstring(TABLE, key)
  }

  function Arity(fn: TruthFn): nat {
    if fn.OfTwo? then 2 else 1
  }

  // ---- What a sound step is -----------------------------------------------------------------

  predicate Close(a: Truth, b: Truth, epsilon: real) {
    Abs(a.f - b.f) <= epsilon && Abs(a.c - b.c) <= epsilon
  }

  predicate TruthsInUnit(s: Step) {
    InUnit(s.truth) && (s.premiseTruths.Some? ==> forall t :: t in s.premiseTruths.value ==> InUnit(t))
  }

  /** The table can judge the step: its rule is known and there is a truth for every operand. */
  predicate Judgeable(s: Step) {
    var fn := Resolve(s.ruleId, s.truthFn);
    fn.Some? && s.premiseTruths.Some? && |s.premiseTruths.value| == Arity(fn.value)
  }

  function Recomputed(s: Step): Truth
    requires TruthsInUnit(s) && Judgeable(s)
  {
    var ts := s.premiseTruths.value;
    match Resolve(s.ruleId, s.truthFn).value
    case OfTwo(op) => Binary(op, ts[0], ts[1])
    case OfOne(op) => Unary(op, ts[0])
  }

  predicate Matches(s: Step, epsilon: real)
    requires TruthsInUnit(s)
  {
    Judgeable(s) && Close(Recomputed(s), s.truth, epsilon)
  }

  predicate Mentioned(s: Step, v: string) {
    exists p :: p in s.premises && Contains(p, v)
  }

  /** The ways a variable binding can be wrong; at most one of them holds. */
  predicate BindingViolates(s: Step, b: (string, string), check: Check) {
    match check
    case SubstitutionValue => Blank(b.1)
    case SubstitutionPremise => !Blank(b.1) && !Mentioned(s, b.0)
    case SubstitutionConclusion =>
      !Blank(b.1) && Mentioned(s, b.0) && !Contains(s.conclusion, b.0) && !Contains(s.conclusion, b.1)
    case _ => false
  }

  /** The ways a step can be wrong, each on its own. */
  predicate Violates(s: Step, prior: set<string>, taskId: string, options: VerifyOptions, check: Check)
    requires TruthsInUnit(s)
  {
    match check
    case RuleShape => Blank(s.ruleId)
    case PremiseShape => s.premises == [] || exists p :: p in s.premises && Blank(p)
    case ConclusionShape => Blank(s.conclusion)
    case SubstitutionValue | SubstitutionPremise | SubstitutionConclusion =>
      exists b :: b in s.substitution && BindingViolates(s, b, check)
    case LineageDag => exists parent :: parent in s.evidenceLineage && parent !in prior && parent != taskId
    case EvidenceIndependence => s.independence.Unknown? && Contains(LowerCase(s.ruleId), "revision")
    case UnknownRule => options.strict && Resolve(s.ruleId, s.truthFn).None?
    case TruthMismatch => Judgeable(s) && !Matches(s, options.epsilon)
    case _ => false
  }

  ghost predicate StepSound(s: Step, prior: set<string>, taskId: string, options: VerifyOptions)
    requires TruthsInUnit(s)
  {
    forall check :: !Violates(s, prior, taskId, options, check)
  }

  ghost predicate Reported(fs: seq<Finding>, check: Check) {
    exists f :: f in fs && f.check == check
  }

  lemma ReportedConcat(a: seq<Finding>, b: seq<Finding>)
    ensures forall check :: Reported(a + b, check) <==> Reported(a, check) || Reported(b, check)
  {
    forall check | Reported(a, check) || Reported(b, check) ensures Reported(a + b, check) {
      var f :| (f in a || f in b) && f.check == check;
      assert f in a + b;
    }
  }

  lemma NothingReported(fs: seq<Finding>)
    ensures fs == [] <==> forall check :: !Reported(fs, check)
  {
    if fs != [] {
      assert Reported(fs, fs[0].check);
    }
  }

  // ---- Checking one step --------------------------------------------------------------------

  method CheckSubstitution(s: Step) returns (fs: seq<Finding>)
    ensures forall check :: Reported(fs, check) <==> exists b :: b in s.substitution && BindingViolates(s, b, check)
  {
    fs := [];
    for i := 0 to |s.substitution|
      invariant forall check ::
                  Reported(fs, check) <==> exists b :: b in s.substitution[..i] && BindingViolates(s, b, check)
    {
      var b := s.substitution[i];
      ghost var before := fs;
      var found: seq<Finding> := [];
      if Blank(b.1) {
        found := [Finding(Some(s.stepId), SubstitutionValue, b.0)];
      } else if !Mentioned(s, b.0) {
        found := [Finding(Some(s.stepId), SubstitutionPremise, b.0)];
      } else if !Contains(s.conclusion, b.0) && !Contains(s.conclusion, b.1) {
        found := [Finding(Some(s.stepId), SubstitutionConclusion, b.0)];
      }
      fs := fs + found;
      ReportedConcat(before, found);
      assert s.substitution[..i + 1] == s.substitution[..i] + [b];
      assert forall check :: Reported(found, check) <==> BindingViolates(s, b, check);
    }
    assert s.substitution[..|s.substitution|] == s.substitution;
  }

  method CheckLineage(s: Step, prior: set<string>, taskId: string) returns (fs: seq<Finding>)
    ensures Reported(fs, LineageDag)
            <==> exists parent :: parent in s.evidenceLineage && parent !in prior && parent != taskId
    ensures forall f :: f in fs ==> f.check == LineageDag
  {
    fs := [];
    for i := 0 to |s.evidenceLineage|
      invariant Reported(fs, LineageDag)
                <==> exists k :: 0 <= k < i && s.evidenceLineage[k] !in prior && s.evidenceLineage[k] != taskId
      invariant forall f :: f in fs ==> f.check == LineageDag
    {
      var parent := s.evidenceLineage[i];
      if parent !in prior && parent != taskId {
        var f := Finding(Some(s.stepId), LineageDag, parent);
        fs := fs + [f];
        assert f in fs;
      }
    }
  }

  method CheckShape(s: Step) returns (fs: seq<Finding>)
    ensures forall f :: f in fs ==> f.check in {RuleShape, PremiseShape, ConclusionShape}
    ensures Reported(fs, RuleShape) <==> Blank(s.ruleId)
    ensures Reported(fs, PremiseShape) <==> s.premises == [] || exists p :: p in s.premises && Blank(p)
    ensures Reported(fs, ConclusionShape) <==> Blank(s.conclusion)
  {
    var rule := if Blank(s.ruleId) then [Finding(Some(s.stepId), RuleShape, "")] else [];
    var none := if s.premises == [] then [Finding(Some(s.stepId), PremiseShape, "")] else [];
    var blank := if exists p :: p in s.premises && Blank(p) then [Finding(Some(s.stepId), PremiseShape, "")] else [];
    var end := if Blank(s.conclusion) then [Finding(Some(s.stepId), ConclusionShape, "")] else [];
    fs := rule + none + blank + end;
    ReportedConcat(rule, none);
    ReportedConcat(rule + none, blank);
    ReportedConcat(rule + none + blank, end);
    ReportsOnly(rule, RuleShape);
    ReportsOnly(none, PremiseShape);
    ReportsOnly(blank, PremiseShape);
    ReportsOnly(end, ConclusionShape);
  }

  lemma ReportsOnly(fs: seq<Finding>, check: Check)
    requires forall f :: f in fs ==> f.check == check
    ensures forall k :: Reported(fs, k) <==> k == check && fs != []
  {
    if fs != [] {
      assert fs[0] in fs;
    }
  }

  /** The truth part of a step, with its two counters. */
  method CheckTruth(s: Step, options: VerifyOptions, state: ProofState)
    returns (fs: seq<Finding>, computed: Option<Truth>)
    requires TruthsInUnit(s)
    modifies state
    ensures forall k :: Reported(fs, k) <==>
              || (k == UnknownRule && options.strict && Resolve(s.ruleId, s.truthFn).None?)
              || (k == TruthMismatch && Judgeable(s) && !Matches(s, options.epsilon))
    ensures state.verified == old(state.verified) + (if Matches(s, options.epsilon) then 1 else 0)
    ensures state.skipped == old(state.skipped) + (if Judgeable(s) then 0 else 1)
    ensures computed == if Judgeable(s) then Some(Recomputed(s)) else None
  {
    fs, computed := [], None;
    var resolved := Resolve(s.ruleId, s.truthFn);
    if resolved.None? {
      state.skipped := state.skipped + 1;
      if options.strict {
        fs := [Finding(Some(s.stepId), UnknownRule, s.ruleId)];
      }
      ReportsOnly(fs, UnknownRule);
    } else if s.premiseTruths.None? || |s.premiseTruths.value| != Arity(resolved.value) {
      state.skipped := state.skipped + 1;
    } else {
      var t := Recomputed(s);
      computed := Some(t);
      if Close(t, s.truth, options.epsilon) {
        state.verified := state.verified + 1;
      } else {
        fs := [Finding(Some(s.stepId), TruthMismatch, s.ruleId)];
      }
      ReportsOnly(fs, TruthMismatch);
    }
  }

  /** `verifyStep`: each defect is reported exactly when the step has it. */
  method VerifyStep(s: Step, prior: set<string>, taskId: string, options: VerifyOptions, state: ProofState)
    returns (result: StepResult)
    requires TruthsInUnit(s)
    modifies state
    ensures forall k :: Reported(result.findings, k) <==> Violates(s, prior, taskId, options, k)
    ensures result.ok == (result.findings == []) && (result.ok <==> StepSound(s, prior, taskId, options))
    ensures result.stepId == s.stepId && result.computed == if Judgeable(s) then Some(Recomputed(s)) else None
    ensures state.verified == old(state.verified) + (if Matches(s, options.epsilon) then 1 else 0)
    ensures state.skipped == old(state.skipped) + (if Judgeable(s) then 0 else 1)
  {
    var shape := CheckShape(s);
    var bindings := CheckSubstitution(s);
    var lineage := CheckLineage(s, prior, taskId);
    var evidence := if s.independence.Unknown? && Contains(LowerCase(s.ruleId), "revision")
      then [Finding(Some(s.stepId), EvidenceIndependence, "")] else [];
    var truths, computed := CheckTruth(s, options, state);
    var findings := shape + bindings + lineage + evidence + truths;
    ReportedConcat(shape, bindings);
    ReportedConcat(shape + bindings, lineage);
    ReportsOnly(evidence, EvidenceIndependence);
    ReportedConcat(shape + bindings + lineage, evidence);
    ReportedConcat(shape + bindings + lineage + evidence, truths);
    NothingReported(findings);
    assert forall k :: Reported(findings, k) <==>
      Reported(shape, k) || Reported(bindings, k) || Reported(lineage, k) || Reported(evidence, k) ||
      Reported(truths, k);
    PartsAreViolations(s, prior, taskId, options, shape, bindings, lineage, evidence, truths);
    result := StepResult(s.stepId, findings == [], findings, computed);
  }

  /** The parts of a step's findings together report what `Violates` lists, and nothing else. */
  lemma PartsAreViolations(s: Step, prior: set<string>, taskId: string, options: VerifyOptions,
                           shape: seq<Finding>, bindings: seq<Finding>, lineage: seq<Finding>, evidence: seq<Finding>,
                           truths: seq<Finding>)
    requires TruthsInUnit(s)
    requires forall f :: f in shape ==> f.check in {RuleShape, PremiseShape, ConclusionShape}
    requires Reported(shape, RuleShape) <==> Blank(s.ruleId)
    requires Reported(shape, PremiseShape) <==> s.premises == [] || exists p :: p in s.premises && Blank(p)
    requires Reported(shape, ConclusionShape) <==> Blank(s.conclusion)
    requires forall check ::
               Reported(bindings, check) <==> exists b :: b in s.substitution && BindingViolates(s, b, check)
    requires Reported(lineage, LineageDag)
             <==> exists parent :: parent in s.evidenceLineage && parent !in prior && parent != taskId
    requires forall f :: f in lineage ==> f.check == LineageDag
    requires forall k :: Reported(evidence, k) <==>
               k == EvidenceIndependence && s.independence.Unknown? && Contains(LowerCase(s.ruleId), "revision")
    requires forall k :: Reported(truths, k) <==>
               || (k == UnknownRule && options.strict && Resolve(s.ruleId, s.truthFn).None?)
               || (k == TruthMismatch && Judgeable(s) && !Matches(s, options.epsilon))
    ensures forall k :: Violates(s, prior, taskId, options, k) <==>
              Reported(shape, k) || Reported(bindings, k) || Reported(lineage, k) || Reported(evidence, k) ||
              Reported(truths, k)
  {
    forall k ensures Violates(s, prior, taskId, options, k) <==>
        Reported(shape, k) || Reported(bindings, k) || Reported(lineage, k) || Reported(evidence, k) ||
        Reported(truths, k)
    {
      match k
      case _ =>
    }
  }

  // ---- Checking a record --------------------------------------------------------------------

  predicate InUnitAll(v: seq<Step>) {
    forall s :: s in v ==> TruthsInUnit(s)
  }

  /** The part of the record's schema that the checks rely on. */
  predicate WellShaped(r: Record) {
    InUnit(r.finalTruth) && r.totalCycles >= 0 && InUnitAll(r.steps)
  }

  /** The steps that are looked at: no limit or a limit of 0 means all, a negative one counts from the end. */
  function Considered(steps: seq<Step>, maxSteps: Option<int>): (v: seq<Step>)
    ensures v <= steps
  {
    var n := maxSteps.GetOr(0);
    if n == 0 || n >= |steps| then steps
    else if n > 0 then steps[..n]
    else if |steps| + n > 0 then steps[..|steps| + n]
    else []
  }

  function IdsBefore(v: seq<Step>, n: nat): set<string>
    requires n <= |v|
  {
    set i | 0 <= i < n :: v[i].stepId
  }

  ghost predicate StepsSound(v: seq<Step>, taskId: string, options: VerifyOptions)
    requires InUnitAll(v)
  {
    forall i :: 0 <= i < |v| ==> v[i].stepId !in IdsBefore(v, i) && StepSound(v[i], IdsBefore(v, i), taskId, options)
  }

  predicate Concludes(v: seq<Step>, r: Record, epsilon: real) {
    if v == [] then r.totalCycles <= 0 else Close(v[|v| - 1].truth, r.finalTruth, epsilon)
  }

  /** What an acceptable record is, said without running anything. */
  ghost predicate Accepts(r: Record, options: VerifyOptions) {
    && WellShaped(r)
    && StepsSound(Considered(r.steps, options.maxSteps), r.taskId, options)
    && Concludes(Considered(r.steps, options.maxSteps), r, options.epsilon)
  }

  /** How many of the first `n` steps the table reproduced, could not judge, and contradicted. */
  function Verified(v: seq<Step>, n: nat, epsilon: real): nat
    requires n <= |v| && InUnitAll(v)
  {
    if n == 0 then 0 else Verified(v, n - 1, epsilon) + if Matches(v[n - 1], epsilon) then 1 else 0
  }

  function Skipped(v: seq<Step>, n: nat): nat
    requires n <= |v|
  {
    if n == 0 then 0 else Skipped(v, n - 1) + if Judgeable(v[n - 1]) then 0 else 1
  }

  function Contradicted(v: seq<Step>, n: nat, epsilon: real): nat
    requires n <= |v| && InUnitAll(v)
  {
    if n == 0 then 0
    else Contradicted(v, n - 1, epsilon) + if Judgeable(v[n - 1]) && !Matches(v[n - 1], epsilon) then 1 else 0
  }

  /** Every step is counted once: reproduced, skipped or contradicted. */
  lemma {:induction false} CountersAddUp(v: seq<Step>, n: nat, epsilon: real)
    requires n <= |v| && InUnitAll(v)
    ensures Verified(v, n, epsilon) + Skipped(v, n) + Contradicted(v, n, epsilon) == n
  {
    if n != 0 {
      CountersAddUp(v, n - 1, epsilon);
    }
  }

  method AllFindings(results: seq<StepResult>) returns (fs: seq<Finding>)
    ensures fs == [] <==> forall r :: r in results ==> r.findings == []
  {
    fs := [];
    for i := 0 to |results|
      invariant fs == [] <==> forall j :: 0 <= j < i ==> results[j].findings == []
    {
      fs := fs + results[i].findings;
    }
  }

  /**
   * `verifyRecord` is sound and complete: it accepts exactly the acceptable records, and its
   * counters account for every step it looked at.
   */
  method VerifyRecord(r: Record, options: VerifyOptions) returns (result: Result)
    ensures result.ok == (result.findings == []) && (result.ok <==> Accepts(r, options))
    ensures !WellShaped(r) ==> result == Result(false, [Finding(None, RecordShape, "")], [], 0, 0)
    ensures WellShaped(r) ==>
              var v := Considered(r.steps, options.maxSteps);
              && |result.stepResults| == |v|
              && (forall i :: 0 <= i < |v| ==>
                  (result.stepResults[i].ok <==> StepSound(v[i], IdsBefore(v, i), r.taskId, options)))
              && result.verified == Verified(v, |v|, options.epsilon) && result.skipped == Skipped(v, |v|)
              && result.verified + result.skipped + Contradicted(v, |v|, options.epsilon) == |v|
  {
    if !WellShaped(r) {
      return Result(false, [Finding(None, RecordShape, "")], [], 0, 0);
    }
    var v := Considered(r.steps, options.maxSteps);
    var results, unique, counters := VerifySteps(v, r.taskId, options);
    var findings := AllFindings(results);
    NoFindingsIff(v, r.taskId, options, results, unique);
    var end := if v == [] then (if r.totalCycles > 0 then [Finding(None, EmptyDerivation, "")] else [])
      else if !Close(v[|v| - 1].truth, r.finalTruth, options.epsilon) then [Finding(None, FinalTruth, "")] else [];
    CountersAddUp(v, |v|, options.epsilon);
    var all := unique + findings + end;
    assert all == [] <==> unique == [] && findings == [] && end == [];
    result := Result(all == [], all, results, counters.verified, counters.skipped);
  }

  /** A step result that tells the truth about step `i`. */
  ghost predicate Fits(result: StepResult, v: seq<Step>, i: nat, taskId: string, options: VerifyOptions)
    requires i < |v| && InUnitAll(v)
  {
    (result.ok <==> StepSound(v[i], IdsBefore(v, i), taskId, options)) && result.ok == (result.findings == [])
  }

  /** What the loop knows after `n` steps. */
  ghost predicate Scanned(v: seq<Step>, n: nat, taskId: string, options: VerifyOptions, results: seq<StepResult>,
                          unique: seq<Finding>)
    requires n <= |v| && InUnitAll(v)
  {
    && |results| == n
    && (forall i :: 0 <= i < n ==> Fits(results[i], v, i, taskId, options))
    && (unique == [] <==> forall i :: 0 <= i < n ==> v[i].stepId !in IdsBefore(v, i))
  }

  lemma ScannedStep(v: seq<Step>, n: nat, taskId: string, options: VerifyOptions,
                    results: seq<StepResult>, unique: seq<Finding>, result: StepResult, found: seq<Finding>)
    requires n < |v| && InUnitAll(v) && Scanned(v, n, taskId, options, results, unique)
    requires Fits(result, v, n, taskId, options)
    requires found == [] <==> v[n].stepId !in IdsBefore(v, n)
    ensures Scanned(v, n + 1, taskId, options, results + [result], unique + found)
  {
    assert unique + found == [] <==> unique == [] && found == [];
  }

  /** A finished pass has found nothing exactly when all steps are sound. */
  lemma NoFindingsIff(v: seq<Step>, taskId: string, options: VerifyOptions, results: seq<StepResult>,
                      unique: seq<Finding>)
    requires InUnitAll(v) && Scanned(v, |v|, taskId, options, results, unique)
    ensures (unique == [] && forall r :: r in results ==> r.findings == []) <==> StepsSound(v, taskId, options)
    ensures forall i :: 0 <= i < |v| ==> (results[i].ok <==> StepSound(v[i], IdsBefore(v, i), taskId, options))
  {
    forall i | 0 <= i < |v|
      ensures results[i].findings == [] <==> StepSound(v[i], IdsBefore(v, i), taskId, options)
      ensures results[i].ok <==> StepSound(v[i], IdsBefore(v, i), taskId, options)
    {
      assert Fits(results[i], v, i, taskId, options);
    }
    if unique == [] && forall r :: r in results ==> r.findings == [] {
      forall i | 0 <= i < |v| ensures StepSound(v[i], IdsBefore(v, i), taskId, options) {
        assert results[i] in results;
      }
    }
  }

  /** The loop over the steps, with its growing set of ids. */
  method VerifySteps(v: seq<Step>, taskId: string, options: VerifyOptions)
    returns (results: seq<StepResult>, unique: seq<Finding>, state: ProofState)
    requires InUnitAll(v)
    ensures fresh(state) && Scanned(v, |v|, taskId, options, results, unique)
    ensures state.verified == Verified(v, |v|, options.epsilon) && state.skipped == Skipped(v, |v|)
  {
    results, unique := [], [];
    state := new ProofState();
    var seen: set<string> := {};
    for n := 0 to |v|
      invariant seen == IdsBefore(v, n) && fresh(state)
      invariant Scanned(v, n, taskId, options, results, unique)
      invariant state.verified == Verified(v, n, options.epsilon) && state.skipped == Skipped(v, n)
    {
      var found, result := ScanOne(v, n, seen, taskId, options, state);
      ScannedStep(v, n, taskId, options, results, unique, result, found);
      results, unique, seen := results + [result], unique + found, seen + {v[n].stepId};
    }
  }

  method ScanOne(v: seq<Step>, n: nat, seen: set<string>, taskId: string, options: VerifyOptions, state: ProofState)
    returns (found: seq<Finding>, result: StepResult)
    requires n < |v| && InUnitAll(v) && seen == IdsBefore(v, n)
    modifies state
    ensures found == [] <==> v[n].stepId !in seen
    ensures Fits(result, v, n, taskId, options)
    ensures state.verified == old(state.verified) + (if Matches(v[n], options.epsilon) then 1 else 0)
    ensures state.skipped == old(state.skipped) + (if Judgeable(v[n]) then 0 else 1)
  {
    var s := v[n];
    found := if s.stepId in seen then [Finding(Some(s.stepId), UniqueStepId, s.stepId)] else [];
    result := VerifyStep(s, seen, taskId, options, state);
  }
}
