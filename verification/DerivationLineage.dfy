/** What acceptance by the verifier (core/src/verify-derivation.ts) means for a whole record. */
module DerivationLineage {
  import opened Options
  import opened TruthAlgebra
  import opened DerivationVerifier

  /** Places in a record, each reached from the one before through its evidence lineage. */
  ghost predicate Path(v: seq<Step>, p: seq<nat>) {
    && p != []
    && (forall k :: 0 <= k < |p| ==> p[k] < |v|)
    && (forall k :: 0 <= k < |p| - 1 ==> Edge(v, p[k], p[k + 1]))
  }

  ghost predicate Edge(v: seq<Step>, i: nat, j: nat) {
    i < |v| && j < |v| && v[j].stepId in v[i].evidenceLineage
  }

  lemma IdsDiffer(v: seq<Step>, taskId: string, options: VerifyOptions)
    requires InUnitAll(v) && StepsSound(v, taskId, options)
    ensures forall i, j :: 0 <= i < j < |v| ==> v[i].stepId != v[j].stepId
  {
    forall i, j | 0 <= i < j < |v| ensures v[i].stepId in IdsBefore(v, j) {
    }
  }

  /** An accepted step cites only `taskId` and strictly earlier steps. */
  lemma EdgesGoBack(v: seq<Step>, taskId: string, options: VerifyOptions, i: nat, j: nat)
    requires InUnitAll(v) && StepsSound(v, taskId, options) && Edge(v, i, j)
    ensures j < i || v[j].stepId == taskId
  {
    var id := v[j].stepId;
    IdsDiffer(v, taskId, options);
    if id != taskId {
      assert StepSound(v[i], IdsBefore(v, i), taskId, options);
      assert !Violates(v[i], IdsBefore(v, i), taskId, options, LineageDag);
      assert id in IdsBefore(v, i);
      var m :| 0 <= m < i && v[m].stepId == id;
    }
  }

  /** A path that does not come back to `taskId` only ever goes back, so it is short. */
  lemma {:induction false} PathsDescend(v: seq<Step>, taskId: string, options: VerifyOptions, p: seq<nat>)
    requires InUnitAll(v) && StepsSound(v, taskId, options) && Path(v, p)
    requires forall k :: 0 < k < |p| ==> v[p[k]].stepId != taskId
    ensures forall a, b :: 0 <= a < b < |p| ==> p[a] > p[b]
    ensures |p| <= p[0] + 1 <= |v|
  {
    if |p| > 1 {
      var tail := p[1..];
      forall k | 0 <= k < |tail| - 1 ensures Edge(v, tail[k], tail[k + 1]) {
        assert Edge(v, p[k + 1], p[k + 1 + 1]);
      }
      PathsDescend(v, taskId, options, tail);
      assert Edge(v, p[0], p[0 + 1]);
      EdgesGoBack(v, taskId, options, p[0], p[1]);
    }
  }

  /** The only way round in a circle is through a step that bears `taskId`. */
  lemma CyclesPassThroughTask(v: seq<Step>, taskId: string, options: VerifyOptions, p: seq<nat>)
    requires InUnitAll(v) && StepsSound(v, taskId, options)
    requires Path(v, p) && |p| > 1 && p[0] == p[|p| - 1]
    ensures exists k :: 0 < k < |p| && v[p[k]].stepId == taskId
  {
    if forall k :: 0 < k < |p| ==> v[p[k]].stepId != taskId {
      PathsDescend(v, taskId, options, p);
    }
  }

  /** In an accepted record whose task is not one of its steps the lineage is a finite DAG. */
  lemma LineageIsAcyclic(r: Record, options: VerifyOptions, p: seq<nat>)
    requires Accepts(r, options) && Path(Considered(r.steps, options.maxSteps), p)
    requires forall s :: s in Considered(r.steps, options.maxSteps) ==> s.stepId != r.taskId
    ensures |p| <= |Considered(r.steps, options.maxSteps)|
    ensures |p| > 1 ==> p[0] != p[|p| - 1]
  {
    PathsDescend(Considered(r.steps, options.maxSteps), r.taskId, options, p);
  }

  /** A step whose id is `taskId` may cite itself, and the record is accepted all the same. */
  lemma SelfCitationIsAccepted(id: string, truth: Truth)
    requires InUnit(truth)
    ensures var s := Step(id, "r", ["p"], "c", truth, None, [], None, [id], Independent);
            var v := [s];
            && Accepts(Record(id, v, truth, 0), VerifyOptions(false, 0.0, None))
            && Path(v, [0, 0])
  {
    var s := Step(id, "r", ["p"], "c", truth, None, [], None, [id], Independent);
    var options := VerifyOptions(false, 0.0, None);
    assert 'r' in "r" && 'p' in "p" && 'c' in "c";
    forall check ensures !Violates(s, {}, id, options, check) {
      match check
      case _ =>
    }
    assert IdsBefore([s], 0) == {};
    assert StepSound(s, IdsBefore([s], 0), id, options);
    assert Edge([s], 0, 0);
  }

  /**
   * A reproduced step that does not pool evidence claims at most what its weakest premise is
   * worth, give or take the tolerance.
   */
  lemma ClaimsAreBounded(v: seq<Step>, taskId: string, options: VerifyOptions, i: nat)
    requires InUnitAll(v) && StepsSound(v, taskId, options) && i < |v| && Judgeable(v[i])
    requires Resolve(v[i].ruleId, v[i].truthFn) != Some(OfTwo(Revision))
    ensures forall t :: t in v[i].premiseTruths.value ==> v[i].truth.c <= t.c + options.epsilon
  {
    assert StepSound(v[i], IdsBefore(v, i), taskId, options);
    assert !Violates(v[i], IdsBefore(v, i), taskId, options, TruthMismatch);
    assert v[i] in v;
    var ts := v[i].premiseTruths.value;
    match Resolve(v[i].ruleId, v[i].truthFn).value
    case OfTwo(op) =>
      ConfidenceBelowProduct(op, ts[0], ts[1]);
      TimesBounds(ts[0].c, ts[1].c);
    case OfOne(op) =>
      UnaryStaysInUnit(op, ts[0]);
  }

  /** Two numbers are within the tolerance of each other. */
  predicate Within(x: real, y: real, epsilon: real) {
    y - epsilon <= x && x <= y + epsilon
  }

  /** A step claims, in frequency and in confidence, what its rule's table entry makes of its premises. */
  predicate ClaimsEntry(s: Step, epsilon: real)
    requires TruthsInUnit(s) && Judgeable(s)
  {
    var ts := s.premiseTruths.value;
    match Resolve(s.ruleId, s.truthFn).value
    case OfTwo(op) =>
      var entry := Binary(op, ts[0], ts[1]);
      Within(s.truth.f, entry.f, epsilon) && Within(s.truth.c, entry.c, epsilon)
    case OfOne(op) =>
      var entry := Unary(op, ts[0]);
      Within(s.truth.f, entry.f, epsilon) && Within(s.truth.c, entry.c, epsilon)
  }

  /** A judgeable step is contradicted exactly when its claim is off in frequency or in confidence. */
  lemma MismatchIff(s: Step, prior: set<string>, taskId: string, options: VerifyOptions)
    requires TruthsInUnit(s) && Judgeable(s)
    ensures Violates(s, prior, taskId, options, TruthMismatch) <==> !ClaimsEntry(s, options.epsilon)
  {
  }

  /** So every judgeable step of an accepted record claims its entry, and a record with one that does not is refused. */
  lemma ClaimsAreReproduced(r: Record, options: VerifyOptions, i: nat)
    requires WellShaped(r) && i < |Considered(r.steps, options.maxSteps)|
    requires var s := Considered(r.steps, options.maxSteps)[i]; TruthsInUnit(s) && Judgeable(s)
    ensures Accepts(r, options) ==> ClaimsEntry(Considered(r.steps, options.maxSteps)[i], options.epsilon)
  {
    var v := Considered(r.steps, options.maxSteps);
    if Accepts(r, options) {
      assert StepSound(v[i], IdsBefore(v, i), r.taskId, options);
      assert !Violates(v[i], IdsBefore(v, i), r.taskId, options, TruthMismatch);
      MismatchIff(v[i], IdsBefore(v, i), r.taskId, options);
    }
  }

  /**
   * With sound steps, a record is accepted exactly when its final truth is the last step's, give
   * or take the tolerance.
   */
  lemma FinalTruthIff(r: Record, options: VerifyOptions)
    requires WellShaped(r) && Considered(r.steps, options.maxSteps) != []
    requires StepsSound(Considered(r.steps, options.maxSteps), r.taskId, options)
    ensures var v := Considered(r.steps, options.maxSteps);
            var (last, e) := (v[|v| - 1].truth, options.epsilon);
            Accepts(r, options) <==> Within(r.finalTruth.f, last.f, e) && Within(r.finalTruth.c, last.c, e)
  {
  }

  /**
   * What acceptance means, with nothing run: step ids are distinct, each step is sound against the
   * ids of those before it, and the final truth is the last step's, give or take the tolerance;
   * without steps no cycle may be claimed.
   */
  lemma AcceptsIff(r: Record, options: VerifyOptions)
    requires WellShaped(r)
    ensures var (v, e) := (Considered(r.steps, options.maxSteps), options.epsilon);
            Accepts(r, options) <==>
              && (forall i, j :: 0 <= i < j < |v| ==> v[i].stepId != v[j].stepId)
              && (forall i :: 0 <= i < |v| ==>
                    StepSound(v[i], set j | 0 <= j < i :: v[j].stepId, r.taskId, options))
              && (v == [] ==> r.totalCycles == 0)
              && (v != [] ==>
                    && Within(r.finalTruth.f, v[|v| - 1].truth.f, e) && Within(r.finalTruth.c, v[|v| - 1].truth.c, e))
  {
    var v := Considered(r.steps, options.maxSteps);
    forall i | 0 <= i < |v| ensures IdsBefore(v, i) == set j | 0 <= j < i :: v[j].stepId {}
    if v != [] && StepsSound(v, r.taskId, options) {
      FinalTruthIff(r, options);
    }
  }

  /** An accepted record has no contradicted step: what is not reproduced was skipped. */
  lemma {:induction false} NothingContradicted(v: seq<Step>, n: nat, taskId: string, options: VerifyOptions)
    requires InUnitAll(v) && StepsSound(v, taskId, options) && n <= |v|
    ensures Contradicted(v, n, options.epsilon) == 0
    ensures Verified(v, n, options.epsilon) + Skipped(v, n) == n
  {
    CountersAddUp(v, n, options.epsilon);
    if n > 0 {
      NothingContradicted(v, n - 1, taskId, options);
      assert StepSound(v[n - 1], IdsBefore(v, n - 1), taskId, options);
      assert !Violates(v[n - 1], IdsBefore(v, n - 1), taskId, options, TruthMismatch);
    }
  }

  /** A laxer run accepts whatever a stricter one does. */
  lemma LaxerAcceptsMore(r: Record, options: VerifyOptions, laxer: VerifyOptions)
    requires Accepts(r, options) && laxer.maxSteps == options.maxSteps
    requires laxer.epsilon >= options.epsilon && (laxer.strict ==> options.strict)
    ensures Accepts(r, laxer)
  {
    var v := Considered(r.steps, options.maxSteps);
    forall i | 0 <= i < |v| ensures StepSound(v[i], IdsBefore(v, i), r.taskId, laxer) {
      assert StepSound(v[i], IdsBefore(v, i), r.taskId, options);
      forall check ensures !Violates(v[i], IdsBefore(v, i), r.taskId, laxer, check) {
        assert !Violates(v[i], IdsBefore(v, i), r.taskId, options, check);
      }
    }
  }

  /**
   * Looking at a prefix of an accepted record keeps every step sound, but holds the record's
   * final truth against the prefix's last step.
   */
  lemma PrefixAcceptedIff(r: Record, options: VerifyOptions, n: nat)
    requires Accepts(r, options) && options.maxSteps.None? && 0 < n < |r.steps|
    ensures Accepts(r, options.(maxSteps := Some(n))) <==> Close(r.steps[n - 1].truth, r.finalTruth, options.epsilon)
  {
    var limited := options.(maxSteps := Some(n));
    var v, w := r.steps, Considered(r.steps, Some(n));
    assert w == v[..n];
    forall i | 0 <= i < n
      ensures w[i].stepId !in IdsBefore(w, i) && StepSound(w[i], IdsBefore(w, i), r.taskId, limited)
    {
      assert IdsBefore(w, i) == IdsBefore(v, i);
      assert StepSound(v[i], IdsBefore(v, i), r.taskId, options);
      forall check ensures !Violates(w[i], IdsBefore(w, i), r.taskId, limited, check) {
        assert !Violates(v[i], IdsBefore(v, i), r.taskId, options, check);
      }
    }
  }
}
