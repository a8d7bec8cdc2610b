/**
 * What the derivation verifier's parts mean, apart from how they are computed: its string tests, the
 * choice of a table entry, and what makes a step sound.
 */
module DerivationMeaning {
  import opened DerivationVerifier
  import opened Options
  import opened TruthAlgebra

  // ---- Strings ---------------------------------------------------------------------------------

  /** A string contains another exactly when it is that one with something before and after. */
  lemma ContainsIff(s: string, sub: string)
    ensures Contains(s, sub) <==> exists a: string, b: string :: s == a + sub + b
  {
    if Contains(s, sub) {
      var i :| 0 <= i <= |s| && OccursAt(s, sub, i);
      assert s == s[..i] + sub + s[i + |sub|..];
    }
    if a: string, b: string :| s == a + sub + b {
      assert s[|a|..|a| + |sub|] == sub;
      assert OccursAt(s, sub, |a|);
    }
  }

  /** The blank characters, one by one. */
  lemma BlanksAre(c: char)
    ensures IsSpace(c) <==>
              c in "\t\n\U{000B}\U{000C}\r \U{00A0}\U{1680}\U{2000}\U{2001}\U{2002}\U{2003}\U{2004}\U{2005}\U{2006}" +
                   "\U{2007}\U{2008}\U{2009}\U{200A}\U{2028}\U{2029}\U{202F}\U{205F}\U{3000}\U{FEFF}"
  {
  }

  /** Lower-casing maps the capitals to their small letters, in the order of the alphabet, and nothing else. */
  lemma LowerCaseAt(s: string, i: nat, k: nat)
    requires i < |s| && k < 26
    ensures |LowerCase(s)| == |s|
    ensures s[i] == "ABCDEFGHIJKLMNOPQRSTUVWXYZ"[k] ==> LowerCase(s)[i] == "abcdefghijklmnopqrstuvwxyz"[k]
    ensures s[i] !in "ABCDEFGHIJKLMNOPQRSTUVWXYZ" ==> LowerCase(s)[i] == s[i]
  {
    var capitals := "ABCDEFGHIJKLMNOPQRSTUVWXYZ";
    if 'A' <= s[i] <= 'Z' {
      assert capitals[s[i] as int - 'A' as int] == s[i];
    }
  }

  lemma DashedAt(s: string, i: nat)
    requires i < |s|
    ensures |Dashed(s)| == |s| && Dashed(s)[i] == if s[i] == '_' then '-' else s[i]
  {
  }

  // ---- Choosing a table entry ---------------------------------------------------------------------

  /** How a key is looked for: by its name, or as a part of a rule id. */
  datatype KeyTest = Named(name: string) | OccursIn(ruleId: string)

  predicate Passes(test: KeyTest, key: string) {
    match test
    case Named(name) => key == name
    case OccursIn(ruleId) => Contains(ruleId, key)
  }

  /** `r` is the entry of the first key that passes. */
  ghost predicate FirstEntry(table: seq<(string, TruthFn)>, test: KeyTest, r: Option<TruthFn>) {
    match r
    case None => forall i :: 0 <= i < |table| ==> !Passes(test, table[i].0)
    case Some(fn) =>
      exists i :: IsFirst(table, test, i) && table[i].1 == fn
  }

  ghost predicate IsFirst(table: seq<(string, TruthFn)>, test: KeyTest, i: int) {
    && 0 <= i < |table| && Passes(test, table[i].0)
    && forall j :: 0 <= j < i ==> !Passes(test, table[j].0)
  }

  lemma {:induction false} ExactIsFirst(table: seq<(string, TruthFn)>, name: string)
    ensures FirstEntry(table, Named(name), Exact(table, name))
  {
    if table != [] && table[0].0 == name {
      assert IsFirst(table, Named(name), 0);
    } else if table != [] {
      ExactIsFirst(table[1..], name);
      LaterEntry(table, Named(name), Exact(table, name));
    }
  }

  lemma {:induction false} SubstringIsFirst(table: seq<(string, TruthFn)>, ruleKey: string)
    ensures FirstEntry(table, OccursIn(ruleKey), BySubstring(table, ruleKey))
  {
    if table != [] && Contains(ruleKey, table[0].0) {
      assert IsFirst(table, OccursIn(ruleKey), 0);
    } else if table != [] {
      SubstringIsFirst(table[1..], ruleKey);
      LaterEntry(table, OccursIn(ruleKey), BySubstring(table, ruleKey));
    }
  }

  lemma LaterEntry(table: seq<(string, TruthFn)>, test: KeyTest, r: Option<TruthFn>)
    requires table != [] && !Passes(test, table[0].0) && FirstEntry(table[1..], test, r)
    ensures FirstEntry(table, test, r)
  {
    var rest := table[1..];
    assert forall i :: 0 < i < |table| ==> table[i] == rest[i - 1];
    if r.Some? {
      var i :| IsFirst(rest, test, i) && rest[i].1 == r.value;
      assert IsFirst(table, test, i + 1);
    }
  }

  /** The table's keys, in the order in which they are tried. */
  lemma KeysInOrder()
    ensures KeysOf(TABLE) == ["deduction", "induction", "abduction", "exemplification", "comparison", "analogy",
                              "resemblance", "intersection", "union", "revision", "detachment", "contraposition",
                              "sameness", "negation-intro", "negation-elim", "negation", "conversion"]
    ensures forall i, j :: 0 <= i < j < |TABLE| ==> TABLE[i].0 != TABLE[j].0
  {
  }

  function KeysOf(table: seq<(string, TruthFn)>): seq<string> {
    seq(|table|, i requires 0 <= i < |table| => table[i].0)
  }

  /** Each key names its own entry. */
  lemma KeysNameEntries()
    ensures EntriesOf(TABLE) == [OfTwo(Deduction), OfTwo(Induction), OfTwo(Abduction), OfTwo(Exemplification),
                                 OfTwo(Comparison), OfTwo(Analogy), OfTwo(Resemblance), OfTwo(Intersection),
                                 OfTwo(Union), OfTwo(Revision), OfTwo(Detachment), OfTwo(Contraposition),
                                 OfTwo(Sameness), OfOne(NegationIntro), OfOne(NegationElim), OfOne(Negation),
                                 OfOne(Conversion)]
    ensures forall i :: 0 <= i < |TABLE| ==> Exact(TABLE, TABLE[i].0) == Some(TABLE[i].1)
  {
    KeysInOrder();
    forall i | 0 <= i < |TABLE| ensures Exact(TABLE, TABLE[i].0) == Some(TABLE[i].1) {
      ExactIsFirst(TABLE, TABLE[i].0);
    }
  }

  function EntriesOf(table: seq<(string, TruthFn)>): seq<TruthFn> {
    seq(|table|, i requires 0 <= i < |table| => table[i].1)
  }

  /**
   * The operation a step declares is taken if the table has it; else the rule id, in small letters
   * and with dashes, if that is a key; else the first key that occurs in it.
   */
  lemma ResolveMeans(ruleId: string, declared: Option<string>)
    ensures var (key, r) := (Dashed(LowerCase(ruleId)), Resolve(ruleId, declared));
            if declared.Some? && declared.value in KeysOf(TABLE) then
              FirstEntry(TABLE, Named(declared.value), r)
            else if key in KeysOf(TABLE) then FirstEntry(TABLE, Named(key), r)
            else FirstEntry(TABLE, OccursIn(key), r)
  {
    var key := Dashed(LowerCase(ruleId));
    DeclaredIs(declared);
    DeclaredIs(Some(key));
    SubstringIsFirst(TABLE, key);
  }

  lemma DeclaredIs(name: Option<string>)
    ensures Declared(name).Some? <==> name.Some? && name.value in KeysOf(TABLE)
    ensures Declared(name).Some? ==> FirstEntry(TABLE, Named(name.value), Declared(name))
  {
    NoEmptyKey();
    if name.Some? {
      InKeys(TABLE, name.value);
      ExactIsFirst(TABLE, name.value);
    }
  }

  lemma NoEmptyKey()
    ensures "" !in KeysOf(TABLE)
  {
    KeysInOrder();
  }

  lemma InKeys(table: seq<(string, TruthFn)>, name: string)
    ensures name in KeysOf(table) <==> Exact(table, name).Some?
  {
    ExactIsFirst(table, name);
    forall i | 0 <= i < |table| ensures KeysOf(table)[i] == table[i].0 {}
  }

  // ---- Sound steps ----------------------------------------------------------------------------------

  /** What a binding of a sound step is like: it binds something, stands in a premise, and shows in the conclusion. */
  predicate Grounded(s: Step, variable: string, value: string) {
    && !Blank(value)
    && (exists p :: p in s.premises && Contains(p, variable))
    && (Contains(s.conclusion, variable) || Contains(s.conclusion, value))
  }

  /** A step is sound exactly if all of this holds of it. */
  lemma StepSoundIff(s: Step, prior: set<string>, taskId: string, options: VerifyOptions)
    requires TruthsInUnit(s)
    ensures StepSound(s, prior, taskId, options) <==>
              && !Blank(s.ruleId) && !Blank(s.conclusion)
              && s.premises != [] && (forall p :: p in s.premises ==> !Blank(p))
              && (forall b :: b in s.substitution ==> Grounded(s, b.0, b.1))
              && (forall parent :: parent in s.evidenceLineage ==> parent in prior + {taskId})
              && !(s.independence.Unknown? && Contains(LowerCase(s.ruleId), "revision"))
              && (options.strict ==> Resolve(s.ruleId, s.truthFn).Some?)
              && (Judgeable(s) ==> Matches(s, options.epsilon))
  {
    SoundByChecks(s, prior, taskId, options);
    BindingsGrounded(s, prior, taskId, options);
  }

  /** Nothing beyond the ten checks of a step can be violated. */
  lemma SoundByChecks(s: Step, prior: set<string>, taskId: string, options: VerifyOptions)
    requires TruthsInUnit(s)
    ensures StepSound(s, prior, taskId, options) <==>
              && !Violates(s, prior, taskId, options, RuleShape)
              && !Violates(s, prior, taskId, options, PremiseShape)
              && !Violates(s, prior, taskId, options, ConclusionShape)
              && !Violates(s, prior, taskId, options, SubstitutionValue)
              && !Violates(s, prior, taskId, options, SubstitutionPremise)
              && !Violates(s, prior, taskId, options, SubstitutionConclusion)
              && !Violates(s, prior, taskId, options, LineageDag)
              && !Violates(s, prior, taskId, options, EvidenceIndependence)
              && !Violates(s, prior, taskId, options, UnknownRule)
              && !Violates(s, prior, taskId, options, TruthMismatch)
  {
  }

  lemma BindingsGrounded(s: Step, prior: set<string>, taskId: string, options: VerifyOptions)
    requires TruthsInUnit(s)
    ensures (forall b :: b in s.substitution ==> Grounded(s, b.0, b.1)) <==>
              && !Violates(s, prior, taskId, options, SubstitutionValue)
              && !Violates(s, prior, taskId, options, SubstitutionPremise)
              && !Violates(s, prior, taskId, options, SubstitutionConclusion)
  {
    forall b | b in s.substitution
      ensures Grounded(s, b.0, b.1) <==>
                && !BindingViolates(s, b, SubstitutionValue) && !BindingViolates(s, b, SubstitutionPremise)
                && !BindingViolates(s, b, SubstitutionConclusion)
    {
    }
  }

  /** A step can be judged exactly if its rule resolves and it has a truth for each operand: one or two. */
  lemma JudgeableIff(s: Step)
    ensures Judgeable(s) <==>
              match Resolve(s.ruleId, s.truthFn)
              case None => false
              case Some(OfTwo(_)) => s.premiseTruths.Some? && |s.premiseTruths.value| == 2
              case Some(OfOne(_)) => s.premiseTruths.Some? && |s.premiseTruths.value| == 1
  {
  }

  /** What a limit on the steps means. */
  lemma ConsideredIs(steps: seq<Step>, limit: Option<int>)
    ensures var v := Considered(steps, limit);
            match limit
            case None => v == steps
            case Some(n) =>
              && (n == 0 || n >= |steps| ==> v == steps)
              && (0 < n < |steps| ==> v == steps[..n])
              && (-|steps| < n < 0 ==> v == steps[..|steps| + n])
              && (n <= -|steps| && n < 0 ==> v == [])
  {
  }
}
