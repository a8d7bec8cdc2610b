/**
 * The approval registry (core/src/ApprovalService.ts) as a protocol of single steps: requests
 * are opened, answered by anyone, timed out, and their callers resumed, in any interleaving.
 */
module Approval {
  import opened Options

  type Id = string

  /** An answer as the registry records it. */
  datatype Verdict = Verdict(approved: bool, reason: string)

  /** Where the caller of a request is: still in the synchronous part, suspended, or done. */
  datatype Wait =
    | Asking(headless: bool)
    | Racing
    | Won(verdict: Verdict)
    | Expired
    | Returned(verdict: Verdict)

  const HEADLESS: Verdict := Verdict(false, "Auto-rejected: headless mode")
  const TIMED_OUT: Verdict := Verdict(false, "Approval error: Approval timeout")

  /** What the registry still holds, how the promises were resolved, and where the callers are. */
  datatype World = World(pending: set<Id>, settled: map<Id, Verdict>, waits: map<Id, Wait>)

  const START: World := World({}, map[], map[])

  datatype Event =
    | Ask(id: Id, headless: bool)
    | Answer(id: Id, verdict: Verdict)
    | Direct(id: Id, verdict: Verdict)
    | Begin(id: Id)
    | Expire(id: Id)
    | Resume(id: Id)

  /** A promise keeps its first resolution. */
  function Resolved(settled: map<Id, Verdict>, id: Id, v: Verdict): map<Id, Verdict> {
    if id in settled then settled else settled[id := v]
  }

  /** Answering takes the request out of the registry, so only the first answer counts. */
  function Settle(w: World, id: Id, v: Verdict): World {
    if id in w.pending then w.(pending := w.pending - {id}, settled := Resolved(w.settled, id, v)) else w
  }

  /** The race between answer and deadline is decided by whichever comes first. */
  function Decide(w: World, id: Id, outcome: Wait): World {
    if id in w.waits && w.waits[id].Racing? then w.(waits := w.waits[id := outcome]) else w
  }

  /** A caller that answers its own request returns with that answer. */
  function AnswerOwn(w: World, id: Id, v: Verdict): World {
    Settle(w, id, v).(waits := w.waits[id := Returned(v)])
  }

  /**
   * The request is out, and its observer may have answered already: a headless caller declines
   * all the same, another one starts to wait, or has what it would wait for.
   */
  function Begun(w: World, id: Id, headless: bool): World {
    if headless then AnswerOwn(w, id, HEADLESS)
    else w.(waits := w.waits[id := if id in w.settled then Won(w.settled[id]) else Racing])
  }

  /** One step; a step that is not possible changes nothing. */
  function Step(w: World, e: Event): World {
    match e
    case Ask(id, headless) =>
      if id in w.waits then w else w.(pending := w.pending + {id}, waits := w.waits[id := Asking(headless)])
    case Answer(id, v) =>
      if id in w.pending then Decide(Settle(w, id, v), id, Won(v)) else w
    case Direct(id, v) =>
      // whoever holds the request resolves it past the registry, which does not notice
      if id in w.waits && id !in w.settled then Decide(w.(settled := w.settled[id := v]), id, Won(v)) else w
    case Begin(id) => if id in w.waits && w.waits[id].Asking? then Begun(w, id, w.waits[id].headless) else w
    case Expire(id) => Decide(w, id, Expired)
    case Resume(id) =>
      if id !in w.waits then w
      else
        match w.waits[id]
        case Won(v) => w.(waits := w.waits[id := Returned(v)])
        case Expired => AnswerOwn(w, id, TIMED_OUT)
        case _ => w
  }

  function Run(es: seq<Event>): World {
    if es == [] then START else Step(Run(es[..|es| - 1]), es[|es| - 1])
  }

  // ---- What every run keeps -----------------------------------------------------------------

  /** Every request is pending or settled; a caller that returned was told its verdict or a refusal of its own. */
  ghost predicate Inv(w: World) {
    && w.waits.Keys == w.pending + w.settled.Keys
    && (forall id :: id in w.waits ==>
          match w.waits[id]
          case Asking(_) => true
          case Racing => id in w.pending && id !in w.settled
          case Won(v) => id in w.settled && w.settled[id] == v
          case Expired => true
          case Returned(v) => id in w.settled && v in {w.settled[id], TIMED_OUT, HEADLESS})
  }

  lemma StepKeeps(w: World, e: Event)
    requires Inv(w)
    ensures Inv(Step(w, e))
  {
  }

  lemma {:induction false} RunKeeps(es: seq<Event>)
    ensures Inv(Run(es))
  {
    if es != [] {
      RunKeeps(es[..|es| - 1]);
      StepKeeps(Run(es[..|es| - 1]), es[|es| - 1]);
    }
  }

  /** A settled request keeps its verdict, a returned caller what it was told, through every step. */
  lemma StepIsFinal(w: World, e: Event, id: Id)
    requires Inv(w)
    ensures id in w.settled ==> id in Step(w, e).settled && Step(w, e).settled[id] == w.settled[id]
    ensures id in w.waits && w.waits[id].Returned? ==> id in Step(w, e).waits && Step(w, e).waits[id] == w.waits[id]
  {
  }

  /** Each request is settled at most once, however the run goes on. */
  lemma {:induction false} SettledOnce(es: seq<Event>, more: seq<Event>, id: Id)
    ensures id in Run(es).settled ==> id in Run(es + more).settled && Run(es + more).settled[id] == Run(es).settled[id]
    ensures id in Run(es).waits && Run(es).waits[id].Returned? ==>
              id in Run(es + more).waits && Run(es + more).waits[id] == Run(es).waits[id]
  {
    if more == [] {
      assert es + more == es;
    } else {
      var n := |more| - 1;
      assert (es + more)[..|es + more| - 1] == es + more[..n];
      SettledOnce(es, more[..n], id);
      RunKeeps(es + more[..n]);
      StepIsFinal(Run(es + more[..n]), more[n], id);
    }
  }

  // ---- When a caller is told yes ------------------------------------------------------------

  /** The part of a run that concerns one request: what came first once it was asked for. */
  datatype Race =
    | Unasked
    | Asked(headless: bool, early: Option<Verdict>)
    | Open
    | Declined
    | AnsweredFirst(verdict: Verdict)
    | DeadlineFirst

  function First(es: seq<Event>, id: Id): Race {
    if es == [] then Unasked else Follow(First(es[..|es| - 1], id), es[|es| - 1], id)
  }

  function Follow(before: Race, e: Event, id: Id): Race {
    if e.id != id then before else
      match (before, e)
      case (Unasked, Ask(_, headless)) => Asked(headless, None)
      case (Asked(headless, None), Answer(_, v)) => Asked(headless, Some(v))
      case (Asked(true, _), Begin(_)) => Declined
      case (Asked(false, Some(v)), Begin(_)) => AnsweredFirst(v)
      case (Asked(false, None), Begin(_)) => Open
      case (Asked(headless, None), Direct(_, v)) => Asked(headless, Some(v))
      case (Open, Answer(_, v)) => AnsweredFirst(v)
      case (Open, Direct(_, v)) => AnsweredFirst(v)
      case (Open, Expire(_)) => DeadlineFirst
      case _ => before
  }

  /** How the outcome of the race shows in the world. */
  ghost predicate Shows(w: World, id: Id, race: Race) {
    match race
    case Unasked => id !in w.waits
    case Asked(headless, early) =>
      && id in w.waits && w.waits[id] == Asking(headless)
      && (if early.Some? then id in w.settled && w.settled[id] == early.value else id in w.pending && id !in w.settled)
    case Open => id in w.waits && w.waits[id] == Racing
    case Declined => id in w.waits && w.waits[id] == Returned(HEADLESS)
    case AnsweredFirst(v) => id in w.waits && (w.waits[id] == Won(v) || w.waits[id] == Returned(v))
    case DeadlineFirst => id in w.waits && (w.waits[id] == Expired || w.waits[id] == Returned(TIMED_OUT))
  }

  lemma {:induction false} RaceDecides(es: seq<Event>, id: Id)
    ensures Shows(Run(es), id, First(es, id))
  {
    if es != [] {
      var n := |es| - 1;
      RaceDecides(es[..n], id);
      RunKeeps(es[..n]);
      ShowsOn(Run(es[..n]), es[n], id, First(es[..n], id));
    }
  }

  lemma ShowsOn(w: World, e: Event, id: Id, race: Race)
    requires Inv(w) && Shows(w, id, race)
    ensures Shows(Step(w, e), id, Follow(race, e, id))
  {
  }

  /**
   * Fail-closed, exactly: a caller that has returned was told yes if and only if it did wait, and
   * the first thing to happen to its request was an answer of yes.  No other answer, no deadline,
   * no headless run and no later answer can make it one.
   */
  lemma ApprovedIff(es: seq<Event>, id: Id)
    requires id in Run(es).waits && Run(es).waits[id].Returned?
    ensures Run(es).waits[id].verdict.approved <==>
              First(es, id).AnsweredFirst? && First(es, id).verdict.approved
  {
    RaceDecides(es, id);
  }

  /** So some resolver did answer this id with yes. */
  lemma ApprovedMeansAnswered(es: seq<Event>, id: Id)
    requires id in Run(es).waits && Run(es).waits[id].Returned? && Run(es).waits[id].verdict.approved
    ensures Answered(es, id, Run(es).waits[id].verdict)
  {
    RaceDecides(es, id);
    FirstIsInRun(es, id);
  }

  /** Somebody answered this id in this way, through the registry or past it. */
  predicate Answered(es: seq<Event>, id: Id, v: Verdict) {
    Answer(id, v) in es || Direct(id, v) in es
  }

  lemma {:induction false} FirstIsInRun(es: seq<Event>, id: Id)
    ensures First(es, id).AnsweredFirst? ==> Answered(es, id, First(es, id).verdict)
    ensures First(es, id).Asked? && First(es, id).early.Some? ==> Answered(es, id, First(es, id).early.value)
  {
    if es != [] {
      FirstIsInRun(es[..|es| - 1], id);
      assert es == es[..|es| - 1] + [es[|es| - 1]];
    }
  }

  // ---- What stays behind ----------------------------------------------------------------------

  /** Somebody answered the request through the registry once it was there. */
  function Taken(es: seq<Event>, id: Id): bool {
    if es == [] then false
    else
      var n := |es| - 1;
      Taken(es[..n], id) || (es[n].Answer? && es[n].id == id && !First(es[..n], id).Unasked?)
  }

  /** The caller has answered its own request, because it was headless or its deadline had passed. */
  predicate GaveUp(w: World, id: Id, race: Race) {
    race.Declined? || (race.DeadlineFirst? && id in w.waits && w.waits[id].Returned?)
  }

  /** The registry holds a request until somebody answers it there; a caller that gives up does. */
  lemma {:induction false} PendingIff(es: seq<Event>, id: Id)
    ensures id in Run(es).pending <==>
              !First(es, id).Unasked? && !Taken(es, id) && !GaveUp(Run(es), id, First(es, id))
    ensures First(es, id).Unasked? ==> !Taken(es, id)
  {
    if es != [] {
      var n := |es| - 1;
      PendingIff(es[..n], id);
      RunKeeps(es[..n]);
      RaceDecides(es[..n], id);
      PendingOn(Run(es[..n]), es[n], id, First(es[..n], id), Taken(es[..n], id));
    }
  }

  lemma PendingOn(w: World, e: Event, id: Id, race: Race, taken: bool)
    requires Inv(w) && Shows(w, id, race)
    requires id in w.pending <==> !race.Unasked? && !taken && !GaveUp(w, id, race)
    requires race.Unasked? ==> !taken
    ensures var now := Follow(race, e, id);
            id in Step(w, e).pending <==>
              && !now.Unasked? && !(taken || (e.Answer? && e.id == id && !race.Unasked?))
              && !GaveUp(Step(w, e), id, now)
  {
  }

  /**
   * When a caller leaves its request behind in the registry, exactly: it waited and got an answer,
   * and nobody has given one through the registry.
   */
  lemma LeftPendingIff(es: seq<Event>, id: Id)
    requires id in Run(es).waits && Run(es).waits[id].Returned?
    ensures id in Run(es).pending <==> First(es, id).AnsweredFirst? && !Taken(es, id)
  {
    PendingIff(es, id);
    RaceDecides(es, id);
  }

  /** A request that is resolved but still in the registry was resolved past it. */
  lemma {:induction false} OnlyDirectLeaves(es: seq<Event>, id: Id)
    ensures id in Run(es).settled && id in Run(es).pending ==> exists v :: Direct(id, v) in es
  {
    if es != [] {
      var n := |es| - 1;
      assert es == es[..n] + [es[n]];
      OnlyDirectLeaves(es[..n], id);
      RunKeeps(es[..n]);
      if id in Run(es).settled && id in Run(es).pending {
        LeftByDirect(Run(es[..n]), es[n], id);
        assert es[n].Direct? && es[n].id == id ==> Direct(id, es[n].verdict) in es;
      }
    }
  }

  lemma LeftByDirect(w: World, e: Event, id: Id)
    requires id in Step(w, e).settled && id in Step(w, e).pending && Inv(w)
    ensures (id in w.settled && id in w.pending) || (e.Direct? && e.id == id)
  {
  }

  /**
   * Nothing is lost: created is settled plus pending, what is both counted once; and if all answers
   * come through the registry nothing is both, so no returned caller leaves its request behind.
   */
  lemma NothingIsLost(es: seq<Event>)
    ensures |Run(es).waits| + |Run(es).pending * Run(es).settled.Keys| == |Run(es).settled| + |Run(es).pending|
    ensures (forall e :: e in es ==> !e.Direct?) ==> Run(es).pending !! Run(es).settled.Keys
  {
    RunKeeps(es);
    var w := Run(es);
    assert |w.waits.Keys| == |w.waits| && |w.settled.Keys| == |w.settled|;
    assert |w.pending + w.settled.Keys| + |w.pending * w.settled.Keys| == |w.pending| + |w.settled.Keys|;
    forall id | id in w.pending && id in w.settled ensures exists v :: Direct(id, v) in es {
      OnlyDirectLeaves(es, id);
    }
  }

  /** A yes given past the registry is told to the caller, and the request stays behind for good. */
  lemma DirectYesIsLeftBehind(id: Id, yes: Verdict)
    requires yes.approved
    ensures var w := Run([Ask(id, false), Direct(id, yes), Begin(id), Resume(id)]);
            id in w.pending && id in w.waits && w.waits[id] == Returned(yes)
  {
    RunOfThree(Ask(id, false), Direct(id, yes), Begin(id));
    var es := [Ask(id, false), Direct(id, yes), Begin(id)];
    RunSnoc(es, Resume(id));
    assert es + [Resume(id)] == [Ask(id, false), Direct(id, yes), Begin(id), Resume(id)];
  }

  // ---- Some runs ------------------------------------------------------------------------------

  /**
   * An answer between the deadline and the caller's resumption is accepted from the resolver, and
   * the caller is refused all the same.
   */
  lemma LateYesIsRefused(id: Id, yes: Verdict)
    requires yes.approved
    ensures var w := Run([Ask(id, false), Begin(id), Expire(id), Answer(id, yes), Resume(id)]);
            id in w.settled && w.settled[id] == yes && id in w.waits && w.waits[id] == Returned(TIMED_OUT)
  {
    RunOfThree(Ask(id, false), Begin(id), Expire(id));
    var es := [Ask(id, false), Begin(id), Expire(id)];
    RunSnoc(es, Answer(id, yes));
    RunSnoc(es + [Answer(id, yes)], Resume(id));
    assert es + [Answer(id, yes)] + [Resume(id)]
           == [Ask(id, false), Begin(id), Expire(id), Answer(id, yes), Resume(id)];
  }

  /** A headless caller is refused even if the observer said yes the moment the request came out. */
  lemma HeadlessIgnoresObserver(id: Id, yes: Verdict)
    requires yes.approved
    ensures var w := Run([Ask(id, true), Answer(id, yes), Begin(id)]);
            id in w.settled && w.settled[id] == yes && id in w.waits && w.waits[id] == Returned(HEADLESS)
  {
    RunOfThree(Ask(id, true), Answer(id, yes), Begin(id));
  }

  lemma RunOfThree(a: Event, b: Event, c: Event)
    ensures Run([a, b, c]) == Step(Step(Step(START, a), b), c)
  {
    assert [] + [a] == [a];
    RunSnoc([], a);
    assert [a] + [b] == [a, b];
    RunSnoc([a], b);
    assert [a, b] + [c] == [a, b, c];
    RunSnoc([a, b], c);
  }

  lemma RunSnoc(es: seq<Event>, e: Event)
    ensures Run(es + [e]) == Step(Run(es), e)
  {
    assert (es + [e])[..|es|] == es;
  }

  // ---- The classes --------------------------------------------------------------------------

  /** A question and its promise, which takes the first resolution and ignores others. */
  class ApprovalRequest {
    const id: Id
    var result: Option<Verdict>

    constructor (id: Id)
      ensures this.id == id && result.None?
    {
      this.id, result := id, None;
    }

    method Resolve(v: Verdict)
      modifies this
      ensures result == if old(result).Some? then old(result) else Some(v)
    {
      if result.None? {
        result := Some(v);
      }
    }
  }

  class InMemoryApprovalManager {
    var pending: map<Id, ApprovalRequest>
    ghost var created: map<Id, ApprovalRequest>

    ghost predicate Valid()
      reads this, created.Values
    {
      && pending.Keys <= created.Keys
      && (forall id :: id in pending ==> pending[id] == created[id])
      && (forall id :: id in created ==> created[id].id == id && (created[id].result.None? ==> id in pending))
    }

    ghost function Settled(): map<Id, Verdict>
      reads this, created.Values
    {
      map id | id in created && created[id].result.Some? :: created[id].result.value
    }

    constructor ()
      ensures Valid() && created == map[] && pending == map[]
    {
      pending, created := map[], map[];
    }

    /** Ids are fresh: the source draws them at random. */
    method CreateRequest(id: Id) returns (request: ApprovalRequest)
      requires Valid() && id !in created
      modifies this
      ensures Valid() && fresh(request) && request.id == id
      ensures created == old(created)[id := request] && pending.Keys == old(pending.Keys) + {id}
      ensures Settled() == old(Settled()) && fresh(created.Values - old(created.Values))
    {
      request := new ApprovalRequest(id);
      pending, created := pending[id := request], created[id := request];
    }

    /** Only a pending request can be answered, and answering removes it. */
    method ResolveApproval(id: Id, v: Verdict) returns (taken: bool)
      requires Valid()
      modifies this, created.Values
      ensures Valid() && created == old(created)
      ensures taken <==> id in old(pending)
      ensures pending.Keys == old(pending.Keys) - {id}
      ensures Settled() == if taken then Resolved(old(Settled()), id, v) else old(Settled())
    {
      if id !in pending {
        return false;
      }
      var request := pending[id];
      pending := pending - {id};
      request.Resolve(v);
      return true;
    }

    method GetPendingCount() returns (n: nat)
      requires Valid()
      ensures n + |Settled().Keys - pending.Keys| == |created|
    {
      n := |pending|;
      assert created.Keys == pending.Keys + (Settled().Keys - pending.Keys);
      assert |created.Keys| == |pending.Keys| + |Settled().Keys - pending.Keys|;
    }
  }

  /** What the observer of new requests does about one. */
  datatype Reaction = Silent | Answers(verdict: Verdict) | Resolves(verdict: Verdict)

  ghost function Observed(w: World, id: Id, observed: Reaction): World {
    match observed
    case Silent => w
    case Answers(v) => Step(w, Answer(id, v))
    case Resolves(v) => Step(w, Direct(id, v))
  }

  lemma ObservedKeeps(w: World, id: Id, observed: Reaction)
    requires Inv(w)
    ensures Inv(Observed(w, id, observed))
  {
  }

  /** The gate: its suspended callers and the registry they ask. */
  class ApprovalService {
    const manager: InMemoryApprovalManager
    var waits: map<Id, Wait>

    ghost predicate Is(w: World)
      reads this, manager, manager.created.Values
    {
      && manager.Valid() && waits.Keys == manager.created.Keys
      && w == World(manager.pending.Keys, manager.Settled(), waits)
    }

    constructor ()
      ensures Is(START) && fresh(manager)
    {
      manager := new InMemoryApprovalManager();
      waits := map[];
    }

    /**
     * `requestApproval` up to where it waits; `observed` is what the manager's observer does
     * when the request is created.  A headless run answers itself and returns.
     */
    method RequestApproval(id: Id, headless: bool, observed: Reaction, ghost w: World) returns (answer: Option<Verdict>)
      requires Is(w) && Inv(w) && id !in waits
      modifies this, manager, manager.created.Values
      ensures Is(Step(Observed(Step(w, Ask(id, headless)), id, observed), Begin(id)))
      ensures answer == if headless then Some(HEADLESS) else None
    {
      var request := Open(id, headless, w);
      ghost var u := Step(w, Ask(id, headless));
      StepKeeps(w, Ask(id, headless));
      Observe(id, observed, request, u);
      ObservedKeeps(u, id, observed);
      answer := BeginWait(id, headless, request, Observed(u, id, observed));
    }

    /** The observer's part. */
    method Observe(id: Id, observed: Reaction, request: ApprovalRequest, ghost u: World)
      requires Is(u) && Inv(u) && id in waits && waits[id].Asking?
      requires id in manager.created && manager.created[id] == request
      modifies this, manager, manager.created.Values
      ensures Is(Observed(u, id, observed)) && manager.created == old(manager.created) && waits == old(waits)
    {
      match observed {
        case Silent =>
        case Answers(v) => var _ := AnswerRequest(id, v, u);
        case Resolves(v) => ResolveDirectly(id, v, request, u);
      }
    }

    method Open(id: Id, headless: bool, ghost w: World) returns (request: ApprovalRequest)
      requires Is(w) && Inv(w) && id !in waits
      modifies this, manager
      ensures Is(Step(w, Ask(id, headless))) && fresh(manager.created.Values - old(manager.created.Values))
      ensures id in waits && waits[id] == Asking(headless) && id in manager.created && manager.created[id] == request
    {
      request := manager.CreateRequest(id);
      waits := waits[id := Asking(headless)];
    }

    /** Headless, the caller answers itself; otherwise it waits for an answer, or has one. */
    method BeginWait(id: Id, headless: bool, request: ApprovalRequest, ghost w: World) returns (answer: Option<Verdict>)
      requires Is(w) && Inv(w) && id in waits && waits[id] == Asking(headless)
      requires id in manager.created && manager.created[id] == request
      modifies this, manager, manager.created.Values
      ensures Is(Step(w, Begin(id)))
      ensures answer == if headless then Some(HEADLESS) else None
    {
      answer := None;
      if headless {
        SettleOwn(id, HEADLESS, w);
        answer := Some(HEADLESS);
      } else {
        waits := waits[id := if request.result.Some? then Won(request.result.value) else Racing];
      }
    }

    method SettleOwn(id: Id, v: Verdict, ghost w: World)
      requires Is(w) && id in waits
      modifies this, manager, manager.created.Values
      ensures Is(AnswerOwn(w, id, v)) && manager.created == old(manager.created)
      ensures id !in manager.pending && waits == old(waits)[id := Returned(v)]
    {
      var _ := manager.ResolveApproval(id, v);
      waits := waits[id := Returned(v)];
    }

    /** Anyone's answer; the caller learns of it if it waits and its deadline has not passed. */
    method AnswerRequest(id: Id, v: Verdict, ghost w: World) returns (taken: bool)
      requires Is(w) && Inv(w)
      modifies this, manager, manager.created.Values
      ensures Is(Step(w, Answer(id, v))) && (taken <==> id in w.pending)
      ensures manager.created == old(manager.created)
    {
      taken := Settled(id, v, w);
      if taken {
        Conclude(id, Won(v), Settle(w, id, v));
      }
    }

    method Settled(id: Id, v: Verdict, ghost w: World) returns (taken: bool)
      requires Is(w)
      modifies manager, manager.created.Values
      ensures Is(Settle(w, id, v)) && (taken <==> id in w.pending) && manager.created == old(manager.created)
    {
      taken := manager.ResolveApproval(id, v);
    }

    /** Whoever holds a request calls its own `resolve`; the registry keeps it. */
    method ResolveDirectly(id: Id, v: Verdict, request: ApprovalRequest, ghost w: World)
      requires Is(w) && Inv(w) && id in manager.created && manager.created[id] == request
      modifies this, request
      ensures Is(Step(w, Direct(id, v))) && manager.created == old(manager.created)
    {
      var first := request.result.None?;
      request.Resolve(v);
      if first {
        Conclude(id, Won(v), w.(settled := w.settled[id := v]));
      }
    }

    /** The deadline passes. */
    method Deadline(id: Id, ghost w: World)
      requires Is(w)
      modifies this
      ensures Is(Step(w, Expire(id)))
    {
      Conclude(id, Expired, w);
    }

    method Conclude(id: Id, outcome: Wait, ghost w: World)
      requires Is(w)
      modifies this
      ensures Is(Decide(w, id, outcome))
    {
      if id in waits && waits[id].Racing? {
        waits := waits[id := outcome];
      }
    }

    /** The caller runs on; after a timeout it answers its own request first. */
    method ResumeCaller(id: Id, ghost w: World) returns (answer: Option<Verdict>)
      requires Is(w) && Inv(w)
      modifies this, manager, manager.created.Values
      ensures Is(Step(w, Resume(id)))
      ensures answer.Some? ==> id in waits && waits[id] == Returned(answer.value)
      ensures answer.Some? ==> (id in manager.pending <==> id in old(manager.pending) && old(waits)[id].Won?)
    {
      if id in waits {
        match waits[id] {
          case Won(v) =>
            waits := waits[id := Returned(v)];
            return Some(v);
          case Expired =>
            SettleOwn(id, TIMED_OUT, w);
            return Some(TIMED_OUT);
          case _ =>
        }
      }
      return None;
    }
  }
}
