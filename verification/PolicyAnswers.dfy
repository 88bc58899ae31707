/** What every call ends in: the record it owes, told from the store it started on
    alone, is committed and answered, or the call is refused and writes nothing. */
module PolicyAnswers {
  import opened Results
  import opened PolicyTypes
  import opened PolicyEngine
  import opened PolicyLineage
  import opened PolicyView
  import opened PolicyStore
  import opened PolicyRoute
  import opened PolicyRuns
  import opened PolicyReplays

  // ---------------------------------------------------------------- what a call owes

  /** The work unit has been opened. */
  ghost predicate Opened(s: StoreView, issue: int) {
    BaselineId(s.project, issue) in s.records && s.records[BaselineId(s.project, issue)].BaselineRecord?
  }

  ghost function BaselineOf(s: StoreView, issue: int): Baseline
    requires Opened(s, issue)
  {
    s.records[BaselineId(s.project, issue)].baseline
  }

  /** The owner opens the unit from its original issue, with distinct original clauses. */
  ghost predicate MayOpen(call: Call)
    requires call.Open?
  {
    && call.source.byOwner && call.source.kind == OriginalIssue && call.clauses != []
    && (forall i, j :: 0 <= i < j < |call.clauses| ==> call.clauses[i].id != call.clauses[j].id)
    && forall i :: 0 <= i < |call.clauses| ==> call.clauses[i].original
  }

  /** The clause's body in force, by the unit's committed lineage. */
  ghost function BodyInForce(s: StoreView, issue: int, c: string): Option<Clause>
    requires Opened(s, issue)
  {
    LastBody(BaselineOf(s, issue), TransitionsOf(s), LineageOf(s, issue), c)
  }

  /** The owner proposes for an opened unit a body of that clause, not marked as an
      original one, and labels the change truthfully. */
  ghost predicate MayPropose(s: StoreView, call: Call)
    requires call.Propose?
  {
    && call.source.byOwner && Opened(s, call.issue) && call.baseline.id == BaselineId(s.project, call.issue)
    && (call.proposed.Some? ==> call.proposed.value.id == call.clauseId && !call.proposed.value.original)
    && Classify(BodyInForce(s, call.issue, call.clauseId), call.proposed) == Ok(call.operation)
  }

  /** A clause in force is bound at its head, any other clause at the baseline. */
  ghost function BoundTo(s: StoreView, issue: int, c: string): Binding
    requires Opened(s, issue)
  {
    BindingOf(BaselineOf(s, issue), TransitionsOf(s), LineageOf(s, issue), c)
  }

  ghost function OwedTransition(s: StoreView, call: Call): Transition
    requires call.Propose? && Opened(s, call.issue)
  {
    Transition(s.project, call.issue, Ref(BaselineKind, BaselineId(s.project, call.issue)), call.clauseId,
               call.operation, call.proposedBy, BoundTo(s, call.issue, call.clauseId), call.proposed, false,
               call.source, call.rollback)
  }

  /** The target is the unit's baseline or one of its committed transitions. */
  ghost predicate TargetsUnit(s: StoreView, issue: int, target: Ref) {
    || target == Ref(BaselineKind, BaselineId(s.project, issue))
    || (target.kind == TransitionKind && target.id in s.records && s.records[target.id].TransitionRecord?
        && s.records[target.id].transition.issue == issue)
  }

  /** The genesis key signed exactly the fields of this adoption. */
  ghost predicate SignedByGenesis(s: StoreView, call: Call)
    requires call.Adopt?
  {
    && call.governance.core.admitted && call.governance.core.url == call.source.url
    && call.governance.core.issue == call.issue
    && call.governance.signature ==
       Some(Signature(s.trust.keyName, s.trust.publicKey,
                      SigningPayload(s.project, call.issue, call.target, call.owner, call.source, call.governance.core,
                                     call.projectBinding, call.decidedAt)))
  }

  ghost predicate MayAdopt(s: StoreView, call: Call)
    requires call.Adopt?
  {
    && call.source.byOwner && call.owner == HUMAN_AUTHORITY && call.projectBinding == s.trust.projectBinding
    && Opened(s, call.issue) && TargetsUnit(s, call.issue, call.target) && SignedByGenesis(s, call)
  }

  ghost function OwedAdoption(s: StoreView, call: Call): Adoption
    requires call.Adopt?
  {
    Adoption(s.project, call.issue, call.target, call.owner, call.source, call.governance, call.projectBinding,
             call.decidedAt)
  }

  /** The record a call owes over a store; none if it is to be refused. */
  ghost function Owed(s: StoreView, call: Call): Option<Record> {
    match call
    case Open(issue, source, clauses, _) =>
      if MayOpen(call) then Some(BaselineRecord(Baseline(s.project, issue, source, clauses))) else None
    case Propose(_, _, _, _, _, _, _, _, _) =>
      if MayPropose(s, call) then Some(TransitionRecord(OwedTransition(s, call))) else None
    case Adopt(_, _, _, _, _, _, _, _) =>
      var a := OwedAdoption(s, call);
      if MayAdopt(s, call)
         && (AdoptionId(a) in s.records
             || Admissible(BaselineOf(s, call.issue), TransitionsOf(s), LineageOf(s, call.issue), a))
      then Some(AdoptionRecord(a)) else None
  }

  /** Why a proposal that is not owed is refused: it names no baseline, or another
      unit's; its body is not the clause's own, is marked original, or is none where none
      is in force; or its label is not the true one. */
  ghost function WhyNotProposed(s: StoreView, call: Call): PolicyError
    requires call.Propose?
  {
    var id := call.baseline.id;
    if id !in s.records || !s.records[id].BaselineRecord? then Provenance
    else if id != BaselineId(s.project, call.issue) then LineageConflict
    else if call.proposed.Some? && (call.proposed.value.id != call.clauseId || call.proposed.value.original) then
      InvalidInput
    else if call.proposed.None? && BodyInForce(s, call.issue, call.clauseId).None? then InvalidInput
    else UndeclaredChange
  }

  /** Why an adoption that is not owed is refused: its target is of no kind that can be
      adopted, is not committed, or is another unit's; it names another project binding,
      another owner, or is not signed; or the lineage does not admit it. */
  ghost function WhyNotAdopted(s: StoreView, call: Call): PolicyError
    requires call.Adopt?
  {
    var id := call.target.id;
    if call.target.kind == AdoptionKind then InvalidInput
    else if id !in s.records || s.records[id].AdoptionRecord? || s.records[id].ForeignRecord?
            || (s.records[id].BaselineRecord? <==> call.target.kind == TransitionKind) then Provenance
    else if !Opened(s, call.issue) || !TargetsUnit(s, call.issue, call.target) then LineageConflict
    else if call.projectBinding != s.trust.projectBinding then Provenance
    else if call.owner != HUMAN_AUTHORITY then InvalidInput
    else if !SignedByGenesis(s, call) then Unauthorized
    else
      WhyRefused(BaselineOf(s, call.issue), TransitionsOf(s), LineageOf(s, call.issue), OwedAdoption(s, call))
  }

  /** Why a call that owes nothing over a store is refused. */
  ghost function WhyRefusedOn(s: StoreView, call: Call): PolicyError {
    if !call.source.byOwner then Unauthorized
    else
      match call
      case Open(_, _, _, _) => InvalidInput
      case Propose(_, _, _, _, _, _, _, _, _) => WhyNotProposed(s, call)
      case Adopt(_, _, _, _, _, _, _, _) => WhyNotAdopted(s, call)
  }

  // ---------------------------------------------------------------- only other domains commit

  /** The two stores hold the same records of the policy, in the same order. */
  ghost predicate SameUnits(s: StoreView, s': StoreView) {
    && s'.project == s.project && s'.trust == s.trust
    && (forall id: RecordId :: !id.ForeignId? ==> (id in s'.records <==> id in s.records))
    && (forall id: RecordId :: !id.ForeignId? && id in s.records ==> s'.records[id] == s.records[id])
    && (forall issue :: LineageOf(s', issue) == LineageOf(s, issue))
  }

  lemma ForeignKeepsUnits(s0: StoreView, s: StoreView, name: string, at: string)
    requires SameUnits(s0, s) && Journaled(s) && ForeignId(name) !in s.records
    ensures SameUnits(s0, Appended(s, ForeignRecord(name), at))
  {
    var s' := Appended(s, ForeignRecord(name), at);
    forall issue
      ensures LineageOf(s', issue) == LineageOf(s0, issue)
    {
      AppendedLineage(s, ForeignRecord(name), at, issue);
    }
  }

  lemma ForeignIdHoldsForeign(s: StoreView, id: RecordId)
    requires RecordsOk(s) && id in s.records
    ensures id.ForeignId? <==> s.records[id].ForeignRecord?
  {
    assert IdOf(s.records[id]) == id;
  }

  lemma SameResolutions(s0: StoreView, s: StoreView)
    requires SameUnits(s0, s) && RecordsOk(s0) && RecordsOk(s)
    ensures forall id :: ResolveBaseline(s, id) == ResolveBaseline(s0, id)
    ensures forall id :: ResolveTransition(s, id) == ResolveTransition(s0, id)
    ensures TransitionsOf(s) == TransitionsOf(s0)
  {
    forall id
      ensures ResolveBaseline(s, id) == ResolveBaseline(s0, id) && ResolveTransition(s, id) == ResolveTransition(s0, id)
    {
      if id in s.records { ForeignIdHoldsForeign(s, id); }
      if id in s0.records { ForeignIdHoldsForeign(s0, id); }
    }
  }

  lemma SameTargets(s0: StoreView, s: StoreView, issue: int, target: Ref)
    requires SameUnits(s0, s) && RecordsOk(s0) && RecordsOk(s)
    ensures ResolveTarget(s, issue, target) == ResolveTarget(s0, issue, target)
  {
    SameResolutions(s0, s);
  }

  // ---------------------------------------------------------------- what the reads of a call find

  lemma ResolvesBaselineExactly(s: StoreView, issue: int, id: RecordId)
    requires RecordsOk(s)
    ensures var b := ResolveBaseline(s, id);
            && (b.Some? && b.value.issue == issue <==> id == BaselineId(s.project, issue) && Opened(s, issue))
            && (b.Some? && b.value.issue == issue ==> b.value == BaselineOf(s, issue))
            && (b.Some? ==> b.value.project == s.project)
  {
    if id in s.records { assert IdOf(s.records[id]) == id; }
    if BaselineId(s.project, issue) in s.records {
      assert IdOf(s.records[BaselineId(s.project, issue)]) == BaselineId(s.project, issue);
    }
  }

  lemma ResolvesTargetExactly(s: StoreView, issue: int, target: Ref)
    requires RecordsOk(s)
    ensures var b := ResolveTarget(s, issue, target);
            (b.Ok? <==> Opened(s, issue) && TargetsUnit(s, issue, target))
            && (b.Ok? ==> b.value == BaselineOf(s, issue))
  {
    ResolvesBaselineExactly(s, issue, target.id);
    if target.kind == TransitionKind && target.id in s.records && s.records[target.id].TransitionRecord? {
      assert IdOf(s.records[target.id]) == target.id && RecordOk(s, s.records[target.id]);
      ResolvesBaselineExactly(s, issue, s.records[target.id].transition.baseline.id);
    }
  }

  lemma AuthorisedExactly(s: StoreView, call: Call)
    requires call.Adopt?
    ensures Authorised(s.trust, RequestedAdoption(s.project, call)) <==> SignedByGenesis(s, call)
    ensures OwedAdoption(s, call) == RequestedAdoption(s.project, call)
  {
  }

  lemma CollectsWhatIsAdopted(s: StoreView, l: seq<Adoption>)
    requires AdoptedResolve(s, l) && forall i :: 0 <= i < |l| ==> l[i].target.kind != AdoptionKind
    ensures forall b :: Fold(b, Collected(s, l), l) == Fold(b, TransitionsOf(s), l)
  {
    forall i | 0 <= i < |l| && l[i].target.kind != BaselineKind
      ensures l[i].target.id in Collected(s, l) <==> l[i].target.id in TransitionsOf(s)
    {
      assert l[i].target == TransitionRef(l[i].target.id);
    }
    forall b ensures Fold(b, Collected(s, l), l) == Fold(b, TransitionsOf(s), l) {
      FoldReadsOnlyAdopted(b, Collected(s, l), TransitionsOf(s), l);
    }
  }

  lemma ListedTargetsAreOfUnits(s: StoreView, issue: int)
    requires Journaled(s) && RecordsOk(s)
    ensures var l := LineageOf(s, issue);
            AdoptedResolve(s, l) && forall i :: 0 <= i < |l| ==> l[i].target.kind != AdoptionKind
  {
    var l := LineageOf(s, issue);
    ListedResolve(s, issue);
    forall i | 0 <= i < |l| ensures l[i].target.kind != AdoptionKind {
      LineageHoldsCommitted(s, issue, l[i]);
      var id := AdoptionId(l[i]);
      assert IdOf(s.records[id]) == id && RecordOk(s, s.records[id]);
    }
  }

  /** The simulation of an adoption succeeds exactly when it is admissible. */
  lemma SimulatesExactly(s: StoreView, a: Adoption)
    requires Sound(s) && Opened(s, a.issue) && TargetsUnit(s, a.issue, a.target)
    ensures var (b, l) := (BaselineOf(s, a.issue), LineageOf(s, a.issue) + [a]);
            && AdoptedResolve(s, l)
            && (Fold(b, Collected(s, l), l).Ok? <==> Admissible(b, TransitionsOf(s), LineageOf(s, a.issue), a))
            && (Fold(b, Collected(s, l), l).Err? ==>
                  Fold(b, Collected(s, l), l).error == WhyRefused(b, TransitionsOf(s), LineageOf(s, a.issue), a))
  {
    var (b, l) := (BaselineOf(s, a.issue), LineageOf(s, a.issue));
    ResolvesBaselineExactly(s, a.issue, BaselineId(s.project, a.issue));
    assert LineageFolds(s, a.issue);
    ListedTargetsAreOfUnits(s, a.issue);
    ResolvesTargetExactly(s, a.issue, a.target);
    CollectsWhatIsAdopted(s, l + [a]);
    FoldOfExtension(b, TransitionsOf(s), l, a);
    NextFoldsExactlyWhenAdmissible(b, TransitionsOf(s), l, a);
    if !Admissible(b, TransitionsOf(s), l, a) { NextIsRefusedWhy(b, TransitionsOf(s), l, a); }
  }

  lemma BindsExactly(s: StoreView, issue: int, st: FoldState, c: string)
    requires Sound(s) && Opened(s, issue)
    requires Fold(BaselineOf(s, issue), TransitionsOf(s), LineageOf(s, issue)) == Ok(st)
    ensures ExpectedPrior(BaselineOf(s, issue), TransitionsOf(s), ById(ViewOf(BaselineOf(s, issue), st).clauses), c) ==
            Ok((BoundTo(s, issue, c), BodyInForce(s, issue, c)))
  {
    ViewReadsBack(BaselineOf(s, issue), st);
    PriorIsRead(BaselineOf(s, issue), TransitionsOf(s), LineageOf(s, issue), st, c);
  }

  lemma BuildsExactly(b: Baseline, call: Call, binding: Binding, prior: Option<Clause>)
    requires call.Propose?
    ensures var t := BuildTransition(b, call.issue, call.clauseId, call.operation, call.proposedBy, binding,
                                     call.proposed, prior, call.source, call.rollback);
            && (t.Ok? <==>
                && (call.proposed.Some? ==> call.proposed.value.id == call.clauseId && !call.proposed.value.original)
                && Classify(prior, call.proposed) == Ok(call.operation))
            && (t.Ok? ==> t.value == Transition(b.project, call.issue, BaselineRef(b), call.clauseId, call.operation,
                                                call.proposedBy, binding, call.proposed, false, call.source,
                                                call.rollback))
            && (t.Err? ==>
                  t.error ==
                  if call.proposed.Some? && (call.proposed.value.id != call.clauseId || call.proposed.value.original)
                  then InvalidInput
                  else if call.proposed.None? && prior.None? then InvalidInput else UndeclaredChange)
  {
  }

  lemma ProposedFromFold(s: StoreView, b: Baseline, l: seq<Adoption>, call: Call, st: FoldState,
                         binding: Binding, prior: Option<Clause>)
    requires call.Propose? && AdoptedResolve(s, l) && Fold(b, Collected(s, l), l) == Ok(st)
    requires ExpectedPrior(b, TransitionsOf(s), ById(ViewOf(b, st).clauses), call.clauseId) == Ok((binding, prior))
    ensures ProposedTransition(s, b, l, call) ==
            BuildTransition(b, call.issue, call.clauseId, call.operation, call.proposedBy, binding,
                            call.proposed, prior, call.source, call.rollback)
  {
  }

  /** What the proposing step builds from the listed lineage. */
  lemma ProposesExactly(s: StoreView, call: Call)
    requires Sound(s) && call.Propose? && call.source.byOwner && Opened(s, call.issue)
    requires call.baseline.id == BaselineId(s.project, call.issue)
    ensures var t := ProposedTransition(s, BaselineOf(s, call.issue), LineageOf(s, call.issue), call);
            && (t.Ok? <==> MayPropose(s, call)) && (t.Ok? ==> t.value == OwedTransition(s, call))
            && (t.Err? ==> t.error == WhyNotProposed(s, call))
  {
    var (b, ts, l) := (BaselineOf(s, call.issue), TransitionsOf(s), LineageOf(s, call.issue));
    var (binding, prior) := (BoundTo(s, call.issue, call.clauseId), BodyInForce(s, call.issue, call.clauseId));
    ResolvesBaselineExactly(s, call.issue, call.baseline.id);
    assert LineageFolds(s, call.issue);
    ListedTargetsAreOfUnits(s, call.issue);
    CollectsWhatIsAdopted(s, l);
    BindsExactly(s, call.issue, Fold(b, ts, l).value, call.clauseId);
    ProposedFromFold(s, b, l, call, Fold(b, ts, l).value, binding, prior);
    BuildsExactly(b, call, binding, prior);
  }

  // ---------------------------------------------------------------- a call on its way

  /** What each program point has established about the store the call started on. */
  ghost predicate OnItsWay(s0: StoreView, p: Proc) {
    match p.pc
    case Start => true
    case ProposeList => ReadyToPropose(s0, p)
    case ProposeFold => ReadyToPropose(s0, p) && p.listed == LineageOf(s0, p.call.issue)
    case Check => p.candidate.Some? && p.candidate == Owed(s0, p.call)
    case AdoptLoad => p.call.Adopt? && p.call.source.byOwner
    case AdoptResolve => p.call.Adopt? && p.call.source.byOwner
    case AdoptCheck => ReadyToAdopt(s0, p)
    case AdoptList => ReadyToAdopt(s0, p) && IdOf(p.candidate.value) !in s0.records
    case AdoptFold =>
      ReadyToAdopt(s0, p) && IdOf(p.candidate.value) !in s0.records && p.listed == LineageOf(s0, p.call.issue)
    case Done => p.outcome.Some? && Settled(s0, p.call, p.outcome.value)
    case _ => p.candidate.Some? && p.candidate == Owed(s0, p.call) && IdOf(p.candidate.value) !in s0.records
  }

  ghost predicate ReadyToPropose(s0: StoreView, p: Proc) {
    && p.call.Propose? && p.call.source.byOwner && Opened(s0, p.call.issue)
    && p.call.baseline.id == BaselineId(s0.project, p.call.issue) && p.lineage == Some(BaselineOf(s0, p.call.issue))
  }

  ghost predicate ReadyToAdopt(s0: StoreView, p: Proc) {
    && p.call.Adopt? && MayAdopt(s0, p.call) && p.lineage == Some(BaselineOf(s0, p.call.issue))
    && p.candidate == Some(AdoptionRecord(OwedAdoption(s0, p.call)))
  }

  /** The answers that write nothing: a refusal where nothing is owed; a replay, or the
      refusal of a conflicting one, where the owed record's id is taken. */
  ghost predicate Settled(s0: StoreView, call: Call, answer: Result<Record, PolicyError>) {
    match Owed(s0, call)
    case None => answer == Err(WhyRefusedOn(s0, call))
    case Some(r) =>
      && IdOf(r) in s0.records
      && answer == if s0.records[IdOf(r)] == r then Ok(r) else Err(ConflictingReplay)
  }

  lemma StartsOnItsWay(s0: StoreView, s: StoreView, p: Proc)
    requires RecordsOk(s0) && RecordsOk(s) && SameUnits(s0, s) && p.pc == Start
    ensures OnItsWay(s0, StepStart(s, p))
  {
    SameResolutions(s0, s);
    if p.call.Propose? { ResolvesBaselineExactly(s0, p.call.issue, p.call.baseline.id); }
  }

  lemma ListsOnItsWay(s0: StoreView, s: StoreView, p: Proc, next: Pc)
    requires RecordsOk(s0) && RecordsOk(s) && SameUnits(s0, s) && WellStaged(p) && OnItsWay(s0, p)
    requires (p.pc == ProposeList && next == ProposeFold) || (p.pc == AdoptList && next == AdoptFold)
    ensures OnItsWay(s0, StepList(s, p, next))
  {
    VerifiedInSound(s);
    ResolvesBaselineExactly(s0, p.call.issue, BaselineId(s0.project, p.call.issue));
    assert IdOf(s0.records[BaselineId(s0.project, p.call.issue)]) == BaselineId(s0.project, p.call.issue);
  }

  lemma SameProposals(s0: StoreView, s: StoreView, b: Baseline, l: seq<Adoption>, call: Call)
    requires SameUnits(s0, s) && RecordsOk(s0) && RecordsOk(s) && call.Propose?
    ensures ProposedTransition(s, b, l, call) == ProposedTransition(s0, b, l, call)
    ensures Collected(s, l) == Collected(s0, l) && (AdoptedResolve(s, l) <==> AdoptedResolve(s0, l))
  {
    SameCollections(s0, s, l);
  }

  lemma SameCollections(s0: StoreView, s: StoreView, l: seq<Adoption>)
    requires SameUnits(s0, s) && RecordsOk(s0) && RecordsOk(s)
    ensures TransitionsOf(s) == TransitionsOf(s0)
    ensures Collected(s, l) == Collected(s0, l) && (AdoptedResolve(s, l) <==> AdoptedResolve(s0, l))
  {
    SameResolutions(s0, s);
    forall id ensures id in Collected(s, l) <==> id in Collected(s0, l) {
      assert ResolveTransition(s, id) == ResolveTransition(s0, id);
    }
  }

  lemma ProposesOnItsWay(s0: StoreView, s: StoreView, p: Proc)
    requires Sound(s0) && RecordsOk(s) && SameUnits(s0, s) && p.pc == ProposeFold && OnItsWay(s0, p)
    ensures OnItsWay(s0, StepProposeFold(s, p))
  {
    SameProposals(s0, s, p.lineage.value, p.listed, p.call);
    ProposesExactly(s0, p.call);
  }

  lemma ChecksOnItsWay(s0: StoreView, s: StoreView, p: Proc, next: Pc)
    requires SameUnits(s0, s) && WellStaged(p) && OnItsWay(s0, p)
    requires (p.pc == Check && next == Load) || (p.pc == AdoptCheck && next == AdoptList)
    ensures OnItsWay(s0, StepCheck(s, p, next))
  {
    var r := p.candidate.value;
    assert !IdOf(r).ForeignId?;
    assert p.pc == AdoptCheck && IdOf(r) in s0.records ==> Owed(s0, p.call) == Some(r);
  }

  lemma ResolvesOnItsWay(s0: StoreView, s: StoreView, p: Proc)
    requires RecordsOk(s0) && RecordsOk(s) && SameUnits(s0, s) && p.pc == AdoptResolve && OnItsWay(s0, p)
    ensures OnItsWay(s0, StepAdoptResolve(s, p))
  {
    SameTargets(s0, s, p.call.issue, p.call.target);
    ResolvesTargetExactly(s0, p.call.issue, p.call.target);
    AuthorisedExactly(s0, p.call);
  }

  lemma SimulatesOnItsWay(s0: StoreView, s: StoreView, p: Proc)
    requires Sound(s0) && RecordsOk(s) && SameUnits(s0, s) && WellStaged(p) && p.pc == AdoptFold && OnItsWay(s0, p)
    ensures OnItsWay(s0, StepAdoptFold(s, p))
  {
    var a := p.candidate.value.adoption;
    SameCollections(s0, s, p.listed + [a]);
    SimulatesExactly(s0, a);
    LineageHoldsCommitted(s0, a.issue, a);
    AdoptsOwnTarget(s0, p.call);
  }

  lemma AdoptsOwnTarget(s: StoreView, call: Call)
    requires call.Adopt? && MayAdopt(s, call)
    ensures Owed(s, call).None? ==>
              WhyRefusedOn(s, call) ==
              WhyRefused(BaselineOf(s, call.issue), TransitionsOf(s), LineageOf(s, call.issue), OwedAdoption(s, call))
  {
  }

  /** A step that reads keeps a call on its way. */
  lemma ReadsOnItsWay(s0: StoreView, s: StoreView, p: Proc)
    requires Sound(s0) && Sound(s) && SameUnits(s0, s) && WellStaged(p) && OnItsWay(s0, p)
    requires p.pc != Swap && p.pc != AdoptSwap
    ensures Step(s, p).0 == s && OnItsWay(s0, Step(s, p).1)
  {
    match p.pc
    case Start => StartsOnItsWay(s0, s, p);
    case ProposeList => ListsOnItsWay(s0, s, p, ProposeFold);
    case ProposeFold => ProposesOnItsWay(s0, s, p);
    case Check => ChecksOnItsWay(s0, s, p, Load);
    case AdoptResolve => ResolvesOnItsWay(s0, s, p);
    case AdoptCheck => ChecksOnItsWay(s0, s, p, AdoptList);
    case AdoptList => ListsOnItsWay(s0, s, p, AdoptFold);
    case AdoptFold => SimulatesOnItsWay(s0, s, p);
    case Load =>
    case AdoptLoad =>
    case Done =>
  }

  // ---------------------------------------------------------------- the swap

  /** The store a call started on with its record r, besides what others committed. */
  ghost predicate Holds(s0: StoreView, s: StoreView, r: Record) {
    && IdOf(r) !in s0.records && IdOf(r) in s.records && s.records[IdOf(r)] == r
    && (forall id: RecordId :: !id.ForeignId? && id != IdOf(r) ==> (id in s.records <==> id in s0.records))
    && (forall id: RecordId :: !id.ForeignId? && id in s0.records ==> s.records[id] == s0.records[id])
  }

  /** The call committed what it owed. */
  ghost predicate Finished(s0: StoreView, s: StoreView, p: Proc) {
    && p.pc == Done && Owed(s0, p.call).Some?
    && Holds(s0, s, Owed(s0, p.call).value) && p.outcome == Some(Ok(Owed(s0, p.call).value))
  }

  /** How many stale states the call has met or is about to meet. */
  ghost function Stales(s: StoreView, p: Proc): nat {
    p.attempts
    + if p.pc in {Swap, AdoptResolve, AdoptCheck, AdoptList, AdoptFold, AdoptSwap}
         && p.snapshot.revision < s.state.revision
      then 1 else 0
  }

  /** Swapping against a state that has moved: nothing is written, and the call loads again. */
  lemma StaleSwapRetries(s0: StoreView, s: StoreView, p: Proc)
    requires Journaled(s) && WellStaged(p) && OnItsWay(s0, p) && (p.pc == Swap || p.pc == AdoptSwap)
    requires p.snapshot.revision < s.state.revision && IdOf(p.candidate.value) !in s.records
    requires p.attempts + 1 < MAX_COMMIT_RETRIES
    ensures var (s', p') := Step(s, p);
            s' == s && p'.pc != Done && Stales(s, p') == Stales(s, p) && (OnItsWay(s0, p') || p'.pc == AdoptLoad)
    ensures Step(s, p).1 == p.(attempts := p.attempts + 1, pc := if p.pc == Swap then Load else AdoptLoad)
  {
    CommitAppendsOnce(s, p.snapshot, p.candidate.value, p.call.committedAt);
  }

  lemma CurrentSwapCommits(s: StoreView, p: Proc)
    requires Journaled(s) && WellStaged(p) && (p.pc == Swap || p.pc == AdoptSwap)
    requires p.snapshot == s.state && IdOf(p.candidate.value) !in s.records
    ensures Step(s, p) == (Appended(s, p.candidate.value, p.call.committedAt), Succeed(p, p.candidate.value))
  {
    CommitAppendsOnce(s, p.snapshot, p.candidate.value, p.call.committedAt);
  }

  lemma CommittingFinishes(s0: StoreView, s: StoreView, p: Proc)
    requires SameUnits(s0, s) && p.candidate.Some? && p.candidate == Owed(s0, p.call)
    requires IdOf(p.candidate.value) !in s.records && IdOf(p.candidate.value) !in s0.records
    ensures Finished(s0, Appended(s, p.candidate.value, p.call.committedAt), Succeed(p, p.candidate.value))
  {
    OwedIsNoForeign(s0, p.call);
  }

  lemma OwedWhenSwapping(s0: StoreView, s: StoreView, p: Proc)
    requires SameUnits(s0, s) && OnItsWay(s0, p) && (p.pc == Swap || p.pc == AdoptSwap)
    ensures p.candidate.Some? && p.candidate == Owed(s0, p.call)
    ensures IdOf(p.candidate.value) !in s0.records && IdOf(p.candidate.value) !in s.records
    ensures p.pc == AdoptSwap && p.call.Adopt? ==> p.call.source.byOwner
  {
    OwedIsNoForeign(s0, p.call);
  }

  lemma SwapOnItsWay(s0: StoreView, s: StoreView, p: Proc)
    requires Sound(s) && Chained(s) && ReadFrom(s, p) && SameUnits(s0, s) && WellStaged(p) && OnItsWay(s0, p)
    requires (p.pc == Swap || p.pc == AdoptSwap) && Stales(s, p) < MAX_COMMIT_RETRIES
    ensures var (s', p') := Step(s, p);
            || (s' == s && OnItsWay(s0, p') && Stales(s, p') <= Stales(s, p))
            || (s' == Appended(s, p.candidate.value, p.call.committedAt) && Finished(s0, s', p'))
  {
    OwedWhenSwapping(s0, s, p);
    if p.snapshot.revision == s.state.revision {
      CurrentSwapCommits(s, p);
      CommittingFinishes(s0, s, p);
    } else {
      StaleSwapRetries(s0, s, p);
    }
  }

  lemma ReadingIsNotStaler(s: StoreView, p: Proc)
    requires WellStaged(p) && p.pc != Swap && p.pc != AdoptSwap
    ensures Stales(s, Step(s, p).1) <= Stales(s, p) || Step(s, p).1.pc == Done
  {
  }

  lemma OwedIsNoForeign(s: StoreView, call: Call)
    ensures Owed(s, call).Some? ==> !IdOf(Owed(s, call).value).ForeignId?
  {
  }

  // ---------------------------------------------------------------- runs in which only other domains act meanwhile

  /** Nothing but this call's own steps and the commits of other domains. */
  predicate OnlyForeign(more: seq<Action>, i: nat) {
    forall k :: 0 <= k < |more| ==> more[k] == Advance(i) || more[k].ForeignCommit?
  }

  function Foreigners(more: seq<Action>): nat {
    if more == [] then 0
    else Foreigners(more[..|more| - 1]) + if more[|more| - 1].ForeignCommit? then 1 else 0
  }

  /** Where a call stands after `f` foreign commits; without any, what the store is. */
  ghost predicate Answering(s0: StoreView, sys: Sys, i: nat, f: nat) {
    && SysOk(sys) && AllRead(sys) && i < |sys.procs|
    && var (s, p) := (sys.store, sys.procs[i]);
    || (SameUnits(s0, s) && OnItsWay(s0, p) && (p.pc == Done || Stales(s, p) <= f) && (f == 0 ==> s == s0))
    || (Finished(s0, s, p) && (f == 0 ==> s == Appended(s0, Owed(s0, p.call).value, p.call.committedAt)))
  }

  lemma ForeignKeepsHolding(s0: StoreView, s: StoreView, p: Proc, name: string, at: string)
    requires Finished(s0, s, p)
    ensures Finished(s0, Appended(s, ForeignRecord(name), at), p)
  {
    OwedIsNoForeign(s0, p.call);
  }

  lemma StalesByOne(s: StoreView, s': StoreView, p: Proc)
    ensures Stales(s', p) <= Stales(s, p) + 1
  {
  }

  lemma ForeignKeepsAnswering(s0: StoreView, sys: Sys, i: nat, f: nat, name: string, at: string)
    requires Answering(s0, sys, i, f)
    ensures Answering(s0, Act(sys, ForeignCommit(name, at)), i, f + 1)
  {
    ActKeepsOk(sys, ForeignCommit(name, at));
    ActKeepsReads(sys, ForeignCommit(name, at));
    if ForeignId(name) !in sys.store.records {
      var s' := Appended(sys.store, ForeignRecord(name), at);
      StalesByOne(sys.store, s', sys.procs[i]);
      if Finished(s0, sys.store, sys.procs[i]) {
        ForeignKeepsHolding(s0, sys.store, sys.procs[i], name, at);
      } else {
        ForeignKeepsUnits(s0, sys.store, name, at);
      }
    }
  }

  /** The call is on its way, or committed what it owed just now. */
  ghost predicate Moved(s0: StoreView, s: StoreView, p: Proc, s': StoreView, p': Proc, f: nat) {
    || (s' == s && OnItsWay(s0, p') && (p'.pc == Done || Stales(s, p') <= f))
    || (p.candidate.Some? && s' == Appended(s, p.candidate.value, p.call.committedAt) && p.candidate == Owed(s0, p.call)
        && Finished(s0, s', p'))
  }

  lemma SwapMoves(s0: StoreView, s: StoreView, p: Proc, f: nat)
    requires Sound(s) && Chained(s) && ReadFrom(s, p) && WellStaged(p) && SameUnits(s0, s)
    requires OnItsWay(s0, p) && Stales(s, p) <= f < MAX_COMMIT_RETRIES && (p.pc == Swap || p.pc == AdoptSwap)
    ensures Moved(s0, s, p, Step(s, p).0, Step(s, p).1, f)
  {
    OwedWhenSwapping(s0, s, p);
    SwapOnItsWay(s0, s, p);
  }

  lemma ReadMoves(s0: StoreView, s: StoreView, p: Proc, f: nat)
    requires Sound(s0) && Sound(s) && WellStaged(p) && SameUnits(s0, s)
    requires OnItsWay(s0, p) && (p.pc == Done || Stales(s, p) <= f) && p.pc != Swap && p.pc != AdoptSwap
    ensures Moved(s0, s, p, Step(s, p).0, Step(s, p).1, f)
  {
    ReadsOnItsWay(s0, s, p);
    ReadingIsNotStaler(s, p);
  }

  lemma OwnStepAnswers(s0: StoreView, sys: Sys, i: nat, f: nat)
    requires Sound(s0) && Answering(s0, sys, i, f) && f < MAX_COMMIT_RETRIES
    ensures Answering(s0, Act(sys, Advance(i)), i, f)
  {
    var (s, p) := (sys.store, sys.procs[i]);
    assert ProcOk(s, p) && ReadFrom(s, p);
    ActKeepsOk(sys, Advance(i));
    ActKeepsReads(sys, Advance(i));
    OwnStep(sys, i);
    if !Finished(s0, s, p) {
      if p.pc == Swap || p.pc == AdoptSwap { SwapMoves(s0, s, p, f); } else { ReadMoves(s0, s, p, f); }
      OwnStepKeepsCall(s, p);
    }
  }

  lemma OwnStep(sys: Sys, i: nat)
    requires i < |sys.procs| && WellStaged(sys.procs[i])
    ensures var sys' := Act(sys, Advance(i));
            && sys'.store == Step(sys.store, sys.procs[i]).0 && |sys'.procs| == |sys.procs|
            && sys'.procs[i] == Step(sys.store, sys.procs[i]).1
            && (sys.procs[i].pc == Done ==> sys' == sys)
  {
    assert sys.procs[i].pc == Done ==> sys.procs[i := sys.procs[i]] == sys.procs;
  }

  lemma OwnStepKeepsCall(s: StoreView, p: Proc)
    requires WellStaged(p)
    ensures Step(s, p).1.call == p.call
  {
  }

  lemma {:induction false} StaysAnswering(s0: StoreView, sys: Sys, more: seq<Action>, i: nat)
    requires Sound(s0) && Answering(s0, sys, i, 0) && OnlyForeign(more, i) && Foreigners(more) < MAX_COMMIT_RETRIES
    ensures Answering(s0, Continue(sys, more), i, Foreigners(more))
  {
    if more != [] {
      var (n, a) := (|more| - 1, more[|more| - 1]);
      var before := Continue(sys, more[..n]);
      StaysAnswering(s0, sys, more[..n], i);
      ContinuesWithLastAction(sys, more);
      assert OnlyForeign(more[..n], i) && (a.ForeignCommit? || a == Advance(i));
      OneMoreAnswers(s0, before, a, i, Foreigners(more[..n]));
    }
  }

  lemma OneMoreAnswers(s0: StoreView, sys: Sys, a: Action, i: nat, f: nat)
    requires Sound(s0) && Answering(s0, sys, i, f) && f < MAX_COMMIT_RETRIES && (a.ForeignCommit? || a == Advance(i))
    ensures Answering(s0, Act(sys, a), i, if a.ForeignCommit? then f + 1 else f)
  {
    if a.ForeignCommit? { ForeignKeepsAnswering(s0, sys, i, f, a.name, a.at); } else { OwnStepAnswers(s0, sys, i, f); }
  }

  // ---------------------------------------------------------------- every call is answered

  /** What a call that started on s0 has done once it has ended on s. */
  ghost predicate Answered(s0: StoreView, s: StoreView, call: Call, outcome: Option<Result<Record, PolicyError>>) {
    match Owed(s0, call)
    case None => SameUnits(s0, s) && outcome == Some(Err(WhyRefusedOn(s0, call)))
    case Some(r) =>
      if IdOf(r) !in s0.records then Holds(s0, s, r) && outcome == Some(Ok(r))
      else SameUnits(s0, s) && outcome == Some(if s0.records[IdOf(r)] == r then Ok(r) else Err(ConflictingReplay))
  }

  lemma EndsAnswered(s0: StoreView, sys: Sys, i: nat, f: nat)
    requires Answering(s0, sys, i, f) && sys.procs[i].pc == Done
    ensures Answered(s0, sys.store, sys.procs[i].call, sys.procs[i].outcome)
    ensures f == 0 ==> sys.store == s0 || Finished(s0, sys.store, sys.procs[i])
    ensures f == 0 && sys.store != s0 ==>
              var r := Owed(s0, sys.procs[i].call);
              && r.Some? && IdOf(r.value) !in s0.records
              && sys.store == Appended(s0, r.value, sys.procs[i].call.committedAt)
  {
  }

  lemma StartsAnswering(sys: Sys, i: nat)
    requires SysOk(sys) && AllRead(sys) && i < |sys.procs| && sys.procs[i].pc == Start && sys.procs[i].attempts == 0
    ensures Answering(sys.store, sys, i, 0)
  {
  }

  lemma {:induction false} StartsFresh(
      project: string, trust: TrustRoot, calls: seq<Call>, actions: seq<Action>, i: nat)
    requires i < |calls|
    ensures i < |Run(project, trust, calls, actions).procs|
    ensures var p := Run(project, trust, calls, actions).procs[i];
            p.pc == Start ==> p == Begin(calls[i])
  {
    CallsStay(project, trust, calls, actions);
    if actions != [] {
      var n := |actions| - 1;
      StartsFresh(project, trust, calls, actions[..n], i);
      CallsStay(project, trust, calls, actions[..n]);
      NeverBackToStart(Run(project, trust, calls, actions[..n]), actions[n], i);
      RunsLastAction(project, trust, calls, actions);
    }
  }

  lemma NeverBackToStart(sys: Sys, a: Action, i: nat)
    requires i < |sys.procs| && WellStaged(sys.procs[i])
    ensures |Act(sys, a).procs| == |sys.procs|
    ensures Act(sys, a).procs[i].pc == Start ==> Act(sys, a).procs[i] == sys.procs[i]
  {
    if a == Advance(i) { StepLeavesStart(sys.store, sys.procs[i]); } else { OthersKeepProcess(sys, a, i); }
  }

  lemma StepLeavesStart(s: StoreView, p: Proc)
    requires WellStaged(p)
    ensures Step(s, p).1.pc != Start
  {
  }

  /** A call that starts anywhere in a run and meets only other domains' commits, at
      most seven of them, has after 56 of its steps done what it owed over the store it
      started on: committed the owed record and answered with it, answered a replay of
      it, or been refused without writing. Undisturbed, it leaves that very store, or
      that store with the owed record appended. */
  lemma EveryCallIsAnswered(
    project: string, trust: TrustRoot, calls: seq<Call>, actions: seq<Action>, more: seq<Action>, i: nat)
    requires i < |calls| && |Run(project, trust, calls, actions).procs| == |calls|
    requires Run(project, trust, calls, actions).procs[i].pc == Start
    requires OnlyForeign(more, i) && Foreigners(more) < MAX_COMMIT_RETRIES && Taken(more, i) >= 56
    ensures var (s0, later) := (Run(project, trust, calls, actions).store, Run(project, trust, calls, actions + more));
            && |later.procs| == |calls|
            && Answered(s0, later.store, calls[i], later.procs[i].outcome)
            && (Foreigners(more) == 0 ==> Undisturbed(s0, later.store, calls[i]))
  {
    var (sys, later) := (Run(project, trust, calls, actions), Run(project, trust, calls, actions + more));
    StartsFresh(project, trust, calls, actions, i);
    EveryRunIsOk(project, trust, calls, actions);
    EveryRunReads(project, trust, calls, actions);
    StartsAnswering(sys, i);
    StaysAnswering(sys.store, sys, more, i);
    RunContinues(project, trust, calls, actions, more);
    CallsStay(project, trust, calls, actions + more);
    TakenMore(actions, more, i);
    EveryCallOfARunEnds(project, trust, calls, actions + more, i);
    EndsAnswered(sys.store, later, i, Foreigners(more));
  }

  /** Nothing was written but the owed record, if it was not there. */
  ghost predicate Undisturbed(s0: StoreView, s: StoreView, call: Call) {
    var r := Owed(s0, call);
    if r.Some? && IdOf(r.value) !in s0.records then s == Appended(s0, r.value, call.committedAt) else s == s0
  }

  /** An adopt call whose adoption is not committed yet, left to itself: exactly when it
      names a record of its unit, is correctly signed, and can be folded after the unit's
      lineage, the store ends with that adoption appended and the call answers with it;
      otherwise it is refused and the store is as it was. */
  lemma AdoptionIsAnswered(
    project: string, trust: TrustRoot, calls: seq<Call>, actions: seq<Action>, more: seq<Action>, i: nat)
    requires i < |calls| && |Run(project, trust, calls, actions).procs| == |calls|
    requires Run(project, trust, calls, actions).procs[i].pc == Start && calls[i].Adopt?
    requires AdoptionId(OwedAdoption(Run(project, trust, calls, actions).store, calls[i])) !in
             Run(project, trust, calls, actions).store.records
    requires (forall k :: 0 <= k < |more| ==> more[k] == Advance(i)) && |more| >= 56
    ensures var (s, later) := (Run(project, trust, calls, actions).store, Run(project, trust, calls, actions + more));
            && |later.procs| == |calls|
            && var a := OwedAdoption(s, calls[i]);
            if MayAdopt(s, calls[i])
               && Admissible(BaselineOf(s, calls[i].issue), TransitionsOf(s), LineageOf(s, calls[i].issue), a)
            then later.store == Appended(s, AdoptionRecord(a), calls[i].committedAt)
                 && later.procs[i].outcome == Some(Ok(AdoptionRecord(a)))
            else later.store == s && later.procs[i].outcome == Some(Err(WhyRefusedOn(s, calls[i])))
  {
    OnlyOwnSteps(more, i);
    EveryCallIsAnswered(project, trust, calls, actions, more, i);
  }

  lemma {:induction false} OnlyOwnSteps(more: seq<Action>, i: nat)
    requires forall k :: 0 <= k < |more| ==> more[k] == Advance(i)
    ensures OnlyForeign(more, i) && Foreigners(more) == 0 && Taken(more, i) == |more|
  {
    if more != [] { OnlyOwnSteps(more[..|more| - 1], i); }
  }

  /** A propose call left to itself: exactly when it is truthful it commits the
      transition with these very fields, bound where the clause stands, or finds it
      committed; otherwise it is refused and the store is as it was. */
  lemma ProposalIsAnswered(
    project: string, trust: TrustRoot, calls: seq<Call>, actions: seq<Action>, more: seq<Action>, i: nat)
    requires i < |calls| && |Run(project, trust, calls, actions).procs| == |calls|
    requires Run(project, trust, calls, actions).procs[i].pc == Start && calls[i].Propose?
    requires (forall k :: 0 <= k < |more| ==> more[k] == Advance(i)) && |more| >= 56
    ensures var (s, later) := (Run(project, trust, calls, actions).store, Run(project, trust, calls, actions + more));
            && |later.procs| == |calls|
            && if MayPropose(s, calls[i]) then
                 var t := OwedTransition(s, calls[i]);
                 && later.store == (if TransitionId(t) in s.records then s
                                    else Appended(s, TransitionRecord(t), calls[i].committedAt))
                 && later.procs[i].outcome == Some(Ok(TransitionRecord(t)))
               else later.store == s && later.procs[i].outcome == Some(Err(WhyRefusedOn(s, calls[i])))
  {
    var s := Run(project, trust, calls, actions).store;
    OnlyOwnSteps(more, i);
    EveryCallIsAnswered(project, trust, calls, actions, more, i);
    EveryRunIsOk(project, trust, calls, actions);
    if MayPropose(s, calls[i]) { CommittedTransitionIsHeld(s, OwedTransition(s, calls[i])); }
  }

  lemma CommittedTransitionIsHeld(s: StoreView, t: Transition)
    requires RecordsOk(s)
    ensures TransitionId(t) in s.records ==> s.records[TransitionId(t)] == TransitionRecord(t)
  {
    if TransitionId(t) in s.records { assert IdOf(s.records[TransitionId(t)]) == TransitionId(t); }
  }

  /** An open call left to itself commits the baseline with exactly the given clauses,
      finds that very baseline committed, or is refused as a conflict with another one;
      a call that may not open is refused. */
  lemma OpeningIsAnswered(
    project: string, trust: TrustRoot, calls: seq<Call>, actions: seq<Action>, more: seq<Action>, i: nat)
    requires i < |calls| && |Run(project, trust, calls, actions).procs| == |calls|
    requires Run(project, trust, calls, actions).procs[i].pc == Start && calls[i].Open?
    requires (forall k :: 0 <= k < |more| ==> more[k] == Advance(i)) && |more| >= 56
    ensures var (s, later) := (Run(project, trust, calls, actions).store, Run(project, trust, calls, actions + more));
            && |later.procs| == |calls|
            && var r := BaselineRecord(Baseline(project, calls[i].issue, calls[i].source, calls[i].clauses));
            var (id, answer) := (BaselineId(project, calls[i].issue), later.procs[i].outcome);
            if !MayOpen(calls[i]) then
              later.store == s && answer == Some(Err(if calls[i].source.byOwner then InvalidInput else Unauthorized))
            else if id !in s.records then later.store == Appended(s, r, calls[i].committedAt) && answer == Some(Ok(r))
            else later.store == s && answer == Some(if s.records[id] == r then Ok(r) else Err(ConflictingReplay))
  {
    OnlyOwnSteps(more, i);
    EveryCallIsAnswered(project, trust, calls, actions, more, i);
    EveryRunIsOk(project, trust, calls, actions);
  }

  // ---------------------------------------------------------------- an adoption that goes through

  function Repeated(a: Action, n: nat): (r: seq<Action>)
    ensures |r| == n && forall k :: 0 <= k < n ==> r[k] == a
  {
    seq(n, _ => a)
  }

  /** A baseline just opened can be adopted. */
  lemma OpenedIsAdmissible(s: StoreView, b: Baseline, at: string, a: Adoption)
    requires Journaled(s) && s.events == [] && b.project == s.project && DistinctIds(b.clauses)
    requires a.project == b.project && a.issue == b.issue && a.target == BaselineRef(b)
    ensures var s' := Appended(s, BaselineRecord(b), at);
            && Opened(s', b.issue) && BaselineOf(s', b.issue) == b && LineageOf(s', b.issue) == []
            && AdoptionId(a) !in s'.records
            && Admissible(b, TransitionsOf(s'), LineageOf(s', b.issue), a)
  {
    AppendedLineage(s, BaselineRecord(b), at, b.issue);
  }

  lemma AUnitIsOpened(project: string, trust: TrustRoot, open: Call, adopt: Call)
    requires open.Open? && MayOpen(open) && adopt.Adopt?
    ensures var sys := Run(project, trust, [open, adopt], Repeated(Advance(0), 56));
            var b := Baseline(project, open.issue, open.source, open.clauses);
            && sys.store == Appended(EmptyStore(project, trust), BaselineRecord(b), open.committedAt)
            && |sys.procs| == 2 && sys.procs[0].outcome == Some(Ok(BaselineRecord(b))) && sys.procs[1] == Begin(adopt)
  {
    var (calls, first) := ([open, adopt], Repeated(Advance(0), 56));
    assert [] + first == first;
    OpeningIsAnswered(project, trust, calls, [], first, 0);
    RunContinues(project, trust, calls, [], first);
    OthersStay(Run(project, trust, calls, []), first, 0, 1);
  }

  /** The owner opens a unit and adopts its baseline, correctly signed: both calls
      answer with their record and the store holds the two. */
  lemma AUnitIsActivated(project: string, trust: TrustRoot, open: Call, adopt: Call)
    requires open.Open? && MayOpen(open) && adopt.Adopt? && adopt.issue == open.issue
    requires adopt.target == Ref(BaselineKind, BaselineId(project, open.issue))
    requires adopt.source.byOwner && adopt.owner == HUMAN_AUTHORITY && adopt.projectBinding == trust.projectBinding
    requires SignedByGenesis(EmptyStore(project, trust), adopt)
    ensures var actions := Repeated(Advance(0), 56) + Repeated(Advance(1), 56);
            var later := Run(project, trust, [open, adopt], actions);
            var b := Baseline(project, open.issue, open.source, open.clauses);
            var a := OwedAdoption(EmptyStore(project, trust), adopt);
            && later.store == Appended(Appended(EmptyStore(project, trust), BaselineRecord(b), open.committedAt),
                                       AdoptionRecord(a), adopt.committedAt)
            && |later.procs| == 2
            && later.procs[0].outcome == Some(Ok(BaselineRecord(b)))
            && later.procs[1].outcome == Some(Ok(AdoptionRecord(a)))
  {
    var (calls, first, second) := ([open, adopt], Repeated(Advance(0), 56), Repeated(Advance(1), 56));
    var b := Baseline(project, open.issue, open.source, open.clauses);
    var start := EmptyStore(project, trust);
    AUnitIsOpened(project, trust, open, adopt);
    OpenedIsAdmissible(start, b, open.committedAt, OwedAdoption(start, adopt));
    AdoptionIsAnswered(project, trust, calls, first, second, 1);
    RunContinues(project, trust, calls, first, second);
    OthersStay(Run(project, trust, calls, first), second, 1, 0);
  }

  lemma {:induction false} OthersStay(sys: Sys, more: seq<Action>, i: nat, j: nat)
    requires (forall k :: 0 <= k < |more| ==> more[k] == Advance(i)) && i != j && j < |sys.procs|
    ensures j < |Continue(sys, more).procs| && Continue(sys, more).procs[j] == sys.procs[j]
  {
    if more != [] {
      var before := Continue(sys, more[..|more| - 1]);
      OthersStay(sys, more[..|more| - 1], i, j);
      OthersKeepProcess(before, Advance(i), j);
      ContinuesWithLastAction(sys, more);
    }
  }
}
