/** The open, propose and adopt calls as processes over a shared store. Each
    step is one store access of the call together with the pure work up to the
    next access, so that any other call may run between two steps. */
module PolicyRoute {
  import opened Results
  import opened PolicyTypes
  import opened PolicyEngine
  import opened PolicyLineage
  import opened PolicyView
  import opened PolicyStore

  const MAX_COMMIT_RETRIES := 8

  datatype Call =
    | Open(issue: int, source: SourceReference, clauses: seq<Clause>, committedAt: string)
    | Propose(issue: int, baseline: Ref, clauseId: string, operation: Operation, proposedBy: string,
              proposed: Option<Clause>, source: SourceReference, rollback: string, committedAt: string)
    | Adopt(issue: int, target: Ref, owner: string, source: SourceReference, governance: GovernanceRecord,
            projectBinding: string, decidedAt: string, committedAt: string)

  datatype Pc =
    | Start
    | ProposeList | ProposeFold
    | Check | Load | Swap
    | AdoptLoad | AdoptResolve | AdoptCheck | AdoptList | AdoptFold | AdoptSwap
    | Done

  /** One running call: where it stands, what it has read, what it will commit. */
  datatype Proc = Proc(
    call: Call, pc: Pc, attempts: nat, snapshot: ProjectState, lineage: Option<Baseline>,
    listed: seq<Adoption>, candidate: Option<Record>, outcome: Option<Result<Record, PolicyError>>)

  function Begin(call: Call): Proc { Proc(call, Start, 0, GENESIS, None, [], None, None) }

  function Fail(p: Proc, e: PolicyError): Proc { p.(pc := Done, outcome := Some(Err(e))) }

  function Succeed(p: Proc, r: Record): Proc { p.(pc := Done, outcome := Some(Ok(r))) }

  /** The adoption a call asks for, whatever the store holds. */
  function RequestedAdoption(project: string, call: Call): Adoption
    requires call.Adopt?
  {
    Adoption(project, call.issue, call.target, call.owner, call.source, call.governance, call.projectBinding,
             call.decidedAt)
  }

  /** What each program point relies on having been read. */
  predicate WellStaged(p: Proc) {
    match p.pc
    case Start => true
    case ProposeList => p.call.Propose? && p.lineage.Some?
    case ProposeFold => p.call.Propose? && p.lineage.Some?
    case Check => p.candidate.Some? && !p.candidate.value.AdoptionRecord? && !p.call.Adopt?
    case Load => p.candidate.Some? && !p.candidate.value.AdoptionRecord? && !p.call.Adopt?
    case Swap => p.candidate.Some? && !p.candidate.value.AdoptionRecord? && !p.call.Adopt?
    case AdoptLoad => p.call.Adopt?
    case AdoptResolve => p.call.Adopt?
    case Done => p.outcome.Some?
    case _ => p.call.Adopt? && p.lineage.Some? && p.candidate.Some? && p.candidate.value.AdoptionRecord?
  }

  // ---------------------------------------------------------------- steps that only read

  function StepStart(s: StoreView, p: Proc): (r: Proc)
    ensures WellStaged(r) && r.call == p.call
  {
    if !p.call.source.byOwner then Fail(p, Unauthorized)
    else
      match p.call
      case Open(issue, source, clauses, _) =>
        if source.kind != OriginalIssue || !GenuineClauses(clauses) then Fail(p, InvalidInput)
        else p.(pc := Check, candidate := Some(BaselineRecord(Baseline(s.project, issue, source, clauses))))
      case Propose(_, _, _, _, _, _, _, _, _) =>
        var b := ResolveBaseline(s, p.call.baseline.id);
        if b.None? then Fail(p, Provenance)
        else if b.value.issue != p.call.issue then Fail(p, LineageConflict)
        else p.(pc := ProposeList, lineage := b)
      case Adopt(_, _, _, _, _, _, _, _) => p.(pc := AdoptLoad)
  }

  /** List the work unit's adoptions; every stored adoption is re-verified. */
  function StepList(s: StoreView, p: Proc, next: Pc): (r: Proc)
    requires p.lineage.Some? && WellStaged(p.(pc := next))
    ensures WellStaged(r) && r.call == p.call
  {
    if !AllAdoptionsVerify(s) then Fail(p, Provenance)
    else p.(pc := next, listed := LineageOf(s, p.lineage.value.issue))
  }

  /** The transition a proposal commits, built against the fold of what it listed. */
  ghost function ProposedTransition(
      s: StoreView, b: Baseline, listed: seq<Adoption>, call: Call): Result<Transition, PolicyError>
    requires call.Propose?
  {
    if !AdoptedResolve(s, listed) then Err(Provenance)
    else
      var st :- Fold(b, Collected(s, listed), listed);
      var prior :- ExpectedPrior(b, TransitionsOf(s), ById(ViewOf(b, st).clauses), call.clauseId);
      BuildTransition(b, call.issue, call.clauseId, call.operation, call.proposedBy, prior.0,
                      call.proposed, prior.1, call.source, call.rollback)
  }

  ghost function StepProposeFold(s: StoreView, p: Proc): (r: Proc)
    requires p.call.Propose? && p.lineage.Some?
    ensures WellStaged(r) && r.call == p.call
  {
    match ProposedTransition(s, p.lineage.value, p.listed, p.call)
    case Err(e) => Fail(p, e)
    case Ok(t) => p.(pc := Check, candidate := Some(TransitionRecord(t)))
  }

  /** Is the candidate already committed? The same body is a finished replay. */
  function StepCheck(s: StoreView, p: Proc, next: Pc): (r: Proc)
    requires p.candidate.Some? && WellStaged(p.(pc := next))
    ensures WellStaged(r) && r.call == p.call
  {
    var id := IdOf(p.candidate.value);
    if id !in s.records then p.(pc := next)
    else if s.records[id] == p.candidate.value then Succeed(p, p.candidate.value)
    else Fail(p, ConflictingReplay)
  }

  function StepAdoptResolve(s: StoreView, p: Proc): (r: Proc)
    requires p.call.Adopt?
    ensures WellStaged(r) && r.call == p.call
  {
    match ResolveTarget(s, p.call.issue, p.call.target)
    case Err(e) => Fail(p, e)
    case Ok(b) =>
      var a := RequestedAdoption(s.project, p.call);
      if p.call.projectBinding != s.trust.projectBinding then Fail(p, Provenance)
      else if p.call.owner != HUMAN_AUTHORITY then Fail(p, InvalidInput)
      else if !Authorised(s.trust, a) then Fail(p, Unauthorized)
      else p.(pc := AdoptCheck, lineage := Some(b), candidate := Some(AdoptionRecord(a)))
  }

  /** Simulate the fold with the candidate last, unless it is listed already. */
  function StepAdoptFold(s: StoreView, p: Proc): (r: Proc)
    requires WellStaged(p) && p.pc == AdoptFold
    ensures WellStaged(r) && r.call == p.call
  {
    var a := p.candidate.value.adoption;
    if a in p.listed then p.(pc := AdoptSwap)
    else if !AdoptedResolve(s, p.listed + [a]) then Fail(p, Provenance)
    else
      match Fold(p.lineage.value, Collected(s, p.listed + [a]), p.listed + [a])
      case Err(e) => Fail(p, e)
      case Ok(_) => p.(pc := AdoptSwap)
  }

  // ---------------------------------------------------------------- the step that writes

  /** One compare-and-swap: committed, refused, or retried from `again` at most
      MAX_COMMIT_RETRIES times in all. */
  function StepSwap(s: StoreView, p: Proc, again: Pc): (r: (StoreView, Proc))
    requires p.candidate.Some? && WellStaged(p.(pc := again))
    ensures WellStaged(r.1) && r.1.call == p.call
  {
    match Commit(s, p.snapshot, p.candidate.value, p.call.committedAt)
    case Ok(s') => (s', Succeed(p, p.candidate.value))
    case Err(ReplayConflict) => (s, Fail(p, ConflictingReplay))
    case Err(StaleState) =>
      var counted := p.(attempts := p.attempts + 1);
      (s, if counted.attempts >= MAX_COMMIT_RETRIES then Fail(counted, InvalidInput) else counted.(pc := again))
  }

  ghost function Step(s: StoreView, p: Proc): (r: (StoreView, Proc))
    requires WellStaged(p)
    ensures WellStaged(r.1) && r.1.call == p.call
  {
    match p.pc
    case Start => (s, StepStart(s, p))
    case ProposeList => (s, StepList(s, p, ProposeFold))
    case ProposeFold => (s, StepProposeFold(s, p))
    case Check => (s, StepCheck(s, p, Load))
    case Load => (s, p.(snapshot := s.state, pc := Swap))
    case Swap => StepSwap(s, p, Load)
    case AdoptLoad => (s, p.(snapshot := s.state, pc := AdoptResolve))
    case AdoptResolve => (s, StepAdoptResolve(s, p))
    case AdoptCheck => (s, StepCheck(s, p, AdoptList))
    case AdoptList => (s, StepList(s, p, AdoptFold))
    case AdoptFold => (s, StepAdoptFold(s, p))
    case AdoptSwap => StepSwap(s, p, AdoptLoad)
    case Done => (s, p)
  }

  // ---------------------------------------------------------------- termination

  function Rank(pc: Pc): nat {
    match pc
    case Start => 8
    case ProposeList => 5
    case ProposeFold => 4
    case Check => 3
    case Load => 2
    case Swap => 1
    case AdoptLoad => 6
    case AdoptResolve => 5
    case AdoptCheck => 4
    case AdoptList => 3
    case AdoptFold => 2
    case AdoptSwap => 1
    case Done => 0
  }

  /** An upper bound on the steps a call still takes. */
  function StepsLeft(p: Proc): int {
    if p.pc == Done then 0 else Rank(p.pc) + 6 * (MAX_COMMIT_RETRIES - p.attempts)
  }

  /** Whatever the store holds at each step, a call makes at most eight commit
      attempts and every step brings it closer to its end. */
  lemma EveryCallEnds(s: StoreView, p: Proc)
    requires WellStaged(p) && p.pc != Done && p.attempts < MAX_COMMIT_RETRIES
    ensures var p' := Step(s, p).1;
            && 0 <= StepsLeft(p') < StepsLeft(p) <= 56
            && (p'.pc == Done || p'.attempts < MAX_COMMIT_RETRIES)
            && p'.attempts <= MAX_COMMIT_RETRIES
  {
  }
}
