/** Every run: any number of calls interleaved with each other and with the
    commits of other domains, from an empty store. */
module PolicyRuns {
  import opened Results
  import opened PolicyTypes
  import opened PolicyEngine
  import opened PolicyLineage
  import opened PolicyView
  import opened PolicyStore
  import opened PolicyRoute

  // ---------------------------------------------------------------- sound stores

  /** The predecessor a transition binds to is not a removal. */
  ghost predicate NotAfterRemoval(t: Transition) {
    t.prior.ref.kind == TransitionKind ==> t.prior.ref.id.TransitionId? && t.prior.ref.id.transition.proposed.Some?
  }

  ghost predicate RecordOk(s: StoreView, r: Record) {
    match r
    case BaselineRecord(b) => b.project == s.project && GenuineClauses(b.clauses)
    case TransitionRecord(t) =>
      && t.project == s.project && NotAfterRemoval(t)
      && var b := ResolveBaseline(s, t.baseline.id);
      && b.Some? && b.value.issue == t.issue
    case AdoptionRecord(a) =>
      && a.project == s.project && a.owner == HUMAN_AUTHORITY && a.source.byOwner
      && ResolveTarget(s, a.issue, a.target).Ok?
      && a.projectBinding == s.trust.projectBinding && Authorised(s.trust, a)
    case ForeignRecord(_) => true
  }

  ghost predicate RecordsOk(s: StoreView) {
    forall id :: id in s.records ==> IdOf(s.records[id]) == id && RecordOk(s, s.records[id])
  }

  /** The work unit's lineage, if it has one, folds without error. */
  ghost predicate LineageFolds(s: StoreView, issue: int) {
    var b := ResolveBaseline(s, BaselineId(s.project, issue));
    b.Some? ==> Fold(b.value, TransitionsOf(s), LineageOf(s, issue)).Ok?
  }

  ghost predicate Sound(s: StoreView) {
    Journaled(s) && RecordsOk(s) && forall issue :: LineageFolds(s, issue)
  }

  // ---------------------------------------------------------------- one more record

  /** What a fresh record leaves as it was. */
  lemma AppendedKeeps(s: StoreView, r: Record, at: string)
    requires RecordsOk(s) && IdOf(r) !in s.records
    ensures var s' := Appended(s, r, at);
            && (forall id :: ResolveBaseline(s, id).Some? ==> ResolveBaseline(s', id) == ResolveBaseline(s, id))
            && (forall id :: ResolveTransition(s, id).Some? ==> ResolveTransition(s', id) == ResolveTransition(s, id))
            && (forall id :: id in TransitionsOf(s) ==> id in TransitionsOf(s'))
            && (forall x :: RecordOk(s, x) ==> RecordOk(s', x))
  {
    var s' := Appended(s, r, at);
    forall x | RecordOk(s, x) ensures RecordOk(s', x) { RecordStaysOk(s, r, at, x); }
  }

  lemma RecordStaysOk(s: StoreView, r: Record, at: string, x: Record)
    requires IdOf(r) !in s.records && RecordOk(s, x)
    ensures RecordOk(Appended(s, r, at), x)
  {
  }

  lemma {:induction false} LineageIgnoresFresh(events: seq<Event>, s: StoreView, r: Record, at: string, issue: int)
    requires forall i :: 0 <= i < |events| ==> events[i].tx != IdOf(r)
    ensures LineageIn(events, Appended(s, r, at), issue) == LineageIn(events, s, issue)
  {
    if events != [] { LineageIgnoresFresh(events[..|events| - 1], s, r, at, issue); }
  }

  /** A fresh adoption sorts last in its own work unit and nowhere else. */
  lemma AppendedLineage(s: StoreView, r: Record, at: string, issue: int)
    requires Journaled(s) && IdOf(r) !in s.records
    ensures LineageOf(Appended(s, r, at), issue) ==
            LineageOf(s, issue) + if r.AdoptionRecord? && r.adoption.issue == issue then [r.adoption] else []
  {
    var s' := Appended(s, r, at);
    forall i | 0 <= i < |s.events| ensures s.events[i].tx != IdOf(r) { assert s.events[i].tx in s.records; }
    LineageIgnoresFresh(s.events, s, r, at, issue);
    assert s'.events[..|s'.events| - 1] == s.events;
  }

  ghost predicate CommittedBy(events: seq<Event>, id: RecordId) { exists e :: e in events && e.tx == id }

  lemma CommittedBySplitting(events: seq<Event>, id: RecordId)
    requires events != []
    ensures CommittedBy(events, id) <==> CommittedBy(events[..|events| - 1], id) || events[|events| - 1].tx == id
  {
    var n := |events| - 1;
    if e :| e in events && e.tx == id { if e != events[n] { assert e in events[..n]; } }
    if e :| e in events[..n] && e.tx == id { assert e in events; }
    assert events[n] in events;
  }

  lemma {:induction false} LineageMembers(events: seq<Event>, s: StoreView, issue: int, a: Adoption)
    requires RecordsOk(s)
    ensures a in LineageIn(events, s, issue) <==>
            IsAdoptionOf(s, AdoptionId(a), issue) && CommittedBy(events, AdoptionId(a))
  {
    if events != [] {
      var n := |events| - 1;
      LineageMembers(events[..n], s, issue, a);
      CommittedBySplitting(events, AdoptionId(a));
      var id := events[n].tx;
      if IsAdoptionOf(s, id, issue) { assert IdOf(s.records[id]) == id; }
    }
  }

  /** A work unit's lineage holds exactly its committed adoptions. */
  lemma LineageHoldsCommitted(s: StoreView, issue: int, a: Adoption)
    requires Journaled(s) && RecordsOk(s)
    ensures a in LineageOf(s, issue) <==> a.issue == issue && AdoptionId(a) in s.records
  {
    LineageMembers(s.events, s, issue, a);
    var id := AdoptionId(a);
    if id in s.records {
      assert IdOf(s.records[id]) == id;
      var i :| 0 <= i < |s.events| && s.events[i].tx == id;
      assert s.events[i] in s.events;
    }
  }

  lemma TargetsStayInUnit(s: StoreView, a: Adoption)
    requires RecordsOk(s) && RecordOk(s, AdoptionRecord(a))
    ensures ResolveBaseline(s, BaselineId(s.project, a.issue)).Some?
    ensures ResolveTarget(s, a.issue, a.target).value == ResolveBaseline(s, BaselineId(s.project, a.issue)).value
  {
    if a.target.kind == TransitionKind {
      assert RecordOk(s, s.records[a.target.id]);
    }
  }

  lemma NoBaselineNoLineage(s: StoreView, issue: int)
    requires Journaled(s) && RecordsOk(s) && ResolveBaseline(s, BaselineId(s.project, issue)).None?
    ensures LineageOf(s, issue) == []
  {
    if LineageOf(s, issue) != [] {
      var a := LineageOf(s, issue)[0];
      LineageHoldsCommitted(s, issue, a);
      assert RecordOk(s, s.records[AdoptionId(a)]) && IdOf(s.records[AdoptionId(a)]) == AdoptionId(a);
      TargetsStayInUnit(s, a);
      assert false;
    }
  }

  /** Appending a sound record keeps the store sound, provided an adoption was
      seen to fold after the lineage it extends. */
  lemma AppendKeepsSound(s: StoreView, r: Record, at: string)
    requires Sound(s) && IdOf(r) !in s.records && RecordOk(s, r)
    requires r.AdoptionRecord? ==>
               var b := ResolveBaseline(s, BaselineId(s.project, r.adoption.issue));
               b.Some? && Fold(b.value, TransitionsOf(s), LineageOf(s, r.adoption.issue) + [r.adoption]).Ok?
    ensures Sound(Appended(s, r, at))
  {
    AppendedIsJournaled(s, r, at);
    AppendedKeeps(s, r, at);
    forall issue ensures LineageFolds(Appended(s, r, at), issue) { LineageStillFolds(s, r, at, issue); }
  }

  lemma LineageStillFolds(s: StoreView, r: Record, at: string, issue: int)
    requires Journaled(s) && RecordsOk(s) && LineageFolds(s, issue) && IdOf(r) !in s.records
    requires r.AdoptionRecord? && r.adoption.issue == issue ==>
               var b := ResolveBaseline(s, BaselineId(s.project, issue));
               b.Some? && Fold(b.value, TransitionsOf(s), LineageOf(s, issue) + [r.adoption]).Ok?
    ensures LineageFolds(Appended(s, r, at), issue)
  {
    var s' := Appended(s, r, at);
    AppendedKeeps(s, r, at);
    AppendedLineage(s, r, at, issue);
    var b := ResolveBaseline(s, BaselineId(s.project, issue));
    if b.None? {
      NoBaselineNoLineage(s, issue);
    } else {
      assert LineageOf(s, issue) + [] == LineageOf(s, issue);
      HistoryInLargerStore(b.value, TransitionsOf(s), TransitionsOf(s'), LineageOf(s', issue), "");
    }
  }

  // ---------------------------------------------------------------- sound processes

  /** What a running call knows. The last two clauses are the point: while the
      state is still the one it read, its list and its simulation are current. */
  ghost predicate ProcOk(s: StoreView, p: Proc) {
    && WellStaged(p)
    && p.snapshot.revision <= s.state.revision
    && p.attempts <= MAX_COMMIT_RETRIES && (p.pc != Done ==> p.attempts < MAX_COMMIT_RETRIES)
    && (p.pc == Start ==> p.candidate.None? && p.lineage.None?)
    && (p.pc != Start && p.pc != Done ==> p.call.source.byOwner)
    && (p.lineage.Some? ==>
          ResolveBaseline(s, BaselineRef(p.lineage.value).id) == p.lineage && p.lineage.value.issue == p.call.issue)
    && (p.candidate.Some? ==> RecordOk(s, p.candidate.value))
    && (p.candidate.Some? && p.call.Adopt? ==>
       p.candidate.value == AdoptionRecord(RequestedAdoption(s.project, p.call)))
    && (p.pc == Done && p.outcome.value.Ok? ==>
          IdOf(p.outcome.value.value) in s.records && s.records[IdOf(p.outcome.value.value)] == p.outcome.value.value)
    && (p.pc == AdoptFold && p.snapshot.revision == s.state.revision ==> p.listed == LineageOf(s, p.call.issue))
    && (p.pc == AdoptSwap && p.snapshot.revision == s.state.revision ==>
          var a := p.candidate.value.adoption;
          a in LineageOf(s, a.issue) || Fold(p.lineage.value, TransitionsOf(s), LineageOf(s, a.issue) + [a]).Ok?)
  }

  /** Commits of other calls cannot make a running call's knowledge wrong: they
      move the revision, and a moved revision fails its swap. */
  lemma OthersCannotMislead(s: StoreView, p: Proc, r: Record, at: string)
    requires RecordsOk(s) && ProcOk(s, p) && IdOf(r) !in s.records
    ensures ProcOk(Appended(s, r, at), p)
  {
    AppendedKeeps(s, r, at);
  }

  lemma PriorIsNoRemoval(b: Baseline, ts: Transitions, us: Transitions, adoptions: seq<Adoption>, c: string)
    requires Fold(b, ts, adoptions).Ok?
    ensures var r := ExpectedPrior(b, us, ById(ViewOf(b, Fold(b, ts, adoptions).value).clauses), c);
            r.Ok? && r.value.0.ref.kind == TransitionKind ==>
              r.value.0.ref.id.TransitionId? && r.value.0.ref.id.transition.proposed.Some?
  {
    var st := Fold(b, ts, adoptions).value;
    FoldRepresentsClause(b, ts, adoptions, c);
    if c in st.live { LiveChainEndsAtWriter(b, ts, adoptions, st, c); }
    ViewReadsBack(b, st);
    PriorFromTable(b, us, ById(ViewOf(b, st).clauses), c);
  }

  ghost predicate EndsAtWriter(chain: seq<Ref>) {
    chain != [] &&
    var ref := chain[|chain| - 1];
    ref.kind == TransitionKind ==> ref.id.TransitionId? && ref.id.transition.proposed.Some?
  }

  lemma PriorFromTable(b: Baseline, us: Transitions, m: map<string, EffectiveClause>, c: string)
    requires c in m ==> EndsAtWriter(m[c].provenance)
    ensures var r := ExpectedPrior(b, us, m, c);
            r.Ok? && r.value.0.ref.kind == TransitionKind ==>
              r.value.0.ref.id.TransitionId? && r.value.0.ref.id.transition.proposed.Some?
  {
  }

  lemma LiveChainEndsAtWriter(b: Baseline, ts: Transitions, adoptions: seq<Adoption>, st: FoldState, c: string)
    requires ClauseRepresented(b, ts, adoptions, st, c) && c in st.live && c in st.provenance
    ensures EndsAtWriter(st.provenance[c])
  {
    AncestryEndsAtHead(b, ts, adoptions, c);
    var h := History(ts, adoptions, c);
    if h != [] {
      var id := h[|h| - 1];
      assert id == TransitionId(ts[id]);
    }
  }

  lemma ProposedBindsToItsUnit(s: StoreView, b: Baseline, listed: seq<Adoption>, call: Call)
    requires call.Propose? && ProposedTransition(s, b, listed, call).Ok?
    ensures var t := ProposedTransition(s, b, listed, call).value;
            t.project == b.project && t.issue == call.issue && t.baseline == BaselineRef(b) && NotAfterRemoval(t)
  {
    PriorIsNoRemoval(b, Collected(s, listed), TransitionsOf(s), listed, call.clauseId);
    var st := Fold(b, Collected(s, listed), listed).value;
    var prior := ExpectedPrior(b, TransitionsOf(s), ById(ViewOf(b, st).clauses), call.clauseId).value;
    BuiltTransition(b, call, prior.0, prior.1);
  }

  lemma BuiltTransition(b: Baseline, call: Call, binding: Binding, prior: Option<Clause>)
    requires call.Propose?
    ensures var r := BuildTransition(b, call.issue, call.clauseId, call.operation, call.proposedBy, binding,
                                     call.proposed, prior, call.source, call.rollback);
            r.Ok? ==> r.value.project == b.project && r.value.issue == call.issue
                      && r.value.baseline == BaselineRef(b) && r.value.prior == binding
  {
  }

  lemma ProposingStepIsOk(s: StoreView, p: Proc)
    requires RecordsOk(s) && ProcOk(s, p) && p.pc == ProposeFold
    ensures ProcOk(s, StepProposeFold(s, p))
  {
    if ProposedTransition(s, p.lineage.value, p.listed, p.call).Ok? {
      ProposedBindsToItsUnit(s, p.lineage.value, p.listed, p.call);
      assert RecordOk(s, StepProposeFold(s, p).candidate.value);
    }
  }

  lemma VerifiedInSound(s: StoreView)
    requires RecordsOk(s)
    ensures AllAdoptionsVerify(s)
  {
    forall id | id in s.records && s.records[id].AdoptionRecord? ensures AdoptionVerifies(s, id) {
      assert RecordOk(s, s.records[id]);
    }
  }

  lemma OpeningStepIsOk(s: StoreView, p: Proc)
    requires RecordsOk(s) && ProcOk(s, p) && p.pc == Start && p.call.Open?
    ensures ProcOk(s, StepStart(s, p))
  {
    if StepStart(s, p).pc == Check { assert RecordOk(s, StepStart(s, p).candidate.value); }
  }

  lemma StartingStepIsOk(s: StoreView, p: Proc)
    requires RecordsOk(s) && ProcOk(s, p) && p.pc == Start && p.candidate.None? && p.lineage.None?
    ensures ProcOk(s, StepStart(s, p))
  {
    if p.call.Open? { OpeningStepIsOk(s, p); }
  }

  lemma ListingStepIsOk(s: StoreView, p: Proc, next: Pc)
    requires RecordsOk(s) && ProcOk(s, p)
    requires (p.pc == ProposeList && next == ProposeFold) || (p.pc == AdoptList && next == AdoptFold)
    ensures ProcOk(s, StepList(s, p, next))
  {
    VerifiedInSound(s);
  }

  lemma CheckingStepIsOk(s: StoreView, p: Proc, next: Pc)
    requires RecordsOk(s) && ProcOk(s, p)
    requires (p.pc == Check && next == Load) || (p.pc == AdoptCheck && next == AdoptList)
    ensures ProcOk(s, StepCheck(s, p, next))
  {
  }

  lemma ResolvingStepIsOk(s: StoreView, p: Proc)
    requires RecordsOk(s) && ProcOk(s, p) && p.pc == AdoptResolve
    ensures ProcOk(s, StepAdoptResolve(s, p))
  {
    var a := RequestedAdoption(s.project, p.call);
    if StepAdoptResolve(s, p).pc == AdoptCheck {
      assert p.call.source.byOwner;
      assert RecordOk(s, AdoptionRecord(a));
      TargetsStayInUnit(s, a);
    }
  }

  lemma SimulationCarriesOver(s: StoreView, b: Baseline, adoptions: seq<Adoption>)
    requires Fold(b, Collected(s, adoptions), adoptions).Ok?
    ensures Fold(b, TransitionsOf(s), adoptions).Ok?
  {
    HistoryInLargerStore(b, Collected(s, adoptions), TransitionsOf(s), adoptions, "");
  }

  lemma FailingIsOk(s: StoreView, p: Proc, e: PolicyError)
    requires ProcOk(s, p)
    ensures ProcOk(s, Fail(p, e))
  {
  }

  lemma SimulatedIsOk(s: StoreView, p: Proc)
    requires ProcOk(s, p) && p.pc == AdoptFold
    requires p.snapshot.revision == s.state.revision ==>
               var a := p.candidate.value.adoption;
               a in p.listed || Fold(p.lineage.value, TransitionsOf(s), p.listed + [a]).Ok?
    ensures ProcOk(s, p.(pc := AdoptSwap))
  {
  }

  lemma FoldingStepIsOk(s: StoreView, p: Proc)
    requires RecordsOk(s) && ProcOk(s, p) && p.pc == AdoptFold
    ensures ProcOk(s, StepAdoptFold(s, p))
  {
    var prospective := p.listed + [p.candidate.value.adoption];
    var next := StepAdoptFold(s, p);
    if next.pc == AdoptSwap {
      if p.candidate.value.adoption !in p.listed { SimulationCarriesOver(s, p.lineage.value, prospective); }
      SimulatedIsOk(s, p);
    } else {
      FailingIsOk(s, p, next.outcome.value.error);
    }
  }

  /** The step of a call that reads: nothing is written and its knowledge grows. */
  lemma ReadingStepIsOk(s: StoreView, p: Proc)
    requires RecordsOk(s) && ProcOk(s, p) && p.pc != Swap && p.pc != AdoptSwap
    ensures Step(s, p).0 == s && ProcOk(s, Step(s, p).1)
  {
    match p.pc
    case Start => StartingStepIsOk(s, p);
    case ProposeList => ListingStepIsOk(s, p, ProposeFold);
    case ProposeFold => ProposingStepIsOk(s, p);
    case Check => CheckingStepIsOk(s, p, Load);
    case AdoptResolve => ResolvingStepIsOk(s, p);
    case AdoptCheck => CheckingStepIsOk(s, p, AdoptList);
    case AdoptList => ListingStepIsOk(s, p, AdoptFold);
    case AdoptFold => FoldingStepIsOk(s, p);
    case Load =>
    case AdoptLoad =>
    case Done =>
  }

  /** The swap: either the store is untouched, or one sound record was appended. */
  lemma SwapIsOk(s: StoreView, p: Proc)
    requires Sound(s) && ProcOk(s, p) && (p.pc == Swap || p.pc == AdoptSwap)
    ensures var (s', p') := Step(s, p);
            && ProcOk(s', p') && Sound(s')
            && (s' == s || (IdOf(p.candidate.value) !in s.records &&
                            s' == Appended(s, p.candidate.value, p.call.committedAt)))
  {
    var r := p.candidate.value;
    var at := p.call.committedAt;
    CommitAppendsOnce(s, p.snapshot, r, at);
    if Commit(s, p.snapshot, r, at).Err? {
      RefusedSwapIsOk(s, p);
    } else if IdOf(r) in s.records {
      CommittedIsHeld(s, p.snapshot, r, at);
    } else {
      AppendingSwapIsOk(s, p);
    }
  }

  lemma AppendingKeepsSound(s: StoreView, p: Proc)
    requires Sound(s) && ProcOk(s, p) && (p.pc == Swap || p.pc == AdoptSwap)
    requires IdOf(p.candidate.value) !in s.records && p.snapshot.revision == s.state.revision
    ensures Sound(Appended(s, p.candidate.value, p.call.committedAt))
  {
    SwapMayAppend(s, p);
    AppendKeepsSound(s, p.candidate.value, p.call.committedAt);
  }

  lemma SucceedingIsOk(s: StoreView, p: Proc)
    requires ProcOk(s, p) && p.candidate.Some?
    requires IdOf(p.candidate.value) in s.records && s.records[IdOf(p.candidate.value)] == p.candidate.value
    ensures ProcOk(s, Succeed(p, p.candidate.value))
  {
  }

  lemma AppendingSwapIsOk(s: StoreView, p: Proc)
    requires Sound(s) && ProcOk(s, p) && (p.pc == Swap || p.pc == AdoptSwap)
    requires IdOf(p.candidate.value) !in s.records && p.snapshot.revision == s.state.revision
    ensures var s' := Appended(s, p.candidate.value, p.call.committedAt);
            Sound(s') && ProcOk(s', Succeed(p, p.candidate.value))
  {
    AppendingKeepsSound(s, p);
    OthersCannotMislead(s, p, p.candidate.value, p.call.committedAt);
    SucceedingIsOk(Appended(s, p.candidate.value, p.call.committedAt), p);
  }

  lemma RefusedSwapIsOk(s: StoreView, p: Proc)
    requires ProcOk(s, p) && (p.pc == Swap || p.pc == AdoptSwap)
    requires Commit(s, p.snapshot, p.candidate.value, p.call.committedAt).Err?
    ensures Step(s, p).0 == s && ProcOk(s, Step(s, p).1)
  {
  }

  /** A swap that goes through writes what was simulated: the lineage it extends
      is the one its fold was run on. */
  lemma SwapMayAppend(s: StoreView, p: Proc)
    requires Sound(s) && ProcOk(s, p) && (p.pc == Swap || p.pc == AdoptSwap)
    requires IdOf(p.candidate.value) !in s.records && p.snapshot.revision == s.state.revision
    ensures p.candidate.value.AdoptionRecord? ==>
              var a := p.candidate.value.adoption;
              var b := ResolveBaseline(s, BaselineId(s.project, a.issue));
              b.Some? && Fold(b.value, TransitionsOf(s), LineageOf(s, a.issue) + [a]).Ok?
  {
    if p.pc == AdoptSwap {
      TargetsStayInUnit(s, p.candidate.value.adoption);
      LineageHoldsCommitted(s, p.candidate.value.adoption.issue, p.candidate.value.adoption);
    }
  }

  lemma CommittedIsHeld(s: StoreView, snapshot: ProjectState, r: Record, at: string)
    requires Journaled(s) && IdOf(r) in s.records && Commit(s, snapshot, r, at) == Ok(s)
    ensures s.records[IdOf(r)] == r
  {
    FindEventFinds(s.events, IdOf(r));
  }

  // ---------------------------------------------------------------- runs

  datatype Sys = Sys(store: StoreView, procs: seq<Proc>)

  /** Process i takes a step, or another domain commits a record of its own. */
  datatype Action = Advance(i: nat) | ForeignCommit(name: string, at: string)

  ghost predicate SysOk(sys: Sys) {
    Sound(sys.store) && forall i :: 0 <= i < |sys.procs| ==> ProcOk(sys.store, sys.procs[i])
  }

  ghost function Act(sys: Sys, action: Action): Sys {
    match action
    case Advance(i) =>
      if i < |sys.procs| && WellStaged(sys.procs[i]) then
        var (s', p') := Step(sys.store, sys.procs[i]);
        Sys(s', sys.procs[i := p'])
      else sys
    case ForeignCommit(name, at) =>
      if ForeignId(name) in sys.store.records then sys
      else sys.(store := Appended(sys.store, ForeignRecord(name), at))
  }

  ghost function Run(project: string, trust: TrustRoot, calls: seq<Call>, actions: seq<Action>): Sys {
    if actions == [] then Sys(EmptyStore(project, trust), seq(|calls|, i requires 0 <= i < |calls| => Begin(calls[i])))
    else Act(Run(project, trust, calls, actions[..|actions| - 1]), actions[|actions| - 1])
  }

  /** An action leaves the store alone or appends one fresh record. */
  ghost predicate Grows(s: StoreView, s': StoreView) {
    s' == s || exists r, at :: IdOf(r) !in s.records && s' == Appended(s, r, at)
  }

  lemma StepIsOk(s: StoreView, p: Proc)
    requires Sound(s) && ProcOk(s, p)
    ensures var (s', p') := Step(s, p);
            && ProcOk(s', p') && Sound(s')
            && (s' == s || (p.candidate.Some? && IdOf(p.candidate.value) !in s.records &&
                            s' == Appended(s, p.candidate.value, p.call.committedAt)))
  {
    if p.pc == Swap || p.pc == AdoptSwap { SwapIsOk(s, p); } else { ReadingStepIsOk(s, p); }
  }

  lemma AdvanceKeepsOk(sys: Sys, i: nat)
    requires SysOk(sys) && i < |sys.procs|
    ensures SysOk(Act(sys, Advance(i))) && Grows(sys.store, Act(sys, Advance(i)).store)
  {
    var (s, p) := (sys.store, sys.procs[i]);
    StepIsOk(s, p);
    var (s', p') := Step(s, p);
    var after := sys.procs[i := p'];
    forall j | 0 <= j < |after| ensures ProcOk(s', after[j]) {
      if j != i {
        assert ProcOk(s, sys.procs[j]);
        if s' != s { OthersCannotMislead(s, sys.procs[j], p.candidate.value, p.call.committedAt); }
      }
    }
  }

  lemma ForeignKeepsOk(sys: Sys, name: string, at: string)
    requires SysOk(sys) && ForeignId(name) !in sys.store.records
    ensures SysOk(Act(sys, ForeignCommit(name, at))) && Grows(sys.store, Act(sys, ForeignCommit(name, at)).store)
  {
    var r := ForeignRecord(name);
    assert IdOf(r) !in sys.store.records;
    AppendKeepsSound(sys.store, r, at);
    forall j | 0 <= j < |sys.procs| ensures ProcOk(Appended(sys.store, r, at), sys.procs[j]) {
      OthersCannotMislead(sys.store, sys.procs[j], r, at);
    }
  }

  lemma ActKeepsOk(sys: Sys, action: Action)
    requires SysOk(sys)
    ensures SysOk(Act(sys, action)) && Grows(sys.store, Act(sys, action).store)
  {
    match action
    case Advance(i) => if i < |sys.procs| { AdvanceKeepsOk(sys, i); }
    case ForeignCommit(name, at) => if ForeignId(name) !in sys.store.records { ForeignKeepsOk(sys, name, at); }
  }

  lemma {:induction false} EveryRunIsOk(project: string, trust: TrustRoot, calls: seq<Call>, actions: seq<Action>)
    ensures SysOk(Run(project, trust, calls, actions))
    ensures Run(project, trust, calls, actions).store.project == project
    ensures Run(project, trust, calls, actions).store.trust == trust
  {
    if actions == [] {
      var s := EmptyStore(project, trust);
      forall issue ensures LineageFolds(s, issue) {}
    } else {
      var before := Run(project, trust, calls, actions[..|actions| - 1]);
      EveryRunIsOk(project, trust, calls, actions[..|actions| - 1]);
      ActKeepsOk(before, actions[|actions| - 1]);
    }
  }

  // ---------------------------------------------------------------- what holds in every run

  /** In every run every work unit's adoptions, in commit order, fold without
      error, however the calls were interleaved. */
  lemma EveryReachableLineageFolds(
    project: string, trust: TrustRoot, calls: seq<Call>, actions: seq<Action>, issue: int)
    ensures var s := Run(project, trust, calls, actions).store;
            var b := ResolveBaseline(s, BaselineId(project, issue));
            if b.Some? then Fold(b.value, TransitionsOf(s), LineageOf(s, issue)).Ok? else LineageOf(s, issue) == []
  {
    EveryRunIsOk(project, trust, calls, actions);
    var s := Run(project, trust, calls, actions).store;
    assert LineageFolds(s, issue);
    if ResolveBaseline(s, BaselineId(project, issue)).None? { NoBaselineNoLineage(s, issue); }
  }

  /** h is one chain from record `root`: no predecessor is used twice, nothing is
      adopted twice, and only its last member may be a removal. */
  ghost predicate OneLivingChain(ts: Transitions, h: seq<RecordId>, root: RecordId) {
    && (forall i :: 0 <= i < |h| ==> h[i] in ts)
    && (h != [] ==> ts[h[0]].prior.ref.id == root)
    && (forall i :: 0 < i < |h| ==> ts[h[i]].prior.ref == TransitionRef(h[i - 1]))
    && (forall i, j :: 0 <= i < j < |h| ==> h[i] != h[j] && ts[h[i]].prior.ref != ts[h[j]].prior.ref)
    && (forall i :: 0 <= i < |h| - 1 ==> ts[h[i]].operation != Remove && ts[h[i]].proposed.Some?)
  }

  lemma OnlyLastRemoves(s: StoreView, b: Baseline, adoptions: seq<Adoption>, c: string, i: nat)
    requires RecordsOk(s) && Fold(b, TransitionsOf(s), adoptions).Ok?
    requires i + 1 < |History(TransitionsOf(s), adoptions, c)|
    ensures var t := TransitionsOf(s)[History(TransitionsOf(s), adoptions, c)[i]];
            t.operation != Remove && t.proposed.Some?
  {
    var ts := TransitionsOf(s);
    var h := History(ts, adoptions, c);
    AdoptedTransitionsFormOneChain(b, ts, adoptions, c);
    assert ts[h[i + 1]].prior.ref == TransitionRef(h[i]);
    assert RecordOk(s, s.records[h[i + 1]]);
    assert h[i] == TransitionId(ts[h[i]]);
    AdoptedOperationIsReal(b, ts, adoptions, c, i);
  }

  lemma SoundHistoryIsOneChain(s: StoreView, b: Baseline, adoptions: seq<Adoption>, c: string)
    requires RecordsOk(s) && Fold(b, TransitionsOf(s), adoptions).Ok?
    ensures OneLivingChain(TransitionsOf(s), History(TransitionsOf(s), adoptions, c), BaselineRef(b).id)
  {
    var h := History(TransitionsOf(s), adoptions, c);
    AdoptedTransitionsFormOneChain(b, TransitionsOf(s), adoptions, c);
    forall i | 0 <= i < |h| - 1
      ensures TransitionsOf(s)[h[i]].operation != Remove && TransitionsOf(s)[h[i]].proposed.Some?
    {
      OnlyLastRemoves(s, b, adoptions, c, i);
    }
  }

  /** In every run the transitions adopted on a clause form one chain from the
      baseline, none of them twice, and a removal can only be the last of them. */
  lemma EveryReachableHistoryIsOneChain(
    project: string, trust: TrustRoot, calls: seq<Call>, actions: seq<Action>, issue: int, c: string)
    ensures var s := Run(project, trust, calls, actions).store;
            OneLivingChain(TransitionsOf(s), History(TransitionsOf(s), LineageOf(s, issue), c),
                           BaselineId(project, issue))
  {
    EveryRunIsOk(project, trust, calls, actions);
    EveryReachableLineageFolds(project, trust, calls, actions, issue);
    var s := Run(project, trust, calls, actions).store;
    var b := ResolveBaseline(s, BaselineId(project, issue));
    if b.Some? { SoundHistoryIsOneChain(s, b.value, LineageOf(s, issue), c); }
  }

  /** In every run every committed adoption names the human authority, carries a
      signature of the genesis key over exactly its own fields, and targets a
      record of its own work unit. */
  lemma EveryReachableAdoptionIsAuthorised(
    project: string, trust: TrustRoot, calls: seq<Call>, actions: seq<Action>, a: Adoption)
    ensures var s := Run(project, trust, calls, actions).store;
            AdoptionId(a) in s.records ==>
              && s.records[AdoptionId(a)] == AdoptionRecord(a)
              && a.owner == HUMAN_AUTHORITY && a.projectBinding == trust.projectBinding
              && a.governance.signature ==
                 Some(Signature(trust.keyName, trust.publicKey,
                                SigningPayload(project, a.issue, a.target, HUMAN_AUTHORITY, a.source, a.governance.core,
                                               trust.projectBinding, a.decidedAt)))
              && ResolveTarget(s, a.issue, a.target).Ok?
              && a in LineageOf(s, a.issue)
  {
    EveryRunIsOk(project, trust, calls, actions);
    var s := Run(project, trust, calls, actions).store;
    if AdoptionId(a) in s.records {
      assert IdOf(s.records[AdoptionId(a)]) == AdoptionId(a) && RecordOk(s, s.records[AdoptionId(a)]);
      LineageHoldsCommitted(s, a.issue, a);
    }
  }

  /** In every run a work unit has at most one baseline, whatever rivals were opened. */
  lemma OneBaselinePerUnit(
      project: string, trust: TrustRoot, calls: seq<Call>, actions: seq<Action>, x: RecordId, y: RecordId)
    ensures var s := Run(project, trust, calls, actions).store;
            x in s.records && y in s.records && s.records[x].BaselineRecord? && s.records[y].BaselineRecord?
            && s.records[x].baseline.issue == s.records[y].baseline.issue ==>
              x == y == BaselineId(project, s.records[x].baseline.issue)
  {
    EveryRunIsOk(project, trust, calls, actions);
    var s := Run(project, trust, calls, actions).store;
    if x in s.records && s.records[x].BaselineRecord? { assert RecordOk(s, s.records[x]) && IdOf(s.records[x]) == x; }
    if y in s.records && s.records[y].BaselineRecord? { assert RecordOk(s, s.records[y]) && IdOf(s.records[y]) == y; }
  }

  ghost predicate Preserved(s: StoreView, s': StoreView) {
    && s.events <= s'.events
    && (forall id :: id in s.records ==> id in s'.records && s'.records[id] == s.records[id])
  }

  lemma GrowingPreserves(s: StoreView, s': StoreView)
    requires Grows(s, s')
    ensures Preserved(s, s') && |s'.events| <= |s.events| + 1
  {
    if s' != s {
      var r, at :| IdOf(r) !in s.records && s' == Appended(s, r, at);
    }
  }

  lemma RunGrows(project: string, trust: TrustRoot, calls: seq<Call>, actions: seq<Action>)
    requires actions != []
    ensures var (s, s') :=
            (Run(project, trust, calls, actions[..|actions| - 1]).store, Run(project, trust, calls, actions).store);
            Preserved(s, s') && |s'.events| <= |s.events| + 1
  {
    var before := Run(project, trust, calls, actions[..|actions| - 1]);
    EveryRunIsOk(project, trust, calls, actions[..|actions| - 1]);
    ActKeepsOk(before, actions[|actions| - 1]);
    GrowingPreserves(before.store, Act(before, actions[|actions| - 1]).store);
  }

  /** Going on with a run keeps every committed record and every journal entry. */
  lemma {:induction false} NothingCommittedIsLost(
    project: string, trust: TrustRoot, calls: seq<Call>, actions: seq<Action>, more: seq<Action>)
    ensures Preserved(Run(project, trust, calls, actions).store, Run(project, trust, calls, actions + more).store)
  {
    if more == [] {
      assert actions + more == actions;
    } else {
      var (later, n) := (actions + more, |more| - 1);
      NothingCommittedIsLost(project, trust, calls, actions, more[..n]);
      assert later[..|later| - 1] == actions + more[..n];
      RunGrows(project, trust, calls, later);
      PreservedTwice(Run(project, trust, calls, actions).store, Run(project, trust, calls, actions + more[..n]).store,
                     Run(project, trust, calls, later).store);
    }
  }

  lemma PreservedTwice(s: StoreView, t: StoreView, u: StoreView)
    requires Preserved(s, t) && Preserved(t, u)
    ensures Preserved(s, u)
  {
  }

  /** A store holds one record and one revision per commit, and no action
      commits more than once. */
  lemma {:induction false} OneRecordPerRevision(
      project: string, trust: TrustRoot, calls: seq<Call>, actions: seq<Action>)
    ensures var s := Run(project, trust, calls, actions).store;
            s.state.revision == |s.events| == |s.records| <= |actions|
  {
    EveryRunIsOk(project, trust, calls, actions);
    OneRecordPerEvent(Run(project, trust, calls, actions).store);
    if actions != [] {
      OneRecordPerRevision(project, trust, calls, actions[..|actions| - 1]);
      RunGrows(project, trust, calls, actions);
    }
  }

  ghost function Transactions(events: seq<Event>): set<RecordId> {
    if events == [] then {} else Transactions(events[..|events| - 1]) + {events[|events| - 1].tx}
  }

  lemma {:induction false} TransactionsAre(events: seq<Event>, id: RecordId)
    ensures id in Transactions(events) <==> exists i :: 0 <= i < |events| && events[i].tx == id
  {
    if events != [] {
      var n := |events| - 1;
      TransactionsAre(events[..n], id);
      if i :| 0 <= i < |events| && events[i].tx == id { if i < n { assert events[..n][i].tx == id; } }
      if i :| 0 <= i < |events[..n]| && events[..n][i].tx == id { assert events[i].tx == id; }
    }
  }

  lemma {:induction false} DistinctTransactions(events: seq<Event>)
    requires forall i, j :: 0 <= i < j < |events| ==> events[i].tx != events[j].tx
    ensures |Transactions(events)| == |events|
  {
    if events != [] {
      var n := |events| - 1;
      DistinctTransactions(events[..n]);
      TransactionsAre(events[..n], events[n].tx);
    }
  }

  lemma OneRecordPerEvent(s: StoreView)
    requires Journaled(s)
    ensures |s.records| == |s.events|
  {
    DistinctTransactions(s.events);
    forall id ensures id in s.records.Keys <==> id in Transactions(s.events) { TransactionsAre(s.events, id); }
    assert s.records.Keys == Transactions(s.events);
  }

  // ---------------------------------------------------------------- replaying a finished adoption

  /** The call asks for an adoption that is already committed. */
  ghost predicate Replaying(s: StoreView, p: Proc) {
    && p.call.Adopt? && WellStaged(p)
    && AdoptionId(RequestedAdoption(s.project, p.call)) in s.records
    && (p.candidate.Some? ==> p.candidate.value == AdoptionRecord(RequestedAdoption(s.project, p.call)))
    && (p.pc in {Start, AdoptLoad, AdoptResolve, AdoptCheck}
        || (p.pc == Done && p.outcome == Some(Ok(AdoptionRecord(RequestedAdoption(s.project, p.call))))))
  }

  /** Asking again for a committed adoption writes nothing and answers with the
      adoption, whatever else is committed while it runs. */
  lemma FinishedAdoptionIsReplayed(s: StoreView, p: Proc)
    requires Sound(s) && Replaying(s, p)
    ensures Step(s, p).0 == s && Replaying(s, Step(s, p).1)
  {
    var a := RequestedAdoption(s.project, p.call);
    assert IdOf(s.records[AdoptionId(a)]) == AdoptionId(a) && RecordOk(s, s.records[AdoptionId(a)]);
    assert s.records[AdoptionId(a)] == AdoptionRecord(a);
  }

  lemma ReplayingSurvivesOthers(s: StoreView, p: Proc, r: Record, at: string)
    requires Replaying(s, p) && IdOf(r) !in s.records
    ensures Replaying(Appended(s, r, at), p)
  {
  }
}
