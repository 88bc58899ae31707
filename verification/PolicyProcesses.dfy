/** The store and the running calls as objects that are updated in place, and
    the interleaving of any number of calls under an arbitrary schedule. */
module PolicyProcesses {
  import opened Results
  import opened Ordering
  import opened PolicyTypes
  import opened PolicyEngine
  import opened PolicyLineage
  import opened PolicyView
  import opened PolicyStore
  import opened PolicyRoute
  import opened PolicyRuns

  // ---------------------------------------------------------------- listing a lineage

  type Stamped = (nat, Adoption)

  predicate EarlierOrSame(a: Stamped, b: Stamped) { a.0 <= b.0 }

  /** The work unit's adoptions with their committing revisions, in journal order. */
  ghost function StampedIn(events: seq<Event>, s: StoreView, issue: int): seq<Stamped> {
    if events == [] then []
    else
      var before := StampedIn(events[..|events| - 1], s, issue);
      var e := events[|events| - 1];
      if IsAdoptionOf(s, e.tx, issue) then before + [(e.to, s.records[e.tx].adoption)] else before
  }

  function Unstamped(xs: seq<Stamped>): seq<Adoption> { seq(|xs|, i requires 0 <= i < |xs| => xs[i].1) }

  lemma {:induction false} UnstampedIsLineage(events: seq<Event>, s: StoreView, issue: int)
    ensures Unstamped(StampedIn(events, s, issue)) == LineageIn(events, s, issue)
  {
    if events != [] { UnstampedIsLineage(events[..|events| - 1], s, issue); }
  }

  ghost predicate Increasing(xs: seq<Stamped>, bound: nat) {
    && (forall i :: 0 <= i < |xs| ==> xs[i].0 <= bound)
    && (forall i, j :: 0 <= i < j < |xs| ==> xs[i].0 < xs[j].0)
  }

  lemma {:induction false} StampsIncrease(events: seq<Event>, s: StoreView, issue: int)
    requires forall i :: 0 <= i < |events| ==> events[i].to == i + 1
    ensures Increasing(StampedIn(events, s, issue), |events|)
  {
    if events != [] {
      StampsIncrease(events[..|events| - 1], s, issue);
    }
  }

  /** Event e committed the adoption x stamps. */
  ghost predicate Stamps(s: StoreView, e: Event, issue: int, x: Stamped) {
    IsAdoptionOf(s, e.tx, issue) && x == (e.to, s.records[e.tx].adoption)
  }

  lemma {:induction false} StampedMembers(events: seq<Event>, s: StoreView, issue: int, x: Stamped)
    ensures x in StampedIn(events, s, issue) <==> exists e :: e in events && Stamps(s, e, issue, x)
  {
    if events != [] {
      var n := |events| - 1;
      StampedMembers(events[..n], s, issue, x);
      if e :| e in events && Stamps(s, e, issue, x) {
        if e != events[n] { assert e in events[..n]; }
      }
      if e :| e in events[..n] && Stamps(s, e, issue, x) { assert e in events; }
      assert events[n] in events;
    }
  }

  lemma EarlierOrSameIsTotalPreorder()
    ensures TotalPreorder(EarlierOrSame)
  {
  }

  /** Any listing of the stamped adoptions, sorted by revision, is the lineage. */
  lemma SortedListingIsLineage(s: StoreView, issue: int, xs: seq<Stamped>)
    requires Journaled(s)
    requires forall x :: x in xs <==> x in StampedIn(s.events, s, issue)
    requires forall i, j :: 0 <= i < j < |xs| ==> xs[i] != xs[j]
    ensures Unstamped(Sort(xs, EarlierOrSame)) == LineageOf(s, issue)
  {
    var ys := StampedIn(s.events, s, issue);
    StampsIncrease(s.events, s, issue);
    forall i, j | 0 <= i < j < |ys| ensures ys[i] != ys[j] { assert ys[i].0 < ys[j].0; }
    SameMembersSameMultiset(xs, ys);
    EarlierOrSameIsTotalPreorder();
    forall a, b | a in ys && b in ys && EarlierOrSame(a, b) && EarlierOrSame(b, a) ensures a == b {
      var i :| 0 <= i < |ys| && ys[i] == a;
      var j :| 0 <= j < |ys| && ys[j] == b;
      assert i == j;
    }
    SortIsPermutation(xs, EarlierOrSame);
    SortIsSorted(xs, EarlierOrSame);
    SortedArrangementIsUnique(ys, Sort(xs, EarlierOrSame), EarlierOrSame);
    UnstampedIsLineage(s.events, s, issue);
  }

  // ---------------------------------------------------------------- the store object

  class FileStateStore {
    const project: string
    const trust: TrustRoot
    var state: ProjectState
    var events: seq<Event>
    var records: map<RecordId, Record>

    function View(): StoreView
      reads this
    {
      StoreView(project, trust, state, events, records)
    }

    constructor (project: string, trust: TrustRoot)
      ensures View() == EmptyStore(project, trust)
    {
      this.project := project;
      this.trust := trust;
      state := GENESIS;
      events := [];
      records := map[];
    }

    method FindTransaction(tx: RecordId) returns (e: Option<Event>)
      ensures e == FindEvent(events, tx)
    {
      var n := 0;
      while n < |events|
        invariant n <= |events|
        invariant FindEvent(events, tx) == FindEvent(events[n..], tx)
      {
        assert events[n..][1..] == events[n + 1..];
        if events[n].tx == tx {
          return Some(events[n]);
        }
        n := n + 1;
      }
      return None;
    }

    method CommitRecord(snapshot: ProjectState, r: Record, committedAt: string) returns (refused: Option<CommitError>)
      modifies this
      ensures match Commit(old(View()), snapshot, r, committedAt)
              case Ok(s) => refused == None && View() == s
              case Err(e) => refused == Some(e) && View() == old(View())
    {
      var id := IdOf(r);
      var event := EventFor(snapshot, id, committedAt);
      var prior := FindTransaction(id);
      if prior.Some? {
        if prior.value != event {
          return Some(ReplayConflict);
        }
        if id !in records || records[id] != r {
          return Some(ReplayConflict);
        }
        return None;
      }
      if state.revision != snapshot.revision || state.fingerprint != snapshot.fingerprint {
        return Some(StaleState);
      }
      if id in records && records[id] != r {
        return Some(ReplayConflict);
      }
      events := events + [event];
      records := records[id := r];
      state := event.afterState;
      return None;
    }

    /** Lists every stored adoption, re-verifying each, keeps those of the work
        unit with their committing revisions, and sorts by revision. */
    method CanonicalAdoptions(issue: int) returns (r: Result<seq<Adoption>, PolicyError>)
      requires Journaled(View())
      ensures r == if AllAdoptionsVerify(View()) then Ok(LineageOf(View(), issue)) else Err(Provenance)
    {
      var pending := set id | id in records && records[id].AdoptionRecord?;
      var ordered: seq<Stamped> := [];
      ghost var done: set<RecordId> := {};
      while pending != {}
        invariant pending !! done && pending + done == set id | id in records && records[id].AdoptionRecord?
        invariant forall id :: id in done ==> AdoptionVerifies(View(), id)
        invariant forall x :: x in ordered <==> StampedOf(View(), done, issue, x)
        invariant forall i, j :: 0 <= i < j < |ordered| ==> ordered[i] != ordered[j]
        decreases pending
      {
        var id :| id in pending;
        pending := pending - {id};
        if !AdoptionVerifies(View(), id) {
          return Err(Provenance);
        }
        var adoption := records[id].adoption;
        if adoption.issue == issue {
          var e := FindTransaction(id);
          FindEventFinds(events, id);
          if e.None? {
            return Err(Provenance);
          }
          ListOneMore(View(), done, issue, id, e.value, ordered);
          ordered := ordered + [(e.value.to, adoption)];
        } else {
          SkipOneMore(View(), done, issue, id);
        }
        done := done + {id};
      }
      forall x ensures x in ordered <==> x in StampedIn(events, View(), issue) {
        StampedMembers(events, View(), issue, x);
        AllListed(View(), done, issue, x);
      }
      SortedListingIsLineage(View(), issue, ordered);
      ordered := Sort(ordered, EarlierOrSame);
      return Ok(Unstamped(ordered));
    }

    /** Resolves the transition of every adoption that adopts one. */
    method CollectTransitions(adoptions: seq<Adoption>) returns (r: Result<Transitions, PolicyError>)
      ensures r == if AdoptedResolve(View(), adoptions) then Ok(Collected(View(), adoptions)) else Err(Provenance)
    {
      var ts: Transitions := map[];
      for n := 0 to |adoptions|
        invariant AdoptedResolve(View(), adoptions[..n])
        invariant ts == Collected(View(), adoptions[..n])
      {
        var target := adoptions[n].target;
        CollectOneMore(View(), adoptions, n);
        if target.kind == TransitionKind && target.id !in ts {
          var t := ResolveTransition(View(), target.id);
          if t.None? {
            return Err(Provenance);
          }
          ts := ts[target.id := t.value];
        }
      }
      assert adoptions[..|adoptions|] == adoptions;
      return Ok(ts);
    }
  }

  /** x is the stamped form of an adoption of the work unit among `done`. */
  ghost predicate StampedOf(s: StoreView, done: set<RecordId>, issue: int, x: Stamped) {
    && AdoptionId(x.1) in done && AdoptionId(x.1) in s.records && s.records[AdoptionId(x.1)] == AdoptionRecord(x.1)
    && x.1.issue == issue
    && exists i :: 0 <= i < |s.events| && s.events[i].tx == AdoptionId(x.1) && s.events[i].to == x.0
  }

  lemma ListOneMore(s: StoreView, done: set<RecordId>, issue: int, id: RecordId, e: Event, ordered: seq<Stamped>)
    requires Journaled(s) && id !in done && IsAdoptionOf(s, id, issue) && AdoptionId(s.records[id].adoption) == id
    requires e in s.events && e.tx == id
    requires forall x :: x in ordered <==> StampedOf(s, done, issue, x)
    ensures (e.to, s.records[id].adoption) !in ordered
    ensures forall x :: x in ordered + [(e.to, s.records[id].adoption)] <==> StampedOf(s, done + {id}, issue, x)
  {
    var a := s.records[id].adoption;
    var k :| 0 <= k < |s.events| && s.events[k] == e;
    forall x ensures x in ordered + [(e.to, a)] <==> StampedOf(s, done + {id}, issue, x) {
      if StampedOf(s, done + {id}, issue, x) && AdoptionId(x.1) == id {
        var i :| 0 <= i < |s.events| && s.events[i].tx == id && s.events[i].to == x.0;
        assert i == k;
      }
      if x == (e.to, a) { assert s.events[k].tx == AdoptionId(x.1); }
      if StampedOf(s, done, issue, x) { assert x in ordered; }
    }
  }

  lemma SkipOneMore(s: StoreView, done: set<RecordId>, issue: int, id: RecordId)
    requires id in s.records && s.records[id].AdoptionRecord? && s.records[id].adoption.issue != issue
    ensures forall x :: StampedOf(s, done + {id}, issue, x) <==> StampedOf(s, done, issue, x)
  {
  }

  lemma AllListed(s: StoreView, done: set<RecordId>, issue: int, x: Stamped)
    requires Journaled(s) && forall id :: id in done ==> AdoptionVerifies(s, id)
    requires forall id :: id in s.records && s.records[id].AdoptionRecord? ==> id in done
    ensures StampedOf(s, done, issue, x) <==> exists e :: e in s.events && Stamps(s, e, issue, x)
  {
    if e :| e in s.events && Stamps(s, e, issue, x) {
      assert AdoptionVerifies(s, e.tx);
      StampedByEvent(s, done, issue, x, e);
    }
    if StampedOf(s, done, issue, x) {
      var i :| 0 <= i < |s.events| && s.events[i].tx == AdoptionId(x.1) && s.events[i].to == x.0;
      assert Stamps(s, s.events[i], issue, x) && s.events[i] in s.events;
    }
  }

  lemma StampedByEvent(s: StoreView, done: set<RecordId>, issue: int, x: Stamped, e: Event)
    requires e in s.events && Stamps(s, e, issue, x) && e.tx in done && AdoptionId(x.1) == e.tx
    ensures StampedOf(s, done, issue, x)
  {
    var i :| 0 <= i < |s.events| && s.events[i] == e;
    assert s.events[i].tx == AdoptionId(x.1) && s.events[i].to == x.0;
  }

  lemma TargetsBySplitting(adoptions: seq<Adoption>, n: nat, ref: Ref)
    requires n < |adoptions|
    ensures Targets(adoptions[..n + 1], ref) <==> Targets(adoptions[..n], ref) || adoptions[n].target == ref
  {
    var (xs, ys) := (adoptions[..n], adoptions[..n + 1]);
    if i :| 0 <= i < |xs| && xs[i].target == ref { assert ys[i].target == ref; }
    if i :| 0 <= i < |ys| && ys[i].target == ref { if i < n { assert xs[i].target == ref; } }
    assert ys[n] == adoptions[n];
  }

  lemma CollectOneMore(s: StoreView, adoptions: seq<Adoption>, n: nat)
    requires n < |adoptions| && AdoptedResolve(s, adoptions[..n])
    ensures var target := adoptions[n].target;
            if target.kind != TransitionKind then
              AdoptedResolve(s, adoptions[..n + 1]) && Collected(s, adoptions[..n + 1]) == Collected(s, adoptions[..n])
            else if ResolveTransition(s, target.id).None? then
              !AdoptedResolve(s, adoptions) && target.id !in Collected(s, adoptions[..n])
            else
              && AdoptedResolve(s, adoptions[..n + 1])
              && Collected(s, adoptions[..n + 1]) ==
                 Collected(s, adoptions[..n])[target.id := ResolveTransition(s, target.id).value]
              && (target.id in Collected(s, adoptions[..n]) ==>
                    Collected(s, adoptions[..n + 1]) == Collected(s, adoptions[..n]))
  {
    forall id ensures Targets(adoptions[..n + 1], TransitionRef(id)) <==>
                      Targets(adoptions[..n], TransitionRef(id)) || adoptions[n].target == TransitionRef(id) {
      TargetsBySplitting(adoptions, n, TransitionRef(id));
    }
    forall i | 0 <= i < n && adoptions[i].target.kind == TransitionKind
      ensures ResolveTransition(s, adoptions[i].target.id).Some?
    {
      assert adoptions[..n][i] == adoptions[i];
    }
  }

  // ---------------------------------------------------------------- a running call

  class PolicyCall {
    const call: Call
    var pc: Pc
    var attempts: nat
    var snapshot: ProjectState
    var lineage: Option<Baseline>
    var listed: seq<Adoption>
    var candidate: Option<Record>
    var outcome: Option<Result<Record, PolicyError>>

    function View(): Proc
      reads this
    {
      Proc(call, pc, attempts, snapshot, lineage, listed, candidate, outcome)
    }

    constructor (call: Call)
      ensures View() == Begin(call)
    {
      this.call := call;
      pc := Start;
      attempts := 0;
      snapshot := GENESIS;
      lineage := None;
      listed := [];
      candidate := None;
      outcome := None;
    }

    method Refuse(e: PolicyError)
      modifies this
      ensures View() == Fail(old(View()), e)
    {
      pc := Done;
      outcome := Some(Err(e));
    }

    method StartCall(store: FileStateStore)
      requires pc == Start
      modifies this
      ensures View() == StepStart(store.View(), old(View()))
    {
      if !call.source.byOwner {
        Refuse(Unauthorized);
        return;
      }
      if call.Open? {
        if call.source.kind != OriginalIssue {
          Refuse(InvalidInput);
          return;
        }
        var built := BuildBaseline(store.project, call.issue, call.source, call.clauses);
        if built.Err? {
          Refuse(built.error);
          return;
        }
        candidate := Some(BaselineRecord(built.value));
        pc := Check;
      } else if call.Propose? {
        var b := ResolveBaseline(store.View(), call.baseline.id);
        if b.None? {
          Refuse(Provenance);
          return;
        }
        if b.value.issue != call.issue {
          Refuse(LineageConflict);
          return;
        }
        lineage := b;
        pc := ProposeList;
      } else {
        pc := AdoptLoad;
      }
    }

    method ListLineage(store: FileStateStore, next: Pc)
      requires Journaled(store.View()) && lineage.Some? && WellStaged(View().(pc := next))
      modifies this
      ensures View() == StepList(store.View(), old(View()), next)
    {
      var adoptions := store.CanonicalAdoptions(lineage.value.issue);
      if adoptions.Err? {
        Refuse(adoptions.error);
        return;
      }
      listed := adoptions.value;
      pc := next;
    }

    method ProposedNow(store: FileStateStore) returns (t: Result<Transition, PolicyError>)
      requires pc == ProposeFold && WellStaged(View())
      ensures t == ProposedTransition(store.View(), lineage.value, listed, call)
    {
      var b := lineage.value;
      var ts := store.CollectTransitions(listed);
      if ts.Err? {
        return Err(ts.error);
      }
      var view := DeriveEffectivePolicy(b, ts.value, listed);
      if view.Err? {
        return Err(view.error);
      }
      var prior := ExpectedPrior(b, TransitionsOf(store.View()), ById(view.value.clauses), call.clauseId);
      if prior.Err? {
        return Err(prior.error);
      }
      return BuildTransition(b, call.issue, call.clauseId, call.operation, call.proposedBy, prior.value.0,
                             call.proposed, prior.value.1, call.source, call.rollback);
    }

    method BuildProposal(store: FileStateStore)
      requires pc == ProposeFold && WellStaged(View())
      modifies this
      ensures View() == StepProposeFold(store.View(), old(View()))
    {
      var t := ProposedNow(store);
      if t.Err? {
        Refuse(t.error);
        return;
      }
      candidate := Some(TransitionRecord(t.value));
      pc := Check;
    }

    method CheckCommitted(store: FileStateStore, next: Pc)
      requires candidate.Some? && WellStaged(View().(pc := next))
      modifies this
      ensures View() == StepCheck(store.View(), old(View()), next)
    {
      var id := IdOf(candidate.value);
      if id !in store.records {
        pc := next;
      } else if store.records[id] == candidate.value {
        pc := Done;
        outcome := Some(Ok(candidate.value));
      } else {
        Refuse(ConflictingReplay);
      }
    }

    method ResolveAdoption(store: FileStateStore)
      requires pc == AdoptResolve && WellStaged(View())
      modifies this
      ensures View() == StepAdoptResolve(store.View(), old(View()))
    {
      var b := ResolveTarget(store.View(), call.issue, call.target);
      if b.Err? {
        Refuse(b.error);
        return;
      }
      if call.projectBinding != store.trust.projectBinding {
        Refuse(Provenance);
        return;
      }
      if call.owner != HUMAN_AUTHORITY {
        Refuse(InvalidInput);
        return;
      }
      var a := RequestedAdoption(store.project, call);
      if !Authorised(store.trust, a) {
        Refuse(Unauthorized);
        return;
      }
      lineage := Some(b.value);
      candidate := Some(AdoptionRecord(a));
      pc := AdoptCheck;
    }

    method SimulateFold(store: FileStateStore)
      requires pc == AdoptFold && WellStaged(View())
      modifies this
      ensures View() == StepAdoptFold(store.View(), old(View()))
    {
      var a := candidate.value.adoption;
      if a in listed {
        pc := AdoptSwap;
        return;
      }
      var prospective := listed + [a];
      var ts := store.CollectTransitions(prospective);
      if ts.Err? {
        Refuse(ts.error);
        return;
      }
      var view := DeriveEffectivePolicy(lineage.value, ts.value, prospective);
      if view.Err? {
        Refuse(view.error);
        return;
      }
      pc := AdoptSwap;
    }

    method AttemptCommit(store: FileStateStore, again: Pc)
      requires candidate.Some? && WellStaged(View().(pc := again))
      modifies this, store
      ensures (store.View(), View()) == StepSwap(old(store.View()), old(View()), again)
    {
      var refused := store.CommitRecord(snapshot, candidate.value, call.committedAt);
      match refused
      case None =>
        pc := Done;
        outcome := Some(Ok(candidate.value));
      case Some(ReplayConflict) =>
        Refuse(ConflictingReplay);
      case Some(StaleState) =>
        attempts := attempts + 1;
        if attempts >= MAX_COMMIT_RETRIES {
          Refuse(InvalidInput);
        } else {
          pc := again;
        }
    }

    method LoadCurrent(store: FileStateStore, next: Pc)
      modifies this
      ensures View() == old(View()).(snapshot := store.View().state, pc := next)
    {
      snapshot := store.state;
      pc := next;
    }

    /** The call's code up to its next access of the shared store. */
    method TakeStep(store: FileStateStore)
      requires Journaled(store.View()) && WellStaged(View())
      modifies this, store
      ensures (store.View(), View()) == Step(old(store.View()), old(View()))
    {
      match pc
      case Start => StartCall(store);
      case ProposeList => ListLineage(store, ProposeFold);
      case ProposeFold => BuildProposal(store);
      case Check => CheckCommitted(store, Load);
      case Load => LoadCurrent(store, Swap);
      case Swap => AttemptCommit(store, Load);
      case AdoptLoad => LoadCurrent(store, AdoptResolve);
      case AdoptResolve => ResolveAdoption(store);
      case AdoptCheck => CheckCommitted(store, AdoptList);
      case AdoptList => ListLineage(store, AdoptFold);
      case AdoptFold => SimulateFold(store);
      case AdoptSwap => AttemptCommit(store, AdoptLoad);
      case Done =>
    }
  }

  // ---------------------------------------------------------------- the interleaving

  function Views(procs: seq<PolicyCall>): seq<Proc>
    reads procs
  {
    seq(|procs|, i requires 0 <= i < |procs| reads procs => procs[i].View())
  }

  ghost predicate Distinct(procs: seq<PolicyCall>) {
    forall i, j :: 0 <= i < j < |procs| ==> procs[i] != procs[j]
  }

  method BeginAll(calls: seq<Call>) returns (procs: seq<PolicyCall>)
    ensures |procs| == |calls| && Distinct(procs)
    ensures forall i :: 0 <= i < |procs| ==> fresh(procs[i]) && procs[i].View() == Begin(calls[i])
  {
    procs := [];
    for n := 0 to |calls|
      invariant |procs| == n && Distinct(procs)
      invariant forall i :: 0 <= i < n ==> fresh(procs[i]) && procs[i].View() == Begin(calls[i])
    {
      var p := new PolicyCall(calls[n]);
      procs := procs + [p];
    }
  }

  /** One action of the schedule on the objects. */
  method Dispatch(store: FileStateStore, procs: seq<PolicyCall>, action: Action)
    requires Distinct(procs) && SysOk(Sys(store.View(), Views(procs)))
    modifies store, procs
    ensures Sys(store.View(), Views(procs)) == Act(old(Sys(store.View(), Views(procs))), action)
  {
    ghost var before := Sys(store.View(), Views(procs));
    match action
    case Advance(i) =>
      if i < |procs| {
        assert ProcOk(before.store, before.procs[i]);
        procs[i].TakeStep(store);
        assert Views(procs) == before.procs[i := procs[i].View()];
      }
    case ForeignCommit(name, at) =>
      CommitAppendsOnce(store.View(), store.state, ForeignRecord(name), at);
      var _ := store.CommitRecord(store.state, ForeignRecord(name), at);
      assert Views(procs) == before.procs;
  }

  /** Runs the calls on one fresh store, letting the schedule choose at every
      point which call steps next or which foreign record is committed. What
      `EveryReachable...` says of runs therefore holds of these objects. */
  method RunInterleaved(project: string, trust: TrustRoot, calls: seq<Call>, schedule: seq<Action>)
    returns (store: FileStateStore, procs: seq<PolicyCall>)
    ensures Sys(store.View(), Views(procs)) == Run(project, trust, calls, schedule)
  {
    store := new FileStateStore(project, trust);
    procs := BeginAll(calls);
    assert schedule[..0] == [];
    for n := 0 to |schedule|
      invariant fresh(store) && (forall i :: 0 <= i < |procs| ==> fresh(procs[i])) && Distinct(procs)
      invariant Sys(store.View(), Views(procs)) == Run(project, trust, calls, schedule[..n])
    {
      EveryRunIsOk(project, trust, calls, schedule[..n]);
      assert schedule[..n + 1][..n] == schedule[..n] && schedule[..n + 1][n] == schedule[n];
      Dispatch(store, procs, schedule[n]);
    }
    assert schedule[..|schedule|] == schedule;
  }
}
