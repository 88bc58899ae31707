/** Whole runs: every call ends, asking again for a finished adoption writes
    nothing, and exactly which replays of a committed record are refused. */
module PolicyReplays {
  import opened Results
  import opened PolicyTypes
  import opened PolicyEngine
  import opened PolicyLineage
  import opened PolicyStore
  import opened PolicyRoute
  import opened PolicyRuns

  /** A system after more actions. */
  ghost function Continue(sys: Sys, more: seq<Action>): Sys {
    if more == [] then sys else Act(Continue(sys, more[..|more| - 1]), more[|more| - 1])
  }

  lemma {:induction false} RunContinues(
    project: string, trust: TrustRoot, calls: seq<Call>, actions: seq<Action>, more: seq<Action>)
    ensures Run(project, trust, calls, actions + more) == Continue(Run(project, trust, calls, actions), more)
  {
    if more == [] {
      assert actions + more == actions;
    } else {
      var (n, all) := (|more| - 1, actions + more);
      RunContinues(project, trust, calls, actions, more[..n]);
      assert all[..|all| - 1] == actions + more[..n] && all[|all| - 1] == more[n];
      RunsLastAction(project, trust, calls, all);
      ContinuesWithLastAction(Run(project, trust, calls, actions), more);
    }
  }

  lemma RunsLastAction(project: string, trust: TrustRoot, calls: seq<Call>, actions: seq<Action>)
    requires actions != []
    ensures Run(project, trust, calls, actions) ==
            Act(Run(project, trust, calls, actions[..|actions| - 1]), actions[|actions| - 1])
  {
  }

  lemma ContinuesWithLastAction(sys: Sys, more: seq<Action>)
    requires more != []
    ensures Continue(sys, more) == Act(Continue(sys, more[..|more| - 1]), more[|more| - 1])
  {
  }

  lemma ContinueByFour(sys: Sys, a: Action, b: Action, c: Action, d: Action)
    ensures Continue(sys, [a, b, c, d]) == Act(Act(Act(Act(sys, a), b), c), d)
  {
    assert [a, b, c, d][..3] == [a, b, c] && [a, b, c][..2] == [a, b] && [a, b][..1] == [a] && [a][..0] == [];
    assert Continue(sys, [a]) == Act(sys, a);
    assert Continue(sys, [a, b]) == Act(Act(sys, a), b);
    assert Continue(sys, [a, b, c]) == Act(Act(Act(sys, a), b), c);
  }

  lemma {:induction false} CallsStay(project: string, trust: TrustRoot, calls: seq<Call>, actions: seq<Action>)
    ensures var procs := Run(project, trust, calls, actions).procs;
            |procs| == |calls| && forall i :: 0 <= i < |calls| ==> procs[i].call == calls[i] && WellStaged(procs[i])
  {
    if actions != [] { CallsStay(project, trust, calls, actions[..|actions| - 1]); }
  }

  // ---------------------------------------------------------------- every call of every run ends

  /** How often process i was advanced. */
  function Taken(actions: seq<Action>, i: nat): nat {
    if actions == [] then 0
    else Taken(actions[..|actions| - 1], i) + if actions[|actions| - 1] == Advance(i) then 1 else 0
  }

  /** After k steps of a call at most 56 - k are left: whatever the others do, a call
      has ended after 56 steps of its own, with at most eight commit attempts. */
  lemma {:induction false} EveryCallOfARunEnds(
    project: string, trust: TrustRoot, calls: seq<Call>, actions: seq<Action>, i: nat)
    requires i < |calls|
    ensures |Run(project, trust, calls, actions).procs| == |calls|
    ensures var p := Run(project, trust, calls, actions).procs[i];
            && p.attempts <= MAX_COMMIT_RETRIES
            && (p.pc == Done || StepsLeft(p) + Taken(actions, i) <= 56)
            && (Taken(actions, i) >= 56 ==> p.pc == Done && p.outcome.Some?)
  {
    CallsStay(project, trust, calls, actions);
    EveryRunIsOk(project, trust, calls, actions);
    if actions != [] {
      var n := |actions| - 1;
      var before := Run(project, trust, calls, actions[..n]);
      EveryCallOfARunEnds(project, trust, calls, actions[..n], i);
      EveryRunIsOk(project, trust, calls, actions[..n]);
      assert ProcOk(before.store, before.procs[i]);
      if actions[n] == Advance(i) && before.procs[i].pc != Done { EveryCallEnds(before.store, before.procs[i]); }
    }
    assert ProcOk(Run(project, trust, calls, actions).store, Run(project, trust, calls, actions).procs[i]);
  }

  // ---------------------------------------------------------------- asking again for a finished adoption

  lemma {:induction false} TakenMore(actions: seq<Action>, more: seq<Action>, i: nat)
    ensures Taken(actions + more, i) == Taken(actions, i) + Taken(more, i)
  {
    if more == [] {
      assert actions + more == actions;
    } else {
      var n := |more| - 1;
      TakenMore(actions, more[..n], i);
      assert (actions + more)[..|actions| + n] == actions + more[..n];
    }
  }

  lemma ReplayStepReplays(sys: Sys, i: nat)
    requires SysOk(sys) && i < |sys.procs| && Replaying(sys.store, sys.procs[i])
    ensures var sys' := Act(sys, Advance(i));
            i < |sys'.procs| && Replaying(sys'.store, sys'.procs[i]) && sys'.store == sys.store
  {
    FinishedAdoptionIsReplayed(sys.store, sys.procs[i]);
  }

  lemma OthersKeepProcess(sys: Sys, action: Action, i: nat)
    requires i < |sys.procs| && action != Advance(i)
    ensures |Act(sys, action).procs| == |sys.procs| && Act(sys, action).procs[i] == sys.procs[i]
  {
  }

  lemma GrowingKeepsReplaying(s: StoreView, s': StoreView, p: Proc)
    requires Grows(s, s') && Replaying(s, p)
    ensures Replaying(s', p)
  {
    if s' != s {
      var r, at :| IdOf(r) !in s.records && s' == Appended(s, r, at);
      ReplayingSurvivesOthers(s, p, r, at);
    }
  }

  lemma OtherActionReplays(sys: Sys, action: Action, i: nat)
    requires SysOk(sys) && i < |sys.procs| && Replaying(sys.store, sys.procs[i]) && action != Advance(i)
    ensures var sys' := Act(sys, action);
            i < |sys'.procs| && Replaying(sys'.store, sys'.procs[i])
  {
    ActKeepsOk(sys, action);
    OthersKeepProcess(sys, action, i);
    GrowingKeepsReplaying(sys.store, Act(sys, action).store, sys.procs[i]);
  }

  ghost predicate ReplayingAt(sys: Sys, i: nat) {
    SysOk(sys) && i < |sys.procs| && Replaying(sys.store, sys.procs[i])
  }

  lemma ActReplays(sys: Sys, action: Action, i: nat)
    requires ReplayingAt(sys, i)
    ensures ReplayingAt(Act(sys, action), i)
  {
    ActKeepsOk(sys, action);
    if action == Advance(i) { ReplayStepReplays(sys, i); } else { OtherActionReplays(sys, action, i); }
  }

  lemma {:induction false} StaysReplaying(sys: Sys, more: seq<Action>, i: nat)
    requires ReplayingAt(sys, i)
    ensures ReplayingAt(Continue(sys, more), i)
  {
    if more != [] {
      var n := |more| - 1;
      StaysReplaying(sys, more[..n], i);
      ActReplays(Continue(sys, more[..n]), more[n], i);
      ContinuesWithLastAction(sys, more);
    }
  }

  lemma StartsReplaying(s: StoreView, p: Proc)
    requires ProcOk(s, p) && p.pc == Start && p.call.Adopt? &&
             AdoptionId(RequestedAdoption(s.project, p.call)) in s.records
    ensures Replaying(s, p)
  {
  }

  /** A call asking for an adoption that is committed when it starts never writes,
      whatever else happens meanwhile, and ends with that adoption as its answer. */
  lemma FinishedAdoptionStaysFinished(
    project: string, trust: TrustRoot, calls: seq<Call>, actions: seq<Action>, more: seq<Action>, i: nat)
    requires i < |calls| && calls[i].Adopt? && |Run(project, trust, calls, actions).procs| == |calls|
    requires Run(project, trust, calls, actions).procs[i].pc == Start
    requires AdoptionId(RequestedAdoption(project, calls[i])) in Run(project, trust, calls, actions).store.records
    ensures var later := Run(project, trust, calls, actions + more);
            && |later.procs| == |calls| && Replaying(later.store, later.procs[i])
            && Act(later, Advance(i)).store == later.store
            && (Taken(more, i) >= 56 ==>
                  later.procs[i].outcome == Some(Ok(AdoptionRecord(RequestedAdoption(project, calls[i])))))
  {
    var (sys, later) := (Run(project, trust, calls, actions), Run(project, trust, calls, actions + more));
    CallsStay(project, trust, calls, actions);
    EveryRunIsOk(project, trust, calls, actions);
    assert ProcOk(sys.store, sys.procs[i]);
    StartsReplaying(sys.store, sys.procs[i]);
    StaysReplaying(sys, more, i);
    RunContinues(project, trust, calls, actions, more);
    CallsStay(project, trust, calls, actions + more);
    ReplayStepReplays(later, i);
    TakenMore(actions, more, i);
    EveryCallOfARunEnds(project, trust, calls, actions + more, i);
  }

  // ---------------------------------------------------------------- which replays are refused

  /** The state after the first n commits. */
  function StateAt(events: seq<Event>, n: nat): ProjectState
    requires n <= |events|
  {
    if n == 0 then GENESIS else events[n - 1].afterState
  }

  /** Entry i was made against the state the entries before it left. */
  ghost predicate MadeAgainst(events: seq<Event>, i: nat)
    requires i < |events|
  {
    events[i] == EventFor(StateAt(events, i), events[i].tx, events[i].committedAt)
  }

  ghost predicate Chained(s: StoreView) {
    && s.state == StateAt(s.events, |s.events|)
    && forall i :: 0 <= i < |s.events| ==> MadeAgainst(s.events, i)
  }

  /** The snapshot is a state the store was in. */
  ghost predicate ReadFrom(s: StoreView, p: Proc) {
    p.snapshot.revision <= |s.events| && p.snapshot == StateAt(s.events, p.snapshot.revision)
  }

  lemma ReadsSurvive(s: StoreView, r: Record, at: string, p: Proc)
    requires Chained(s) && s.state.revision == |s.events| && (ReadFrom(s, p) || p.snapshot == s.state)
    ensures ReadFrom(Appended(s, r, at), p)
  {
  }

  lemma MadeBefore(events: seq<Event>, e: Event, i: nat)
    requires i < |events| && MadeAgainst(events, i)
    ensures MadeAgainst(events + [e], i)
  {
    assert (events + [e])[i] == events[i] && StateAt(events + [e], i) == StateAt(events, i);
  }

  lemma AppendedIsChained(s: StoreView, r: Record, at: string)
    requires Chained(s)
    ensures Chained(Appended(s, r, at))
  {
    var e := EventFor(s.state, IdOf(r), at);
    var later := s.events + [e];
    forall i | 0 <= i < |later| ensures MadeAgainst(later, i) {
      if i < |s.events| {
        MadeBefore(s.events, e, i);
      } else {
        assert later[i] == e && StateAt(later, i) == StateAt(s.events, i);
      }
    }
  }

  lemma StepReads(s: StoreView, p: Proc)
    requires WellStaged(p)
    ensures Step(s, p).1.snapshot == p.snapshot || Step(s, p).1.snapshot == s.state
  {
  }

  ghost predicate AllRead(sys: Sys) {
    Chained(sys.store) && forall i :: 0 <= i < |sys.procs| ==> ReadFrom(sys.store, sys.procs[i])
  }

  /** The store grew by at most one record; a state it was in, and the one it was in
      last, are still states it was in. */
  lemma ReadsStay(s: StoreView, s': StoreView)
    requires Grows(s, s') && Chained(s) && s.state.revision == |s.events|
    ensures Chained(s')
    ensures forall p :: ReadFrom(s, p) || p.snapshot == s.state ==> ReadFrom(s', p)
  {
    if s' != s {
      var r, at :| IdOf(r) !in s.records && s' == Appended(s, r, at);
      AppendedIsChained(s, r, at);
      forall p | ReadFrom(s, p) || p.snapshot == s.state ensures ReadFrom(s', p) { ReadsSurvive(s, r, at, p); }
    }
  }

  lemma ActReads(sys: Sys, action: Action, i: nat)
    requires i < |sys.procs| && WellStaged(sys.procs[i])
    ensures var procs := Act(sys, action).procs;
            && |procs| == |sys.procs|
            && (procs[i].snapshot == sys.procs[i].snapshot || procs[i].snapshot == sys.store.state)
  {
    StepReads(sys.store, sys.procs[i]);
  }

  lemma ActKeepsReads(sys: Sys, action: Action)
    requires SysOk(sys) && AllRead(sys)
    ensures AllRead(Act(sys, action))
  {
    var (s, after) := (sys.store, Act(sys, action));
    ActKeepsOk(sys, action);
    ReadsStay(s, after.store);
    forall i | 0 <= i < |after.procs| ensures ReadFrom(after.store, after.procs[i]) {
      if i < |sys.procs| {
        assert ProcOk(s, sys.procs[i]) && ReadFrom(s, sys.procs[i]);
        ActReads(sys, action, i);
        SameSnapshotSameRead(s, sys.procs[i], after.procs[i]);
      }
    }
  }

  lemma SameSnapshotSameRead(s: StoreView, p: Proc, q: Proc)
    requires ReadFrom(s, p) && (q.snapshot == p.snapshot || q.snapshot == s.state)
    ensures ReadFrom(s, q) || q.snapshot == s.state
  {
  }

  /** In every run each journal entry was made against the state before it, and each
      call holds a state the store was in. */
  lemma {:induction false} EveryRunReads(project: string, trust: TrustRoot, calls: seq<Call>, actions: seq<Action>)
    ensures AllRead(Run(project, trust, calls, actions))
  {
    if actions != [] {
      var n := |actions| - 1;
      EveryRunReads(project, trust, calls, actions[..n]);
      EveryRunIsOk(project, trust, calls, actions[..n]);
      ActKeepsReads(Run(project, trust, calls, actions[..n]), actions[n]);
    }
  }

  /** The body is the committed one, and the call read the very state and carries the
      very time of the commit it repeats. */
  ghost predicate RepeatsCommit(s: StoreView, p: Proc, j: nat)
    requires j < |s.events| && p.candidate.Some?
  {
    && IdOf(p.candidate.value) in s.records && s.records[IdOf(p.candidate.value)] == p.candidate.value
    && p.snapshot == StateAt(s.events, j) && p.call.committedAt == s.events[j].committedAt
  }

  lemma SameEventExactly(events: seq<Event>, j: nat, p: Proc, id: RecordId)
    requires j < |events| && MadeAgainst(events, j) && events[j].from == j && events[j].tx == id
    requires p.snapshot.revision <= |events| && p.snapshot == StateAt(events, p.snapshot.revision)
    ensures events[j] == EventFor(p.snapshot, id, p.call.committedAt) <==>
            p.snapshot == StateAt(events, j) && p.call.committedAt == events[j].committedAt
  {
    assert StateAt(events, j).revision == j;
  }

  lemma SwapReplaysExactly(s: StoreView, p: Proc, j: nat)
    requires Journaled(s) && Chained(s) && ReadFrom(s, p)
    requires WellStaged(p) && (p.pc == Swap || p.pc == AdoptSwap)
    requires j < |s.events| && s.events[j].tx == IdOf(p.candidate.value)
    ensures Step(s, p) ==
            (s, if RepeatsCommit(s, p, j) then Succeed(p, p.candidate.value) else Fail(p, ConflictingReplay))
  {
    var (r, at) := (p.candidate.value, p.call.committedAt);
    assert MadeAgainst(s.events, j);
    SameEventExactly(s.events, j, p, IdOf(r));
    CommitAppendsOnce(s, p.snapshot, r, at);
    ReplayIsNoOpExactly(s, p.snapshot, r, at, j);
  }

  /** In every run, a call that swaps a record already committed leaves the store as it
      is; it succeeds exactly when its body is the committed one and it read the state
      and carries the time of the first commit, and is a conflicting replay otherwise. */
  lemma ReplayInARunSucceedsExactly(
    project: string, trust: TrustRoot, calls: seq<Call>, actions: seq<Action>, i: nat, j: nat)
    requires i < |Run(project, trust, calls, actions).procs| && j < |Run(project, trust, calls, actions).store.events|
    requires Run(project, trust, calls, actions).procs[i].pc in {Swap, AdoptSwap}
    requires Run(project, trust, calls, actions).procs[i].candidate.Some?
    requires Run(project, trust, calls, actions).store.events[j].tx ==
             IdOf(Run(project, trust, calls, actions).procs[i].candidate.value)
    ensures var sys := Run(project, trust, calls, actions);
            var (p, after) := (sys.procs[i], Act(sys, Advance(i)));
            && after.store == sys.store && i < |after.procs| && after.procs[i].pc == Done
            && after.procs[i].outcome ==
               Some(if RepeatsCommit(sys.store, p, j) then Ok(p.candidate.value) else Err(ConflictingReplay))
  {
    var sys := Run(project, trust, calls, actions);
    EveryRunIsOk(project, trust, calls, actions);
    EveryRunReads(project, trust, calls, actions);
    assert ProcOk(sys.store, sys.procs[i]) && ReadFrom(sys.store, sys.procs[i]);
    SwapReplaysExactly(sys.store, sys.procs[i], j);
  }

  /** A rival commits the very record between a call's check and its load: the call
      loads the state after that commit, and its swap is refused. */
  lemma LateLoadIsRefused(s: StoreView, p: Proc, at: string)
    requires Journaled(s) && WellStaged(p) && p.pc == Load && IdOf(p.candidate.value) !in s.records
    ensures var s' := Appended(s, p.candidate.value, at);
            var p' := Step(s', p).1;
            Step(s', p).0 == s' && WellStaged(p') && Step(s', p') == (s', Fail(p', ConflictingReplay))
  {
    var (s', r) := (Appended(s, p.candidate.value, at), p.candidate.value);
    AppendedIsJournaled(s, r, at);
    var loaded := p.(snapshot := s'.state, pc := Swap);
    assert s'.events[|s.events|].tx == IdOf(r);
    ReplayIsNoOpExactly(s', s'.state, r, p.call.committedAt, |s.events|);
    CommitAppendsOnce(s', s'.state, r, p.call.committedAt);
    assert Step(s', p) == (s', loaded);
  }

  // ---------------------------------------------------------------- a run in which a replay is refused

  ghost predicate Opening(call: Call) {
    call.Open? && call.source.byOwner && call.source.kind == OriginalIssue && GenuineClauses(call.clauses)
  }

  function OpenedRecord(project: string, call: Call): Record
    requires call.Open?
  {
    BaselineRecord(Baseline(project, call.issue, call.source, call.clauses))
  }

  /** The same call twice, both past their check and before their load. */
  ghost predicate BothChecked(sys: Sys, call: Call)
    requires call.Open?
  {
    && sys.store == EmptyStore(sys.store.project, sys.store.trust) && |sys.procs| == 2
    && forall i :: 0 <= i < 2 ==>
         sys.procs[i] == Begin(call).(pc := Load, candidate := Some(OpenedRecord(sys.store.project, call)))
  }

  const BOTH_CHECK := [Advance(0), Advance(0), Advance(1), Advance(1)]
  const ONE_AFTER_THE_OTHER := [Advance(0), Advance(0), Advance(1), Advance(1)]

  lemma BothPassTheirCheck(project: string, trust: TrustRoot, call: Call)
    requires Opening(call)
    ensures BothChecked(Run(project, trust, [call, call], BOTH_CHECK), call)
    ensures Run(project, trust, [call, call], BOTH_CHECK).store == EmptyStore(project, trust)
  {
    var start := Run(project, trust, [call, call], []);
    assert start.procs == [Begin(call), Begin(call)];
    assert [] + BOTH_CHECK == BOTH_CHECK;
    RunContinues(project, trust, [call, call], [], BOTH_CHECK);
    ContinueByFour(start, Advance(0), Advance(0), Advance(1), Advance(1));
  }

  lemma SecondIsRefused(sys: Sys, call: Call)
    requires Opening(call) && BothChecked(sys, call)
    ensures var one := Act(Act(sys, Advance(0)), Advance(0));
            var two := Act(Act(one, Advance(1)), Advance(1));
            && one.store == Appended(sys.store, OpenedRecord(sys.store.project, call), call.committedAt)
            && two.store == one.store && |two.procs| == 2
            && two.procs[0].outcome == Some(Ok(OpenedRecord(sys.store.project, call)))
            && two.procs[1].outcome == Some(Err(ConflictingReplay))
  {
    var (s, r) := (sys.store, OpenedRecord(sys.store.project, call));
    CommitAppendsOnce(s, s.state, r, call.committedAt);
    LateLoadIsRefused(s, sys.procs[1], call.committedAt);
  }

  /** Two identical calls to open one work unit on an empty store: the first commits,
      and the second, an exact replay of it, is refused as a conflicting one. */
  lemma ExactReplayCanBeRefused(project: string, trust: TrustRoot, call: Call)
    requires Opening(call)
    ensures var sys := Run(project, trust, [call, call], BOTH_CHECK + ONE_AFTER_THE_OTHER);
            && |sys.procs| == 2
            && sys.procs[0].outcome == Some(Ok(OpenedRecord(project, call)))
            && sys.procs[1].outcome == Some(Err(ConflictingReplay))
  {
    var checked := Run(project, trust, [call, call], BOTH_CHECK);
    BothPassTheirCheck(project, trust, call);
    SecondIsRefused(checked, call);
    RunContinues(project, trust, [call, call], BOTH_CHECK, ONE_AFTER_THE_OTHER);
    ContinueByFour(checked, Advance(0), Advance(0), Advance(1), Advance(1));
  }

  // ---------------------------------------------------------------- a listing read record by record

  lemma {:induction false} LineageInLater(events: seq<Event>, s: StoreView, s': StoreView, issue: int)
    requires Preserved(s, s') && forall i :: 0 <= i < |events| ==> events[i].tx in s.records
    ensures LineageIn(events, s', issue) == LineageIn(events, s, issue)
  {
    if events != [] { LineageInLater(events[..|events| - 1], s, s', issue); }
  }

  lemma ListedResolve(s: StoreView, issue: int)
    requires Journaled(s) && RecordsOk(s)
    ensures AdoptedResolve(s, LineageOf(s, issue))
  {
    var l := LineageOf(s, issue);
    forall i | 0 <= i < |l| && l[i].target.kind == TransitionKind ensures ResolveTransition(s, l[i].target.id).Some? {
      LineageHoldsCommitted(s, issue, l[i]);
      var id := AdoptionId(l[i]);
      assert IdOf(s.records[id]) == id && RecordOk(s, s.records[id]);
    }
  }

  lemma CollectedLater(s: StoreView, s': StoreView, l: seq<Adoption>)
    requires Preserved(s, s') && s'.project == s.project && AdoptedResolve(s, l)
    ensures AdoptedResolve(s', l) && Collected(s', l) == Collected(s, l)
  {
    forall id ensures id in Collected(s', l) <==> id in Collected(s, l) {
      if id in Collected(s', l) {
        var i :| 0 <= i < |l| && l[i].target == TransitionRef(id);
        assert l[i].target.kind == TransitionKind && ResolveTransition(s, l[i].target.id).Some?;
      }
    }
  }

  lemma VerifiesLater(s: StoreView, s': StoreView, id: RecordId)
    requires Preserved(s, s') && s'.project == s.project && s'.trust == s.trust && AdoptionVerifies(s, id)
    ensures AdoptionVerifies(s', id)
  {
  }

  /** What was listed at one moment reads the same record by record at any later one:
      each adoption re-verifies, each adopted transition resolves to the same body. */
  lemma EarlierListingReadsTheSame(s: StoreView, s': StoreView, issue: int)
    requires Journaled(s) && RecordsOk(s) && Preserved(s, s') && s'.project == s.project && s'.trust == s.trust
    ensures LineageIn(s.events, s', issue) == LineageOf(s, issue)
    ensures forall id :: AdoptionVerifies(s, id) ==> AdoptionVerifies(s', id)
    ensures AdoptedResolve(s', LineageOf(s, issue)) &&
            Collected(s', LineageOf(s, issue)) == Collected(s, LineageOf(s, issue))
  {
    LineageInLater(s.events, s, s', issue);
    forall id | AdoptionVerifies(s, id) ensures AdoptionVerifies(s', id) { VerifiesLater(s, s', id); }
    ListedResolve(s, issue);
    CollectedLater(s, s', LineageOf(s, issue));
  }
}
