/** One project's compare-and-swap store and what the policy route reads from it. */
module PolicyStore {
  import opened Results
  import opened PolicyTypes
  import opened PolicyEngine

  /** A state fingerprint is a digest of the whole state. */
  datatype Fingerprint = Digest(revision: nat, previous: Option<Fingerprint>, head: Option<RecordId>)

  datatype ProjectState = ProjectState(
    revision: nat, fingerprint: Fingerprint, previous: Option<Fingerprint>, head: Option<RecordId>)

  datatype Event = Event(
    tx: RecordId, from: nat, to: nat, before: Fingerprint, after: Fingerprint, afterState: ProjectState,
    committedAt: string)

  /** The project state, its append-only journal and its immutable records. */
  datatype StoreView = StoreView(
    project: string, trust: TrustRoot, state: ProjectState, events: seq<Event>, records: map<RecordId, Record>)

  const GENESIS := ProjectState(0, Digest(0, None, None), None, None)

  function EmptyStore(project: string, trust: TrustRoot): StoreView {
    StoreView(project, trust, GENESIS, [], map[])
  }

  function IdOf(r: Record): RecordId {
    match r
    case BaselineRecord(b) => BaselineRef(b).id
    case TransitionRecord(t) => TransitionId(t)
    case AdoptionRecord(a) => AdoptionId(a)
    case ForeignRecord(content) => ForeignId(content)
  }

  // ---------------------------------------------------------------- commit

  function Successor(current: ProjectState, tx: RecordId): ProjectState {
    var revision := current.revision + 1;
    ProjectState(revision, Digest(revision, Some(current.fingerprint), Some(tx)), Some(current.fingerprint), Some(tx))
  }

  function EventFor(current: ProjectState, tx: RecordId, committedAt: string): Event {
    var next := Successor(current, tx);
    Event(tx, current.revision, next.revision, current.fingerprint, next.fingerprint, next, committedAt)
  }

  function FindEvent(events: seq<Event>, tx: RecordId): Option<Event> {
    if events == [] then None
    else if events[0].tx == tx then Some(events[0])
    else FindEvent(events[1..], tx)
  }

  datatype CommitError = StaleState | ReplayConflict

  /** Compare-and-swap of one record under a transaction named by its id: a
      transaction already in the journal is a no-op when event and record are
      the committed ones and a conflict otherwise; a moved state is stale. */
  function Commit(
      s: StoreView, snapshot: ProjectState, r: Record, committedAt: string): Result<StoreView, CommitError>
  {
    var id := IdOf(r);
    var event := EventFor(snapshot, id, committedAt);
    var prior := FindEvent(s.events, id);
    if prior.Some? then
      if prior.value != event then Err(ReplayConflict)
      else if id !in s.records || s.records[id] != r then Err(ReplayConflict)
      else Ok(s)
    else if s.state.revision != snapshot.revision || s.state.fingerprint != snapshot.fingerprint then Err(StaleState)
    else if id in s.records && s.records[id] != r then Err(ReplayConflict)
    else Ok(s.(state := event.afterState, events := s.events + [event], records := s.records[id := r]))
  }

  /** The store after one more record. */
  function Appended(s: StoreView, r: Record, committedAt: string): StoreView {
    var event := EventFor(s.state, IdOf(r), committedAt);
    s.(state := event.afterState, events := s.events + [event], records := s.records[IdOf(r) := r])
  }

  // ---------------------------------------------------------------- resolving records

  function ResolveBaseline(s: StoreView, id: RecordId): Option<Baseline> {
    if id in s.records && s.records[id].BaselineRecord? && s.records[id].baseline.project == s.project
       && IdOf(s.records[id]) == id
    then Some(s.records[id].baseline) else None
  }

  function ResolveTransition(s: StoreView, id: RecordId): Option<Transition> {
    if id in s.records && s.records[id].TransitionRecord? && s.records[id].transition.project == s.project
       && IdOf(s.records[id]) == id
    then Some(s.records[id].transition) else None
  }

  function TransitionsOf(s: StoreView): (ts: Transitions) {
    map id | id in s.records && ResolveTransition(s, id).Some? :: s.records[id].transition
  }

  /** The baseline of the lineage that adopting `target` extends. */
  function ResolveTarget(s: StoreView, issue: int, target: Ref): Result<Baseline, PolicyError> {
    match target.kind
    case BaselineKind =>
      var b := ResolveBaseline(s, target.id);
      if b.None? then Err(Provenance)
      else if b.value.issue != issue then Err(LineageConflict)
      else Ok(b.value)
    case TransitionKind =>
      var t := ResolveTransition(s, target.id);
      if t.None? then Err(Provenance)
      else
        var b := ResolveBaseline(s, t.value.baseline.id);
        if b.None? then Err(Provenance)
        else if t.value.issue != issue then Err(LineageConflict)
        else Ok(b.value)
    case AdoptionKind => Err(InvalidInput)
  }

  /** The payload a Human-Authority signature over an adoption must cover. */
  function PayloadOf(a: Adoption): SigningPayload {
    SigningPayload(a.project, a.issue, a.target, a.owner, a.source, a.governance.core, a.projectBinding, a.decidedAt)
  }

  predicate Authorised(trust: TrustRoot, a: Adoption) {
    && a.governance.signature.Some?
    && a.governance.core.admitted
    && a.governance.core.url == a.source.url
    && a.governance.core.issue == a.issue
    && var signature := a.governance.signature.value;
    && signature.keyName == trust.keyName
    && signature.signer == trust.publicKey
    && signature.covers == PayloadOf(a)
  }

  /** What every read of a committed adoption re-establishes. */
  predicate AdoptionVerifies(s: StoreView, id: RecordId) {
    && id in s.records && s.records[id].AdoptionRecord?
    && var a := s.records[id].adoption;
    && a.project == s.project && AdoptionId(a) == id
    && a.owner == HUMAN_AUTHORITY && a.source.byOwner
    && ResolveTarget(s, a.issue, a.target).Ok?
    && a.projectBinding == s.trust.projectBinding && Authorised(s.trust, a)
  }

  predicate IsAdoptionOf(s: StoreView, id: RecordId, issue: int) {
    id in s.records && s.records[id].AdoptionRecord? && s.records[id].adoption.issue == issue
  }

  predicate AllAdoptionsVerify(s: StoreView) {
    forall id :: id in s.records && s.records[id].AdoptionRecord? ==> AdoptionVerifies(s, id)
  }

  /** A work unit's adoptions in the order the journal committed them. */
  function LineageIn(events: seq<Event>, s: StoreView, issue: int): seq<Adoption> {
    if events == [] then []
    else
      var before := LineageIn(events[..|events| - 1], s, issue);
      var id := events[|events| - 1].tx;
      if IsAdoptionOf(s, id, issue) then before + [s.records[id].adoption] else before
  }

  function LineageOf(s: StoreView, issue: int): seq<Adoption> { LineageIn(s.events, s, issue) }

  predicate AdoptedResolve(s: StoreView, adoptions: seq<Adoption>) {
    forall i :: 0 <= i < |adoptions| && adoptions[i].target.kind == TransitionKind ==>
      ResolveTransition(s, adoptions[i].target.id).Some?
  }

  predicate Targets(adoptions: seq<Adoption>, ref: Ref) {
    exists i :: 0 <= i < |adoptions| && adoptions[i].target == ref
  }

  /** The transitions a list of adoptions adopts, by id. */
  function Collected(s: StoreView, adoptions: seq<Adoption>): (ts: Transitions)
    ensures forall id :: id in ts ==> id in TransitionsOf(s)
  {
    map id | id in s.records && ResolveTransition(s, id).Some? && Targets(adoptions, TransitionRef(id))
      :: s.records[id].transition
  }

  // ---------------------------------------------------------------- replaying a transaction

  lemma {:induction false} FindEventFinds(events: seq<Event>, tx: RecordId)
    ensures FindEvent(events, tx).Some? <==> exists i :: 0 <= i < |events| && events[i].tx == tx
    ensures FindEvent(events, tx).Some? ==>
              FindEvent(events, tx).value in events && FindEvent(events, tx).value.tx == tx
  {
    if events != [] {
      FindEventFinds(events[1..], tx);
      if i :| 0 <= i < |events| && events[i].tx == tx {
        if i > 0 { assert events[1..][i - 1].tx == tx; }
      }
      if j :| 0 <= j < |events[1..]| && events[1..][j].tx == tx { assert events[j + 1].tx == tx; }
    }
  }

  /** The journal is gapless, one fresh transaction per revision, and the state
      and the record ids are exactly what it committed. */
  ghost predicate Journaled(s: StoreView) {
    && s.state.revision == |s.events|
    && (forall i :: 0 <= i < |s.events| ==> s.events[i].from == i && s.events[i].to == i + 1)
    && s.state == (if s.events == [] then GENESIS else s.events[|s.events| - 1].afterState)
    && (forall i, j :: 0 <= i < j < |s.events| ==> s.events[i].tx != s.events[j].tx)
    && (forall id :: id in s.records <==> exists i :: 0 <= i < |s.events| && s.events[i].tx == id)
  }

  /** A commit either leaves the store alone or appends exactly one fresh record
      at the next revision, and then only against the current state. */
  lemma CommitAppendsOnce(s: StoreView, snapshot: ProjectState, r: Record, committedAt: string)
    requires Journaled(s)
    ensures var c := Commit(s, snapshot, r, committedAt);
            && (IdOf(r) !in s.records ==>
                  if snapshot.revision == s.state.revision && snapshot.fingerprint == s.state.fingerprint
                  then c == Ok(Appended(s, r, committedAt)) else c == Err(StaleState))
            && (IdOf(r) in s.records ==> c == Ok(s) || c == Err(ReplayConflict))
  {
    FindEventFinds(s.events, IdOf(r));
  }

  /** Committing a transaction that is already in the journal succeeds exactly
      when record, snapshot and commit time are those of the first commit. So
      an exact replay that reaches the commit after a rival wrote the same
      record is refused as a conflict unless it read the very same state. */
  lemma ReplayIsNoOpExactly(s: StoreView, snapshot: ProjectState, r: Record, committedAt: string, i: nat)
    requires Journaled(s) && i < |s.events| && s.events[i].tx == IdOf(r)
    ensures Commit(s, snapshot, r, committedAt) == Ok(s) <==>
            s.records[IdOf(r)] == r && s.events[i] == EventFor(snapshot, IdOf(r), committedAt)
    ensures Commit(s, snapshot, r, committedAt) == Ok(s) ==> snapshot.revision == i
  {
    FindEventFinds(s.events, IdOf(r));
    var e := FindEvent(s.events, IdOf(r)).value;
    var j :| 0 <= j < |s.events| && s.events[j] == e;
    assert i == j;
  }

  lemma AppendedIsJournaled(s: StoreView, r: Record, committedAt: string)
    requires Journaled(s) && IdOf(r) !in s.records
    ensures Journaled(Appended(s, r, committedAt))
  {
    var s' := Appended(s, r, committedAt);
    forall i, j | 0 <= i < j < |s'.events| ensures s'.events[i].tx != s'.events[j].tx {
      assert s.events[i].tx in s.records;
    }
    forall id ensures id in s'.records <==> exists i :: 0 <= i < |s'.events| && s'.events[i].tx == id {
      if id == IdOf(r) { assert s'.events[|s.events|].tx == id; }
      if i :| 0 <= i < |s.events| && s.events[i].tx == id { assert s'.events[i].tx == id; }
    }
  }
}
