/** Authority decisions: prohibitions, rules, floors and approvals combined into
    one record, as `authority/engine.py` evaluates them. */
module Authority {
  import opened Results
  import opened Ordering
  import opened AuthorityScope
  import opened Timestamps

  // ---------------------------------------------------------------- vocabulary

  datatype Decision = Autonomous | HumanApprovalRequired | Prohibited

  function Rank(d: Decision): nat { match d case Autonomous => 0 case HumanApprovalRequired => 1 case Prohibited => 2 }

  function AtLeastAsRestrictiveAs(d: Decision, floor: Decision): Decision { if Rank(floor) > Rank(d) then floor else d }

  datatype Reversibility = Reversible | Recoverable | Irreversible

  function Irreversibility(r: Reversibility): nat {
    match r
    case Reversible => 0
    case Recoverable => 1
    case Irreversible => 2
  }

  predicate ExceedsReversibility(actual: Reversibility, ceiling: Reversibility) {
    Irreversibility(actual) > Irreversibility(ceiling)
  }

  const HUMAN_ONLY_ACTION_KINDS: set<string> := {
    "CHANGE_OBJECTIVE", "WIDEN_BOUNDARY", "CHANGE_AUTHORITY", "CHANGE_ORIGIN", "CHANGE_KERNEL_CONSTITUTION",
    "CHANGE_SECURITY_POLICY", "DEPLOY_PRODUCTION", "CHANGE_CREDENTIAL", "CHANGE_BILLING", "IRREVERSIBLE_OPERATION",
    "DESTRUCTIVE_RECOVERY", "MERGE", "RELEASE"}

  /** An upper-case letter, then 1 to 63 upper-case letters, digits or underscores. */
  predicate IsActionKind(kind: string) {
    && 2 <= |kind| <= 64 && 'A' <= kind[0] <= 'Z'
    && forall i :: 1 <= i < |kind| ==> 'A' <= kind[i] <= 'Z' || '0' <= kind[i] <= '9' || kind[i] == '_'
  }

  datatype ReasonCode =
    | ProhibitionMatched | ConstitutionalProhibitionMatched
    | NoRuleResolved | ActionIsHumanOnly | IrreversibleAction | ApprovalExcludesAction
    | ApprovalMissing | ApprovalExact | RulePermitsAutonomous | RuleResolved | RuleNotDecisive
    | ApprovalRevoked | ApprovalExpired | ApprovalOutsideValidityWindow | ApprovalProjectMismatch
    | ApprovalDifferenceMismatch | ApprovalChangeIntentMismatch | ApprovalActionFingerprintMismatch
    | ApprovalStateRevisionStale | ApprovalStateFingerprintStale | ApprovalScopeWidened

  // ---------------------------------------------------------------- records

  /** A digest is its preimage; any other text names nothing. */
  datatype ActionDigest =
    | DigestOfAction(kind: string, reversibility: Reversibility, operation: string)
    | OtherDigest(text: string)

  datatype IntentDigest = DigestOfIntent(action: ActionDigest, scope: Scope) | OtherIntent(text: string)

  datatype Action = Action(kind: string, reversibility: Reversibility, operation: string, declared: ActionDigest)

  /** `canonical` is the verdict of record admission: schema, version, content
      address and human provenance. */
  datatype Rule = Rule(
    id: string, project: string, kinds: seq<string>, ceiling: Reversibility, scope: Scope, decision: Decision,
    canonical: bool)

  datatype Prohibition = Prohibition(
    id: string, constitutional: bool, project: string, kinds: seq<string>, scope: Scope, canonical: bool)

  datatype Status = Active | Revoked | Expired

  /** The instants an approval's two stored timestamps name. */
  datatype Window = Window(opens: Instant, closes: Instant)

  function ReadWindow(approvedAt: string, expiresAt: string): Option<Window> {
    var (opens, closes) := (StoredInstant(approvedAt), StoredInstant(expiresAt));
    if opens.Ok? && closes.Ok? then Some(Window(opens.value, closes.value)) else None
  }

  /** `window` is what ReadWindow makes of the two stored timestamps. */
  datatype Approval = Approval(
    id: string, status: Status, window: Option<Window>, project: string, differenceId: string,
    changeIntent: IntentDigest, actionFingerprint: ActionDigest, stateRevision: int, stateFingerprint: string,
    scope: Scope, prohibitedActions: seq<string>, canonical: bool)

  datatype Difference = Difference(
    project: string, id: string, observedRevision: int, observedFingerprint: string, canonical: bool)

  datatype Request = Request(
    wellShaped: bool, project: string, difference: Difference, action: Action, scope: Scope,
    revision: int, fingerprint: string, evaluationTime: string,
    rules: seq<Rule>, prohibitions: seq<Prohibition>, approvals: seq<Approval>)

  datatype Record = Record(
    project: string, differenceId: string, action: Action, scope: Scope, revision: int, fingerprint: string,
    resolvedRule: Option<string>, prohibitionRefs: seq<string>, approvalRef: Option<string>,
    excludingApprovalRefs: seq<string>, decision: Decision, reasonCodes: set<ReasonCode>)

  datatype AuthorityError = NotAdmitted | BoundaryViolation | StaleInput

  /** The admitted question: the scope is canonical. */
  datatype Question = Question(
    project: string, differenceId: string, action: Action, scope: Scope,
    revision: int, fingerprint: string, now: Instant)

  // ---------------------------------------------------------------- when one record applies

  predicate Governs(q: Question, r: Rule) {
    && r.project == q.project && q.action.kind in r.kinds
    && !ExceedsReversibility(q.action.reversibility, r.ceiling)
    && IsContained(q.scope, r.scope)
  }

  predicate Matches(q: Question, p: Prohibition) {
    && (p.constitutional || p.project == q.project)
    && q.action.kind in p.kinds
    && Overlaps(q.scope, p.scope)
  }

  predicate Dated(a: Approval) { a.window.Some? }

  predicate InWindow(now: Instant, w: Window) { NotAfter(w.opens, now) && NotAfter(now, w.closes) }

  function Intent(q: Question): IntentDigest {
    DigestOfIntent(DigestOfAction(q.action.kind, q.action.reversibility, q.action.operation), CanonicalScope(q.scope))
  }

  /** Everything an approval binds is exactly what is asked. */
  predicate Binds(q: Question, a: Approval)
    requires Dated(a)
  {
    && a.status == Active && InWindow(q.now, a.window.value)
    && a.project == q.project && a.differenceId == q.differenceId
    && a.changeIntent == Intent(q) && a.actionFingerprint == q.action.declared
    && a.stateRevision == q.revision && a.stateFingerprint == q.fingerprint
    && IsContained(q.scope, a.scope)
  }

  /** The code of a check that fails. */
  function Unless(holds: bool, code: ReasonCode): set<ReasonCode> { if holds then {} else {code} }

  /** The nine checks of an approval against a question, in the order they are made. */
  datatype Checks = Checks(
    window: bool, project: bool, difference: bool, intent: bool, action: bool, revision: bool, fingerprint: bool,
    scope: bool)

  function ChecksOf(q: Question, a: Approval): Checks
    requires Dated(a)
  {
    Checks(InWindow(q.now, a.window.value), a.project == q.project, a.differenceId == q.differenceId,
           a.changeIntent == Intent(q),
           a.actionFingerprint == q.action.declared, a.stateRevision == q.revision, a.stateFingerprint == q.fingerprint,
           IsContained(q.scope, a.scope))
  }

  predicate AllHold(c: Checks) {
    c.window && c.project && c.difference && c.intent && c.action && c.revision && c.fingerprint && c.scope
  }

  function FailedChecks(status: Status, c: Checks): set<ReasonCode> {
    {}
    + Unless(status != Revoked, ApprovalRevoked)
    + Unless(status != Expired, ApprovalExpired)
    + Unless(c.window, ApprovalOutsideValidityWindow)
    + Unless(c.project, ApprovalProjectMismatch)
    + Unless(c.difference, ApprovalDifferenceMismatch)
    + Unless(c.intent, ApprovalChangeIntentMismatch)
    + Unless(c.action, ApprovalActionFingerprintMismatch)
    + Unless(c.revision, ApprovalStateRevisionStale)
    + Unless(c.fingerprint, ApprovalStateFingerprintStale)
    + Unless(c.scope, ApprovalScopeWidened)
  }

  /** Every way an approval fails to bind. */
  function Mismatches(q: Question, a: Approval): set<ReasonCode>
    requires Dated(a)
  {
    FailedChecks(a.status, ChecksOf(q, a))
  }

  ghost predicate Lists(reasons: seq<ReasonCode>, s: set<ReasonCode>) { forall r :: r in reasons <==> r in s }

  /** What a mismatch is called; the codes are reported in the order of these names. */
  function MismatchName(r: ReasonCode): string {
    match r
    case ApprovalRevoked => "APPROVAL_REVOKED"
    case ApprovalExpired => "APPROVAL_EXPIRED"
    case ApprovalOutsideValidityWindow => "APPROVAL_OUTSIDE_VALIDITY_WINDOW"
    case ApprovalProjectMismatch => "APPROVAL_PROJECT_MISMATCH"
    case ApprovalDifferenceMismatch => "APPROVAL_DIFFERENCE_MISMATCH"
    case ApprovalChangeIntentMismatch => "APPROVAL_CHANGE_INTENT_MISMATCH"
    case ApprovalActionFingerprintMismatch => "APPROVAL_ACTION_FINGERPRINT_MISMATCH"
    case ApprovalStateRevisionStale => "APPROVAL_STATE_REVISION_STALE"
    case ApprovalStateFingerprintStale => "APPROVAL_STATE_FINGERPRINT_STALE"
    case ApprovalScopeWidened => "APPROVAL_SCOPE_WIDENED"
    case _ => ""
  }

  function ByName(): (ReasonCode, ReasonCode) -> bool { (a, b) => StringLe(MismatchName(a), MismatchName(b)) }

  /** One more check of the record: its code is appended when it fails. */
  method Check(reasons: seq<ReasonCode>, holds: bool, code: ReasonCode, ghost s: set<ReasonCode>)
    returns (more: seq<ReasonCode>, ghost t: set<ReasonCode>)
    requires Lists(reasons, s)
    ensures t == s + Unless(holds, code) && Lists(more, t)
  {
    more := reasons;
    t := s + Unless(holds, code);
    if !holds { more := more + [code]; }
  }

  method CollectFailedChecks(status: Status, c: Checks) returns (reasons: seq<ReasonCode>)
    ensures Lists(reasons, FailedChecks(status, c))
  {
    ghost var s: set<ReasonCode> := {};
    reasons, s := Check([], status != Revoked, ApprovalRevoked, s);
    reasons, s := Check(reasons, status != Expired, ApprovalExpired, s);
    reasons, s := Check(reasons, c.window, ApprovalOutsideValidityWindow, s);
    reasons, s := Check(reasons, c.project, ApprovalProjectMismatch, s);
    reasons, s := Check(reasons, c.difference, ApprovalDifferenceMismatch, s);
    reasons, s := Check(reasons, c.intent, ApprovalChangeIntentMismatch, s);
    reasons, s := Check(reasons, c.action, ApprovalActionFingerprintMismatch, s);
    reasons, s := Check(reasons, c.revision, ApprovalStateRevisionStale, s);
    reasons, s := Check(reasons, c.fingerprint, ApprovalStateFingerprintStale, s);
    reasons, s := Check(reasons, c.scope, ApprovalScopeWidened, s);
  }

  lemma SortedByName(reasons: seq<ReasonCode>, s: set<ReasonCode>)
    requires Lists(reasons, s)
    ensures Lists(Sort(reasons, ByName()), s) && SortedBy(Sort(reasons, ByName()), ByName())
  {
    SortIsPermutation(reasons, ByName());
    forall a, b ensures ByName()(a, b) || ByName()(b, a) { StringLeTotal(MismatchName(a), MismatchName(b)); }
    forall a, b, c | ByName()(a, b) && ByName()(b, c) ensures ByName()(a, c) {
      StringLeTransitive(MismatchName(a), MismatchName(b), MismatchName(c));
    }
    SortIsSorted(reasons, ByName());
  }

  /** Exactly the failed checks, in the order of their names; none exactly when the
      approval binds. */
  method BindingMismatches(q: Question, a: Approval) returns (reasons: seq<ReasonCode>)
    requires Dated(a)
    ensures Lists(reasons, Mismatches(q, a)) && SortedBy(reasons, ByName())
    ensures reasons == [] <==> Binds(q, a)
  {
    reasons := CollectFailedChecks(a.status, ChecksOf(q, a));
    SortedByName(reasons, Mismatches(q, a));
    reasons := Sort(reasons, ByName());
    MismatchesNameEveryFailure(q, a);
    ListsNothing(reasons, Mismatches(q, a));
  }

  lemma NothingFailed(status: Status, c: Checks)
    ensures FailedChecks(status, c) == {} <==> status == Active && AllHold(c)
  {
    var m := FailedChecks(status, c);
    if m == {} {
      assert ApprovalRevoked !in m && ApprovalExpired !in m && ApprovalOutsideValidityWindow !in m;
      assert ApprovalProjectMismatch !in m && ApprovalDifferenceMismatch !in m && ApprovalChangeIntentMismatch !in m;
      assert ApprovalActionFingerprintMismatch !in m && ApprovalStateRevisionStale !in m;
      assert ApprovalStateFingerprintStale !in m && ApprovalScopeWidened !in m;
    }
  }

  lemma MismatchesNameEveryFailure(q: Question, a: Approval)
    requires Dated(a)
    ensures Mismatches(q, a) == {} <==> Binds(q, a)
  {
    NothingFailed(a.status, ChecksOf(q, a));
  }

  function Codes(reasons: seq<ReasonCode>): (s: set<ReasonCode>)
    ensures Lists(reasons, s)
  {
    set r | r in reasons
  }

  lemma ListsDetermine(reasons: seq<ReasonCode>, s: set<ReasonCode>, t: set<ReasonCode>)
    requires Lists(reasons, s) && Lists(reasons, t)
    ensures s == t
  {
  }

  lemma ListsNothing(reasons: seq<ReasonCode>, s: set<ReasonCode>)
    requires Lists(reasons, s)
    ensures reasons == [] <==> s == {}
  {
    if reasons != [] { assert reasons[0] in s; }
    if s != {} {
      var r :| r in s;
      assert r in reasons;
    }
  }

  // ---------------------------------------------------------------- the decision, over sets of records

  predicate Floored(q: Question) {
    q.action.kind in HUMAN_ONLY_ACTION_KINDS || q.action.reversibility == Irreversible
  }

  ghost function Matching(q: Question, ps: set<Prohibition>): set<Prohibition> { set p | p in ps && Matches(q, p) }

  ghost function Governing(q: Question, rs: set<Rule>): set<Rule> { set r | r in rs && Governs(q, r) }

  ghost predicate AllDated(as_: set<Approval>) { forall a :: a in as_ ==> Dated(a) }

  ghost function Binding(q: Question, as_: set<Approval>): set<Approval>
    requires AllDated(as_)
  {
    set a | a in as_ && Binds(q, a)
  }

  ghost function Excluding(q: Question, as_: set<Approval>): set<Approval>
    requires AllDated(as_)
  {
    set a | a in Binding(q, as_) && q.action.kind in a.prohibitedActions
  }

  ghost function RuleDecision(q: Question, rs: set<Rule>): Decision {
    if Governing(q, rs) == {} then HumanApprovalRequired
    else if exists r :: r in Governing(q, rs) && r.decision == Prohibited then Prohibited
    else if exists r :: r in Governing(q, rs) && r.decision == HumanApprovalRequired then HumanApprovalRequired
    else Autonomous
  }

  /** What the floors and an exclusion make of the decision the rules yield. */
  function RaisedFrom(a: Action, ruled: Decision, excluded: bool): Decision {
    var floored := if a.kind in HUMAN_ONLY_ACTION_KINDS || a.reversibility == Irreversible
                   then AtLeastAsRestrictiveAs(ruled, HumanApprovalRequired) else ruled;
    if excluded then AtLeastAsRestrictiveAs(floored, HumanApprovalRequired) else floored
  }

  ghost function Raised(q: Question, rs: set<Rule>, as_: set<Approval>): Decision
    requires AllDated(as_)
  {
    RaisedFrom(q.action, RuleDecision(q, rs), Excluding(q, as_) != {})
  }

  /** An approval is used to answer a question that still needs one. */
  ghost predicate Approved(q: Question, rs: set<Rule>, as_: set<Approval>)
    requires AllDated(as_)
  {
    Raised(q, rs, as_) == HumanApprovalRequired && Excluding(q, as_) == {} && Binding(q, as_) != {}
  }

  ghost function FinalDecision(q: Question, rs: set<Rule>, as_: set<Approval>): Decision
    requires AllDated(as_)
  {
    if Approved(q, rs, as_) then Autonomous else Raised(q, rs, as_)
  }

  /** The least id, by code point. */
  ghost function Least(ids: set<string>): Option<string> {
    if ids == {} then None else Some(SortedStrings(ids)[0])
  }

  ghost function Supporting(q: Question, rs: set<Rule>, d: Decision): set<Rule> {
    set r | r in Governing(q, rs) && r.decision == d
  }

  ghost function RuleIds(rs: set<Rule>): set<string> { set r | r in rs :: r.id }

  ghost function ProhibitionIds(ps: set<Prohibition>): set<string> { set p | p in ps :: p.id }

  ghost function ApprovalIds(as_: set<Approval>): set<string> { set a | a in as_ :: a.id }

  ghost function AllMismatches(q: Question, as_: set<Approval>): set<ReasonCode>
    requires AllDated(as_)
  {
    set a, r | a in as_ && r in Mismatches(q, a) :: r
  }

  /** What the approvals add to the reasons when one is needed. */
  ghost function ApprovalReasons(q: Question, as_: set<Approval>, needed: bool): set<ReasonCode>
    requires AllDated(as_)
  {
    if !needed then {}
    else if as_ == {} then {ApprovalMissing}
    else if Binding(q, as_) != {} then {ApprovalExact}
    else AllMismatches(q, as_)
  }

  /** The codes a permission gathers, stage by stage. */
  function GatheredReasons(a: Action, governed: bool, excluded: bool, fromApprovals: set<ReasonCode>,
                           permitted: bool, cited: bool): set<ReasonCode> {
    (if governed then {} else {NoRuleResolved})
    + (if a.kind in HUMAN_ONLY_ACTION_KINDS then {ActionIsHumanOnly} else {})
    + (if a.reversibility == Irreversible then {IrreversibleAction} else {})
    + (if excluded then {ApprovalExcludesAction} else {})
    + fromApprovals
    + (if permitted then {RulePermitsAutonomous} else {})
    + (if !governed then {} else if cited then {RuleResolved} else {RuleNotDecisive})
  }

  ghost function PermissionReasons(q: Question, rs: set<Rule>, as_: set<Approval>): set<ReasonCode>
    requires AllDated(as_)
  {
    GatheredReasons(q.action, Governing(q, rs) != {}, Excluding(q, as_) != {},
                    ApprovalReasons(q, as_, Raised(q, rs, as_) == HumanApprovalRequired && Excluding(q, as_) == {}),
                    Raised(q, rs, as_) == Autonomous, Supporting(q, rs, FinalDecision(q, rs, as_)) != {})
  }

  ghost function Refusal(q: Question, ps: set<Prohibition>): Record {
    Record(q.project, q.differenceId, q.action, q.scope, q.revision, q.fingerprint,
           None, SortedStrings(ProhibitionIds(Matching(q, ps))), None, [], Prohibited,
           {ProhibitionMatched}
           + if exists p :: p in Matching(q, ps) && p.constitutional then {ConstitutionalProhibitionMatched} else {})
  }

  ghost function Permission(q: Question, rs: set<Rule>, as_: set<Approval>): Record
    requires AllDated(as_)
  {
    var d := FinalDecision(q, rs, as_);
    Record(q.project, q.differenceId, q.action, q.scope, q.revision, q.fingerprint,
           Least(RuleIds(Supporting(q, rs, d))), [],
           if Approved(q, rs, as_) then Least(ApprovalIds(Binding(q, as_))) else None,
           SortedStrings(ApprovalIds(Excluding(q, as_))), d, PermissionReasons(q, rs, as_))
  }

  /** The answer to an admitted question over sets of admitted records. Bounds of
      a validity window are read only once no prohibition matches. */
  ghost function Verdict(
      q: Question, rs: set<Rule>, ps: set<Prohibition>, as_: set<Approval>): Result<Record, AuthorityError>
  {
    if Matching(q, ps) != {} then Ok(Refusal(q, ps))
    else if !AllDated(as_) then Err(NotAdmitted)
    else Ok(Permission(q, rs, as_))
  }

  // ---------------------------------------------------------------- lists of records

  function Selected<T(!new)>(xs: seq<T>, keep: T -> bool): (ys: seq<T>)
    ensures forall x :: x in ys <==> x in xs && keep(x)
  {
    if xs == [] then []
    else
      var n := |xs| - 1;
      assert xs == xs[..n] + [xs[n]];
      Selected(xs[..n], keep) + if keep(xs[n]) then [xs[n]] else []
  }

  ghost function SetOf<T>(xs: seq<T>): set<T> { set x | x in xs }

  function IdsOf<T>(xs: seq<T>, id: T -> string): (ids: seq<string>)
    ensures |ids| == |xs|
  {
    seq(|xs|, i requires 0 <= i < |xs| => id(xs[i]))
  }

  function ById<T>(id: T -> string): (T, T) -> bool { (a, b) => StringLe(id(a), id(b)) }

  /** The ids of the kept records, the records sorted by id. */
  function OrderedIds<T(!new)>(xs: seq<T>, keep: T -> bool, id: T -> string): seq<string> {
    IdsOf(Sort(Selected(xs, keep), ById(id)), id)
  }

  lemma {:induction false} SelectedKeepsDistinct<T(!new)>(xs: seq<T>, keep: T -> bool, id: T -> string)
    requires Distinct(IdsOf(xs, id))
    ensures Distinct(IdsOf(Selected(xs, keep), id))
  {
    if xs != [] {
      var n := |xs| - 1;
      assert IdsOf(xs[..n], id) == IdsOf(xs, id)[..n];
      SelectedKeepsDistinct(xs[..n], keep, id);
      var (before, x) := (Selected(xs[..n], keep), xs[n]);
      forall i | 0 <= i < |before| ensures id(before[i]) != id(x) {
        assert before[i] in xs[..n];
        var j :| 0 <= j < n && xs[j] == before[i];
        assert IdsOf(xs, id)[j] != IdsOf(xs, id)[n];
      }
      assert IdsOf(before + [x], id) == IdsOf(before, id) + [id(x)];
      assert Selected(xs, keep) == if keep(x) then before + [x] else before;
    }
  }

  lemma {:induction false} IdsOfInserted<T>(x: T, ys: seq<T>, id: T -> string)
    ensures IdsOf(Insert(x, ys, ById(id)), id) == Insert(id(x), IdsOf(ys, id), StringLe)
  {
    if ys == [] || ById(id)(x, ys[0]) {
    } else {
      IdsOfInserted(x, ys[1..], id);
      assert IdsOf(ys, id)[1..] == IdsOf(ys[1..], id);
      var rest := Insert(x, ys[1..], ById(id));
      assert IdsOf([ys[0]] + rest, id) == [id(ys[0])] + IdsOf(rest, id);
    }
  }

  /** Sorting records by id and reading the ids is sorting the ids. */
  lemma {:induction false} IdsOfSorted<T>(ys: seq<T>, id: T -> string)
    ensures IdsOf(Sort(ys, ById(id)), id) == Sort(IdsOf(ys, id), StringLe)
  {
    if ys != [] {
      IdsOfSorted(ys[1..], id);
      IdsOfInserted(ys[0], Sort(ys[1..], ById(id)), id);
      assert IdsOf(ys, id)[1..] == IdsOf(ys[1..], id);
    }
  }

  ghost function KeptIds<T(!new)>(xs: seq<T>, keep: T -> bool, id: T -> string): set<string> {
    set x | x in xs && keep(x) :: id(x)
  }

  lemma OrderedIdsAre<T(!new)>(xs: seq<T>, keep: T -> bool, id: T -> string)
    requires Distinct(IdsOf(xs, id))
    ensures OrderedIds(xs, keep, id) == SortedStrings(KeptIds(xs, keep, id))
  {
    var kept := Selected(xs, keep);
    var (ids, ordered) := (IdsOf(kept, id), OrderedIds(xs, keep, id));
    var s := KeptIds(xs, keep, id);
    SelectedKeepsDistinct(xs, keep, id);
    IdsOfSorted(kept, id);
    forall x ensures x in ids <==> x in s {
      if x in s {
        var r :| r in xs && keep(r) && id(r) == x;
        assert r in kept;
        var i :| 0 <= i < |kept| && kept[i] == r;
        assert ids[i] == x;
      }
      if x in ids {
        var i :| 0 <= i < |ids| && ids[i] == x;
        assert kept[i] in xs && keep(kept[i]);
      }
    }
    SortedStringsAre(ids, s);
  }

  // ---------------------------------------------------------------- admission

  /** Every member is canonical and refined, and no identity is repeated. */
  ghost predicate Admitted<T>(members: seq<T>, fit: T -> bool, id: T -> string) {
    (forall i :: 0 <= i < |members| ==> fit(members[i])) && Distinct(IdsOf(members, id))
  }

  lemma AdmittedOneMore<T>(members: seq<T>, i: nat, fit: T -> bool, id: T -> string)
    requires i < |members| && Admitted(members[..i], fit, id)
    ensures Admitted(members[..i + 1], fit, id) <==>
            fit(members[i]) && forall j :: 0 <= j < i ==> id(members[j]) != id(members[i])
    ensures !Admitted(members[..i + 1], fit, id) ==> !Admitted(members, fit, id)
  {
    var more := members[..i + 1];
    var ids := IdsOf(more, id);
    assert ids == IdsOf(members[..i], id) + [id(members[i])];
    assert ids == IdsOf(members, id)[..i + 1];
    if Admitted(more, fit, id) {
      assert fit(more[i]);
      forall j | 0 <= j < i ensures id(members[j]) != id(members[i]) { assert ids[j] != ids[i]; }
    }
    if fit(members[i]) {
      forall k | 0 <= k < |more| ensures fit(more[k]) { if k < i { assert fit(members[..i][k]); } }
    }
  }

  /** `admit_all`: one gate for every supplied collection; a repeat is refused. */
  method AdmitAll<T>(members: seq<T>, fit: T -> bool, id: T -> string) returns (admitted: bool)
    ensures admitted <==> Admitted(members, fit, id)
  {
    var seen: set<string> := {};
    for i := 0 to |members|
      invariant Admitted(members[..i], fit, id)
      invariant forall x :: x in seen <==> exists j :: 0 <= j < i && id(members[j]) == x
    {
      AdmittedOneMore(members, i, fit, id);
      if !fit(members[i]) {
        return false;
      }
      if id(members[i]) in seen {
        return false;
      }
      seen := seen + {id(members[i])};
    }
    assert members[..|members|] == members;
    return true;
  }

  function RuleId(r: Rule): string { r.id }
  function ProhibitionId(p: Prohibition): string { p.id }
  function ApprovalId(a: Approval): string { a.id }

  function GovernedBy(q: Question): Rule -> bool { (r: Rule) => Governs(q, r) }
  function Declares(d: Decision): Rule -> bool { (r: Rule) => r.decision == d }
  function MatchedBy(q: Question): Prohibition -> bool { (p: Prohibition) => Matches(q, p) }
  function Excludes(kind: string): Approval -> bool { (a: Approval) => kind in a.prohibitedActions }

  predicate FitRule(r: Rule) { r.canonical && r.decision != Prohibited && Enumerated(r.scope) }
  predicate FitProhibition(p: Prohibition) { p.canonical && Enumerated(p.scope) }
  predicate FitApproval(a: Approval) { a.canonical && Enumerated(a.scope) }

  predicate FitAction(a: Action) {
    IsActionKind(a.kind) && a.declared == DigestOfAction(a.kind, a.reversibility, a.operation)
  }

  function QuestionOf(r: Request): Question
    requires TransientInstant(r.evaluationTime).Ok?
  {
    Question(r.project, r.difference.id, r.action, CanonicalScope(r.scope), r.revision, r.fingerprint,
             TransientInstant(r.evaluationTime).value)
  }

  ghost predicate RecordsAdmitted(r: Request) {
    && Admitted(r.rules, FitRule, RuleId)
    && Admitted(r.prohibitions, FitProhibition, ProhibitionId)
    && Admitted(r.approvals, FitApproval, ApprovalId)
  }

  /** What refuses a request before any record is consulted. */
  function RequestError(r: Request): (e: Option<AuthorityError>)
    ensures e.None? ==> TransientInstant(r.evaluationTime).Ok? && Enumerated(r.scope)
  {
    if !r.wellShaped || !r.difference.canonical then Some(NotAdmitted)
    else if r.difference.project != r.project then Some(BoundaryViolation)
    else if !FitAction(r.action) || !Enumerated(r.scope) || r.revision < 0 || TransientInstant(r.evaluationTime).Err?
    then Some(NotAdmitted)
    else if r.difference.observedRevision != r.revision || r.difference.observedFingerprint != r.fingerprint
    then Some(StaleInput)
    else None
  }

  /** The whole evaluation, as a function of the request's records as sets. */
  ghost function Answer(r: Request): Result<Record, AuthorityError> {
    if RequestError(r).Some? then Err(RequestError(r).value)
    else if !RecordsAdmitted(r) then Err(NotAdmitted)
    else Verdict(QuestionOf(r), SetOf(r.rules), SetOf(r.prohibitions), SetOf(r.approvals))
  }

  // ---------------------------------------------------------------- the evaluator

  method ResolveRules(q: Question, rules: seq<Rule>) returns (governing: seq<Rule>, decision: Decision)
    ensures governing == Selected(rules, GovernedBy(q))
    ensures decision == RuleDecision(q, SetOf(rules))
  {
    governing := Selected(rules, GovernedBy(q));
    assert forall r :: r in governing <==> r in Governing(q, SetOf(rules));
    if governing == [] {
      assert Governing(q, SetOf(rules)) == {};
      return governing, HumanApprovalRequired;
    }
    assert governing[0] in Governing(q, SetOf(rules));
    decision := Autonomous;
    for i := 0 to |governing|
      invariant decision == Prohibited <==> exists j :: 0 <= j < i && governing[j].decision == Prohibited
      invariant decision == Autonomous <==> forall j :: 0 <= j < i ==> governing[j].decision == Autonomous
    {
      decision := AtLeastAsRestrictiveAs(decision, governing[i].decision);
    }
  }

  lemma CitedSet(q: Question, rules: seq<Rule>, decision: Decision)
    ensures KeptIds(Selected(rules, GovernedBy(q)), Declares(decision), RuleId) ==
            RuleIds(Supporting(q, SetOf(rules), decision))
  {
    var governing := Selected(rules, GovernedBy(q));
    var t := Supporting(q, SetOf(rules), decision);
    forall r ensures r in governing && r.decision == decision <==> r in t {}
  }

  lemma CitedIds(q: Question, rules: seq<Rule>, decision: Decision)
    requires Distinct(IdsOf(rules, RuleId))
    ensures OrderedIds(Selected(rules, GovernedBy(q)), Declares(decision), RuleId) ==
            SortedStrings(RuleIds(Supporting(q, SetOf(rules), decision)))
  {
    CitedSet(q, rules, decision);
    SelectedKeepsDistinct(rules, GovernedBy(q), RuleId);
    OrderedIdsAre(Selected(rules, GovernedBy(q)), Declares(decision), RuleId);
  }

  lemma LeastIsFirst(ids: set<string>)
    ensures SortedStrings(ids) == [] <==> ids == {}
    ensures ids != {} ==> Least(ids) == Some(SortedStrings(ids)[0])
  {
    var sorted := SortedStrings(ids);
    if sorted != [] { assert sorted[0] in ids; }
    if ids != {} {
      var x :| x in ids;
      assert x in sorted;
    }
  }

  /** The rule that declares the final decision, chosen by identity. */
  method CiteRule(
      q: Question, rules: seq<Rule>, governing: seq<Rule>, decision: Decision)
    returns (cited: Option<string>)
    requires governing == Selected(rules, GovernedBy(q)) && Distinct(IdsOf(rules, RuleId))
    ensures cited == Least(RuleIds(Supporting(q, SetOf(rules), decision)))
  {
    var ids := OrderedIds(governing, Declares(decision), RuleId);
    CitedIds(q, rules, decision);
    LeastIsFirst(RuleIds(Supporting(q, SetOf(rules), decision)));
    if ids == [] {
      return None;
    }
    return Some(ids[0]);
  }

  lemma MatchedIds(q: Question, prohibitions: seq<Prohibition>)
    requires Distinct(IdsOf(prohibitions, ProhibitionId))
    ensures OrderedIds(prohibitions, MatchedBy(q), ProhibitionId) ==
            SortedStrings(ProhibitionIds(Matching(q, SetOf(prohibitions))))
    ensures forall p :: p in Selected(prohibitions, MatchedBy(q)) <==> p in Matching(q, SetOf(prohibitions))
  {
    OrderedIdsAre(prohibitions, MatchedBy(q), ProhibitionId);
    assert KeptIds(prohibitions, MatchedBy(q), ProhibitionId) == ProhibitionIds(Matching(q, SetOf(prohibitions)));
  }

  /** Prohibitions are answered first; a match is the whole answer. */
  method RefuseIfProhibited(q: Question, prohibitions: seq<Prohibition>) returns (refusal: Option<Record>)
    requires Distinct(IdsOf(prohibitions, ProhibitionId))
    ensures refusal == if Matching(q, SetOf(prohibitions)) == {} then None else Some(Refusal(q, SetOf(prohibitions)))
  {
    var matched := Selected(prohibitions, MatchedBy(q));
    MatchedIds(q, prohibitions);
    if matched == [] {
      return None;
    }
    assert matched[0] in Matching(q, SetOf(prohibitions));
    var reasons := {ProhibitionMatched};
    if exists i :: 0 <= i < |matched| && matched[i].constitutional {
      reasons := reasons + {ConstitutionalProhibitionMatched};
    }
    return Some(Record(q.project, q.differenceId, q.action, q.scope, q.revision, q.fingerprint, None,
                       OrderedIds(prohibitions, MatchedBy(q), ProhibitionId), None, [], Prohibited, reasons));
  }

  ghost function BoundBy(q: Question): Approval -> bool
  {
    (a: Approval) => Dated(a) && Binds(q, a)
  }

  /** Every approval is checked against the question: the ones that bind, and why
      the others do not. An unreadable validity bound refuses the request. */
  method CheckApprovals(q: Question, approvals: seq<Approval>)
    returns (admitted: bool, binding: seq<Approval>, failures: seq<ReasonCode>)
    ensures admitted <==> AllDated(SetOf(approvals))
    ensures admitted ==>
            binding == Selected(approvals, BoundBy(q)) && Lists(failures, AllMismatches(q, SetOf(approvals)))
  {
    binding, failures := [], [];
    for i := 0 to |approvals|
      invariant AllDated(SetOf(approvals[..i]))
      invariant binding == Selected(approvals[..i], BoundBy(q))
      invariant Lists(failures, AllMismatches(q, SetOf(approvals[..i])))
    {
      var candidate := approvals[i];
      if !Dated(candidate) {
        assert candidate in SetOf(approvals);
        return false, [], [];
      }
      var mismatches := BindingMismatches(q, candidate);
      OneMoreApproval(q, approvals, i);
      if mismatches != [] {
        failures := failures + mismatches;
      } else {
        binding := binding + [candidate];
      }
    }
    assert approvals[..|approvals|] == approvals;
    return true, binding, failures;
  }

  lemma OneMoreApproval(q: Question, approvals: seq<Approval>, i: nat)
    requires i < |approvals| && AllDated(SetOf(approvals[..i])) && Dated(approvals[i])
    ensures SetOf(approvals[..i + 1]) == SetOf(approvals[..i]) + {approvals[i]} && AllDated(SetOf(approvals[..i + 1]))
    ensures Selected(approvals[..i + 1], BoundBy(q)) ==
            Selected(approvals[..i], BoundBy(q)) + if Binds(q, approvals[i]) then [approvals[i]] else []
    ensures AllMismatches(q, SetOf(approvals[..i + 1])) ==
            AllMismatches(q, SetOf(approvals[..i])) + Mismatches(q, approvals[i])
  {
    assert approvals[..i + 1] == approvals[..i] + [approvals[i]];
    assert (approvals[..i] + [approvals[i]])[..i] == approvals[..i];
    assert SetOf(approvals[..i + 1]) == SetOf(approvals[..i]) + {approvals[i]};
  }

  lemma BoundSet(q: Question, approvals: seq<Approval>)
    requires AllDated(SetOf(approvals))
    ensures forall a :: a in Selected(approvals, BoundBy(q)) <==> a in Binding(q, SetOf(approvals))
  {
  }

  lemma ExcludedIds(q: Question, approvals: seq<Approval>)
    requires AllDated(SetOf(approvals)) && Distinct(IdsOf(approvals, ApprovalId))
    ensures OrderedIds(Selected(approvals, BoundBy(q)), Excludes(q.action.kind), ApprovalId) ==
            SortedStrings(ApprovalIds(Excluding(q, SetOf(approvals))))
    ensures OrderedIds(Selected(approvals, BoundBy(q)), Excludes(q.action.kind), ApprovalId) == [] <==>
            Excluding(q, SetOf(approvals)) == {}
  {
    var binding := Selected(approvals, BoundBy(q));
    BoundSet(q, approvals);
    SelectedKeepsDistinct(approvals, BoundBy(q), ApprovalId);
    OrderedIdsAre(binding, Excludes(q.action.kind), ApprovalId);
    var t := Excluding(q, SetOf(approvals));
    forall a ensures a in binding && Excludes(q.action.kind)(a) <==> a in t {}
    assert KeptIds(binding, Excludes(q.action.kind), ApprovalId) == ApprovalIds(t);
    IdsAreEmpty(t);
    LeastIsFirst(ApprovalIds(t));
  }

  function Permits(kind: string): Approval -> bool { (a: Approval) => kind !in a.prohibitedActions }

  lemma UsableSet(q: Question, approvals: seq<Approval>)
    requires AllDated(SetOf(approvals)) && Excluding(q, SetOf(approvals)) == {}
    ensures KeptIds(Selected(approvals, BoundBy(q)), Permits(q.action.kind), ApprovalId) ==
            ApprovalIds(Binding(q, SetOf(approvals)))
  {
    var binding := Selected(approvals, BoundBy(q));
    BoundSet(q, approvals);
    forall a ensures a in binding && Permits(q.action.kind)(a) <==> a in Binding(q, SetOf(approvals)) {
      if a in Binding(q, SetOf(approvals)) { assert a !in Excluding(q, SetOf(approvals)); }
    }
  }

  lemma UsableIds(q: Question, approvals: seq<Approval>)
    requires AllDated(SetOf(approvals)) && Distinct(IdsOf(approvals, ApprovalId))
    requires Excluding(q, SetOf(approvals)) == {}
    ensures OrderedIds(Selected(approvals, BoundBy(q)), Permits(q.action.kind), ApprovalId) ==
            SortedStrings(ApprovalIds(Binding(q, SetOf(approvals))))
  {
    UsableSet(q, approvals);
    SelectedKeepsDistinct(approvals, BoundBy(q), ApprovalId);
    OrderedIdsAre(Selected(approvals, BoundBy(q)), Permits(q.action.kind), ApprovalId);
  }

  lemma IdsAreEmpty(as_: set<Approval>)
    ensures ApprovalIds(as_) == {} <==> as_ == {}
  {
    if as_ != {} {
      var a :| a in as_;
      assert a.id in ApprovalIds(as_);
    }
  }

  lemma RuleIdsAreEmpty(rs: set<Rule>)
    ensures RuleIds(rs) == {} <==> rs == {}
  {
    if rs != {} {
      var r :| r in rs;
      assert r.id in RuleIds(rs);
    }
  }

  lemma FirstUsable(q: Question, approvals: seq<Approval>)
    requires AllDated(SetOf(approvals)) && Distinct(IdsOf(approvals, ApprovalId))
    requires Excluding(q, SetOf(approvals)) == {}
    ensures var usable := OrderedIds(Selected(approvals, BoundBy(q)), Permits(q.action.kind), ApprovalId);
            && (usable == [] <==> Binding(q, SetOf(approvals)) == {})
            && (usable != [] ==> Least(ApprovalIds(Binding(q, SetOf(approvals)))) == Some(usable[0]))
  {
    UsableIds(q, approvals);
    IdsAreEmpty(Binding(q, SetOf(approvals)));
    LeastIsFirst(ApprovalIds(Binding(q, SetOf(approvals))));
  }

  lemma NoApprovals(q: Question, approvals: seq<Approval>)
    requires AllDated(SetOf(approvals))
    ensures approvals == [] <==> SetOf(approvals) == {}
    ensures approvals == [] ==> Binding(q, SetOf(approvals)) == {}
  {
    if approvals != [] { assert approvals[0] in SetOf(approvals); }
  }

  /** The decision as rules, floors and exclusions leave it. */
  method Raise(q: Question, ruled: Decision, excluded: bool) returns (decision: Decision)
    ensures decision == RaisedFrom(q.action, ruled, excluded)
  {
    decision := ruled;
    if q.action.kind in HUMAN_ONLY_ACTION_KINDS {
      decision := AtLeastAsRestrictiveAs(decision, HumanApprovalRequired);
    }
    if q.action.reversibility == Irreversible {
      decision := AtLeastAsRestrictiveAs(decision, HumanApprovalRequired);
    }
    if excluded {
      decision := AtLeastAsRestrictiveAs(decision, HumanApprovalRequired);
    }
  }

  /** Chooses the approval that answers a question the rules left to a human, and
      says what the approvals contributed. */
  method ConsultApprovals(q: Question, approvals: seq<Approval>, binding: seq<Approval>, failures: seq<ReasonCode>,
                          excluded: bool, raised: Decision)
    returns (used: Option<string>, reasons: set<ReasonCode>)
    requires AllDated(SetOf(approvals)) && Distinct(IdsOf(approvals, ApprovalId))
    requires binding == Selected(approvals, BoundBy(q)) && Lists(failures, AllMismatches(q, SetOf(approvals)))
    requires excluded <==> Excluding(q, SetOf(approvals)) != {}
    ensures used == if raised == HumanApprovalRequired && !excluded && Binding(q, SetOf(approvals)) != {}
                    then Least(ApprovalIds(Binding(q, SetOf(approvals)))) else None
    ensures reasons == ApprovalReasons(q, SetOf(approvals), raised == HumanApprovalRequired && !excluded)
  {
    used, reasons := None, {};
    NoApprovals(q, approvals);
    if raised == HumanApprovalRequired && !excluded {
      if approvals == [] {
        return None, {ApprovalMissing};
      }
      FirstUsable(q, approvals);
      var usable := OrderedIds(binding, Permits(q.action.kind), ApprovalId);
      if usable != [] {
        return Some(usable[0]), {ApprovalExact};
      }
      reasons := Codes(failures);
      ListsDetermine(failures, reasons, AllMismatches(q, SetOf(approvals)));
    }
  }

  /** The answer once no prohibition matched. */
  method DecidePermission(
      q: Question, rules: seq<Rule>, approvals: seq<Approval>)
    returns (r: Result<Record, AuthorityError>)
    requires Distinct(IdsOf(rules, RuleId)) && Distinct(IdsOf(approvals, ApprovalId))
    ensures r == if AllDated(SetOf(approvals)) then Ok(Permission(q, SetOf(rules), SetOf(approvals)))
            else Err(NotAdmitted)
  {
    var governing, ruled := ResolveRules(q, rules);
    var dated, binding, failures := CheckApprovals(q, approvals);
    if !dated {
      return Err(NotAdmitted);
    }
    ghost var (rs, as_) := (SetOf(rules), SetOf(approvals));
    var excluding := OrderedIds(binding, Excludes(q.action.kind), ApprovalId);
    ExcludedIds(q, approvals);
    var raised := Raise(q, ruled, excluding != []);
    var used, approvalReasons := ConsultApprovals(q, approvals, binding, failures, excluding != [], raised);
    IdsAreEmpty(Binding(q, as_));
    var decision := if used.Some? then Autonomous else raised;
    assert decision == FinalDecision(q, rs, as_);
    var cited := CiteRule(q, rules, governing, decision);
    RuleIdsAreEmpty(Supporting(q, rs, decision));
    GoverningIsEmpty(q, rules);
    var reasons := GatheredReasons(q.action, governing != [], excluding != [], approvalReasons,
                                   decision == Autonomous && used.None?, cited.Some?);
    r := Ok(Record(q.project, q.differenceId, q.action, q.scope, q.revision, q.fingerprint,
                   cited, [], used, excluding, decision, reasons));
  }

  lemma GoverningIsEmpty(q: Question, rules: seq<Rule>)
    ensures Selected(rules, GovernedBy(q)) == [] <==> Governing(q, SetOf(rules)) == {}
  {
    var governing := Selected(rules, GovernedBy(q));
    if governing != [] { assert governing[0] in governing && governing[0] in Governing(q, SetOf(rules)); }
  }

  method Evaluate(request: Request) returns (r: Result<Record, AuthorityError>)
    ensures r == Answer(request)
  {
    var refused := RequestError(request);
    if refused.Some? {
      return Err(refused.value);
    }
    var scope := RequireScope(request.scope);
    if scope.Err? {
      return Err(NotAdmitted);
    }
    var q := Question(request.project, request.difference.id, request.action, scope.value,
                      request.revision, request.fingerprint, TransientInstant(request.evaluationTime).value);
    var rulesAdmitted := AdmitAll(request.rules, FitRule, RuleId);
    if !rulesAdmitted {
      return Err(NotAdmitted);
    }
    var prohibitionsAdmitted := AdmitAll(request.prohibitions, FitProhibition, ProhibitionId);
    if !prohibitionsAdmitted {
      return Err(NotAdmitted);
    }
    var approvalsAdmitted := AdmitAll(request.approvals, FitApproval, ApprovalId);
    if !approvalsAdmitted {
      return Err(NotAdmitted);
    }
    var refusal := RefuseIfProhibited(q, request.prohibitions);
    if refusal.Some? {
      return Ok(refusal.value);
    }
    r := DecidePermission(q, request.rules, request.approvals);
  }
}
