/** What every authority decision guarantees. */
module AuthorityGuarantees {
  import opened Results
  import opened Ordering
  import opened AuthorityScope
  import opened Timestamps
  import opened Authority

  // ---------------------------------------------------------------- input order

  /** The same request with its records and scope members in another order. */
  ghost predicate Reordered(a: Request, b: Request) {
    && b == a.(scope := b.scope, rules := b.rules, prohibitions := b.prohibitions, approvals := b.approvals)
    && SameMembers(a.scope, b.scope)
    && multiset(a.rules) == multiset(b.rules)
    && multiset(a.prohibitions) == multiset(b.prohibitions)
    && multiset(a.approvals) == multiset(b.approvals)
  }

  lemma SameSet<T(!new)>(xs: seq<T>, ys: seq<T>)
    requires multiset(xs) == multiset(ys)
    ensures SetOf(xs) == SetOf(ys)
  {
    forall x ensures x in xs <==> x in ys {
      assert x in xs <==> x in multiset(xs);
      assert x in ys <==> x in multiset(ys);
    }
  }

  lemma {:induction false} SameIds<T(!new)>(xs: seq<T>, ys: seq<T>, id: T -> string)
    requires multiset(xs) == multiset(ys)
    ensures multiset(IdsOf(xs, id)) == multiset(IdsOf(ys, id))
  {
    if xs == [] {
      assert |multiset(ys)| == 0;
      assert ys == [];
    } else {
      assert xs[0] in multiset(ys);
      var k :| 0 <= k < |ys| && ys[k] == xs[0];
      RemoveOne(xs, ys, k);
      SameIds(xs[1..], ys[..k] + ys[k + 1..], id);
      IdsWithoutOne(xs, 0, id);
      IdsWithoutOne(ys, k, id);
      assert xs[..0] + xs[1..] == xs[1..];
    }
  }

  lemma RemoveOne<T>(xs: seq<T>, ys: seq<T>, k: nat)
    requires xs != [] && k < |ys| && ys[k] == xs[0] && multiset(xs) == multiset(ys)
    ensures multiset(xs[1..]) == multiset(ys[..k] + ys[k + 1..])
  {
    TailMultiset(xs);
    assert ys == ys[..k] + [ys[k]] + ys[k + 1..];
    assert multiset(ys) == multiset(ys[..k] + ys[k + 1..]) + multiset{ys[k]};
  }

  lemma IdsWithoutOne<T>(ys: seq<T>, k: nat, id: T -> string)
    requires k < |ys|
    ensures multiset(IdsOf(ys, id)) == multiset(IdsOf(ys[..k] + ys[k + 1..], id)) + multiset{id(ys[k])}
  {
    var ids := IdsOf(ys, id);
    assert IdsOf(ys[..k] + ys[k + 1..], id) == ids[..k] + ids[k + 1..];
    assert ids == ids[..k] + [ids[k]] + ids[k + 1..];
  }

  lemma SameAdmission<T(!new)>(xs: seq<T>, ys: seq<T>, fit: T -> bool, id: T -> string)
    requires multiset(xs) == multiset(ys) && Admitted(xs, fit, id)
    ensures Admitted(ys, fit, id)
  {
    forall i | 0 <= i < |ys| ensures fit(ys[i]) {
      assert ys[i] in multiset(xs);
      var j :| 0 <= j < |xs| && xs[j] == ys[i];
    }
    SameIds(xs, ys, id);
    DistinctCarriesOver(IdsOf(xs, id), IdsOf(ys, id));
  }

  lemma SameRecordsAdmitted(a: Request, b: Request)
    requires Reordered(a, b) && RecordsAdmitted(a)
    ensures RecordsAdmitted(b)
  {
    SameAdmission(a.rules, b.rules, FitRule, RuleId);
    SameAdmission(a.prohibitions, b.prohibitions, FitProhibition, ProhibitionId);
    SameAdmission(a.approvals, b.approvals, FitApproval, ApprovalId);
  }

  lemma SameQuestion(a: Request, b: Request)
    requires Reordered(a, b)
    ensures RequestError(a) == RequestError(b)
    ensures RequestError(a).None? ==> QuestionOf(a) == QuestionOf(b)
  {
    SameMembersSameAdmission(a.scope, b.scope);
    CanonicalScopeDecides(a.scope, b.scope);
  }

  lemma SameAnswer(a: Request, b: Request)
    requires RequestError(a) == RequestError(b) && (RequestError(a).None? ==> QuestionOf(a) == QuestionOf(b))
    requires RecordsAdmitted(a) <==> RecordsAdmitted(b)
    requires SetOf(a.rules) == SetOf(b.rules) && SetOf(a.prohibitions) == SetOf(b.prohibitions)
    requires SetOf(a.approvals) == SetOf(b.approvals)
    ensures Answer(a) == Answer(b)
  {
  }

  /** The whole record - decision, citation, both reference lists, approval and
      reason codes - is the same whatever order the rules, the prohibitions, the
      approvals and the members of the requested scope come in. */
  lemma EvaluationIgnoresOrder(a: Request, b: Request)
    requires Reordered(a, b)
    ensures Answer(a) == Answer(b)
  {
    SameQuestion(a, b);
    SameSet(a.rules, b.rules);
    SameSet(a.prohibitions, b.prohibitions);
    SameSet(a.approvals, b.approvals);
    ReorderedBack(a, b);
    if RecordsAdmitted(a) { SameRecordsAdmitted(a, b); }
    if RecordsAdmitted(b) { SameRecordsAdmitted(b, a); }
    SameAnswer(a, b);
  }

  lemma ReorderedBack(a: Request, b: Request)
    requires Reordered(a, b)
    ensures Reordered(b, a)
  {
  }

  // ---------------------------------------------------------------- exactly when a decision is autonomous

  /** No rule declares a refusal; admission refuses such a rule. */
  ghost predicate Declarable(rs: set<Rule>) { forall r :: r in rs ==> r.decision != Prohibited }

  lemma AdmittedRulesAreDeclarable(r: Request)
    requires RecordsAdmitted(r)
    ensures Declarable(SetOf(r.rules))
  {
  }

  ghost predicate SomeApprovalBinds(q: Question, as_: set<Approval>) { exists a :: a in as_ && Dated(a) && Binds(q, a) }

  ghost predicate SomeApprovalWithholds(q: Question, as_: set<Approval>) {
    exists a :: a in as_ && Dated(a) && Binds(q, a) && q.action.kind in a.prohibitedActions
  }

  ghost predicate RulesPermit(q: Question, rs: set<Rule>) {
    && !Floored(q)
    && (exists r :: r in rs && Governs(q, r))
    && (forall r :: r in rs && Governs(q, r) ==> r.decision == Autonomous)
  }

  lemma RuleDecisionExactly(q: Question, rs: set<Rule>)
    requires Declarable(rs)
    ensures RuleDecision(q, rs) != Prohibited
    ensures RuleDecision(q, rs) == Autonomous <==>
            && (exists r :: r in rs && Governs(q, r))
            && (forall r :: r in rs && Governs(q, r) ==> r.decision == Autonomous)
  {
    if r :| r in rs && Governs(q, r) { assert r in Governing(q, rs); }
  }

  lemma ApprovalsExactly(q: Question, as_: set<Approval>)
    requires AllDated(as_)
    ensures Binding(q, as_) != {} <==> SomeApprovalBinds(q, as_)
    ensures Excluding(q, as_) != {} <==> SomeApprovalWithholds(q, as_)
  {
    if a :| a in as_ && Dated(a) && Binds(q, a) { assert a in Binding(q, as_); }
    if a :| a in as_ && Dated(a) && Binds(q, a) && q.action.kind in a.prohibitedActions {
      assert a in Excluding(q, as_);
    }
  }

  lemma MatchingExactly(q: Question, ps: set<Prohibition>)
    ensures Matching(q, ps) != {} <==> exists p :: p in ps && Matches(q, p)
  {
    if p :| p in ps && Matches(q, p) { assert p in Matching(q, ps); }
  }

  /** Nothing withholds the action, and the rules or an approval permit it. */
  ghost predicate Cleared(q: Question, rs: set<Rule>, as_: set<Approval>) {
    !SomeApprovalWithholds(q, as_) && (RulesPermit(q, rs) || SomeApprovalBinds(q, as_))
  }

  ghost predicate Unprohibited(q: Question, ps: set<Prohibition>) { forall p :: p in ps ==> !Matches(q, p) }

  /** Autonomous exactly when nothing prohibits and the request is cleared;
      prohibited exactly when something prohibits. */
  ghost predicate DecidesExactly(q: Question, rs: set<Rule>, ps: set<Prohibition>, as_: set<Approval>, d: Decision) {
    && (d == Autonomous <==> Unprohibited(q, ps) && Cleared(q, rs, as_))
    && (d == Prohibited <==> exists p :: p in ps && Matches(q, p))
  }

  /** Autonomous exactly when nothing prohibits, no binding approval withholds the
      action, and either every governing rule permits it with no floor applying or
      some approval binds it. */
  lemma AutonomousExactly(q: Question, rs: set<Rule>, ps: set<Prohibition>, as_: set<Approval>)
    requires Declarable(rs) && Verdict(q, rs, ps, as_).Ok?
    ensures DecidesExactly(q, rs, ps, as_, Verdict(q, rs, ps, as_).value.decision)
  {
    MatchingExactly(q, ps);
    if Matching(q, ps) == {} { PermittedExactly(q, rs, as_); }
  }

  lemma PermittedExactly(q: Question, rs: set<Rule>, as_: set<Approval>)
    requires Declarable(rs) && AllDated(as_)
    ensures FinalDecision(q, rs, as_) != Prohibited
    ensures FinalDecision(q, rs, as_) == Autonomous <==> Cleared(q, rs, as_)
  {
    RuleDecisionExactly(q, rs);
    ApprovalsExactly(q, as_);
  }

  // ---------------------------------------------------------------- what never loosens a decision

  /** Both are answers, and the second is the more permissive one. */
  ghost predicate Looser(before: Result<Record, AuthorityError>, after: Result<Record, AuthorityError>) {
    before.Ok? && after.Ok? && Rank(after.value.decision) < Rank(before.value.decision)
  }

  lemma AddingAProhibitionNeverLoosens(
      q: Question, rs: set<Rule>, ps: set<Prohibition>, p: Prohibition, as_: set<Approval>)
    requires Declarable(rs)
    ensures !Looser(Verdict(q, rs, ps, as_), Verdict(q, rs, ps + {p}, as_))
  {
    MatchingExactly(q, ps);
    MatchingExactly(q, ps + {p});
    if Matching(q, ps + {p}) == {} {
      assert Matching(q, ps) == {};
    }
  }

  lemma AddingAWithholdingApprovalNeverLoosens(
    q: Question, rs: set<Rule>, ps: set<Prohibition>, as_: set<Approval>, a: Approval)
    requires Declarable(rs) && Dated(a) && Binds(q, a) && q.action.kind in a.prohibitedActions
    ensures !Looser(Verdict(q, rs, ps, as_), Verdict(q, rs, ps, as_ + {a}))
    ensures Verdict(q, rs, ps, as_ + {a}).Ok? ==> Verdict(q, rs, ps, as_ + {a}).value.decision != Autonomous
  {
    if Verdict(q, rs, ps, as_ + {a}).Ok? {
      AutonomousExactly(q, rs, ps, as_ + {a});
      assert SomeApprovalWithholds(q, as_ + {a});
      if Verdict(q, rs, ps, as_).Ok? { AutonomousExactly(q, rs, ps, as_); }
    }
  }

  /** A further rule, however permissive, never loosens a decision that some rule
      already governs. */
  lemma AddingARuleNeverLoosensAGovernedRequest(
    q: Question, rs: set<Rule>, r: Rule, ps: set<Prohibition>, as_: set<Approval>)
    requires Declarable(rs + {r}) && exists g :: g in rs && Governs(q, g)
    ensures !Looser(Verdict(q, rs, ps, as_), Verdict(q, rs + {r}, ps, as_))
  {
    if Verdict(q, rs, ps, as_).Ok? && Verdict(q, rs + {r}, ps, as_).Ok? {
      AutonomousExactly(q, rs, ps, as_);
      AutonomousExactly(q, rs + {r}, ps, as_);
      if RulesPermit(q, rs + {r}) {
        forall g | g in rs && Governs(q, g) ensures g.decision == Autonomous { assert g in rs + {r}; }
        assert RulesPermit(q, rs);
      }
    }
  }

  // ---------------------------------------------------------------- provenance

  /** The record says a rule was decisive exactly when it cites one, and the cited
      rule governs the request and declares the recorded decision. */
  ghost predicate CitesExactly(q: Question, rs: set<Rule>, record: Record) {
    && (RuleResolved in record.reasonCodes <==> record.resolvedRule.Some?)
    && (record.resolvedRule.Some? ==>
          exists r :: r in rs && Governs(q, r) && r.decision == record.decision && r.id == record.resolvedRule.value)
    && (record.resolvedRule.None? ==>
          record.decision == Prohibited || forall r :: r in rs && Governs(q, r) ==> r.decision != record.decision)
  }

  lemma CitationAccountsForDecision(q: Question, rs: set<Rule>, ps: set<Prohibition>, as_: set<Approval>)
    requires Declarable(rs) && Verdict(q, rs, ps, as_).Ok?
    ensures CitesExactly(q, rs, Verdict(q, rs, ps, as_).value)
  {
    if Matching(q, ps) == {} {
      var supporting := Supporting(q, rs, FinalDecision(q, rs, as_));
      LeastIsFirst(RuleIds(supporting));
      if supporting != {} {
        var r :| r in supporting;
        assert r.id in RuleIds(supporting);
        assert SortedStrings(RuleIds(supporting))[0] in SortedStrings(RuleIds(supporting));
      } else {
        assert RuleIds(supporting) == {};
        forall r | r in rs && Governs(q, r) ensures r.decision != FinalDecision(q, rs, as_) {
          assert r in Governing(q, rs);
        }
      }
      ResolvedMeansSupported(q, rs, as_);
    }
  }

  /** A code by which an approval says why it does not bind. */
  predicate IsMismatch(r: ReasonCode) {
    || r.ApprovalRevoked? || r.ApprovalExpired? || r.ApprovalOutsideValidityWindow? || r.ApprovalProjectMismatch?
    || r.ApprovalDifferenceMismatch? || r.ApprovalChangeIntentMismatch? || r.ApprovalActionFingerprintMismatch?
    || r.ApprovalStateRevisionStale? || r.ApprovalStateFingerprintStale? || r.ApprovalScopeWidened?
  }

  predicate IsFromApproval(r: ReasonCode) { IsMismatch(r) || r.ApprovalMissing? || r.ApprovalExact? }

  /** The check that a mismatch code names. */
  predicate ChecksOut(status: Status, c: Checks, code: ReasonCode) {
    match code
    case ApprovalRevoked => status != Revoked
    case ApprovalExpired => status != Expired
    case ApprovalOutsideValidityWindow => c.window
    case ApprovalProjectMismatch => c.project
    case ApprovalDifferenceMismatch => c.difference
    case ApprovalChangeIntentMismatch => c.intent
    case ApprovalActionFingerprintMismatch => c.action
    case ApprovalStateRevisionStale => c.revision
    case ApprovalStateFingerprintStale => c.fingerprint
    case ApprovalScopeWidened => c.scope
    case _ => true
  }

  ghost predicate ListedCheck(status: Status, c: Checks, code: ReasonCode) {
    || code in Unless(status != Revoked, ApprovalRevoked) || code in Unless(status != Expired, ApprovalExpired)
    || code in Unless(c.window, ApprovalOutsideValidityWindow) || code in Unless(c.project, ApprovalProjectMismatch)
    || code in Unless(c.difference, ApprovalDifferenceMismatch)
    || code in Unless(c.intent, ApprovalChangeIntentMismatch)
    || code in Unless(c.action, ApprovalActionFingerprintMismatch)
    || code in Unless(c.revision, ApprovalStateRevisionStale)
    || code in Unless(c.fingerprint, ApprovalStateFingerprintStale) || code in Unless(c.scope, ApprovalScopeWidened)
  }

  lemma ChecksAreListed(status: Status, c: Checks, code: ReasonCode)
    ensures code in FailedChecks(status, c) <==> ListedCheck(status, c, code)
  {
  }

  lemma ChecksAreExact(status: Status, c: Checks, code: ReasonCode)
    ensures code in FailedChecks(status, c) <==> !ChecksOut(status, c, code)
  {
    ChecksAreListed(status, c, code);
  }

  lemma ChecksAreMismatches(status: Status, c: Checks, r: ReasonCode)
    requires r in FailedChecks(status, c)
    ensures IsMismatch(r)
  {
    ChecksAreExact(status, c, r);
  }

  lemma AllMismatchesAre(q: Question, as_: set<Approval>)
    requires AllDated(as_)
    ensures forall r :: r in AllMismatches(q, as_) ==> IsMismatch(r)
  {
    forall a, r | a in as_ && r in Mismatches(q, a)
      ensures IsMismatch(r)
    {
      ChecksAreMismatches(a.status, ChecksOf(q, a), r);
    }
  }

  lemma ApprovalsGiveMismatches(q: Question, as_: set<Approval>, needed: bool)
    requires AllDated(as_)
    ensures forall r :: r in ApprovalReasons(q, as_, needed) ==> IsFromApproval(r)
    ensures ApprovalMissing in ApprovalReasons(q, as_, needed) <==> needed && as_ == {}
    ensures ApprovalExact in ApprovalReasons(q, as_, needed) <==> needed && Binding(q, as_) != {}
  {
    AllMismatchesAre(q, as_);
  }

  lemma GatheredAboutAction(
      a: Action, governed: bool, excluded: bool, fromApprovals: set<ReasonCode>, permitted: bool, cited: bool)
    requires forall r :: r in fromApprovals ==> IsFromApproval(r)
    ensures var reasons := GatheredReasons(a, governed, excluded, fromApprovals, permitted, cited);
            && (NoRuleResolved in reasons <==> !governed)
            && (ActionIsHumanOnly in reasons <==> a.kind in HUMAN_ONLY_ACTION_KINDS)
            && (IrreversibleAction in reasons <==> a.reversibility == Irreversible)
            && (ApprovalExcludesAction in reasons <==> excluded)
            && ProhibitionMatched !in reasons && ConstitutionalProhibitionMatched !in reasons
  {
  }

  lemma GatheredAboutRecords(
      a: Action, governed: bool, excluded: bool, fromApprovals: set<ReasonCode>, permitted: bool, cited: bool)
    requires forall r :: r in fromApprovals ==> IsFromApproval(r)
    ensures var reasons := GatheredReasons(a, governed, excluded, fromApprovals, permitted, cited);
            && (ApprovalMissing in reasons <==> ApprovalMissing in fromApprovals)
            && (ApprovalExact in reasons <==> ApprovalExact in fromApprovals)
            && (RulePermitsAutonomous in reasons <==> permitted)
            && (RuleResolved in reasons <==> governed && cited)
            && (RuleNotDecisive in reasons <==> governed && !cited)
  {
  }

  lemma PermissionReasonsMean(q: Question, rs: set<Rule>, as_: set<Approval>)
    requires AllDated(as_)
    ensures var (reasons, needed) :=
            (PermissionReasons(q, rs, as_), Raised(q, rs, as_) == HumanApprovalRequired && Excluding(q, as_) == {});
            && (NoRuleResolved in reasons <==> Governing(q, rs) == {})
            && (ActionIsHumanOnly in reasons <==> q.action.kind in HUMAN_ONLY_ACTION_KINDS)
            && (IrreversibleAction in reasons <==> q.action.reversibility == Irreversible)
            && (ApprovalExcludesAction in reasons <==> Excluding(q, as_) != {})
            && (ApprovalMissing in reasons <==> needed && as_ == {})
            && (ApprovalExact in reasons <==> needed && Binding(q, as_) != {})
            && (RulePermitsAutonomous in reasons <==> Raised(q, rs, as_) == Autonomous)
            && (RuleResolved in reasons <==> Supporting(q, rs, FinalDecision(q, rs, as_)) != {})
            && (RuleNotDecisive in reasons <==>
               Governing(q, rs) != {} && Supporting(q, rs, FinalDecision(q, rs, as_)) == {})
            && ProhibitionMatched !in reasons && ConstitutionalProhibitionMatched !in reasons
  {
    var needed := Raised(q, rs, as_) == HumanApprovalRequired && Excluding(q, as_) == {};
    var supporting := Supporting(q, rs, FinalDecision(q, rs, as_));
    ApprovalsGiveMismatches(q, as_, needed);
    GatheredAboutAction(q.action, Governing(q, rs) != {}, Excluding(q, as_) != {}, ApprovalReasons(q, as_, needed),
                        Raised(q, rs, as_) == Autonomous, supporting != {});
    GatheredAboutRecords(q.action, Governing(q, rs) != {}, Excluding(q, as_) != {}, ApprovalReasons(q, as_, needed),
                         Raised(q, rs, as_) == Autonomous, supporting != {});
    assert supporting <= Governing(q, rs);
  }

  lemma ResolvedMeansSupported(q: Question, rs: set<Rule>, as_: set<Approval>)
    requires AllDated(as_)
    ensures RuleResolved in PermissionReasons(q, rs, as_) <==> Supporting(q, rs, FinalDecision(q, rs, as_)) != {}
  {
    PermissionReasonsMean(q, rs, as_);
  }

  /** Each reason code of a decision that nothing prohibits says exactly what its
      name says about the question, the records and the record itself. */
  ghost predicate GivesTrueReasons(q: Question, rs: set<Rule>, as_: set<Approval>, record: Record) {
    && (NoRuleResolved in record.reasonCodes <==> forall r :: r in rs ==> !Governs(q, r))
    && (ActionIsHumanOnly in record.reasonCodes <==> q.action.kind in HUMAN_ONLY_ACTION_KINDS)
    && (IrreversibleAction in record.reasonCodes <==> q.action.reversibility == Irreversible)
    && (ApprovalExcludesAction in record.reasonCodes <==> SomeApprovalWithholds(q, as_))
    && (ApprovalMissing in record.reasonCodes <==> record.decision == HumanApprovalRequired && as_ == {})
    && (ApprovalExact in record.reasonCodes <==> record.approvalRef.Some?)
    && (RulePermitsAutonomous in record.reasonCodes <==> record.decision == Autonomous && record.approvalRef.None?)
    && (RuleNotDecisive in record.reasonCodes <==>
          (exists r :: r in rs && Governs(q, r)) && record.resolvedRule.None?)
    && ProhibitionMatched !in record.reasonCodes && ConstitutionalProhibitionMatched !in record.reasonCodes
  }

  /** A refusal names the prohibition, and says whether a constitutional one matched. */
  ghost predicate GivesRefusalReasons(q: Question, ps: set<Prohibition>, record: Record) {
    record.reasonCodes ==
    {ProhibitionMatched}
    + if exists p :: p in ps && Matches(q, p) && p.constitutional then {ConstitutionalProhibitionMatched} else {}
  }

  lemma RefusalReasonsAreTrue(q: Question, ps: set<Prohibition>)
    ensures GivesRefusalReasons(q, ps, Refusal(q, ps))
  {
    if p :| p in ps && Matches(q, p) && p.constitutional { assert p in Matching(q, ps); }
  }

  lemma ReasonsAreTrue(q: Question, rs: set<Rule>, ps: set<Prohibition>, as_: set<Approval>)
    requires Declarable(rs) && Verdict(q, rs, ps, as_).Ok?
    ensures var record := Verdict(q, rs, ps, as_).value;
            if Unprohibited(q, ps) then GivesTrueReasons(q, rs, as_, record) else GivesRefusalReasons(q, ps, record)
  {
    MatchingExactly(q, ps);
    if Matching(q, ps) != {} {
      RefusalReasonsAreTrue(q, ps);
    } else {
      PermissionReasonsAreTrue(q, rs, as_);
    }
  }

  lemma RulesAreAsked(q: Question, rs: set<Rule>, d: Decision)
    ensures Governing(q, rs) == {} <==> forall r :: r in rs ==> !Governs(q, r)
    ensures Supporting(q, rs, d) == {} <==> Least(RuleIds(Supporting(q, rs, d))).None?
  {
    RuleIdsAreEmpty(Supporting(q, rs, d));
    if r :| r in rs && Governs(q, r) { assert r in Governing(q, rs); }
  }

  lemma ApprovalUse(q: Question, rs: set<Rule>, as_: set<Approval>)
    requires Declarable(rs) && AllDated(as_)
    ensures var (needed, used) := (Raised(q, rs, as_) == HumanApprovalRequired && Excluding(q, as_) == {},
                                   Permission(q, rs, as_).approvalRef.Some?);
            && (needed && as_ == {} <==> FinalDecision(q, rs, as_) == HumanApprovalRequired && as_ == {})
            && (needed && Binding(q, as_) != {} <==> used)
            && (Raised(q, rs, as_) == Autonomous <==> FinalDecision(q, rs, as_) == Autonomous && !used)
  {
    RuleDecisionExactly(q, rs);
    IdsAreEmpty(Binding(q, as_));
  }

  lemma PermissionReasonsAreTrue(q: Question, rs: set<Rule>, as_: set<Approval>)
    requires Declarable(rs) && AllDated(as_)
    ensures GivesTrueReasons(q, rs, as_, Permission(q, rs, as_))
  {
    var record := Permission(q, rs, as_);
    PermissionReasonsMean(q, rs, as_);
    ApprovalsExactly(q, as_);
    ApprovalUse(q, rs, as_);
    RulesAreAsked(q, rs, record.decision);
  }

  lemma LeastIsLeast(ids: set<string>)
    requires ids != {}
    ensures Least(ids).Some? && Least(ids).value in ids
    ensures forall x :: x in ids ==> StringLe(Least(ids).value, x)
  {
    var sorted := SortedStrings(ids);
    LeastIsFirst(ids);
    StringLeIsTotalPreorder();
    SortIsSorted(Listed(ids), StringLe);
    assert sorted[0] in sorted;
    forall x | x in ids ensures StringLe(sorted[0], x) {
      assert x in sorted;
      var i :| 0 <= i < |sorted| && sorted[i] == x;
      if i == 0 { StringLeTotal(x, x); }
    }
  }

  /** The reference lists hold exactly the records they should, and the one rule or
      approval referred to is the one of least id among those that qualify. */
  lemma ReferencesAreExact(q: Question, rs: set<Rule>, ps: set<Prohibition>, as_: set<Approval>)
    requires Verdict(q, rs, ps, as_).Ok?
    ensures var record := Verdict(q, rs, ps, as_).value;
            && (forall x :: x in record.prohibitionRefs <==> exists p :: p in ps && Matches(q, p) && p.id == x)
            && ((forall p :: p in ps ==> !Matches(q, p)) ==>
                  forall x :: x in record.excludingApprovalRefs <==>
                              exists a :: a in as_ && Dated(a) && Binds(q, a) &&
                                q.action.kind in a.prohibitedActions && a.id == x)
            && (record.approvalRef.Some? ==>
                  && (exists a :: a in as_ && Dated(a) && Binds(q, a) && a.id == record.approvalRef.value)
                  && (forall a :: a in as_ && Dated(a) && Binds(q, a) ==> StringLe(record.approvalRef.value, a.id)))
            && (record.resolvedRule.Some? ==>
                  forall r :: r in rs && Governs(q, r) && r.decision == record.decision ==>
                    StringLe(record.resolvedRule.value, r.id))
  {
    MatchingExactly(q, ps);
    if Matching(q, ps) != {} {
      ProhibitionRefs(q, ps);
    } else {
      ExcludingRefs(q, as_);
      ApprovalRefIsLeast(q, as_);
      RuleRefIsLeast(q, rs, FinalDecision(q, rs, as_));
    }
  }

  lemma ProhibitionRefs(q: Question, ps: set<Prohibition>)
    ensures forall x :: x in SortedStrings(ProhibitionIds(Matching(q, ps))) <==>
            exists p :: p in ps && Matches(q, p) && p.id == x
  {
    forall x ensures x in ProhibitionIds(Matching(q, ps)) <==> exists p :: p in ps && Matches(q, p) && p.id == x {
      if p :| p in ps && Matches(q, p) && p.id == x { assert p in Matching(q, ps); }
    }
  }

  lemma ExcludingRefs(q: Question, as_: set<Approval>)
    requires AllDated(as_)
    ensures forall x :: x in SortedStrings(ApprovalIds(Excluding(q, as_))) <==>
                        exists a :: a in as_ && Dated(a) && Binds(q, a) && q.action.kind in a.prohibitedActions &&
                          a.id == x
  {
    forall x ensures x in ApprovalIds(Excluding(q, as_)) <==>
                     exists a :: a in as_ && Dated(a) && Binds(q, a) && q.action.kind in a.prohibitedActions &&
                       a.id == x {
      if a :| a in as_ && Dated(a) && Binds(q, a) && q.action.kind in a.prohibitedActions && a.id == x {
        assert a in Excluding(q, as_);
      }
    }
  }

  lemma ApprovalRefIsLeast(q: Question, as_: set<Approval>)
    requires AllDated(as_)
    ensures var ids := ApprovalIds(Binding(q, as_));
            Least(ids).Some? ==>
              && (exists a :: a in as_ && Dated(a) && Binds(q, a) && a.id == Least(ids).value)
              && (forall a :: a in as_ && Dated(a) && Binds(q, a) ==> StringLe(Least(ids).value, a.id))
  {
    var ids := ApprovalIds(Binding(q, as_));
    if ids != {} {
      LeastIsLeast(ids);
      forall a | a in as_ && Dated(a) && Binds(q, a) ensures a.id in ids { assert a in Binding(q, as_); }
    }
  }

  lemma RuleRefIsLeast(q: Question, rs: set<Rule>, d: Decision)
    ensures var ids := RuleIds(Supporting(q, rs, d));
            Least(ids).Some? ==> forall r :: r in rs && Governs(q, r) && r.decision == d ==>
              StringLe(Least(ids).value, r.id)
  {
    var ids := RuleIds(Supporting(q, rs, d));
    if ids != {} {
      LeastIsLeast(ids);
      forall r | r in rs && Governs(q, r) && r.decision == d ensures r.id in ids { assert r in Supporting(q, rs, d); }
    }
  }

  // ---------------------------------------------------------------- the answer to a request

  /** What a request asks, its scope as written. */
  function Asked(r: Request): Question
    requires TransientInstant(r.evaluationTime).Ok?
  {
    QuestionOf(r).(scope := r.scope)
  }

  /** Every record is asked the same of both questions. */
  ghost predicate AsksTheSame(q: Question, w: Question) {
    && q.action == w.action
    && (forall x :: Governs(q, x) <==> Governs(w, x))
    && (forall p :: Matches(q, p) <==> Matches(w, p))
    && (forall a :: Dated(a) ==> (Binds(q, a) <==> Binds(w, a)))
  }

  /** Writing the scope in canonical form changes nothing any record is asked. */
  lemma AskedAsWritten(r: Request)
    requires TransientInstant(r.evaluationTime).Ok?
    ensures AsksTheSame(QuestionOf(r), Asked(r))
  {
    CanonicalTwice(r.scope);
    forall other: Scope
      ensures IsContained(CanonicalScope(r.scope), other) <==> IsContained(r.scope, other)
      ensures Overlaps(CanonicalScope(r.scope), other) <==> Overlaps(r.scope, other)
    {
      CanonicalScopeCompares(r.scope, other);
    }
  }

  lemma SameStanding(q: Question, w: Question, rs: set<Rule>, ps: set<Prohibition>, as_: set<Approval>)
    requires AsksTheSame(q, w)
    ensures SomeApprovalBinds(q, as_) <==> SomeApprovalBinds(w, as_)
    ensures SomeApprovalWithholds(q, as_) <==> SomeApprovalWithholds(w, as_)
    ensures RulesPermit(q, rs) <==> RulesPermit(w, rs)
    ensures Unprohibited(q, ps) <==> Unprohibited(w, ps)
  {
  }

  lemma SameReasons(q: Question, w: Question, rs: set<Rule>, ps: set<Prohibition>, as_: set<Approval>, record: Record)
    requires AsksTheSame(q, w)
    ensures CitesExactly(q, rs, record) <==> CitesExactly(w, rs, record)
    ensures GivesTrueReasons(q, rs, as_, record) <==> GivesTrueReasons(w, rs, as_, record)
    ensures GivesRefusalReasons(q, ps, record) <==> GivesRefusalReasons(w, ps, record)
  {
    SameStanding(q, w, rs, ps, as_);
  }

  /** The evaluator's own answer decides, cites and gives its reasons exactly. */
  lemma AnswerIsExact(r: Request)
    requires Answer(r).Ok?
    ensures var (record, rs, ps, as_) := (Answer(r).value, SetOf(r.rules), SetOf(r.prohibitions), SetOf(r.approvals));
            && DecidesExactly(Asked(r), rs, ps, as_, record.decision)
            && CitesExactly(Asked(r), rs, record)
            && (if Unprohibited(Asked(r), ps) then GivesTrueReasons(Asked(r), rs, as_, record)
                else GivesRefusalReasons(Asked(r), ps, record))
  {
    var (q, rs, ps, as_) := (QuestionOf(r), SetOf(r.rules), SetOf(r.prohibitions), SetOf(r.approvals));
    AskedAsWritten(r);
    SameStanding(q, Asked(r), rs, ps, as_);
    SameReasons(q, Asked(r), rs, ps, as_, Answer(r).value);
    AdmittedRulesAreDeclarable(r);
    VerdictIsExact(q, rs, ps, as_);
  }

  lemma VerdictIsExact(q: Question, rs: set<Rule>, ps: set<Prohibition>, as_: set<Approval>)
    requires Declarable(rs) && Verdict(q, rs, ps, as_).Ok?
    ensures var record := Verdict(q, rs, ps, as_).value;
            && DecidesExactly(q, rs, ps, as_, record.decision)
            && CitesExactly(q, rs, record)
            && (if Unprohibited(q, ps) then GivesTrueReasons(q, rs, as_, record)
               else GivesRefusalReasons(q, ps, record))
  {
    AutonomousExactly(q, rs, ps, as_);
    CitationAccountsForDecision(q, rs, ps, as_);
    ReasonsAreTrue(q, rs, ps, as_);
  }

  // ---------------------------------------------------------------- which requests are answered

  /** The declared kind is one, and the declared digest is that of this very action. */
  ghost predicate ActionInOrder(a: Action) {
    && 2 <= |a.kind| <= 64
    && (forall i :: 0 <= i < |a.kind| ==>
          'A' <= a.kind[i] <= 'Z' || (i > 0 && ('0' <= a.kind[i] <= '9' || a.kind[i] == '_')))
    && a.declared == DigestOfAction(a.kind, a.reversibility, a.operation)
  }

  /** Everything about the request but its agreement with the current state. */
  ghost predicate RequestInOrder(r: Request) {
    && r.wellShaped && r.difference.canonical && r.difference.project == r.project
    && ActionInOrder(r.action) && Enumerated(r.scope) && r.revision >= 0 && TransientInstant(r.evaluationTime).Ok?
  }

  /** The Difference was observed at the current state. */
  ghost predicate Current(r: Request) {
    r.difference.observedRevision == r.revision && r.difference.observedFingerprint == r.fingerprint
  }

  /** Every record was admitted, no rule declares a refusal, every scope is enumerated,
      and no identity comes twice. */
  ghost predicate RecordsInOrder(r: Request) {
    && (forall x :: x in r.rules ==>
          x.canonical && x.decision in {Autonomous, HumanApprovalRequired} && Enumerated(x.scope))
    && (forall x :: x in r.prohibitions ==> x.canonical && Enumerated(x.scope))
    && (forall x :: x in r.approvals ==> x.canonical && Enumerated(x.scope))
    && (forall i, j :: 0 <= i < j < |r.rules| ==> r.rules[i].id != r.rules[j].id)
    && (forall i, j :: 0 <= i < j < |r.prohibitions| ==> r.prohibitions[i].id != r.prohibitions[j].id)
    && (forall i, j :: 0 <= i < j < |r.approvals| ==> r.approvals[i].id != r.approvals[j].id)
  }

  lemma RecordsAreInOrder(r: Request)
    ensures RecordsAdmitted(r) <==> RecordsInOrder(r)
  {
    if RecordsAdmitted(r) { AdmittedAreInOrder(r); }
    if RecordsInOrder(r) { InOrderAreAdmitted(r); }
  }

  lemma DistinctIdsOf<T>(xs: seq<T>, id: T -> string)
    ensures Distinct(IdsOf(xs, id)) <==> forall i, j :: 0 <= i < j < |xs| ==> id(xs[i]) != id(xs[j])
  {
    var ids := IdsOf(xs, id);
    if Distinct(ids) {
      forall i, j | 0 <= i < j < |xs| ensures id(xs[i]) != id(xs[j]) { assert ids[i] != ids[j]; }
    }
  }

  lemma AdmittedAreInOrder(r: Request)
    requires RecordsAdmitted(r)
    ensures RecordsInOrder(r)
  {
    DistinctIdsOf(r.rules, RuleId);
    DistinctIdsOf(r.prohibitions, ProhibitionId);
    DistinctIdsOf(r.approvals, ApprovalId);
    forall x | x in r.rules ensures FitRule(x) { var i :| 0 <= i < |r.rules| && r.rules[i] == x; }
    forall x | x in r.prohibitions
      ensures FitProhibition(x)
    {
      var i :| 0 <= i < |r.prohibitions| && r.prohibitions[i] == x;
    }
    forall x | x in r.approvals ensures FitApproval(x) { var i :| 0 <= i < |r.approvals| && r.approvals[i] == x; }
    forall i, j | 0 <= i < j < |r.rules| ensures r.rules[i].id != r.rules[j].id {
      assert RuleId(r.rules[i]) != RuleId(r.rules[j]);
    }
    forall i, j | 0 <= i < j < |r.prohibitions| ensures r.prohibitions[i].id != r.prohibitions[j].id {
      assert ProhibitionId(r.prohibitions[i]) != ProhibitionId(r.prohibitions[j]);
    }
    forall i, j | 0 <= i < j < |r.approvals| ensures r.approvals[i].id != r.approvals[j].id {
      assert ApprovalId(r.approvals[i]) != ApprovalId(r.approvals[j]);
    }
  }

  lemma InOrderAreAdmitted(r: Request)
    requires RecordsInOrder(r)
    ensures RecordsAdmitted(r)
  {
    DistinctIdsOf(r.rules, RuleId);
    DistinctIdsOf(r.prohibitions, ProhibitionId);
    DistinctIdsOf(r.approvals, ApprovalId);
  }

  /** A request is refused across a boundary exactly when the Difference is another
      project's, and as stale exactly when, all else of it in order, the Difference was
      observed at another state; it is answered exactly when it is in order and current,
      its records are, and either something prohibits it or every approval's validity
      can be read. */
  lemma AnsweredExactly(r: Request)
    ensures Answer(r) == Err(BoundaryViolation) <==>
            r.wellShaped && r.difference.canonical && r.difference.project != r.project
    ensures Answer(r) == Err(StaleInput) <==> RequestInOrder(r) && !Current(r)
    ensures Answer(r).Ok? <==>
            && RequestInOrder(r) && Current(r) && RecordsInOrder(r)
            && ((exists p :: p in r.prohibitions && Matches(Asked(r), p))
                || forall a :: a in r.approvals ==> a.window.Some?)
  {
    RecordsAreInOrder(r);
    ErrorsAreExact(r);
    if RequestError(r).None? && RecordsAdmitted(r) { VerdictAnswersExactly(r); }
  }

  lemma ErrorsAreExact(r: Request)
    ensures RequestError(r).None? <==> RequestInOrder(r) && Current(r)
    ensures RequestError(r) == Some(StaleInput) <==> RequestInOrder(r) && !Current(r)
    ensures RequestError(r) == Some(BoundaryViolation) <==>
            r.wellShaped && r.difference.canonical && r.difference.project != r.project
  {
    ActionsAreInOrder(r.action);
  }

  lemma VerdictAnswersExactly(r: Request)
    requires RequestError(r).None?
    ensures var (ps, as_) := (SetOf(r.prohibitions), SetOf(r.approvals));
            var v := Verdict(QuestionOf(r), SetOf(r.rules), ps, as_);
            && v != Err(StaleInput) && v != Err(BoundaryViolation)
            && (v.Ok? <==> (exists p :: p in r.prohibitions && Matches(Asked(r), p))
                           || forall a :: a in r.approvals ==> a.window.Some?)
  {
    VerdictIsGiven(QuestionOf(r), SetOf(r.rules), SetOf(r.prohibitions), SetOf(r.approvals));
    ProhibitedAsWritten(r);
    DatedMembers(r.approvals);
  }

  lemma ProhibitedAsWritten(r: Request)
    requires TransientInstant(r.evaluationTime).Ok?
    ensures Unprohibited(QuestionOf(r), SetOf(r.prohibitions)) <==>
            !exists p :: p in r.prohibitions && Matches(Asked(r), p)
  {
    AskedAsWritten(r);
    SameStanding(QuestionOf(r), Asked(r), {}, SetOf(r.prohibitions), {});
    ProhibitedByMember(Asked(r), r.prohibitions);
  }

  lemma DatedMembers(approvals: seq<Approval>)
    ensures AllDated(SetOf(approvals)) <==> forall a :: a in approvals ==> a.window.Some?
  {
    assert forall a :: a in approvals <==> a in SetOf(approvals);
    assert forall a :: Dated(a) <==> a.window.Some?;
  }

  lemma VerdictIsGiven(q: Question, rs: set<Rule>, ps: set<Prohibition>, as_: set<Approval>)
    ensures Verdict(q, rs, ps, as_).Ok? <==> !Unprohibited(q, ps) || AllDated(as_)
    ensures Verdict(q, rs, ps, as_).Err? ==> Verdict(q, rs, ps, as_).error == NotAdmitted
  {
    MatchingExactly(q, ps);
  }

  lemma ProhibitedByMember(q: Question, prohibitions: seq<Prohibition>)
    ensures Unprohibited(q, SetOf(prohibitions)) <==> !exists p :: p in prohibitions && Matches(q, p)
  {
  }

  lemma ActionsAreInOrder(a: Action)
    ensures FitAction(a) <==> ActionInOrder(a)
  {
  }

  /** A Difference observed at another state is never decided. */
  lemma StaleIsNeverDecided(r: Request)
    requires Answer(r).Ok?
    ensures r.difference.project == r.project
    ensures r.difference.observedRevision == r.revision && r.difference.observedFingerprint == r.fingerprint
    ensures r.action.declared == DigestOfAction(r.action.kind, r.action.reversibility, r.action.operation)
    ensures Enumerated(r.scope) && TransientInstant(r.evaluationTime).Ok?
  {
    AnsweredExactly(r);
  }

  /** The record repeats what was asked, its scope canonical, and lists its references
      by id without repetition. */
  lemma AnswerRepeatsTheRequest(r: Request)
    requires Answer(r).Ok?
    ensures var record := Answer(r).value;
            && record.project == r.project && record.differenceId == r.difference.id && record.action == r.action
            && record.revision == r.revision && record.fingerprint == r.fingerprint
            && SameMembers(record.scope, r.scope)
            && StrictlySorted(record.scope.paths) && StrictlySorted(record.scope.subjects)
            && StrictlySorted(record.prohibitionRefs) && StrictlySorted(record.excludingApprovalRefs)
  {
    var (q, ps, as_) := (QuestionOf(r), SetOf(r.prohibitions), SetOf(r.approvals));
    CanonicalTwice(r.scope);
    CanonicalScopeDecides(CanonicalScope(r.scope), r.scope);
    SortedMembers(r.scope.paths);
    SortedMembers(r.scope.subjects);
    SortedStringsAreOrdered(ProhibitionIds(Matching(q, ps)));
    if Matching(q, ps) == {} { SortedStringsAreOrdered(ApprovalIds(Excluding(q, as_))); }
  }

  lemma SortedMembers(xs: seq<string>)
    requires Distinct(xs)
    ensures StrictlySorted(Sort(xs, StringLe))
  {
    SortIsPermutation(xs, StringLe);
    DistinctCarriesOver(xs, Sort(xs, StringLe));
    StringLeIsTotalPreorder();
    SortIsSorted(xs, StringLe);
  }

  // ---------------------------------------------------------------- when a record applies, field by field

  /** Each member the first scope names the second names too, at the same location. */
  ghost predicate Inside(a: Scope, b: Scope) {
    && a.repository == b.repository && a.branch == b.branch
    && (forall x :: x in a.paths ==> x in b.paths) && (forall x :: x in a.subjects ==> x in b.subjects)
  }

  lemma InsideIsContained(a: Scope, b: Scope)
    ensures IsContained(a, b) <==> Inside(a, b) && (a.paths != [] || a.subjects != [])
  {
    if Members(a.paths) <= Members(b.paths) {
      forall x | x in a.paths ensures x in b.paths { assert x in Members(a.paths); }
    }
    if Members(a.subjects) <= Members(b.subjects) {
      forall x | x in a.subjects ensures x in b.subjects { assert x in Members(a.subjects); }
    }
  }

  lemma SharedMemberOverlaps(a: Scope, b: Scope)
    ensures Overlaps(a, b) <==>
            && a.repository == b.repository && a.branch == b.branch
            && ((exists x :: x in a.paths && x in b.paths) || (exists x :: x in a.subjects && x in b.subjects))
  {
    if x :| x in a.paths && x in b.paths { assert x in Members(a.paths) * Members(b.paths); }
    if x :| x in a.subjects && x in b.subjects { assert x in Members(a.subjects) * Members(b.subjects); }
    if Overlaps(a, b) {
      if x :| x in Members(a.paths) * Members(b.paths) {
        assert x in a.paths && x in b.paths;
      } else {
        var x :| x in Members(a.subjects) * Members(b.subjects);
        assert x in a.subjects && x in b.subjects;
      }
    }
  }

  /** A rule governs a question of its own project about one of its kinds, no less
      reversible than it allows and wholly inside its scope; a prohibition matches one of
      its project - or any, if constitutional - about one of its kinds and sharing a
      member with it; an approval binds exactly what it was given for, while it lasts. */
  lemma RecordsApplyExactly(q: Question, rule: Rule, p: Prohibition, a: Approval)
    requires Dated(a)
    ensures Governs(q, rule) <==>
            && rule.project == q.project && q.action.kind in rule.kinds
            && (q.action.reversibility == Irreversible ==> rule.ceiling == Irreversible)
            && (q.action.reversibility == Recoverable ==> rule.ceiling != Reversible)
            && Inside(q.scope, rule.scope) && (q.scope.paths != [] || q.scope.subjects != [])
    ensures Matches(q, p) <==>
            && (p.constitutional || p.project == q.project) && q.action.kind in p.kinds
            && q.scope.repository == p.scope.repository && q.scope.branch == p.scope.branch
            && ((exists x :: x in q.scope.paths && x in p.scope.paths)
                || (exists x :: x in q.scope.subjects && x in p.scope.subjects))
    ensures Binds(q, a) <==>
            && a.status == Active && NotAfter(a.window.value.opens, q.now) && NotAfter(q.now, a.window.value.closes)
            && a.project == q.project && a.differenceId == q.differenceId
            && a.changeIntent.DigestOfIntent?
            && a.changeIntent.action == DigestOfAction(q.action.kind, q.action.reversibility, q.action.operation)
            && a.changeIntent.scope == CanonicalScope(q.scope)
            && a.actionFingerprint == q.action.declared
            && a.stateRevision == q.revision && a.stateFingerprint == q.fingerprint
            && Inside(q.scope, a.scope) && (q.scope.paths != [] || q.scope.subjects != [])
  {
    InsideIsContained(q.scope, rule.scope);
    InsideIsContained(q.scope, a.scope);
    SharedMemberOverlaps(q.scope, p.scope);
  }

  /** The floors no rule can lower: an irreversible action, or one Human Authority keeps. */
  lemma FloorsAreExact(q: Question)
    ensures Floored(q) <==>
            || q.action.reversibility == Irreversible
            || q.action.kind in
               ["CHANGE_OBJECTIVE", "WIDEN_BOUNDARY", "CHANGE_AUTHORITY", "CHANGE_ORIGIN", "CHANGE_KERNEL_CONSTITUTION",
                "CHANGE_SECURITY_POLICY", "DEPLOY_PRODUCTION", "CHANGE_CREDENTIAL", "CHANGE_BILLING",
                "IRREVERSIBLE_OPERATION", "DESTRUCTIVE_RECOVERY", "MERGE", "RELEASE"]
  {
  }

  /** What the code of a mismatch says of the approval and the question. */
  ghost predicate FailsBecause(q: Question, a: Approval, code: ReasonCode)
    requires Dated(a)
  {
    match code
    case ApprovalRevoked => a.status == Revoked
    case ApprovalExpired => a.status == Expired
    case ApprovalOutsideValidityWindow =>
      !NotAfter(a.window.value.opens, q.now) || !NotAfter(q.now, a.window.value.closes)
    case ApprovalProjectMismatch => a.project != q.project
    case ApprovalDifferenceMismatch => a.differenceId != q.differenceId
    case ApprovalChangeIntentMismatch =>
      a.changeIntent !=
      DigestOfIntent(DigestOfAction(q.action.kind, q.action.reversibility, q.action.operation), CanonicalScope(q.scope))
    case ApprovalActionFingerprintMismatch => a.actionFingerprint != q.action.declared
    case ApprovalStateRevisionStale => a.stateRevision != q.revision
    case ApprovalStateFingerprintStale => a.stateFingerprint != q.fingerprint
    case ApprovalScopeWidened => !Inside(q.scope, a.scope) || (q.scope.paths == [] && q.scope.subjects == [])
    case _ => false
  }

  lemma ChecksMean(q: Question, a: Approval, code: ReasonCode)
    requires Dated(a)
    ensures !ChecksOut(a.status, ChecksOf(q, a), code) <==> FailsBecause(q, a, code)
  {
    InsideIsContained(q.scope, a.scope);
  }

  /** An approval's mismatches are exactly the codes of what fails. */
  lemma MismatchesAreExact(q: Question, a: Approval, code: ReasonCode)
    requires Dated(a)
    ensures code in Mismatches(q, a) <==> FailsBecause(q, a, code)
  {
    ChecksMean(q, a, code);
    ChecksAreExact(a.status, ChecksOf(q, a), code);
  }

  lemma GatheredMismatches(
      a: Action, governed: bool, excluded: bool, fromApprovals: set<ReasonCode>, permitted: bool, cited: bool,
      code: ReasonCode)
    requires IsMismatch(code)
    ensures code in GatheredReasons(a, governed, excluded, fromApprovals, permitted, cited) <==> code in fromApprovals
  {
  }

  /** Where nothing prohibits, the record gives the code of a mismatch exactly when human
      approval is required, no approval withholds the action, and some approval fails to
      bind for that reason. */
  lemma EveryMismatchIsGiven(q: Question, rs: set<Rule>, as_: set<Approval>, code: ReasonCode)
    requires Declarable(rs) && AllDated(as_) && IsMismatch(code)
    ensures var record := Permission(q, rs, as_);
            code in record.reasonCodes <==>
            && record.decision == HumanApprovalRequired && !SomeApprovalWithholds(q, as_)
            && exists a :: a in as_ && FailsBecause(q, a, code)
  {
    var needed := Raised(q, rs, as_) == HumanApprovalRequired && Excluding(q, as_) == {};
    GatheredMismatches(q.action, Governing(q, rs) != {}, Excluding(q, as_) != {}, ApprovalReasons(q, as_, needed),
                       Raised(q, rs, as_) == Autonomous, Supporting(q, rs, FinalDecision(q, rs, as_)) != {}, code);
    ApprovalUse(q, rs, as_);
    ApprovalsExactly(q, as_);
    forall a | a in as_ ensures code in Mismatches(q, a) <==> FailsBecause(q, a, code) {
      MismatchesAreExact(q, a, code);
    }
    assert code in AllMismatches(q, as_) <==> exists a :: a in as_ && FailsBecause(q, a, code);
  }

  /** So does the evaluator's answer to a request, and no refusal gives such a code. */
  lemma AnswerGivesEveryMismatch(r: Request, code: ReasonCode)
    requires Answer(r).Ok? && IsMismatch(code)
    ensures var (record, q) := (Answer(r).value, QuestionOf(r));
            code in record.reasonCodes <==>
            && record.decision == HumanApprovalRequired && !SomeApprovalWithholds(q, SetOf(r.approvals))
            && exists a :: a in r.approvals && Dated(a) && FailsBecause(q, a, code)
  {
    var (q, rs, ps, as_) := (QuestionOf(r), SetOf(r.rules), SetOf(r.prohibitions), SetOf(r.approvals));
    AdmittedRulesAreDeclarable(r);
    if Matching(q, ps) == {} {
      EveryMismatchIsGiven(q, rs, as_, code);
      assert forall a :: a in as_ <==> a in r.approvals;
    }
  }

  // ---------------------------------------------------------------- what one approval covers

  /** An approval that binds two admitted requests binds the same request twice:
      action, operation, scope members, project, difference and state agree. */
  lemma ApprovalBindsOneRequest(a: Approval, r: Request, s: Request)
    requires RequestError(r).None? && RequestError(s).None? && Dated(a)
    requires Binds(QuestionOf(r), a) && Binds(QuestionOf(s), a)
    ensures r.action == s.action && SameMembers(r.scope, s.scope)
    ensures r.project == s.project && r.difference.id == s.difference.id
    ensures r.revision == s.revision && r.fingerprint == s.fingerprint
  {
    CanonicalTwice(r.scope);
    CanonicalTwice(s.scope);
    CanonicalScopeDecides(r.scope, s.scope);
  }

  lemma CanonicalTwice(scope: Scope)
    ensures CanonicalScope(CanonicalScope(scope)) == CanonicalScope(scope)
  {
    SortIsPermutation(scope.paths, StringLe);
    SortIsPermutation(scope.subjects, StringLe);
    CanonicalScopeDecides(CanonicalScope(scope), scope);
  }

  /** A validity window is tested on the times its texts name, to any precision. */
  lemma WindowIsExact(approvedAt: string, now: string, expiresAt: string)
    requires ReadWindow(approvedAt, expiresAt).Some? && TransientInstant(now).Ok?
    ensures TransientGrammar(approvedAt) && TransientGrammar(now) && TransientGrammar(expiresAt)
    ensures InWindow(TransientInstant(now).value, ReadWindow(approvedAt, expiresAt).value) <==>
            NamedTime(approvedAt) <= NamedTime(now) <= NamedTime(expiresAt)
  {
    ReadingIsExact(approvedAt);
    ReadingIsExact(expiresAt);
    ComparisonIsExact(approvedAt, now);
    ComparisonIsExact(now, expiresAt);
  }
}
