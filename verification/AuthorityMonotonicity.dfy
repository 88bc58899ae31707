/** When asking for more is answered more permissively, and exactly why. */
module AuthorityMonotonicity {
  import opened Results
  import opened Ordering
  import opened AuthorityScope
  import opened Timestamps
  import opened Authority
  import opened AuthorityGuarantees

  // ---------------------------------------------------------------- two questions over the same records

  /** Whatever the two questions, the second is answered more permissively exactly
      when nothing prohibits it and either the first is prohibited or only the second
      is cleared. */
  lemma LooserExactly(q: Question, w: Question, rs: set<Rule>, ps: set<Prohibition>, as_: set<Approval>)
    requires Declarable(rs) && Verdict(q, rs, ps, as_).Ok? && Verdict(w, rs, ps, as_).Ok?
    ensures Looser(Verdict(q, rs, ps, as_), Verdict(w, rs, ps, as_)) <==>
            && Unprohibited(w, ps)
            && (!Unprohibited(q, ps) || (Cleared(w, rs, as_) && !Cleared(q, rs, as_)))
  {
    AutonomousExactly(q, rs, ps, as_);
    AutonomousExactly(w, rs, ps, as_);
  }

  // ---------------------------------------------------------------- asking for more

  /** The same kind of action, no more reversible, over a scope that names all the
      first one names. */
  ghost predicate AsksForMore(q: Question, w: Question) {
    && w == q.(action := w.action, scope := w.scope)
    && w.action.kind == q.action.kind
    && Irreversibility(w.action.reversibility) >= Irreversibility(q.action.reversibility)
    && Widens(q.scope, w.scope)
  }

  /** Some rule that calls for approval governs the first question only. */
  ghost predicate LeavesStricterRule(q: Question, w: Question, rs: set<Rule>) {
    exists r :: r in rs && Governs(q, r) && !Governs(w, r) && r.decision == HumanApprovalRequired
  }

  lemma AskingForMoreMovesOneWay(q: Question, w: Question, rs: set<Rule>, ps: set<Prohibition>)
    requires AsksForMore(q, w)
    ensures Unprohibited(w, ps) ==> Unprohibited(q, ps)
    ensures Floored(q) ==> Floored(w)
    ensures NamesSomething(q.scope) ==> forall r :: r in rs && Governs(w, r) ==> Governs(q, r)
    ensures !NamesSomething(q.scope) ==> forall r :: r in rs ==> !Governs(q, r)
  {
    forall p | p in ps && Matches(q, p) ensures Matches(w, p) { WideningMovesOneWay(q.scope, w.scope, p.scope); }
    forall r | r in rs && Governs(w, r) && NamesSomething(q.scope) ensures Governs(q, r) {
      WideningMovesOneWay(q.scope, w.scope, r.scope);
    }
  }

  /** Where the rules permit the larger request they fail to permit the smaller one
      only if it names nothing or a stricter rule was left behind. */
  lemma RulesLostExactly(q: Question, w: Question, rs: set<Rule>)
    requires Declarable(rs) && AsksForMore(q, w) && RulesPermit(w, rs)
    ensures !RulesPermit(q, rs) <==> !NamesSomething(q.scope) || LeavesStricterRule(q, w, rs)
  {
    AskingForMoreMovesOneWay(q, w, rs, {});
    var g :| g in rs && Governs(w, g);
    if NamesSomething(q.scope) {
      assert Governs(q, g);
      if !RulesPermit(q, rs) {
        var r :| r in rs && Governs(q, r) && r.decision != Autonomous;
        assert !Governs(w, r);
      }
    }
  }

  /** Asking for more loosens the answer exactly when nothing prohibits or withholds
      the larger request and either some approval binds it while the smaller one is
      not cleared, or the rules permit it while the smaller one is withheld, or bound
      by no approval and either empty or governed by a stricter rule of its own. */
  lemma AskingForMoreLoosensExactly(q: Question, w: Question, rs: set<Rule>, ps: set<Prohibition>, as_: set<Approval>)
    requires Declarable(rs) && AsksForMore(q, w)
    requires Verdict(q, rs, ps, as_).Ok? && Verdict(w, rs, ps, as_).Ok?
    ensures Looser(Verdict(q, rs, ps, as_), Verdict(w, rs, ps, as_)) <==>
            Unprohibited(w, ps) && Cleared(w, rs, as_) && !Cleared(q, rs, as_)
    ensures Looser(Verdict(q, rs, ps, as_), Verdict(w, rs, ps, as_)) <==> LoosensTo(q, w, rs, ps, as_)
  {
    AskingForMoreMovesOneWay(q, w, rs, ps);
    LooserExactly(q, w, rs, ps, as_);
    if RulesPermit(w, rs) { RulesLostExactly(q, w, rs); }
  }

  ghost predicate LoosensTo(q: Question, w: Question, rs: set<Rule>, ps: set<Prohibition>, as_: set<Approval>) {
    && Unprohibited(w, ps) && !SomeApprovalWithholds(w, as_)
    && (|| (SomeApprovalBinds(w, as_) && !Cleared(q, rs, as_))
        || (RulesPermit(w, rs)
            && (|| SomeApprovalWithholds(q, as_)
                || (!SomeApprovalBinds(q, as_) && (!NamesSomething(q.scope) || LeavesStricterRule(q, w, rs))))))
  }

  lemma WideningKeepsProhibited(q: Question, wide: Scope, rs: set<Rule>, ps: set<Prohibition>, as_: set<Approval>)
    requires Declarable(rs) && Widens(q.scope, wide)
    requires Verdict(q, rs, ps, as_).Ok? && Verdict(q, rs, ps, as_).value.decision == Prohibited
    ensures Verdict(q.(scope := wide), rs, ps, as_).Ok?
    ensures Verdict(q.(scope := wide), rs, ps, as_).value.decision == Prohibited
  {
    var w := q.(scope := wide);
    AutonomousExactly(q, rs, ps, as_);
    AskingForMoreMovesOneWay(q, w, rs, ps);
    MatchingExactly(w, ps);
  }

  /** Widening the scope, whatever approvals there are and even from an empty scope. */
  lemma WideningLoosensExactly(q: Question, wide: Scope, rs: set<Rule>, ps: set<Prohibition>, as_: set<Approval>)
    requires Declarable(rs) && Widens(q.scope, wide)
    requires Verdict(q, rs, ps, as_).Ok? && Verdict(q.(scope := wide), rs, ps, as_).Ok?
    ensures var w := q.(scope := wide);
            Looser(Verdict(q, rs, ps, as_), Verdict(w, rs, ps, as_)) <==>
            && Unprohibited(w, ps)
            && !SomeApprovalWithholds(w, as_) && (RulesPermit(w, rs) || SomeApprovalBinds(w, as_))
            && (SomeApprovalWithholds(q, as_) || !(RulesPermit(q, rs) || SomeApprovalBinds(q, as_)))
  {
    AskingForMoreLoosensExactly(q, q.(scope := wide), rs, ps, as_);
  }

  /** Asking for a less reversible action of the same kind. */
  lemma LessReversibleLoosensExactly(q: Question, act: Action, rs: set<Rule>, ps: set<Prohibition>, as_: set<Approval>)
    requires Declarable(rs) && act.kind == q.action.kind
    requires Irreversibility(act.reversibility) >= Irreversibility(q.action.reversibility)
    requires Verdict(q, rs, ps, as_).Ok? && Verdict(q.(action := act), rs, ps, as_).Ok?
    ensures var w := q.(action := act);
            Looser(Verdict(q, rs, ps, as_), Verdict(w, rs, ps, as_)) <==>
            && Unprohibited(q, ps) && !SomeApprovalWithholds(w, as_)
            && (|| (SomeApprovalBinds(w, as_) && !Cleared(q, rs, as_))
                || (RulesPermit(w, rs)
                    && (|| SomeApprovalWithholds(q, as_)
                        || (!SomeApprovalBinds(q, as_) && LeavesStricterRule(q, w, rs)))))
  {
    var w := q.(action := act);
    AskingForMoreLoosensExactly(q, w, rs, ps, as_);
    forall p ensures Matches(w, p) <==> Matches(q, p) {}
    if RulesPermit(w, rs) {
      var g :| g in rs && Governs(w, g);
      assert NamesSomething(w.scope);
    }
  }

  /** No approval covers both requests once a member is added or the action changed:
      whatever an approval said of the smaller request is lost. */
  lemma NoApprovalCoversBoth(q: Question, w: Question, a: Approval)
    requires AsksForMore(q, w) && Dated(a) && Binds(q, a) && Binds(w, a)
    ensures SameMembers(q.scope, w.scope) && w.action.reversibility == q.action.reversibility
    ensures w.action.operation == q.action.operation && w.action.declared == q.action.declared
  {
    CanonicalScopeDecides(q.scope, w.scope);
  }

  // ---------------------------------------------------------------- two requests

  /** The second request asks for more over the same records and state. */
  ghost predicate RequestsMore(r: Request, s: Request) {
    && s == r.(action := s.action, scope := s.scope)
    && s.action.kind == r.action.kind
    && Irreversibility(s.action.reversibility) >= Irreversibility(r.action.reversibility)
    && Widens(r.scope, s.scope)
  }

  lemma SameLoosening(q: Question, w: Question, q': Question, w': Question,
                      rs: set<Rule>, ps: set<Prohibition>, as_: set<Approval>)
    requires AsksTheSame(q, q') && AsksTheSame(w, w') && (NamesSomething(q.scope) <==> NamesSomething(q'.scope))
    ensures LoosensTo(q, w, rs, ps, as_) <==> LoosensTo(q', w', rs, ps, as_)
  {
    SameStanding(q, q', rs, ps, as_);
    SameStanding(w, w', rs, ps, as_);
  }

  /** The same condition decides it for the evaluator's answers to two requests,
      their scopes as written. */
  lemma RequestingMoreLoosensExactly(r: Request, s: Request)
    requires Answer(r).Ok? && Answer(s).Ok? && RequestsMore(r, s)
    ensures Looser(Answer(r), Answer(s)) <==>
            LoosensTo(Asked(r), Asked(s), SetOf(r.rules), SetOf(r.prohibitions), SetOf(r.approvals))
  {
    var (q, w) := (QuestionOf(r), QuestionOf(s));
    var (rs, ps, as_) := (SetOf(r.rules), SetOf(r.prohibitions), SetOf(r.approvals));
    AdmittedRulesAreDeclarable(r);
    CanonicalScopeKeepsMembers(r.scope);
    CanonicalScopeKeepsMembers(s.scope);
    AskingForMoreLoosensExactly(q, w, rs, ps, as_);
    AskedAsWritten(r);
    AskedAsWritten(s);
    SameLoosening(q, w, Asked(r), Asked(s), rs, ps, as_);
  }

  // ---------------------------------------------------------------- at an input

  function PathScope(paths: seq<string>): Scope { Scope("r", "main", paths, []) }

  function ExampleRule(id: string, paths: seq<string>, ceiling: Reversibility, d: Decision): Rule {
    Rule(id, "p", ["EDIT"], ceiling, PathScope(paths), d, true)
  }

  function ExampleQuestion(paths: seq<string>, reversibility: Reversibility): Question {
    Question("p", "d", Action("EDIT", reversibility, "", DigestOfAction("EDIT", reversibility, "")), PathScope(paths),
             0, "", Instant(0, ""))
  }

  /** An approval of exactly this question that withholds the very action. */
  function Withholding(q: Question): Approval {
    Approval("a", Active, Some(Window(q.now, q.now)), q.project, q.differenceId, Intent(q), q.action.declared,
             q.revision, q.fingerprint, q.scope, [q.action.kind], true)
  }

  lemma GovernsExample(paths: seq<string>, reversibility: Reversibility, r: Rule)
    requires r.project == "p" && r.kinds == ["EDIT"] && SameLocation(PathScope(paths), r.scope) && paths != []
    ensures Governs(ExampleQuestion(paths, reversibility), r) <==>
            && !ExceedsReversibility(reversibility, r.ceiling)
            && forall i :: 0 <= i < |paths| ==> paths[i] in r.scope.paths
  {
    assert "EDIT" in r.kinds by { assert r.kinds[0] == "EDIT"; }
    if forall i :: 0 <= i < |paths| ==> paths[i] in r.scope.paths { assert Members(paths) <= Members(r.scope.paths); }
    if Members(paths) <= Members(r.scope.paths) {
      forall i | 0 <= i < |paths| ensures paths[i] in r.scope.paths { assert paths[i] in Members(paths); }
    }
  }

  lemma NotHumanOnly()
    ensures "EDIT" !in HUMAN_ONLY_ACTION_KINDS
  {
  }

  lemma AsksForMoreExample(paths: seq<string>, more: seq<string>, before: Reversibility, after: Reversibility)
    requires forall i :: 0 <= i < |paths| ==> paths[i] in more
    requires Irreversibility(before) <= Irreversibility(after) < Irreversibility(Irreversible)
    ensures AsksForMore(ExampleQuestion(paths, before), ExampleQuestion(more, after))
    ensures !Floored(ExampleQuestion(more, after))
  {
    NotHumanOnly();
  }

  /** The first answer calls for approval, the second is autonomous. */
  ghost predicate Loosened(before: Result<Record, AuthorityError>, after: Result<Record, AuthorityError>) {
    && before.Ok? && before.value.decision == HumanApprovalRequired
    && after.Ok? && after.value.decision == Autonomous
  }

  lemma RulesAlone(q: Question, rs: set<Rule>)
    requires Declarable(rs)
    ensures Verdict(q, rs, {}, {}).Ok?
    ensures Verdict(q, rs, {}, {}).value.decision == if RulesPermit(q, rs) then Autonomous else HumanApprovalRequired
  {
    AutonomousExactly(q, rs, {}, {});
  }

  /** A stricter rule governs the first question only, a permissive one both. */
  lemma StricterRuleLeftBehind(first: Question, second: Question, strict: Rule, loose: Rule)
    requires AsksForMore(first, second) && !Floored(second)
    requires Governs(first, strict) && !Governs(second, strict) && Governs(second, loose)
    requires strict.decision == HumanApprovalRequired && loose.decision == Autonomous
    ensures Loosened(Verdict(first, {strict, loose}, {}, {}), Verdict(second, {strict, loose}, {}, {}))
  {
    var rs := {strict, loose};
    assert strict in rs && loose in rs;
    assert !RulesPermit(first, rs) && RulesPermit(second, rs);
    RulesAlone(first, rs);
    RulesAlone(second, rs);
  }

  /** The decision is not monotone in scope: asking for more can be answered more
      permissively, because a stricter rule no longer contains the request. */
  lemma WideningCanLoosen()
    ensures var rs := {ExampleRule("1", ["a"], Reversible, HumanApprovalRequired),
                       ExampleRule("2", ["a", "b"], Reversible, Autonomous)};
            var (narrow, wide) := (ExampleQuestion(["a"], Reversible), ExampleQuestion(["a", "b"], Reversible));
            AsksForMore(narrow, wide) && Loosened(Verdict(narrow, rs, {}, {}), Verdict(wide, rs, {}, {}))
  {
    var strict := ExampleRule("1", ["a"], Reversible, HumanApprovalRequired);
    var loose := ExampleRule("2", ["a", "b"], Reversible, Autonomous);
    var (one, two) := (["a"], ["a", "b"]);
    assert one[0] == "a" && two[0] == "a" && two[1] == "b" && "b" !in one;
    AsksForMoreExample(one, two, Reversible, Reversible);
    GovernsExample(one, Reversible, strict);
    GovernsExample(two, Reversible, strict);
    GovernsExample(two, Reversible, loose);
    StricterRuleLeftBehind(ExampleQuestion(one, Reversible), ExampleQuestion(two, Reversible), strict, loose);
  }

  /** The decision is not monotone in irreversibility either. */
  lemma LessReversibleCanLoosen()
    ensures var rs := {ExampleRule("1", ["a"], Reversible, HumanApprovalRequired),
                       ExampleRule("2", ["a"], Recoverable, Autonomous)};
            var (first, second) := (ExampleQuestion(["a"], Reversible), ExampleQuestion(["a"], Recoverable));
            AsksForMore(first, second) && Loosened(Verdict(first, rs, {}, {}), Verdict(second, rs, {}, {}))
  {
    var strict := ExampleRule("1", ["a"], Reversible, HumanApprovalRequired);
    var loose := ExampleRule("2", ["a"], Recoverable, Autonomous);
    var one := ["a"];
    assert one[0] == "a";
    AsksForMoreExample(one, one, Reversible, Recoverable);
    GovernsExample(one, Reversible, strict);
    GovernsExample(one, Recoverable, strict);
    GovernsExample(one, Recoverable, loose);
    StricterRuleLeftBehind(ExampleQuestion(one, Reversible), ExampleQuestion(one, Recoverable), strict, loose);
  }

  lemma WithholdingBinds(q: Question)
    requires NamesSomething(q.scope)
    ensures Dated(Withholding(q)) && Binds(q, Withholding(q)) && q.action.kind in Withholding(q).prohibitedActions
  {
    StringLeTotal(q.now.fractionDigits, q.now.fractionDigits);
    assert Withholding(q).prohibitedActions[0] == q.action.kind;
  }

  lemma ApprovalAlone(q: Question, rs: set<Rule>, a: Approval)
    requires Declarable(rs) && Dated(a) && q.action.kind in a.prohibitedActions
    ensures Verdict(q, rs, {}, {a}).Ok?
    ensures Verdict(q, rs, {}, {a}).value.decision ==
            if !Binds(q, a) && RulesPermit(q, rs) then Autonomous else HumanApprovalRequired
  {
    AutonomousExactly(q, rs, {}, {a});
    assert a in {a};
  }

  /** One permissive rule governs both questions, and an approval of the first one
      withholds the action: it does not bind the second. */
  lemma ExclusionLeftBehind(first: Question, second: Question, loose: Rule)
    requires AsksForMore(first, second) && NamesSomething(first.scope)
    requires !Floored(second) && Governs(second, loose) && loose.decision == Autonomous
    requires !SameMembers(first.scope, second.scope) || first.action != second.action
    ensures Loosened(Verdict(first, {loose}, {}, {Withholding(first)}),
                     Verdict(second, {loose}, {}, {Withholding(first)}))
  {
    var (rs, as_, a) := ({loose}, {Withholding(first)}, Withholding(first));
    assert loose in rs && a in as_;
    WithholdingBinds(first);
    if Binds(second, a) { NoApprovalCoversBoth(first, second, a); }
    assert RulesPermit(second, rs);
    ApprovalAlone(first, rs, a);
    ApprovalAlone(second, rs, a);
  }

  /** Widening the scope, or naming a less reversible action, changes what an approval
      must bind: the exclusion it carried is lost, with no stricter rule anywhere. */
  lemma LosingAnExclusionCanLoosen()
    ensures var (rs, narrow, wide) := ({ExampleRule("2", ["a", "b"], Recoverable, Autonomous)},
                                       ExampleQuestion(["a"], Reversible), ExampleQuestion(["a", "b"], Reversible));
            && AsksForMore(narrow, wide)
            && Loosened(Verdict(narrow, rs, {}, {Withholding(narrow)}), Verdict(wide, rs, {}, {Withholding(narrow)}))
    ensures var (rs, first, second) := ({ExampleRule("2", ["a", "b"], Recoverable, Autonomous)},
                                        ExampleQuestion(["a"], Reversible), ExampleQuestion(["a"], Recoverable));
            && AsksForMore(first, second)
            && Loosened(Verdict(first, rs, {}, {Withholding(first)}), Verdict(second, rs, {}, {Withholding(first)}))
  {
    var loose := ExampleRule("2", ["a", "b"], Recoverable, Autonomous);
    var (one, two) := (["a"], ["a", "b"]);
    assert one[0] == "a" && two[0] == "a" && two[1] == "b" && |multiset(one)| != |multiset(two)|;
    AsksForMoreExample(one, two, Reversible, Reversible);
    AsksForMoreExample(one, one, Reversible, Recoverable);
    GovernsExample(two, Reversible, loose);
    GovernsExample(one, Recoverable, loose);
    ExclusionLeftBehind(ExampleQuestion(one, Reversible), ExampleQuestion(two, Reversible), loose);
    ExclusionLeftBehind(ExampleQuestion(one, Reversible), ExampleQuestion(one, Recoverable), loose);
  }

  lemma NothingNamed(first: Question, second: Question, loose: Rule)
    requires !NamesSomething(first.scope) && !Floored(second) && Governs(second, loose) && loose.decision == Autonomous
    ensures Loosened(Verdict(first, {loose}, {}, {}), Verdict(second, {loose}, {}, {}))
  {
    var rs := {loose};
    assert loose in rs;
    assert !RulesPermit(first, rs) && RulesPermit(second, rs);
    RulesAlone(first, rs);
    RulesAlone(second, rs);
  }

  /** A request that names nothing is governed by no rule; naming something can be
      answered more permissively. */
  lemma NamingSomethingCanLoosen()
    ensures var rs := {ExampleRule("2", ["a"], Reversible, Autonomous)};
            var (empty, one) := (ExampleQuestion([], Reversible), ExampleQuestion(["a"], Reversible));
            AsksForMore(empty, one) && Loosened(Verdict(empty, rs, {}, {}), Verdict(one, rs, {}, {}))
  {
    var (loose, one) := (ExampleRule("2", ["a"], Reversible, Autonomous), ["a"]);
    assert one[0] == "a";
    AsksForMoreExample([], one, Reversible, Reversible);
    GovernsExample(one, Reversible, loose);
    NothingNamed(ExampleQuestion([], Reversible), ExampleQuestion(one, Reversible), loose);
  }
}
