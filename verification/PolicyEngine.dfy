/** The pure derivations of `acceptance_policy/engine.py`. */
module PolicyEngine {
  import opened Results
  import opened PolicyTypes

  // ---------------------------------------------------------------- classification

  predicate SameMeaning(a: Clause, b: Clause) {
    a.policyClass == b.policyClass && a.blocks == b.blocks && a.scope == b.scope
  }

  function Classify(prior: Option<Clause>, proposed: Option<Clause>): Result<Operation, PolicyError> {
    match (prior, proposed)
    case (None, None) => Err(InvalidInput)
    case (None, Some(_)) => Ok(Add)
    case (Some(_), None) => Ok(Remove)
    case (Some(p), Some(q)) =>
      if SameMeaning(p, q) then Err(UndeclaredChange)
      else if p.policyClass != q.policyClass then Ok(Reclassify)
      else
        var added := q.blocks - p.blocks;
        var removed := p.blocks - q.blocks;
        if added != {} && removed == {} then Ok(Broaden)
        else if removed != {} && added == {} then Ok(Narrow)
        else Ok(Replace)
  }

  /** The operation that undoes another one. */
  function Inverse(op: Operation): Operation {
    match op
    case Add => Remove
    case Remove => Add
    case Broaden => Narrow
    case Narrow => Broaden
    case Replace => Replace
    case Reclassify => Reclassify
  }

  lemma ProperSubsetByDifferences<T>(a: set<T>, b: set<T>)
    ensures a < b <==> a - b == {} && b - a != {}
  {
    if a - b == {} {
      forall x | x in a ensures x in b { assert x !in a - b; }
      if b - a == {} {
        forall x | x in b ensures x in a { assert x !in b - a; }
      } else {
        var x :| x in b - a;
      }
    }
  }

  /** Reading a change backwards classifies it as the inverse operation, and the
      labels say what they promise about the gates a clause blocks. */
  lemma ClassificationReverses(p: Option<Clause>, q: Option<Clause>)
    ensures Classify(p, q).Ok? <==> Classify(q, p).Ok?
    ensures Classify(p, q).Ok? ==> Classify(q, p).value == Inverse(Classify(p, q).value)
    ensures Classify(p, q) == Ok(Narrow) <==>
            p.Some? && q.Some? && p.value.policyClass == q.value.policyClass && q.value.blocks < p.value.blocks
    ensures Classify(p, q) == Ok(Broaden) <==>
            p.Some? && q.Some? && p.value.policyClass == q.value.policyClass && p.value.blocks < q.value.blocks
    ensures Classify(p, q).Ok? <==>
            (p.None? != q.None?) || (p.Some? && q.Some? && !SameMeaning(p.value, q.value))
  {
    if p.Some? && q.Some? {
      ProperSubsetByDifferences(p.value.blocks, q.value.blocks);
      ProperSubsetByDifferences(q.value.blocks, p.value.blocks);
    }
  }

  /** Each label says exactly what changed; a change of nothing compared has none. */
  lemma LabelsAreExact(p: Option<Clause>, q: Option<Clause>)
    ensures Classify(p, q) == Ok(Add) <==> p.None? && q.Some?
    ensures Classify(p, q) == Ok(Remove) <==> p.Some? && q.None?
    ensures Classify(p, q) == Ok(Reclassify) <==> p.Some? && q.Some? && p.value.policyClass != q.value.policyClass
    ensures Classify(p, q) == Ok(Replace) <==>
            && p.Some? && q.Some? && p.value.policyClass == q.value.policyClass
            && !(p.value.blocks < q.value.blocks) && !(q.value.blocks < p.value.blocks)
            && (p.value.blocks != q.value.blocks || p.value.scope != q.value.scope)
    ensures Classify(p, q) == Err(UndeclaredChange) <==>
            && p.Some? && q.Some? && p.value.policyClass == q.value.policyClass
            && p.value.blocks == q.value.blocks && p.value.scope == q.value.scope
    ensures Classify(p, q) == Err(InvalidInput) <==> p.None? && q.None?
  {
    ClassificationReverses(p, q);
  }

  // ---------------------------------------------------------------- record builders

  predicate DistinctIds(clauses: seq<Clause>) {
    forall i, j :: 0 <= i < j < |clauses| ==> clauses[i].id != clauses[j].id
  }

  predicate GenuineClauses(clauses: seq<Clause>) {
    clauses != [] && DistinctIds(clauses) && forall i :: 0 <= i < |clauses| ==> clauses[i].original
  }

  method BuildBaseline(project: string, issue: int, source: SourceReference, clauses: seq<Clause>)
    returns (r: Result<Baseline, PolicyError>)
    ensures r.Ok? <==> GenuineClauses(clauses)
    ensures r.Ok? ==> r.value == Baseline(project, issue, source, clauses)
    ensures r.Err? ==> r.error == InvalidInput
  {
    if clauses == [] {
      return Err(InvalidInput);
    }
    var seen: set<string> := {};
    var validated: seq<Clause> := [];
    for i := 0 to |clauses|
      invariant validated == clauses[..i]
      invariant seen == set j | 0 <= j < i :: clauses[j].id
      invariant DistinctIds(clauses[..i])
      invariant forall j :: 0 <= j < i ==> clauses[j].original
    {
      var clause := clauses[i];
      if clause.id in seen {
        return Err(InvalidInput);
      }
      seen := seen + {clause.id};
      if !clause.original {
        return Err(InvalidInput);
      }
      validated := validated + [clause];
    }
    assert validated == clauses;
    return Ok(Baseline(project, issue, source, validated));
  }

  function BuildTransition(
    b: Baseline, issue: int, clauseId: string, operation: Operation, proposedBy: string, binding: Binding,
    proposed: Option<Clause>, prior: Option<Clause>, source: SourceReference, rollback: string)
    : Result<Transition, PolicyError>
  {
    if proposed.Some? && (proposed.value.id != clauseId || proposed.value.original) then Err(InvalidInput)
    else
      var computed :- Classify(prior, proposed);
      if operation != computed then Err(UndeclaredChange)
      else Ok(Transition(b.project, issue, BaselineRef(b), clauseId, operation, proposedBy, binding,
                         proposed, false, source, rollback))
  }

  // ---------------------------------------------------------------- the fold

  datatype FoldState = FoldState(
    activated: bool,
    live: map<string, Clause>,
    provenance: map<string, seq<Ref>>,
    current: map<string, Ref>,
    folded: seq<Ref>,
    seen: set<RecordId>)

  const EMPTY_FOLD := FoldState(false, map[], map[], map[], [], {})

  /** Make the baseline's own clauses live, refusing a repeated clause id. */
  function Seed(st: FoldState, clauses: seq<Clause>, baseline: Ref): Result<FoldState, PolicyError> {
    if clauses == [] then Ok(st)
    else
      var c := clauses[|clauses| - 1];
      var before :- Seed(st, clauses[..|clauses| - 1], baseline);
      if c.id in before.live then Err(LineageConflict)
      else Ok(before.(live := before.live[c.id := c],
                      provenance := before.provenance[c.id := [baseline]],
                      current := before.current[c.id := baseline]))
  }

  function FoldTransition(b: Baseline, st: FoldState, id: RecordId, t: Transition): Result<FoldState, PolicyError> {
    var c := t.clauseId;
    var isLive := c in st.live;
    if c !in st.current && (t.prior.source != FromBaseline || t.prior.ref.id != BaselineRef(b).id) then
      Err(LineageConflict)
    else if c !in st.current && t.operation != Add then Err(LineageConflict)
    else if c in st.current && t.prior.ref != st.current[c] then Err(LineageConflict)
    else if c in st.current && t.operation == Add && isLive then Err(LineageConflict)
    else if c in st.current && t.operation != Add && !isLive then Err(LineageConflict)
    else
      var computed :- Classify(if isLive then Some(st.live[c]) else None, t.proposed);
      if computed != t.operation then Err(UndeclaredChange)
      else
        var st' := st.(current := st.current[c := TransitionRef(id)]);
        if t.operation == Remove then
          Ok(st'.(live := st.live - {c}, provenance := st.provenance - {c}))
        else if t.proposed.None? then assert false; Err(InvalidInput)
        else
          var chain := if c in st.provenance then st.provenance[c] else [BaselineRef(b)];
          Ok(st'.(live := st.live[c := t.proposed.value],
                  provenance := st.provenance[c := chain + [TransitionRef(id)]]))
  }

  function FoldStep(b: Baseline, ts: Transitions, st: FoldState, a: Adoption): Result<FoldState, PolicyError> {
    var id := AdoptionId(a);
    if id in st.seen then Err(LineageConflict)
    else if a.project != b.project || a.issue != b.issue then Err(LineageConflict)
    else
      var st1 := st.(seen := st.seen + {id});
      if a.target.kind == BaselineKind then
        if a.target.id != BaselineRef(b).id || st.activated then Err(LineageConflict)
        else
          var st2 :- Seed(st1, b.clauses, BaselineRef(b));
          Ok(st2.(activated := true, folded := st2.folded + [AdoptionRef(a)]))
      else if !st.activated then Err(LineageConflict)
      else if a.target.id !in ts then Err(Provenance)
      else
        var t := ts[a.target.id];
        if t.project != b.project || t.issue != b.issue then Err(LineageConflict)
        else if t.baseline.id != BaselineRef(b).id then Err(LineageConflict)
        else
          var st2 :- FoldTransition(b, st1, a.target.id, t);
          Ok(st2.(folded := st2.folded + [AdoptionRef(a)]))
  }

  /** The adoptions folded left to right; the first refusal is the answer. */
  function Fold(b: Baseline, ts: Transitions, adoptions: seq<Adoption>): Result<FoldState, PolicyError> {
    if adoptions == [] then Ok(EMPTY_FOLD)
    else
      var st :- Fold(b, ts, adoptions[..|adoptions| - 1]);
      FoldStep(b, ts, st, adoptions[|adoptions| - 1])
  }

  lemma {:induction false} FoldOfPrefix(b: Baseline, ts: Transitions, adoptions: seq<Adoption>, n: nat)
    requires n <= |adoptions|
    ensures Fold(b, ts, adoptions).Ok? ==> Fold(b, ts, adoptions[..n]).Ok?
    ensures Fold(b, ts, adoptions[..n]).Err? ==> Fold(b, ts, adoptions) == Fold(b, ts, adoptions[..n])
    decreases |adoptions|
  {
    if n < |adoptions| {
      FoldOfPrefix(b, ts, adoptions[..|adoptions| - 1], n);
      assert adoptions[..|adoptions| - 1][..n] == adoptions[..n];
    } else {
      assert adoptions[..n] == adoptions;
    }
  }

  lemma FoldOfExtension(b: Baseline, ts: Transitions, adoptions: seq<Adoption>, a: Adoption)
    ensures Fold(b, ts, adoptions + [a]) ==
            if Fold(b, ts, adoptions).Ok? then FoldStep(b, ts, Fold(b, ts, adoptions).value, a)
            else Fold(b, ts, adoptions)
  {
    assert (adoptions + [a])[..|adoptions|] == adoptions;
  }

  /** A fold looks at no transition but the adopted ones. */
  lemma {:induction false} FoldReadsOnlyAdopted(b: Baseline, ts: Transitions, us: Transitions, adoptions: seq<Adoption>)
    requires forall i :: 0 <= i < |adoptions| && adoptions[i].target.kind != BaselineKind ==>
               (adoptions[i].target.id in ts <==> adoptions[i].target.id in us)
    ensures Fold(b, ts, adoptions) == Fold(b, us, adoptions)
  {
    if adoptions != [] {
      FoldReadsOnlyAdopted(b, ts, us, adoptions[..|adoptions| - 1]);
      var a := adoptions[|adoptions| - 1];
      if a.target.kind != BaselineKind && a.target.id in ts {
        assert TransitionId(ts[a.target.id]) == a.target.id == TransitionId(us[a.target.id]);
      }
    }
  }
}
