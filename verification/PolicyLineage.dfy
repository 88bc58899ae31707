/** What a cleanly folding lineage looks like: each clause is what its last
    adopted transition made it, and its adopted transitions form one chain. */
module PolicyLineage {
  import opened Results
  import opened PolicyTypes
  import opened PolicyEngine

  // ---------------------------------------------------------------- reading a lineage

  ghost predicate AdoptsBaseline(a: Adoption) { a.target.kind == BaselineKind }

  ghost predicate Activated(adoptions: seq<Adoption>) { exists a :: a in adoptions && AdoptsBaseline(a) }

  ghost predicate Touches(ts: Transitions, a: Adoption, c: string) {
    !AdoptsBaseline(a) && a.target.id in ts && ts[a.target.id].clauseId == c
  }

  /** The transitions adopted on clause c, in adoption order. */
  ghost function History(ts: Transitions, adoptions: seq<Adoption>, c: string): (h: seq<RecordId>)
    ensures forall i :: 0 <= i < |h| ==> h[i] in ts && ts[h[i]].clauseId == c
  {
    if adoptions == [] then []
    else
      var before := History(ts, adoptions[..|adoptions| - 1], c);
      var a := adoptions[|adoptions| - 1];
      if Touches(ts, a, c) then before + [a.target.id] else before
  }

  /** The clause listed under id c. */
  function Named(clauses: seq<Clause>, c: string): Option<Clause> {
    if clauses == [] then None
    else if clauses[|clauses| - 1].id == c then Some(clauses[|clauses| - 1])
    else Named(clauses[..|clauses| - 1], c)
  }

  /** The record a next transition on c must bind to; none for a fresh clause. */
  ghost function Head(b: Baseline, ts: Transitions, adoptions: seq<Adoption>, c: string): Option<Ref> {
    var h := History(ts, adoptions, c);
    if h != [] then Some(TransitionRef(h[|h| - 1]))
    else if Activated(adoptions) && Named(b.clauses, c).Some? then Some(BaselineRef(b))
    else None
  }

  /** The body the last writer of c left; none if it removed the clause. */
  ghost function LastBody(b: Baseline, ts: Transitions, adoptions: seq<Adoption>, c: string): Option<Clause> {
    var h := History(ts, adoptions, c);
    if h != [] then ts[h[|h| - 1]].proposed
    else if Activated(adoptions) then Named(b.clauses, c)
    else None
  }

  /** The baseline, then every transition adopted after the last removal. */
  ghost function Ancestry(b: Baseline, ts: Transitions, h: seq<RecordId>): seq<Ref>
    requires forall i :: 0 <= i < |h| ==> h[i] in ts
  {
    if h == [] || ts[h[|h| - 1]].proposed.None? then [BaselineRef(b)]
    else Ancestry(b, ts, h[..|h| - 1]) + [TransitionRef(h[|h| - 1])]
  }

  /** Adoption `a` can be folded after `adoptions`. */
  ghost predicate Admissible(b: Baseline, ts: Transitions, adoptions: seq<Adoption>, a: Adoption) {
    && a !in adoptions
    && a.project == b.project && a.issue == b.issue
    && if AdoptsBaseline(a) then
         a.target.id == BaselineRef(b).id && !Activated(adoptions) && DistinctIds(b.clauses)
       else
         && Activated(adoptions)
         && a.target.id in ts
         && var t := ts[a.target.id];
         && t.project == b.project && t.issue == b.issue && t.baseline.id == BaselineRef(b).id
         && ExtendsHead(Head(b, ts, adoptions, t.clauseId), b, t)
         && Classify(LastBody(b, ts, adoptions, t.clauseId), t.proposed) == Ok(t.operation)
  }

  ghost predicate ExtendsHead(head: Option<Ref>, b: Baseline, t: Transition) {
    match head
    case None => t.prior.source == FromBaseline && t.prior.ref.id == BaselineRef(b).id
    case Some(ref) => t.prior.ref == ref
  }

  // ---------------------------------------------------------------- the fold is the last writer

  /** What the three tables and the flags of a fold say, clause by clause. */
  ghost predicate Represents(b: Baseline, ts: Transitions, adoptions: seq<Adoption>, st: FoldState) {
    && st.activated == Activated(adoptions)
    && (forall a :: a in adoptions <==> AdoptionId(a) in st.seen)
    && |st.folded| == |adoptions|
    && (forall i :: 0 <= i < |adoptions| ==> st.folded[i] == AdoptionRef(adoptions[i]))
    && st.provenance.Keys == st.live.Keys
    && (forall c :: ClauseRepresented(b, ts, adoptions, st, c))
  }

  ghost predicate ClauseRepresented(b: Baseline, ts: Transitions, adoptions: seq<Adoption>, st: FoldState, c: string) {
    && Lookup(st.live, c) == LastBody(b, ts, adoptions, c)
    && Lookup(st.current, c) == Head(b, ts, adoptions, c)
    && (c in st.provenance ==> st.provenance[c] == Ancestry(b, ts, History(ts, adoptions, c)))
  }

  function Lookup<K, V>(m: map<K, V>, k: K): Option<V> { if k in m then Some(m[k]) else None }

  lemma {:induction false} NamedIsListed(clauses: seq<Clause>, c: string)
    ensures Named(clauses, c).Some? <==> exists i :: 0 <= i < |clauses| && clauses[i].id == c
    ensures Named(clauses, c).Some? ==> Named(clauses, c).value in clauses && Named(clauses, c).value.id == c
  {
    if clauses != [] {
      var n := |clauses| - 1;
      NamedIsListed(clauses[..n], c);
      if i :| 0 <= i < n && clauses[i].id == c { assert clauses[..n][i].id == c; }
    }
  }

  lemma DistinctBySplitting(clauses: seq<Clause>)
    requires clauses != []
    ensures var n := |clauses| - 1;
            DistinctIds(clauses) <==> DistinctIds(clauses[..n]) && Named(clauses[..n], clauses[n].id).None?
  {
    var n := |clauses| - 1;
    var c := clauses[n].id;
    NamedIsListed(clauses[..n], c);
    if DistinctIds(clauses) {
      forall i | 0 <= i < n ensures clauses[..n][i].id != c { assert clauses[..n][i] == clauses[i]; }
    }
    if DistinctIds(clauses[..n]) && Named(clauses[..n], c).None? {
      forall i, j | 0 <= i < j < |clauses| ensures clauses[i].id != clauses[j].id {
        assert clauses[..n][i] == clauses[i];
        if j < n { assert clauses[..n][j] == clauses[j]; }
      }
    }
  }

  lemma {:induction false} SeedIsExactly(st: FoldState, clauses: seq<Clause>, baseline: Ref)
    requires st.live == map[] && st.current == map[] && st.provenance == map[]
    ensures Seed(st, clauses, baseline).Ok? <==> DistinctIds(clauses)
    ensures Seed(st, clauses, baseline).Ok? ==>
              var r := Seed(st, clauses, baseline).value;
              && r == st.(live := r.live, current := r.current, provenance := r.provenance)
              && r.live.Keys == r.current.Keys == r.provenance.Keys
              && (forall c :: Lookup(r.live, c) == Named(clauses, c))
              && (forall c :: c in r.current ==> r.current[c] == baseline && r.provenance[c] == [baseline])
  {
    if clauses != [] {
      SeedIsExactly(st, clauses[..|clauses| - 1], baseline);
      DistinctBySplitting(clauses);
    }
  }

  lemma ExtendHistory(b: Baseline, ts: Transitions, adoptions: seq<Adoption>, a: Adoption, c: string)
    ensures History(ts, adoptions + [a], c) ==
            History(ts, adoptions, c) + if Touches(ts, a, c) then [a.target.id] else []
    ensures Activated(adoptions + [a]) <==> Activated(adoptions) || AdoptsBaseline(a)
  {
    assert (adoptions + [a])[..|adoptions|] == adoptions;
    assert a in adoptions + [a];
    if x :| x in adoptions && AdoptsBaseline(x) { assert x in adoptions + [a]; }
  }

  lemma StepLeavesActivated(b: Baseline, ts: Transitions, st: FoldState, a: Adoption)
    requires FoldStep(b, ts, st, a).Ok?
    ensures FoldStep(b, ts, st, a).value.activated
  {
  }

  /** Before the baseline is adopted, a clean fold has adopted nothing. */
  lemma NothingPrecedesActivation(b: Baseline, ts: Transitions, adoptions: seq<Adoption>)
    requires Fold(b, ts, adoptions).Ok? && adoptions != []
    ensures Fold(b, ts, adoptions).value.activated
  {
    var n := |adoptions| - 1;
    StepLeavesActivated(b, ts, Fold(b, ts, adoptions[..n]).value, adoptions[n]);
  }

  /** One more adoption: it is folded exactly when it is admissible, and the
      tables go on representing the lineage. */
  lemma FoldStepExactly(b: Baseline, ts: Transitions, adoptions: seq<Adoption>, st: FoldState, a: Adoption)
    requires Fold(b, ts, adoptions) == Ok(st) && Represents(b, ts, adoptions, st)
    ensures FoldStep(b, ts, st, a).Ok? <==> Admissible(b, ts, adoptions, a)
    ensures FoldStep(b, ts, st, a).Ok? ==> Represents(b, ts, adoptions + [a], FoldStep(b, ts, st, a).value)
  {
    if AdoptsBaseline(a) {
      FoldStepOnBaseline(b, ts, adoptions, st, a);
    } else {
      FoldStepOnTransition(b, ts, adoptions, st, a);
    }
  }

  lemma SeededClause(b: Baseline, ts: Transitions, a: Adoption, r: FoldState, c: string)
    requires AdoptsBaseline(a) && Activated([a])
    requires Lookup(r.live, c) == Named(b.clauses, c)
    requires r.live.Keys == r.current.Keys == r.provenance.Keys
    requires c in r.current ==> r.current[c] == BaselineRef(b) && r.provenance[c] == [BaselineRef(b)]
    ensures ClauseRepresented(b, ts, [a], r, c)
  {
    assert History(ts, [a], c) == History(ts, [], c) == [] by {
      ExtendHistory(b, ts, [], a, c);
      assert [] + [a] == [a];
    }
  }

  lemma FoldStepOnBaseline(b: Baseline, ts: Transitions, adoptions: seq<Adoption>, st: FoldState, a: Adoption)
    requires Fold(b, ts, adoptions) == Ok(st) && Represents(b, ts, adoptions, st) && AdoptsBaseline(a)
    ensures FoldStep(b, ts, st, a).Ok? <==> Admissible(b, ts, adoptions, a)
    ensures FoldStep(b, ts, st, a).Ok? ==> Represents(b, ts, adoptions + [a], FoldStep(b, ts, st, a).value)
  {
    if !st.activated {
      if adoptions != [] { NothingPrecedesActivation(b, ts, adoptions); }
      assert st == EMPTY_FOLD;
      SeedIsExactly(st.(seen := st.seen + {AdoptionId(a)}), b.clauses, BaselineRef(b));
      if FoldStep(b, ts, st, a).Ok? {
        assert adoptions + [a] == [a];
        ActivationRepresents(b, ts, a);
      }
    }
  }

  lemma ActivationRepresents(b: Baseline, ts: Transitions, a: Adoption)
    requires AdoptsBaseline(a) && FoldStep(b, ts, EMPTY_FOLD, a).Ok?
    ensures Represents(b, ts, [a], FoldStep(b, ts, EMPTY_FOLD, a).value)
  {
    SeedIsExactly(EMPTY_FOLD.(seen := {AdoptionId(a)}), b.clauses, BaselineRef(b));
    assert {} + {AdoptionId(a)} == {AdoptionId(a)};
    var r := FoldStep(b, ts, EMPTY_FOLD, a).value;
    assert Activated([a]) by { assert a in [a]; }
    forall c ensures ClauseRepresented(b, ts, [a], r, c) { SeededClause(b, ts, a, r, c); }
  }

  /** What folding one transition writes, table by table. */
  lemma TransitionEffect(b: Baseline, st: FoldState, id: RecordId, t: Transition)
    requires st.provenance.Keys == st.live.Keys && FoldTransition(b, st, id, t).Ok?
    ensures var r := FoldTransition(b, st, id, t).value;
            && r == st.(live := r.live, provenance := r.provenance, current := r.current)
            && r.provenance.Keys == r.live.Keys
            && Lookup(r.live, t.clauseId) == t.proposed
            && Lookup(r.current, t.clauseId) == Some(TransitionRef(id))
            && (t.proposed.Some? ==>
                  r.provenance[t.clauseId] ==
                  (if t.clauseId in st.live then st.provenance[t.clauseId] else [BaselineRef(b)]) + [TransitionRef(id)])
            && forall c :: c != t.clauseId ==>
                 && Lookup(r.live, c) == Lookup(st.live, c)
                 && Lookup(r.current, c) == Lookup(st.current, c)
                 && Lookup(r.provenance, c) == Lookup(st.provenance, c)
  {
  }

  lemma TransitionAcceptance(b: Baseline, st: FoldState, id: RecordId, t: Transition)
    requires st.live.Keys <= st.current.Keys
    ensures FoldTransition(b, st, id, t).Ok? <==>
            && ExtendsHead(Lookup(st.current, t.clauseId), b, t)
            && Classify(Lookup(st.live, t.clauseId), t.proposed) == Ok(t.operation)
  {
  }

  lemma FoldStepOnTransition(b: Baseline, ts: Transitions, adoptions: seq<Adoption>, st: FoldState, a: Adoption)
    requires Fold(b, ts, adoptions) == Ok(st) && Represents(b, ts, adoptions, st) && !AdoptsBaseline(a)
    ensures FoldStep(b, ts, st, a).Ok? <==> Admissible(b, ts, adoptions, a)
    ensures FoldStep(b, ts, st, a).Ok? ==> Represents(b, ts, adoptions + [a], FoldStep(b, ts, st, a).value)
  {
    if a.target.id in ts {
      var (id, t) := (a.target.id, ts[a.target.id]);
      assert ClauseRepresented(b, ts, adoptions, st, t.clauseId);
      LiveClausesHaveHeads(b, ts, adoptions, st);
      TransitionAcceptance(b, st.(seen := st.seen + {AdoptionId(a)}), id, t);
      if FoldStep(b, ts, st, a).Ok? { TransitionStepRepresents(b, ts, adoptions, st, a); }
    }
  }

  lemma TransitionStepRepresents(b: Baseline, ts: Transitions, adoptions: seq<Adoption>, st: FoldState, a: Adoption)
    requires Represents(b, ts, adoptions, st) && !AdoptsBaseline(a) && a.target.id in ts
    requires FoldStep(b, ts, st, a).Ok?
    ensures Represents(b, ts, adoptions + [a], FoldStep(b, ts, st, a).value)
  {
    TransitionEffect(b, st.(seen := st.seen + {AdoptionId(a)}), a.target.id, ts[a.target.id]);
    var r := FoldStep(b, ts, st, a).value;
    ExtendHistory(b, ts, adoptions, a, "");
    forall c ensures ClauseRepresented(b, ts, adoptions + [a], r, c) {
      assert ClauseRepresented(b, ts, adoptions, st, c);
      ExtendClause(b, ts, adoptions, st, a, r, c);
    }
  }

  lemma LiveClausesHaveHeads(b: Baseline, ts: Transitions, adoptions: seq<Adoption>, st: FoldState)
    requires Represents(b, ts, adoptions, st)
    ensures st.live.Keys <= st.current.Keys
  {
    forall c | c in st.live ensures c in st.current { assert ClauseRepresented(b, ts, adoptions, st, c); }
  }

  lemma ExtendClause(
      b: Baseline, ts: Transitions, adoptions: seq<Adoption>, st: FoldState, a: Adoption, r: FoldState, c: string)
    requires st.activated == Activated(adoptions)
    requires st.provenance.Keys == st.live.Keys && r.provenance.Keys == r.live.Keys
    requires ClauseRepresented(b, ts, adoptions, st, c)
    requires !AdoptsBaseline(a) && a.target.id in ts
    requires var t := ts[a.target.id];
             if c == t.clauseId then
               && Lookup(r.live, c) == t.proposed
               && Lookup(r.current, c) == Some(TransitionRef(a.target.id))
               && (t.proposed.Some? ==>
                     r.provenance[c] ==
                     (if c in st.live then st.provenance[c] else [BaselineRef(b)]) + [TransitionRef(a.target.id)])
             else
               && Lookup(r.live, c) == Lookup(st.live, c)
               && Lookup(r.current, c) == Lookup(st.current, c)
               && Lookup(r.provenance, c) == Lookup(st.provenance, c)
    ensures ClauseRepresented(b, ts, adoptions + [a], r, c)
  {
    ExtendHistory(b, ts, adoptions, a, c);
    var h := History(ts, adoptions, c);
    if Touches(ts, a, c) {
      assert (h + [a.target.id])[..|h|] == h;
    } else {
      assert History(ts, adoptions + [a], c) == h;
    }
  }

  lemma NothingAdoptedIsRepresented(b: Baseline, ts: Transitions)
    ensures Represents(b, ts, [], EMPTY_FOLD)
  {
    forall c ensures ClauseRepresented(b, ts, [], EMPTY_FOLD, c) { assert History(ts, [], c) == []; }
  }

  ghost predicate FoldRepresented(b: Baseline, ts: Transitions, adoptions: seq<Adoption>) {
    Fold(b, ts, adoptions).Ok? ==> Represents(b, ts, adoptions, Fold(b, ts, adoptions).value)
  }

  lemma OneMoreIsRepresented(b: Baseline, ts: Transitions, before: seq<Adoption>, a: Adoption)
    requires FoldRepresented(b, ts, before)
    ensures FoldRepresented(b, ts, before + [a])
  {
    FoldOfExtension(b, ts, before, a);
    if Fold(b, ts, before).Ok? { FoldStepExactly(b, ts, before, Fold(b, ts, before).value, a); }
  }

  lemma {:induction false} EveryFoldIsRepresented(b: Baseline, ts: Transitions, adoptions: seq<Adoption>)
    ensures FoldRepresented(b, ts, adoptions)
  {
    if adoptions == [] {
      NothingAdoptedIsRepresented(b, ts);
    } else {
      var (before, a) := (adoptions[..|adoptions| - 1], adoptions[|adoptions| - 1]);
      assert adoptions == before + [a];
      EveryFoldIsRepresented(b, ts, before);
      OneMoreIsRepresented(b, ts, before, a);
    }
  }

  /** The mutable fold computes the last-writer reading of its adoptions. */
  lemma FoldIsLastWriter(b: Baseline, ts: Transitions, adoptions: seq<Adoption>)
    requires Fold(b, ts, adoptions).Ok?
    ensures Represents(b, ts, adoptions, Fold(b, ts, adoptions).value)
  {
    EveryFoldIsRepresented(b, ts, adoptions);
  }

  lemma FoldRepresentsClause(b: Baseline, ts: Transitions, adoptions: seq<Adoption>, c: string)
    requires Fold(b, ts, adoptions).Ok?
    ensures var st := Fold(b, ts, adoptions).value;
            && ClauseRepresented(b, ts, adoptions, st, c)
            && st.provenance.Keys == st.live.Keys && st.activated == Activated(adoptions)
  {
    FoldIsLastWriter(b, ts, adoptions);
  }

  /** After a clean lineage, folding one more adoption succeeds exactly when it
      is admissible. */
  lemma NextFoldsExactlyWhenAdmissible(b: Baseline, ts: Transitions, adoptions: seq<Adoption>, a: Adoption)
    requires Fold(b, ts, adoptions).Ok?
    ensures FoldStep(b, ts, Fold(b, ts, adoptions).value, a).Ok? <==> Admissible(b, ts, adoptions, a)
  {
    FoldIsLastWriter(b, ts, adoptions);
    FoldStepExactly(b, ts, adoptions, Fold(b, ts, adoptions).value, a);
  }

  lemma {:induction false} SeedRefusesConflicts(st: FoldState, clauses: seq<Clause>, baseline: Ref)
    ensures Seed(st, clauses, baseline).Err? ==> Seed(st, clauses, baseline).error == LineageConflict
  {
    if clauses != [] { SeedRefusesConflicts(st, clauses[..|clauses| - 1], baseline); }
  }

  /** Why an adoption that is not admissible is refused: a transition that is not there
      lacks provenance, one that changes nothing or bears another change's label is
      undeclared, one that adds no body is invalid, and all else conflicts with the
      lineage. */
  ghost function WhyRefused(b: Baseline, ts: Transitions, adoptions: seq<Adoption>, a: Adoption): PolicyError {
    if a in adoptions || a.project != b.project || a.issue != b.issue || AdoptsBaseline(a) || !Activated(adoptions) then
      LineageConflict
    else if a.target.id !in ts then Provenance
    else
      var t := ts[a.target.id];
      var body := LastBody(b, ts, adoptions, t.clauseId);
      if t.project != b.project || t.issue != b.issue || t.baseline.id != BaselineRef(b).id
         || !ExtendsHead(Head(b, ts, adoptions, t.clauseId), b, t) || (t.operation == Add) != body.None?
      then LineageConflict
      else if body.None? && t.proposed.None? then InvalidInput
      else UndeclaredChange
  }

  lemma TransitionRefusal(b: Baseline, st: FoldState, id: RecordId, t: Transition)
    requires st.live.Keys <= st.current.Keys && FoldTransition(b, st, id, t).Err?
    ensures var body := Lookup(st.live, t.clauseId);
            FoldTransition(b, st, id, t).error ==
            if !ExtendsHead(Lookup(st.current, t.clauseId), b, t) || (t.operation == Add) != body.None?
            then LineageConflict
            else if body.None? && t.proposed.None? then InvalidInput
            else UndeclaredChange
  {
  }

  /** After a clean lineage one more adoption is refused for the reason stated. */
  lemma NextIsRefusedWhy(b: Baseline, ts: Transitions, adoptions: seq<Adoption>, a: Adoption)
    requires Fold(b, ts, adoptions).Ok? && !Admissible(b, ts, adoptions, a)
    ensures FoldStep(b, ts, Fold(b, ts, adoptions).value, a) == Err(WhyRefused(b, ts, adoptions, a))
  {
    var st := Fold(b, ts, adoptions).value;
    FoldIsLastWriter(b, ts, adoptions);
    FoldStepExactly(b, ts, adoptions, st, a);
    var st1 := st.(seen := st.seen + {AdoptionId(a)});
    if AdoptsBaseline(a) {
      SeedRefusesConflicts(st1, b.clauses, BaselineRef(b));
    } else if a.target.id in ts {
      FoldRepresentsClause(b, ts, adoptions, ts[a.target.id].clauseId);
      LiveClausesHaveHeads(b, ts, adoptions, st);
      if FoldTransition(b, st1, a.target.id, ts[a.target.id]).Err? {
        TransitionRefusal(b, st1, a.target.id, ts[a.target.id]);
      }
    }
  }

  ghost predicate EachAdmissible(b: Baseline, ts: Transitions, adoptions: seq<Adoption>) {
    forall i :: 0 <= i < |adoptions| ==> Admissible(b, ts, adoptions[..i], adoptions[i])
  }

  lemma EachAdmissibleBySplitting(b: Baseline, ts: Transitions, adoptions: seq<Adoption>)
    requires adoptions != []
    ensures var n := |adoptions| - 1;
            EachAdmissible(b, ts, adoptions) <==>
            EachAdmissible(b, ts, adoptions[..n]) && Admissible(b, ts, adoptions[..n], adoptions[n])
  {
    var n := |adoptions| - 1;
    forall i | 0 <= i < n
      ensures Admissible(b, ts, adoptions[..n][..i], adoptions[..n][i]) <==>
              Admissible(b, ts, adoptions[..i], adoptions[i])
    {
      assert adoptions[..n][..i] == adoptions[..i];
    }
  }

  /** A lineage folds cleanly exactly when every adoption in it is admissible
      after the ones before it. */
  lemma {:induction false} FoldsExactlyWhenAdmissible(b: Baseline, ts: Transitions, adoptions: seq<Adoption>)
    ensures Fold(b, ts, adoptions).Ok? <==> EachAdmissible(b, ts, adoptions)
  {
    if adoptions != [] {
      var n := |adoptions| - 1;
      FoldsExactlyWhenAdmissible(b, ts, adoptions[..n]);
      EachAdmissibleBySplitting(b, ts, adoptions);
      if Fold(b, ts, adoptions[..n]).Ok? {
        NextFoldsExactlyWhenAdmissible(b, ts, adoptions[..n], adoptions[n]);
      }
    }
  }

  /** A lineage that does not fold is refused at its first inadmissible adoption, and for
      that one's reason. */
  lemma {:induction false} FirstRefusalIsAnswered(b: Baseline, ts: Transitions, adoptions: seq<Adoption>)
    returns (i: nat)
    requires Fold(b, ts, adoptions).Err?
    ensures i < |adoptions| && EachAdmissible(b, ts, adoptions[..i])
    ensures !Admissible(b, ts, adoptions[..i], adoptions[i])
    ensures Fold(b, ts, adoptions) == Err(WhyRefused(b, ts, adoptions[..i], adoptions[i]))
  {
    var n := |adoptions| - 1;
    if Fold(b, ts, adoptions[..n]).Ok? {
      i := n;
      FoldsExactlyWhenAdmissible(b, ts, adoptions[..n]);
      NextFoldsExactlyWhenAdmissible(b, ts, adoptions[..n], adoptions[n]);
      NextIsRefusedWhy(b, ts, adoptions[..n], adoptions[n]);
    } else {
      i := FirstRefusalIsAnswered(b, ts, adoptions[..n]);
      assert adoptions[..n][..i] == adoptions[..i];
    }
  }

  // ---------------------------------------------------------------- one chain per clause

  /** h starts at the baseline and every later member binds to the one before it. */
  ghost predicate Chain(b: Baseline, ts: Transitions, h: seq<RecordId>) {
    && (forall i :: 0 <= i < |h| ==> h[i] in ts)
    && (h != [] ==> ts[h[0]].prior.ref.id == BaselineRef(b).id)
    && (forall i :: 0 < i < |h| ==> ts[h[i]].prior.ref == TransitionRef(h[i - 1]))
  }

  lemma ChainExtends(b: Baseline, ts: Transitions, h: seq<RecordId>, id: RecordId)
    requires Chain(b, ts, h) && id in ts
    requires if h == [] then ts[id].prior.ref.id == BaselineRef(b).id else ts[id].prior.ref == TransitionRef(h[|h| - 1])
    ensures Chain(b, ts, h + [id])
  {
  }

  lemma {:induction false} HistoryIsChain(b: Baseline, ts: Transitions, adoptions: seq<Adoption>, c: string)
    requires Fold(b, ts, adoptions).Ok?
    ensures Chain(b, ts, History(ts, adoptions, c))
  {
    if adoptions != [] {
      var n := |adoptions| - 1;
      var (before, a) := (adoptions[..n], adoptions[n]);
      HistoryIsChain(b, ts, before, c);
      NextFoldsExactlyWhenAdmissible(b, ts, before, a);
      var h := History(ts, before, c);
      if Touches(ts, a, c) {
        assert ExtendsHead(Head(b, ts, before, c), b, ts[a.target.id]);
        ChainExtends(b, ts, h, a.target.id);
      }
    }
  }

  lemma {:induction false} ChainNeverRepeats(b: Baseline, ts: Transitions, h: seq<RecordId>, i: nat, j: nat)
    requires Chain(b, ts, h) && i < j < |h|
    ensures h[i] != h[j]
    ensures ts[h[i]].prior.ref != ts[h[j]].prior.ref
  {
    assert h[j - 1] == TransitionId(ts[h[j - 1]]);
    if i > 0 {
      ChainNeverRepeats(b, ts, h, i - 1, j - 1);
    }
  }

  /** However many rivals were proposed, the transitions adopted on a clause
      form one chain from the baseline: no predecessor is used twice and no
      transition is adopted twice. */
  lemma AdoptedTransitionsFormOneChain(b: Baseline, ts: Transitions, adoptions: seq<Adoption>, c: string)
    requires Fold(b, ts, adoptions).Ok?
    ensures var h := History(ts, adoptions, c);
            && (h != [] ==> ts[h[0]].prior.ref.id == BaselineRef(b).id)
            && (forall i :: 0 < i < |h| ==> ts[h[i]].prior.ref == TransitionRef(h[i - 1]))
            && (forall i, j :: 0 <= i < j < |h| ==> h[i] != h[j] && ts[h[i]].prior.ref != ts[h[j]].prior.ref)
  {
    HistoryIsChain(b, ts, adoptions, c);
    var h := History(ts, adoptions, c);
    forall i, j | 0 <= i < j < |h| ensures h[i] != h[j] && ts[h[i]].prior.ref != ts[h[j]].prior.ref {
      ChainNeverRepeats(b, ts, h, i, j);
    }
  }

  lemma LastIsAdmissible(b: Baseline, ts: Transitions, adoptions: seq<Adoption>)
    requires Fold(b, ts, adoptions).Ok? && adoptions != []
    ensures Admissible(b, ts, adoptions[..|adoptions| - 1], adoptions[|adoptions| - 1])
  {
    var n := |adoptions| - 1;
    NextFoldsExactlyWhenAdmissible(b, ts, adoptions[..n], adoptions[n]);
  }

  /** An adopted transition is labelled Remove exactly when it proposes no body. */
  lemma {:induction false} AdoptedOperationIsReal(
      b: Baseline, ts: Transitions, adoptions: seq<Adoption>, c: string, i: nat)
    requires Fold(b, ts, adoptions).Ok? && i < |History(ts, adoptions, c)|
    ensures var t := ts[History(ts, adoptions, c)[i]]; t.operation == Remove <==> t.proposed.None?
  {
    var n := |adoptions| - 1;
    var (before, a) := (adoptions[..n], adoptions[n]);
    assert adoptions == before + [a];
    ExtendHistory(b, ts, before, a, c);
    if i < |History(ts, before, c)| {
      AdoptedOperationIsReal(b, ts, before, c, i);
    } else {
      LastIsAdmissible(b, ts, adoptions);
      RemoveProposesNothing(LastBody(b, ts, before, c), ts[a.target.id].proposed);
    }
  }

  lemma RemoveProposesNothing(p: Option<Clause>, q: Option<Clause>)
    ensures Classify(p, q).Ok? ==> (Classify(p, q).value == Remove <==> q.None?)
  {
  }

  // ---------------------------------------------------------------- adoptions on different clauses commute

  /** The two lineages hold the same adoptions and tell each clause the same story. */
  ghost predicate SameReading(ts: Transitions, xs: seq<Adoption>, ys: seq<Adoption>) {
    && (forall a :: a in xs <==> a in ys)
    && (forall c :: History(ts, xs, c) == History(ts, ys, c))
  }

  lemma SameReadingSameVerdict(b: Baseline, ts: Transitions, xs: seq<Adoption>, ys: seq<Adoption>, a: Adoption)
    requires SameReading(ts, xs, ys)
    ensures Admissible(b, ts, xs, a) <==> Admissible(b, ts, ys, a)
  {
    assert Activated(xs) <==> Activated(ys);
    if a.target.id in ts {
      var c := ts[a.target.id].clauseId;
      assert History(ts, xs, c) == History(ts, ys, c);
    }
  }

  lemma SameReadingExtends(b: Baseline, ts: Transitions, xs: seq<Adoption>, ys: seq<Adoption>, a: Adoption)
    requires SameReading(ts, xs, ys)
    ensures SameReading(ts, xs + [a], ys + [a])
  {
    forall c ensures History(ts, xs + [a], c) == History(ts, ys + [a], c) {
      ExtendHistory(b, ts, xs, a, c);
      ExtendHistory(b, ts, ys, a, c);
    }
  }

  lemma SameReadingSameTables(b: Baseline, ts: Transitions, xs: seq<Adoption>, ys: seq<Adoption>)
    requires SameReading(ts, xs, ys) && Fold(b, ts, xs).Ok? && Fold(b, ts, ys).Ok?
    ensures var (s, t) := (Fold(b, ts, xs).value, Fold(b, ts, ys).value);
            s.live == t.live && s.current == t.current && s.provenance == t.provenance
  {
    var (s, t) := (Fold(b, ts, xs).value, Fold(b, ts, ys).value);
    assert Activated(xs) <==> Activated(ys);
    forall c ensures && Lookup(s.live, c) == Lookup(t.live, c)
                     && Lookup(s.current, c) == Lookup(t.current, c)
                     && Lookup(s.provenance, c) == Lookup(t.provenance, c) {
      FoldRepresentsClause(b, ts, xs, c);
      FoldRepresentsClause(b, ts, ys, c);
    }
    LookupDetermines(s.live, t.live);
    LookupDetermines(s.current, t.current);
    LookupDetermines(s.provenance, t.provenance);
  }

  lemma LookupDetermines<K(!new), V(!new)>(m: map<K, V>, n: map<K, V>)
    requires forall k :: Lookup(m, k) == Lookup(n, k)
    ensures m == n
  {
    forall k ensures k in m <==> k in n { assert Lookup(m, k) == Lookup(n, k); }
    forall k | k in m ensures m[k] == n[k] { assert Lookup(m, k) == Lookup(n, k); }
  }

  /** Both adopt a resolvable transition, on different clauses. */
  ghost predicate Independent(ts: Transitions, x: Adoption, y: Adoption) {
    && !AdoptsBaseline(x) && !AdoptsBaseline(y) && x.target.id in ts && y.target.id in ts
    && ts[x.target.id].clauseId != ts[y.target.id].clauseId
  }

  lemma IndependentAdoptionKeepsVerdict(b: Baseline, ts: Transitions, p: seq<Adoption>, x: Adoption, y: Adoption)
    requires Independent(ts, x, y)
    ensures Admissible(b, ts, p + [x], y) <==> Admissible(b, ts, p, y)
  {
    var c := ts[y.target.id].clauseId;
    ExtendHistory(b, ts, p, x, c);
    assert History(ts, p + [x], c) == History(ts, p, c);
  }

  lemma SwapKeepsReading(b: Baseline, ts: Transitions, p: seq<Adoption>, x: Adoption, y: Adoption)
    requires Independent(ts, x, y)
    ensures SameReading(ts, p + [x] + [y], p + [y] + [x])
  {
    forall c ensures History(ts, p + [x] + [y], c) == History(ts, p + [y] + [x], c) {
      ExtendHistory(b, ts, p, x, c);
      ExtendHistory(b, ts, p, y, c);
      ExtendHistory(b, ts, p + [x], y, c);
      ExtendHistory(b, ts, p + [y], x, c);
    }
  }

  lemma {:induction false} SwapKeepsAdmissibility(
    b: Baseline, ts: Transitions, p: seq<Adoption>, x: Adoption, y: Adoption, q: seq<Adoption>)
    requires Independent(ts, x, y)
    ensures SameReading(ts, p + [x] + [y] + q, p + [y] + [x] + q)
    ensures EachAdmissible(b, ts, p + [x] + [y] + q) <==> EachAdmissible(b, ts, p + [y] + [x] + q)
  {
    var (xy, yx) := (p + [x] + [y], p + [y] + [x]);
    if q == [] {
      assert xy + q == xy && yx + q == yx;
      SwapKeepsReading(b, ts, p, x, y);
      IndependentAdoptionKeepsVerdict(b, ts, p, x, y);
      IndependentAdoptionKeepsVerdict(b, ts, p, y, x);
      AdmissibleOneByOne(b, ts, p, x);
      AdmissibleOneByOne(b, ts, p, y);
      AdmissibleOneByOne(b, ts, p + [x], y);
      AdmissibleOneByOne(b, ts, p + [y], x);
    } else {
      var n := |q| - 1;
      SwapKeepsAdmissibility(b, ts, p, x, y, q[..n]);
      assert xy + q == xy + q[..n] + [q[n]] && yx + q == yx + q[..n] + [q[n]];
      SameReadingSameVerdict(b, ts, xy + q[..n], yx + q[..n], q[n]);
      SameReadingExtends(b, ts, xy + q[..n], yx + q[..n], q[n]);
      AdmissibleOneByOne(b, ts, xy + q[..n], q[n]);
      AdmissibleOneByOne(b, ts, yx + q[..n], q[n]);
    }
  }

  lemma AdmissibleOneByOne(b: Baseline, ts: Transitions, p: seq<Adoption>, a: Adoption)
    ensures EachAdmissible(b, ts, p + [a]) <==> EachAdmissible(b, ts, p) && Admissible(b, ts, p, a)
  {
    EachAdmissibleBySplitting(b, ts, p + [a]);
    assert (p + [a])[..|p|] == p;
  }

  /** Swapping two neighbouring adoptions of different clauses changes neither
      whether the lineage folds nor what is in force afterwards. */
  lemma IndependentAdoptionsCommute(
    b: Baseline, ts: Transitions, p: seq<Adoption>, x: Adoption, y: Adoption, q: seq<Adoption>)
    requires Independent(ts, x, y)
    ensures var (l, r) := (Fold(b, ts, p + [x] + [y] + q), Fold(b, ts, p + [y] + [x] + q));
            && (l.Ok? <==> r.Ok?)
            && (l.Ok? ==> && l.value.live == r.value.live
                          && l.value.current == r.value.current
                          && l.value.provenance == r.value.provenance)
  {
    SwapKeepsAdmissibility(b, ts, p, x, y, q);
    FoldsExactlyWhenAdmissible(b, ts, p + [x] + [y] + q);
    FoldsExactlyWhenAdmissible(b, ts, p + [y] + [x] + q);
    if Fold(b, ts, p + [x] + [y] + q).Ok? {
      SameReadingSameTables(b, ts, p + [x] + [y] + q, p + [y] + [x] + q);
    }
  }
}
