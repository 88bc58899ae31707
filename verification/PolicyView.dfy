/** The effective view, the binding a proposal receives, and the impact preview. */
module PolicyView {
  import opened Results
  import opened Ordering
  import opened PolicyTypes
  import opened PolicyEngine
  import opened PolicyLineage

  datatype EffectiveClause = EffectiveClause(
    id: string, policyClass: PolicyClass, blocks: set<Gate>, scope: string, original: bool, provenance: seq<Ref>)

  datatype View = View(project: string, issue: int, baseline: Ref, clauses: seq<EffectiveClause>, folded: seq<Ref>)

  function InForce(c: string, body: Clause, provenance: seq<Ref>): EffectiveClause {
    EffectiveClause(c, body.policyClass, body.blocks, body.scope, body.original, provenance)
  }

  predicate AreKeys(m: map<string, EffectiveClause>, keys: seq<string>) { forall i :: 0 <= i < |keys| ==> keys[i] in m }

  function Listing(m: map<string, EffectiveClause>, keys: seq<string>): (r: seq<EffectiveClause>)
    requires AreKeys(m, keys)
    ensures |r| == |keys|
  {
    seq(|keys|, i requires 0 <= i < |keys| => m[keys[i]])
  }

  /** The values of m in the order of their keys. */
  ghost function InKeyOrder(m: map<string, EffectiveClause>): (r: seq<EffectiveClause>)
    ensures |r| == |SortedStrings(m.Keys)|
  {
    var keys := SortedStrings(m.Keys);
    assert forall i :: 0 <= i < |keys| ==> keys[i] in m.Keys;
    Listing(m, keys)
  }

  function Effective(st: FoldState): map<string, EffectiveClause> {
    map c | c in st.live && c in st.provenance :: InForce(c, st.live[c], st.provenance[c])
  }

  ghost function ViewOf(b: Baseline, st: FoldState): View {
    View(b.project, b.issue, BaselineRef(b), InKeyOrder(Effective(st)), st.folded)
  }

  /** `{c.clause_id: c for c in clauses}`: a later entry replaces an earlier one. */
  function ById(clauses: seq<EffectiveClause>): map<string, EffectiveClause> {
    if clauses == [] then map[]
    else ById(clauses[..|clauses| - 1])[clauses[|clauses| - 1].id := clauses[|clauses| - 1]]
  }

  lemma {:induction false} ByIdLooksUp(clauses: seq<EffectiveClause>)
    requires forall i, j :: 0 <= i < j < |clauses| ==> clauses[i].id != clauses[j].id
    ensures forall c :: c in ById(clauses) <==> exists i :: 0 <= i < |clauses| && clauses[i].id == c
    ensures forall i :: 0 <= i < |clauses| ==>
            clauses[i].id in ById(clauses) && ById(clauses)[clauses[i].id] == clauses[i]
  {
    if clauses != [] {
      var n := |clauses| - 1;
      ByIdLooksUp(clauses[..n]);
      forall c ensures c in ById(clauses) <==> exists i :: 0 <= i < |clauses| && clauses[i].id == c {
        if c in ById(clauses[..n]) {
          var i :| 0 <= i < |clauses[..n]| && clauses[..n][i].id == c;
          assert clauses[i].id == c;
        }
        if i :| 0 <= i < |clauses| && clauses[i].id == c {
          if i < n { assert clauses[..n][i].id == c; }
        }
      }
      forall i | 0 <= i < |clauses|
        ensures clauses[i].id in ById(clauses) && ById(clauses)[clauses[i].id] == clauses[i]
      {
        if i < n { assert clauses[..n][i] == clauses[i]; }
      }
    }
  }

  /** Listing a table in key order and reading the list back gives the table. */
  lemma ByIdReadsTheListing(m: map<string, EffectiveClause>)
    requires forall c :: c in m ==> m[c].id == c
    ensures ById(InKeyOrder(m)) == m
  {
    var keys := SortedStrings(m.Keys);
    var listed := InKeyOrder(m);
    SortedStringsAreDistinct(m.Keys);
    forall i | 0 <= i < |keys| ensures listed[i] == m[keys[i]] && listed[i].id == keys[i] { assert keys[i] in m.Keys; }
    ByIdLooksUp(listed);
    var back := ById(listed);
    forall c ensures Lookup(back, c) == Lookup(m, c) {
      ListingLookup(m, keys, listed, back, c);
    }
    LookupDetermines(back, m);
  }

  lemma ListingLookup(
    m: map<string, EffectiveClause>, keys: seq<string>, listed: seq<EffectiveClause>,
    back: map<string, EffectiveClause>, c: string)
    requires |listed| == |keys| && forall x :: x in keys <==> x in m
    requires forall i :: 0 <= i < |keys| ==> keys[i] in m && listed[i] == m[keys[i]] && listed[i].id == keys[i]
    requires forall x :: x in back <==> exists i :: 0 <= i < |listed| && listed[i].id == x
    requires forall i :: 0 <= i < |listed| ==> listed[i].id in back && back[listed[i].id] == listed[i]
    ensures Lookup(back, c) == Lookup(m, c)
  {
    if c in m {
      var i :| 0 <= i < |keys| && keys[i] == c;
      assert listed[i].id == c;
    } else {
      forall i | 0 <= i < |listed| ensures listed[i].id != c { assert keys[i] in m; }
    }
  }

  // ---------------------------------------------------------------- deriving the view

  /** The three tables a fold updates in place. */
  datatype Tables = Tables(live: map<string, Clause>, provenance: map<string, seq<Ref>>, current: map<string, Ref>)

  ghost function WithTables(st: FoldState, t: Tables): FoldState {
    st.(live := t.live, provenance := t.provenance, current := t.current)
  }

  method SeedTables(tables: Tables, b: Baseline, ghost st: FoldState) returns (r: Result<Tables, PolicyError>)
    requires WithTables(st, tables) == st
    ensures Seed(st, b.clauses, BaselineRef(b)) == if r.Ok? then Ok(WithTables(st, r.value)) else Err(r.error)
  {
    var live, provenance, current := tables.live, tables.provenance, tables.current;
    for k := 0 to |b.clauses|
      invariant Seed(st, b.clauses[..k], BaselineRef(b)) ==
                Ok(st.(live := live, provenance := provenance, current := current))
    {
      var clause := b.clauses[k];
      SeedOfPrefix(st, b.clauses, BaselineRef(b), k + 1);
      assert b.clauses[..k + 1][..k] == b.clauses[..k];
      if clause.id in live {
        return Err(LineageConflict);
      }
      live := live[clause.id := clause];
      provenance := provenance[clause.id := [BaselineRef(b)]];
      current := current[clause.id := BaselineRef(b)];
    }
    assert b.clauses[..|b.clauses|] == b.clauses;
    r := Ok(Tables(live, provenance, current));
  }

  method ExtendTables(tables: Tables, b: Baseline, id: RecordId, t: Transition, ghost st: FoldState)
    returns (r: Result<Tables, PolicyError>)
    requires WithTables(st, tables) == st
    ensures FoldTransition(b, st, id, t) == if r.Ok? then Ok(WithTables(st, r.value)) else Err(r.error)
  {
    var live, provenance, current := tables.live, tables.provenance, tables.current;
    var c := t.clauseId;
    if c !in current {
      if t.prior.source != FromBaseline || t.prior.ref.id != BaselineRef(b).id {
        return Err(LineageConflict);
      }
      if t.operation != Add {
        return Err(LineageConflict);
      }
    } else {
      if t.prior.ref != current[c] {
        return Err(LineageConflict);
      }
      if t.operation == Add && c in live {
        return Err(LineageConflict);
      }
      if t.operation != Add && c !in live {
        return Err(LineageConflict);
      }
    }
    var computed := Classify(if c in live then Some(live[c]) else None, t.proposed);
    if computed.Err? {
      return Err(computed.error);
    }
    if computed.value != t.operation {
      return Err(UndeclaredChange);
    }
    if t.operation == Remove {
      live := live - {c};
      provenance := provenance - {c};
    } else {
      live := live[c := t.proposed.value];
      provenance := provenance[c :=
        (if c in provenance then provenance[c] else [BaselineRef(b)]) + [TransitionRef(id)]];
    }
    current := current[c := TransitionRef(id)];
    r := Ok(Tables(live, provenance, current));
  }

  method ListKeys(m: map<string, EffectiveClause>, keys: seq<string>) returns (listed: seq<EffectiveClause>)
    requires AreKeys(m, keys)
    ensures listed == Listing(m, keys)
  {
    listed := [];
    for k := 0 to |keys|
      invariant |listed| == k && forall i :: 0 <= i < k ==> listed[i] == m[keys[i]]
    {
      listed := listed + [m[keys[k]]];
    }
  }

  method ListTable(m: map<string, EffectiveClause>) returns (listed: seq<EffectiveClause>)
    ensures listed == InKeyOrder(m)
  {
    var keys := SortKeys(m.Keys);
    assert forall i :: 0 <= i < |keys| ==> keys[i] in m.Keys;
    listed := ListKeys(m, keys);
  }

  /** The running state of a fold: its tables, flag and lists. */
  method FoldOneAdoption(
      b: Baseline, ts: Transitions, st: FoldState, a: Adoption)
    returns (r: Result<FoldState, PolicyError>)
    ensures r == FoldStep(b, ts, st, a)
  {
    if AdoptionId(a) in st.seen {
      return Err(LineageConflict);
    }
    var seen := st.seen + {AdoptionId(a)};
    if a.project != b.project || a.issue != b.issue {
      return Err(LineageConflict);
    }
    var tables := Tables(st.live, st.provenance, st.current);
    var updated;
    if a.target.kind == BaselineKind {
      if a.target.id != BaselineRef(b).id || st.activated {
        return Err(LineageConflict);
      }
      updated := SeedTables(tables, b, st.(seen := seen));
    } else {
      if !st.activated {
        return Err(LineageConflict);
      }
      if a.target.id !in ts {
        return Err(Provenance);
      }
      var t := ts[a.target.id];
      if t.project != b.project || t.issue != b.issue || t.baseline.id != BaselineRef(b).id {
        return Err(LineageConflict);
      }
      updated := ExtendTables(tables, b, a.target.id, t, st.(seen := seen));
    }
    if updated.Err? {
      return Err(updated.error);
    }
    var u := updated.value;
    return Ok(FoldState(true, u.live, u.provenance, u.current, st.folded + [AdoptionRef(a)], seen));
  }

  // ---------------------------------------------------------------- what the view lists

  /** The entry carries this body, field by field, and this chain. */
  ghost predicate Carries(e: EffectiveClause, body: Clause, chain: seq<Ref>) {
    && e.policyClass == body.policyClass && e.blocks == body.blocks && e.scope == body.scope
    && e.original == body.original && e.provenance == chain
  }

  /** The entry carries what the last writer of its clause left. */
  ghost predicate CarriesLast(b: Baseline, ts: Transitions, adoptions: seq<Adoption>, e: EffectiveClause) {
    && LastBody(b, ts, adoptions, e.id).Some?
    && Carries(e, LastBody(b, ts, adoptions, e.id).value, Ancestry(b, ts, History(ts, adoptions, e.id)))
  }

  /** The view of a lineage: each clause in force once, by id, with the body and the
      ancestry its last writer left, and every adoption in order. */
  ghost predicate ListsLineage(b: Baseline, ts: Transitions, adoptions: seq<Adoption>, v: View) {
    && v.project == b.project && v.issue == b.issue && v.baseline == Ref(BaselineKind, BaselineId(b.project, b.issue))
    && (forall i, j :: 0 <= i < j < |v.clauses| ==>
          v.clauses[i].id != v.clauses[j].id && StringLe(v.clauses[i].id, v.clauses[j].id))
    && (forall c :: (exists i :: 0 <= i < |v.clauses| && v.clauses[i].id == c) <==> LastBody(b, ts, adoptions, c).Some?)
    && (forall i :: 0 <= i < |v.clauses| ==> CarriesLast(b, ts, adoptions, v.clauses[i]))
    && |v.folded| == |adoptions|
    && forall i :: 0 <= i < |adoptions| ==> v.folded[i] == Ref(AdoptionKind, AdoptionId(adoptions[i]))
  }

  lemma EffectiveCarries(b: Baseline, ts: Transitions, adoptions: seq<Adoption>, st: FoldState, c: string)
    requires Fold(b, ts, adoptions) == Ok(st)
    ensures c in Effective(st) <==> LastBody(b, ts, adoptions, c).Some?
    ensures c in Effective(st) ==>
              && Effective(st)[c].id == c
              && Carries(Effective(st)[c], LastBody(b, ts, adoptions, c).value,
                         Ancestry(b, ts, History(ts, adoptions, c)))
  {
    FoldRepresentsClause(b, ts, adoptions, c);
  }

  /** The table listed by key: each entry once, in strictly increasing id order. */
  lemma ListingHoldsEntries(m: map<string, EffectiveClause>)
    requires forall c :: c in m ==> m[c].id == c
    ensures var xs := InKeyOrder(m);
            && (forall i, j :: 0 <= i < j < |xs| ==> xs[i].id != xs[j].id && StringLe(xs[i].id, xs[j].id))
            && (forall i :: 0 <= i < |xs| ==> xs[i].id in m && xs[i] == m[xs[i].id])
            && (forall c :: c in m <==> exists i :: 0 <= i < |xs| && xs[i].id == c)
  {
    var xs := InKeyOrder(m);
    ListedInIdOrder(m);
    ListedByKey(m);
    forall c ensures c in m <==> exists i :: 0 <= i < |xs| && xs[i].id == c { ListsKey(m, c); }
  }

  lemma ListedInIdOrder(m: map<string, EffectiveClause>)
    requires forall c :: c in m ==> m[c].id == c
    ensures var xs := InKeyOrder(m);
            forall i, j :: 0 <= i < j < |xs| ==> xs[i].id != xs[j].id && StringLe(xs[i].id, xs[j].id)
  {
    var (xs, keys) := (InKeyOrder(m), SortedStrings(m.Keys));
    SortedStringsAreOrdered(m.Keys);
    ListedByKey(m);
    forall i, j | 0 <= i < j < |xs| ensures xs[i].id != xs[j].id && StringLe(xs[i].id, xs[j].id) {
      assert keys[i] != keys[j] && StringLe(keys[i], keys[j]);
    }
  }

  lemma ListedByKey(m: map<string, EffectiveClause>)
    requires forall c :: c in m ==> m[c].id == c
    ensures var (xs, keys) := (InKeyOrder(m), SortedStrings(m.Keys));
            |xs| == |keys| &&
            forall i :: 0 <= i < |xs| ==> keys[i] in m && xs[i] == m[keys[i]] && xs[i].id == keys[i]
  {
    var keys := SortedStrings(m.Keys);
    forall i | 0 <= i < |keys| ensures keys[i] in m { assert keys[i] in m.Keys; }
  }

  lemma ListsKey(m: map<string, EffectiveClause>, c: string)
    requires forall d :: d in m ==> m[d].id == d
    ensures c in m <==> exists i :: 0 <= i < |InKeyOrder(m)| && InKeyOrder(m)[i].id == c
  {
    var keys := SortedStrings(m.Keys);
    ListedByKey(m);
    if c in m {
      assert c in keys;
      var i :| 0 <= i < |keys| && keys[i] == c;
      assert InKeyOrder(m)[i].id == c;
    }
  }

  lemma FoldedInOrder(b: Baseline, ts: Transitions, adoptions: seq<Adoption>, st: FoldState)
    requires Fold(b, ts, adoptions) == Ok(st)
    ensures |st.folded| == |adoptions|
    ensures forall i :: 0 <= i < |adoptions| ==> st.folded[i] == Ref(AdoptionKind, AdoptionId(adoptions[i]))
  {
    FoldIsLastWriter(b, ts, adoptions);
  }

  /** The view of a clean fold lists its lineage. */
  lemma ViewListsLineage(b: Baseline, ts: Transitions, adoptions: seq<Adoption>, st: FoldState)
    requires Fold(b, ts, adoptions) == Ok(st)
    ensures ListsLineage(b, ts, adoptions, ViewOf(b, st))
  {
    var v := ViewOf(b, st);
    ListingHoldsEntries(Effective(st));
    FoldedInOrder(b, ts, adoptions, st);
    forall c
      ensures (exists i :: 0 <= i < |v.clauses| && v.clauses[i].id == c) <==> LastBody(b, ts, adoptions, c).Some?
    {
      EffectiveCarries(b, ts, adoptions, st, c);
    }
    forall i | 0 <= i < |v.clauses| ensures CarriesLast(b, ts, adoptions, v.clauses[i]) {
      EffectiveCarries(b, ts, adoptions, st, v.clauses[i].id);
    }
  }

  /** The fold as the engine runs it: tables updated in place, one adoption at
      a time, then the live clauses listed by id. */
  method DeriveEffectivePolicy(b: Baseline, ts: Transitions, adoptions: seq<Adoption>)
    returns (r: Result<View, PolicyError>)
    ensures var folded := Fold(b, ts, adoptions);
            r == if folded.Ok? then Ok(ViewOf(b, folded.value)) else Err(folded.error)
    ensures r.Ok? ==> ListsLineage(b, ts, adoptions, r.value)
  {
    var st := EMPTY_FOLD;
    for n := 0 to |adoptions|
      invariant Fold(b, ts, adoptions[..n]) == Ok(st)
    {
      assert adoptions[..n + 1] == adoptions[..n] + [adoptions[n]];
      FoldOfExtension(b, ts, adoptions[..n], adoptions[n]);
      FoldOfPrefix(b, ts, adoptions, n + 1);
      var folded := FoldOneAdoption(b, ts, st, adoptions[n]);
      if folded.Err? {
        return Err(folded.error);
      }
      st := folded.value;
    }
    assert adoptions[..|adoptions|] == adoptions;
    var clauses := ListTable(Effective(st));
    ViewListsLineage(b, ts, adoptions, st);
    r := Ok(View(b.project, b.issue, BaselineRef(b), clauses, st.folded));
  }

  lemma {:induction false} SeedOfPrefix(st: FoldState, clauses: seq<Clause>, baseline: Ref, n: nat)
    requires n <= |clauses|
    ensures Seed(st, clauses[..n], baseline).Err? ==> Seed(st, clauses, baseline) == Seed(st, clauses[..n], baseline)
    decreases |clauses|
  {
    if n < |clauses| {
      SeedOfPrefix(st, clauses[..|clauses| - 1], baseline, n);
      assert clauses[..|clauses| - 1][..n] == clauses[..n];
    } else {
      assert clauses[..n] == clauses;
    }
  }

  // ---------------------------------------------------------------- what a proposal binds to

  /** The binding and prior body the route derives for clause c from the
      effective clauses; a fold never leaves an empty chain. */
  function ExpectedPrior(b: Baseline, ts: Transitions, byId: map<string, EffectiveClause>, c: string)
    : Result<(Binding, Option<Clause>), PolicyError>
  {
    if c !in byId then Ok((Binding(FromBaseline, BaselineRef(b)), None))
    else if byId[c].provenance == [] then Err(Provenance)
    else
      var ref := byId[c].provenance[|byId[c].provenance| - 1];
      var binding := Binding(if ref.kind == TransitionKind then FromTransition else FromBaseline, ref);
      if ref.kind != TransitionKind then Ok((binding, Named(b.clauses, c)))
      else if ref.id !in ts then Err(Provenance)
      else Ok((binding, ts[ref.id].proposed))
  }

  lemma AncestryEndsAtHead(b: Baseline, ts: Transitions, adoptions: seq<Adoption>, c: string)
    requires LastBody(b, ts, adoptions, c).Some?
    ensures var chain := Ancestry(b, ts, History(ts, adoptions, c));
            chain != [] && Some(chain[|chain| - 1]) == Head(b, ts, adoptions, c)
  {
  }

  lemma ViewReadsBack(b: Baseline, st: FoldState)
    ensures ById(ViewOf(b, st).clauses) == Effective(st)
  {
    ByIdReadsTheListing(Effective(st));
  }

  /** For a live clause the derived binding names the clause's head and its
      body in force; for any other clause it names the baseline and no body. */
  lemma ExpectedPriorReadsTheHead(b: Baseline, ts: Transitions, adoptions: seq<Adoption>, st: FoldState, c: string)
    requires Activated(adoptions) && ClauseRepresented(b, ts, adoptions, st, c) && st.provenance.Keys == st.live.Keys
    ensures var r := ExpectedPrior(b, ts, Effective(st), c);
            && r.Ok?
            && r.value.1 == LastBody(b, ts, adoptions, c)
            && (c in st.live ==> c in st.current)
            && r.value.0.ref == (if c in st.live then st.current[c] else BaselineRef(b))
            && (r.value.0.source == FromBaseline <==> r.value.0.ref.kind != TransitionKind)
  {
    if c in st.live {
      AncestryEndsAtHead(b, ts, adoptions, c);
      var chain := Ancestry(b, ts, History(ts, adoptions, c));
      assert Effective(st)[c].provenance == chain;
      assert chain[|chain| - 1] == st.current[c];
    }
  }

  lemma UnactivatedIsEmpty(b: Baseline, ts: Transitions, adoptions: seq<Adoption>)
    requires Fold(b, ts, adoptions).Ok? && !Activated(adoptions)
    ensures adoptions == []
  {
    if adoptions != [] {
      assert adoptions[..1] == [] + [adoptions[0]] && adoptions[0] in adoptions;
      FoldOfPrefix(b, ts, adoptions, 1);
      FoldOfExtension(b, ts, [], adoptions[0]);
      NextFoldsExactlyWhenAdmissible(b, ts, [], adoptions[0]);
    }
  }

  /** A clause in force is bound at the last transition adopted on it, if any, and any
      other clause at the baseline. */
  ghost function BindingOf(b: Baseline, ts: Transitions, adoptions: seq<Adoption>, c: string): Binding {
    var h := History(ts, adoptions, c);
    if LastBody(b, ts, adoptions, c).Some? && h != [] then Binding(FromTransition, TransitionRef(h[|h| - 1]))
    else Binding(FromBaseline, BaselineRef(b))
  }

  /** The binding and the prior body derived from a view, told from the lineage. */
  lemma PriorIsRead(b: Baseline, ts: Transitions, adoptions: seq<Adoption>, st: FoldState, c: string)
    requires Fold(b, ts, adoptions) == Ok(st)
    ensures ExpectedPrior(b, ts, Effective(st), c) ==
            Ok((BindingOf(b, ts, adoptions, c), LastBody(b, ts, adoptions, c)))
  {
    FoldRepresentsClause(b, ts, adoptions, c);
    if Activated(adoptions) {
      ExpectedPriorReadsTheHead(b, ts, adoptions, st, c);
    } else {
      UnactivatedIsEmpty(b, ts, adoptions);
      assert c !in Effective(st);
    }
  }

  /** The clause was adopted out of force; the fold still remembers the removal. */
  ghost predicate Removed(st: FoldState, c: string) { c in st.current && c !in st.live }

  /** t is what the propose route builds for its clause from a view. */
  ghost predicate ProposedFrom(b: Baseline, ts: Transitions, byId: map<string, EffectiveClause>, t: Transition) {
    var prior := ExpectedPrior(b, ts, byId, t.clauseId);
    prior.Ok? && BuildTransition(b, b.issue, t.clauseId, t.operation, t.proposedBy, prior.value.0, t.proposed,
                                 prior.value.1, t.source, t.rollback) == Ok(t)
  }

  /** a adopts transition t in b's work unit. */
  ghost predicate Adopts(b: Baseline, a: Adoption, t: Transition) {
    a.project == b.project && a.issue == b.issue && a.target == TransitionRef(TransitionId(t))
  }

  /** A transition proposed against one view and adopted later is folded exactly
      when its clause had not been removed at the read and nothing was adopted
      on the clause in between. */
  lemma ProposalIsAcceptedExactly(
    b: Baseline, ts: Transitions, adoptions: seq<Adoption>, st: FoldState,
    later: Transitions, more: seq<Adoption>, st': FoldState, t: Transition, a: Adoption)
    requires Fold(b, ts, adoptions) == Ok(st) && st.activated
    requires ProposedFrom(b, ts, Effective(st), t)
    requires forall id :: id in ts ==> id in later
    requires Fold(b, later, adoptions + more) == Ok(st') && a !in adoptions + more
    requires Adopts(b, a, t) && TransitionId(t) in later
    ensures FoldStep(b, later, st', a).Ok? <==>
            && !Removed(st, t.clauseId)
            && History(later, adoptions + more, t.clauseId) == History(ts, adoptions, t.clauseId)
  {
    var c := t.clauseId;
    FoldRepresentsClause(b, ts, adoptions, c);
    ExpectedPriorReadsTheHead(b, ts, adoptions, st, c);
    NextFoldsExactlyWhenAdmissible(b, later, adoptions + more, a);
    assert later[TransitionId(t)] == t by { assert TransitionId(later[TransitionId(t)]) == TransitionId(t); }
    ActivatedGrows(adoptions, more);
    HistoryGrows(b, ts, later, adoptions, more, c);
    var (h, h') := (History(ts, adoptions, c), History(later, adoptions + more, c));
    if h' == h {
      SameHistorySameHead(b, ts, later, adoptions, adoptions + more, c);
    } else {
      HistoryIsChain(b, later, adoptions + more, c);
      GrownHistoryMovesHead(b, ts, later, adoptions, more, st, c);
    }
  }

  lemma SameHistorySameHead(
    b: Baseline, ts: Transitions, later: Transitions, xs: seq<Adoption>, ys: seq<Adoption>, c: string)
    requires History(ts, xs, c) == History(later, ys, c) && Activated(xs) && Activated(ys)
    ensures Head(b, ts, xs, c) == Head(b, later, ys, c)
    ensures LastBody(b, ts, xs, c) == LastBody(b, later, ys, c)
  {
    var h := History(ts, xs, c);
    if h != [] {
      var id := h[|h| - 1];
      assert TransitionId(ts[id]) == id == TransitionId(later[id]);
    }
  }

  lemma GrownHistoryMovesHead(
    b: Baseline, ts: Transitions, later: Transitions, adoptions: seq<Adoption>, more: seq<Adoption>, st: FoldState,
    c: string)
    requires ClauseRepresented(b, ts, adoptions, st, c)
    requires Chain(b, later, History(later, adoptions + more, c))
    requires History(ts, adoptions, c) < History(later, adoptions + more, c)
    ensures Head(b, later, adoptions + more, c).Some?
    ensures Head(b, later, adoptions + more, c) !=
            Some(if c in st.live && c in st.current then st.current[c] else BaselineRef(b))
  {
    var (h, h') := (History(ts, adoptions, c), History(later, adoptions + more, c));
    if h != [] {
      assert h[|h| - 1] == h'[|h| - 1];
      ChainNeverRepeats(b, later, h', |h| - 1, |h'| - 1);
    }
  }

  lemma ActivatedGrows(adoptions: seq<Adoption>, more: seq<Adoption>)
    requires Activated(adoptions)
    ensures Activated(adoptions + more)
  {
    var a :| a in adoptions && AdoptsBaseline(a);
    assert a in adoptions + more;
  }

  /** Whatever is adopted and committed later, a clause's history only grows. */
  lemma {:induction false} HistoryGrows(
    b: Baseline, ts: Transitions, later: Transitions, adoptions: seq<Adoption>, more: seq<Adoption>, c: string)
    requires Fold(b, ts, adoptions).Ok? && forall id :: id in ts ==> id in later
    ensures History(ts, adoptions, c) <= History(later, adoptions + more, c)
  {
    if more != [] {
      var n := |more| - 1;
      HistoryGrows(b, ts, later, adoptions, more[..n], c);
      assert adoptions + more == adoptions + more[..n] + [more[n]];
      ExtendHistory(b, later, adoptions + more[..n], more[n], c);
    } else {
      assert adoptions + more == adoptions;
      HistoryInLargerStore(b, ts, later, adoptions, c);
    }
  }

  lemma {:induction false} HistoryInLargerStore(
      b: Baseline, ts: Transitions, later: Transitions, adoptions: seq<Adoption>, c: string)
    requires Fold(b, ts, adoptions).Ok? && forall id :: id in ts ==> id in later
    ensures History(later, adoptions, c) == History(ts, adoptions, c)
    ensures Fold(b, later, adoptions) == Fold(b, ts, adoptions)
  {
    if adoptions != [] {
      var n := |adoptions| - 1;
      HistoryInLargerStore(b, ts, later, adoptions[..n], c);
      var id := adoptions[n].target.id;
      if id in ts { assert TransitionId(ts[id]) == id == TransitionId(later[id]); }
    }
  }

  // ---------------------------------------------------------------- a removed clause, at an input

  function RemovalOf(b: Baseline, c: string, source: SourceReference): Transition {
    Transition(b.project, b.issue, BaselineRef(b), c, Remove, "", Binding(FromBaseline, BaselineRef(b)), None, false,
               source, "")
  }

  /** What the propose route builds to add a clause the view does not list. */
  function AdditionOf(b: Baseline, body: Clause, source: SourceReference): Transition {
    Transition(b.project, b.issue, BaselineRef(b), body.id, Add, "", Binding(FromBaseline, BaselineRef(b)),
               Some(body), false, source, "")
  }

  ghost predicate Activates(b: Baseline, a: Adoption) {
    a.project == b.project && a.issue == b.issue && a.target == BaselineRef(b)
  }

  lemma ActivationFolds(b: Baseline, ts: Transitions, on: Adoption)
    requires DistinctIds(b.clauses) && Activates(b, on)
    ensures Fold(b, ts, [on]).Ok?
  {
    assert [] + [on] == [on];
    FoldOfExtension(b, ts, [], on);
    NextFoldsExactlyWhenAdmissible(b, ts, [], on);
  }

  lemma RemovalFolds(b: Baseline, ts: Transitions, on: Adoption, off: Adoption, t: Transition)
    requires DistinctIds(b.clauses) && Activates(b, on) && Named(b.clauses, t.clauseId).Some?
    requires t == RemovalOf(b, t.clauseId, t.source) && TransitionId(t) in ts && Adopts(b, off, t)
    ensures Fold(b, ts, [on, off]).Ok? && Fold(b, ts, [on, off]).value.activated
    ensures Removed(Fold(b, ts, [on, off]).value, t.clauseId)
    ensures Head(b, ts, [on, off], t.clauseId) == Some(TransitionRef(TransitionId(t)))
  {
    ActivationFolds(b, ts, on);
    assert ts[TransitionId(t)] == t by { assert TransitionId(ts[TransitionId(t)]) == TransitionId(t); }
    assert on in [on] && [on][..0] == [] && [on, off][..1] == [on] && [on] + [off] == [on, off];
    assert History(ts, [on], t.clauseId) == [];
    assert Head(b, ts, [on], t.clauseId) == Some(BaselineRef(b));
    FoldOfExtension(b, ts, [on], off);
    NextFoldsExactlyWhenAdmissible(b, ts, [on], off);
    assert History(ts, [on, off], t.clauseId) == [TransitionId(t)];
    FoldRepresentsClause(b, ts, [on, off], t.clauseId);
  }

  /** The baseline adopted and one of its clauses removed: the propose route builds a
      transition that adds the clause again, and the fold refuses its adoption. */
  lemma RemovedClauseStaysOut(
    b: Baseline, ts: Transitions, on: Adoption, off: Adoption, again: Adoption, removal: Transition,
    addition: Transition)
    requires DistinctIds(b.clauses) && Activates(b, on) && Named(b.clauses, removal.clauseId).Some?
    requires removal == RemovalOf(b, removal.clauseId, removal.source) && Adopts(b, off, removal)
    requires addition.proposed.Some? && addition.clauseId == removal.clauseId && !addition.proposed.value.original
    requires addition == AdditionOf(b, addition.proposed.value, addition.source) && Adopts(b, again, addition)
    requires TransitionId(removal) in ts && TransitionId(addition) in ts
    ensures Fold(b, ts, [on, off]).Ok?
    ensures var st := Fold(b, ts, [on, off]).value;
            && Removed(st, removal.clauseId)
            && ProposedFrom(b, ts, Effective(st), addition)
            && FoldStep(b, ts, st, again).Err?
  {
    RemovalFolds(b, ts, on, off, removal);
    var st := Fold(b, ts, [on, off]).value;
    assert removal.clauseId !in Effective(st);
    assert ts[TransitionId(addition)] == addition by {
      assert TransitionId(ts[TransitionId(addition)]) == TransitionId(addition);
    }
    assert again.target != on.target && again.target != off.target;
    NextFoldsExactlyWhenAdmissible(b, ts, [on, off], again);
  }

  const SOURCE := SourceReference("url", true, OriginalIssue)

  const EXAMPLE := Baseline("p", 1, SOURCE, [Clause("c", RequiredEvidence, "", {Merge}, "scope", "", true)])

  function ExampleAdoption(target: Ref): Adoption {
    Adoption("p", 1, target, HUMAN_AUTHORITY, SOURCE, GovernanceRecord(GovernanceCore("", true, "url", 1), None),
             "", "")
  }

  function Committed(t: Transition, u: Transition): (m: Transitions)
    ensures TransitionId(t) in m && TransitionId(u) in m
  {
    map[TransitionId(t) := t, TransitionId(u) := u]
  }

  /** One such lineage: a baseline of one clause, its removal, and its addition. */
  lemma ARemovedClauseStaysOut()
    ensures var body := Clause("c", RequiredEvidence, "", {Merge}, "scope", "", false);
            var (removal, addition) := (RemovalOf(EXAMPLE, "c", SOURCE), AdditionOf(EXAMPLE, body, SOURCE));
            var ts := Committed(removal, addition);
            var lineage := [ExampleAdoption(BaselineRef(EXAMPLE)),
                            ExampleAdoption(TransitionRef(TransitionId(removal)))];
            && Fold(EXAMPLE, ts, lineage).Ok?
            && Removed(Fold(EXAMPLE, ts, lineage).value, "c")
            && ProposedFrom(EXAMPLE, ts, Effective(Fold(EXAMPLE, ts, lineage).value), addition)
            && Fold(EXAMPLE, ts, lineage + [ExampleAdoption(TransitionRef(TransitionId(addition)))]).Err?
  {
    var body := Clause("c", RequiredEvidence, "", {Merge}, "scope", "", false);
    var (removal, addition) := (RemovalOf(EXAMPLE, "c", SOURCE), AdditionOf(EXAMPLE, body, SOURCE));
    var (on, off) := (ExampleAdoption(BaselineRef(EXAMPLE)), ExampleAdoption(TransitionRef(TransitionId(removal))));
    var again := ExampleAdoption(TransitionRef(TransitionId(addition)));
    RemovedClauseStaysOut(EXAMPLE, Committed(removal, addition), on, off, again, removal, addition);
    FoldOfExtension(EXAMPLE, Committed(removal, addition), [on, off], again);
  }

  // ---------------------------------------------------------------- the impact preview

  datatype Preview = Preview(
    before: seq<EffectiveClause>, after: seq<EffectiveClause>,
    newBlockers: seq<(string, Gate)>, removedBlockers: seq<(string, Gate)>)

  /** The field a gate is written under. */
  function FieldName(g: Gate): string {
    match g
    case Implementation => "implementation"
    case StructuralReview => "structural_review"
    case Merge => "merge"
    case IssueClosure => "issue_closure"
    case PhaseCompletion => "phase_completion"
  }

  /** The five gates, by field name. */
  const GATES := [Implementation, IssueClosure, Merge, PhaseCompletion, StructuralReview]

  lemma EveryGateIsListed(g: Gate)
    ensures g in GATES
  {
    match g
    case Implementation => assert GATES[0] == g;
    case IssueClosure => assert GATES[1] == g;
    case Merge => assert GATES[2] == g;
    case PhaseCompletion => assert GATES[3] == g;
    case StructuralReview => assert GATES[4] == g;
  }

  lemma FirstFieldsAreInOrder()
    ensures StringLe("implementation", "issue_closure")
  {
    assert "issue_closure"[1..] == "ssue_closure" && "implementation"[1..] == "mplementation";
  }

  predicate FieldBefore(g: Gate, h: Gate) { g != h && StringLe(FieldName(g), FieldName(h)) }

  lemma FieldsAreInOrder()
    ensures FieldBefore(Implementation, IssueClosure) && FieldBefore(Implementation, Merge)
    ensures FieldBefore(Implementation, PhaseCompletion) && FieldBefore(Implementation, StructuralReview)
    ensures FieldBefore(IssueClosure, Merge) && FieldBefore(IssueClosure, PhaseCompletion)
    ensures FieldBefore(IssueClosure, StructuralReview) && FieldBefore(Merge, PhaseCompletion)
    ensures FieldBefore(Merge, StructuralReview) && FieldBefore(PhaseCompletion, StructuralReview)
  {
    FirstFieldsAreInOrder();
  }

  lemma AllPairsOfFive<T>(xs: seq<T>, before: (T, T) -> bool)
    requires |xs| == 5
    requires before(xs[0], xs[1]) && before(xs[0], xs[2]) && before(xs[0], xs[3]) && before(xs[0], xs[4])
    requires before(xs[1], xs[2]) && before(xs[1], xs[3]) && before(xs[1], xs[4])
    requires before(xs[2], xs[3]) && before(xs[2], xs[4]) && before(xs[3], xs[4])
    ensures forall i, j :: 0 <= i < j < 5 ==> before(xs[i], xs[j])
  {
  }

  lemma GatesAreInOrder()
    ensures GatesInOrder(GATES)
    ensures forall g: Gate :: g in GATES
  {
    forall g: Gate ensures g in GATES { EveryGateIsListed(g); }
    FieldsAreInOrder();
    AllPairsOfFive(GATES, (g, h) => FieldBefore(g, h));
  }

  /** The blockers of clause c on these gates, ordered by field name. */
  function OrderedBlockers(c: string, gates: set<Gate>): seq<(string, Gate)> { BlockersAmong(c, gates, GATES) }

  function BlockersAmong(c: string, gates: set<Gate>, order: seq<Gate>): seq<(string, Gate)> {
    if order == [] then []
    else
      var n := |order| - 1;
      BlockersAmong(c, gates, order[..n]) + if order[n] in gates then [(c, order[n])] else []
  }

  /** Listed by clause and field name, nothing twice. */
  ghost predicate ListedInOrder(xs: seq<(string, Gate)>, c: string) {
    && (forall i :: 0 <= i < |xs| ==> xs[i].0 == c)
    && forall i, j :: 0 <= i < j < |xs| ==>
         xs[i].1 != xs[j].1 && StringLe(FieldName(xs[i].1), FieldName(xs[j].1))
  }

  ghost predicate GatesInOrder(order: seq<Gate>) {
    forall i, j :: 0 <= i < j < |order| ==> FieldBefore(order[i], order[j])
  }

  lemma {:induction false} BlockersAmongAre(c: string, gates: set<Gate>, order: seq<Gate>)
    requires GatesInOrder(order)
    ensures forall x :: x in BlockersAmong(c, gates, order) <==> x.0 == c && x.1 in gates && x.1 in order
    ensures ListedInOrder(BlockersAmong(c, gates, order), c)
  {
    if order != [] {
      var n := |order| - 1;
      BlockersAmongAre(c, gates, order[..n]);
      var before := BlockersAmong(c, gates, order[..n]);
      assert order == order[..n] + [order[n]];
      forall i | 0 <= i < |before|
        ensures before[i].1 != order[n] && StringLe(FieldName(before[i].1), FieldName(order[n]))
      {
        assert before[i] in before;
        var k :| 0 <= k < n && order[k] == before[i].1;
      }
      if order[n] in gates { OneMoreListed(before, c, order[n]); }
    }
  }

  lemma OneMoreListed(xs: seq<(string, Gate)>, c: string, g: Gate)
    requires ListedInOrder(xs, c)
    requires forall i :: 0 <= i < |xs| ==> xs[i].1 != g && StringLe(FieldName(xs[i].1), FieldName(g))
    ensures ListedInOrder(xs + [(c, g)], c)
  {
  }

  lemma OrderedBlockersAre(c: string, gates: set<Gate>)
    ensures forall x :: x in OrderedBlockers(c, gates) <==> x.0 == c && x.1 in gates
    ensures ListedInOrder(OrderedBlockers(c, gates), c)
  {
    GatesAreInOrder();
    BlockersAmongAre(c, gates, GATES);
  }

  /** The table of clauses a candidate transition would leave, as the preview edits it. */
  function PreviewTable(before: map<string, EffectiveClause>, t: Transition): map<string, EffectiveClause> {
    var c := t.clauseId;
    if t.operation == Remove || t.proposed.None? then before - {c}
    else
      var chain := if c in before then before[c].provenance else [];
      before[c := InForce(c, t.proposed.value, chain + [TransitionRef(TransitionId(t))])]
  }

  function PriorGates(before: map<string, EffectiveClause>, t: Transition): set<Gate> {
    if t.clauseId in before then before[t.clauseId].blocks else {}
  }

  function ProposedGates(t: Transition): set<Gate> {
    if t.proposed.Some? then t.proposed.value.blocks else {}
  }

  /** The gates the clause would newly block, and those it would no longer block. */
  function AddedBlockers(before: map<string, EffectiveClause>, t: Transition): set<(string, Gate)> {
    set g | g in ProposedGates(t) - PriorGates(before, t) :: (t.clauseId, g)
  }

  function LiftedBlockers(before: map<string, EffectiveClause>, t: Transition): set<(string, Gate)> {
    set g | g in PriorGates(before, t) - ProposedGates(t) :: (t.clauseId, g)
  }

  /** Edits a copy of the before-table in place and lists it in key order. */
  method BuildImpactPreview(view: View, t: Transition) returns (p: Preview)
    requires t.operation != Remove ==> t.proposed.Some?
    ensures p.before == view.clauses
    ensures p.after == InKeyOrder(PreviewTable(ById(view.clauses), t))
    ensures forall x :: x in p.newBlockers <==> x in AddedBlockers(ById(view.clauses), t)
    ensures forall x :: x in p.removedBlockers <==> x in LiftedBlockers(ById(view.clauses), t)
    ensures ListedInOrder(p.newBlockers, t.clauseId) && ListedInOrder(p.removedBlockers, t.clauseId)
  {
    var c := t.clauseId;
    var before := ById(view.clauses);
    var after := before;
    if t.operation == Remove {
      after := after - {c};
    } else {
      var chain := if c in before then before[c].provenance else [];
      after := after[c := InForce(c, t.proposed.value, chain + [TransitionRef(TransitionId(t))])];
    }
    var listed := ListTable(after);
    var (prior, proposed) := (PriorGates(before, t), ProposedGates(t));
    OrderedBlockersAre(c, proposed - prior);
    OrderedBlockersAre(c, prior - proposed);
    p := Preview(view.clauses, listed, OrderedBlockers(c, proposed - prior), OrderedBlockers(c, prior - proposed));
  }

  /** What `_verify_candidate_transition_for_preview` establishes. */
  predicate VerifiedCandidate(b: Baseline, ts: Transitions, byId: map<string, EffectiveClause>, t: Transition) {
    && t.project == b.project && t.issue == b.issue && t.baseline.id == BaselineRef(b).id
    && var prior := ExpectedPrior(b, ts, byId, t.clauseId);
    && prior.Ok? && t.prior == prior.value.0 && Classify(prior.value.1, t.proposed) == Ok(t.operation)
  }

  /** Adopting a verified candidate on a clause that was never removed succeeds. */
  lemma VerifiedCandidateFolds(
      b: Baseline, ts: Transitions, adoptions: seq<Adoption>, st: FoldState, t: Transition, a: Adoption)
    requires Fold(b, ts, adoptions) == Ok(st) && st.activated
    requires VerifiedCandidate(b, ts, Effective(st), t)
    requires TransitionId(t) in ts && a !in adoptions && Adopts(b, a, t)
    ensures FoldStep(b, ts, st, a).Ok? <==> !Removed(st, t.clauseId)
  {
    FoldRepresentsClause(b, ts, adoptions, t.clauseId);
    ExpectedPriorReadsTheHead(b, ts, adoptions, st, t.clauseId);
    assert ts[TransitionId(t)] == t by { assert TransitionId(ts[TransitionId(t)]) == TransitionId(t); }
    NextFoldsExactlyWhenAdmissible(b, ts, adoptions, a);
  }

  /** The preview table of a verified candidate is what adopting it really
      leaves in force, except that the chain of an added clause lacks the
      leading baseline. */
  lemma PreviewIsTheFold(
      b: Baseline, ts: Transitions, adoptions: seq<Adoption>, st: FoldState, t: Transition, a: Adoption)
    requires Fold(b, ts, adoptions) == Ok(st) && st.activated
    requires VerifiedCandidate(b, ts, Effective(st), t) && !Removed(st, t.clauseId)
    requires TransitionId(t) in ts && a !in adoptions && Adopts(b, a, t)
    ensures FoldStep(b, ts, st, a).Ok?
    ensures var st' := FoldStep(b, ts, st, a).value;
            && st'.provenance.Keys == st'.live.Keys
            && var (previewed, actual) := (PreviewTable(Effective(st), t), Effective(st'));
            if t.operation != Add then previewed == actual
            else
              && previewed.Keys == actual.Keys
              && (forall c :: c in actual && c != t.clauseId ==> previewed[c] == actual[c])
              && t.clauseId in actual
              && actual[t.clauseId].provenance == [BaselineRef(b)] + previewed[t.clauseId].provenance
              && actual[t.clauseId] == previewed[t.clauseId].(provenance := actual[t.clauseId].provenance)
  {
    var c := t.clauseId;
    VerifiedCandidateFolds(b, ts, adoptions, st, t, a);
    FoldRepresentsClause(b, ts, adoptions, c);
    var st1 := st.(seen := st.seen + {AdoptionId(a)});
    assert ts[TransitionId(t)] == t by { assert TransitionId(ts[TransitionId(t)]) == TransitionId(t); }
    var st' := FoldStep(b, ts, st, a).value;
    assert FoldTransition(b, st1, TransitionId(t), t).Ok?;
    TransitionEffect(b, st1, TransitionId(t), t);
    ExpectedPriorReadsTheHead(b, ts, adoptions, st, c);
    assert t.operation == Add <==> c !in st.live;
    PreviewMatchesEffect(b, st, st', t);
  }

  lemma PreviewMatchesEffect(b: Baseline, st: FoldState, st': FoldState, t: Transition)
    requires st.provenance.Keys == st.live.Keys && st'.provenance.Keys == st'.live.Keys
    requires t.operation == Remove <==> t.proposed.None?
    requires t.operation == Add <==> t.clauseId !in st.live
    requires Lookup(st'.live, t.clauseId) == t.proposed
    requires t.proposed.Some? ==>
               st'.provenance[t.clauseId] ==
               (if t.clauseId in st.live then st.provenance[t.clauseId] else [BaselineRef(b)]) +
                 [TransitionRef(TransitionId(t))]
    requires forall x :: x != t.clauseId ==>
               Lookup(st'.live, x) == Lookup(st.live, x) && Lookup(st'.provenance, x) == Lookup(st.provenance, x)
    ensures var (previewed, actual) := (PreviewTable(Effective(st), t), Effective(st'));
            if t.operation != Add then previewed == actual
            else
              && previewed.Keys == actual.Keys
              && (forall x :: x in actual && x != t.clauseId ==> previewed[x] == actual[x])
              && t.clauseId in actual
              && actual[t.clauseId].provenance == [BaselineRef(b)] + previewed[t.clauseId].provenance
              && actual[t.clauseId] == previewed[t.clauseId].(provenance := actual[t.clauseId].provenance)
  {
    var (previewed, actual) := (PreviewTable(Effective(st), t), Effective(st'));
    forall x | x != t.clauseId ensures Lookup(previewed, x) == Lookup(actual, x) {
      assert Lookup(st'.live, x) == Lookup(st.live, x) && Lookup(st'.provenance, x) == Lookup(st.provenance, x);
    }
    if t.operation != Add {
      assert Lookup(previewed, t.clauseId) == Lookup(actual, t.clauseId);
      LookupDetermines(previewed, actual);
    } else {
      forall x ensures x in previewed <==> x in actual {
        if x != t.clauseId { assert Lookup(previewed, x) == Lookup(actual, x); }
      }
      forall x | x in actual && x != t.clauseId ensures previewed[x] == actual[x] {
        assert Lookup(previewed, x) == Lookup(actual, x);
      }
      assert previewed.Keys == actual.Keys;
    }
  }

  /** Clause c is in force and blocks gate g. */
  ghost predicate Blocks(m: map<string, EffectiveClause>, c: string, g: Gate) { c in m && g in m[c].blocks }

  /** The previewed delta is exact: nothing is reported new that was in force or
      lifted that was not, and before + new - lifted is what blocks afterwards. */
  lemma BlockerDeltaIsExact(before: map<string, EffectiveClause>, t: Transition, c: string, g: Gate)
    requires t.operation == Remove <==> t.proposed.None?
    ensures (c, g) in AddedBlockers(before, t) ==> !Blocks(before, c, g)
    ensures (c, g) in LiftedBlockers(before, t) ==> Blocks(before, c, g)
    ensures Blocks(PreviewTable(before, t), c, g) <==>
            (Blocks(before, c, g) || (c, g) in AddedBlockers(before, t)) && (c, g) !in LiftedBlockers(before, t)
  {
  }

  /** A previewed listing against the listing that came true: the same, except that the
      chain of an added clause lacks the leading baseline. */
  ghost predicate CameTrue(b: Baseline, t: Transition, previewed: seq<EffectiveClause>, actual: seq<EffectiveClause>) {
    if t.operation != Add then previewed == actual
    else
      && |previewed| == |actual|
      && forall i :: 0 <= i < |actual| ==>
           actual[i] == if actual[i].id != t.clauseId then previewed[i]
                        else previewed[i].(provenance := [BaselineRef(b)] + previewed[i].provenance)
  }

  lemma ListingsAgree(
      b: Baseline, t: Transition, previewed: map<string, EffectiveClause>, actual: map<string, EffectiveClause>)
    requires previewed.Keys == actual.Keys && t.operation == Add && t.clauseId in actual
    requires forall c :: c in actual ==> actual[c].id == c
    requires forall c :: c in actual && c != t.clauseId ==> previewed[c] == actual[c]
    requires actual[t.clauseId] ==
             previewed[t.clauseId].(provenance := [BaselineRef(b)] + previewed[t.clauseId].provenance)
    ensures CameTrue(b, t, InKeyOrder(previewed), InKeyOrder(actual))
  {
    var keys := SortedStrings(actual.Keys);
    forall i | 0 <= i < |keys| ensures keys[i] in actual { assert keys[i] in actual.Keys; }
  }

  /** What the preview of a verified candidate lists is what the view lists once the
      candidate, committed since or not, is adopted. */
  lemma PreviewComesTrue(
    b: Baseline, ts: Transitions, adoptions: seq<Adoption>, st: FoldState, t: Transition, later: Transitions,
    a: Adoption)
    requires Fold(b, ts, adoptions) == Ok(st) && st.activated
    requires VerifiedCandidate(b, ts, Effective(st), t) && !Removed(st, t.clauseId)
    requires (forall id :: id in ts ==> id in later) && TransitionId(t) in later && a !in adoptions && Adopts(b, a, t)
    ensures FoldStep(b, later, st, a).Ok?
    ensures CameTrue(b, t, InKeyOrder(PreviewTable(Effective(st), t)),
                     ViewOf(b, FoldStep(b, later, st, a).value).clauses)
  {
    HistoryInLargerStore(b, ts, later, adoptions, t.clauseId);
    CandidateInLargerStore(b, ts, later, Effective(st), t);
    PreviewIsTheFold(b, later, adoptions, st, t, a);
    var st' := FoldStep(b, later, st, a).value;
    if t.operation == Add { ListingsAgree(b, t, PreviewTable(Effective(st), t), Effective(st')); }
  }

  lemma CandidateInLargerStore(
      b: Baseline, ts: Transitions, later: Transitions, byId: map<string, EffectiveClause>, t: Transition)
    requires VerifiedCandidate(b, ts, byId, t) && forall id :: id in ts ==> id in later
    ensures VerifiedCandidate(b, later, byId, t)
  {
    var c := t.clauseId;
    if c in byId && byId[c].provenance != [] {
      var id := byId[c].provenance[|byId[c].provenance| - 1].id;
      if id in ts { assert TransitionId(ts[id]) == id == TransitionId(later[id]); }
    }
  }

  // ---------------------------------------------------------------- the preview, read off its listings

  /** From one listing to the other exactly this transition's clause changes: it goes, or
      it carries the proposed body and one more link of its chain. */
  ghost predicate ChangesOneClause(before: seq<EffectiveClause>, after: seq<EffectiveClause>, t: Transition) {
    && (forall i, j :: 0 <= i < j < |after| ==> after[i].id != after[j].id && StringLe(after[i].id, after[j].id))
    && (forall e: EffectiveClause :: e.id != t.clauseId ==> (e in after <==> e in before))
    && (t.proposed.Some? <==> exists e :: e in after && e.id == t.clauseId)
    && forall e :: e in after && e.id == t.clauseId ==> t.proposed.Some? && CarriesNext(before, e, t)
  }

  ghost predicate CarriesNext(before: seq<EffectiveClause>, e: EffectiveClause, t: Transition)
    requires t.proposed.Some?
  {
    var link := Ref(TransitionKind, TransitionId(t));
    && (forall d :: d in before && d.id == e.id ==> Carries(e, t.proposed.value, d.provenance + [link]))
    && ((forall d :: d in before ==> d.id != e.id) ==> Carries(e, t.proposed.value, [link]))
  }

  /** The gates the proposed body blocks and no body listed for the clause did. */
  ghost predicate NewlyBlocks(before: seq<EffectiveClause>, t: Transition, x: (string, Gate)) {
    && x.0 == t.clauseId && t.proposed.Some? && x.1 in t.proposed.value.blocks
    && forall d :: d in before && d.id == t.clauseId ==> x.1 !in d.blocks
  }

  /** The gates the body listed for the clause blocked and the proposed one does not. */
  ghost predicate NoLongerBlocks(before: seq<EffectiveClause>, t: Transition, x: (string, Gate)) {
    && x.0 == t.clauseId && (exists d :: d in before && d.id == t.clauseId && x.1 in d.blocks)
    && (t.proposed.Some? ==> x.1 !in t.proposed.value.blocks)
  }

  lemma ListedAre(m: map<string, EffectiveClause>)
    requires forall c :: c in m ==> m[c].id == c
    ensures forall e: EffectiveClause :: e in InKeyOrder(m) <==> e.id in m && m[e.id] == e
  {
    var xs := InKeyOrder(m);
    ListingHoldsEntries(m);
    forall e: EffectiveClause ensures e in xs <==> e.id in m && m[e.id] == e {
      if e in xs {
        var i :| 0 <= i < |xs| && xs[i] == e;
      }
      if e.id in m && m[e.id] == e {
        var i :| 0 <= i < |xs| && xs[i].id == e.id;
        assert xs[i] == m[e.id];
      }
    }
  }

  lemma PreviewedEntry(m: map<string, EffectiveClause>, t: Transition)
    requires (forall c :: c in m ==> m[c].id == c) && t.operation != Remove && t.proposed.Some?
    ensures t.clauseId in PreviewTable(m, t) && CarriesNext(InKeyOrder(m), PreviewTable(m, t)[t.clauseId], t)
  {
    ListedAre(m);
    if t.clauseId in m { assert m[t.clauseId] in InKeyOrder(m); }
  }

  lemma PreviewedTable(m: map<string, EffectiveClause>, t: Transition)
    requires (forall c :: c in m ==> m[c].id == c) && (t.operation == Remove <==> t.proposed.None?)
    ensures var next := PreviewTable(m, t);
            && (forall c :: c in next ==> next[c].id == c)
            && (forall c :: c != t.clauseId ==> (c in next <==> c in m) && (c in m ==> next[c] == m[c]))
            && (t.clauseId in next <==> t.proposed.Some?)
  {
  }

  lemma PreviewedListing(m: map<string, EffectiveClause>, t: Transition)
    requires (forall c :: c in m ==> m[c].id == c) && (t.operation == Remove <==> t.proposed.None?)
    ensures ChangesOneClause(InKeyOrder(m), InKeyOrder(PreviewTable(m, t)), t)
  {
    var next := PreviewTable(m, t);
    PreviewedTable(m, t);
    ListedAre(m);
    ListedAre(next);
    ListingHoldsEntries(next);
    if t.proposed.Some? {
      PreviewedEntry(m, t);
      assert next[t.clauseId] in InKeyOrder(next);
    }
  }

  lemma PreviewedBlockers(m: map<string, EffectiveClause>, t: Transition)
    requires forall c :: c in m ==> m[c].id == c
    ensures forall x :: x in AddedBlockers(m, t) <==> NewlyBlocks(InKeyOrder(m), t, x)
    ensures forall x :: x in LiftedBlockers(m, t) <==> NoLongerBlocks(InKeyOrder(m), t, x)
  {
    ListedAre(m);
    forall g ensures g in PriorGates(m, t) <==>
                     exists d :: d in InKeyOrder(m) && d.id == t.clauseId && g in d.blocks {
      if g in PriorGates(m, t) { assert m[t.clauseId] in InKeyOrder(m); }
    }
    forall x ensures x in AddedBlockers(m, t) <==> NewlyBlocks(InKeyOrder(m), t, x) {}
    forall x ensures x in LiftedBlockers(m, t) <==> NoLongerBlocks(InKeyOrder(m), t, x) {}
  }

  /** The candidate is of the lineage, bound where its clause stands, and truthfully
      labelled. */
  ghost predicate MayPreview(b: Baseline, ts: Transitions, adoptions: seq<Adoption>, t: Transition) {
    && t.project == b.project && t.issue == b.issue && t.baseline.id == BaselineId(b.project, b.issue)
    && t.prior == BindingOf(b, ts, adoptions, t.clauseId)
    && Classify(LastBody(b, ts, adoptions, t.clauseId), t.proposed) == Ok(t.operation)
  }

  /** Why a candidate is not previewed. */
  ghost function WhyNotPreviewed(b: Baseline, ts: Transitions, adoptions: seq<Adoption>, t: Transition): PolicyError {
    if t.project != b.project || t.issue != b.issue || t.baseline.id != BaselineId(b.project, b.issue)
       || t.prior != BindingOf(b, ts, adoptions, t.clauseId)
    then LineageConflict
    else if t.proposed.None? && LastBody(b, ts, adoptions, t.clauseId).None? then InvalidInput
    else UndeclaredChange
  }

  method VerifyCandidate(
      b: Baseline, ts: Transitions, ghost adoptions: seq<Adoption>, ghost st: FoldState,
      byId: map<string, EffectiveClause>, t: Transition)
    returns (refusal: Option<PolicyError>)
    requires Fold(b, ts, adoptions) == Ok(st) && byId == Effective(st)
    ensures refusal.None? <==> MayPreview(b, ts, adoptions, t)
    ensures refusal.Some? ==> refusal.value == WhyNotPreviewed(b, ts, adoptions, t)
    ensures refusal.None? ==> VerifiedCandidate(b, ts, byId, t)
  {
    PriorIsRead(b, ts, adoptions, st, t.clauseId);
    if t.project != b.project || t.issue != b.issue || t.baseline.id != BaselineRef(b).id {
      return Some(LineageConflict);
    }
    var prior := ExpectedPrior(b, ts, byId, t.clauseId);
    if prior.Err? {
      assert false;
    }
    if t.prior != prior.value.0 {
      return Some(LineageConflict);
    }
    var computed := Classify(prior.value.1, t.proposed);
    LabelsAreExact(prior.value.1, t.proposed);
    if computed.Err? {
      return Some(computed.error);
    }
    if computed.value != t.operation {
      return Some(UndeclaredChange);
    }
    return None;
  }

  /** The listings and blocker lists of a preview, told from each other. */
  ghost predicate PreviewsExactly(p: Preview, t: Transition) {
    && ChangesOneClause(p.before, p.after, t)
    && (forall x :: x in p.newBlockers <==> NewlyBlocks(p.before, t, x))
    && (forall x :: x in p.removedBlockers <==> NoLongerBlocks(p.before, t, x))
    && ListedInOrder(p.newBlockers, t.clauseId) && ListedInOrder(p.removedBlockers, t.clauseId)
  }

  /** Whoever adopts the candidate next leaves in force what was previewed. */
  ghost predicate ComesTrue(
      b: Baseline, ts: Transitions, adoptions: seq<Adoption>, st: FoldState, t: Transition, after: seq<EffectiveClause>)
  {
    forall later: Transitions, a | ts.Keys <= later.Keys && TransitionId(t) in later && a !in adoptions &&
      Adopts(b, a, t) ::
      && FoldStep(b, later, st, a).Ok?
      && CameTrue(b, t, after, ViewOf(b, FoldStep(b, later, st, a).value).clauses)
  }

  lemma PreviewWillComeTrue(
      b: Baseline, ts: Transitions, adoptions: seq<Adoption>, st: FoldState, t: Transition, after: seq<EffectiveClause>)
    requires Fold(b, ts, adoptions) == Ok(st) && st.activated && !Removed(st, t.clauseId)
    requires VerifiedCandidate(b, ts, Effective(st), t) && after == InKeyOrder(PreviewTable(Effective(st), t))
    ensures ComesTrue(b, ts, adoptions, st, t, after)
  {
    forall later: Transitions, a | ts.Keys <= later.Keys && TransitionId(t) in later && a !in adoptions &&
      Adopts(b, a, t)
      ensures FoldStep(b, later, st, a).Ok?
      ensures CameTrue(b, t, after, ViewOf(b, FoldStep(b, later, st, a).value).clauses)
    {
      PreviewComesTrue(b, ts, adoptions, st, t, later, a);
    }
  }

  lemma BuiltPreviewIsExact(m: map<string, EffectiveClause>, t: Transition, p: Preview)
    requires (forall c :: c in m ==> m[c].id == c) && (t.operation == Remove <==> t.proposed.None?)
    requires p.before == InKeyOrder(m) && p.after == InKeyOrder(PreviewTable(m, t))
    requires forall x :: x in p.newBlockers <==> x in AddedBlockers(m, t)
    requires forall x :: x in p.removedBlockers <==> x in LiftedBlockers(m, t)
    requires ListedInOrder(p.newBlockers, t.clauseId) && ListedInOrder(p.removedBlockers, t.clauseId)
    ensures PreviewsExactly(p, t)
  {
    PreviewedListing(m, t);
    PreviewedBlockers(m, t);
  }

  /** The read-only preview call: derive, verify the candidate, preview it. It lists what
      the lineage leaves in force and exactly the candidate's change of it, and whoever
      adopts the candidate next leaves in force what was previewed. */
  method PreviewTransition(b: Baseline, ts: Transitions, adoptions: seq<Adoption>, t: Transition)
    returns (r: Result<Preview, PolicyError>)
    ensures r.Ok? <==> Fold(b, ts, adoptions).Ok? && MayPreview(b, ts, adoptions, t)
    ensures r.Err? ==>
              r.error ==
              if Fold(b, ts, adoptions).Err? then Fold(b, ts, adoptions).error else WhyNotPreviewed(b, ts, adoptions, t)
    ensures r.Ok? ==>
              var st := Fold(b, ts, adoptions).value;
              && r.value.before == ViewOf(b, st).clauses && PreviewsExactly(r.value, t)
              && (st.activated && !Removed(st, t.clauseId) ==> ComesTrue(b, ts, adoptions, st, t, r.value.after))
  {
    var derived := DeriveEffectivePolicy(b, ts, adoptions);
    if derived.Err? {
      return Err(derived.error);
    }
    ghost var st := Fold(b, ts, adoptions).value;
    var byId := ById(derived.value.clauses);
    ViewReadsBack(b, st);
    var refusal := VerifyCandidate(b, ts, adoptions, st, byId, t);
    if refusal.Some? {
      return Err(refusal.value);
    }
    LabelsAreExact(LastBody(b, ts, adoptions, t.clauseId), t.proposed);
    var preview := BuildImpactPreview(derived.value, t);
    BuiltPreviewIsExact(Effective(st), t, preview);
    r := Ok(preview);
    if st.activated && !Removed(st, t.clauseId) { PreviewWillComeTrue(b, ts, adoptions, st, t, preview.after); }
  }
}
