/** What canonical trees are used for: the identity of a difference and the search
    for duplicate set members. */
module CanonicalIdentity {
  import opened Results
  import opened Ordering
  import opened CanonicalTree

  // ---------------------------------------------------------------- difference identity

  /** The fields a difference is identified by, and two that it is not. */
  datatype Difference = Difference(
    projectId: Json, objectiveFingerprint: Json, targetPredicateRef: Json, subject: Json, observationScope: Json,
    effectiveBoundary: Json, normalizedTargetState: Json, structuralDifference: Json, closurePolicyFingerprint: Json,
    normalizedObservedState: Json, closurePolicyVersion: Json)

  function Identity(d: Difference): map<string, Json> {
    map["project_id" := d.projectId,
        "objective_semantic_fingerprint" := d.objectiveFingerprint,
        "target_predicate_ref" := d.targetPredicateRef,
        "subject" := d.subject,
        "observation_scope" := d.observationScope,
        "effective_boundary" := d.effectiveBoundary,
        "normalized_target_state" := d.normalizedTargetState,
        "normalized_structural_difference" := d.structuralDifference,
        "closure_policy_semantic_fingerprint" := d.closurePolicyFingerprint,
        "identity_profile" := Text("MANOSUBE-DIFFERENCE-SHA256-0.1")]
  }

  /** `_difference_id`; the digest is a parameter. */
  ghost function DifferenceId(d: Difference, key: Key, digest: string -> string): Result<string, TypeFailure> {
    var canonical :- CanonicalSemantic(Object(Identity(d)), key);
    Ok("D-" + digest(key(canonical)))
  }

  /** Equal up to set order, a set's members being what iterating them yields. */
  ghost predicate Same(v: Json, w: Json) { Equiv(SpelledOut(v), SpelledOut(w)) }

  ghost predicate SameIdentity(d: Difference, e: Difference) {
    && Same(d.projectId, e.projectId)
    && Same(d.objectiveFingerprint, e.objectiveFingerprint)
    && Same(d.targetPredicateRef, e.targetPredicateRef)
    && Same(d.subject, e.subject)
    && Same(d.observationScope, e.observationScope)
    && Same(d.effectiveBoundary, e.effectiveBoundary)
    && Same(d.normalizedTargetState, e.normalizedTargetState)
    && Same(d.structuralDifference, e.structuralDifference)
    && Same(d.closurePolicyFingerprint, e.closurePolicyFingerprint)
  }

  lemma PlainObjectsEquiv(f: map<string, Json>, g: map<string, Json>)
    requires KIND !in f && f.Keys == g.Keys
    ensures Equiv(Object(f), Object(g)) <==> forall k :: k in f ==> Equiv(f[k], g[k])
  {
  }

  ghost predicate CarriesIdentity(d: Difference, f: map<string, Json>) {
    && f.Keys == IDENTITY_FIELDS
    && f["project_id"] == d.projectId
    && f["objective_semantic_fingerprint"] == d.objectiveFingerprint
    && f["target_predicate_ref"] == d.targetPredicateRef
    && f["subject"] == d.subject
    && f["observation_scope"] == d.observationScope
    && f["effective_boundary"] == d.effectiveBoundary
    && f["normalized_target_state"] == d.normalizedTargetState
    && f["normalized_structural_difference"] == d.structuralDifference
    && f["closure_policy_semantic_fingerprint"] == d.closurePolicyFingerprint
    && f["identity_profile"] == Text("MANOSUBE-DIFFERENCE-SHA256-0.1")
  }

  lemma IdentityFields(d: Difference)
    ensures CarriesIdentity(d, Identity(d)) && KIND !in Identity(d)
  {
  }

  const IDENTITY_FIELDS := {
    "project_id", "objective_semantic_fingerprint", "target_predicate_ref", "subject", "observation_scope",
    "effective_boundary", "normalized_target_state", "normalized_structural_difference",
    "closure_policy_semantic_fingerprint", "identity_profile"}

  lemma FieldByField(p: string -> bool)
    ensures (forall k :: k in IDENTITY_FIELDS ==> p(k)) <==>
            && p("project_id")
            && p("objective_semantic_fingerprint")
            && p("target_predicate_ref")
            && p("subject")
            && p("observation_scope")
            && p("effective_boundary")
            && p("normalized_target_state")
            && p("normalized_structural_difference")
            && p("closure_policy_semantic_fingerprint")
            && p("identity_profile")
  {
  }

  lemma CarriersAgree(d: Difference, e: Difference, f: map<string, Json>, g: map<string, Json>)
    requires CarriesIdentity(d, f) && CarriesIdentity(e, g)
    ensures (forall k :: k in f ==> Same(f[k], g[k])) <==> SameIdentity(d, e)
  {
    EquivIsReflexive(Text("MANOSUBE-DIFFERENCE-SHA256-0.1"));
    FieldByField(k => k in f && k in g && Same(f[k], g[k]));
  }

  lemma PlainObjectsSame(f: map<string, Json>, g: map<string, Json>)
    requires KIND !in f && f.Keys == g.Keys
    ensures Same(Object(f), Object(g)) <==> forall k :: k in f ==> Same(f[k], g[k])
  {
    SpelledObject(f);
    SpelledObject(g);
    PlainObjectsEquiv(SpelledFields(f), SpelledFields(g));
  }

  lemma IdentitySame(d: Difference, e: Difference)
    ensures Same(Object(Identity(d)), Object(Identity(e))) <==> SameIdentity(d, e)
  {
    IdentityFields(d);
    IdentityFields(e);
    CarriersAgree(d, e, Identity(d), Identity(e));
    PlainObjectsSame(Identity(d), Identity(e));
  }

  /** Some identifying field holds a set whose members cannot be iterated. */
  ghost predicate IdentityRaises(d: Difference) {
    || Raises(d.projectId) || Raises(d.objectiveFingerprint) || Raises(d.targetPredicateRef) || Raises(d.subject)
    || Raises(d.observationScope) || Raises(d.effectiveBoundary) || Raises(d.normalizedTargetState)
    || Raises(d.structuralDifference) || Raises(d.closurePolicyFingerprint)
  }

  lemma IdentityRaisesWithAField(d: Difference, f: map<string, Json>)
    requires CarriesIdentity(d, f) && KIND !in f
    ensures Raises(Object(f)) <==> IdentityRaises(d)
  {
    FieldByField(k => k in f && !Raises(f[k]));
  }

  /** A difference has an id exactly when none of the nine identifying fields raises,
      and two share it exactly when each of the nine agrees up to the order of set
      members; no other field counts. */
  lemma DifferenceIdIdentifies(d: Difference, e: Difference, key: Key, digest: string -> string)
    requires Injective(key) && forall x, y :: digest(x) == digest(y) ==> x == y
    ensures DifferenceId(d, key, digest).Ok? <==> !IdentityRaises(d)
    ensures DifferenceId(d, key, digest).Ok? && DifferenceId(e, key, digest).Ok? ==>
              (DifferenceId(d, key, digest) == DifferenceId(e, key, digest) <==> SameIdentity(d, e))
  {
    var (a, b) := (Object(Identity(d)), Object(Identity(e)));
    IdentityFields(d);
    IdentityRaisesWithAField(d, Identity(d));
    if !Raises(a) && !Raises(b) {
      CanonicalFormsDecide(a, b, key);
      IdentitySame(d, e);
      var (x, y) := (DifferenceId(d, key, digest).value, DifferenceId(e, key, digest).value);
      assert x[2..] == digest(key(Canon(a, key))) && y[2..] == digest(key(Canon(b, key)));
    }
  }

  // ---------------------------------------------------------------- duplicate set members

  /** Two members have the same canonical bytes. */
  ghost predicate Repeats(members: seq<Json>, key: Key) {
    exists i, j :: 0 <= i < j < |members| && key(Canon(members[i], key)) == key(Canon(members[j], key))
  }

  /** `_has_recursive_set_duplicate`, on trees the canonical form accepts. */
  ghost predicate HasSetDuplicate(v: Json, key: Key)
    requires !Raises(v)
  {
    match v
    case List(items) => exists i :: 0 <= i < |items| && HasSetDuplicate(items[i], key)
    case Object(f) =>
      || (exists k :: k in f && HasSetDuplicate(f[k], key))
      || (IsSetNode(f) && Repeats(Elements(f[MEMBERS]), key))
    case _ => false
  }

  /** n is v or lies inside it. */
  ghost predicate Within(n: Json, v: Json)
    decreases v
  {
    n == v || match v
              case List(items) => exists i :: 0 <= i < |items| && Within(n, items[i])
              case Object(f) => exists k :: k in f && Within(n, f[k])
              case _ => false
  }

  /** n is a set node two of whose members are the same up to order. */
  ghost predicate RepeatsMember(n: Json) {
    n.Object? && IsSetNode(n.fields) && Iterable(n.fields[MEMBERS]) &&
    var members := Elements(n.fields[MEMBERS]);
    exists i, j :: 0 <= i < j < |members| && Same(members[i], members[j])
  }

  lemma ElementsDoNotRaise(v: Json)
    requires Iterable(v) && !Raises(v)
    ensures forall x :: x in Elements(v) ==> !Raises(x)
  {
  }

  lemma RepeatsDecides(f: map<string, Json>, key: Key)
    requires Injective(key) && IsSetNode(f) && !Raises(Object(f))
    ensures Repeats(Elements(f[MEMBERS]), key) <==> RepeatsMember(Object(f))
  {
    var xs := Elements(f[MEMBERS]);
    ElementsDoNotRaise(f[MEMBERS]);
    forall i, j | 0 <= i < |xs| && 0 <= j < |xs|
      ensures key(Canon(xs[i], key)) == key(Canon(xs[j], key)) <==> Same(xs[i], xs[j])
    {
      CanonicalFormsDecide(xs[i], xs[j], key);
    }
  }

  /** The search finds a duplicate exactly when some set node, at any depth, has two
      members that differ only in the order of set members. */
  lemma {:induction false} DuplicateMeansEquivalentMembers(v: Json, key: Key)
    requires Injective(key) && !Raises(v)
    ensures HasSetDuplicate(v, key) <==> exists n :: Within(n, v) && RepeatsMember(n)
    decreases v
  {
    match v
    case List(items) =>
      forall i | 0 <= i < |items|
        ensures HasSetDuplicate(items[i], key) <==> exists n :: Within(n, items[i]) && RepeatsMember(n)
      {
        DuplicateMeansEquivalentMembers(items[i], key);
      }
      ListWithin(items);
    case Object(f) =>
      forall k | k in f ensures HasSetDuplicate(f[k], key) <==> exists n :: Within(n, f[k]) && RepeatsMember(n) {
        DuplicateMeansEquivalentMembers(f[k], key);
      }
      if IsSetNode(f) { RepeatsDecides(f, key); }
      ObjectWithin(f);
    case _ =>
  }

  lemma ListWithin(items: seq<Json>)
    ensures (exists n :: Within(n, List(items)) && RepeatsMember(n)) <==>
            exists i :: 0 <= i < |items| && exists n :: Within(n, items[i]) && RepeatsMember(n)
  {
    if n :| Within(n, List(items)) && RepeatsMember(n) {
      var i :| 0 <= i < |items| && Within(n, items[i]);
      assert exists m :: Within(m, items[i]) && RepeatsMember(m);
    }
    if i :| 0 <= i < |items| && exists n :: Within(n, items[i]) && RepeatsMember(n) {
      var n :| Within(n, items[i]) && RepeatsMember(n);
      assert Within(n, List(items));
    }
  }

  lemma ObjectWithin(f: map<string, Json>)
    ensures (exists n :: Within(n, Object(f)) && RepeatsMember(n)) <==>
            RepeatsMember(Object(f)) || exists k :: k in f && exists n :: Within(n, f[k]) && RepeatsMember(n)
  {
    if n :| Within(n, Object(f)) && RepeatsMember(n) {
      if n != Object(f) {
        var k :| k in f && Within(n, f[k]);
        assert exists m :: Within(m, f[k]) && RepeatsMember(m);
      }
    }
    assert Within(Object(f), Object(f));
    if k :| k in f && exists n :: Within(n, f[k]) && RepeatsMember(n) {
      var n :| Within(n, f[k]) && RepeatsMember(n);
      assert Within(n, Object(f));
    }
  }

  lemma RepetitionSurvives(xs: seq<Json>, ys: seq<Json>, p: seq<nat>, key: Key)
    requires |xs| == |ys| && IsPermutation(p, |xs|) && Repeats(xs, key)
    requires forall i :: 0 <= i < |xs| ==> Canon(xs[p[i]], key) == Canon(ys[i], key)
    ensures Repeats(ys, key)
  {
    var i, j :| 0 <= i < j < |xs| && key(Canon(xs[i], key)) == key(Canon(xs[j], key));
    var k := IndexOf(p, i);
    var l := IndexOf(p, j);
    assert key(Canon(ys[k], key)) == key(Canon(ys[l], key));
  }

  /** Where no other field holds a duplicate, a set node of listed members has one
      among them or inside one, any other set node among its members. */
  lemma DuplicateAmongMembers(f: map<string, Json>, key: Key)
    requires !Raises(Object(f)) && HasSetDuplicate(Object(f), key)
    requires forall k :: k in f && !(k == MEMBERS && IsSetOfList(f)) ==> !HasSetDuplicate(f[k], key)
    ensures IsSetNode(f) && !Raises(f[MEMBERS])
    ensures Repeats(Elements(f[MEMBERS]), key) || (f[MEMBERS].List? && HasSetDuplicate(f[MEMBERS], key))
  {
  }

  /** Every set duplicate of x shows in any tree equivalent to it. */
  ghost predicate Survives(x: Json, key: Key)
    requires !Raises(x)
  {
    forall y :: !Raises(y) && Equiv(x, y) && HasSetDuplicate(x, key) ==> HasSetDuplicate(y, key)
  }

  lemma DuplicateInList(xs: seq<Json>, ys: seq<Json>, p: seq<nat>, key: Key)
    requires |xs| == |ys| && IsPermutation(p, |xs|) && forall i :: 0 <= i < |xs| ==> Equiv(xs[p[i]], ys[i])
    requires !Raises(List(xs)) && !Raises(List(ys)) && HasSetDuplicate(List(xs), key)
    requires forall i :: 0 <= i < |xs| ==> Survives(xs[i], key)
    ensures HasSetDuplicate(List(ys), key)
  {
    var i :| 0 <= i < |xs| && HasSetDuplicate(xs[i], key);
    var j := IndexOf(p, i);
    assert Survives(xs[i], key) && Equiv(xs[i], ys[j]) && !Raises(ys[j]);
  }

  lemma DuplicateInSet(f: map<string, Json>, g: map<string, Json>, key: Key)
    requires Injective(key) && IsSetOfList(f) && !Raises(Object(f)) && !Raises(Object(g)) && Equiv(Object(f), Object(g))
    requires Repeats(f[MEMBERS].items, key) || HasSetDuplicate(f[MEMBERS], key)
    requires forall i :: 0 <= i < |f[MEMBERS].items| ==>
             !Raises(f[MEMBERS].items[i]) && Survives(f[MEMBERS].items[i], key)
    ensures HasSetDuplicate(Object(g), key)
  {
    SameSetNodes(f, g);
    var (xs, ys) := (f[MEMBERS].items, g[MEMBERS].items);
    assert f[MEMBERS] == List(xs) && g[MEMBERS] == List(ys) && !Raises(g[MEMBERS]);
    var p :| IsPermutation(p, |xs|) && forall i :: 0 <= i < |xs| ==> Equiv(xs[p[i]], ys[i]);
    if Repeats(xs, key) {
      forall i | 0 <= i < |xs|
        ensures Canon(xs[p[i]], key) == Canon(ys[i], key)
      {
        EquivSameCanon(xs[p[i]], ys[i], key);
      }
      RepetitionSurvives(xs, ys, p, key);
      assert Repeats(Elements(g[MEMBERS]), key);
    } else {
      DuplicateInList(xs, ys, p, key);
    }
  }

  lemma DuplicateInUnlistedSet(f: map<string, Json>, g: map<string, Json>, key: Key)
    requires IsSetNode(f) && !f[MEMBERS].List? && !Raises(Object(f)) && !Raises(Object(g)) &&
             Equiv(Object(f), Object(g))
    requires Repeats(Elements(f[MEMBERS]), key)
    ensures HasSetDuplicate(Object(g), key)
  {
    SameSetNodes(f, g);
    UnlistedMembersSpellAlike(f[MEMBERS], g[MEMBERS]);
  }

  lemma {:induction false} DuplicateSurvives(a: Json, key: Key)
    requires Injective(key) && !Raises(a)
    ensures Survives(a, key)
    decreases a
  {
    forall b | !Raises(b) && Equiv(a, b) && HasSetDuplicate(a, key) ensures HasSetDuplicate(b, key) {
      match a
      case List(xs) =>
        var i :| 0 <= i < |xs| && HasSetDuplicate(xs[i], key);
        DuplicateSurvives(xs[i], key);
        assert Equiv(xs[i], b.items[i]);
      case Object(f) =>
        if k :| k in f && !(k == MEMBERS && IsSetOfList(f)) && HasSetDuplicate(f[k], key) {
          DuplicateSurvives(f[k], key);
          assert Equiv(f[k], b.fields[k]);
        } else {
          DuplicateAmongMembers(f, key);
          if f[MEMBERS].List? {
            assert f[MEMBERS] == List(f[MEMBERS].items);
            MembersSurvive(f[MEMBERS].items, key);
            DuplicateInSet(f, b.fields, key);
          } else {
            DuplicateInUnlistedSet(f, b.fields, key);
          }
        }
    }
  }

  lemma {:induction false} MembersSurvive(xs: seq<Json>, key: Key)
    requires Injective(key) && !Raises(List(xs))
    ensures forall i :: 0 <= i < |xs| ==> !Raises(xs[i]) && Survives(xs[i], key)
    decreases List(xs), 0
  {
    forall i | 0 <= i < |xs| ensures !Raises(xs[i]) && Survives(xs[i], key) { DuplicateSurvives(xs[i], key); }
  }

  /** Reordering set members, at any depth, neither hides nor makes a duplicate. */
  lemma DuplicatesIgnoreSetOrder(a: Json, b: Json, key: Key)
    requires Injective(key) && !Raises(a) && !Raises(b) && Equiv(a, b)
    ensures HasSetDuplicate(a, key) <==> HasSetDuplicate(b, key)
  {
    EquivIsSymmetric(a, b);
    DuplicateSurvives(a, key);
    DuplicateSurvives(b, key);
  }
}
