/** The canonical form of JSON values modulo the order of UNORDERED_SET members,
    as `scripts/difference_contract_validator.py` computes it. */
module CanonicalTree {
  import opened Results
  import opened Ordering

  datatype Json =
    | Null
    | Boolean(truth: bool)
    | Number(literal: string)
    | Text(text: string)
    | List(items: seq<Json>)
    | Object(fields: map<string, Json>)

  /** The canonical bytes of a value. */
  type Key = Json -> string

  ghost predicate Injective(key: Key) { forall a, b :: key(a) == key(b) ==> a == b }

  const KIND := "collection_kind"
  const MEMBERS := "members"
  const SET := Text("UNORDERED_SET")

  /** An object that declares itself an unordered set and has members. */
  predicate IsSetNode(fields: map<string, Json>) { KIND in fields && fields[KIND] == SET && MEMBERS in fields }

  /** What `sorted` can iterate: the items of a list, the characters of a text,
      the keys of an object. */
  predicate Iterable(v: Json) { v.List? || v.Text? || v.Object? }

  ghost function Elements(v: Json): seq<Json>
    requires Iterable(v)
  {
    match v
    case List(items) => items
    case Text(text) => seq(|text|, i requires 0 <= i < |text| => Text([text[i]]))
    case Object(fields) =>
      var keys := SortedStrings(fields.Keys);
      seq(|keys|, i requires 0 <= i < |keys| => Text(keys[i]))
  }

  function Earlier(key: Key): (Json, Json) -> bool { (a, b) => StringLe(key(a), key(b)) }

  /** The fields of a set node with its members sorted; any other fields as they are. */
  ghost function Arranged(fields: map<string, Json>, key: Key): map<string, Json> {
    if IsSetNode(fields) && Iterable(fields[MEMBERS])
    then fields[MEMBERS := List(Sort(Elements(fields[MEMBERS]), Earlier(key)))]
    else fields
  }

  ghost function Canon(v: Json, key: Key): Json {
    match v
    case List(items) => List(seq(|items|, i requires 0 <= i < |items| => Canon(items[i], key)))
    case Object(fields) => Object(Arranged(map k | k in fields :: Canon(fields[k], key), key))
    case _ => v
  }

  /** Some set node declares members that cannot be iterated. */
  ghost predicate Raises(v: Json) {
    match v
    case List(items) => exists i :: 0 <= i < |items| && Raises(items[i])
    case Object(fields) =>
      || (exists k :: k in fields && Raises(fields[k]))
      || (IsSetNode(fields) && !Iterable(fields[MEMBERS]))
    case _ => false
  }

  datatype TypeFailure = NotIterable

  ghost function CanonicalSemantic(v: Json, key: Key): Result<Json, TypeFailure> {
    if Raises(v) then Err(NotIterable) else Ok(Canon(v, key))
  }

  // ---------------------------------------------------------------- the relation

  predicate IsPermutation(p: seq<nat>, n: nat) {
    && |p| == n
    && (forall i :: 0 <= i < n ==> p[i] < n)
    && (forall i, j :: 0 <= i < j < n ==> p[i] != p[j])
  }

  /** A set node whose members are a list. */
  predicate IsSetOfList(fields: map<string, Json>) {
    && "collection_kind" in fields && fields["collection_kind"] == Text("UNORDERED_SET")
    && "members" in fields && fields["members"].List?
  }

  /** The same tree up to the order of the members of its set nodes, at any depth. */
  ghost predicate Equiv(a: Json, b: Json)
    decreases a
  {
    match a
    case List(xs) => b.List? && |b.items| == |xs| && forall i :: 0 <= i < |xs| ==> Equiv(xs[i], b.items[i])
    case Object(f) =>
      && b.Object? && b.fields.Keys == f.Keys
      && (forall k :: k in f && !(k == MEMBERS && IsSetOfList(f)) ==> Equiv(f[k], b.fields[k]))
      && (IsSetOfList(f) ==> b.fields[MEMBERS].List? && Shuffled(f[MEMBERS].items, b.fields[MEMBERS].items))
    case _ => a == b
  }

  /** Some rearrangement of xs agrees with ys member by member. */
  ghost predicate Shuffled(xs: seq<Json>, ys: seq<Json>)
    decreases List(xs)
  {
    |xs| == |ys| && exists p :: IsPermutation(p, |xs|) && forall i :: 0 <= i < |xs| ==> Equiv(xs[p[i]], ys[i])
  }

  /** Every set node lists its members. */
  ghost predicate ListsItsSets(v: Json) {
    match v
    case List(items) => forall i :: 0 <= i < |items| ==> ListsItsSets(items[i])
    case Object(fields) =>
      && (forall k :: k in fields ==> ListsItsSets(fields[k]))
      && (IsSetNode(fields) ==> fields[MEMBERS].List?)
    case _ => true
  }

  /** The fields of a set node with its members spelled out. */
  ghost function Relisted(m: map<string, Json>): map<string, Json> {
    if IsSetNode(m) && Iterable(m[MEMBERS]) then m[MEMBERS := List(Elements(m[MEMBERS]))] else m
  }

  /** The same tree with the members of every set node spelled out as a list. */
  ghost function SpelledOut(v: Json): Json {
    match v
    case List(items) => List(seq(|items|, i requires 0 <= i < |items| => SpelledOut(items[i])))
    case Object(fields) => Object(Relisted(map k | k in fields :: SpelledOut(fields[k])))
    case _ => v
  }

  // ---------------------------------------------------------------- permutations and sorting

  lemma EarlierIsTotalPreorder(key: Key)
    ensures TotalPreorder(Earlier(key))
  {
    forall a, b ensures Earlier(key)(a, b) || Earlier(key)(b, a) { StringLeTotal(key(a), key(b)); }
    forall a, b, c | Earlier(key)(a, b) && Earlier(key)(b, c) ensures Earlier(key)(a, c) {
      StringLeTransitive(key(a), key(b), key(c));
    }
  }

  lemma KeysAreUntied(xs: seq<Json>, key: Key)
    requires Injective(key)
    ensures Untied(xs, Earlier(key))
  {
    forall a, b | a in xs && b in xs && Earlier(key)(a, b) && Earlier(key)(b, a) ensures a == b {
      StringLeAntisymmetric(key(a), key(b));
    }
  }

  /** Two lists sort alike exactly when they hold the same members equally often. */
  lemma SortDecidesPermutation(xs: seq<Json>, ys: seq<Json>, key: Key)
    requires Injective(key)
    ensures Sort(xs, Earlier(key)) == Sort(ys, Earlier(key)) <==> multiset(xs) == multiset(ys)
  {
    SortIsPermutation(xs, Earlier(key));
    SortIsPermutation(ys, Earlier(key));
    if multiset(xs) == multiset(ys) {
      EarlierIsTotalPreorder(key);
      KeysAreUntied(xs, key);
      SortIgnoresInputOrder(xs, ys, Earlier(key));
    }
  }

  function Rearranged<T>(xs: seq<T>, p: seq<nat>): seq<T>
    requires forall i :: 0 <= i < |p| ==> p[i] < |xs|
  {
    seq(|p|, i requires 0 <= i < |p| => xs[p[i]])
  }

  /** p shifted to make room for an entry `at` before it. */
  function Shifted(p: seq<nat>, at: nat): seq<nat> {
    seq(|p|, i requires 0 <= i < |p| => if p[i] >= at then p[i] + 1 else p[i])
  }

  lemma WithoutOne<T>(xs: seq<T>, at: nat, ys: seq<T>)
    requires multiset(xs) == multiset(ys) && ys != [] && at < |xs| && xs[at] == ys[0]
    ensures multiset(xs[..at] + xs[at + 1..]) == multiset(ys[1..])
  {
    var rest := xs[..at] + xs[at + 1..];
    TailMultiset(ys);
    assert xs == xs[..at] + [xs[at]] + xs[at + 1..];
    assert multiset(xs) == multiset(rest) + multiset{ys[0]};
    assert multiset(rest) == multiset(xs) - multiset{ys[0]};
  }

  lemma ExtendedPermutation(q: seq<nat>, n: nat, at: nat)
    requires IsPermutation(q, n) && at <= n
    ensures IsPermutation([at] + Shifted(q, at), n + 1)
  {
  }

  lemma ExtendedRearrangement<T>(xs: seq<T>, at: nat, q: seq<nat>)
    requires at < |xs| && forall i :: 0 <= i < |q| ==> q[i] < |xs| - 1
    ensures forall i :: 0 <= i < |q| ==> Shifted(q, at)[i] < |xs|
    ensures Rearranged(xs, Shifted(q, at)) == Rearranged(xs[..at] + xs[at + 1..], q)
  {
  }

  lemma {:induction false} PermutationExists<T>(xs: seq<T>, ys: seq<T>) returns (p: seq<nat>)
    requires multiset(xs) == multiset(ys)
    ensures |xs| == |ys| && IsPermutation(p, |xs|)
    ensures Rearranged(xs, p) == ys
  {
    assert |xs| == |multiset(xs)| && |ys| == |multiset(ys)|;
    if ys == [] {
      p := [];
    } else {
      assert ys[0] in multiset(xs);
      var at :| 0 <= at < |xs| && xs[at] == ys[0];
      WithoutOne(xs, at, ys);
      var q := PermutationExists(xs[..at] + xs[at + 1..], ys[1..]);
      ExtendedPermutation(q, |xs| - 1, at);
      ExtendedRearrangement(xs, at, q);
      p := [at] + Shifted(q, at);
      assert Rearranged(xs, p) == [ys[0]] + Rearranged(xs, Shifted(q, at));
    }
  }

  /** Dropping the greatest entry of a permutation leaves a permutation. */
  lemma DropGreatest(p: seq<nat>, at: nat)
    requires at < |p| && IsPermutation(p, |p|) && p[at] == |p| - 1
    ensures IsPermutation(p[..at] + p[at + 1..], |p| - 1)
  {
  }

  lemma RearrangedApart<T>(xs: seq<T>, p: seq<nat>, at: nat)
    requires at < |p| && forall i :: 0 <= i < |p| ==> p[i] < |xs|
    ensures Rearranged(xs, p) == Rearranged(xs, p[..at]) + [xs[p[at]]] + Rearranged(xs, p[at + 1..])
    ensures Rearranged(xs, p[..at] + p[at + 1..]) == Rearranged(xs, p[..at]) + Rearranged(xs, p[at + 1..])
  {
  }

  lemma RearrangedPrefix<T>(xs: seq<T>, q: seq<nat>)
    requires xs != [] && forall i :: 0 <= i < |q| ==> q[i] < |xs| - 1
    ensures Rearranged(xs, q) == Rearranged(xs[..|xs| - 1], q)
  {
  }

  lemma RearrangedWithoutLast<T>(xs: seq<T>, p: seq<nat>, at: nat)
    requires at < |p| == |xs| && IsPermutation(p, |p|) && p[at] == |p| - 1
    requires IsPermutation(p[..at] + p[at + 1..], |p| - 1)
    ensures multiset(Rearranged(xs, p)) ==
            multiset(Rearranged(xs[..|xs| - 1], p[..at] + p[at + 1..])) + multiset{xs[|xs| - 1]}
  {
    RearrangedApart(xs, p, at);
    RearrangedPrefix(xs, p[..at] + p[at + 1..]);
  }

  lemma {:induction false} PermutationKeepsMultiset<T>(xs: seq<T>, p: seq<nat>)
    requires IsPermutation(p, |xs|)
    ensures multiset(Rearranged(xs, p)) == multiset(xs)
  {
    if xs != [] {
      var at := IndexOf(p, |xs| - 1);
      DropGreatest(p, at);
      RearrangedWithoutLast(xs, p, at);
      PermutationKeepsMultiset(xs[..|xs| - 1], p[..at] + p[at + 1..]);
      assert xs == xs[..|xs| - 1] + [xs[|xs| - 1]];
    }
  }

  lemma {:induction false} IndexOf(p: seq<nat>, x: nat) returns (at: nat)
    requires IsPermutation(p, |p|) && x < |p|
    ensures at < |p| && p[at] == x
  {
    var hit := set i | 0 <= i < |p| :: p[i];
    if forall i :: 0 <= i < |p| ==> p[i] != x {
      SizeOfImage(p);
      assert hit <= Below(|p|) - {x};
      SubsetIsSmaller(hit, Below(|p|) - {x});
    }
    at :| 0 <= at < |p| && p[at] == x;
  }

  function Below(n: nat): (s: set<nat>)
    ensures |s| == n && forall i :: i in s <==> 0 <= i < n
  {
    if n == 0 then {} else Below(n - 1) + {n - 1}
  }

  lemma {:induction false} SizeOfImage(p: seq<nat>)
    requires forall i, j :: 0 <= i < j < |p| ==> p[i] != p[j]
    ensures |set i | 0 <= i < |p| :: p[i]| == |p|
  {
    if p != [] {
      var n := |p| - 1;
      SizeOfImage(p[..n]);
      assert (set i | 0 <= i < |p| :: p[i]) == (set i | 0 <= i < |p[..n]| :: p[..n][i]) + {p[n]};
    }
  }

  lemma {:induction false} SubsetIsSmaller<T>(a: set<T>, b: set<T>)
    requires a <= b
    ensures |a| <= |b|
  {
    if a != {} {
      var x :| x in a;
      SubsetIsSmaller(a - {x}, b - {x});
    }
  }

  // ---------------------------------------------------------------- the canonical form

  lemma CanonOfList(items: seq<Json>, key: Key)
    ensures Canon(List(items), key).List? && |Canon(List(items), key).items| == |items|
    ensures forall i :: 0 <= i < |items| ==> Canon(List(items), key).items[i] == Canon(items[i], key)
  {
  }

  /** Canonicalising keeps the kind of every node. */
  lemma CanonKeepsKind(v: Json, key: Key)
    ensures Canon(v, key).Null? <==> v.Null?
    ensures Canon(v, key).Boolean? <==> v.Boolean?
    ensures Canon(v, key).Number? <==> v.Number?
    ensures Canon(v, key).Text? <==> v.Text?
    ensures Canon(v, key).List? <==> v.List?
    ensures Canon(v, key).Object? <==> v.Object?
    ensures !v.List? && !v.Object? ==> Canon(v, key) == v
  {
  }

  ghost function CanonFields(f: map<string, Json>, key: Key): (c: map<string, Json>)
    ensures c.Keys == f.Keys
  {
    map k | k in f :: Canon(f[k], key)
  }

  lemma CanonOfObject(f: map<string, Json>, key: Key)
    ensures Canon(Object(f), key) == Object(Arranged(CanonFields(f, key), key))
    ensures IsSetNode(CanonFields(f, key)) <==> IsSetNode(f)
    ensures IsSetOfList(CanonFields(f, key)) <==> IsSetOfList(f)
  {
    if KIND in f { CanonKeepsKind(f[KIND], key); }
    if MEMBERS in f { CanonKeepsKind(f[MEMBERS], key); }
  }

  /** The two tables agree field by field, set members up to order. */
  ghost predicate SameUpToOrder(m: map<string, Json>, n: map<string, Json>) {
    && m.Keys == n.Keys
    && (forall k :: k in m && !(k == MEMBERS && IsSetOfList(m)) ==> m[k] == n[k])
    && (IsSetOfList(m) ==> n[MEMBERS].List? && multiset(m[MEMBERS].items) == multiset(n[MEMBERS].items))
  }

  lemma SameTables(m: map<string, Json>, n: map<string, Json>)
    requires m.Keys == n.Keys && forall k :: k in m ==> m[k] == n[k]
    ensures m == n
  {
  }

  lemma ArrangedFields(m: map<string, Json>, key: Key)
    requires IsSetNode(m) ==> m[MEMBERS].List?
    ensures var am := Arranged(m, key);
            && am.Keys == m.Keys
            && (forall k :: k in m && !(k == MEMBERS && IsSetOfList(m)) ==> am[k] == m[k])
            && (IsSetOfList(m) ==> am[MEMBERS] == List(Sort(m[MEMBERS].items, Earlier(key))))
            && (IsSetOfList(am) <==> IsSetOfList(m))
  {
  }

  lemma ArrangingDecides(m: map<string, Json>, n: map<string, Json>, key: Key)
    requires Injective(key) && (IsSetNode(m) ==> m[MEMBERS].List?) && (IsSetNode(n) ==> n[MEMBERS].List?)
    ensures Arranged(m, key) == Arranged(n, key) <==> SameUpToOrder(m, n)
  {
    ArrangedFields(m, key);
    ArrangedFields(n, key);
    if SameUpToOrder(m, n) { ArrangedAlike(m, n, key); }
    if Arranged(m, key) == Arranged(n, key) && IsSetOfList(m) {
      SortDecidesPermutation(m[MEMBERS].items, n[MEMBERS].items, key);
    }
  }

  lemma ArrangedAlike(m: map<string, Json>, n: map<string, Json>, key: Key)
    requires Injective(key) && (IsSetNode(m) ==> m[MEMBERS].List?) && (IsSetNode(n) ==> n[MEMBERS].List?)
    requires SameUpToOrder(m, n)
    ensures Arranged(m, key) == Arranged(n, key)
  {
    ArrangedFields(m, key);
    ArrangedFields(n, key);
    if KIND in m { assert m[KIND] == n[KIND]; }
    if IsSetOfList(m) { SortDecidesPermutation(m[MEMBERS].items, n[MEMBERS].items, key); }
    SameTables(Arranged(m, key), Arranged(n, key));
  }

  lemma SameListCanon(xs: seq<Json>, ys: seq<Json>, key: Key)
    requires |xs| == |ys| && forall i :: 0 <= i < |xs| ==> Canon(xs[i], key) == Canon(ys[i], key)
    ensures Canon(List(xs), key) == Canon(List(ys), key)
  {
    CanonOfList(xs, key);
    CanonOfList(ys, key);
    assert Canon(List(xs), key).items == Canon(List(ys), key).items;
  }

  lemma RearrangedSameMultiset(xs: seq<Json>, ys: seq<Json>, p: seq<nat>, key: Key)
    requires |xs| == |ys| && IsPermutation(p, |xs|)
    requires forall i :: 0 <= i < |xs| ==> Canon(xs[p[i]], key) == Canon(ys[i], key)
    ensures multiset(Canon(List(xs), key).items) == multiset(Canon(List(ys), key).items)
  {
    CanonOfList(xs, key);
    CanonOfList(ys, key);
    var (cx, cy) := (Canon(List(xs), key).items, Canon(List(ys), key).items);
    assert Rearranged(cx, p) == cy;
    PermutationKeepsMultiset(cx, p);
  }

  lemma SameMultisetRearranged(xs: seq<Json>, ys: seq<Json>, key: Key) returns (p: seq<nat>)
    requires multiset(Canon(List(xs), key).items) == multiset(Canon(List(ys), key).items)
    ensures |xs| == |ys| && IsPermutation(p, |xs|)
    ensures forall i :: 0 <= i < |xs| ==> Canon(xs[p[i]], key) == Canon(ys[i], key)
  {
    CanonOfList(xs, key);
    CanonOfList(ys, key);
    var (cx, cy) := (Canon(List(xs), key).items, Canon(List(ys), key).items);
    p := PermutationExists(cx, cy);
    forall i | 0 <= i < |xs| ensures Canon(xs[p[i]], key) == Canon(ys[i], key) { assert Rearranged(cx, p)[i] == cy[i]; }
  }

  /** Two trees have the same canonical form exactly when they differ only in
      the order of the members of their set nodes. */
  lemma {:induction false} CanonDecidesEquiv(a: Json, b: Json, key: Key)
    requires Injective(key) && ListsItsSets(a) && ListsItsSets(b)
    ensures Canon(a, key) == Canon(b, key) <==> Equiv(a, b)
    decreases a, 2
  {
    CanonKeepsKind(a, key);
    CanonKeepsKind(b, key);
    if a.List? && b.List? {
      ListsDecided(a.items, b.items, key);
    } else if a.Object? && b.Object? {
      ObjectsDecided(a.fields, b.fields, key);
    }
  }

  lemma {:induction false} ListsDecided(xs: seq<Json>, ys: seq<Json>, key: Key)
    requires Injective(key) && ListsItsSets(List(xs)) && ListsItsSets(List(ys))
    ensures Canon(List(xs), key) == Canon(List(ys), key) <==> Equiv(List(xs), List(ys))
    decreases List(xs), 1
  {
    CanonOfList(xs, key);
    CanonOfList(ys, key);
    if |xs| == |ys| {
      forall i | 0 <= i < |xs| ensures Canon(xs[i], key) == Canon(ys[i], key) <==> Equiv(xs[i], ys[i]) {
        CanonDecidesEquiv(xs[i], ys[i], key);
      }
      if forall i :: 0 <= i < |xs| ==> Equiv(xs[i], ys[i]) { SameListCanon(xs, ys, key); }
    }
  }

  lemma ListedCanonFields(f: map<string, Json>, key: Key)
    requires IsSetNode(f) ==> f[MEMBERS].List?
    ensures IsSetNode(CanonFields(f, key)) ==> CanonFields(f, key)[MEMBERS].List?
  {
    CanonOfObject(f, key);
    if MEMBERS in f { CanonKeepsKind(f[MEMBERS], key); }
  }

  lemma {:induction false} ObjectsDecided(f: map<string, Json>, g: map<string, Json>, key: Key)
    requires Injective(key) && ListsItsSets(Object(f)) && ListsItsSets(Object(g))
    ensures Canon(Object(f), key) == Canon(Object(g), key) <==> Equiv(Object(f), Object(g))
    decreases Object(f), 1
  {
    CanonOfObject(f, key);
    CanonOfObject(g, key);
    ListedCanonFields(f, key);
    ListedCanonFields(g, key);
    ArrangingDecides(CanonFields(f, key), CanonFields(g, key), key);
    if f.Keys == g.Keys { FieldsDecided(f, g, key); }
  }

  lemma {:induction false} FieldsDecided(f: map<string, Json>, g: map<string, Json>, key: Key)
    requires Injective(key) && ListsItsSets(Object(f)) && ListsItsSets(Object(g)) && f.Keys == g.Keys
    ensures SameUpToOrder(CanonFields(f, key), CanonFields(g, key)) <==> Equiv(Object(f), Object(g))
    decreases Object(f), 0
  {
    CanonOfObject(f, key);
    if MEMBERS in g { CanonKeepsKind(g[MEMBERS], key); }
    forall k | k in f ensures Canon(f[k], key) == Canon(g[k], key) <==> Equiv(f[k], g[k]) {
      CanonDecidesEquiv(f[k], g[k], key);
    }
    if IsSetOfList(f) && g[MEMBERS].List? {
      MembersDecided(f[MEMBERS].items, g[MEMBERS].items, key);
      assert f[MEMBERS] == List(f[MEMBERS].items) && g[MEMBERS] == List(g[MEMBERS].items);
    }
  }

  lemma {:induction false} MembersDecided(xs: seq<Json>, ys: seq<Json>, key: Key)
    requires Injective(key) && ListsItsSets(List(xs)) && ListsItsSets(List(ys))
    ensures multiset(Canon(List(xs), key).items) == multiset(Canon(List(ys), key).items) <==> Shuffled(xs, ys)
    decreases List(xs), 1
  {
    forall i, j | 0 <= i < |xs| && 0 <= j < |ys|
      ensures Canon(xs[i], key) == Canon(ys[j], key) <==> Equiv(xs[i], ys[j])
    {
      CanonDecidesEquiv(xs[i], ys[j], key);
    }
    if multiset(Canon(List(xs), key).items) == multiset(Canon(List(ys), key).items) {
      var p := SameMultisetRearranged(xs, ys, key);
      assert Shuffled(xs, ys);
    }
    if Shuffled(xs, ys) {
      var p :| IsPermutation(p, |xs|) && forall i :: 0 <= i < |xs| ==> Equiv(xs[p[i]], ys[i]);
      RearrangedSameMultiset(xs, ys, p, key);
    }
  }

  // ---------------------------------------------------------------- canonicalising twice

  lemma SortTwice(xs: seq<Json>, key: Key)
    requires Injective(key)
    ensures Sort(Sort(xs, Earlier(key)), Earlier(key)) == Sort(xs, Earlier(key))
  {
    SortIsPermutation(xs, Earlier(key));
    SortDecidesPermutation(Sort(xs, Earlier(key)), xs, key);
  }

  ghost predicate Fixed(v: Json, key: Key) { Canon(v, key) == v }

  lemma FixedList(items: seq<Json>, key: Key)
    requires forall x :: x in items ==> Fixed(x, key)
    ensures Fixed(List(items), key)
  {
    CanonOfList(items, key);
    forall i | 0 <= i < |items| ensures Canon(items[i], key) == items[i] { assert Fixed(items[i], key); }
    assert Canon(List(items), key).items == items;
  }

  /** Every element of a canonical value is canonical. */
  lemma ElementsAreFixed(v: Json, key: Key)
    requires Iterable(v) && (v.List? ==> forall x :: x in v.items ==> Fixed(x, key))
    ensures forall x :: x in Elements(v) ==> Fixed(x, key)
  {
  }

  lemma FixedFields(m: map<string, Json>, key: Key)
    requires forall k :: k in m ==> Fixed(m[k], key)
    ensures Canon(Object(m), key) == Object(Arranged(m, key))
  {
    forall k | k in m ensures CanonFields(m, key)[k] == m[k] { assert Fixed(m[k], key); }
    SameTables(CanonFields(m, key), m);
    CanonOfObject(m, key);
  }

  lemma SortedMembersAreFixed(members: Json, key: Key)
    requires Injective(key) && Iterable(members) && forall x :: x in Elements(members) ==> Fixed(x, key)
    ensures Fixed(List(Sort(Elements(members), Earlier(key))), key)
  {
    SortIsPermutation(Elements(members), Earlier(key));
    FixedList(Sort(Elements(members), Earlier(key)), key);
  }

  lemma ArrangingTwice(m: map<string, Json>, key: Key)
    requires Injective(key)
    ensures Arranged(Arranged(m, key), key) == Arranged(m, key)
  {
    if IsSetNode(m) && Iterable(m[MEMBERS]) {
      var sorted := Sort(Elements(m[MEMBERS]), Earlier(key));
      SortTwice(Elements(m[MEMBERS]), key);
      assert Elements(List(sorted)) == sorted;
      assert m[MEMBERS := List(sorted)][MEMBERS := List(sorted)] == m[MEMBERS := List(sorted)];
    }
  }

  lemma ArrangedIsFixed(m: map<string, Json>, key: Key)
    requires Injective(key) && forall k :: k in m ==> Fixed(m[k], key)
    requires IsSetNode(m) && Iterable(m[MEMBERS]) ==> forall x :: x in Elements(m[MEMBERS]) ==> Fixed(x, key)
    ensures Fixed(Object(Arranged(m, key)), key)
  {
    if IsSetNode(m) && Iterable(m[MEMBERS]) { SortedMembersAreFixed(m[MEMBERS], key); }
    FixedFields(Arranged(m, key), key);
    ArrangingTwice(m, key);
  }

  /** Canonicalising a canonical form changes nothing. */
  lemma {:induction false} CanonIsIdempotent(v: Json, key: Key)
    requires Injective(key)
    ensures Canon(Canon(v, key), key) == Canon(v, key)
    decreases v
  {
    match v
    case List(items) =>
      CanonItemsAreFixed(items, key);
      FixedList(Canon(v, key).items, key);
    case Object(f) =>
      forall k | k in f ensures Fixed(Canon(f[k], key), key) { CanonIsIdempotent(f[k], key); }
      if MEMBERS in f && f[MEMBERS].List? { CanonItemsAreFixed(f[MEMBERS].items, key); }
      var m := CanonFields(f, key);
      if IsSetNode(m) && Iterable(m[MEMBERS]) {
        CanonKeepsKind(f[MEMBERS], key);
        ElementsAreFixed(m[MEMBERS], key);
      }
      ArrangedIsFixed(m, key);
      CanonOfObject(f, key);
    case _ =>
  }

  lemma {:induction false} CanonItemsAreFixed(items: seq<Json>, key: Key)
    requires Injective(key)
    ensures forall x :: x in Canon(List(items), key).items ==> Fixed(x, key)
    decreases List(items), 0
  {
    CanonOfList(items, key);
    forall i | 0 <= i < |items| ensures Fixed(Canon(items[i], key), key) { CanonIsIdempotent(items[i], key); }
  }

  // ---------------------------------------------------------------- sets whose members are not lists

  lemma TextsAreFixed(items: seq<Json>, key: Key)
    requires forall i :: 0 <= i < |items| ==> items[i].Text?
    ensures Canon(List(items), key).items == items
  {
    CanonOfList(items, key);
  }

  /** Spelling a value out and canonicalising it keeps its list of elements. */
  ghost predicate SpellsAlike(w: Json, key: Key) {
    && Iterable(w) && Iterable(SpelledOut(w)) && Iterable(Canon(w, key))
    && Canon(List(Elements(SpelledOut(w))), key).items == Elements(Canon(w, key))
  }

  lemma ListSpellsAlike(items: seq<Json>, key: Key)
    requires forall i :: 0 <= i < |items| ==> Canon(SpelledOut(items[i]), key) == Canon(items[i], key)
    ensures SpellsAlike(List(items), key)
  {
    var spelled := SpelledOut(List(items)).items;
    CanonOfList(items, key);
    CanonOfList(spelled, key);
    assert Canon(List(spelled), key).items == Canon(List(items), key).items;
  }

  lemma TextSpellsAlike(text: string, key: Key)
    ensures SpellsAlike(Text(text), key)
  {
    TextsAreFixed(Elements(Text(text)), key);
  }

  lemma SpelledKeys(f: map<string, Json>)
    ensures SpelledOut(Object(f)).Object? && SpelledOut(Object(f)).fields.Keys == f.Keys
  {
  }

  lemma KeysSpellAlike(sf: map<string, Json>, cf: map<string, Json>, key: Key)
    requires sf.Keys == cf.Keys
    ensures Canon(List(Elements(Object(sf))), key).items == Elements(Object(cf))
  {
    assert Elements(Object(sf)) == Elements(Object(cf));
    TextsAreFixed(Elements(Object(sf)), key);
  }

  lemma ObjectSpellsAlike(f: map<string, Json>, key: Key)
    ensures SpellsAlike(Object(f), key)
  {
    SpelledKeys(f);
    CanonOfObject(f, key);
    var (s, c) := (SpelledOut(Object(f)), Canon(Object(f), key));
    assert c.Object? && c.fields.Keys == f.Keys;
    KeysSpellAlike(s.fields, c.fields, key);
    assert s == Object(s.fields) && c == Object(c.fields);
  }

  ghost function SpelledFields(f: map<string, Json>): (c: map<string, Json>)
    ensures c.Keys == f.Keys
  {
    map k | k in f :: SpelledOut(f[k])
  }

  lemma SpelledKeepsKind(v: Json)
    ensures SpelledOut(v).List? <==> v.List?
    ensures SpelledOut(v).Object? <==> v.Object?
    ensures !v.List? && !v.Object? ==> SpelledOut(v) == v
  {
  }

  lemma SpelledObject(f: map<string, Json>)
    ensures SpelledOut(Object(f)) == Object(Relisted(SpelledFields(f)))
    ensures IsSetNode(SpelledFields(f)) <==> IsSetNode(f)
    ensures MEMBERS in f ==> (Iterable(SpelledFields(f)[MEMBERS]) <==> Iterable(f[MEMBERS]))
  {
    if KIND in f { SpelledKeepsKind(f[KIND]); }
    if MEMBERS in f { SpelledKeepsKind(f[MEMBERS]); }
  }

  /** Sorting members that were spelled out first gives the same fields. */
  lemma RelistedArrangesAlike(s: map<string, Json>, c: map<string, Json>, key: Key)
    requires CanonFields(s, key) == c
    requires IsSetNode(s) <==> IsSetNode(c)
    requires IsSetNode(s) ==>
               && (Iterable(s[MEMBERS]) <==> Iterable(c[MEMBERS]))
               && (Iterable(s[MEMBERS]) ==> Canon(List(Elements(s[MEMBERS])), key).items == Elements(c[MEMBERS]))
    ensures Arranged(CanonFields(Relisted(s), key), key) == Arranged(c, key)
  {
    if IsSetNode(s) && Iterable(s[MEMBERS]) {
      var r := CanonFields(Relisted(s), key);
      var elements := List(Elements(c[MEMBERS]));
      CanonKeepsKind(List(Elements(s[MEMBERS])), key);
      SameTables(r, c[MEMBERS := elements]);
      ArrangedTwice(c, elements, key);
    }
  }

  lemma ArrangedTwice(c: map<string, Json>, elements: Json, key: Key)
    requires IsSetNode(c) && Iterable(c[MEMBERS]) && elements == List(Elements(c[MEMBERS]))
    ensures Arranged(c[MEMBERS := elements], key) == Arranged(c, key)
  {
    var r := c[MEMBERS := elements];
    assert IsSetNode(r) && Elements(r[MEMBERS]) == Elements(c[MEMBERS]);
  }

  /** Spelling out the members of set nodes does not change the canonical form. */
  lemma {:induction false} CanonOfSpelled(v: Json, key: Key)
    ensures Canon(SpelledOut(v), key) == Canon(v, key)
    decreases v
  {
    match v
    case List(items) =>
      forall i | 0 <= i < |items| ensures Canon(SpelledOut(items[i]), key) == Canon(items[i], key) {
        CanonOfSpelled(items[i], key);
      }
      SameListCanon(SpelledOut(v).items, items, key);
    case Object(f) =>
      var (s, c) := (SpelledFields(f), CanonFields(f, key));
      forall k | k in f ensures Canon(SpelledOut(f[k]), key) == Canon(f[k], key) { CanonOfSpelled(f[k], key); }
      SameTables(CanonFields(s, key), c);
      SpelledObject(f);
      CanonOfObject(f, key);
      CanonOfObject(Relisted(s), key);
      if IsSetNode(f) {
        CanonKeepsKind(f[MEMBERS], key);
        match f[MEMBERS] {
          case List(items) =>
            forall i | 0 <= i < |items| ensures Canon(SpelledOut(items[i]), key) == Canon(items[i], key) {
              CanonOfSpelled(items[i], key);
            }
            ListSpellsAlike(items, key);
          case Text(text) => TextSpellsAlike(text, key);
          case Object(g) => ObjectSpellsAlike(g, key);
          case _ =>
        }
      }
      RelistedArrangesAlike(s, c, key);
    case _ =>
  }

  lemma {:induction false} SpelledOutListsItsSets(v: Json)
    requires !Raises(v)
    ensures ListsItsSets(SpelledOut(v))
    decreases v
  {
    match v
    case List(items) =>
      forall i | 0 <= i < |items| ensures ListsItsSets(SpelledOut(items[i])) { SpelledOutListsItsSets(items[i]); }
    case Object(f) =>
      forall k | k in f ensures ListsItsSets(SpelledOut(f[k])) { SpelledOutListsItsSets(f[k]); }
      SpelledObject(f);
      RelistedListsItsSets(SpelledFields(f));
    case _ =>
  }

  lemma RelistedListsItsSets(s: map<string, Json>)
    requires forall k :: k in s ==> ListsItsSets(s[k])
    requires IsSetNode(s) ==> Iterable(s[MEMBERS])
    ensures ListsItsSets(Object(Relisted(s)))
  {
    var r := Relisted(s);
    if IsSetNode(s) {
      assert ListsItsSets(s[MEMBERS]);
      assert forall x :: x in Elements(s[MEMBERS]) ==> ListsItsSets(x);
      assert ListsItsSets(r[MEMBERS]);
    }
    forall k | k in r ensures ListsItsSets(r[k]) { if k != MEMBERS { assert r[k] == s[k]; } }
  }

  lemma {:induction false} ListedTreesAreTheirOwnSpelling(v: Json)
    requires ListsItsSets(v)
    ensures SpelledOut(v) == v && !Raises(v)
    decreases v
  {
    match v
    case List(items) =>
      forall i | 0 <= i < |items|
        ensures SpelledOut(items[i]) == items[i] && !Raises(items[i])
      {
        ListedTreesAreTheirOwnSpelling(items[i]);
      }
      assert SpelledOut(v).items == items;
    case Object(f) =>
      forall k | k in f ensures SpelledOut(f[k]) == f[k] && !Raises(f[k]) { ListedTreesAreTheirOwnSpelling(f[k]); }
      SameTables(SpelledFields(f), f);
      SpelledObject(f);
      assert Relisted(f) == f;
    case _ =>
  }

  // ---------------------------------------------------------------- the relation is an equivalence that spelling keeps

  lemma ShuffledWithItself(xs: seq<Json>)
    requires forall i :: 0 <= i < |xs| ==> Equiv(xs[i], xs[i])
    ensures Shuffled(xs, xs)
  {
    var p: seq<nat> := seq(|xs|, i => i);
    assert IsPermutation(p, |xs|) && forall i :: 0 <= i < |xs| ==> Equiv(xs[p[i]], xs[i]);
  }

  lemma {:induction false} EquivIsReflexive(v: Json)
    ensures Equiv(v, v)
    decreases v
  {
    match v
    case List(xs) => forall i | 0 <= i < |xs| ensures Equiv(xs[i], xs[i]) { EquivIsReflexive(xs[i]); }
    case Object(f) =>
      forall k | k in f ensures Equiv(f[k], f[k]) { EquivIsReflexive(f[k]); }
      if IsSetOfList(f) { ShuffledWithItself(f[MEMBERS].items); }
    case _ =>
  }

  /** Equivalent objects are set nodes alike, their members of the same kind. */
  lemma SameSetNodes(f: map<string, Json>, g: map<string, Json>)
    requires Equiv(Object(f), Object(g))
    ensures f.Keys == g.Keys
    ensures IsSetNode(f) <==> IsSetNode(g)
    ensures IsSetOfList(f) <==> IsSetOfList(g)
    ensures IsSetNode(f) && !f[MEMBERS].List? ==> Equiv(f[MEMBERS], g[MEMBERS])
    ensures IsSetNode(f) ==> (Iterable(f[MEMBERS]) <==> Iterable(g[MEMBERS]))
  {
    if KIND in f { assert Equiv(f[KIND], g[KIND]); }
  }

  lemma InversePermutation(p: seq<nat>) returns (q: seq<nat>)
    requires IsPermutation(p, |p|)
    ensures IsPermutation(q, |p|) && forall j :: 0 <= j < |p| ==> p[q[j]] == j
  {
    q := [];
    while |q| < |p|
      invariant |q| <= |p| && forall j :: 0 <= j < |q| ==> q[j] < |p| && p[q[j]] == j
    {
      var i := IndexOf(p, |q|);
      q := q + [i];
    }
  }

  lemma ShuffledBack(xs: seq<Json>, ys: seq<Json>, p: seq<nat>)
    requires |xs| == |ys| && IsPermutation(p, |xs|) && forall i :: 0 <= i < |xs| ==> Equiv(ys[i], xs[p[i]])
    ensures Shuffled(ys, xs)
  {
    var q := InversePermutation(p);
    assert forall j :: 0 <= j < |ys| ==> Equiv(ys[q[j]], xs[p[q[j]]]);
  }

  lemma {:induction false} EquivIsSymmetric(a: Json, b: Json)
    requires Equiv(a, b)
    ensures Equiv(b, a)
    decreases a
  {
    match a
    case List(xs) => forall i | 0 <= i < |xs| ensures Equiv(b.items[i], xs[i]) { EquivIsSymmetric(xs[i], b.items[i]); }
    case Object(f) =>
      var g := b.fields;
      SameSetNodes(f, g);
      forall k | k in f && !(k == MEMBERS && IsSetOfList(f)) ensures Equiv(g[k], f[k]) { EquivIsSymmetric(f[k], g[k]); }
      if IsSetOfList(f) {
        var (xs, ys) := (f[MEMBERS].items, g[MEMBERS].items);
        var p :| IsPermutation(p, |xs|) && forall i :: 0 <= i < |xs| ==> Equiv(xs[p[i]], ys[i]);
        forall i | 0 <= i < |xs| ensures Equiv(ys[i], xs[p[i]]) {
          assert f[MEMBERS] == List(xs);
          EquivIsSymmetric(xs[p[i]], ys[i]);
        }
        ShuffledBack(xs, ys, p);
      }
    case _ =>
  }

  /** A tree equivalent to one that lists its sets lists its own. */
  lemma {:induction false} EquivKeepsListing(a: Json, b: Json)
    requires Equiv(a, b) && ListsItsSets(b)
    ensures ListsItsSets(a)
    decreases a
  {
    match a
    case List(xs) => forall i | 0 <= i < |xs| ensures ListsItsSets(xs[i]) { EquivKeepsListing(xs[i], b.items[i]); }
    case Object(f) =>
      var g := b.fields;
      SameSetNodes(f, g);
      forall k | k in f && !(k == MEMBERS && IsSetOfList(f))
        ensures ListsItsSets(f[k])
      {
        EquivKeepsListing(f[k], g[k]);
      }
      if IsSetOfList(f) {
        var (xs, ys) := (f[MEMBERS].items, g[MEMBERS].items);
        var p :| IsPermutation(p, |xs|) && forall i :: 0 <= i < |xs| ==> Equiv(xs[p[i]], ys[i]);
        assert f[MEMBERS] == List(xs) && ListsItsSets(g[MEMBERS]);
        forall i | 0 <= i < |xs| ensures ListsItsSets(xs[i]) {
          var j := IndexOf(p, i);
          EquivKeepsListing(xs[i], ys[j]);
        }
      }
    case _ =>
  }

  lemma SpelledMembersShuffle(xs: seq<Json>, ys: seq<Json>, p: seq<nat>)
    requires |xs| == |ys| && IsPermutation(p, |xs|)
    requires forall i :: 0 <= i < |xs| ==> Equiv(SpelledOut(xs[p[i]]), SpelledOut(ys[i]))
    ensures Shuffled(SpelledOut(List(xs)).items, SpelledOut(List(ys)).items)
  {
    var (sx, sy) := (SpelledOut(List(xs)).items, SpelledOut(List(ys)).items);
    assert forall i :: 0 <= i < |xs| ==> Equiv(sx[p[i]], sy[i]);
  }

  /** Members that are the same text, or objects with the same keys, spell out alike. */
  lemma UnlistedMembersSpellAlike(v: Json, w: Json)
    requires Equiv(v, w) && Iterable(v) && !v.List?
    ensures Iterable(SpelledOut(v)) && Iterable(SpelledOut(w)) && Elements(SpelledOut(v)) == Elements(SpelledOut(w))
    ensures Elements(v) == Elements(w) && Shuffled(Elements(SpelledOut(v)), Elements(SpelledOut(w)))
  {
    SpelledKeepsKind(v);
    if v.Object? {
      SpelledKeys(v.fields);
      SpelledKeys(w.fields);
      assert v == Object(v.fields) && w == Object(w.fields);
    }
    ShuffledWithItself(Elements(SpelledOut(v)));
  }

  lemma RelistedEquiv(s: map<string, Json>, t: map<string, Json>)
    requires s.Keys == t.Keys && (IsSetNode(s) <==> IsSetNode(t))
    requires forall k :: k in s && !(k == MEMBERS && IsSetOfList(s)) ==> Equiv(s[k], t[k])
    requires IsSetNode(s) ==> (Iterable(s[MEMBERS]) <==> Iterable(t[MEMBERS]))
    requires IsSetNode(s) && Iterable(s[MEMBERS]) ==> Shuffled(Elements(s[MEMBERS]), Elements(t[MEMBERS]))
    ensures Equiv(Object(Relisted(s)), Object(Relisted(t)))
  {
    var (r, u) := (Relisted(s), Relisted(t));
    forall k | k in r && k != MEMBERS ensures Equiv(r[k], u[k]) { assert r[k] == s[k] && u[k] == t[k]; }
    assert IsSetOfList(r) <==> IsSetNode(s) && Iterable(s[MEMBERS]);
  }

  /** Spelling out set members keeps the relation. */
  lemma {:induction false} EquivKeepsSpelling(a: Json, b: Json)
    requires Equiv(a, b)
    ensures Equiv(SpelledOut(a), SpelledOut(b))
    decreases a
  {
    match a
    case List(xs) =>
      forall i | 0 <= i < |xs| ensures Equiv(SpelledOut(xs[i]), SpelledOut(b.items[i])) {
        EquivKeepsSpelling(xs[i], b.items[i]);
      }
    case Object(f) =>
      var g := b.fields;
      SameSetNodes(f, g);
      SpelledObject(f);
      SpelledObject(g);
      var (s, t) := (SpelledFields(f), SpelledFields(g));
      if MEMBERS in f { SpelledKeepsKind(f[MEMBERS]); }
      forall k | k in f && !(k == MEMBERS && IsSetOfList(f))
        ensures Equiv(s[k], t[k])
      {
        EquivKeepsSpelling(f[k], g[k]);
      }
      if IsSetOfList(f) {
        var (xs, ys) := (f[MEMBERS].items, g[MEMBERS].items);
        var p :| IsPermutation(p, |xs|) && forall i :: 0 <= i < |xs| ==> Equiv(xs[p[i]], ys[i]);
        assert f[MEMBERS] == List(xs) && g[MEMBERS] == List(ys);
        forall i | 0 <= i < |xs| ensures Equiv(SpelledOut(xs[p[i]]), SpelledOut(ys[i])) {
          EquivKeepsSpelling(xs[p[i]], ys[i]);
        }
        SpelledMembersShuffle(xs, ys, p);
      } else if IsSetNode(f) && Iterable(f[MEMBERS]) {
        UnlistedMembersSpellAlike(f[MEMBERS], g[MEMBERS]);
      }
      RelistedEquiv(s, t);
    case _ =>
  }

  /** Two trees the canonical form accepts have one canonical form exactly when they
      differ only in the order of set members, a set's members being what iterating
      them yields. */
  lemma CanonicalFormsDecide(a: Json, b: Json, key: Key)
    requires Injective(key) && !Raises(a) && !Raises(b)
    ensures Canon(a, key) == Canon(b, key) <==> Equiv(SpelledOut(a), SpelledOut(b))
  {
    SpelledOutListsItsSets(a);
    SpelledOutListsItsSets(b);
    CanonDecidesEquiv(SpelledOut(a), SpelledOut(b), key);
    CanonOfSpelled(a, key);
    CanonOfSpelled(b, key);
  }

  /** Reordering set members never changes the canonical form. */
  lemma EquivSameCanon(a: Json, b: Json, key: Key)
    requires Injective(key) && !Raises(a) && !Raises(b) && Equiv(a, b)
    ensures Canon(a, key) == Canon(b, key)
  {
    EquivKeepsSpelling(a, b);
    CanonicalFormsDecide(a, b, key);
  }

  // ---------------------------------------------------------------- exact equality

  /** `_exact_value_equal`: equality of the bytes of the canonical forms. */
  ghost function ExactValueEqual(left: Json, right: Json, key: Key): Result<bool, TypeFailure> {
    var l :- CanonicalSemantic(left, key);
    var r :- CanonicalSemantic(right, key);
    Ok(key(l) == key(r))
  }

  /** On every pair of trees the comparison accepts, it decides whether they differ
      only in the order of set members, a set's members being read as what
      iterating them yields. */
  lemma ExactValueEqualDecides(left: Json, right: Json, key: Key)
    requires Injective(key)
    ensures ExactValueEqual(left, right, key) ==
            if Raises(left) || Raises(right) then Err(NotIterable) else Ok(Equiv(SpelledOut(left), SpelledOut(right)))
  {
    if !Raises(left) && !Raises(right) { CanonicalFormsDecide(left, right, key); }
  }

  /** On trees whose set nodes list their members it is the plain relation. */
  lemma ExactValueEqualOnListedTrees(left: Json, right: Json, key: Key)
    requires Injective(key) && ListsItsSets(left) && ListsItsSets(right)
    ensures ExactValueEqual(left, right, key) == Ok(Equiv(left, right))
  {
    ListedTreesAreTheirOwnSpelling(left);
    ListedTreesAreTheirOwnSpelling(right);
    ExactValueEqualDecides(left, right, key);
  }

  /** A tree always equals its own spelling, and is the same as it up to set order
      exactly when its sets list their members: the comparison departs from the plain
      relation for every tree that does not. */
  lemma DepartsExactlyWhenUnlisted(v: Json, key: Key)
    requires Injective(key) && !Raises(v)
    ensures ExactValueEqual(v, SpelledOut(v), key) == Ok(true)
    ensures Equiv(v, SpelledOut(v)) <==> ListsItsSets(v)
  {
    var spelled := SpelledOut(v);
    SpelledOutListsItsSets(v);
    ListedTreesAreTheirOwnSpelling(spelled);
    EquivIsReflexive(spelled);
    ExactValueEqualDecides(v, spelled, key);
    if ListsItsSets(v) { ListedTreesAreTheirOwnSpelling(v); }
    if Equiv(v, spelled) { EquivKeepsListing(v, spelled); }
  }

  function SetOf(members: Json): Json { Object(map[KIND := SET, MEMBERS := members]) }

  lemma SetOfText(text: string)
    ensures SpelledOut(SetOf(Text(text))) == SetOf(List(Elements(Text(text)))) && !Raises(SetOf(Text(text)))
  {
    var f := SetOf(Text(text)).fields;
    SpelledObject(f);
    SameTables(SpelledFields(f), f);
    assert Relisted(f) == SetOf(List(Elements(Text(text)))).fields;
  }

  lemma ShuffledSetsAreEquiv(xs: seq<Json>, ys: seq<Json>)
    requires Shuffled(xs, ys)
    ensures Equiv(SetOf(List(xs)), SetOf(List(ys)))
  {
  }

  lemma SwappedSetsAreEquiv(x: Json, y: Json)
    requires x.Text? && y.Text?
    ensures Equiv(SetOf(List([x, y])), SetOf(List([y, x])))
  {
    var p: seq<nat> := [1, 0];
    var (xs, ys) := ([x, y], [y, x]);
    assert Equiv(x, x) && Equiv(y, y);
    assert IsPermutation(p, 2) && forall i :: 0 <= i < 2 ==> Equiv(xs[p[i]], ys[i]);
    ShuffledSetsAreEquiv(xs, ys);
  }

  /** A set whose members are given as a text equals the set of its characters,
      although the trees are not the same up to order. */
  lemma TextMembersAreReadAsCharacters(key: Key)
    requires Injective(key)
    ensures ExactValueEqual(SetOf(Text("ab")), SetOf(List([Text("b"), Text("a")])), key) == Ok(true)
    ensures !Equiv(SetOf(Text("ab")), SetOf(List([Text("b"), Text("a")])))
  {
    var (a, b) := (SetOf(Text("ab")), SetOf(List([Text("b"), Text("a")])));
    SetOfText("ab");
    assert Elements(Text("ab")) == [Text("a"), Text("b")];
    ListedTreesAreTheirOwnSpelling(b);
    SwappedSetsAreEquiv(Text("a"), Text("b"));
    ExactValueEqualDecides(a, b, key);
    assert !Equiv(a.fields[MEMBERS], b.fields[MEMBERS]);
  }
}
