/** Failure-compatible result types shared by every part of the model. */
module Results {
  datatype Option<+T> = None | Some(value: T)

  datatype Result<+T, +E> = Ok(value: T) | Err(error: E) {
    predicate IsFailure() { Err? }

    function PropagateFailure<U>(): Result<U, E>
      requires Err?
    {
      Err(error)
    }

    function Extract(): T
      requires Ok?
    {
      value
    }
  }
}

/** The code-point order of strings, and sorting by a total preorder.
    Every `sorted(...)` of the modelled code is a call of `Sort`. */
module Ordering {

  predicate StringLe(a: string, b: string) {
    a == "" || (b != "" && (a[0] < b[0] || (a[0] == b[0] && StringLe(a[1..], b[1..]))))
  }

  lemma {:induction false} StringLeTotal(a: string, b: string)
    ensures StringLe(a, b) || StringLe(b, a)
  {
    if a != "" && b != "" && a[0] == b[0] {
      StringLeTotal(a[1..], b[1..]);
    }
  }

  lemma {:induction false} StringLeTransitive(a: string, b: string, c: string)
    requires StringLe(a, b) && StringLe(b, c)
    ensures StringLe(a, c)
  {
    if a != "" && a[0] == b[0] && b[0] == c[0] {
      StringLeTransitive(a[1..], b[1..], c[1..]);
    }
  }

  lemma {:induction false} StringLeAntisymmetric(a: string, b: string)
    requires StringLe(a, b) && StringLe(b, a)
    ensures a == b
  {
    if a != "" {
      StringLeAntisymmetric(a[1..], b[1..]);
      assert a == [a[0]] + a[1..] && b == [b[0]] + b[1..];
    }
  }

  /** The character at which a text may come first: one it does not have, or a smaller one. */
  ghost predicate FirstAt(a: string, b: string, k: nat) {
    k <= |a| && k <= |b| && a[..k] == b[..k] && (k == |a| || (k < |b| && a[k] < b[k]))
  }

  /** The order is the dictionary order by code point: where two texts first differ, the
      earlier one has the smaller character or has ended. */
  lemma {:induction false} StringLeIsDictionaryOrder(a: string, b: string)
    ensures StringLe(a, b) <==> exists k: nat :: FirstAt(a, b, k)
  {
    if a == "" || b == "" || a[0] != b[0] {
      assert StringLe(a, b) ==> FirstAt(a, b, 0);
      if k: nat :| FirstAt(a, b, k) {
        if k > 0 { assert a[..k][0] == b[..k][0]; }
      }
    } else {
      StringLeIsDictionaryOrder(a[1..], b[1..]);
      if k: nat :| FirstAt(a[1..], b[1..], k) {
        assert a[..k + 1] == [a[0]] + a[1..][..k] && b[..k + 1] == [b[0]] + b[1..][..k];
        assert FirstAt(a, b, k + 1);
      }
      if k: nat :| FirstAt(a, b, k) {
        assert k > 0;
        assert a[1..][..k - 1] == a[..k][1..] && b[1..][..k - 1] == b[..k][1..];
        assert FirstAt(a[1..], b[1..], k - 1);
      }
    }
  }

  ghost predicate TotalPreorder<T(!new)>(le: (T, T) -> bool) {
    && (forall a, b :: le(a, b) || le(b, a))
    && (forall a, b, c :: le(a, b) && le(b, c) ==> le(a, c))
  }

  lemma StringLeIsTotalPreorder()
    ensures TotalPreorder(StringLe)
  {
    forall a, b ensures StringLe(a, b) || StringLe(b, a) { StringLeTotal(a, b); }
    forall a, b, c | StringLe(a, b) && StringLe(b, c) ensures StringLe(a, c) {
      StringLeTransitive(a, b, c);
    }
  }

  ghost predicate SortedBy<T(!new)>(xs: seq<T>, le: (T, T) -> bool) {
    forall i, j :: 0 <= i < j < |xs| ==> le(xs[i], xs[j])
  }

  /** Insert x before the first element it does not follow. */
  function Insert<T>(x: T, xs: seq<T>, le: (T, T) -> bool): seq<T> {
    if xs == [] || le(x, xs[0]) then [x] + xs else [xs[0]] + Insert(x, xs[1..], le)
  }

  /** Stable insertion sort. */
  function Sort<T>(xs: seq<T>, le: (T, T) -> bool): seq<T> {
    if xs == [] then [] else Insert(xs[0], Sort(xs[1..], le), le)
  }

  lemma {:induction false} InsertIsPermutation<T>(x: T, xs: seq<T>, le: (T, T) -> bool)
    ensures multiset(Insert(x, xs, le)) == multiset{x} + multiset(xs)
  {
    if xs == [] || le(x, xs[0]) {
    } else {
      InsertIsPermutation(x, xs[1..], le);
      assert xs == [xs[0]] + xs[1..];
    }
  }

  lemma {:induction false} InsertKeepsSorted<T(!new)>(x: T, xs: seq<T>, le: (T, T) -> bool)
    requires TotalPreorder(le) && SortedBy(xs, le)
    ensures SortedBy(Insert(x, xs, le), le)
  {
    if xs == [] || le(x, xs[0]) {
    } else {
      var rest := Insert(x, xs[1..], le);
      InsertKeepsSorted(x, xs[1..], le);
      InsertIsPermutation(x, xs[1..], le);
      forall j | 0 <= j < |rest| ensures le(xs[0], rest[j]) {
        assert rest[j] in multiset(rest);
        assert rest[j] == x || rest[j] in xs[1..];
      }
    }
  }

  lemma {:induction false} SortIsPermutation<T(!new)>(xs: seq<T>, le: (T, T) -> bool)
    ensures multiset(Sort(xs, le)) == multiset(xs)
    ensures |Sort(xs, le)| == |xs|
    ensures forall x :: x in Sort(xs, le) <==> x in xs
  {
    if xs != [] {
      SortIsPermutation(xs[1..], le);
      InsertIsPermutation(xs[0], Sort(xs[1..], le), le);
      assert xs == [xs[0]] + xs[1..];
    }
    assert |multiset(Sort(xs, le))| == |multiset(xs)|;
    forall x ensures x in Sort(xs, le) <==> x in xs {
      assert x in multiset(Sort(xs, le)) <==> x in multiset(xs);
    }
  }

  lemma {:induction false} SortIsSorted<T(!new)>(xs: seq<T>, le: (T, T) -> bool)
    requires TotalPreorder(le)
    ensures SortedBy(Sort(xs, le), le)
  {
    if xs != [] {
      SortIsSorted(xs[1..], le);
      InsertKeepsSorted(xs[0], Sort(xs[1..], le), le);
    }
  }

  /** No two different members are tied. */
  ghost predicate Untied<T(!new)>(xs: seq<T>, le: (T, T) -> bool) {
    forall a, b :: a in xs && b in xs && le(a, b) && le(b, a) ==> a == b
  }

  lemma TailMultiset<T>(xs: seq<T>)
    requires xs != []
    ensures multiset(xs[1..]) == multiset(xs) - multiset{xs[0]}
  {
    assert xs == [xs[0]] + xs[1..];
  }

  lemma SortedHeadsAgree<T(!new)>(xs: seq<T>, ys: seq<T>, le: (T, T) -> bool)
    requires multiset(xs) == multiset(ys) && xs != []
    requires SortedBy(xs, le) && SortedBy(ys, le) && Untied(xs, le)
    requires TotalPreorder(le)
    ensures ys != [] && xs[0] == ys[0]
  {
    assert xs[0] in multiset(ys);
    assert ys[0] in multiset(xs);
    assert le(xs[0], ys[0]) && le(ys[0], xs[0]);
  }

  /** An untied multiset has exactly one sorted arrangement. */
  lemma {:induction false} SortedArrangementIsUnique<T(!new)>(xs: seq<T>, ys: seq<T>, le: (T, T) -> bool)
    requires multiset(xs) == multiset(ys)
    requires SortedBy(xs, le) && SortedBy(ys, le) && Untied(xs, le)
    requires TotalPreorder(le)
    ensures xs == ys
  {
    if xs == [] {
      assert |multiset(ys)| == 0;
    } else {
      SortedHeadsAgree(xs, ys, le);
      TailMultiset(xs);
      TailMultiset(ys);
      assert Untied(xs[1..], le) by { assert forall x :: x in xs[1..] ==> x in xs; }
      SortedArrangementIsUnique(xs[1..], ys[1..], le);
      assert xs == [xs[0]] + xs[1..] && ys == [ys[0]] + ys[1..];
    }
  }

  /** Sorting forgets the order its input came in. */
  lemma SortIgnoresInputOrder<T(!new)>(xs: seq<T>, ys: seq<T>, le: (T, T) -> bool)
    requires multiset(xs) == multiset(ys) && TotalPreorder(le) && Untied(xs, le)
    ensures Sort(xs, le) == Sort(ys, le)
  {
    SortIsPermutation(xs, le);
    SortIsPermutation(ys, le);
    SortIsSorted(xs, le);
    SortIsSorted(ys, le);
    SortedArrangementIsUnique(Sort(xs, le), Sort(ys, le), le);
  }

  lemma StringsAreUntied(xs: seq<string>)
    ensures Untied(xs, StringLe)
  {
    forall a, b | a in xs && b in xs && StringLe(a, b) && StringLe(b, a) ensures a == b {
      StringLeAntisymmetric(a, b);
    }
  }

  /** The members of a finite set, each once, in some order. */
  ghost function Listed<T(!new)>(s: set<T>): (xs: seq<T>)
    ensures forall x :: x in xs <==> x in s
    ensures forall i, j :: 0 <= i < j < |xs| ==> xs[i] != xs[j]
    ensures |xs| == |s|
  {
    if s == {} then [] else
      var x :| x in s;
      [x] + Listed(s - {x})
  }

  /** `sorted(...)` of a set of strings. */
  ghost function SortedStrings(s: set<string>): (xs: seq<string>)
    ensures forall x :: x in xs <==> x in s
  {
    SortIsPermutation(Listed(s), StringLe);
    Sort(Listed(s), StringLe)
  }

  lemma MultisetOfDistinct<T(!new)>(xs: seq<T>, x: T)
    requires forall i, j :: 0 <= i < j < |xs| ==> xs[i] != xs[j]
    ensures multiset(xs)[x] == if x in xs then 1 else 0
  {
    if xs != [] {
      MultisetOfDistinct(xs[1..], x);
      assert xs == [xs[0]] + xs[1..];
    }
  }

  lemma SameMembersSameMultiset<T(!new)>(xs: seq<T>, ys: seq<T>)
    requires forall x :: x in xs <==> x in ys
    requires forall i, j :: 0 <= i < j < |xs| ==> xs[i] != xs[j]
    requires forall i, j :: 0 <= i < j < |ys| ==> ys[i] != ys[j]
    ensures multiset(xs) == multiset(ys)
  {
    forall x ensures multiset(xs)[x] == multiset(ys)[x] {
      MultisetOfDistinct(xs, x);
      MultisetOfDistinct(ys, x);
    }
  }

  /** A duplicate-free sorted listing of a set is the sorted listing of that set. */
  lemma SortedStringsAre(xs: seq<string>, s: set<string>)
    requires forall x :: x in xs <==> x in s
    requires forall i, j :: 0 <= i < j < |xs| ==> xs[i] != xs[j]
    ensures Sort(xs, StringLe) == SortedStrings(s)
  {
    var ys := Listed(s);
    SameMembersSameMultiset(xs, ys);
    StringLeIsTotalPreorder();
    StringsAreUntied(xs);
    SortIgnoresInputOrder(xs, ys, StringLe);
  }

  lemma RepeatedMemberCountsTwice<T>(xs: seq<T>, i: nat, j: nat)
    requires i < j < |xs| && xs[i] == xs[j]
    ensures multiset(xs)[xs[i]] >= 2
  {
    assert xs == xs[..j] + [xs[j]] + xs[j + 1..];
    assert xs[..j][i] in multiset(xs[..j]);
  }

  lemma SortedStringsAreDistinct(s: set<string>)
    ensures forall i, j :: 0 <= i < j < |SortedStrings(s)| ==> SortedStrings(s)[i] != SortedStrings(s)[j]
  {
    var (xs, ys) := (Listed(s), SortedStrings(s));
    SortIsPermutation(xs, StringLe);
    forall i, j | 0 <= i < j < |ys| ensures ys[i] != ys[j] {
      MultisetOfDistinct(xs, ys[i]);
      if ys[i] == ys[j] { RepeatedMemberCountsTwice(ys, i, j); }
    }
  }

  /** Each member once, in increasing order. */
  ghost predicate StrictlySorted(xs: seq<string>) {
    forall i, j :: 0 <= i < j < |xs| ==> xs[i] != xs[j] && StringLe(xs[i], xs[j])
  }

  lemma SortedStringsAreOrdered(keys: set<string>)
    ensures StrictlySorted(SortedStrings(keys))
  {
    SortedStringsAreDistinct(keys);
    StringLeIsTotalPreorder();
    SortIsSorted(Listed(keys), StringLe);
  }

  /** `sorted(keys)`: the members listed in any order, then sorted. */
  method SortKeys(keys: set<string>) returns (r: seq<string>)
    ensures r == SortedStrings(keys)
  {
    var rest := keys;
    var listed: seq<string> := [];
    while rest != {}
      invariant forall x :: x in keys <==> x in listed || x in rest
      invariant forall x :: x in rest ==> x !in listed
      invariant forall i, j :: 0 <= i < j < |listed| ==> listed[i] != listed[j]
      decreases rest
    {
      var x :| x in rest;
      listed := listed + [x];
      rest := rest - {x};
    }
    SortedStringsAre(listed, keys);
    r := Sort(listed, StringLe);
  }
}
