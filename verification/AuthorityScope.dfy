/** Scopes: which locations a request names, and the two ways scopes are compared. */
module AuthorityScope {
  import opened Results
  import opened Ordering
  import opened Texts

  /** `paths` and `subjects` are sets written as lists. */
  datatype Scope = Scope(repository: string, branch: string, paths: seq<string>, subjects: seq<string>)

  datatype ScopeError = NotEnumerated | Repeated

  // ---------------------------------------------------------------- enumerated locations

  /** The text between separators; the separator is a slash. */
  function Segments(member: string): (s: seq<string>)
    ensures s != []
  {
    if member == "" then [""]
    else
      var rest := Segments(member[1..]);
      if member[0] == '/' then [""] + rest else [[member[0]] + rest[0]] + rest[1..]
  }

  predicate IsResolvedMember(member: string) {
    && member != "" && !IsSpace(member[0]) && !IsSpace(member[|member| - 1])
    && (forall i :: 0 <= i < |member| ==> member[i] !in {'*', '?', '[', ']', '{', '}', '!', '\\'})
    && member[0] != '/' && member[|member| - 1] != '/'
    && forall i :: 0 <= i < |Segments(member)| ==> Segments(member)[i] !in ["", ".", ".."]
  }

  /** A piece of the member: between its ends or slashes, without a slash in it. */
  ghost predicate PieceAt(member: string, i: int, j: int) {
    && 0 <= i <= j <= |member|
    && (i == 0 || member[i - 1] == '/') && (j == |member| || member[j] == '/')
    && forall k :: i <= k < j ==> member[k] != '/'
  }

  lemma SliceOfRest(member: string, i: int, j: int)
    requires 0 <= i <= j < |member|
    ensures member[1..][i..j] == member[i + 1..j + 1]
  {
  }

  lemma {:induction false} PieceIsSegment(member: string, i: int, j: int) returns (k: nat)
    requires PieceAt(member, i, j)
    ensures k < |Segments(member)| && Segments(member)[k] == member[i..j] && (i == 0 <==> k == 0)
  {
    if member == "" || (i == 0 && member[0] == '/') {
      k := 0;
    } else if i == 0 {
      k := PieceIsSegment(member[1..], 0, j - 1);
      assert member[..j] == [member[0]] + member[1..][..j - 1];
    } else {
      k := PieceIsSegment(member[1..], i - 1, j - 1);
      SliceOfRest(member, i - 1, j - 1);
      if member[0] == '/' { k := k + 1; }
    }
  }

  lemma {:induction false} SegmentIsPiece(member: string, k: nat) returns (i: int, j: int)
    requires k < |Segments(member)|
    ensures PieceAt(member, i, j) && Segments(member)[k] == member[i..j] && (i == 0 <==> k == 0)
  {
    if member == "" || (k == 0 && member[0] == '/') {
      i, j := 0, 0;
    } else if member[0] == '/' {
      i, j := SegmentIsPiece(member[1..], k - 1);
      SliceOfRest(member, i, j);
      i, j := i + 1, j + 1;
    } else {
      i, j := SegmentIsPiece(member[1..], k);
      if k == 0 {
        assert member[..j + 1] == [member[0]] + member[1..][..j];
        j := j + 1;
      } else {
        SliceOfRest(member, i, j);
        i, j := i + 1, j + 1;
      }
    }
  }

  lemma SegmentsArePieces(member: string)
    ensures forall i, j :: PieceAt(member, i, j) ==> member[i..j] in Segments(member)
    ensures forall k :: 0 <= k < |Segments(member)| ==>
              exists i, j :: PieceAt(member, i, j) && Segments(member)[k] == member[i..j]
  {
    forall i, j | PieceAt(member, i, j) ensures member[i..j] in Segments(member) {
      var k := PieceIsSegment(member, i, j);
    }
    forall k | 0 <= k < |Segments(member)|
      ensures exists i, j :: PieceAt(member, i, j) && Segments(member)[k] == member[i..j]
    {
      var i, j := SegmentIsPiece(member, k);
    }
  }

  lemma ResolvedSegments(member: string)
    ensures (forall k :: 0 <= k < |Segments(member)| ==> Segments(member)[k] !in ["", ".", ".."]) <==>
            forall i, j :: PieceAt(member, i, j) ==> member[i..j] != "" && member[i..j] != "." && member[i..j] != ".."
  {
    SegmentsArePieces(member);
  }

  /** A member is an enumerated location exactly when it is trimmed and not empty, holds
      no character of a pattern, and no piece of it between slashes is empty or dots. */
  lemma ResolvedExactly(member: string)
    ensures IsResolvedMember(member) <==>
            && member != "" && !IsSpace(member[0]) && !IsSpace(member[|member| - 1])
            && (forall i :: 0 <= i < |member| ==> member[i] !in "*?[]{}!\\")
            && forall i, j :: PieceAt(member, i, j) ==>
                 member[i..j] != "" && member[i..j] != "." && member[i..j] != ".."
  {
    ResolvedSegments(member);
    if member != "" {
      if member[0] == '/' { assert PieceAt(member, 0, 0); }
      if member[|member| - 1] == '/' { assert PieceAt(member, |member|, |member|); }
    }
  }

  predicate Distinct(members: seq<string>) { forall i, j :: 0 <= i < j < |members| ==> members[i] != members[j] }

  predicate AllResolved(members: seq<string>) { forall i :: 0 <= i < |members| ==> IsResolvedMember(members[i]) }

  predicate Enumerated(scope: Scope) {
    && IsResolvedMember(scope.repository) && IsResolvedMember(scope.branch)
    && AllResolved(scope.paths) && Distinct(scope.paths)
    && AllResolved(scope.subjects) && Distinct(scope.subjects)
  }

  // ---------------------------------------------------------------- the canonical form

  function CanonicalScope(scope: Scope): Scope {
    scope.(paths := Sort(scope.paths, StringLe), subjects := Sort(scope.subjects, StringLe))
  }

  method RequireMembers(members: seq<string>) returns (error: Option<ScopeError>)
    ensures error.None? <==> AllResolved(members) && Distinct(members)
  {
    var seen: set<string> := {};
    for i := 0 to |members|
      invariant seen == set j | 0 <= j < i :: members[j]
      invariant AllResolved(members[..i]) && Distinct(members[..i])
    {
      if !IsResolvedMember(members[i]) {
        return Some(NotEnumerated);
      }
      if members[i] in seen {
        return Some(Repeated);
      }
      seen := seen + {members[i]};
    }
    assert members[..|members|] == members;
    return None;
  }

  method RequireScope(scope: Scope) returns (r: Result<Scope, ScopeError>)
    ensures r.Ok? <==> Enumerated(scope)
    ensures r.Ok? ==> r.value == CanonicalScope(scope)
  {
    if !IsResolvedMember(scope.repository) || !IsResolvedMember(scope.branch) {
      return Err(NotEnumerated);
    }
    var paths := RequireMembers(scope.paths);
    if paths.Some? {
      return Err(paths.value);
    }
    var subjects := RequireMembers(scope.subjects);
    if subjects.Some? {
      return Err(subjects.value);
    }
    return Ok(CanonicalScope(scope));
  }

  /** The same location and the same members, in any order. */
  ghost predicate SameMembers(a: Scope, b: Scope) {
    && a.repository == b.repository && a.branch == b.branch
    && multiset(a.paths) == multiset(b.paths) && multiset(a.subjects) == multiset(b.subjects)
  }

  /** The canonical form keeps exactly the location and the members. */
  lemma CanonicalScopeDecides(a: Scope, b: Scope)
    ensures CanonicalScope(a) == CanonicalScope(b) <==> SameMembers(a, b)
  {
    SortDecides(a.paths, b.paths);
    SortDecides(a.subjects, b.subjects);
  }

  lemma SortDecides(xs: seq<string>, ys: seq<string>)
    ensures Sort(xs, StringLe) == Sort(ys, StringLe) <==> multiset(xs) == multiset(ys)
  {
    SortIsPermutation(xs, StringLe);
    SortIsPermutation(ys, StringLe);
    if multiset(xs) == multiset(ys) {
      StringLeIsTotalPreorder();
      StringsAreUntied(xs);
      SortIgnoresInputOrder(xs, ys, StringLe);
    }
  }

  lemma SameMultisetSameStanding(xs: seq<string>, ys: seq<string>)
    requires multiset(xs) == multiset(ys)
    ensures AllResolved(xs) <==> AllResolved(ys)
    ensures Distinct(xs) <==> Distinct(ys)
  {
    if AllResolved(xs) { ResolvedCarriesOver(xs, ys); }
    if AllResolved(ys) { ResolvedCarriesOver(ys, xs); }
    if Distinct(xs) { DistinctCarriesOver(xs, ys); }
    if Distinct(ys) { DistinctCarriesOver(ys, xs); }
  }

  lemma ResolvedCarriesOver(xs: seq<string>, ys: seq<string>)
    requires multiset(xs) == multiset(ys) && AllResolved(xs)
    ensures AllResolved(ys)
  {
    forall i | 0 <= i < |ys| ensures IsResolvedMember(ys[i]) {
      assert ys[i] in multiset(ys);
      assert ys[i] in xs;
    }
  }

  lemma DistinctCarriesOver(xs: seq<string>, ys: seq<string>)
    requires multiset(xs) == multiset(ys) && Distinct(xs)
    ensures Distinct(ys)
  {
    forall i, j | 0 <= i < j < |ys| ensures ys[i] != ys[j] {
      if ys[i] == ys[j] {
        RepeatedMemberCountsTwice(ys, i, j);
        MultisetOfDistinct(xs, ys[i]);
      }
    }
  }

  lemma SameMembersSameAdmission(a: Scope, b: Scope)
    requires SameMembers(a, b)
    ensures Enumerated(a) <==> Enumerated(b)
  {
    SameMultisetSameStanding(a.paths, b.paths);
    SameMultisetSameStanding(a.subjects, b.subjects);
  }

  // ---------------------------------------------------------------- containment and overlap

  function Members(xs: seq<string>): set<string> { set x | x in xs }

  predicate SameLocation(a: Scope, b: Scope) { a.repository == b.repository && a.branch == b.branch }

  predicate IsContained(requested: Scope, granted: Scope) {
    && SameLocation(requested, granted)
    && !(requested.paths == [] && requested.subjects == [])
    && Members(requested.paths) <= Members(granted.paths)
    && Members(requested.subjects) <= Members(granted.subjects)
  }

  predicate Overlaps(requested: Scope, forbidden: Scope) {
    && SameLocation(requested, forbidden)
    && (Members(requested.paths) * Members(forbidden.paths) != {}
        || Members(requested.subjects) * Members(forbidden.subjects) != {})
  }

  /** b names everything a names, at the same location. */
  predicate Widens(a: Scope, b: Scope) {
    SameLocation(a, b) && Members(a.paths) <= Members(b.paths) && Members(a.subjects) <= Members(b.subjects)
  }

  predicate NamesSomething(a: Scope) { a.paths != [] || a.subjects != [] }

  /** Widening a request can only add overlaps and only lose containments, and a
      non-empty request inside a scope also overlaps it. */
  lemma WideningMovesOneWay(a: Scope, b: Scope, other: Scope)
    requires Widens(a, b)
    ensures Overlaps(a, other) ==> Overlaps(b, other)
    ensures NamesSomething(a) && IsContained(b, other) ==> IsContained(a, other)
    ensures IsContained(a, other) ==> Overlaps(a, other)
  {
    forall x | x in Members(a.paths) * Members(other.paths) ensures x in Members(b.paths) * Members(other.paths) {}
    forall x | x in Members(a.subjects) * Members(other.subjects)
      ensures x in Members(b.subjects) * Members(other.subjects)
    {
    }
    if IsContained(a, other) {
      if a.paths != [] { assert a.paths[0] in Members(a.paths) * Members(other.paths); }
      if a.subjects != [] { assert a.subjects[0] in Members(a.subjects) * Members(other.subjects); }
    }
  }

  lemma CanonicalScopeKeepsMembers(a: Scope)
    ensures SameLocation(CanonicalScope(a), a) && |CanonicalScope(a).paths| == |a.paths|
    ensures |CanonicalScope(a).subjects| == |a.subjects|
    ensures Members(CanonicalScope(a).paths) == Members(a.paths)
    ensures Members(CanonicalScope(a).subjects) == Members(a.subjects)
  {
    SortIsPermutation(a.paths, StringLe);
    SortIsPermutation(a.subjects, StringLe);
  }

  /** Comparing the canonical form is comparing the scope as written. */
  lemma CanonicalScopeCompares(a: Scope, other: Scope)
    ensures IsContained(CanonicalScope(a), other) <==> IsContained(a, other)
    ensures Overlaps(CanonicalScope(a), other) <==> Overlaps(a, other)
  {
    CanonicalScopeKeepsMembers(a);
  }
}
