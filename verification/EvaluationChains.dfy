/** Contiguous evaluation chains and the supersession walk of
    `scripts/difference_contract_validator.py`. */
module EvaluationChains {
  import opened Results
  import opened Ordering

  datatype Evaluation = Evaluation(subject: string, revision: int, id: string, previous: Option<string>)

  predicate ByRevision(a: Evaluation, b: Evaluation) { a.revision <= b.revision }

  function Group(records: seq<Evaluation>, subject: string): seq<Evaluation> {
    if records == [] then []
    else
      var before := Group(records[..|records| - 1], subject);
      var x := records[|records| - 1];
      if x.subject == subject then before + [x] else before
  }

  function Subjects(records: seq<Evaluation>): set<string> { set r | r in records :: r.subject }

  predicate LinksAt(chain: seq<Evaluation>, r: nat)
    requires r < |chain|
  {
    chain[r].revision == r && chain[r].previous == if r == 0 then None else Some(chain[r - 1].id)
  }

  /** Revisions count from zero and each names the evaluation before it. */
  predicate Contiguous(chain: seq<Evaluation>) { forall r :: 0 <= r < |chain| ==> LinksAt(chain, r) }

  function ChainOf(records: seq<Evaluation>, subject: string): seq<Evaluation> {
    Sort(Group(records, subject), ByRevision)
  }

  function Groups(records: seq<Evaluation>): map<string, seq<Evaluation>> {
    map s | s in Subjects(records) :: Group(records, s)
  }

  lemma OneMoreRecord(records: seq<Evaluation>, k: nat)
    requires k < |records|
    ensures var (x, before) := (records[k], Groups(records[..k]));
            Groups(records[..k + 1]) ==
            before[x.subject := (if x.subject in before then before[x.subject] else []) + [x]]
  {
    var (xs, x) := (records[..k], records[k]);
    assert records[..k + 1] == xs + [x];
    assert (xs + [x])[..|xs|] == xs;
    assert Subjects(xs + [x]) == Subjects(xs) + {x.subject};
    if x.subject !in Subjects(xs) { NoSubjectNoGroup(xs, x.subject); }
  }

  lemma {:induction false} NoSubjectNoGroup(records: seq<Evaluation>, subject: string)
    requires subject !in Subjects(records)
    ensures Group(records, subject) == []
  {
    if records != [] {
      var n := |records| - 1;
      assert records[n] in records && records[n].subject != subject;
      forall s | s in Subjects(records[..n]) ensures s in Subjects(records) {}
      NoSubjectNoGroup(records[..n], subject);
    }
  }

  method GroupBySubject(records: seq<Evaluation>) returns (grouped: map<string, seq<Evaluation>>)
    ensures grouped == Groups(records)
  {
    grouped := map[];
    for k := 0 to |records|
      invariant grouped == Groups(records[..k])
    {
      var s := records[k].subject;
      OneMoreRecord(records, k);
      grouped := grouped[s := (if s in grouped then grouped[s] else []) + [records[k]]];
    }
    assert records[..|records|] == records;
  }

  /** Sorts each group in place by revision and keeps the contiguous ones. */
  method ContiguousChains(records: seq<Evaluation>) returns (chains: map<string, seq<Evaluation>>)
    ensures forall s :: s in chains <==> s in Subjects(records) && Contiguous(ChainOf(records, s))
    ensures forall s :: s in chains ==> chains[s] == ChainOf(records, s)
  {
    var grouped := GroupBySubject(records);
    var rest := grouped.Keys;
    chains := map[];
    while rest != {}
      invariant rest <= grouped.Keys
      invariant forall s :: s in chains <==> s in grouped.Keys - rest && Contiguous(ChainOf(records, s))
      invariant forall s :: s in chains ==> chains[s] == ChainOf(records, s)
      decreases rest
    {
      var s :| s in rest;
      rest := rest - {s};
      var chain := Sort(grouped[s], ByRevision);
      if Contiguous(chain) {
        chains := chains[s := chain];
      }
    }
  }

  /** The same selection, keeping only each chain's last evaluation. */
  method LatestContiguousEvaluations(records: seq<Evaluation>) returns (latest: map<string, Evaluation>)
    ensures forall s :: s in latest <==> s in Subjects(records) && Contiguous(ChainOf(records, s))
    ensures forall s :: s in latest ==>
            ChainOf(records, s) != [] && latest[s] == ChainOf(records, s)[|ChainOf(records, s)| - 1]
  {
    var grouped := GroupBySubject(records);
    var rest := grouped.Keys;
    latest := map[];
    while rest != {}
      invariant rest <= grouped.Keys
      invariant forall s :: s in latest <==> s in grouped.Keys - rest && Contiguous(ChainOf(records, s))
      invariant forall s :: s in latest ==>
                ChainOf(records, s) != [] && latest[s] == ChainOf(records, s)[|ChainOf(records, s)| - 1]
      decreases rest
    {
      var s :| s in rest;
      rest := rest - {s};
      var chain := Sort(grouped[s], ByRevision);
      SubjectHasChain(records, s);
      if Contiguous(chain) {
        latest := latest[s := chain[|chain| - 1]];
      }
    }
  }

  lemma {:induction false} SubjectHasGroup(records: seq<Evaluation>, subject: string)
    requires subject in Subjects(records)
    ensures Group(records, subject) != []
  {
    var n := |records| - 1;
    if records[n].subject != subject {
      var r :| r in records && r.subject == subject;
      assert records == records[..n] + [records[n]];
      assert r in records[..n];
      SubjectHasGroup(records[..n], subject);
    }
  }

  lemma SubjectHasChain(records: seq<Evaluation>, subject: string)
    requires subject in Subjects(records)
    ensures ChainOf(records, subject) != []
  {
    SubjectHasGroup(records, subject);
    SortIsPermutation(Group(records, subject), ByRevision);
  }

  // ---------------------------------------------------------------- the chain does not depend on the input order

  lemma ByRevisionIsTotalPreorder()
    ensures TotalPreorder(ByRevision)
  {
  }

  lemma ContiguousIsUntied(chain: seq<Evaluation>)
    requires Contiguous(chain)
    ensures SortedBy(chain, ByRevision) && Untied(chain, ByRevision)
  {
    forall i, j | 0 <= i < j < |chain|
      ensures ByRevision(chain[i], chain[j])
    {
      assert LinksAt(chain, i) && LinksAt(chain, j);
    }
    forall a, b | a in chain && b in chain && ByRevision(a, b) && ByRevision(b, a) ensures a == b {
      var i :| 0 <= i < |chain| && chain[i] == a;
      var j :| 0 <= j < |chain| && chain[j] == b;
      assert LinksAt(chain, i) && LinksAt(chain, j);
    }
  }

  /** Sorting finds the contiguous arrangement of a group whenever there is one. */
  lemma SortingFindsTheChain(group: seq<Evaluation>, chain: seq<Evaluation>)
    requires multiset(chain) == multiset(group) && Contiguous(chain)
    ensures Sort(group, ByRevision) == chain
  {
    ContiguousIsUntied(chain);
    ByRevisionIsTotalPreorder();
    SortIsPermutation(group, ByRevision);
    SortIsSorted(group, ByRevision);
    SortedArrangementIsUnique(chain, Sort(group, ByRevision), ByRevision);
  }

  /** A subject has a chain exactly when its evaluations, in whatever order they
      are recorded, can be arranged contiguously; the chain is that arrangement. */
  lemma ChainIsTheArrangement(records: seq<Evaluation>, subject: string)
    ensures Contiguous(ChainOf(records, subject)) <==>
            exists chain :: multiset(chain) == multiset(Group(records, subject)) && Contiguous(chain)
    ensures forall chain :: multiset(chain) == multiset(Group(records, subject)) && Contiguous(chain) ==>
              ChainOf(records, subject) == chain
  {
    SortIsPermutation(Group(records, subject), ByRevision);
    forall chain | multiset(chain) == multiset(Group(records, subject)) && Contiguous(chain)
      ensures ChainOf(records, subject) == chain
    {
      SortingFindsTheChain(Group(records, subject), chain);
    }
  }

  lemma {:induction false} GroupCounts(records: seq<Evaluation>, subject: string, x: Evaluation)
    ensures multiset(Group(records, subject))[x] == if x.subject == subject then multiset(records)[x] else 0
  {
    if records != [] {
      GroupCounts(records[..|records| - 1], subject, x);
      assert records == records[..|records| - 1] + [records[|records| - 1]];
    }
  }

  /** A list is the subject's chain exactly when it holds the subject's records, each as
      often as recorded, counts revisions from zero, and each evaluation but the first,
      which names none, names the one before it. */
  lemma ChainIsRead(records: seq<Evaluation>, subject: string, chain: seq<Evaluation>)
    ensures Contiguous(ChainOf(records, subject)) && ChainOf(records, subject) == chain <==>
            && (forall x: Evaluation :: multiset(chain)[x] == if x.subject == subject then multiset(records)[x] else 0)
            && CountsUp(chain)
  {
    var group := Group(records, subject);
    forall x: Evaluation ensures multiset(group)[x] == if x.subject == subject then multiset(records)[x] else 0 {
      GroupCounts(records, subject, x);
    }
    ChainIsTheArrangement(records, subject);
    SortIsPermutation(group, ByRevision);
    ContiguousMeans(chain);
    if forall x: Evaluation :: multiset(chain)[x] == if x.subject == subject then multiset(records)[x] else 0 {
      assert multiset(chain) == multiset(group);
    }
  }

  /** Revisions count from zero, the first names none before it, and the others the one before. */
  ghost predicate CountsUp(chain: seq<Evaluation>) {
    && (forall r :: 0 <= r < |chain| ==> chain[r].revision == r)
    && (chain != [] ==> chain[0].previous == None)
    && forall r :: 0 < r < |chain| ==> chain[r].previous == Some(chain[r - 1].id)
  }

  lemma ContiguousMeans(chain: seq<Evaluation>)
    ensures Contiguous(chain) <==> CountsUp(chain)
  {
    if Contiguous(chain) {
      forall r | 0 <= r < |chain| ensures chain[r].revision == r { assert LinksAt(chain, r); }
      if chain != [] { assert LinksAt(chain, 0); }
      forall r | 0 < r < |chain| ensures chain[r].previous == Some(chain[r - 1].id) { assert LinksAt(chain, r); }
    }
    if CountsUp(chain) {
      forall r | 0 <= r < |chain| ensures LinksAt(chain, r) {
        if r > 0 { assert chain[r].previous == Some(chain[r - 1].id); }
      }
    }
  }

  /** Reordering the records changes neither which subjects have a chain nor any chain. */
  lemma ChainsIgnoreRecordOrder(xs: seq<Evaluation>, ys: seq<Evaluation>, subject: string)
    requires multiset(xs) == multiset(ys)
    ensures Contiguous(ChainOf(xs, subject)) <==> Contiguous(ChainOf(ys, subject))
    ensures Contiguous(ChainOf(xs, subject)) ==> ChainOf(xs, subject) == ChainOf(ys, subject)
  {
    forall x ensures multiset(Group(xs, subject))[x] == multiset(Group(ys, subject))[x] {
      GroupCounts(xs, subject, x);
      GroupCounts(ys, subject, x);
    }
    assert multiset(Group(xs, subject)) == multiset(Group(ys, subject));
    ChainIsTheArrangement(xs, subject);
    ChainIsTheArrangement(ys, subject);
  }
}

module Supersession {
  import opened Results

  /** The id of a difference reference, which may be missing. */
  type Id = Option<string>

  /** Each superseded difference and the one that replaced it. */
  type Edges = map<Id, Id>

  /** Where n steps along the edges lead; nothing once a step leaves the map. */
  function After(edges: Edges, start: Id, n: nat): Option<Id> {
    if n == 0 then Some(start)
    else
      var x := After(edges, start, n - 1);
      if x.Some? && x.value in edges then Some(edges[x.value]) else None
  }

  /** However far the edges are followed, there is a next one. */
  ghost predicate NeverLeaves(edges: Edges, start: Id) {
    forall n: nat :: Inside(edges, After(edges, start, n))
  }

  predicate Inside(edges: Edges, x: Option<Id>) { x.Some? && x.value in edges }

  lemma {:induction false} ClosedSetsAreNeverLeft(edges: Edges, start: Id, s: set<Id>, n: nat)
    requires start in s && forall x :: x in s ==> x in edges && edges[x] in s
    ensures After(edges, start, n).Some? && After(edges, start, n).value in s
  {
    if n > 0 { ClosedSetsAreNeverLeft(edges, start, s, n - 1); }
  }

  /** The walk with its set of visited ids. */
  method WalkRevisits(edges: Edges, start: Id) returns (revisits: bool)
    ensures revisits <==> NeverLeaves(edges, start)
  {
    var seen: set<Id> := {};
    var current := start;
    ghost var steps: nat := 0;
    while current in edges
      invariant After(edges, start, steps) == Some(current)
      invariant seen <= edges.Keys
      invariant start in seen || start == current
      invariant forall x :: x in seen ==> edges[x] in seen || edges[x] == current
      decreases |edges.Keys - seen|
    {
      if current in seen {
        forall n: nat ensures Inside(edges, After(edges, start, n)) { ClosedSetsAreNeverLeft(edges, start, seen, n); }
        return true;
      }
      assert edges.Keys - seen == (edges.Keys - (seen + {current})) + {current};
      seen := seen + {current};
      current := edges[current];
      steps := steps + 1;
    }
    assert !Inside(edges, After(edges, start, steps));
    return false;
  }

  /** Every start whose walk is reported as a cycle. */
  method SupersessionCycles(edges: Edges) returns (reported: set<Id>)
    ensures forall start :: start in reported <==> start in edges && NeverLeaves(edges, start)
  {
    reported := {};
    var rest := edges.Keys;
    while rest != {}
      invariant rest <= edges.Keys
      invariant forall start :: start in reported <==> start in edges.Keys - rest && NeverLeaves(edges, start)
      decreases rest
    {
      var start :| start in rest;
      rest := rest - {start};
      var revisits := WalkRevisits(edges, start);
      if revisits {
        reported := reported + {start};
      }
    }
  }

  // ---------------------------------------------------------------- never leaving means running into a cycle

  lemma {:induction false} AfterAfter(edges: Edges, start: Id, i: nat, k: nat)
    requires After(edges, start, i).Some?
    ensures After(edges, start, i + k) == After(edges, After(edges, start, i).value, k)
  {
    if k > 0 { AfterAfter(edges, start, i, k - 1); }
  }

  lemma {:induction false} EarlierStepsExist(edges: Edges, start: Id, i: nat, j: nat)
    requires i <= j && After(edges, start, j).Some?
    ensures After(edges, start, i).Some? && (i < j ==> After(edges, start, i).value in edges)
  {
    if i < j { EarlierStepsExist(edges, start, i, j - 1); }
  }

  lemma {:induction false} DistinctMembersFit(xs: seq<Id>, s: set<Id>)
    requires forall i :: 0 <= i < |xs| ==> xs[i] in s
    requires forall i, j :: 0 <= i < j < |xs| ==> xs[i] != xs[j]
    ensures |xs| <= |s|
  {
    if xs != [] {
      var n := |xs| - 1;
      forall i | 0 <= i < n ensures xs[..n][i] in s - {xs[n]} {}
      DistinctMembersFit(xs[..n], s - {xs[n]});
    }
  }

  /** The two steps lead to the same id: a cycle of length j - i. */
  ghost predicate MeetsAgain(edges: Edges, start: Id, i: nat, j: nat) {
    i < j && After(edges, start, i).Some? && After(edges, start, i) == After(edges, start, j)
  }

  lemma {:induction false} MeetingAgainRepeats(edges: Edges, start: Id, i: nat, j: nat, n: nat)
    requires MeetsAgain(edges, start, i, j)
    ensures Inside(edges, After(edges, start, n))
    decreases n
  {
    if n < j {
      EarlierStepsExist(edges, start, n, j);
    } else {
      AfterAfter(edges, start, i, n - j);
      AfterAfter(edges, start, j, n - j);
      assert After(edges, start, n) == After(edges, start, i + (n - j));
      MeetingAgainRepeats(edges, start, i, j, i + (n - j));
    }
  }

  /** The edges from a start never leave the map exactly when, within as many steps
      as there are edges, they come back to an id already passed. */
  lemma NeverLeavesExactlyOnCycles(edges: Edges, start: Id)
    ensures NeverLeaves(edges, start) <==> exists i: nat, j: nat :: j <= |edges| && MeetsAgain(edges, start, i, j)
  {
    if i: nat, j: nat :| j <= |edges| && MeetsAgain(edges, start, i, j) {
      forall n: nat ensures Inside(edges, After(edges, start, n)) { MeetingAgainRepeats(edges, start, i, j, n); }
    }
    if NeverLeaves(edges, start) {
      var xs := seq(|edges| + 1, n requires 0 <= n =>
                    var x := After(edges, start, n); if x.Some? then x.value else start);
      forall i | 0 <= i < |xs| ensures xs[i] in edges.Keys { assert Inside(edges, After(edges, start, i)); }
      if forall i, j :: 0 <= i < j < |xs| ==> xs[i] != xs[j] { DistinctMembersFit(xs, edges.Keys); }
      var i, j :| 0 <= i < j < |xs| && xs[i] == xs[j];
      assert Inside(edges, After(edges, start, i)) && Inside(edges, After(edges, start, j));
      assert MeetsAgain(edges, start, i, j);
    }
  }
}
