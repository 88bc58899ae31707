/** Partitioning collected tests into shards, as `scripts/run_test_shard.py` does. */
module ShardScheduler {
  import opened Results
  import opened Ordering
  import opened ListScheduling

  const REDERIVATION_MODULE := "tests/contract/v1_0_acceptance/test_gate22_rederivation.py"
  const NEGATIVE_CONTROLS_MODULE := "tests/contract/v1_0_acceptance/test_v1_0_acceptance_negative_controls.py"
  const LONG_RUNNING_MODULE := "tests/long_running_proof/test_long_running_proof_gate_20.py"
  const SHARED_GROUP := "shared_real_gate22_receipt"

  datatype Refusal = InvalidPartitionRequest

  // ---------------------------------------------------------------- groups

  /** The part of a test id before its first "::". */
  function ModuleOf(node: string): string {
    if |node| < 2 then node
    else if node[0] == ':' && node[1] == ':' then ""
    else [node[0]] + ModuleOf(node[1..])
  }

  /** Tests of one group must stay on one shard. */
  function GroupOf(node: string): string {
    var m := ModuleOf(node);
    if m == REDERIVATION_MODULE || m == NEGATIVE_CONTROLS_MODULE then SHARED_GROUP else m
  }

  function Kept(nodes: seq<string>, keep: string -> bool): seq<string> {
    if nodes == [] then []
    else
      var (before, x) := (Kept(nodes[..|nodes| - 1], keep), nodes[|nodes| - 1]);
      if keep(x) then before + [x] else before
  }

  function Members(nodes: seq<string>, g: string): seq<string> { Kept(nodes, x => GroupOf(x) == g) }

  function GroupNames(nodes: seq<string>): set<string> { set x | x in nodes :: GroupOf(x) }

  function Groups(nodes: seq<string>): map<string, seq<string>> { map g | g in GroupNames(nodes) :: Members(nodes, g) }

  lemma {:induction false} KeptCounts(nodes: seq<string>, keep: string -> bool, x: string)
    ensures multiset(Kept(nodes, keep))[x] == if keep(x) then multiset(nodes)[x] else 0
  {
    if nodes != [] {
      KeptCounts(nodes[..|nodes| - 1], keep, x);
      assert nodes == nodes[..|nodes| - 1] + [nodes[|nodes| - 1]];
    }
  }

  lemma MembersAre(nodes: seq<string>, g: string)
    ensures forall x :: x in Members(nodes, g) <==> x in nodes && GroupOf(x) == g
    ensures g in GroupNames(nodes) <==> Members(nodes, g) != []
  {
    forall x ensures x in Members(nodes, g) <==> x in nodes && GroupOf(x) == g {
      KeptCounts(nodes, y => GroupOf(y) == g, x);
      assert x in Members(nodes, g) <==> x in multiset(Members(nodes, g));
      assert x in nodes <==> x in multiset(nodes);
    }
    if Members(nodes, g) != [] { assert Members(nodes, g)[0] in nodes; }
  }

  lemma OneMoreNode(nodes: seq<string>, k: nat)
    requires k < |nodes|
    ensures var (g, before) := (GroupOf(nodes[k]), Groups(nodes[..k]));
            Groups(nodes[..k + 1]) == before[g := (if g in before then before[g] else []) + [nodes[k]]]
  {
    var (xs, x) := (nodes[..k], nodes[k]);
    var g := GroupOf(x);
    assert nodes[..k + 1] == xs + [x];
    assert GroupNames(xs + [x]) == GroupNames(xs) + {g};
    assert (xs + [x])[..|xs|] == xs;
    MembersAre(xs, g);
  }

  /** The dictionary of lists, filled one test at a time. */
  method GroupNodes(nodes: seq<string>) returns (groups: map<string, seq<string>>)
    ensures groups == Groups(nodes)
  {
    groups := map[];
    for k := 0 to |nodes|
      invariant groups == Groups(nodes[..k])
    {
      var g := GroupOf(nodes[k]);
      OneMoreNode(nodes, k);
      groups := groups[g := (if g in groups then groups[g] else []) + [nodes[k]]];
    }
    assert nodes[..|nodes|] == nodes;
  }

  // ---------------------------------------------------------------- the order of the groups

  datatype Job = Job(name: string, nodes: seq<string>)

  /** Largest group first, ties by name. */
  predicate LargerFirst(a: Job, b: Job) {
    |a.nodes| > |b.nodes| || (|a.nodes| == |b.nodes| && StringLe(a.name, b.name))
  }

  lemma LargerFirstIsTotalPreorder()
    ensures TotalPreorder(LargerFirst)
  {
    forall a, b ensures LargerFirst(a, b) || LargerFirst(b, a) { StringLeTotal(a.name, b.name); }
    forall a, b, c | LargerFirst(a, b) && LargerFirst(b, c) ensures LargerFirst(a, c) {
      if StringLe(a.name, b.name) && StringLe(b.name, c.name) { StringLeTransitive(a.name, b.name, c.name); }
    }
  }

  function JobsOf(groups: map<string, seq<string>>): set<Job> { set g | g in groups :: Job(g, groups[g]) }

  ghost function Ordered(groups: map<string, seq<string>>): seq<Job> { Sort(Listed(JobsOf(groups)), LargerFirst) }

  function Sizes(jobs: seq<Job>): (sizes: seq<nat>)
    ensures |sizes| == |jobs|
  {
    seq(|jobs|, k requires 0 <= k < |jobs| => |jobs[k].nodes|)
  }

  lemma OrderedIsLongestFirst(groups: map<string, seq<string>>)
    ensures LongestFirst(Sizes(Ordered(groups)))
    ensures forall j :: j in Ordered(groups) <==> j in JobsOf(groups)
    ensures forall i, j :: 0 <= i < j < |Ordered(groups)| ==> Ordered(groups)[i].name != Ordered(groups)[j].name
  {
    var (listed, order) := (Listed(JobsOf(groups)), Ordered(groups));
    LargerFirstIsTotalPreorder();
    SortIsSorted(listed, LargerFirst);
    SortIsPermutation(listed, LargerFirst);
    forall i, j | 0 <= i < j < |order| ensures order[i].name != order[j].name {
      if order[i].name == order[j].name {
        assert order[i] in JobsOf(groups) && order[j] in JobsOf(groups);
        MultisetOfDistinct(listed, order[i]);
        RepeatedMemberCountsTwice(order, i, j);
      }
    }
  }

  method SortGroups(groups: map<string, seq<string>>) returns (order: seq<Job>)
    ensures order == Ordered(groups)
  {
    var rest := groups.Keys;
    var listed: seq<Job> := [];
    while rest != {}
      invariant rest <= groups.Keys
      invariant forall j :: j in JobsOf(groups) <==> j in listed || (j.name in rest && j.nodes == groups[j.name])
      invariant forall j :: j in listed ==> j.name !in rest
      invariant forall i, j :: 0 <= i < j < |listed| ==> listed[i] != listed[j]
      decreases rest
    {
      var g :| g in rest;
      listed := listed + [Job(g, groups[g])];
      rest := rest - {g};
    }
    AnyListingSortsAlike(groups, listed);
    order := Sort(listed, LargerFirst);
  }

  lemma JobsAreUntied(groups: map<string, seq<string>>, listed: seq<Job>)
    requires forall j :: j in listed ==> j in JobsOf(groups)
    ensures Untied(listed, LargerFirst)
  {
    forall a, b | a in listed && b in listed && LargerFirst(a, b) && LargerFirst(b, a) ensures a == b {
      StringLeAntisymmetric(a.name, b.name);
      assert a in JobsOf(groups) && b in JobsOf(groups);
    }
  }

  lemma AnyListingSortsAlike(groups: map<string, seq<string>>, listed: seq<Job>)
    requires forall j :: j in JobsOf(groups) <==> j in listed
    requires forall i, j :: 0 <= i < j < |listed| ==> listed[i] != listed[j]
    ensures Sort(listed, LargerFirst) == Ordered(groups)
  {
    var other := Listed(JobsOf(groups));
    SameMembersSameMultiset(listed, other);
    JobsAreUntied(groups, listed);
    LargerFirstIsTotalPreorder();
    SortIgnoresInputOrder(listed, other, LargerFirst);
  }

  // ---------------------------------------------------------------- the plan

  predicate NoDuplicates(nodes: seq<string>) { forall i, j :: 0 <= i < j < |nodes| ==> nodes[i] != nodes[j] }

  predicate ReservesShared(nodes: seq<string>, count: nat) { SHARED_GROUP in GroupNames(nodes) && count > 1 }

  function AfterShared(nodes: seq<string>, count: nat): nat {
    if ReservesShared(nodes, count) then count - 1 else count
  }

  predicate ReservesProof(nodes: seq<string>, count: nat) {
    LONG_RUNNING_MODULE in GroupNames(nodes) && AfterShared(nodes, count) > 1
  }

  /** How many shards the ordinary groups are balanced over. */
  function Regular(nodes: seq<string>, count: nat): (r: nat)
    ensures r <= count && (count > 0 ==> r > 0)
  {
    if ReservesProof(nodes, count) then AfterShared(nodes, count) - 1 else AfterShared(nodes, count)
  }

  function Reserved(nodes: seq<string>, count: nat): set<string> {
    (if ReservesShared(nodes, count) then {SHARED_GROUP} else {})
    + (if ReservesProof(nodes, count) then {LONG_RUNNING_MODULE} else {})
  }

  function RegularGroups(nodes: seq<string>, count: nat): map<string, seq<string>> {
    Groups(nodes) - Reserved(nodes, count)
  }

  ghost function Jobs(nodes: seq<string>, count: nat): seq<Job> { Ordered(RegularGroups(nodes, count)) }

  ghost function Placement(nodes: seq<string>, count: nat): (place: seq<nat>)
    requires count > 0
    ensures |place| == |Jobs(nodes, count)| && forall k :: 0 <= k < |place| ==> place[k] < Regular(nodes, count)
  {
    Choices(Regular(nodes, count), Sizes(Jobs(nodes, count)))
  }

  /** The sorted tests of the jobs placed on machine i, job after job. */
  function Packed(jobs: seq<Job>, place: seq<nat>, i: nat): seq<string>
    requires |place| == |jobs|
  {
    if jobs == [] then []
    else
      var n := |jobs| - 1;
      Packed(jobs[..n], place[..n], i) + if place[n] == i then Sort(jobs[n].nodes, StringLe) else []
  }

  /** Which group a shard is reserved for, if any. */
  function ReservedFor(nodes: seq<string>, count: nat, i: nat): Option<string> {
    if ReservesShared(nodes, count) && i == count - 1 then Some(SHARED_GROUP)
    else if ReservesProof(nodes, count) && i == Regular(nodes, count) then Some(LONG_RUNNING_MODULE)
    else None
  }

  ghost function Shard(nodes: seq<string>, count: nat, i: nat): seq<string>
    requires i < count
  {
    match ReservedFor(nodes, count, i)
    case Some(g) => Sort(Members(nodes, g), StringLe)
    case None => Packed(Jobs(nodes, count), Placement(nodes, count), i)
  }

  lemma {:induction false} PackedLoad(r: nat, jobs: seq<Job>, place: seq<nat>, i: nat)
    requires Places(r, Sizes(jobs), place) && i < r
    ensures |Packed(jobs, place, i)| == Assigned(r, Sizes(jobs), place)[i]
  {
    if jobs != [] {
      var n := |jobs| - 1;
      assert Sizes(jobs)[..n] == Sizes(jobs[..n]);
      PackedLoad(r, jobs[..n], place[..n], i);
      SortIsPermutation(jobs[n].nodes, StringLe);
    }
  }

  /** One more job goes to the lightest regular shard. */
  lemma OneMoreJob(r: nat, jobs: seq<Job>, k: nat, loads: seq<nat>)
    requires r > 0 && k < |jobs| && |loads| == r
    requires forall i :: 0 <= i < r ==> loads[i] == |Packed(jobs[..k], Choices(r, Sizes(jobs[..k])), i)|
    ensures Choices(r, Sizes(jobs[..k + 1])) == Choices(r, Sizes(jobs[..k])) + [Lightest(loads)]
  {
    var place := Choices(r, Sizes(jobs[..k]));
    forall i | 0 <= i < r
      ensures loads[i] == Assigned(r, Sizes(jobs[..k]), place)[i]
    {
      PackedLoad(r, jobs[..k], place, i);
    }
    assert loads == Assigned(r, Sizes(jobs[..k]), place);
    assert Sizes(jobs[..k + 1])[..k] == Sizes(jobs[..k]);
  }

  lemma PackedOneMore(jobs: seq<Job>, k: nat, place: seq<nat>, target: nat, i: nat)
    requires k < |jobs| && |place| == k
    ensures Packed(jobs[..k + 1], place + [target], i) ==
            Packed(jobs[..k], place, i) + if target == i then Sort(jobs[k].nodes, StringLe) else []
  {
    assert jobs[..k + 1][..k] == jobs[..k] && (place + [target])[..k] == place;
  }

  /** Puts each group in turn on the first shard of least length. */
  method Balance(reserved: seq<seq<string>>, r: nat, jobs: seq<Job>) returns (partitions: seq<seq<string>>)
    requires 0 < r <= |reserved| && forall i :: 0 <= i < r ==> reserved[i] == []
    ensures |partitions| == |reserved|
    ensures forall i :: 0 <= i < r ==> partitions[i] == Packed(jobs, Choices(r, Sizes(jobs)), i)
    ensures forall i :: r <= i < |reserved| ==> partitions[i] == reserved[i]
  {
    partitions := reserved;
    ghost var place: seq<nat> := [];
    for k := 0 to |jobs|
      invariant |partitions| == |reserved| && |place| == k
      invariant place == Choices(r, Sizes(jobs[..k]))
      invariant forall i :: 0 <= i < r ==> partitions[i] == Packed(jobs[..k], place, i)
      invariant forall i :: r <= i < |reserved| ==> partitions[i] == reserved[i]
    {
      var loads := seq(r, i requires 0 <= i < r => |partitions[i]|);
      var target := Lightest(loads);
      OneMoreJob(r, jobs, k, loads);
      var before := partitions;
      partitions := partitions[target := partitions[target] + Sort(jobs[k].nodes, StringLe)];
      forall i | 0 <= i < r ensures partitions[i] == Packed(jobs[..k + 1], place + [target], i) {
        PackedOneMore(jobs, k, place, target, i);
        assert partitions[i] == before[i] + if target == i then Sort(jobs[k].nodes, StringLe) else [];
      }
      place := place + [target];
    }
    assert jobs[..|jobs|] == jobs;
  }

  ghost predicate ReservedAsPlanned(nodes: seq<string>, count: nat, partitions: seq<seq<string>>) {
    && |partitions| == count
    && (forall i :: 0 <= i < Regular(nodes, count) ==> partitions[i] == [])
    && (forall i :: Regular(nodes, count) <= i < count ==> partitions[i] == Shard(nodes, count, i))
  }

  /** Gives the shared group, and then the long-running module, a shard of its
      own at the end, as long as more than one shard is left. */
  method Reserve(nodes: seq<string>, count: nat, groups: map<string, seq<string>>)
    returns (partitions: seq<seq<string>>, regular: nat, modules: map<string, seq<string>>)
    requires count > 0 && groups == Groups(nodes)
    ensures regular == Regular(nodes, count) && modules == RegularGroups(nodes, count)
    ensures ReservedAsPlanned(nodes, count, partitions)
  {
    MembersAre(nodes, SHARED_GROUP);
    partitions := seq(count, _ => []);
    modules := groups;
    var shared := if SHARED_GROUP in modules then modules[SHARED_GROUP] else [];
    modules := modules - {SHARED_GROUP};
    regular := count;
    if shared != [] && count > 1 {
      partitions := partitions[count - 1 := Sort(shared, StringLe)];
      regular := regular - 1;
    } else if shared != [] {
      modules := modules[SHARED_GROUP := shared];
    }
    assert regular == AfterShared(nodes, count);
    assert modules == groups - (if ReservesShared(nodes, count) then {SHARED_GROUP} else {});
    if LONG_RUNNING_MODULE in modules && regular > 1 {
      regular := regular - 1;
      partitions := partitions[regular := Sort(modules[LONG_RUNNING_MODULE], StringLe)];
      modules := modules - {LONG_RUNNING_MODULE};
    }
  }

  method PartitionNodes(nodes: seq<string>, count: int) returns (r: Result<seq<seq<string>>, Refusal>)
    ensures r.Ok? <==>
            count > 0 && nodes != [] && forall i, j :: 0 <= i < j < |nodes| ==> nodes[i] != nodes[j]
    ensures r.Ok? ==> FollowsPlan(nodes, count, r.value)
  {
    if count <= 0 || nodes == [] || !NoDuplicates(nodes) {
      return Err(InvalidPartitionRequest);
    }
    var groups := GroupNodes(nodes);
    var partitions, regular, modules := Reserve(nodes, count, groups);
    var order := SortGroups(modules);
    partitions := Balance(partitions, regular, order);
    return Ok(partitions);
  }

  // ---------------------------------------------------------------- what the plan guarantees

  ghost function IndexOf(jobs: seq<Job>, g: string): (k: nat)
    requires exists k :: 0 <= k < |jobs| && jobs[k].name == g
    ensures k < |jobs| && jobs[k].name == g
  {
    var k :| 0 <= k < |jobs| && jobs[k].name == g; k
  }

  /** The shard that runs group g. */
  ghost function Home(nodes: seq<string>, count: nat, g: string): nat
    requires count > 0 && g in GroupNames(nodes)
  {
    if ReservesShared(nodes, count) && g == SHARED_GROUP then count - 1
    else if ReservesProof(nodes, count) && g == LONG_RUNNING_MODULE then Regular(nodes, count)
    else
      JobOfGroup(nodes, count, g);
      Placement(nodes, count)[IndexOf(Jobs(nodes, count), g)]
  }

  lemma JobOfGroup(nodes: seq<string>, count: nat, g: string)
    requires g in RegularGroups(nodes, count)
    ensures exists k :: 0 <= k < |Jobs(nodes, count)| && Jobs(nodes, count)[k].name == g
  {
    var groups := RegularGroups(nodes, count);
    OrderedIsLongestFirst(groups);
    assert Job(g, groups[g]) in JobsOf(groups);
    var k :| 0 <= k < |Ordered(groups)| && Ordered(groups)[k] == Job(g, groups[g]);
    assert Jobs(nodes, count)[k].name == g;
  }

  lemma JobsHoldGroups(nodes: seq<string>, count: nat)
    ensures forall k :: 0 <= k < |Jobs(nodes, count)| ==>
              HoldsGroup(nodes, Jobs(nodes, count)[k]) && Jobs(nodes, count)[k].name in RegularGroups(nodes, count)
    ensures forall j, k :: 0 <= j < k < |Jobs(nodes, count)| ==>
            Jobs(nodes, count)[j].name != Jobs(nodes, count)[k].name
    ensures LongestFirst(Sizes(Jobs(nodes, count)))
  {
    OrderedIsLongestFirst(RegularGroups(nodes, count));
    forall k | 0 <= k < |Jobs(nodes, count)|
      ensures HoldsGroup(nodes, Jobs(nodes, count)[k]) && Jobs(nodes, count)[k].name in RegularGroups(nodes, count)
    {
      assert Jobs(nodes, count)[k] in JobsOf(RegularGroups(nodes, count));
    }
  }

  /** Job k holds exactly the tests of its group. */
  ghost predicate HoldsGroup(nodes: seq<string>, job: Job) { job.nodes == Members(nodes, job.name) }

  /** The job of group g is placed on machine i. */
  ghost predicate PlacedOn(jobs: seq<Job>, place: seq<nat>, g: string, i: nat)
    requires |place| == |jobs|
  {
    exists k :: 0 <= k < |jobs| && jobs[k].name == g && place[k] == i
  }

  lemma PlacedOnBySplitting(jobs: seq<Job>, place: seq<nat>, g: string, i: nat)
    requires |place| == |jobs| && jobs != []
    ensures var n := |jobs| - 1;
            PlacedOn(jobs, place, g, i) <==>
            PlacedOn(jobs[..n], place[..n], g, i) || (jobs[n].name == g && place[n] == i)
  {
    var n := |jobs| - 1;
    if k :| 0 <= k < |jobs| && jobs[k].name == g && place[k] == i {
      if k < n { assert jobs[..n][k].name == g && place[..n][k] == i; }
    }
    if k :| 0 <= k < n && jobs[..n][k].name == g && place[..n][k] == i { assert jobs[k].name == g && place[k] == i; }
  }

  lemma EarlierJobsDiffer(jobs: seq<Job>, place: seq<nat>, i: nat)
    requires |place| == |jobs| && jobs != []
    requires forall j, k :: 0 <= j < k < |jobs| ==> jobs[j].name != jobs[k].name
    ensures !PlacedOn(jobs[..|jobs| - 1], place[..|jobs| - 1], jobs[|jobs| - 1].name, i)
  {
  }

  lemma SortedMembersCount(nodes: seq<string>, g: string, x: string)
    ensures multiset(Sort(Members(nodes, g), StringLe))[x] == if GroupOf(x) == g then multiset(nodes)[x] else 0
  {
    SortIsPermutation(Members(nodes, g), StringLe);
    KeptCounts(nodes, y => GroupOf(y) == g, x);
  }

  lemma {:induction false} PackedCounts(nodes: seq<string>, jobs: seq<Job>, place: seq<nat>, i: nat, x: string)
    requires |place| == |jobs| && forall k :: 0 <= k < |jobs| ==> HoldsGroup(nodes, jobs[k])
    requires forall j, k :: 0 <= j < k < |jobs| ==> jobs[j].name != jobs[k].name
    ensures multiset(Packed(jobs, place, i))[x] ==
            if PlacedOn(jobs, place, GroupOf(x), i) then multiset(nodes)[x] else 0
  {
    if jobs != [] {
      var n := |jobs| - 1;
      PackedCounts(nodes, jobs[..n], place[..n], i, x);
      assert HoldsGroup(nodes, jobs[n]);
      SortedMembersCount(nodes, jobs[n].name, x);
      PlacedOnBySplitting(jobs, place, GroupOf(x), i);
      if GroupOf(x) == jobs[n].name { EarlierJobsDiffer(jobs, place, i); }
    }
  }

  lemma PlacedAtIndex(jobs: seq<Job>, place: seq<nat>, g: string, i: nat)
    requires |place| == |jobs| && exists k :: 0 <= k < |jobs| && jobs[k].name == g
    requires forall j, k :: 0 <= j < k < |jobs| ==> jobs[j].name != jobs[k].name
    ensures PlacedOn(jobs, place, g, i) <==> place[IndexOf(jobs, g)] == i
  {
  }

  lemma PlacedAtHome(nodes: seq<string>, count: nat, g: string, i: nat)
    requires i < count && g in GroupNames(nodes)
    ensures PlacedOn(Jobs(nodes, count), Placement(nodes, count), g, i) <==>
            g in RegularGroups(nodes, count) && Home(nodes, count, g) == i
  {
    JobsHoldGroups(nodes, count);
    if g in RegularGroups(nodes, count) {
      JobOfGroup(nodes, count, g);
      PlacedAtIndex(Jobs(nodes, count), Placement(nodes, count), g, i);
      assert Home(nodes, count, g) == Placement(nodes, count)[IndexOf(Jobs(nodes, count), g)];
    } else {
      assert !PlacedOn(Jobs(nodes, count), Placement(nodes, count), g, i);
    }
  }

  lemma RegularShardCounts(nodes: seq<string>, count: nat, i: nat, x: string)
    requires i < count && x in nodes
    ensures multiset(Packed(Jobs(nodes, count), Placement(nodes, count), i))[x] ==
            if GroupOf(x) in RegularGroups(nodes, count) && Home(nodes, count, GroupOf(x)) == i
            then multiset(nodes)[x] else 0
  {
    JobsHoldGroups(nodes, count);
    PackedCounts(nodes, Jobs(nodes, count), Placement(nodes, count), i, x);
    PlacedAtHome(nodes, count, GroupOf(x), i);
  }

  lemma HomeIsOrdinary(nodes: seq<string>, count: nat, g: string)
    requires count > 0 && g in RegularGroups(nodes, count)
    ensures Home(nodes, count, g) < Regular(nodes, count)
  {
    JobOfGroup(nodes, count, g);
  }

  lemma HomeIsReserved(nodes: seq<string>, count: nat, g: string, i: nat)
    requires i < count && g in GroupNames(nodes)
    ensures Home(nodes, count, g) < count
    ensures match ReservedFor(nodes, count, i)
            case Some(owner) => Home(nodes, count, g) == i <==> g == owner
            case None => Home(nodes, count, g) == i ==> g in RegularGroups(nodes, count)
  {
    if g in RegularGroups(nodes, count) { HomeIsOrdinary(nodes, count, g); }
  }

  /** A test is on the shard of its group, once, and on no other shard. */
  lemma ShardCounts(nodes: seq<string>, count: nat, i: nat, x: string)
    requires i < count && x in nodes
    ensures Home(nodes, count, GroupOf(x)) < count
    ensures multiset(Shard(nodes, count, i))[x] == if Home(nodes, count, GroupOf(x)) == i then multiset(nodes)[x] else 0
  {
    HomeIsReserved(nodes, count, GroupOf(x), i);
    match ReservedFor(nodes, count, i)
    case Some(owner) => SortedMembersCount(nodes, owner, x);
    case None => RegularShardCounts(nodes, count, i, x);
  }

  lemma ShardsInventNothing(nodes: seq<string>, count: nat, i: nat, x: string)
    requires i < count && x in Shard(nodes, count, i)
    ensures x in nodes
  {
    assert x in multiset(Shard(nodes, count, i));
    if x !in multiset(nodes) {
      match ReservedFor(nodes, count, i) {
        case Some(g) => SortedMembersCount(nodes, g, x);
        case None =>
          JobsHoldGroups(nodes, count);
          PackedCounts(nodes, Jobs(nodes, count), Placement(nodes, count), i, x);
      }
    }
  }

  /** All shards, one after another. */
  function Concatenated(shards: seq<seq<string>>): seq<string> {
    if shards == [] then [] else Concatenated(shards[..|shards| - 1]) + shards[|shards| - 1]
  }

  lemma {:induction false} HeldOnce(shards: seq<seq<string>>, holder: nat, x: string)
    requires forall i :: 0 <= i < |shards| && i != holder ==> multiset(shards[i])[x] == 0
    ensures multiset(Concatenated(shards))[x] == if holder < |shards| then multiset(shards[holder])[x] else 0
  {
    if shards != [] { HeldOnce(shards[..|shards| - 1], holder, x); }
  }

  ghost predicate FollowsPlan(nodes: seq<string>, count: nat, shards: seq<seq<string>>) {
    |shards| == count && forall i :: 0 <= i < count ==> shards[i] == Shard(nodes, count, i)
  }

  lemma PlanCounts(nodes: seq<string>, count: nat, shards: seq<seq<string>>, x: string)
    requires count > 0 && FollowsPlan(nodes, count, shards)
    ensures multiset(Concatenated(shards))[x] == multiset(nodes)[x]
  {
    if x in nodes {
      var home := Home(nodes, count, GroupOf(x));
      forall i | 0 <= i < count && i != home ensures multiset(shards[i])[x] == 0 { ShardCounts(nodes, count, i, x); }
      ShardCounts(nodes, count, 0, x);
      ShardCounts(nodes, count, home, x);
      HeldOnce(shards, home, x);
    } else {
      forall i | 0 <= i < count ensures multiset(shards[i])[x] == 0 {
        if x in shards[i] { ShardsInventNothing(nodes, count, i, x); }
      }
      HeldOnce(shards, count, x);
    }
  }

  /** The plan is an exact partition, and two tests share a shard whenever they
      share a group. */
  lemma PlanIsExactPartition(nodes: seq<string>, count: nat, shards: seq<seq<string>>)
    requires count > 0 && FollowsPlan(nodes, count, shards)
    ensures multiset(Concatenated(shards)) == multiset(nodes)
    ensures forall i, x, y :: 0 <= i < count && x in shards[i] && y in nodes && GroupOf(x) == GroupOf(y) ==>
            y in shards[i]
  {
    forall x ensures multiset(Concatenated(shards))[x] == multiset(nodes)[x] { PlanCounts(nodes, count, shards, x); }
    forall i, x, y | 0 <= i < count && x in shards[i] && y in nodes && GroupOf(x) == GroupOf(y) ensures y in shards[i] {
      TogetherOnShard(nodes, count, i, x, y);
    }
  }

  lemma TogetherOnShard(nodes: seq<string>, count: nat, i: nat, x: string, y: string)
    requires i < count && x in Shard(nodes, count, i) && y in nodes && GroupOf(x) == GroupOf(y)
    ensures y in Shard(nodes, count, i)
  {
    ShardsInventNothing(nodes, count, i, x);
    assert x in multiset(Shard(nodes, count, i)) && y in multiset(nodes);
    ShardCounts(nodes, count, i, x);
    ShardCounts(nodes, count, i, y);
    assert y in multiset(Shard(nodes, count, i));
  }

  // ---------------------------------------------------------------- how balanced the plan is

  /** Some distribution of the ordinary groups over r shards. */
  type Distribution = string -> nat

  /** The tests a distribution puts on shard j. */
  function Sent(nodes: seq<string>, count: nat, other: Distribution, j: nat): seq<string> {
    Kept(nodes, x => GroupOf(x) in RegularGroups(nodes, count) && other(GroupOf(x)) == j)
  }

  function PlaceOf(jobs: seq<Job>, other: Distribution): (place: seq<nat>)
    ensures |place| == |jobs|
  {
    seq<nat>(|jobs|, k requires 0 <= k < |jobs| => other(jobs[k].name))
  }

  ghost predicate Uses(nodes: seq<string>, count: nat, other: Distribution, r: nat) {
    forall g :: g in RegularGroups(nodes, count) ==> other(g) < r
  }

  lemma SentIsAssigned(nodes: seq<string>, count: nat, other: Distribution, r: nat, j: nat)
    requires Uses(nodes, count, other, r) && j < r
    ensures var jobs := Jobs(nodes, count);
            && Places(r, Sizes(jobs), PlaceOf(jobs, other))
            && Assigned(r, Sizes(jobs), PlaceOf(jobs, other))[j] == |Sent(nodes, count, other, j)|
  {
    var jobs := Jobs(nodes, count);
    var place := PlaceOf(jobs, other);
    JobsHoldGroups(nodes, count);
    PackedLoad(r, jobs, place, j);
    var (packed, sent) := (Packed(jobs, place, j), Sent(nodes, count, other, j));
    forall x ensures multiset(packed)[x] == multiset(sent)[x] {
      PackedCounts(nodes, jobs, place, j, x);
      KeptCounts(nodes, y => GroupOf(y) in RegularGroups(nodes, count) && other(GroupOf(y)) == j, x);
      if GroupOf(x) in RegularGroups(nodes, count) { JobOfGroup(nodes, count, GroupOf(x)); }
    }
    assert multiset(packed) == multiset(sent);
    assert |packed| == |multiset(packed)| && |sent| == |multiset(sent)|;
  }

  lemma RegularShardIsGreedy(nodes: seq<string>, count: nat, i: nat)
    requires count > 0 && i < Regular(nodes, count)
    ensures |Shard(nodes, count, i)| == Greedy(Regular(nodes, count), Sizes(Jobs(nodes, count)))[i]
  {
    PackedLoad(Regular(nodes, count), Jobs(nodes, count), Placement(nodes, count), i);
  }

  ghost predicate LargestGroup(nodes: seq<string>, count: nat, largest: nat) {
    forall g :: g in RegularGroups(nodes, count) ==> |Members(nodes, g)| <= largest
  }

  lemma {:induction false} KeptAlike(nodes: seq<string>, p: string -> bool, q: string -> bool)
    requires forall x :: p(x) == q(x)
    ensures Kept(nodes, p) == Kept(nodes, q)
  {
    if nodes != [] { KeptAlike(nodes[..|nodes| - 1], p, q); }
  }

  lemma RegularWork(nodes: seq<string>, count: nat)
    ensures Sum(Sizes(Jobs(nodes, count))) == |Kept(nodes, x => GroupOf(x) in RegularGroups(nodes, count))|
  {
    var other: Distribution := _ => 0;
    SentIsAssigned(nodes, count, other, 1, 0);
    var (sizes, place) := (Sizes(Jobs(nodes, count)), PlaceOf(Jobs(nodes, count), other));
    LoadsSumToWork(1, sizes, place);
    assert Assigned(1, sizes, place) == [Assigned(1, sizes, place)[0]];
    KeptAlike(nodes, x => GroupOf(x) in RegularGroups(nodes, count) && other(GroupOf(x)) == 0,
              x => GroupOf(x) in RegularGroups(nodes, count));
  }

  lemma LargestJob(nodes: seq<string>, count: nat, largest: nat)
    requires LargestGroup(nodes, count, largest)
    ensures Bounded(Sizes(Jobs(nodes, count)), largest)
  {
    JobsHoldGroups(nodes, count);
    var jobs := Jobs(nodes, count);
    forall k | 0 <= k < |jobs| ensures |jobs[k].nodes| <= largest { assert HoldsGroup(nodes, jobs[k]); }
  }

  /** Two ordinary shards differ by at most the largest ordinary group. */
  lemma ShardsAreBalanced(nodes: seq<string>, count: nat, largest: nat, i: nat, j: nat)
    requires count > 0 && i < Regular(nodes, count) && j < Regular(nodes, count) && LargestGroup(nodes, count, largest)
    ensures |Shard(nodes, count, i)| <= |Shard(nodes, count, j)| + largest
  {
    LargestJob(nodes, count, largest);
    RegularShardIsGreedy(nodes, count, i);
    RegularShardIsGreedy(nodes, count, j);
    GreedyIsBalanced(Regular(nodes, count), Sizes(Jobs(nodes, count)), largest, i, j);
  }

  /** No ordinary shard exceeds the mean of the ordinary tests by more than
      (r - 1) / r of the largest group. */
  lemma ShardsNearTheMean(nodes: seq<string>, count: nat, largest: nat, i: nat)
    requires count > 0 && i < Regular(nodes, count) && LargestGroup(nodes, count, largest)
    ensures NearTheMean(Regular(nodes, count), |Shard(nodes, count, i)|,
                        |Kept(nodes, x => GroupOf(x) in RegularGroups(nodes, count))|, largest)
  {
    LargestJob(nodes, count, largest);
    RegularShardIsGreedy(nodes, count, i);
    RegularWork(nodes, count);
    GreedyNearsTheMean(Regular(nodes, count), Sizes(Jobs(nodes, count)), largest, i);
  }

  /** However else the ordinary groups were distributed over the ordinary shards,
      if no shard then held more than t tests, no shard of the plan holds more
      than (4/3 - 1/(3r)) t. */
  lemma PlanIsWithinFourThirds(nodes: seq<string>, count: nat, other: Distribution, t: nat, i: nat)
    requires count > 0 && i < Regular(nodes, count) && Uses(nodes, count, other, Regular(nodes, count))
    requires forall j :: 0 <= j < Regular(nodes, count) ==> |Sent(nodes, count, other, j)| <= t
    ensures WithinFourThirds(Regular(nodes, count), |Shard(nodes, count, i)|, t)
  {
    var (r, jobs) := (Regular(nodes, count), Jobs(nodes, count));
    forall j | 0 <= j < r
      ensures Places(r, Sizes(jobs), PlaceOf(jobs, other)) && Assigned(r, Sizes(jobs), PlaceOf(jobs, other))[j] <= t
    {
      SentIsAssigned(nodes, count, other, r, j);
    }
    SentIsAssigned(nodes, count, other, r, i);
    JobsHoldGroups(nodes, count);
    LongestFirstIsWithinFourThirds(r, Sizes(jobs), PlaceOf(jobs, other), t, i);
    RegularShardIsGreedy(nodes, count, i);
  }

  /** A reserved shard holds its group alone, sorted. */
  lemma ReservedGroupsStayAlone(nodes: seq<string>, count: nat)
    requires count > 1
    ensures SHARED_GROUP in GroupNames(nodes) ==>
              forall x :: x in Shard(nodes, count, count - 1) <==> x in nodes && GroupOf(x) == SHARED_GROUP
    ensures LONG_RUNNING_MODULE in GroupNames(nodes) && SHARED_GROUP !in GroupNames(nodes) ==>
              forall x :: x in Shard(nodes, count, count - 1) <==> x in nodes && GroupOf(x) == LONG_RUNNING_MODULE
    ensures LONG_RUNNING_MODULE in GroupNames(nodes) && SHARED_GROUP in GroupNames(nodes) && count > 2 ==>
              forall x :: x in Shard(nodes, count, count - 2) <==> x in nodes && GroupOf(x) == LONG_RUNNING_MODULE
  {
    MembersAre(nodes, SHARED_GROUP);
    MembersAre(nodes, LONG_RUNNING_MODULE);
    SortIsPermutation(Members(nodes, SHARED_GROUP), StringLe);
    SortIsPermutation(Members(nodes, LONG_RUNNING_MODULE), StringLe);
  }
}
