/** What the partition promises in terms of the test ids themselves: a module is the
    text before the first "::" of an id. */
module ShardModules {
  import opened Results
  import opened Ordering
  import opened ListScheduling
  import opened ShardScheduler

  // ---------------------------------------------------------------- modules, read off the ids

  predicate HoldsSeparator(m: string) { exists i :: 0 <= i && i + 1 < |m| && m[i] == ':' && m[i + 1] == ':' }

  /** Test x belongs to module m: it is m alone, or m, the first "::" and anything. */
  ghost predicate InModule(x: string, m: string) {
    && !HoldsSeparator(m)
    && (x == m || ((m == "" || m[|m| - 1] != ':') && exists s :: x == m + "::" + s))
  }

  lemma SeparatorOf(c: char, rest: string)
    ensures HoldsSeparator([c] + rest) <==> HoldsSeparator(rest) || (c == ':' && rest != "" && rest[0] == ':')
  {
    var m := [c] + rest;
    if i :| 0 <= i && i + 1 < |m| && m[i] == ':' && m[i + 1] == ':' {
      if i > 0 { assert rest[i - 1] == ':' && rest[i] == ':'; }
    }
    if i :| 0 <= i && i + 1 < |rest| && rest[i] == ':' && rest[i + 1] == ':' {
      assert m[i + 1] == ':' && m[i + 2] == ':';
    }
    if c == ':' && rest != "" && rest[0] == ':' { assert m[0] == ':' && m[1] == ':'; }
  }

  lemma {:induction false} ModuleHolds(x: string)
    ensures ModuleOf(x) <= x && !HoldsSeparator(ModuleOf(x))
    ensures var m := ModuleOf(x);
            x != m ==> |m| + 2 <= |x| && x[|m|] == ':' && x[|m| + 1] == ':' && (m == "" || m[|m| - 1] != ':')
  {
    if |x| >= 2 && !(x[0] == ':' && x[1] == ':') {
      var (m, rest) := (ModuleOf(x), ModuleOf(x[1..]));
      ModuleHolds(x[1..]);
      assert m == [x[0]] + rest && x == [x[0]] + x[1..];
      SeparatorOf(x[0], rest);
      if x != m && rest == "" { assert x[1..][0] == ':'; }
    }
  }

  lemma {:induction false} ModuleOfJoined(m: string, s: string)
    requires !HoldsSeparator(m) && (m == "" || m[|m| - 1] != ':')
    ensures ModuleOf(m + "::" + s) == m
  {
    var x := m + "::" + s;
    if m == "" {
      assert x[0] == ':' && x[1] == ':';
    } else {
      assert m == [m[0]] + m[1..];
      SeparatorOf(m[0], m[1..]);
      assert x[1..] == m[1..] + "::" + s && x[0] == m[0];
      if |m| > 1 { assert x[1] == m[1]; }
      ModuleOfJoined(m[1..], s);
    }
  }

  lemma {:induction false} ModuleOfWhole(m: string)
    requires !HoldsSeparator(m)
    ensures ModuleOf(m) == m
  {
    if |m| >= 2 {
      assert m == [m[0]] + m[1..];
      SeparatorOf(m[0], m[1..]);
      ModuleOfWhole(m[1..]);
    }
  }

  /** The cut at the first separator is what the id says its module is. */
  lemma ModuleIsRead(x: string, m: string)
    ensures ModuleOf(x) == m <==> InModule(x, m)
  {
    ModuleHolds(x);
    if ModuleOf(x) == m && x != m { assert x == m + "::" + x[|m| + 2..]; }
    if InModule(x, m) {
      if x == m {
        ModuleOfWhole(m);
      } else {
        var s :| x == m + "::" + s;
        ModuleOfJoined(m, s);
      }
    }
  }

  const REDERIVATION := "tests/contract/v1_0_acceptance/test_gate22_rederivation.py"
  const NEGATIVE_CONTROLS := "tests/contract/v1_0_acceptance/test_v1_0_acceptance_negative_controls.py"
  const LONG_RUNNING := "tests/long_running_proof/test_long_running_proof_gate_20.py"
  const SHARED_NAME := "shared_real_gate22_receipt"

  /** A test of one of the two acceptance modules, or of a module that bears the name
      under which they are grouped. */
  ghost predicate SharesReceipt(x: string) {
    InModule(x, REDERIVATION) || InModule(x, NEGATIVE_CONTROLS) || InModule(x, SHARED_NAME)
  }

  lemma GroupIsRead(x: string)
    ensures GroupOf(x) == SHARED_GROUP <==> SharesReceipt(x)
    ensures GroupOf(x) == LONG_RUNNING_MODULE <==> InModule(x, LONG_RUNNING)
    ensures forall m :: InModule(x, m) && !SharesReceipt(x) ==> GroupOf(x) == m
  {
    assert |SHARED_NAME| == 26 && |LONG_RUNNING| == 59 && |REDERIVATION| == 58 && |NEGATIVE_CONTROLS| == 72;
    ModuleIsRead(x, REDERIVATION);
    ModuleIsRead(x, NEGATIVE_CONTROLS);
    ModuleIsRead(x, SHARED_NAME);
    ModuleIsRead(x, LONG_RUNNING);
    forall m | InModule(x, m) && !SharesReceipt(x) ensures GroupOf(x) == m { ModuleIsRead(x, m); }
  }

  // ---------------------------------------------------------------- which shards are kept apart

  ghost predicate SharingIsCollected(nodes: seq<string>) { exists x :: x in nodes && SharesReceipt(x) }

  ghost predicate LongRunningIsCollected(nodes: seq<string>) { exists x :: x in nodes && InModule(x, LONG_RUNNING) }

  /** The shards left once the last is kept for the shared receipt. */
  ghost function Remaining(nodes: seq<string>, count: nat): nat {
    if SharingIsCollected(nodes) && count > 1 then count - 1 else count
  }

  ghost function OrdinaryShards(nodes: seq<string>, count: nat): nat {
    if LongRunningIsCollected(nodes) && Remaining(nodes, count) > 1 then Remaining(nodes, count) - 1
    else Remaining(nodes, count)
  }

  /** A collected test without a shard of its own kind. */
  ghost predicate Ordinary(nodes: seq<string>, count: nat, x: string) {
    && x in nodes
    && !(SharesReceipt(x) && count > 1)
    && !(InModule(x, LONG_RUNNING) && Remaining(nodes, count) > 1)
  }

  lemma ReadingTheGroups(nodes: seq<string>, count: nat)
    ensures SHARED_GROUP in GroupNames(nodes) <==> SharingIsCollected(nodes)
    ensures LONG_RUNNING_MODULE in GroupNames(nodes) <==> LongRunningIsCollected(nodes)
    ensures AfterShared(nodes, count) == Remaining(nodes, count)
    ensures Regular(nodes, count) == OrdinaryShards(nodes, count)
  {
    forall x ensures GroupOf(x) == SHARED_GROUP <==> SharesReceipt(x) { GroupIsRead(x); }
    forall x ensures GroupOf(x) == LONG_RUNNING_MODULE <==> InModule(x, LONG_RUNNING) { GroupIsRead(x); }
  }

  lemma OrdinaryIsRead(nodes: seq<string>, count: nat, x: string)
    requires x in nodes
    ensures GroupOf(x) in RegularGroups(nodes, count) <==> Ordinary(nodes, count, x)
  {
    GroupIsRead(x);
    ReadingTheGroups(nodes, count);
    assert GroupOf(x) in GroupNames(nodes);
    assert SharesReceipt(x) ==> SharingIsCollected(nodes);
    assert InModule(x, LONG_RUNNING) ==> LongRunningIsCollected(nodes);
    assert |SHARED_NAME| == 26 && |LONG_RUNNING| == 59;
  }

  /** Tests of one module, and all that share the receipt, are on one shard. With more
      than one shard the sharing tests fill the last one alone, and so does the
      long-running module the one before what is kept, if two are left. */
  lemma PartitionKeepsModules(nodes: seq<string>, count: nat, shards: seq<seq<string>>)
    requires count > 0 && FollowsPlan(nodes, count, shards)
    ensures forall i, m, x, y :: 0 <= i < count && x in shards[i] && y in nodes && InModule(x, m) && InModule(y, m) ==>
              y in shards[i]
    ensures forall i, x, y :: 0 <= i < count && x in shards[i] && y in nodes && SharesReceipt(x) && SharesReceipt(y) ==>
              y in shards[i]
    ensures SharingIsCollected(nodes) && count > 1 ==>
              forall x :: x in shards[count - 1] <==> x in nodes && SharesReceipt(x)
    ensures LongRunningIsCollected(nodes) && Remaining(nodes, count) > 1 ==>
              forall x :: x in shards[Remaining(nodes, count) - 1] <==> x in nodes && InModule(x, LONG_RUNNING)
  {
    PlanIsExactPartition(nodes, count, shards);
    ReadingTheGroups(nodes, count);
    if count > 1 { ReservedGroupsStayAlone(nodes, count); }
    forall x ensures GroupOf(x) == SHARED_GROUP <==> SharesReceipt(x) { GroupIsRead(x); }
    forall x ensures GroupOf(x) == LONG_RUNNING_MODULE <==> InModule(x, LONG_RUNNING) { GroupIsRead(x); }
    forall x, y, m | InModule(x, m) && InModule(y, m) ensures GroupOf(x) == GroupOf(y) {
      ModuleIsRead(x, m);
      ModuleIsRead(y, m);
    }
  }

  // ---------------------------------------------------- no split by modules does better than three quarters

  /** An assignment of the ordinary tests to shards that splits no module. */
  ghost predicate SplitsNoModule(nodes: seq<string>, count: nat, where: string -> nat) {
    && (forall x :: Ordinary(nodes, count, x) ==> where(x) < OrdinaryShards(nodes, count))
    && forall x, y, m :: Ordinary(nodes, count, x) && Ordinary(nodes, count, y) && InModule(x, m) && InModule(y, m) ==>
         where(x) == where(y)
  }

  /** The ordinary tests assigned to shard j. */
  ghost function SentTo(nodes: seq<string>, count: nat, where: string -> nat, j: nat): set<string> {
    set x | x in nodes && Ordinary(nodes, count, x) && where(x) == j
  }

  /** Where a group's tests go, read off one of them. */
  ghost function GoesTo(nodes: seq<string>, count: nat, where: string -> nat, g: string): nat {
    if exists x :: Ordinary(nodes, count, x) && GroupOf(x) == g
    then var x :| Ordinary(nodes, count, x) && GroupOf(x) == g; where(x)
    else 0
  }

  ghost function ByGroup(nodes: seq<string>, count: nat, where: string -> nat): Distribution {
    (g: string) => GoesTo(nodes, count, where, g)
  }

  /** Ordinary tests of one group are of one module, unless they share the receipt on
      the only shard. */
  lemma GroupGoesTogether(nodes: seq<string>, count: nat, where: string -> nat, x: string, y: string)
    requires count > 0 && SplitsNoModule(nodes, count, where)
    requires Ordinary(nodes, count, x) && Ordinary(nodes, count, y) && GroupOf(x) == GroupOf(y)
    ensures where(x) == where(y)
  {
    GroupIsRead(x);
    GroupIsRead(y);
    if SharesReceipt(x) {
      assert count == 1 && OrdinaryShards(nodes, count) == 1;
    } else {
      ModuleIsRead(x, ModuleOf(x));
      ModuleIsRead(y, ModuleOf(y));
    }
  }

  lemma ByGroupFollows(nodes: seq<string>, count: nat, where: string -> nat, x: string)
    requires count > 0 && SplitsNoModule(nodes, count, where) && Ordinary(nodes, count, x)
    ensures ByGroup(nodes, count, where)(GroupOf(x)) == where(x)
  {
    var y :| Ordinary(nodes, count, y) && GroupOf(y) == GroupOf(x)
             && GoesTo(nodes, count, where, GroupOf(x)) == where(y);
    GroupGoesTogether(nodes, count, where, x, y);
  }

  function KeptSet(nodes: seq<string>, keep: string -> bool): set<string> { set x | x in nodes && keep(x) }

  lemma KeptSetGrows(before: seq<string>, x: string, keep: string -> bool)
    requires x !in before
    ensures KeptSet(before + [x], keep) == if keep(x) then KeptSet(before, keep) + {x} else KeptSet(before, keep)
    ensures x !in KeptSet(before, keep)
  {
  }

  lemma {:induction false} KeptSize(nodes: seq<string>, keep: string -> bool)
    requires NoDuplicates(nodes)
    ensures |Kept(nodes, keep)| == |KeptSet(nodes, keep)|
  {
    if nodes != [] {
      var (before, x) := (nodes[..|nodes| - 1], nodes[|nodes| - 1]);
      KeptSize(before, keep);
      assert nodes == before + [x];
      KeptSetGrows(before, x, keep);
    }
  }

  lemma SameShardLoads(nodes: seq<string>, count: nat, where: string -> nat, j: nat)
    requires count > 0 && NoDuplicates(nodes) && SplitsNoModule(nodes, count, where)
    ensures |Sent(nodes, count, ByGroup(nodes, count, where), j)| == |SentTo(nodes, count, where, j)|
  {
    var other := ByGroup(nodes, count, where);
    var keep := x => GroupOf(x) in RegularGroups(nodes, count) && other(GroupOf(x)) == j;
    KeptSize(nodes, keep);
    forall x ensures x in nodes && keep(x) <==> x in SentTo(nodes, count, where, j) {
      if x in nodes {
        OrdinaryIsRead(nodes, count, x);
        if Ordinary(nodes, count, x) { ByGroupFollows(nodes, count, where, x); }
      }
    }
    assert KeptSet(nodes, keep) == SentTo(nodes, count, where, j);
  }

  /** However else the ordinary tests could be assigned to the ordinary shards without
      splitting a module, if no shard were sent more than t of them then no ordinary
      shard of the partition holds more than (4/3 - 1/(3r)) t. */
  lemma NoSplitBeatsThePartition(
      nodes: seq<string>, count: nat, shards: seq<seq<string>>, where: string -> nat, t: nat, i: nat)
    requires count > 0 && NoDuplicates(nodes) && FollowsPlan(nodes, count, shards)
    requires SplitsNoModule(nodes, count, where) && i < OrdinaryShards(nodes, count)
    requires forall j :: 0 <= j < OrdinaryShards(nodes, count) ==> |SentTo(nodes, count, where, j)| <= t
    ensures i < |shards|
    ensures var r := OrdinaryShards(nodes, count); 3 * r * |shards[i]| <= (4 * r - 1) * t
  {
    var (r, other) := (OrdinaryShards(nodes, count), ByGroup(nodes, count, where));
    ReadingTheGroups(nodes, count);
    forall g | g in RegularGroups(nodes, count) ensures other(g) < r {
      var x :| x in nodes && GroupOf(x) == g;
      OrdinaryIsRead(nodes, count, x);
      ByGroupFollows(nodes, count, where, x);
    }
    forall j | 0 <= j < r ensures |Sent(nodes, count, other, j)| <= t { SameShardLoads(nodes, count, where, j); }
    PlanIsWithinFourThirds(nodes, count, other, t, i);
  }

  // ---------------------------------------------------------------- the collection order plays no part

  lemma {:induction false} KeptOfPermutation(xs: seq<string>, ys: seq<string>, keep: string -> bool)
    requires multiset(xs) == multiset(ys)
    ensures multiset(Kept(xs, keep)) == multiset(Kept(ys, keep))
  {
    forall x ensures multiset(Kept(xs, keep))[x] == multiset(Kept(ys, keep))[x] {
      KeptCounts(xs, keep, x);
      KeptCounts(ys, keep, x);
    }
  }

  lemma SameGroups(xs: seq<string>, ys: seq<string>, count: nat)
    requires multiset(xs) == multiset(ys)
    ensures forall x :: x in xs <==> x in ys
    ensures GroupNames(xs) == GroupNames(ys) && Reserved(xs, count) == Reserved(ys, count)
    ensures Regular(xs, count) == Regular(ys, count)
    ensures forall g :: multiset(Members(xs, g)) == multiset(Members(ys, g)) && |Members(xs, g)| == |Members(ys, g)|
  {
    forall x ensures x in xs <==> x in ys { assert x in multiset(xs) <==> x in multiset(ys); }
    forall g ensures multiset(Members(xs, g)) == multiset(Members(ys, g)) && |Members(xs, g)| == |Members(ys, g)| {
      KeptOfPermutation(xs, ys, x => GroupOf(x) == g);
      assert |multiset(Members(xs, g))| == |multiset(Members(ys, g))|;
    }
  }

  /** Job by job the same groups, with the tests the other collection lists. */
  ghost function Relisted(jobs: seq<Job>, groups: map<string, seq<string>>): seq<Job>
    requires forall k :: 0 <= k < |jobs| ==> jobs[k].name in groups
  {
    seq(|jobs|, k requires 0 <= k < |jobs| => Job(jobs[k].name, groups[jobs[k].name]))
  }

  lemma SameOrder(gs: map<string, seq<string>>, hs: map<string, seq<string>>)
    requires gs.Keys == hs.Keys && forall g :: g in gs ==> |gs[g]| == |hs[g]|
    ensures forall k :: 0 <= k < |Ordered(gs)| ==> Ordered(gs)[k].name in hs
    ensures Ordered(hs) == Relisted(Ordered(gs), hs)
  {
    var (order, other) := (Ordered(gs), Ordered(hs));
    OrderedIsLongestFirst(gs);
    OrderedIsLongestFirst(hs);
    OrderedIsSorted(gs);
    OrderedIsSorted(hs);
    forall k | 0 <= k < |order| ensures order[k].name in hs && order[k].nodes == gs[order[k].name] {
      assert order[k] in JobsOf(gs);
    }
    var relisted := Relisted(order, hs);
    forall i, j | 0 <= i < j < |relisted| ensures LargerFirst(relisted[i], relisted[j]) {
      assert LargerFirst(order[i], order[j]);
    }
    forall j ensures j in relisted <==> j in other { RelistedHolds(gs, hs, j); }
    SameMembersSameMultiset(relisted, other);
    JobsAreUntied(hs, relisted);
    LargerFirstIsTotalPreorder();
    SortedArrangementIsUnique(relisted, other, LargerFirst);
  }

  lemma OrderedIsSorted(gs: map<string, seq<string>>)
    ensures SortedBy(Ordered(gs), LargerFirst)
  {
    LargerFirstIsTotalPreorder();
    SortIsSorted(Listed(JobsOf(gs)), LargerFirst);
  }

  lemma RelistedHolds(gs: map<string, seq<string>>, hs: map<string, seq<string>>, j: Job)
    requires gs.Keys == hs.Keys && forall k :: 0 <= k < |Ordered(gs)| ==> Ordered(gs)[k].name in hs
    ensures j in Relisted(Ordered(gs), hs) <==> j in Ordered(hs)
  {
    OrderedHolds(hs, j);
    if j in Ordered(hs) {
      OrderedHolds(gs, Job(j.name, gs[j.name]));
      var k :| 0 <= k < |Ordered(gs)| && Ordered(gs)[k] == Job(j.name, gs[j.name]);
      assert Relisted(Ordered(gs), hs)[k] == j;
    }
  }

  lemma OrderedHolds(gs: map<string, seq<string>>, j: Job)
    ensures j in Ordered(gs) <==> j.name in gs && j.nodes == gs[j.name]
  {
    OrderedIsLongestFirst(gs);
    assert j in Ordered(gs) <==> j in JobsOf(gs);
  }

  lemma {:induction false} PackedAlike(jobs: seq<Job>, others: seq<Job>, place: seq<nat>, i: nat)
    requires |jobs| == |others| == |place|
    requires forall k :: 0 <= k < |jobs| ==> Sort(jobs[k].nodes, StringLe) == Sort(others[k].nodes, StringLe)
    ensures Packed(jobs, place, i) == Packed(others, place, i)
  {
    if jobs != [] { PackedAlike(jobs[..|jobs| - 1], others[..|jobs| - 1], place[..|jobs| - 1], i); }
  }

  lemma SameSorting(xs: seq<string>, ys: seq<string>)
    requires multiset(xs) == multiset(ys)
    ensures Sort(xs, StringLe) == Sort(ys, StringLe)
  {
    StringLeIsTotalPreorder();
    StringsAreUntied(xs);
    SortIgnoresInputOrder(xs, ys, StringLe);
  }

  /** The partition is stable: collecting the same tests in another order gives the
      very same shards. */
  lemma CollectionOrderIsIgnored(
    xs: seq<string>, ys: seq<string>, count: nat, shards: seq<seq<string>>, others: seq<seq<string>>)
    requires count > 0 && multiset(xs) == multiset(ys)
    requires FollowsPlan(xs, count, shards) && FollowsPlan(ys, count, others)
    ensures shards == others
  {
    SameGroups(xs, ys, count);
    SamePlans(xs, ys, count);
    forall i | 0 <= i < count ensures shards[i] == others[i] {
      assert ReservedFor(xs, count, i) == ReservedFor(ys, count, i);
      match ReservedFor(xs, count, i)
      case Some(g) => SameSorting(Members(xs, g), Members(ys, g));
      case None => PackedAlike(Jobs(xs, count), Jobs(ys, count), Placement(xs, count), i);
    }
  }

  lemma SamePlans(xs: seq<string>, ys: seq<string>, count: nat)
    requires count > 0 && multiset(xs) == multiset(ys)
    ensures |Jobs(xs, count)| == |Jobs(ys, count)| && Placement(xs, count) == Placement(ys, count)
    ensures forall k :: 0 <= k < |Jobs(xs, count)| ==>
              Sort(Jobs(xs, count)[k].nodes, StringLe) == Sort(Jobs(ys, count)[k].nodes, StringLe)
  {
    var (gs, hs) := (RegularGroups(xs, count), RegularGroups(ys, count));
    SameGroups(xs, ys, count);
    assert gs.Keys == hs.Keys;
    SameOrder(gs, hs);
    JobsHoldGroups(xs, count);
    JobsHoldGroups(ys, count);
    var (jobs, others) := (Jobs(xs, count), Jobs(ys, count));
    forall k | 0 <= k < |jobs| ensures multiset(jobs[k].nodes) == multiset(others[k].nodes) {
      assert HoldsGroup(xs, jobs[k]) && HoldsGroup(ys, others[k]) && jobs[k].name == others[k].name;
    }
    forall k | 0 <= k < |jobs| ensures Sort(jobs[k].nodes, StringLe) == Sort(others[k].nodes, StringLe) {
      SameSorting(jobs[k].nodes, others[k].nodes);
    }
    forall k | 0 <= k < |jobs| ensures |jobs[k].nodes| == |others[k].nodes| {
      assert |multiset(jobs[k].nodes)| == |multiset(others[k].nodes)|;
    }
    assert Sizes(jobs) == Sizes(others);
  }

  // ---------------------------------------------------------------- the order within a shard

  /** x comes from an earlier job than y, or from the same one and before it by id. */
  ghost predicate ComesFirst(jobs: seq<Job>, x: string, y: string) {
    || (exists j, k :: 0 <= j < k < |jobs| && x in jobs[j].nodes && y in jobs[k].nodes)
    || (exists j :: 0 <= j < |jobs| && x in jobs[j].nodes && y in jobs[j].nodes && StringLe(x, y))
  }

  lemma ComesFirstLater(jobs: seq<Job>, x: string, y: string)
    requires jobs != [] && ComesFirst(jobs[..|jobs| - 1], x, y)
    ensures ComesFirst(jobs, x, y)
  {
    var before := jobs[..|jobs| - 1];
    if j, k :| 0 <= j < k < |before| && x in before[j].nodes && y in before[k].nodes {
      assert x in jobs[j].nodes && y in jobs[k].nodes;
    } else {
      var j :| 0 <= j < |before| && x in before[j].nodes && y in before[j].nodes && StringLe(x, y);
      assert x in jobs[j].nodes && y in jobs[j].nodes;
    }
  }

  ghost predicate InSomeJob(jobs: seq<Job>, x: string) { exists k :: 0 <= k < |jobs| && x in jobs[k].nodes }

  lemma InSomeJobLater(jobs: seq<Job>, x: string)
    requires jobs != [] && InSomeJob(jobs[..|jobs| - 1], x)
    ensures InSomeJob(jobs, x)
  {
    var k :| 0 <= k < |jobs| - 1 && x in jobs[..|jobs| - 1][k].nodes;
    assert x in jobs[k].nodes;
  }

  /** Every element comes from some job, and earlier elements come first. */
  ghost predicate ListedByJob(jobs: seq<Job>, p: seq<string>) {
    && (forall a :: 0 <= a < |p| ==> InSomeJob(jobs, p[a]))
    && forall a, b :: 0 <= a < b < |p| ==> ComesFirst(jobs, p[a], p[b])
  }

  lemma ListedByMoreJobs(jobs: seq<Job>, p: seq<string>)
    requires jobs != [] && ListedByJob(jobs[..|jobs| - 1], p)
    ensures ListedByJob(jobs, p)
  {
    forall a | 0 <= a < |p| ensures InSomeJob(jobs, p[a]) { InSomeJobLater(jobs, p[a]); }
    forall a, b | 0 <= a < b < |p| ensures ComesFirst(jobs, p[a], p[b]) { ComesFirstLater(jobs, p[a], p[b]); }
  }

  lemma OneMorePacked(jobs: seq<Job>, before: seq<string>, last: seq<string>)
    requires jobs != [] && ListedByJob(jobs[..|jobs| - 1], before)
    requires forall a :: 0 <= a < |last| ==> last[a] in jobs[|jobs| - 1].nodes
    requires forall a, b :: 0 <= a < b < |last| ==> StringLe(last[a], last[b])
    ensures ListedByJob(jobs, before + last)
  {
    var (n, p) := (|jobs| - 1, before + last);
    ListedByMoreJobs(jobs, before);
    forall a, b | 0 <= a < b < |p| && b >= |before| ensures ComesFirst(jobs, p[a], p[b]) {
      if a < |before| {
        assert InSomeJob(jobs[..n], before[a]);
        var j :| 0 <= j < n && before[a] in jobs[..n][j].nodes;
        assert p[a] in jobs[j].nodes && p[b] in jobs[n].nodes;
      } else {
        assert p[a] == last[a - |before|] && p[b] == last[b - |before|];
      }
    }
    forall a | 0 <= a < |p| ensures InSomeJob(jobs, p[a]) {
      if a >= |before| { assert p[a] == last[a - |before|]; }
    }
  }

  lemma {:induction false} PackedInOrder(jobs: seq<Job>, place: seq<nat>, i: nat)
    requires |place| == |jobs|
    ensures ListedByJob(jobs, Packed(jobs, place, i))
  {
    if jobs != [] {
      var n := |jobs| - 1;
      var last := Sort(jobs[n].nodes, StringLe);
      PackedInOrder(jobs[..n], place[..n], i);
      SortIsPermutation(jobs[n].nodes, StringLe);
      StringLeIsTotalPreorder();
      SortIsSorted(jobs[n].nodes, StringLe);
      forall a | 0 <= a < |last| ensures last[a] in jobs[n].nodes { assert last[a] in last; }
      OneMorePacked(jobs, Packed(jobs[..n], place[..n], i), last);
      ListedByMoreJobs(jobs, Packed(jobs[..n], place[..n], i));
      assert Packed(jobs[..n], place[..n], i) + [] == Packed(jobs[..n], place[..n], i);
    }
  }

  /** The collected tests of module m. */
  ghost function TestsOf(nodes: seq<string>, m: string): set<string> { set x | x in nodes && InModule(x, m) }

  lemma JobOfTest(nodes: seq<string>, count: nat, k: nat, x: string, m: string)
    requires k < |Jobs(nodes, count)| && x in Jobs(nodes, count)[k].nodes && InModule(x, m) && !SharesReceipt(x)
    ensures Jobs(nodes, count)[k].name == m
  {
    GroupIsRead(x);
    JobsHoldGroups(nodes, count);
    assert HoldsGroup(nodes, Jobs(nodes, count)[k]);
    MembersAre(nodes, Jobs(nodes, count)[k].name);
  }

  ghost function GroupSet(nodes: seq<string>, m: string): set<string> { set x | x in nodes && GroupOf(x) == m }

  lemma GroupIsModule(nodes: seq<string>, x: string, m: string)
    requires InModule(x, m) && !SharesReceipt(x)
    ensures GroupSet(nodes, m) == TestsOf(nodes, m)
  {
    forall y ensures GroupOf(y) == m <==> InModule(y, m) {
      ModuleIsRead(x, m);
      ModuleIsRead(y, m);
      GroupIsRead(x);
    }
  }

  lemma MembersSize(nodes: seq<string>, g: string)
    requires NoDuplicates(nodes)
    ensures |Members(nodes, g)| == |GroupSet(nodes, g)|
  {
    KeptSize(nodes, x => GroupOf(x) == g);
    assert GroupSet(nodes, g) == KeptSet(nodes, x => GroupOf(x) == g);
  }

  lemma JobSize(nodes: seq<string>, count: nat, k: nat)
    requires NoDuplicates(nodes) && k < |Jobs(nodes, count)|
    ensures |Jobs(nodes, count)[k].nodes| == |GroupSet(nodes, Jobs(nodes, count)[k].name)|
  {
    JobsHoldGroups(nodes, count);
    assert HoldsGroup(nodes, Jobs(nodes, count)[k]);
    MembersSize(nodes, Jobs(nodes, count)[k].name);
  }

  /** Larger modules first, modules of one size by name. */
  ghost predicate ModuleComesFirst(nodes: seq<string>, m: string, n: string) {
    |TestsOf(nodes, m)| > |TestsOf(nodes, n)| || (|TestsOf(nodes, m)| == |TestsOf(nodes, n)| && StringLe(m, n))
  }

  lemma EarlierJobComesFirst(nodes: seq<string>, count: nat, j: nat, k: nat, x: string, y: string, m: string, n: string)
    requires NoDuplicates(nodes) && j < k < |Jobs(nodes, count)|
    requires x in Jobs(nodes, count)[j].nodes && InModule(x, m) && !SharesReceipt(x)
    requires y in Jobs(nodes, count)[k].nodes && InModule(y, n) && !SharesReceipt(y)
    ensures m != n && ModuleComesFirst(nodes, m, n)
  {
    JobOfTest(nodes, count, j, x, m);
    JobOfTest(nodes, count, k, y, n);
    JobsHoldGroups(nodes, count);
    OrderedIsSorted(RegularGroups(nodes, count));
    JobSize(nodes, count, j);
    JobSize(nodes, count, k);
    GroupIsModule(nodes, x, m);
    GroupIsModule(nodes, y, n);
  }

  lemma OrdinaryShardIsPacked(nodes: seq<string>, count: nat, i: nat)
    requires count > 0 && i < OrdinaryShards(nodes, count)
    ensures i < count && Shard(nodes, count, i) == Packed(Jobs(nodes, count), Placement(nodes, count), i)
  {
    ReadingTheGroups(nodes, count);
  }

  lemma ComesFirstByModule(nodes: seq<string>, count: nat, x: string, y: string, m: string, n: string)
    requires NoDuplicates(nodes) && ComesFirst(Jobs(nodes, count), x, y)
    requires InModule(x, m) && !SharesReceipt(x) && InModule(y, n) && !SharesReceipt(y)
    ensures if m == n then StringLe(x, y) else ModuleComesFirst(nodes, m, n)
  {
    var jobs := Jobs(nodes, count);
    if j, k :| 0 <= j < k < |jobs| && x in jobs[j].nodes && y in jobs[k].nodes {
      EarlierJobComesFirst(nodes, count, j, k, x, y, m, n);
    } else {
      var j :| 0 <= j < |jobs| && x in jobs[j].nodes && y in jobs[j].nodes && StringLe(x, y);
      JobOfTest(nodes, count, j, x, m);
      JobOfTest(nodes, count, j, y, n);
    }
  }

  /** Within an ordinary shard the tests of larger modules come first, modules of one
      size by name, and the tests of one module by id. */
  lemma ShardsAreInOrder(
    nodes: seq<string>, count: nat, shards: seq<seq<string>>, i: nat, a: nat, b: nat, m: string, n: string)
    requires count > 0 && NoDuplicates(nodes) && FollowsPlan(nodes, count, shards)
    requires i < OrdinaryShards(nodes, count) && i < |shards| && a < b < |shards[i]|
    requires InModule(shards[i][a], m) && !SharesReceipt(shards[i][a])
    requires InModule(shards[i][b], n) && !SharesReceipt(shards[i][b])
    ensures if m == n then StringLe(shards[i][a], shards[i][b]) else ModuleComesFirst(nodes, m, n)
  {
    OrdinaryShardIsPacked(nodes, count, i);
    PackedInOrder(Jobs(nodes, count), Placement(nodes, count), i);
    ComesFirstByModule(nodes, count, shards[i][a], shards[i][b], m, n);
  }
}
