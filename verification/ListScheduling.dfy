/** Greedy scheduling of jobs on identical machines, and how far it can be from
    the best schedule. Sizes are node counts, machines are test shards. */
module ListScheduling {

  function Sum(xs: seq<nat>): nat {
    if xs == [] then 0 else Sum(xs[..|xs| - 1]) + xs[|xs| - 1]
  }

  predicate Places(r: nat, sizes: seq<nat>, place: seq<nat>) {
    |place| == |sizes| && forall k :: 0 <= k < |place| ==> place[k] < r
  }

  /** The load of every machine when job k runs on machine place[k]. */
  function Assigned(r: nat, sizes: seq<nat>, place: seq<nat>): (loads: seq<nat>)
    requires Places(r, sizes, place)
    ensures |loads| == r
  {
    if sizes == [] then seq(r, _ => 0)
    else
      var n := |sizes| - 1;
      var before := Assigned(r, sizes[..n], place[..n]);
      before[place[n] := before[place[n]] + sizes[n]]
  }

  /** The first machine of least load. */
  function Lightest(loads: seq<nat>): (m: nat)
    requires loads != []
    ensures m < |loads|
    ensures forall j :: 0 <= j < |loads| ==> loads[m] <= loads[j]
    ensures forall j :: 0 <= j < m ==> loads[m] < loads[j]
  {
    if |loads| == 1 then 0
    else
      var n := |loads| - 1;
      var m := Lightest(loads[..n]);
      assert forall j :: 0 <= j < n ==> loads[..n][j] == loads[j];
      if loads[n] < loads[m] then n else m
  }

  /** Each job in turn goes to the lightest machine. */
  function Choices(r: nat, sizes: seq<nat>): (place: seq<nat>)
    requires r > 0
    ensures Places(r, sizes, place)
  {
    if sizes == [] then []
    else
      var n := |sizes| - 1;
      var before := Choices(r, sizes[..n]);
      before + [Lightest(Assigned(r, sizes[..n], before))]
  }

  function Greedy(r: nat, sizes: seq<nat>): (loads: seq<nat>)
    requires r > 0
    ensures |loads| == r
  {
    Assigned(r, sizes, Choices(r, sizes))
  }

  lemma GreedyStep(r: nat, sizes: seq<nat>)
    requires r > 0 && sizes != []
    ensures var n := |sizes| - 1;
            var before := Greedy(r, sizes[..n]);
            Greedy(r, sizes) == before[Lightest(before) := before[Lightest(before)] + sizes[n]]
  {
    var n := |sizes| - 1;
    var (before, place) := (Choices(r, sizes[..n]), Choices(r, sizes));
    var target := Lightest(Assigned(r, sizes[..n], before));
    assert place == before + [target];
    assert place[..n] == before && place[n] == target;
    AssignedStep(r, sizes, place);
  }

  lemma AssignedStep(r: nat, sizes: seq<nat>, place: seq<nat>)
    requires Places(r, sizes, place) && sizes != []
    ensures var n := |sizes| - 1;
            var before := Assigned(r, sizes[..n], place[..n]);
            Assigned(r, sizes, place) == before[place[n] := before[place[n]] + sizes[n]]
  {
  }

  // ---------------------------------------------------------------- no work is lost

  lemma {:induction false} SumOfZeros(r: nat)
    ensures Sum(seq(r, _ => 0)) == 0
  {
    if r > 0 {
      assert seq(r, _ => 0)[..r - 1] == seq(r - 1, _ => 0);
      SumOfZeros(r - 1);
    }
  }

  lemma {:induction false} SumOfUpdate(xs: seq<nat>, i: nat, x: nat)
    requires i < |xs|
    ensures Sum(xs[i := xs[i] + x]) == Sum(xs) + x
  {
    var n := |xs| - 1;
    if i < n {
      assert xs[i := xs[i] + x][..n] == xs[..n][i := xs[..n][i] + x];
      SumOfUpdate(xs[..n], i, x);
    } else {
      assert xs[i := xs[i] + x][..n] == xs[..n];
    }
  }

  lemma {:induction false} LoadsSumToWork(r: nat, sizes: seq<nat>, place: seq<nat>)
    requires Places(r, sizes, place)
    ensures Sum(Assigned(r, sizes, place)) == Sum(sizes)
  {
    if sizes == [] {
      SumOfZeros(r);
    } else {
      var n := |sizes| - 1;
      LoadsSumToWork(r, sizes[..n], place[..n]);
      SumOfUpdate(Assigned(r, sizes[..n], place[..n]), place[n], sizes[n]);
    }
  }

  lemma {:induction false} SumAtMost(xs: seq<nat>, bound: nat)
    requires forall i :: 0 <= i < |xs| ==> xs[i] <= bound
    ensures Sum(xs) <= |xs| * bound
  {
    if xs != [] { SumAtMost(xs[..|xs| - 1], bound); }
  }

  lemma {:induction false} SumAtLeast(xs: seq<nat>, bound: nat)
    requires forall i :: 0 <= i < |xs| ==> bound <= xs[i]
    ensures |xs| * bound <= Sum(xs)
  {
    if xs != [] { SumAtLeast(xs[..|xs| - 1], bound); }
  }

  // ---------------------------------------------------------------- balance

  ghost predicate Bounded(sizes: seq<nat>, bound: nat) { forall k :: 0 <= k < |sizes| ==> sizes[k] <= bound }

  /** Two loads never differ by more than the largest job. */
  lemma {:induction false} GreedyIsBalanced(r: nat, sizes: seq<nat>, largest: nat, i: nat, j: nat)
    requires i < r && j < r && Bounded(sizes, largest)
    ensures Greedy(r, sizes)[i] <= Greedy(r, sizes)[j] + largest
  {
    if sizes != [] {
      var n := |sizes| - 1;
      GreedyStep(r, sizes);
      GreedyIsBalanced(r, sizes[..n], largest, i, j);
    }
  }

  lemma {:induction false} SumExceptOne(xs: seq<nat>, i: nat, bound: nat)
    requires i < |xs| && forall j :: 0 <= j < |xs| ==> bound <= xs[j]
    ensures xs[i] + (|xs| - 1) * bound <= Sum(xs)
  {
    var n := |xs| - 1;
    if i < n {
      SumExceptOne(xs[..n], i, bound);
    } else {
      SumAtLeast(xs[..n], bound);
    }
  }

  lemma Scaled(n: nat, a: int, b: int)
    requires a <= b
    ensures n * a <= n * b
  {
  }

  ghost predicate NearTheMean(r: nat, load: nat, work: nat, largest: nat) { r * load <= work + (r - 1) * largest }

  /** r times any greedy load is at most the whole work and r - 1 largest jobs. */
  lemma GreedyNearsTheMean(r: nat, sizes: seq<nat>, largest: nat, i: nat)
    requires i < r && Bounded(sizes, largest)
    ensures NearTheMean(r, Greedy(r, sizes)[i], Sum(sizes), largest)
  {
    var loads := Greedy(r, sizes);
    var load := loads[i];
    LoadsSumToWork(r, sizes, Choices(r, sizes));
    var slack: nat := if load >= largest then load - largest else 0;
    forall j | 0 <= j < r ensures slack <= loads[j] { GreedyIsBalanced(r, sizes, largest, i, j); }
    SumExceptOne(loads, i, slack);
    MeanArithmetic(r, load, slack, largest, Sum(sizes));
  }

  lemma MeanArithmetic(r: nat, load: nat, slack: nat, largest: nat, work: nat)
    requires r > 0 && load <= slack + largest && load + (r - 1) * slack <= work
    ensures r * load <= work + (r - 1) * largest
  {
    calc {
      r * load;
      load + (r - 1) * load;
    <= { Scaled(r - 1, load, slack + largest); }
      load + (r - 1) * (slack + largest);
      load + (r - 1) * slack + (r - 1) * largest;
    }
  }

  // ---------------------------------------------------------------- against any other schedule

  /** The schedule `place` finishes by time t. */
  ghost predicate FinishesBy(r: nat, sizes: seq<nat>, place: seq<nat>, t: nat) {
    Places(r, sizes, place) && forall m :: 0 <= m < r ==> Assigned(r, sizes, place)[m] <= t
  }

  lemma PrefixFinishes(r: nat, sizes: seq<nat>, place: seq<nat>, t: nat)
    requires sizes != [] && FinishesBy(r, sizes, place, t)
    ensures FinishesBy(r, sizes[..|sizes| - 1], place[..|sizes| - 1], t)
  {
    var n := |sizes| - 1;
    forall m | 0 <= m < r ensures Assigned(r, sizes[..n], place[..n])[m] <= t {
      assert Assigned(r, sizes[..n], place[..n])[m] <= Assigned(r, sizes, place)[m];
    }
  }

  lemma {:induction false} EveryJobFits(r: nat, sizes: seq<nat>, place: seq<nat>, t: nat)
    requires FinishesBy(r, sizes, place, t)
    ensures Bounded(sizes, t)
  {
    if sizes != [] {
      var n := |sizes| - 1;
      PrefixFinishes(r, sizes, place, t);
      EveryJobFits(r, sizes[..n], place[..n], t);
      assert sizes[n] <= Assigned(r, sizes, place)[place[n]];
    }
  }

  lemma WorkFits(r: nat, sizes: seq<nat>, place: seq<nat>, t: nat)
    requires FinishesBy(r, sizes, place, t)
    ensures Sum(sizes) <= r * t
  {
    LoadsSumToWork(r, sizes, place);
    SumAtMost(Assigned(r, sizes, place), t);
  }

  lemma TwiceArithmetic(r: nat, t: nat)
    requires r > 0
    ensures r * t + (r - 1) * t == (2 * r - 1) * t
  {
  }

  /** In whatever order the jobs come, greedy is within 2 - 1/r of any schedule. */
  lemma GreedyIsWithinTwice(r: nat, sizes: seq<nat>, place: seq<nat>, t: nat, i: nat)
    requires i < r && FinishesBy(r, sizes, place, t)
    ensures r * Greedy(r, sizes)[i] <= (2 * r - 1) * t
  {
    EveryJobFits(r, sizes, place, t);
    WorkFits(r, sizes, place, t);
    GreedyNearsTheMean(r, sizes, t, i);
    TwiceArithmetic(r, t);
  }

  // ---------------------------------------------------------------- longest first

  ghost predicate LongestFirst(sizes: seq<nat>) {
    forall i, j :: 0 <= i < j < |sizes| ==> sizes[j] <= sizes[i]
  }

  /** Two for a job that leaves no room for p by time t, one for any other. */
  function Weight(size: nat, p: nat, t: nat): nat { if size + p > t then 2 else 1 }

  function Weights(sizes: seq<nat>, p: nat, t: nat): (ws: seq<nat>)
    ensures |ws| == |sizes|
  {
    seq(|sizes|, k requires 0 <= k < |sizes| => Weight(sizes[k], p, t))
  }

  /** What the load and the weight of one machine say about each other when every
      job is at least p and three of them do not fit. */
  ghost predicate Matched(load: nat, weight: nat, p: nat, t: nat) {
    && (weight == 0 ==> load == 0)
    && (weight == 1 ==> p <= load && load + p <= t)
    && (weight == 2 ==> 2 * p <= load || load + p > t)
    && (weight >= 3 ==> load > t)
  }

  lemma MatchedStep(load: nat, weight: nat, size: nat, p: nat, t: nat)
    requires Matched(load, weight, p, t) && p <= size && 3 * p > t
    ensures Matched(load + size, weight + Weight(size, p, t), p, t)
  {
  }

  lemma {:induction false} EveryMachineIsMatched(r: nat, sizes: seq<nat>, place: seq<nat>, p: nat, t: nat, m: nat)
    requires Places(r, sizes, place) && m < r && 3 * p > t
    requires forall k :: 0 <= k < |sizes| ==> p <= sizes[k]
    ensures Matched(Assigned(r, sizes, place)[m], Assigned(r, Weights(sizes, p, t), place)[m], p, t)
  {
    if sizes != [] {
      var n := |sizes| - 1;
      assert Weights(sizes, p, t)[..n] == Weights(sizes[..n], p, t);
      EveryMachineIsMatched(r, sizes[..n], place[..n], p, t, m);
      if m == place[n] {
        MatchedStep(Assigned(r, sizes[..n], place[..n])[m], Assigned(r, Weights(sizes[..n], p, t), place[..n])[m],
                    sizes[n], p, t);
      }
    }
  }

  lemma WeightOfSchedule(r: nat, sizes: seq<nat>, place: seq<nat>, p: nat, t: nat)
    requires FinishesBy(r, sizes, place, t) && 3 * p > t
    requires forall k :: 0 <= k < |sizes| ==> p <= sizes[k]
    ensures Sum(Weights(sizes, p, t)) <= 2 * r
  {
    var ws := Weights(sizes, p, t);
    forall m | 0 <= m < r ensures Assigned(r, ws, place)[m] <= 2 {
      EveryMachineIsMatched(r, sizes, place, p, t, m);
    }
    SumAtMost(Assigned(r, ws, place), 2);
    LoadsSumToWork(r, ws, place);
  }

  lemma WeightOfFullMachines(r: nat, sizes: seq<nat>, place: seq<nat>, p: nat, t: nat)
    requires Places(r, sizes, place) && 3 * p > t
    requires forall k :: 0 <= k < |sizes| ==> p <= sizes[k]
    requires forall m :: 0 <= m < r ==> 0 < Assigned(r, sizes, place)[m] && Assigned(r, sizes, place)[m] + p > t
    ensures 2 * r <= Sum(Weights(sizes, p, t))
  {
    var ws := Weights(sizes, p, t);
    forall m | 0 <= m < r ensures 2 <= Assigned(r, ws, place)[m] {
      EveryMachineIsMatched(r, sizes, place, p, t, m);
    }
    SumAtLeast(Assigned(r, ws, place), 2);
    LoadsSumToWork(r, ws, place);
  }

  /** If all jobs are longer than a third of t and some schedule finishes by t,
      the lightest machine has room for the last job: otherwise every machine
      would already weigh two, and no schedule could hold one job more. */
  lemma LastJobFits(r: nat, sizes: seq<nat>, place: seq<nat>, t: nat)
    requires r > 0 && sizes != [] && LongestFirst(sizes) && FinishesBy(r, sizes, place, t)
    requires 3 * sizes[|sizes| - 1] > t
    ensures var before := Greedy(r, sizes[..|sizes| - 1]);
            before[Lightest(before)] + sizes[|sizes| - 1] <= t
  {
    var n := |sizes| - 1;
    var p := sizes[n];
    var before := Greedy(r, sizes[..n]);
    EveryJobFits(r, sizes, place, t);
    if before[Lightest(before)] + p > t {
      WeightOfFullMachines(r, sizes[..n], Choices(r, sizes[..n]), p, t);
      assert Weights(sizes, p, t)[..n] == Weights(sizes[..n], p, t);
      WeightOfSchedule(r, sizes, place, p, t);
      assert false;
    }
  }

  lemma {:induction false} LongJobsArePlacedOptimally(r: nat, sizes: seq<nat>, place: seq<nat>, t: nat, i: nat)
    requires i < r && LongestFirst(sizes) && FinishesBy(r, sizes, place, t)
    requires forall k :: 0 <= k < |sizes| ==> 3 * sizes[k] > t
    ensures Greedy(r, sizes)[i] <= t
  {
    if sizes != [] {
      var n := |sizes| - 1;
      PrefixFinishes(r, sizes, place, t);
      LongJobsArePlacedOptimally(r, sizes[..n], place[..n], t, i);
      LastJobFits(r, sizes, place, t);
      GreedyStep(r, sizes);
    }
  }

  lemma ShortJobArithmetic(r: nat, least: nat, p: nat, t: nat)
    requires r > 0 && 3 * p <= t && r * least + p <= r * t
    ensures 3 * r * (least + p) <= (4 * r - 1) * t
  {
    calc {
      3 * r * (least + p);
      3 * (r * least + p) + (r - 1) * (3 * p);
    <= { Scaled(r - 1, 3 * p, t); }
      3 * (r * t) + (r - 1) * t;
      (4 * r - 1) * t;
    }
  }

  lemma OnTimeArithmetic(r: nat, load: nat, t: nat)
    requires r > 0 && load <= t
    ensures 3 * r * load <= (4 * r - 1) * t
  {
    calc {
      3 * r * load;
    <= { Scaled(3 * r, load, t); }
      3 * r * t;
    <= { Scaled(t, 3 * r, 4 * r - 1); }
      (4 * r - 1) * t;
    }
  }

  lemma ShortLastJob(r: nat, sizes: seq<nat>, place: seq<nat>, t: nat)
    requires r > 0 && sizes != [] && FinishesBy(r, sizes, place, t) && 3 * sizes[|sizes| - 1] <= t
    ensures var before := Greedy(r, sizes[..|sizes| - 1]);
            3 * r * (before[Lightest(before)] + sizes[|sizes| - 1]) <= (4 * r - 1) * t
  {
    var n := |sizes| - 1;
    var before := Greedy(r, sizes[..n]);
    var least := before[Lightest(before)];
    SumAtLeast(before, least);
    LoadsSumToWork(r, sizes[..n], Choices(r, sizes[..n]));
    WorkFits(r, sizes, place, t);
    ShortJobArithmetic(r, least, sizes[n], t);
  }

  ghost predicate WithinFourThirds(r: nat, load: nat, t: nat) { 3 * r * load <= (4 * r - 1) * t }

  /** Graham's bound for longest-first greedy: within 4/3 - 1/(3r) of the best
      schedule, and of any other. */
  lemma {:induction false} LongestFirstIsWithinFourThirds(r: nat, sizes: seq<nat>, place: seq<nat>, t: nat, i: nat)
    requires i < r && LongestFirst(sizes) && FinishesBy(r, sizes, place, t)
    ensures WithinFourThirds(r, Greedy(r, sizes)[i], t)
  {
    if sizes == [] {
      OnTimeArithmetic(r, 0, t);
    } else {
      var n := |sizes| - 1;
      PrefixFinishes(r, sizes, place, t);
      LongestFirstIsWithinFourThirds(r, sizes[..n], place[..n], t, i);
      GreedyStep(r, sizes);
      if 3 * sizes[n] <= t {
        ShortLastJob(r, sizes, place, t);
      } else {
        LongJobsArePlacedOptimally(r, sizes, place, t, i);
        OnTimeArithmetic(r, Greedy(r, sizes)[i], t);
      }
    }
  }
}
