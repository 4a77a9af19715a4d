/** The dashboard's aggregates over the job and node lists, and the hook
    state that holds them. */
module DashboardStats {
  import opened Types
  import opened StableSort
  import Jobs
  import Text

  /** What one `api.*.list()` call yields: a JSON array, `null` (or another
      falsy body), a rejected promise, or a truthy body that is not an array
      (the `{}` an empty response gives), on which `.filter` throws. */
  datatype Fetch<T> = Listed(items: seq<T>) | Null | Failed | NotAList

  /** `.catch(() => [])` followed by `raw || []`. */
  function Received<T>(f: Fetch<T>): seq<T>
  {
    if f.Listed? then f.items else []
  }

  datatype Stats = Stats(
    runningJobs: int,
    queuedJobs: int,
    activeNodes: int,
    gpuUtilization: int,
    systemRamUsage: int,
    systemRamTotal: int,
    recentJobs: seq<Job>,
    offlineNodes: int)

  /** The state before the first fetch completes. */
  function InitialStats(): Stats
  {
    Stats(0, 0, 0, 0, 0, 0, [], 0)
  }

  // ---------------------------------------------------------------- jobs

  /** `jobs.filter(j => j.state === s).length`. */
  function CountState(jobs: seq<Job>, s: JobState): (n: nat)
    ensures n <= |jobs|
  {
    if jobs == [] then 0 else (if jobs[0].state == s then 1 else 0) + CountState(jobs[1..], s)
  }

  /** The five newest jobs: a sorted copy, newest first, cut to five. */
  function RecentJobs(jobs: seq<Job>): seq<Job>
  {
    var sorted := SortBy(jobs, Jobs.SortKey(Jobs.Desc));
    sorted[..Jobs.Min(5, |sorted|)]
  }

  // ---------------------------------------------------------------- nodes

  predicate IsActiveNode(n: Node)
  {
    n.status == READY || n.status == UP
  }

  predicate IsOfflineNode(n: Node)
  {
    n.status == OFFLINE || n.status == DOWN
  }

  function CountActive(nodes: seq<Node>): (c: nat)
    ensures c <= |nodes|
  {
    if nodes == [] then 0 else (if IsActiveNode(nodes[0]) then 1 else 0) + CountActive(nodes[1..])
  }

  function CountOffline(nodes: seq<Node>): (c: nat)
    ensures c <= |nodes|
  {
    if nodes == [] then 0 else (if IsOfflineNode(nodes[0]) then 1 else 0) + CountOffline(nodes[1..])
  }

  function CountBusy(nodes: seq<Node>): nat
  {
    if nodes == [] then 0 else (if nodes[0].status == BUSY then 1 else 0) + CountBusy(nodes[1..])
  }

  /** `nodes.reduce((acc, n) => acc + (n.gpu_utilization || 0), 0)`. */
  function SumUtilization(nodes: seq<Node>): int
  {
    if nodes == [] then 0 else OrZero(nodes[0].gpuUtilization) + SumUtilization(nodes[1..])
  }

  function RamUsed(nodes: seq<Node>): int
  {
    if nodes == [] then 0 else OrZero(nodes[0].memoryUsedMb) + RamUsed(nodes[1..])
  }

  function RamTotal(nodes: seq<Node>): int
  {
    if nodes == [] then 0 else OrZero(nodes[0].memoryTotalMb) + RamTotal(nodes[1..])
  }

  /** `Math.round(a / b)` for a positive b: the nearest integer, halves up. */
  function RoundHalfUp(a: int, b: int): int
    requires b > 0
  {
    (2 * a + b) / (2 * b)
  }

  /** The mean utilisation, rounded; 0 for an empty cluster. */
  function GpuUtilization(nodes: seq<Node>): int
  {
    if |nodes| > 0 then RoundHalfUp(SumUtilization(nodes), |nodes|) else 0
  }

  // ---------------------------------------------------------------- the record

  function ComputeStats(jobs: seq<Job>, nodes: seq<Node>): Stats
  {
    Stats(
      CountState(jobs, RUNNING),
      CountState(jobs, QUEUED),
      CountActive(nodes),
      GpuUtilization(nodes),
      RamUsed(nodes),
      RamTotal(nodes),
      RecentJobs(jobs),
      CountOffline(nodes))
  }

  /** One `fetchData` round: both lists are fetched; a body that is not an
      array makes the computation throw, and the previous stats stay. */
  function Refresh(previous: Stats, jobsFetch: Fetch<Job>, nodesFetch: Fetch<Node>): Stats
  {
    if jobsFetch.NotAList? || nodesFetch.NotAList? then previous
    else ComputeStats(Received(jobsFetch), Received(nodesFetch))
  }

  /** `useDashboardStats`'s two state variables. */
  class StatsHook {
    var stats: Stats
    var loading: bool

    constructor ()
      ensures stats == InitialStats() && loading
    {
      stats := InitialStats();
      loading := true;
    }

    /** One completed fetch: stats recomputed (or kept on a throw), and
        loading cleared in the `finally`. */
    method FetchData(jobsFetch: Fetch<Job>, nodesFetch: Fetch<Node>)
      modifies this
      ensures stats == Refresh(old(stats), jobsFetch, nodesFetch)
      ensures !loading
    {
      stats := Refresh(stats, jobsFetch, nodesFetch);
      loading := false;
    }
  }

  // ---------------------------------------------------------------- lemmas: jobs

  /** Every job is in exactly one of the seven states. */
  lemma {:induction false} StatesPartitionJobs(jobs: seq<Job>)
    ensures CountState(jobs, QUEUED) + CountState(jobs, RUNNING) + CountState(jobs, STARTING)
          + CountState(jobs, SUCCEEDED) + CountState(jobs, FAILED) + CountState(jobs, CANCELED)
          + CountState(jobs, LOST) == |jobs|
  {
    if jobs != [] {
      StatesPartitionJobs(jobs[1..]);
    }
  }

  /** The running and queued counters together with the STARTING jobs (which
      neither counts) make up the Jobs page's ACTIVE tab. */
  lemma {:induction false} CountersAndActiveTab(jobs: seq<Job>)
    ensures CountState(jobs, RUNNING) + CountState(jobs, QUEUED) + CountState(jobs, STARTING)
          == |Jobs.FilterJobs(jobs, "", Jobs.ACTIVE)|
    ensures CountState(jobs, RUNNING) + CountState(jobs, QUEUED) <= |jobs|
  {
    if jobs != [] {
      CountersAndActiveTab(jobs[1..]);
      Text.ContainsEmpty(Text.Lower(jobs[0].id));
    }
  }

  lemma RecentLength(jobs: seq<Job>)
    ensures |RecentJobs(jobs)| == Jobs.Min(5, |jobs|)
  {
  }

  /** The recent list is newest first. */
  lemma RecentNewestFirst(jobs: seq<Job>)
    ensures var r := RecentJobs(jobs);
      forall i, j :: 0 <= i < j < |r| ==> r[i].createdAt >= r[j].createdAt
  {
    var key := Jobs.SortKey(Jobs.Desc);
    var sorted := SortBy(jobs, key);
    SortBySorted(jobs, key);
    var r := RecentJobs(jobs);
    forall i, j | 0 <= i < j < |r| ensures r[i].createdAt >= r[j].createdAt {
      assert key(sorted[i]) <= key(sorted[j]);
    }
  }

  /** The recent jobs are drawn from the list, and none of the jobs left out
      is newer than any of them. */
  lemma RecentAreNewest(jobs: seq<Job>)
    ensures multiset(RecentJobs(jobs)) <= multiset(jobs)
    ensures forall x, y :: x in multiset(jobs) - multiset(RecentJobs(jobs)) && y in RecentJobs(jobs)
              ==> x.createdAt <= y.createdAt
  {
    var key := Jobs.SortKey(Jobs.Desc);
    var sorted := SortBy(jobs, key);
    SortByPermutes(jobs, key);
    SortBySorted(jobs, key);
    var n := Jobs.Min(5, |sorted|);
    var r := sorted[..n];
    assert sorted == r + sorted[n..];
    assert multiset(jobs) == multiset(r) + multiset(sorted[n..]);
    forall x, y | x in multiset(jobs) - multiset(r) && y in r ensures x.createdAt <= y.createdAt {
      assert x in multiset(sorted[n..]);
      var a :| 0 <= a < |sorted[n..]| && sorted[n..][a] == x;
      var b :| 0 <= b < |r| && r[b] == y;
      assert key(sorted[b]) <= key(sorted[n + a]);
    }
  }

  /** The dashboard's recent list is the head of the Jobs page's default
      view (empty search, ALL tab, newest first). */
  lemma RecentIsHeadOfJobsPage(jobs: seq<Job>)
    ensures var view := Jobs.ProcessedJobs(jobs, "", Jobs.ALL, Jobs.Desc);
      |view| == |jobs| && RecentJobs(jobs) == view[..Jobs.Min(5, |jobs|)]
  {
    Jobs.EmptySearchKeepsAll(jobs);
  }

  // ---------------------------------------------------------------- lemmas: nodes

  /** BUSY nodes are neither active nor offline; every node is one of the three. */
  lemma {:induction false} NodeCountsPartition(nodes: seq<Node>)
    ensures CountActive(nodes) + CountOffline(nodes) + CountBusy(nodes) == |nodes|
  {
    if nodes != [] {
      NodeCountsPartition(nodes[1..]);
    }
  }

  lemma {:induction false} OfflineCountPositive(nodes: seq<Node>)
    ensures CountOffline(nodes) > 0 <==> exists i :: 0 <= i < |nodes| && IsOfflineNode(nodes[i])
  {
    if nodes != [] {
      OfflineCountPositive(nodes[1..]);
      if exists i :: 0 <= i < |nodes[1..]| && IsOfflineNode(nodes[1..][i]) {
        var i :| 0 <= i < |nodes[1..]| && IsOfflineNode(nodes[1..][i]);
        assert IsOfflineNode(nodes[i + 1]);
      }
      if exists i :: 0 <= i < |nodes| && IsOfflineNode(nodes[i]) {
        var i :| 0 <= i < |nodes| && IsOfflineNode(nodes[i]);
        if i > 0 {
          assert IsOfflineNode(nodes[1..][i - 1]);
        }
      }
    }
  }

  /** No node counts as active or offline exactly when every node is BUSY. */
  lemma {:induction false} AllBusyIffNoActiveNoOffline(nodes: seq<Node>)
    ensures CountActive(nodes) == 0 && CountOffline(nodes) == 0
        <==> forall i :: 0 <= i < |nodes| ==> nodes[i].status == BUSY
  {
    if nodes != [] {
      AllBusyIffNoActiveNoOffline(nodes[1..]);
      if forall i :: 0 <= i < |nodes| ==> nodes[i].status == BUSY {
        forall i | 0 <= i < |nodes[1..]| ensures nodes[1..][i].status == BUSY {
          assert nodes[i + 1].status == BUSY;
        }
      }
    }
  }

  lemma {:induction false} RamAdds(a: seq<Node>, b: seq<Node>)
    ensures RamUsed(a + b) == RamUsed(a) + RamUsed(b)
    ensures RamTotal(a + b) == RamTotal(a) + RamTotal(b)
  {
    if a == [] {
      assert a + b == b;
    } else {
      assert (a + b)[1..] == a[1..] + b;
      assert (a + b)[0] == a[0];
      RamAdds(a[1..], b);
    }
  }

  /** When no node reports more memory used than it has, neither does the
      cluster; a node without readings counts as 0 of 0. */
  lemma {:induction false} RamUsedWithinTotal(nodes: seq<Node>)
    requires forall i :: 0 <= i < |nodes| ==> OrZero(nodes[i].memoryUsedMb) <= OrZero(nodes[i].memoryTotalMb)
    ensures RamUsed(nodes) <= RamTotal(nodes)
  {
    if nodes != [] {
      RamUsedWithinTotal(nodes[1..]);
    }
  }

  /** With non-negative readings the cluster total is 0 exactly when no node
      reports a positive total. */
  lemma {:induction false} RamTotalZero(nodes: seq<Node>)
    requires forall i :: 0 <= i < |nodes| ==> OrZero(nodes[i].memoryTotalMb) >= 0
    ensures RamTotal(nodes) >= 0
    ensures RamTotal(nodes) == 0 <==> forall i :: 0 <= i < |nodes| ==> OrZero(nodes[i].memoryTotalMb) == 0
  {
    if nodes != [] {
      RamTotalZero(nodes[1..]);
      if forall i :: 0 <= i < |nodes| ==> OrZero(nodes[i].memoryTotalMb) == 0 {
        forall i | 0 <= i < |nodes[1..]| ensures OrZero(nodes[1..][i].memoryTotalMb) == 0 {
          assert nodes[1..][i] == nodes[i + 1];
        }
      }
    }
  }

  /** `RoundHalfUp(a, b)` is the integer r with r - 1/2 <= a/b < r + 1/2. */
  lemma RoundIsNearest(a: int, b: int)
    requires b > 0
    ensures var r := RoundHalfUp(a, b);
      2 * r * b <= 2 * a + b < 2 * r * b + 2 * b
  {
    var r := RoundHalfUp(a, b);
    var m := (2 * a + b) % (2 * b);
    assert 2 * a + b == r * (2 * b) + m;
  }

  /** With readings between 0 and 100 percent, so is the rounded mean; with
      no nodes it is 0. */
  lemma {:induction false} UtilizationIsPercentage(nodes: seq<Node>)
    requires forall i :: 0 <= i < |nodes| ==> 0 <= OrZero(nodes[i].gpuUtilization) <= 100
    ensures 0 <= GpuUtilization(nodes) <= 100
    ensures nodes == [] ==> GpuUtilization(nodes) == 0
  {
    if nodes != [] {
      var n := |nodes|;
      var total := SumUtilization(nodes);
      UtilizationSumBounds(nodes);
      RoundOfPercentMean(total, n);
    }
  }

  /** `Math.round` of a mean between 0 and 100 is a whole percentage. */
  lemma RoundOfPercentMean(a: int, b: int)
    requires b > 0 && 0 <= a <= 100 * b
    ensures 0 <= RoundHalfUp(a, b) <= 100
  {
    RoundIsNearest(a, b);
    RoundBounds(RoundHalfUp(a, b), b);
  }

  lemma RoundBounds(r: int, n: int)
    requires n > 0 && 2 * r * n <= 201 * n && 2 * r * n + 2 * n > n
    ensures 0 <= r <= 100
  {
    assert (2 * r - 201) * n <= 0;
    SignOfProduct(2 * r - 201, n);
    assert (2 * r + 1) * n > 0;
    SignOfProduct(-(2 * r + 1), n);
  }

  lemma SignOfProduct(x: int, n: int)
    requires n > 0 && x * n <= 0
    ensures x <= 0
  {
  }

  lemma {:induction false} UtilizationSumBounds(nodes: seq<Node>)
    requires forall i :: 0 <= i < |nodes| ==> 0 <= OrZero(nodes[i].gpuUtilization) <= 100
    ensures 0 <= SumUtilization(nodes) <= 100 * |nodes|
  {
    if nodes != [] {
      UtilizationSumBounds(nodes[1..]);
    }
  }

  // ---------------------------------------------------------------- lemmas: fetching

  /** Before the first fetch the dashboard shows what an empty cluster shows. */
  lemma InitialIsEmptyCluster()
    ensures InitialStats() == ComputeStats([], [])
  {
  }

  /** A body that is not an array keeps the previous figures; otherwise the
      figures depend on the fetched lists only. */
  lemma RefreshOutcome(previous: Stats, other: Stats, jobsFetch: Fetch<Job>, nodesFetch: Fetch<Node>)
    ensures jobsFetch.NotAList? || nodesFetch.NotAList? ==> Refresh(previous, jobsFetch, nodesFetch) == previous
    ensures !jobsFetch.NotAList? && !nodesFetch.NotAList? ==>
      Refresh(previous, jobsFetch, nodesFetch) == Refresh(other, jobsFetch, nodesFetch)
  {
  }

  /** A failed or null jobs fetch zeroes the job figures only; the node
      figures are computed from the nodes all the same (and symmetrically). */
  lemma FailedFetchIsolated(previous: Stats, jobs: seq<Job>, nodes: seq<Node>, bad: Fetch<Job>, badNodes: Fetch<Node>)
    requires bad.Failed? || bad.Null?
    requires badNodes.Failed? || badNodes.Null?
    ensures var s := Refresh(previous, bad, Listed(nodes));
      s.runningJobs == 0 && s.queuedJobs == 0 && s.recentJobs == []
      && s == ComputeStats(jobs, nodes).(runningJobs := 0, queuedJobs := 0, recentJobs := [])
    ensures var s := Refresh(previous, Listed(jobs), badNodes);
      s.activeNodes == 0 && s.offlineNodes == 0 && s.gpuUtilization == 0
      && s.systemRamUsage == 0 && s.systemRamTotal == 0
      && s == ComputeStats(jobs, nodes).(activeNodes := 0, offlineNodes := 0, gpuUtilization := 0,
                                          systemRamUsage := 0, systemRamTotal := 0)
  {
  }
}
