/** The Dashboard page's decisions over the aggregates: the Cluster Health
    card, its singular/plural noun, and the RAM card's placeholder. */
module Dashboard {
  import opened Types
  import opened DashboardStats

  /** What the Cluster Health card shows. */
  datatype Health = OfflineAlert(count: int) | AwaitingRegistration | FullyHealthy

  function ClusterHealth(stats: Stats, loading: bool): Health
  {
    if stats.offlineNodes > 0 then OfflineAlert(stats.offlineNodes)
    else if stats.activeNodes == 0 && !loading then AwaitingRegistration
    else FullyHealthy
  }

  /** The noun of "N node(s) offline". */
  function NodeNoun(count: int): string
  {
    if count == 1 then "node" else "nodes"
  }

  /** The five stat cards. */
  datatype StatCard = RunningJobsCard | QueuedJobsCard | ActiveNodesCard | GpuUtilizationCard | SystemRamCard

  /** The card shows "Syncing Resources..." instead of its value. */
  predicate ShowsSyncing(card: StatCard, stats: Stats, loading: bool)
  {
    card == SystemRamCard && stats.systemRamTotal == 0 && !loading
  }

  /** In terms of the fetched nodes: the alert shows iff some node is OFFLINE
      or DOWN, whatever else holds, and then counts them; "Awaiting node
      registration" shows iff the fetch is over and every node is BUSY (or
      there are none); otherwise the cluster is "fully healthy". */
  lemma HealthOfCluster(jobs: seq<Job>, nodes: seq<Node>, loading: bool)
    ensures var h := ClusterHealth(ComputeStats(jobs, nodes), loading);
      && (h.OfflineAlert? <==> exists i :: 0 <= i < |nodes| && IsOfflineNode(nodes[i]))
      && (h.OfflineAlert? ==> h.count == CountOffline(nodes))
      && (h == AwaitingRegistration <==> !loading && forall i :: 0 <= i < |nodes| ==> nodes[i].status == BUSY)
  {
    OfflineCountPositive(nodes);
    AllBusyIffNoActiveNoOffline(nodes);
  }

  /** While loading the card never asks to wait for registration, so the
      initial state reads "fully healthy"; after a fetch of an empty cluster
      it reads "awaiting". */
  lemma HealthWhileLoading(stats: Stats)
    ensures ClusterHealth(stats, true) != AwaitingRegistration
    ensures ClusterHealth(InitialStats(), true) == FullyHealthy
    ensures ClusterHealth(ComputeStats([], []), false) == AwaitingRegistration
  {
  }

  /** The noun is singular exactly when one fetched node is OFFLINE or DOWN. */
  lemma OfflineNoun(jobs: seq<Job>, nodes: seq<Node>)
    ensures NodeNoun(ComputeStats(jobs, nodes).offlineNodes) == "node" <==> CountOffline(nodes) == 1
  {
  }

  /** Only the RAM card can show the placeholder; with non-negative readings
      it does so exactly when loading is over and no node reports any memory. */
  lemma SyncingPlaceholder(card: StatCard, jobs: seq<Job>, nodes: seq<Node>, loading: bool)
    requires forall i :: 0 <= i < |nodes| ==> OrZero(nodes[i].memoryTotalMb) >= 0
    ensures ShowsSyncing(card, ComputeStats(jobs, nodes), loading) <==>
      card == SystemRamCard && !loading && forall i :: 0 <= i < |nodes| ==> OrZero(nodes[i].memoryTotalMb) == 0
  {
    RamTotalZero(nodes);
  }
}
