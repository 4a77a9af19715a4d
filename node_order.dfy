/** `useNodes`' ordering: a sorted copy of the fetched nodes with UP nodes
    moved to the front. */
module NodeOrder {
  import opened Types
  import opened StableSort

  /** The comparator: -1 when only a is UP, 1 when only b is UP, else 0. */
  function Compare(a: Node, b: Node): int
  {
    if a.status == UP && b.status != UP then -1
    else if a.status != UP && b.status == UP then 1
    else 0
  }

  /** The key that comparator compares: UP nodes 0, every other status 1. */
  function UpRank(n: Node): int
  {
    if n.status == UP then 0 else 1
  }

  lemma CompareIsRankDifference(a: Node, b: Node)
    ensures Compare(a, b) == UpRank(a) - UpRank(b)
  {
  }

  /** `sortedNodes`: the stable sort of a copy by that comparator. */
  function SortedNodes(nodes: seq<Node>): seq<Node>
  {
    SortBy(nodes, UpRank)
  }

  /** The UP nodes, in fetched order. */
  function UpNodes(nodes: seq<Node>): seq<Node>
  {
    if nodes == [] then []
    else (if nodes[0].status == UP then [nodes[0]] else []) + UpNodes(nodes[1..])
  }

  /** The nodes of every other status, in fetched order. */
  function OtherNodes(nodes: seq<Node>): seq<Node>
  {
    if nodes == [] then []
    else (if nodes[0].status != UP then [nodes[0]] else []) + OtherNodes(nodes[1..])
  }

  lemma {:induction false} GroupsAreKeyGroups(nodes: seq<Node>, k: int)
    ensures WithKey(nodes, UpRank, k) == if k == 0 then UpNodes(nodes) else if k == 1 then OtherNodes(nodes) else []
  {
    if nodes != [] {
      GroupsAreKeyGroups(nodes[1..], k);
    }
  }

  lemma {:induction false} UpNodesAreUp(nodes: seq<Node>)
    ensures forall i :: 0 <= i < |UpNodes(nodes)| ==> UpNodes(nodes)[i].status == UP
    ensures forall i :: 0 <= i < |OtherNodes(nodes)| ==> OtherNodes(nodes)[i].status != UP
  {
    if nodes != [] {
      UpNodesAreUp(nodes[1..]);
    }
  }

  lemma {:induction false} GroupIsItsOwnFilter(nodes: seq<Node>)
    ensures UpNodes(UpNodes(nodes)) == UpNodes(nodes) && OtherNodes(UpNodes(nodes)) == []
    ensures UpNodes(OtherNodes(nodes)) == [] && OtherNodes(OtherNodes(nodes)) == OtherNodes(nodes)
  {
    if nodes != [] {
      GroupIsItsOwnFilter(nodes[1..]);
      var u, o := UpNodes(nodes[1..]), OtherNodes(nodes[1..]);
      if nodes[0].status == UP {
        assert UpNodes(nodes) == [nodes[0]] + u && OtherNodes(nodes) == o;
        assert ([nodes[0]] + u)[1..] == u;
      } else {
        assert UpNodes(nodes) == u && OtherNodes(nodes) == [nodes[0]] + o;
        assert ([nodes[0]] + o)[1..] == o;
      }
    }
  }

  /** The UP-first order is: all UP nodes in fetched order, then all other
      nodes in fetched order. */
  lemma SortedNodesIsPartition(nodes: seq<Node>)
    ensures SortedNodes(nodes) == UpNodes(nodes) + OtherNodes(nodes)
  {
    var up, other := UpNodes(nodes), OtherNodes(nodes);
    var p := up + other;
    UpNodesAreUp(nodes);
    assert Sorted(p, UpRank) by {
      forall i, j | 0 <= i < j < |p| ensures UpRank(p[i]) <= UpRank(p[j]) {
        if j < |up| {
          assert p[i] == up[i] && p[j] == up[j];
        } else if i >= |up| {
          assert p[i] == other[i - |up|] && p[j] == other[j - |up|];
        } else {
          assert p[i] == up[i];
        }
      }
    }
    forall k ensures WithKey(p, UpRank, k) == WithKey(nodes, UpRank, k) {
      WithKeyAppend(up, other, UpRank, k);
      GroupsAreKeyGroups(nodes, k);
      GroupsAreKeyGroups(up, k);
      GroupsAreKeyGroups(other, k);
      GroupIsItsOwnFilter(nodes);
    }
    IsSortBy(p, nodes, UpRank);
  }

  /** The returned list holds exactly the fetched nodes. */
  lemma SortedNodesPermutes(nodes: seq<Node>)
    ensures multiset(SortedNodes(nodes)) == multiset(nodes)
  {
    SortByPermutes(nodes, UpRank);
  }

  /** Every UP node comes before every node of another status. */
  lemma UpNodesFirst(nodes: seq<Node>)
    ensures var r := SortedNodes(nodes);
      forall i, j :: 0 <= i < |r| && 0 <= j < |r| && r[i].status == UP && r[j].status != UP ==> i < j
  {
    var r := SortedNodes(nodes);
    SortBySorted(nodes, UpRank);
    forall i, j | 0 <= i < |r| && 0 <= j < |r| ensures j < i ==> UpRank(r[j]) <= UpRank(r[i]) {
    }
  }

  /** Within each group the fetched order is kept; in particular READY, BUSY,
      OFFLINE and DOWN nodes are not reordered among themselves. */
  lemma GroupsKeepFetchedOrder(nodes: seq<Node>)
    ensures UpNodes(SortedNodes(nodes)) == UpNodes(nodes)
    ensures OtherNodes(SortedNodes(nodes)) == OtherNodes(nodes)
  {
    SortByKeepsTies(nodes, UpRank);
    GroupsAreKeyGroups(nodes, 0);
    GroupsAreKeyGroups(nodes, 1);
    GroupsAreKeyGroups(SortedNodes(nodes), 0);
    GroupsAreKeyGroups(SortedNodes(nodes), 1);
    assert WithKey(SortedNodes(nodes), UpRank, 0) == WithKey(nodes, UpRank, 0);
    assert WithKey(SortedNodes(nodes), UpRank, 1) == WithKey(nodes, UpRank, 1);
  }

  /** A list without UP nodes comes back in fetched order. */
  lemma NoUpNodesNoChange(nodes: seq<Node>)
    requires forall i :: 0 <= i < |nodes| ==> nodes[i].status != UP
    ensures SortedNodes(nodes) == nodes
  {
    SortedNodesIsPartition(nodes);
    NoUpIsOther(nodes);
  }

  lemma {:induction false} NoUpIsOther(nodes: seq<Node>)
    requires forall i :: 0 <= i < |nodes| ==> nodes[i].status != UP
    ensures UpNodes(nodes) == [] && OtherNodes(nodes) == nodes
  {
    if nodes != [] {
      NoUpIsOther(nodes[1..]);
    }
  }
}
