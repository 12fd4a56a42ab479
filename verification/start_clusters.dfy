/** The launcher's port and name layout: cluster c (counted from 0) gets a
    manager on port 7001 + c and n storage nodes on consecutive ports from
    5001 + c*n, and the Global Balancer's cluster map names it `cluster_{c+1}`.
    Only the layout is modelled; starting the processes is not. */
module ClusterLauncher {
  import opened Common
  import opened Decimal

  const NodeBasePort := 5001
  const ClusterBasePort := 7001
  /** The port the Global Balancer is started on. */
  const BalancerPort := 6001

  /** `get_free_ports(start, count)`: `count` consecutive ports from `start`;
      none for a count that is not positive, as `range(count)` is then empty. */
  function FreePorts(start: int, count: int): (r: seq<int>)
    ensures |r| == if count <= 0 then 0 else count
    ensures forall i :: 0 <= i < |r| ==> r[i] == start + i
  {
    if count <= 0 then [] else seq(count, i requires 0 <= i < count => start + i)
  }

  function LocalUrl(port: int): string
  {
    "http://localhost:" + IntToString(port)
  }

  function LocalUrls(ports: seq<int>): (r: seq<string>)
    ensures |r| == |ports| && forall i :: 0 <= i < |r| ==> r[i] == LocalUrl(ports[i])
  {
    seq(|ports|, i requires 0 <= i < |ports| => LocalUrl(ports[i]))
  }

  /** The key of cluster c in the cluster map. */
  function ClusterName(c: int): string
  {
    "cluster_" + IntToString(c + 1)
  }

  /** A cluster manager start: its port and the NODES list it is given. */
  datatype ManagerLaunch = ManagerLaunch(port: int, nodes: seq<string>)

  /** What the launcher sets up: the cluster map handed to the Global Balancer
      (a dict, so a map plus its insertion order), the cluster managers and
      the storage node ports, each list in launch order. */
  datatype Deployment = Deployment(
    clusterMap: map<string, string>,
    clusterOrder: seq<string>,
    managers: seq<ManagerLaunch>,
    nodePorts: seq<int>)

  /** The node ports of cluster c when every cluster has n nodes. */
  function NodePortsOf(c: int, n: int): seq<int>
  {
    FreePorts(NodeBasePort + c * n, n)
  }

  /** Distinct clusters are written under distinct names. */
  lemma ClusterNamesDistinct(c1: int, c2: int)
    requires c1 != c2
    ensures ClusterName(c1) != ClusterName(c2)
  {
    IntToStringInjective(c1 + 1, c2 + 1);
    assert ClusterName(c1)[8..] == IntToString(c1 + 1);
    assert ClusterName(c2)[8..] == IntToString(c2 + 1);
  }

  lemma {:induction false} MulMonotone(a: int, b: int, n: nat)
    requires a <= b
    ensures a * n <= b * n
    decreases b - a
  {
    if a < b {
      MulMonotone(a, b - 1, n);
      assert b * n == (b - 1) * n + n;
    }
  }

  /** Cluster c's node ports lie in [5001 + c*n, 5001 + (c+1)*n). */
  lemma NodePortsRange(c: int, n: int)
    ensures forall p :: p in NodePortsOf(c, n) ==>
      NodeBasePort + c * n <= p < NodeBasePort + (c + 1) * n
  {
    assert (c + 1) * n == c * n + n;
  }

  /** Two different clusters never share a node port. */
  lemma NodePortRangesDisjoint(c1: int, c2: int, n: int)
    requires 0 <= c1 < c2
    ensures forall p :: p in NodePortsOf(c1, n) ==> p !in NodePortsOf(c2, n)
  {
    NodePortsRange(c1, n);
    NodePortsRange(c2, n);
    if n > 0 {
      MulMonotone(c1 + 1, c2, n);
    }
  }

  /** With at most 999 nodes in total, every node port lies below the Global
      Balancer's port, and so below every cluster manager's port. */
  lemma NodePortsBelowServicePorts(clusters: int, n: int, c: nat)
    requires c < clusters && clusters * n <= 999
    ensures forall p :: p in NodePortsOf(c, n) ==> NodeBasePort <= p < BalancerPort
  {
    NodePortsRange(c, n);
    if n > 0 {
      MulMonotone(c + 1, clusters, n);
      MulMonotone(0, c, n);
    }
  }

  /** The node ports of clusters 0..c-1, followed by those of cluster c, are
      the node ports of clusters 0..c. */
  lemma NodePortsStep(c: nat, n: int)
    ensures FreePorts(NodeBasePort, c * n) + NodePortsOf(c, n) == FreePorts(NodeBasePort, (c + 1) * n)
  {
    if n <= 0 {
      MulMonotone(0, c + 1, 0 - n);
      assert (c + 1) * n == 0 - (c + 1) * (0 - n);
      MulMonotone(0, c, 0 - n);
      assert c * n == 0 - c * (0 - n);
    } else {
      assert (c + 1) * n == c * n + n;
      MulMonotone(0, c, n);
    }
  }

  /** The layout after clusters 0..c-1 are set up with n nodes each: manager
      k on port 7001 + k with the URLs of its node ports, in order; the map
      from `cluster_{k+1}` to that manager's URL, keys in insertion order; and
      the node ports of all those clusters, in launch order. */
  ghost predicate Layout(dep: Deployment, c: nat, n: int)
  {
    && |dep.managers| == c
    && (forall k :: 0 <= k < c ==>
          dep.managers[k] == ManagerLaunch(ClusterBasePort + k, LocalUrls(NodePortsOf(k, n))))
    && |dep.clusterOrder| == c
    && (forall k :: 0 <= k < c ==> dep.clusterOrder[k] == ClusterName(k))
    && Distinct(dep.clusterOrder)
    && dep.clusterMap.Keys == Elements(dep.clusterOrder)
    && (forall k :: 0 <= k < c ==>
          ClusterName(k) in dep.clusterMap &&
          dep.clusterMap[ClusterName(k)] == LocalUrl(ClusterBasePort + k))
    && dep.nodePorts == FreePorts(NodeBasePort, c * n)
  }

  /** Launching manager c after managers 0..c-1. */
  lemma ManagersStep(managers: seq<ManagerLaunch>, c: nat, n: int)
    requires |managers| == c
    requires forall k :: 0 <= k < c ==>
      managers[k] == ManagerLaunch(ClusterBasePort + k, LocalUrls(NodePortsOf(k, n)))
    ensures var next := managers + [ManagerLaunch(ClusterBasePort + c, LocalUrls(NodePortsOf(c, n)))];
      forall k :: 0 <= k < c + 1 ==>
        next[k] == ManagerLaunch(ClusterBasePort + k, LocalUrls(NodePortsOf(k, n)))
  {
  }

  /** Recording `cluster_{c+1}` after the names of clusters 0..c-1. */
  lemma OrderStep(order: seq<string>, c: nat)
    requires |order| == c && Distinct(order)
    requires forall k :: 0 <= k < c ==> order[k] == ClusterName(k)
    ensures var next := order + [ClusterName(c)];
      && (forall k :: 0 <= k < c + 1 ==> next[k] == ClusterName(k))
      && Distinct(next)
      && Elements(next) == Elements(order) + {ClusterName(c)}
  {
    var next := order + [ClusterName(c)];
    forall i, j | 0 <= i < j < c + 1
      ensures next[i] != next[j]
    {
      if j == c {
        ClusterNamesDistinct(i, c);
      }
    }
  }

  /** Mapping `cluster_{c+1}` after the entries of clusters 0..c-1. */
  lemma MapStep(m: map<string, string>, c: nat)
    requires forall k :: 0 <= k < c ==> ClusterName(k) in m && m[ClusterName(k)] == LocalUrl(ClusterBasePort + k)
    ensures var next := m[ClusterName(c) := LocalUrl(ClusterBasePort + c)];
      forall k :: 0 <= k < c + 1 ==> ClusterName(k) in next && next[ClusterName(k)] == LocalUrl(ClusterBasePort + k)
  {
    forall k | 0 <= k < c
      ensures ClusterName(k) != ClusterName(c)
    {
      ClusterNamesDistinct(k, c);
    }
  }

  /** Setting up cluster c extends the layout of clusters 0..c-1 to 0..c. */
  lemma LayoutStep(dep: Deployment, c: nat, n: int)
    requires Layout(dep, c, n)
    ensures Layout(Deployment(
      dep.clusterMap[ClusterName(c) := LocalUrl(ClusterBasePort + c)],
      dep.clusterOrder + [ClusterName(c)],
      dep.managers + [ManagerLaunch(ClusterBasePort + c, LocalUrls(NodePortsOf(c, n)))],
      dep.nodePorts + NodePortsOf(c, n)), c + 1, n)
  {
    ManagersStep(dep.managers, c, n);
    OrderStep(dep.clusterOrder, c);
    MapStep(dep.clusterMap, c);
    NodePortsStep(c, n);
  }

  /** A complete layout has exactly one map entry per cluster. */
  lemma LayoutMapSize(dep: Deployment, c: nat, n: int)
    requires Layout(dep, c, n)
    ensures |dep.clusterMap| == c
  {
    DistinctCard(dep.clusterOrder);
  }

  /** `start_clusters_and_nodes`, given the two numbers read from the user
      (None when the input is not an integer).  Cluster c is set up in turn:
      its manager, its nodes, then its cluster-map entry. */
  method StartClustersAndNodes(clustersIn: Option<int>, nodesIn: Option<int>) returns (d: Option<Deployment>)
    ensures d.None? <==> clustersIn.None? || nodesIn.None?
    ensures d.Some? ==>
      var count := if clustersIn.value < 0 then 0 else clustersIn.value;
      Layout(d.value, count, nodesIn.value) && |d.value.clusterMap| == count
  {
    if clustersIn.None? || nodesIn.None? {
      return None;
    }
    var clusters, n := clustersIn.value, nodesIn.value;
    var count := if clusters < 0 then 0 else clusters;
    var clusterMap: map<string, string> := map[];
    var clusterOrder: seq<string> := [];
    var managers: seq<ManagerLaunch> := [];
    var nodePorts: seq<int> := [];
    assert Elements(clusterOrder) == {};
    for c := 0 to count
      invariant Layout(Deployment(clusterMap, clusterOrder, managers, nodePorts), c, n)
    {
      LayoutStep(Deployment(clusterMap, clusterOrder, managers, nodePorts), c, n);
      var ports := NodePortsOf(c, n);
      managers := managers + [ManagerLaunch(ClusterBasePort + c, LocalUrls(ports))];
      nodePorts := nodePorts + ports;
      clusterMap := clusterMap[ClusterName(c) := LocalUrl(ClusterBasePort + c)];
      clusterOrder := clusterOrder + [ClusterName(c)];
    }
    d := Some(Deployment(clusterMap, clusterOrder, managers, nodePorts));
    LayoutMapSize(d.value, count, n);
  }
}
