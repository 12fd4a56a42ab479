/** The Global Balancer: a heartbeat cache of the cluster managers' aggregate
    free space, cluster selection for an upload (deterministic: first alive
    cluster of maximal free space, no penalty and no random tie-break), the
    name-by-URL lookup and the `/heartbeats` projection. */
module GlobalBalancer {
  import opened Common
  import opened ViewCache

  type Name = string
  type Url = string

  /** One item of the cluster configuration, in configuration order. */
  datatype ClusterConfig = ClusterConfig(name: Name, url: Url)

  /** What a probe of a cluster manager's `/status` yields. */
  datatype ClusterProbe = Answered(clusterFreeMb: Option<int>) | Unreachable

  /** One entry of the cluster heartbeat cache. */
  datatype ClusterView = ClusterView(lastSeen: int, freeMb: int, status: Health)

  function Names(clusters: seq<ClusterConfig>): (names: seq<Name>)
    ensures |names| == |clusters|
    ensures forall i :: 0 <= i < |clusters| ==> names[i] == clusters[i].name
  {
    seq(|clusters|, i requires 0 <= i < |clusters| => clusters[i].name)
  }

  /** The name of the first configured cluster whose URL is `url`, or `url`
      itself when there is none. */
  function NameForUrl(clusters: seq<ClusterConfig>, url: Url): (name: Name)
    ensures (forall i :: 0 <= i < |clusters| ==> clusters[i].url != url) ==> name == url
    ensures forall i :: (0 <= i < |clusters| && clusters[i].url == url &&
                         forall j :: 0 <= j < i ==> clusters[j].url != url) ==> name == clusters[i].name
  {
    if clusters == [] then url
    else if clusters[0].url == url then clusters[0].name
    else
      var rest := clusters[1..];
      assert forall i :: 1 <= i < |clusters| ==> clusters[i] == rest[i - 1];
      NameForUrl(rest, url)
  }

  /** The configured URL of a cluster name (`CLUSTERS.get(name)`). */
  function UrlOf(clusters: seq<ClusterConfig>, name: Name): Option<Url>
  {
    if clusters == [] then None
    else if clusters[0].name == name then Some(clusters[0].url)
    else UrlOf(clusters[1..], name)
  }

  /** A name has a URL exactly when it is configured, and then it is the URL
      of its first configuration entry. */
  lemma {:induction false} UrlOfFirstMatch(clusters: seq<ClusterConfig>, name: Name)
    ensures UrlOf(clusters, name).Some? <==> name in Names(clusters)
    ensures forall i :: (0 <= i < |clusters| && clusters[i].name == name &&
                         forall j :: 0 <= j < i ==> clusters[j].name != name) ==> UrlOf(clusters, name) == Some(clusters[i].url)
  {
    if clusters != [] && clusters[0].name != name {
      var rest := clusters[1..];
      UrlOfFirstMatch(rest, name);
      assert Names(clusters) == [clusters[0].name] + Names(rest);
      forall i | 0 <= i < |clusters| && clusters[i].name == name && forall j :: 0 <= j < i ==> clusters[j].name != name
        ensures UrlOf(clusters, name) == Some(clusters[i].url)
      {
        assert clusters[i] == rest[i - 1];
        forall j | 0 <= j < i - 1 ensures rest[j].name != name {
          assert rest[j] == clusters[j + 1];
        }
      }
    }
  }

  /** The summary a successful status probe yields. */
  datatype ClusterStatus = ClusterStatus(url: Url, name: Name, freeMb: int)

  /** Probe one cluster manager: on a reply, its URL, its configured name and
      its aggregate free space (0 when the reply lacks it); None on failure. */
  function GetClusterStatus(clusters: seq<ClusterConfig>, url: Url, probe: ClusterProbe): (r: Option<ClusterStatus>)
    ensures r.Some? <==> probe.Answered?
    ensures r.Some? ==> r.value.url == url && r.value.name == NameForUrl(clusters, url)
    ensures r.Some? ==> r.value.freeMb == GetOr(probe.clusterFreeMb, 0)
  {
    match probe
    case Answered(free) => Some(ClusterStatus(url, NameForUrl(clusters, url), GetOr(free, 0)))
    case Unreachable => None
  }

  // ---------------------------------------------------------------- heartbeat

  /** The entry a heartbeat writes for a cluster: alive with the reported free
      space on a reply; down with no free space and the previous last-seen
      time (0 when there was no entry) on a failure. */
  function Observe(prev: Option<ClusterView>, probe: ClusterProbe, now: int): ClusterView
  {
    match probe
    case Answered(free) => ClusterView(now, GetOr(free, 0), Alive)
    case Unreachable => ClusterView(if prev.Some? then prev.value.lastSeen else 0, 0, Down)
  }

  /** The cache after one heartbeat pass over the configured clusters. */
  function Pass(hb: map<Name, ClusterView>, clusters: seq<ClusterConfig>, probes: seq<ClusterProbe>, now: int): map<Name, ClusterView>
    requires |probes| == |clusters|
  {
    Refresh(hb, Names(clusters), probes, Observe, now)
  }

  /** After a pass every configured cluster has an entry: alive, with
      `free_mb` the reported aggregate (0 when missing) and `last_seen = now`,
      on a reply; down, with `free_mb = 0` and the previous `last_seen`
      (0 when there was no entry), on a failure.  Other entries are kept. */
  lemma PassEntry(hb: map<Name, ClusterView>, clusters: seq<ClusterConfig>, probes: seq<ClusterProbe>, now: int, i: nat)
    requires |probes| == |clusters| && i < |clusters|
    requires Distinct(Names(clusters))
    ensures clusters[i].name in Pass(hb, clusters, probes, now)
    ensures probes[i].Answered? ==>
      Pass(hb, clusters, probes, now)[clusters[i].name]
        == ClusterView(now, GetOr(probes[i].clusterFreeMb, 0), Alive)
    ensures probes[i].Unreachable? ==>
      Pass(hb, clusters, probes, now)[clusters[i].name]
        == ClusterView(if clusters[i].name in hb then hb[clusters[i].name].lastSeen else 0, 0, Down)
    ensures forall n :: n in hb && n !in Names(clusters) ==>
      n in Pass(hb, clusters, probes, now) && Pass(hb, clusters, probes, now)[n] == hb[n]
  {
    RefreshOnce(hb, Names(clusters), probes, Observe, now, i);
    forall n | n in hb && n !in Names(clusters)
      ensures n in Pass(hb, clusters, probes, now) && Pass(hb, clusters, probes, now)[n] == hb[n]
    {
      RefreshUntouched(hb, Names(clusters), probes, Observe, now, n);
    }
  }

  // ---------------------------------------------------------------- selection

  /** The alive cluster names, in cache order. */
  function AliveNames(hb: map<Name, ClusterView>, order: seq<Name>): (alive: seq<Name>)
    requires forall n :: n in order ==> n in hb
    ensures forall i :: 0 <= i < |alive| ==> alive[i] in hb
  {
    if order == [] then []
    else
      var k := |order| - 1;
      AliveNames(hb, order[..k]) + (if hb[order[k]].status == Alive then [order[k]] else [])
  }

  /** `max(names, key=free_mb)`: scans left to right and replaces the current
      best only by a strictly larger one, so ties go to the first. */
  function Best(hb: map<Name, ClusterView>, names: seq<Name>): (b: Name)
    requires names != [] && forall n :: n in names ==> n in hb
    ensures b in names
  {
    if |names| == 1 then names[0]
    else
      var b := Best(hb, names[..|names| - 1]);
      var x := names[|names| - 1];
      if hb[x].freeMb > hb[b].freeMb then x else b
  }

  /** The alive list holds exactly the cached names whose entry is alive. */
  lemma {:induction false} AliveNamesExact(hb: map<Name, ClusterView>, order: seq<Name>)
    requires forall n :: n in order ==> n in hb
    ensures forall n :: n in AliveNames(hb, order) <==> n in order && hb[n].status == Alive
  {
    if order != [] {
      var k := |order| - 1;
      var front := order[..k];
      AliveNamesExact(hb, front);
      assert order == front + [order[k]];
    }
  }

  /** `max` with a key returns a name of maximal free space. */
  lemma {:induction false} BestIsMaximal(hb: map<Name, ClusterView>, names: seq<Name>)
    requires names != [] && forall n :: n in names ==> n in hb
    ensures forall n :: n in names ==> hb[n].freeMb <= hb[Best(hb, names)].freeMb
  {
    if |names| > 1 {
      var k := |names| - 1;
      var front := names[..k];
      BestIsMaximal(hb, front);
      assert names == front + [names[k]];
    }
  }

  /** Ties go to the first: every name before the one `max` returns has
      strictly less free space. */
  lemma {:induction false} BestIsFirst(hb: map<Name, ClusterView>, names: seq<Name>)
    requires names != [] && forall n :: n in names ==> n in hb
    ensures exists i ::
      && 0 <= i < |names|
      && names[i] == Best(hb, names)
      && forall j :: 0 <= j < i ==> hb[names[j]].freeMb < hb[Best(hb, names)].freeMb
  {
    if |names| == 1 {
      assert names[0] == Best(hb, names);
    } else {
      var k := |names| - 1;
      var front := names[..k];
      var x := names[k];
      var b := Best(hb, front);
      if hb[x].freeMb > hb[b].freeMb {
        assert Best(hb, names) == x;
        BestIsMaximal(hb, front);
        forall j | 0 <= j < k ensures hb[names[j]].freeMb < hb[x].freeMb {
          assert names[j] == front[j];
        }
      } else {
        assert Best(hb, names) == b;
        BestIsFirst(hb, front);
        var i :| 0 <= i < k && front[i] == b && forall j :: 0 <= j < i ==> hb[front[j]].freeMb < hb[b].freeMb;
        forall j | 0 <= j < i ensures hb[names[j]].freeMb < hb[b].freeMb {
          assert names[j] == front[j];
        }
        assert names[i] == b;
      }
    }
  }

  /** Cluster selection: none when no cached cluster is alive, otherwise the
      best alive one. */
  function Select(hb: map<Name, ClusterView>, order: seq<Name>): Option<Name>
    requires forall n :: n in order ==> n in hb
  {
    var alive := AliveNames(hb, order);
    if alive == [] then None else Some(Best(hb, alive))
  }

  /** `order[k]` is alive, no alive entry has more free space, and every alive
      entry before it has strictly less. */
  ghost predicate FirstMaximalAt(hb: map<Name, ClusterView>, order: seq<Name>, k: int)
    requires forall n :: n in order ==> n in hb
  {
    && 0 <= k < |order|
    && hb[order[k]].status == Alive
    && (forall j :: 0 <= j < |order| && hb[order[j]].status == Alive ==> hb[order[j]].freeMb <= hb[order[k]].freeMb)
    && (forall j :: 0 <= j < k && hb[order[j]].status == Alive ==> hb[order[j]].freeMb < hb[order[k]].freeMb)
  }

  /** Appending an entry that is not alive, or one that does not beat the
      first maximal one, keeps the first maximal one. */
  lemma ExtendKeepsFirstMaximal(hb: map<Name, ClusterView>, order: seq<Name>, k: int)
    requires order != [] && forall n :: n in order ==> n in hb
    requires FirstMaximalAt(hb, order[..|order| - 1], k)
    requires var x := order[|order| - 1];
             hb[x].status != Alive || hb[x].freeMb <= hb[order[k]].freeMb
    ensures FirstMaximalAt(hb, order, k)
  {
    var prefix := order[..|order| - 1];
    forall j | 0 <= j < |order| && hb[order[j]].status == Alive
      ensures hb[order[j]].freeMb <= hb[order[k]].freeMb
    {
      if j < |prefix| {
        assert order[j] == prefix[j];
      }
    }
    forall j | 0 <= j < k && hb[order[j]].status == Alive
      ensures hb[order[j]].freeMb < hb[order[k]].freeMb
    {
      assert order[j] == prefix[j];
    }
  }

  /** Appending an alive entry that beats every earlier alive one makes it the
      first maximal one. */
  lemma ExtendWithNewMaximal(hb: map<Name, ClusterView>, order: seq<Name>)
    requires order != [] && forall n :: n in order ==> n in hb
    requires var x := order[|order| - 1];
             hb[x].status == Alive &&
             forall j :: 0 <= j < |order| - 1 && hb[order[j]].status == Alive ==> hb[order[j]].freeMb < hb[x].freeMb
    ensures FirstMaximalAt(hb, order, |order| - 1)
  {
  }

  /** No cached cluster is alive. */
  ghost predicate NoneAlive(hb: map<Name, ClusterView>, order: seq<Name>)
    requires forall n :: n in order ==> n in hb
  {
    forall j :: 0 <= j < |order| ==> hb[order[j]].status != Alive
  }

  /** Appending an alive cluster to an order whose selection is known. */
  lemma SelectStepAlive(hb: map<Name, ClusterView>, order: seq<Name>)
    requires order != [] && forall n :: n in order ==> n in hb
    requires hb[order[|order| - 1]].status == Alive
    requires var prefix := order[..|order| - 1];
      && (Select(hb, prefix).None? <==> NoneAlive(hb, prefix))
      && (Select(hb, prefix).Some? ==>
            exists k :: FirstMaximalAt(hb, prefix, k) && prefix[k] == Select(hb, prefix).value)
    ensures Select(hb, order).Some?
    ensures exists k :: FirstMaximalAt(hb, order, k) && order[k] == Select(hb, order).value
  {
    var n := |order| - 1;
    var prefix := order[..n];
    var x := order[n];
    var a := AliveNames(hb, prefix);
    assert AliveNames(hb, order) == a + [x];
    if a == [] {
      assert Select(hb, order) == Some(x);
      forall j | 0 <= j < n ensures hb[order[j]].status != Alive {
        assert order[j] == prefix[j];
      }
      ExtendWithNewMaximal(hb, order);
    } else {
      var b := Best(hb, a);
      assert (a + [x])[..|a|] == a;
      var k0 :| FirstMaximalAt(hb, prefix, k0) && prefix[k0] == b;
      if hb[x].freeMb > hb[b].freeMb {
        assert Select(hb, order) == Some(x);
        forall j | 0 <= j < n && hb[order[j]].status == Alive ensures hb[order[j]].freeMb < hb[x].freeMb {
          assert order[j] == prefix[j];
        }
        ExtendWithNewMaximal(hb, order);
      } else {
        assert Select(hb, order) == Some(b);
        ExtendKeepsFirstMaximal(hb, order, k0);
      }
    }
  }

  /** Appending a cluster that is not alive to an order whose selection is
      known. */
  lemma SelectStepDown(hb: map<Name, ClusterView>, order: seq<Name>)
    requires order != [] && forall n :: n in order ==> n in hb
    requires hb[order[|order| - 1]].status != Alive
    requires var prefix := order[..|order| - 1];
      && (Select(hb, prefix).None? <==> NoneAlive(hb, prefix))
      && (Select(hb, prefix).Some? ==>
            exists k :: FirstMaximalAt(hb, prefix, k) && prefix[k] == Select(hb, prefix).value)
    ensures Select(hb, order).None? <==> NoneAlive(hb, order)
    ensures Select(hb, order).Some? ==>
      exists k :: FirstMaximalAt(hb, order, k) && order[k] == Select(hb, order).value
  {
    var n := |order| - 1;
    var prefix := order[..n];
    var a := AliveNames(hb, prefix);
    assert AliveNames(hb, order) == a;
    if a != [] {
      var k0 :| FirstMaximalAt(hb, prefix, k0) && prefix[k0] == Best(hb, a);
      ExtendKeepsFirstMaximal(hb, order, k0);
      assert !NoneAlive(hb, order) by {
        assert order[k0] == prefix[k0];
      }
    } else {
      forall j | 0 <= j < |order| ensures hb[order[j]].status != Alive {
        if j < n {
          assert order[j] == prefix[j];
        }
      }
    }
  }

  /** Selection yields nothing exactly when no cached cluster is alive;
      otherwise it yields the alive cluster of maximal free space that comes
      first in cache order among those of maximal free space. */
  lemma {:induction false} SelectedClusterIsFirstMaximal(hb: map<Name, ClusterView>, order: seq<Name>)
    requires forall n :: n in order ==> n in hb
    ensures Select(hb, order).None? <==> NoneAlive(hb, order)
    ensures Select(hb, order).Some? ==>
      exists k :: FirstMaximalAt(hb, order, k) && order[k] == Select(hb, order).value
  {
    if order != [] {
      var n := |order| - 1;
      SelectedClusterIsFirstMaximal(hb, order[..n]);
      if hb[order[n]].status == Alive {
        SelectStepAlive(hb, order);
      } else {
        SelectStepDown(hb, order);
      }
    }
  }

  // ---------------------------------------------------------------- endpoints

  /** What forwarding the chunk to the chosen cluster manager returned. */
  datatype Forward = Accepted(node: Option<string>) | Rejected

  /** Reply of `/upload_chunk`. */
  datatype UploadReply =
    | Stored(cluster: Name, node: string, chunkId: string)
    | MissingChunk
    | NoAvailableClusters
    | ForwardFailed

  function HttpStatus(r: UploadReply): int
  {
    match r
    case Stored(_, _, _) => 200
    case MissingChunk => 400
    case NoAvailableClusters => 503
    case ForwardFailed => 500
  }

  /** The request lacks the chunk file or a non-empty `chunk_id`. */
  predicate MissingInput(chunkPresent: bool, chunkId: Option<string>)
  {
    !chunkPresent || chunkId.None? || chunkId.value == ""
  }

  /** One cluster's entry in the `/heartbeats` reply. */
  datatype HeartbeatReport = HeartbeatReport(url: Option<Url>, status: Health, freeMb: int, lastSeen: int)

  /** The Global Balancer process: its configured clusters and heartbeat cache. */
  class Balancer {
    const clusters: seq<ClusterConfig>
    var heartbeats: map<Name, ClusterView>
    /** Insertion order of the cache's keys. */
    var order: seq<Name>

    ghost predicate Valid()
      reads this
    {
      && Distinct(Names(clusters))
      && Distinct(order)
      && (forall n :: n in order <==> n in heartbeats)
      && (forall n :: n in heartbeats ==> n in Names(clusters))
    }

    /** The configuration is a JSON object, so its names are distinct. */
    constructor (clusters: seq<ClusterConfig>)
      requires Distinct(Names(clusters))
      ensures Valid()
      ensures this.clusters == clusters && heartbeats == map[] && order == []
    {
      this.clusters := clusters;
      heartbeats := map[];
      order := [];
    }

    /** One pass of the heartbeat monitor; `probes[i]` is what probing
        `clusters[i].url` returned and `now` the clock during the pass. */
    method HeartbeatPass(probes: seq<ClusterProbe>, now: int)
      requires Valid() && |probes| == |clusters|
      modifies this
      ensures Valid()
      ensures heartbeats == Pass(old(heartbeats), clusters, probes, now)
      ensures order == Enlist(old(order), Names(clusters))
    {
      ghost var names := Names(clusters);
      for i := 0 to |clusters|
        invariant heartbeats == Refresh(old(heartbeats), names[..i], probes[..i], Observe, now)
        invariant order == Enlist(old(order), names[..i])
        invariant forall n :: n in order <==> n in heartbeats
      {
        var name := clusters[i].name;
        var status := GetClusterStatus(clusters, clusters[i].url, probes[i]);
        assert names[..i + 1][..i] == names[..i] && probes[..i + 1][..i] == probes[..i];
        assert names[i] == name;
        if status.Some? {
          heartbeats := heartbeats[name := ClusterView(now, status.value.freeMb, Alive)];
        } else {
          var prev := Lookup(heartbeats, name);
          heartbeats := heartbeats[name := ClusterView(if prev.Some? then prev.value.lastSeen else 0, 0, Down)];
        }
        if name !in order {
          order := order + [name];
        }
      }
      assert names[..|clusters|] == names && probes[..|probes|] == probes;
      EnlistKeepsOrder(old(order), names);
      RefreshKeys(old(heartbeats), names, probes, Observe, now);
    }

    /** `/upload_chunk`: reject a request without chunk or id, pick the cluster
        from the cache alone (no on-demand probe), forward to its manager. */
    function UploadChunk(chunkPresent: bool, chunkId: Option<string>, forward: Forward): (r: UploadReply)
      reads this
      requires Valid()
      ensures HttpStatus(r) == 400 <==> MissingInput(chunkPresent, chunkId)
      ensures r == NoAvailableClusters <==>
        !MissingInput(chunkPresent, chunkId) && forall n :: n in heartbeats ==> heartbeats[n].status != Alive
      ensures r.Stored? ==>
        && forward.Accepted?
        && chunkId == Some(r.chunkId)
        && r.node == GetOr(forward.node, "unknown")
        && UrlOf(clusters, r.cluster).Some?
        && Select(heartbeats, order) == Some(r.cluster)
      ensures r == ForwardFailed <==>
        !MissingInput(chunkPresent, chunkId) && forward.Rejected? && exists n :: n in heartbeats && heartbeats[n].status == Alive
    {
      SelectedClusterIsFirstMaximal(heartbeats, order);
      if MissingInput(chunkPresent, chunkId) then MissingChunk
      else
        match Select(heartbeats, order)
        case None => NoAvailableClusters
        case Some(best) =>
          UrlOfFirstMatch(clusters, best);
          match forward
          case Accepted(node) => Stored(best, GetOr(node, "unknown"), chunkId.value)
          case Rejected => ForwardFailed
    }

    /** `/heartbeats`: every cache entry with its configured URL added. */
    method Heartbeats() returns (out: map<Name, HeartbeatReport>)
      requires Valid()
      ensures out.Keys == heartbeats.Keys
      ensures forall n :: n in out ==>
        out[n] == HeartbeatReport(UrlOf(clusters, n), heartbeats[n].status, heartbeats[n].freeMb, heartbeats[n].lastSeen)
      ensures forall n :: n in out ==> out[n].url.Some?
    {
      out := map[];
      for i := 0 to |order|
        invariant out.Keys == Elements(order[..i])
        invariant forall n :: n in out ==>
          && n in heartbeats
          && out[n] == HeartbeatReport(UrlOf(clusters, n), heartbeats[n].status, heartbeats[n].freeMb, heartbeats[n].lastSeen)
          && out[n].url.Some?
      {
        var name := order[i];
        var info := heartbeats[name];
        UrlOfFirstMatch(clusters, name);
        out := out[name := HeartbeatReport(UrlOf(clusters, name), info.status, info.freeMb, info.lastSeen)];
        assert order[..i + 1] == order[..i] + [name];
      }
      assert order[..|order|] == order;
      assert Elements(order) == heartbeats.Keys;
    }
  }
}
