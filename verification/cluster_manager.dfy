/** The Cluster Manager of one storage cluster: a heartbeat cache of its
    storage nodes, the placement score, node selection, the validation and
    routing of a chunk upload, and the aggregate status report. */
module ClusterManager {
  import opened Common
  import opened ViewCache

  type Url = string

  /** What a probe of a node's `/status` yields: the node's reply, either of
      whose fields may be missing, or a failure (timeout, refused connection,
      error status). */
  datatype Probe = Answered(freeMb: Option<int>, chunkCount: Option<int>) | Unreachable

  /** One entry of the node heartbeat cache. */
  datatype NodeView = NodeView(lastSeen: int, status: Health, freeMb: int, chunkCount: int)

  /** Megabytes of free space that one stored chunk costs in the score. */
  const ChunkPenalty: int := 50

  /** Width of the band around the maximum score within which nodes tie. */
  const Epsilon: real := 0.001

  /** The placement score: free space less a penalty per stored chunk. */
  function Score(v: NodeView): int
  {
    v.freeMb - v.chunkCount * ChunkPenalty
  }

  /** More free space scores higher, more stored chunks score lower. */
  lemma ScoreOrder(a: NodeView, b: NodeView)
    ensures a.chunkCount == b.chunkCount ==> (a.freeMb < b.freeMb <==> Score(a) < Score(b))
    ensures a.freeMb == b.freeMb ==> (a.chunkCount < b.chunkCount <==> Score(b) < Score(a))
    ensures a.freeMb <= b.freeMb && b.chunkCount <= a.chunkCount ==> Score(a) <= Score(b)
  {
  }

  // ---------------------------------------------------------------- heartbeat

  /** The entry a heartbeat writes for a node, given the node's previous entry:
      a reply makes it alive with the reported figures (0 where missing);
      a failure makes it down with no free space, keeping the previous chunk
      count and last-seen time (0 when there was no entry). */
  function Observe(prev: Option<NodeView>, probe: Probe, now: int): NodeView
  {
    match probe
    case Answered(free, chunks) => NodeView(now, Alive, GetOr(free, 0), GetOr(chunks, 0))
    case Unreachable =>
      NodeView(if prev.Some? then prev.value.lastSeen else 0, Down, 0,
               if prev.Some? then prev.value.chunkCount else 0)
  }

  /** The cache after one heartbeat pass over the configured nodes. */
  function Pass(hb: map<Url, NodeView>, nodes: seq<Url>, probes: seq<Probe>, now: int): map<Url, NodeView>
    requires |probes| == |nodes|
  {
    Refresh(hb, nodes, probes, Observe, now)
  }

  /** After a pass every configured node has an entry; an entry for any other
      key is unchanged, and no other key appears. */
  lemma PassCoversNodes(hb: map<Url, NodeView>, nodes: seq<Url>, probes: seq<Probe>, now: int)
    requires |probes| == |nodes|
    ensures forall n :: n in nodes ==> n in Pass(hb, nodes, probes, now)
    ensures forall n :: n in Pass(hb, nodes, probes, now) ==> n in hb || n in nodes
    ensures forall n :: n in hb && n !in nodes ==> n in Pass(hb, nodes, probes, now) && Pass(hb, nodes, probes, now)[n] == hb[n]
  {
    RefreshKeys(hb, nodes, probes, Observe, now);
    forall n | n in hb && n !in nodes
      ensures n in Pass(hb, nodes, probes, now) && Pass(hb, nodes, probes, now)[n] == hb[n]
    {
      RefreshUntouched(hb, nodes, probes, Observe, now, n);
    }
  }

  /** The entry of a node configured once, after a pass: alive with the reply's
      figures (defaulting to 0) and `last_seen = now` when the probe answered;
      down with `free_mb = 0` and the previous chunk count and last-seen time
      (defaulting to 0) when it failed. */
  lemma PassEntry(hb: map<Url, NodeView>, nodes: seq<Url>, probes: seq<Probe>, now: int, i: nat)
    requires |probes| == |nodes| && i < |nodes|
    requires forall j :: 0 <= j < |nodes| && j != i ==> nodes[j] != nodes[i]
    ensures nodes[i] in Pass(hb, nodes, probes, now)
    ensures probes[i].Answered? ==>
      Pass(hb, nodes, probes, now)[nodes[i]]
        == NodeView(now, Alive, GetOr(probes[i].freeMb, 0), GetOr(probes[i].chunkCount, 0))
    ensures probes[i].Unreachable? ==>
      Pass(hb, nodes, probes, now)[nodes[i]]
        == NodeView(if nodes[i] in hb then hb[nodes[i]].lastSeen else 0, Down, 0,
                    if nodes[i] in hb then hb[nodes[i]].chunkCount else 0)
  {
    RefreshOnce(hb, nodes, probes, Observe, now, i);
  }

  /** A pass in which every probe failed leaves every configured node down
      with no free space. */
  lemma {:induction false} FailedPassAllDown(hb: map<Url, NodeView>, nodes: seq<Url>, probes: seq<Probe>, now: int)
    requires |probes| == |nodes|
    requires forall i :: 0 <= i < |probes| ==> probes[i].Unreachable?
    ensures forall n :: n in nodes ==>
      n in Pass(hb, nodes, probes, now) &&
      Pass(hb, nodes, probes, now)[n].status == Down && Pass(hb, nodes, probes, now)[n].freeMb == 0
  {
    if nodes != [] {
      var k := |nodes| - 1;
      FailedPassAllDown(hb, nodes[..k], probes[..k], now);
      assert nodes == nodes[..k] + [nodes[k]];
    }
  }

  // ---------------------------------------------------------------- selection

  /** The view selection uses for a node: its cache entry if it has one,
      otherwise the result of an on-demand probe (None if that fails). */
  function NodeStatus(hb: map<Url, NodeView>, node: Url, probe: Probe, now: int): (r: Option<NodeView>)
    ensures node in hb ==> r == Some(hb[node])
    ensures node !in hb ==> (r.Some? <==> probe.Answered?)
    ensures node !in hb && r.Some? ==> r.value == Observe(None, probe, now) && r.value.status == Alive
  {
    if node in hb then Some(hb[node])
    else if probe.Answered? then Some(Observe(None, probe, now))
    else None
  }

  /** Node `i` of the configuration has an alive view. */
  predicate AliveAt(hb: map<Url, NodeView>, nodes: seq<Url>, probes: seq<Probe>, now: int, i: int)
    requires |probes| == |nodes| && 0 <= i < |nodes|
  {
    var v := NodeStatus(hb, nodes[i], probes[i], now);
    v.Some? && v.value.status == Alive
  }

  function ScoreAt(hb: map<Url, NodeView>, nodes: seq<Url>, probes: seq<Probe>, now: int, i: int): int
    requires |probes| == |nodes| && 0 <= i < |nodes|
    requires AliveAt(hb, nodes, probes, now, i)
  {
    Score(NodeStatus(hb, nodes[i], probes[i], now).value)
  }

  /** An alive node with its score, as collected for selection. */
  datatype Candidate = Candidate(url: Url, score: int)

  /** The alive nodes among the first `n` configured ones, in order, scored. */
  function CandidatesUpTo(hb: map<Url, NodeView>, nodes: seq<Url>, probes: seq<Probe>, now: int, n: nat): seq<Candidate>
    requires |probes| == |nodes| && n <= |nodes|
  {
    if n == 0 then []
    else
      CandidatesUpTo(hb, nodes, probes, now, n - 1) +
      (if AliveAt(hb, nodes, probes, now, n - 1)
       then [Candidate(nodes[n - 1], ScoreAt(hb, nodes, probes, now, n - 1))] else [])
  }

  function Candidates(hb: map<Url, NodeView>, nodes: seq<Url>, probes: seq<Probe>, now: int): seq<Candidate>
    requires |probes| == |nodes|
  {
    CandidatesUpTo(hb, nodes, probes, now, |nodes|)
  }

  /** Every collected candidate is an alive configured node with its score. */
  lemma {:induction false} CandidatesSound(hb: map<Url, NodeView>, nodes: seq<Url>, probes: seq<Probe>, now: int, n: nat)
    requires |probes| == |nodes| && n <= |nodes|
    ensures forall c :: c in CandidatesUpTo(hb, nodes, probes, now, n) ==>
      exists i :: 0 <= i < n && AliveAt(hb, nodes, probes, now, i) &&
                  c == Candidate(nodes[i], ScoreAt(hb, nodes, probes, now, i))
  {
    if n > 0 {
      CandidatesSound(hb, nodes, probes, now, n - 1);
    }
  }

  /** Every alive configured node is collected. */
  lemma {:induction false} CandidatesComplete(hb: map<Url, NodeView>, nodes: seq<Url>, probes: seq<Probe>, now: int, n: nat)
    requires |probes| == |nodes| && n <= |nodes|
    ensures forall i :: 0 <= i < n && AliveAt(hb, nodes, probes, now, i) ==>
      Candidate(nodes[i], ScoreAt(hb, nodes, probes, now, i)) in CandidatesUpTo(hb, nodes, probes, now, n)
  {
    if n > 0 {
      CandidatesComplete(hb, nodes, probes, now, n - 1);
    }
  }

  /** The highest score among the candidates. */
  function MaxScore(cands: seq<Candidate>): (m: int)
    requires cands != []
    ensures exists k :: 0 <= k < |cands| && cands[k].score == m
    ensures forall k :: 0 <= k < |cands| ==> cands[k].score <= m
  {
    if |cands| == 1 then cands[0].score
    else
      var rest := MaxScore(cands[1..]);
      if cands[0].score >= rest then cands[0].score else rest
  }

  /** `abs(score - maxScore) < 1e-3`. */
  predicate InTieBand(score: int, maxScore: int)
  {
    var d := (score - maxScore) as real;
    (if d < 0.0 then -d else d) < Epsilon
  }

  /** With integer capacities the tie band holds exactly the equal scores. */
  lemma TieBandIsEquality(a: int, b: int)
    ensures InTieBand(a, b) <==> a == b
  {
  }

  /** The candidates within the tie band of `maxScore`, in collection order. */
  function TopBand(cands: seq<Candidate>, maxScore: int): (top: seq<Candidate>)
    ensures forall c :: c in top ==> c in cands && InTieBand(c.score, maxScore)
    ensures forall c :: c in cands && InTieBand(c.score, maxScore) ==> c in top
  {
    if cands == [] then []
    else (if InTieBand(cands[0].score, maxScore) then [cands[0]] else []) + TopBand(cands[1..], maxScore)
  }

  lemma TopBandNonEmpty(cands: seq<Candidate>)
    requires cands != []
    ensures TopBand(cands, MaxScore(cands)) != []
  {
    var k :| 0 <= k < |cands| && cands[k].score == MaxScore(cands);
    TieBandIsEquality(cands[k].score, MaxScore(cands));
    assert cands[k] in TopBand(cands, MaxScore(cands));
  }

  /** Selection among the collected candidates: none when there are none,
      otherwise the tie-band member that the random pick `choice` designates. */
  function Select(cands: seq<Candidate>, choice: nat): (r: Option<Url>)
    ensures r.None? <==> cands == []
    ensures r.Some? ==> exists c :: c in cands && c.url == r.value &&
                                    forall d :: d in cands ==> d.score <= c.score
  {
    if cands == [] then None
    else
      var m := MaxScore(cands);
      TopBandNonEmpty(cands);
      var top := TopBand(cands, m);
      var chosen := top[choice % |top|];
      TieBandIsEquality(chosen.score, m);
      Some(chosen.url)
  }

  lemma ModOfSmall(i: nat, n: nat)
    requires i < n
    ensures i % n == i
  {
  }

  /** The pick lands on position `choice % |top|` of the tie set. */
  lemma SelectPicks(cands: seq<Candidate>, choice: nat)
    requires cands != []
    ensures var top := TopBand(cands, MaxScore(cands));
      top != [] && Select(cands, choice) == Some(top[choice % |top|].url)
  {
    TopBandNonEmpty(cands);
  }

  /** Whichever tie-band member the random pick lands on, it is chosen for some
      pick: every node of maximal score can receive the chunk. */
  lemma EveryTopCandidateCanBeChosen(cands: seq<Candidate>, c: Candidate)
    requires c in cands
    requires forall d :: d in cands ==> d.score <= c.score
    ensures exists choice: nat :: Select(cands, choice) == Some(c.url)
  {
    var m := MaxScore(cands);
    var k :| 0 <= k < |cands| && cands[k].score == m;
    assert c.score == m;
    TieBandIsEquality(c.score, m);
    var top := TopBand(cands, m);
    assert c in top;
    var i :| 0 <= i < |top| && top[i] == c;
    SelectPicks(cands, i);
    ModOfSmall(i, |top|);
  }

  /** Node selection over the configuration: nothing exactly when no node is
      alive, otherwise an alive configured node whose score no alive node
      exceeds. */
  lemma SelectionChoosesBestAlive(hb: map<Url, NodeView>, nodes: seq<Url>, probes: seq<Probe>, now: int, choice: nat)
    requires |probes| == |nodes|
    ensures Select(Candidates(hb, nodes, probes, now), choice).None? <==>
      forall i :: 0 <= i < |nodes| ==> !AliveAt(hb, nodes, probes, now, i)
    ensures Select(Candidates(hb, nodes, probes, now), choice).Some? ==>
      exists i :: 0 <= i < |nodes| && AliveAt(hb, nodes, probes, now, i) &&
        nodes[i] == Select(Candidates(hb, nodes, probes, now), choice).value &&
        forall j :: 0 <= j < |nodes| && AliveAt(hb, nodes, probes, now, j) ==>
          ScoreAt(hb, nodes, probes, now, j) <= ScoreAt(hb, nodes, probes, now, i)
  {
    var cands := Candidates(hb, nodes, probes, now);
    CandidatesSound(hb, nodes, probes, now, |nodes|);
    CandidatesComplete(hb, nodes, probes, now, |nodes|);
    if cands != [] {
      var r := Select(cands, choice);
      var c :| c in cands && c.url == r.value && forall d :: d in cands ==> d.score <= c.score;
      var i :| 0 <= i < |nodes| && AliveAt(hb, nodes, probes, now, i) &&
               c == Candidate(nodes[i], ScoreAt(hb, nodes, probes, now, i));
      forall j | 0 <= j < |nodes| && AliveAt(hb, nodes, probes, now, j)
        ensures ScoreAt(hb, nodes, probes, now, j) <= ScoreAt(hb, nodes, probes, now, i)
      {
        assert Candidate(nodes[j], ScoreAt(hb, nodes, probes, now, j)) in cands;
      }
    }
  }

  /** When every alive view belongs to one node, that node is chosen whatever
      the random pick. */
  lemma OnlyAliveNodeIsChosen(hb: map<Url, NodeView>, nodes: seq<Url>, probes: seq<Probe>, now: int,
                              choice: nat, u: Url)
    requires |probes| == |nodes|
    requires exists i :: 0 <= i < |nodes| && AliveAt(hb, nodes, probes, now, i)
    requires forall i :: 0 <= i < |nodes| && AliveAt(hb, nodes, probes, now, i) ==> nodes[i] == u
    ensures Select(Candidates(hb, nodes, probes, now), choice) == Some(u)
  {
    SelectionChoosesBestAlive(hb, nodes, probes, now, choice);
  }

  /** A node whose cache entry is down is never chosen, even if it would
      answer an on-demand probe now: the cache is preferred. */
  lemma CachedDownNeverChosen(hb: map<Url, NodeView>, nodes: seq<Url>, probes: seq<Probe>, now: int,
                              choice: nat, n: Url)
    requires |probes| == |nodes|
    requires n in hb && hb[n].status == Down
    ensures Select(Candidates(hb, nodes, probes, now), choice) != Some(n)
  {
    SelectionChoosesBestAlive(hb, nodes, probes, now, choice);
  }

  // ---------------------------------------------------------------- status

  /** Total free space over the entries at `keys`, down entries included. */
  function SumFree(hb: map<Url, NodeView>, keys: seq<Url>): int
    requires forall k :: k in keys ==> k in hb
  {
    if keys == [] then 0
    else SumFree(hb, keys[..|keys| - 1]) + hb[keys[|keys| - 1]].freeMb
  }

  /** Total chunk count over the entries at `keys`, down entries included. */
  function SumChunks(hb: map<Url, NodeView>, keys: seq<Url>): int
    requires forall k :: k in keys ==> k in hb
  {
    if keys == [] then 0
    else SumChunks(hb, keys[..|keys| - 1]) + hb[keys[|keys| - 1]].chunkCount
  }

  /** Number of alive entries at `keys`. */
  function CountAlive(hb: map<Url, NodeView>, keys: seq<Url>): (n: nat)
    requires forall k :: k in keys ==> k in hb
    ensures n <= |keys|
  {
    if keys == [] then 0
    else CountAlive(hb, keys[..|keys| - 1]) + (if hb[keys[|keys| - 1]].status == Alive then 1 else 0)
  }

  /** With every entry down, nothing is free and no node is active. */
  lemma {:induction false} AllDownStatus(hb: map<Url, NodeView>, keys: seq<Url>)
    requires forall k :: k in keys ==> k in hb && hb[k].status == Down && hb[k].freeMb == 0
    ensures SumFree(hb, keys) == 0 && CountAlive(hb, keys) == 0
  {
    if keys != [] {
      AllDownStatus(hb, keys[..|keys| - 1]);
    }
  }

  /** A heartbeat pass in which no configured node answered, over a cache that
      holds only configured nodes: the status reports no free space and no
      active node, and every upload finds no node, whatever the on-demand
      probes would say. */
  lemma UnreachableClusterReportsNothing(hb: map<Url, NodeView>, nodes: seq<Url>, probes: seq<Probe>, now: int,
                                         keys: seq<Url>, later: seq<Probe>, laterNow: int, choice: nat)
    requires |probes| == |nodes| && |later| == |nodes|
    requires forall n :: n in hb ==> n in nodes
    requires forall i :: 0 <= i < |probes| ==> probes[i].Unreachable?
    requires forall k :: k in keys ==> k in Pass(hb, nodes, probes, now)
    ensures SumFree(Pass(hb, nodes, probes, now), keys) == 0
    ensures CountAlive(Pass(hb, nodes, probes, now), keys) == 0
    ensures Select(Candidates(Pass(hb, nodes, probes, now), nodes, later, laterNow), choice) == None
  {
    var after := Pass(hb, nodes, probes, now);
    PassCoversNodes(hb, nodes, probes, now);
    FailedPassAllDown(hb, nodes, probes, now);
    AllDownStatus(after, keys);
    SelectionChoosesBestAlive(after, nodes, later, laterNow, choice);
  }

  // ---------------------------------------------------------------- endpoints

  /** Reply of `/upload_chunk`. */
  datatype UploadReply = Stored(node: Url, chunkId: string) | MissingChunk | NoAvailableNodes | ForwardFailed

  function HttpStatus(r: UploadReply): int
  {
    match r
    case Stored(_, _) => 200
    case MissingChunk => 400
    case NoAvailableNodes => 503
    case ForwardFailed => 500
  }

  /** The request lacks the chunk file or a non-empty `chunk_id`. */
  predicate MissingInput(chunkPresent: bool, chunkId: Option<string>)
  {
    !chunkPresent || chunkId.None? || chunkId.value == ""
  }

  /** The aggregate reply of `/status`. */
  datatype StatusReport = StatusReport(clusterFreeMb: int, clusterChunkCount: int, activeNodes: nat,
                                       nodeHeartbeats: map<Url, NodeView>)

  /** A Cluster Manager process: its configured nodes and heartbeat cache. */
  class Manager {
    const nodes: seq<Url>
    var heartbeats: map<Url, NodeView>
    /** Insertion order of the cache's keys. */
    var order: seq<Url>

    ghost predicate Valid()
      reads this
    {
      && Distinct(order)
      && (forall n :: n in order <==> n in heartbeats)
      && (forall n :: n in heartbeats ==> n in nodes)
    }

    constructor (nodes: seq<Url>)
      ensures Valid()
      ensures this.nodes == nodes && heartbeats == map[] && order == []
    {
      this.nodes := nodes;
      heartbeats := map[];
      order := [];
    }

    /** One pass of the heartbeat monitor; `probes[i]` is what probing
        `nodes[i]` returned and `now` the clock during the pass. */
    method HeartbeatPass(probes: seq<Probe>, now: int)
      requires Valid() && |probes| == |nodes|
      modifies this
      ensures Valid()
      ensures heartbeats == Pass(old(heartbeats), nodes, probes, now)
      ensures order == Enlist(old(order), nodes)
    {
      assert heartbeats.Keys == Elements(order);
      for i := 0 to |nodes|
        invariant heartbeats == Refresh(old(heartbeats), nodes[..i], probes[..i], Observe, now)
        invariant order == Enlist(old(order), nodes[..i])
        invariant heartbeats.Keys == Elements(order)
      {
        var node := nodes[i];
        assert nodes[..i + 1][..i] == nodes[..i] && probes[..i + 1][..i] == probes[..i];
        heartbeats := heartbeats[node := Observe(Lookup(heartbeats, node), probes[i], now)];
        if node !in order {
          order := order + [node];
        }
      }
      assert nodes[..|nodes|] == nodes && probes[..|probes|] == probes;
      EnlistKeepsOrder(old(order), nodes);
      RefreshKeys(old(heartbeats), nodes, probes, Observe, now);
    }

    /** Choose the node for one chunk; `probes[i]` is what an on-demand probe
        of `nodes[i]` would return (consulted only without a cache entry),
        `choice` the random pick among tied nodes. */
    method SelectBestNode(probes: seq<Probe>, now: int, choice: nat) returns (r: Option<Url>)
      requires |probes| == |nodes|
      ensures r == Select(Candidates(heartbeats, nodes, probes, now), choice)
      ensures r.None? <==> forall i :: 0 <= i < |nodes| ==> !AliveAt(heartbeats, nodes, probes, now, i)
      ensures r.Some? ==>
        exists i :: 0 <= i < |nodes| && AliveAt(heartbeats, nodes, probes, now, i) && nodes[i] == r.value &&
          forall j :: 0 <= j < |nodes| && AliveAt(heartbeats, nodes, probes, now, j) ==>
            ScoreAt(heartbeats, nodes, probes, now, j) <= ScoreAt(heartbeats, nodes, probes, now, i)
    {
      var statuses: seq<Candidate> := [];
      for i := 0 to |nodes|
        invariant statuses == CandidatesUpTo(heartbeats, nodes, probes, now, i)
      {
        var info := NodeStatus(heartbeats, nodes[i], probes[i], now);
        if info.Some? && info.value.status == Alive {
          statuses := statuses + [Candidate(nodes[i], Score(info.value))];
        }
      }
      SelectionChoosesBestAlive(heartbeats, nodes, probes, now, choice);
      if statuses == [] {
        return None;
      }
      var maxScore := MaxScore(statuses);
      var top := TopBand(statuses, maxScore);
      TopBandNonEmpty(statuses);
      r := Some(top[choice % |top|].url);
    }

    /** `/upload_chunk`: reject a request without chunk or id, select a node,
        forward; `storeOk` is whether the chosen node stored the chunk. */
    method UploadChunk(chunkPresent: bool, chunkId: Option<string>, probes: seq<Probe>, now: int,
                       choice: nat, storeOk: bool) returns (reply: UploadReply)
      requires |probes| == |nodes|
      ensures HttpStatus(reply) == 400 <==> MissingInput(chunkPresent, chunkId)
      ensures HttpStatus(reply) == 503 <==>
        !MissingInput(chunkPresent, chunkId) && forall i :: 0 <= i < |nodes| ==> !AliveAt(heartbeats, nodes, probes, now, i)
      ensures HttpStatus(reply) == 500 <==>
        !MissingInput(chunkPresent, chunkId) && !storeOk &&
        exists i :: 0 <= i < |nodes| && AliveAt(heartbeats, nodes, probes, now, i)
      ensures reply.Stored? ==>
        storeOk && chunkId == Some(reply.chunkId) &&
        Select(Candidates(heartbeats, nodes, probes, now), choice) == Some(reply.node)
    {
      if MissingInput(chunkPresent, chunkId) {
        return MissingChunk;
      }
      var node := SelectBestNode(probes, now, choice);
      if node.None? {
        return NoAvailableNodes;
      }
      if storeOk {
        reply := Stored(node.value, chunkId.value);
      } else {
        reply := ForwardFailed;
      }
    }

    /** `/status`: totals over every cache entry and the number alive. */
    method Status() returns (s: StatusReport)
      requires Valid()
      ensures s.clusterFreeMb == SumFree(heartbeats, order)
      ensures s.clusterChunkCount == SumChunks(heartbeats, order)
      ensures s.activeNodes == CountAlive(heartbeats, order)
      ensures s.activeNodes <= |heartbeats|
      ensures s.nodeHeartbeats == heartbeats
    {
      var totalFree, totalChunks, activeNodes := 0, 0, 0;
      for i := 0 to |order|
        invariant totalFree == SumFree(heartbeats, order[..i])
        invariant totalChunks == SumChunks(heartbeats, order[..i])
        invariant activeNodes == CountAlive(heartbeats, order[..i])
      {
        assert order[..i + 1][..i] == order[..i];
        var hb := heartbeats[order[i]];
        totalFree := totalFree + hb.freeMb;
        totalChunks := totalChunks + hb.chunkCount;
        if hb.status == Alive {
          activeNodes := activeNodes + 1;
        }
      }
      assert order[..|order|] == order;
      DistinctCard(order);
      assert Elements(order) == heartbeats.Keys;
      s := StatusReport(totalFree, totalChunks, activeNodes, heartbeats);
    }
  }
}
