# Distributed Search Engine Simulation: the storage and placement core in Dafny

This project models the decision-making core of a simulated distributed file
store with a search engine on top:

- **Cluster Manager** (`ClusterManager`): one per cluster. It keeps a
  heartbeat cache of its storage nodes and scores each node as free space
  minus 50 MB per stored chunk. It chooses an alive node of best score,
  breaking ties at random. It validates and routes chunk uploads and reports
  aggregate status.
- **Global Balancer** (`GlobalBalancer`): keeps a heartbeat cache of the
  cluster managers. It picks the alive cluster with the most free space,
  the first one in cache order on a tie, and exposes its cache with each
  cluster's URL.
- **Delete coordinator** (`DeleteCoordinator`): deletes a file's chunks from
  their nodes. If any remote delete fails it aborts. Otherwise it removes
  the metadata, the cached chunks and the reconstructed download, then drops
  the file from the search index. The index holds a docs list and a BM25
  corpus kept parallel to it.
- **Character-level match** (`CharacterMatch`): scores a document 1.0 if it
  contains the lower-cased query, 0.5 if it contains only the first three
  characters, and 0 otherwise.
- **Launcher layout** (`ClusterLauncher`, with `Decimal` for `str()` of
  integers): which ports and names the start-up script gives to cluster
  managers, storage nodes and the cluster map.

The heartbeat caches are Python dicts updated in place. Each is modelled as
a `map` plus the `seq` of its keys in insertion order (`ViewCache`). One pass
of a heartbeat loop is `ViewCache.Refresh`. Each probe result is an input,
aligned with the configured list, and so are the clock (`now`) and the
random pick (`choice`). The processes that own the caches are classes
(`Manager`, `Balancer`, `Disk`). Their methods update those fields and are
proved against the pure functions that specify them. The functions'
properties are proved as lemmas.

## Model

| member | source | states |
|---|---|---|
| ViewCache.Refresh | backend/dfs/load_balancers/cluster_manager.py:42-61 | one heartbeat pass as a fold over the probed keys; its properties are RefreshKeys, RefreshUntouched and RefreshOnce |
| ViewCache.RefreshKeys | backend/dfs/load_balancers/cluster_manager.py:42-61 | after a heartbeat pass the cache holds exactly the old keys plus every probed key |
| ViewCache.RefreshUntouched | backend/dfs/load_balancers/cluster_manager.py:42-61 | a pass leaves the entry of any key it did not probe exactly as it was |
| ViewCache.RefreshOnce | backend/dfs/load_balancers/cluster_manager.py:42-61 | a key probed once ends with the observation of its probe against its previous entry |
| ViewCache.Enlist | backend/dfs/load_balancers/cluster_manager.py:47-56 | the dict's key order after assigning keys in turn; its properties are EnlistMembers and EnlistKeepsOrder |
| ViewCache.EnlistMembers | backend/dfs/load_balancers/cluster_manager.py:47-56 | the dict's key order after the pass holds the old keys and the assigned ones, nothing else |
| ViewCache.EnlistKeepsOrder | backend/dfs/load_balancers/cluster_manager.py:47-56 | re-assigning a key keeps its place, new keys go to the end, and no key repeats |
| ClusterManager.Score | backend/dfs/load_balancers/cluster_manager.py:90-94 | `free_mb − 50·chunk_count`; its order properties are ScoreOrder |
| ClusterManager.ScoreOrder | backend/dfs/load_balancers/cluster_manager.py:90-94 | the score rises strictly with free space and falls strictly with chunk count, and is monotone in both together |
| ClusterManager.Observe | backend/dfs/load_balancers/cluster_manager.py:47-61 | the entry one probe writes; stated per node by PassEntry |
| ClusterManager.Pass | backend/dfs/load_balancers/cluster_manager.py:42-62 | one heartbeat pass over the configured nodes; stated by PassCoversNodes, PassEntry and FailedPassAllDown |
| ClusterManager.PassCoversNodes | backend/dfs/load_balancers/cluster_manager.py:42-61 | after a pass every configured node has an entry, no other key appears, and unconfigured entries are unchanged |
| ClusterManager.PassEntry | backend/dfs/load_balancers/cluster_manager.py:47-61 | a reply gives alive, `last_seen = now` and the reported figures (0 if missing); a failure gives down, free 0, and the previous chunk count and last-seen (0 if no entry) |
| ClusterManager.FailedPassAllDown | backend/dfs/load_balancers/cluster_manager.py:54-61 | a pass where every probe fails leaves every configured node down with no free space |
| ClusterManager.NodeStatus | backend/dfs/load_balancers/cluster_manager.py:67-88 | a cached entry is used whenever one exists; only without one is the on-demand probe used, which gives an alive view or nothing |
| ClusterManager.CandidatesUpTo | backend/dfs/load_balancers/cluster_manager.py:100-108 | the statuses collected from the first n configured nodes; the loop invariant of Manager.SelectBestNode |
| ClusterManager.Candidates | backend/dfs/load_balancers/cluster_manager.py:100-108 | the `statuses` list; stated by CandidatesSound and CandidatesComplete |
| ClusterManager.CandidatesSound | backend/dfs/load_balancers/cluster_manager.py:100-106 | every collected status is an alive configured node with its score |
| ClusterManager.CandidatesComplete | backend/dfs/load_balancers/cluster_manager.py:100-106 | every alive configured node is collected with its score |
| ClusterManager.MaxScore | backend/dfs/load_balancers/cluster_manager.py:114 | the maximum is one of the scores and no score exceeds it |
| ClusterManager.InTieBand | backend/dfs/load_balancers/cluster_manager.py:115 | `abs(score − max) < 1e-3`; TieBandIsEquality proves it is equality on integer scores |
| ClusterManager.TieBandIsEquality | backend/dfs/load_balancers/cluster_manager.py:115 | with integer scores, lying within 1e-3 of the maximum means equalling it |
| ClusterManager.TopBand | backend/dfs/load_balancers/cluster_manager.py:115 | the tie set holds exactly the candidates within the band of the maximum |
| ClusterManager.TopBandNonEmpty | backend/dfs/load_balancers/cluster_manager.py:114-116 | with any candidate, the tie set is non-empty, so the random pick is defined |
| ClusterManager.Select | backend/dfs/load_balancers/cluster_manager.py:110-118 | no node exactly when there is no candidate; otherwise a candidate whose score no candidate exceeds |
| ClusterManager.EveryTopCandidateCanBeChosen | backend/dfs/load_balancers/cluster_manager.py:115-116 | every candidate of maximal score is chosen by some random pick |
| ClusterManager.SelectionChoosesBestAlive | backend/dfs/load_balancers/cluster_manager.py:96-118 | selection gives nothing iff no configured node is alive, else an alive configured node of maximal score among alive nodes |
| ClusterManager.OnlyAliveNodeIsChosen | backend/dfs/load_balancers/cluster_manager.py:110-118 | when exactly one node is alive, it is chosen whatever the pick |
| ClusterManager.CachedDownNeverChosen | backend/dfs/load_balancers/cluster_manager.py:72-74 | a node whose cached entry is down is never chosen, even if it would answer an on-demand probe |
| ClusterManager.SumFree | backend/dfs/load_balancers/cluster_manager.py:157-158 | total free space over the entries, down ones included; stated by AllDownStatus and Manager.Status |
| ClusterManager.SumChunks | backend/dfs/load_balancers/cluster_manager.py:157-159 | total chunk count over the entries, down ones included; stated by Manager.Status |
| ClusterManager.CountAlive | backend/dfs/load_balancers/cluster_manager.py:155-161 | the active-node count is at most the number of entries counted |
| ClusterManager.AllDownStatus | backend/dfs/load_balancers/cluster_manager.py:153-161 | when every entry is down with no free space, total free space and active nodes are 0 |
| ClusterManager.UnreachableClusterReportsNothing | backend/dfs/load_balancers/cluster_manager.py:153-161 | after a pass in which no node answers: status reports 0 free and 0 active, and no upload finds a node whatever the on-demand probes say |
| ClusterManager.Manager.constructor | backend/dfs/load_balancers/cluster_manager.py:34 | the cache starts empty |
| ClusterManager.Manager.HeartbeatPass | backend/dfs/load_balancers/cluster_manager.py:37-63 | the loop leaves the cache equal to one pass and the key order to the dict's insertion order, keeping the cache invariant |
| ClusterManager.Manager.SelectBestNode | backend/dfs/load_balancers/cluster_manager.py:96-118 | the loop collects the candidates; the result is None iff no node is alive, else an alive configured node of maximal score |
| ClusterManager.MissingInput | backend/dfs/load_balancers/cluster_manager.py:126 | `not chunk or not chunk_id`; Manager.UploadChunk answers 400 exactly when it holds |
| ClusterManager.Manager.UploadChunk | backend/dfs/load_balancers/cluster_manager.py:122-146 | 400 iff the chunk or id is missing (checked before selection), 503 iff no node is alive, 500 iff the store fails, 200 with the selected node and the id |
| ClusterManager.Manager.Status | backend/dfs/load_balancers/cluster_manager.py:148-168 | totals of free space and chunks over all entries (down included), the alive count (at most the entry count), and the cache itself |
| GlobalBalancer.NameForUrl | backend/dfs/load_balancers/global_balancer.py:44 | the name of the first configured cluster with this URL, or the URL itself when none has it |
| GlobalBalancer.UrlOf | backend/dfs/load_balancers/global_balancer.py:126 | `CLUSTERS.get(name)`; its properties are UrlOfFirstMatch |
| GlobalBalancer.UrlOfFirstMatch | backend/dfs/load_balancers/global_balancer.py:95 | a name has a URL exactly when it is configured, and then it is the URL of its first configuration entry |
| GlobalBalancer.GetClusterStatus | backend/dfs/load_balancers/global_balancer.py:36-52 | a status exactly when the probe answers, carrying the URL, its looked-up name and the reported `cluster_free_mb` (0 when missing) |
| GlobalBalancer.Observe | backend/dfs/load_balancers/global_balancer.py:61-74 | the entry one probe writes; stated per cluster by PassEntry |
| GlobalBalancer.Pass | backend/dfs/load_balancers/global_balancer.py:58-76 | one heartbeat pass over the configured clusters; stated by PassEntry |
| GlobalBalancer.PassEntry | backend/dfs/load_balancers/global_balancer.py:58-76 | a reply gives alive, `last_seen = now` and the reported free space (0 if missing); a failure gives down, free 0 and the previous last-seen (0 if none); other entries are kept |
| GlobalBalancer.AliveNames | backend/dfs/load_balancers/global_balancer.py:90 | the alive list holds cached names only; exactly which ones is AliveNamesExact |
| GlobalBalancer.AliveNamesExact | backend/dfs/load_balancers/global_balancer.py:90 | a name is in the alive list exactly when it is cached and its entry is alive |
| GlobalBalancer.Best | backend/dfs/load_balancers/global_balancer.py:94 | the `max` with a key returns one of the names it scans; BestIsMaximal and BestIsFirst say which |
| GlobalBalancer.BestIsMaximal | backend/dfs/load_balancers/global_balancer.py:94 | no scanned name has more free space than the one returned |
| GlobalBalancer.BestIsFirst | backend/dfs/load_balancers/global_balancer.py:94 | ties go to the first: every name scanned before the one returned has strictly less free space |
| GlobalBalancer.Select | backend/dfs/load_balancers/global_balancer.py:90-94 | the cluster an upload goes to; stated by SelectedClusterIsFirstMaximal |
| GlobalBalancer.ExtendKeepsFirstMaximal | backend/dfs/load_balancers/global_balancer.py:94 | scanning an entry that is not alive, or not strictly larger, keeps the current first maximum |
| GlobalBalancer.ExtendWithNewMaximal | backend/dfs/load_balancers/global_balancer.py:94 | scanning an alive entry strictly larger than all before it makes it the first maximum |
| GlobalBalancer.SelectStepAlive | backend/dfs/load_balancers/global_balancer.py:90-94 | scanning an alive cluster after a prefix whose selection is known yields a cluster, and it is the first maximal one of the longer order |
| GlobalBalancer.SelectStepDown | backend/dfs/load_balancers/global_balancer.py:90-94 | scanning a cluster that is not alive keeps both halves of the selection property: nothing iff none is alive, else the first maximal one |
| GlobalBalancer.SelectedClusterIsFirstMaximal | backend/dfs/load_balancers/global_balancer.py:90-94 | no cluster iff no cached cluster is alive; otherwise an alive cluster of maximal free space, ahead in cache order of every other such cluster |
| GlobalBalancer.Balancer.constructor | backend/dfs/load_balancers/global_balancer.py:21-33 | the cache starts empty over a configuration with distinct names |
| GlobalBalancer.Balancer.HeartbeatPass | backend/dfs/load_balancers/global_balancer.py:54-76 | the loop leaves the cache equal to one pass and the key order to the dict's insertion order, keeping the cache invariant |
| GlobalBalancer.MissingInput | backend/dfs/load_balancers/global_balancer.py:87 | `not chunk or not chunk_id`; Balancer.UploadChunk answers 400 exactly when it holds |
| GlobalBalancer.Balancer.UploadChunk | backend/dfs/load_balancers/global_balancer.py:80-115 | 400 iff the chunk or id is missing; 503 iff no cached cluster is alive, so always before the first heartbeat; 500 iff forwarding fails; 200 with the first maximal cluster, a configured name, and the node the manager reported or "unknown" |
| GlobalBalancer.Balancer.Heartbeats | backend/dfs/load_balancers/global_balancer.py:117-131 | exactly the cache's keys, each with its status, free space and last-seen, plus its configured URL, which always exists |
| DeleteCoordinator.FailedChunks | backend/dfs/client/delete.py:36-43 | the ids whose remote delete failed, in metadata order; stated by FailedChunksExact |
| DeleteCoordinator.FailedChunksExact | backend/dfs/client/delete.py:36-45 | the failure list holds exactly the ids whose delete failed, and is empty iff every delete succeeded |
| DeleteCoordinator.FindDoc | backend/dfs/client/delete.py:65 | the first doc named `filename`; no match iff every doc has a different name; a doc without `file_name` before any match is the failure that `d["file_name"]` raises |
| DeleteCoordinator.RemoveAt | backend/dfs/client/delete.py:67-68 | `pop(i)` removes exactly position i, keeping every other element in order |
| DeleteCoordinator.CleanIndex | backend/dfs/client/delete.py:60-73 | the index cleanup; stated by IndexStaysParallel, MatchRemovesDoc and NoMatchKeepsIndex, and its failure paths by CleanupFailureWarns, ReadFailureWarns, ShortCorpusWarns and MissingKeyWarns |
| DeleteCoordinator.DeleteEffect | backend/dfs/client/delete.py:28-75 | the whole delete; stated by the lemmas below (the warning path by CleanupFailureWarns) and by Disk.DeleteFile |
| DeleteCoordinator.MissingMetadataIsNotFound | backend/dfs/client/delete.py:29-31 | an unknown file is not found, and nothing changes |
| DeleteCoordinator.AnyFailureAborts | backend/dfs/client/delete.py:44-45 | any failed remote delete gives an error listing that chunk, and the local store is unchanged |
| DeleteCoordinator.FullSuccessRemovesFile | backend/dfs/client/delete.py:47-55 | when every remote delete succeeds, the metadata, every cached chunk and the download are gone, and other files' metadata, other cached chunks and other downloads are kept; a cleanup warning leaves the index lists unchanged |
| DeleteCoordinator.IndexStaysParallel | backend/dfs/client/delete.py:60-71 | docs and corpus stay the same length; when they change, exactly the first doc named `filename` and the corpus entry at its position are removed |
| DeleteCoordinator.MatchRemovesDoc | backend/dfs/client/delete.py:65-71 | when every remote delete succeeds and the index reads, the first doc named `filename` and the corpus entry at its position are removed, the TF-IDF cache is dropped and the result is a success |
| DeleteCoordinator.NoMatchKeepsIndex | backend/dfs/client/delete.py:65-66 | with no doc named `filename`, docs, corpus and the TF-IDF cache are all unchanged; with every doc named, every remote delete succeeding and the index read, the result is a success |
| DeleteCoordinator.CleanupFailureWarns | backend/dfs/client/delete.py:61-73 | when every remote delete succeeds but the index cleanup fails, the result is a warning, the metadata is removed, and docs, corpus and the TF-IDF cache are unchanged |
| DeleteCoordinator.ReadFailureWarns | backend/dfs/client/delete.py:61-63 | index files that cannot be read give a warning after a successful chunk delete |
| DeleteCoordinator.ShortCorpusWarns | backend/dfs/client/delete.py:65-68 | a corpus too short for the first match's position gives a warning, with docs and corpus unchanged |
| DeleteCoordinator.MissingKeyWarns | backend/dfs/client/delete.py:65 | a doc without `file_name` before any match gives a warning, with docs and corpus unchanged |
| DeleteCoordinator.DeleteIsIdempotent | backend/dfs/client/delete.py:28-75 | deleting again after a completed delete is not found and changes nothing |
| DeleteCoordinator.RetryAfterRecoveryDeletes | backend/dfs/client/delete.py:28-55 | a delete aborted by a failing node keeps the metadata, so a retry after recovery removes it |
| DeleteCoordinator.Disk.DeleteChunksRemotely | backend/dfs/client/delete.py:36-43 | the loop attempts every chunk in metadata order and returns exactly the failure list of the delete function |
| DeleteCoordinator.Disk.RemoveChunkCopies | backend/dfs/client/delete.py:51-52 | the loop removes exactly the file's chunk ids from the chunk cache and changes nothing else |
| DeleteCoordinator.Disk.CleanSearchIndex | backend/dfs/client/delete.py:60-73 | reports failure exactly when the cleanup fails; a rewrite stores the new docs and corpus and drops the TF-IDF cache; otherwise nothing changes |
| DeleteCoordinator.Disk.DeleteFile | backend/dfs/client/delete.py:28-75 | the new disk state and result are those of the delete function, and a remote delete is attempted for every chunk, in metadata order, with no early exit |
| CharacterMatch.LowerChar | backend/search_engine/search.py:95-96 | ASCII capitals map to their lower-case letters, every other character is unchanged, and the result is never a capital |
| CharacterMatch.Lower | backend/search_engine/search.py:95-96 | lower-casing is character by character and keeps the length |
| CharacterMatch.LowerIdempotent | backend/search_engine/search.py:95-96 | lower-casing twice is lower-casing once |
| CharacterMatch.Occurs | backend/search_engine/search.py:100 | `p in s` as a scan; equal to the slice definition by OccursIsSubstring |
| CharacterMatch.OccursAtShift | backend/search_engine/search.py:100 | dropping the first character of s shifts every occurrence one place left |
| CharacterMatch.OccursIsSubstring | backend/search_engine/search.py:100 | the scan answers `p in s`: p is a slice of s |
| CharacterMatch.PrefixOccurs | backend/search_engine/search.py:104 | a prefix of a contained string is contained |
| CharacterMatch.Take3 | backend/search_engine/search.py:104 | `q[:3]` is the whole query when it has at most 3 characters, else its first 3 |
| CharacterMatch.CharacterLevelMatch | backend/search_engine/search.py:99-107 | the score is always 0, 0.5 or 1.0 |
| CharacterMatch.ExactMatch | backend/search_engine/search.py:95-101 | the score is 1.0 iff the lower-cased query occurs in the lower-cased document |
| CharacterMatch.PartialMatch | backend/search_engine/search.py:104-105 | the score is 0.5 iff the query does not occur but its first three characters do |
| CharacterMatch.NoMatch | backend/search_engine/search.py:99-107 | the score is 0 iff not even the first three characters occur |
| CharacterMatch.ShortQueryNeverPartial | backend/search_engine/search.py:100-105 | a query of at most three characters never scores 0.5 |
| CharacterMatch.EmptyQueryMatches | backend/search_engine/search.py:100-101 | the empty query scores 1.0 against every document |
| CharacterMatch.CaseInsensitive | backend/search_engine/search.py:95-96 | lower-casing either input first does not change the score |
| Decimal.DigitChar | backend/start_clusters.py:107 | a digit below 10 prints as a character from '0' to '9' |
| Decimal.DigitValue | backend/start_clusters.py:107 | the value read from a character is a digit, and it prints back as that character |
| Decimal.NatToString | backend/start_clusters.py:107 | `str(n)` is a non-empty string of digits without leading zero |
| Decimal.IntToString | backend/start_clusters.py:107 | `str(i)` is non-empty and starts with a minus sign exactly for negative numbers |
| Decimal.ParseNatToString | backend/start_clusters.py:107 | reading back the digits of n gives n |
| Decimal.NatToStringInjective | backend/start_clusters.py:107 | distinct natural numbers print differently |
| Decimal.IntToStringInjective | backend/start_clusters.py:107 | distinct integers print differently |
| ClusterLauncher.FreePorts | backend/start_clusters.py:21-22 | exactly `count` ports, none when count is not positive, the i-th being `start + i` |
| ClusterLauncher.LocalUrl | backend/start_clusters.py:34 | `http://localhost:{p}`; stated element-wise by LocalUrls |
| ClusterLauncher.LocalUrls | backend/start_clusters.py:34 | the NODES list is `http://localhost:{p}` for each port, in order |
| ClusterLauncher.ClusterName | backend/start_clusters.py:107 | the key `cluster_{c+1}`; ClusterNamesDistinct proves distinct clusters get distinct keys |
| ClusterLauncher.ClusterNamesDistinct | backend/start_clusters.py:107 | distinct clusters get distinct `cluster_{c+1}` keys |
| ClusterLauncher.NodePortsOf | backend/start_clusters.py:98 | cluster c's node ports; stated by NodePortsRange, NodePortRangesDisjoint, NodePortsBelowServicePorts and NodePortsStep |
| ClusterLauncher.NodePortsRange | backend/start_clusters.py:98 | cluster c's node ports lie in [5001 + c·n, 5001 + (c+1)·n) |
| ClusterLauncher.NodePortRangesDisjoint | backend/start_clusters.py:97-98 | two different clusters never share a node port |
| ClusterLauncher.NodePortsBelowServicePorts | backend/start_clusters.py:50-99 | with at most 999 nodes in total, every node port lies below the balancer's port and every manager port |
| ClusterLauncher.NodePortsStep | backend/start_clusters.py:97-105 | the node ports of clusters 0..c-1 followed by cluster c's are the first (c+1)·n ports from 5001 |
| ClusterLauncher.Layout | backend/start_clusters.py:94-107 | what the launch loop has set up after clusters 0..c-1; kept by LayoutStep and ensured by StartClustersAndNodes |
| ClusterLauncher.ManagersStep | backend/start_clusters.py:97-102 | launching manager c on port 7001+c with its node URLs extends the managers of clusters 0..c-1 to those of 0..c |
| ClusterLauncher.OrderStep | backend/start_clusters.py:107 | recording `cluster_{c+1}` after clusters 0..c-1 keeps the key order correct and free of repeats, and adds exactly that key |
| ClusterLauncher.MapStep | backend/start_clusters.py:107 | mapping `cluster_{c+1}` to its manager URL keeps every earlier cluster's entry |
| ClusterLauncher.LayoutStep | backend/start_clusters.py:97-107 | setting up cluster c extends the layout of clusters 0..c-1 to the layout of 0..c |
| ClusterLauncher.LayoutMapSize | backend/start_clusters.py:94-107 | a complete layout's cluster map has exactly one entry per cluster |
| ClusterLauncher.StartClustersAndNodes | backend/start_clusters.py:80-108 | nothing when either count is not an integer; else, for max(clusters, 0) clusters: manager c on port 7001+c with its node URLs in order, a map from `cluster_{c+1}` to that manager's URL with distinct keys in insertion order and exactly one entry per cluster, and node ports `FreePorts(5001, clusters·n)` in launch order |

## Left out

- Networking: HTTP routing, `requests` calls and JSON encoding are left out. Every probe, forward and remote delete becomes an input that either succeeded, with its data, or failed.
- Background threads, `time.sleep` and concurrent access to the heartbeat caches are left out; one heartbeat pass is modelled. `random.choice` is the `choice` index into the tie set.
- The clock: the source calls `time.time()` once per answering node or cluster (backend/dfs/load_balancers/cluster_manager.py:48, backend/dfs/load_balancers/global_balancer.py:63). The model reads it once per pass, as the `now` parameter. So all entries written alive in one pass share one `last_seen`, where the source gives them slightly increasing times.
- Capacities are integers. A float `free_mb` arriving in JSON is not modelled, so the 1e-3 tie band holds exactly the equal scores.
- `not chunk` is a boolean for the uploaded file's presence. The file's contents and their transfer are not modelled.
- ClusterManager.PassEntry: stated only for a node URL configured once. A URL listed twice is probed twice; `Refresh` models this, but the lemma does not describe the result.
- ClusterManager.Manager.UploadChunk: a selected node whose URL is the empty string counts as no node in the source (`if not node`), giving 503. The model forwards to it.
- The `/node_heartbeats` endpoint returns the cache unchanged. It appears only as the `nodeHeartbeats` field of the status report.
- The cluster configuration is a JSON object, so its names are distinct. `Balancer.constructor` requires this rather than modelling duplicate-key parsing.
- Delete: the file's metadata is a dict from chunk id to node URL, modelled as a sequence of records in dict order. Failure to read or parse the metadata is not modelled. Neither are failed writes of the index files or a failed removal of the cached TF-IDF matrix; removals use `missing_ok`, so they cannot fail for a missing file.
- The index cleanup's `bm25.pop` past the end of a shorter corpus is modelled as a cleanup failure with nothing written, which is what happens: both lists are popped in memory before either file is written.
- CharacterMatch.LowerChar / CharacterMatch.Lower: `str.lower()` is modelled on ASCII letters only. Unicode case mapping, including mappings that change a string's length, is not.
- Launcher: parsing the two counts with `int(input().strip())` is an `Option<int>` input. Starting processes, launch failures (a manager that fails to start is not recorded), `monitor_heartbeats` and shutdown are left out. The balancer's port is modelled only as the constant 6001 it is started on (backend/start_clusters.py:50), which the node ports stay below; the launcher's message and its monitor name port 6000 instead, and neither is modelled.
- The TF-IDF, BM25 and sentence-embedding ranking, the fuzzy matcher, the indexer, the middleware, the front end and setup are floating-point or library code and are not part of this model.
