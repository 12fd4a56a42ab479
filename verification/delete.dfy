/** The delete coordinator: given a file name, delete every chunk the file's
    metadata names from the node holding it; abort, keeping everything, if any
    delete failed; otherwise remove the metadata, the local chunk copies and
    the reconstructed download, then drop the file from the search index
    (docs list and BM25 corpus, kept parallel), where a failure is only a
    warning. */
module DeleteCoordinator {
  import opened Common

  type FileName = string
  type ChunkId = string
  type Url = string

  /** A tokenised document of the BM25 corpus. */
  type CorpusEntry = seq<string>

  /** One item of a file's metadata: a chunk id and the node holding it. */
  datatype ChunkRecord = ChunkRecord(chunkId: ChunkId, node: Url)

  /** An entry of the docs list; only its `file_name`, which may be absent,
      matters to deletion. */
  datatype Doc = Doc(fileName: Option<FileName>)

  /** Everything the delete reads or writes on the local disk. */
  datatype Store = Store(
    metadata: map<FileName, seq<ChunkRecord>>,  // one metadata document per stored file
    chunkCache: set<ChunkId>,                   // locally cached chunk copies
    downloads: set<FileName>,                   // reconstructed downloads
    docs: seq<Doc>,                             // the index's docs list
    corpus: seq<CorpusEntry>,                   // the BM25 corpus, parallel to docs
    tfidfCached: bool)                          // the cached TF-IDF matrix exists

  datatype DeleteResult =
    | NotFound                          // no metadata: `delete_file` raises FileNotFoundError
    | ChunksFailed(failed: seq<ChunkId>)
    | CleanupWarning                    // deleted, but the index cleanup failed
    | Deleted

  /** The ids, in metadata order, of the chunks whose remote delete did not
      succeed; `ok[i]` is whether deleting `records[i]` returned status 200. */
  function FailedChunks(records: seq<ChunkRecord>, ok: seq<bool>): seq<ChunkId>
    requires |ok| == |records|
  {
    if records == [] then []
    else
      var k := |records| - 1;
      FailedChunks(records[..k], ok[..k]) + (if ok[k] then [] else [records[k].chunkId])
  }

  /** `failed` holds exactly the ids of the chunks whose delete failed, and is
      empty exactly when every delete succeeded. */
  lemma {:induction false} FailedChunksExact(records: seq<ChunkRecord>, ok: seq<bool>)
    requires |ok| == |records|
    ensures FailedChunks(records, ok) == [] <==> forall i :: 0 <= i < |ok| ==> ok[i]
    ensures forall i :: 0 <= i < |records| && !ok[i] ==> records[i].chunkId in FailedChunks(records, ok)
    ensures forall c :: c in FailedChunks(records, ok) ==>
      exists i :: 0 <= i < |records| && !ok[i] && records[i].chunkId == c
    ensures |FailedChunks(records, ok)| <= |records|
  {
    if records != [] {
      var k := |records| - 1;
      var front, okFront := records[..k], ok[..k];
      var pre := FailedChunks(front, okFront);
      var last := if ok[k] then [] else [records[k].chunkId];
      FailedChunksExact(front, okFront);
      assert FailedChunks(records, ok) == pre + last;
      assert forall i :: 0 <= i < k ==> front[i] == records[i] && okFront[i] == ok[i];
      forall i | 0 <= i < |records| && !ok[i]
        ensures records[i].chunkId in pre + last
      {
        if i < k {
          assert front[i].chunkId in pre;
        }
      }
      forall c | c in pre + last
        ensures exists i :: 0 <= i < |records| && !ok[i] && records[i].chunkId == c
      {
        if c in pre {
          var i :| 0 <= i < |front| && !okFront[i] && front[i].chunkId == c;
          assert records[i] == front[i];
        } else {
          assert !ok[k] && records[k].chunkId == c;
        }
      }
    }
  }

  function ChunkIds(records: seq<ChunkRecord>): set<ChunkId>
  {
    set r | r in records :: r.chunkId
  }

  /** Where the first doc named `filename` is, scanning from `from`; the scan
      fails at a doc without a `file_name` met before any match. */
  datatype DocMatch = At(idx: nat) | NoMatch | MissingKey

  function FindDoc(docs: seq<Doc>, filename: FileName, from: nat): (m: DocMatch)
    requires from <= |docs|
    decreases |docs| - from
    ensures m.At? ==>
      from <= m.idx < |docs| && docs[m.idx].fileName == Some(filename) &&
      forall j :: from <= j < m.idx ==> docs[j].fileName.Some? && docs[j].fileName != Some(filename)
    ensures m.NoMatch? <==>
      forall j :: from <= j < |docs| ==> docs[j].fileName.Some? && docs[j].fileName != Some(filename)
    ensures m.MissingKey? ==>
      exists j :: from <= j < |docs| && docs[j].fileName.None? &&
        forall i :: from <= i < j ==> docs[i].fileName != Some(filename)
  {
    if from == |docs| then NoMatch
    else if docs[from].fileName.None? then MissingKey
    else if docs[from].fileName == Some(filename) then At(from)
    else FindDoc(docs, filename, from + 1)
  }

  /** `s.pop(i)`: every other element keeps its order. */
  function RemoveAt<T>(s: seq<T>, i: nat): (r: seq<T>)
    requires i < |s|
    ensures |r| == |s| - 1
    ensures forall k :: 0 <= k < i ==> r[k] == s[k]
    ensures forall k :: i <= k < |r| ==> r[k] == s[k + 1]
  {
    s[..i] + s[i + 1..]
  }

  /** What the index cleanup does to the docs list and the corpus. */
  datatype Cleanup = Rewritten(docs: seq<Doc>, corpus: seq<CorpusEntry>) | Unchanged | CleanupFailed

  /** Index cleanup: when the index files read, remove the first doc named
      `filename` and the corpus entry at the same position; with no such doc
      nothing is rewritten; a read failure, a doc without `file_name` before
      the match, or a corpus too short for the position is a failure, and
      then nothing is written. */
  function CleanIndex(docs: seq<Doc>, corpus: seq<CorpusEntry>, filename: FileName, readOk: bool): Cleanup
  {
    if !readOk then CleanupFailed
    else
      match FindDoc(docs, filename, 0)
      case MissingKey => CleanupFailed
      case NoMatch => Unchanged
      case At(i) => if i < |corpus| then Rewritten(RemoveAt(docs, i), RemoveAt(corpus, i)) else CleanupFailed
  }

  datatype Outcome = Outcome(store: Store, result: DeleteResult)

  /** The whole delete, as a function of the store before it. */
  function DeleteEffect(s: Store, filename: FileName, remoteOk: seq<bool>, readOk: bool): Outcome
    requires filename in s.metadata ==> |remoteOk| == |s.metadata[filename]|
  {
    if filename !in s.metadata then Outcome(s, NotFound)
    else
      var records := s.metadata[filename];
      var failed := FailedChunks(records, remoteOk);
      if failed != [] then Outcome(s, ChunksFailed(failed))
      else
        var cleaned := s.(metadata := s.metadata - {filename},
                          chunkCache := s.chunkCache - ChunkIds(records),
                          downloads := s.downloads - {filename});
        match CleanIndex(s.docs, s.corpus, filename, readOk)
        case CleanupFailed => Outcome(cleaned, CleanupWarning)
        case Unchanged => Outcome(cleaned, Deleted)
        case Rewritten(d, c) => Outcome(cleaned.(docs := d, corpus := c, tfidfCached := false), Deleted)
  }

  /** An unknown file name is not found and nothing changes. */
  lemma MissingMetadataIsNotFound(s: Store, filename: FileName, remoteOk: seq<bool>, readOk: bool)
    requires filename !in s.metadata
    ensures DeleteEffect(s, filename, remoteOk, readOk) == Outcome(s, NotFound)
  {
  }

  /** If any remote delete failed, the result lists the failed chunk ids and
      nothing local changes: metadata, chunk copies, download and index stay. */
  lemma AnyFailureAborts(s: Store, filename: FileName, remoteOk: seq<bool>, readOk: bool, i: nat)
    requires filename in s.metadata && |remoteOk| == |s.metadata[filename]|
    requires i < |remoteOk| && !remoteOk[i]
    ensures DeleteEffect(s, filename, remoteOk, readOk).store == s
    ensures DeleteEffect(s, filename, remoteOk, readOk).result.ChunksFailed?
    ensures s.metadata[filename][i].chunkId in DeleteEffect(s, filename, remoteOk, readOk).result.failed
  {
    FailedChunksExact(s.metadata[filename], remoteOk);
  }

  /** When every remote delete succeeded the file is gone: its metadata, every
      local chunk copy and its download are removed, other files' metadata,
      other cached chunks and other downloads are kept, and the result is a
      success or a cleanup warning. */
  lemma FullSuccessRemovesFile(s: Store, filename: FileName, remoteOk: seq<bool>, readOk: bool)
    requires filename in s.metadata && |remoteOk| == |s.metadata[filename]|
    requires forall i :: 0 <= i < |remoteOk| ==> remoteOk[i]
    ensures var o := DeleteEffect(s, filename, remoteOk, readOk);
      && (o.result == Deleted || o.result == CleanupWarning)
      && filename !in o.store.metadata
      && (forall f :: f in s.metadata && f != filename ==> f in o.store.metadata && o.store.metadata[f] == s.metadata[f])
      && (forall r :: r in s.metadata[filename] ==> r.chunkId !in o.store.chunkCache)
      && filename !in o.store.downloads
      && (forall c :: c in s.chunkCache && (forall r :: r in s.metadata[filename] ==> r.chunkId != c) ==>
            c in o.store.chunkCache)
      && (forall f :: f in s.downloads && f != filename ==> f in o.store.downloads)
    ensures DeleteEffect(s, filename, remoteOk, readOk).result == CleanupWarning ==>
      DeleteEffect(s, filename, remoteOk, readOk).store.docs == s.docs &&
      DeleteEffect(s, filename, remoteOk, readOk).store.corpus == s.corpus
  {
    FailedChunksExact(s.metadata[filename], remoteOk);
  }

  /** The index lists stay parallel; when rewritten, exactly the first doc
      named `filename` and the corpus entry at its position are gone. */
  lemma IndexStaysParallel(s: Store, filename: FileName, remoteOk: seq<bool>, readOk: bool)
    requires filename in s.metadata ==> |remoteOk| == |s.metadata[filename]|
    requires |s.docs| == |s.corpus|
    ensures |DeleteEffect(s, filename, remoteOk, readOk).store.docs|
         == |DeleteEffect(s, filename, remoteOk, readOk).store.corpus|
    ensures var after := DeleteEffect(s, filename, remoteOk, readOk).store;
      after.docs != s.docs ==>
        exists i :: 0 <= i < |s.docs| && s.docs[i].fileName == Some(filename) &&
          (forall j :: 0 <= j < i ==> s.docs[j].fileName != Some(filename)) &&
          after.docs == RemoveAt(s.docs, i) && after.corpus == RemoveAt(s.corpus, i)
  {
    if filename in s.metadata && FailedChunks(s.metadata[filename], remoteOk) == [] && readOk {
      var m := FindDoc(s.docs, filename, 0);
      if m.At? {
        assert DeleteEffect(s, filename, remoteOk, readOk).store.docs == RemoveAt(s.docs, m.idx);
      }
    }
  }

  /** The converse: when every remote delete succeeds and the index reads, the
      first doc named `filename`, at i, is dropped with the corpus entry at i,
      the TF-IDF cache is dropped, and the delete succeeds. */
  lemma MatchRemovesDoc(s: Store, filename: FileName, remoteOk: seq<bool>, readOk: bool, i: nat)
    requires filename in s.metadata && |remoteOk| == |s.metadata[filename]|
    requires forall k :: 0 <= k < |remoteOk| ==> remoteOk[k]
    requires readOk && i < |s.docs| && i < |s.corpus|
    requires s.docs[i].fileName == Some(filename)
    requires forall j :: 0 <= j < i ==> s.docs[j].fileName.Some? && s.docs[j].fileName != Some(filename)
    ensures var o := DeleteEffect(s, filename, remoteOk, readOk);
      && o.result == Deleted
      && o.store.docs == RemoveAt(s.docs, i)
      && o.store.corpus == RemoveAt(s.corpus, i)
      && !o.store.tfidfCached
  {
    FailedChunksExact(s.metadata[filename], remoteOk);
    assert FindDoc(s.docs, filename, 0) == At(i);
  }

  /** With no doc named `filename` the index is left alone: docs, corpus and
      the TF-IDF cache are unchanged whatever else happens; and when every doc
      has a `file_name`, every remote delete succeeds and the index reads, the
      delete succeeds. */
  lemma NoMatchKeepsIndex(s: Store, filename: FileName, remoteOk: seq<bool>, readOk: bool)
    requires filename in s.metadata ==> |remoteOk| == |s.metadata[filename]|
    requires forall j :: 0 <= j < |s.docs| ==> s.docs[j].fileName != Some(filename)
    ensures var o := DeleteEffect(s, filename, remoteOk, readOk);
      o.store.docs == s.docs && o.store.corpus == s.corpus && o.store.tfidfCached == s.tfidfCached
    ensures (&& filename in s.metadata
             && (forall k :: 0 <= k < |remoteOk| ==> remoteOk[k])
             && readOk
             && (forall j :: 0 <= j < |s.docs| ==> s.docs[j].fileName.Some?)) ==>
      DeleteEffect(s, filename, remoteOk, readOk).result == Deleted
  {
    if filename in s.metadata {
      FailedChunksExact(s.metadata[filename], remoteOk);
    }
  }

  /** A failed index cleanup is reported, never a silent success: the file's
      metadata is still removed, the result is a warning, and docs, corpus
      and the TF-IDF cache are left as they were. */
  lemma CleanupFailureWarns(s: Store, filename: FileName, remoteOk: seq<bool>, readOk: bool)
    requires filename in s.metadata && |remoteOk| == |s.metadata[filename]|
    requires forall k :: 0 <= k < |remoteOk| ==> remoteOk[k]
    requires CleanIndex(s.docs, s.corpus, filename, readOk).CleanupFailed?
    ensures var o := DeleteEffect(s, filename, remoteOk, readOk);
      && o.result == CleanupWarning
      && filename !in o.store.metadata
      && o.store.docs == s.docs && o.store.corpus == s.corpus && o.store.tfidfCached == s.tfidfCached
  {
    FailedChunksExact(s.metadata[filename], remoteOk);
  }

  /** Index files that cannot be read give a warning after the chunks are gone. */
  lemma ReadFailureWarns(s: Store, filename: FileName, remoteOk: seq<bool>)
    requires filename in s.metadata && |remoteOk| == |s.metadata[filename]|
    requires forall k :: 0 <= k < |remoteOk| ==> remoteOk[k]
    ensures DeleteEffect(s, filename, remoteOk, false).result == CleanupWarning
  {
    CleanupFailureWarns(s, filename, remoteOk, false);
  }

  /** A corpus too short for the position of the first matching doc makes
      `bm25.pop` fail: a warning, with nothing written to the index. */
  lemma ShortCorpusWarns(s: Store, filename: FileName, remoteOk: seq<bool>, i: nat)
    requires filename in s.metadata && |remoteOk| == |s.metadata[filename]|
    requires forall k :: 0 <= k < |remoteOk| ==> remoteOk[k]
    requires i < |s.docs| && |s.corpus| <= i
    requires s.docs[i].fileName == Some(filename)
    requires forall j :: 0 <= j < i ==> s.docs[j].fileName.Some? && s.docs[j].fileName != Some(filename)
    ensures var o := DeleteEffect(s, filename, remoteOk, true);
      o.result == CleanupWarning && o.store.docs == s.docs && o.store.corpus == s.corpus
  {
    assert FindDoc(s.docs, filename, 0) == At(i);
    CleanupFailureWarns(s, filename, remoteOk, true);
  }

  /** A doc without `file_name` before any doc named `filename` makes the
      scan raise: a warning, with nothing written to the index. */
  lemma MissingKeyWarns(s: Store, filename: FileName, remoteOk: seq<bool>, i: nat)
    requires filename in s.metadata && |remoteOk| == |s.metadata[filename]|
    requires forall k :: 0 <= k < |remoteOk| ==> remoteOk[k]
    requires i < |s.docs| && s.docs[i].fileName.None?
    requires forall j :: 0 <= j < i ==> s.docs[j].fileName != Some(filename)
    ensures var o := DeleteEffect(s, filename, remoteOk, true);
      o.result == CleanupWarning && o.store.docs == s.docs && o.store.corpus == s.corpus
  {
    assert !FindDoc(s.docs, filename, 0).At? && !FindDoc(s.docs, filename, 0).NoMatch?;
    CleanupFailureWarns(s, filename, remoteOk, true);
  }

  /** Deleting again after a completed delete is not found and changes nothing. */
  lemma DeleteIsIdempotent(s: Store, filename: FileName, remoteOk: seq<bool>, readOk: bool,
                           again: seq<bool>, readAgain: bool)
    requires filename in s.metadata ==> |remoteOk| == |s.metadata[filename]|
    requires DeleteEffect(s, filename, remoteOk, readOk).result in {Deleted, CleanupWarning}
    ensures var after := DeleteEffect(s, filename, remoteOk, readOk).store;
      DeleteEffect(after, filename, again, readAgain) == Outcome(after, NotFound)
  {
  }

  /** A failed delete is retryable: once every node answers, the retry removes
      the metadata. */
  lemma RetryAfterRecoveryDeletes(s: Store, filename: FileName, first: seq<bool>, retry: seq<bool>, readOk: bool)
    requires filename in s.metadata && |first| == |s.metadata[filename]| && |retry| == |first|
    requires exists i :: 0 <= i < |first| && !first[i]
    requires forall i :: 0 <= i < |retry| ==> retry[i]
    ensures var afterFirst := DeleteEffect(s, filename, first, readOk).store;
      filename in afterFirst.metadata &&
      filename !in DeleteEffect(afterFirst, filename, retry, readOk).store.metadata
  {
    var i :| 0 <= i < |first| && !first[i];
    AnyFailureAborts(s, filename, first, readOk, i);
    FullSuccessRemovesFile(s, filename, retry, readOk);
  }

  /** The local disk the coordinator works on. */
  class Disk {
    var metadata: map<FileName, seq<ChunkRecord>>
    var chunkCache: set<ChunkId>
    var downloads: set<FileName>
    var docs: seq<Doc>
    var corpus: seq<CorpusEntry>
    var tfidfCached: bool

    function State(): Store
      reads this
    {
      Store(metadata, chunkCache, downloads, docs, corpus, tfidfCached)
    }

    /** Step 1: issue the remote delete of every chunk, in metadata order,
        without stopping at a failure, and collect the ids that failed. */
    static method DeleteChunksRemotely(records: seq<ChunkRecord>, remoteOk: seq<bool>)
      returns (failed: seq<ChunkId>, attempted: seq<ChunkRecord>)
      requires |remoteOk| == |records|
      ensures failed == FailedChunks(records, remoteOk)
      ensures attempted == records
    {
      failed, attempted := [], [];
      for i := 0 to |records|
        invariant failed == FailedChunks(records[..i], remoteOk[..i])
        invariant attempted == records[..i]
      {
        assert records[..i + 1][..i] == records[..i] && remoteOk[..i + 1][..i] == remoteOk[..i];
        attempted := attempted + [records[i]];
        if !remoteOk[i] {
          failed := failed + [records[i].chunkId];
        }
      }
      assert records[..|records|] == records && remoteOk[..|remoteOk|] == remoteOk;
    }

    /** Step 3: remove the local copy of every chunk of the file. */
    method RemoveChunkCopies(records: seq<ChunkRecord>)
      modifies this
      ensures State() == old(State()).(chunkCache := old(chunkCache) - ChunkIds(records))
    {
      for i := 0 to |records|
        invariant State() == old(State()).(chunkCache := old(chunkCache) - ChunkIds(records[..i]))
      {
        assert ChunkIds(records[..i + 1]) == ChunkIds(records[..i]) + {records[i].chunkId} by {
          assert records[..i + 1] == records[..i] + [records[i]];
        }
        chunkCache := chunkCache - {records[i].chunkId};
      }
      assert records[..|records|] == records;
    }

    /** Step 6: drop the file from the search index; false when the cleanup
        failed, in which case nothing was written. */
    method CleanSearchIndex(filename: FileName, readOk: bool) returns (ok: bool)
      modifies this
      ensures var c := CleanIndex(old(docs), old(corpus), filename, readOk);
        && ok == !c.CleanupFailed?
        && (c.Rewritten? ==> State() == old(State()).(docs := c.docs, corpus := c.corpus, tfidfCached := false))
        && (!c.Rewritten? ==> State() == old(State()))
    {
      if !readOk {
        return false;
      }
      var m := FindDoc(docs, filename, 0);
      match m
      case MissingKey =>
        ok := false;
      case NoMatch =>
        ok := true;
      case At(idx) =>
        if idx < |corpus| {
          docs := RemoveAt(docs, idx);
          corpus := RemoveAt(corpus, idx);
          tfidfCached := false;
          ok := true;
        } else {
          ok := false;
        }
    }

    /** Delete `filename`; `remoteOk[i]` is whether the node holding the i-th
        chunk of its metadata answered the delete with status 200, `readOk`
        whether the index files could be read.  `attempted` lists the remote
        deletes issued, in order. */
    method DeleteFile(filename: FileName, remoteOk: seq<bool>, readOk: bool)
      returns (result: DeleteResult, attempted: seq<ChunkRecord>)
      requires filename in metadata ==> |remoteOk| == |metadata[filename]|
      modifies this
      ensures Outcome(State(), result) == DeleteEffect(old(State()), filename, remoteOk, readOk)
      ensures attempted == if filename in old(metadata) then old(metadata[filename]) else []
    {
      if filename !in metadata {
        return NotFound, [];
      }
      var records := metadata[filename];
      var failed;
      failed, attempted := DeleteChunksRemotely(records, remoteOk);
      if failed != [] {
        return ChunksFailed(failed), attempted;
      }
      metadata := metadata - {filename};
      RemoveChunkCopies(records);
      downloads := downloads - {filename};
      var ok := CleanSearchIndex(filename, readOk);
      result := if ok then Deleted else CleanupWarning;
    }
  }
}
