/** Deterministic chunk identifiers `<filename>:<page>:<index>` (`calculate_chunk_ids`). */
module Identifiers {
  import opened Wrappers
  import opened Text
  import opened Paths
  import opened Chunks

  const UnknownSource := "unknown_source"
  const DefaultPage := 0

  /** The `<filename>:<page>` identifier of a chunk's page, with the defaults for missing
      metadata and the source reduced to its final path component. */
  function PageId(source: Option<string>, page: Option<int>): string {
    FileName(source.GetOr(UnknownSource)) + ":" + IntToDecimal(page.GetOr(DefaultPage))
  }

  /** The page id of every chunk, in list order. */
  function PageIds(chunks: seq<Chunk>): (pids: seq<string>)
    ensures |pids| == |chunks|
  {
    if chunks == [] then []
    else PageIds(chunks[..|chunks| - 1]) + [PageId(chunks[|chunks| - 1].source, chunks[|chunks| - 1].page)]
  }

  lemma {:induction false} PageIdsAt(chunks: seq<Chunk>, i: nat)
    requires i < |chunks|
    ensures PageIds(chunks)[i] == PageId(chunks[i].source, chunks[i].page)
  {
    if i < |chunks| - 1 {
      PageIdsAt(chunks[..|chunks| - 1], i);
    }
  }

  /** The counter of chunk `i`: 0 when its page id differs from the previous chunk's (or it
      is the first chunk), the previous counter plus one when it is the same. */
  function RunIndex(pids: seq<string>, i: nat): nat
    requires i < |pids|
  {
    if i == 0 || pids[i - 1] != pids[i] then 0 else RunIndex(pids, i - 1) + 1
  }

  /** `<page id>:<counter>`. */
  function ChunkId(pageId: string, index: nat): string {
    pageId + ":" + NatToDecimal(index)
  }

  function IdAt(pids: seq<string>, i: nat): string
    requires i < |pids|
  {
    ChunkId(pids[i], RunIndex(pids, i))
  }

  /** The identifiers of a whole chunk list, from its page ids alone. */
  function IdsFor(pids: seq<string>): (ids: seq<string>)
    ensures |ids| == |pids|
  {
    seq(|pids|, i requires 0 <= i < |pids| => IdAt(pids, i))
  }

  function ChunkIds(chunks: seq<Chunk>): (ids: seq<string>)
    ensures |ids| == |chunks|
  {
    IdsFor(PageIds(chunks))
  }

  /** Every chunk of one page sits in one unbroken stretch of the list. */
  predicate Contiguous(pids: seq<string>) {
    forall i, j, k :: 0 <= i < j < k < |pids| && pids[i] == pids[k] ==> pids[j] == pids[i]
  }

  predicate Distinct(ids: seq<string>) {
    forall i, j :: 0 <= i < j < |ids| ==> ids[i] != ids[j]
  }

  /** `calculate_chunk_ids`: stamps every chunk with its identifier, in place, and returns
      the same list. Nothing but `id` changes. */
  method CalculateChunkIds(chunks: seq<Chunk>) returns (withIds: seq<Chunk>)
    requires DistinctObjects(chunks)
    modifies chunks`id
    ensures withIds == chunks
    ensures forall i :: 0 <= i < |chunks| ==> chunks[i].id == Some(ChunkIds(chunks)[i])
    ensures forall i :: 0 <= i < |chunks| ==> chunks[i].category == old(chunks[i].category)
  {
    var lastPageId: Option<string> := None;
    var currentChunkIndex: nat := 0;
    var n := 0;
    while n < |chunks|
      invariant 0 <= n <= |chunks|
      invariant CounterState(PageIds(chunks), n, lastPageId, currentChunkIndex)
      invariant forall i :: 0 <= i < n ==> chunks[i].id == Some(ChunkIds(chunks)[i])
    {
      var currentPageId;
      currentPageId, currentChunkIndex := StampChunk(chunks, n, lastPageId, currentChunkIndex);
      lastPageId := Some(currentPageId);
      n := n + 1;
    }
    withIds := chunks;
  }

  /** The body of the loop for chunk `n`: its page id, the counter (reset on a new page,
      incremented on the same page) and the identifier written into the chunk. */
  method StampChunk(chunks: seq<Chunk>, n: nat, lastPageId: Option<string>, currentChunkIndex: nat)
    returns (currentPageId: string, nextIndex: nat)
    requires n < |chunks| && CounterState(PageIds(chunks), n, lastPageId, currentChunkIndex)
    modifies {chunks[n]}`id
    ensures currentPageId == PageIds(chunks)[n] && nextIndex == RunIndex(PageIds(chunks), n)
    ensures CounterState(PageIds(chunks), n + 1, Some(currentPageId), nextIndex)
    ensures chunks[n].id == Some(ChunkIds(chunks)[n])
  {
    var chunk := chunks[n];
    var source := chunk.source.GetOr(UnknownSource);
    source := FileName(source);
    var page := chunk.page.GetOr(DefaultPage);
    currentPageId := source + ":" + IntToDecimal(page);
    PageIdsAt(chunks, n);
    CounterStep(PageIds(chunks), n, lastPageId, currentChunkIndex);
    if Some(currentPageId) == lastPageId {
      nextIndex := currentChunkIndex + 1;
    } else {
      nextIndex := 0;
    }
    var chunkId := ChunkId(currentPageId, nextIndex);
    chunk.id := Some(chunkId);
  }

  /** What the loop's `last_page_id` and `current_chunk_index` hold after `n` chunks: the
      previous chunk's page id and counter (nothing before the first chunk). */
  predicate CounterState(pids: seq<string>, n: nat, last: Option<string>, index: nat) {
    n <= |pids| &&
    (n == 0 ==> last == None) &&
    (n > 0 ==> last == Some(pids[n - 1]) && index == RunIndex(pids, n - 1))
  }

  /** One step of the loop's counter update. */
  lemma CounterStep(pids: seq<string>, n: nat, last: Option<string>, index: nat)
    requires n < |pids| && CounterState(pids, n, last, index)
    ensures (if Some(pids[n]) == last then index + 1 else 0) == RunIndex(pids, n)
  {
  }

  /** The counter of chunk `i` is the length of the stretch of equal page ids that ends
      just before it: the stretch starts at `i - RunIndex(pids, i)`. */
  lemma {:induction false} RunStart(pids: seq<string>, i: nat)
    requires i < |pids|
    ensures RunIndex(pids, i) <= i
    ensures forall m :: i - RunIndex(pids, i) <= m <= i ==> pids[m] == pids[i]
    ensures i - RunIndex(pids, i) == 0 || pids[i - RunIndex(pids, i) - 1] != pids[i]
  {
    if i > 0 && pids[i - 1] == pids[i] {
      RunStart(pids, i - 1);
    }
  }

  /** Along a stretch of equal page ids the counter goes up by one per chunk. */
  lemma {:induction false} RunIndexAdvance(pids: seq<string>, i: nat, j: nat)
    requires i <= j < |pids|
    requires forall m :: i <= m <= j ==> pids[m] == pids[i]
    ensures RunIndex(pids, j) == RunIndex(pids, i) + (j - i)
  {
    if i < j {
      RunIndexAdvance(pids, i, j - 1);
    }
  }

  /** When pages are contiguous, a chunk's counter is the number of earlier chunks from
      the same page. */
  lemma {:induction false} RunIndexCountsEarlierChunks(pids: seq<string>, i: nat)
    requires Contiguous(pids) && i < |pids|
    ensures RunIndex(pids, i) == multiset(pids[..i])[pids[i]]
  {
    if i > 0 {
      assert pids[..i] == pids[..i - 1] + [pids[i - 1]];
      if pids[i - 1] == pids[i] {
        RunIndexCountsEarlierChunks(pids, i - 1);
      } else {
        assert forall j :: 0 <= j < i ==> pids[..i][j] != pids[i];
        assert pids[i] !in pids[..i];
      }
    }
  }

  // ---------------------------------------------------------------------------
  // Uniqueness holds exactly when every page's chunks are contiguous.

  lemma ColonFreeDecimal(n: nat)
    ensures ':' !in NatToDecimal(n)
  {
    var s := NatToDecimal(n);
    NatToDecimalDigits(n);
    forall i | 0 <= i < |s| ensures s[i] != ':' {
      assert IsDigit(s[i]);
    }
  }

  /** Equal identifiers mean equal page ids and equal counters. */
  lemma IdAtInjective(pids: seq<string>, i: nat, j: nat)
    requires i < |pids| && j < |pids|
    ensures IdAt(pids, i) == IdAt(pids, j) ==> pids[i] == pids[j] && RunIndex(pids, i) == RunIndex(pids, j)
  {
    ColonFreeDecimal(RunIndex(pids, i));
    ColonFreeDecimal(RunIndex(pids, j));
    SplitAtLastInjective(pids[i], NatToDecimal(RunIndex(pids, i)), pids[j], NatToDecimal(RunIndex(pids, j)), ':');
    NatToDecimalInjective(RunIndex(pids, i), RunIndex(pids, j));
  }

  lemma ContiguousIdsDistinct(pids: seq<string>)
    requires Contiguous(pids)
    ensures Distinct(IdsFor(pids))
  {
    forall i, j | 0 <= i < j < |pids| ensures IdsFor(pids)[i] != IdsFor(pids)[j] {
      IdAtInjective(pids, i, j);
      if pids[i] == pids[j] {
        RunIndexAdvance(pids, i, j);
      }
    }
  }

  /** A page that comes back after another page restarts at counter 0, so the first chunk
      of its earlier stretch (at `a`) and of its later stretch (at `b`) share an identifier. */
  lemma InterruptedPageRepeatsId(pids: seq<string>, i: nat, j: nat, k: nat)
    requires i < j < k < |pids| && pids[i] == pids[k] && pids[j] != pids[i]
    ensures RunIndex(pids, i) <= i && RunIndex(pids, k) <= k
    ensures var a, b := i - RunIndex(pids, i), k - RunIndex(pids, k);
      && j < b && pids[a] == pids[i] && pids[b] == pids[i]
      && RunIndex(pids, a) == 0 && RunIndex(pids, b) == 0
      && IdsFor(pids)[a] == IdsFor(pids)[b]
    ensures exists a, b :: 0 <= a < b < |pids| && IdsFor(pids)[a] == IdsFor(pids)[b]
  {
    RunStart(pids, i);
    RunStart(pids, k);
    var a, b := i - RunIndex(pids, i), k - RunIndex(pids, k);
    assert j < b;
    assert RunIndex(pids, a) == 0 && RunIndex(pids, b) == 0;
    assert IdsFor(pids)[a] == IdsFor(pids)[b];
  }

  /** No two chunks get the same identifier if and only if the chunks of each page are
      contiguous in the list. */
  lemma IdsUniqueIffContiguous(pids: seq<string>)
    ensures Distinct(IdsFor(pids)) <==> Contiguous(pids)
  {
    if Contiguous(pids) {
      ContiguousIdsDistinct(pids);
    } else {
      var i, j, k :| 0 <= i < j < k < |pids| && pids[i] == pids[k] && pids[j] != pids[i];
      InterruptedPageRepeatsId(pids, i, j, k);
    }
  }

  // ---------------------------------------------------------------------------
  // Stability and defaults.

  /** Appending chunks never changes the identifiers of the chunks before them. */
  lemma {:induction false} IdsForPrefix(pids: seq<string>, n: nat)
    requires n <= |pids|
    ensures IdsFor(pids[..n]) == IdsFor(pids)[..n]
  {
    forall i | 0 <= i < n ensures IdAt(pids[..n], i) == IdAt(pids, i) {
      RunIndexPrefix(pids, n, i);
    }
  }

  lemma {:induction false} RunIndexPrefix(pids: seq<string>, n: nat, i: nat)
    requires i < n <= |pids|
    ensures RunIndex(pids[..n], i) == RunIndex(pids, i)
  {
    if i > 0 {
      RunIndexPrefix(pids, n, i - 1);
    }
  }

  /** Missing metadata: source "unknown_source", page 0. */
  lemma PageIdDefaults()
    ensures PageId(None, None) == "unknown_source:0"
  {
    FileNameOfName(UnknownSource);
  }

  /** The directory of the source does not enter the page id. */
  lemma PageIdIgnoresDirectory(dir: string, name: string, page: Option<int>)
    requires '/' !in name && name != "" && name != "."
    ensures PageId(Some(dir + "/" + name), page) == PageId(Some(name), page)
  {
    FileNameUnderDirectory(dir, name);
    FileNameOfName(name);
  }

  /** "data/resume.pdf" with two chunks on page 0 and one on page 1. */
  lemma ResumeExample()
    ensures var p0, p1 := PageId(Some("data/resume.pdf"), Some(0)), PageId(Some("data/resume.pdf"), Some(1));
      IdsFor([p0, p0, p1]) == ["resume.pdf:0:0", "resume.pdf:0:1", "resume.pdf:1:0"]
  {
    ResumePageId(0);
    ResumePageId(1);
    var p0, p1 := "resume.pdf:0", "resume.pdf:1";
    assert "resume.pdf:" + [DigitChar(0)] == p0 && "resume.pdf:" + [DigitChar(1)] == p1;
    var pids := [p0, p0, p1];
    assert p0 != p1 by { assert p0[11] != p1[11]; }
    assert RunIndex(pids, 0) == 0 && RunIndex(pids, 1) == 1 && RunIndex(pids, 2) == 0;
    assert NatToDecimal(0) == "0" && NatToDecimal(1) == "1";
    var ids := IdsFor(pids);
    assert ids[0] == p0 + ":" + "0" == "resume.pdf:0:0";
    assert ids[1] == p0 + ":" + "1" == "resume.pdf:0:1";
    assert ids[2] == p1 + ":" + "0" == "resume.pdf:1:0";
    assert ids == ["resume.pdf:0:0", "resume.pdf:0:1", "resume.pdf:1:0"];
  }

  lemma ResumePageId(page: nat)
    requires page < 10
    ensures PageId(Some("data/resume.pdf"), Some(page)) == "resume.pdf:" + [DigitChar(page)]
  {
    FileNameUnderDirectory("data", "resume.pdf");
    assert "data" + "/" + "resume.pdf" == "data/resume.pdf";
  }
}
