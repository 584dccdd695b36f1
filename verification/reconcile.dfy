/** Incremental ingestion: only chunks whose identifier the index does not hold yet are added
    (`add_to_chroma`). */
module Reconcile {
  import opened Wrappers
  import opened Chunks
  import opened Identifiers
  import opened Categories

  /** The persisted index, seen as a map from identifier to stored entry. */
  class IndexStore {
    var entries: map<string, Entry>
    /** Every `add_documents` call made so far, by the identifiers it submitted. */
    ghost var submissions: seq<seq<string>>

    constructor ()
      ensures entries == map[] && submissions == []
    {
      entries := map[];
      submissions := [];
    }

    /** The identifiers the index holds, as a set (what `db.get` reports under `ids`). */
    function Ids(): set<string>
      reads this
    {
      entries.Keys
    }

    /** `add_documents`: stores each document under its identifier, in
        order, in one bulk call. */
    method AddDocuments(docs: seq<Chunk>, ids: seq<string>)
      requires |docs| == |ids|
      modifies this
      ensures entries == Upsert(old(entries), Zip(ids, docs))
      ensures submissions == old(submissions) + [ids]
    {
      entries := Upsert(entries, Zip(ids, docs));
      submissions := submissions + [ids];
    }
  }

  function Zip(ids: seq<string>, docs: seq<Chunk>): (b: seq<(string, Entry)>)
    requires |docs| == |ids|
    reads docs
    ensures |b| == |ids|
  {
    seq(|ids|, i reads docs requires 0 <= i < |ids| && |docs| == |ids| => (ids[i], Snapshot(docs[i])))
  }

  function Keys(batch: seq<(string, Entry)>): (ks: seq<string>)
    ensures |ks| == |batch|
  {
    seq(|batch|, i requires 0 <= i < |batch| => batch[i].0)
  }

  function KeySet(batch: seq<(string, Entry)>): set<string> {
    set p | p in batch :: p.0
  }

  // ---------------------------------------------------------------------------
  // The pure specification of reconciliation.

  /** The pairs whose identifier is not in `existing`, in input order (not de-duplicated). */
  function Unseen(batch: seq<(string, Entry)>, existing: set<string>): seq<(string, Entry)> {
    if batch == [] then []
    else
      var last := batch[|batch| - 1];
      Unseen(batch[..|batch| - 1], existing) + (if last.0 !in existing then [last] else [])
  }

  /** Writes the pairs into the map one after another. */
  function Upsert(m: map<string, Entry>, batch: seq<(string, Entry)>): map<string, Entry> {
    if batch == [] then m
    else
      var last := batch[|batch| - 1];
      Upsert(m, batch[..|batch| - 1])[last.0 := last.1]
  }

  /** One ingestion run against the index `m`. */
  function Reconcile(m: map<string, Entry>, batch: seq<(string, Entry)>): map<string, Entry> {
    Upsert(m, Unseen(batch, m.Keys))
  }

  /** Exactly the pairs with a new identifier are kept. */
  lemma {:induction false} UnseenMembers(batch: seq<(string, Entry)>, existing: set<string>)
    ensures forall p :: p in Unseen(batch, existing) <==> p in batch && p.0 !in existing
  {
    if batch != [] {
      var init := batch[..|batch| - 1];
      UnseenMembers(init, existing);
      assert batch == init + [batch[|batch| - 1]];
    }
  }

  /** Filtering a concatenation filters each part: the order is kept and a pair that occurs
      twice is kept twice. */
  lemma {:induction false} UnseenAppend(a: seq<(string, Entry)>, b: seq<(string, Entry)>, existing: set<string>)
    ensures Unseen(a + b, existing) == Unseen(a, existing) + Unseen(b, existing)
  {
    if b != [] {
      var init := b[..|b| - 1];
      assert (a + b)[..|a + b| - 1] == a + init;
      UnseenAppend(a, init, existing);
    } else {
      assert a + b == a;
    }
  }

  /** When every identifier already exists there is nothing to add. */
  lemma {:induction false} UnseenAllExisting(batch: seq<(string, Entry)>, existing: set<string>)
    requires forall p :: p in batch ==> p.0 in existing
    ensures Unseen(batch, existing) == []
  {
    if batch != [] {
      var init := batch[..|batch| - 1];
      assert forall p :: p in init ==> p in batch;
      UnseenAllExisting(init, existing);
      assert batch[|batch| - 1] in batch;
    }
  }

  /** The keys after an upsert are the old keys plus the batch's keys. */
  lemma {:induction false} UpsertKeys(m: map<string, Entry>, batch: seq<(string, Entry)>)
    ensures Upsert(m, batch).Keys == m.Keys + KeySet(batch)
  {
    if batch != [] {
      var init := batch[..|batch| - 1];
      UpsertKeys(m, init);
      assert batch == init + [batch[|batch| - 1]];
      assert KeySet(batch) == KeySet(init) + {batch[|batch| - 1].0};
    }
  }

  /** An upsert leaves every key the batch does not mention untouched. */
  lemma {:induction false} UpsertKeepsOthers(m: map<string, Entry>, batch: seq<(string, Entry)>, k: string)
    requires k in m && k !in KeySet(batch)
    ensures k in Upsert(m, batch) && Upsert(m, batch)[k] == m[k]
  {
    if batch != [] {
      var init := batch[..|batch| - 1];
      assert KeySet(init) <= KeySet(batch);
      UpsertKeepsOthers(m, init, k);
    }
  }

  /** No identifier occurs twice in the batch. */
  predicate DistinctKeys(batch: seq<(string, Entry)>) {
    forall i, j :: 0 <= i < j < |batch| ==> batch[i].0 != batch[j].0
  }

  /** A pair whose identifier is not written again later in the batch is what the upsert
      leaves under that identifier. */
  lemma {:induction false} UpsertValue(m: map<string, Entry>, batch: seq<(string, Entry)>, i: nat)
    requires i < |batch|
    requires forall j :: i < j < |batch| ==> batch[j].0 != batch[i].0
    ensures batch[i].0 in Upsert(m, batch) && Upsert(m, batch)[batch[i].0] == batch[i].1
  {
    if i < |batch| - 1 {
      UpsertValue(m, batch[..|batch| - 1], i);
    }
  }

  /** Filtering keeps identifiers distinct. */
  lemma {:induction false} UnseenDistinctKeys(batch: seq<(string, Entry)>, existing: set<string>)
    requires DistinctKeys(batch)
    ensures DistinctKeys(Unseen(batch, existing))
  {
    if batch != [] {
      var init, last := batch[..|batch| - 1], batch[|batch| - 1];
      var u := Unseen(init, existing);
      UnseenDistinctKeys(init, existing);
      UnseenMembers(init, existing);
      forall a | 0 <= a < |u| ensures u[a].0 != last.0 {
        assert u[a] in init;
        var k :| 0 <= k < |init| && init[k] == u[a];
        assert batch[k] == u[a];
      }
      if last.0 !in existing {
        var v := u + [last];
        forall a, b | 0 <= a < b < |v| ensures v[a].0 != v[b].0 {
          if b == |u| {
            assert v[a] == u[a] && v[b] == last;
          } else {
            assert v[a] == u[a] && v[b] == u[b];
          }
        }
      }
    }
  }

  /** With distinct identifiers in the batch, every pair with a new identifier is stored
      as given: its identifier maps to its entry. */
  lemma ReconcileStoresNew(m: map<string, Entry>, batch: seq<(string, Entry)>, p: (string, Entry))
    requires DistinctKeys(batch) && p in batch && p.0 !in m
    ensures p.0 in Reconcile(m, batch) && Reconcile(m, batch)[p.0] == p.1
  {
    var novel := Unseen(batch, m.Keys);
    UnseenMembers(batch, m.Keys);
    UnseenDistinctKeys(batch, m.Keys);
    var i :| 0 <= i < |novel| && novel[i] == p;
    UpsertValue(m, novel, i);
  }

  /** Additive only: every entry that was in the index is still there, unchanged. */
  lemma ReconcileAdditive(m: map<string, Entry>, batch: seq<(string, Entry)>)
    ensures forall k :: k in m ==> k in Reconcile(m, batch) && Reconcile(m, batch)[k] == m[k]
  {
    var novel := Unseen(batch, m.Keys);
    UnseenMembers(batch, m.Keys);
    forall k | k in m ensures k in Reconcile(m, batch) && Reconcile(m, batch)[k] == m[k] {
      assert k !in KeySet(novel);
      UpsertKeepsOthers(m, novel, k);
    }
  }

  /** After a run the index holds the old identifiers and every identifier of the batch. */
  lemma ReconcileKeys(m: map<string, Entry>, batch: seq<(string, Entry)>)
    ensures Reconcile(m, batch).Keys == m.Keys + KeySet(batch)
  {
    var novel := Unseen(batch, m.Keys);
    UnseenMembers(batch, m.Keys);
    UpsertKeys(m, novel);
    assert KeySet(novel) == KeySet(batch) - m.Keys;
  }

  /** If every identifier already exists, the index is left as it was. */
  lemma ReconcileNothingNew(m: map<string, Entry>, batch: seq<(string, Entry)>)
    requires forall p :: p in batch ==> p.0 in m
    ensures Reconcile(m, batch) == m
  {
    UnseenAllExisting(batch, m.Keys);
  }

  /** Re-ingesting the same batch finds nothing new and changes nothing. */
  lemma ReconcileIdempotent(m: map<string, Entry>, batch: seq<(string, Entry)>)
    ensures Unseen(batch, Reconcile(m, batch).Keys) == []
    ensures Reconcile(Reconcile(m, batch), batch) == Reconcile(m, batch)
  {
    ReconcileKeys(m, batch);
    UnseenAllExisting(batch, Reconcile(m, batch).Keys);
  }

  // ---------------------------------------------------------------------------
  // The ingestion steps on chunk objects.

  /** What ingestion tags a chunk list with: each chunk's identifier, text, provenance and
      category label. It depends only on the chunks' text and provenance. */
  function Tagged(chunks: seq<Chunk>): (b: seq<(string, Entry)>)
    ensures |b| == |chunks|
  {
    var ids := ChunkIds(chunks);
    seq(|chunks|, i requires 0 <= i < |chunks| =>
      var c := chunks[i];
      (ids[i], Entry(c.pageContent, c.source, c.page, Some(ids[i]), Some(Classify(c.pageContent).Label()))))
  }

  /** Once every chunk carries its identifier and its category label, the batch sent to
      the index is exactly what ingestion tags the list with. */
  lemma BatchIsTagged(chunks: seq<Chunk>)
    requires forall i :: 0 <= i < |chunks| ==> chunks[i].id == Some(ChunkIds(chunks)[i])
    requires forall i :: 0 <= i < |chunks| ==> chunks[i].category == Some(Classify(chunks[i].pageContent).Label())
    ensures AllIdentified(chunks) && Batch(chunks) == Tagged(chunks)
  {
  }

  /** When no two chunks share an identifier (by `IdsUniqueIffContiguous`, exactly when each
      page's chunks are contiguous), a run stores every chunk whose identifier the index did
      not hold: under its identifier, its text, provenance, identifier and category label. */
  lemma NewChunkStored(m: map<string, Entry>, chunks: seq<Chunk>, i: nat)
    requires Distinct(ChunkIds(chunks)) && i < |chunks| && ChunkIds(chunks)[i] !in m
    ensures var id, c := ChunkIds(chunks)[i], chunks[i];
      id in Reconcile(m, Tagged(chunks)) &&
      Reconcile(m, Tagged(chunks))[id] ==
        Entry(c.pageContent, c.source, c.page, Some(id), Some(Classify(c.pageContent).Label()))
  {
    var b := Tagged(chunks);
    var p := b[i];
    TaggedDistinct(chunks);
    TaggedAt(chunks, i);
    assert p in b;
    ReconcileStoresNew(m, b, p);
  }

  lemma TaggedAt(chunks: seq<Chunk>, i: nat)
    requires i < |chunks|
    ensures var id, c := ChunkIds(chunks)[i], chunks[i];
      Tagged(chunks)[i] ==
        (id, Entry(c.pageContent, c.source, c.page, Some(id), Some(Classify(c.pageContent).Label())))
  {
  }

  /** Distinct chunk identifiers give a batch without repeated identifiers. */
  lemma TaggedDistinct(chunks: seq<Chunk>)
    requires Distinct(ChunkIds(chunks))
    ensures DistinctKeys(Tagged(chunks))
  {
    var b := Tagged(chunks);
    var ids := ChunkIds(chunks);
    assert forall j :: 0 <= j < |b| ==> b[j].0 == ids[j];
  }

  /** The chunks whose identifier is not among `existing`, in input order. */
  method SelectNewChunks(chunks: seq<Chunk>, existing: set<string>) returns (newChunks: seq<Chunk>)
    requires AllIdentified(chunks)
    ensures AllIdentified(newChunks)
    ensures Batch(newChunks) == Unseen(Batch(chunks), existing)
    ensures forall c :: c in newChunks ==> c in chunks && c.id.value !in existing
  {
    newChunks := [];
    var n := 0;
    while n < |chunks|
      invariant 0 <= n <= |chunks|
      invariant AllIdentified(newChunks)
      invariant Batch(newChunks) == Unseen(Batch(chunks[..n]), existing)
      invariant forall c :: c in newChunks ==> c in chunks[..n] && c.id.value !in existing
    {
      var chunk := chunks[n];
      assert Batch(chunks[..n + 1])[..n] == Batch(chunks[..n]);
      if chunk.id.value !in existing {
        newChunks := newChunks + [chunk];
      }
      n := n + 1;
    }
    assert chunks[..n] == chunks;
  }

  /** The identifiers of the chunks, in list order. */
  function IdsOf(chunks: seq<Chunk>): (ids: seq<string>)
    reads chunks
    requires AllIdentified(chunks)
    ensures ids == Keys(Batch(chunks))
    ensures Zip(ids, chunks) == Batch(chunks)
  {
    seq(|chunks|, i reads chunks requires 0 <= i < |chunks| && AllIdentified(chunks) => chunks[i].id.value)
  }

  /** The reconciliation half of `add_to_chroma`: lists the identifiers the index holds, keeps
      the chunks it does not hold, and submits them in one bulk call, only if there are any. */
  method CommitNew(store: IndexStore, chunks: seq<Chunk>) returns (existingCount: nat, added: seq<string>)
    requires AllIdentified(chunks)
    modifies store
    ensures existingCount == |old(store.entries).Keys|
    ensures added == Keys(Unseen(Batch(chunks), old(store.entries).Keys))
    ensures store.entries == Reconcile(old(store.entries), Batch(chunks))
    ensures store.submissions == old(store.submissions) + (if added == [] then [] else [added])
  {
    var existingIds := store.Ids();
    existingCount := |existingIds|;

    var newChunks := SelectNewChunks(chunks, existingIds);
    added := [];
    if |newChunks| > 0 {
      var newChunkIds := IdsOf(newChunks);
      store.AddDocuments(newChunks, newChunkIds);
      added := newChunkIds;
    }
  }

  /** `add_to_chroma`: assigns identifiers and categories in place, then commits the chunks
      the index does not hold yet. Returns the number of identifiers the index held and the
      identifiers submitted. */
  method AddToChroma(store: IndexStore, chunks: seq<Chunk>) returns (existingCount: nat, added: seq<string>)
    requires DistinctObjects(chunks)
    modifies store, chunks
    ensures AllIdentified(chunks) && Batch(chunks) == Tagged(chunks)
    ensures existingCount == |old(store.entries).Keys|
    ensures added == Keys(Unseen(Tagged(chunks), old(store.entries).Keys))
    ensures store.entries == Reconcile(old(store.entries), Tagged(chunks))
    ensures store.submissions == old(store.submissions) + (if added == [] then [] else [added])
  {
    var chunksWithIds := CalculateChunkIds(chunks);
    AssignCategories(chunksWithIds);
    BatchIsTagged(chunks);
    existingCount, added := CommitNew(store, chunksWithIds);
  }

  /** Ingesting the same chunks a second time, without a reset, finds every identifier
      already present: nothing is submitted and the index is what the first run left. */
  method IngestTwice(store: IndexStore, chunks: seq<Chunk>) returns (firstAdded: seq<string>, secondAdded: seq<string>)
    requires DistinctObjects(chunks)
    modifies store, chunks
    ensures firstAdded == Keys(Unseen(Tagged(chunks), old(store.entries).Keys))
    ensures secondAdded == []
    ensures store.entries == Reconcile(old(store.entries), Tagged(chunks))
    ensures store.submissions == old(store.submissions) + (if firstAdded == [] then [] else [firstAdded])
  {
    var existing: nat;
    existing, firstAdded := AddToChroma(store, chunks);
    ReconcileIdempotent(old(store.entries), Tagged(chunks));
    existing, secondAdded := AddToChroma(store, chunks);
  }
}
