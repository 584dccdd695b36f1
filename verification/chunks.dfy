/** The chunks that flow through ingestion, and what the index stores for each. */
module Chunks {
  import opened Wrappers

  /** A split-off piece of a loaded page. Its text and provenance (`source`, `page` in the
      loader's metadata) are never written by ingestion; `id` and `category` are written in
      place. `None` stands for a metadata key that is absent. */
  class Chunk {
    const pageContent: string
    const source: Option<string>
    const page: Option<int>
    var id: Option<string>
    var category: Option<string>

    constructor (pageContent: string, source: Option<string>, page: Option<int>)
      ensures this.pageContent == pageContent && this.source == source && this.page == page
      ensures id == None && category == None
    {
      this.pageContent := pageContent;
      this.source := source;
      this.page := page;
      id := None;
      category := None;
    }
  }

  /** What the index keeps of a chunk: its text and a copy of its metadata. */
  datatype Entry = Entry(
    content: string,
    source: Option<string>,
    page: Option<int>,
    id: Option<string>,
    category: Option<string>)

  function Snapshot(c: Chunk): Entry
    reads c
  {
    Entry(c.pageContent, c.source, c.page, c.id, c.category)
  }

  /** No chunk object occurs twice in the list. */
  predicate DistinctObjects(chunks: seq<Chunk>) {
    forall i, j :: 0 <= i < j < |chunks| ==> chunks[i] != chunks[j]
  }

  predicate AllIdentified(chunks: seq<Chunk>)
    reads chunks
  {
    forall i :: 0 <= i < |chunks| ==> chunks[i].id.Some?
  }

  /** The chunks as (id, entry) pairs, in list order. */
  function Batch(chunks: seq<Chunk>): (b: seq<(string, Entry)>)
    reads chunks
    requires AllIdentified(chunks)
    ensures |b| == |chunks|
  {
    seq(|chunks|, i reads chunks requires 0 <= i < |chunks| && AllIdentified(chunks) =>
      (chunks[i].id.value, Snapshot(chunks[i])))
  }
}
