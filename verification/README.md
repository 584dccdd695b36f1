# Ingestion bookkeeping and query glue of a PDF question-answering pipeline

This project models the deterministic core of a small retrieval-augmented question-answering
system. The system loads PDFs, splits them into chunks and stores them in a Chroma vector
index. Later, it answers questions with a local language model, using the retrieved chunks as
grounding context.

The model covers four parts:

- **Chunk identifiers** (`chunk_ids.dfy`, module `Identifiers`). `calculate_chunk_ids` gives
  each chunk the identifier `<filename>:<page>:<index>`. The index restarts at 0 whenever the
  page id differs from the previous chunk's. A missing source defaults to `unknown_source` and a
  missing page to 0. The method works in place on `Chunk` objects (`chunks.dfy`). It is proved
  against the specification function `IdsFor`.
- **Category classifier** (`categories.dfy`). The ingestion loop writes exactly one of
  `education`, `skills`, `projects`, `general` into each chunk. The first keyword list that
  matches the lower-cased text wins.
- **Index reconciliation** (`reconcile.dfy`). The index is a class holding a map from
  identifier to stored entry. `add_to_chroma` submits, in one bulk call and only when there are
  any, the chunks whose identifier the index does not hold yet. The pure functions `Unseen`,
  `Upsert` and `Reconcile` specify it.
- **Query glue** (`query.dfy`). `query_rag` chooses `k` and the metadata filter, joins the
  retrieved texts, fills the prompt template, collects the source ids and formats the result.
  The similarity search and the language model are function parameters.

`text.dfy` and `paths.dfy` hold the Python string operations the core relies on: substring
test, `lower()`, `str(int)`, `str.join` and `pathlib.Path(...).name`. `repr` of a string and
`str()` of a list of sources are in `query.dfy`, next to their only user.

The table below lists the members whose contracts state the source's behaviour. They are
proved about these definitions, which model the cited lines directly:
- `Paths.FileName`: `Path(source).name` (populate_database.py:95).
- `Identifiers.PageId`: the defaulted `<name>:<page>` page id (populate_database.py:92-98).
- `Identifiers.RunIndex`: the counter's value at each chunk (populate_database.py:101-104).
- `Identifiers.IdsFor`: the identifiers of a list of page ids (populate_database.py:86-110).
- `Categories.Classify`: the first-match category of a chunk's text (populate_database.py:55-64).
- `Reconcile.Unseen`: the chunks whose id is not in the index yet (populate_database.py:72-75).
- `Reconcile.Upsert`: `add_documents` under the given ids (populate_database.py:79-80).
- `Reconcile.Reconcile`: one ingestion run (populate_database.py:67-83).
- `Query.Request`: `k` and the filter (query_data.py:28-35).
- `Query.Context`: the joined texts (query_data.py:37-38).
- `Query.Prompt`: the filled template (query_data.py:10-20, 40-43).
- `Query.Sources`: the source ids (query_data.py:48).
- `Query.Format`: the returned text (query_data.py:49).
- `Query.Repr` and `Query.RenderList`: `str()` of the source list (query_data.py:49).

## Model

| member | source | states |
|---|---|---|
| `Paths.FileNameIsComponent` | populate_database.py:95 | the final path component never contains `/` and is never `.` |
| `Paths.FileNameOfName` | populate_database.py:92-95 | a bare name (such as the default `unknown_source`) is kept as it is |
| `Paths.FileNameUnderDirectory` | populate_database.py:95 | `dir/name` reduces to `name` whatever the directory, so ids do not depend on the working directory |
| `Paths.FileNameIgnoresTrailingSlash` | populate_database.py:95 | a trailing `/` does not change the name |
| `Paths.FileNameIdempotent` | populate_database.py:95 | taking the name of a name changes nothing |
| `Text.NatToDecimalDigits` | populate_database.py:106 | the rendered counter is non-empty and all digits |
| `Text.DecimalRoundTrip` | populate_database.py:106 | reading the rendered counter back gives the counter |
| `Text.NatToDecimalInjective` | populate_database.py:106 | distinct counters render as distinct strings |
| `Text.IntToDecimalChars` | populate_database.py:97-98 | the rendered page number is non-empty, starts with `-` exactly when negative, and is digits otherwise |
| `Text.AfterLastIsSuffix` | populate_database.py:95 | the text after the last separator is a separator-free suffix with the separator right before it |
| `Text.SplitAtLastInjective` | populate_database.py:98-106 | `a:x` with a colon-free `x` determines both `a` and `x` |
| `Text.LowerHasNoUpper` | populate_database.py:55 | lower-cased text holds no upper-case letter |
| `Text.LowerOfLowercase` | populate_database.py:55 | text with no upper-case letter is unchanged by lower-casing |
| `Text.LowerIdempotent` | populate_database.py:55 | lower-casing twice equals lower-casing once |
| `Text.JoinLength` | query_data.py:38 | a join has the length of the items plus one separator between neighbours |
| `Text.JoinContainsItem` | query_data.py:38 | every item occurs unchanged in the joined string |
| `Identifiers.CalculateChunkIds` | populate_database.py:86-110 | every chunk's id becomes `IdsFor(PageIds(chunks))[i]`; the same list is returned, only `id` fields are written, and categories are unchanged |
| `Identifiers.StampChunk` | populate_database.py:91-108 | one pass of the loop: given the previous page id and counter, it writes chunk n's id `IdsFor(PageIds(chunks))[n]` and hands on chunk n's page id and counter |
| `Identifiers.CounterStep` | populate_database.py:101-104 | the counter is reset to 0 on a new page id and incremented on a repeated one, matching `RunIndex` |
| `Identifiers.PageIdsAt` | populate_database.py:92-98 | chunk i's page id is `<filename>:<page>` from its own metadata, with the defaults |
| `Identifiers.RunStart` | populate_database.py:101-104 | the counter is the number of immediately preceding chunks with the same page id; the chunk before that run has a different page id |
| `Identifiers.RunIndexAdvance` | populate_database.py:101-102 | along a run of equal page ids the counter rises by one per chunk |
| `Identifiers.RunIndexCountsEarlierChunks` | populate_database.py:101-106 | with contiguous pages, the counter equals the number of earlier chunks of the same page |
| `Identifiers.IdAtInjective` | populate_database.py:106 | equal ids imply equal page ids and equal counters |
| `Identifiers.ContiguousIdsDistinct` | populate_database.py:90-108 | with contiguous pages no two chunks share an id |
| `Identifiers.InterruptedPageRepeatsId` | populate_database.py:101-106 | a page that reappears after another page restarts at counter 0: the first chunk of its earlier stretch and the first chunk of its later stretch (after the other page) both have counter 0 and the same id |
| `Identifiers.IdsUniqueIffContiguous` | populate_database.py:86-110 | ids are pairwise distinct if and only if each page's chunks are contiguous |
| `Identifiers.IdsForPrefix` | populate_database.py:90-108 | appending chunks never changes earlier ids (ids depend only on the page-id sequence so far) |
| `Identifiers.PageIdDefaults` | populate_database.py:92-98 | missing source and page give the page id `unknown_source:0` |
| `Identifiers.PageIdIgnoresDirectory` | populate_database.py:92-98 | the source's directory does not enter the page id |
| `Identifiers.ResumeExample` | populate_database.py:86-110 | two chunks of page 0 and one of page 1 of `data/resume.pdf` get `resume.pdf:0:0`, `resume.pdf:0:1`, `resume.pdf:1:0` |
| `Categories.Category.Label` | populate_database.py:57-64 | every category label is one of the four fixed labels |
| `Categories.AssignCategories` | populate_database.py:54-64 | every chunk's category becomes the label of `Classify(content)`; only `category` fields are written, so ids are unchanged |
| `Categories.AcademicNeverMatches` | populate_database.py:55-61 | the keyword `Academic` never occurs in lower-cased text |
| `Categories.EducationIff` | populate_database.py:55-58 | education exactly when an education keyword occurs |
| `Categories.SkillsIff` | populate_database.py:57-60 | skills exactly when no education keyword and some skills keyword occurs |
| `Categories.ProjectsIff` | populate_database.py:57-62 | projects exactly when neither earlier list matches and `project`, `case study` or `portfolio` occurs |
| `Categories.GeneralIff` | populate_database.py:57-64 | general exactly when no keyword of any list occurs |
| `Categories.UniversityBeatsProgramming` | populate_database.py:57-60 | text naming both `university` and `programming` is education |
| `Categories.ClassifyIgnoresCase` | populate_database.py:55 | classifying the lower-cased text gives the same category |
| `Categories.SubstringMatch` | populate_database.py:57 | keywords match inside longer words (`reengineering` is education) |
| `Categories.KelvinSignSkill` | populate_database.py:55-60 | `S\u212aILL` lower-cases to `skill` and is classified skills, since the Kelvin sign lower-cases to `k` |
| `Reconcile.IndexStore.AddDocuments` | populate_database.py:80 | one bulk add writes each document under its id and is logged as one submission |
| `Reconcile.UnseenMembers` | populate_database.py:72-75 | a chunk is kept exactly when it is in the input and its id is not among the existing ids |
| `Reconcile.UnseenAppend` | populate_database.py:72-75 | filtering keeps input order and does not de-duplicate |
| `Reconcile.UnseenAllExisting` | populate_database.py:72-83 | when every id exists, nothing is selected |
| `Reconcile.UpsertKeys` | populate_database.py:80 | after an add the index holds the old ids plus the added ids |
| `Reconcile.UpsertKeepsOthers` | populate_database.py:80 | an add leaves the entries of ids it does not mention untouched |
| `Reconcile.UpsertValue` | populate_database.py:79-80 | after an add, an id that is not written again later in the batch maps to the entry given with it |
| `Reconcile.UnseenDistinctKeys` | populate_database.py:72-75 | selecting the new chunks never introduces a repeated id |
| `Reconcile.ReconcileStoresNew` | populate_database.py:67-83 | with distinct ids in the batch, every pair whose id the index lacked is stored: its id maps to its entry |
| `Reconcile.ReconcileAdditive` | populate_database.py:67-83 | every existing entry survives a run unchanged |
| `Reconcile.ReconcileKeys` | populate_database.py:67-83 | after a run the index holds the old ids and every id of the batch |
| `Reconcile.ReconcileNothingNew` | populate_database.py:77-83 | when every id already exists, the index is unchanged |
| `Reconcile.ReconcileIdempotent` | populate_database.py:45-83 | a second run over the same batch selects nothing and changes nothing |
| `Reconcile.TaggedAt` | populate_database.py:52-64 | the tagged pair of chunk i is its id with an entry of its text, source, page, id and category label |
| `Reconcile.TaggedDistinct` | populate_database.py:52-64 | distinct chunk ids give a batch without repeated ids |
| `Reconcile.NewChunkStored` | populate_database.py:45-83 | when chunk ids are distinct, a run stores each chunk whose id was new under that id, with its text, source, page, id and category label |
| `Reconcile.SelectNewChunks` | populate_database.py:72-75 | the result is the input chunks with unseen ids, in input order |
| `Reconcile.IdsOf` | populate_database.py:79 | the submitted id list is the selected chunks' ids, in order, paired with those chunks |
| `Reconcile.CommitNew` | populate_database.py:67-83 | reports the existing count, adds `Unseen` in one call only when non-empty, and leaves the index equal to `Reconcile` |
| `Reconcile.BatchIsTagged` | populate_database.py:45-80 | once ids and categories are written, the entries sent to the index are exactly `Tagged(chunks)` |
| `Reconcile.AddToChroma` | populate_database.py:45-83 | ids and categories are assigned, and the index becomes `Reconcile(old index, Tagged(chunks))` |
| `Reconcile.IngestTwice` | populate_database.py:45-83 | ingesting the same chunks twice adds nothing the second time |
| `Query.QueryRag` | query_data.py:23-51 | the search asks for the question with k = 3 and the filter `{"category": category}` when the category is non-empty, and k = 5 with no filter otherwise; the prompt is built from the results' context and the question; sources follow the results in length and order; the text is `Response: ` + model output + `\nSources: ` + rendered sources |
| `Query.CategoryNarrowsSearch` | query_data.py:28-33 | a non-empty category asks for 3 results filtered on `{"category": category}` |
| `Query.NoCategoryNoFilter` | query_data.py:28-33 | `None` and `""` both ask for 5 results with no filter |
| `Query.EmptyResultsEmptyContext` | query_data.py:37-49 | no results gives an empty context and the source list `[]` |
| `Query.ContextHoldsEveryResult` | query_data.py:37-38 | every retrieved text occurs in the context, and the context has the length of the texts plus a blank-line separator between neighbours |
| `Query.PromptCarriesContextAndQuestion` | query_data.py:10-43 | the filled template contains the context and the question |
| `Query.UnescapeEscapeAll` | query_data.py:49 | the escaped body of a rendered source id reads back as the id |
| `Query.EscapedQuoteFollowsBackslash` | query_data.py:49 | inside a rendered id every quote character comes right after a backslash |
| `Query.LiteralEndsAtClosingQuote` | query_data.py:49 | a reader that skips each backslash pair stops exactly at the quote that follows the escaped body, so the literal does not end early |
| `Query.ReprReadsBack` | query_data.py:49 | a rendered id, followed by any text, opens with its quote, ends at its closing quote, and its body unescapes to the id |
| `Query.ReprOfPlain` | query_data.py:49 | an id without quotes, backslashes or control characters renders as `'id'` |
| `Query.RenderExamples` | query_data.py:48-49 | `[Some(id), None]` renders as `['id', None]` |

## Left out

- `get_embedding_function.py` is not part of this model: it only constructs a foreign embedding client, and it calls the model and prints at import time.
- Loading and splitting (`populate_database.py:30-42`) are library code. The model takes their output, an ordered list of chunks with `source` and `page` metadata, as its input.
- Chroma itself is not modelled: construction, embedding computation, persistence and similarity search. The index is a map from identifier to entry, and search results are a parameter. "At most k results" and "every result matches the filter" are the store's promises, not code here.
- Chroma's handling of an `add_documents` batch that repeats an identifier is not modelled. `Reconcile.IndexStore.AddDocuments` writes the pairs in order, so the last one wins. `Unseen` itself is proved not to de-duplicate.
- The language model call is a function parameter. Its latency, failure and non-determinism are not modelled.
- Similarity scores are dropped, as the code drops them. Result order is whatever the search parameter returns.
- `clear_database`, both `main` functions and the argument parsing are not modelled. The `print` calls are replaced by returned values: the existing count and the submitted ids.
- `ChatPromptTemplate` is modelled as plain concatenation into the template text. Its brace handling and the role prefix it puts before a rendered chat message are not modelled.
- Chunk metadata is limited to `source` (a string), `page` (an integer), `id` and `category`. Other loader metadata keys, and values of other types, are not modelled. The chunk text and provenance are constants, since the core never writes them.
- `Identifiers.CalculateChunkIds` requires the list to hold distinct chunk objects, as the splitter produces. If one object appeared twice, it would keep only the last identifier written.
- `Text.Lower` maps the ASCII capitals and the Kelvin sign (U+212A, lower-cased to `k`) and keeps every other character. Python's `str.lower` also lower-cases other non-ASCII letters. Their lower-case forms are non-ASCII, except for U+0130, which becomes `i` followed by a combining dot. A non-ASCII character cannot be part of a match, since every keyword is ASCII. The `i` from U+0130 could complete a match only for a keyword ending in `i`, and no keyword does. So the differences leave classification unchanged, but `Text.Lower` is not Python's `lower()` on such text.
- `Paths.FileName` follows POSIX path rules. Windows drive letters and backslash separators are not modelled.
- `Query.Repr` treats every non-ASCII character as printable. Python escapes the non-printable ones.
- Concurrent ingestion runs and queries during ingestion are not modelled.
