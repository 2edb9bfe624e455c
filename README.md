# AFFiNE local indexer and list kernels, modelled in Dafny

This project models the core of AFFiNE's local search indexer:

- The `SimpleTokenizer`.
- The multi-valued `Document`.
- The two `DataStruct` backends. The memory backend keeps a record list with tombstones. The IndexedDB backend keeps object stores, here modelled as maps.
- Their recursive query evaluation, search pagination and aggregate bucketing.
- The memory `MemoryIndex` and its buffering `MemoryIndexWriter`.

It also models several list and string kernels from elsewhere in the repository:

- The crawler's `CrawlerScheduler`.
- The doc-collection meta (`DocCollectionMeta`).
- The outline panel's note and heading queries, plus its `_moveNotes` and `_selectNote` updates.
- The server's `UserFriendlyError`, its `json()`, and the code generator for the error classes.
- The copilot `WorkflowNode` edge bookkeeping and next-node choice.

The model follows the code's own form:

- Code that updates fields becomes a `class` with `modifies` clauses. Each method is tied to a specification function of the old state, and the laws are proved about those functions.
- Loops become methods with invariants.
- Expression-level code becomes functions and lemmas.
- Every thrown error is a value: `Result`, `Option<Error>` or an `Outcome` that carries the state the throw leaves behind.

Modules, one per source file plus shared ones:

| module | file |
|---|---|
| `Wrappers`, `JsArrays` | `Option`/`Result`, and JavaScript `slice`/`splice` index arithmetic, negative indexes included |
| `Tokenizer` | `impl/indexeddb/tokenizer.ts` |
| `Documents` | `document.ts` |
| `Matching`, `InvertedIndexes` | the `Match` value and the schema → index-kind mapping. `match.ts` and `inverted-index.ts` are not part of this model; see below |
| `Queries` | `queryRaw`, shared by both backends |
| `Searching` | search options, pagination windows, result nodes |
| `MemoryDataStruct`, `Buckets`, `MemoryIndex` | `impl/memory/data-struct.ts`, `impl/memory/index.ts` |
| `IdbDataStruct` | `impl/indexeddb/data-struct.ts` |
| `Crawler` | `crawler/crawler.ts` |
| `CollectionMeta` | `store/meta.ts` |
| `OutlineQuery`, `OutlinePanel` | `outline/utils/query.ts`, `outline/body/outline-panel-body.ts` |
| `FriendlyErrors` | `error/def.ts` |
| `WorkflowNodes` | `copilot/workflow/node.ts` |

`match.ts` and `inverted-index.ts` are not part of this model. `Match` is a concrete stand-in with these parts:

- The nids in insertion order, plus a score map.
- `and` is an intersection that sums scores.
- `or` is a union that sums scores.
- `exclude` and `filter` keep the left-hand scores.
- `toArray` sorts by descending score, then ascending nid.

An inverted index is its field, its kind and its log of postings. Its `match` is a lookup function given as a parameter. The lookup is assumed only to return nids that were posted to that index.

## Model

| member | source | states |
|---|---|---|
| Tokenizer.Tokenize | packages/common/infra/src/sync/indexer/impl/indexeddb/tokenizer.ts:12-45 | the output is a tokenization of the text. Each token is non-empty and holds no separator. A separator or the text's edge bounds it on both sides. Its term is the lower-cased text of its range. Tokens strictly increase, and every non-separator lies in some token |
| Tokenizer.TokensOrdered | packages/common/infra/src/sync/indexer/impl/indexeddb/tokenizer.ts:20-35 | any earlier token ends strictly before any later one starts |
| Tokenizer.CoveredExactlyOnce | packages/common/infra/src/sync/indexer/impl/indexeddb/tokenizer.ts:29-44 | every non-separator position lies in exactly one token |
| Tokenizer.EmptyIffAllSeparators | packages/common/infra/src/sync/indexer/impl/indexeddb/tokenizer.ts:37-44 | there are no tokens exactly when every character is a separator; this includes the empty text |
| Tokenizer.GapIsSeparators | packages/common/infra/src/sync/indexer/impl/indexeddb/tokenizer.ts:19-35 | every position before the first token, between two tokens, or after the last one is a separator |
| Tokenizer.SameStartSameWord | packages/common/infra/src/sync/indexer/impl/indexeddb/tokenizer.ts:29-43 | two words that start at the same offset are the same token, so runs are maximal |
| Tokenizer.TokenizationUnique | packages/common/infra/src/sync/indexer/impl/indexeddb/tokenizer.ts:12-45 | two token lists that both meet the contract are equal, so the contract fixes the tokenizer's output |
| Tokenizer.ExampleSeparators | packages/common/infra/src/sync/indexer/impl/indexeddb/__tests__/tokenizer.spec.ts:6-12 | in the test's text, the separators are exactly positions 5, 6, 12, 13 and 14 |
| Tokenizer.ExampleTokens | packages/common/infra/src/sync/indexer/impl/indexeddb/__tests__/tokenizer.spec.ts:6-12 | `"hello  world,\n AFFiNE"` tokenizes to `hello[0,5)`, `world[7,12)`, `affine[15,21)` |
| Documents.Inserted | packages/common/infra/src/sync/indexer/document.ts:8-16 | insert appends the scalar or all array values, in order, after the field's existing values. Every other field is unchanged, the id is unchanged, and a new field joins the key order at the end |
| Documents.Document.constructor | packages/common/infra/src/sync/indexer/document.ts:4 | a new document has the given id and no fields |
| Documents.Document.Insert | packages/common/infra/src/sync/indexer/document.ts:8-16 | the in-place insert leaves the document equal to `Inserted` of its old value |
| Documents.Document.From | packages/common/infra/src/sync/indexer/document.ts:18-27 | the loop of inserts builds `FromEntries(id, entries)` |
| Documents.FromEntries | packages/common/infra/src/sync/indexer/document.ts:18-27 | `from` yields a well-formed document with the given id |
| Documents.FromEntriesContents | packages/common/infra/src/sync/indexer/document.ts:18-27 | the keys of `from(id, map)` are the map's keys in order. Each key holds its value wrapped as a list, or the array itself |
| Documents.InsertsAccumulate | packages/common/infra/src/sync/indexer/document.ts:9-15 | two inserts on one field append both value lists; nothing is replaced or deduplicated |
| Documents.DocValues | packages/common/infra/src/sync/indexer/impl/memory/index.ts:201-203 | the contents of a list of documents, position by position |
| Matching.Empty | packages/common/infra/src/sync/indexer/impl/memory/data-struct.ts:76 | a new match has no members |
| Matching.AddScore | packages/common/infra/src/sync/indexer/impl/memory/data-struct.ts:78 | `addScore` adds the nid, or leaves it where it is, and raises only that nid's score |
| Matching.And | packages/common/infra/src/sync/indexer/impl/memory/data-struct.ts:92-93 | members are the intersection; scores are summed |
| Matching.Or | packages/common/infra/src/sync/indexer/impl/memory/data-struct.ts:97-98 | members are the union; scores are summed |
| Matching.Exclude | packages/common/infra/src/sync/indexer/impl/memory/data-struct.ts:94-96 | members are the left minus the right, with the left's scores |
| Matching.Filter | packages/common/infra/src/sync/indexer/impl/memory/data-struct.ts:106-108 | members are those passing the predicate, with their scores kept |
| Matching.ScoreEach | packages/common/infra/src/sync/indexer/impl/memory/data-struct.ts:75-81 | scoring a list of distinct nids with 1 gives exactly those members, in that order, each scored 1 |
| Matching.ScoreAll | packages/common/infra/src/sync/indexer/impl/indexeddb/data-struct.ts:168-178 | the `addScore(nid, 1)` loop over the stored keys builds the match `ScoreEach` describes: exactly those nids, in key order, each scored 1 |
| Matching.ToArray | packages/common/infra/src/sync/indexer/impl/memory/index.ts:55-57 | `toArray` is a sorted, duplicate-free permutation of the members, of length `size()` |
| Matching.SortedUnique | packages/common/infra/src/sync/indexer/impl/memory/index.ts:55-57 | two sorted permutations of the same distinct nids are equal, so `toArray` is determined |
| Matching.SizeIsCardinality | packages/common/infra/src/sync/indexer/impl/memory/index.ts:61 | `size()` is the number of members |
| Matching.InsertSorted | packages/common/infra/src/sync/indexer/impl/memory/index.ts:55-57 | inserting into a sorted list keeps it sorted and adds exactly that nid |
| Matching.SortNids | packages/common/infra/src/sync/indexer/impl/memory/index.ts:55-57 | the sort is sorted and a permutation of its input |
| InvertedIndexes.KindFor | packages/common/infra/src/sync/indexer/impl/memory/data-struct.ts:25-35 | String maps to a string index. Integer and Date map to an integer index. FullText maps to a full-text index. Any other type has no index |
| InvertedIndexes.FirstUnsupported | packages/common/infra/src/sync/indexer/impl/memory/data-struct.ts:24-36 | finds the first schema field of an unsupported type, or reports that there is none |
| InvertedIndexes.IndexesFor | packages/common/infra/src/sync/indexer/impl/memory/data-struct.ts:23-37 | succeeds exactly when every type is supported. Then each field gets an empty index of its kind. Otherwise it fails with the first unsupported type |
| InvertedIndexes.BuildIndexes | packages/common/infra/src/sync/indexer/impl/indexeddb/data-struct.ts:65-77 | the constructor's loop over the schema computes `IndexesFor` |
| InvertedIndexes.FreshIndexesUnique | packages/common/infra/src/sync/indexer/impl/memory/data-struct.ts:23-37 | the fresh indexes for a schema are unique |
| InvertedIndexes.AddPosting | packages/common/infra/src/sync/indexer/impl/memory/data-struct.ts:60 | `iidx.insert` appends one posting to that field's index only |
| Queries.AndAll | packages/common/infra/src/sync/indexer/impl/memory/data-struct.ts:93 | the and-reduce holds the nids found in every match |
| Queries.OrAll | packages/common/infra/src/sync/indexer/impl/memory/data-struct.ts:98 | the or-reduce holds the nids found in some match |
| Queries.QueryEach | packages/common/infra/src/sync/indexer/impl/memory/data-struct.ts:91 | evaluates the sub-queries in order. It succeeds exactly when all of them succeed, and otherwise fails with the first failure |
| Queries.QueryWithinUniverse | packages/common/infra/src/sync/indexer/impl/memory/data-struct.ts:83-104 | a query's result only holds nids from `matchAll` or from the postings |
| Queries.MustIsIntersection | packages/common/infra/src/sync/indexer/impl/memory/data-struct.ts:92-93 | `must` holds a nid exactly when every sub-query does |
| Queries.ShouldIsUnion | packages/common/infra/src/sync/indexer/impl/memory/data-struct.ts:97-98 | `should` holds a nid exactly when some sub-query does |
| Queries.MustNotIsComplement | packages/common/infra/src/sync/indexer/impl/memory/data-struct.ts:94-96 | `must_not` holds exactly the nids of `matchAll` that miss at least one sub-query; that is, it excludes the and-reduce |
| Queries.BooleanErrors | packages/common/infra/src/sync/indexer/impl/memory/data-struct.ts:90-103 | an empty boolean query fails, because `reduce` has no initial value. An unknown `occur` fails with "not supported". A failing sub-query's error propagates, the first such error winning |
| MemoryDataStruct.AddPostings | packages/common/infra/src/sync/indexer/impl/memory/data-struct.ts:53-61 | one posting per value goes to that field's index only |
| MemoryDataStruct.IndexFields | packages/common/infra/src/sync/indexer/impl/memory/data-struct.ts:52-62 | the field loop keeps the set of indexes and their fields |
| MemoryDataStruct.IndexFieldsNids | packages/common/infra/src/sync/indexer/impl/memory/data-struct.ts:52-62 | indexing a document adds postings only for its own nid |
| MemoryDataStruct.IndexFieldsSucceeds | packages/common/infra/src/sync/indexer/impl/memory/data-struct.ts:52-62 | the loop succeeds exactly when no field that has values lacks an index |
| MemoryDataStruct.IndexFieldsFails | packages/common/infra/src/sync/indexer/impl/memory/data-struct.ts:55-59 | a failure names the first field that has values and lacks an index |
| MemoryDataStruct.IndexFieldsPostings | packages/common/infra/src/sync/indexer/impl/memory/data-struct.ts:52-62 | on success, each field's index gains exactly one posting per value of the document's field |
| MemoryDataStruct.QuerySpec | packages/common/infra/src/sync/indexer/impl/memory/data-struct.ts:106-108 | `query` fails exactly when `queryRaw` does. It keeps the raw result's live nids and their scores, and never returns a deleted or unknown nid |
| MemoryDataStruct.InsertKeepsValid | packages/common/infra/src/sync/indexer/impl/memory/data-struct.ts:39-63 | insert, even one that throws part-way, keeps `idMap` and the records consistent, and postings below the record count |
| MemoryDataStruct.InsertNewId | packages/common/infra/src/sync/indexer/impl/memory/data-struct.ts:44-62 | a new id appends one live record with nid equal to the old length and maps the id to it, even when a later field throws. The insert throws exactly when some field with values has no index |
| MemoryDataStruct.InsertExistingId | packages/common/infra/src/sync/indexer/impl/memory/data-struct.ts:40-42 | inserting a known id throws "already exists" and changes nothing |
| MemoryDataStruct.InsertIndexesValues | packages/common/infra/src/sync/indexer/impl/memory/data-struct.ts:52-62 | a successful insert posts each value of each field under the new nid |
| MemoryDataStruct.DeleteKeepsValid | packages/common/infra/src/sync/indexer/impl/memory/data-struct.ts:65-73 | delete keeps the store consistent |
| MemoryDataStruct.DeleteTombstones | packages/common/infra/src/sync/indexer/impl/memory/data-struct.ts:65-73 | deleting an unknown id throws "not found" and changes nothing. Deleting a known id empties and flags that record only, and keeps `idMap` and the indexes. Afterwards `has` stays true and re-inserting the id throws |
| MemoryDataStruct.AllIsLive | packages/common/infra/src/sync/indexer/impl/memory/data-struct.ts:100-101 | the `all` query, after filtering, returns exactly the live nids, each scored 1 |
| MemoryDataStruct.DataStruct.Empty | packages/common/infra/src/sync/indexer/impl/memory/data-struct.ts:17-21 | a data struct over fresh indexes starts with no records and no ids |
| MemoryDataStruct.DataStruct.Create | packages/common/infra/src/sync/indexer/impl/memory/data-struct.ts:23-37 | the constructor throws the first unsupported field type. Otherwise it builds an empty store over `IndexesFor(schema)` |
| MemoryDataStruct.DataStruct.Insert | packages/common/infra/src/sync/indexer/impl/memory/data-struct.ts:39-63 | the in-place insert produces `InsertSpec`'s state and error |
| MemoryDataStruct.DataStruct.IndexValues | packages/common/infra/src/sync/indexer/impl/memory/data-struct.ts:53-61 | the per-value loop posts every value, or throws on the first value of a field with no index. A field with no values never throws |
| MemoryDataStruct.DataStruct.Delete | packages/common/infra/src/sync/indexer/impl/memory/data-struct.ts:65-73 | the in-place delete produces `DeleteSpec`'s state and error |
| MemoryDataStruct.DataStruct.MatchAll | packages/common/infra/src/sync/indexer/impl/memory/data-struct.ts:75-81 | the loop scores every nid from 0 to `records.length - 1` with 1, deleted ones included |
| Searching.WindowOf | packages/common/infra/src/sync/indexer/impl/memory/index.ts:48-51 | skip defaults to 0, and the limit to the given default; given values are used as they are |
| Searching.PageLaws | packages/common/infra/src/sync/indexer/impl/memory/index.ts:55-65 | the page is at most `limit` long and is the slice `[skip, skip+limit)` clipped to the list. `hasMore` holds exactly when items remain after the page |
| Searching.PageIsWindow | packages/common/infra/src/sync/indexer/impl/memory/index.ts:55-57 | the page is a contiguous run of the list from the resolved start, negative skips included |
| Searching.FieldOf | packages/common/infra/src/sync/indexer/impl/memory/index.ts:161-164 | a missing field reads as `''`, a one-element list collapses to its scalar, and any other list stays a list |
| Searching.FieldsOf | packages/common/infra/src/sync/indexer/impl/memory/index.ts:158-167 | exactly the requested fields, each read as `FieldOf` |
| Searching.HighlightsOf | packages/common/infra/src/sync/indexer/impl/memory/index.ts:169-179 | one entry per highlighted field |
| Searching.HighlightLastWins | packages/common/infra/src/sync/indexer/impl/memory/index.ts:169-179 | a field listed twice takes the result of its last option |
| Searching.NodeOf | packages/common/infra/src/sync/indexer/impl/memory/index.ts:153-181 | the node has the record's id and the match score. It has `fields` and `highlights` exactly when they were asked for, and each requested field reads as `FieldOf` |
| MemoryIndex.ResultNode | packages/common/infra/src/sync/indexer/impl/memory/index.ts:145-182 | the node of a nid has that record's id and score, and carries the requested fields |
| MemoryIndex.NodesOf | packages/common/infra/src/sync/indexer/impl/memory/index.ts:66 | one node per paged nid, in order |
| MemoryIndex.SearchPagination | packages/common/infra/src/sync/indexer/impl/memory/index.ts:59-65 | `count` is the match size and `hasMore` is `count > limit + skip`; skip and limit are echoed |
| MemoryIndex.SearchNodesBound | packages/common/infra/src/sync/indexer/impl/memory/index.ts:55-57 | at most `limit` nodes. `hasMore` holds exactly when `skip + nodes < count` |
| MemoryIndex.SearchNodesOrdered | packages/common/infra/src/sync/indexer/impl/memory/index.ts:55-57 | nodes come in non-increasing score order |
| MemoryIndex.SearchNodesLive | packages/common/infra/src/sync/indexer/impl/memory/index.ts:53-66 | there is one node per nid of the page of `toArray()`, in order. Each node has its nid's id and score, and that nid is a live record of the match |
| MemoryIndex.SearchNodesDistinct | packages/common/infra/src/sync/indexer/impl/memory/index.ts:55-66 | no id appears twice among the nodes |
| MemoryIndex.BucketResult | packages/common/infra/src/sync/indexer/impl/memory/index.ts:101-135 | a bucket reports its key, the score of its first nid, and its nid count. It has hits exactly when they were asked for |
| MemoryIndex.BucketResults | packages/common/infra/src/sync/indexer/impl/memory/index.ts:101-135 | one result per bucket, in order |
| MemoryIndex.BucketsFor | packages/common/infra/src/sync/indexer/impl/memory/index.ts:87-98 | every bucket is non-empty and names stored records |
| MemoryIndex.AggregateBuckets | packages/common/infra/src/sync/indexer/impl/memory/index.ts:87-141 | keys are distinct and are exactly the values visited while walking `toArray()`, in first-visit order. `count` is the number of distinct values. The page is the skip/limit slice. Each bucket's count is the number of visits of its key, and its score is the score of the first nid that visited it |
| MemoryIndex.AggregateHits | packages/common/infra/src/sync/indexer/impl/memory/index.ts:110-131 | per-bucket hits report the bucket's count, and hold at most the hit limit (default 3) |
| MemoryIndex.MemoryIndex.constructor | packages/common/infra/src/sync/indexer/impl/memory/index.ts:16 | a new index has no data |
| MemoryIndex.MemoryIndex.Initialize | packages/common/infra/src/sync/indexer/impl/memory/index.ts:26-29 | builds a fresh data struct for the schema, or throws the constructor's error |
| MemoryIndex.MemoryIndex.Write | packages/common/infra/src/sync/indexer/impl/memory/index.ts:31-34 | throws "not initialized" before `initialize`, and otherwise returns a fresh writer with empty buffers over the data |
| MemoryIndex.MemoryIndex.Has | packages/common/infra/src/sync/indexer/impl/memory/index.ts:36-39 | throws "not initialized" before `initialize`, and otherwise reports whether the id is in `idMap` |
| MemoryIndex.MemoryIndex.Search | packages/common/infra/src/sync/indexer/impl/memory/index.ts:41-68 | throws "not initialized" before `initialize`, and otherwise returns the query's search result |
| MemoryIndex.MemoryIndex.Aggregate | packages/common/infra/src/sync/indexer/impl/memory/index.ts:70-143 | throws "not initialized" before `initialize`. Otherwise the bucketing loops compute `AggregateIn` |
| MemoryIndex.BucketRecords | packages/common/infra/src/sync/indexer/impl/memory/index.ts:87-98 | the nested loop over nids and values builds `BucketsOf` of the visits |
| MemoryIndex.BucketValues | packages/common/infra/src/sync/indexer/impl/memory/index.ts:88-97 | the inner loop adds one record's values, one find-or-create-and-push at a time |
| MemoryIndex.DeleteAll | packages/common/infra/src/sync/indexer/impl/memory/index.ts:198-200 | the delete loop keeps the store consistent |
| MemoryIndex.InsertAll | packages/common/infra/src/sync/indexer/impl/memory/index.ts:201-203 | the insert loop keeps the store consistent |
| MemoryIndex.DeleteAllKeepsIds | packages/common/infra/src/sync/indexer/impl/memory/index.ts:198-200 | the deletes keep `idMap`. They succeed exactly when every id is known, and otherwise fail with "not found" |
| MemoryIndex.InsertAllAddsIds | packages/common/infra/src/sync/indexer/impl/memory/index.ts:201-203 | the inserts only add ids, and on success every inserted id is known |
| MemoryIndex.ReplaceThrows | packages/common/infra/src/sync/indexer/impl/memory/index.ts:197-205 | a commit that deletes and re-inserts a known id tombstones it and then throws "already exists" |
| MemoryIndex.CommitTwiceThrows | packages/common/infra/src/sync/indexer/impl/memory/index.ts:197-205 | the buffers are not cleared, so committing the same inserts twice throws "already exists" |
| MemoryIndex.DeleteEach | packages/common/infra/src/sync/indexer/impl/memory/index.ts:198-200 | the delete loop computes `DeleteAll` in place |
| MemoryIndex.InsertEach | packages/common/infra/src/sync/indexer/impl/memory/index.ts:201-203 | the insert loop computes `InsertAll` in place |
| MemoryIndex.MemoryIndexWriter.constructor | packages/common/infra/src/sync/indexer/impl/memory/index.ts:186-189 | a writer starts with empty buffers over the given data |
| MemoryIndex.MemoryIndexWriter.Insert | packages/common/infra/src/sync/indexer/impl/memory/index.ts:191-193 | only appends the document to the insert buffer |
| MemoryIndex.MemoryIndexWriter.Delete | packages/common/infra/src/sync/indexer/impl/memory/index.ts:194-196 | only appends the id to the delete buffer |
| MemoryIndex.MemoryIndexWriter.Commit | packages/common/infra/src/sync/indexer/impl/memory/index.ts:197-205 | applies all deletes, then all inserts, each in buffered order, stopping at the first throw |
| MemoryIndex.MemoryIndexWriter.Rollback | packages/common/infra/src/sync/indexer/impl/memory/index.ts:206 | changes nothing, not even the buffers |
| MemoryIndex.MemoryIndexWriter.Has | packages/common/infra/src/sync/indexer/impl/memory/index.ts:207-209 | reports whether the id is in the data's `idMap` |
| Buckets.FindBucket | packages/common/infra/src/sync/indexer/impl/memory/index.ts:89 | finds the first bucket with the key, or reports that there is none |
| Buckets.BucketsOf | packages/common/infra/src/sync/indexer/impl/memory/index.ts:87-98 | every bucket holds at least one nid |
| Buckets.BucketKeys | packages/common/infra/src/sync/indexer/impl/memory/index.ts:87-98 | bucket keys are distinct and are exactly the visited values |
| Buckets.BucketNids | packages/common/infra/src/sync/indexer/impl/memory/index.ts:87-98 | a bucket's nids are the nids that visited its key, in visit order, once per value |
| Buckets.BucketOrder | packages/common/infra/src/sync/indexer/impl/memory/index.ts:87-98 | buckets are ordered by the first visit of their key |
| Buckets.BucketCount | packages/common/infra/src/sync/indexer/impl/memory/index.ts:136-141 | the number of buckets is the number of distinct values |
| Buckets.FirstNidIsFirstVisit | packages/common/infra/src/sync/indexer/impl/memory/index.ts:110-111 | a bucket's first nid is the nid of its key's first visit |
| Buckets.BucketNidsBelow | packages/common/infra/src/sync/indexer/impl/memory/index.ts:87-98 | bucket nids come from the walked nids |
| IdbDataStruct.IdbIndexFields | packages/common/infra/src/sync/indexer/impl/indexeddb/data-struct.ts:129-137 | the field loop keeps the set of indexes and their fields |
| IdbDataStruct.IdbIndexFieldsFails | packages/common/infra/src/sync/indexer/impl/indexeddb/data-struct.ts:129-137 | it succeeds exactly when every field has an index, even a field with no values. A failure names the first field that lacks one |
| IdbDataStruct.IdbIndexFieldsNids | packages/common/infra/src/sync/indexer/impl/indexeddb/data-struct.ts:129-137 | indexing adds postings only for the new key |
| IdbDataStruct.IdbInsertKeepsValid | packages/common/infra/src/sync/indexer/impl/indexeddb/data-struct.ts:109-138 | insert keeps the unique id index consistent with the records |
| IdbDataStruct.IdbInsertNewId | packages/common/infra/src/sync/indexer/impl/indexeddb/data-struct.ts:124-137 | a new id is stored under the next auto-increment key and indexed. It throws exactly when some field has no index |
| IdbDataStruct.IdbDeleteRemoves | packages/common/infra/src/sync/indexer/impl/indexeddb/data-struct.ts:140-151 | deleting an absent id changes nothing. A present id's record is physically removed. Postings and the key generator are untouched |
| IdbDataStruct.DeleteAllRemoves | packages/common/infra/src/sync/indexer/impl/indexeddb/data-struct.ts:159-161 | after the deletes, every deleted id is gone and every other id stays |
| IdbDataStruct.ReplaceSucceeds | packages/common/infra/src/sync/indexer/impl/indexeddb/data-struct.ts:153-166 | a batch deleting and re-inserting an id succeeds and stores the document under a fresh key, unlike the memory backend |
| IdbDataStruct.KeysBelow | packages/common/infra/src/sync/indexer/impl/indexeddb/data-struct.ts:168-178 | the stored keys below a bound, ascending and distinct |
| IdbDataStruct.IdbQuerySpec | packages/common/infra/src/sync/indexer/impl/indexeddb/data-struct.ts:209-220 | `query` fails exactly when `queryRaw` does, and keeps exactly the raw result's nids whose record exists |
| IdbDataStruct.IdbAllIsStored | packages/common/infra/src/sync/indexer/impl/indexeddb/data-struct.ts:168-178 | the `all` query returns exactly the stored keys, and every known id's key among them |
| IdbDataStruct.IdbResultNode | packages/common/infra/src/sync/indexer/impl/indexeddb/data-struct.ts:377-417 | throws "record not found" exactly for a missing record. Otherwise the node has the record's id and score, and the requested fields as `FieldOf` |
| IdbDataStruct.ResultNodes | packages/common/infra/src/sync/indexer/impl/indexeddb/data-struct.ts:243-246 | succeeds exactly when all nids are stored, with one node each, in order |
| IdbDataStruct.ResultNodesSticky | packages/common/infra/src/sync/indexer/impl/indexeddb/data-struct.ts:243-246 | once a node fails, the rest of the loop does not change the error |
| IdbDataStruct.IdbSearchOk | packages/common/infra/src/sync/indexer/impl/indexeddb/data-struct.ts:222-257 | over a match of stored nids, search succeeds with the same pagination as the memory backend and one node per paged nid |
| IdbDataStruct.IdbSearchNodeFacts | packages/common/infra/src/sync/indexer/impl/indexeddb/data-struct.ts:239-256 | each node has its paged record's id and score |
| IdbDataStruct.IdsUnique | packages/common/infra/src/sync/indexer/impl/indexeddb/data-struct.ts:115-122 | the unique `id` index means no two stored records share an id |
| IdbDataStruct.IdbSearchBound | packages/common/infra/src/sync/indexer/impl/indexeddb/data-struct.ts:232-256 | at most `limit` nodes. `hasMore` holds exactly when `skip + nodes < count` |
| IdbDataStruct.IdbSearchOrdered | packages/common/infra/src/sync/indexer/impl/indexeddb/data-struct.ts:239-246 | nodes come in non-increasing score order |
| IdbDataStruct.IdbSearchDistinct | packages/common/infra/src/sync/indexer/impl/indexeddb/data-struct.ts:239-246 | no id appears twice among the nodes |
| IdbDataStruct.FindIndex | packages/common/infra/src/sync/indexer/impl/indexeddb/data-struct.ts:302 | `findIndex` gives the first bucket with the key, or -1 |
| IdbDataStruct.WindowStep | packages/common/infra/src/sync/indexer/impl/indexeddb/data-struct.ts:300-325 | one value either creates a bucket or fills an existing one |
| IdbDataStruct.WindowedAgrees | packages/common/infra/src/sync/indexer/impl/indexeddb/data-struct.ts:296-326 | the windowed walk creates the same buckets, in the same order, as the memory backend's bucketing. Buckets inside the page window collect exactly the memory backend's nids, and their hits are the nodes of the hit window's slice of those nids |
| IdbDataStruct.IdbAggregateCount | packages/common/infra/src/sync/indexer/impl/indexeddb/data-struct.ts:353-358 | the bucket-list `count` is the number of distinct values, and pagination is computed as in search |
| IdbDataStruct.IdbAggregateAt | packages/common/infra/src/sync/indexer/impl/indexeddb/data-struct.ts:328-352 | the i-th returned bucket is the walked bucket at `skip + i`, which lies inside the window |
| IdbDataStruct.IdbAggregateBucketAt | packages/common/infra/src/sync/indexer/impl/indexeddb/data-struct.ts:296-352 | the i-th returned bucket has the key and nid count of the memory-style bucket at `skip + i`, and the score of its first nid. Its hits are present exactly when asked for, report the bucket's count, and are the nodes of the hit window (default skip 0, limit 3) |
| IdbDataStruct.IdbAggregateLength | packages/common/infra/src/sync/indexer/impl/indexeddb/data-struct.ts:328-330 | the returned bucket list is as long as the page of the memory-style bucket list |
| IdbDataStruct.DataStruct.Empty | packages/common/infra/src/sync/indexer/impl/indexeddb/data-struct.ts:61-78 | a new data struct is not initialized; its stores are empty and its first key is 1 |
| IdbDataStruct.DataStruct.Initialize | packages/common/infra/src/sync/indexer/impl/indexeddb/data-struct.ts:80-107 | without cleanup it opens the stored database as it is. With cleanup it clears records and postings but keeps the key generator |
| IdbDataStruct.DataStruct.Insert | packages/common/infra/src/sync/indexer/impl/indexeddb/data-struct.ts:109-138 | throws "not initialized" before `initialize`, and otherwise produces `IdbInsertSpec`'s state and error |
| IdbDataStruct.DataStruct.IndexFields | packages/common/infra/src/sync/indexer/impl/indexeddb/data-struct.ts:129-137 | the field loop computes `IdbIndexFields` and touches only the indexes |
| IdbDataStruct.DataStruct.Delete | packages/common/infra/src/sync/indexer/impl/indexeddb/data-struct.ts:140-151 | throws "not initialized" before `initialize`, and otherwise never throws and produces `IdbDeleteSpec` |
| IdbDataStruct.DataStruct.BatchWrite | packages/common/infra/src/sync/indexer/impl/indexeddb/data-struct.ts:153-166 | throws "not initialized" before `initialize`. Otherwise it applies all deletes, then all inserts, in order |
| IdbDataStruct.DataStruct.DeleteEach | packages/common/infra/src/sync/indexer/impl/indexeddb/data-struct.ts:159-161 | the delete loop computes `DeleteAll` |
| IdbDataStruct.DataStruct.InsertEach | packages/common/infra/src/sync/indexer/impl/indexeddb/data-struct.ts:162-164 | the insert loop computes `InsertAll` |
| IdbDataStruct.DataStruct.MatchAll | packages/common/infra/src/sync/indexer/impl/indexeddb/data-struct.ts:168-178 | the cursor loop scores every stored key with 1 |
| IdbDataStruct.DataStruct.Search | packages/common/infra/src/sync/indexer/impl/indexeddb/data-struct.ts:222-257 | throws "not initialized" before `initialize`. Otherwise it gives the query's error or its search result |
| IdbDataStruct.DataStruct.Aggregate | packages/common/infra/src/sync/indexer/impl/indexeddb/data-struct.ts:259-360 | throws "not initialized" before `initialize`. Otherwise it gives the query's error or the windowed aggregate |
| IdbDataStruct.DataStruct.Has | packages/common/infra/src/sync/indexer/impl/indexeddb/data-struct.ts:362-367 | as written, once initialized it answers true for every id |
| IdbDataStruct.DataStruct.HasAwaited | packages/common/infra/src/sync/indexer/impl/indexeddb/data-struct.ts:362-367 | with the lookup awaited, it answers true exactly when a stored record has the id |
| IdbDataStruct.HasIgnoresStore | packages/common/infra/src/sync/indexer/impl/indexeddb/data-struct.ts:365-366 | for an absent id, the as-written `has` says true while the awaited one says false |
| IdbDataStruct.ReadNodes | packages/common/infra/src/sync/indexer/impl/indexeddb/data-struct.ts:243-246 | the node loop computes `ResultNodes`, stopping at the first missing record |
| IdbDataStruct.WindowedWalk | packages/common/infra/src/sync/indexer/impl/indexeddb/data-struct.ts:296-326 | the nested loop computes `WindowedBuckets` of the visits |
| IdbDataStruct.WindowedValues | packages/common/infra/src/sync/indexer/impl/indexeddb/data-struct.ts:300-325 | the inner loop adds one record's values step by step |
| Crawler.Step | packages/common/infra/src/sync/crawler/crawler.ts:24-50 | every call keeps job lists non-empty. A crawl removes the popped id's entry and hands its jobs on exactly when there are some. Other calls hand nothing on |
| Crawler.JobsArePending | packages/common/infra/src/sync/crawler/crawler.ts:24-44 | after any call sequence, an id's job list is the jobs requested since its last crawl or removal, in order. It has an entry exactly when that list is non-empty |
| Crawler.CrawlHandsPending | packages/common/infra/src/sync/crawler/crawler.ts:41-48 | a crawl hands on exactly the pending jobs of the popped id, if any, and leaves no entry |
| Crawler.PushUsesPriority | packages/common/infra/src/sync/crawler/crawler.ts:24-26 | a request queues the id at its set priority, or at 0 when none is set |
| Crawler.CrawlerScheduler.constructor | packages/common/infra/src/sync/crawler/crawler.ts:18-22 | a new scheduler has no queued ids, no jobs and no priorities |
| Crawler.CrawlerScheduler.RequestRevaluate | packages/common/infra/src/sync/crawler/crawler.ts:24-30 | pushes the id at its priority and appends one job, keeping the earlier ones |
| Crawler.CrawlerScheduler.SetPriority | packages/common/infra/src/sync/crawler/crawler.ts:32-34 | changes only the priority setting |
| Crawler.CrawlerScheduler.Remove | packages/common/infra/src/sync/crawler/crawler.ts:36-39 | removes the id from the queue and deletes its jobs |
| Crawler.CrawlerScheduler.Crawl | packages/common/infra/src/sync/crawler/crawler.ts:41-50 | deletes the popped id's entry, and hands its jobs to the crawler exactly when there are some |
| CollectionMeta.FindIndex | blocksuite/framework/store/src/store/meta.ts:188 | gives the first doc with the id, or -1 exactly when there is none |
| CollectionMeta.GetDocMeta | blocksuite/framework/store/src/store/meta.ts:171-173 | finds a doc exactly when one has the id; it is the first such doc |
| CollectionMeta.IdSetMembers | blocksuite/framework/store/src/store/meta.ts:136-143 | the id snapshot holds exactly the current ids, each once |
| CollectionMeta.AddedMembers | blocksuite/framework/store/src/store/meta.ts:138-141 | "added" is emitted for exactly the current ids that are not in the previous snapshot |
| CollectionMeta.RemovedMembers | blocksuite/framework/store/src/store/meta.ts:145-150 | "removed" is emitted for exactly the previous ids that are not current |
| CollectionMeta.DiffLaws | blocksuite/framework/store/src/store/meta.ts:133-155 | the handler's added and removed events and its new snapshot, stated together |
| CollectionMeta.DiffQuiet | blocksuite/framework/store/src/store/meta.ts:133-155 | a second run on unchanged docs emits nothing |
| CollectionMeta.InitializeLaws | blocksuite/framework/store/src/store/meta.ts:175-179 | `initialize` sets `pages` only if unset, keeps the docs, and is idempotent |
| CollectionMeta.AddDocMetaLaws | blocksuite/framework/store/src/store/meta.ts:157-169 | a no-op when `pages` is unset. Otherwise it inserts the doc at the end, or at the splice position of `index`, keeping the others in order |
| CollectionMeta.RemoveAbsentDocMeta | blocksuite/framework/store/src/store/meta.ts:183-191 | removing an absent id, or removing with `pages` unset, changes nothing |
| CollectionMeta.RemoveDocMetaLaws | blocksuite/framework/store/src/store/meta.ts:181-198 | removes only the first doc with the id, keeping the others in order |
| CollectionMeta.AddThenRemove | blocksuite/framework/store/src/store/meta.ts:157-198 | adding a doc with a new id and then removing that id restores the meta |
| CollectionMeta.SetDocMetaLaws | blocksuite/framework/store/src/store/meta.ts:206-221 | overwrites only the given keys of the first matching doc and changes no other doc |
| CollectionMeta.SetAbsentDocMeta | blocksuite/framework/store/src/store/meta.ts:207-214 | patching an absent id changes nothing |
| CollectionMeta.WriteVersionLaws | blocksuite/framework/store/src/store/meta.ts:237-261 | each version is written only if it was falsy, and never overwritten. A second call changes nothing |
| CollectionMeta.HasVersionLaws | blocksuite/framework/store/src/store/meta.ts:84-89 | true exactly when both versions are truthy and the block versions are non-empty. A fresh `writeVersion` with truthy constants makes it true |
| CollectionMeta.DocCollectionMeta.constructor | blocksuite/framework/store/src/store/meta.ts:119-127 | a new meta has nothing set and an empty snapshot |
| CollectionMeta.DocCollectionMeta.Initialize | blocksuite/framework/store/src/store/meta.ts:175-179 | updates the state as `Initialized` |
| CollectionMeta.DocCollectionMeta.AddDocMeta | blocksuite/framework/store/src/store/meta.ts:157-169 | updates the state as `WithDoc` |
| CollectionMeta.DocCollectionMeta.RemoveDocMeta | blocksuite/framework/store/src/store/meta.ts:181-198 | updates the state as `WithoutDoc` |
| CollectionMeta.DocCollectionMeta.SetDocMeta | blocksuite/framework/store/src/store/meta.ts:206-221 | updates the state as `WithPatch` |
| CollectionMeta.DocCollectionMeta.WriteVersion | blocksuite/framework/store/src/store/meta.ts:237-261 | updates the state as `Versioned` |
| CollectionMeta.DocCollectionMeta.HandleDocMetaEvent | blocksuite/framework/store/src/store/meta.ts:133-155 | returns the added and removed events, replaces the snapshot with the current ids, and changes nothing else |
| CollectionMeta.ScanDocs | blocksuite/framework/store/src/store/meta.ts:138-143 | the loop over doc metas computes the added events and the new snapshot |
| CollectionMeta.ScanSnapshot | blocksuite/framework/store/src/store/meta.ts:145-150 | the loop over the previous snapshot computes the removed events |
| OutlineQuery.NotesOf | blocksuite/presets/src/fragments/outline/utils/query.ts:33-46 | exactly the note children whose display mode is listed, in children order. Each item carries its child index and `index + 1` |
| OutlineQuery.GetNotesFromDoc | blocksuite/presets/src/fragments/outline/utils/query.ts:24-49 | no items without a root. Otherwise exactly the root's listed notes, with their indexes and numbers |
| OutlineQuery.KeepHeadings | blocksuite/presets/src/fragments/outline/utils/query.ts:64-74 | keeps exactly the heading paragraphs, and only those with text when `ignoreEmpty` is set |
| OutlineQuery.KeepAppend | blocksuite/presets/src/fragments/outline/utils/query.ts:64-74 | filtering a concatenation filters each part and joins them, so the kept headings stay in their order among the children |
| OutlineQuery.HeadingsOfNotesAppend | blocksuite/presets/src/fragments/outline/utils/query.ts:76-85 | the document's headings are the per-note lists concatenated in note order |
| OutlineQuery.HeadingsOfNotesMembers | blocksuite/presets/src/fragments/outline/utils/query.ts:76-85 | a block is among the headings exactly when it is a kept child of a listed note |
| OutlineQuery.IgnoreEmptyFilters | blocksuite/presets/src/fragments/outline/utils/query.ts:68-72 | with `ignoreEmpty`, the result is the result without it, filtered to blocks with text |
| OutlineQuery.HeadingsOfDocMembers | blocksuite/presets/src/fragments/outline/utils/query.ts:76-85 | no headings without a root. Otherwise a block is a heading exactly when it is a kept child of a listed root child |
| OutlinePanel.DraggedBlocks | blocksuite/presets/src/fragments/outline/body/outline-panel-body.ts:269-271 | the dragged blocks are the selected notes in selection order. An id missing from the map throws |
| OutlinePanel.TargetIndex | blocksuite/presets/src/fragments/outline/body/outline-panel-body.ts:273-274 | `notes[index].index`, or the last note's `index + 1` when `index == notes.length`; any other index throws |
| OutlinePanel.MoveLayout | blocksuite/presets/src/fragments/outline/body/outline-panel-body.ts:267-282 | does nothing with no children or no root. Otherwise the new children are the non-dragged children before the target, then the dragged blocks, then the non-dragged children from the target on |
| OutlinePanel.MoveKeepsOrder | blocksuite/presets/src/fragments/outline/body/outline-panel-body.ts:276-282 | non-dragged children keep their relative order |
| OutlinePanel.MovePermutes | blocksuite/presets/src/fragments/outline/body/outline-panel-body.ts:276-282 | when the dragged blocks are distinct children, the new list is a permutation of the children |
| OutlinePanel.SelectionLaws | blocksuite/presets/src/fragments/outline/body/outline-panel-body.ts:382-390 | deselect removes every occurrence of the id, multiselect appends it, and single select replaces the list with `[id]` |
| OutlinePanel.OutlinePanelBody.constructor | blocksuite/presets/src/fragments/outline/body/outline-panel-body.ts:260-267 | a panel over a root starts with empty selections |
| OutlinePanel.OutlinePanelBody.MoveNotes | blocksuite/presets/src/fragments/outline/body/outline-panel-body.ts:260-287 | writes the moved children into the root, or leaves it untouched when nothing moves or the move throws; the selections are unchanged |
| OutlinePanel.OutlinePanelBody.SelectNote | blocksuite/presets/src/fragments/outline/body/outline-panel-body.ts:379-400 | writes the new selection to the edgeless selection in edgeless mode, and otherwise to the selected-notes signal; nothing else changes |
| FriendlyErrors.NewErrorLaws | packages/backend/server/src/fundamentals/error/def.ts:47-61 | status comes from the options, defaulting to 400. The message is the formatter's result or the fixed string. Code, type and data are stored as given. An unknown code fails |
| FriendlyErrors.JsonLaws | packages/backend/server/src/fundamentals/error/def.ts:63-72 | `statusCode` is the status, and the status text falls back to `'BAD REQUEST'`. Code and type are upper-cased: same length, no lower-case letter, and lower-casing restores lower-case inputs. Message and data are kept |
| FriendlyErrors.UpperCase | packages/backend/server/src/fundamentals/error/def.ts:67-68 | upper-cases character by character, keeping the length |
| FriendlyErrors.ClassNameIsDirect | packages/backend/server/src/fundamentals/error/def.ts:120-123 | split, capitalize each part and join equals a single pass that drops each `_` and upper-cases the next character |
| FriendlyErrors.GlueSplit | packages/backend/server/src/fundamentals/error/def.ts:120-123 | joining the capitalized parts of a split is that single pass, from any starting state |
| FriendlyErrors.ClassNameShape | packages/backend/server/src/fundamentals/error/def.ts:120-123 | a class name has no `_` and is shorter than its code by the number of `_` |
| FriendlyErrors.ClassNameExample | packages/backend/server/src/fundamentals/error/errors.gen.ts:6 | `internal_server_error` becomes `InternalServerError` |
| FriendlyErrors.ArgLinesShape | packages/backend/server/src/fundamentals/error/def.ts:85-99 | the lines are the nested sub-type definitions in reverse order (each was prepended), then the header, then one field line per argument in order |
| FriendlyErrors.GenerateErrorArgs | packages/backend/server/src/fundamentals/error/def.ts:83-104 | the loop with `unshift`/`push` computes `ArgsDef`, named `name + 'DataType'` |
| FriendlyErrors.ErrorNamesInOrder | packages/backend/server/src/fundamentals/error/def.ts:117-125 | the `Errors` enum lists each code's class name in definition order |
| FriendlyErrors.ArgTypesOnlyWithArgs | packages/backend/server/src/fundamentals/error/def.ts:127-141 | the union lists `<ClassName>DataType` for exactly the codes with `args` |
| FriendlyErrors.ArgTypesInOrder | packages/backend/server/src/fundamentals/error/def.ts:127-141 | the union's members follow table order: each belongs to an entry with `args`, those entries strictly increase, and every such entry has one |
| FriendlyErrors.EntryChunksShape | packages/backend/server/src/fundamentals/error/def.ts:127-142 | a code without args emits its class only. A code with args emits its args definition, then its class |
| FriendlyErrors.EmitEntry | packages/backend/server/src/fundamentals/error/def.ts:117-143 | one loop step extends the output, enum names and union types by one code |
| FriendlyErrors.GenerateUserFriendlyErrors | packages/backend/server/src/fundamentals/error/def.ts:106-163 | the generator's loop computes `Generated(table)` |
| WorkflowNodes.AddEdgeLaws | packages/backend/server/src/plugins/copilot/workflow/node.ts:68-82 | a basic node with an edge throws, and a decision node without a condition throws. A throw changes nothing. Otherwise the target is appended and the new edge count returned |
| WorkflowNodes.WithParentLaws | packages/backend/server/src/plugins/copilot/workflow/node.ts:62-66 | the parent setter adds a node only if absent. It keeps parents distinct and is idempotent |
| WorkflowNodes.AddEdgesLaws | packages/backend/server/src/plugins/copilot/workflow/node.ts:68-82 | repeated `addEdge` keeps a basic node at one edge at most. A decision node with a condition takes every edge |
| WorkflowNodes.FirstEdge | packages/backend/server/src/plugins/copilot/workflow/node.ts:117 | `edges[0]`, or nothing without edges |
| WorkflowNodes.FindEdge | packages/backend/server/src/plugins/copilot/workflow/node.ts:125 | the first edge with the id, or -1 exactly when none has it |
| WorkflowNodes.NextRunLaws | packages/backend/server/src/plugins/copilot/workflow/node.ts:110-145 | for whatever `evaluateCondition` gave, so both for `next` as written and with the condition awaited: StartRun comes first, and on success EndRun comes last and only there. A throw leaves only StartRun. A basic node throws exactly when it has no executor; otherwise it runs StartRun, the executor's items, then EndRun with `edges[0]` |
| WorkflowNodes.DecisionLaws | packages/backend/server/src/plugins/copilot/workflow/node.ts:94-129 | with the condition awaited: a throw propagates. A non-empty string picks the first edge with that id and throws when there is none. Any other result keeps `edges[0]` |
| WorkflowNodes.AsWrittenRun | packages/backend/server/src/plugins/copilot/workflow/node.ts:110-129 | `next` as written, for a decision node: whatever the worker does, it never throws and yields StartRun, then EndRun with `edges[0]` |
| WorkflowNodes.AsWrittenIgnoresCondition | packages/backend/server/src/plugins/copilot/workflow/node.ts:89-107 | as written, the next node is always `edges[0]`, whatever the condition returns |
| WorkflowNodes.SecondEdgeChoice | packages/backend/server/src/plugins/copilot/workflow/node.ts:89-125 | a condition naming the second of two edges: as written the node goes to the first edge, and awaited it goes to the second |
| WorkflowNodes.WorkflowNode.constructor | packages/backend/server/src/plugins/copilot/workflow/node.ts:24-39 | once a basic node's executor type is found in the registry: no edges, no parents, the invariant, and an executor exactly for a basic node |
| WorkflowNodes.ExecutorLookup | packages/backend/server/src/plugins/copilot/workflow/executor/utils.ts:11-20 | "Executor <type> not defined" exactly for a type not in the registry |
| WorkflowNodes.NewNode | packages/backend/server/src/plugins/copilot/workflow/node.ts:24-27 | `new WorkflowNode(data)` throws "Executor <type> not defined" exactly for a basic node of an unregistered type. Otherwise it builds a fresh valid node with no edges or parents, holding an executor exactly when basic |
| WorkflowNodes.WorkflowNode.HasEdges | packages/backend/server/src/plugins/copilot/workflow/node.ts:57-60 | true exactly when there is an edge |
| WorkflowNodes.WorkflowNode.SetParent | packages/backend/server/src/plugins/copilot/workflow/node.ts:62-66 | adds the parent as `WithParent`, keeping the edges and the node's validity |
| WorkflowNodes.WorkflowNode.AddEdge | packages/backend/server/src/plugins/copilot/workflow/node.ts:68-82 | updates the edges as `AddEdgeStep`. On success the target gains this node as a parent and `hasEdges` holds; on a throw the target is untouched |
| WorkflowNodes.WorkflowNode.Next | packages/backend/server/src/plugins/copilot/workflow/node.ts:110-145 | the corrected `next`, with the condition awaited (see "## Findings"): yields `NextRun` of the node's data, executor, edges and `EvaluateCondition` of the outcome. On a valid node it never throws "not initialized" |

## Left out

- I/O and asynchrony. IndexedDB `openDB`, upgrades, transactions and `await` are left out, and each operation runs to completion on map-valued stores. The database an IndexedDB `initialize` opens is a parameter. The `kvMetadata` store is never read by the modelled operations.
- Transaction atomicity. A throw inside `batchWrite` leaves the writes made before it in the model; whether the transaction aborts them is not modelled.
- `IndexedDBIndexWriter` (`indexeddb/index.ts`) is not part of this model. Its commit is modelled by `DataStruct.BatchWrite`.
- `match.ts` and `inverted-index.ts` are not part of this model. `Match` is a concrete stand-in, with `toArray` ordered by descending score and then ascending nid. Index `match` is a lookup parameter, and highlighters are a function parameter.
- Unicode. The `\p{Z}`/`\p{P}` tests and `toLowerCase` in the tokenizer are parameters (`CharTables`). A `char` stands for one UTF-16 code unit.
- FriendlyErrors.JsonLaws: `toUpperCase` is modelled on ASCII letters only, which is all the table's codes and types use. Lodash `capitalize` and Node's `STATUS_CODES` are parameters.
- The error table itself (`def.ts` lines 166-294) is a parameter: its entries are data, not logic.
- The crawler's `AsyncPriorityQueue` is not part of this model. The scheduler records what it pushes, removes and pops, and `crawl` takes the popped id as a parameter. `Date.now()` is a parameter. What the crawler callback does, including re-entrant calls into the scheduler, is left out.
- DocCollectionMeta's Yjs map, proxy, transactions and event emitters are plain fields, and the emitted events are return values. The name, avatar and properties setters and `_handleCommonFieldsEvent` only forward values and are left out. `writeVersion`'s collection versions and flavour map are parameters, and the `console.error` messages are left out.
- The outline panel's rendering, DOM, signals and edgeless detection are left out. Edgeless mode is an input of `SelectNote`. Blocks are values, so block identity is value equality.
- OutlinePanel.MovePermutes: the permutation is proved only when the dragged blocks are distinct members of the children, which is how the panel calls it.
- IdbDataStruct.IdbAggregateAt, IdbDataStruct.IdbAggregateBucketAt, IdbDataStruct.IdbAggregateLength: these relate the windowed walk to memory-style buckets only for non-negative skip and limit. The operation itself is modelled for every window.
- MemoryIndex.SearchNodesBound, MemoryIndex.AggregateHits, IdbDataStruct.IdbSearchBound: the length bound is stated for a non-negative limit only, since JavaScript `slice` reads a negative end from the back.
- The workflow node's Piscina worker and the `params`/`options` of `next` are left out. The executor registry is the set of registered executor types, and the executor's stream is the parameter `executed`. The constructor's one-argument call `getWorkflowExecutor(data.type)` is modelled on the synchronous lookup in `executor/utils.ts`; the two-argument async lookup in `executor/index.ts` is not part of this model. The third branch of `next` (content pass-through) is unreachable with two node types and is left out. The logger is left out.
- WorkflowNodes.WorkflowNode.constructor: a Dafny constructor cannot throw, so it requires a basic node's executor type to be registered. `NewNode` models the whole `new WorkflowNode(data)`, including the "Executor <type> not defined" throw for an unregistered type. Every node built this way holds its executor, so the "not initialized" throw in `next` (node.ts:131-133) cannot happen on such a node; `NextRun` keeps that branch only as the source writes it.
- The memory `Document` object shared by reference between the writer's buffer and the stored record is modelled by value. Inserting into a document after committing it does not reach the store in the model.

## Findings

| source | as written | input that shows it | evidently intended | confidence | as-written member | corrected member |
|---|---|---|---|---|---|---|
| packages/common/infra/src/sync/indexer/impl/indexeddb/data-struct.ts:365-366 | `getKey(id)` is not awaited, so `nid` is a Promise and `nid !== undefined` is always true | `has("x")` on an initialized, empty store answers true | true exactly when a record with the id is stored | high (not executed) | IdbDataStruct.DataStruct.Has, IdbDataStruct.HasIgnoresStore | IdbDataStruct.DataStruct.HasAwaited |
| packages/backend/server/src/plugins/copilot/workflow/node.ts:89-107 | `worker.run(...)` is not awaited, so `chooseNode` is a Promise; the string test fails and the condition's choice is discarded | a decision node with edges `a`, `b` whose condition returns `"b"` goes to `a` | the node goes to the edge the condition names, throwing if there is none | high (not executed) | WorkflowNodes.EvaluateConditionAsWritten, WorkflowNodes.AsWrittenIgnoresCondition, WorkflowNodes.AsWrittenRun, WorkflowNodes.SecondEdgeChoice | WorkflowNodes.EvaluateCondition, WorkflowNodes.DecisionLaws |
