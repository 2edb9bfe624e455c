/**
 * The in-memory indexer backend (`MemoryIndex`) and its writer (`MemoryIndexWriter`).
 *
 * `search` pages the query's `toArray()` and turns each nid into a node; `aggregate` walks the
 * same list, buckets the records by the values of one field and pages the buckets. The writer
 * buffers inserts and deletes and applies them to the shared `DataStruct` on `commit`.
 */
module MemoryIndex {
  import opened Wrappers
  import opened Matching
  import opened InvertedIndexes
  import opened Searching
  import opened Queries
  import opened Documents
  import opened Buckets
  import opened MemoryDataStruct

  /** Every nid names a record slot of the store. */
  predicate InStore(s: Store, nids: seq<Nid>) {
    forall i :: 0 <= i < |nids| ==> nids[i] < |s.records|
  }

  /** `resultNode(match, nid, options)` on the record at `nid`. */
  function ResultNode(s: Store, m: ValidMatch, nid: Nid, options: SearchOptions, highlight: Highlighter): (r: SearchNode)
    requires nid < |s.records|
    ensures r.id == s.records[nid].id && r.score == GetScore(m, nid)
    ensures r.fields.Some? <==> options.fields.Some?
    ensures options.fields.Some? ==> forall f :: f in options.fields.value ==>
      f in r.fields.value && r.fields.value[f] == FieldOf(s.records[nid].data, f)
  {
    NodeOf(s.records[nid].id, GetScore(m, nid), s.records[nid].data, options, h => highlight(nid, h))
  }

  /** `nids.map(nid => resultNode(match, nid, options))`. */
  function NodesOf(s: Store, m: ValidMatch, nids: seq<Nid>, options: SearchOptions, highlight: Highlighter): (r: seq<SearchNode>)
    requires InStore(s, nids)
    ensures |r| == |nids|
    ensures forall i :: 0 <= i < |nids| ==> r[i].id == s.records[nids[i]].id && r[i].score == GetScore(m, nids[i])
  {
    seq(|nids|, i requires 0 <= i < |nids| => ResultNode(s, m, nids[i], options, highlight))
  }

  /** The nids of a live match, in `toArray()` order, all name records of the store. */
  lemma MatchInStore(s: Store, m: ValidMatch)
    requires LiveMatch(s, m)
    ensures InStore(s, ToArray(m))
  {
    var all := ToArray(m);
    forall i | 0 <= i < |all|
      ensures all[i] < |s.records|
    {
      assert all[i] in all;
    }
  }

  /** A page of nids in the store is in the store. */
  lemma PageInStore(s: Store, nids: seq<Nid>, w: Window)
    requires InStore(s, nids)
    ensures InStore(s, Page(nids, w))
  {
    var p := Page(nids, w);
    forall i | 0 <= i < |p|
      ensures p[i] < |s.records|
    {
      assert p[i] in nids;
    }
  }

  /** `search` once the query has produced its match `m`. */
  function SearchOf(s: Store, m: ValidMatch, options: SearchOptions, highlight: Highlighter): SearchResult
    requires LiveMatch(s, m)
  {
    MatchInStore(s, m);
    var w := WindowOf(options.pagination, DefaultLimit);
    PageInStore(s, ToArray(m), w);
    SearchResult(PaginationOf(Size(m), w), NodesOf(s, m, Page(ToArray(m), w), options, highlight))
  }

  /** `search(query, options)` on an initialised index: the query's error, or its result. */
  function SearchIn(s: Store, q: Query, options: SearchOptions, lookup: Lookup, highlight: Highlighter)
    : Result<SearchResult, Error>
  {
    match QuerySpec(s, q, lookup)
    case Err(e) => Err(e)
    case Ok(m) => Ok(SearchOf(s, m, options, highlight))
  }

  /**
   * A search's `count` is the number of matching live records and `hasMore` says whether any lie
   * past `skip + limit` (skip 0 and limit 100 when absent).
   */
  lemma SearchPagination(s: Store, m: ValidMatch, options: SearchOptions, highlight: Highlighter)
    requires LiveMatch(s, m)
    ensures var p := SearchOf(s, m, options, highlight).pagination;
      var w := WindowOf(options.pagination, DefaultLimit);
      && p.count == |Members(m)|
      && (p.hasMore <==> p.count > w.limit + w.skip)
      && p.limit == w.limit && p.skip == w.skip
  {
    SizeIsCardinality(m);
  }

  /**
   * A search returns at most `limit` nodes; with a non-negative skip and limit, `hasMore` says
   * whether the match goes on past them.
   */
  lemma SearchNodesBound(s: Store, m: ValidMatch, options: SearchOptions, highlight: Highlighter)
    requires LiveMatch(s, m)
    ensures var r := SearchOf(s, m, options, highlight);
      var w := WindowOf(options.pagination, DefaultLimit);
      && (0 <= w.limit ==> |r.nodes| <= w.limit)
      && (0 <= w.skip && 0 <= w.limit ==> (r.pagination.hasMore <==> w.skip + |r.nodes| < r.pagination.count))
  {
    var w := WindowOf(options.pagination, DefaultLimit);
    SizeIsCardinality(m);
    if 0 <= w.limit {
      PageLaws(ToArray(m), w);
    }
  }

  /** A search's nodes come in `toArray()` order, so their scores never increase. */
  lemma SearchNodesOrdered(s: Store, m: ValidMatch, options: SearchOptions, highlight: Highlighter)
    requires LiveMatch(s, m)
    ensures var r := SearchOf(s, m, options, highlight);
      forall i, j :: 0 <= i < j < |r.nodes| ==> r.nodes[i].score >= r.nodes[j].score
  {
    PageKeepsOrder(ToArray(m), WindowOf(options.pagination, DefaultLimit), (x, y) => GetScore(m, x) >= GetScore(m, y));
  }


  /** `node` is the node of the live record `n` of the match. */
  predicate NodeOfLive(s: Store, m: ValidMatch, node: SearchNode, n: Nid) {
    n in Members(m) && n < |s.records| && !s.records[n].deleted &&
    node.id == s.records[n].id && node.score == GetScore(m, n)
  }

  /**
   * Each node of a search is the node of the nid at the same place in the page of the match's
   * `toArray()`, and that nid is a live record of the match.
   */
  lemma SearchNodesLive(s: Store, m: ValidMatch, options: SearchOptions, highlight: Highlighter)
    requires LiveMatch(s, m)
    ensures var r := SearchOf(s, m, options, highlight);
      var nids := Page(ToArray(m), WindowOf(options.pagination, DefaultLimit));
      |r.nodes| == |nids| && forall i :: 0 <= i < |r.nodes| ==> NodeOfLive(s, m, r.nodes[i], nids[i])
  {
    var nids := Page(ToArray(m), WindowOf(options.pagination, DefaultLimit));
    var r := SearchOf(s, m, options, highlight);
    forall i | 0 <= i < |r.nodes|
      ensures NodeOfLive(s, m, r.nodes[i], nids[i])
    {
      assert nids[i] in nids;
      assert nids[i] in ToArray(m);
    }
  }

  /** In a valid store a search never returns the same document twice. */
  lemma SearchNodesDistinct(s: Store, m: ValidMatch, options: SearchOptions, highlight: Highlighter)
    requires StoreValid(s) && LiveMatch(s, m)
    ensures var r := SearchOf(s, m, options, highlight);
      forall i, j :: 0 <= i < j < |r.nodes| ==> r.nodes[i].id != r.nodes[j].id
  {
    var nids := Page(ToArray(m), WindowOf(options.pagination, DefaultLimit));
    var r := SearchOf(s, m, options, highlight);
    PageKeepsOrder(ToArray(m), WindowOf(options.pagination, DefaultLimit), (x, y) => x != y);
    forall i, j | 0 <= i < j < |r.nodes|
      ensures r.nodes[i].id != r.nodes[j].id
    {
      assert nids[i] != nids[j];
    }
  }


  /** `data.records[nid].data.get(field) ?? []`. */
  function ValuesOf(s: Store, nid: Nid, field: string): seq<string>
    requires nid < |s.records|
  {
    if field in s.records[nid].data then s.records[nid].data[field] else []
  }

  /** The visits of `aggregate`'s nested loop: record by record, each value of `field` in turn. */
  function EntriesOf(s: Store, nids: seq<Nid>, field: string): (r: seq<Entry>)
    requires InStore(s, nids)
    ensures forall i :: 0 <= i < |r| ==> r[i].0 in nids
  {
    if nids == [] then []
    else
      var last := nids[|nids| - 1];
      var init := EntriesOf(s, nids[..|nids| - 1], field);
      assert forall i :: 0 <= i < |init| ==> init[i].0 in nids;
      init + Visit(last, ValuesOf(s, last, field))
  }

  /** A bucket as returned: its key, the score of its first nid, its size and, if asked, a page of hits. */
  function BucketResult(s: Store, m: ValidMatch, b: Bucket, hits: Option<SearchOptions>, highlight: Highlighter)
    : (r: AggregateBucket)
    requires b.nids != [] && InStore(s, b.nids)
    ensures r.key == b.key && r.score == GetScore(m, b.nids[0]) && r.count == |b.nids|
    ensures r.hits.Some? <==> hits.Some?
  {
    AggregateBucket(
      b.key, GetScore(m, b.nids[0]), |b.nids|,
      if hits.None? then None
      else
        var hw := WindowOf(hits.value.pagination, DefaultHitsLimit);
        PageInStore(s, b.nids, hw);
        Some(SearchResult(PaginationOf(|b.nids|, hw), NodesOf(s, m, Page(b.nids, hw), hits.value, highlight))))
  }

  /** Every bucket of the page, as returned. */
  function BucketResults(s: Store, m: ValidMatch, bs: seq<Bucket>, hits: Option<SearchOptions>, highlight: Highlighter)
    : (r: seq<AggregateBucket>)
    requires forall b :: b in bs ==> b.nids != [] && InStore(s, b.nids)
    ensures |r| == |bs|
    ensures forall i :: 0 <= i < |bs| ==> r[i] == BucketResult(s, m, bs[i], hits, highlight)
  {
    seq(|bs|, i requires 0 <= i < |bs| => BucketResult(s, m, bs[i], hits, highlight))
  }

  /** The buckets of a query's live records by the values of `field`. */
  function BucketsFor(s: Store, m: ValidMatch, field: string): (r: seq<Bucket>)
    requires InStore(s, ToArray(m))
    ensures forall b :: b in r ==> b.nids != [] && InStore(s, b.nids)
  {
    var es := EntriesOf(s, ToArray(m), field);
    BucketNidsBelow(es, |s.records|);
    assert forall b, i :: b in BucketsOf(es) && 0 <= i < |b.nids| ==> b.nids[i] in b.nids;
    BucketsOf(es)
  }

  /** `aggregate` once the query has produced its match `m`. */
  function AggregateOf(s: Store, m: ValidMatch, field: string, options: AggregateOptions, highlight: Highlighter)
    : AggregateResult
    requires LiveMatch(s, m)
  {
    MatchInStore(s, m);
    var bs := BucketsFor(s, m, field);
    var w := WindowOf(options.pagination, DefaultLimit);
    AggregateResult(BucketResults(s, m, Page(bs, w), options.hits, highlight), PaginationOf(|bs|, w))
  }

  /** `aggregate(query, field, options)` on an initialised index: the query's error, or its result. */
  function AggregateIn(s: Store, q: Query, field: string, options: AggregateOptions, lookup: Lookup, highlight: Highlighter)
    : Result<AggregateResult, Error>
  {
    match QuerySpec(s, q, lookup)
    case Err(e) => Err(e)
    case Ok(m) => Ok(AggregateOf(s, m, field, options, highlight))
  }

  /**
   * An aggregate has one bucket per distinct value of `field` among the matching records (that is
   * its `count`), ordered by where each value first appears in `toArray()` order. A returned bucket
   * counts the records pushed under its value (a record once per value it holds) and is scored by
   * the record of the value's first appearance; hits are present exactly when asked for.
   */
  lemma AggregateBuckets(s: Store, m: ValidMatch, field: string, options: AggregateOptions, highlight: Highlighter)
    requires LiveMatch(s, m) && InStore(s, ToArray(m))
    ensures var r := AggregateOf(s, m, field, options, highlight);
      var es := EntriesOf(s, ToArray(m), field);
      var bs := BucketsOf(es);
      && r.pagination.count == |ValuesVisited(es)|
      && UniqueKeys(bs)
      && (forall v :: (exists i :: 0 <= i < |bs| && bs[i].key == v) <==> Visits(es, v))
      && (forall i, j :: 0 <= i < j < |bs| ==> FirstVisit(es, bs[i].key) < FirstVisit(es, bs[j].key))
      && |r.buckets| == |Page(bs, WindowOf(options.pagination, DefaultLimit))|
      && (forall i :: 0 <= i < |r.buckets| ==>
            && r.buckets[i].key == Page(bs, WindowOf(options.pagination, DefaultLimit))[i].key
            && Visits(es, r.buckets[i].key)
            && r.buckets[i].count == |NidsWithKey(es, r.buckets[i].key)|
            && r.buckets[i].score == GetScore(m, es[FirstVisit(es, r.buckets[i].key)].0)
            && (r.buckets[i].hits.Some? <==> options.hits.Some?))
  {
    var es := EntriesOf(s, ToArray(m), field);
    var bs := BucketsOf(es);
    var w := WindowOf(options.pagination, DefaultLimit);
    var r := AggregateOf(s, m, field, options, highlight);
    assert bs == BucketsFor(s, m, field);
    BucketCount(es);
    BucketKeys(es);
    BucketNids(es);
    BucketOrder(es);
    PageIsWindow(bs, w);
    var a := JsArrays.RelativeIndex(w.skip, |bs|);
    forall i | 0 <= i < |r.buckets|
      ensures && Visits(es, r.buckets[i].key)
              && r.buckets[i].count == |NidsWithKey(es, r.buckets[i].key)|
              && r.buckets[i].score == GetScore(m, es[FirstVisit(es, r.buckets[i].key)].0)
    {
      assert Page(bs, w)[i] == bs[a + i];
      ReturnedBucket(s, m, es, bs[a + i], options.hits, highlight);
    }
  }

  /** A bucket of the walk, as returned: its count and its score come from the walk's visits of its key. */
  lemma ReturnedBucket(s: Store, m: ValidMatch, es: seq<Entry>, b: Bucket, hits: Option<SearchOptions>, highlight: Highlighter)
    requires b.nids != [] && InStore(s, b.nids)
    requires Visits(es, b.key) && b.nids == NidsWithKey(es, b.key)
    ensures var r := BucketResult(s, m, b, hits, highlight);
      && Visits(es, r.key)
      && r.count == |NidsWithKey(es, r.key)|
      && r.score == GetScore(m, es[FirstVisit(es, r.key)].0)
  {
    FirstNidIsFirstVisit(es, b.key);
  }

  /**
   * Each page of hits holds at most its limit (3 by default) of the bucket's records, and its
   * `count` is the bucket's size.
   */
  lemma AggregateHits(s: Store, m: ValidMatch, field: string, options: AggregateOptions, highlight: Highlighter)
    requires LiveMatch(s, m) && InStore(s, ToArray(m))
    requires options.hits.Some?
    ensures var r := AggregateOf(s, m, field, options, highlight);
      var hw := WindowOf(options.hits.value.pagination, DefaultHitsLimit);
      forall i :: 0 <= i < |r.buckets| ==>
        && r.buckets[i].hits.value.pagination.count == r.buckets[i].count
        && (0 <= hw.limit ==> |r.buckets[i].hits.value.nodes| <= hw.limit)
  {
    var r := AggregateOf(s, m, field, options, highlight);
    var hw := WindowOf(options.hits.value.pagination, DefaultHitsLimit);
    var bs := BucketsFor(s, m, field);
    var w := WindowOf(options.pagination, DefaultLimit);
    forall i | 0 <= i < |r.buckets|
      ensures && r.buckets[i].hits.value.pagination.count == r.buckets[i].count
              && (0 <= hw.limit ==> |r.buckets[i].hits.value.nodes| <= hw.limit)
    {
      var b := Page(bs, w)[i];
      if 0 <= hw.limit {
        PageLaws(b.nids, hw);
      }
    }
  }

  /** The backend: `data` is `null` until `initialize`. */
  class MemoryIndex {
    var data: DataStruct?

    ghost predicate Valid()
      reads this, data
    {
      data != null ==> data.Valid()
    }

    constructor()
      ensures data == null && Valid()
    {
      data := null;
    }

    /**
     * `initialize(schema)`: a fresh, empty `DataStruct` for the schema. An unsupported field type
     * throws before the assignment, leaving the index as it was.
     */
    method Initialize(schema: Schema) returns (err: Option<Error>)
      requires DistinctFields(schema)
      requires Valid()
      modifies this
      ensures Valid()
      ensures IndexesFor(schema).Ok? ==>
        err.None? && data != null && fresh(data) && data.State() == Store([], map[], IndexesFor(schema).value)
      ensures IndexesFor(schema).Err? ==> err == Some(IndexesFor(schema).error) && data == old(data)
    {
      var r := DataStruct.Create(schema);
      if r.Err? {
        return Some(r.error);
      }
      data := r.value;
      return None;
    }

    /** `write()`: a writer on this index's `DataStruct`, with empty buffers. */
    method Write() returns (r: Result<MemoryIndexWriter, Error>)
      ensures data == null ==> r == Err(NotInitialized)
      ensures data != null ==>
        r.Ok? && fresh(r.value) && r.value.data == data && r.value.inserts == [] && r.value.deletes == []
    {
      if data == null {
        return Err(NotInitialized);
      }
      var w := new MemoryIndexWriter(data);
      return Ok(w);
    }

    /** `has(id)`. */
    function Has(id: string): (r: Result<bool, Error>)
      reads this, data
      ensures data == null ==> r == Err(NotInitialized)
      ensures data != null ==> r == Ok(id in data.idMap)
    {
      if data == null then Err(NotInitialized) else Ok(data.Has(id))
    }

    /** `search(query, options)`. */
    function Search(q: Query, options: SearchOptions, lookup: Lookup, highlight: Highlighter)
      : (r: Result<SearchResult, Error>)
      reads this, data
      ensures data == null ==> r == Err(NotInitialized)
      ensures data != null ==> r == SearchIn(data.State(), q, options, lookup, highlight)
    {
      if data == null then Err(NotInitialized) else SearchIn(data.State(), q, options, lookup, highlight)
    }

    /** `aggregate(query, field, options)`: the bucketing walk is the nested loop of the source. */
    method Aggregate(q: Query, field: string, options: AggregateOptions, lookup: Lookup, highlight: Highlighter)
      returns (r: Result<AggregateResult, Error>)
      ensures data == null ==> r == Err(NotInitialized)
      ensures data != null ==> r == AggregateIn(data.State(), q, field, options, lookup, highlight)
    {
      if data == null {
        return Err(NotInitialized);
      }
      var s := data.State();
      var query := data.Query(q, lookup);
      if query.Err? {
        return Err(query.error);
      }
      var m := query.value;
      assert query == QuerySpec(s, q, lookup);
      MatchInStore(s, m);
      var buckets := BucketRecords(s, ToArray(m), field);
      assert buckets == BucketsFor(s, m, field);
      var w := WindowOf(options.pagination, DefaultLimit);
      return Ok(AggregateResult(BucketResults(s, m, Page(buckets, w), options.hits, highlight), PaginationOf(|buckets|, w)));
    }
  }

  /** `aggregate`'s outer loop over the matched nids, in `toArray()` order. */
  method BucketRecords(s: Store, nids: seq<Nid>, field: string) returns (buckets: seq<Bucket>)
    requires InStore(s, nids)
    ensures buckets == BucketsOf(EntriesOf(s, nids, field))
  {
    buckets := [];
    for i := 0 to |nids|
      invariant InStore(s, nids[..i])
      invariant buckets == BucketsOf(EntriesOf(s, nids[..i], field))
    {
      var nid := nids[i];
      var values := if field in s.records[nid].data then s.records[nid].data[field] else [];
      buckets := BucketValues(EntriesOf(s, nids[..i], field), buckets, nid, values);
      assert nids[..i + 1][..i] == nids[..i];
    }
    assert nids[..|nids|] == nids;
  }

  /** `aggregate`'s inner loop: pushes `nid` into the bucket of each value in turn. */
  method BucketValues(ghost done: seq<Entry>, buckets: seq<Bucket>, nid: Nid, values: seq<string>) returns (r: seq<Bucket>)
    requires buckets == BucketsOf(done)
    ensures r == BucketsOf(done + Visit(nid, values))
  {
    r := buckets;
    assert done + Visit(nid, values[..0]) == done;
    for j := 0 to |values|
      invariant r == BucketsOf(done + Visit(nid, values[..j]))
    {
      var value := values[j];
      VisitSnoc(done, nid, values, j);
      BucketsOfSnoc(done + Visit(nid, values[..j]), (nid, value));
      r := AddToBucket(r, nid, value);
    }
    assert values[..|values|] == values;
  }

  /** `delete` each id in order, stopping at the first that throws. */
  function DeleteAll(s: Store, ids: seq<string>): (r: Outcome)
    requires StoreValid(s)
    decreases ids
    ensures StoreValid(r.store)
  {
    if ids == [] then Outcome(s, None)
    else
      DeleteKeepsValid(s, ids[0]);
      var o := DeleteSpec(s, ids[0]);
      if o.error.Some? then o else DeleteAll(o.store, ids[1..])
  }

  /** `insert` each document in order, stopping at the first that throws. */
  function InsertAll(s: Store, ds: seq<DocumentValue>): (r: Outcome)
    requires StoreValid(s)
    decreases ds
    ensures StoreValid(r.store)
  {
    if ds == [] then Outcome(s, None)
    else
      InsertKeepsValid(s, ds[0]);
      var o := InsertSpec(s, ds[0]);
      if o.error.Some? then o else InsertAll(o.store, ds[1..])
  }

  /** The inserts from position `i` on: the `i`-th, then the rest unless it threw. */
  lemma InsertAllFrom(s: Store, ds: seq<DocumentValue>, i: nat)
    requires StoreValid(s) && i < |ds|
    ensures StoreValid(InsertSpec(s, ds[i]).store)
    ensures InsertAll(s, ds[i..]) ==
      if InsertSpec(s, ds[i]).error.Some? then InsertSpec(s, ds[i]) else InsertAll(InsertSpec(s, ds[i]).store, ds[i + 1..])
  {
    InsertKeepsValid(s, ds[i]);
    assert ds[i..][0] == ds[i] && ds[i..][1..] == ds[i + 1..];
  }

  /** `commit()`: every buffered delete, then every buffered insert, each in buffered order. */
  function CommitSpec(s: Store, deletes: seq<string>, inserts: seq<DocumentValue>): Outcome
    requires StoreValid(s)
  {
    var o := DeleteAll(s, deletes);
    if o.error.Some? then o else InsertAll(o.store, inserts)
  }

  /** The deletes of a commit keep every id mapped, and succeed exactly when every id is mapped. */
  lemma {:induction false} DeleteAllKeepsIds(s: Store, ids: seq<string>)
    requires StoreValid(s)
    decreases ids
    ensures DeleteAll(s, ids).store.idMap == s.idMap
    ensures DeleteAll(s, ids).error.None? <==> forall id :: id in ids ==> id in s.idMap
    ensures DeleteAll(s, ids).error.Some? ==> DeleteAll(s, ids).error == Some(DocumentNotFound)
  {
    if ids != [] {
      DeleteKeepsValid(s, ids[0]);
      var o := DeleteSpec(s, ids[0]);
      if o.error.None? {
        DeleteAllKeepsIds(o.store, ids[1..]);
        assert forall id :: id in ids <==> id == ids[0] || id in ids[1..];
      }
    }
  }

  /** The inserts of a commit only add ids; when they all succeed, every inserted id is mapped. */
  lemma {:induction false} InsertAllAddsIds(s: Store, ds: seq<DocumentValue>)
    requires StoreValid(s)
    decreases ds
    ensures s.idMap.Keys <= InsertAll(s, ds).store.idMap.Keys
    ensures InsertAll(s, ds).error.None? ==> forall d :: d in ds ==> d.id in InsertAll(s, ds).store.idMap
  {
    if ds != [] {
      InsertKeepsValid(s, ds[0]);
      var o := InsertSpec(s, ds[0]);
      if o.error.None? {
        InsertAllAddsIds(o.store, ds[1..]);
        assert forall d :: d in ds <==> d == ds[0] || d in ds[1..];
      }
    }
  }

  /**
   * A delete-then-insert of a stored id, the way an index update is written, always throws
   * "already exists": the tombstone keeps the id mapped. The old record is tombstoned all the same.
   */
  lemma ReplaceThrows(s: Store, d: DocumentValue)
    requires StoreValid(s) && d.id in s.idMap
    ensures CommitSpec(s, [d.id], [d]).error == Some(DocumentAlreadyExists)
    ensures s.idMap[d.id] < |CommitSpec(s, [d.id], [d]).store.records|
    ensures CommitSpec(s, [d.id], [d]).store.records[s.idMap[d.id]].deleted
  {
    DeleteKeepsValid(s, d.id);
    var o := DeleteSpec(s, d.id);
    assert o.error.None?;
    assert DeleteAll(o.store, []) == Outcome(o.store, None);
    assert DeleteAll(s, [d.id]) == Outcome(o.store, None);
    assert InsertAll(o.store, [d]) == Outcome(o.store, Some(DocumentAlreadyExists));
  }

  /**
   * `commit` does not empty the buffers: committing a second time re-applies the deletes (which
   * succeed on the tombstones) and then throws "already exists" on the first insert.
   */
  lemma CommitTwiceThrows(s: Store, deletes: seq<string>, inserts: seq<DocumentValue>)
    requires StoreValid(s)
    requires CommitSpec(s, deletes, inserts).error.None?
    requires inserts != []
    ensures CommitSpec(CommitSpec(s, deletes, inserts).store, deletes, inserts).error == Some(DocumentAlreadyExists)
  {
    var o := DeleteAll(s, deletes);
    DeleteAllKeepsIds(s, deletes);
    InsertAllAddsIds(o.store, inserts);
    var t := CommitSpec(s, deletes, inserts).store;
    DeleteAllKeepsIds(t, deletes);
    var o2 := DeleteAll(t, deletes);
    assert inserts[0] in inserts;
    InsertKeepsValid(o2.store, inserts[0]);
  }

  /** `commit`'s first loop: `data.delete(id)` for each buffered id, until one throws. */
  method DeleteEach(data: DataStruct, ids: seq<string>) returns (err: Option<Error>)
    requires data.Valid()
    modifies data
    ensures data.Valid()
    ensures Outcome(data.State(), err) == DeleteAll(old(data.State()), ids)
  {
    ghost var s0 := data.State();
    for i := 0 to |ids|
      invariant data.Valid()
      invariant DeleteAll(data.State(), ids[i..]) == DeleteAll(s0, ids)
    {
      assert ids[i..][1..] == ids[i + 1..];
      err := data.Delete(ids[i]);
      if err.Some? {
        return;
      }
    }
    return None;
  }

  /** `commit`'s second loop: `data.insert(document)` for each buffered document, until one throws. */
  method InsertEach(data: DataStruct, docs: seq<Document>) returns (err: Option<Error>)
    requires data.Valid()
    requires forall d :: d in docs ==> d.Valid()
    modifies data
    ensures data.Valid()
    ensures Outcome(data.State(), err) == InsertAll(old(data.State()), old(DocValues(docs)))
  {
    ghost var values := DocValues(docs);
    ghost var goal := InsertAll(data.State(), values);
    assert DocsAre(docs, values) by {
      forall j | 0 <= j < |docs| ensures docs[j].Valid() {
        assert docs[j] in docs;
      }
    }
    for i := 0 to |docs|
      invariant data.Valid()
      invariant InsertAll(data.State(), values[i..]) == goal
      invariant DocsAre(docs, values)
    {
      err := InsertNext(data, docs, values, i, goal);
      if err.Some? {
        return;
      }
    }
    assert values[|docs|..] == [];
    return None;
  }

  /** One pass of `commit`'s insert loop: `data.insert` of the `i`-th buffered document. */
  method InsertNext(data: DataStruct, docs: seq<Document>, ghost values: seq<DocumentValue>, i: nat, ghost goal: Outcome)
    returns (err: Option<Error>)
    requires data.Valid() && DocsAre(docs, values) && i < |docs|
    requires InsertAll(data.State(), values[i..]) == goal
    modifies data
    ensures data.Valid() && DocsAre(docs, values)
    ensures err.Some? ==> Outcome(data.State(), err) == goal
    ensures err.None? ==> InsertAll(data.State(), values[i + 1..]) == goal
  {
    InsertAllFrom(data.State(), values, i);
    err := data.Insert(docs[i]);
  }

  /** `MemoryIndexWriter`: buffers of documents to insert and ids to delete, on a shared `DataStruct`. */
  class MemoryIndexWriter {
    const data: DataStruct
    var inserts: seq<Document>
    var deletes: seq<string>

    constructor(data: DataStruct)
      ensures this.data == data && inserts == [] && deletes == []
    {
      this.data := data;
      inserts := [];
      deletes := [];
    }

    /** `insert(document)`: only buffers the document (by reference). */
    method Insert(document: Document)
      modifies this
      ensures inserts == old(inserts) + [document] && deletes == old(deletes)
    {
      inserts := inserts + [document];
    }

    /** `delete(id)`: only buffers the id. */
    method Delete(id: string)
      modifies this
      ensures deletes == old(deletes) + [id] && inserts == old(inserts)
    {
      deletes := deletes + [id];
    }

    /**
     * `commit()`: applies the buffered deletes, then the buffered inserts, each in order; the first
     * one that throws ends the commit, keeping what was applied before it. The buffers are kept.
     */
    method Commit() returns (err: Option<Error>)
      requires data.Valid()
      requires forall d :: d in inserts ==> d.Valid()
      modifies data
      ensures data.Valid()
      ensures Outcome(data.State(), err) == CommitSpec(old(data.State()), deletes, old(DocValues(inserts)))
    {
      err := DeleteEach(data, deletes);
      if err.Some? {
        return;
      }
      err := InsertEach(data, inserts);
    }

    /** `rollback()`: does nothing; the buffers are kept. */
    method Rollback()
      ensures unchanged(this)
    {
    }

    /** `has(id)` on the shared `DataStruct`. */
    function Has(id: string): (r: bool)
      reads this, data
      ensures r <==> id in data.idMap
    {
      data.Has(id)
    }
  }
}
