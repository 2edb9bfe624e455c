/**
 * The IndexedDB indexer backend's `DataStruct`. Its object stores become maps: `records` by their
 * auto-incremented key (the nid, from 1 on), the unique `id` index from document id to key, and
 * each field's posting log. A delete removes the record; postings are left behind, and queries
 * drop nids whose record is gone.
 *
 * Transactions, `await` and the database's opening are not modelled: each operation runs to its
 * end or to the first error it throws, keeping what it did before the error.
 */
module IdbDataStruct {
  import opened Wrappers
  import opened Matching
  import opened InvertedIndexes
  import opened Searching
  import opened Queries
  import opened Documents
  import opened Buckets
  import JsArrays

  /** A stored record: `new Map(document.fields)` is a copy, so it is kept as a value. */
  datatype IdbRecord = IdbRecord(id: string, data: map<string, seq<string>>)

  /**
   * The database's contents: the `records` store, its unique `id` index, the store's key
   * generator (the next key `add` hands out), and the inverted indexes with their postings.
   */
  datatype IdbStore = IdbStore(
    records: map<Nid, IdbRecord>,
    idIndex: map<string, Nid>,
    nextKey: nat,
    indexes: map<string, InvertedIndex>)

  /** What an operation leaves behind, and the error it threw, if any. */
  datatype IdbOutcome = IdbOutcome(store: IdbStore, error: Option<Error>)

  /**
   * Keys are handed out from 1 and never reused; the `id` index maps exactly the stored records'
   * ids to their keys; postings name only keys already handed out; each index is filed under its
   * own field.
   */
  ghost predicate IdbValid(st: IdbStore) {
    && 1 <= st.nextKey
    && (forall k :: k in st.records ==> 1 <= k < st.nextKey)
    && (forall id :: id in st.idIndex ==> st.idIndex[id] in st.records && st.records[st.idIndex[id]].id == id)
    && (forall k :: k in st.records ==> st.records[k].id in st.idIndex && st.idIndex[st.records[k].id] == k)
    && PostingsBelow(st.indexes, st.nextKey)
    && (forall f :: f in st.indexes ==> st.indexes[f].field == f)
  }

  /**
   * `insert`'s loop over the document's fields from position `from` on: a field without an
   * index throws, even with no values; otherwise `iidx.insert(nid, values)` files all the field's
   * values at once.
   */
  function IdbIndexFields(indexes: map<string, InvertedIndex>, nid: Nid, d: DocumentValue, from: nat)
    : (r: (map<string, InvertedIndex>, Option<Error>))
    requires from <= |d.keys|
    decreases |d.keys| - from
    ensures r.0.Keys == indexes.Keys
    ensures forall f :: f in r.0 ==> r.0[f].field == indexes[f].field
  {
    if from == |d.keys| then (indexes, None)
    else
      var key := d.keys[from];
      if key !in indexes then (indexes, Some(InvertedIndexNotFound(key)))
      else IdbIndexFields(AddPosting(indexes, key, Posting(nid, Get(d, key))), nid, d, from + 1)
  }

  /** Field `i` is the first from `from` on without an index, and `err` names it. */
  predicate IdbFailsAt(indexes: map<string, InvertedIndex>, d: DocumentValue, from: nat, i: nat, err: Error) {
    && from <= i < |d.keys| && d.keys[i] !in indexes
    && err == InvertedIndexNotFound(d.keys[i])
    && forall j :: from <= j < i ==> d.keys[j] in indexes
  }

  /** The insert's indexing throws exactly when some field of the document has no index, naming the first. */
  lemma {:induction false} IdbIndexFieldsFails(indexes: map<string, InvertedIndex>, nid: Nid, d: DocumentValue, from: nat)
    requires from <= |d.keys|
    ensures IdbIndexFields(indexes, nid, d, from).1.None? <==> forall i :: from <= i < |d.keys| ==> d.keys[i] in indexes
    ensures IdbIndexFields(indexes, nid, d, from).1.Some? ==>
      exists i :: IdbFailsAt(indexes, d, from, i, IdbIndexFields(indexes, nid, d, from).1.value)
    decreases |d.keys| - from
  {
    if from < |d.keys| {
      var key := d.keys[from];
      var r := IdbIndexFields(indexes, nid, d, from);
      if key !in indexes {
        assert IdbFailsAt(indexes, d, from, from, r.1.value);
      } else {
        var next := AddPosting(indexes, key, Posting(nid, Get(d, key)));
        assert r == IdbIndexFields(next, nid, d, from + 1);
        IdbIndexFieldsFails(next, nid, d, from + 1);
        if r.1.Some? {
          var i :| IdbFailsAt(next, d, from + 1, i, r.1.value);
          assert IdbFailsAt(indexes, d, from, i, r.1.value);
        }
      }
    }
  }

  /** The insert's indexing adds postings for the new nid only, one per indexed field. */
  lemma {:induction false} IdbIndexFieldsNids(indexes: map<string, InvertedIndex>, nid: Nid, d: DocumentValue, from: nat)
    requires from <= |d.keys|
    ensures forall f, n :: f in indexes && n in PostingNids(IdbIndexFields(indexes, nid, d, from).0[f].postings) ==>
      n in PostingNids(indexes[f].postings) || n == nid
    decreases |d.keys| - from
  {
    if from < |d.keys| && d.keys[from] in indexes {
      var key := d.keys[from];
      var next := AddPosting(indexes, key, Posting(nid, Get(d, key)));
      IdbIndexFieldsNids(next, nid, d, from + 1);
      PostingNidsAppend(indexes[key].postings, Posting(nid, Get(d, key)));
    }
  }

  /**
   * The state after `insert(document)`, and what it throws: an id the `id` index holds throws
   * "already exists"; otherwise the record is added under the next key and its fields indexed.
   */
  function IdbInsertSpec(st: IdbStore, d: DocumentValue): IdbOutcome {
    if d.id in st.idIndex then IdbOutcome(st, Some(DocumentAlreadyExists))
    else
      var nid := st.nextKey;
      var (indexes, err) := IdbIndexFields(st.indexes, nid, d, 0);
      IdbOutcome(IdbStore(st.records[nid := IdbRecord(d.id, d.fields)], st.idIndex[d.id := nid], nid + 1, indexes), err)
  }

  /** JavaScript's truthiness of a key the `id` index may return: `undefined` and `0` are false. */
  predicate Truthy(k: Option<Nid>) {
    k.Some? && k.value != 0
  }

  /** The state after `delete(id)`: `if (nid)` removes the record; postings stay. */
  function IdbDeleteSpec(st: IdbStore, id: string): IdbStore {
    var nid := if id in st.idIndex then Some(st.idIndex[id]) else None;
    if Truthy(nid) then st.(records := st.records - {nid.value}, idIndex := st.idIndex - {id}) else st
  }

  /** An insert keeps the store valid, whether or not it throws. */
  lemma IdbInsertKeepsValid(st: IdbStore, d: DocumentValue)
    requires IdbValid(st)
    ensures IdbValid(IdbInsertSpec(st, d).store)
  {
    if d.id !in st.idIndex {
      IdbIndexFieldsNids(st.indexes, st.nextKey, d, 0);
      var t := IdbInsertSpec(st, d).store;
      forall id | id in t.idIndex
        ensures t.idIndex[id] in t.records && t.records[t.idIndex[id]].id == id
      {
        if id != d.id {
          assert st.idIndex[id] < st.nextKey;
        }
      }
    }
  }

  /**
   * A new id is stored under the next key, which is then used up; the insert throws exactly when
   * some field of the document has no index (whether or not it has values), and then with the
   * first such field, the record staying stored.
   */
  lemma IdbInsertNewId(st: IdbStore, d: DocumentValue)
    requires d.id !in st.idIndex
    ensures IdbInsertSpec(st, d).store.records == st.records[st.nextKey := IdbRecord(d.id, d.fields)]
    ensures IdbInsertSpec(st, d).store.idIndex == st.idIndex[d.id := st.nextKey]
    ensures IdbInsertSpec(st, d).store.nextKey == st.nextKey + 1
    ensures IdbInsertSpec(st, d).error.None? <==> forall i :: 0 <= i < |d.keys| ==> d.keys[i] in st.indexes
    ensures IdbInsertSpec(st, d).error.Some? ==>
      exists i :: 0 <= i < |d.keys| && d.keys[i] !in st.indexes &&
                  IdbInsertSpec(st, d).error.value == InvertedIndexNotFound(d.keys[i])
  {
    IdbIndexFieldsFails(st.indexes, st.nextKey, d, 0);
  }

  /** Keys start at 1, so `if (nid)` is exactly "the id is stored": a delete removes a stored id's record and only it. */
  lemma IdbDeleteRemoves(st: IdbStore, id: string)
    requires IdbValid(st)
    ensures IdbValid(IdbDeleteSpec(st, id))
    ensures id !in IdbDeleteSpec(st, id).idIndex
    ensures id in st.idIndex ==> IdbDeleteSpec(st, id).records == st.records - {st.idIndex[id]}
    ensures id !in st.idIndex ==> IdbDeleteSpec(st, id) == st
    ensures IdbDeleteSpec(st, id).indexes == st.indexes && IdbDeleteSpec(st, id).nextKey == st.nextKey
  {
    if id in st.idIndex {
      var k := st.idIndex[id];
      assert Truthy(Some(k));
      var t := IdbDeleteSpec(st, id);
      forall j | j in t.records
        ensures t.records[j].id in t.idIndex && t.idIndex[t.records[j].id] == j
      {
        assert st.records[j].id != id;
      }
    }
  }

  /** `batchWrite`'s deletes, in order; a delete never throws. */
  function DeleteAll(st: IdbStore, ids: seq<string>): IdbStore
    decreases |ids|
  {
    if ids == [] then st else IdbDeleteSpec(DeleteAll(st, ids[..|ids| - 1]), ids[|ids| - 1])
  }

  /** `batchWrite`'s inserts, in order, until the first that throws. */
  function InsertAll(st: IdbStore, ds: seq<DocumentValue>): IdbOutcome
    decreases ds
  {
    if ds == [] then IdbOutcome(st, None)
    else
      var o := IdbInsertSpec(st, ds[0]);
      if o.error.Some? then o else InsertAll(o.store, ds[1..])
  }

  /** The inserts from position `i` on: the `i`-th, then the rest unless it threw. */
  lemma InsertAllFrom(st: IdbStore, ds: seq<DocumentValue>, i: nat)
    requires i < |ds|
    ensures InsertAll(st, ds[i..]) ==
      if IdbInsertSpec(st, ds[i]).error.Some? then IdbInsertSpec(st, ds[i]) else InsertAll(IdbInsertSpec(st, ds[i]).store, ds[i + 1..])
  {
    assert ds[i..][0] == ds[i] && ds[i..][1..] == ds[i + 1..];
  }

  /** `batchWrite(deletes, inserts)`: every delete, then every insert, each in order. */
  function BatchWriteSpec(st: IdbStore, deletes: seq<string>, inserts: seq<DocumentValue>): IdbOutcome {
    InsertAll(DeleteAll(st, deletes), inserts)
  }

  /** After the deletes of a batch, none of the deleted ids is stored. */
  lemma {:induction false} DeleteAllRemoves(st: IdbStore, ids: seq<string>)
    requires IdbValid(st)
    ensures IdbValid(DeleteAll(st, ids))
    ensures forall id :: id in ids ==> id !in DeleteAll(st, ids).idIndex
    ensures forall id :: id !in ids && id in st.idIndex ==> id in DeleteAll(st, ids).idIndex
    decreases |ids|
  {
    if ids != [] {
      var init := ids[..|ids| - 1];
      DeleteAllRemoves(st, init);
      IdbDeleteRemoves(DeleteAll(st, init), ids[|ids| - 1]);
      assert forall id :: id in ids <==> id in init || id == ids[|ids| - 1];
    }
  }

  /**
   * Unlike the memory backend, a batch that deletes a stored id and inserts a new document with
   * that id succeeds in replacing it (provided every field of the new document is indexed).
   */
  lemma ReplaceSucceeds(st: IdbStore, d: DocumentValue)
    requires IdbValid(st)
    requires forall i :: 0 <= i < |d.keys| ==> d.keys[i] in st.indexes
    ensures BatchWriteSpec(st, [d.id], [d]).error.None?
    ensures var t := BatchWriteSpec(st, [d.id], [d]).store;
      && d.id in t.idIndex && t.idIndex[d.id] == st.nextKey
      && st.nextKey in t.records && t.records[st.nextKey] == IdbRecord(d.id, d.fields)
  {
    assert [d.id][..0] == [];
    var t0 := IdbDeleteSpec(st, d.id);
    assert DeleteAll(st, [d.id]) == t0;
    IdbDeleteRemoves(st, d.id);
    IdbInsertNewId(t0, d);
    var o := IdbInsertSpec(t0, d);
    assert o.error.None?;
    assert InsertAll(o.store, []) == o;
    assert InsertAll(t0, [d]) == o;
  }

  /** `getAllKeys()` on a store whose keys are below `n`: the keys in ascending order. */
  function KeysBelow(records: map<Nid, IdbRecord>, n: nat): (r: seq<Nid>)
    ensures Distinct(r)
    ensures forall k :: k in r <==> k in records && k < n
    ensures forall i, j :: 0 <= i < j < |r| ==> r[i] < r[j]
  {
    if n == 0 then []
    else
      var below := KeysBelow(records, n - 1);
      if n - 1 in records then
        assert forall k :: k in below + [n - 1] <==> k in below || k == n - 1;
        assert forall i :: 0 <= i < |below| ==> below[i] in below;
        below + [n - 1]
      else
        assert forall k :: k in records && k < n ==> k < n - 1;
        below
  }

  /** Every stored key, ascending. */
  function AllKeys(st: IdbStore): seq<Nid> {
    KeysBelow(st.records, st.nextKey)
  }

  /** `matchAll()`: every stored record scored 1. */
  function IdbAllOf(st: IdbStore): ValidMatch {
    ScoreEach(AllKeys(st))
  }

  /** Every nid of `m` names a stored record. */
  predicate StoredMatch(st: IdbStore, m: ValidMatch) {
    forall n: Nid :: n in Members(m) ==> n in st.records
  }

  /**
   * `query(q)`: the raw match with the nids whose record is gone filtered out; every stored nid
   * of the raw match stays, with its score.
   */
  function IdbQuerySpec(st: IdbStore, q: Query, lookup: Lookup): (r: Result<ValidMatch, Error>)
    ensures r.Ok? ==> StoredMatch(st, r.value)
    ensures r.Ok? <==> QueryRaw(q, st.indexes, IdbAllOf(st), lookup).Ok?
    ensures r.Err? ==> r.error == QueryRaw(q, st.indexes, IdbAllOf(st), lookup).error
    ensures r.Ok? ==> forall n: Nid :: n in st.records ==>
      (n in Members(r.value) <==> n in Members(QueryRaw(q, st.indexes, IdbAllOf(st), lookup).value))
  {
    var records := st.records;
    match QueryRaw(q, st.indexes, IdbAllOf(st), lookup)
    case Err(e) => Err(e)
    case Ok(m) => Ok(Filter(m, (n: Nid) => n in records))
  }

  /** `all` is every stored record with score 1, in a valid store every one the `id` index knows. */
  lemma IdbAllIsStored(st: IdbStore, lookup: Lookup)
    requires IdbValid(st)
    ensures IdbQuerySpec(st, AllQuery, lookup).Ok?
    ensures forall n: Nid :: n in Members(IdbQuerySpec(st, AllQuery, lookup).value) <==> n in st.records
    ensures forall id :: id in st.idIndex ==> st.idIndex[id] in Members(IdbQuerySpec(st, AllQuery, lookup).value)
  {
    var all := IdbAllOf(st);
    assert QueryRaw(AllQuery, st.indexes, all, lookup) == Ok(all);
    assert forall n: Nid :: n in Members(all) <==> n in st.records;
  }

  /** `resultNode(trx, match, nid, options)`: a nid whose record is gone throws. */
  function IdbResultNode(st: IdbStore, m: ValidMatch, nid: Nid, options: SearchOptions, highlight: Highlighter)
    : (r: Result<SearchNode, Error>)
    ensures r.Err? <==> nid !in st.records
    ensures r.Err? ==> r.error == RecordNotFound(nid)
    ensures r.Ok? ==> r.value.id == st.records[nid].id && r.value.score == GetScore(m, nid)
    ensures r.Ok? && options.fields.Some? ==>
      && r.value.fields.Some?
      && (forall f :: f in options.fields.value ==>
            f in r.value.fields.value && r.value.fields.value[f] == FieldOf(st.records[nid].data, f))
  {
    if nid !in st.records then Err(RecordNotFound(nid))
    else Ok(NodeOf(st.records[nid].id, GetScore(m, nid), st.records[nid].data, options, h => highlight(nid, h)))
  }

  /** The nodes of `nids` in order, or the error of the first whose record is gone. */
  function ResultNodes(st: IdbStore, m: ValidMatch, nids: seq<Nid>, options: SearchOptions, highlight: Highlighter)
    : (r: Result<seq<SearchNode>, Error>)
    ensures r.Ok? <==> forall n :: n in nids ==> n in st.records
    ensures r.Ok? ==>
      && |r.value| == |nids|
      && (forall i :: 0 <= i < |nids| ==> Ok(r.value[i]) == IdbResultNode(st, m, nids[i], options, highlight))
  {
    if nids == [] then Ok([])
    else
      var init := nids[..|nids| - 1];
      var last := nids[|nids| - 1];
      assert forall n :: n in nids <==> n in init || n == last;
      match ResultNodes(st, m, init, options, highlight)
      case Err(e) => Err(e)
      case Ok(ns) =>
        match IdbResultNode(st, m, last, options, highlight)
        case Err(e) => Err(e)
        case Ok(node) => Ok(ns + [node])
  }

  /** Once a node fails, later nids do not change the outcome. */
  lemma {:induction false} ResultNodesSticky(st: IdbStore, m: ValidMatch, xs: seq<Nid>, ys: seq<Nid>, options: SearchOptions, highlight: Highlighter)
    requires ResultNodes(st, m, xs, options, highlight).Err?
    ensures ResultNodes(st, m, xs + ys, options, highlight) == ResultNodes(st, m, xs, options, highlight)
    decreases |ys|
  {
    if ys != [] {
      var init := ys[..|ys| - 1];
      ResultNodesSticky(st, m, xs, init, options, highlight);
      assert (xs + ys)[..|xs + ys| - 1] == xs + init;
      assert ResultNodes(st, m, xs + init, options, highlight).Err?;
    } else {
      assert xs + ys == xs;
    }
  }

  /** `search` once the query has produced its match `m`. */
  function IdbSearchOf(st: IdbStore, m: ValidMatch, options: SearchOptions, highlight: Highlighter)
    : Result<SearchResult, Error>
  {
    var w := WindowOf(options.pagination, DefaultLimit);
    match ResultNodes(st, m, Page(ToArray(m), w), options, highlight)
    case Err(e) => Err(e)
    case Ok(nodes) => Ok(SearchResult(PaginationOf(Size(m), w), nodes))
  }

  /** The nids a search's page lists, in `toArray()` order. */
  function SearchNids(m: ValidMatch, options: SearchOptions): (r: seq<Nid>)
    ensures forall n :: n in r ==> n in Members(m)
  {
    Page(ToArray(m), WindowOf(options.pagination, DefaultLimit))
  }

  /**
   * A search over a query's match never meets a missing record: it returns the node of each nid
   * of its page, in order, and the memory backend's pagination (`count` the number of matches).
   */
  lemma IdbSearchOk(st: IdbStore, m: ValidMatch, options: SearchOptions, highlight: Highlighter)
    requires StoredMatch(st, m)
    ensures IdbSearchOf(st, m, options, highlight).Ok?
    ensures var r := IdbSearchOf(st, m, options, highlight).value;
      && r.pagination == PaginationOf(|Members(m)|, WindowOf(options.pagination, DefaultLimit))
      && |r.nodes| == |SearchNids(m, options)|
      && (forall i :: 0 <= i < |r.nodes| ==> Ok(r.nodes[i]) == IdbResultNode(st, m, SearchNids(m, options)[i], options, highlight))
  {
    SizeIsCardinality(m);
    var nids := SearchNids(m, options);
    assert forall n :: n in nids ==> n in st.records;
    assert ResultNodes(st, m, nids, options, highlight).Ok?;
  }

  /** The nodes of a search, with the id and score of the record each stands for. */
  lemma IdbSearchNodeFacts(st: IdbStore, m: ValidMatch, options: SearchOptions, highlight: Highlighter)
    returns (nodes: seq<SearchNode>)
    requires StoredMatch(st, m)
    ensures IdbSearchOf(st, m, options, highlight) == Ok(SearchResult(PaginationOf(Size(m), WindowOf(options.pagination, DefaultLimit)), nodes))
    ensures |nodes| == |SearchNids(m, options)|
    ensures forall i :: 0 <= i < |nodes| ==>
      && SearchNids(m, options)[i] in st.records
      && nodes[i].id == st.records[SearchNids(m, options)[i]].id
      && nodes[i].score == GetScore(m, SearchNids(m, options)[i])
  {
    IdbSearchOk(st, m, options, highlight);
    nodes := IdbSearchOf(st, m, options, highlight).value.nodes;
  }

  /** No two stored records share an id. */
  predicate UniqueIds(st: IdbStore) {
    forall a, b :: a in st.records && b in st.records && st.records[a].id == st.records[b].id ==> a == b
  }

  /** In a valid store, the unique `id` index keeps ids unique among the stored records. */
  lemma IdsUnique(st: IdbStore)
    requires IdbValid(st)
    ensures UniqueIds(st)
  {
    forall a, b | a in st.records && b in st.records && st.records[a].id == st.records[b].id
      ensures a == b
    {
      assert st.idIndex[st.records[a].id] == a;
    }
  }

  /** At most `limit` nodes; for a non-negative window, `hasMore` says whether the match goes on past them. */
  lemma IdbSearchBound(st: IdbStore, m: ValidMatch, options: SearchOptions, highlight: Highlighter)
    requires StoredMatch(st, m)
    ensures IdbSearchOf(st, m, options, highlight).Ok?
    ensures var r := IdbSearchOf(st, m, options, highlight).value;
      var w := WindowOf(options.pagination, DefaultLimit);
      && (0 <= w.limit ==> |r.nodes| <= w.limit)
      && (0 <= w.skip && 0 <= w.limit ==> (r.pagination.hasMore <==> w.skip + |r.nodes| < r.pagination.count))
  {
    IdbSearchOk(st, m, options, highlight);
    var w := WindowOf(options.pagination, DefaultLimit);
    SizeIsCardinality(m);
    if 0 <= w.limit {
      PageLaws(ToArray(m), w);
    }
  }

  /** The nodes come in `toArray()` order, so their scores never increase. */
  lemma IdbSearchOrdered(st: IdbStore, m: ValidMatch, options: SearchOptions, highlight: Highlighter)
    requires StoredMatch(st, m)
    ensures IdbSearchOf(st, m, options, highlight).Ok?
    ensures var r := IdbSearchOf(st, m, options, highlight).value;
      forall i, j :: 0 <= i < j < |r.nodes| ==> r.nodes[i].score >= r.nodes[j].score
  {
    var nodes := IdbSearchNodeFacts(st, m, options, highlight);
    PageKeepsOrder(ToArray(m), WindowOf(options.pagination, DefaultLimit), (x, y) => GetScore(m, x) >= GetScore(m, y));
  }

  /** With ids unique (as in a valid store, by `IdsUnique`) a search never returns the same document twice. */
  lemma IdbSearchDistinct(st: IdbStore, m: ValidMatch, options: SearchOptions, highlight: Highlighter)
    requires UniqueIds(st) && StoredMatch(st, m)
    ensures IdbSearchOf(st, m, options, highlight).Ok?
    ensures var r := IdbSearchOf(st, m, options, highlight).value;
      forall i, j :: 0 <= i < j < |r.nodes| ==> r.nodes[i].id != r.nodes[j].id
  {
    var nodes := IdbSearchNodeFacts(st, m, options, highlight);
    var nids := SearchNids(m, options);
    PageKeepsOrder(ToArray(m), WindowOf(options.pagination, DefaultLimit), (x, y) => x != y);
    forall i, j | 0 <= i < j < |nodes|
      ensures nodes[i].id != nodes[j].id
    {
      assert nids[i] != nids[j];
    }
  }

  /** `(await records.get(nid))?.data.get(field) ?? []`: no values for a missing record or field. */
  function IdbValuesOf(st: IdbStore, nid: Nid, field: string): seq<string> {
    if nid in st.records && field in st.records[nid].data then st.records[nid].data[field] else []
  }

  /** The (nid, value) visits of `aggregate`'s nested loop. */
  function IdbEntries(st: IdbStore, nids: seq<Nid>, field: string): (r: seq<Entry>)
    ensures forall i :: 0 <= i < |r| ==> r[i].0 in nids && r[i].0 in st.records
  {
    if nids == [] then []
    else
      var last := nids[|nids| - 1];
      var init := IdbEntries(st, nids[..|nids| - 1], field);
      assert forall i :: 0 <= i < |init| ==> init[i].0 in nids;
      init + Visit(last, IdbValuesOf(st, last, field))
  }

  /** A bucket of the IndexedDB aggregate: it also collects its hits' nodes as it goes. */
  datatype IdbBucket = IdbBucket(key: string, nids: seq<Nid>, hits: seq<SearchNode>)

  /** `buckets.findIndex(b => b.key === key)`: `-1` when absent. */
  function FindIndex(bs: seq<IdbBucket>, key: string): (r: int)
    ensures -1 <= r < |bs|
    ensures r >= 0 ==> bs[r].key == key && forall i :: 0 <= i < r ==> bs[i].key != key
    ensures r == -1 ==> forall i :: 0 <= i < |bs| ==> bs[i].key != key
  {
    if bs == [] then -1
    else if bs[0].key == key then 0
    else
      var r := FindIndex(bs[1..], key);
      if r == -1 then -1 else r + 1
  }

  /** `i >= skip && i < skip + limit`. */
  predicate InWindow(i: int, w: Window) {
    w.skip <= i < w.skip + w.limit
  }

  /**
   * What a visit does to the bucket at index `k`: only a bucket whose index lies in the bucket
   * window takes the nid, and only a nid whose position in its bucket lies in the hit window adds
   * its node to the hits.
   */
  function Take(b: IdbBucket, k: int, nid: Nid, w: Window, hw: Window, node: SearchNode): (r: IdbBucket)
    ensures r.key == b.key
  {
    if InWindow(k, w) then
      var b1 := b.(nids := b.nids + [nid]);
      if InWindow(|b1.nids| - 1, hw) then b1.(hits := b1.hits + [node]) else b1
    else b
  }

  /** One visit of the IndexedDB aggregate: find or push the bucket, then let it take the nid. */
  function WindowStep(bs: seq<IdbBucket>, nid: Nid, value: string, w: Window, hw: Window, node: SearchNode)
    : (r: seq<IdbBucket>)
    ensures |r| == |bs| || |r| == |bs| + 1
  {
    var found := FindIndex(bs, value);
    var bs1 := if found == -1 then bs + [IdbBucket(value, [], [])] else bs;
    var k := if found == -1 then |bs1| - 1 else found;
    bs1[k := Take(bs1[k], k, nid, w, hw, node)]
  }

  /** The node a hit gets; its record is there, since only stored records have values to visit. */
  function HitNode(st: IdbStore, m: ValidMatch, nid: Nid, hits: SearchOptions, highlight: Highlighter): SearchNode
    requires nid in st.records
  {
    IdbResultNode(st, m, nid, hits, highlight).value
  }

  /** The buckets the IndexedDB aggregate builds over the visits `es`. */
  function WindowedBuckets(st: IdbStore, m: ValidMatch, es: seq<Entry>, w: Window, hw: Window,
                           hits: SearchOptions, highlight: Highlighter): seq<IdbBucket>
    requires forall i :: 0 <= i < |es| ==> es[i].0 in st.records
  {
    if es == [] then []
    else
      var e := es[|es| - 1];
      WindowStep(WindowedBuckets(st, m, es[..|es| - 1], w, hw, hits, highlight), e.0, e.1, w, hw,
                 HitNode(st, m, e.0, hits, highlight))
  }

  /** The hit window when `hits` is absent: nothing. */
  function HitWindow(options: AggregateOptions): Window {
    if options.hits.Some? then WindowOf(options.hits.value.pagination, DefaultHitsLimit) else Window(0, 0)
  }

  /** A returned bucket: the score of its first nid (0 when it holds none), its size, and its hits if asked for. */
  function IdbBucketResult(m: ValidMatch, b: IdbBucket, options: AggregateOptions): AggregateBucket {
    AggregateBucket(
      b.key, if b.nids == [] then 0.0 else GetScore(m, b.nids[0]), |b.nids|,
      if options.hits.Some? then Some(SearchResult(PaginationOf(|b.nids|, HitWindow(options)), b.hits)) else None)
  }

  /** The options a hit's node is made with: `options.hits ?? {}`. */
  function HitOptions(options: AggregateOptions): SearchOptions {
    if options.hits.Some? then options.hits.value else SearchOptions(None, None, None)
  }

  /** All the buckets `aggregate` builds over the match `m`, before the bucket page is cut. */
  function IdbBucketsFor(st: IdbStore, m: ValidMatch, field: string, options: AggregateOptions, highlight: Highlighter)
    : seq<IdbBucket>
  {
    WindowedBuckets(st, m, IdbEntries(st, ToArray(m), field), WindowOf(options.pagination, DefaultLimit),
                    HitWindow(options), HitOptions(options), highlight)
  }

  /** The result `aggregate` makes of its buckets: the bucket page, and a pagination over all buckets. */
  function IdbResultOf(m: ValidMatch, bs: seq<IdbBucket>, options: AggregateOptions): AggregateResult {
    var w := WindowOf(options.pagination, DefaultLimit);
    AggregateResult(
      seq(|Page(bs, w)|, i requires 0 <= i < |Page(bs, w)| => IdbBucketResult(m, Page(bs, w)[i], options)),
      PaginationOf(|bs|, w))
  }

  /** `aggregate` once the query has produced its match `m`. */
  function IdbAggregateOf(st: IdbStore, m: ValidMatch, field: string, options: AggregateOptions, highlight: Highlighter)
    : AggregateResult
  {
    IdbResultOf(m, IdbBucketsFor(st, m, field, options, highlight), options)
  }

  /** The nodes of a list of stored nids. */
  function HitNodes(st: IdbStore, m: ValidMatch, nids: seq<Nid>, hits: SearchOptions, highlight: Highlighter): (r: seq<SearchNode>)
    requires forall n :: n in nids ==> n in st.records
    ensures |r| == |nids|
  {
    seq(|nids|, i requires 0 <= i < |nids| => HitNode(st, m, nids[i], hits, highlight))
  }

  /** A page with non-negative bounds grows by the appended element exactly when its index is in the window. */
  lemma PageSnoc<T>(s: seq<T>, x: T, w: Window)
    requires 0 <= w.skip && 0 <= w.limit
    ensures Page(s + [x], w) == Page(s, w) + (if InWindow(|s|, w) then [x] else [])
  {
    JsArrays.SlicePageWindow(s, w.skip, w.limit);
    JsArrays.SlicePageWindow(s + [x], w.skip, w.limit);
  }

  /**
   * One IndexedDB bucket against the shared bucket at the same index `i`: the same key; inside the
   * bucket window exactly the shared bucket's nids and, for a non-negative hit window, the nodes of
   * its hit page; outside it nothing.
   */
  predicate BucketAgrees(st: IdbStore, m: ValidMatch, wb: IdbBucket, b: Bucket, i: int, w: Window, hw: Window,
                         hits: SearchOptions, highlight: Highlighter)
  {
    && wb.key == b.key
    && (!InWindow(i, w) ==> wb.nids == [] && wb.hits == [])
    && (InWindow(i, w) ==>
          && wb.nids == b.nids
          && (0 <= hw.skip && 0 <= hw.limit ==>
                && (forall n :: n in Page(b.nids, hw) ==> n in st.records)
                && wb.hits == HitNodes(st, m, Page(b.nids, hw), hits, highlight)))
  }

  /** The IndexedDB buckets against the shared description, bucket by bucket. */
  predicate Agrees(st: IdbStore, m: ValidMatch, wbs: seq<IdbBucket>, bs: seq<Bucket>, w: Window, hw: Window,
                   hits: SearchOptions, highlight: Highlighter)
  {
    && |wbs| == |bs|
    && forall i :: 0 <= i < |bs| ==> BucketAgrees(st, m, wbs[i], bs[i], i, w, hw, hits, highlight)
  }

  /** Buckets with the same keys in the same order are found at the same position. */
  lemma FindAgrees(st: IdbStore, m: ValidMatch, wbs: seq<IdbBucket>, bs: seq<Bucket>, key: string, w: Window, hw: Window,
                   hits: SearchOptions, highlight: Highlighter)
    requires Agrees(st, m, wbs, bs, w, hw, hits, highlight)
    ensures FindBucket(bs, key).None? ==> FindIndex(wbs, key) == -1
    ensures FindBucket(bs, key).Some? ==> FindIndex(wbs, key) == FindBucket(bs, key).value
  {
    assert forall i :: 0 <= i < |bs| ==> wbs[i].key == bs[i].key by {
      forall i | 0 <= i < |bs| ensures wbs[i].key == bs[i].key {
        assert BucketAgrees(st, m, wbs[i], bs[i], i, w, hw, hits, highlight);
      }
    }
    var r := FindIndex(wbs, key);
    match FindBucket(bs, key)
    case None =>
    case Some(k) =>
      assert wbs[k].key == key;
      assert r != -1;
      assert !(r < k) && !(k < r);
  }

  /** The nodes of a list with one more nid are the nodes before, then that nid's. */
  lemma HitNodesSnoc(st: IdbStore, m: ValidMatch, nids: seq<Nid>, nid: Nid, hits: SearchOptions, highlight: Highlighter)
    requires forall n :: n in nids ==> n in st.records
    requires nid in st.records
    ensures forall n :: n in nids + [nid] ==> n in st.records
    ensures HitNodes(st, m, nids + [nid], hits, highlight) == HitNodes(st, m, nids, hits, highlight) + [HitNode(st, m, nid, hits, highlight)]
  {
  }

  /** A bucket that takes a nid stays in step with the shared bucket that takes it. */
  lemma TakeAgrees(st: IdbStore, m: ValidMatch, wb: IdbBucket, b: Bucket, k: int, nid: Nid, w: Window, hw: Window,
                   hits: SearchOptions, highlight: Highlighter)
    requires nid in st.records
    requires BucketAgrees(st, m, wb, b, k, w, hw, hits, highlight)
    ensures BucketAgrees(st, m, Take(wb, k, nid, w, hw, HitNode(st, m, nid, hits, highlight)),
                         b.(nids := b.nids + [nid]), k, w, hw, hits, highlight)
  {
    if InWindow(k, w) && 0 <= hw.skip && 0 <= hw.limit {
      PageSnoc(b.nids, nid, hw);
      var p := Page(b.nids, hw);
      if InWindow(|b.nids|, hw) {
        HitNodesSnoc(st, m, p, nid, hits, highlight);
      }
    }
  }

  /** Replacing one bucket on each side by agreeing buckets keeps the descriptions in step. */
  lemma AgreesUpdate(st: IdbStore, m: ValidMatch, wbs: seq<IdbBucket>, bs: seq<Bucket>, k: nat, wb: IdbBucket, b: Bucket,
                     w: Window, hw: Window, hits: SearchOptions, highlight: Highlighter)
    requires Agrees(st, m, wbs, bs, w, hw, hits, highlight)
    requires k < |bs| && BucketAgrees(st, m, wb, b, k, w, hw, hits, highlight)
    ensures Agrees(st, m, wbs[k := wb], bs[k := b], w, hw, hits, highlight)
  {
  }

  /** Pushing an empty bucket on each side keeps the descriptions in step. */
  lemma AgreesPush(st: IdbStore, m: ValidMatch, wbs: seq<IdbBucket>, bs: seq<Bucket>, key: string,
                   w: Window, hw: Window, hits: SearchOptions, highlight: Highlighter)
    requires Agrees(st, m, wbs, bs, w, hw, hits, highlight)
    ensures Agrees(st, m, wbs + [IdbBucket(key, [], [])], bs + [Bucket(key, [])], w, hw, hits, highlight)
  {
    if 0 <= hw.skip && 0 <= hw.limit {
      var none: seq<Nid> := [];
      PageLaws(none, hw);
    }
    assert BucketAgrees(st, m, IdbBucket(key, [], []), Bucket(key, []), |bs|, w, hw, hits, highlight);
  }

  /** A visit of a value not seen before keeps the two descriptions in step. */
  lemma StepNew(st: IdbStore, m: ValidMatch, wbs0: seq<IdbBucket>, bs0: seq<Bucket>, nid: Nid, value: string,
                w: Window, hw: Window, hits: SearchOptions, highlight: Highlighter)
    requires nid in st.records
    requires Agrees(st, m, wbs0, bs0, w, hw, hits, highlight)
    requires FindBucket(bs0, value).None?
    ensures Agrees(st, m, WindowStep(wbs0, nid, value, w, hw, HitNode(st, m, nid, hits, highlight)),
                   AddToBucket(bs0, nid, value), w, hw, hits, highlight)
  {
    FindAgrees(st, m, wbs0, bs0, value, w, hw, hits, highlight);
    var k := |bs0|;
    var wbs1 := wbs0 + [IdbBucket(value, [], [])];
    var bs1 := bs0 + [Bucket(value, [])];
    AgreesPush(st, m, wbs0, bs0, value, w, hw, hits, highlight);
    TakeAgrees(st, m, wbs1[k], bs1[k], k, nid, w, hw, hits, highlight);
    AgreesUpdate(st, m, wbs1, bs1, k, Take(wbs1[k], k, nid, w, hw, HitNode(st, m, nid, hits, highlight)),
                 bs1[k].(nids := bs1[k].nids + [nid]), w, hw, hits, highlight);
    PushFilled(bs0, value, nid);
  }

  /** Pushing an empty bucket and filling it is pushing the filled bucket. */
  lemma PushFilled(bs: seq<Bucket>, key: string, nid: Nid)
    ensures var bs1 := bs + [Bucket(key, [])];
      bs1[|bs| := bs1[|bs|].(nids := bs1[|bs|].nids + [nid])] == bs + [Bucket(key, [nid])]
  {
    var none: seq<Nid> := [];
    assert none + [nid] == [nid];
    UpdateLast(bs, Bucket(key, []), Bucket(key, [nid]));
  }

  /** Replacing the last element of `s + [x]` by `y` gives `s + [y]`. */
  lemma UpdateLast<T>(s: seq<T>, x: T, y: T)
    ensures (s + [x])[|s| := y] == s + [y]
  {
  }

  /** A visit of a value already bucketed keeps the two descriptions in step. */
  lemma StepExisting(st: IdbStore, m: ValidMatch, wbs0: seq<IdbBucket>, bs0: seq<Bucket>, nid: Nid, value: string,
                     w: Window, hw: Window, hits: SearchOptions, highlight: Highlighter)
    requires nid in st.records
    requires Agrees(st, m, wbs0, bs0, w, hw, hits, highlight)
    requires FindBucket(bs0, value).Some?
    ensures Agrees(st, m, WindowStep(wbs0, nid, value, w, hw, HitNode(st, m, nid, hits, highlight)),
                   AddToBucket(bs0, nid, value), w, hw, hits, highlight)
  {
    FindAgrees(st, m, wbs0, bs0, value, w, hw, hits, highlight);
    var k := FindBucket(bs0, value).value;
    assert BucketAgrees(st, m, wbs0[k], bs0[k], k, w, hw, hits, highlight);
    TakeAgrees(st, m, wbs0[k], bs0[k], k, nid, w, hw, hits, highlight);
    AgreesUpdate(st, m, wbs0, bs0, k, Take(wbs0[k], k, nid, w, hw, HitNode(st, m, nid, hits, highlight)),
                 bs0[k].(nids := bs0[k].nids + [nid]), w, hw, hits, highlight);
  }

  lemma {:induction false} WindowedAgrees(st: IdbStore, m: ValidMatch, es: seq<Entry>, w: Window, hw: Window,
                                          hits: SearchOptions, highlight: Highlighter)
    requires forall i :: 0 <= i < |es| ==> es[i].0 in st.records
    ensures Agrees(st, m, WindowedBuckets(st, m, es, w, hw, hits, highlight), BucketsOf(es), w, hw, hits, highlight)
    decreases |es|
  {
    if es != [] {
      var init, e := es[..|es| - 1], es[|es| - 1];
      WindowedAgrees(st, m, init, w, hw, hits, highlight);
      var wbs0 := WindowedBuckets(st, m, init, w, hw, hits, highlight);
      var bs0 := BucketsOf(init);
      if FindBucket(bs0, e.1).None? {
        StepNew(st, m, wbs0, bs0, e.0, e.1, w, hw, hits, highlight);
      } else {
        StepExisting(st, m, wbs0, bs0, e.0, e.1, w, hw, hits, highlight);
      }
    }
  }

  /** `count` is the number of distinct values the matched records have in the field, whatever the window. */
  lemma IdbAggregateCount(st: IdbStore, m: ValidMatch, field: string, options: AggregateOptions, highlight: Highlighter)
    ensures var es := IdbEntries(st, ToArray(m), field);
      && IdbAggregateOf(st, m, field, options, highlight).pagination ==
           PaginationOf(|BucketsOf(es)|, WindowOf(options.pagination, DefaultLimit))
      && IdbAggregateOf(st, m, field, options, highlight).pagination.count == |ValuesVisited(es)|
  {
    var es := IdbEntries(st, ToArray(m), field);
    WindowedAgrees(st, m, es, WindowOf(options.pagination, DefaultLimit), HitWindow(options), HitOptions(options), highlight);
    BucketCount(es);
  }

  /** The aggregate's `i`-th bucket is the result of the windowed bucket at `skip + i`. */
  lemma {:induction false} IdbAggregateAt(st: IdbStore, m: ValidMatch, field: string, options: AggregateOptions, highlight: Highlighter, i: nat)
    requires 0 <= WindowOf(options.pagination, DefaultLimit).skip && 0 <= WindowOf(options.pagination, DefaultLimit).limit
    requires i < |IdbAggregateOf(st, m, field, options, highlight).buckets|
    ensures var wbs := IdbBucketsFor(st, m, field, options, highlight);
      var w := WindowOf(options.pagination, DefaultLimit);
      && w.skip + i < |wbs| && InWindow(w.skip + i, w)
      && IdbAggregateOf(st, m, field, options, highlight).buckets[i] == IdbBucketResult(m, wbs[w.skip + i], options)
  {
    var wbs := IdbBucketsFor(st, m, field, options, highlight);
    var w := WindowOf(options.pagination, DefaultLimit);
    var r := IdbAggregateOf(st, m, field, options, highlight);
    PageLaws(wbs, w);
    PageIsWindow(wbs, w);
    assert w.skip < |wbs|;
    assert JsArrays.RelativeIndex(w.skip, |wbs|) == w.skip;
    assert r.buckets[i] == IdbBucketResult(m, Page(wbs, w)[i], options);
  }

  /** Pages of two lists of the same length have the same length. */
  lemma PageLengths<S, T>(a: seq<S>, b: seq<T>, w: Window)
    requires |a| == |b| && 0 <= w.skip && 0 <= w.limit
    ensures |Page(a, w)| == |Page(b, w)|
  {
    PageLaws(a, w);
    PageLaws(b, w);
  }

  /**
   * A returned bucket as the memory backend returns the shared bucket `sb`: its key, its size, the
   * score of its first record, and, when hits are asked for, a hit pagination over all its records
   * and, for a non-negative hit window, the nodes of its hit page.
   */
  predicate ReturnedAs(st: IdbStore, m: ValidMatch, b: AggregateBucket, sb: Bucket, options: AggregateOptions,
                       highlight: Highlighter)
  {
    && sb.nids != []
    && b.key == sb.key
    && b.count == |sb.nids|
    && b.score == GetScore(m, sb.nids[0])
    && (b.hits.Some? <==> options.hits.Some?)
    && (options.hits.Some? ==> b.hits.value.pagination == PaginationOf(|sb.nids|, HitWindow(options)))
    && (options.hits.Some? && 0 <= HitWindow(options).skip && 0 <= HitWindow(options).limit ==>
          && (forall n :: n in Page(sb.nids, HitWindow(options)) ==> n in st.records)
          && b.hits.value.nodes == HitNodes(st, m, Page(sb.nids, HitWindow(options)), HitOptions(options), highlight))
  }

  /**
   * For a non-negative bucket window, the `i`-th returned bucket is the memory backend's: the
   * shared bucket at `skip + i`, with its key, its size, the score of its first record, and, when
   * hits are asked for, a hit pagination over all its records and, for a non-negative hit window,
   * the nodes of its hit page.
   */
  lemma {:induction false} IdbAggregateBucketAt(st: IdbStore, m: ValidMatch, field: string, options: AggregateOptions, highlight: Highlighter, i: nat)
    requires 0 <= WindowOf(options.pagination, DefaultLimit).skip && 0 <= WindowOf(options.pagination, DefaultLimit).limit
    requires i < |IdbAggregateOf(st, m, field, options, highlight).buckets|
    ensures var bs := BucketsOf(IdbEntries(st, ToArray(m), field));
      var k := WindowOf(options.pagination, DefaultLimit).skip + i;
      k < |bs| && ReturnedAs(st, m, IdbAggregateOf(st, m, field, options, highlight).buckets[i], bs[k], options, highlight)
  {
    var es := IdbEntries(st, ToArray(m), field);
    var bs := BucketsOf(es);
    var w := WindowOf(options.pagination, DefaultLimit);
    var wbs := IdbBucketsFor(st, m, field, options, highlight);
    var k := w.skip + i;
    IdbAggregateAt(st, m, field, options, highlight, i);
    WindowedBucketAt(st, m, es, w, options, highlight, k);
  }

  /** A windowed bucket inside the bucket window is returned as the shared bucket at its index. */
  lemma WindowedBucketAt(st: IdbStore, m: ValidMatch, es: seq<Entry>, w: Window, options: AggregateOptions,
                         highlight: Highlighter, k: nat)
    requires forall i :: 0 <= i < |es| ==> es[i].0 in st.records
    requires k < |WindowedBuckets(st, m, es, w, HitWindow(options), HitOptions(options), highlight)| && InWindow(k, w)
    ensures k < |BucketsOf(es)|
    ensures ReturnedAs(st, m, IdbBucketResult(m, WindowedBuckets(st, m, es, w, HitWindow(options), HitOptions(options), highlight)[k], options),
                       BucketsOf(es)[k], options, highlight)
  {
    var hw, hits := HitWindow(options), HitOptions(options);
    WindowedAgrees(st, m, es, w, hw, hits, highlight);
    var bs := BucketsOf(es);
    var wbs := WindowedBuckets(st, m, es, w, hw, hits, highlight);
    assert bs[k] in bs;
    assert BucketAgrees(st, m, wbs[k], bs[k], k, w, hw, hits, highlight);
    ResultAgrees(st, m, wbs[k], bs[k], k, w, options, highlight);
  }

  /** The result of a bucket inside the bucket window that agrees with a non-empty shared bucket. */
  lemma ResultAgrees(st: IdbStore, m: ValidMatch, wb: IdbBucket, b: Bucket, k: int, w: Window,
                     options: AggregateOptions, highlight: Highlighter)
    requires BucketAgrees(st, m, wb, b, k, w, HitWindow(options), HitOptions(options), highlight)
    requires InWindow(k, w) && b.nids != []
    ensures ReturnedAs(st, m, IdbBucketResult(m, wb, options), b, options, highlight)
  {
  }

  /** For a non-negative bucket window, as many buckets come back as the shared buckets' page holds. */
  lemma IdbAggregateLength(st: IdbStore, m: ValidMatch, field: string, options: AggregateOptions, highlight: Highlighter)
    requires 0 <= WindowOf(options.pagination, DefaultLimit).skip && 0 <= WindowOf(options.pagination, DefaultLimit).limit
    ensures |IdbAggregateOf(st, m, field, options, highlight).buckets| ==
            |Page(BucketsOf(IdbEntries(st, ToArray(m), field)), WindowOf(options.pagination, DefaultLimit))|
  {
    var es := IdbEntries(st, ToArray(m), field);
    var w := WindowOf(options.pagination, DefaultLimit);
    WindowedAgrees(st, m, es, w, HitWindow(options), HitOptions(options), highlight);
    PageLengths(IdbBucketsFor(st, m, field, options, highlight), BucketsOf(es), w);
  }

  /** Every index with its postings cleared, as `initialize(true)` leaves them. */
  function ClearPostings(indexes: map<string, InvertedIndex>): (r: map<string, InvertedIndex>)
    ensures r.Keys == indexes.Keys
    ensures forall f :: f in r ==> r[f] == indexes[f].(postings := [])
  {
    map f | f in indexes :: indexes[f].(postings := [])
  }

  /** Clearing the stores of a valid database leaves it valid, whatever the key generator says. */
  lemma ClearedValid(st: IdbStore)
    requires IdbValid(st)
    ensures IdbValid(IdbStore(map[], map[], st.nextKey, ClearPostings(st.indexes)))
  {
  }

  /** The IndexedDB backend's `DataStruct`. */
  class DataStruct {
    /** `database !== null`. */
    var initialized: bool
    var records: map<Nid, IdbRecord>
    var idIndex: map<string, Nid>
    var nextKey: nat
    var invertedIndex: map<string, InvertedIndex>

    function State(): IdbStore
      reads this
    {
      IdbStore(records, idIndex, nextKey, invertedIndex)
    }

    ghost predicate Valid()
      reads this
    {
      IdbValid(State())
    }

    constructor Empty(indexes: map<string, InvertedIndex>)
      requires forall f :: f in indexes ==> indexes[f].field == f && indexes[f].postings == []
      ensures Valid() && !initialized
      ensures State() == IdbStore(map[], map[], 1, indexes)
    {
      initialized := false;
      records := map[];
      idIndex := map[];
      nextKey := 1;
      invertedIndex := indexes;
    }

    /**
     * `new DataStruct(name, schema)`: one index per field, of the field's kind; the first field of
     * an unsupported type throws. The database is not open yet.
     */
    static method Create(schema: Schema) returns (r: Result<DataStruct, Error>)
      requires DistinctFields(schema)
      ensures IndexesFor(schema).Err? ==> r == Err(IndexesFor(schema).error)
      ensures IndexesFor(schema).Ok? ==>
        r.Ok? && fresh(r.value) && r.value.Valid() && !r.value.initialized &&
        r.value.State() == IdbStore(map[], map[], 1, IndexesFor(schema).value)
    {
      var indexes := BuildIndexes(schema);
      if indexes.Err? {
        return Err(indexes.error);
      }
      var ds := new DataStruct.Empty(indexes.value);
      return Ok(ds);
    }

    /**
     * `initialize(cleanup)`: opens the database, whose stored records, `id` index, key generator
     * and postings are `disk`; with `cleanup` the stores are cleared, which does not reset the key
     * generator.
     */
    method Initialize(cleanup: bool, disk: IdbStore)
      requires Valid()
      requires IdbValid(disk) && disk.indexes.Keys == invertedIndex.Keys
      requires forall f :: f in disk.indexes ==> disk.indexes[f].kind == invertedIndex[f].kind
      modifies this
      ensures Valid() && initialized
      ensures !cleanup ==> State() == disk
      ensures cleanup ==> records == map[] && idIndex == map[] && nextKey == disk.nextKey
      ensures cleanup ==>
      && invertedIndex.Keys == disk.indexes.Keys
      && (forall f :: f in invertedIndex ==> invertedIndex[f] == disk.indexes[f].(postings := []))
    {
      initialized := true;
      records := disk.records;
      idIndex := disk.idIndex;
      nextKey := disk.nextKey;
      invertedIndex := disk.indexes;
      if cleanup {
        records := map[];
        idIndex := map[];
        invertedIndex := ClearPostings(invertedIndex);
        ClearedValid(disk);
      }
    }

    /** `insert(trx, document)`. */
    method Insert(doc: Document) returns (err: Option<Error>)
      requires Valid() && doc.Valid()
      modifies this
      ensures Valid() && initialized == old(initialized)
      ensures !initialized ==> err == Some(NotInitialized) && State() == old(State())
      ensures initialized ==> IdbOutcome(State(), err) == IdbInsertSpec(old(State()), doc.Value())
    {
      if !initialized {
        return Some(NotInitialized);
      }
      IdbInsertKeepsValid(State(), doc.Value());
      if doc.id in idIndex {
        return Some(DocumentAlreadyExists);
      }
      var nid := nextKey;
      records := records[nid := IdbRecord(doc.id, doc.fields)];
      idIndex := idIndex[doc.id := nid];
      nextKey := nextKey + 1;
      err := IndexFields(nid, doc);
    }

    /** `insert`'s loop over the document's fields: each field's values go into its index at once. */
    method IndexFields(nid: Nid, doc: Document) returns (err: Option<Error>)
      requires doc.Valid()
      modifies this
      ensures initialized == old(initialized) && records == old(records) && idIndex == old(idIndex) && nextKey == old(nextKey)
      ensures (invertedIndex, err) == IdbIndexFields(old(invertedIndex), nid, doc.Value(), 0)
    {
      ghost var d := doc.Value();
      for i := 0 to |doc.keys|
        invariant initialized == old(initialized) && records == old(records) && idIndex == old(idIndex) && nextKey == old(nextKey)
        invariant IdbIndexFields(invertedIndex, nid, d, i) == IdbIndexFields(old(invertedIndex), nid, d, 0)
      {
        var key := doc.keys[i];
        ghost var before := invertedIndex;
        assert key == d.keys[i] && Get(d, key) == doc.fields[key];
        if key !in invertedIndex {
          assert IdbIndexFields(before, nid, d, i) == (before, Some(InvertedIndexNotFound(key)));
          return Some(InvertedIndexNotFound(key));
        }
        invertedIndex := AddPosting(invertedIndex, key, Posting(nid, doc.fields[key]));
        assert IdbIndexFields(before, nid, d, i) == IdbIndexFields(invertedIndex, nid, d, i + 1);
      }
      assert IdbIndexFields(invertedIndex, nid, d, |doc.keys|) == (invertedIndex, None);
      return None;
    }

    /** `delete(trx, id)`: removes the record of a stored id; an unknown id is no error. */
    method Delete(id: string) returns (err: Option<Error>)
      requires Valid()
      modifies this
      ensures Valid() && initialized == old(initialized)
      ensures !initialized ==> err == Some(NotInitialized) && State() == old(State())
      ensures initialized ==> err.None? && State() == IdbDeleteSpec(old(State()), id)
    {
      if !initialized {
        return Some(NotInitialized);
      }
      IdbDeleteRemoves(State(), id);
      var nid := if id in idIndex then Some(idIndex[id]) else None;
      if Truthy(nid) {
        records := records - {nid.value};
        idIndex := idIndex - {id};
      }
      return None;
    }

    /** `batchWrite(deletes, inserts)`: every delete, then every insert, until one throws. */
    method BatchWrite(deletes: seq<string>, inserts: seq<Document>) returns (err: Option<Error>)
      requires Valid()
      requires forall d :: d in inserts ==> d.Valid()
      modifies this
      ensures Valid() && initialized == old(initialized)
      ensures !initialized ==> err == Some(NotInitialized) && State() == old(State())
      ensures initialized ==> IdbOutcome(State(), err) == BatchWriteSpec(old(State()), deletes, old(DocValues(inserts)))
    {
      if !initialized {
        return Some(NotInitialized);
      }
      DeleteEach(deletes);
      err := InsertEach(inserts);
    }

    /** `batchWrite`'s loop over the deletes. */
    method DeleteEach(ids: seq<string>)
      requires Valid() && initialized
      modifies this
      ensures Valid() && initialized
      ensures State() == DeleteAll(old(State()), ids)
    {
      for i := 0 to |ids|
        invariant Valid() && initialized
        invariant State() == DeleteAll(old(State()), ids[..i])
      {
        assert ids[..i + 1][..i] == ids[..i];
        var _ := Delete(ids[i]);
      }
      assert ids[..|ids|] == ids;
    }

    /** `batchWrite`'s loop over the inserts, left at the first that throws. */
    method InsertEach(docs: seq<Document>) returns (err: Option<Error>)
      requires Valid() && initialized
      requires forall d :: d in docs ==> d.Valid()
      modifies this
      ensures Valid() && initialized
      ensures IdbOutcome(State(), err) == InsertAll(old(State()), old(DocValues(docs)))
    {
      ghost var values := DocValues(docs);
      ghost var goal := InsertAll(State(), values);
      assert DocsAre(docs, values) by {
        forall j | 0 <= j < |docs| ensures docs[j].Valid() {
          assert docs[j] in docs;
        }
      }
      for i := 0 to |docs|
        invariant Valid() && initialized
        invariant InsertAll(State(), values[i..]) == goal
        invariant DocsAre(docs, values)
      {
        err := InsertNext(docs, values, i, goal);
        if err.Some? {
          return;
        }
      }
      assert values[|docs|..] == [];
      return None;
    }

    /** One pass of `batchWrite`'s insert loop: `insert` of the `i`-th document. */
    method InsertNext(docs: seq<Document>, ghost values: seq<DocumentValue>, i: nat, ghost goal: IdbOutcome)
      returns (err: Option<Error>)
      requires Valid() && initialized && DocsAre(docs, values) && i < |docs|
      requires InsertAll(State(), values[i..]) == goal
      modifies this
      ensures Valid() && initialized && DocsAre(docs, values)
      ensures err.Some? ==> IdbOutcome(State(), err) == goal
      ensures err.None? ==> InsertAll(State(), values[i + 1..]) == goal
    {
      InsertAllFrom(State(), values, i);
      err := Insert(docs[i]);
    }

    /** `matchAll(trx)`: every key `getAllKeys()` lists, ascending, scored 1. */
    method MatchAll() returns (m: ValidMatch)
      ensures m == IdbAllOf(State())
    {
      m := ScoreAll(AllKeys(State()));
    }

    /** `search(query, options)`: nodes are read record by record. */
    method Search(q: Query, options: SearchOptions, lookup: Lookup, highlight: Highlighter)
      returns (r: Result<SearchResult, Error>)
      ensures !initialized ==> r == Err(NotInitialized)
      ensures initialized ==>
        r == (match IdbQuerySpec(State(), q, lookup)
              case Err(e) => Err(e)
              case Ok(m) => IdbSearchOf(State(), m, options, highlight))
    {
      if !initialized {
        return Err(NotInitialized);
      }
      var st := State();
      var w := WindowOf(options.pagination, DefaultLimit);
      var query := IdbQuerySpec(st, q, lookup);
      if query.Err? {
        return Err(query.error);
      }
      var m := query.value;
      var nodes := ReadNodes(st, m, Page(ToArray(m), w), options, highlight);
      if nodes.Err? {
        return Err(nodes.error);
      }
      return Ok(SearchResult(PaginationOf(Size(m), w), nodes.value));
    }

    /** `aggregate(query, field, options)`: the windowed bucketing walk is the nested loop of the source. */
    method Aggregate(q: Query, field: string, options: AggregateOptions, lookup: Lookup, highlight: Highlighter)
      returns (r: Result<AggregateResult, Error>)
      ensures !initialized ==> r == Err(NotInitialized)
      ensures initialized ==>
        r == (match IdbQuerySpec(State(), q, lookup)
              case Err(e) => Err(e)
              case Ok(m) => Ok(IdbAggregateOf(State(), m, field, options, highlight)))
    {
      if !initialized {
        return Err(NotInitialized);
      }
      var st := State();
      var query := IdbQuerySpec(st, q, lookup);
      if query.Err? {
        return Err(query.error);
      }
      var m := query.value;
      var w := WindowOf(options.pagination, DefaultLimit);
      var buckets := WindowedWalk(st, m, ToArray(m), field, w, HitWindow(options), HitOptions(options), highlight);
      assert buckets == IdbBucketsFor(st, m, field, options, highlight);
      return Ok(IdbResultOf(m, buckets, options));
    }

    /** `has(id)` as written: the lookup's promise is compared with `undefined`, so it is always true. */
    function Has(id: string): (r: Result<bool, Error>)
      reads this
      ensures !initialized ==> r == Err(NotInitialized)
      ensures initialized ==> r == Ok(true)
    {
      if !initialized then Err(NotInitialized) else Ok(true)
    }

    /** `has(id)` with the lookup awaited: whether a record with that id is stored. */
    function HasAwaited(id: string): (r: Result<bool, Error>)
      reads this
      ensures !initialized ==> r == Err(NotInitialized)
      ensures initialized && Valid() ==> (r == Ok(true) <==> exists k :: k in records && records[k].id == id)
    {
      if !initialized then Err(NotInitialized) else Ok(id in idIndex)
    }
  }

  /** `has` as written answers true for an id that was never stored. */
  lemma HasIgnoresStore(ds: DataStruct, id: string)
    requires ds.initialized && id !in ds.idIndex
    ensures ds.Has(id) == Ok(true)
    ensures ds.Valid() ==> ds.HasAwaited(id) == Ok(false)
  {
  }

  /** `search`'s loop reading the page's records into nodes; a missing record throws. */
  method ReadNodes(st: IdbStore, m: ValidMatch, nids: seq<Nid>, options: SearchOptions, highlight: Highlighter)
    returns (r: Result<seq<SearchNode>, Error>)
    ensures r == ResultNodes(st, m, nids, options, highlight)
  {
    var nodes := [];
    for i := 0 to |nids|
      invariant ResultNodes(st, m, nids[..i], options, highlight) == Ok(nodes)
    {
      ReadStep(st, m, nids, i, nodes, options, highlight);
      var node := IdbResultNode(st, m, nids[i], options, highlight);
      if node.Err? {
        return Err(node.error);
      }
      nodes := nodes + [node.value];
    }
    Whole(nids);
    return Ok(nodes);
  }

  lemma Whole<T>(s: seq<T>)
    ensures s[..|s|] == s
  {
  }

  lemma PrefixSnoc<T>(s: seq<T>, i: nat)
    requires i < |s|
    ensures s[..i + 1][..i] == s[..i] && s[..i + 1][i] == s[i] && s[..i + 1] + s[i + 1..] == s
  {
  }

  /** Reading the `i`-th node: its error is the loop's, or its node extends the nodes read so far. */
  lemma ReadStep(st: IdbStore, m: ValidMatch, nids: seq<Nid>, i: nat, nodes: seq<SearchNode>,
                 options: SearchOptions, highlight: Highlighter)
    requires i < |nids| && ResultNodes(st, m, nids[..i], options, highlight) == Ok(nodes)
    ensures IdbResultNode(st, m, nids[i], options, highlight).Err? ==>
      ResultNodes(st, m, nids, options, highlight) == Err(IdbResultNode(st, m, nids[i], options, highlight).error)
    ensures IdbResultNode(st, m, nids[i], options, highlight).Ok? ==>
      ResultNodes(st, m, nids[..i + 1], options, highlight) == Ok(nodes + [IdbResultNode(st, m, nids[i], options, highlight).value])
  {
    PrefixSnoc(nids, i);
    if IdbResultNode(st, m, nids[i], options, highlight).Err? {
      ResultNodesSticky(st, m, nids[..i + 1], nids[i + 1..], options, highlight);
    }
  }

  /** `aggregate`'s outer loop over the matched nids, in `toArray()` order. */
  method WindowedWalk(st: IdbStore, m: ValidMatch, nids: seq<Nid>, field: string, w: Window, hw: Window,
                      hits: SearchOptions, highlight: Highlighter) returns (buckets: seq<IdbBucket>)
    ensures buckets == WindowedBuckets(st, m, IdbEntries(st, nids, field), w, hw, hits, highlight)
  {
    buckets := [];
    for i := 0 to |nids|
      invariant buckets == WindowedBuckets(st, m, IdbEntries(st, nids[..i], field), w, hw, hits, highlight)
    {
      var nid := nids[i];
      var values := IdbValuesOf(st, nid, field);
      assert nids[..i + 1][..i] == nids[..i];
      buckets := WindowedValues(st, m, IdbEntries(st, nids[..i], field), buckets, nid, values, w, hw, hits, highlight);
    }
    assert nids[..|nids|] == nids;
  }

  /** The buckets over one more visit are one `WindowStep` further on. */
  lemma WindowedSnoc(st: IdbStore, m: ValidMatch, es: seq<Entry>, e: Entry, w: Window, hw: Window,
                     hits: SearchOptions, highlight: Highlighter)
    requires forall i :: 0 <= i < |es| ==> es[i].0 in st.records
    requires e.0 in st.records
    ensures forall i :: 0 <= i < |es + [e]| ==> (es + [e])[i].0 in st.records
    ensures WindowedBuckets(st, m, es + [e], w, hw, hits, highlight) ==
      WindowStep(WindowedBuckets(st, m, es, w, hw, hits, highlight), e.0, e.1, w, hw, HitNode(st, m, e.0, hits, highlight))
  {
    Snoc(es, e);
  }

  /** `aggregate`'s inner loop over one record's values. */
  method WindowedValues(st: IdbStore, m: ValidMatch, ghost done: seq<Entry>, buckets: seq<IdbBucket>, nid: Nid,
                        values: seq<string>, w: Window, hw: Window, hits: SearchOptions, highlight: Highlighter)
    returns (r: seq<IdbBucket>)
    requires forall i :: 0 <= i < |done| ==> done[i].0 in st.records
    requires values != [] ==> nid in st.records
    requires buckets == WindowedBuckets(st, m, done, w, hw, hits, highlight)
    ensures forall i :: 0 <= i < |done + Visit(nid, values)| ==> (done + Visit(nid, values))[i].0 in st.records
    ensures r == WindowedBuckets(st, m, done + Visit(nid, values), w, hw, hits, highlight)
  {
    r := buckets;
    assert done + Visit(nid, values[..0]) == done;
    for j := 0 to |values|
      invariant forall i :: 0 <= i < |done + Visit(nid, values[..j])| ==> (done + Visit(nid, values[..j]))[i].0 in st.records
      invariant r == WindowedBuckets(st, m, done + Visit(nid, values[..j]), w, hw, hits, highlight)
    {
      VisitSnoc(done, nid, values, j);
      WindowedSnoc(st, m, done + Visit(nid, values[..j]), (nid, values[j]), w, hw, hits, highlight);
      r := WindowStep(r, nid, values[j], w, hw, HitNode(st, m, nid, hits, highlight));
    }
    assert values[..|values|] == values;
  }
}
