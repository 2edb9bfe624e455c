/**
 * The in-memory indexer backend's `DataStruct`: a list of records addressed by their position
 * (the nid), a map from document id to nid, and one inverted index per schema field. A delete
 * leaves a tombstone: the record stays, flagged and emptied, and its id stays mapped.
 */
module MemoryDataStruct {
  import opened Wrappers
  import opened Matching
  import opened InvertedIndexes
  import opened Searching
  import opened Queries
  import opened Documents

  datatype DataRecord = DataRecord(id: string, data: map<string, seq<string>>, deleted: bool)

  /** The backend's state as a value. */
  datatype Store = Store(records: seq<DataRecord>, idMap: map<string, Nid>, indexes: map<string, InvertedIndex>)

  /** What an operation leaves behind, and the error it threw, if any. */
  datatype Outcome = Outcome(store: Store, error: Option<Error>)

  /**
   * `idMap` maps each record's id to the record's position and nothing else; every index is
   * filed under its own field and names only existing nids.
   */
  ghost predicate StoreValid(s: Store) {
    && (forall id :: id in s.idMap ==> s.idMap[id] < |s.records| && s.records[s.idMap[id]].id == id)
    && (forall i :: 0 <= i < |s.records| ==> s.records[i].id in s.idMap && s.idMap[s.records[i].id] == i)
    && PostingsBelow(s.indexes, |s.records|)
    && (forall f :: f in s.indexes ==> s.indexes[f].field == f)
  }

  /** One posting per value, each holding that one value: the memory indexes insert value by value. */
  function PostingsOf(nid: Nid, values: seq<string>): (r: seq<Posting>)
    ensures |r| == |values|
    ensures forall i :: 0 <= i < |values| ==> r[i] == Posting(nid, [values[i]])
  {
    if values == [] then [] else PostingsOf(nid, values[..|values| - 1]) + [Posting(nid, [values[|values| - 1]])]
  }

  /** `iidx.insert(nid, value)` for each value in turn. */
  function AddPostings(indexes: map<string, InvertedIndex>, key: string, nid: Nid, values: seq<string>): (r: map<string, InvertedIndex>)
    requires key in indexes
    ensures r.Keys == indexes.Keys
    ensures r[key] == indexes[key].(postings := indexes[key].postings + PostingsOf(nid, values))
    ensures forall f :: f in indexes && f != key ==> r[f] == indexes[f]
  {
    if values == [] then
      assert indexes[key].postings + [] == indexes[key].postings;
      indexes
    else
      var init := values[..|values| - 1];
      AddPosting(AddPostings(indexes, key, nid, init), key, Posting(nid, [values[|values| - 1]]))
  }

  /** `key` names a field the schema lacks, while `d` has values for it. */
  predicate Unindexed(indexes: map<string, InvertedIndex>, d: DocumentValue, key: string) {
    Get(d, key) != [] && key !in indexes
  }

  /**
   * The insert's loop over the document's fields from position `from` on: each value of each
   * field goes into that field's index, and the first value of a field the schema lacks throws,
   * keeping what was indexed before it. A field without values is never looked up.
   */
  function IndexFields(indexes: map<string, InvertedIndex>, nid: Nid, d: DocumentValue, from: nat)
    : (r: (map<string, InvertedIndex>, Option<Error>))
    requires from <= |d.keys|
    decreases |d.keys| - from
    ensures r.0.Keys == indexes.Keys
    ensures forall f :: f in r.0 ==> r.0[f].field == indexes[f].field
  {
    if from == |d.keys| then (indexes, None)
    else
      var key := d.keys[from];
      var values := Get(d, key);
      if values == [] then IndexFields(indexes, nid, d, from + 1)
      else if key !in indexes then (indexes, Some(InvertedIndexNotFound(key)))
      else IndexFields(AddPostings(indexes, key, nid, values), nid, d, from + 1)
  }

  /** The insert's indexing adds postings for the new nid only. */
  lemma {:induction false} IndexFieldsNids(indexes: map<string, InvertedIndex>, nid: Nid, d: DocumentValue, from: nat)
    requires from <= |d.keys|
    ensures forall f, n :: f in indexes && n in PostingNids(IndexFields(indexes, nid, d, from).0[f].postings) ==>
      n in PostingNids(indexes[f].postings) || n == nid
    decreases |d.keys| - from
  {
    if from < |d.keys| {
      var key := d.keys[from];
      var values := Get(d, key);
      if values == [] {
        IndexFieldsNids(indexes, nid, d, from + 1);
      } else if key in indexes {
        var next := AddPostings(indexes, key, nid, values);
        IndexFieldsNids(next, nid, d, from + 1);
        forall n | n in PostingNids(next[key].postings)
          ensures n in PostingNids(indexes[key].postings) || n == nid
        {
          var p :| p in next[key].postings && p.nid == n;
          if p !in indexes[key].postings {
            var k :| 0 <= k < |PostingsOf(nid, values)| && PostingsOf(nid, values)[k] == p;
          }
        }
      }
    }
  }

  /** The insert's indexing succeeds exactly when every field with values has an index. */
  lemma {:induction false} IndexFieldsSucceeds(indexes: map<string, InvertedIndex>, nid: Nid, d: DocumentValue, from: nat)
    requires from <= |d.keys|
    ensures IndexFields(indexes, nid, d, from).1.None? <==>
      forall i :: from <= i < |d.keys| ==> !Unindexed(indexes, d, d.keys[i])
    decreases |d.keys| - from
  {
    if from < |d.keys| {
      var key := d.keys[from];
      var values := Get(d, key);
      if values == [] {
        IndexFieldsSucceeds(indexes, nid, d, from + 1);
      } else if key in indexes {
        var next := AddPostings(indexes, key, nid, values);
        IndexFieldsSucceeds(next, nid, d, from + 1);
        assert forall k :: Unindexed(next, d, k) <==> Unindexed(indexes, d, k);
      }
    }
  }

  /** Field `i` is the first from `from` on with values and no index, and `err` names it. */
  predicate FailsAt(indexes: map<string, InvertedIndex>, d: DocumentValue, from: nat, i: nat, err: Error) {
    && from <= i < |d.keys| && Unindexed(indexes, d, d.keys[i])
    && err == InvertedIndexNotFound(d.keys[i])
    && forall j :: from <= j < i ==> !Unindexed(indexes, d, d.keys[j])
  }

  /** A failure further on is the first failure when field `from` has an index or no values. */
  lemma FailsAtEarlier(indexes: map<string, InvertedIndex>, next: map<string, InvertedIndex>, d: DocumentValue,
                       from: nat, i: nat, err: Error)
    requires next.Keys == indexes.Keys && from < |d.keys| && !Unindexed(indexes, d, d.keys[from])
    requires FailsAt(next, d, from + 1, i, err)
    ensures FailsAt(indexes, d, from, i, err)
  {
    assert forall k :: Unindexed(next, d, k) <==> Unindexed(indexes, d, k);
  }

  /** When the insert's indexing throws, it names the first field with values and no index. */
  lemma {:induction false} IndexFieldsFails(indexes: map<string, InvertedIndex>, nid: Nid, d: DocumentValue, from: nat)
    requires from <= |d.keys|
    requires IndexFields(indexes, nid, d, from).1.Some?
    ensures exists i :: FailsAt(indexes, d, from, i, IndexFields(indexes, nid, d, from).1.value)
    decreases |d.keys| - from
  {
    var key := d.keys[from];
    var values := Get(d, key);
    var err := IndexFields(indexes, nid, d, from).1.value;
    if values != [] && key !in indexes {
      assert FailsAt(indexes, d, from, from, err);
    } else {
      var next := if values == [] then indexes else AddPostings(indexes, key, nid, values);
      assert IndexFields(indexes, nid, d, from) == IndexFields(next, nid, d, from + 1);
      IndexFieldsFails(next, nid, d, from + 1);
      var i :| FailsAt(next, d, from + 1, i, err);
      FailsAtEarlier(indexes, next, d, from, i, err);
      assert FailsAt(indexes, d, from, i, err);
    }
  }

  /** Each listed key of a well-formed document names one of its fields. */
  lemma KeyHasField(d: DocumentValue, i: nat)
    requires WellFormed(d) && i < |d.keys|
    ensures d.keys[i] in d.fields && Get(d, d.keys[i]) == d.fields[d.keys[i]]
  {
    assert d.keys[i] in (set k | k in d.keys);
  }

  /**
   * What indexing one field's values leaves: a field without an index throws at its first value
   * and changes nothing; a field without values changes nothing; otherwise every value is filed.
   */
  predicate ValuesIndexed(before: map<string, InvertedIndex>, after: map<string, InvertedIndex>, err: Option<Error>,
                          key: string, values: seq<string>, nid: Nid)
  {
    && (values != [] && key !in before ==> err == Some(InvertedIndexNotFound(key)) && after == before)
    && (values == [] ==> err.None? && after == before)
    && (values != [] && key in before ==> err.None? && after == AddPostings(before, key, nid, values))
  }

  /**
   * One pass of the insert's loop over the fields: indexing the values of field `i` either throws,
   * ending the loop with what was indexed so far, or leaves the rest of the loop to do.
   */
  lemma FieldStep(before: map<string, InvertedIndex>, after: map<string, InvertedIndex>, err: Option<Error>,
                  nid: Nid, d: DocumentValue, i: nat)
    requires i < |d.keys|
    requires ValuesIndexed(before, after, err, d.keys[i], Get(d, d.keys[i]), nid)
    ensures err.Some? ==> IndexFields(before, nid, d, i) == (before, err)
    ensures err.None? ==> IndexFields(before, nid, d, i) == IndexFields(after, nid, d, i + 1)
  {
  }

  /** The state after `insert(document)`, and what it throws. */
  function InsertSpec(s: Store, d: DocumentValue): Outcome {
    if d.id in s.idMap then Outcome(s, Some(DocumentAlreadyExists))
    else
      var nid := |s.records|;
      var (indexes, err) := IndexFields(s.indexes, nid, d, 0);
      Outcome(Store(s.records + [DataRecord(d.id, d.fields, false)], s.idMap[d.id := nid], indexes), err)
  }

  /** The state after `delete(id)`, and what it throws. */
  function DeleteSpec(s: Store, id: string): Outcome
    requires StoreValid(s)
  {
    if id !in s.idMap then Outcome(s, Some(DocumentNotFound))
    else
      var nid := s.idMap[id];
      Outcome(s.(records := s.records[nid := s.records[nid].(deleted := true, data := map[])]), None)
  }

  /** `has(id)`. */
  function HasSpec(s: Store, id: string): bool {
    id in s.idMap
  }

  /** Every record slot, deleted ones included, scored 1 (`matchAll`). */
  function AllOf(s: Store): ValidMatch {
    ScoreEach(Range(|s.records|))
  }

  /** Every nid of `m` names a live record of the store. */
  predicate LiveMatch(s: Store, m: ValidMatch) {
    forall n: Nid :: n in Members(m) ==> n < |s.records| && !s.records[n].deleted
  }

  /**
   * `query(q)`: the raw match with tombstoned records filtered out, so it never yields a deleted
   * record, whatever the indexes hold; every live record of the raw match stays, with its score.
   */
  function QuerySpec(s: Store, q: Query, lookup: Lookup): (r: Result<ValidMatch, Error>)
    ensures r.Ok? ==> LiveMatch(s, r.value)
    ensures r.Ok? <==> QueryRaw(q, s.indexes, AllOf(s), lookup).Ok?
    ensures r.Err? ==> r.error == QueryRaw(q, s.indexes, AllOf(s), lookup).error
    ensures r.Ok? ==> forall n: Nid :: n < |s.records| && !s.records[n].deleted ==>
      (n in Members(r.value) <==> n in Members(QueryRaw(q, s.indexes, AllOf(s), lookup).value))
    ensures r.Ok? ==> forall n :: n in Members(r.value) ==>
      GetScore(r.value, n) == GetScore(QueryRaw(q, s.indexes, AllOf(s), lookup).value, n)
  {
    var records := s.records;
    match QueryRaw(q, s.indexes, AllOf(s), lookup)
    case Err(e) => Err(e)
    case Ok(m) => Ok(Filter(m, (n: Nid) => n < |records| && !records[n].deleted))
  }

  /** An insert keeps the store valid, whether or not it throws. */
  lemma InsertKeepsValid(s: Store, d: DocumentValue)
    requires StoreValid(s)
    ensures StoreValid(InsertSpec(s, d).store)
  {
    if d.id !in s.idMap {
      var t := InsertSpec(s, d).store;
      IndexFieldsNids(s.indexes, |s.records|, d, 0);
      forall id | id in t.idMap
        ensures t.idMap[id] < |t.records| && t.records[t.idMap[id]].id == id
      {
        if id != d.id {
          assert t.records[s.idMap[id]] == s.records[s.idMap[id]];
        }
      }
    }
  }

  /**
   * A new id is stored at nid `|records|`, unflagged, whatever happens next; the insert throws
   * exactly when some field with values has no index, and then with the first such field.
   */
  lemma InsertNewId(s: Store, d: DocumentValue)
    requires d.id !in s.idMap
    ensures InsertSpec(s, d).store.records == s.records + [DataRecord(d.id, d.fields, false)]
    ensures InsertSpec(s, d).store.idMap == s.idMap[d.id := |s.records|]
    ensures HasSpec(InsertSpec(s, d).store, d.id)
    ensures InsertSpec(s, d).error.None? <==> forall i :: 0 <= i < |d.keys| ==> !Unindexed(s.indexes, d, d.keys[i])
    ensures InsertSpec(s, d).error.Some? ==>
      exists i :: (0 <= i < |d.keys| && Unindexed(s.indexes, d, d.keys[i]) &&
                   InsertSpec(s, d).error.value == InvertedIndexNotFound(d.keys[i]))
  {
    IndexFieldsSucceeds(s.indexes, |s.records|, d, 0);
    if InsertSpec(s, d).error.Some? {
      IndexFieldsFails(s.indexes, |s.records|, d, 0);
    }
  }

  /** An id already mapped (live or tombstoned) is refused and nothing changes. */
  lemma InsertExistingId(s: Store, d: DocumentValue)
    requires HasSpec(s, d.id)
    ensures InsertSpec(s, d) == Outcome(s, Some(DocumentAlreadyExists))
  {
  }

  /** `f` is among the keys from position `from` on. */
  predicate KeyFrom(keys: seq<string>, from: nat, f: string) {
    exists i :: from <= i < |keys| && keys[i] == f
  }

  /**
   * On a successful insert each schema field's index gains one posting per value of that field,
   * in order; the other indexes are unchanged.
   */
  lemma {:induction false} IndexFieldsPostings(indexes: map<string, InvertedIndex>, nid: Nid, d: DocumentValue, from: nat)
    requires WellFormed(d)
    requires from <= |d.keys|
    requires IndexFields(indexes, nid, d, from).1.None?
    ensures forall f :: f in indexes ==>
      IndexFields(indexes, nid, d, from).0[f].postings ==
        indexes[f].postings + (if KeyFrom(d.keys, from, f) then PostingsOf(nid, Get(d, f)) else [])
    decreases |d.keys| - from
  {
    if from < |d.keys| {
      var key := d.keys[from];
      var values := Get(d, key);
      var next := if values == [] then indexes else AddPostings(indexes, key, nid, values);
      assert IndexFields(indexes, nid, d, from) == IndexFields(next, nid, d, from + 1);
      IndexFieldsPostings(next, nid, d, from + 1);
      var r := IndexFields(next, nid, d, from + 1).0;
      forall f | f in indexes
        ensures r[f].postings ==
          indexes[f].postings + (if KeyFrom(d.keys, from, f) then PostingsOf(nid, Get(d, f)) else [])
      {
        if f == key {
          assert !KeyFrom(d.keys, from + 1, key);
          assert KeyFrom(d.keys, from, key);
          if values == [] {
            assert PostingsOf(nid, values) == [];
          }
        } else {
          assert KeyFrom(d.keys, from, f) <==> KeyFrom(d.keys, from + 1, f);
        }
      }
    }
  }

  /**
   * A successful insert of a new document indexes exactly its values: each schema field gains
   * one posting per value of that field, in order.
   */
  lemma InsertIndexesValues(s: Store, d: DocumentValue)
    requires WellFormed(d)
    requires d.id !in s.idMap && InsertSpec(s, d).error.None?
    ensures forall f :: f in s.indexes ==>
      InsertSpec(s, d).store.indexes[f].postings == s.indexes[f].postings + PostingsOf(|s.records|, Get(d, f))
  {
    IndexFieldsPostings(s.indexes, |s.records|, d, 0);
    forall f | f in s.indexes && !KeyFrom(d.keys, 0, f)
      ensures PostingsOf(|s.records|, Get(d, f)) == []
    {
      assert f !in d.keys;
      assert f !in d.fields;
    }
  }

  /** A delete keeps the store valid. */
  lemma DeleteKeepsValid(s: Store, id: string)
    requires StoreValid(s)
    ensures StoreValid(DeleteSpec(s, id).store)
  {
  }

  /**
   * Deleting a mapped id tombstones its record (flagged, data emptied) and changes nothing else:
   * the id stays mapped, so `has` stays true and re-inserting that id throws. An unmapped id
   * throws and changes nothing.
   */
  lemma DeleteTombstones(s: Store, id: string, d: DocumentValue)
    requires StoreValid(s)
    requires d.id == id
    ensures id !in s.idMap ==> DeleteSpec(s, id) == Outcome(s, Some(DocumentNotFound))
    ensures id in s.idMap ==>
      var t := DeleteSpec(s, id).store;
      && DeleteSpec(s, id).error.None?
      && |t.records| == |s.records|
      && t.records[s.idMap[id]] == DataRecord(id, map[], true)
      && (forall i :: 0 <= i < |s.records| && i != s.idMap[id] ==> t.records[i] == s.records[i])
      && t.idMap == s.idMap && t.indexes == s.indexes
      && HasSpec(t, id)
      && InsertSpec(t, d) == Outcome(t, Some(DocumentAlreadyExists))
  {
  }

  /** `all` after tombstoning: every live record scores 1; deleted ones are filtered out. */
  lemma AllIsLive(s: Store, lookup: Lookup)
    ensures QuerySpec(s, AllQuery, lookup).Ok?
    ensures forall n: Nid :: n in Members(QuerySpec(s, AllQuery, lookup).value) <==> n < |s.records| && !s.records[n].deleted
    ensures forall n: Nid :: n in Members(QuerySpec(s, AllQuery, lookup).value) ==> GetScore(QuerySpec(s, AllQuery, lookup).value, n) == 1.0
  {
    var all := AllOf(s);
    forall n: Nid | n < |s.records|
      ensures n in Members(all)
    {
      assert Range(|s.records|)[n] == n;
    }
  }

  /** The memory backend's `DataStruct`. */
  class DataStruct {
    var records: seq<DataRecord>
    var idMap: map<string, Nid>
    var invertedIndex: map<string, InvertedIndex>

    function State(): Store
      reads this
    {
      Store(records, idMap, invertedIndex)
    }

    ghost predicate Valid()
      reads this
    {
      StoreValid(State())
    }

    constructor Empty(indexes: map<string, InvertedIndex>)
      requires forall f :: f in indexes ==> indexes[f].field == f && indexes[f].postings == []
      ensures Valid()
      ensures State() == Store([], map[], indexes)
    {
      records := [];
      idMap := map[];
      invertedIndex := indexes;
    }

    /**
     * `new DataStruct(schema)`: one index per field, of the field's kind; the first field of an
     * unsupported type throws.
     */
    static method Create(schema: Schema) returns (r: Result<DataStruct, Error>)
      requires DistinctFields(schema)
      ensures IndexesFor(schema).Err? ==> r == Err(IndexesFor(schema).error)
      ensures IndexesFor(schema).Ok? ==>
        r.Ok? && fresh(r.value) && r.value.Valid() && r.value.State() == Store([], map[], IndexesFor(schema).value)
    {
      var indexes := BuildIndexes(schema);
      if indexes.Err? {
        return Err(indexes.error);
      }
      var ds := new DataStruct.Empty(indexes.value);
      return Ok(ds);
    }

    /** `insert(document)`. */
    method Insert(doc: Document) returns (err: Option<Error>)
      requires Valid() && doc.Valid()
      modifies this
      ensures Valid()
      ensures Outcome(State(), err) == InsertSpec(old(State()), doc.Value())
    {
      InsertKeepsValid(State(), doc.Value());
      if doc.id in idMap {
        return Some(DocumentAlreadyExists);
      }
      ghost var d := doc.Value();
      ghost var s0 := State();
      var nid := |records|;
      records := records + [DataRecord(doc.id, doc.fields, false)];
      idMap := idMap[doc.id := nid];
      var i := 0;
      while i < |doc.keys|
        invariant i <= |doc.keys| == |d.keys|
        invariant records == s0.records + [DataRecord(d.id, d.fields, false)]
        invariant idMap == s0.idMap[d.id := nid] && nid == |s0.records|
        invariant IndexFields(invertedIndex, nid, d, i) == IndexFields(s0.indexes, nid, d, 0)
      {
        var key := doc.keys[i];
        ghost var before := invertedIndex;
        KeyHasField(d, i);
        err := IndexValues(key, doc.fields[key], nid);
        FieldStep(before, invertedIndex, err, nid, d, i);
        if err.Some? {
          return;
        }
        i := i + 1;
      }
      assert IndexFields(invertedIndex, nid, d, i) == (invertedIndex, None);
      return None;
    }

    /**
     * The insert's inner loop over one field's values: each value goes into the field's index;
     * the first value of a field with no index throws.
     */
    method IndexValues(key: string, values: seq<string>, nid: Nid) returns (err: Option<Error>)
      modifies this
      ensures records == old(records) && idMap == old(idMap)
      ensures ValuesIndexed(old(invertedIndex), invertedIndex, err, key, values, nid)
    {
      for j := 0 to |values|
        invariant records == old(records) && idMap == old(idMap)
        invariant j == 0 ==> invertedIndex == old(invertedIndex)
        invariant 0 < j ==> key in old(invertedIndex) && invertedIndex == AddPostings(old(invertedIndex), key, nid, values[..j])
      {
        if key !in invertedIndex {
          return Some(InvertedIndexNotFound(key));
        }
        assert values[..j + 1][..j] == values[..j];
        invertedIndex := AddPosting(invertedIndex, key, Posting(nid, [values[j]]));
      }
      assert values[..|values|] == values;
      return None;
    }

    /** `delete(id)`. */
    method Delete(id: string) returns (err: Option<Error>)
      requires Valid()
      modifies this
      ensures Valid()
      ensures Outcome(State(), err) == DeleteSpec(old(State()), id)
    {
      DeleteKeepsValid(State(), id);
      if id !in idMap {
        return Some(DocumentNotFound);
      }
      var nid := idMap[id];
      records := records[nid := records[nid].(deleted := true)];
      records := records[nid := records[nid].(data := map[])];
      return None;
    }

    /** `matchAll()`: every nid from 0 to `records.length - 1`, each scored 1. */
    method MatchAll() returns (m: ValidMatch)
      ensures m == AllOf(State())
    {
      m := Matching.Empty();
      for i := 0 to |records|
        invariant m == ScoreEach(Range(i))
      {
        assert Range(i + 1)[..i] == Range(i);
        m := AddScore(m, i, 1.0);
      }
    }

    /** `query(q)`. */
    function Query(q: Query, lookup: Lookup): Result<ValidMatch, Error>
      reads this
    {
      QuerySpec(State(), q, lookup)
    }

    /** `has(id)`. */
    function Has(id: string): bool
      reads this
    {
      HasSpec(State(), id)
    }
  }
}
