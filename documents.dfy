/**
 * The indexer's `Document`: an id fixed at construction and a multi-valued field bag, a JS `Map`
 * from field name to the list of its string values. A `Map` remembers the order in which its keys
 * were first set; `keys` records that order, `fields` the contents.
 */
module Documents {

  /** What `insert` accepts: one string, or an array of strings. */
  datatype FieldValue = Single(value: string) | Multiple(values: seq<string>)

  /** The strings a `FieldValue` contributes, in order. */
  function Values(v: FieldValue): seq<string> {
    match v
    case Single(s) => [s]
    case Multiple(vs) => vs
  }

  /** A document's content as a value: its id, its field names in insertion order, its fields. */
  datatype DocumentValue = DocumentValue(id: string, keys: seq<string>, fields: map<string, seq<string>>)

  /** The keys are listed once each, and are exactly the fields present. */
  predicate WellFormed(d: DocumentValue) {
    && (forall i, j :: 0 <= i < j < |d.keys| ==> d.keys[i] != d.keys[j])
    && (set k | k in d.keys) == d.fields.Keys
  }

  /** The values stored under `field`, the empty list when it has none (`fields.get(field) ?? []`). */
  function Get(d: DocumentValue, field: string): seq<string> {
    if field in d.fields then d.fields[field] else []
  }

  /** The document after `insert(field, v)`. */
  function Inserted(d: DocumentValue, field: string, v: FieldValue): (r: DocumentValue)
    requires WellFormed(d)
    ensures WellFormed(r)
    ensures r.id == d.id
    ensures Get(r, field) == Get(d, field) + Values(v)
    ensures forall f :: f != field ==> (f in r.fields <==> f in d.fields) && Get(r, f) == Get(d, f)
    ensures field in d.fields ==> r.keys == d.keys
    ensures field !in d.fields ==> r.keys == d.keys + [field]
  {
    var keys := if field in d.fields then d.keys else d.keys + [field];
    DocumentValue(d.id, keys, d.fields[field := Get(d, field) + Values(v)])
  }

  /** The key of every entry, in order. */
  function EntryKeys(entries: seq<(string, FieldValue)>): (r: seq<string>)
    ensures |r| == |entries|
    ensures forall i :: 0 <= i < |entries| ==> r[i] == entries[i].0
  {
    if entries == [] then [] else EntryKeys(entries[..|entries| - 1]) + [entries[|entries| - 1].0]
  }

  /** The keys of an object literal are distinct. */
  predicate DistinctKeys(entries: seq<(string, FieldValue)>) {
    forall i, j :: 0 <= i < j < |entries| ==> entries[i].0 != entries[j].0
  }

  /** The document `Document.from(id, map)` builds: one `insert` per entry, in enumeration order. */
  function FromEntries(id: string, entries: seq<(string, FieldValue)>): (r: DocumentValue)
    ensures WellFormed(r) && r.id == id
  {
    if entries == [] then DocumentValue(id, [], map[])
    else
      var last := entries[|entries| - 1];
      Inserted(FromEntries(id, entries[..|entries| - 1]), last.0, last.1)
  }

  /**
   * `Document.from` keeps the object's keys in their enumeration order and stores under each key
   * the value wrapped as a list (a string) or the array itself; nothing else is stored.
   */
  lemma {:induction false} FromEntriesContents(id: string, entries: seq<(string, FieldValue)>)
    requires DistinctKeys(entries)
    ensures FromEntries(id, entries).keys == EntryKeys(entries)
    ensures forall i :: 0 <= i < |entries| ==> Get(FromEntries(id, entries), entries[i].0) == Values(entries[i].1)
    ensures forall f :: f in FromEntries(id, entries).fields <==> f in EntryKeys(entries)
  {
    if entries != [] {
      var init := entries[..|entries| - 1];
      var last := entries[|entries| - 1];
      FromEntriesContents(id, init);
      assert last.0 !in EntryKeys(init);
      forall i | 0 <= i < |entries|
        ensures Get(FromEntries(id, entries), entries[i].0) == Values(entries[i].1)
      {
        if i < |entries| - 1 {
          assert init[i] == entries[i];
        }
      }
    }
  }

  /** Repeated inserts into one field accumulate: nothing is replaced or de-duplicated. */
  lemma InsertsAccumulate(d: DocumentValue, field: string, a: FieldValue, b: FieldValue)
    requires WellFormed(d)
    ensures Get(Inserted(Inserted(d, field, a), field, b), field) == Get(d, field) + Values(a) + Values(b)
    ensures |Get(Inserted(Inserted(d, field, a), field, b), field)| == |Get(d, field)| + |Values(a)| + |Values(b)|
  {
  }

  /** The JS `Document`: its `id` is a constant, `fields` is updated in place by `insert`. */
  class Document {
    const id: string
    var keys: seq<string>
    var fields: map<string, seq<string>>

    ghost predicate Valid()
      reads this
    {
      WellFormed(Value())
    }

    function Value(): DocumentValue
      reads this
    {
      DocumentValue(id, keys, fields)
    }

    constructor(id: string)
      ensures Valid()
      ensures Value() == DocumentValue(id, [], map[])
    {
      this.id := id;
      keys := [];
      fields := map[];
    }

    /** `insert(field, value)`: appends the value(s) to the field's list, creating it if absent. */
    method Insert(field: string, value: FieldValue)
      requires Valid()
      modifies this
      ensures Valid()
      ensures Value() == Inserted(old(Value()), field, value)
    {
      var values := if field in fields then fields[field] else [];
      values := values + Values(value);
      if field !in fields {
        keys := keys + [field];
      }
      fields := fields[field := values];
    }

    /** `Document.from(id, map)`: a new document with one `insert` per key of `map`. */
    static method From(id: string, entries: seq<(string, FieldValue)>) returns (doc: Document)
      requires DistinctKeys(entries)
      ensures fresh(doc) && doc.Valid()
      ensures doc.Value() == FromEntries(id, entries)
    {
      doc := new Document(id);
      for i := 0 to |entries|
        invariant doc.Valid()
        invariant doc.Value() == FromEntries(id, entries[..i])
      {
        assert entries[..i + 1][..i] == entries[..i];
        doc.Insert(entries[i].0, entries[i].1);
      }
      assert entries[..|entries|] == entries;
    }
  }

  /** Every document of `docs` is well formed and holds the matching value of `values`. */
  ghost predicate DocsAre(docs: seq<Document>, values: seq<DocumentValue>)
    reads docs
  {
    |docs| == |values| && forall j :: 0 <= j < |docs| ==> docs[j].Valid() && docs[j].Value() == values[j]
  }

  /** The contents of a list of documents, as a batch write reads them. */
  function DocValues(docs: seq<Document>): (r: seq<DocumentValue>)
    reads docs
    ensures |r| == |docs|
    ensures forall i :: 0 <= i < |docs| ==> r[i] == docs[i].Value()
  {
    if docs == [] then []
    else
      var rest := DocValues(docs[1..]);
      assert forall i :: 1 <= i < |docs| ==> docs[1..][i - 1] == docs[i];
      [docs[0].Value()] + rest
  }
}
