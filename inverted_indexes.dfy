/**
 * A schema's field types, the kind of inverted index each one gets, and the index itself.
 *
 * The index classes' own source is not part of this model. An index is modelled by what was
 * inserted into it, in order (its postings); how it matches a term, and the scores it gives, are
 * the `Lookup` function the query evaluator is handed.
 */
module InvertedIndexes {
  import opened Wrappers
  import opened Matching
  import Searching

  /** A schema field's declared type; anything else is `Other`, with its name. */
  datatype FieldType = StringType | IntegerType | FullTextType | DateType | OtherType(name: string)

  datatype IndexKind = StringIndex | IntegerIndex | FullTextIndex

  /** One `insert(nid, values)` into an index. */
  datatype Posting = Posting(nid: Nid, values: seq<string>)

  datatype InvertedIndex = InvertedIndex(field: string, kind: IndexKind, postings: seq<Posting>)

  /** A schema as `Object.entries` lists it: field names are distinct. */
  type Schema = seq<(string, FieldType)>

  predicate DistinctFields(schema: Schema) {
    forall i, j :: 0 <= i < j < |schema| ==> schema[i].0 != schema[j].0
  }

  /** The index kind for a field type: `Date` is indexed as `Integer`; other types have none. */
  function KindFor(t: FieldType): (r: Option<IndexKind>)
    ensures r.None? <==> t.OtherType?
    ensures t == StringType ==> r == Some(StringIndex)
    ensures t == IntegerType || t == DateType ==> r == Some(IntegerIndex)
    ensures t == FullTextType ==> r == Some(FullTextIndex)
  {
    match t
    case StringType => Some(StringIndex)
    case IntegerType => Some(IntegerIndex)
    case FullTextType => Some(FullTextIndex)
    case DateType => Some(IntegerIndex)
    case OtherType(_) => None
  }

  /** The nids an index has postings for. */
  function PostingNids(ps: seq<Posting>): set<Nid> {
    set p | p in ps :: p.nid
  }

  /** Every posting of every index names a nid below `bound`. */
  ghost predicate PostingsBelow(indexes: map<string, InvertedIndex>, bound: nat) {
    forall f, n :: f in indexes && n in PostingNids(indexes[f].postings) ==> n < bound
  }

  /** An index for every schema field, each of its field's kind, all empty. */
  ghost predicate FreshIndexesFor(schema: Schema, indexes: map<string, InvertedIndex>) {
    && (forall f :: f in indexes <==> exists i :: 0 <= i < |schema| && schema[i].0 == f)
    && (forall i :: 0 <= i < |schema| ==>
          KindFor(schema[i].1).Some? &&
          indexes[schema[i].0] == InvertedIndex(schema[i].0, KindFor(schema[i].1).value, []))
  }

  /** The first field whose type has no index kind, if any. */
  function FirstUnsupported(schema: Schema): (r: Option<nat>)
    ensures r.Some? ==> r.value < |schema| && schema[r.value].1.OtherType?
    ensures r.Some? ==> forall i :: 0 <= i < r.value ==> !schema[i].1.OtherType?
    ensures r.None? ==> forall i :: 0 <= i < |schema| ==> !schema[i].1.OtherType?
  {
    if schema == [] then None
    else if schema[0].1.OtherType? then Some(0)
    else match FirstUnsupported(schema[1..])
      case None => None
      case Some(i) => Some(i + 1)
  }

  /** The indexes the backends' constructors build for a schema, one field at a time. */
  function IndexesFor(schema: Schema): (r: Result<map<string, InvertedIndex>, Searching.Error>)
    requires DistinctFields(schema)
    ensures r.Ok? <==> FirstUnsupported(schema).None?
    ensures r.Err? ==> r.error == Searching.FieldTypeNotSupported(schema[FirstUnsupported(schema).value].1.name)
    ensures r.Ok? ==> FreshIndexesFor(schema, r.value)
  {
    match FirstUnsupported(schema)
    case Some(i) => Err(Searching.FieldTypeNotSupported(schema[i].1.name))
    case None =>
      Ok(map f | f in (set e | e in schema :: e.0) :: InvertedIndex(f, KindFor(FieldTypeOf(schema, f)).value, []))
  }

  /** The declared type of a schema field. */
  function FieldTypeOf(schema: Schema, f: string): (t: FieldType)
    requires exists i :: 0 <= i < |schema| && schema[i].0 == f
    ensures exists i :: 0 <= i < |schema| && schema[i] == (f, t)
  {
    if schema[0].0 == f then schema[0].1 else FieldTypeOf(schema[1..], f)
  }

  /**
   * The constructor's loop over the schema entries: it fills the index map field by field and
   * stops at the first unsupported type.
   */
  method BuildIndexes(schema: Schema) returns (r: Result<map<string, InvertedIndex>, Searching.Error>)
    requires DistinctFields(schema)
    ensures r == IndexesFor(schema)
  {
    var indexes: map<string, InvertedIndex> := map[];
    for i := 0 to |schema|
      invariant forall j :: 0 <= j < i ==> !schema[j].1.OtherType?
      invariant FreshIndexesFor(schema[..i], indexes)
    {
      var (key, t) := schema[i];
      var kind := KindFor(t);
      if kind.None? {
        assert FirstUnsupported(schema) == Some(i) by {
          FirstUnsupportedIs(schema, i);
        }
        return Err(Searching.FieldTypeNotSupported(t.name));
      }
      FreshStep(schema, i, indexes);
      indexes := indexes[key := InvertedIndex(key, kind.value, [])];
    }
    assert schema[..|schema|] == schema;
    FreshIndexesUnique(schema, indexes, IndexesFor(schema).value);
    r := Ok(indexes);
  }

  /** One more supported field adds its empty index to the fresh indexes of the fields before it. */
  lemma FreshStep(schema: Schema, i: nat, indexes: map<string, InvertedIndex>)
    requires DistinctFields(schema) && i < |schema| && KindFor(schema[i].1).Some?
    requires FreshIndexesFor(schema[..i], indexes)
    ensures FreshIndexesFor(schema[..i + 1],
                            indexes[schema[i].0 := InvertedIndex(schema[i].0, KindFor(schema[i].1).value, [])])
  {
    var pre, next := schema[..i], schema[..i + 1];
    assert forall j :: 0 <= j < i ==> next[j] == pre[j] && pre[j] == schema[j];
    assert next[i] == schema[i];
  }

  /** `FirstUnsupported` names the first unsupported position. */
  lemma {:induction false} FirstUnsupportedIs(schema: Schema, i: nat)
    requires i < |schema| && schema[i].1.OtherType?
    requires forall j :: 0 <= j < i ==> !schema[j].1.OtherType?
    ensures FirstUnsupported(schema) == Some(i)
  {
    if i > 0 {
      FirstUnsupportedIs(schema[1..], i - 1);
    }
  }

  /** Two index maps built fresh for the same schema are equal. */
  lemma FreshIndexesUnique(schema: Schema, a: map<string, InvertedIndex>, b: map<string, InvertedIndex>)
    requires FreshIndexesFor(schema, a) && FreshIndexesFor(schema, b)
    ensures a == b
  {
    forall f | f in a
      ensures b[f] == a[f]
    {
      var i :| 0 <= i < |schema| && schema[i].0 == f;
    }
  }

  /** Appends one posting to the index of `field`. */
  function AddPosting(indexes: map<string, InvertedIndex>, field: string, p: Posting): (r: map<string, InvertedIndex>)
    requires field in indexes
    ensures r.Keys == indexes.Keys
    ensures r[field] == indexes[field].(postings := indexes[field].postings + [p])
    ensures forall f :: f in indexes && f != field ==> r[f] == indexes[f]
  {
    indexes[field := indexes[field].(postings := indexes[field].postings + [p])]
  }

  /** The scored nids an index yields for a query term (`iidx.match(term)`). */
  type Lookup = (InvertedIndex, string) -> ValidMatch

  /** A lookup only ever yields nids the index holds postings for. */
  ghost predicate LookupSound(lookup: Lookup) {
    forall idx, term :: Members(lookup(idx, term)) <= PostingNids(idx.postings)
  }

  /** Postings only grow; a sound lookup can therefore never produce a nid no insert named. */
  lemma PostingNidsAppend(ps: seq<Posting>, p: Posting)
    ensures PostingNids(ps + [p]) == PostingNids(ps) + {p.nid}
  {
    assert forall q :: q in ps + [p] <==> q in ps || q == p;
  }
}
