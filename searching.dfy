/**
 * The shapes both indexer backends share: their errors, the search and aggregate options, the
 * pagination record, and the way a hit is turned into a result node.
 */
module Searching {
  import opened Wrappers
  import JsArrays

  /** Every `Error` an indexer backend throws, by its message. */
  datatype Error =
    | FieldTypeNotSupported(typeName: string)     // "Field type '<type>' not supported"
    | NotInitialized                              // "<backend> not initialized"
    | DocumentAlreadyExists                       // "Document already exists"
    | DocumentNotFound                            // "Document not found"
    | InvertedIndexNotFound(key: string)          // "Inverted index '<key>' not found, ..."
    | FieldNotFound(field: string)                // "Field '<field>' not found"
    | QueryTypeNotSupported(queryType: string)    // "Query type '<type>' not supported"
    | ReduceOfEmptyArray                          // the TypeError of `[].reduce(f)`
    | RecordNotFound(nid: nat)                    // "Record not found for nid <nid>"

  /** `{skip?, limit?}`; either may be absent. */
  datatype PageOptions = PageOptions(skip: Option<int>, limit: Option<int>)

  /** The effective skip and limit once defaults are applied. */
  datatype Window = Window(skip: int, limit: int)

  /** `{skip: p?.skip ?? 0, limit: p?.limit ?? defaultLimit}`. */
  function WindowOf(p: Option<PageOptions>, defaultLimit: int): (w: Window)
    ensures p.None? ==> w == Window(0, defaultLimit)
    ensures p.Some? && p.value.skip.Some? ==> w.skip == p.value.skip.value
    ensures (p.None? || p.value.skip.None?) ==> w.skip == 0
    ensures p.Some? && p.value.limit.Some? ==> w.limit == p.value.limit.value
    ensures (p.None? || p.value.limit.None?) ==> w.limit == defaultLimit
  {
    var skip := if p.Some? && p.value.skip.Some? then p.value.skip.value else 0;
    var limit := if p.Some? && p.value.limit.Some? then p.value.limit.value else defaultLimit;
    Window(skip, limit)
  }

  /** The default page of a search and of an aggregate's bucket list. */
  const DefaultLimit := 100
  /** The default page of an aggregate bucket's hits. */
  const DefaultHitsLimit := 3

  /** `s.slice(skip, skip + limit)`. */
  function Page<T>(s: seq<T>, w: Window): seq<T> {
    JsArrays.Slice(s, w.skip, w.skip + w.limit)
  }

  datatype Pagination = Pagination(count: nat, hasMore: bool, limit: int, skip: int)

  /** The `pagination` record of a result over `count` items. */
  function PaginationOf(count: nat, w: Window): Pagination {
    Pagination(count, count > w.limit + w.skip, w.limit, w.skip)
  }

  /**
   * For a non-negative limit a page never holds more than `limit` items; for a non-negative skip
   * it is exactly the items from `skip` on, at most `limit` of them, and `hasMore` says whether
   * any item lies beyond it.
   */
  lemma PageLaws<T>(s: seq<T>, w: Window)
    requires 0 <= w.limit
    ensures |Page(s, w)| <= w.limit
    ensures 0 <= w.skip && |s| <= w.skip ==> Page(s, w) == []
    ensures 0 <= w.skip < |s| ==>
      Page(s, w) == s[w.skip..if w.skip + w.limit <= |s| then w.skip + w.limit else |s|]
    ensures 0 <= w.skip ==> (PaginationOf(|s|, w).hasMore <==> w.skip + |Page(s, w)| < |s|)
  {
    JsArrays.SlicePageBound(s, w.skip, w.limit);
    if 0 <= w.skip {
      JsArrays.SlicePageWindow(s, w.skip, w.limit);
    }
  }

  /** A page is a contiguous run of the list, starting where `slice` starts. */
  lemma PageIsWindow<T>(s: seq<T>, w: Window)
    ensures var a := JsArrays.RelativeIndex(w.skip, |s|);
      a + |Page(s, w)| <= |s| && forall i :: 0 <= i < |Page(s, w)| ==> Page(s, w)[i] == s[a + i]
  {
  }

  /** A page keeps every pairwise relation that holds between earlier and later items of the list. */
  lemma PageKeepsOrder<T>(s: seq<T>, w: Window, before: (T, T) -> bool)
    requires forall i, j :: 0 <= i < j < |s| ==> before(s[i], s[j])
    ensures var p := Page(s, w);
      forall i, j :: 0 <= i < j < |p| ==> before(p[i], p[j])
  {
    var p := Page(s, w);
    PageIsWindow(s, w);
    var a := JsArrays.RelativeIndex(w.skip, |s|);
    forall i, j | 0 <= i < j < |p|
      ensures before(p[i], p[j])
    {
      assert p[i] == s[a + i] && p[j] == s[a + j];
    }
  }

  datatype HighlightOption = HighlightOption(field: string, before: string, end: string)

  /** `{pagination?, fields?, highlights?}`. */
  datatype SearchOptions = SearchOptions(
    pagination: Option<PageOptions>,
    fields: Option<seq<string>>,
    highlights: Option<seq<HighlightOption>>)

  /** `{pagination?, hits?}`. */
  datatype AggregateOptions = AggregateOptions(pagination: Option<PageOptions>, hits: Option<SearchOptions>)

  /** A returned field: a one-element list collapses to its only string. */
  datatype FieldOut = Scalar(value: string) | List(values: seq<string>)

  datatype SearchNode = SearchNode(
    id: string,
    score: real,
    fields: Option<map<string, FieldOut>>,
    highlights: Option<map<string, seq<string>>>)

  datatype SearchResult = SearchResult(pagination: Pagination, nodes: seq<SearchNode>)

  datatype AggregateBucket = AggregateBucket(key: string, score: real, count: nat, hits: Option<SearchResult>)

  datatype AggregateResult = AggregateResult(buckets: seq<AggregateBucket>, pagination: Pagination)

  /** `data.get(field) ?? ['']`, collapsed to a scalar when it has one element. */
  function FieldOf(data: map<string, seq<string>>, field: string): (r: FieldOut)
    ensures field !in data ==> r == Scalar("")
    ensures field in data && |data[field]| == 1 ==> r == Scalar(data[field][0])
    ensures field in data && |data[field]| != 1 ==> r == List(data[field])
  {
    var vs := if field in data then data[field] else [""];
    if |vs| == 1 then Scalar(vs[0]) else List(vs)
  }

  /** The `fields` object of a node: one entry per requested field, later assignments last. */
  function FieldsOf(data: map<string, seq<string>>, fields: seq<string>): (r: map<string, FieldOut>)
    ensures r.Keys == set f | f in fields
    ensures forall f :: f in r ==> r[f] == FieldOf(data, f)
  {
    if fields == [] then map[]
    else
      var last := fields[|fields| - 1];
      FieldsOf(data, fields[..|fields| - 1])[last := FieldOf(data, last)]
  }

  /** The `highlights` object of a node: one entry per highlighted field. */
  function HighlightsOf(hs: seq<HighlightOption>, highlight: HighlightOption -> seq<string>): (r: map<string, seq<string>>)
    ensures r.Keys == set h | h in hs :: h.field
  {
    if hs == [] then map[]
    else
      var n := |hs| - 1;
      assert hs == hs[..n] + [hs[n]];
      HighlightsOf(hs[..n], highlight)[hs[n].field := highlight(hs[n])]
  }

  /** An option repeated for one field: the last one's result is the one kept. */
  lemma {:induction false} HighlightLastWins(hs: seq<HighlightOption>, highlight: HighlightOption -> seq<string>, i: nat)
    requires i < |hs| && forall j :: i < j < |hs| ==> hs[j].field != hs[i].field
    ensures hs[i].field in HighlightsOf(hs, highlight)
    ensures HighlightsOf(hs, highlight)[hs[i].field] == highlight(hs[i])
    decreases |hs|
  {
    var n := |hs| - 1;
    var init := hs[..n];
    assert HighlightsOf(hs, highlight) == HighlightsOf(init, highlight)[hs[n].field := highlight(hs[n])];
    if i < n {
      assert init[i] == hs[i];
      assert forall j :: i < j < n ==> init[j] == hs[j];
      HighlightLastWins(init, highlight, i);
    }
  }

  /**
   * A match's highlighters for a nid and a field, each applied to the option's `before` and `end`
   * and the results concatenated (`getHighlighters(nid, field).flatMap(h => h(before, end))`).
   */
  type Highlighter = (nat, HighlightOption) -> seq<string>

  /**
   * A node for a hit: its id and score; `fields` when requested (a missing field reads as `''`,
   * a one-element list as its string), `highlights` when requested.
   */
  function NodeOf(id: string, score: real, data: map<string, seq<string>>, options: SearchOptions,
                  highlight: HighlightOption -> seq<string>): (r: SearchNode)
    ensures r.id == id && r.score == score
    ensures r.fields.Some? <==> options.fields.Some?
    ensures options.fields.Some? ==> forall f :: f in options.fields.value ==>
      f in r.fields.value && r.fields.value[f] == FieldOf(data, f)
    ensures r.highlights.Some? <==> options.highlights.Some?
  {
    SearchNode(
      id, score,
      if options.fields.Some? then Some(FieldsOf(data, options.fields.value)) else None,
      if options.highlights.Some? then Some(HighlightsOf(options.highlights.value, highlight)) else None)
  }
}
