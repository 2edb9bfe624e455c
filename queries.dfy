/**
 * The query tree both indexer backends evaluate (`queryRaw`), and its evaluation into a `Match`.
 *
 * The two backends differ only in where the matches of `all` come from (every record slot, or
 * every stored record key); that `Match` is a parameter here, as is the indexes' term lookup.
 */
module Queries {
  import opened Wrappers
  import opened Matching
  import opened InvertedIndexes
  import opened Searching

  /** A boolean query's `occur`; anything else is kept with its name. */
  datatype Occur = Must | Should | MustNot | OtherOccur(name: string)

  datatype Query =
    | MatchQuery(field: string, term: string)
    | BooleanQuery(occur: Occur, queries: seq<Query>)
    | AllQuery
    | OtherQuery(queryType: string)

  /** `n` is in every match of `ws`. */
  predicate InAll(ws: seq<ValidMatch>, n: Nid) {
    forall i :: 0 <= i < |ws| ==> n in Members(ws[i])
  }

  /** `n` is in some match of `ws`. */
  predicate InSome(ws: seq<ValidMatch>, n: Nid) {
    exists i :: 0 <= i < |ws| && n in Members(ws[i])
  }

  lemma SplitLast(ws: seq<ValidMatch>)
    requires |ws| > 1
    ensures forall n :: InAll(ws, n) <==> InAll(ws[..|ws| - 1], n) && n in Members(ws[|ws| - 1])
    ensures forall n :: InSome(ws, n) <==> InSome(ws[..|ws| - 1], n) || n in Members(ws[|ws| - 1])
  {
    assert forall i :: 0 <= i < |ws| - 1 ==> ws[..|ws| - 1][i] == ws[i];
  }

  /** `ws.reduce((acc, w) => acc.and(w))` on a non-empty list: left to right. */
  function AndAll(ws: seq<ValidMatch>): (r: ValidMatch)
    requires |ws| > 0
    ensures forall n :: n in Members(r) <==> InAll(ws, n)
  {
    if |ws| == 1 then ws[0]
    else
      SplitLast(ws);
      And(AndAll(ws[..|ws| - 1]), ws[|ws| - 1])
  }

  /** `ws.reduce((acc, w) => acc.or(w))` on a non-empty list: left to right. */
  function OrAll(ws: seq<ValidMatch>): (r: ValidMatch)
    requires |ws| > 0
    ensures forall n :: n in Members(r) <==> InSome(ws, n)
  {
    if |ws| == 1 then ws[0]
    else
      SplitLast(ws);
      Or(OrAll(ws[..|ws| - 1]), ws[|ws| - 1])
  }

  /**
   * `queryRaw(query)`: a `match` asks the field's index; a `boolean` evaluates every sub-query
   * first, in order, and then reduces their matches by `occur`; `all` is every record.
   */
  function QueryRaw(q: Query, indexes: map<string, InvertedIndex>, all: ValidMatch, lookup: Lookup): Result<ValidMatch, Error>
    decreases q, 1
  {
    match q
    case MatchQuery(field, term) =>
      if field in indexes then Ok(lookup(indexes[field], term)) else Err(FieldNotFound(field))
    case BooleanQuery(occur, qs) =>
      (match QueryEach(qs, indexes, all, lookup)
       case Err(e) => Err(e)
       case Ok(ws) =>
         match occur
         case Must => if ws == [] then Err(ReduceOfEmptyArray) else Ok(AndAll(ws))
         case MustNot => if ws == [] then Err(ReduceOfEmptyArray) else Ok(Exclude(all, AndAll(ws)))
         case Should => if ws == [] then Err(ReduceOfEmptyArray) else Ok(OrAll(ws))
         case OtherOccur(_) => Err(QueryTypeNotSupported("boolean")))
    case AllQuery => Ok(all)
    case OtherQuery(t) => Err(QueryTypeNotSupported(t))
  }

  /**
   * `queries.map(q => queryRaw(q))`: every sub-query's match in order, or the error of the first
   * sub-query that fails.
   */
  function QueryEach(qs: seq<Query>, indexes: map<string, InvertedIndex>, all: ValidMatch, lookup: Lookup): (r: Result<seq<ValidMatch>, Error>)
    decreases qs, 0
    ensures r.Ok? ==> |r.value| == |qs| && forall i :: 0 <= i < |qs| ==> QueryRaw(qs[i], indexes, all, lookup) == Ok(r.value[i])
    ensures r.Ok? <==> forall i :: 0 <= i < |qs| ==> QueryRaw(qs[i], indexes, all, lookup).Ok?
    ensures r.Err? ==>
      exists i :: (0 <= i < |qs| && QueryRaw(qs[i], indexes, all, lookup) == Err(r.error) &&
                   forall j :: 0 <= j < i ==> QueryRaw(qs[j], indexes, all, lookup).Ok?)
  {
    if qs == [] then Ok([])
    else
      match QueryRaw(qs[0], indexes, all, lookup)
      case Err(e) => Err(e)
      case Ok(w) =>
        match QueryEach(qs[1..], indexes, all, lookup)
        case Err(e) =>
          assert forall i :: 0 <= i < |qs| - 1 ==> qs[1..][i] == qs[i + 1];
          Err(e)
        case Ok(ws) =>
          assert forall i :: 0 <= i < |qs| - 1 ==> qs[1..][i] == qs[i + 1];
          Ok([w] + ws)
  }

  /** The nids a query can ever produce: those of `all` and those any index holds postings for. */
  ghost function Universe(indexes: map<string, InvertedIndex>, all: ValidMatch): set<Nid> {
    Members(all) + (set f, n | f in indexes && n in PostingNids(indexes[f].postings) :: n)
  }

  /** Reducing matches that all lie within a set, by `and` or by `or`, stays within it. */
  lemma ReducedWithin(ws: seq<ValidMatch>, u: set<Nid>)
    requires |ws| > 0 && forall i :: 0 <= i < |ws| ==> Members(ws[i]) <= u
    ensures Members(AndAll(ws)) <= u && Members(OrAll(ws)) <= u
  {
    forall n | n in Members(OrAll(ws))
      ensures n in u
    {
      var i :| 0 <= i < |ws| && n in Members(ws[i]);
    }
    forall n | n in Members(AndAll(ws))
      ensures n in u
    {
      assert n in Members(ws[0]);
    }
  }

  /** With a sound lookup, every nid a query yields comes from `all` or from some index's postings. */
  lemma {:induction false} QueryWithinUniverse(q: Query, indexes: map<string, InvertedIndex>, all: ValidMatch, lookup: Lookup)
    requires LookupSound(lookup)
    requires QueryRaw(q, indexes, all, lookup).Ok?
    ensures Members(QueryRaw(q, indexes, all, lookup).value) <= Universe(indexes, all)
    decreases q
  {
    match q
    case MatchQuery(field, term) =>
      var m := lookup(indexes[field], term);
      forall n | n in Members(m)
        ensures n in Universe(indexes, all)
      {
        assert n in PostingNids(indexes[field].postings);
      }
    case BooleanQuery(occur, qs) =>
      var ws := QueryEach(qs, indexes, all, lookup).value;
      forall i | 0 <= i < |ws|
        ensures Members(ws[i]) <= Universe(indexes, all)
      {
        QueryWithinUniverse(qs[i], indexes, all, lookup);
      }
      if ws != [] {
        ReducedWithin(ws, Universe(indexes, all));
        match occur {
          case Must => assert QueryRaw(q, indexes, all, lookup) == Ok(AndAll(ws));
          case MustNot => assert QueryRaw(q, indexes, all, lookup) == Ok(Exclude(all, AndAll(ws)));
          case Should => assert QueryRaw(q, indexes, all, lookup) == Ok(OrAll(ws));
          case OtherOccur(_) =>
        }
      }
    case AllQuery =>
    case OtherQuery(_) =>
  }

  /** `must`: a nid matches exactly when it matches every sub-query. */
  lemma MustIsIntersection(qs: seq<Query>, indexes: map<string, InvertedIndex>, all: ValidMatch, lookup: Lookup, n: Nid)
    requires QueryRaw(BooleanQuery(Must, qs), indexes, all, lookup).Ok?
    ensures |qs| > 0
    ensures n in Members(QueryRaw(BooleanQuery(Must, qs), indexes, all, lookup).value) <==>
      forall i :: 0 <= i < |qs| ==> n in Members(QueryRaw(qs[i], indexes, all, lookup).value)
  {
  }

  /** `should`: a nid matches exactly when it matches some sub-query. */
  lemma ShouldIsUnion(qs: seq<Query>, indexes: map<string, InvertedIndex>, all: ValidMatch, lookup: Lookup, n: Nid)
    requires QueryRaw(BooleanQuery(Should, qs), indexes, all, lookup).Ok?
    ensures |qs| > 0
    ensures n in Members(QueryRaw(BooleanQuery(Should, qs), indexes, all, lookup).value) <==>
      exists i :: 0 <= i < |qs| && n in Members(QueryRaw(qs[i], indexes, all, lookup).value)
  {
    var ws := QueryEach(qs, indexes, all, lookup).value;
    if n in Members(OrAll(ws)) {
      var i :| 0 <= i < |ws| && n in Members(ws[i]);
      assert n in Members(QueryRaw(qs[i], indexes, all, lookup).value);
    }
  }

  /** `must_not`: a nid matches exactly when it is in `all` and fails some sub-query. */
  lemma MustNotIsComplement(qs: seq<Query>, indexes: map<string, InvertedIndex>, all: ValidMatch, lookup: Lookup, n: Nid)
    requires QueryRaw(BooleanQuery(MustNot, qs), indexes, all, lookup).Ok?
    ensures |qs| > 0
    ensures n in Members(QueryRaw(BooleanQuery(MustNot, qs), indexes, all, lookup).value) <==>
      n in Members(all) && exists i :: 0 <= i < |qs| && n !in Members(QueryRaw(qs[i], indexes, all, lookup).value)
  {
    var ws := QueryEach(qs, indexes, all, lookup).value;
    if n in Members(all) && n !in Members(AndAll(ws)) {
      var i :| 0 <= i < |ws| && n !in Members(ws[i]);
      assert n !in Members(QueryRaw(qs[i], indexes, all, lookup).value);
    }
  }

  /**
   * A boolean query fails when it has no sub-query (the reduce has nothing to start from), when a
   * sub-query fails (with the first failure), or when its `occur` is unknown.
   */
  lemma BooleanErrors(occur: Occur, qs: seq<Query>, indexes: map<string, InvertedIndex>, all: ValidMatch, lookup: Lookup)
    ensures qs == [] && !occur.OtherOccur? ==> QueryRaw(BooleanQuery(occur, qs), indexes, all, lookup) == Err(ReduceOfEmptyArray)
    ensures occur.OtherOccur? && QueryEach(qs, indexes, all, lookup).Ok? ==>
      QueryRaw(BooleanQuery(occur, qs), indexes, all, lookup) == Err(QueryTypeNotSupported("boolean"))
    ensures forall i ::
      (0 <= i < |qs| && QueryRaw(qs[i], indexes, all, lookup).Err? &&
       (forall j :: 0 <= j < i ==> QueryRaw(qs[j], indexes, all, lookup).Ok?)) ==>
      QueryRaw(BooleanQuery(occur, qs), indexes, all, lookup) == QueryRaw(qs[i], indexes, all, lookup)
  {
    forall i | 0 <= i < |qs| && QueryRaw(qs[i], indexes, all, lookup).Err? &&
        (forall j :: 0 <= j < i ==> QueryRaw(qs[j], indexes, all, lookup).Ok?)
      ensures QueryRaw(BooleanQuery(occur, qs), indexes, all, lookup) == QueryRaw(qs[i], indexes, all, lookup)
    {
      var r := QueryEach(qs, indexes, all, lookup);
      var k :| 0 <= k < |qs| && QueryRaw(qs[k], indexes, all, lookup) == Err(r.error) &&
        forall j :: 0 <= j < k ==> QueryRaw(qs[j], indexes, all, lookup).Ok?;
      assert k == i;
    }
  }
}
