/**
 * The bucketing step of both backends' `aggregate`: walking the matched records in `toArray()`
 * order, each value of the aggregated field is looked up among the buckets made so far
 * (`buckets.find(b => b.key === value)`), a new bucket is pushed for a value not seen before, and
 * the record's nid is pushed onto the bucket.
 *
 * The walk is modelled as the sequence of (nid, value) pairs it visits, and the buckets as values.
 */
module Buckets {
  import opened Wrappers
  import opened Matching

  /** A bucket under construction: the field value and the nids pushed under it, in order. */
  datatype Bucket = Bucket(key: string, nids: seq<Nid>)

  /** One (nid, value) visit of the walk. */
  type Entry = (Nid, string)

  /** The visits of one record's values, in order. */
  function Visit(nid: Nid, values: seq<string>): (r: seq<Entry>)
    ensures |r| == |values|
    ensures forall i :: 0 <= i < |values| ==> r[i] == (nid, values[i])
  {
    seq(|values|, i requires 0 <= i < |values| => (nid, values[i]))
  }

  /** The position of the bucket `buckets.find(b => b.key === key)` returns, absent as `None`. */
  function FindBucket(bs: seq<Bucket>, key: string): (r: Option<nat>)
    ensures r.Some? ==> r.value < |bs| && bs[r.value].key == key
    ensures r.Some? ==> forall i :: 0 <= i < r.value ==> bs[i].key != key
    ensures r.None? ==> forall i :: 0 <= i < |bs| ==> bs[i].key != key
  {
    if bs == [] then None
    else if bs[0].key == key then Some(0)
    else match FindBucket(bs[1..], key)
      case None => None
      case Some(i) => Some(i + 1)
  }

  /** One step of the walk: push `nid` onto the bucket of `key`, making the bucket first if need be. */
  function AddToBucket(bs: seq<Bucket>, nid: Nid, key: string): seq<Bucket> {
    match FindBucket(bs, key)
    case Some(i) => bs[i := bs[i].(nids := bs[i].nids + [nid])]
    case None => bs + [Bucket(key, [nid])]
  }

  /** The buckets a walk over `es` builds. */
  function BucketsOf(es: seq<Entry>): (r: seq<Bucket>)
    ensures forall b :: b in r ==> b.nids != []
  {
    if es == [] then []
    else AddToBucket(BucketsOf(es[..|es| - 1]), es[|es| - 1].0, es[|es| - 1].1)
  }

  /** The value `key` is visited somewhere in the walk. */
  predicate Visits(es: seq<Entry>, key: string) {
    exists i :: 0 <= i < |es| && es[i].1 == key
  }

  /** The position of the first visit of `key`. */
  function FirstVisit(es: seq<Entry>, key: string): (r: nat)
    requires Visits(es, key)
    ensures r < |es| && es[r].1 == key
    ensures forall j :: 0 <= j < r ==> es[j].1 != key
  {
    if es[0].1 == key then 0
    else
      assert Visits(es[1..], key) by {
        var i :| 0 <= i < |es| && es[i].1 == key;
        assert es[1..][i - 1] == es[i];
      }
      FirstVisit(es[1..], key) + 1
  }

  /** The nids visited with value `key`, in walk order: an independent description of a bucket. */
  function NidsWithKey(es: seq<Entry>, key: string): seq<Nid> {
    if es == [] then []
    else NidsWithKey(es[..|es| - 1], key) + (if es[|es| - 1].1 == key then [es[|es| - 1].0] else [])
  }

  predicate UniqueKeys(bs: seq<Bucket>) {
    forall i, j :: 0 <= i < j < |bs| ==> bs[i].key != bs[j].key
  }

  lemma FirstVisitOfPrefix(es: seq<Entry>, e: Entry, key: string)
    requires Visits(es, key)
    ensures Visits(es + [e], key) && FirstVisit(es + [e], key) == FirstVisit(es, key)
  {
    assert forall j :: 0 <= j < |es| ==> (es + [e])[j] == es[j];
    assert Visits(es + [e], key);
  }

  /** Extending a walk by one visit. */
  lemma VisitsSnoc(es: seq<Entry>, e: Entry)
    ensures forall key :: Visits(es + [e], key) <==> Visits(es, key) || key == e.1
    ensures forall key :: NidsWithKey(es + [e], key) == NidsWithKey(es, key) + (if key == e.1 then [e.0] else [])
  {
    assert (es + [e])[..|es|] == es;
    assert forall j :: 0 <= j < |es| ==> (es + [e])[j] == es[j];
    assert (es + [e])[|es|] == e;
  }

  /** Some bucket of `bs` has the key. */
  predicate HasKey(bs: seq<Bucket>, key: string) {
    exists i :: 0 <= i < |bs| && bs[i].key == key
  }

  /** The buckets have distinct keys, one for each value the walk visits. */
  ghost predicate KeysMatch(bs: seq<Bucket>, es: seq<Entry>) {
    UniqueKeys(bs) && forall key :: HasKey(bs, key) <==> Visits(es, key)
  }

  /** Each bucket holds exactly the nids visited with its value, in walk order. */
  predicate NidsMatch(bs: seq<Bucket>, es: seq<Entry>) {
    forall i :: 0 <= i < |bs| ==> bs[i].nids == NidsWithKey(es, bs[i].key)
  }

  /** The buckets come in the order of their values' first visits. */
  ghost predicate InVisitOrder(bs: seq<Bucket>, es: seq<Entry>) {
    && (forall i :: 0 <= i < |bs| ==> Visits(es, bs[i].key))
    && (forall i, j :: 0 <= i < j < |bs| ==> FirstVisit(es, bs[i].key) < FirstVisit(es, bs[j].key))
  }

  lemma SplitLast<T>(s: seq<T>)
    requires s != []
    ensures s == s[..|s| - 1] + [s[|s| - 1]]
  {
  }

  /** One more value of a record's visits. */
  lemma VisitSnoc(done: seq<Entry>, nid: Nid, values: seq<string>, j: nat)
    requires j < |values|
    ensures done + Visit(nid, values[..j + 1]) == (done + Visit(nid, values[..j])) + [(nid, values[j])]
  {
    var a, b := Visit(nid, values[..j]), Visit(nid, values[..j + 1]);
    assert b == a + [(nid, values[j])];
    AppendAssoc(done, a, [(nid, values[j])]);
  }

  lemma AppendAssoc<T>(a: seq<T>, b: seq<T>, c: seq<T>)
    ensures a + (b + c) == (a + b) + c
  {
  }

  lemma Snoc<T>(s: seq<T>, x: T)
    ensures (s + [x])[..|s|] == s && (s + [x])[|s|] == x && |s + [x]| == |s| + 1
  {
  }

  /** The buckets of a walk one visit longer. */
  lemma BucketsOfSnoc(es: seq<Entry>, e: Entry)
    ensures BucketsOf(es + [e]) == AddToBucket(BucketsOf(es), e.0, e.1)
  {
    Snoc(es, e);
  }

  /** The walk one visit longer builds its buckets from the shorter walk's. */
  lemma BucketsSnoc(es: seq<Entry>)
    requires es != []
    ensures es == es[..|es| - 1] + [es[|es| - 1]]
    ensures BucketsOf(es) == AddToBucket(BucketsOf(es[..|es| - 1]), es[|es| - 1].0, es[|es| - 1].1)
  {
    SplitLast(es);
  }

  /** A visit of a value that has a bucket leaves the keys as they are. */
  lemma KeysExisting(bs0: seq<Bucket>, init: seq<Entry>, e: Entry, k: nat)
    requires KeysMatch(bs0, init) && k < |bs0| && bs0[k].key == e.1
    ensures KeysMatch(bs0[k := bs0[k].(nids := bs0[k].nids + [e.0])], init + [e])
  {
    var bs := bs0[k := bs0[k].(nids := bs0[k].nids + [e.0])];
    VisitsSnoc(init, e);
    assert forall i :: 0 <= i < |bs| ==> bs[i].key == bs0[i].key;
    forall key ensures HasKey(bs, key) <==> HasKey(bs0, key) {
      if HasKey(bs0, key) {
        var i :| 0 <= i < |bs0| && bs0[i].key == key;
        assert bs[i].key == key;
      }
    }
  }

  /** A visit of a new value adds its bucket at the end. */
  lemma KeysNew(bs0: seq<Bucket>, init: seq<Entry>, e: Entry)
    requires KeysMatch(bs0, init) && forall i :: 0 <= i < |bs0| ==> bs0[i].key != e.1
    ensures KeysMatch(bs0 + [Bucket(e.1, [e.0])], init + [e])
  {
    var bs := bs0 + [Bucket(e.1, [e.0])];
    VisitsSnoc(init, e);
    forall key ensures HasKey(bs, key) <==> HasKey(bs0, key) || key == e.1 {
      if key == e.1 {
        assert bs[|bs0|].key == key;
      } else if HasKey(bs0, key) {
        var i :| 0 <= i < |bs0| && bs0[i].key == key;
        assert bs[i].key == key;
      } else {
        assert forall i :: 0 <= i < |bs0| ==> bs[i] == bs0[i];
      }
    }
  }

  lemma KeysStep(bs0: seq<Bucket>, init: seq<Entry>, e: Entry)
    requires KeysMatch(bs0, init)
    ensures KeysMatch(AddToBucket(bs0, e.0, e.1), init + [e])
  {
    match FindBucket(bs0, e.1)
    case Some(k) => KeysExisting(bs0, init, e, k);
    case None => KeysNew(bs0, init, e);
  }

  /** The buckets of a walk have distinct keys, one for each value the walk visits. */
  lemma {:induction false} BucketKeys(es: seq<Entry>)
    ensures UniqueKeys(BucketsOf(es))
    ensures forall key :: (exists i :: 0 <= i < |BucketsOf(es)| && BucketsOf(es)[i].key == key) <==> Visits(es, key)
  {
    if es != [] {
      var init, e := es[..|es| - 1], es[|es| - 1];
      BucketsSnoc(es);
      BucketKeys(init);
      KeysStep(BucketsOf(init), init, e);
    }
    assert KeysMatch(BucketsOf(es), es);
  }

  lemma NidsStep(bs0: seq<Bucket>, init: seq<Entry>, e: Entry)
    requires KeysMatch(bs0, init) && NidsMatch(bs0, init)
    ensures NidsMatch(AddToBucket(bs0, e.0, e.1), init + [e])
  {
    VisitsSnoc(init, e);
    match FindBucket(bs0, e.1)
    case Some(k) =>
      assert AddToBucket(bs0, e.0, e.1) == bs0[k := bs0[k].(nids := bs0[k].nids + [e.0])];
    case None =>
      assert !HasKey(bs0, e.1);
      NoVisitNoNids(init, e.1);
  }

  /** Each bucket holds exactly the nids visited with its value, in walk order. */
  lemma {:induction false} BucketNids(es: seq<Entry>)
    ensures forall i :: 0 <= i < |BucketsOf(es)| ==> BucketsOf(es)[i].nids == NidsWithKey(es, BucketsOf(es)[i].key)
  {
    if es != [] {
      var init, e := es[..|es| - 1], es[|es| - 1];
      BucketsSnoc(es);
      BucketNids(init);
      BucketKeys(init);
      assert KeysMatch(BucketsOf(init), init);
      NidsStep(BucketsOf(init), init, e);
    }
    assert NidsMatch(BucketsOf(es), es);
  }

  /** A visit of a value that has a bucket keeps every first visit where it was. */
  lemma OrderExisting(bs0: seq<Bucket>, init: seq<Entry>, e: Entry, k: nat)
    requires InVisitOrder(bs0, init) && k < |bs0| && bs0[k].key == e.1
    ensures InVisitOrder(bs0[k := bs0[k].(nids := bs0[k].nids + [e.0])], init + [e])
  {
    var bs := bs0[k := bs0[k].(nids := bs0[k].nids + [e.0])];
    forall i | 0 <= i < |bs|
      ensures bs[i].key == bs0[i].key
      ensures Visits(init + [e], bs[i].key) && FirstVisit(init + [e], bs[i].key) == FirstVisit(init, bs0[i].key)
    {
      FirstVisitOfPrefix(init, e, bs0[i].key);
    }
  }

  /** A visit of a new value first visits it last. */
  lemma OrderNew(bs0: seq<Bucket>, init: seq<Entry>, e: Entry)
    requires KeysMatch(bs0, init) && InVisitOrder(bs0, init)
    requires forall i :: 0 <= i < |bs0| ==> bs0[i].key != e.1
    ensures InVisitOrder(bs0 + [Bucket(e.1, [e.0])], init + [e])
  {
    var bs, es := bs0 + [Bucket(e.1, [e.0])], init + [e];
    forall i | 0 <= i < |bs0|
      ensures bs[i].key == bs0[i].key
      ensures Visits(es, bs[i].key) && FirstVisit(es, bs[i].key) == FirstVisit(init, bs0[i].key) < |init|
    {
      FirstVisitOfPrefix(init, e, bs0[i].key);
    }
    assert !HasKey(bs0, e.1);
    FirstVisitAtEnd(init, e);
  }

  /** A value first visited by the last visit is first visited there. */
  lemma FirstVisitAtEnd(es: seq<Entry>, e: Entry)
    requires !Visits(es, e.1)
    ensures Visits(es + [e], e.1) && FirstVisit(es + [e], e.1) == |es|
  {
    assert (es + [e])[|es|] == e;
    assert forall j :: 0 <= j < |es| ==> (es + [e])[j] == es[j];
  }

  lemma OrderStep(bs0: seq<Bucket>, init: seq<Entry>, e: Entry)
    requires KeysMatch(bs0, init) && InVisitOrder(bs0, init)
    ensures InVisitOrder(AddToBucket(bs0, e.0, e.1), init + [e])
  {
    match FindBucket(bs0, e.1)
    case Some(k) => OrderExisting(bs0, init, e, k);
    case None => OrderNew(bs0, init, e);
  }

  /** The buckets come in the order of their values' first visits. */
  lemma {:induction false} BucketOrder(es: seq<Entry>)
    ensures forall i :: 0 <= i < |BucketsOf(es)| ==> Visits(es, BucketsOf(es)[i].key)
    ensures forall i, j :: 0 <= i < j < |BucketsOf(es)| ==>
      FirstVisit(es, BucketsOf(es)[i].key) < FirstVisit(es, BucketsOf(es)[j].key)
  {
    if es != [] {
      var init, e := es[..|es| - 1], es[|es| - 1];
      BucketsSnoc(es);
      BucketOrder(init);
      BucketKeys(init);
      assert KeysMatch(BucketsOf(init), init);
      assert InVisitOrder(BucketsOf(init), init);
      OrderStep(BucketsOf(init), init, e);
    }
    assert InVisitOrder(BucketsOf(es), es);
  }

  /** The distinct values a walk visits. */
  function ValuesVisited(es: seq<Entry>): set<string> {
    set e | e in es :: e.1
  }

  lemma CountStep(bs0: seq<Bucket>, init: seq<Entry>, e: Entry)
    requires KeysMatch(bs0, init) && |bs0| == |ValuesVisited(init)|
    ensures |AddToBucket(bs0, e.0, e.1)| == |ValuesVisited(init + [e])|
  {
    assert ValuesVisited(init + [e]) == ValuesVisited(init) + {e.1};
    match FindBucket(bs0, e.1)
    case Some(k) =>
      assert HasKey(bs0, e.1);
      assert init[FirstVisit(init, e.1)] in init;
    case None =>
      assert !HasKey(bs0, e.1);
      assert !Visits(init, e.1);
      forall x | x in init
        ensures x.1 != e.1
      {
        var i :| 0 <= i < |init| && init[i] == x;
      }
  }

  /** There are as many buckets as distinct values visited. */
  lemma {:induction false} BucketCount(es: seq<Entry>)
    ensures |BucketsOf(es)| == |ValuesVisited(es)|
  {
    if es != [] {
      var init, e := es[..|es| - 1], es[|es| - 1];
      BucketsSnoc(es);
      BucketCount(init);
      BucketKeys(init);
      assert KeysMatch(BucketsOf(init), init);
      CountStep(BucketsOf(init), init, e);
    }
  }

  /** A bucket's first nid is the nid of its value's first visit, so the bucket's score is that record's. */
  lemma {:induction false} FirstNidIsFirstVisit(es: seq<Entry>, key: string)
    requires Visits(es, key)
    ensures NidsWithKey(es, key) != [] && NidsWithKey(es, key)[0] == es[FirstVisit(es, key)].0
  {
    var init, e := es[..|es| - 1], es[|es| - 1];
    assert es == init + [e];
    if Visits(init, key) {
      FirstNidIsFirstVisit(init, key);
      FirstVisitOfPrefix(init, e, key);
    } else {
      assert e.1 == key;
      NoVisitNoNids(init, key);
      assert forall j :: 0 <= j < |init| ==> es[j] == init[j];
    }
  }

  lemma {:induction false} NoVisitNoNids(es: seq<Entry>, key: string)
    requires !Visits(es, key)
    ensures NidsWithKey(es, key) == []
  {
    if es != [] {
      var init := es[..|es| - 1];
      assert forall j :: 0 <= j < |init| ==> es[j] == init[j];
      NoVisitNoNids(init, key);
    }
  }

  /** Every nid in a bucket is a nid of the walk, so a bound on the walk's nids bounds the buckets'. */
  lemma {:induction false} BucketNidsBelow(es: seq<Entry>, bound: nat)
    requires forall i :: 0 <= i < |es| ==> es[i].0 < bound
    ensures forall b, n :: b in BucketsOf(es) && n in b.nids ==> n < bound
  {
    if es != [] {
      var init := es[..|es| - 1];
      BucketNidsBelow(init, bound);
      var bs0 := BucketsOf(init);
      match FindBucket(bs0, es[|es| - 1].1)
      case Some(k) =>
        forall b, n | b in BucketsOf(es) && n in b.nids
          ensures n < bound
        {
          var i :| 0 <= i < |BucketsOf(es)| && BucketsOf(es)[i] == b;
          if i != k {
            assert b in bs0;
          } else if n != es[|es| - 1].0 {
            assert n in bs0[k].nids;
            assert bs0[k] in bs0;
          }
        }
      case None =>
    }
  }
}
