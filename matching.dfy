/**
 * The scored result set both indexer backends compute queries into (`Match`). Its source is not
 * part of this model; this is a concrete stand-in with the algebra the backends rely on: a set of
 * nids, each with a score, kept in the order the nids were first added.
 *
 * Scores combine by addition: `addScore` on a present nid, `and` and `or` all add. `toArray` lists
 * the nids by descending score, ties by ascending nid.
 */
module Matching {
  import opened Wrappers

  /** A record's internal number. */
  type Nid = nat

  datatype Match = Match(nids: seq<Nid>, scores: map<Nid, real>)

  function Elements(s: seq<Nid>): set<Nid> {
    set n | n in s
  }

  /** Every scored nid is listed exactly once. */
  predicate Valid(m: Match) {
    Distinct(m.nids) && Elements(m.nids) == m.scores.Keys
  }

  type ValidMatch = m: Match | Valid(m) witness Match([], map[])

  function Members(m: Match): set<Nid> {
    m.scores.Keys
  }

  /** `getScore(nid)`: the nid's score, 0 for a nid not in the match. */
  function GetScore(m: Match, nid: Nid): real {
    if nid in m.scores then m.scores[nid] else 0.0
  }

  /** `size()`. */
  function Size(m: Match): nat {
    |m.nids|
  }

  /** A new, empty `Match`. */
  function Empty(): (r: ValidMatch)
    ensures Members(r) == {} && Size(r) == 0
  {
    Match([], map[])
  }

  /** `addScore(nid, score)`: adds `score` to the nid's score, entering it when absent. */
  function AddScore(m: ValidMatch, nid: Nid, score: real): (r: ValidMatch)
    ensures Members(r) == Members(m) + {nid}
    ensures GetScore(r, nid) == GetScore(m, nid) + score
    ensures forall n :: n != nid ==> GetScore(r, n) == GetScore(m, n)
    ensures nid in Members(m) ==> r.nids == m.nids
    ensures nid !in Members(m) ==> r.nids == m.nids + [nid]
  {
    if nid in m.scores then Match(m.nids, m.scores[nid := m.scores[nid] + score])
    else Match(m.nids + [nid], m.scores[nid := score])
  }

  /** The elements of `s` that satisfy `p`, in order. */
  function Keep(s: seq<Nid>, p: Nid -> bool): (r: seq<Nid>)
    ensures forall x :: x in r <==> x in s && p(x)
    ensures Distinct(s) ==> Distinct(r)
    ensures |r| <= |s|
  {
    if s == [] then []
    else if p(s[|s| - 1]) then Keep(s[..|s| - 1], p) + [s[|s| - 1]]
    else Keep(s[..|s| - 1], p)
  }

  /** `a.and(b)`: the nids in both, each scored by the sum of its two scores. */
  function And(a: ValidMatch, b: ValidMatch): (r: ValidMatch)
    ensures Members(r) == Members(a) * Members(b)
    ensures forall n :: n in Members(r) ==> GetScore(r, n) == GetScore(a, n) + GetScore(b, n)
  {
    Match(Keep(a.nids, n => n in b.scores),
          map n | n in a.scores && n in b.scores :: a.scores[n] + b.scores[n])
  }

  /** `a.or(b)`: the nids in either, each scored by the sum of its scores (0 where absent). */
  function Or(a: ValidMatch, b: ValidMatch): (r: ValidMatch)
    ensures Members(r) == Members(a) + Members(b)
    ensures forall n :: GetScore(r, n) == GetScore(a, n) + GetScore(b, n)
  {
    var extra := Keep(b.nids, n => n !in a.scores);
    OrListing(a, b, extra);
    Match(a.nids + extra, SumScores(a, b))
  }

  /** Each nid scored in either match, with the sum of its two scores. */
  function SumScores(a: Match, b: Match): (s: map<Nid, real>)
    ensures s.Keys == a.scores.Keys + b.scores.Keys
    ensures forall n :: n in s ==> s[n] == GetScore(a, n) + GetScore(b, n)
  {
    map n | n in a.scores.Keys + b.scores.Keys :: GetScore(a, n) + GetScore(b, n)
  }

  /** `a`'s nids followed by those of `b` not in `a` list the union once each. */
  lemma OrListing(a: ValidMatch, b: ValidMatch, extra: seq<Nid>)
    requires extra == Keep(b.nids, n => n !in a.scores)
    ensures Distinct(a.nids + extra)
    ensures Elements(a.nids + extra) == a.scores.Keys + b.scores.Keys
  {
    DistinctAppend(a.nids, extra);
    forall n ensures n in a.nids + extra <==> n in a.scores.Keys + b.scores.Keys {
      assert n in a.nids <==> n in Elements(a.nids);
      assert n in b.nids <==> n in Elements(b.nids);
    }
  }

  /** Two distinct lists with no nid in common join into a distinct list. */
  lemma DistinctAppend(s: seq<Nid>, t: seq<Nid>)
    requires Distinct(s) && Distinct(t)
    requires forall x :: x in t ==> x !in s
    ensures Distinct(s + t)
  {
    forall i, j | 0 <= i < j < |s + t|
      ensures (s + t)[i] != (s + t)[j]
    {
      if j < |s| {
        assert (s + t)[i] == s[i] && (s + t)[j] == s[j];
      } else if i < |s| {
        assert (s + t)[i] == s[i] && (s + t)[j] == t[j - |s|];
        assert t[j - |s|] in t;
      } else {
        assert (s + t)[i] == t[i - |s|] && (s + t)[j] == t[j - |s|];
      }
    }
  }

  /** `a.exclude(b)`: the nids of `a` not in `b`, with their scores in `a`. */
  function Exclude(a: ValidMatch, b: ValidMatch): (r: ValidMatch)
    ensures Members(r) == Members(a) - Members(b)
    ensures forall n :: n in Members(r) ==> GetScore(r, n) == GetScore(a, n)
  {
    Match(Keep(a.nids, n => n !in b.scores), map n | n in a.scores && n !in b.scores :: a.scores[n])
  }

  /** `m.filter(p)` (and `asyncFilter`): the nids satisfying `p`, with their scores. */
  function Filter(m: ValidMatch, p: Nid -> bool): (r: ValidMatch)
    ensures Members(r) == set n | n in Members(m) && p(n)
    ensures forall n :: n in Members(r) ==> GetScore(r, n) == GetScore(m, n)
  {
    Match(Keep(m.nids, p), map n | n in m.scores && p(n) :: m.scores[n])
  }

  /** Every nid of `ks` scored 1, in order (what both backends' `matchAll` build). */
  function ScoreEach(ks: seq<Nid>): (r: ValidMatch)
    requires Distinct(ks)
    ensures r.nids == ks
    ensures Members(r) == Elements(ks)
    ensures forall n :: n in Members(r) ==> GetScore(r, n) == 1.0
  {
    if ks == [] then Empty()
    else AddScore(ScoreEach(ks[..|ks| - 1]), ks[|ks| - 1], 1.0)
  }

  /** Scoring one more nid of a distinct list: the loop step of `matchAll`. */
  lemma ScoreEachSnoc(ks: seq<Nid>, i: nat)
    requires Distinct(ks) && i < |ks|
    ensures Distinct(ks[..i]) && Distinct(ks[..i + 1])
    ensures ScoreEach(ks[..i + 1]) == AddScore(ScoreEach(ks[..i]), ks[i], 1.0)
  {
    assert ks[..i + 1][..i] == ks[..i];
  }

  /** Scores each nid of a distinct list with 1, in list order: the cursor loop of `matchAll`. */
  method ScoreAll(ks: seq<Nid>) returns (m: ValidMatch)
    requires Distinct(ks)
    ensures m == ScoreEach(ks)
  {
    m := Empty();
    for i := 0 to |ks|
      invariant Distinct(ks[..i])
      invariant m == ScoreEach(ks[..i])
    {
      ScoreEachSnoc(ks, i);
      m := AddScore(m, ks[i], 1.0);
    }
    assert ks[..|ks|] == ks;
  }

  /** The numbers `0 .. n-1` in ascending order. */
  function Range(n: nat): (r: seq<Nid>)
    ensures |r| == n && Distinct(r)
    ensures forall i :: 0 <= i < n ==> r[i] == i
  {
    if n == 0 then [] else Range(n - 1) + [n - 1]
  }

  /** A distinct sequence has as many elements as its set. */
  lemma {:induction false} DistinctCardinality(s: seq<Nid>)
    requires Distinct(s)
    ensures |Elements(s)| == |s|
  {
    if s != [] {
      var init := s[..|s| - 1];
      DistinctCardinality(init);
      assert s == init + [s[|s| - 1]];
      assert Elements(s) == Elements(init) + {s[|s| - 1]};
    }
  }

  /** `size()` is the number of distinct nids in the match. */
  lemma SizeIsCardinality(m: ValidMatch)
    ensures Size(m) == |Members(m)|
  {
    DistinctCardinality(m.nids);
  }

  /** `x` comes before `y` in `toArray()`: higher score first, ties by lower nid. */
  predicate Precedes(m: Match, x: Nid, y: Nid) {
    GetScore(m, x) > GetScore(m, y) || (GetScore(m, x) == GetScore(m, y) && x < y)
  }

  predicate SortedBy(m: Match, s: seq<Nid>) {
    forall i, j :: 0 <= i < j < |s| ==> Precedes(m, s[i], s[j])
  }

  /** Inserts `x` into a list sorted by `Precedes`, before the first element it precedes. */
  function InsertSorted(m: Match, x: Nid, s: seq<Nid>): (r: seq<Nid>)
    requires SortedBy(m, s) && x !in s
    ensures SortedBy(m, r)
    ensures multiset(r) == multiset(s) + multiset{x}
  {
    if s == [] then [x]
    else if Precedes(m, x, s[0]) then [x] + s
    else
      var rest := InsertSorted(m, x, s[1..]);
      InsertBehindHead(m, x, s, rest);
      [s[0]] + rest
  }

  /** The head of a sorted list stays in front when `x` goes somewhere into its tail. */
  lemma InsertBehindHead(m: Match, x: Nid, s: seq<Nid>, rest: seq<Nid>)
    requires SortedBy(m, s) && s != [] && x !in s && !Precedes(m, x, s[0])
    requires SortedBy(m, rest) && multiset(rest) == multiset(s[1..]) + multiset{x}
    ensures SortedBy(m, [s[0]] + rest)
    ensures multiset([s[0]] + rest) == multiset(s) + multiset{x}
  {
    forall k | 0 <= k < |rest|
      ensures Precedes(m, s[0], rest[k])
    {
      assert rest[k] in multiset(rest);
      if rest[k] != x {
        assert rest[k] in multiset(s[1..]);
        var j :| 0 <= j < |s[1..]| && s[1..][j] == rest[k];
        assert s[j + 1] == rest[k];
      }
    }
    assert s == [s[0]] + s[1..];
  }

  /** Sorts distinct nids by `Precedes`. */
  function SortNids(m: Match, s: seq<Nid>): (r: seq<Nid>)
    requires Distinct(s)
    ensures SortedBy(m, r)
    ensures multiset(r) == multiset(s)
  {
    if s == [] then []
    else
      var init := s[..|s| - 1];
      assert s == init + [s[|s| - 1]];
      var sorted := SortNids(m, init);
      assert s[|s| - 1] !in multiset(init);
      InsertSorted(m, s[|s| - 1], sorted)
  }

  /** `toArray()`: every nid of the match exactly once, by descending score, then ascending nid. */
  function ToArray(m: ValidMatch): (r: seq<Nid>)
    ensures SortedBy(m, r) && Distinct(r)
    ensures multiset(r) == multiset(m.nids)
    ensures |r| == Size(m)
    ensures forall n :: n in r <==> n in Members(m)
  {
    var r := SortNids(m, m.nids);
    assert |r| == |multiset(r)|;
    forall n ensures n in r <==> n in m.nids {
      assert n in r <==> n in multiset(r);
      assert n in m.nids <==> n in multiset(m.nids);
    }
    r
  }

  /** Two sorted listings of the same nids start with the same nid. */
  lemma SortedHead(m: Match, a: seq<Nid>, b: seq<Nid>)
    requires SortedBy(m, a) && SortedBy(m, b)
    requires multiset(a) == multiset(b) && a != []
    ensures b != [] && a[0] == b[0]
  {
    assert a[0] in multiset(b);
    var k :| 0 <= k < |b| && b[k] == a[0];
    assert b[0] in multiset(a);
    var l :| 0 <= l < |a| && a[l] == b[0];
    if a[0] != b[0] {
      assert false;
    }
  }

  /** Dropping equal heads keeps two listings' multisets equal. */
  lemma TailsAgree(a: seq<Nid>, b: seq<Nid>)
    requires multiset(a) == multiset(b) && a != [] && b != [] && a[0] == b[0]
    ensures multiset(a[1..]) == multiset(b[1..])
  {
    assert a == [a[0]] + a[1..] && b == [b[0]] + b[1..];
    assert multiset(a[1..]) == multiset(a) - multiset{a[0]};
    assert multiset(b[1..]) == multiset(b) - multiset{b[0]};
  }

  /** The `toArray` order is the only order meeting its contract: a sorted listing is unique. */
  lemma {:induction false} SortedUnique(m: Match, a: seq<Nid>, b: seq<Nid>)
    requires SortedBy(m, a) && SortedBy(m, b)
    requires multiset(a) == multiset(b)
    ensures a == b
  {
    if a != [] {
      SortedHead(m, a, b);
      TailsAgree(a, b);
      SortedUnique(m, a[1..], b[1..]);
      assert a == [a[0]] + a[1..] && b == [b[0]] + b[1..];
    } else {
      assert |b| == |multiset(b)|;
    }
  }
}
