/** Failure-compatible result types, and distinctness of a list, shared by every module of the model. */
module Wrappers {

  /** A value that may be absent: JavaScript's `undefined` / `null` / a missing Map entry. */
  datatype Option<+T> = None | Some(value: T)

  /** The outcome of an operation that throws: `Err` carries what the source's `throw` reports. */
  datatype Result<+T, +E> = Ok(value: T) | Err(error: E)

  /** No element of the list occurs twice. */
  predicate Distinct<T(==)>(s: seq<T>) {
    forall i, j :: 0 <= i < j < |s| ==> s[i] != s[j]
  }
}

/** The parts of JavaScript's Array semantics that the modelled code depends on. */
module JsArrays {

  /**
   * The index `Array.prototype.slice` and `splice` use for an argument `i` on an array of
   * length `len`: a negative index counts from the end, and the result is clamped to [0, len].
   */
  function RelativeIndex(i: int, len: nat): (r: nat)
    ensures r <= len
    ensures 0 <= i <= len ==> r == i
    ensures i < 0 ==> r <= len + i || r == 0
  {
    if i < 0 then (if len + i < 0 then 0 else len + i)
    else if i > len then len
    else i
  }

  /** `s.slice(from, to)`. */
  function Slice<T>(s: seq<T>, from: int, to: int): (r: seq<T>)
    ensures |r| <= |s|
    ensures forall x :: x in r ==> x in s
  {
    var a := RelativeIndex(from, |s|);
    var b := RelativeIndex(to, |s|);
    if a < b then s[a..b] else []
  }

  /**
   * A page `s.slice(skip, skip + limit)` never holds more than `limit` elements, whatever the
   * sign of `skip`. (A negative limit gives no such bound: `slice(2, -1)` is most of the array.)
   */
  lemma SlicePageBound<T>(s: seq<T>, skip: int, limit: int)
    requires 0 <= limit
    ensures |Slice(s, skip, skip + limit)| <= limit
  {
    var a, b := RelativeIndex(skip, |s|), RelativeIndex(skip + limit, |s|);
    if a < b {
      assert b - a <= limit by {
        if skip < 0 && skip + limit >= 0 {
          assert a >= |s| + skip;
        }
      }
    }
  }

  /** With a non-negative skip and limit the page is the plain window of `s`, truncated at its end. */
  lemma SlicePageWindow<T>(s: seq<T>, skip: int, limit: int)
    requires 0 <= skip && 0 <= limit
    ensures skip >= |s| ==> Slice(s, skip, skip + limit) == []
    ensures skip < |s| && skip + limit <= |s| ==> Slice(s, skip, skip + limit) == s[skip..skip + limit]
    ensures skip < |s| < skip + limit ==> Slice(s, skip, skip + limit) == s[skip..]
  {
  }

  /** `s.splice(index, 0, x)`: insert `x` before the position `index` refers to. */
  function SpliceInsert<T>(s: seq<T>, index: int, x: T): (r: seq<T>)
    ensures |r| == |s| + 1
    ensures r[RelativeIndex(index, |s|)] == x
    ensures r[..RelativeIndex(index, |s|)] == s[..RelativeIndex(index, |s|)]
    ensures r[RelativeIndex(index, |s|) + 1..] == s[RelativeIndex(index, |s|)..]
  {
    var k := RelativeIndex(index, |s|);
    s[..k] + [x] + s[k..]
  }

  /** `s.splice(index, 1)` for an index already known to be in range. */
  function RemoveAt<T>(s: seq<T>, index: nat): (r: seq<T>)
    requires index < |s|
    ensures |r| == |s| - 1
    ensures forall i :: 0 <= i < index ==> r[i] == s[i]
    ensures forall i :: index <= i < |r| ==> r[i] == s[i + 1]
  {
    s[..index] + s[index + 1..]
  }
}
