/**
 * The two shapes a `SELECT ... WHERE` takes in the handlers: the first row
 * satisfying a condition (`rows[0]`), and all of them in table order.
 */
module Seqs {
  import opened Wrappers

  /** The position of the first element satisfying `p`. */
  function FirstIndex<T>(s: seq<T>, p: T -> bool): (r: Option<nat>)
    ensures r.None? <==> forall i :: 0 <= i < |s| ==> !p(s[i])
    ensures r.Some? ==> r.value < |s| && p(s[r.value])
    ensures r.Some? ==> forall i :: 0 <= i < r.value ==> !p(s[i])
  {
    if s == [] then None
    else if p(s[0]) then Some(0)
    else
      match FirstIndex(s[1..], p)
      case None => None
      case Some(k) => Some(k + 1)
  }

  /** The first element satisfying `p`, if any. */
  function First<T>(s: seq<T>, p: T -> bool): (r: Option<T>)
    ensures r.None? <==> forall i :: 0 <= i < |s| ==> !p(s[i])
    ensures r.Some? ==>
      (exists k :: 0 <= k < |s| && s[k] == r.value && p(s[k])
        && (forall i :: 0 <= i < k ==> !p(s[i])))
  {
    match FirstIndex(s, p)
    case None => None
    case Some(k) => Some(s[k])
  }

  /** The elements satisfying `p`, in order. */
  function Filter<T>(s: seq<T>, p: T -> bool): (r: seq<T>)
    ensures |r| <= |s|
    ensures forall i :: 0 <= i < |r| ==> r[i] in s && p(r[i])
    ensures forall i :: 0 <= i < |s| && p(s[i]) ==> s[i] in r
  {
    if s == [] then []
    else Filter(s[..|s| - 1], p) + (if p(s[|s| - 1]) then [s[|s| - 1]] else [])
  }

  /** Filtering distributes over appending one element. */
  lemma FilterSnoc<T>(s: seq<T>, x: T, p: T -> bool)
    ensures Filter(s + [x], p) == Filter(s, p) + (if p(x) then [x] else [])
  {
    assert (s + [x])[..|s|] == s;
  }

  /** The first element of the filtered sequence is the first element satisfying `p`. */
  lemma {:induction false} FilterHeadIsFirst<T>(s: seq<T>, p: T -> bool)
    ensures Filter(s, p) == [] <==> First(s, p).None?
    ensures Filter(s, p) != [] ==> Some(Filter(s, p)[0]) == First(s, p)
  {
    if s != [] {
      var init := s[..|s| - 1];
      FilterHeadIsFirst(init, p);
      assert forall i :: 0 <= i < |init| ==> init[i] == s[i];
      if Filter(init, p) == [] {
        if p(s[|s| - 1]) {
          FirstIndexUnique(s, p, |s| - 1);
        }
      } else {
        var k :| 0 <= k < |init| && init[k] == First(init, p).value && p(init[k])
          && (forall i :: 0 <= i < k ==> !p(init[i]));
        FirstIndexUnique(s, p, k);
      }
    }
  }

  /** A position satisfying `p` with none before it is the first index. */
  lemma FirstIndexUnique<T>(s: seq<T>, p: T -> bool, k: nat)
    requires k < |s| && p(s[k])
    requires forall i :: 0 <= i < k ==> !p(s[i])
    ensures FirstIndex(s, p) == Some(k)
  {
  }
}
