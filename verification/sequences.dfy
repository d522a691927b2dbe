/** The two array scans every resolver is built from, written as pure functions
    on sequences: the first-match search of `Array.prototype.find` and the
    order-preserving selection of `Array.prototype.filter`. */
module Sequences {
  import opened Wrappers

  /** Position of the first element satisfying `p`, or None when none does. */
  function FirstIndex<T>(s: seq<T>, p: T -> bool): (r: Option<nat>)
    ensures r.Some? ==> r.value < |s| && p(s[r.value])
    ensures r.Some? ==> forall j :: 0 <= j < r.value ==> !p(s[j])
    ensures r.None? <==> forall j :: 0 <= j < |s| ==> !p(s[j])
  {
    if |s| == 0 then None
    else if p(s[0]) then Some(0)
    else
      match FirstIndex(s[1..], p)
      case None => None
      case Some(i) => Some(i + 1)
  }

  /** `s.find(p)`: the first element satisfying `p`, or None when none does. */
  function Find<T>(s: seq<T>, p: T -> bool): (r: Option<T>)
    ensures r.None? <==> forall j :: 0 <= j < |s| ==> !p(s[j])
    ensures r.Some? ==> exists i :: 0 <= i < |s| && s[i] == r.value && p(s[i]) && forall j :: 0 <= j < i ==> !p(s[j])
  {
    match FirstIndex(s, p)
    case None => None
    case Some(i) => Some(s[i])
  }

  /** `s.filter(p)`: the elements satisfying `p`, in their original order. */
  function Filter<T(!new)>(s: seq<T>, p: T -> bool): (r: seq<T>)
    ensures |r| <= |s|
    ensures forall x :: x in r <==> x in s && p(x)
  {
    if |s| == 0 then []
    else
      assert s == [s[0]] + s[1..];
      (if p(s[0]) then [s[0]] else []) + Filter(s[1..], p)
  }

  /** Filtering keeps each satisfying value as often as the input holds it
      and drops every other value. */
  lemma {:induction false} FilterCount<T(!new)>(s: seq<T>, p: T -> bool)
    ensures forall x :: multiset(Filter(s, p))[x] == if p(x) then multiset(s)[x] else 0
  {
    if |s| > 0 {
      assert s == [s[0]] + s[1..];
      FilterCount(s[1..], p);
    }
  }

  /** Filtering keeps the order of the input: it distributes over concatenation. */
  lemma {:induction false} FilterAppend<T(!new)>(a: seq<T>, b: seq<T>, p: T -> bool)
    ensures Filter(a + b, p) == Filter(a, p) + Filter(b, p)
  {
    if |a| == 0 {
      assert a + b == b;
    } else {
      assert (a + b)[1..] == a[1..] + b;
      FilterAppend(a[1..], b, p);
    }
  }

  /** Filtering a sequence none of whose elements qualifies yields nothing. */
  lemma FilterNone<T(!new)>(s: seq<T>, p: T -> bool)
    requires forall j :: 0 <= j < |s| ==> !p(s[j])
    ensures Filter(s, p) == []
  {
  }

  /** Filtering a sequence in which exactly one position qualifies yields the
      element at that position alone. */
  lemma {:induction false} FilterSingleHit<T(!new)>(s: seq<T>, k: nat, p: T -> bool)
    requires k < |s| && p(s[k])
    requires forall j :: 0 <= j < |s| && j != k ==> !p(s[j])
    ensures Filter(s, p) == [s[k]]
  {
    if k == 0 {
      assert forall j :: 0 <= j < |s[1..]| ==> !p(s[1..][j]);
      FilterNone(s[1..], p);
    } else {
      assert !p(s[0]);
      FilterSingleHit(s[1..], k - 1, p);
    }
  }

  /** `find` returns the head of what `filter` would return with the same
      predicate: the two scans agree on which element comes first. */
  lemma {:induction false} FindIsHeadOfFilter<T(!new)>(s: seq<T>, p: T -> bool)
    ensures Find(s, p) == if Filter(s, p) == [] then None else Some(Filter(s, p)[0])
  {
    if |s| > 0 && !p(s[0]) {
      FindIsHeadOfFilter(s[1..], p);
    }
  }
}
