/**
 Two searches over sequences that the listing parsers are built from: the
 first item satisfying a test, and the order-preserving filter that keeps
 what a partial function yields.
 */
module Seqs {
  import opened Wrappers

  function AsSeq<T>(e: Option<T>): seq<T>
  {
    if e.Some? then [e.value] else []
  }

  /** The values `f` yields for the items it keeps, in item order. */
  function FilterMap<S, T>(items: seq<S>, f: S -> Option<T>): seq<T>
  {
    if items == [] then []
    else FilterMap(items[..|items| - 1], f) + AsSeq(f(items[|items| - 1]))
  }

  /** One more item of a slice adds what `f` yields for it. */
  lemma {:induction false} FilterMapSliceSnoc<S, T>(items: seq<S>, lo: nat, i: nat, f: S -> Option<T>)
    requires lo <= i < |items|
    ensures FilterMap(items[lo..i + 1], f) == FilterMap(items[lo..i], f) + AsSeq(f(items[i]))
  {
    SliceSnoc(items, lo, i);
    FilterMapSnoc(items[lo..i], items[i], f);
  }

  /** A slice one item longer is the slice with that item appended. */
  lemma SliceSnoc<S>(items: seq<S>, lo: nat, i: nat)
    requires lo <= i < |items|
    ensures items[lo..i + 1] == items[lo..i] + [items[i]]
  {
  }

  /** The indices of the items `f` keeps, ascending. */
  function KeptIndices<S, T>(items: seq<S>, f: S -> Option<T>): seq<nat>
  {
    if items == [] then []
    else
      var n := |items| - 1;
      KeptIndices(items[..n], f) + (if f(items[n]).Some? then [n] else [])
  }

  /** The index of the first item satisfying `p`, if any. */
  function FirstIndex<S>(items: seq<S>, p: S -> bool): (r: Option<nat>)
    ensures r.Some? ==> r.value < |items| && p(items[r.value])
    ensures r.Some? ==> forall j :: 0 <= j < r.value ==> !p(items[j])
    ensures r.None? ==> forall j :: 0 <= j < |items| ==> !p(items[j])
  {
    if items == [] then None
    else if p(items[0]) then Some(0)
    else
      match FirstIndex(items[1..], p)
      case Some(k) => Some(k + 1)
      case None => None
  }

  /** Scanning one more item. */
  lemma {:induction false} FirstIndexExtend<S>(items: seq<S>, i: nat, p: S -> bool)
    requires i < |items| && FirstIndex(items[..i], p) == None
    ensures p(items[i]) ==> FirstIndex(items, p) == Some(i)
    ensures !p(items[i]) ==> FirstIndex(items[..i + 1], p) == None
  {
    assert forall j :: 0 <= j < i ==> items[..i][j] == items[j];
    assert forall j :: 0 <= j <= i ==> items[..i + 1][j] == items[j];
  }

  lemma {:induction false} FilterMapSnoc<S, T>(items: seq<S>, x: S, f: S -> Option<T>)
    ensures FilterMap(items + [x], f) == FilterMap(items, f) + AsSeq(f(x))
  {
    assert (items + [x])[..|items|] == items;
  }

  /** Filtering concatenated runs is concatenating the filtered runs. */
  lemma {:induction false} FilterMapAppend<S, T>(a: seq<S>, b: seq<S>, f: S -> Option<T>)
    ensures FilterMap(a + b, f) == FilterMap(a, f) + FilterMap(b, f)
  {
    if b == [] {
      assert a + b == a;
    } else {
      var n := |b| - 1;
      assert (a + b)[..|a + b| - 1] == a + b[..n];
      FilterMapAppend(a, b[..n], f);
    }
  }

  /** `FilterMap` yields one value per kept item, never more than there
      are items. */
  lemma {:induction false} FilterMapLength<S, T>(items: seq<S>, f: S -> Option<T>)
    ensures |FilterMap(items, f)| == |KeptIndices(items, f)| <= |items|
  {
    if items != [] {
      FilterMapLength(items[..|items| - 1], f);
    }
  }

  /** The `j`-th value is what `f` yields for the `j`-th kept item. */
  lemma {:induction false} FilterMapAt<S, T>(items: seq<S>, f: S -> Option<T>)
    ensures |FilterMap(items, f)| == |KeptIndices(items, f)|
    ensures forall j :: 0 <= j < |KeptIndices(items, f)| ==>
              KeptIndices(items, f)[j] < |items| &&
              f(items[KeptIndices(items, f)[j]]) == Some(FilterMap(items, f)[j])
  {
    FilterMapLength(items, f);
    if items != [] {
      var n := |items| - 1;
      var front := items[..n];
      FilterMapAt(front, f);
      var ks, vs := KeptIndices(items, f), FilterMap(items, f);
      var ks', vs' := KeptIndices(front, f), FilterMap(front, f);
      forall j | 0 <= j < |ks|
        ensures ks[j] < |items| && f(items[ks[j]]) == Some(vs[j])
      {
        if j < |ks'| {
          assert ks[j] == ks'[j] && vs[j] == vs'[j];
          assert items[ks[j]] == front[ks'[j]];
        } else {
          assert ks[j] == n && vs[j] == f(items[n]).value;
        }
      }
    }
  }

  /** The kept indices ascend and are all below the number of items. */
  lemma {:induction false} KeptIndicesAscend<S, T>(items: seq<S>, f: S -> Option<T>)
    ensures forall j :: 0 <= j < |KeptIndices(items, f)| ==> KeptIndices(items, f)[j] < |items|
    ensures forall j, k :: 0 <= j < k < |KeptIndices(items, f)| ==>
              KeptIndices(items, f)[j] < KeptIndices(items, f)[k]
  {
    if items != [] {
      var n := |items| - 1;
      KeptIndicesAscend(items[..n], f);
    }
  }

  /** An index is kept exactly when `f` yields something for its item. */
  lemma {:induction false} KeptIndicesMembers<S, T>(items: seq<S>, f: S -> Option<T>)
    ensures forall i :: 0 <= i < |items| ==>
              (i in KeptIndices(items, f) <==> f(items[i]).Some?)
  {
    if items != [] {
      var n := |items| - 1;
      var front := items[..n];
      KeptIndicesMembers(front, f);
      KeptIndicesAscend(front, f);
      forall i | 0 <= i < |items|
        ensures i in KeptIndices(items, f) <==> f(items[i]).Some?
      {
        if i < n {
          assert items[i] == front[i];
          assert n !in KeptIndices(front, f);
        }
      }
    }
  }
}
