/**
 * The pattern behind every slice the tool builds: walk a slice in order and
 * append f(x) for each element x that f accepts. FilterMap is its value, and
 * SelectedBy says what such a result is: the accepted elements, transformed,
 * in their original order, each exactly once.
 */
module Sequences {
  import opened Wrappers

  /** Keeps, in order, the value of every element on which `f` gives Some. */
  function FilterMap<A, B>(s: seq<A>, f: A -> Option<B>): (r: seq<B>)
    ensures |r| <= |s|
  {
    if s == [] then []
    else
      var last := f(s[|s| - 1]);
      FilterMap(s[..|s| - 1], f) + (if last.Some? then [last.value] else [])
  }

  /**
   * `idx` lists, in strictly increasing order, the positions of `s` that `f`
   * accepts (all of them and no others), and `r` holds their values.
   */
  ghost predicate SelectedBy<A, B>(s: seq<A>, r: seq<B>, f: A -> Option<B>, idx: seq<int>) {
    && |idx| == |r|
    && (forall k :: 0 <= k < |idx| ==> 0 <= idx[k] < |s| && f(s[idx[k]]) == Some(r[k]))
    && (forall k, l :: 0 <= k < l < |idx| ==> idx[k] < idx[l])
    && (forall i :: 0 <= i < |s| ==> (f(s[i]).Some? <==> i in idx))
  }

  /** FilterMap selects exactly the accepted positions, in order. */
  lemma {:induction false} FilterMapSelects<A, B>(s: seq<A>, f: A -> Option<B>) returns (idx: seq<int>)
    ensures SelectedBy(s, FilterMap(s, f), f, idx)
  {
    if s == [] {
      idx := [];
    } else {
      var n := |s| - 1;
      var prev := FilterMapSelects(s[..n], f);
      assert s == s[..n] + [s[n]];
      idx := SelectedByExtend(s[..n], FilterMap(s[..n], f), f, prev, s[n]);
    }
  }

  /** Appending one element extends a selection by that element's position, if it is accepted. */
  lemma SelectedByExtend<A, B>(s: seq<A>, r: seq<B>, f: A -> Option<B>, idx: seq<int>, x: A)
    returns (idx': seq<int>)
    requires SelectedBy(s, r, f, idx)
    ensures SelectedBy(s + [x], r + (if f(x).Some? then [f(x).value] else []), f, idx')
  {
    var s' := s + [x];
    assert forall i :: 0 <= i < |s| ==> s'[i] == s[i];
    if f(x).Some? {
      idx' := idx + [|s|];
      var r' := r + [f(x).value];
      assert forall k :: 0 <= k < |idx| ==> idx'[k] == idx[k] && r'[k] == r[k];
    } else {
      idx' := idx;
      assert |s| !in idx;
    }
  }

  /** Filtering a concatenation filters each part. */
  lemma {:induction false} FilterMapAppend<A, B>(a: seq<A>, b: seq<A>, f: A -> Option<B>)
    ensures FilterMap(a + b, f) == FilterMap(a, f) + FilterMap(b, f)
  {
    if b != [] {
      var n := |b| - 1;
      assert (a + b)[..|a + b| - 1] == a + b[..n];
      FilterMapAppend(a, b[..n], f);
    } else {
      assert a + b == a;
    }
  }

  /** A value is in the result exactly when some accepted element yields it. */
  lemma FilterMapMember<A, B>(s: seq<A>, f: A -> Option<B>, y: B)
    ensures y in FilterMap(s, f) <==> exists i :: 0 <= i < |s| && f(s[i]) == Some(y)
  {
    var idx := FilterMapSelects(s, f);
    var r := FilterMap(s, f);
    if y in r {
      var k :| 0 <= k < |r| && r[k] == y;
      assert f(s[idx[k]]) == Some(y);
    }
    if i :| 0 <= i < |s| && f(s[i]) == Some(y) {
      assert i in idx;
      var k :| 0 <= k < |idx| && idx[k] == i;
      assert r[k] == y;
    }
  }

  /** When `f` accepts nothing, nothing is kept. */
  lemma {:induction false} FilterMapNone<A, B>(s: seq<A>, f: A -> Option<B>)
    requires forall i :: 0 <= i < |s| ==> f(s[i]).None?
    ensures FilterMap(s, f) == []
  {
    if s != [] {
      FilterMapNone(s[..|s| - 1], f);
    }
  }
}
