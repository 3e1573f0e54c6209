/** Order-preserving selection from a sequence: the shape of every
    `[f(x) for x in xs if …]` comprehension and append-in-a-loop filter in
    the script. */
module Seqs {
  import opened Options

  /** The elements of `s` that satisfy `keep`, in their original order. */
  function Filter<T(!new)>(keep: T -> bool, s: seq<T>): (r: seq<T>)
    ensures |r| <= |s|
    ensures forall x :: x in r <==> x in s && keep(x)
  {
    if s == [] then []
    else
      var init := s[..|s| - 1];
      assert s == init + [s[|s| - 1]];
      Filter(keep, init) + (if keep(s[|s| - 1]) then [s[|s| - 1]] else [])
  }

  /** Filtering commutes with concatenation, so relative order is kept. */
  lemma {:induction false} FilterAppend<T(!new)>(keep: T -> bool, a: seq<T>, b: seq<T>)
    ensures Filter(keep, a + b) == Filter(keep, a) + Filter(keep, b)
  {
    if b == [] {
      assert a + b == a;
    } else {
      var init := b[..|b| - 1];
      assert (a + b)[..|a + b| - 1] == a + init;
      FilterAppend(keep, a, init);
    }
  }

  /** Filtering one more element appends it when it is kept. */
  lemma FilterSnoc<T(!new)>(keep: T -> bool, s: seq<T>, x: T)
    ensures Filter(keep, s + [x]) == Filter(keep, s) + (if keep(x) then [x] else [])
  {
    assert (s + [x])[..|s|] == s;
  }

  /** The values `f` produces along `s`, skipping the elements it maps to
      `None`, in the order of `s`. */
  function FilterMap<T, U>(f: T -> Option<U>, s: seq<T>): (r: seq<U>)
    ensures |r| <= |s|
  {
    if s == [] then []
    else
      var last := f(s[|s| - 1]);
      FilterMap(f, s[..|s| - 1]) + (if last.Some? then [last.value] else [])
  }

  /** The positions of `s` at which `f` produces a value, in increasing order. */
  function Selected<T, U>(f: T -> Option<U>, s: seq<T>): (idx: seq<nat>)
    ensures forall k :: 0 <= k < |idx| ==> idx[k] < |s| && f(s[idx[k]]).Some?
    ensures forall k, l :: 0 <= k < l < |idx| ==> idx[k] < idx[l]
    ensures forall i :: 0 <= i < |s| && f(s[i]).Some? ==> i in idx
  {
    if s == [] then []
    else
      var n := |s| - 1;
      var init := Selected(f, s[..n]);
      assert forall i :: 0 <= i < n ==> s[..n][i] == s[i];
      init + (if f(s[n]).Some? then [n] else [])
  }

  /** The k-th value `FilterMap` produces comes from the k-th selected
      position: nothing is reordered, dropped beyond `None`, or invented. */
  lemma {:induction false} FilterMapSelects<T, U>(f: T -> Option<U>, s: seq<T>)
    ensures |FilterMap(f, s)| == |Selected(f, s)|
    ensures forall k :: 0 <= k < |Selected(f, s)| ==>
              FilterMap(f, s)[k] == f(s[Selected(f, s)[k]]).value
  {
    if s != [] {
      var n := |s| - 1;
      var init := s[..n];
      FilterMapSelects(f, init);
      var r, idx := FilterMap(f, s), Selected(f, s);
      var ri, ii := FilterMap(f, init), Selected(f, init);
      assert r == ri + (if f(s[n]).Some? then [f(s[n]).value] else []);
      assert idx == ii + (if f(s[n]).Some? then [n] else []);
      forall k | 0 <= k < |idx|
        ensures r[k] == f(s[idx[k]]).value
      {
        if k < |ii| {
          assert r[k] == ri[k] && idx[k] == ii[k];
          assert init[ii[k]] == s[ii[k]];
        }
      }
    }
  }

  /** Every value produced comes from some element, and every element that
      produces a value contributes it. */
  lemma FilterMapMembers<T, U>(f: T -> Option<U>, s: seq<T>)
    ensures forall k :: 0 <= k < |FilterMap(f, s)| ==>
              exists i :: 0 <= i < |s| && f(s[i]) == Some(FilterMap(f, s)[k])
    ensures forall i :: 0 <= i < |s| && f(s[i]).Some? ==> f(s[i]).value in FilterMap(f, s)
  {
    FilterMapSelects(f, s);
    var r, idx := FilterMap(f, s), Selected(f, s);
    forall k | 0 <= k < |r|
      ensures exists i :: 0 <= i < |s| && f(s[i]) == Some(r[k])
    {
      assert f(s[idx[k]]) == Some(r[k]);
    }
    forall i | 0 <= i < |s| && f(s[i]).Some?
      ensures f(s[i]).value in r
    {
      var k :| 0 <= k < |idx| && idx[k] == i;
      assert r[k] == f(s[i]).value;
    }
  }

  /** `FilterMap` commutes with concatenation. */
  lemma {:induction false} FilterMapAppend<T, U>(f: T -> Option<U>, a: seq<T>, b: seq<T>)
    ensures FilterMap(f, a + b) == FilterMap(f, a) + FilterMap(f, b)
  {
    if b == [] {
      assert a + b == a;
    } else {
      var init := b[..|b| - 1];
      assert (a + b)[..|a + b| - 1] == a + init;
      FilterMapAppend(f, a, init);
    }
  }

  /** Filtering first by a test that every value-producing element passes
      changes nothing `FilterMap` produces. */
  lemma {:induction false} FilterMapOfFilter<T(!new), U>(f: T -> Option<U>, keep: T -> bool, s: seq<T>)
    requires forall x :: f(x).Some? ==> keep(x)
    ensures FilterMap(f, Filter(keep, s)) == FilterMap(f, s)
  {
    if s != [] {
      var init, x := s[..|s| - 1], s[|s| - 1];
      var tail := if keep(x) then [x] else [];
      FilterMapOfFilter(f, keep, init);
      assert Filter(keep, s) == Filter(keep, init) + tail;
      FilterMapAppend(f, Filter(keep, init), tail);
      if keep(x) {
        assert tail[..0] == [];
      } else {
        assert FilterMap(f, Filter(keep, init)) + [] == FilterMap(f, Filter(keep, init));
      }
    }
  }
}
