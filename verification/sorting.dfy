/** `matched.sort(key=lambda x: x[1])`: Python's stable sort of the matched
    letters by their numeric suffix. Equal suffixes are possible (`_01` and
    `_1`, or the same name in two folders); such letters keep the order in
    which the walk found them. */
module Sorting {
  import opened Matching
  import opened Seqs

  ghost predicate SortedBySuffix(xs: seq<Match>)
  {
    forall i, j :: 0 <= i < j < |xs| ==> xs[i].suffix <= xs[j].suffix
  }

  function HasSuffix(n: nat): Match -> bool
  {
    (m: Match) => m.suffix == n
  }

  /** Two lists hold the same letters with equal suffix in the same relative
      order: the promise a stable sort keeps about its input. */
  ghost predicate SameOrderPerSuffix(xs: seq<Match>, ys: seq<Match>)
  {
    forall n :: Filter(HasSuffix(n), xs) == Filter(HasSuffix(n), ys)
  }

  /** Inserts `x` into a sorted list after every entry whose suffix is not
      larger, as the stable sort places a later element. */
  function Insert(x: Match, ys: seq<Match>): (r: seq<Match>)
    requires SortedBySuffix(ys)
    ensures SortedBySuffix(r)
    ensures multiset(r) == multiset(ys) + multiset{x}
    ensures forall n :: Filter(HasSuffix(n), r) == Filter(HasSuffix(n), ys) + (if x.suffix == n then [x] else [])
  {
    if ys == [] || ys[|ys| - 1].suffix <= x.suffix then
      var r := ys + [x];
      forall n ensures Filter(HasSuffix(n), r) == Filter(HasSuffix(n), ys) + (if x.suffix == n then [x] else []) {
        FilterSnoc(HasSuffix(n), ys, x);
      }
      r
    else
      var init, last := ys[..|ys| - 1], ys[|ys| - 1];
      assert ys == init + [last];
      var front := Insert(x, init);
      var r := front + [last];
      AppendLargest(front, last, ys, x);
      forall n ensures Filter(HasSuffix(n), r) == Filter(HasSuffix(n), ys) + (if x.suffix == n then [x] else []) {
        InsertFilterStep(HasSuffix(n), front, init, x, last);
      }
      r
  }

  /** Appending an entry whose suffix bounds every other entry keeps a list
      sorted; `front` holds the entries of `ys` before `last`, plus `x`. */
  lemma AppendLargest(front: seq<Match>, last: Match, ys: seq<Match>, x: Match)
    requires SortedBySuffix(front) && SortedBySuffix(ys)
    requires ys != [] && last == ys[|ys| - 1] && x.suffix < last.suffix
    requires multiset(front) == multiset(ys[..|ys| - 1]) + multiset{x}
    ensures SortedBySuffix(front + [last])
  {
    var init := ys[..|ys| - 1];
    forall k | 0 <= k < |front| ensures front[k].suffix <= last.suffix {
      var m := front[k];
      assert m in multiset(front);
      if m != x {
        assert m in multiset(init);
        var j :| 0 <= j < |init| && init[j] == m;
        assert ys[j] == m;
      }
    }
  }

  /** One step of `Insert` in the view of a single suffix: the inserted
      entry and the entry it moves past never share a suffix. */
  lemma InsertFilterStep(keep: Match -> bool, front: seq<Match>, init: seq<Match>, x: Match, last: Match)
    requires Filter(keep, front) == Filter(keep, init) + (if keep(x) then [x] else [])
    requires !(keep(x) && keep(last))
    ensures Filter(keep, front + [last]) == Filter(keep, init + [last]) + (if keep(x) then [x] else [])
  {
    FilterSnoc(keep, front, last);
    FilterSnoc(keep, init, last);
    var fi := Filter(keep, init);
    if keep(x) {
      assert Filter(keep, front + [last]) == Filter(keep, front) + [];
      assert Filter(keep, init + [last]) == fi + [];
      assert fi + [] == fi && Filter(keep, front) + [] == Filter(keep, front);
    } else {
      assert fi + [] == fi;
      assert Filter(keep, front) == fi;
      assert Filter(keep, init + [last]) + [] == Filter(keep, init + [last]);
    }
  }

  /** The sorted `matched` list: a permutation of its input, in
      non-decreasing order of suffix, with equal suffixes in input order. */
  function SortBySuffix(xs: seq<Match>): (r: seq<Match>)
    ensures SortedBySuffix(r)
    ensures multiset(r) == multiset(xs)
    ensures SameOrderPerSuffix(r, xs)
  {
    if xs == [] then []
    else
      var init, last := xs[..|xs| - 1], xs[|xs| - 1];
      assert xs == init + [last];
      var r := Insert(last, SortBySuffix(init));
      forall n ensures Filter(HasSuffix(n), r) == Filter(HasSuffix(n), xs) {
        FilterSnoc(HasSuffix(n), init, last);
      }
      r
  }

  /** Every entry of a sorted list has a suffix no larger than the last one. */
  lemma LastIsLargest(xs: seq<Match>, m: Match)
    requires SortedBySuffix(xs) && m in xs
    ensures m.suffix <= xs[|xs| - 1].suffix
  {
  }

  /** Two non-empty sorted lists that agree on every suffix end with the
      same entry. */
  lemma SameLast(a: seq<Match>, b: seq<Match>)
    requires SortedBySuffix(a) && SortedBySuffix(b) && a != [] && b != []
    requires SameOrderPerSuffix(a, b)
    ensures a[|a| - 1] == b[|b| - 1]
  {
    var la, lb := a[|a| - 1], b[|b| - 1];
    LastInOther(b, a);
    LastIsLargest(a, lb);
    LastInOther(a, b);
    LastIsLargest(b, la);
    var keep := HasSuffix(la.suffix);
    assert Filter(keep, a) == Filter(keep, b);
    FilterEndsWithLast(keep, a);
    FilterEndsWithLast(keep, b);
  }

  /** The last entry of a list is among the entries of any list that agrees
      with it on every suffix. */
  lemma LastInOther(a: seq<Match>, b: seq<Match>)
    requires a != [] && SameOrderPerSuffix(b, a)
    ensures a[|a| - 1] in b
  {
    var l := a[|a| - 1];
    assert l in Filter(HasSuffix(l.suffix), a);
    assert Filter(HasSuffix(l.suffix), a) == Filter(HasSuffix(l.suffix), b);
  }

  /** When the last element is kept, it is the last one the filter yields. */
  lemma FilterEndsWithLast(keep: Match -> bool, s: seq<Match>)
    requires s != [] && keep(s[|s| - 1])
    ensures var f := Filter(keep, s); f != [] && f[|f| - 1] == s[|s| - 1]
  {
    assert s == s[..|s| - 1] + [s[|s| - 1]];
    FilterSnoc(keep, s[..|s| - 1], s[|s| - 1]);
  }

  /** Removing a common last entry keeps the two lists in agreement. */
  lemma SameOrderDropLast(a: seq<Match>, b: seq<Match>)
    requires a != [] && b != [] && a[|a| - 1] == b[|b| - 1]
    requires SameOrderPerSuffix(a, b)
    ensures SameOrderPerSuffix(a[..|a| - 1], b[..|b| - 1])
  {
    var ia, ib, l := a[..|a| - 1], b[..|b| - 1], a[|a| - 1];
    assert a == ia + [l] && b == ib + [l];
    forall n ensures Filter(HasSuffix(n), ia) == Filter(HasSuffix(n), ib) {
      var keep := HasSuffix(n);
      assert Filter(keep, a) == Filter(keep, b);
      FilterSnoc(keep, ia, l);
      FilterSnoc(keep, ib, l);
      var fa, fb := Filter(keep, ia), Filter(keep, ib);
      if keep(l) {
        assert fa == (fa + [l])[..|fa|];
        assert fb == (fb + [l])[..|fb|];
      } else {
        assert fa + [] == fa && fb + [] == fb;
      }
    }
  }

  /** A non-empty list does not agree with the empty list on every suffix. */
  lemma NonEmptyDisagreesWithEmpty(b: seq<Match>)
    requires b != []
    ensures !SameOrderPerSuffix([], b)
  {
    var lb := b[|b| - 1];
    assert lb in Filter(HasSuffix(lb.suffix), b);
    assert Filter(HasSuffix(lb.suffix), []) == [];
  }

  /** Sortedness and per-suffix order pin a list down completely: two sorted
      lists that agree on every suffix are equal. */
  lemma {:induction false} SortedSameOrderUnique(a: seq<Match>, b: seq<Match>)
    requires SortedBySuffix(a) && SortedBySuffix(b)
    requires SameOrderPerSuffix(a, b)
    ensures a == b
    decreases |a| + |b|
  {
    if a == [] && b == [] {
    } else if a == [] {
      NonEmptyDisagreesWithEmpty(b);
      assert false;
    } else if b == [] {
      assert SameOrderPerSuffix(b, a);
      NonEmptyDisagreesWithEmpty(a);
      assert false;
    } else {
      SameLast(a, b);
      SameOrderDropLast(a, b);
      SortedSameOrderUnique(a[..|a| - 1], b[..|b| - 1]);
      assert a == a[..|a| - 1] + [a[|a| - 1]] && b == b[..|b| - 1] + [b[|b| - 1]];
    }
  }

  /** `SortBySuffix` is the stable sort: any sorted list that keeps every
      suffix's entries in input order is the one it returns. */
  lemma SortBySuffixIsStableSort(xs: seq<Match>, r: seq<Match>)
    requires SortedBySuffix(r) && SameOrderPerSuffix(r, xs)
    ensures r == SortBySuffix(xs)
  {
    var s := SortBySuffix(xs);
    SortedSameOrderUnique(r, s);
  }

  /** Equal suffixes are kept in input order, so the sorted list need not
      be strictly ascending: letters that all carry the same number come out
      exactly as the walk found them. */
  lemma EqualSuffixesKeepOrder(xs: seq<Match>, n: nat)
    requires forall k :: 0 <= k < |xs| ==> xs[k].suffix == n
    ensures SortBySuffix(xs) == xs
  {
    assert SortedBySuffix(xs);
    SortBySuffixIsStableSort(xs, xs);
  }
}
