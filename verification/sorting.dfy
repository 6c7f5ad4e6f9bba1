/**
 * `Array.prototype.sort` with a comparator, as a stable insertion sort over a
 * "may precede" relation `le` (the comparator returning a value <= 0).
 */
module Sorting {
  import opened Seqs

  ghost predicate Total<T(!new)>(le: (T, T) -> bool)
  {
    forall a, b :: le(a, b) || le(b, a)
  }

  ghost predicate Transitive<T(!new)>(le: (T, T) -> bool)
  {
    forall a, b, c :: le(a, b) && le(b, c) ==> le(a, c)
  }

  ghost predicate TotalPreorder<T(!new)>(le: (T, T) -> bool)
  {
    Total(le) && Transitive(le)
  }

  predicate SortedBy<T>(s: seq<T>, le: (T, T) -> bool)
  {
    forall i, j :: 0 <= i < j < |s| ==> le(s[i], s[j])
  }

  /** Places `x` after every element that may precede it (so equal elements keep their order). */
  function Insert<T(==)>(x: T, s: seq<T>, le: (T, T) -> bool): (r: seq<T>)
    ensures multiset(r) == multiset(s) + multiset{x}
    ensures |r| == |s| + 1
  {
    if s == [] then [x]
    else if le(s[0], x) then
      assert s == [s[0]] + s[1..];
      [s[0]] + Insert(x, s[1..], le)
    else [x] + s
  }

  lemma {:induction false} InsertSorted<T(!new)>(x: T, s: seq<T>, le: (T, T) -> bool)
    requires TotalPreorder(le)
    requires SortedBy(s, le)
    ensures SortedBy(Insert(x, s, le), le)
    decreases |s|
  {
    if s == [] {
    } else if le(s[0], x) {
      var t := Insert(x, s[1..], le);
      InsertSorted(x, s[1..], le);
      forall y | y in t
        ensures le(s[0], y)
      {
        assert y in multiset(t);
        if y != x {
          assert y in multiset(s[1..]);
          var k :| 0 <= k < |s[1..]| && s[1..][k] == y;
          assert s[k + 1] == y;
        }
      }
      ConsSorted(s[0], t, le);
    } else {
      assert le(x, s[0]);
      forall y | y in s
        ensures le(x, y)
      {
        var k :| 0 <= k < |s| && s[k] == y;
        if k > 0 {
          assert le(s[0], s[k]);
        }
      }
      ConsSorted(x, s, le);
    }
  }

  /** An element that may precede every element of a sorted sequence can head it. */
  lemma ConsSorted<T>(h: T, t: seq<T>, le: (T, T) -> bool)
    requires SortedBy(t, le)
    requires forall y :: y in t ==> le(h, y)
    ensures SortedBy([h] + t, le)
  {
    var r := [h] + t;
    forall i, j | 0 <= i < j < |r|
      ensures le(r[i], r[j])
    {
      assert r[j] == t[j - 1] && t[j - 1] in t;
      if i > 0 {
        assert r[i] == t[i - 1];
      }
    }
  }

  /** `sort` with a comparator: a permutation of `s` ordered by `le`. */
  function SortBy<T(==,!new)>(s: seq<T>, le: (T, T) -> bool): (r: seq<T>)
    requires TotalPreorder(le)
    ensures multiset(r) == multiset(s)
    ensures |r| == |s|
    ensures SortedBy(r, le)
    decreases |s|
  {
    if s == [] then []
    else
      var init := s[..|s| - 1];
      assert s == init + [s[|s| - 1]];
      var sorted := SortBy(init, le);
      InsertSorted(s[|s| - 1], sorted, le);
      Insert(s[|s| - 1], sorted, le)
  }

  /** The elements that tie with `z`: each may precede the other. */
  function TieWith<T>(z: T, le: (T, T) -> bool): T -> bool
  {
    y => le(z, y) && le(y, z)
  }

  /** Inserting `x` puts it after every element it ties with, so the ties keep their order. */
  lemma {:induction false} InsertStable<T(!new)>(x: T, s: seq<T>, le: (T, T) -> bool, z: T)
    requires TotalPreorder(le) && SortedBy(s, le)
    ensures Filter(Insert(x, s, le), TieWith(z, le)) == Filter(s, TieWith(z, le)) + Filter([x], TieWith(z, le))
    decreases |s|
  {
    if s == [] {
    } else if le(s[0], x) {
      InsertStable(x, s[1..], le, z);
      InsertStableStep(x, s, le, TieWith(z, le));
    } else {
      InsertFrontStable(x, s, le, z);
    }
  }

  /** When `x` goes in front, nothing it ties with follows it. */
  lemma InsertFrontStable<T(!new)>(x: T, s: seq<T>, le: (T, T) -> bool, z: T)
    requires TotalPreorder(le) && SortedBy(s, le) && s != [] && !le(s[0], x)
    ensures Filter(Insert(x, s, le), TieWith(z, le)) == Filter(s, TieWith(z, le)) + Filter([x], TieWith(z, le))
  {
    assert Insert(x, s, le) == [x] + s;
    FilterAppend([x], s, TieWith(z, le));
    NoTiesAfter(x, s, le, z);
  }

  /** When `x` goes past the head, the head stays in front of what the tail's insertion gives. */
  lemma InsertStableStep<T(!new)>(x: T, s: seq<T>, le: (T, T) -> bool, tie: T -> bool)
    requires s != [] && le(s[0], x)
    requires Filter(Insert(x, s[1..], le), tie) == Filter(s[1..], tie) + Filter([x], tie)
    ensures Filter(Insert(x, s, le), tie) == Filter(s, tie) + Filter([x], tie)
  {
    InsertPast(x, s, le);
    FilterCons(s[0], Insert(x, s[1..], le), s[1..], [x], tie);
    HeadTail(s);
  }

  /** Past an element ordered before `x`, insertion keeps that element in front. */
  lemma InsertPast<T>(x: T, s: seq<T>, le: (T, T) -> bool)
    requires s != [] && le(s[0], x)
    ensures Insert(x, s, le) == [s[0]] + Insert(x, s[1..], le)
  {
  }

  lemma HeadTail<T>(s: seq<T>)
    requires s != []
    ensures s == [s[0]] + s[1..]
  {
  }

  /** Putting the same head in front of both sides keeps a filtered split. */
  lemma FilterCons<T(!new)>(h: T, a: seq<T>, b: seq<T>, c: seq<T>, p: T -> bool)
    requires Filter(a, p) == Filter(b, p) + Filter(c, p)
    ensures Filter([h] + a, p) == Filter([h] + b, p) + Filter(c, p)
  {
    var fh, fb, fc := Filter([h], p), Filter(b, p), Filter(c, p);
    calc {
      Filter([h] + a, p);
      { FilterAppend([h], a, p); }
      fh + (fb + fc);
      (fh + fb) + fc;
      { FilterAppend([h], b, p); }
      Filter([h] + b, p) + fc;
    }
  }

  /** When `x` strictly precedes a sorted `s`, no element of `s` ties with anything `x` ties with. */
  lemma NoTiesAfter<T(!new)>(x: T, s: seq<T>, le: (T, T) -> bool, z: T)
    requires TotalPreorder(le) && SortedBy(s, le) && s != [] && !le(s[0], x)
    ensures Filter([x], TieWith(z, le)) + Filter(s, TieWith(z, le))
            == Filter(s, TieWith(z, le)) + Filter([x], TieWith(z, le))
  {
    var tie := TieWith(z, le);
    if tie(x) {
      forall y | y in s
        ensures !tie(y)
      {
        var k :| 0 <= k < |s| && s[k] == y;
        assert le(s[0], y) by {
          if k > 0 {
            assert le(s[0], s[k]);
          }
        }
        assert !le(y, x);
      }
      FilterNone(s, tie);
    } else {
      assert Filter([x], tie) == [];
    }
  }

  /** `sort` is stable: the elements tied with any `z` appear in the order they had. */
  lemma {:induction false} SortByStable<T(!new)>(s: seq<T>, le: (T, T) -> bool, z: T)
    requires TotalPreorder(le)
    ensures Filter(SortBy(s, le), TieWith(z, le)) == Filter(s, TieWith(z, le))
    decreases |s|
  {
    if s != [] {
      var init, last := s[..|s| - 1], s[|s| - 1];
      assert s == init + [last];
      SortByStable(init, le, z);
      InsertStable(last, SortBy(init, le), le, z);
      FilterAppend(init, [last], TieWith(z, le));
    }
  }

  /** Membership is unchanged by sorting. */
  lemma SortByMembers<T(!new)>(s: seq<T>, le: (T, T) -> bool)
    requires TotalPreorder(le)
    ensures forall x :: x in SortBy(s, le) <==> x in s
  {
    var r := SortBy(s, le);
    forall x
      ensures x in r <==> x in s
    {
      assert x in r <==> x in multiset(r);
      assert x in s <==> x in multiset(s);
    }
  }

  /** Filtering a sorted sequence leaves it sorted: `filter` keeps the relative order. */
  lemma {:induction false} FilterKeepsSorted<T(!new)>(s: seq<T>, p: T -> bool, le: (T, T) -> bool)
    requires SortedBy(s, le)
    ensures SortedBy(Filter(s, p), le)
    decreases |s|
  {
    if s != [] {
      var f := Filter(s[1..], p);
      FilterKeepsSorted(s[1..], p, le);
      if p(s[0]) {
        var r := [s[0]] + f;
        forall i, j | 0 <= i < j < |r|
          ensures le(r[i], r[j])
        {
          assert r[j] == f[j - 1] && f[j - 1] in s[1..];
          if i == 0 {
            var k :| 0 <= k < |s[1..]| && s[1..][k] == f[j - 1];
            assert s[k + 1] == r[j];
          } else {
            assert r[i] == f[i - 1];
          }
        }
      }
    }
  }

  /**
   * Code-point lexicographic order on strings, standing in for
   * `localeCompare(...) <= 0`.
   */
  predicate LexLeq(a: string, b: string)
    decreases |a|
  {
    a == [] || (b != [] && (a[0] < b[0] || (a[0] == b[0] && LexLeq(a[1..], b[1..]))))
  }

  lemma {:induction false} LexLeqTotal(a: string, b: string)
    ensures LexLeq(a, b) || LexLeq(b, a)
    decreases |a|
  {
    if a != [] && b != [] && a[0] == b[0] {
      LexLeqTotal(a[1..], b[1..]);
    }
  }

  lemma {:induction false} LexLeqTransitive(a: string, b: string, c: string)
    requires LexLeq(a, b) && LexLeq(b, c)
    ensures LexLeq(a, c)
    decreases |a|
  {
    if a != [] && b != [] && c != [] && a[0] == b[0] && b[0] == c[0] {
      LexLeqTransitive(a[1..], b[1..], c[1..]);
    }
  }

  lemma {:induction false} LexLeqAntisymmetric(a: string, b: string)
    requires LexLeq(a, b) && LexLeq(b, a)
    ensures a == b
    decreases |a|
  {
    if a != [] {
      LexLeqAntisymmetric(a[1..], b[1..]);
      assert a == [a[0]] + a[1..] && b == [b[0]] + b[1..];
    }
  }
}
