/** `Array.prototype.sort` with a consistent comparator, modelled as a stable
    insertion sort over a total preorder `le` (`le(a, b)` when the comparator
    does not put `b` strictly before `a`). The ECMAScript standard requires
    `sort` to be stable since its 2019 edition. */
module Sorting {
  import opened Common

  ghost predicate TotalPreorder<T(!new)>(le: (T, T) -> bool)
  {
    && (forall a, b :: le(a, b) || le(b, a))
    && (forall a, b, c :: le(a, b) && le(b, c) ==> le(a, c))
  }

  predicate SortedBy<T>(s: seq<T>, le: (T, T) -> bool)
  {
    forall i, j :: 0 <= i < j < |s| ==> le(s[i], s[j])
  }

  /** Places `x` directly after the last element of `t` that is not greater
      than it, so that equal elements keep their input order. */
  function Insert<T>(t: seq<T>, x: T, le: (T, T) -> bool): (r: seq<T>)
    ensures |r| == |t| + 1
  {
    if |t| == 0 then [x]
    else if le(t[|t| - 1], x) then t + [x]
    else Insert(t[..|t| - 1], x, le) + [t[|t| - 1]]
  }

  function SortBy<T>(s: seq<T>, le: (T, T) -> bool): (r: seq<T>)
    ensures |r| == |s|
  {
    if |s| == 0 then [] else Insert(SortBy(s[..|s| - 1], le), s[|s| - 1], le)
  }

  lemma {:induction false} InsertPermutes<T>(t: seq<T>, x: T, le: (T, T) -> bool)
    ensures multiset(Insert(t, x, le)) == multiset(t) + multiset{x}
  {
    if |t| > 0 && !le(t[|t| - 1], x) {
      InsertPermutes(t[..|t| - 1], x, le);
      assert t == t[..|t| - 1] + [t[|t| - 1]];
    }
  }

  lemma {:induction false} InsertSorted<T(!new)>(t: seq<T>, x: T, le: (T, T) -> bool)
    requires TotalPreorder(le)
    requires SortedBy(t, le)
    ensures SortedBy(Insert(t, x, le), le)
  {
    if |t| == 0 {
    } else if le(t[|t| - 1], x) {
      var r := t + [x];
      forall i, j | 0 <= i < j < |r|
        ensures le(r[i], r[j])
      {
        if j == |r| - 1 && i < |t| - 1 {
          assert le(t[i], t[|t| - 1]);
        }
      }
    } else {
      var init := t[..|t| - 1];
      var last := t[|t| - 1];
      InsertSorted(init, x, le);
      InsertPermutes(init, x, le);
      var r' := Insert(init, x, le);
      var r := r' + [last];
      forall i, j | 0 <= i < j < |r|
        ensures le(r[i], r[j])
      {
        if j == |r| - 1 {
          assert r[i] in multiset(r');
          if r[i] == x {
            assert le(x, last);
          } else {
            assert r[i] in multiset(init);
            var k :| 0 <= k < |init| && init[k] == r[i];
            assert le(t[k], t[|t| - 1]);
          }
        }
      }
    }
  }

  /** Sorting only rearranges: the result holds the input's elements with
      their multiplicities, whatever the comparator. */
  lemma {:induction false} SortByPermutes<T>(s: seq<T>, le: (T, T) -> bool)
    ensures multiset(SortBy(s, le)) == multiset(s)
  {
    if |s| > 0 {
      SortByPermutes(s[..|s| - 1], le);
      InsertPermutes(SortBy(s[..|s| - 1], le), s[|s| - 1], le);
      assert s == s[..|s| - 1] + [s[|s| - 1]];
    }
  }

  /** The elements `le` ties with `x`: neither is put before the other. */
  function Ties<T>(le: (T, T) -> bool, x: T): T -> bool
  {
    (y: T) => le(x, y) && le(y, x)
  }

  /** The result is ordered by `le`, holds exactly the input elements with
      their multiplicities, and elements tied with one another keep their
      input order. */
  lemma {:induction false} SortBySpec<T(!new)>(s: seq<T>, le: (T, T) -> bool)
    requires TotalPreorder(le)
    ensures SortedBy(SortBy(s, le), le)
    ensures multiset(SortBy(s, le)) == multiset(s)
    ensures forall x :: Filter(SortBy(s, le), Ties(le, x)) == Filter(s, Ties(le, x))
  {
    SortByPermutes(s, le);
    if |s| > 0 {
      SortBySpec(s[..|s| - 1], le);
      InsertSorted(SortBy(s[..|s| - 1], le), s[|s| - 1], le);
    }
    forall x
      ensures Filter(SortBy(s, le), Ties(le, x)) == Filter(s, Ties(le, x))
    {
      SortByStable(s, le, Ties(le, x));
    }
  }

  /** Inserting `x` puts it after every element of `t` that belongs with it
      to a class `p` whose members are all mutually ordered by `le`. */
  lemma {:induction false} InsertStable<T>(t: seq<T>, x: T, le: (T, T) -> bool, p: T -> bool)
    requires forall a, b :: p(a) && p(b) ==> le(a, b)
    ensures Filter(Insert(t, x, le), p) == Filter(t + [x], p)
  {
    if |t| > 0 && !le(t[|t| - 1], x) {
      var init := t[..|t| - 1];
      var last := t[|t| - 1];
      InsertStable(init, x, le, p);
      FilterAppend(Insert(init, x, le), [last], p);
      FilterAppend(init, [x], p);
      FilterAppend(init, [last], p);
      assert t == init + [last];
      FilterAppend(t, [x], p);
      assert !(p(x) && p(last));
    }
  }

  /** Stability: the members of a class `p` whose members are all mutually
      ordered by `le` appear in the result in their input order. */
  lemma {:induction false} SortByStable<T>(s: seq<T>, le: (T, T) -> bool, p: T -> bool)
    requires forall a, b :: p(a) && p(b) ==> le(a, b)
    ensures Filter(SortBy(s, le), p) == Filter(s, p)
  {
    if |s| > 0 {
      var init := s[..|s| - 1];
      SortByStable(init, le, p);
      InsertStable(SortBy(init, le), s[|s| - 1], le, p);
      FilterAppend(SortBy(init, le), [s[|s| - 1]], p);
      FilterAppend(init, [s[|s| - 1]], p);
      assert s == init + [s[|s| - 1]];
    }
  }

  /** `Insert` consults `le` only between `x` and the elements of `t`. */
  lemma {:induction false} InsertAgree<T>(t: seq<T>, x: T, le: (T, T) -> bool, le': (T, T) -> bool)
    requires forall i :: 0 <= i < |t| ==> le(t[i], x) == le'(t[i], x)
    ensures Insert(t, x, le) == Insert(t, x, le')
  {
    if |t| > 0 {
      InsertAgree(t[..|t| - 1], x, le, le');
    }
  }

  /** Two comparators that agree on the elements of `s` sort it alike. */
  lemma {:induction false} SortByAgree<T>(s: seq<T>, le: (T, T) -> bool, le': (T, T) -> bool)
    requires forall a, b :: a in s && b in s ==> le(a, b) == le'(a, b)
    ensures SortBy(s, le) == SortBy(s, le')
  {
    if |s| > 0 {
      var init := s[..|s| - 1];
      var x := s[|s| - 1];
      SortByAgree(init, le, le');
      var t := SortBy(init, le);
      SortByPermutes(init, le);
      forall i | 0 <= i < |t|
        ensures le(t[i], x) == le'(t[i], x)
      {
        assert t[i] in multiset(init);
      }
      InsertAgree(t, x, le, le');
    }
  }
}
