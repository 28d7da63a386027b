/** Failure-compatible wrappers and small sequence utilities shared by every
    module of the ordering-system model. */
module Common {

  /** A value that may be absent: JavaScript `null` / `undefined`. */
  datatype Option<+T> = None | Some(value: T) {
    function GetOr(default: T): T {
      match this
      case Some(v) => v
      case None => default
    }
  }

  /** The outcome of an operation that may throw. */
  datatype Result<+T, +E> = Ok(value: T) | Err(error: E)

  /** Sum of `f` over the elements of `s`, left to right. */
  function Sum<T>(s: seq<T>, f: T -> int): int
  {
    if |s| == 0 then 0 else Sum(s[..|s| - 1], f) + f(s[|s| - 1])
  }

  lemma {:induction false} SumAppend<T>(a: seq<T>, b: seq<T>, f: T -> int)
    ensures Sum(a + b, f) == Sum(a, f) + Sum(b, f)
    decreases |b|
  {
    if |b| == 0 {
      assert a + b == a;
    } else {
      assert (a + b)[..|a + b| - 1] == a + b[..|b| - 1];
      SumAppend(a, b[..|b| - 1], f);
    }
  }

  /** `Array.prototype.filter`: the elements satisfying `p`, in order. */
  function Filter<T(==)>(s: seq<T>, p: T -> bool): (r: seq<T>)
    ensures |r| <= |s|
    ensures forall i :: 0 <= i < |r| ==> r[i] in s && p(r[i])
    ensures forall i :: 0 <= i < |s| && p(s[i]) ==> s[i] in r
  {
    if |s| == 0 then []
    else if p(s[|s| - 1]) then Filter(s[..|s| - 1], p) + [s[|s| - 1]]
    else Filter(s[..|s| - 1], p)
  }

  lemma {:induction false} FilterAppend<T>(a: seq<T>, b: seq<T>, p: T -> bool)
    ensures Filter(a + b, p) == Filter(a, p) + Filter(b, p)
    decreases |b|
  {
    if |b| == 0 {
      assert a + b == a;
    } else {
      assert (a + b)[..|a + b| - 1] == a + b[..|b| - 1];
      FilterAppend(a, b[..|b| - 1], p);
    }
  }

  /** `Array.prototype.map`. */
  function Map<T, U>(s: seq<T>, f: T -> U): (r: seq<U>)
    ensures |r| == |s|
    ensures forall i :: 0 <= i < |s| ==> r[i] == f(s[i])
  {
    if |s| == 0 then [] else Map(s[..|s| - 1], f) + [f(s[|s| - 1])]
  }

  /** No element occurs twice. */
  predicate Distinct<T(==)>(s: seq<T>)
  {
    forall i, j :: 0 <= i < j < |s| ==> s[i] != s[j]
  }

  /** Position of the first occurrence of `x` in `s`, or `|s|` when absent. */
  function FirstIndex<T(==)>(s: seq<T>, x: T): (k: nat)
    ensures k <= |s|
    ensures k < |s| <==> x in s
    ensures k < |s| ==> s[k] == x
    ensures forall i :: 0 <= i < k ==> s[i] != x
  {
    if |s| == 0 then 0
    else if s[0] == x then 0
    else 1 + FirstIndex(s[1..], x)
  }

  /** `Array.from(new Set(s))`: one copy of each element, in order of first
      occurrence (a JavaScript `Set` iterates in insertion order). */
  function Dedup<T(==)>(s: seq<T>): (r: seq<T>)
  {
    if |s| == 0 then []
    else if s[|s| - 1] in s[..|s| - 1] then Dedup(s[..|s| - 1])
    else Dedup(s[..|s| - 1]) + [s[|s| - 1]]
  }

  /** Every element of `a` occurs in `b`. */
  predicate AllIn<T(==)>(a: seq<T>, b: seq<T>)
  {
    forall i :: 0 <= i < |a| ==> a[i] in b
  }

  /** The elements of `r` are in the order of their first occurrence in `s`. */
  predicate FirstOccurrenceOrder<T(==)>(s: seq<T>, r: seq<T>)
  {
    forall i, j :: 0 <= i < j < |r| ==> FirstIndex(s, r[i]) < FirstIndex(s, r[j])
  }

  /** Each distinct element of the input is listed exactly once, nothing else
      is listed, and elements appear in the order of their first occurrence. */
  lemma {:induction false} DedupSpec<T>(s: seq<T>)
    ensures Distinct(Dedup(s))
    ensures AllIn(Dedup(s), s)
    ensures AllIn(s, Dedup(s))
    ensures FirstOccurrenceOrder(s, Dedup(s))
  {
    if |s| > 0 {
      var p := s[..|s| - 1];
      var x := s[|s| - 1];
      DedupSpec(p);
      assert s == p + [x];
      DedupSnoc(p, x);
      if x in p {
        DedupOld(p, x);
      } else {
        DedupNew(p, x);
      }
    }
  }

  /** An element seen before changes nothing. */
  lemma DedupOld<T>(p: seq<T>, x: T)
    requires x in p
    requires Distinct(Dedup(p)) && AllIn(Dedup(p), p) && AllIn(p, Dedup(p)) && FirstOccurrenceOrder(p, Dedup(p))
    ensures AllIn(Dedup(p), p + [x]) && AllIn(p + [x], Dedup(p)) && FirstOccurrenceOrder(p + [x], Dedup(p))
  {
    var s, r := p + [x], Dedup(p);
    forall i | 0 <= i < |r|
      ensures FirstIndex(s, r[i]) == FirstIndex(p, r[i])
    {
      FirstIndexPrefix(p, x, r[i]);
    }
    forall i | 0 <= i < |s|
      ensures s[i] in r
    {
      if i < |p| {
        assert s[i] == p[i];
      } else {
        var k :| 0 <= k < |p| && p[k] == x;
        assert p[k] in r;
      }
    }
  }

  /** A new element is appended, after everything seen before. */
  lemma DedupNew<T>(p: seq<T>, x: T)
    requires x !in p
    requires Distinct(Dedup(p)) && AllIn(Dedup(p), p) && AllIn(p, Dedup(p)) && FirstOccurrenceOrder(p, Dedup(p))
    ensures var r := Dedup(p) + [x];
            Distinct(r) && AllIn(r, p + [x]) && AllIn(p + [x], r) && FirstOccurrenceOrder(p + [x], r)
  {
    var s, u, r := p + [x], Dedup(p), Dedup(p) + [x];
    FirstIndexPrefix(p, x, x);
    forall i | 0 <= i < |u|
      ensures FirstIndex(s, u[i]) == FirstIndex(p, u[i]) < |p|
    {
      FirstIndexPrefix(p, x, u[i]);
    }
    forall i, j | 0 <= i < j < |r|
      ensures r[i] != r[j] && FirstIndex(s, r[i]) < FirstIndex(s, r[j])
    {
      assert r[i] == u[i];
      if j < |u| {
        assert r[j] == u[j];
      }
    }
    forall i | 0 <= i < |s|
      ensures s[i] in r
    {
      if i < |p| {
        assert s[i] == p[i];
      }
    }
  }

  /** Membership and distinctness of `Dedup`, one element at a time. */
  lemma DedupContains<T>(s: seq<T>, x: T)
    ensures x in Dedup(s) <==> x in s
    ensures Distinct(Dedup(s))
  {
    DedupSpec(s);
    if x in s {
      var i :| 0 <= i < |s| && s[i] == x;
    }
  }

  /** `Dedup` of a sequence extended by one element. */
  lemma DedupSnoc<T>(s: seq<T>, x: T)
    ensures Dedup(s + [x]) == if x in s then Dedup(s) else Dedup(s) + [x]
  {
    assert (s + [x])[..|s|] == s;
  }

  lemma FirstIndexPrefix<T>(p: seq<T>, x: T, y: T)
    requires y in p || y == x
    ensures y in p ==> FirstIndex(p + [x], y) == FirstIndex(p, y)
    ensures y !in p ==> FirstIndex(p + [x], y) == |p|
  {
    var k := FirstIndex(p + [x], y);
    if y in p {
      var k' := FirstIndex(p, y);
      assert (p + [x])[k'] == y;
    } else {
      assert (p + [x])[|p|] == y;
    }
  }
}
