/** Fixed-size pages cut out of a list with `slice((page - 1) * 5,
    (page - 1) * 5 + 5)`, as the order service and the branch-order pager
    both do, and the page count `Math.ceil(n / 5)`. */
module Paging {
  import opened JsText

  const PageSize: nat := 5

  function Min(a: int, b: int): int
  {
    if a <= b then a else b
  }

  /** Page `p` of `s`, with `slice`'s treatment of out-of-range and negative
      bounds. */
  function Page<T>(s: seq<T>, p: int): (r: seq<T>)
  {
    var start := (p - 1) * PageSize;
    Slice(s, start, start + PageSize)
  }

  /** A page numbered from 1 is the window of at most five elements starting
      at `(p - 1) * 5`, cut short at the end of the list. */
  lemma PageWindow<T>(s: seq<T>, p: int)
    requires p >= 1
    ensures var lo := Min((p - 1) * PageSize, |s|);
            Page(s, p) == s[lo..Min(p * PageSize, |s|)]
    ensures |Page(s, p)| <= PageSize
    ensures (p - 1) * PageSize >= |s| <==> Page(s, p) == []
  {
    SliceNonNegative(s, (p - 1) * PageSize, (p - 1) * PageSize + PageSize);
  }

  /** Page 0 is always empty; page -1 holds, once the list has at least ten
      elements, the five elements that end five before the end, because
      `slice` counts negative bounds from the end. */
  lemma PageNonPositive<T>(s: seq<T>)
    ensures Page(s, 0) == []
    ensures |s| >= 10 ==> Page(s, -1) == s[|s| - 10..|s| - 5]
  {
  }

  /** `Math.ceil(n / 5)` for a length `n`. */
  function TotalPages(n: nat): (t: nat)
    ensures t * PageSize >= n
    ensures t == 0 || (t - 1) * PageSize < n
  {
    (n + PageSize - 1) / PageSize
  }

  /** Pages `1..k` laid end to end. */
  function Pages<T>(s: seq<T>, k: nat): seq<T>
  {
    if k == 0 then [] else Pages(s, k - 1) + Page(s, k)
  }

  lemma {:induction false} PagesPrefix<T>(s: seq<T>, k: nat)
    ensures Pages(s, k) == s[..Min(k * PageSize, |s|)]
  {
    if k > 0 {
      PagesPrefix(s, k - 1);
      PageWindow(s, k);
      assert s[..Min((k - 1) * PageSize, |s|)] + s[Min((k - 1) * PageSize, |s|)..Min(k * PageSize, |s|)]
          == s[..Min(k * PageSize, |s|)];
    }
  }

  /** Pages `1..ceil(n / 5)` together give back the whole list, and every
      one of them is non-empty. */
  lemma PagesCover<T>(s: seq<T>)
    ensures Pages(s, TotalPages(|s|)) == s
    ensures forall p :: 1 <= p <= TotalPages(|s|) ==> Page(s, p) != []
  {
    PagesPrefix(s, TotalPages(|s|));
    forall p | 1 <= p <= TotalPages(|s|)
      ensures Page(s, p) != []
    {
      PageWindow(s, p);
    }
  }

  /** A page is a contiguous run of the list: its `i`-th element is the
      list's element at the page's resolved start plus `i`. */
  lemma PageRun<T>(s: seq<T>, p: int)
    ensures var a := ResolveIndex((p - 1) * PageSize, |s|);
            forall i :: 0 <= i < |Page(s, p)| ==> a + i < |s| && Page(s, p)[i] == s[a + i]
  {
    var start := (p - 1) * PageSize;
    var a, b := ResolveIndex(start, |s|), ResolveIndex(start + PageSize, |s|);
    assert Page(s, p) == Slice(s, start, start + PageSize);
    assert |Page(s, p)| == if a <= b then b - a else 0;
  }

  /** A page draws its elements from the list. */
  lemma PageWithin<T>(s: seq<T>, p: int)
    ensures forall i :: 0 <= i < |Page(s, p)| ==> Page(s, p)[i] in s
  {
    PageRun(s, p);
  }

  /** A page of an ordered list is ordered. */
  lemma PageSorted<T>(s: seq<T>, p: int, le: (T, T) -> bool)
    requires forall i, j :: 0 <= i < j < |s| ==> le(s[i], s[j])
    ensures forall i, j :: 0 <= i < j < |Page(s, p)| ==> le(Page(s, p)[i], Page(s, p)[j])
  {
    PageRun(s, p);
  }

  /** A page of a list without repetitions has none. */
  lemma PageDistinct<T>(s: seq<T>, p: int)
    requires forall i, j :: 0 <= i < j < |s| ==> s[i] != s[j]
    ensures forall i, j :: 0 <= i < j < |Page(s, p)| ==> Page(s, p)[i] != Page(s, p)[j]
  {
    PageRun(s, p);
  }
}
