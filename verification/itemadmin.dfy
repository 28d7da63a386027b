/** The admin item list of one category: the fetched items are shown in
    ascending `index` order, the move buttons are disabled at the ends of the
    numbering, and the add form is checked before anything is uploaded or
    posted. */
module ItemAdmin {
  import opened Common
  import opened Entities
  import opened Sorting
  import opened JsText
  import DocStore

  type ItemDoc = DocStore.Doc<Item>

  /** `a.index - b.index` as a "not after" relation. An item without an
      index gives NaN, which `sort` reads as 0, so it ties with every
      item. */
  function IndexLe(): (le: (ItemDoc, ItemDoc) -> bool)
  {
    (a: ItemDoc, b: ItemDoc) =>
      a.data.index.None? || b.data.index.None? || a.data.index.value <= b.data.index.value
  }

  /** The same order with a missing index read as 0. */
  function IndexKeyLe(): (le: (ItemDoc, ItemDoc) -> bool)
  {
    (a: ItemDoc, b: ItemDoc) => a.data.index.GetOr(0) <= b.data.index.GetOr(0)
  }

  /** One item without an index makes the comparator inconsistent: index 2
      is "not after" it, it is "not after" index 1, and yet index 2 comes
      after index 1. */
  lemma MissingIndexInconsistent(a: ItemDoc, b: ItemDoc, c: ItemDoc)
    requires a.data.index == Some(2) && b.data.index.None? && c.data.index == Some(1)
    ensures IndexLe()(a, b) && IndexLe()(b, c) && !IndexLe()(a, c)
    ensures !TotalPreorder(IndexLe())
  {
  }

  /** When every item carries an index, the comparator sorts like a total
      preorder on indexes. */
  lemma IndexLeTotalPreorder(items: seq<ItemDoc>)
    requires forall i :: 0 <= i < |items| ==> items[i].data.index.Some?
    ensures TotalPreorder(IndexKeyLe())
    ensures SortBy(items, IndexLe()) == SortBy(items, IndexKeyLe())
  {
    SortByAgree(items, IndexLe(), IndexKeyLe());
  }

  /** The fetched list as displayed. */
  function SortByIndex(items: seq<ItemDoc>): (r: seq<ItemDoc>)
  {
    SortBy(items, IndexLe())
  }

  /** The displayed list holds exactly the fetched items; when every item
      carries an index, it is in ascending index order and items of equal
      index keep their fetched order. */
  lemma SortByIndexSpec(items: seq<ItemDoc>)
    ensures multiset(SortByIndex(items)) == multiset(items)
    ensures (forall i :: 0 <= i < |items| ==> items[i].data.index.Some?) ==>
              && (forall i :: 0 <= i < |SortByIndex(items)| ==> SortByIndex(items)[i].data.index.Some?)
              && (forall i, j :: 0 <= i < j < |SortByIndex(items)| ==>
                    SortByIndex(items)[i].data.index.value <= SortByIndex(items)[j].data.index.value)
    ensures (forall i :: 0 <= i < |items| ==> items[i].data.index.Some?) ==>
              forall x: ItemDoc :: x.data.index.Some? ==>
                Filter(SortByIndex(items), Ties(IndexLe(), x)) == Filter(items, Ties(IndexLe(), x))
  {
    SortByPermutes(items, IndexLe());
    var r := SortByIndex(items);
    if forall i :: 0 <= i < |items| ==> items[i].data.index.Some? {
      IndexLeTotalPreorder(items);
      SortBySpec(items, IndexKeyLe());
      forall i | 0 <= i < |r|
        ensures r[i].data.index.Some?
      {
        assert r[i] in multiset(items);
      }
      forall x: ItemDoc | x.data.index.Some?
        ensures Filter(r, Ties(IndexLe(), x)) == Filter(items, Ties(IndexLe(), x))
      {
        SameIndexOrdered(x);
        SortByStable(items, IndexLe(), Ties(IndexLe(), x));
      }
    }
  }

  /** Items tied with an indexed `x` are mutually "not after". */
  lemma SameIndexOrdered(x: ItemDoc)
    requires x.data.index.Some?
    ensures forall a, b :: Ties(IndexLe(), x)(a) && Ties(IndexLe(), x)(b) ==> IndexLe()(a, b)
  {
  }

  /** The up arrow of a row is disabled when its item is numbered 1. */
  predicate UpDisabled(it: ItemDoc)
  {
    it.data.index == Some(1)
  }

  /** The down arrow of a row is disabled when its item's number equals the
      length of the list. */
  predicate DownDisabled(it: ItemDoc, shown: seq<ItemDoc>)
  {
    it.data.index == Some(|shown|)
  }

  /** The number a row shows, 0 standing for a missing index. */
  function Num(it: ItemDoc): int
  {
    it.data.index.GetOr(0)
  }

  /** An item without an index never has either arrow disabled. */
  lemma NoIndexArrowsEnabled(it: ItemDoc, shown: seq<ItemDoc>)
    requires it.data.index.None?
    ensures !UpDisabled(it) && !DownDisabled(it, shown)
  {
  }

  /** When the displayed numbers are strictly increasing and lie in
      `1..|shown|`, they are exactly `1, 2, ..., |shown|`; then only the
      first row has its up arrow disabled and only the last row its down
      arrow. */
  lemma {:induction false} DenseButtons(shown: seq<ItemDoc>)
    requires forall i, j :: 0 <= i < j < |shown| ==> Num(shown[i]) < Num(shown[j])
    requires forall i :: 0 <= i < |shown| ==> 1 <= Num(shown[i]) <= |shown|
    ensures forall i :: 0 <= i < |shown| ==> shown[i].data.index == Some(i + 1)
    ensures forall i :: 0 <= i < |shown| ==> (UpDisabled(shown[i]) <==> i == 0)
    ensures forall i :: 0 <= i < |shown| ==> (DownDisabled(shown[i], shown) <==> i == |shown| - 1)
  {
    forall i | 0 <= i < |shown|
      ensures shown[i].data.index == Some(i + 1)
    {
      IndexAtLeast(shown, i);
      IndexAtMost(shown, i);
    }
  }

  lemma {:induction false} IndexAtLeast(shown: seq<ItemDoc>, i: nat)
    requires forall i, j :: 0 <= i < j < |shown| ==> Num(shown[i]) < Num(shown[j])
    requires forall i :: 0 <= i < |shown| ==> 1 <= Num(shown[i])
    requires i < |shown|
    ensures Num(shown[i]) >= i + 1
  {
    if i > 0 {
      IndexAtLeast(shown, i - 1);
    }
  }

  lemma {:induction false} IndexAtMost(shown: seq<ItemDoc>, i: nat)
    requires forall i, j :: 0 <= i < j < |shown| ==> Num(shown[i]) < Num(shown[j])
    requires forall i :: 0 <= i < |shown| ==> Num(shown[i]) <= |shown|
    requires i < |shown|
    ensures Num(shown[i]) <= i + 1
    decreases |shown| - i
  {
    if i < |shown| - 1 {
      IndexAtMost(shown, i + 1);
    }
  }

  // ---------------------------------------------------------------------
  // the add form

  /** The add form: everything of an item except its id and picture. */
  datatype NewItem = NewItem(index: int, name: string, category: string, unit: string, amount: Option<int>)

  /** The alerts `addItem` can raise before sending anything. */
  datatype Alert = NameMissing | UnitMissing | AmountMissing

  /** A field is blank when nothing is left of it after `trim()`. */
  predicate Blank(s: string)
  {
    forall i :: 0 <= i < |s| ==> IsJsWhiteSpace(s[i])
  }

  /** The input checks of `addItem`, in their order: the first failing one
      raises its alert. */
  function CheckNewItem(f: NewItem): (r: Option<Alert>)
    ensures r == Some(NameMissing) <==> Blank(f.name)
    ensures r == Some(UnitMissing) <==> !Blank(f.name) && Blank(f.unit)
    ensures r == Some(AmountMissing) <==> !Blank(f.name) && !Blank(f.unit) && f.amount.None?
    ensures r.None? <==> !Blank(f.name) && !Blank(f.unit) && f.amount.Some?
  {
    TrimEmptyIffBlank(f.name);
    TrimEmptyIffBlank(f.unit);
    if Trim(f.name) == "" then Some(NameMissing)
    else if Trim(f.unit) == "" then Some(UnitMissing)
    else if f.amount.None? then Some(AmountMissing)
    else None
  }

  /** The picture path sent with a new item. `upload` is `None` when no
      file is selected; otherwise it holds what the upload call returned,
      `None` standing for its `null` on failure. */
  function ImgUrl(upload: Option<Option<string>>): (url: string)
    ensures upload.None? ==> url == ""
    ensures upload.Some? && upload.value.Some? ==> url == upload.value.value
    ensures upload == Some(None) ==> url == ""
  {
    match upload
    case None => ""
    case Some(res) => res.GetOr("")
  }

  /** What the submit posts, if anything: the form's fields with the
      picture path, or the alert that stopped it. The upload only happens
      after every check has passed. */
  function AddItemRequest(f: NewItem, upload: Option<Option<string>>): (r: Result<Item, Alert>)
    ensures r.Err? <==> CheckNewItem(f).Some?
    ensures r.Err? ==> Some(r.error) == CheckNewItem(f)
    ensures r.Ok? ==>
              && r.value.name == f.name && r.value.unit == f.unit && r.value.category == f.category
              && r.value.index == Some(f.index) && r.value.amount == f.amount
              && r.value.imgUrl == ImgUrl(upload)
  {
    match CheckNewItem(f)
    case Some(a) => Err(a)
    case None => Ok(Item(Some(f.index), f.name, ImgUrl(upload), f.category, f.unit, f.amount))
  }

  /** The form after a successful add: blank fields, amount 1, and the
      index one past the length of the list the handler started from. */
  function ResetForm(category: string, before: seq<ItemDoc>): (f: NewItem)
    ensures f.index == |before| + 1 && f.category == category
    ensures CheckNewItem(f) == Some(NameMissing) && f.amount == Some(1)
  {
    NewItem(|before| + 1, "", category, "", Some(1))
  }
}
