/** The category and item collections behind the admin catalog pages: a
    category name is registered at most once, items are looked up by the name
    of their category, and deleting a category first deletes its items one by
    one and then the category record, with no rollback when a write fails. */
module Catalog {
  import opened Common
  import opened Entities
  import opened DocStore

  type Categories = Store<Category>
  type Items = Store<Item>

  datatype CatalogError =
    | CategoryExists
    | CategoryNotFound
    | ItemDeleteFailed
    | CategoryDeleteFailed

  // ---------------------------------------------------------------------
  // items

  /** `getItemsByCategory`: exactly the items filed under `name`. */
  function GetItemsByCategory(items: Items, name: string): (r: seq<Doc<Item>>)
    requires Valid(items)
    ensures forall i :: 0 <= i < |r| ==>
              r[i].id in items.docs && r[i].data == items.docs[r[i].id] && r[i].data.category == name
    ensures forall k :: k in items.docs && items.docs[k].category == name ==> Doc(k, items.docs[k]) in r
    ensures forall i, j :: 0 <= i < j < |r| ==> r[i].id < r[j].id
  {
    FindBy(items, (it: Item) => it.category == name)
  }

  /** `addItem`: stores the record as given under a fresh id. */
  function AddItem(items: Items, it: Item): (r: (Items, Id))
    requires Valid(items)
    ensures Valid(r.0)
    ensures r.1 !in items.docs && r.0.docs == items.docs[r.1 := it]
  {
    Create(items, it)
  }

  /** `deleteItem`: removes that one record, if present. */
  function DeleteItem(items: Items, id: Id): (r: Items)
    ensures r.docs == items.docs - {id}
    ensures Valid(items) ==> Valid(r)
  {
    Delete(items, id)
  }

  /** `updateItem`: overlays the supplied fields on the stored record; a
      missing record is an error. */
  function UpdateItem(items: Items, id: Id, p: ItemPatch): (r: Result<Items, StoreError>)
    ensures r.Err? <==> id !in items.docs
    ensures r.Ok? ==> r.value.next == items.next && r.value.docs == items.docs[id := ApplyItemPatch(items.docs[id], p)]
  {
    Update(items, id, (it: Item) => ApplyItemPatch(it, p))
  }

  /** A freshly added item is listed under its category, and a deleted one
      is listed under none. */
  lemma AddDeleteListing(items: Items, it: Item, name: string)
    requires Valid(items)
    ensures var (items', id) := AddItem(items, it);
            Doc(id, it) in GetItemsByCategory(items', it.category)
    ensures var (items', id) := AddItem(items, it);
            forall d :: d in GetItemsByCategory(DeleteItem(items', id), name) ==> d.id != id
  {
    var (items', id) := AddItem(items, it);
    var rest := GetItemsByCategory(DeleteItem(items', id), name);
    forall d | d in rest
      ensures d.id != id
    {
      var i :| 0 <= i < |rest| && rest[i] == d;
    }
  }

  /** Updating with no fields leaves an existing item as it was, and only the
      named item is ever touched. */
  lemma UpdateItemLaws(items: Items, id: Id, p: ItemPatch)
    requires id in items.docs
    ensures UpdateItem(items, id, EmptyItemPatch) == Ok(items)
    ensures forall k :: k in items.docs && k != id ==> UpdateItem(items, id, p).value.docs[k] == items.docs[k]
  {
    ItemPatchLaws(items.docs[id], p);
    assert items.docs[id := items.docs[id]] == items.docs;
  }

  // ---------------------------------------------------------------------
  // categories

  /** `isCategoryExists`: some stored category has that name. */
  function IsCategoryExists(cs: Categories, name: string): (b: bool)
    requires Valid(cs)
    ensures b <==> exists k :: k in cs.docs && cs.docs[k].name == name
  {
    FindOneBy(cs, (c: Category) => c.name == name).Some?
  }

  /** No two stored categories share a name. */
  predicate UniqueNames(cs: Categories)
  {
    forall k1, k2 :: k1 in cs.docs && k2 in cs.docs && cs.docs[k1].name == cs.docs[k2].name ==> k1 == k2
  }

  /** `addCategory`: refuses a name already taken, otherwise stores one new
      category under a fresh id. */
  function AddCategory(cs: Categories, name: string): (r: Result<(Categories, Id), CatalogError>)
    requires Valid(cs)
    ensures r.Err? <==> exists k :: k in cs.docs && cs.docs[k].name == name
    ensures r.Err? ==> r.error == CategoryExists
    ensures r.Ok? ==> Valid(r.value.0) && r.value.1 !in cs.docs
    ensures r.Ok? ==> r.value.0.docs == cs.docs[r.value.1 := Category(name)]
  {
    if IsCategoryExists(cs, name) then Err(CategoryExists)
    else Ok(Create(cs, Category(name)))
  }

  /** Names stay pairwise distinct under `addCategory`, whatever the name. */
  lemma AddCategoryKeepsUnique(cs: Categories, name: string)
    requires Valid(cs) && UniqueNames(cs)
    ensures AddCategory(cs, name).Ok? ==> UniqueNames(AddCategory(cs, name).value.0)
  {
  }

  /** The ids of the first `n` listed items. */
  function DeletedIds(rel: seq<Doc<Item>>, n: nat): (ids: set<Id>)
    requires n <= |rel|
    ensures forall j :: 0 <= j < n ==> rel[j].id in ids
    ensures forall k :: k in ids ==> exists j :: 0 <= j < n && rel[j].id == k
  {
    set j | 0 <= j < n :: rel[j].id
  }

  lemma DeleteOneMore(m: map<Id, Item>, rel: seq<Doc<Item>>, n: nat)
    requires n < |rel|
    ensures m - DeletedIds(rel, n + 1) == (m - DeletedIds(rel, n)) - {rel[n].id}
  {
    assert DeletedIds(rel, n + 1) == DeletedIds(rel, n) + {rel[n].id};
  }

  /** Deleting every listed item of a category removes exactly the items
      filed under that category. */
  lemma DeletedAllRelated(items: Items, name: string)
    requires Valid(items)
    ensures var rel := GetItemsByCategory(items, name);
            forall k :: k in items.docs ==>
              (k in DeletedIds(rel, |rel|) <==> items.docs[k].category == name)
  {
    var rel := GetItemsByCategory(items, name);
    forall k | k in items.docs
      ensures k in DeletedIds(rel, |rel|) <==> items.docs[k].category == name
    {
      if items.docs[k].category == name {
        assert Doc(k, items.docs[k]) in rel;
        var j :| 0 <= j < |rel| && rel[j] == Doc(k, items.docs[k]);
        assert rel[j].id in DeletedIds(rel, |rel|);
      }
    }
  }

  /** `deleteCategoryById`. An unknown id is refused before anything is
      deleted. Otherwise the items filed under the category are deleted in
      listing order and then the category record. `failAt == Some(i)` makes
      the `i`-th of these writes throw (write `|rel|` being the category
      record): everything deleted before it stays deleted. */
  method DeleteCategoryById(cs: Categories, items: Items, id: Id, failAt: Option<nat>)
    returns (r: Result<(), CatalogError>, cs': Categories, items': Items)
    requires Valid(items)
    ensures id !in cs.docs ==> r == Err(CategoryNotFound) && cs' == cs && items' == items
    ensures id in cs.docs ==>
              var rel := GetItemsByCategory(items, cs.docs[id].name);
              && items'.next == items.next
              && (failAt.Some? && failAt.value < |rel| ==>
                    r == Err(ItemDeleteFailed) && cs' == cs
                    && items'.docs == items.docs - DeletedIds(rel, failAt.value))
              && (failAt == Some(|rel|) ==>
                    r == Err(CategoryDeleteFailed) && cs' == cs
                    && items'.docs == items.docs - DeletedIds(rel, |rel|))
              && (failAt.None? || failAt.value > |rel| ==> r == Ok(()) && cs' == Delete(cs, id))
    ensures id in cs.docs && r.Ok? ==>
              && cs'.docs.Keys == cs.docs.Keys - {id}
              && (forall k :: k in cs'.docs ==> cs'.docs[k] == cs.docs[k])
              && (forall k :: k in items'.docs <==> k in items.docs && items.docs[k].category != cs.docs[id].name)
              && (forall k :: k in items'.docs ==> items'.docs[k] == items.docs[k])
  {
    if id !in cs.docs {
      return Err(CategoryNotFound), cs, items;
    }
    var name := cs.docs[id].name;
    var rel := GetItemsByCategory(items, name);
    var done;
    done, items' := DeleteListed(items, rel, failAt);
    if done < |rel| {
      return Err(ItemDeleteFailed), cs, items';
    }
    if failAt == Some(|rel|) {
      return Err(CategoryDeleteFailed), cs, items';
    }
    DeletedAllRelated(items, name);
    cs' := Delete(cs, id);
    r := Ok(());
  }

  /** The item loop of the cascade: deletes the listed items in order and
      stops at write `failAt`, reporting how many deletes went through. */
  method DeleteListed(items: Items, rel: seq<Doc<Item>>, failAt: Option<nat>)
    returns (done: nat, items': Items)
    ensures done <= |rel|
    ensures done == if failAt.Some? && failAt.value < |rel| then failAt.value else |rel|
    ensures items'.next == items.next
    ensures items'.docs == items.docs - DeletedIds(rel, done)
  {
    items' := items;
    done := 0;
    while done < |rel|
      invariant 0 <= done <= |rel|
      invariant items'.next == items.next
      invariant items'.docs == items.docs - DeletedIds(rel, done)
      invariant failAt.Some? ==> failAt.value >= done
    {
      if failAt == Some(done) {
        return;
      }
      DeleteOneMore(items.docs, rel, done);
      items' := DeleteItem(items', rel[done].id);
      done := done + 1;
    }
  }

  /** A failure part-way through the cascade leaves the category in place
      with some of its items already gone and the others still stored. */
  lemma PartialCascade(items: Items, name: string, i: nat)
    requires Valid(items)
    requires 0 < i < |GetItemsByCategory(items, name)|
    ensures var rel := GetItemsByCategory(items, name);
            var left := items.docs - DeletedIds(rel, i);
            rel[0].id !in left && rel[i].id in left && left[rel[i].id].category == name
  {
  }
}
