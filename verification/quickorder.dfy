/** The branch quick-order page: the +/- stepper of the item list, the
    visible items of the selected category, the cart (`allCartItems`) that
    `updateItemQuantity` keeps in step with them, the effect that re-derives
    the visible quantities from the cart, the displayed total and the order
    payload. */
module QuickOrder {
  import opened Common
  import opened Entities
  import DocStore

  /** A catalogue item as the page lists it, with the quantity chosen. The
      cart holds values of the same shape. */
  datatype ListItem = ListItem(id: DocStore.Id, name: string, category: string, unit: string,
                               imgUrl: string, amount: Option<int>, quantity: int)

  // ---------------------------------------------------------------------
  // the stepper

  /** `item.amount ?? 1`. */
  function Step(amount: Option<int>): int
  {
    amount.GetOr(1)
  }

  /** The `-` button: `Math.max(0, q - step)`. */
  function Decrement(q: int, amount: Option<int>): (r: int)
    ensures r >= 0
    ensures r == 0 || r == q - Step(amount)
    ensures r >= q - Step(amount)
  {
    if q - Step(amount) > 0 then q - Step(amount) else 0
  }

  /** The `+` button. */
  function Increment(q: int, amount: Option<int>): (r: int)
    ensures q >= 0 && Step(amount) >= 0 ==> Decrement(r, amount) == q
  {
    q + Step(amount)
  }

  /** For a non-negative quantity and a non-negative step, `+` then `-`
      restores the quantity, and `-` at zero stays at zero. */
  lemma StepperLaws(q: int, amount: Option<int>)
    requires Step(amount) >= 0
    ensures q >= 0 ==> Decrement(Increment(q, amount), amount) == q
    ensures Decrement(0, amount) == 0
    ensures Decrement(Decrement(0, amount), amount) == Decrement(0, amount)
  {
  }

  // ---------------------------------------------------------------------
  // id lookup and upsert

  predicate DistinctIds(s: seq<ListItem>)
  {
    forall i, j :: 0 <= i < j < |s| ==> s[i].id != s[j].id
  }

  /** `find(x => x.id === id)`: the first entry with that id. */
  function Lookup(s: seq<ListItem>, id: DocStore.Id): (r: Option<ListItem>)
    ensures r.Some? ==> r.value in s && r.value.id == id
    ensures r.None? <==> forall i :: 0 <= i < |s| ==> s[i].id != id
  {
    if |s| == 0 then None else if s[0].id == id then Some(s[0]) else Lookup(s[1..], id)
  }

  /** `existingCartItem ? existingCartItem.quantity : 0`. */
  function CartQuantity(cart: seq<ListItem>, id: DocStore.Id): int
  {
    match Lookup(cart, id)
    case Some(e) => e.quantity
    case None => 0
  }

  /** One step of the upsert loop: overwrite the quantity of the first entry
      with the same id, or append the item. */
  function Upsert(cart: seq<ListItem>, it: ListItem): (r: seq<ListItem>)
    ensures |r| == |cart| || r == cart + [it]
  {
    if |cart| == 0 then [it]
    else if cart[0].id == it.id then [cart[0].(quantity := it.quantity)] + cart[1..]
    else [cart[0]] + Upsert(cart[1..], it)
  }

  /** The `forEach` over the items, in order. */
  function UpsertAll(cart: seq<ListItem>, xs: seq<ListItem>): seq<ListItem>
  {
    if |xs| == 0 then cart else Upsert(UpsertAll(cart, xs[..|xs| - 1]), xs[|xs| - 1])
  }

  /** An item already in the cart has its quantity replaced in place; a new
      one is appended at the end. */
  lemma {:induction false} UpsertSpec(cart: seq<ListItem>, it: ListItem)
    ensures Lookup(cart, it.id).None? ==> Upsert(cart, it) == cart + [it]
    ensures Lookup(cart, it.id).Some? ==> |Upsert(cart, it)| == |cart|
    ensures Lookup(cart, it.id).Some? ==>
              Lookup(Upsert(cart, it), it.id) == Some(Lookup(cart, it.id).value.(quantity := it.quantity))
    ensures forall d :: d != it.id ==> Lookup(Upsert(cart, it), d) == Lookup(cart, d)
  {
    if |cart| > 0 && cart[0].id != it.id {
      UpsertSpec(cart[1..], it);
      assert [cart[0]] + cart[1..] == cart;
      var r := Upsert(cart, it);
      assert r[1..] == Upsert(cart[1..], it);
    } else if |cart| > 0 {
      var r := Upsert(cart, it);
      assert r[1..] == cart[1..];
    }
  }

  lemma {:induction false} UpsertDistinct(cart: seq<ListItem>, it: ListItem)
    requires DistinctIds(cart)
    ensures DistinctIds(Upsert(cart, it))
  {
    UpsertSpec(cart, it);
    var r := Upsert(cart, it);
    if Lookup(cart, it.id).Some? {
      forall i | 0 <= i < |r|
        ensures r[i].id == cart[i].id
      {
        UpsertIds(cart, it, i);
      }
    }
  }

  lemma {:induction false} UpsertIds(cart: seq<ListItem>, it: ListItem, i: nat)
    requires i < |cart|
    ensures i < |Upsert(cart, it)| && Upsert(cart, it)[i].id == cart[i].id
  {
    if i > 0 && cart[0].id != it.id {
      UpsertIds(cart[1..], it, i - 1);
    }
  }

  /** Upserting items none of which has id `d` leaves the entry for `d`
      alone. */
  lemma {:induction false} UpsertAllOther(cart: seq<ListItem>, xs: seq<ListItem>, d: DocStore.Id)
    requires forall i :: 0 <= i < |xs| ==> xs[i].id != d
    ensures Lookup(UpsertAll(cart, xs), d) == Lookup(cart, d)
  {
    if |xs| > 0 {
      UpsertAllOther(cart, xs[..|xs| - 1], d);
      UpsertSpec(UpsertAll(cart, xs[..|xs| - 1]), xs[|xs| - 1]);
    }
  }

  /** Upserting items among which exactly one, at `j`, has id `d` leaves one
      entry for `d` carrying that item's quantity. */
  lemma {:induction false} UpsertAllOne(cart: seq<ListItem>, xs: seq<ListItem>, j: nat, d: DocStore.Id)
    requires j < |xs| && xs[j].id == d
    requires forall i :: 0 <= i < |xs| && i != j ==> xs[i].id != d
    ensures Lookup(UpsertAll(cart, xs), d).Some?
    ensures Lookup(UpsertAll(cart, xs), d).value.quantity == xs[j].quantity
  {
    var init := xs[..|xs| - 1];
    if j == |xs| - 1 {
      UpsertAllOther(cart, init, d);
      UpsertSpec(UpsertAll(cart, init), xs[j]);
      LookupSnoc(UpsertAll(cart, init), xs[j], d);
    } else {
      UpsertAllOne(cart, init, j, d);
      UpsertSpec(UpsertAll(cart, init), xs[|xs| - 1]);
    }
  }

  /** When the cart already has an entry for `d`, that entry stays where it
      was, with only its quantity replaced by that of the one item `j`
      with id `d`. */
  lemma {:induction false} UpsertAllOneExisting(cart: seq<ListItem>, xs: seq<ListItem>, j: nat, d: DocStore.Id)
    requires Lookup(cart, d).Some?
    requires j < |xs| && xs[j].id == d
    requires forall i :: 0 <= i < |xs| && i != j ==> xs[i].id != d
    ensures Lookup(UpsertAll(cart, xs), d) == Some(Lookup(cart, d).value.(quantity := xs[j].quantity))
  {
    var init := xs[..|xs| - 1];
    if j == |xs| - 1 {
      UpsertAllOther(cart, init, d);
      UpsertSpec(UpsertAll(cart, init), xs[j]);
    } else {
      UpsertAllOneExisting(cart, init, j, d);
      UpsertSpec(UpsertAll(cart, init), xs[|xs| - 1]);
    }
  }

  lemma {:induction false} UpsertAllDistinct(cart: seq<ListItem>, xs: seq<ListItem>)
    requires DistinctIds(cart)
    ensures DistinctIds(UpsertAll(cart, xs))
  {
    if |xs| > 0 {
      UpsertAllDistinct(cart, xs[..|xs| - 1]);
      UpsertDistinct(UpsertAll(cart, xs[..|xs| - 1]), xs[|xs| - 1]);
    }
  }

  // ---------------------------------------------------------------------
  // keeping positive entries

  predicate Positive(x: ListItem)
  {
    x.quantity > 0
  }

  lemma LookupSnoc(s: seq<ListItem>, x: ListItem, d: DocStore.Id)
    ensures Lookup(s + [x], d) == if Lookup(s, d).Some? then Lookup(s, d) else if x.id == d then Some(x) else None
  {
    if |s| > 0 {
      assert (s + [x])[1..] == s[1..] + [x];
      LookupSnoc(s[1..], x, d);
    }
  }

  /** With distinct ids, dropping the non-positive entries removes the entry
      for `d` exactly when it is not positive, and keeps ids distinct. */
  lemma KeepPositiveLookup(s: seq<ListItem>, d: DocStore.Id)
    requires DistinctIds(s)
    ensures DistinctIds(Filter(s, Positive))
    ensures Lookup(Filter(s, Positive), d) ==
              if Lookup(s, d).Some? && Positive(Lookup(s, d).value) then Lookup(s, d) else None
  {
    var r := Filter(s, Positive);
    forall i, j | 0 <= i < j < |r|
      ensures r[i].id != r[j].id
    {
      FilterOrderSep(s, Positive, i, j);
    }
    KeepPositiveFind(s, d);
  }

  lemma {:induction false} KeepPositiveFind(s: seq<ListItem>, d: DocStore.Id)
    requires DistinctIds(s)
    ensures Lookup(Filter(s, Positive), d) ==
              if Lookup(s, d).Some? && Positive(Lookup(s, d).value) then Lookup(s, d) else None
  {
    if |s| > 0 {
      var init := s[..|s| - 1];
      var x := s[|s| - 1];
      assert s == init + [x];
      assert DistinctIds(init);
      KeepPositiveFind(init, d);
      LookupSnoc(init, x, d);
      if Positive(x) {
        LookupSnoc(Filter(init, Positive), x, d);
        if x.id == d {
          assert Lookup(init, d).None?;
        }
      }
    }
  }

  // ---------------------------------------------------------------------
  // updateItemQuantity

  /** The visible list with the new quantity on the item with that id. */
  function SetQuantity(items: seq<ListItem>, id: DocStore.Id, q: int): (r: seq<ListItem>)
    ensures |r| == |items|
    ensures forall i :: 0 <= i < |items| && items[i].id == id ==> r[i] == items[i].(quantity := q)
    ensures forall i :: 0 <= i < |items| && items[i].id != id ==> r[i] == items[i]
  {
    Map(items, (x: ListItem) => if x.id == id then x.(quantity := q) else x)
  }

  /** `updateItemQuantity(id, q)` as written: the new visible list and the new
      cart. Only positive visible items are upserted, then non-positive cart
      entries are dropped. */
  function UpdateItemQuantity(items: seq<ListItem>, cart: seq<ListItem>, id: DocStore.Id, q: int)
    : (r: (seq<ListItem>, seq<ListItem>))
    ensures r.0 == SetQuantity(items, id, q)
    ensures forall i :: 0 <= i < |r.1| ==> r.1[i].quantity > 0
  {
    var items' := SetQuantity(items, id, q);
    (items', Filter(UpsertAll(cart, Filter(items', Positive)), Positive))
  }

  /** The positive visible items after the update hold exactly one item with
      that id, at the returned position, carrying the new quantity. */
  lemma PositiveVisibleOne(items: seq<ListItem>, id: DocStore.Id, q: int, j: nat) returns (k: nat)
    requires DistinctIds(items) && j < |items| && items[j].id == id && q > 0
    ensures k < |Filter(SetQuantity(items, id, q), Positive)|
    ensures Filter(SetQuantity(items, id, q), Positive)[k].id == id
    ensures Filter(SetQuantity(items, id, q), Positive)[k].quantity == q
    ensures forall i :: 0 <= i < |Filter(SetQuantity(items, id, q), Positive)| && i != k ==>
              Filter(SetQuantity(items, id, q), Positive)[i].id != id
  {
    var items' := SetQuantity(items, id, q);
    var ps := Filter(items', Positive);
    assert Positive(items'[j]);
    assert items'[j] in ps;
    k :| 0 <= k < |ps| && ps[k] == items'[j];
    forall i | 0 <= i < |ps| && i != k
      ensures ps[i].id != id
    {
      FilterOrderSep(items', Positive, i, k);
    }
  }

  /** Two distinct positions of a filter result come from two distinct
      positions of the input. */
  lemma {:induction false} FilterOrderSep(s: seq<ListItem>, p: ListItem -> bool, i: nat, k: nat)
    requires DistinctIds(s)
    requires i < |Filter(s, p)| && k < |Filter(s, p)| && i != k
    ensures Filter(s, p)[i].id != Filter(s, p)[k].id
  {
    var init := s[..|s| - 1];
    var x := s[|s| - 1];
    var r := Filter(s, p);
    if p(x) && (i == |r| - 1 || k == |r| - 1) {
      var o := if i == |r| - 1 then k else i;
      var m :| 0 <= m < |init| && init[m] == r[o];
    } else {
      FilterOrderSep(init, p, i, k);
    }
  }

  /** A positive quantity for a visible item ends up as that item's cart
      quantity, whether the item was in the cart (replaced, not added) or
      not (appended); cart ids stay distinct. */
  lemma UpdatePositive(items: seq<ListItem>, cart: seq<ListItem>, id: DocStore.Id, q: int)
    requires DistinctIds(items) && DistinctIds(cart)
    requires Lookup(items, id).Some? && q > 0
    ensures DistinctIds(UpdateItemQuantity(items, cart, id, q).1)
    ensures CartQuantity(UpdateItemQuantity(items, cart, id, q).1, id) == q
  {
    var j :| 0 <= j < |items| && items[j] == Lookup(items, id).value;
    var ps := Filter(SetQuantity(items, id, q), Positive);
    var k := PositiveVisibleOne(items, id, q, j);
    UpsertAllOne(cart, ps, k, id);
    UpsertAllDistinct(cart, ps);
    KeepPositiveLookup(UpsertAll(cart, ps), id);
  }

  /** Setting an item to zero (or below) never touches its cart entry: a
      positive entry stays exactly as it was. */
  lemma UpdateZeroKeepsEntry(items: seq<ListItem>, cart: seq<ListItem>, id: DocStore.Id, q: int)
    requires DistinctIds(cart) && q <= 0
    ensures Lookup(cart, id).Some? && Positive(Lookup(cart, id).value) ==>
              Lookup(UpdateItemQuantity(items, cart, id, q).1, id) == Lookup(cart, id)
  {
    var ps := Filter(SetQuantity(items, id, q), Positive);
    forall i | 0 <= i < |ps|
      ensures ps[i].id != id
    {
    }
    UpsertAllOther(cart, ps, id);
    UpsertAllDistinct(cart, ps);
    KeepPositiveLookup(UpsertAll(cart, ps), id);
  }

  /** The items agree with the cart on `d`: every item with id `d` carries
      the cart quantity of `d`, as the re-sync effect leaves them. */
  predicate SyncedOn(xs: seq<ListItem>, cart: seq<ListItem>, d: DocStore.Id)
  {
    forall i :: 0 <= i < |xs| && xs[i].id == d ==> xs[i].quantity == CartQuantity(cart, d)
  }

  /** Upserting items that agree with a positive cart on `d`, then dropping
      the non-positive entries, leaves the cart entry for `d` as it was. */
  lemma UpsertSyncedKeeps(cart: seq<ListItem>, xs: seq<ListItem>, d: DocStore.Id)
    requires DistinctIds(cart) && DistinctIds(xs)
    requires forall i :: 0 <= i < |cart| ==> cart[i].quantity > 0
    requires SyncedOn(xs, cart, d)
    ensures Lookup(Filter(UpsertAll(cart, xs), Positive), d) == Lookup(cart, d)
  {
    UpsertAllDistinct(cart, xs);
    KeepPositiveLookup(UpsertAll(cart, xs), d);
    if j :| 0 <= j < |xs| && xs[j].id == d {
      if Lookup(cart, d).Some? {
        UpsertAllOneExisting(cart, xs, j, d);
      } else {
        UpsertAllOne(cart, xs, j, d);
      }
    } else {
      UpsertAllOther(cart, xs, d);
    }
  }

  /** The visible items after the update still agree with the cart on every
      other id. */
  lemma SetQuantitySynced(items: seq<ListItem>, cart: seq<ListItem>, id: DocStore.Id, q: int, d: DocStore.Id)
    requires d != id && SyncedOn(items, cart, d)
    ensures SyncedOn(SetQuantity(items, id, q), cart, d)
    ensures SyncedOn(Filter(SetQuantity(items, id, q), Positive), cart, d)
  {
    var ps := Filter(SetQuantity(items, id, q), Positive);
    forall i | 0 <= i < |ps| && ps[i].id == d
      ensures ps[i].quantity == CartQuantity(cart, d)
    {
      assert ps[i] in SetQuantity(items, id, q);
    }
  }

  /** With the visible items in step with a positive cart (as the re-sync
      effect leaves them), `updateItemQuantity` as written leaves every
      other cart entry as it was. */
  lemma UpdateKeepsOthers(items: seq<ListItem>, cart: seq<ListItem>, id: DocStore.Id, q: int)
    requires DistinctIds(items) && DistinctIds(cart)
    requires forall i :: 0 <= i < |cart| ==> cart[i].quantity > 0
    requires forall i :: 0 <= i < |items| ==> items[i].quantity == CartQuantity(cart, items[i].id)
    ensures forall d :: d != id ==> Lookup(UpdateItemQuantity(items, cart, id, q).1, d) == Lookup(cart, d)
  {
    var items' := SetQuantity(items, id, q);
    var ps := Filter(items', Positive);
    assert DistinctIds(ps) by {
      forall i, j | 0 <= i < j < |ps|
        ensures ps[i].id != ps[j].id
      {
        FilterOrderSep(items', Positive, i, j);
      }
    }
    forall d | d != id
      ensures Lookup(UpdateItemQuantity(items, cart, id, q).1, d) == Lookup(cart, d)
    {
      SetQuantitySynced(items, cart, id, q, d);
      UpsertSyncedKeeps(cart, ps, d);
    }
  }

  /** The re-sync effect: the visible items of the selected category (keyed
      by category id), each with its cart quantity or 0; no list when no
      category is selected. */
  function SyncVisible(selected: Option<string>, categoryItems: map<string, seq<ListItem>>,
                       cart: seq<ListItem>): (r: seq<ListItem>)
    ensures !(selected.Some? && selected.value != "" && selected.value in categoryItems) ==> r == []
    ensures selected.Some? && selected.value != "" && selected.value in categoryItems ==>
              var src := categoryItems[selected.value];
              |r| == |src| &&
              forall i :: 0 <= i < |src| ==> r[i] == src[i].(quantity := CartQuantity(cart, src[i].id))
  {
    if selected.Some? && selected.value != "" && selected.value in categoryItems then
      Map(categoryItems[selected.value], (x: ListItem) => x.(quantity := CartQuantity(cart, x.id)))
    else []
  }

  /** The `-` button pressed on an item of quantity 1: the cart keeps the
      entry, and the re-sync puts the 1 back on screen. */
  lemma DecrementToZeroCounterexample()
    ensures var it := ListItem(7, "milk", "dairy", "box", "", None, 1);
            var r := UpdateItemQuantity([it], [it], 7, Decrement(1, None));
            r.1 == [it] &&
            SyncVisible(Some("c1"), map["c1" := [it.(quantity := 0)]], r.1) == [it]
  {
    var it := ListItem(7, "milk", "dairy", "box", "", None, 1);
    assert Decrement(1, None) == 0;
    ZeroKeepsSingleEntry(it);
    ResyncRestoresOne(it, "c1");
  }

  /** Setting the only visible item, also the only cart entry, to 0 leaves
      the cart as it was. */
  lemma ZeroKeepsSingleEntry(it: ListItem)
    requires it.quantity == 1
    ensures UpdateItemQuantity([it], [it], it.id, 0).1 == [it]
  {
    var it0 := it.(quantity := 0);
    assert SetQuantity([it], it.id, 0) == [it0];
    assert Filter([it0], Positive) == [] by {
      assert [it0][..0] == [];
    }
    assert UpsertAll([it], []) == [it];
    assert Filter([it], Positive) == [it] by {
      assert [it][..0] == [];
    }
  }

  /** The re-sync reads the quantity 1 back from that cart. */
  lemma ResyncRestoresOne(it: ListItem, categoryId: string)
    requires it.quantity == 1 && categoryId != ""
    ensures SyncVisible(Some(categoryId), map[categoryId := [it.(quantity := 0)]], [it]) == [it]
  {
    var r := SyncVisible(Some(categoryId), map[categoryId := [it.(quantity := 0)]], [it]);
    assert Lookup([it], it.id) == Some(it);
    assert r[0] == it;
  }

  /** The intended update: every visible item, zero or not, is upserted
      before the non-positive entries are dropped. */
  function UpdateItemQuantityFixed(items: seq<ListItem>, cart: seq<ListItem>, id: DocStore.Id, q: int)
    : (r: (seq<ListItem>, seq<ListItem>))
    ensures r.0 == SetQuantity(items, id, q)
    ensures forall i :: 0 <= i < |r.1| ==> r.1[i].quantity > 0
  {
    var items' := SetQuantity(items, id, q);
    (items', Filter(UpsertAll(cart, items'), Positive))
  }

  /** With the intended update the cart quantity of a visible item is the
      quantity set, so it leaves the cart at 0, and ids stay distinct. */
  lemma UpdateFixedSpec(items: seq<ListItem>, cart: seq<ListItem>, id: DocStore.Id, q: int)
    requires DistinctIds(items) && DistinctIds(cart)
    requires Lookup(items, id).Some? && q >= 0
    ensures DistinctIds(UpdateItemQuantityFixed(items, cart, id, q).1)
    ensures CartQuantity(UpdateItemQuantityFixed(items, cart, id, q).1, id) == q
    ensures Lookup(UpdateItemQuantityFixed(items, cart, id, q).1, id).Some? <==> q > 0
  {
    var items' := SetQuantity(items, id, q);
    var j :| 0 <= j < |items| && items[j] == Lookup(items, id).value;
    forall i | 0 <= i < |items'| && i != j
      ensures items'[i].id != id
    {
    }
    UpsertAllOne(cart, items', j, id);
    UpsertAllDistinct(cart, items');
    KeepPositiveLookup(UpsertAll(cart, items'), id);
  }

  /** Under the same conditions the intended update leaves every other cart
      entry as it was too. */
  lemma UpdateFixedKeepsOthers(items: seq<ListItem>, cart: seq<ListItem>, id: DocStore.Id, q: int)
    requires DistinctIds(items) && DistinctIds(cart)
    requires forall i :: 0 <= i < |cart| ==> cart[i].quantity > 0
    requires forall i :: 0 <= i < |items| ==> items[i].quantity == CartQuantity(cart, items[i].id)
    ensures forall d :: d != id ==> Lookup(UpdateItemQuantityFixed(items, cart, id, q).1, d) == Lookup(cart, d)
  {
    var items' := SetQuantity(items, id, q);
    forall d | d != id
      ensures Lookup(UpdateItemQuantityFixed(items, cart, id, q).1, d) == Lookup(cart, d)
    {
      SetQuantitySynced(items, cart, id, q, d);
      UpsertSyncedKeeps(cart, items', d);
    }
  }

  /** After the intended update and the re-sync, the screen shows the
      quantity that was set. */
  lemma UpdateFixedRoundTrip(categoryId: string, categoryItems: map<string, seq<ListItem>>,
                             cart: seq<ListItem>, id: DocStore.Id, q: int, j: nat)
    requires categoryId != "" && categoryId in categoryItems
    requires var items := categoryItems[categoryId]; DistinctIds(items) && j < |items| && items[j].id == id
    requires DistinctIds(cart) && q >= 0
    ensures var items := categoryItems[categoryId];
            var cart' := UpdateItemQuantityFixed(items, cart, id, q).1;
            SyncVisible(Some(categoryId), categoryItems, cart')[j].quantity == q
  {
    var items := categoryItems[categoryId];
    assert Lookup(items, id).Some?;
    UpdateFixedSpec(items, cart, id, q);
  }

  // ---------------------------------------------------------------------
  // total and order placement

  /** The displayed total: `allCartItems.reduce((sum, i) => sum + i.quantity, 0)`. */
  function CartTotal(cart: seq<ListItem>): int
  {
    Sum(cart, (x: ListItem) => x.quantity)
  }

  /** With every entry positive (as `updateItemQuantity` leaves the cart), the
      total is at least the number of entries, so it is 0 exactly when the
      cart is empty. */
  lemma {:induction false} CartTotalPositive(cart: seq<ListItem>)
    requires forall i :: 0 <= i < |cart| ==> cart[i].quantity > 0
    ensures CartTotal(cart) >= |cart|
    ensures CartTotal(cart) == 0 <==> |cart| == 0
  {
    if |cart| > 0 {
      CartTotalPositive(cart[..|cart| - 1]);
    }
  }

  datatype OrderPayload = OrderPayload(items: seq<ListItem>, orderDate: string,
                                       branch: Option<string>, status: OrderStatus)

  datatype CartState = CartState(items: seq<ListItem>, cart: seq<ListItem>, showCart: bool)

  /** `placeOrder`: the payload posted, and the page state after the response
      (`ok` is whether the post succeeded). The timestamp is an input. */
  function PlaceOrder(st: CartState, user: Option<User>, orderDate: string, ok: bool)
    : (r: (OrderPayload, CartState))
    ensures r.0.items == st.cart && r.0.status == Pending && r.0.orderDate == orderDate
    ensures r.0.branch == (if user.Some? then Some(user.value.branch) else None)
    ensures ok ==> r.1.cart == [] && !r.1.showCart && r.1.items == st.items
    ensures !ok ==> r.1 == st
  {
    var branch := match user case Some(u) => Some(u.branch) case None => None;
    var payload := OrderPayload(st.cart, orderDate, branch, Pending);
    (payload, if ok then st.(cart := [], showCart := false) else st)
  }
}
