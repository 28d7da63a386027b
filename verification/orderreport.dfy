/** The admin order report: `aggregateItems` folds the fetched orders into a
    record from item name to total quantity and unit, the page shows either
    that record or the one of a selected branch, and the branch dialog lists
    the distinct branches. The record is a map. For names that are not
    integer-like, its key order (`Object.entries`) is the order in which
    they first occur, `NameOrder`; integer-like names such as "10" are
    listed first, in ascending numeric order, which is not modelled. */
module OrderReport {
  import opened Common
  import opened Entities

  datatype Line = Line(quantity: int, unit: string)

  type Report = map<string, Line>

  /** One step of the inner `forEach`: add to an existing entry, or create
      it with this item's quantity and unit. */
  function AddItem(acc: Report, it: OrderItem): (r: Report)
    ensures r.Keys == acc.Keys + {it.name}
  {
    if it.name in acc then acc[it.name := Line(acc[it.name].quantity + it.quantity, acc[it.name].unit)]
    else acc[it.name := Line(it.quantity, it.unit)]
  }

  /** `items.forEach(...)` starting from `acc`. */
  function FoldItems(acc: Report, items: seq<OrderItem>): Report
  {
    if |items| == 0 then acc else AddItem(FoldItems(acc, items[..|items| - 1]), items[|items| - 1])
  }

  /** `aggregateItems(orders)`: the outer `forEach` over orders, the inner one
      over each order's items. */
  function AggregateItems(orders: seq<Order>): Report
  {
    if |orders| == 0 then map[] else FoldItems(AggregateItems(orders[..|orders| - 1]), orders[|orders| - 1].items)
  }

  /** All items of all orders, in iteration order. */
  function Flatten(orders: seq<Order>): seq<OrderItem>
  {
    if |orders| == 0 then [] else Flatten(orders[..|orders| - 1]) + orders[|orders| - 1].items
  }

  lemma {:induction false} FoldItemsAppend(acc: Report, a: seq<OrderItem>, b: seq<OrderItem>)
    ensures FoldItems(acc, a + b) == FoldItems(FoldItems(acc, a), b)
    decreases |b|
  {
    if |b| == 0 {
      assert a + b == a;
    } else {
      assert (a + b)[..|a + b| - 1] == a + b[..|b| - 1];
      FoldItemsAppend(acc, a, b[..|b| - 1]);
    }
  }

  /** The nested loops are one fold over the flattened item list. */
  lemma {:induction false} AggregateIsFlatFold(orders: seq<Order>)
    ensures AggregateItems(orders) == FoldItems(map[], Flatten(orders))
  {
    if |orders| > 0 {
      var init := orders[..|orders| - 1];
      AggregateIsFlatFold(init);
      FoldItemsAppend(map[], Flatten(init), orders[|orders| - 1].items);
    }
  }

  // ---------------------------------------------------------------------
  // reference definitions over a flat item list

  /** The names of `xs`, in order, with repetitions. */
  function Names(xs: seq<OrderItem>): (r: seq<string>)
    ensures |r| == |xs|
    ensures forall i :: 0 <= i < |xs| ==> r[i] == xs[i].name
  {
    if |xs| == 0 then [] else Names(xs[..|xs| - 1]) + [xs[|xs| - 1].name]
  }

  /** Each name once, in order of first occurrence: the record's key order
      when no name is integer-like. */
  function NameOrder(xs: seq<OrderItem>): seq<string>
  {
    Dedup(Names(xs))
  }

  /** Total quantity of the items of `xs` called `k`. */
  function QuantityOf(xs: seq<OrderItem>, k: string): int
  {
    if |xs| == 0 then 0
    else QuantityOf(xs[..|xs| - 1], k) + (if xs[|xs| - 1].name == k then xs[|xs| - 1].quantity else 0)
  }

  function Quantity(it: OrderItem): int
  {
    it.quantity
  }

  /** Every name of `ks` has an entry in `m`. */
  predicate Listed(m: Report, ks: seq<string>)
  {
    forall i :: 0 <= i < |ks| ==> ks[i] in m
  }

  /** The sum of the quantities of the names `ks` in `m`. */
  function ReportTotal(m: Report, ks: seq<string>): int
    requires Listed(m, ks)
  {
    if |ks| == 0 then 0 else ReportTotal(m, ks[..|ks| - 1]) + m[ks[|ks| - 1]].quantity
  }

  /** The record at one name `k`: present exactly when some item is called
      `k`, holding the sum of their quantities and the unit of the first of
      them. */
  lemma {:induction false} FoldItemsAt(xs: seq<OrderItem>, k: string)
    ensures k in FoldItems(map[], xs) <==> k in Names(xs)
    ensures k in FoldItems(map[], xs) ==> FoldItems(map[], xs)[k].quantity == QuantityOf(xs, k)
    ensures k in FoldItems(map[], xs) ==>
              FirstIndex(Names(xs), k) < |xs| && FoldItems(map[], xs)[k].unit == xs[FirstIndex(Names(xs), k)].unit
  {
    if |xs| > 0 {
      var init := xs[..|xs| - 1];
      var x := xs[|xs| - 1];
      FoldItemsAt(init, k);
      assert xs == init + [x];
      FoldItemsAtStep(init, x, k);
    }
  }

  /** One item more: the step of `FoldItemsAt`. */
  lemma FoldItemsAtStep(init: seq<OrderItem>, x: OrderItem, k: string)
    requires k in FoldItems(map[], init) <==> k in Names(init)
    requires k in FoldItems(map[], init) ==> FoldItems(map[], init)[k].quantity == QuantityOf(init, k)
    requires k in FoldItems(map[], init) ==>
               FirstIndex(Names(init), k) < |init| && FoldItems(map[], init)[k].unit == init[FirstIndex(Names(init), k)].unit
    ensures var xs := init + [x];
            && (k in FoldItems(map[], xs) <==> k in Names(xs))
            && (k in FoldItems(map[], xs) ==> FoldItems(map[], xs)[k].quantity == QuantityOf(xs, k))
            && (k in FoldItems(map[], xs) ==>
                  FirstIndex(Names(xs), k) < |xs| && FoldItems(map[], xs)[k].unit == xs[FirstIndex(Names(xs), k)].unit)
  {
    var xs := init + [x];
    assert xs[..|xs| - 1] == init;
    NamesSnoc(init, x);
    assert FoldItems(map[], xs) == AddItem(FoldItems(map[], init), x);
    assert QuantityOf(xs, k) == QuantityOf(init, k) + (if x.name == k then x.quantity else 0);
    if k in Names(init) || k == x.name {
      FirstIndexPrefix(Names(init), x.name, k);
    }
    if k !in Names(init) {
      QuantityOfAbsent(init, k);
    }
  }

  lemma FoldItemsSpec(xs: seq<OrderItem>)
    ensures forall k :: k in FoldItems(map[], xs) <==> k in Names(xs)
    ensures forall k :: k in FoldItems(map[], xs) ==> FoldItems(map[], xs)[k].quantity == QuantityOf(xs, k)
    ensures forall k :: k in FoldItems(map[], xs) ==>
              FirstIndex(Names(xs), k) < |xs| && FoldItems(map[], xs)[k].unit == xs[FirstIndex(Names(xs), k)].unit
  {
    forall k {
      FoldItemsAt(xs, k);
    }
  }

  lemma {:induction false} QuantityOfAbsent(xs: seq<OrderItem>, k: string)
    requires k !in Names(xs)
    ensures QuantityOf(xs, k) == 0
  {
    if |xs| > 0 {
      assert Names(xs) == Names(xs[..|xs| - 1]) + [xs[|xs| - 1].name];
      QuantityOfAbsent(xs[..|xs| - 1], k);
    }
  }

  /** Every name of the key order has an entry in the record. */
  lemma NameOrderInReport(xs: seq<OrderItem>)
    ensures Listed(FoldItems(map[], xs), NameOrder(xs))
  {
    forall i | 0 <= i < |NameOrder(xs)|
      ensures NameOrder(xs)[i] in FoldItems(map[], xs)
    {
      DedupContains(Names(xs), NameOrder(xs)[i]);
      FoldItemsAt(xs, NameOrder(xs)[i]);
    }
  }

  /** Summing the record over its key order gives the sum of all item
      quantities: nothing is lost or counted twice. */
  lemma {:induction false} FoldItemsTotal(xs: seq<OrderItem>)
    ensures Listed(FoldItems(map[], xs), NameOrder(xs))
    ensures ReportTotal(FoldItems(map[], xs), NameOrder(xs)) == Sum(xs, Quantity)
  {
    NameOrderInReport(xs);
    if |xs| > 0 {
      var init := xs[..|xs| - 1];
      var x := xs[|xs| - 1];
      FoldItemsTotal(init);
      assert init + [x] == xs;
      FoldItemsTotalStep(init, x);
    }
  }

  /** One item more: the step of `FoldItemsTotal`. */
  lemma FoldItemsTotalStep(init: seq<OrderItem>, x: OrderItem)
    requires Listed(FoldItems(map[], init), NameOrder(init))
    ensures Listed(FoldItems(map[], init + [x]), NameOrder(init + [x]))
    ensures ReportTotal(FoldItems(map[], init + [x]), NameOrder(init + [x]))
            == ReportTotal(FoldItems(map[], init), NameOrder(init)) + x.quantity
  {
    var xs := init + [x];
    var m := FoldItems(map[], init);
    var ks := NameOrder(init);
    assert FoldItems(map[], xs) == AddItem(m, x) by {
      assert xs[..|xs| - 1] == init;
    }
    assert NameOrder(xs) == if x.name in Names(init) then ks else ks + [x.name] by {
      NamesSnoc(init, x);
      DedupSnoc(Names(init), x.name);
    }
    DedupContains(Names(init), x.name);
    FoldItemsAt(init, x.name);
    if x.name in Names(init) {
      ReportTotalOld(m, ks, x);
    } else {
      ReportTotalNew(m, ks, x);
    }
  }

  /** A name already listed keeps its place in the key order and its
      quantity grows by the item's. */
  lemma ReportTotalOld(m: Report, ks: seq<string>, x: OrderItem)
    requires Listed(m, ks) && Distinct(ks) && x.name in ks
    ensures Listed(AddItem(m, x), ks)
    ensures ReportTotal(AddItem(m, x), ks) == ReportTotal(m, ks) + x.quantity
  {
    ReportTotalBump(m, ks, x.name, x.quantity);
  }

  lemma NamesSnoc(init: seq<OrderItem>, x: OrderItem)
    ensures Names(init + [x]) == Names(init) + [x.name]
  {
    assert (init + [x])[..|init|] == init;
  }

  /** A name seen for the first time is appended to the key order with the
      item's quantity. */
  lemma ReportTotalNew(m: Report, ks: seq<string>, x: OrderItem)
    requires Listed(m, ks) && x.name !in ks && x.name !in m
    ensures Listed(AddItem(m, x), ks + [x.name])
    ensures ReportTotal(AddItem(m, x), ks + [x.name]) == ReportTotal(m, ks) + x.quantity
  {
    ReportTotalOther(m, ks, x.name, Line(x.quantity, x.unit));
    assert (ks + [x.name])[..|ks|] == ks;
  }

  /** Raising one listed name's quantity by `d` raises the total by `d`. */
  lemma {:induction false} ReportTotalBump(m: Report, ks: seq<string>, k: string, d: int)
    requires Listed(m, ks)
    requires Distinct(ks) && k in ks
    ensures ReportTotal(m[k := Line(m[k].quantity + d, m[k].unit)], ks) == ReportTotal(m, ks) + d
  {
    var m' := m[k := Line(m[k].quantity + d, m[k].unit)];
    var init := ks[..|ks| - 1];
    if ks[|ks| - 1] == k {
      assert k !in init;
      ReportTotalOther(m, init, k, Line(m[k].quantity + d, m[k].unit));
    } else {
      assert k in init by {
        var i :| 0 <= i < |ks| && ks[i] == k;
        assert init[i] == k;
      }
      ReportTotalBump(m, init, k, d);
    }
  }

  /** Changing a name that is not listed does not change the total. */
  lemma {:induction false} ReportTotalOther(m: Report, ks: seq<string>, k: string, v: Line)
    requires Listed(m, ks)
    requires k !in ks
    ensures ReportTotal(m[k := v], ks) == ReportTotal(m, ks)
  {
    if |ks| > 0 {
      ReportTotalOther(m, ks[..|ks| - 1], k, v);
    }
  }

  /** `aggregateItems`, stated over the orders. */
  lemma AggregateItemsSpec(orders: seq<Order>)
    ensures forall k :: k in AggregateItems(orders) <==> k in Names(Flatten(orders))
    ensures forall k :: k in AggregateItems(orders) ==>
              AggregateItems(orders)[k].quantity == QuantityOf(Flatten(orders), k)
    ensures forall k :: k in AggregateItems(orders) ==>
              var xs := Flatten(orders);
              FirstIndex(Names(xs), k) < |xs| && AggregateItems(orders)[k].unit == xs[FirstIndex(Names(xs), k)].unit
    ensures forall i :: 0 <= i < |NameOrder(Flatten(orders))| ==> NameOrder(Flatten(orders))[i] in AggregateItems(orders)
    ensures ReportTotal(AggregateItems(orders), NameOrder(Flatten(orders))) == Sum(Flatten(orders), Quantity)
  {
    AggregateIsFlatFold(orders);
    FoldItemsSpec(Flatten(orders));
    FoldItemsTotal(Flatten(orders));
  }

  /** No orders, or only orders without items, give an empty record. */
  lemma {:induction false} AggregateEmpty(orders: seq<Order>)
    requires forall i :: 0 <= i < |orders| ==> |orders[i].items| == 0
    ensures AggregateItems(orders) == map[]
  {
    if |orders| > 0 {
      AggregateEmpty(orders[..|orders| - 1]);
    }
  }

  // ---------------------------------------------------------------------
  // the page's derived views

  function OrdersOfBranch(orders: seq<Order>, branch: string): seq<Order>
  {
    Filter(orders, (o: Order) => o.branch == branch)
  }

  /** The record shown for a selected branch. */
  function BranchView(orders: seq<Order>, branch: string): Report
  {
    AggregateItems(OrdersOfBranch(orders, branch))
  }

  /** The branch view totals exactly the items of that branch's orders. */
  lemma BranchViewSpec(orders: seq<Order>, branch: string)
    ensures forall k :: k in BranchView(orders, branch) ==>
              BranchView(orders, branch)[k].quantity == QuantityOf(Flatten(OrdersOfBranch(orders, branch)), k)
    ensures forall i :: 0 <= i < |OrdersOfBranch(orders, branch)| ==> OrdersOfBranch(orders, branch)[i].branch == branch
    ensures forall i :: 0 <= i < |orders| && orders[i].branch == branch ==> orders[i] in OrdersOfBranch(orders, branch)
  {
    AggregateItemsSpec(OrdersOfBranch(orders, branch));
  }

  /** `selectedBranch` as a JavaScript condition: `null` and `""` are falsy. */
  predicate Selected(selected: Option<string>)
  {
    selected.Some? && selected.value != ""
  }

  /** `displayedAggregatedItems`. */
  function Displayed(selected: Option<string>, orders: seq<Order>, aggregated: Report): (r: Report)
    ensures Selected(selected) ==> r == BranchView(orders, selected.value)
    ensures !Selected(selected) ==> r == aggregated
  {
    if Selected(selected) then BranchView(orders, selected.value) else aggregated
  }

  /** `isEmpty` as written: with a branch selected it compares the `length`
      of a plain record, which is `undefined`, to 0. */
  function IsEmpty(selected: Option<string>, orders: seq<Order>, aggregated: Report): bool
  {
    if Selected(selected) then false else |aggregated.Keys| == 0
  }

  /** With a branch selected the empty state is never shown, even when that
      branch has no orders and the displayed record is empty. */
  lemma IsEmptyIgnoresBranch(orders: seq<Order>, aggregated: Report, branch: string)
    requires branch != ""
    ensures !IsEmpty(Some(branch), orders, aggregated)
    ensures (forall i :: 0 <= i < |orders| ==> orders[i].branch != branch) ==>
              Displayed(Some(branch), orders, aggregated) == map[]
  {
    if forall i :: 0 <= i < |orders| ==> orders[i].branch != branch {
      var os := OrdersOfBranch(orders, branch);
      if |os| > 0 {
        assert os[0] in orders;
      }
    }
  }

  /** A concrete witness: one other branch's order, branch "b" selected. */
  lemma IsEmptyCounterexample()
    ensures var orders := [Order([OrderItem("x", "c", "kg", 1)], "a", "20250101", Pending, None)];
            Displayed(Some("b"), orders, AggregateItems(orders)) == map[] &&
            !IsEmpty(Some("b"), orders, AggregateItems(orders))
  {
    var orders := [Order([OrderItem("x", "c", "kg", 1)], "a", "20250101", Pending, None)];
    assert OrdersOfBranch(orders, "b") == [] by {
      assert Filter(orders[..0], (o: Order) => o.branch == "b") == [];
    }
  }

  /** The intended emptiness test: the displayed record has no keys. */
  function IsEmptyFixed(selected: Option<string>, orders: seq<Order>, aggregated: Report): (r: bool)
    ensures r <==> Displayed(selected, orders, aggregated) == map[]
  {
    |Displayed(selected, orders, aggregated).Keys| == 0
  }

  /** With no branch selected and the record computed from the orders, the
      empty state shows exactly when no order has an item. */
  lemma IsEmptyFixedSpec(selected: Option<string>, orders: seq<Order>)
    ensures IsEmptyFixed(selected, orders, AggregateItems(orders)) <==>
            |Flatten(if Selected(selected) then OrdersOfBranch(orders, selected.value) else orders)| == 0
  {
    var os := if Selected(selected) then OrdersOfBranch(orders, selected.value) else orders;
    AggregateItemsSpec(os);
    if |Flatten(os)| > 0 {
      assert Names(Flatten(os))[0] in AggregateItems(os);
    }
  }

  /** The branch dialog: each branch of the fetched orders once, in order of
      first appearance. */
  function DistinctBranches(orders: seq<Order>): (r: seq<string>)
    ensures Distinct(r)
    ensures forall i :: 0 <= i < |r| ==> exists j :: 0 <= j < |orders| && orders[j].branch == r[i]
    ensures forall j :: 0 <= j < |orders| ==> orders[j].branch in r
  {
    var bs := Map(orders, (o: Order) => o.branch);
    DedupSpec(bs);
    Dedup(bs)
  }
}
