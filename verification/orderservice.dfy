/** The order collection: orders are inserted as given, looked up by exact
    order date, listed per branch newest first in pages of five, and
    summarised as the distinct calendar days that have orders. Turning an
    order date into a timestamp or a day key goes through the JavaScript
    `Date` parser, which is a parameter here. */
module OrderService {
  import opened Common
  import opened Entities
  import opened Sorting
  import opened Paging
  import opened DocStore

  type Orders = Store<Order>
  type OrderDoc = Doc<Order>

  /** `createOrder`: the order is stored exactly as given under a fresh id;
      no stored order changes. */
  function CreateOrder(s: Orders, o: Order): (r: (Orders, Id))
    requires Valid(s)
    ensures Valid(r.0) && r.1 !in s.docs
    ensures r.0.docs == s.docs[r.1 := o]
  {
    Create(s, o)
  }

  /** A new order is never folded into an existing one, even one of the same
      branch and day: the number of stored orders grows by one. */
  lemma CreateOrderNoMerge(s: Orders, o: Order)
    requires Valid(s)
    ensures |CreateOrder(s, o).0.docs| == |s.docs| + 1
  {
    var (s', id) := CreateOrder(s, o);
    assert s'.docs.Keys == s.docs.Keys + {id};
  }

  /** `getOrdersByDate`: the orders whose `orderDate` equals the argument
      character for character. */
  function GetOrdersByDate(s: Orders, orderDate: string): (r: seq<OrderDoc>)
    requires Valid(s)
    ensures forall i :: 0 <= i < |r| ==>
              r[i].id in s.docs && r[i].data == s.docs[r[i].id] && r[i].data.orderDate == orderDate
    ensures forall k :: k in s.docs && s.docs[k].orderDate == orderDate ==> Doc(k, s.docs[k]) in r
  {
    FindBy(s, (o: Order) => o.orderDate == orderDate)
  }

  /** `new Date(orderDate).getTime()`, or `None` for the NaN of a date that
      does not parse. */
  type Timestamps = string -> Option<int>

  /** The comparator `ts(b) - ts(a)` as a "not after" relation: newer
      orders first. A NaN difference is read by `sort` as 0, so an order
      whose date does not parse ties with every order. */
  function NewestFirst(ts: Timestamps): (le: (OrderDoc, OrderDoc) -> bool)
  {
    (a: OrderDoc, b: OrderDoc) =>
      ts(a.data.orderDate).None? || ts(b.data.orderDate).None? ||
      ts(a.data.orderDate).value >= ts(b.data.orderDate).value
  }

  /** The same order with an unparsed date read as time 0. */
  function NewestFirstParsed(ts: Timestamps): (le: (OrderDoc, OrderDoc) -> bool)
  {
    (a: OrderDoc, b: OrderDoc) => ts(a.data.orderDate).GetOr(0) >= ts(b.data.orderDate).GetOr(0)
  }

  /** Every order of the branch has a date that parses. */
  predicate BranchDatesParse(s: Orders, branch: string, ts: Timestamps)
  {
    forall k :: k in s.docs && s.docs[k].branch == branch ==> ts(s.docs[k].orderDate).Some?
  }

  /** One unparsed date makes the comparator inconsistent: an order of time
      1 is "not after" it, it is "not after" an order of time 2, and yet
      the first order is after the last. */
  lemma UnparsedDateInconsistent(ts: Timestamps, d1: string, d2: string, d3: string)
    requires ts(d1) == Some(1) && ts(d2).None? && ts(d3) == Some(2)
    ensures !TotalPreorder(NewestFirst(ts))
  {
    var a := Doc(0, Order([], "", d1, Pending, None));
    var b := Doc(1, Order([], "", d2, Pending, None));
    var c := Doc(2, Order([], "", d3, Pending, None));
    assert NewestFirst(ts)(a, b) && NewestFirst(ts)(b, c) && !NewestFirst(ts)(a, c);
  }

  /** When every date parses, the comparator sorts like a total preorder
      on timestamps, and its sort is ordered newest first. */
  lemma NewestFirstTotalPreorder(ts: Timestamps, ds: seq<OrderDoc>)
    requires forall i :: 0 <= i < |ds| ==> ts(ds[i].data.orderDate).Some?
    ensures TotalPreorder(NewestFirstParsed(ts))
    ensures SortBy(ds, NewestFirst(ts)) == SortBy(ds, NewestFirstParsed(ts))
    ensures var r := SortBy(ds, NewestFirst(ts));
            && (forall i :: 0 <= i < |r| ==> ts(r[i].data.orderDate).Some?)
            && (forall i, j :: 0 <= i < j < |r| ==> ts(r[i].data.orderDate).value >= ts(r[j].data.orderDate).value)
  {
    SortByAgree(ds, NewestFirst(ts), NewestFirstParsed(ts));
    SortBySpec(ds, NewestFirstParsed(ts));
    var r := SortBy(ds, NewestFirst(ts));
    forall i | 0 <= i < |r|
      ensures ts(r[i].data.orderDate).Some?
    {
      assert r[i] in multiset(ds);
    }
  }

  /** The branch's orders sorted newest first, before paging. */
  function BranchOrders(s: Orders, branch: string, ts: Timestamps): seq<OrderDoc>
    requires Valid(s)
  {
    SortBy(FindBy(s, (o: Order) => o.branch == branch), NewestFirst(ts))
  }

  /** The sorted list holds exactly the branch's orders; when every date of
      the branch parses, they are newest first. */
  lemma BranchOrdersSpec(s: Orders, branch: string, ts: Timestamps)
    requires Valid(s)
    ensures var r := BranchOrders(s, branch, ts);
            && (forall i :: 0 <= i < |r| ==>
                  r[i].id in s.docs && r[i].data == s.docs[r[i].id] && r[i].data.branch == branch)
            && (forall k :: k in s.docs && s.docs[k].branch == branch ==> Doc(k, s.docs[k]) in r)
    ensures var r := BranchOrders(s, branch, ts);
            BranchDatesParse(s, branch, ts) ==>
              && (forall i :: 0 <= i < |r| ==> ts(r[i].data.orderDate).Some?)
              && (forall i, j :: 0 <= i < j < |r| ==>
                    ts(r[i].data.orderDate).value >= ts(r[j].data.orderDate).value)
  {
    var matches := FindBy(s, (o: Order) => o.branch == branch);
    var r := BranchOrders(s, branch, ts);
    SortByPermutes(matches, NewestFirst(ts));
    forall i | 0 <= i < |r|
      ensures r[i].id in s.docs && r[i].data == s.docs[r[i].id] && r[i].data.branch == branch
    {
      assert r[i] in multiset(matches);
    }
    forall k | k in s.docs && s.docs[k].branch == branch
      ensures Doc(k, s.docs[k]) in r
    {
      assert Doc(k, s.docs[k]) in multiset(r);
    }
    if BranchDatesParse(s, branch, ts) {
      NewestFirstTotalPreorder(ts, matches);
    }
  }

  /** `getOrdersByBranch(branch, page)`. */
  function GetOrdersByBranch(s: Orders, branch: string, page: int, ts: Timestamps): (r: seq<OrderDoc>)
    requires Valid(s)
    ensures page >= 1 ==> |r| <= PageSize
    ensures forall i :: 0 <= i < |r| ==> r[i] in BranchOrders(s, branch, ts)
  {
    if page >= 1 then PageWindow(BranchOrders(s, branch, ts), page); Page(BranchOrders(s, branch, ts), page)
    else Page(BranchOrders(s, branch, ts), page)
  }

  /** Every page holds only orders of the branch; when every date of the
      branch parses, they are newest first. */
  lemma GetOrdersByBranchSpec(s: Orders, branch: string, page: int, ts: Timestamps)
    requires Valid(s)
    ensures var r := GetOrdersByBranch(s, branch, page, ts);
            forall i :: 0 <= i < |r| ==> r[i].id in s.docs && r[i].data.branch == branch
    ensures var r := GetOrdersByBranch(s, branch, page, ts);
            BranchDatesParse(s, branch, ts) ==>
              && (forall i :: 0 <= i < |r| ==> ts(r[i].data.orderDate).Some?)
              && (forall i, j :: 0 <= i < j < |r| ==>
                    ts(r[i].data.orderDate).value >= ts(r[j].data.orderDate).value)
  {
    BranchOrdersSpec(s, branch, ts);
    if BranchDatesParse(s, branch, ts) {
      BranchPageNewestFirst(s, branch, page, ts);
    }
  }

  lemma BranchPageNewestFirst(s: Orders, branch: string, page: int, ts: Timestamps)
    requires Valid(s)
    requires BranchDatesParse(s, branch, ts)
    ensures var r := GetOrdersByBranch(s, branch, page, ts);
            forall i, j :: 0 <= i < j < |r| ==> NewestFirstParsed(ts)(r[i], r[j])
  {
    var all := BranchOrders(s, branch, ts);
    var matches := FindBy(s, (o: Order) => o.branch == branch);
    NewestFirstTotalPreorder(ts, matches);
    SortBySpec(matches, NewestFirstParsed(ts));
    assert SortedBy(all, NewestFirstParsed(ts));
    PageSorted(all, page, NewestFirstParsed(ts));
  }

  /** Page `p` starts at position `(p - 1) * 5` of the sorted list, and
      pages `1..ceil(n / 5)` together list every order of the branch once. */
  lemma GetOrdersByBranchPages(s: Orders, branch: string, page: int, ts: Timestamps)
    requires Valid(s)
    ensures var all := BranchOrders(s, branch, ts);
            page >= 1 ==>
              GetOrdersByBranch(s, branch, page, ts)
                == all[Min((page - 1) * PageSize, |all|)..Min(page * PageSize, |all|)]
    ensures var all := BranchOrders(s, branch, ts);
            Pages(all, TotalPages(|all|)) == all
  {
    var all := BranchOrders(s, branch, ts);
    PagesCover(all);
    if page >= 1 {
      PageWindow(all, page);
    }
  }

  // ---------------------------------------------------------------------
  // available dates

  /** `new Date(orderDate).toISOString().split('T')[0]` for every listed
      order, or `None` as soon as one date does not parse (`toISOString`
      throws on an invalid date). */
  function DayKeys(ds: seq<OrderDoc>, dayKey: string -> Option<string>): (r: Option<seq<string>>)
    ensures r.None? <==> exists i :: 0 <= i < |ds| && dayKey(ds[i].data.orderDate).None?
    ensures r.Some? ==> |r.value| == |ds|
    ensures r.Some? ==> forall i :: 0 <= i < |ds| ==> Some(r.value[i]) == dayKey(ds[i].data.orderDate)
  {
    if |ds| == 0 then Some([])
    else
      var pre := DayKeys(ds[..|ds| - 1], dayKey);
      var k := dayKey(ds[|ds| - 1].data.orderDate);
      if pre.None? || k.None? then None else Some(pre.value + [k.value])
  }

  datatype DateError = InvalidDate

  /** `getAvailableOrderDates(page)`: the distinct day keys of all orders,
      in order of first occurrence, paged by five. */
  function GetAvailableOrderDates(s: Orders, dayKey: string -> Option<string>, page: int)
    : (r: Result<seq<string>, DateError>)
    requires Valid(s)
    ensures r.Err? <==> DayKeys(List(s), dayKey).None?
    ensures r.Ok? ==> r.value == Page(Dedup(DayKeys(List(s), dayKey).value), page)
  {
    match DayKeys(List(s), dayKey)
    case None => Err(InvalidDate)
    case Some(ks) => Ok(Page(Dedup(ks), page))
  }

  /** A page of dates lists no day twice, and a page numbered from 1 has
      at most five days. */
  lemma AvailableDatesDistinct(s: Orders, dayKey: string -> Option<string>, page: int)
    requires Valid(s)
    requires GetAvailableOrderDates(s, dayKey, page).Ok?
    ensures Common.Distinct(GetAvailableOrderDates(s, dayKey, page).value)
    ensures page >= 1 ==> |GetAvailableOrderDates(s, dayKey, page).value| <= PageSize
  {
    var ks := DayKeys(List(s), dayKey).value;
    var u := Dedup(ks);
    DedupSpec(ks);
    PageDistinct(u, page);
    if page >= 1 {
      PageWindow(u, page);
    }
  }

  /** Each listed day is the day of some stored order: the lemma names
      that order. */
  lemma AvailableDateSource(s: Orders, dayKey: string -> Option<string>, page: int, i: nat)
    returns (k: Id)
    requires Valid(s)
    requires GetAvailableOrderDates(s, dayKey, page).Ok?
    requires i < |GetAvailableOrderDates(s, dayKey, page).value|
    ensures k in s.docs && dayKey(s.docs[k].orderDate) == Some(GetAvailableOrderDates(s, dayKey, page).value[i])
  {
    var ds := List(s);
    var ks := DayKeys(ds, dayKey).value;
    var u := Dedup(ks);
    var r := GetAvailableOrderDates(s, dayKey, page).value;
    DedupSpec(ks);
    PageWithin(u, page);
    assert r[i] in u;
    var j :| 0 <= j < |u| && u[j] == r[i];
    assert u[j] in ks;
    var m :| 0 <= m < |ks| && ks[m] == r[i];
    assert Some(ks[m]) == dayKey(ds[m].data.orderDate);
    k := ds[m].id;
  }
}
