/** The branch order list: a branch's orders of one day. Its lines can be
    deleted or have their quantity edited and saved only while the selected
    day is today; the request note can be edited and saved on any day. Each
    handler yields the store write it issues (if any) and the new list; `ok`
    says whether the write succeeded (on failure the handler alerts and the
    list is left as it was). */
module OrderList {
  import opened Common
  import opened Entities
  import DocStore

  type OrderDoc = DocStore.Doc<Order>

  /** A store write: the document id and the fields written. */
  datatype Write = Write(id: DocStore.Id, patch: OrderPatch)

  /** `orders.find(o => o.id === id)`. */
  function FindOrder(orders: seq<OrderDoc>, id: DocStore.Id): (r: Option<Order>)
    ensures r.None? <==> forall i :: 0 <= i < |orders| ==> orders[i].id != id
    ensures r.Some? ==> exists i :: 0 <= i < |orders| && orders[i].id == id && orders[i].data == r.value
  {
    if |orders| == 0 then None
    else if orders[0].id == id then Some(orders[0].data)
    else FindOrder(orders[1..], id)
  }

  /** `items.filter((_, idx) => idx !== k)`, position by position. */
  function RemoveIndex<T>(s: seq<T>, k: int): (r: seq<T>)
    ensures |r| == if 0 <= k < |s| then |s| - 1 else |s|
  {
    if |s| == 0 then []
    else if |s| - 1 == k then RemoveIndex(s[..|s| - 1], k)
    else RemoveIndex(s[..|s| - 1], k) + [s[|s| - 1]]
  }

  /** Removing position `k` keeps every other line in its original order;
      an index outside the list removes nothing. */
  lemma {:induction false} RemoveIndexSpec<T>(s: seq<T>, k: int)
    ensures 0 <= k < |s| ==> RemoveIndex(s, k) == s[..k] + s[k + 1..]
    ensures !(0 <= k < |s|) ==> RemoveIndex(s, k) == s
  {
    if |s| > 0 {
      var init := s[..|s| - 1];
      RemoveIndexSpec(init, k);
      var last := s[|s| - 1];
      if |s| - 1 == k {
        assert s[..k] == init;
      } else if 0 <= k < |s| {
        assert RemoveIndex(s, k) == RemoveIndex(init, k) + [last];
        assert s[..k] == init[..k];
        assert s[k + 1..] == init[k + 1..] + [last];
      } else {
        assert RemoveIndex(s, k) == RemoveIndex(init, k) + [last];
        assert s == init + [last];
      }
    }
  }

  /** Replaces the items of every order with id `id`. */
  function SetItems(orders: seq<OrderDoc>, id: DocStore.Id, items: seq<OrderItem>): (r: seq<OrderDoc>)
    ensures |r| == |orders|
    ensures forall i :: 0 <= i < |orders| ==> r[i].id == orders[i].id
    ensures forall i :: 0 <= i < |orders| && orders[i].id == id ==> r[i].data == orders[i].data.(items := items)
    ensures forall i :: 0 <= i < |orders| && orders[i].id != id ==> r[i] == orders[i]
  {
    Map(orders, (o: OrderDoc) => if o.id == id then o.(data := o.data.(items := items)) else o)
  }

  /** `handleDeleteClick(orderId, idx)`: an unknown order changes nothing and
      writes nothing; otherwise the order's items without line `idx` are
      written and, on success, shown. */
  function DeleteLine(orders: seq<OrderDoc>, orderId: DocStore.Id, idx: int, ok: bool)
    : (r: (Option<Write>, seq<OrderDoc>))
    ensures FindOrder(orders, orderId).None? ==> r == (None, orders)
    ensures FindOrder(orders, orderId).Some? ==>
              var items := FindOrder(orders, orderId).value.items;
              r.0 == Some(Write(orderId, EmptyOrderPatch.(items := Some(RemoveIndex(items, idx))))) &&
              r.1 == (if ok then SetItems(orders, orderId, RemoveIndex(items, idx)) else orders)
  {
    match FindOrder(orders, orderId)
    case None => (None, orders)
    case Some(order) =>
      var updated := RemoveIndex(order.items, idx);
      (Some(Write(orderId, EmptyOrderPatch.(items := Some(updated)))),
       if ok then SetItems(orders, orderId, updated) else orders)
  }

  /** Local state and store agree after a delete: the store record of the
      order, patched by the write, is the order now shown. Every other order
      is unchanged, and the edited one lost exactly line `idx`. */
  lemma DeleteLineSpec(orders: seq<OrderDoc>, orderId: DocStore.Id, idx: int, i: nat)
    requires i < |orders| && orders[i].id == orderId
    requires forall j :: 0 <= j < i ==> orders[j].id != orderId
    requires 0 <= idx < |orders[i].data.items|
    ensures var r := DeleteLine(orders, orderId, idx, true);
            r.0.Some? && r.1[i].data == ApplyOrderPatch(orders[i].data, r.0.value.patch) &&
            r.1[i].data.items == orders[i].data.items[..idx] + orders[i].data.items[idx + 1..]
    ensures var r := DeleteLine(orders, orderId, idx, true);
            forall j :: 0 <= j < |orders| && orders[j].id != orderId ==> r.1[j] == orders[j]
  {
    FindOrderFirst(orders, orderId, i);
    RemoveIndexSpec(orders[i].data.items, idx);
  }

  /** `find` returns the first order with the id. */
  lemma {:induction false} FindOrderFirst(orders: seq<OrderDoc>, id: DocStore.Id, i: nat)
    requires i < |orders| && orders[i].id == id
    requires forall j :: 0 <= j < i ==> orders[j].id != id
    ensures FindOrder(orders, id) == Some(orders[i].data)
  {
    if i > 0 {
      FindOrderFirst(orders[1..], id, i - 1);
    }
  }

  /** The line being edited in the dialog. */
  datatype Editing = Editing(orderId: DocStore.Id, itemIndex: int)

  /** Sets the quantity of line `k`. */
  function SetLineQuantity(items: seq<OrderItem>, k: int, q: int): (r: seq<OrderItem>)
    ensures |r| == |items|
    ensures forall j :: 0 <= j < |items| && j != k ==> r[j] == items[j]
    ensures 0 <= k < |items| ==> r[k] == items[k].(quantity := q)
  {
    Map(Enumerate(items), (p: (nat, OrderItem)) => if p.0 == k then p.1.(quantity := q) else p.1)
  }

  /** Each element paired with its position. */
  function Enumerate<T>(s: seq<T>): (r: seq<(nat, T)>)
    ensures |r| == |s|
    ensures forall i :: 0 <= i < |s| ==> r[i] == (i, s[i])
  {
    seq(|s|, i requires 0 <= i < |s| => (i, s[i]))
  }

  /** The quantity field's `onChange` with the typed number `q`. */
  function EditQuantity(orders: seq<OrderDoc>, e: Editing, q: int): (r: seq<OrderDoc>)
    ensures |r| == |orders|
    ensures forall i :: 0 <= i < |orders| ==> r[i].id == orders[i].id
    ensures forall i :: 0 <= i < |orders| && orders[i].id != e.orderId ==> r[i] == orders[i]
  {
    Map(orders, (o: OrderDoc) =>
      if o.id == e.orderId then o.(data := o.data.(items := SetLineQuantity(o.data.items, e.itemIndex, q))) else o)
  }

  /** Only the `quantity` of line `itemIndex` of the edited order changes:
      every other field, every other line, and every other order stay. */
  lemma EditQuantitySpec(orders: seq<OrderDoc>, e: Editing, q: int, i: nat)
    requires i < |orders| && orders[i].id == e.orderId
    ensures var o, o' := orders[i].data, EditQuantity(orders, e, q)[i].data;
            o'.branch == o.branch && o'.orderDate == o.orderDate && o'.status == o.status &&
            o'.requestNote == o.requestNote && |o'.items| == |o.items| &&
            (forall j :: 0 <= j < |o.items| && j != e.itemIndex ==> o'.items[j] == o.items[j]) &&
            (0 <= e.itemIndex < |o.items| ==>
               o'.items[e.itemIndex].quantity == q &&
               o'.items[e.itemIndex] == o.items[e.itemIndex].(quantity := q))
  {
  }

  /** Every order field but the id, with the given items, as
      `{ ...orderDataWithoutId, items }` spreads it; a missing note is not
      written. */
  function FullPatch(o: Order, items: seq<OrderItem>): OrderPatch
  {
    OrderPatch(Some(items), Some(o.branch), Some(o.orderDate), Some(o.status),
               if o.requestNote.Some? then Some(o.requestNote) else None)
  }

  /** `handleSaveEdit`: with no line being edited, or an unknown order, it
      does nothing; otherwise it writes the whole order with its items as
      currently shown (the edited line mapped to a copy of itself), leaves
      the shown list as it was and, on success, closes the dialog. Returns
      the write, the list and whether the dialog is open. */
  function SaveEdit(orders: seq<OrderDoc>, editing: Option<Editing>, dialogOpen: bool, ok: bool)
    : (r: (Option<Write>, seq<OrderDoc>, bool))
    ensures editing.None? ==> r == (None, orders, dialogOpen)
    ensures editing.Some? && FindOrder(orders, editing.value.orderId).None? ==> r == (None, orders, dialogOpen)
    ensures |r.1| == |orders|
    ensures forall i :: 0 <= i < |orders| && (editing.None? || orders[i].id != editing.value.orderId) ==>
              r.1[i] == orders[i]
    ensures r.0.Some? ==> (editing.Some? && r.0.value.id == editing.value.orderId &&
              ApplyOrderPatch(FindOrder(orders, editing.value.orderId).value, r.0.value.patch)
                == FindOrder(orders, editing.value.orderId).value)
    ensures r.0.Some? && ok ==> !r.2
    ensures !ok ==> r.2 == dialogOpen
  {
    match editing
    case None => (None, orders, dialogOpen)
    case Some(e) =>
      match FindOrder(orders, e.orderId)
      case None => (None, orders, dialogOpen)
      case Some(order) =>
        var updated := Map(Enumerate(order.items),
                           (p: (nat, OrderItem)) => if p.0 == e.itemIndex then p.1.(quantity := p.1.quantity) else p.1);
        assert updated == order.items;
        (Some(Write(e.orderId, FullPatch(order, updated))),
         if ok then SetItems(orders, e.orderId, updated) else orders,
         if ok then false else dialogOpen)
  }

  predicate DistinctOrderIds(orders: seq<OrderDoc>)
  {
    forall i, j :: 0 <= i < j < |orders| ==> orders[i].id != orders[j].id
  }

  /** With distinct ids, saving leaves the shown list as it is by value: the
      edit already lives in the list, and the save only persists it. */
  lemma SaveEditKeepsList(orders: seq<OrderDoc>, editing: Option<Editing>, dialogOpen: bool, ok: bool)
    requires DistinctOrderIds(orders)
    ensures SaveEdit(orders, editing, dialogOpen, ok).1 == orders
  {
    var r := SaveEdit(orders, editing, dialogOpen, ok);
    if editing.Some? && FindOrder(orders, editing.value.orderId).Some? {
      forall i | 0 <= i < |orders| && orders[i].id == editing.value.orderId
        ensures r.1[i] == orders[i]
      {
        var m :| 0 <= m < |orders| && orders[m].id == editing.value.orderId &&
                 orders[m].data == FindOrder(orders, editing.value.orderId).value;
        assert m == i;
      }
    }
  }

  /** The write of a save patches every field but the id. */
  lemma SaveEditWritesAll(orders: seq<OrderDoc>, e: Editing, dialogOpen: bool, ok: bool)
    requires FindOrder(orders, e.orderId).Some?
    ensures var w := SaveEdit(orders, Some(e), dialogOpen, ok).0;
            w.Some? && w.value.patch.items == Some(FindOrder(orders, e.orderId).value.items) &&
            w.value.patch.branch.Some? && w.value.patch.orderDate.Some? && w.value.patch.status.Some?
  {
  }

  /** The request-note field's `onChange` on the order at position `pos`. */
  function EditNote(orders: seq<OrderDoc>, pos: int, note: string): (r: seq<OrderDoc>)
    ensures |r| == |orders|
    ensures forall i :: 0 <= i < |orders| && i != pos ==> r[i] == orders[i]
    ensures 0 <= pos < |orders| ==> r[pos] == orders[pos].(data := orders[pos].data.(requestNote := Some(note)))
  {
    Map(Enumerate(orders), (p: (nat, OrderDoc)) =>
      if p.0 == pos then p.1.(data := p.1.data.(requestNote := Some(note))) else p.1)
  }

  /** The note's save button: writes only `requestNote` of that order. */
  function SaveNote(order: OrderDoc): (w: Write)
    ensures w.id == order.id
    ensures forall o: Order :: ApplyOrderPatch(o, w.patch) == o.(requestNote := order.data.requestNote)
  {
    Write(order.id, EmptyOrderPatch.(requestNote := Some(order.data.requestNote)))
  }

  /** A note edited then saved reaches the store: patching the stored order
      with the write gives the stored order with the new note, and nothing
      else. */
  lemma EditThenSaveNote(orders: seq<OrderDoc>, pos: nat, note: string, stored: Order)
    requires pos < |orders|
    ensures var w := SaveNote(EditNote(orders, pos, note)[pos]);
            w.id == orders[pos].id && ApplyOrderPatch(stored, w.patch) == stored.(requestNote := Some(note))
  {
  }

  /** `isToday`: a day is selected and it is today's (`isSameDay` is modelled
      as equality of calendar-day keys). Edit and delete are enabled only
      then. */
  function EditEnabled(selectedDay: Option<string>, today: string): (r: bool)
    ensures r <==> selectedDay == Some(today)
  {
    match selectedDay
    case Some(d) => d == today
    case None => false
  }
}
