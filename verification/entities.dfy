/** The records kept in the four collections (`category`, `item`, `order`,
    `user`), without their document id, and the partial-field patches the
    services apply to them. Quantities and amounts are integers. */
module Entities {
  import opened Common

  datatype Category = Category(name: string)

  /** A catalogue item. `index` is its position in the admin list (dense
      1..n by intent), or `None` for an item stored without one; `amount`
      is the stepper increment, or `None` for `null`. */
  datatype Item = Item(index: Option<int>, name: string, imgUrl: string, category: string,
                       unit: string, amount: Option<int>)

  datatype OrderItem = OrderItem(name: string, category: string, unit: string, quantity: int)

  datatype OrderStatus = Pending | Confirmed | Cancelled | Completed

  /** An order. `requestNote` is written by the branch order list although the
      declared order type lacks it, so it is optional. */
  datatype Order = Order(items: seq<OrderItem>, branch: string, orderDate: string,
                         status: OrderStatus, requestNote: Option<string>)

  datatype User = User(userId: string, password: string, role: string, name: string,
                       phone: string, branch: string, createdAt: string, updatedAt: string)

  const AdminRole: string := "admin"
  const UserRole: string := "user"
  const GuestRole: string := "guest"

  /** `Partial<Omit<Item, 'id'>>`: the fields present in an update. */
  datatype ItemPatch = ItemPatch(index: Option<int>, name: Option<string>, imgUrl: Option<string>,
                                 category: Option<string>, unit: Option<string>,
                                 amount: Option<Option<int>>)

  function ApplyItemPatch(it: Item, p: ItemPatch): (r: Item)
    ensures p.index.Some? ==> r.index == Some(p.index.value)
    ensures p.index.None? ==> r.index == it.index
    ensures p.name.Some? ==> r.name == p.name.value
    ensures p.name.None? ==> r.name == it.name
    ensures p.imgUrl.Some? ==> r.imgUrl == p.imgUrl.value
    ensures p.imgUrl.None? ==> r.imgUrl == it.imgUrl
    ensures p.category.Some? ==> r.category == p.category.value
    ensures p.category.None? ==> r.category == it.category
    ensures p.unit.Some? ==> r.unit == p.unit.value
    ensures p.unit.None? ==> r.unit == it.unit
    ensures p.amount.Some? ==> r.amount == p.amount.value
    ensures p.amount.None? ==> r.amount == it.amount
  {
    Item(if p.index.Some? then Some(p.index.value) else it.index, p.name.GetOr(it.name), p.imgUrl.GetOr(it.imgUrl),
         p.category.GetOr(it.category), p.unit.GetOr(it.unit), p.amount.GetOr(it.amount))
  }

  const EmptyItemPatch: ItemPatch := ItemPatch(None, None, None, None, None, None)

  /** An empty patch changes nothing, and applying a patch twice is the same
      as applying it once. */
  lemma ItemPatchLaws(it: Item, p: ItemPatch)
    ensures ApplyItemPatch(it, EmptyItemPatch) == it
    ensures ApplyItemPatch(ApplyItemPatch(it, p), p) == ApplyItemPatch(it, p)
  {
  }

  /** `Partial<User>` as the user service and the auth store accept it. */
  datatype UserPatch = UserPatch(userId: Option<string>, password: Option<string>, role: Option<string>,
                                 name: Option<string>, phone: Option<string>, branch: Option<string>,
                                 createdAt: Option<string>, updatedAt: Option<string>)

  const EmptyUserPatch: UserPatch := UserPatch(None, None, None, None, None, None, None, None)

  function ApplyUserPatch(u: User, p: UserPatch): (r: User)
    ensures p.userId.Some? ==> r.userId == p.userId.value
    ensures p.userId.None? ==> r.userId == u.userId
    ensures p.password.Some? ==> r.password == p.password.value
    ensures p.password.None? ==> r.password == u.password
    ensures p.role.Some? ==> r.role == p.role.value
    ensures p.role.None? ==> r.role == u.role
    ensures p.name.Some? ==> r.name == p.name.value
    ensures p.name.None? ==> r.name == u.name
    ensures p.phone.Some? ==> r.phone == p.phone.value
    ensures p.phone.None? ==> r.phone == u.phone
    ensures p.branch.Some? ==> r.branch == p.branch.value
    ensures p.branch.None? ==> r.branch == u.branch
    ensures p.createdAt.Some? ==> r.createdAt == p.createdAt.value
    ensures p.createdAt.None? ==> r.createdAt == u.createdAt
    ensures p.updatedAt.Some? ==> r.updatedAt == p.updatedAt.value
    ensures p.updatedAt.None? ==> r.updatedAt == u.updatedAt
  {
    User(p.userId.GetOr(u.userId), p.password.GetOr(u.password), p.role.GetOr(u.role),
         p.name.GetOr(u.name), p.phone.GetOr(u.phone), p.branch.GetOr(u.branch),
         p.createdAt.GetOr(u.createdAt), p.updatedAt.GetOr(u.updatedAt))
  }

  lemma UserPatchLaws(u: User, p: UserPatch)
    ensures ApplyUserPatch(u, EmptyUserPatch) == u
    ensures ApplyUserPatch(ApplyUserPatch(u, p), p) == ApplyUserPatch(u, p)
  {
  }

  /** `Partial<Order>` as the branch order list writes it. */
  datatype OrderPatch = OrderPatch(items: Option<seq<OrderItem>>, branch: Option<string>,
                                   orderDate: Option<string>, status: Option<OrderStatus>,
                                   requestNote: Option<Option<string>>)

  const EmptyOrderPatch: OrderPatch := OrderPatch(None, None, None, None, None)

  function ApplyOrderPatch(o: Order, p: OrderPatch): (r: Order)
    ensures p.items.Some? ==> r.items == p.items.value
    ensures p.items.None? ==> r.items == o.items
    ensures p.branch.Some? ==> r.branch == p.branch.value
    ensures p.branch.None? ==> r.branch == o.branch
    ensures p.orderDate.Some? ==> r.orderDate == p.orderDate.value
    ensures p.orderDate.None? ==> r.orderDate == o.orderDate
    ensures p.status.Some? ==> r.status == p.status.value
    ensures p.status.None? ==> r.status == o.status
    ensures p.requestNote.Some? ==> r.requestNote == p.requestNote.value
    ensures p.requestNote.None? ==> r.requestNote == o.requestNote
  {
    Order(p.items.GetOr(o.items), p.branch.GetOr(o.branch), p.orderDate.GetOr(o.orderDate),
          p.status.GetOr(o.status), p.requestNote.GetOr(o.requestNote))
  }

  lemma OrderPatchLaws(o: Order, p: OrderPatch)
    ensures ApplyOrderPatch(o, EmptyOrderPatch) == o
    ensures ApplyOrderPatch(ApplyOrderPatch(o, p), p) == ApplyOrderPatch(o, p)
  {
  }
}
