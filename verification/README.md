# Ordering system: a Dafny model of its core logic

The ordering system is a Next.js web application for a chain of branches.
Branches order catalogue items; the head office (the admin) approves
accounts, maintains the catalogue and reviews orders. The data lives in a
hosted document store.

This project models the parts of the application that are sequential,
self-contained logic. The store is replaced by an abstract in-memory
collection: a map from ids to records, with fresh ids on create, partial
update, delete and equality filter (module `DocStore`). Every service and
page handler becomes a pure function over immutable values:

- **`Entities`**: the records and their partial-update overlays.
- **`DocStore`**: the store itself.
- **Services:**
  - `UserService`: register, login and role upgrade.
  - `Catalog`: categories and items, including the cascade delete.
  - `OrderService`: orders, paging and available dates.
  - `Uploads`: the pure part of an image upload.
  - `ImageRoute`: the image route's path resolution and MIME choice.
- **Client logic:**
  - `Session`: the auth store and the role gates of the layouts and home page.
  - `OrderReport`: the admin order report.
  - `QuickOrder`: the branch cart and stepper.
  - `OrderList`: the branch order-line edits.
  - `UserAdmin`: the admin user list.
  - `ItemAdmin`: the admin item list.
  - `BranchPager`: the per-branch order pager.
  - `Validators`: the registration form checks.
  - `MyPage`: the profile form.
- **JavaScript semantics:**
  - `JsText`: `slice` with negative indexes, `split`/`join`, `padStart`, `trim`, `replace`.
  - `DateText`: `formatDate` and the two timestamp formats.
  - `Sorting`: a stable sort under an abstract comparator.
  - `Paging`: pages of five.
  - `Common`: `Option`, `Result`, `filter`, `Array.from(new Set(..))`.

Quantities and amounts are integers. The rest of the environment becomes
parameters:

- **The clock** is a `Clock` value with the local calendar fields.
- **Date parsing** (`new Date(orderDate)`) becomes two partial functions: a timestamp `ts` and a day key `dayKey`, each `None` where the date does not parse.
- **`localeCompare`** is an abstract comparator `lc`.
- **File existence** is a predicate `exists_`.
- **Whether a store write or HTTP request succeeds** is a boolean `ok`.

## Model

| member | source | states |
|---|---|---|
| DocStore.Create | src/services/FirebaseService.ts:52-63 | The record is stored as given under an id not used before; every other record is unchanged. |
| DocStore.Update | src/services/FirebaseService.ts:80-91 | An unknown id is an error. Otherwise only that record changes, to the updater applied to it; the key set is kept. |
| DocStore.Delete | src/services/FirebaseService.ts:93-101 | Exactly that id is removed; the other records are untouched. |
| DocStore.List | src/services/FirebaseService.ts:103-111 | The listing holds every stored record with its id, once each, in ascending id order, and nothing else. |
| DocStore.FindBy | src/services/FirebaseService.ts:113-125 | Exactly the records satisfying the equality filter, each with its id, in ascending id order. |
| DocStore.FindOneBy | src/services/FirebaseService.ts:127-136 | The first matching record (lowest id); none exactly when no record matches. |
| DocStore.FilterDocsAscending | src/services/FirebaseService.ts:113-120 | Filtering an id-ascending listing keeps it id-ascending. |
| Entities.ApplyItemPatch | src/services/ItemService.ts:45-50 | Each field present in the patch takes the patch's value; each absent field keeps the item's. |
| Entities.ItemPatchLaws | src/services/ItemService.ts:45-50 | The empty patch is the identity, and applying a patch twice is the same as applying it once. |
| Entities.ApplyUserPatch | src/services/UserService.ts:35-41 | Present fields are overwritten and absent fields keep their values, for all eight user fields. |
| Entities.UserPatchLaws | src/stores/authStore.ts:32-41 | The empty overlay changes nothing; an overlay is idempotent. |
| Entities.ApplyOrderPatch | src/app/branch/order-list/page.tsx:90 | Present order fields are overwritten and absent ones are kept. |
| Entities.OrderPatchLaws | src/app/branch/order-list/page.tsx:121-124 | The empty order patch is the identity; an order patch is idempotent. |
| UserService.Register | src/services/UserService.ts:80-100 | One new record under a fresh id, with the request's userId, password, name, phone and branch, role `guest` and `createdAt == updatedAt`. Nothing else changes, and there is no uniqueness check. |
| UserService.Login | src/services/UserService.ts:66-73 | A returned user is a stored one with that userId and that password. |
| UserService.LoginSpec | src/services/UserService.ts:66-73 | Login succeeds exactly when the first stored user with the userId (the lowest id) has the submitted password. |
| UserService.DuplicateUserIdShadowed | src/services/UserService.ts:66-73 | Registration allows several users with one userId. Of those, only the one listed first can log in: a successful login returns it, and every other holder whose password differs from it is refused. |
| UserService.UpgradeRoleToUser | src/services/UserService.ts:48-50 | An unknown id is an error. Otherwise that user's role becomes `user` and every other field and record is unchanged. |
| UserService.UpdateUser | src/services/UserService.ts:35-41 | An unknown id is an error. Otherwise that user is overlaid with the patch and the others are unchanged. |
| UserService.UpgradeIsRolePatch | src/services/UserService.ts:48-50 | The upgrade is the update with the one-field patch `{role: 'user'}`. |
| UserService.DeleteUserById | src/services/UserService.ts:25-27 | Exactly that record is removed. |
| UserService.RegisteredStampDisplay | src/services/UserService.ts:84-88 | A registration stamp has no seconds, so `formatDate` shows it as 17 characters ending in ':'. |
| DateText.FormatDate | src/utils/formatDate.ts:1-9 | The output is 5 characters longer than the input, with the input cut to at most 14 characters. |
| DateText.FormatDateFields | src/utils/formatDate.ts:2-8 | With at least 12 characters, each output field is the matching fixed-position slice of the input. |
| DateText.FormatDateRoundTrip | src/utils/formatDate.ts:2-8 | A 14-character input comes out with '-' at 4 and 7, ' ' at 10 and ':' at 13 and 16. Removing those separators gives the input back. |
| DateText.UnformatRoundTrip | src/utils/formatDate.ts:2-8 | Conversely, any 19-character text with the separators in place is `formatDate` of its 14 field characters. |
| DateText.FormatDateNoSeconds | src/utils/formatDate.ts:7-8 | A 12-character input gives 17 characters ending in ':'. They agree with the formatting of the input extended by "00" up to that colon. |
| DateText.RegisterStampSpec | src/services/UserService.ts:84-88 | For a four-digit year the stamp is 12 digits. Its fields read back as year, month + 1, day, hour and minute, each padded to two digits. |
| DateText.UploadStampShape | src/services/ImageUploadService.ts:37 | For a year below 10000 the upload stamp has the shape `yyyyMMdd_HHmmss`: 15 characters, digits everywhere except '_' at position 8. |
| Uploads.ExtensionSpec | src/services/ImageUploadService.ts:36 | The extension is the text after the last '.', or the whole name when it has no '.'. |
| Uploads.UploadFileName | src/services/ImageUploadService.ts:38 | The file name is the item name, unit, stamp and extension joined by '_', '_' and '.'; its length is theirs plus 3. |
| Uploads.StoredNameExtension | src/services/ImageUploadService.ts:36-38 | The stored name ends in '.' and the original's extension, and taking its extension again gives the same extension. |
| Uploads.PublicPath | src/services/ImageUploadService.ts:42 | The returned path starts with "/uploads/" and has the category and file name after it. |
| Uploads.PublicPathSegments | src/services/ImageUploadService.ts:42 | When neither the category nor the file name contains '/', the path splits into exactly `["", "uploads", category, fileName]`. |
| Uploads.ReadQueryOfPublicPath | src/app/branch/quick-order/item-list.tsx:23 | Stripping the first "/uploads/" from an upload path leaves `category/fileName`, the query the image route receives. |
| ImageRoute.Placeholder | src/app/api/images/route.ts:12-17 | The placeholder path is the working directory followed by three segments. |
| ImageRoute.QueryParts | src/app/api/images/route.ts:7 | A missing `path` parameter gives no segments; a present one gives at least one. |
| ImageRoute.UsesPlaceholder | src/app/api/images/route.ts:10 | The placeholder is chosen exactly when the parameter is absent or empty, or starts with '/' (its first segment is empty). |
| ImageRoute.SplitFirst | src/app/api/images/route.ts:7-10 | The first segment of a split is the text before the first separator. |
| ImageRoute.PlainSegments | src/app/api/images/route.ts:19 | The segments normalisation keeps are plain ones drawn from the input, and all of them when all are plain. |
| ImageRoute.NormalizeAppend | src/app/api/images/route.ts:19 | Normalising a concatenation equals normalising the second part starting from the normalisation of the first. |
| ImageRoute.NormalizeNoParent | src/app/api/images/route.ts:19 | Without ".." segments, normalisation only appends the plain segments to the base. |
| ImageRoute.ResolveUnderUploads | src/app/api/images/route.ts:19 | A query without ".." is read from `<cwd>/uploads` followed by its plain segments. |
| ImageRoute.ResolveEscapes | src/app/api/images/route.ts:7-19 | As written, `path=../f` resolves to `<cwd>/f`, outside the uploads directory. |
| ImageRoute.ResolveFixed | src/app/api/images/route.ts:7-19 | Corrected resolution: a query with a ".." segment is refused. Any other query resolves as the route does. |
| ImageRoute.ResolveFixedConfined | src/app/api/images/route.ts:7-19 | With the corrected resolution, every file read is the placeholder or lies under `<cwd>/uploads`. |
| ImageRoute.LastIndex | src/app/api/images/route.ts:24 | The last position of a character, or none exactly when it does not occur. |
| ImageRoute.ExtName | src/app/api/images/route.ts:24 | `path.extname` is empty, or a '.' followed by text without '.'. |
| ImageRoute.Mime | src/app/api/images/route.ts:25-30 | The type is `image/jpeg` exactly for "jpg" and "jpeg", `image/svg+xml` exactly for "svg", and `application/octet-stream` for everything else. |
| ImageRoute.FileTypeOfName | src/app/api/images/route.ts:24 | A file `stem.ext` (stem not starting with '.', ext without '.') has file type `ext`. |
| ImageRoute.MimeOfPng | src/app/api/images/route.ts:24-30 | A PNG file is sent as `application/octet-stream`. |
| ImageRoute.MimeOfUpperCaseJpg | src/app/api/images/route.ts:24-30 | An upper-case ".JPG" file is sent as `application/octet-stream`: the comparison is case-sensitive. |
| ImageRoute.MimeOfJpeg | src/app/api/images/route.ts:24-30 | A ".jpg" file is sent as `image/jpeg`. |
| ImageRoute.PlaceholderIsSvg | src/app/api/images/route.ts:12-30 | The placeholder is sent as `image/svg+xml`. |
| ImageRoute.FileTypeOfDotFile | src/app/api/images/route.ts:24 | A name whose only '.' is its first character has no file type. |
| ImageRoute.FileTypeOfBashrc | src/app/api/images/route.ts:24 | ".bashrc" has no file type. |
| ImageRoute.FileTypeOfTarGz | src/app/api/images/route.ts:24 | Only the last extension counts: "a.tar.gz" has type "gz". |
| ImageRoute.Serve | src/app/api/images/route.ts:22-39 | A missing file gives 404. Otherwise the response is the resolved file, with the MIME type of its extension. |
| ImageRoute.UploadedPictureLookup | src/app/api/images/route.ts:19 | A picture the upload service stored is looked for under `<cwd>/uploads/category/fileName`, not under `public/uploads`. |
| Catalog.GetItemsByCategory | src/services/ItemService.ts:10-13 | Exactly the stored items whose category equals the name, each with its id. |
| Catalog.AddItem | src/services/ItemService.ts:24-27 | One record is inserted under a fresh id and the others are unchanged. |
| Catalog.DeleteItem | src/services/ItemService.ts:35-37 | Only the given id is removed. |
| Catalog.UpdateItem | src/services/ItemService.ts:45-50 | An unknown id is an error. Otherwise only the supplied fields of that item change. |
| Catalog.AddDeleteListing | src/services/ItemService.ts:10-37 | A freshly added item is listed under its category; a deleted one is listed nowhere. |
| Catalog.UpdateItemLaws | src/services/ItemService.ts:45-50 | An update with no fields leaves the store as it was, and other items never change. |
| Catalog.IsCategoryExists | src/services/CategoryService.ts:14-17 | True exactly when some stored category has that name. |
| Catalog.AddCategory | src/services/CategoryService.ts:20-26 | A taken name throws and changes nothing. A new name adds exactly one category with that name, under a fresh id. |
| Catalog.AddCategoryKeepsUnique | src/services/CategoryService.ts:14-26 | If category names are pairwise distinct, they stay so after `addCategory`. |
| Catalog.DeletedIds | src/services/CategoryService.ts:43-45 | The ids of the first `n` items of the related list, and no others. |
| Catalog.DeleteOneMore | src/services/CategoryService.ts:43-45 | One more loop iteration removes exactly one more related id. |
| Catalog.DeletedAllRelated | src/services/CategoryService.ts:39-45 | Deleting every related item removes exactly the items of that category. |
| Catalog.DeleteListed | src/services/CategoryService.ts:43-45 | The loop deletes the listed items in order and stops at the first failing write. The items deleted before it stay deleted. |
| Catalog.DeleteCategoryById | src/services/CategoryService.ts:29-53 | An unknown id throws before anything is deleted. On success the category record is gone, no item of its name remains, and all other items and categories are unchanged. A failure part-way leaves the deletions already made. |
| Catalog.PartialCascade | src/services/CategoryService.ts:43-48 | A failure after some item deletions leaves the category in place with only some of its items gone; there is no rollback. |
| OrderService.CreateOrder | src/services/OrderService.ts:10-13 | The order is stored unchanged under a fresh id; no stored order changes. |
| OrderService.CreateOrderNoMerge | src/services/OrderService.ts:10-13 | The number of stored orders grows by exactly one: nothing is merged. |
| OrderService.GetOrdersByDate | src/services/OrderService.ts:21-23 | Exactly the orders whose `orderDate` is equal to the argument, character for character. |
| OrderService.UnparsedDateInconsistent | src/services/OrderService.ts:32-36 | One date that does not parse (`getTime()` is NaN, which the sort reads as 0) makes the comparator inconsistent: it is not a total preorder. |
| OrderService.NewestFirstTotalPreorder | src/services/OrderService.ts:32-36 | When every date parses, the comparator sorts exactly like a total preorder on timestamps, and the result is newest first. |
| OrderService.BranchOrdersSpec | src/services/OrderService.ts:31-36 | The sorted list holds exactly the branch's orders. When every date of the branch parses, they are newest first. |
| OrderService.GetOrdersByBranch | src/services/OrderService.ts:26-39 | A page numbered from 1 has at most 5 orders, all from the sorted branch list. |
| OrderService.GetOrdersByBranchSpec | src/services/OrderService.ts:31-38 | Every page holds only orders of that branch. When every date of the branch parses, they are newest first. |
| OrderService.GetOrdersByBranchPages | src/services/OrderService.ts:30-38 | Page `p >= 1` is elements `[(p-1)*5, p*5)` of the sorted list, clipped to its end. Pages `1..ceil(n/5)` concatenated give the whole list. |
| OrderService.DayKeys | src/services/OrderService.ts:46-49 | One day key per order, in order. The result is absent exactly when some date does not parse (`toISOString` throws). |
| OrderService.GetAvailableOrderDates | src/services/OrderService.ts:42-57 | An error exactly when a date is invalid. Otherwise the page of the distinct day keys, in order of first occurrence. |
| OrderService.AvailableDatesDistinct | src/services/OrderService.ts:44-56 | A page of dates lists no day twice and, numbered from 1, has at most five days. |
| OrderService.AvailableDateSource | src/services/OrderService.ts:43-49 | Every listed day is the day key of some stored order. |
| Paging.PageWindow | src/services/OrderService.ts:37-38 | Page `p >= 1` is the window `[(p-1)*5, p*5)` clipped to the list: at most five elements, and empty exactly past the end. |
| Paging.PageNonPositive | src/services/OrderService.ts:37-38 | Page 0 is empty. Page -1 is the five elements ending five before the end, because `slice` counts negative bounds from the end. |
| Paging.TotalPages | src/app/admin/orders/branch-orders/page.tsx:83 | `Math.ceil(n / 5)`: the least `t` with `5t >= n`. |
| Paging.PagesPrefix | src/services/OrderService.ts:37-38 | Pages `1..k` laid end to end are the first `min(5k, n)` elements. |
| Paging.PagesCover | src/services/OrderService.ts:37-38 | Pages `1..ceil(n/5)` give back the whole list, and none of them is empty. |
| Paging.PageWithin | src/services/OrderService.ts:55-56 | A page draws its elements from the list. |
| Paging.PageSorted | src/services/OrderService.ts:32-38 | A page of an ordered list is ordered. |
| Paging.PageDistinct | src/services/OrderService.ts:44-56 | A page of a list without repetitions has none. |
| BranchPager.Initial | src/app/admin/orders/branch-orders/page.tsx:79-87 | Before a branch is chosen, nothing is shown and the pager is on page 1 of 0. |
| BranchPager.BranchClick | src/app/admin/orders/branch-orders/page.tsx:79-87 | Choosing a branch shows its first 5 orders on page 1, sets the page count to `ceil(n/5)` and clears the opened order. |
| BranchPager.ChangePage | src/app/admin/orders/branch-orders/page.tsx:93-103 | Page `p` shows the branch's window for `p`; without a chosen branch nothing changes. |
| BranchPager.NextWalk | src/app/admin/orders/branch-orders/page.tsx:258-270 | With orders present, each "next" press moves one page until the last. Every page shown is non-empty and is the matching window. "next" is disabled exactly on the last page. |
| BranchPager.NextNeverDisabledWhenEmpty | src/app/admin/orders/branch-orders/page.tsx:267-270 | With zero orders the page count set at line 83 is 0, so "next" is never disabled, and `k` presses land on empty page `k + 1`. |
| BranchPager.NextFixedStaysInRange | src/app/admin/orders/branch-orders/page.tsx:267-270 | With "next" disabled from the last page on, presses never leave page 1 for an empty branch and never pass the last page otherwise. Each shown page is the matching window. |
| Sorting.SortBySpec | src/app/admin/users/page.tsx:16-24 | Under a total preorder the result is ordered and is a permutation of the input, and elements tied with one another keep their input order. |
| Sorting.SortByStable | src/app/admin/users/page.tsx:16-24 | Stability: a class of elements that are all mutually "not after" one another appears in the result in its input order. |
| Sorting.SortByAgree | src/services/OrderService.ts:32-36 | Two comparators that agree on the elements of a list sort it alike. |
| Common.DedupSpec | src/services/OrderService.ts:44-51 | `Array.from(new Set(s))` is distinct and holds exactly the elements of `s`, in order of first occurrence. |
| Session.Login | src/stores/authStore.ts:18-24 | `user = u` and `isLoggedIn = true`. |
| Session.Logout | src/stores/authStore.ts:25-31 | `user = null` and `isLoggedIn = false`. |
| Session.SetUser | src/stores/authStore.ts:32-41 | Without a user, nothing changes. With one, the fields are overlaid on it, its id is kept, and `isLoggedIn` is untouched. |
| Session.RunInvariant | src/stores/authStore.ts:15-41 | From the initial state (`null`, `null`), every reachable state has a user exactly when logged in. `isLoggedIn` stays `null` exactly until the first login or logout. |
| Session.KnownStaysKnown | src/stores/authStore.ts:15-41 | Once `isLoggedIn` is known it is never `null` again. |
| Session.RoleGate | src/app/branch/layout.tsx:18-32 | Unknown login: no redirect, no logout. Logged out: to the login page. Wrong role: logout, then the login page. Children render exactly when logged in with the role. |
| Session.GateSettles | src/app/admin/layout.tsx:17-31 | Rendering excludes any redirect. After the logout a gate asks for, the gate only redirects. |
| Session.Home | src/app/page.tsx:10-20 | Unknown login: nothing. Logged out: the login page. Role `user`: /branch. Role `admin`: /admin. Any other role: nothing. |
| Session.HomeAgreesWithGates | src/app/page.tsx:15-18 | Home sends a visitor to /branch (/admin) exactly when the branch (admin) gate renders for them. |
| OrderReport.AddItem | src/app/admin/orders/page.tsx:265-273 | One item adds its name to the report's keys and no other key. |
| OrderReport.FoldItemsAppend | src/app/admin/orders/page.tsx:264-275 | Folding a concatenation is folding the second part after the first. |
| OrderReport.AggregateIsFlatFold | src/app/admin/orders/page.tsx:259-278 | The nested loops are one fold over all items of all orders, in order. |
| OrderReport.FoldItemsAt | src/app/admin/orders/page.tsx:264-275 | A name has an entry exactly when some item carries it. Its quantity is the sum over those items, and its unit is that of the first such item. |
| OrderReport.FoldItemsSpec | src/app/admin/orders/page.tsx:264-275 | The per-name statement of `FoldItemsAt`, for every name at once. |
| OrderReport.NameOrderInReport | src/app/admin/orders/page.tsx:266-273 | Every name in first-occurrence order has an entry in the report. |
| OrderReport.FoldItemsTotal | src/app/admin/orders/page.tsx:259-278 | The sum of the report's quantities equals the sum of all item quantities. |
| OrderReport.AggregateItemsSpec | src/app/admin/orders/page.tsx:259-278 | Over the orders: the keys are exactly the names that occur, each quantity is the per-name sum, each unit is the first one seen, and the totals agree. |
| OrderReport.AggregateEmpty | src/app/admin/orders/page.tsx:259-278 | No orders, or orders without items, give an empty report. |
| OrderReport.BranchViewSpec | src/app/admin/orders/page.tsx:107-111 | The branch view is the aggregation of exactly the orders of that branch. |
| OrderReport.Displayed | src/app/admin/orders/page.tsx:107-111 | With a branch selected (neither null nor ""), the branch view is shown; otherwise the full report. |
| OrderReport.IsEmptyIgnoresBranch | src/app/admin/orders/page.tsx:101-105 | With a branch selected, `isEmpty` is false even when that branch has no orders. |
| OrderReport.IsEmptyCounterexample | src/app/admin/orders/page.tsx:101-105 | A concrete selection whose displayed report is empty while `isEmpty` is false. |
| OrderReport.IsEmptyFixed | src/app/admin/orders/page.tsx:101-105 | Corrected test: empty exactly when the displayed report has no keys. |
| OrderReport.IsEmptyFixedSpec | src/app/admin/orders/page.tsx:101-111 | The corrected test holds exactly when the displayed orders contain no items. |
| OrderReport.DistinctBranches | src/app/admin/orders/page.tsx:233-235 | The branch dialog lists each branch of the fetched orders exactly once, and nothing else. |
| QuickOrder.Decrement | src/app/branch/quick-order/item-list.tsx:47-55 | `max(0, q - step)` with step `amount ?? 1`: never negative, and either 0 or `q - step`. |
| QuickOrder.StepperLaws | src/app/branch/quick-order/item-list.tsx:47-70 | For `q >= 0` and a non-negative step, `+` then `-` restores `q`. `-` at 0 stays at 0 and is idempotent there. |
| QuickOrder.UpsertSpec | src/app/branch/quick-order/page.tsx:98-108 | An item already in the cart has its quantity replaced in place, not added to. A new one is appended at the end. Entries with other ids are unaffected. |
| QuickOrder.UpsertDistinct | src/app/branch/quick-order/page.tsx:98-108 | An upsert keeps cart ids pairwise distinct. |
| QuickOrder.UpsertAllDistinct | src/app/branch/quick-order/page.tsx:95-109 | The whole upsert loop keeps cart ids pairwise distinct. |
| QuickOrder.KeepPositiveLookup | src/app/branch/quick-order/page.tsx:111-113 | The final filter keeps ids distinct and keeps exactly the entries of positive quantity. |
| QuickOrder.SetQuantity | src/app/branch/quick-order/page.tsx:88-90 | Only the visible item with the id gets the new quantity; every other visible item is unchanged. |
| QuickOrder.UpdateItemQuantity | src/app/branch/quick-order/page.tsx:87-114 | The visible list is the one with the new quantity, and every cart entry has quantity > 0. |
| QuickOrder.UpdatePositive | src/app/branch/quick-order/page.tsx:95-113 | With distinct ids, a positive quantity for a visible item becomes its cart quantity, and cart ids stay distinct. |
| QuickOrder.UpdateZeroKeepsEntry | src/app/branch/quick-order/page.tsx:95-113 | Setting an item to 0 leaves its positive cart entry untouched. |
| QuickOrder.UpdateKeepsOthers | src/app/branch/quick-order/page.tsx:95-113 | When the visible items show the cart's quantities (as the effect at lines 69-84 leaves them) and every cart entry is positive, the update leaves the cart entry of every other id as it was. |
| QuickOrder.SyncVisible | src/app/branch/quick-order/page.tsx:69-84 | Without a selected known category the list is empty. Otherwise it is that category's items, each with its cart quantity or 0. |
| QuickOrder.DecrementToZeroCounterexample | src/app/branch/quick-order/page.tsx:95-113 | Pressing `-` on an item at quantity 1 keeps it in the cart at 1, and the re-sync shows 1 again. |
| QuickOrder.UpdateItemQuantityFixed | src/app/branch/quick-order/page.tsx:87-114 | Corrected update: the same visible list, and every cart entry positive. |
| QuickOrder.UpdateFixedSpec | src/app/branch/quick-order/page.tsx:87-114 | With the corrected update, the cart quantity of the item is the new quantity. The item is in the cart exactly when that is positive, and ids stay distinct. |
| QuickOrder.UpdateFixedKeepsOthers | src/app/branch/quick-order/page.tsx:87-114 | Under the same conditions the corrected update also leaves the cart entry of every other id as it was. |
| QuickOrder.UpdateFixedRoundTrip | src/app/branch/quick-order/page.tsx:69-114 | After the corrected update and the re-sync, the screen shows the quantity just set. |
| QuickOrder.CartTotalPositive | src/app/branch/quick-order/page.tsx:172-175 | With every entry positive, the displayed total is at least the number of entries, and 0 exactly for an empty cart. |
| QuickOrder.PlaceOrder | src/app/branch/quick-order/page.tsx:117-146 | The payload carries the cart, status `pending` and the user's branch. Success empties the cart and closes it; failure changes nothing. |
| OrderList.FindOrder | src/app/branch/order-list/page.tsx:83-84 | None exactly when no order has the id; otherwise an order with it. |
| OrderList.FindOrderFirst | src/app/branch/order-list/page.tsx:83-84 | `find` returns the first order with the id. |
| OrderList.RemoveIndex | src/app/branch/order-list/page.tsx:86-88 | One element shorter when the index is in range, otherwise the same length. |
| OrderList.RemoveIndexSpec | src/app/branch/order-list/page.tsx:86-88 | Exactly position `idx` is removed and the rest keep their order; an out-of-range index removes nothing. |
| OrderList.SetItems | src/app/branch/order-list/page.tsx:92-96 | Only the orders with the id get the new items; the rest are unchanged. |
| OrderList.DeleteLine | src/app/branch/order-list/page.tsx:81-102 | An unknown order changes nothing and writes nothing. Otherwise `{items}` without line `idx` is written and, on success, shown. |
| OrderList.DeleteLineSpec | src/app/branch/order-list/page.tsx:81-102 | After a delete the shown order equals the stored order patched by the write, and lost exactly line `idx`. Every other order is unchanged. |
| OrderList.EditQuantity | src/app/branch/order-list/page.tsx:372-399 | Orders other than the edited one are unchanged. |
| OrderList.EditQuantitySpec | src/app/branch/order-list/page.tsx:372-399 | Only the `quantity` of line `itemIndex` of the edited order changes. |
| OrderList.SaveEdit | src/app/branch/order-list/page.tsx:104-138 | Without an edited line, or with an unknown order, nothing is written or changed. A write goes to the edited order. Success closes the dialog; failure keeps it. |
| OrderList.SaveEditKeepsList | src/app/branch/order-list/page.tsx:113-131 | With distinct ids, saving leaves the shown list equal by value: the edited line is mapped to a copy of itself. |
| OrderList.SaveEditWritesAll | src/app/branch/order-list/page.tsx:118-124 | The write sets every order field except `id`, with the items as currently shown. |
| OrderList.EditNote | src/app/branch/order-list/page.tsx:264-277 | Only the order at the edited position gets the new `requestNote`. |
| OrderList.SaveNote | src/app/branch/order-list/page.tsx:291-300 | The save writes only `requestNote`, to that order's id. |
| OrderList.EditThenSaveNote | src/app/branch/order-list/page.tsx:264-300 | A note edited and then saved is the note the store holds afterwards. |
| OrderList.EditEnabled | src/app/branch/order-list/page.tsx:221-233 | Edit and delete are enabled exactly when the selected day is today (`isToday`, line 44). |
| UserAdmin.Rank | src/app/admin/users/page.tsx:18-21 | Group 0 exactly for admins, 1 exactly for guests, 2 otherwise. |
| UserAdmin.UserLeByRank | src/app/admin/users/page.tsx:16-24 | The comparator orders by group first, then by `localeCompare` of the branch. |
| UserAdmin.UserLeTotalPreorder | src/app/admin/users/page.tsx:16-24 | A consistent `localeCompare` makes the user comparator a total preorder. |
| UserAdmin.SortUsersSpec | src/app/admin/users/page.tsx:16-24 | The result is a permutation of the input. Admins come before non-admins, guests before the other non-admins, and each group is ordered by branch. Users of one group whose branches compare equal keep their fetched order. |
| UserAdmin.RoleLabel | src/app/admin/users/page.tsx:26-37 | admin, user and guest get their fixed labels. |
| UserAdmin.RoleLabelSpec | src/app/admin/users/page.tsx:26-37 | Any other role is shown as itself, and the three labels are pairwise different. |
| UserAdmin.Promote | src/app/admin/users/page.tsx:61-67 | Role `user` on the users with that id; every other user is unchanged. |
| UserAdmin.ApproveSpec | src/app/admin/users/page.tsx:59-71 | A failed store write leaves the list as it was. After a successful one the list is a permutation of the promoted one: the approved user has role `user`, and every other user is kept as it was. |
| UserAdmin.SelectedAfterApprove | src/app/admin/users/page.tsx:59-70 | After a successful write the open card shows role `user` if it is the approved user. Otherwise, or after a failed write, it is unchanged. |
| UserAdmin.RemoveSpec | src/app/admin/users/page.tsx:73-79 | A failed store write leaves the list as it was. After a successful one exactly the users with that id are gone, and all others are kept. |
| UserAdmin.ButtonsAfterApprove | src/app/admin/users/page.tsx:157-167 | Approving the guest on the card removes the approve button and keeps delete. An admin is offered neither. |
| ItemAdmin.MissingIndexInconsistent | src/app/admin/items/item-list.tsx:43 | An item without `index` (NaN, read as 0) makes `a.index - b.index` inconsistent: it is not a total preorder. |
| ItemAdmin.IndexLeTotalPreorder | src/app/admin/items/item-list.tsx:43 | When every item carries an index, `a.index - b.index` sorts exactly like a total preorder on indexes. |
| ItemAdmin.SortByIndexSpec | src/app/admin/items/item-list.tsx:43 | The displayed items are a permutation of the fetched ones. When every item carries an index, they are in ascending `index` order and items of equal index keep their fetched order. |
| ItemAdmin.NoIndexArrowsEnabled | src/app/admin/items/item-list.tsx:208-217 | An item without an index never has either arrow disabled. |
| ItemAdmin.DenseButtons | src/app/admin/items/item-list.tsx:208-217 | When the indexes are strictly increasing within `1..n`, they are exactly `1..n`. Up is then disabled only on the first row, and Down only on the last. |
| ItemAdmin.CheckNewItem | src/app/admin/items/item-list.tsx:53-64 | The first failing check is reported: name blank after trim, then unit blank, then amount missing. None when all pass. The form's `parseFloat` (line 296) gives NaN, never null, so the amount check cannot fire from the form. |
| ItemAdmin.ImgUrl | src/app/admin/items/item-list.tsx:67-86 | Without a file, or with an upload that returns nothing, the URL is ''. Otherwise it is the returned path. |
| ItemAdmin.AddItemRequest | src/app/admin/items/item-list.tsx:51-88 | Nothing is sent exactly when a check fails. Otherwise the form's fields are sent with the chosen picture URL. |
| ItemAdmin.ResetForm | src/app/admin/items/item-list.tsx:95-102 | After an add, the form proposes index `items.length + 1` (the list before the refetch), blank fields and amount 1. |
| JsText.ResolveIndex | src/services/OrderService.ts:37-38 | ECMAScript `slice` index resolution: a negative bound counts from the end, and everything is clipped to `[0, len]`. |
| JsText.Slice | src/services/OrderService.ts:37-38 | `slice(a, b)` is the run from the resolved start to the resolved end, or empty when they cross. |
| JsText.SliceNonNegative | src/services/OrderService.ts:37-38 | With `0 <= start <= end`, `slice` is the ordinary subsequence clipped to the length. |
| JsText.SplitJoin | src/services/ImageUploadService.ts:42 | Splitting the join of separator-free parts gives the parts back. |
| JsText.JoinSplit | src/app/api/images/route.ts:7 | Joining the pieces of a split gives the string back. |
| JsText.LastPieceSpec | src/services/ImageUploadService.ts:36 | `split(sep).pop()` is the text after the last separator, or the whole string without one. |
| JsText.NatToString | src/services/UserService.ts:84-88 | `String(n)` is non-empty decimal digits without a leading zero. |
| JsText.NatToStringRoundTrip | src/services/UserService.ts:84-88 | Reading the digits back gives `n`. |
| JsText.Pad2 | src/services/UserService.ts:84-88 | `String(n).padStart(2, '0')` for `n < 100` is two digits denoting `n`. |
| JsText.Pad4 | src/services/ImageUploadService.ts:37 | The four-digit year field is padded to 4 below 10000 and left as it is from 10000 on. |
| JsText.TrimEmptyIffBlank | src/app/admin/items/item-list.tsx:53-60 | `!s.trim()` holds exactly when every character is ECMAScript white space. |
| JsText.ReplaceFirstPrefix | src/app/branch/quick-order/item-list.tsx:23 | Replacing the leading occurrence of a pattern by "" strips it. |
| Validators.CheckUserId | src/app/auth/register/page.tsx:35 | The scan accepts exactly 6 to 12 lower-case ASCII letters or digits. |
| Validators.CheckPassword | src/app/auth/register/page.tsx:38-39 | The scan accepts exactly: 8 or more characters from letters, digits and `@$!%*?&`, with at least one letter, one digit and one special character. |
| Validators.CheckPhone | src/app/auth/register/page.tsx:42 | The scan accepts exactly "010-", 4 ASCII digits, "-", 4 ASCII digits. |
| Validators.PhoneShape | src/app/auth/register/page.tsx:42 | Valid phones are exactly `010-aaaa-bbbb` for two four-digit groups. |
| Validators.BranchShape | src/app/auth/register/page.tsx:45 | Valid branches are exactly "오일내" + m + "점" for a non-empty m without line terminators. |
| Validators.UserIdExamples | src/app/auth/register/page.tsx:35 | "abc12" fails and "abc123" passes; upper case and 13 characters fail. |
| Validators.PhoneExamples | src/app/auth/register/page.tsx:42 | "010-123-4567" fails and "010-1234-5678" passes. |
| Validators.PasswordExamples | src/app/auth/register/page.tsx:38-39 | "abcd123!" passes. |
| Validators.PasswordRejections | src/app/auth/register/page.tsx:38-39 | Letters only, or fewer than 8 characters, fail. |
| Validators.PasswordRejectsSpace | src/app/auth/register/page.tsx:38-39 | A space is not an allowed character. |
| Validators.BranchExamples | src/app/auth/register/page.tsx:45 | A middle is required between "오일내" and "점". |
| Validators.OnChange | src/app/auth/register/page.tsx:47-73 | A change handler keeps each validity flag equal to its rule applied to the current text. |
| Validators.SubmitEnabledIffValid | src/app/auth/register/page.tsx:111-112 | After any edits, submit (disabled at line 224 unless the form is valid) is enabled exactly when the userId, password, phone and branch rules all hold; the name is not checked. |
| MyPage.Cancel | src/app/branch/mypage/page.tsx:69-81 | The form shows the stored user's fields with both password fields empty, and editing ends. Without a user the form is kept. |
| MyPage.UpdateData | src/app/branch/mypage/page.tsx:113-119 | The payload has exactly userId, password, name, phone and updatedAt; never role, branch or createdAt. |
| MyPage.Submit | src/app/branch/mypage/page.tsx:83-140 | Rejected exactly when a check fails, and then nothing is sent. Without a user it fails. A save writes `updateData` to the user's id. |
| MyPage.SubmitGuards | src/app/branch/mypage/page.tsx:87-107 | A write is attempted only with a non-empty valid password typed identically twice, a valid userId and a valid phone. It never names branch or role. |
| MyPage.SavedSessionUser | src/app/branch/mypage/page.tsx:122-137 | After a save the session user has the new userId, name, phone and updatedAt, and keeps its old password, branch, role and createdAt. The store holds the new password. |

The mypage rules for userId, password and phone (src/app/branch/mypage/page.tsx:38-41) are the same regular expressions as the registration ones. The model uses one definition of each (`Validators.ValidUserId`, `ValidPassword` and `ValidPhone`) for both pages.

## Left out

- The document store's own machinery (converters, `query`/`where`/`orderBy`, range queries) is replaced by an abstract map with an id counter. Listings come in ascending id order, which the real store does not promise. Results that depend on listing order follow the model's order: the first match of `findOneByField` (and so which duplicate `login` finds), the order of the available order dates, and the order of tied records after the stable sorts.
- HTTP route handlers (status codes, JSON, FormData) are left out; the services they call are modelled directly. Note that `POST /api/items` (src/app/api/items/route.ts:49-54) drops `index` and `amount` before calling `addItem`.
- Order merge-on-create and item move-up/down are not modelled. `createOrder` inserts as is, and `moveItemUp` is called by a route but defined nowhere.
- The clock and date parsing are inputs:
  - `new Date()` is a `Clock` value.
  - `new Date(orderDate).getTime()` is a partial function `ts`, `None` for NaN.
  - The `toISOString().split('T')[0]` day key is a partial function `dayKey`.
  - The KST ISO timestamp of a new order is an opaque `orderDate` string.
  - Orders are written with ISO timestamps, while `formatDate` and the day queries expect `yyyyMMddHHmmss` text. The two formats are not reconciled here.
- `isSameDay` of the order list is modelled as equality of day strings.
- File-system work (`mkdirSync`, `writeFileSync`, `rmSync`, `unlinkSync`, `readFileSync`) is left out. Existence is a predicate. `deleteCategoryFolder` and `deleteImage` are not modelled. Reading a directory path (which throws) is not distinguished from reading a file.
- `getAllUsers`, `getAllCategories` and `createUser` are plain pass-throughs to the store's list/create and have no rows of their own.
- The persistence of the auth store in `localStorage` (src/stores/authStore.ts:43-56) is left out.
- URL encoding of the image query (`encodeURIComponent`, `URLSearchParams` decoding) is treated as the identity.
- Fractional `amount` from `parseFloat` is left out: quantities and amounts are integers. `Number()` of a non-numeric quantity (NaN) is not modelled; a typed quantity is an integer.
- Object keys in the order report are plain strings; names such as `__proto__` that behave specially on a JavaScript object are not distinguished. Integer-like names ("2", "10") are listed by `Object.entries` before the others in ascending numeric order; the model's first-occurrence order holds only for the other names.
- Each handler is one atomic step. Races between React state updates and store writes, and the in-place mutation of cart objects shared between the cart and the visible list, are left out.
- The stale prototype login page, the dummy data generated with `Math.random`, and the presentational pages and components are left out.
- The user record's `id` field is represented by the document id, so a `UserPatch` cannot carry one.
- Years are natural numbers.
- Strings are sequences of code points, while JavaScript's `slice`, `length` and `padStart` count UTF-16 code units. The two agree on the digit stamps, ASCII ids and file names the modelled code slices; text outside the Basic Multilingual Plane is not distinguished.
- UserService.DuplicateUserIdShadowed: which holder is listed first depends on the store's listing order. The model lists in ascending id with ids handed out in increasing order, so there it is the oldest; the real store picks random ids, so a newer duplicate may be listed first.
- OrderService.BranchOrdersSpec: the newest-first order is promised only when every date of the branch parses. With an unparsed date the comparator is inconsistent (`UnparsedDateInconsistent`), and the real sort's order is then up to the engine; the model's insertion sort is one such order.
- ItemAdmin.SortByIndexSpec: the ascending order is promised only when every item carries an index. Items added through `POST /api/items` have none, and then the comparator is inconsistent (`MissingIndexInconsistent`) and neither arrow of such an item is disabled.
- UserAdmin.RemoveSpec: the card closing (`setSelectedUser(null)`) after a successful delete is not modelled.
- A `requestNote` that is `undefined` is modelled as a missing field in a save; `FullPatch` omits it. Whether the store accepts an `undefined` field depends on its configuration, which is not part of this model.
- Catalog.DeleteCategoryById: a failure is named by the position of the failing write (`failAt`). Writes past that one are not attempted, and other failure patterns (a failing read) are not modelled.
- ItemAdmin.ResetForm: the proposed index is computed from the list as it was before the refetch, as in the source. No claim is made that it is fresh.
- BranchPager.NextFixedStaysInRange: proved for the corrected gate only; the pager's behaviour on page numbers typed outside the buttons is not modelled.

## Findings

| source | as written | input that shows it | evidently intended | confidence | as-written member | corrected member |
|---|---|---|---|---|---|---|
| src/app/branch/quick-order/page.tsx:95-113 | Items whose quantity reaches 0 are filtered out before the cart upsert, so the existing cart entry keeps its old quantity; the re-sync effect then shows that quantity again | An item at quantity 1 in the cart, `-` pressed once | Setting a quantity to 0 removes the item from the cart | not executed | QuickOrder.DecrementToZeroCounterexample | QuickOrder.UpdateFixedSpec |
| src/app/admin/orders/page.tsx:101-105 | With a branch selected, `isEmpty` compares `.length` of a plain object (undefined) to 0, which is always false | Orders only of branch "a", branch "b" selected | The empty state is shown when the displayed report has no entries | not executed | OrderReport.IsEmptyCounterexample | OrderReport.IsEmptyFixedSpec |
| src/app/api/images/route.ts:7-19 | The query's segments are joined under `<cwd>/uploads` and normalised, so ".." climbs out of the directory | `path=../secret.txt` | Only files under the uploads directory (or the placeholder) are served | not executed | ImageRoute.ResolveEscapes | ImageRoute.ResolveFixedConfined |
| src/app/admin/orders/branch-orders/page.tsx:83,269 | `totalPages` is 0 for a branch with no orders, so "next" (disabled only at `currentPage === totalPages`) is never disabled | Latent: needs a branch without orders, which the page's data (lines 57-74, 20 orders per branch) never produces; the pager is modelled over arbitrary order lists | "next" is disabled from the last page on, including for an empty branch | not executed; latent on the page as written | BranchPager.NextNeverDisabledWhenEmpty | BranchPager.NextFixedStaysInRange |

The upload service writes under `public/uploads` (src/services/ImageUploadService.ts:6), while the image route reads under `uploads` (src/app/api/images/route.ts:19). `ImageRoute.UploadedPictureLookup` states where the route looks for an uploaded picture; the two directories are not reconciled here.
