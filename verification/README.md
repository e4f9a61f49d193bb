# Canteen ordering core, modelled in Dafny

Canteen is a school canteen system. Students order from the stands, and each
stand's admin manages their menus and time-limited percentage discounts. This
project models the parts of it that decide something:

- **placing an order** (`createTransaksiSiswa`): validation, same-stand check,
  choice of the best active discount per line, unit prices, the grand total,
  and the atomic write of header and detail rows;
- **the discount handlers** of the stand admin: create, update, delete, link
  menus, relink and unlink a pivot row, the de-duplicated discount list of a
  stand, and the two listings with price after discount and status label;
- **reading a receipt** (`getNotaTransaksi`, JSON branch): ownership check,
  lines and total;
- **the student's checkout** (`pickStanId`, `checkoutCart`): the cart is split
  into one order per stand, sent in `Object.keys` order, stopping at the first
  refusal;
- **the student's menu page**: newest-first list, type tab, case-insensitive
  search, Reset;
- **the student's dashboard**: stands collected from the menu rows through a
  `Map`, sorted by id, one card per stand with a cyclic icon, and the
  newest-first menu list.

Modules:

- `Wrappers` (replies and status codes);
- `Seqs`: filter, sums, and a stable insertion sort with its correctness lemmas;
- `OrderedMaps`: a class for a JavaScript `Map` or plain object mutated in
  place, with insertion-ordered keys, plus the `Object.keys` order of
  integer-like keys from section 10.1.11.1 of ECMA-262;
- `Text`: `toLowerCase`, `trim`, `includes`;
- `Tables`: the rows and the `Db` class whose fields are the tables, with the
  schema invariant `Consistent`;
- one module per core source file: `DiscountRules` and `DiscountController`,
  `TransactionController`, `Receipt`, `Checkout`, `MenuPage`, `DashboardPage`.

Handlers that write are methods on `Db`. Each states its new snapshot and keeps
`Valid()`. Handlers that only read are functions of a `State` snapshot. Every
refusal (a `Fail` reply) leaves the database unchanged.

Where the specification and the code disagree, the model follows the code:

- Orders with a repeated menu id are rejected with 400. The count check counts
  distinct menus found, so duplicates are not merged by summing quantities.
- A discount is active when `tanggal_awal <= now <= tanggal_akhir`, with both
  ends included, not over a half-open window.

## Model

| member | source | states |
|---|---|---|
| Tables.FilterPivots | backend/src/controllers/diskonController.ts:321-327 | Deleting pivot rows keeps them ordered by id, free of repeated (menu, discount) pairs, below the id counter and pointing at kept discounts |
| DiscountRules.Classify | backend/src/controllers/diskonController.ts:648-651 | The label is `akan_datang` iff now is before the start, `expired` iff now is after the end (and not before the start), `aktif` iff the window holds now |
| DiscountRules.ClassifyWellFormed | backend/src/controllers/diskonController.ts:648-651 | For a stored discount, `expired` exactly when the end has passed, and `akan_datang` only before an ordered window |
| DiscountRules.PriceAfterDiscountBounds | backend/src/controllers/diskonController.ts:644-646 | For 0 ≤ persen ≤ 100 the price after discount lies between 0 and the original price; it is strictly lower for a positive discount of a positive price, and 0 at 100 % |
| DiscountRules.NumericSpec | backend/src/controllers/diskonController.ts:46-48 | An id is kept exactly when it was sent as a number; the list keeps its length iff every entry is a number |
| DiscountRules.NormaliseIdsSpec | backend/src/controllers/diskonController.ts:40-52 | An absent field gives [], a single value [n] (or [] for NaN), and an array exactly its numeric entries |
| DiscountRules.OwnedCountSpec | backend/src/controllers/diskonController.ts:85-97 | The ownership count check passes iff the ids are pairwise distinct and each is a menu of the caller's stand |
| DiscountRules.ApplyPatch | backend/src/controllers/diskonController.ts:209-248 | Each field sent replaces the stored value; each field not sent, and the id, are kept |
| DiscountRules.ApplyPatchSound | backend/src/controllers/diskonController.ts:209-265 | An accepted patch keeps the discount well formed (0 < persen ≤ 100, ordered window) and applying it again changes nothing |
| DiscountController.AppendNewPivots | backend/src/controllers/diskonController.ts:417-426 | Appending fresh rows for distinct, existing menus not yet linked keeps the pivot table consistent |
| DiscountController.WithDiskonConsistent | backend/src/controllers/diskonController.ts:100-118 | Storing a well-formed discount under the next id, linked to distinct existing menus, keeps the database consistent |
| DiscountController.TambahDiskon | backend/src/controllers/diskonController.ts:19-125 | 401 without sign-in, 403 without a stand, 400 for every other refusal, each with no change; on success 201, the new discount with the next id, and one pivot row per normalised menu id |
| DiscountController.UpdateDiskon | backend/src/controllers/diskonController.ts:163-270 | 400 for a NaN id, then 401, 403 without a stand, 404 for a missing discount, 403 unless linked to a menu of the caller's stand, 400 for a rejected or empty patch; success iff the patch is accepted, storing ApplyPatch and nothing else |
| DiscountController.DeleteDiskon | backend/src/controllers/diskonController.ts:277-330 | 400 for a NaN id, then 401, 403 without a stand, 404 for a missing discount, 403 unless linked to the caller's stand; on success it removes the discount and all its pivot rows, leaving no orphan |
| DiscountController.InsertRefusalSpec | backend/src/controllers/diskonController.ts:339-418 | A link request is refused iff a requirement fails: 401, then 403 without a stand, 400 for a falsy or non-numeric `id_diskon`, 404 exactly when a numeric one names no stored discount (once some menu id was sent), and 400 for every other failing check |
| DiscountController.InsertMenuDiskon | backend/src/controllers/diskonController.ts:339-432 | Refuses with the refusal code and no change; otherwise 201, the ids not yet linked, and exactly one new pivot row per id |
| DiscountController.ToInsertFacts | backend/src/controllers/diskonController.ts:400-426 | The ids inserted are the requested ones not yet linked (empty iff all are linked); afterwards the discount is linked to old ∪ requested menus and no pair is stored twice |
| DiscountController.LinkedAfterAppend | backend/src/controllers/diskonController.ts:409-426 | After appending rows for the ids not yet linked, the menus linked to the discount are the old ones plus every requested one |
| DiscountController.FindPivot | backend/src/controllers/diskonController.ts:458-470 | Finds the position of the row with the given id, or reports that no row has it |
| DiscountController.UpdateMenuDiskon | backend/src/controllers/diskonController.ts:439-557 | 400 for a NaN id, then 401, 403 without a stand, 404 for a missing row, 403 for another stand's row; then 404 exactly when the values sent parse but select no stored discount, else 400; success iff every check passes, rewriting that row only and keeping its id |
| DiscountController.RelinkKeepsPivots | backend/src/controllers/diskonController.ts:530-552 | Repointing a row to a pair held by no other row keeps the pivot table consistent |
| DiscountController.DeleteMenuDiskon | backend/src/controllers/diskonController.ts:564-607 | 400 unless the id is a positive integer, then 401, 404 for a missing row, 403 unless the row's menu belongs to the caller's stand; on success exactly the row with that id is removed |
| DiscountController.DiskonPairsLast | backend/src/controllers/diskonController.ts:151-154 | Whichever row sets a discount id last, the map holds the stored discount of that id |
| DiscountController.DiskonDedup | backend/src/controllers/diskonController.ts:150-157 | The de-duplicated list holds each linked discount exactly once, and nothing else |
| DiscountController.GetDiskonByStan | backend/src/controllers/diskonController.ts:134-157 | 401, 403, else the map loop's result is the stand's de-duplicated discount list |
| DiscountController.StanDiskonsSpec | backend/src/controllers/diskonController.ts:143-157 | The stand's list holds each discount linked to one of its menus, exactly once |
| DiscountController.ListingSpec | backend/src/controllers/diskonController.ts:624-660 | A listing is in strictly descending pivot id order and holds an entry for exactly the rows that pass the filter |
| DiscountController.MenuDiskonByStanSpec | backend/src/controllers/diskonController.ts:614-665 | 401, 403, else all of the stand's pivot rows by descending id, each with price after discount and status label |
| DiscountController.MenuDiskonSiswaSpec | backend/src/controllers/diskonController.ts:672-740 | 400 exactly for a bad `stan_id` or `jenis`; else the matching rows whose discount is active, by descending id, each labelled `aktif` and priced no higher than the menu |
| TransactionController.FoundCountSpec | backend/src/controllers/transaksiController.ts:41-58 | The "menu not found" check passes iff the menu ids are pairwise distinct and all exist |
| TransactionController.OrderRefusalSpec | backend/src/controllers/transaksiController.ts:20-68 | An order is refused iff a check fails: 401, 403, 400 for missing or empty items, unknown or repeated menus, or mixed stands; 500 when all menus exist but an id is not a number |
| TransactionController.OrderStanSpec | backend/src/controllers/transaksiController.ts:60-68 | Every ordered menu belongs to the order's stand |
| TransactionController.ActivePercentsSpec | backend/src/controllers/transaksiController.ts:78-82 | The candidate percentages are exactly those of the discounts linked to the menu whose window holds now |
| TransactionController.BestPercentSpec | backend/src/controllers/transaksiController.ts:83-88 | The chosen percentage is 0 with no candidate, else a candidate at least as large as every other |
| TransactionController.AppliedPercentSpec | backend/src/controllers/transaksiController.ts:78-88 | The applied percentage lies in [0, 100]; it is 0 iff no linked discount is active, and otherwise the largest active linked percentage |
| TransactionController.UnitPriceSpec | backend/src/controllers/transaksiController.ts:90-94 | The unit price lies between 0 and the menu price, is the menu price without discount, and falls as the percentage rises |
| TransactionController.LinePriceSpec | backend/src/controllers/transaksiController.ts:78-94 | The price paid is the menu price when no discount is active and never above the price under any active linked discount |
| TransactionController.GrandTotalSnoc | backend/src/controllers/transaksiController.ts:96-97 | Adding a line adds `harga_beli * qty` to the grand total |
| TransactionController.PriceItems | backend/src/controllers/transaksiController.ts:71-104 | The accumulator loop succeeds iff every id is a number; it then yields the priced lines and their sum |
| TransactionController.AfterOrderConsistent | backend/src/controllers/transaksiController.ts:107-125 | Storing a header under the next id with detail rows for existing menus keeps the database consistent |
| TransactionController.CreateTransaksiSiswa | backend/src/controllers/transaksiController.ts:16-132 | Refuses with the refusal code and no change; otherwise 201, a header with the next id, the items' stand, the student and status `belum_dikonfirm`, one detail row per item, and total = sum of subtotals |
| TransactionController.NewDetailsReference | backend/src/controllers/transaksiController.ts:117-122 | Every new detail row references an existing menu |
| Receipt.DetailsOfSpec | backend/src/controllers/detailtransaksiController.ts:27-36 | The rows shown are exactly the stored rows of that transaction, in stored order |
| Receipt.NotaLinesSpec | backend/src/controllers/detailtransaksiController.ts:43-50 | One line per row with its quantity, unit price and menu name, subtotal = qty × harga; total = sum of the rows' `qty * harga_beli`, 0 without rows |
| Receipt.GetNotaSpec | backend/src/controllers/detailtransaksiController.ts:9-52 | 401, 403, 404 unless the transaction exists and is the caller's; only the owning student sees it; PDF iff `pdf` is "true", with the same content either way |
| Receipt.PlacedFacts | backend/src/controllers/transaksiController.ts:107-125 | Storing a new header with its rows keeps the database consistent; the new transaction's rows are exactly those written |
| Receipt.ReceiptMatchesOrder | backend/src/controllers/detailtransaksiController.ts:43-50 | The receipt read right after an order shows its lines in order, and its total equals the order's grand total |
| Checkout.PickStanIdSpec | frontend/lib/order.ts:10-15 | The first non-nullish of the four fields decides; 0 or NaN there (or no field at all) means no stand; a stand id is never 0 |
| Checkout.SendOrderKeys | frontend/lib/order.ts:21-29 | The send order lists each stand of the cart exactly once |
| Checkout.GroupByStan | frontend/lib/order.ts:21-26 | The grouping loop stops at the first item without a stand; otherwise it leaves each stand's lines, in cart order |
| Checkout.SendGroups | frontend/lib/order.ts:29-47 | Requests go out in `Object.keys` order and stop at the first refusal; all are sent when none is refused |
| Checkout.CheckoutCart | frontend/lib/order.ts:17-50 | An empty cart or an item without a stand sends nothing; otherwise one request per stand until the first refusal |
| Checkout.LinesOfSpec | frontend/lib/order.ts:22-26 | A stand's group holds exactly the lines of the cart items of that stand |
| Checkout.SelectPushes | frontend/lib/order.ts:22-26 | What the loop pushes under a stand equals the independent definition of that stand's group |
| Checkout.CheckoutPartition | frontend/lib/order.ts:17-47 | Each request carries exactly its stand's items in cart order; the stands of the requests are pairwise different; every item's stand gets a request |
| Checkout.CheckoutAscending | frontend/lib/order.ts:29 | When every stand id is an array index, requests go out in strictly ascending stand order whatever the cart order |
| Checkout.CheckoutQty | frontend/lib/order.ts:21-35 | The quantities over all requests add up to the cart's total quantity |
| OrderedMaps.ObjectKeysPermutation | frontend/lib/order.ts:29 | `Object.keys` lists each created key exactly once |
| OrderedMaps.ObjectKeysAscending | frontend/lib/order.ts:29 | With only array-index keys, `Object.keys` is strictly ascending |
| MenuPage.LoadedMenusSpec | frontend/app/siswa/dashboard/menu/page.tsx:45-54 | The list holds exactly the rows received, each as often, in non-increasing id order; empty after a failure or when `data` is not an array |
| MenuPage.ByJenisSpec | frontend/app/siswa/dashboard/menu/page.tsx:67-70 | `"all"` keeps every row; otherwise exactly the rows of that type, in order |
| MenuPage.FilteredMember | frontend/app/siswa/dashboard/menu/page.tsx:64-82 | A row is shown iff it is in the list, has the tab's type (unless `"all"`), and with a non-empty query its lowercased name, description or stand name (missing = "") contains the query |
| MenuPage.FilteredOrder | frontend/app/siswa/dashboard/menu/page.tsx:64-82 | The rows shown are a subsequence of the list |
| MenuPage.BlankSearchShowsAll | frontend/app/siswa/dashboard/menu/page.tsx:73-74 | A blank query on the `"all"` tab shows the whole list |
| MenuPage.SearchNormalised | frontend/app/siswa/dashboard/menu/page.tsx:73 | Searching the lowercased or trimmed text shows the same rows |
| MenuPage.ResetShowsAll | frontend/app/siswa/dashboard/menu/page.tsx:177-183 | Reset clears both search fields and selects `"all"`, so the whole list is shown |
| DashboardPage.DedupStans | frontend/app/siswa/dashboard/page.tsx:110-120 | The `Map` loop yields the map's values in first-insertion order after the `set` calls of the rows with a stand id |
| DashboardPage.SetsKeys | frontend/app/siswa/dashboard/page.tsx:111-118 | The map has a key exactly for each stand id some row carries; rows without a stand or with id 0 are skipped |
| DashboardPage.SetsLastWins | frontend/app/siswa/dashboard/page.tsx:110-118 | For duplicate stand ids the last row's name and photo win |
| DashboardPage.UniqueStans | frontend/app/siswa/dashboard/page.tsx:110-120 | One entry per distinct stand id, none with id 0, each from the last row of its stand with `foto ?? null` |
| DashboardPage.SortedStansSpec | frontend/app/siswa/dashboard/page.tsx:108-122 | The stand list has strictly ascending ids, lists exactly the stands some row carries, and takes each from its last row |
| DashboardPage.LoadStans | frontend/app/siswa/dashboard/page.tsx:99-133 | A failed request keeps the previous list; otherwise the sorted de-duplicated stands |
| DashboardPage.StanCardsSpec | frontend/app/siswa/dashboard/page.tsx:138-143 | One card per stand in order; icons start at the first, repeat every 8 cards, and any 8 consecutive cards differ |
| DashboardPage.DashboardMenusSpec | frontend/app/siswa/dashboard/page.tsx:148-172 | On success the rows received in non-increasing id order (empty if `data` is not an array); on failure the previous list |

## Left out

- The ORM and SQL are replaced by in-memory tables; a `$transaction` is one method body. Rollback on an exception and SQL semantics are not modelled. Pivot rows are kept in id order, and a query without `orderBy` is taken to return that order.
- A `Number(..)` that gives NaN is modelled as `None`, and Prisma is taken to match no row for it. Fractional numbers are not modelled: ids and timestamps are integers.
- Quantities are not validated by `createTransaksiSiswa`. Zero and negative `qty` are accepted and priced as sent, so the total-related bounds carry no sign assumption on `qty`.
- An `items` element that is not an object makes the handler throw (500). The model covers only object items. A string `id_menu` that `Number` parses is covered, as the 500 path (`menus.find` misses it).
- The header's stand is the stand of the first item. The source takes the first menu returned by the query, which is the same stand once the same-stand check has passed.
- The two reads of the clock in `createTransaksiSiswa` (`now` for discounts, `tanggal` for the header) are parameters. So is `now` in the listings.
- JavaScript floating-point rounding is not modelled: prices and percentages are exact reals. Neither is `Intl` currency formatting, nor the parsing of `Date` strings (a date is an integer, or `None` when invalid).
- The PDF branch of `getNotaTransaksi` returns the same lines and total as the JSON branch; its layout and streaming are not modelled. The student and stand names in the JSON reply are not modelled either.
- Authentication, JWT decoding, password hashing, roles on routes, uploads (multer), request schemas (Joi), routers, and the CRUD controllers of users, students, stands and menus are not part of this model.
- Order status transitions are not modelled: no status-update handler is among the core files.
- `checkoutCart`: the HTTP request is the parameter `accepts`; the error message read from a refused response is not modelled. Stand ids are integers, so a fractional `id_stan` is not modelled.
- `GetMenuDiskonSiswa`: the `contains` filter on the menu name has no mode, so it is modelled as a case-sensitive substring test. Under a case-insensitive database collation the database would also match names that differ only in case.
- Case mapping in `Text.Lower` covers the letters A-Z only. `trim` removes the white-space characters listed in `Text.IsSpace`.
- React state, rendering, loading flags, `toast` messages and axios are not modelled. A page fetch is its outcome (`Fetched`), and a page's state is the value its handlers compute.
