# School inventory: borrowing and accounting kernel

A Dafny model of the server side of a school inventory manager. The server keeps three tables:

- **inventory items**: each has a label code, a total quantity and an available quantity.
- **users**: students and teachers.
- **borrowing records**: each loan is for some units of one item by one user, and moves through the states `active`, `overdue` and `returned`.

The model covers the handlers that change those tables:

- create, update and delete an item;
- borrow;
- return;
- the overdue sweep.

It also covers the read-only handlers:

- the item list, lookup by id and case-insensitive label search;
- the borrowing-record, open-loan and overdue listings;
- the dashboard figures;
- the per-item usage report.

The modules follow the source:

| file | module | models |
|---|---|---|
| `schema.dfy` | `Schema` | rows, enumerations, input validators, column defaults (`server/src/schema.ts`, `server/src/db/schema.ts`) |
| `seqs.dfy` | `Seqs` | the row filter behind the listing queries' `WHERE` clauses and inner joins |
| `lifecycle.dfy` | `Lifecycle` | the record state machine, the sweep on one record and on all, the returned record |
| `accounting.dfy` | `Accounting` | the open-loan and active-loan sums, the availability adjustment, the patched item, the accounting invariant and its preservation |
| `tables.dfy` | `Tables` | primary-key lookups and the table constraints |
| `store.dfy` | `Handlers` | the `Store` class, with one method per mutating handler |
| `queries.dfy` | `Queries` | the listing handlers |
| `reports.dfy` | `Reports` | the dashboard and the usage report |

**The `Store` class.**

- The three tables are `seq` fields, and the two id serials are counters.
- Every mutating handler is a method that checks its errors before any write, in the handler's order. On error the store is unchanged.
- On success, each method's `ensures` gives the new tables as a function of the old ones.
- The clock is a `now` parameter in milliseconds.
- A failure is an `Err` value carrying the handler's error.

**The accounting invariant (`Accounting.Balanced`).** For every item, `quantity_total − quantity_available` equals the units out on records of that item whose status is `active` or `overdue`.

- Create, borrow, return, the sweep and delete preserve it.
- An update that supplies `quantity_total` keeps it exactly when the item has no `overdue` loan, because it recomputes availability from `active` loans alone (`update_inventory_item.ts:38-55`). An update that leaves the total out does not touch the quantities and always keeps it.
- `UpdatePreservesBalance` and `UpdateTotalWithOverdueLoanBreaksBalance` prove the two directions. `UpdateWithOverdueLoanBreaksBalance` gives a concrete store where the update breaks the invariant and a later return of that loan lifts availability above the total.
- This is why `Balanced` is not part of `Store.Valid()`. Each method instead ensures `old(Balanced(...)) ==> Balanced(...)`, and update adds the condition that the total is left out or the item has no overdue loan.

**Behaviour as the code has it:**

- Deleting an unknown item answers `false` and changes nothing (`delete_inventory_item.ts:14-16`).
- Only `active` loans block a deletion; `overdue` ones do not (`delete_inventory_item.ts:19-32`).
- The dashboard's `overdue_items` counts `active` records past their due date; records in status `overdue` are not counted (`get_dashboard_stats.ts:27-40`).
- A return adds the loan's quantity to availability without a cap at the total (`return_item.ts:40-46`).
- A record may outlive its item, because `item_id` carries no foreign key (`db/schema.ts:50`). Returning such a loan leaves the items table as it is.

## Model

| member | source | states |
|---|---|---|
| Schema.NewItem | server/src/handlers/create_inventory_item.ts:9-20 | the inserted row has the given id and total with everything available (total − available = 0); name, description, item type, label, location, purchase date, price and condition notes are stored as given, a null staying null; created_at and updated_at are `now`; an input that passes the create schema (`server/src/schema.ts:85-95`) gives total ≥ 1, available ≥ 0 and a non-empty label |
| Schema.NewRecord | server/src/handlers/create_borrowing_record.ts:35-59 | the inserted record has the given id and the input's item, user, quantity and notes; it is `active`, has no return date, is borrowed, created and updated at `now` and is due exactly `duration_days` days later; an input that passes the borrow schema (`server/src/schema.ts:124-130`) gives quantity ≥ 1 and a due date at least one day ahead |
| Lifecycle.ReturnedRecord | server/src/handlers/return_item.ts:26-35 | a return is a legal step from an open state to `returned`; returned_date and updated_at become `now` and notes become the supplied notes, null included; no other column changes |
| Lifecycle.SweepChangesOnlyDue | server/src/handlers/update_overdue_status.ts:11-23 | the sweep keeps the number of records, changes only status and updated_at, moves exactly the `active` records due strictly before `now` to `overdue`, and leaves every other record as it was |
| Lifecycle.SweepClearsDue | server/src/handlers/update_overdue_status.ts:19-20 | after a sweep no record is due at the same instant, so a second sweep reports 0 |
| Lifecycle.SweepIdempotent | server/src/handlers/update_overdue_status.ts:19-20 | two sweeps at the same instant give the same records as one |
| Accounting.Patched | server/src/handlers/update_inventory_item.ts:22-55 | an update keeps the id and creation time and sets updated_at. Each of name, description, item type, label, location, purchase date, price and condition notes keeps its value when absent and takes the supplied value when present, a supplied null clearing it. A supplied total sets total − available to the units on `active` loans; an absent total leaves both quantities alone. An empty patch changes nothing else. A patch that passes the update schema (`server/src/schema.ts:99-110`) and whose total covers the active loans keeps the quantity columns in range |
| Accounting.OutstandingAppend | server/src/handlers/create_borrowing_record.ts:50-59 | adding a record adds its contribution to an item's open-loan sum |
| Accounting.OutstandingReplace | server/src/handlers/return_item.ts:26-35 | replacing one record changes an open-loan sum by the difference of the two contributions |
| Accounting.OutstandingNonNegative | server/src/db/schema.ts:52 | with non-negative loan quantities the open-loan sum is non-negative |
| Accounting.OutstandingOfUnreferenced | server/src/handlers/create_inventory_item.ts:15-16 | an item no record refers to has nothing out, on open or on active loans |
| Accounting.ActiveVersusOutstanding | server/src/handlers/update_inventory_item.ts:42-55 | the active-only sum the update uses is at most the open-loan sum, and equals it exactly when the item has no `overdue` loan |
| Accounting.SweepKeepsOutstanding | server/src/handlers/update_overdue_status.ts:13-16 | the sweep changes no item's open-loan sum |
| Accounting.BalancedBounds | server/src/handlers/create_borrowing_record.ts:29-32 | under the invariant, with well-formed rows, 0 ≤ available ≤ total for every item |
| Accounting.AdjustAt | server/src/handlers/create_borrowing_record.ts:41-47 | with unique ids the `UPDATE ... WHERE id` of availability changes exactly the one row of that id |
| Accounting.BorrowThenReturnRestores | server/src/handlers/return_item.ts:40-46 | taking `q` units out and putting `q` back restores every item's quantities; only updated_at of that item differs |
| Accounting.CreatePreservesBalance | server/src/handlers/create_inventory_item.ts:9-23 | adding an item with a fresh id and everything available keeps the invariant |
| Accounting.BorrowPreservesBalance | server/src/handlers/create_borrowing_record.ts:39-62 | decrementing availability by a new open loan's quantity and adding the loan keeps the invariant |
| Accounting.ReturnPreservesBalance | server/src/handlers/return_item.ts:21-46 | closing an open loan and crediting its quantity keeps the invariant, whether or not the item still exists |
| Accounting.SweepPreservesBalance | server/src/handlers/update_overdue_status.ts:11-23 | the sweep keeps the invariant |
| Accounting.DeletePreservesBalance | server/src/handlers/delete_inventory_item.ts:35-37 | removing an item keeps the invariant for every other item |
| Accounting.UpdatePreservesBalance | server/src/handlers/update_inventory_item.ts:38-68 | an update keeps the invariant when it leaves the total out or the item has no `overdue` loan |
| Accounting.UpdateTotalWithOverdueLoanBreaksBalance | server/src/handlers/update_inventory_item.ts:38-55 | conversely, an update that supplies a total for an item with an `overdue` loan leaves that item out of balance |
| Accounting.UpdateWithOverdueLoanBreaksBalance | server/src/handlers/update_inventory_item.ts:46-55 | a concrete store with one overdue loan of 2 units: resupplying the same total credits those 2 units, breaking the invariant, and their later return lifts availability to 7 of 5 |
| Tables.FindById | server/src/handlers/get_inventory_item_by_id.ts:9-18 | the lookup by id (used for items, borrowing records and users) gives the first row with that id, and nothing exactly when no row has it |
| Tables.FindItemUnique | server/src/db/schema.ts:21 | with unique ids the lookup of a stored row's id finds that row |
| Tables.FindRecordUnique | server/src/db/schema.ts:49 | the same for borrowing records |
| Tables.ItemsOkAppend | server/src/db/schema.ts:21-27 | appending a row with the next serial id, an unused label and quantities in range keeps the items table's constraints |
| Tables.ItemsOkReplace | server/src/db/schema.ts:21-27 | replacing a row by one with the same id, a label no other row carries and quantities in range keeps them |
| Tables.ItemsOkRemove | server/src/db/schema.ts:21-27 | removing a row keeps them |
| Tables.RecordsOkAppend | server/src/db/schema.ts:49-56 | appending a record with the next serial id, an item id already handed out and a well-formed row keeps the record table's constraints |
| Tables.RecordsOkReplace | server/src/db/schema.ts:49-56 | replacing a record by a well-formed one with the same id and item keeps them |
| Tables.ItemsOkAdjust | server/src/db/schema.ts:21-27 | moving one item's available count by an amount that keeps it non-negative keeps the items table's constraints |
| Tables.RecordsOkNewItemId | server/src/db/schema.ts:50 | no record refers to the next item serial, which may be handed out |
| Handlers.Store.constructor | server/src/db/schema.ts:20-60 | empty items and records, both serials at 1; the constraints and the invariant hold |
| Handlers.Store.CreateItem | server/src/handlers/create_inventory_item.ts:6-35 | a label in use fails with the store unchanged; otherwise exactly the new row is appended under the next serial id, nothing else changes, and constraints and invariant are kept |
| Handlers.Store.ActiveBorrowed | server/src/handlers/update_inventory_item.ts:42-54 | the loop's total is the sum of quantity_borrowed over the item's `active` records |
| Handlers.Store.UpdateItem | server/src/handlers/update_inventory_item.ts:7-81 | errors in order: unknown id, a total below the active loans, a label another item carries; each leaves the store unchanged. Otherwise only that item's row becomes the patched row. The invariant is kept when the total is left out or the item has no overdue loan |
| Handlers.Store.DeleteItem | server/src/handlers/delete_inventory_item.ts:6-44 | an unknown id answers `false` with nothing changed. An `active` loan of the item fails with nothing changed. Otherwise exactly that row is removed and the answer is `true`. Records are untouched and the invariant is kept |
| Handlers.Store.Borrow | server/src/handlers/create_borrowing_record.ts:7-69 | errors in order: unknown user, unknown item, requested > available; each leaves the store unchanged. Otherwise only that item's availability drops by the quantity, the new active record is appended, and the invariant is kept |
| Handlers.Store.ReturnItem | server/src/handlers/return_item.ts:7-53 | an unknown record or one already returned fails with nothing changed. Otherwise only that record is closed and its item's availability rises by its quantity, uncapped. The invariant is kept |
| Handlers.Store.SweepOverdue | server/src/handlers/update_overdue_status.ts:6-31 | the records become the swept records, the count is the number of due records, items and serials are unchanged, and constraints and invariant are kept |
| Handlers.BorrowReturnScenario | server/src/tests/return_item.test.ts:86-147 | a 5-unit item with 2 units on an active loan (due 14 days after borrowing) has 3 available; the return closes the loan with null notes and brings availability to 5; a second return of the same loan fails as already returned, the case of `return_item.test.ts:206-249` |
| Handlers.SweepScenario | server/src/tests/update_overdue_status.test.ts:13-77 | a loan past its due date is swept (count 1, status overdue); a second sweep at the same instant counts 0, because the swept record no longer meets the `WHERE` clause of `update_overdue_status.ts:19-20` |
| Queries.ListItems | server/src/handlers/get_inventory_items.ts:8-16 | every stored row once, in table order, unchanged |
| Queries.ItemById | server/src/handlers/get_inventory_item_by_id.ts:7-24 | a stored row with the asked id, or null exactly when no row has it |
| Queries.ItemByIdFindsRow | server/src/handlers/get_inventory_item_by_id.ts:18-24 | with unique ids the lookup of a stored id returns that very row |
| Queries.CreatedItemIsFound | server/src/tests/get_inventory_item_by_id.test.ts:26-57 | an item added under a fresh id is found by it |
| Queries.Lower | server/src/handlers/search_items_by_label.ts:11 | ASCII upper-case letters map to lower case, everything else is kept, and no upper-case letter remains |
| Queries.LowerStr | server/src/handlers/search_items_by_label.ts:11 | lower-casing keeps the length and lower-cases each character |
| Queries.LowerStrIdempotent | server/src/handlers/search_items_by_label.ts:11 | lower-casing twice equals lower-casing once |
| Queries.SearchByLabel | server/src/handlers/search_items_by_label.ts:7-18 | an item is in the result exactly when it is stored and its label contains the query, ignoring case; a matching item appears as often as it is stored and a non-matching one not at all |
| Queries.EmptyQueryMatchesAll | server/src/handlers/search_items_by_label.ts:11 | the empty query returns every item in table order |
| Queries.ExactLabelIsFound | server/src/tests/search_items_by_label.test.ts:75-84 | a query equal to an item's label up to case finds that item |
| Queries.ExactLabelIsOnlyResult | server/src/tests/search_items_by_label.test.ts:75-84 | when the query equals one item's label up to case and occurs in no other label, the result is exactly that one item |
| Queries.SearchIgnoresCase | server/src/tests/search_items_by_label.test.ts:86-95 | a query and its lower-case form give the same result |
| Queries.BorrowingRecords | server/src/handlers/get_borrowing_records.ts:7-32 | a record is listed, unchanged, exactly when it is stored and both its item and its user exist, and as often as it is stored |
| Queries.JoinKeepsReferencedRecords | server/src/tests/get_borrowing_records.test.ts:177-247 | when every record's item and user exist, all records of every status are listed, in order |
| Queries.ActiveBorrowings | server/src/handlers/get_active_borrowings.ts:7-25 | a record is listed exactly when it is stored and `active` or `overdue`, and as often as it is stored; no `returned` record is listed |
| Queries.SweepKeepsActiveBorrowings | server/src/handlers/get_active_borrowings.ts:11-16 | the sweep does not change how many open loans are listed |
| Queries.DaysOverdue | server/src/handlers/get_overdue_items.ts:31-33 | days_overdue is `floor((now − due) / 86 400 000)`: the d with d days ≤ now − due < d + 1 days |
| Queries.DaysOverdueMonotone | server/src/handlers/get_overdue_items.ts:31-33 | days_overdue never decreases as time passes |
| Queries.OverdueRowOf | server/src/handlers/get_overdue_items.ts:12-44 | the row takes the record's id and dates, the item's name and label, the user's name and e-mail, and the day count |
| Queries.OverdueRecords | server/src/handlers/get_overdue_items.ts:12-27 | a record is selected exactly when it is stored, in status `overdue`, and both its item and its user exist, and as often as it is stored |
| Queries.ListingsRepeatNothing | server/src/db/schema.ts:49 | with unique primary keys no listing (label search, borrowing records, open loans, overdue selection) repeats a row, so each qualifying row appears exactly once |
| Queries.OverdueItems | server/src/handlers/get_overdue_items.ts:7-50 | one row per selected record, in order, each the record's report row: its id and dates, its item's name and label, its user's name and e-mail, and the day count |
| Queries.NoOverdueStatusNoRows | server/src/tests/get_overdue_items.test.ts:87-140 | with no record in status `overdue` the report is empty, however late active loans are |
| Reports.Dashboard | server/src/handlers/get_dashboard_stats.ts:7-65 | total_items is the item count; overdue_items and active_borrowers are each at most the number of `active` records; an empty store gives five zeros |
| Reports.OverdueCountBound | server/src/handlers/get_dashboard_stats.ts:27-40 | only `active` records are counted as past due |
| Reports.ActiveBorrowersBound | server/src/handlers/get_dashboard_stats.ts:50-57 | the distinct users of `active` records are at most as many as those records |
| Reports.DashboardAfterSweep | server/src/handlers/get_dashboard_stats.ts:27-40 | right after a sweep at the same instant overdue_items is 0, and total_items and available_items are unchanged |
| Reports.AvailableWithinTotal | server/src/handlers/get_dashboard_stats.ts:43-47 | under the invariant, available_items lies between 0 and the sum of item totals |
| Reports.TotalAvailableAdjust | server/src/handlers/get_dashboard_stats.ts:43-47 | changing one item's availability by δ changes available_items by δ |
| Reports.BorrowConservesUnits | server/src/handlers/get_dashboard_stats.ts:17-24 | a borrow leaves total_borrowed + available_items unchanged |
| Reports.DashboardExample | server/src/tests/get_dashboard_stats.test.ts:72-144 | items with 3 and 7 available, active loans of 2 and 3 by two users (one past due) and a returned loan of 1 give (2, 5, 1, 10, 2): the returned loan counts in neither total_borrowed nor active_borrowers |
| Reports.BorrowCount | server/src/handlers/get_item_usage_report.ts:15 | the item's loan count is at most the number of records and is 0 exactly when no record is of that item |
| Reports.LastBorrowed | server/src/handlers/get_item_usage_report.ts:18 | null exactly when the item has no records; otherwise a borrowed_date of one of its records that no other of its records exceeds |
| Reports.UsageRowOf | server/src/handlers/get_item_usage_report.ts:35-42 | the row copies id, name and label; total_borrows is the item's loan count and last_borrowed_date the latest borrowed_date of its records; current_borrowed is total − available; the count is 0 exactly when there is no last date |
| Reports.UsageNoneIffZero | server/src/tests/get_item_usage_report.test.ts:12-42 | an item has no last loan date exactly when it has no loans |
| Reports.UsageRows | server/src/handlers/get_item_usage_report.ts:20-31 | the left join and group-by give one row per item, in table order |
| Reports.InsertByBorrows | server/src/handlers/get_item_usage_report.ts:32 | inserting into a list ordered by descending count keeps it ordered and adds exactly that row |
| Reports.InsertAtFront | server/src/handlers/get_item_usage_report.ts:32 | a row with at least the head's count goes in front and the list stays ordered |
| Reports.InsertBehindHead | server/src/handlers/get_item_usage_report.ts:32 | a row with a smaller count than the head goes behind it: the list stays ordered and gains exactly that row |
| Reports.SortByBorrows | server/src/handlers/get_item_usage_report.ts:32 | the result is ordered by descending total_borrows and is a permutation of the input |
| Reports.ItemUsageReport | server/src/handlers/get_item_usage_report.ts:7-47 | one row per item, ordered by descending count, a permutation of the grouped rows |
| Reports.ReportCoversItems | server/src/tests/get_item_usage_report.test.ts:12-42 | every item has its row, items without loans included, and every row belongs to an item |
| Reports.CurrentBorrowedIsOutstanding | server/src/handlers/get_item_usage_report.ts:40 | under the invariant, each row's current_borrowed is the units of that item on open loans |
| Reports.ReplaceKeepsUsage | server/src/handlers/get_item_usage_report.ts:15-18 | replacing a record by one with the same item and loan date, as a return and the sweep do, keeps every count and last date |
| Reports.ReplaceKeepsCount | server/src/handlers/get_item_usage_report.ts:15 | replacing a record by one of the same item keeps every loan count |
| Reports.ReplaceKeepsLast | server/src/handlers/get_item_usage_report.ts:18 | replacing a record by one of the same item and loan date keeps every last loan date |
| Reports.BorrowAddsUsage | server/src/handlers/get_item_usage_report.ts:15-18 | a new loan adds one to its item's count and to no other; its item's last loan date becomes the later of the new date and the previous one (the new date when there was none); other items' last dates are unchanged |

## Left out

- Admin login, admin creation, default-admin seeding and user creation: placeholders, password hashing and a clock-based token. The users table is fixed when the store is built.
- Price conversion between number and numeric string: the price is an exact optional value stored as given.
- Transactions and concurrency: handlers run one at a time and each is atomic, so the race between the availability check and the decrement is outside the model.
- Calendar arithmetic: a day is a fixed 86 400 000 ms, without time zones or daylight saving.
- The handler's several clock readings within one call are a single `now`.
- Searches whose query contains the `ILIKE` wildcards `%` or `_` are outside the model. Case folding is ASCII only.
- The backslash, which `ILIKE` treats as its escape character (`search_items_by_label.ts:11`), is matched here as an ordinary character.
- Integer range: the quantity and id columns are Postgres `integer` (`db/schema.ts:21-27` and `db/schema.ts:49-52`), and a value beyond 2³¹ − 1 makes the database reject the write, for example a very large `quantity_total` or a repeated uncapped return. The model's integers are unbounded, so that failure is not modelled.
- Row order of the listings: the item list, the label search, the borrowing-record, open-loan and overdue listings have no `ORDER BY`, so the database may return rows in any order. The model returns them in table order, and the sequence equalities of EmptyQueryMatchesAll and JoinKeepsReferencedRecords hold for that order; the membership statements hold for any order.
- Logging and rethrowing of errors, and database failures other than the label uniqueness constraint.
- A failed insert that still consumes a serial value in the database: the model's counters advance only on success.
- Handlers.Store.UpdateItem: a label clash is detected before the write, as the database constraint would report it. The driver's error value is not modelled.
- Reports.Dashboard: its contract gives bounds and the empty case. The exact sums are shown by DashboardExample and BorrowConservesUnits, not restated.
- The ordering of rows with equal loan counts in the usage report is the insertion order here. The database leaves it unspecified.
