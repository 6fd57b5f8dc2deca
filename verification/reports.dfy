/**
 * The two report handlers: the five-number dashboard and the per-item usage
 * report with its ordering by number of loans.
 */
module Reports {
  import opened Schema
  import opened Lifecycle
  import opened Accounting

  // ---------------------------------------------------------------------------
  // Dashboard

  datatype DashboardStats = DashboardStats(
    totalItems: nat,
    totalBorrowed: int,
    overdueItems: nat,
    availableItems: int,
    activeBorrowers: nat)

  /** Σ quantity_borrowed over records in status `active` (a missing sum reads as 0). */
  function TotalBorrowed(rs: seq<Record>): int
    decreases |rs|
  {
    if rs == [] then 0
    else TotalBorrowed(rs[..|rs| - 1]) + (if rs[|rs| - 1].status == Active then rs[|rs| - 1].quantityBorrowed else 0)
  }

  /** Σ quantity_available over all items. */
  function TotalAvailable(items: seq<Item>): int
    decreases |items|
  {
    if items == [] then 0
    else TotalAvailable(items[..|items| - 1]) + items[|items| - 1].quantityAvailable
  }

  /** Σ quantity_total over all items. */
  function TotalQuantity(items: seq<Item>): int
    decreases |items|
  {
    if items == [] then 0
    else TotalQuantity(items[..|items| - 1]) + items[|items| - 1].quantityTotal
  }

  /** The number of records in status `active`. */
  function CountActive(rs: seq<Record>): nat
    decreases |rs|
  {
    if rs == [] then 0
    else CountActive(rs[..|rs| - 1]) + (if rs[|rs| - 1].status == Active then 1 else 0)
  }

  /** The distinct user_ids among records in status `active`. */
  function ActiveUserIds(rs: seq<Record>): set<int> {
    set j | 0 <= j < |rs| && rs[j].status == Active :: rs[j].userId
  }

  /** getDashboardStats. overdue_items counts `active` records already past
      their due date, not records in status `overdue`. */
  function Dashboard(items: seq<Item>, rs: seq<Record>, now: Timestamp): (s: DashboardStats)
    ensures s.totalItems == |items|
    ensures s.overdueItems <= CountActive(rs) && s.activeBorrowers <= CountActive(rs)
    ensures items == [] && rs == [] ==> s == DashboardStats(0, 0, 0, 0, 0)
  {
    OverdueCountBound(rs, now);
    ActiveBorrowersBound(rs);
    DashboardStats(|items|, TotalBorrowed(rs), CountDue(rs, now), TotalAvailable(items), |ActiveUserIds(rs)|)
  }

  /** Only active records can be past due in the dashboard's sense. */
  lemma {:induction false} OverdueCountBound(rs: seq<Record>, now: Timestamp)
    ensures CountDue(rs, now) <= CountActive(rs)
    decreases |rs|
  {
    if rs != [] {
      OverdueCountBound(rs[..|rs| - 1], now);
    }
  }

  /** Each active borrower holds at least one active record. */
  lemma {:induction false} ActiveBorrowersBound(rs: seq<Record>)
    ensures |ActiveUserIds(rs)| <= CountActive(rs)
    decreases |rs|
  {
    if rs != [] {
      var n := |rs|;
      var init := rs[..n - 1];
      ActiveBorrowersBound(init);
      if rs[n - 1].status == Active {
        assert ActiveUserIds(rs) == ActiveUserIds(init) + {rs[n - 1].userId} by {
          forall u | u in ActiveUserIds(rs) ensures u in ActiveUserIds(init) + {rs[n - 1].userId} {
            var j :| 0 <= j < n && rs[j].status == Active && rs[j].userId == u;
            if j < n - 1 { assert init[j] == rs[j]; }
          }
          forall u | u in ActiveUserIds(init) ensures u in ActiveUserIds(rs) {
            var j :| 0 <= j < n - 1 && init[j].status == Active && init[j].userId == u;
            assert rs[j] == init[j];
          }
        }
      } else {
        assert ActiveUserIds(rs) == ActiveUserIds(init) by {
          forall u | u in ActiveUserIds(rs) ensures u in ActiveUserIds(init) {
            var j :| 0 <= j < n && rs[j].status == Active && rs[j].userId == u;
            assert j < n - 1 && init[j] == rs[j];
          }
          forall u | u in ActiveUserIds(init) ensures u in ActiveUserIds(rs) {
            var j :| 0 <= j < n - 1 && init[j].status == Active && init[j].userId == u;
            assert rs[j] == init[j];
          }
        }
      }
    }
  }

  /** Right after a sweep at the same instant the dashboard reports no overdue
      items, while every other figure but the active-only sums stays put. */
  lemma {:induction false} DashboardAfterSweep(items: seq<Item>, rs: seq<Record>, now: Timestamp)
    ensures Dashboard(items, SweepAll(rs, now), now).overdueItems == 0
    ensures Dashboard(items, SweepAll(rs, now), now).totalItems == Dashboard(items, rs, now).totalItems
    ensures Dashboard(items, SweepAll(rs, now), now).availableItems == Dashboard(items, rs, now).availableItems
  {
    SweepClearsDue(rs, now);
  }

  /** Under the accounting invariant, and with well-formed rows, the units
      available never exceed the units owned. */
  lemma {:induction false} AvailableWithinTotal(items: seq<Item>, rs: seq<Record>)
    requires Balanced(items, rs)
    requires forall j | 0 <= j < |rs| :: RecordRowOk(rs[j])
    requires forall i | 0 <= i < |items| :: ItemRowOk(items[i])
    ensures 0 <= TotalAvailable(items) <= TotalQuantity(items)
    decreases |items|
  {
    if items != [] {
      var n := |items|;
      var init := items[..n - 1];
      assert forall i | 0 <= i < |init| :: init[i] == items[i];
      AvailableWithinTotal(init, rs);
      BalancedBounds(items, rs);
    }
  }

  /** Changing one item's availability by `delta` changes the sum by `delta`. */
  lemma {:induction false} TotalAvailableAdjust(items: seq<Item>, k: nat, delta: int, now: Timestamp)
    requires k < |items|
    ensures TotalAvailable(items[k := items[k].(quantityAvailable := items[k].quantityAvailable + delta, updatedAt := now)])
            == TotalAvailable(items) + delta
    decreases |items|
  {
    var n := |items| - 1;
    var after := items[k := items[k].(quantityAvailable := items[k].quantityAvailable + delta, updatedAt := now)];
    if k == n {
      assert after[..n] == items[..n];
    } else {
      assert after[..n] == items[..n][k := items[k].(quantityAvailable := items[k].quantityAvailable + delta, updatedAt := now)];
      TotalAvailableAdjust(items[..n], k, delta, now);
    }
  }

  /** A borrow moves units from available_items to total_borrowed: their sum
      is the same before and after, and the record count grows by one. */
  lemma {:induction false} BorrowConservesUnits(items: seq<Item>, rs: seq<Record>, k: nat, rec: Record, now: Timestamp)
    requires UniqueItemIds(items) && k < |items| && rec.itemId == items[k].id && rec.status == Active
    ensures var after := Dashboard(AdjustAvailable(items, rec.itemId, -rec.quantityBorrowed, now), rs + [rec], now);
            var before := Dashboard(items, rs, now);
            after.totalBorrowed + after.availableItems == before.totalBorrowed + before.availableItems
  {
    AdjustAt(items, k, -rec.quantityBorrowed, now);
    TotalAvailableAdjust(items, k, -rec.quantityBorrowed, now);
    assert (rs + [rec])[..|rs|] == rs;
  }

  /** Two items with 3 and 7 units available; two active loans of 2 and 3
      units by two users, one of them past due; and a returned loan of 1 unit,
      which counts neither as borrowed nor towards the active borrowers. */
  lemma {:induction false} DashboardExample()
    ensures
      var now := 10 * DayMs;
      var items := [Item(1, "Globe", None, Furniture, "F-1", 5, 3, None, None, None, None, 0, 0),
                    Item(2, "Laptop", None, ItAsset, "IT-1", 10, 7, None, None, None, None, 0, 0)];
      var rs := [Record(1, 1, 1, 2, now, 17 * DayMs, None, Active, None, now, now),
                 Record(2, 2, 2, 3, now, 9 * DayMs, None, Active, None, now, now),
                 Record(3, 1, 2, 1, now, 17 * DayMs, None, Returned, None, now, now)];
      Dashboard(items, rs, now) == DashboardStats(2, 5, 1, 10, 2)
  {
    var now := 10 * DayMs;
    var items := [Item(1, "Globe", None, Furniture, "F-1", 5, 3, None, None, None, None, 0, 0),
                  Item(2, "Laptop", None, ItAsset, "IT-1", 10, 7, None, None, None, None, 0, 0)];
    var rs := [Record(1, 1, 1, 2, now, 17 * DayMs, None, Active, None, now, now),
               Record(2, 2, 2, 3, now, 9 * DayMs, None, Active, None, now, now),
               Record(3, 1, 2, 1, now, 17 * DayMs, None, Returned, None, now, now)];
    assert rs[..2][..1][..0] == [] && rs[..2][..1] == [rs[0]] && rs[..2] == [rs[0], rs[1]];
    assert items[..1][..0] == [] && items[..1] == [items[0]];
    assert TotalBorrowed(rs[..2][..1]) == 2;
    assert TotalBorrowed(rs[..2]) == 5;
    assert TotalBorrowed(rs) == 5;
    assert CountDue(rs[..2][..1], now) == 0;
    assert CountDue(rs[..2], now) == 1;
    assert CountDue(rs, now) == 1;
    assert TotalAvailable(items) == 10;
    assert ActiveUserIds(rs) == {1, 2} by {
      assert rs[0].userId == 1 && rs[1].userId == 2 && rs[2].status == Returned;
    }
  }

  // ---------------------------------------------------------------------------
  // Usage report

  /** One row of getItemUsageReport. */
  datatype UsageRow = UsageRow(
    itemId: int,
    itemName: string,
    labelCode: string,
    totalBorrows: nat,
    currentBorrowed: int,
    lastBorrowed: Option<Timestamp>)

  /** The number of records of `itemId`, whatever their status. */
  function BorrowCount(rs: seq<Record>, itemId: int): (c: nat)
    ensures c <= |rs|
    ensures c == 0 <==> forall j | 0 <= j < |rs| :: rs[j].itemId != itemId
    decreases |rs|
  {
    if rs == [] then 0
    else
      var n := |rs| - 1;
      assert forall j | 0 <= j < n :: rs[..n][j] == rs[j];
      BorrowCount(rs[..n], itemId) + (if rs[n].itemId == itemId then 1 else 0)
  }

  /** `max(borrowed_date)` over the records of `itemId`: null when it has none. */
  function LastBorrowed(rs: seq<Record>, itemId: int): (r: Option<Timestamp>)
    ensures r.None? <==> forall j | 0 <= j < |rs| :: rs[j].itemId != itemId
    ensures r.Some? ==> exists j | 0 <= j < |rs| :: rs[j].itemId == itemId && rs[j].borrowedDate == r.value
    ensures r.Some? ==> forall j | 0 <= j < |rs| && rs[j].itemId == itemId :: rs[j].borrowedDate <= r.value
    decreases |rs|
  {
    if rs == [] then None
    else
      var n := |rs| - 1;
      var earlier := LastBorrowed(rs[..n], itemId);
      if rs[n].itemId != itemId then
        assert forall j | 0 <= j < n :: rs[..n][j] == rs[j];
        earlier
      else
        match earlier
        case None => Some(rs[n].borrowedDate)
        case Some(d) =>
          assert forall j | 0 <= j < n :: rs[..n][j] == rs[j];
          Some(if d < rs[n].borrowedDate then rs[n].borrowedDate else d)
  }

  /** The report row of one item. */
  function UsageRowOf(it: Item, rs: seq<Record>): (row: UsageRow)
    ensures row.itemId == it.id && row.itemName == it.name && row.labelCode == it.labelCode
    ensures row.currentBorrowed == it.quantityTotal - it.quantityAvailable
    ensures row.totalBorrows == BorrowCount(rs, it.id) && row.lastBorrowed == LastBorrowed(rs, it.id)
    ensures row.totalBorrows == 0 <==> row.lastBorrowed == None
  {
    UsageNoneIffZero(rs, it.id);
    UsageRow(it.id, it.name, it.labelCode, BorrowCount(rs, it.id),
             it.quantityTotal - it.quantityAvailable, LastBorrowed(rs, it.id))
  }

  /** An item has no last loan date exactly when it has no loans. */
  lemma {:induction false} UsageNoneIffZero(rs: seq<Record>, itemId: int)
    ensures BorrowCount(rs, itemId) == 0 <==> LastBorrowed(rs, itemId) == None
    decreases |rs|
  {
    if rs != [] {
      var n := |rs| - 1;
      UsageNoneIffZero(rs[..n], itemId);
      if rs[n].itemId != itemId {
        assert forall j | 0 <= j < n :: rs[..n][j] == rs[j];
      }
    }
  }

  /** The grouped rows, one per item, in table order (before the ORDER BY). */
  function UsageRows(items: seq<Item>, rs: seq<Record>): (rows: seq<UsageRow>)
    ensures |rows| == |items|
    ensures forall i | 0 <= i < |items| :: rows[i] == UsageRowOf(items[i], rs)
  {
    seq(|items|, i requires 0 <= i < |items| => UsageRowOf(items[i], rs))
  }

  predicate SortedByBorrows(rows: seq<UsageRow>) {
    forall i, j | 0 <= i < j < |rows| :: rows[i].totalBorrows >= rows[j].totalBorrows
  }

  /** Puts `row` into a list already ordered by descending loan count. */
  function InsertByBorrows(row: UsageRow, sorted: seq<UsageRow>): (r: seq<UsageRow>)
    requires SortedByBorrows(sorted)
    ensures SortedByBorrows(r)
    ensures forall x | x in r :: x == row || x in sorted
    ensures multiset(r) == multiset(sorted) + multiset{row}
    decreases |sorted|
  {
    if sorted == [] || sorted[0].totalBorrows <= row.totalBorrows then
      InsertAtFront(row, sorted);
      [row] + sorted
    else
      var rest := InsertByBorrows(row, sorted[1..]);
      InsertBehindHead(row, sorted, rest);
      [sorted[0]] + rest
  }

  /** A row with at least the head's count goes in front. */
  lemma {:induction false} InsertAtFront(row: UsageRow, sorted: seq<UsageRow>)
    requires SortedByBorrows(sorted)
    requires sorted == [] || sorted[0].totalBorrows <= row.totalBorrows
    ensures SortedByBorrows([row] + sorted)
  {
    var r := [row] + sorted;
    forall i, j | 0 <= i < j < |r| ensures r[i].totalBorrows >= r[j].totalBorrows {
      if i == 0 {
        assert r[j] == sorted[j - 1];
        assert sorted[0].totalBorrows >= sorted[j - 1].totalBorrows;
      } else {
        assert r[i] == sorted[i - 1] && r[j] == sorted[j - 1];
      }
    }
  }

  /** A row with a smaller count than the head goes behind it, into the tail. */
  lemma {:induction false} InsertBehindHead(row: UsageRow, sorted: seq<UsageRow>, rest: seq<UsageRow>)
    requires SortedByBorrows(sorted) && sorted != [] && row.totalBorrows < sorted[0].totalBorrows
    requires SortedByBorrows(rest)
    requires forall x | x in rest :: x == row || x in sorted[1..]
    requires multiset(rest) == multiset(sorted[1..]) + multiset{row}
    ensures SortedByBorrows([sorted[0]] + rest)
    ensures forall x | x in [sorted[0]] + rest :: x == row || x in sorted
    ensures multiset([sorted[0]] + rest) == multiset(sorted) + multiset{row}
  {
    var r := [sorted[0]] + rest;
    assert sorted == [sorted[0]] + sorted[1..];
    forall x | x in sorted[1..] ensures x.totalBorrows <= sorted[0].totalBorrows {
      var k :| 0 <= k < |sorted[1..]| && sorted[1..][k] == x;
      assert x == sorted[k + 1];
    }
    forall i, j | 0 <= i < j < |r| ensures r[i].totalBorrows >= r[j].totalBorrows {
      assert r[j] == rest[j - 1];
      if i > 0 {
        assert r[i] == rest[i - 1];
      } else {
        assert r[j] in rest;
      }
    }
    forall x | x in r ensures x == row || x in sorted {
      if x != sorted[0] {
        assert x in rest;
      }
    }
  }

  /** `ORDER BY count(...) DESC`: the same rows, by descending loan count. */
  function SortByBorrows(rows: seq<UsageRow>): (r: seq<UsageRow>)
    ensures SortedByBorrows(r)
    ensures multiset(r) == multiset(rows)
    decreases |rows|
  {
    if rows == [] then []
    else
      assert rows == [rows[0]] + rows[1..];
      InsertByBorrows(rows[0], SortByBorrows(rows[1..]))
  }

  /** getItemUsageReport. */
  function ItemUsageReport(items: seq<Item>, rs: seq<Record>): (r: seq<UsageRow>)
    ensures |r| == |items|
    ensures SortedByBorrows(r)
    ensures multiset(r) == multiset(UsageRows(items, rs))
  {
    var rows := UsageRows(items, rs);
    var sorted := SortByBorrows(rows);
    assert |sorted| == |multiset(sorted)| == |multiset(rows)| == |rows|;
    sorted
  }

  /** Every item has its row in the report, items without loans included,
      and every row belongs to an item. */
  lemma {:induction false} ReportCoversItems(items: seq<Item>, rs: seq<Record>)
    ensures forall i | 0 <= i < |items| :: UsageRowOf(items[i], rs) in ItemUsageReport(items, rs)
    ensures forall row | row in ItemUsageReport(items, rs) ::
      exists i | 0 <= i < |items| :: row == UsageRowOf(items[i], rs)
  {
    var rows := UsageRows(items, rs);
    var r := ItemUsageReport(items, rs);
    forall i | 0 <= i < |items| ensures UsageRowOf(items[i], rs) in r {
      assert rows[i] in multiset(rows);
    }
    forall row | row in r ensures exists i | 0 <= i < |items| :: row == UsageRowOf(items[i], rs) {
      assert row in multiset(rows);
      var i :| 0 <= i < |rows| && rows[i] == row;
    }
  }

  /** Under the accounting invariant, an item's current_borrowed is the number
      of its units on open loans. */
  lemma {:induction false} CurrentBorrowedIsOutstanding(items: seq<Item>, rs: seq<Record>)
    requires Balanced(items, rs)
    ensures forall row | row in ItemUsageReport(items, rs) :: row.currentBorrowed == OutstandingQty(rs, row.itemId)
  {
    ReportCoversItems(items, rs);
  }

  /** A record replaced by one for the same item and loan date, as a return and
      the sweep do, leaves every loan count and last loan date as it was. */
  lemma {:induction false} ReplaceKeepsUsage(rs: seq<Record>, j: nat, r: Record, itemId: int)
    requires j < |rs| && r.itemId == rs[j].itemId && r.borrowedDate == rs[j].borrowedDate
    ensures BorrowCount(rs[j := r], itemId) == BorrowCount(rs, itemId)
    ensures LastBorrowed(rs[j := r], itemId) == LastBorrowed(rs, itemId)
  {
    ReplaceKeepsCount(rs, j, r, itemId);
    ReplaceKeepsLast(rs, j, r, itemId);
  }

  lemma {:induction false} ReplaceKeepsCount(rs: seq<Record>, j: nat, r: Record, itemId: int)
    requires j < |rs| && r.itemId == rs[j].itemId
    ensures BorrowCount(rs[j := r], itemId) == BorrowCount(rs, itemId)
    decreases |rs|
  {
    var n := |rs| - 1;
    if j == n {
      assert rs[j := r][..n] == rs[..n];
    } else {
      assert rs[j := r][..n] == rs[..n][j := r];
      ReplaceKeepsCount(rs[..n], j, r, itemId);
    }
  }

  lemma {:induction false} ReplaceKeepsLast(rs: seq<Record>, j: nat, r: Record, itemId: int)
    requires j < |rs| && r.itemId == rs[j].itemId && r.borrowedDate == rs[j].borrowedDate
    ensures LastBorrowed(rs[j := r], itemId) == LastBorrowed(rs, itemId)
    decreases |rs|
  {
    var n := |rs| - 1;
    var rs' := rs[j := r];
    if j == n {
      assert rs'[..n] == rs[..n] && rs'[n] == r;
    } else {
      assert rs'[..n] == rs[..n][j := r] && rs'[n] == rs[n];
      ReplaceKeepsLast(rs[..n], j, r, itemId);
    }
  }

  /** A new loan adds one to its item's count and to no other; its item's last
      loan date becomes the later of the new date and the previous last date,
      or the new date when the item had no loans. */
  lemma {:induction false} BorrowAddsUsage(rs: seq<Record>, rec: Record)
    ensures BorrowCount(rs + [rec], rec.itemId) == BorrowCount(rs, rec.itemId) + 1
    ensures forall id | id != rec.itemId :: BorrowCount(rs + [rec], id) == BorrowCount(rs, id)
    ensures LastBorrowed(rs + [rec], rec.itemId) ==
      match LastBorrowed(rs, rec.itemId)
      case None => Some(rec.borrowedDate)
      case Some(d) => Some(if d < rec.borrowedDate then rec.borrowedDate else d)
    ensures forall id | id != rec.itemId :: LastBorrowed(rs + [rec], id) == LastBorrowed(rs, id)
  {
    assert (rs + [rec])[..|rs|] == rs;
  }
}
