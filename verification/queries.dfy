/**
 * The read-only handlers that list rows: all items, one item by id, the
 * label search, all borrowing records, the open loans and the overdue report.
 */
module Queries {
  import opened Schema
  import opened Seqs
  import opened Lifecycle
  import opened Tables

  /** getInventoryItems: every row of the items table, in table order. */
  function ListItems(items: seq<Item>): (r: seq<Item>)
    ensures |r| == |items| && forall i | 0 <= i < |items| :: r[i] == items[i]
  {
    items
  }

  /** getInventoryItemById: the row with that id, or null. */
  function ItemById(items: seq<Item>, id: int): (r: Option<Item>)
    ensures r.Some? ==> r.value in items && r.value.id == id
    ensures r.None? <==> forall i | 0 <= i < |items| :: items[i].id != id
  {
    match FindItem(items, id)
    case None => None
    case Some(k) => Some(items[k])
  }

  /** With unique ids, the lookup of a stored id gives back that very row. */
  lemma {:induction false} ItemByIdFindsRow(items: seq<Item>, k: nat)
    requires UniqueItemIds(items) && k < |items|
    ensures ItemById(items, items[k].id) == Some(items[k])
  {
  }

  /** An item appended under a fresh id is found by it afterwards. */
  lemma {:induction false} CreatedItemIsFound(items: seq<Item>, it: Item)
    requires UniqueItemIds(items)
    requires forall i | 0 <= i < |items| :: items[i].id != it.id
    ensures ItemById(items + [it], it.id) == Some(it)
  {
  }

  // ---------------------------------------------------------------------------
  // Label search

  /** ASCII lower-casing of one character. */
  function Lower(c: char): (d: char)
    ensures 'A' <= c <= 'Z' ==> d as int == c as int + 32
    ensures !('A' <= c <= 'Z') ==> d == c
    ensures !('A' <= d <= 'Z')
  {
    if 'A' <= c <= 'Z' then (c as int + 32) as char else c
  }

  function LowerStr(s: string): (t: string)
    ensures |t| == |s| && forall i | 0 <= i < |s| :: t[i] == Lower(s[i])
  {
    seq(|s|, i requires 0 <= i < |s| => Lower(s[i]))
  }

  /** Lower-casing a second time changes nothing. */
  lemma {:induction false} LowerStrIdempotent(s: string)
    ensures LowerStr(LowerStr(s)) == LowerStr(s)
  {
  }

  /** `needle` occurs in `hay` starting at position `i`. */
  predicate OccursAt(hay: string, needle: string, i: nat) {
    i + |needle| <= |hay| && hay[i..i + |needle|] == needle
  }

  /** `needle` occurs in `hay` as a contiguous piece. */
  predicate Contains(hay: string, needle: string) {
    exists i: nat | i <= |hay| - |needle| :: OccursAt(hay, needle, i)
  }

  /** `label_code ILIKE '%query%'`, for queries without the wildcards `%` and `_`. */
  predicate LabelMatches(it: Item, query: string) {
    Contains(LowerStr(it.labelCode), LowerStr(query))
  }

  /** searchItemsByLabel: the items whose label contains the query, ignoring case,
      in table order. */
  function SearchByLabel(items: seq<Item>, query: string): (r: seq<Item>)
    ensures |r| <= |items|
    ensures forall it :: it in r <==> it in items && LabelMatches(it, query)
    ensures forall it | it in items :: multiset(r)[it] == if LabelMatches(it, query) then multiset(items)[it] else 0
  {
    Filter(items, it => LabelMatches(it, query))
  }

  /** The empty query becomes the pattern `%%` and so matches every item. */
  lemma {:induction false} EmptyQueryMatchesAll(items: seq<Item>)
    ensures SearchByLabel(items, "") == items
  {
    forall i | 0 <= i < |items| ensures LabelMatches(items[i], "") {
      assert OccursAt(LowerStr(items[i].labelCode), "", 0);
    }
    FilterKeepsAll(items, it => LabelMatches(it, ""));
  }

  /** Searching for an item's exact label, in any case, finds that item. */
  lemma {:induction false} ExactLabelIsFound(items: seq<Item>, k: nat, query: string)
    requires k < |items| && LowerStr(query) == LowerStr(items[k].labelCode)
    ensures items[k] in SearchByLabel(items, query)
  {
    var l := LowerStr(items[k].labelCode);
    assert OccursAt(l, LowerStr(query), 0);
    assert LabelMatches(items[k], query);
  }

  /** When the query occurs in one label only, the search returns just that item. */
  lemma {:induction false} ExactLabelIsOnlyResult(items: seq<Item>, k: nat, query: string)
    requires k < |items| && LowerStr(query) == LowerStr(items[k].labelCode)
    requires forall i | 0 <= i < |items| && i != k :: !LabelMatches(items[i], query)
    ensures SearchByLabel(items, query) == [items[k]]
  {
    ExactLabelIsFound(items, k, query);
    assert OccursAt(LowerStr(items[k].labelCode), LowerStr(query), 0);
    FilterSingle(items, it => LabelMatches(it, query), k);
  }

  /** The search ignores case: a query and its lower-case form find the same items. */
  lemma {:induction false} SearchIgnoresCase(items: seq<Item>, query: string)
    ensures SearchByLabel(items, query) == SearchByLabel(items, LowerStr(query))
  {
    LowerStrIdempotent(query);
    FilterCongruent(items, it => LabelMatches(it, query), it => LabelMatches(it, LowerStr(query)));
  }

  // ---------------------------------------------------------------------------
  // Borrowing records

  /** A record survives the inner joins with both the items and the users table. */
  predicate Joined(items: seq<Item>, users: seq<User>, r: Record) {
    FindItem(items, r.itemId).Some? && FindUser(users, r.userId).Some?
  }

  /** getBorrowingRecords: the records whose item and user both still exist,
      copied unchanged, in table order. */
  function BorrowingRecords(items: seq<Item>, users: seq<User>, records: seq<Record>): (r: seq<Record>)
    ensures |r| <= |records|
    ensures forall x :: x in r <==> x in records && Joined(items, users, x)
    ensures forall x | x in records :: multiset(r)[x] == if Joined(items, users, x) then multiset(records)[x] else 0
  {
    Filter(records, x => Joined(items, users, x))
  }

  /** When every record refers to an existing item and user, the join loses
      nothing, whatever the statuses. */
  lemma {:induction false} JoinKeepsReferencedRecords(items: seq<Item>, users: seq<User>, records: seq<Record>)
    requires forall j | 0 <= j < |records| ::
      (exists i | 0 <= i < |items| :: items[i].id == records[j].itemId)
      && (exists u | 0 <= u < |users| :: users[u].id == records[j].userId)
    ensures BorrowingRecords(items, users, records) == records
  {
    forall j | 0 <= j < |records| ensures Joined(items, users, records[j]) {
      var i :| 0 <= i < |items| && items[i].id == records[j].itemId;
      var u :| 0 <= u < |users| && users[u].id == records[j].userId;
      assert FindItem(items, records[j].itemId).Some?;
      assert FindUser(users, records[j].userId).Some?;
    }
    FilterKeepsAll(records, x => Joined(items, users, x));
  }

  /** getActiveBorrowings: the records in status `active` or `overdue`, unchanged. */
  function ActiveBorrowings(records: seq<Record>): (r: seq<Record>)
    ensures |r| <= |records|
    ensures forall x :: x in r <==> x in records && IsOpen(x.status)
    ensures forall x | x in records :: multiset(r)[x] == if IsOpen(x.status) then multiset(records)[x] else 0
    ensures forall x | x in r :: x.status != Returned
  {
    Filter(records, (x: Record) => IsOpen(x.status))
  }

  /** The sweep moves loans between the two open states, so the open-loan
      listing keeps its length. */
  lemma {:induction false} SweepKeepsActiveBorrowings(records: seq<Record>, now: Timestamp)
    ensures |ActiveBorrowings(SweepAll(records, now))| == |ActiveBorrowings(records)|
    decreases |records|
  {
    if records != [] {
      assert SweepAll(records, now)[1..] == SweepAll(records[1..], now);
      assert SweepAll(records, now)[0] == Swept(records[0], now);
      SweepKeepsActiveBorrowings(records[1..], now);
    }
  }

  // ---------------------------------------------------------------------------
  // Overdue report

  /** One row of getOverdueItems. */
  datatype OverdueRow = OverdueRow(
    recordId: int,
    itemName: string,
    labelCode: string,
    userName: string,
    userEmail: string,
    borrowedDate: Timestamp,
    dueDate: Timestamp,
    daysOverdue: int)

  /** `Math.floor((now - due) / 86400000)`: whole days since the due date,
      rounded down, and negative before it. */
  function DaysOverdue(now: Timestamp, due: Timestamp): (d: int)
    ensures DayMs * d <= now - due < DayMs * (d + 1)
  {
    (now - due) / DayMs
  }

  /** The day count never decreases as time passes. */
  lemma {:induction false} DaysOverdueMonotone(now1: Timestamp, now2: Timestamp, due: Timestamp)
    requires now1 <= now2
    ensures DaysOverdue(now1, due) <= DaysOverdue(now2, due)
  {
  }

  /** A record in status `overdue` whose item and user exist. */
  predicate ReportedOverdue(items: seq<Item>, users: seq<User>, r: Record) {
    r.status == Overdue && Joined(items, users, r)
  }

  /** The report row of a record that survives the joins. */
  function OverdueRowOf(items: seq<Item>, users: seq<User>, r: Record, now: Timestamp): (row: OverdueRow)
    requires Joined(items, users, r)
    ensures row.recordId == r.id && row.borrowedDate == r.borrowedDate && row.dueDate == r.dueDate
    ensures row.itemName == items[FindItem(items, r.itemId).value].name
    ensures row.labelCode == items[FindItem(items, r.itemId).value].labelCode
    ensures row.userName == users[FindUser(users, r.userId).value].name
    ensures row.userEmail == users[FindUser(users, r.userId).value].email
    ensures DayMs * row.daysOverdue <= now - r.dueDate < DayMs * (row.daysOverdue + 1)
  {
    var it := items[FindItem(items, r.itemId).value];
    var u := users[FindUser(users, r.userId).value];
    OverdueRow(r.id, it.name, it.labelCode, u.name, u.email, r.borrowedDate, r.dueDate,
               DaysOverdue(now, r.dueDate))
  }

  /** The records the overdue report selects: status exactly `overdue`, with
      item and user present, in table order. */
  function OverdueRecords(items: seq<Item>, users: seq<User>, records: seq<Record>): (picked: seq<Record>)
    ensures |picked| <= |records|
    ensures forall r :: r in picked <==> r in records && ReportedOverdue(items, users, r)
    ensures forall r | r in records ::
      multiset(picked)[r] == if ReportedOverdue(items, users, r) then multiset(records)[r] else 0
  {
    Filter(records, r => ReportedOverdue(items, users, r))
  }

  /** getOverdueItems: one row per selected record, in table order, carrying
      the record's dates, its item's name and label and its user's name and
      e-mail. */
  function OverdueItems(items: seq<Item>, users: seq<User>, records: seq<Record>, now: Timestamp): (rows: seq<OverdueRow>)
    ensures var picked := OverdueRecords(items, users, records);
      && |rows| == |picked|
      && forall i | 0 <= i < |rows| ::
           && picked[i] in records && ReportedOverdue(items, users, picked[i])
           && rows[i] == OverdueRowOf(items, users, picked[i], now)
  {
    var picked := OverdueRecords(items, users, records);
    forall i | 0 <= i < |picked| ensures picked[i] in records && ReportedOverdue(items, users, picked[i]) {
      assert picked[i] in picked;
    }
    seq(|picked|, i requires 0 <= i < |picked| => OverdueRowOf(items, users, picked[i], now))
  }

  /** With unique ids no listing repeats a row: each stored row that qualifies
      appears exactly once. */
  lemma {:induction false} ListingsRepeatNothing(items: seq<Item>, users: seq<User>, records: seq<Record>, query: string)
    requires UniqueItemIds(items) && UniqueRecordIds(records)
    ensures Distinct(SearchByLabel(items, query))
    ensures Distinct(BorrowingRecords(items, users, records))
    ensures Distinct(ActiveBorrowings(records))
    ensures Distinct(OverdueRecords(items, users, records))
  {
    FilterDistinct(items, it => LabelMatches(it, query));
    FilterDistinct(records, x => Joined(items, users, x));
    FilterDistinct(records, (x: Record) => IsOpen(x.status));
    FilterDistinct(records, r => ReportedOverdue(items, users, r));
  }

  /** Only the status counts: with no record in status `overdue` the report is
      empty, however late the active loans are. */
  lemma {:induction false} NoOverdueStatusNoRows(items: seq<Item>, users: seq<User>, records: seq<Record>, now: Timestamp)
    requires forall j | 0 <= j < |records| :: records[j].status != Overdue
    ensures OverdueItems(items, users, records, now) == []
  {
    FilterDropsAll(records, r => ReportedOverdue(items, users, r));
  }
}
