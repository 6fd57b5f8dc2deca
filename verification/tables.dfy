/**
 * The three tables as sequences of rows: lookups by primary key and the
 * constraints of the database schema (server/src/db/schema.ts).
 */
module Tables {
  import opened Schema
  import opened Accounting

  // ---------------------------------------------------------------------------
  // Lookups by primary key

  /** `SELECT ... WHERE id = ?` on a table, then row 0: the position of the
      first row whose key is `id`, or nothing. */
  function FindById<T>(rows: seq<T>, key: T -> int, id: int): (r: Option<nat>)
    ensures r.Some? ==> r.value < |rows| && key(rows[r.value]) == id
                        && forall j | 0 <= j < r.value :: key(rows[j]) != id
    ensures r.None? <==> forall j | 0 <= j < |rows| :: key(rows[j]) != id
    decreases |rows|
  {
    if rows == [] then None
    else
      var n := |rows| - 1;
      match FindById(rows[..n], key, id)
      case Some(k) => Some(k)
      case None => if key(rows[n]) == id then Some(n) else None
  }

  function FindItem(items: seq<Item>, id: int): Option<nat> {
    FindById(items, (it: Item) => it.id, id)
  }

  function FindRecord(records: seq<Record>, id: int): Option<nat> {
    FindById(records, (r: Record) => r.id, id)
  }

  function FindUser(users: seq<User>, id: int): Option<nat> {
    FindById(users, (u: User) => u.id, id)
  }

  /** With unique ids the first match is the only one. */
  lemma {:induction false} FindItemUnique(items: seq<Item>, k: nat)
    requires UniqueItemIds(items) && k < |items|
    ensures FindItem(items, items[k].id) == Some(k)
  {
  }

  lemma {:induction false} FindRecordUnique(records: seq<Record>, j: nat)
    requires UniqueRecordIds(records) && j < |records|
    ensures FindRecord(records, records[j].id) == Some(j)
  {
  }

  // ---------------------------------------------------------------------------
  // Table invariants, on values

  /** The items table: serial ids below the next value, unique ids and labels,
      and quantity columns in range. */
  predicate ItemsOk(items: seq<Item>, nextItemId: int) {
    && UniqueItemIds(items) && UniqueLabels(items)
    && forall i | 0 <= i < |items| :: 1 <= items[i].id < nextItemId && ItemRowOk(items[i])
  }

  /** The borrowing_records table. item_id refers to an item id that has been
      handed out, though the item itself may since have been deleted. */
  predicate RecordsOk(records: seq<Record>, nextItemId: int, nextRecordId: int) {
    && UniqueRecordIds(records)
    && forall j | 0 <= j < |records| ::
         1 <= records[j].id < nextRecordId && records[j].itemId < nextItemId && RecordRowOk(records[j])
  }

  lemma {:induction false} ItemsOkAppend(items: seq<Item>, nextItemId: int, it: Item)
    requires ItemsOk(items, nextItemId) && it.id == nextItemId >= 1 && ItemRowOk(it)
    requires !LabelInUse(items, it.labelCode)
    ensures ItemsOk(items + [it], nextItemId + 1)
  {
  }

  /** Replacing one row by one with the same id, a label no other row carries,
      and quantities in range. */
  lemma {:induction false} ItemsOkReplace(items: seq<Item>, nextItemId: int, k: nat, it: Item)
    requires ItemsOk(items, nextItemId) && k < |items|
    requires it.id == items[k].id && ItemRowOk(it)
    requires forall i | 0 <= i < |items| && i != k :: items[i].labelCode != it.labelCode
    ensures ItemsOk(items[k := it], nextItemId)
  {
  }

  lemma {:induction false} ItemsOkRemove(items: seq<Item>, nextItemId: int, k: nat)
    requires ItemsOk(items, nextItemId) && k < |items|
    ensures ItemsOk(items[..k] + items[k + 1..], nextItemId)
  {
  }

  lemma {:induction false} RecordsOkAppend(records: seq<Record>, nextItemId: int, nextRecordId: int, rec: Record)
    requires RecordsOk(records, nextItemId, nextRecordId)
    requires rec.id == nextRecordId >= 1 && rec.itemId < nextItemId && RecordRowOk(rec)
    ensures RecordsOk(records + [rec], nextItemId, nextRecordId + 1)
  {
  }

  lemma {:induction false} RecordsOkReplace(records: seq<Record>, nextItemId: int, nextRecordId: int, j: nat, rec: Record)
    requires RecordsOk(records, nextItemId, nextRecordId) && j < |records|
    requires rec.id == records[j].id && rec.itemId == records[j].itemId && RecordRowOk(rec)
    ensures RecordsOk(records[j := rec], nextItemId, nextRecordId)
  {
  }

  /** Handing out a new item id keeps every record's item_id below the serial. */
  lemma {:induction false} RecordsOkNewItemId(records: seq<Record>, nextItemId: int, nextRecordId: int)
    requires RecordsOk(records, nextItemId, nextRecordId)
    ensures RecordsOk(records, nextItemId + 1, nextRecordId)
    ensures forall j | 0 <= j < |records| :: records[j].itemId != nextItemId
  {
  }

  /** Adjusting the availability of `id` keeps the items table's constraints
      when no row of that id would fall below zero. */
  lemma {:induction false} ItemsOkAdjust(items: seq<Item>, nextItemId: int, id: int, delta: int, now: Timestamp)
    requires ItemsOk(items, nextItemId)
    requires forall i | 0 <= i < |items| && items[i].id == id :: items[i].quantityAvailable + delta >= 0
    ensures ItemsOk(AdjustAvailable(items, id, delta, now), nextItemId)
  {
  }
}
