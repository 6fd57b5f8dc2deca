/**
 * The handlers that change the database: create, update and delete an
 * inventory item, borrow, return, and the overdue sweep. The three tables
 * are the fields of one `Store`; serial ids come from two counters.
 */
module Handlers {
  import opened Schema
  import opened Lifecycle
  import opened Accounting
  import opened Tables

  // ---------------------------------------------------------------------------
  // The store

  class Store {
    var items: seq<Item>
    var records: seq<Record>
    var users: seq<User>
    /** The next value of the inventory_items id serial. */
    var nextItemId: int
    /** The next value of the borrowing_records id serial. */
    var nextRecordId: int

    /** The table constraints and column types the handlers rely on. */
    ghost predicate Valid()
      reads this
    {
      && nextItemId >= 1 && nextRecordId >= 1
      && ItemsOk(items, nextItemId)
      && RecordsOk(records, nextItemId, nextRecordId)
      && UniqueUserIds(users) && UniqueEmails(users)
    }

    /** An empty inventory over a fixed set of users; both serials start at 1. */
    constructor (users: seq<User>)
      requires UniqueUserIds(users) && UniqueEmails(users)
      ensures Valid() && Balanced(items, records)
      ensures items == [] && records == [] && this.users == users
      ensures nextItemId == 1 && nextRecordId == 1
    {
      items := [];
      records := [];
      this.users := users;
      nextItemId := 1;
      nextRecordId := 1;
    }

    /** createInventoryItem. A label already in use violates the UNIQUE
        constraint of label_code, and the insert adds nothing. */
    method CreateItem(input: CreateItemInput, now: Timestamp) returns (res: Result<Item>)
      requires Valid() && ValidCreateItemInput(input)
      modifies this
      ensures Valid()
      ensures LabelInUse(old(items), input.labelCode) ==>
        res == Err(DuplicateLabel(input.labelCode)) && unchanged(this)
      ensures !LabelInUse(old(items), input.labelCode) ==>
        && res == Ok(NewItem(old(nextItemId), input, now))
        && items == old(items) + [res.value]
        && records == old(records) && users == old(users)
        && nextItemId == old(nextItemId) + 1 && nextRecordId == old(nextRecordId)
      ensures old(Balanced(items, records)) ==> Balanced(items, records)
    {
      if LabelInUse(items, input.labelCode) {
        return Err(DuplicateLabel(input.labelCode));
      }
      var it := NewItem(nextItemId, input, now);
      if Balanced(items, records) {
        CreatePreservesBalance(items, records, it);
      }
      ItemsOkAppend(items, nextItemId, it);
      RecordsOkNewItemId(records, nextItemId, nextRecordId);
      items := items + [it];
      nextItemId := nextItemId + 1;
      res := Ok(it);
    }

    /** The sum of quantity_borrowed over the `active` loans of `itemId`
        (`SELECT sum(quantity_borrowed) ... WHERE item_id = ? AND status = 'active'`,
        with a missing sum read as 0). */
    method ActiveBorrowed(itemId: int) returns (total: int)
      ensures total == ActiveQty(records, itemId)
    {
      total := 0;
      var j := 0;
      while j < |records|
        invariant 0 <= j <= |records|
        invariant total == ActiveQty(records[..j], itemId)
      {
        ActiveQtyPrefix(records, j, itemId);
        if records[j].itemId == itemId && records[j].status == Active {
          total := total + records[j].quantityBorrowed;
        }
        j := j + 1;
      }
      assert records[..j] == records;
    }

    /** updateInventoryItem. Errors in the order the handler meets them: the
        missing item, a total below the units on `active` loans, and a label
        that another item already carries (the UNIQUE constraint at the write). */
    method UpdateItem(input: UpdateItemInput, now: Timestamp) returns (res: Result<Item>)
      requires Valid() && ValidUpdateItemInput(input)
      modifies this
      ensures Valid()
      ensures FindItem(old(items), input.id).None? ==>
        res == Err(ItemNotFound(input.id)) && unchanged(this)
      ensures FindItem(old(items), input.id).Some? ==>
        var k := FindItem(old(items), input.id).value;
        var borrowed := ActiveQty(old(records), input.id);
        if input.quantityTotal.Put? && input.quantityTotal.value - borrowed < 0 then
          res == Err(TotalBelowBorrowed(input.quantityTotal.value, borrowed)) && unchanged(this)
        else if input.labelCode.Put? && LabelTakenByOther(old(items), input.labelCode.value, input.id) then
          res == Err(DuplicateLabel(input.labelCode.value)) && unchanged(this)
        else
          && res == Ok(Patched(old(items)[k], input, borrowed, now))
          && items == old(items)[k := res.value]
          && records == old(records) && users == old(users)
          && nextItemId == old(nextItemId) && nextRecordId == old(nextRecordId)
      ensures old(Balanced(items, records)) && (input.quantityTotal.Keep? || NoOverdueLoans(old(records), input.id))
        ==> Balanced(items, records)
    {
      var found := FindItem(items, input.id);
      if found.None? {
        return Err(ItemNotFound(input.id));
      }
      var k := found.value;
      var it := items[k];
      var updated := it.(updatedAt := now);
      updated := updated.(name := Apply(input.name, updated.name));
      updated := updated.(description := Apply(input.description, updated.description));
      updated := updated.(itemType := Apply(input.itemType, updated.itemType));
      updated := updated.(labelCode := Apply(input.labelCode, updated.labelCode));
      updated := updated.(location := Apply(input.location, updated.location));
      updated := updated.(purchaseDate := Apply(input.purchaseDate, updated.purchaseDate));
      updated := updated.(purchasePrice := Apply(input.purchasePrice, updated.purchasePrice));
      updated := updated.(conditionNotes := Apply(input.conditionNotes, updated.conditionNotes));
      var borrowed := ActiveBorrowed(input.id);
      if input.quantityTotal.Put? {
        updated := updated.(quantityTotal := input.quantityTotal.value,
                            quantityAvailable := input.quantityTotal.value - borrowed);
        if updated.quantityAvailable < 0 {
          return Err(TotalBelowBorrowed(input.quantityTotal.value, borrowed));
        }
      }
      if input.labelCode.Put? && LabelTakenByOther(items, input.labelCode.value, input.id) {
        return Err(DuplicateLabel(input.labelCode.value));
      }
      assert updated == Patched(it, input, borrowed, now);
      forall i | 0 <= i < |items| && i != k ensures items[i].labelCode != updated.labelCode {
        assert items[i].id != items[k].id;
      }
      ItemsOkReplace(items, nextItemId, k, updated);
      if Balanced(items, records) && (input.quantityTotal.Keep? || NoOverdueLoans(records, input.id)) {
        UpdatePreservesBalance(items, records, k, input, now);
      }
      items := items[k := updated];
      res := Ok(updated);
    }

    /** deleteInventoryItem. An unknown id answers `false`; only a loan in
        status `active` blocks the removal. */
    method DeleteItem(id: int) returns (res: Result<bool>)
      requires Valid()
      modifies this
      ensures Valid()
      ensures FindItem(old(items), id).None? ==> res == Ok(false) && unchanged(this)
      ensures FindItem(old(items), id).Some? && HasActiveLoan(old(records), id) ==>
        res == Err(HasActiveBorrowings) && unchanged(this)
      ensures FindItem(old(items), id).Some? && !HasActiveLoan(old(records), id) ==>
        var k := FindItem(old(items), id).value;
        && res == Ok(true)
        && items == old(items)[..k] + old(items)[k + 1..]
        && records == old(records) && users == old(users)
        && nextItemId == old(nextItemId) && nextRecordId == old(nextRecordId)
      ensures old(Balanced(items, records)) ==> Balanced(items, records)
    {
      var found := FindItem(items, id);
      if found.None? {
        return Ok(false);
      }
      if HasActiveLoan(records, id) {
        return Err(HasActiveBorrowings);
      }
      var k := found.value;
      if Balanced(items, records) {
        DeletePreservesBalance(items, records, k);
      }
      var rest := items[..k] + items[k + 1..];
      ItemsOkRemove(items, nextItemId, k);
      items := rest;
      res := Ok(true);
    }

    /** createBorrowingRecord. The user is checked before the item; borrowing
        exactly the available units is allowed. */
    method Borrow(input: BorrowInput, now: Timestamp) returns (res: Result<Record>)
      requires Valid() && ValidBorrowInput(input)
      modifies this
      ensures Valid()
      ensures FindUser(old(users), input.userId).None? ==>
        res == Err(UserNotFound(input.userId)) && unchanged(this)
      ensures FindUser(old(users), input.userId).Some? && FindItem(old(items), input.itemId).None? ==>
        res == Err(ItemNotFound(input.itemId)) && unchanged(this)
      ensures FindUser(old(users), input.userId).Some? && FindItem(old(items), input.itemId).Some? ==>
        var k := FindItem(old(items), input.itemId).value;
        var available := old(items)[k].quantityAvailable;
        if available < input.quantityBorrowed then
          res == Err(InsufficientQuantity(input.quantityBorrowed, available)) && unchanged(this)
        else
          && res == Ok(NewRecord(old(nextRecordId), input, now))
          && items == old(items)[k := old(items)[k].(quantityAvailable := available - input.quantityBorrowed,
                                                     updatedAt := now)]
          && records == old(records) + [res.value] && users == old(users)
          && nextItemId == old(nextItemId) && nextRecordId == old(nextRecordId) + 1
      ensures old(Balanced(items, records)) ==> Balanced(items, records)
    {
      if FindUser(users, input.userId).None? {
        return Err(UserNotFound(input.userId));
      }
      var found := FindItem(items, input.itemId);
      if found.None? {
        return Err(ItemNotFound(input.itemId));
      }
      var k := found.value;
      if items[k].quantityAvailable < input.quantityBorrowed {
        return Err(InsufficientQuantity(input.quantityBorrowed, items[k].quantityAvailable));
      }
      var rec := NewRecord(nextRecordId, input, now);
      var newItems := AdjustAvailable(items, input.itemId, -input.quantityBorrowed, now);
      var newRecords := records + [rec];
      if Balanced(items, records) {
        BorrowPreservesBalance(items, records, rec, now);
      }
      AdjustAt(items, k, -input.quantityBorrowed, now);
      ItemsOkAdjust(items, nextItemId, input.itemId, -input.quantityBorrowed, now);
      RecordsOkAppend(records, nextItemId, nextRecordId, rec);
      items, records, nextRecordId := newItems, newRecords, nextRecordId + 1;
      res := Ok(rec);
    }

    /** returnItem. Active and overdue loans can be returned; the item's
        availability rises by the loan's quantity with no cap at the total,
        and nothing happens to the items table if the item is gone. */
    method ReturnItem(input: ReturnInput, now: Timestamp) returns (res: Result<Record>)
      requires Valid()
      modifies this
      ensures Valid()
      ensures FindRecord(old(records), input.recordId).None? ==>
        res == Err(RecordNotFound(input.recordId)) && unchanged(this)
      ensures FindRecord(old(records), input.recordId).Some? ==>
        var j := FindRecord(old(records), input.recordId).value;
        var rec := old(records)[j];
        if rec.status == Returned then
          res == Err(AlreadyReturned) && unchanged(this)
        else
          && res == Ok(ReturnedRecord(rec, input.notes, now))
          && records == old(records)[j := res.value]
          && items == AdjustAvailable(old(items), rec.itemId, rec.quantityBorrowed, now)
          && users == old(users)
          && nextItemId == old(nextItemId) && nextRecordId == old(nextRecordId)
      ensures old(Balanced(items, records)) ==> Balanced(items, records)
    {
      var found := FindRecord(records, input.recordId);
      if found.None? {
        return Err(RecordNotFound(input.recordId));
      }
      var j := found.value;
      var rec := records[j];
      if rec.status != Active && rec.status != Overdue {
        return Err(AlreadyReturned);
      }
      if Balanced(items, records) {
        ReturnPreservesBalance(items, records, j, input.notes, now);
      }
      var closed := ReturnedRecord(rec, input.notes, now);
      RecordsOkReplace(records, nextItemId, nextRecordId, j, closed);
      ItemsOkAdjust(items, nextItemId, rec.itemId, rec.quantityBorrowed, now);
      records := records[j := closed];
      items := AdjustAvailable(items, rec.itemId, rec.quantityBorrowed, now);
      res := Ok(closed);
    }

    /** updateOverdueStatus: every `active` record due before `now` becomes
        `overdue`; the answer is the number of rows changed. */
    method SweepOverdue(now: Timestamp) returns (count: nat)
      requires Valid()
      modifies this
      ensures Valid()
      ensures records == SweepAll(old(records), now)
      ensures count == CountDue(old(records), now)
      ensures items == old(items) && users == old(users)
      ensures nextItemId == old(nextItemId) && nextRecordId == old(nextRecordId)
      ensures old(Balanced(items, records)) ==> Balanced(items, records)
    {
      if Balanced(items, records) {
        SweepPreservesBalance(items, records, now);
      }
      count := 0;
      var i := 0;
      while i < |records|
        invariant 0 <= i <= |records| == |old(records)|
        invariant forall j | 0 <= j < i :: records[j] == Swept(old(records)[j], now)
        invariant forall j | i <= j < |records| :: records[j] == old(records)[j]
        invariant count == CountDue(old(records)[..i], now)
        invariant items == old(items) && users == old(users)
        invariant nextItemId == old(nextItemId) && nextRecordId == old(nextRecordId)
      {
        CountDuePrefix(old(records), i, now);
        if IsDue(records[i], now) {
          records := records[i := records[i].(status := Overdue, updatedAt := now)];
          count := count + 1;
        }
        i := i + 1;
      }
      assert old(records)[..i] == old(records);
    }
  }

  // ---------------------------------------------------------------------------
  // Client scenarios

  /** A five-unit digital book; a teacher borrows two units for fourteen days,
      leaving three; the return brings availability back to five; a second
      return of the same loan is refused. */
  method BorrowReturnScenario(now: Timestamp)
    returns (afterBorrow: int, loan: Record, afterReturn: int, closed: Record, again: Result<Record>)
    ensures afterBorrow == 3 && afterReturn == 5
    ensures loan.status == Active && loan.quantityBorrowed == 2 && loan.dueDate == loan.borrowedDate + 14 * DayMs
    ensures closed.status == Returned && closed.notes == None && closed.returnedDate == Some(now + DayMs)
    ensures again == Err(AlreadyReturned)
  {
    var teacher := User(1, "Jane Smith", "jane@example.com", Teacher, None, Some("Computer Science"), 0);
    var store := new Store([teacher]);
    var book := CreateItemInput("Test Book", Some("Digital book for testing"), DigitalBook, "BOOK001", 5,
                                Some("Digital Library"), None, None, None);
    assert !LabelInUse([], "BOOK001");
    var created := store.CreateItem(book, now);
    assert store.items == [NewItem(1, book, now)] && store.records == [] && store.nextRecordId == 1;
    assert FindUser(store.users, 1) == Some(0);
    assert FindItem(store.items, 1) == Some(0);
    var borrowed := store.Borrow(BorrowInput(1, 1, 2, 14, None), now);
    afterBorrow := store.items[0].quantityAvailable;
    loan := borrowed.value;
    assert store.records == [loan] && loan.id == 1;
    assert FindRecord(store.records, 1) == Some(0);
    var returned := store.ReturnItem(ReturnInput(1, None), now + DayMs);
    afterReturn := store.items[0].quantityAvailable;
    closed := returned.value;
    assert FindRecord(store.records, 1) == Some(0) && store.records[0].status == Returned;
    again := store.ReturnItem(ReturnInput(1, Some("Trying to return again")), now + 2 * DayMs);
  }

  /** A loan left past its due date is swept to overdue once; a second
      sweep at the same instant changes nothing. */
  method SweepScenario(now: Timestamp) returns (first: nat, second: nat, status: Status)
    ensures first == 1 && second == 0 && status == Overdue
  {
    var student := User(2, "Ben", "ben@school.example", Student, Some("S-17"), None, 0);
    var store := new Store([student]);
    var beakers := CreateItemInput("Beaker set", None, LaboratoryEquipment, "LAB-002", 10, None, None, None, None);
    assert !LabelInUse([], "LAB-002");
    var created := store.CreateItem(beakers, now);
    assert store.items == [NewItem(1, beakers, now)] && store.records == [] && store.nextRecordId == 1;
    assert FindUser(store.users, 2) == Some(0);
    assert FindItem(store.items, 1) == Some(0);
    var loan := BorrowInput(1, 2, 1, 3, None);
    var borrowed := store.Borrow(loan, now);
    ghost var before := store.records;
    assert before == [NewRecord(1, loan, now)];
    assert before[..0] == [];
    first := store.SweepOverdue(now + 4 * DayMs);
    status := store.records[0].status;
    SweepClearsDue(before, now + 4 * DayMs);
    second := store.SweepOverdue(now + 4 * DayMs);
  }
}
