/**
 * Inventory accounting: for every item, the units missing from
 * quantity_available are exactly the units out on open loans.
 */
module Accounting {
  import opened Schema
  import opened Lifecycle

  /** What one record contributes to the units of `itemId` out on loan. */
  function Contribution(r: Record, itemId: int): int {
    if r.itemId == itemId && IsOpen(r.status) then r.quantityBorrowed else 0
  }

  /** Units of `itemId` out on open (active or overdue) loans. */
  function OutstandingQty(rs: seq<Record>, itemId: int): int
    decreases |rs|
  {
    if rs == [] then 0
    else OutstandingQty(rs[..|rs| - 1], itemId) + Contribution(rs[|rs| - 1], itemId)
  }

  /** Units of `itemId` on loans whose status is `active`: the sum the
      inventory update recomputes availability from. */
  function ActiveQty(rs: seq<Record>, itemId: int): int
    decreases |rs|
  {
    if rs == [] then 0
    else
      var r := rs[|rs| - 1];
      ActiveQty(rs[..|rs| - 1], itemId) + (if r.itemId == itemId && r.status == Active then r.quantityBorrowed else 0)
  }

  predicate NoOverdueLoans(rs: seq<Record>, itemId: int) {
    forall j | 0 <= j < |rs| :: rs[j].itemId == itemId ==> rs[j].status != Overdue
  }

  /** The guard of the item deletion: some loan of the item is `active`. */
  predicate HasActiveLoan(rs: seq<Record>, itemId: int) {
    exists j | 0 <= j < |rs| :: rs[j].itemId == itemId && rs[j].status == Active
  }

  /** The accounting invariant. */
  predicate Balanced(items: seq<Item>, rs: seq<Record>) {
    forall i | 0 <= i < |items| ::
      items[i].quantityTotal - items[i].quantityAvailable == OutstandingQty(rs, items[i].id)
  }

  /** `UPDATE inventory_items SET quantity_available = quantity_available + delta,
      updated_at = now WHERE id = itemId`: a no-op when no such item exists. */
  function AdjustAvailable(items: seq<Item>, itemId: int, delta: int, now: Timestamp): seq<Item> {
    seq(|items|, i requires 0 <= i < |items| =>
      if items[i].id == itemId
      then items[i].(quantityAvailable := items[i].quantityAvailable + delta, updatedAt := now)
      else items[i])
  }

  function Apply<T>(p: Patch<T>, current: T): T {
    match p
    case Keep => current
    case Put(v) => v
  }

  /** One column after a partial update: a field left out keeps the old value,
      a supplied field takes the supplied value (for a nullable column a
      supplied null clears it). */
  predicate Honours<T(==)>(p: Patch<T>, before: T, after: T) {
    && (p.Keep? ==> after == before)
    && (p.Put? ==> after == p.value)
  }

  /** The update input that supplies no field. */
  function NoChanges(id: int): UpdateItemInput {
    UpdateItemInput(id, Keep, Keep, Keep, Keep, Keep, Keep, Keep, Keep, Keep)
  }

  /** An item after a successful partial update, given the units of it on
      `active` loans. Supplying a total recomputes availability from it. */
  function Patched(it: Item, input: UpdateItemInput, activeBorrowed: int, now: Timestamp): (r: Item)
    ensures r.id == it.id && r.createdAt == it.createdAt && r.updatedAt == now
    ensures input.quantityTotal.Put? ==>
      r.quantityTotal == input.quantityTotal.value && r.quantityTotal - r.quantityAvailable == activeBorrowed
    ensures input.quantityTotal.Keep? ==>
      r.quantityTotal == it.quantityTotal && r.quantityAvailable == it.quantityAvailable
    ensures && Honours(input.name, it.name, r.name)
            && Honours(input.description, it.description, r.description)
            && Honours(input.itemType, it.itemType, r.itemType)
            && Honours(input.labelCode, it.labelCode, r.labelCode)
            && Honours(input.location, it.location, r.location)
            && Honours(input.purchaseDate, it.purchaseDate, r.purchaseDate)
            && Honours(input.purchasePrice, it.purchasePrice, r.purchasePrice)
            && Honours(input.conditionNotes, it.conditionNotes, r.conditionNotes)
    ensures input == NoChanges(it.id) ==> r == it.(updatedAt := now)
    ensures (ValidUpdateItemInput(input) && ItemRowOk(it)
             && (input.quantityTotal.Put? ==> input.quantityTotal.value >= activeBorrowed)) ==> ItemRowOk(r)
  {
    it.(name := Apply(input.name, it.name),
        description := Apply(input.description, it.description),
        itemType := Apply(input.itemType, it.itemType),
        labelCode := Apply(input.labelCode, it.labelCode),
        location := Apply(input.location, it.location),
        purchaseDate := Apply(input.purchaseDate, it.purchaseDate),
        purchasePrice := Apply(input.purchasePrice, it.purchasePrice),
        conditionNotes := Apply(input.conditionNotes, it.conditionNotes),
        quantityTotal := Apply(input.quantityTotal, it.quantityTotal),
        quantityAvailable :=
          if input.quantityTotal.Put? then input.quantityTotal.value - activeBorrowed else it.quantityAvailable,
        updatedAt := now)
  }

  // ---------------------------------------------------------------------------
  // Facts about the sums

  lemma {:induction false} OutstandingAppend(rs: seq<Record>, r: Record, itemId: int)
    ensures OutstandingQty(rs + [r], itemId) == OutstandingQty(rs, itemId) + Contribution(r, itemId)
  {
  }

  /** The active-only sum over a prefix grows by one record at a time
      (used by the loop that adds up the loans of an item). */
  lemma {:induction false} ActiveQtyPrefix(rs: seq<Record>, i: nat, itemId: int)
    requires i < |rs|
    ensures ActiveQty(rs[..i + 1], itemId)
            == ActiveQty(rs[..i], itemId) + (if rs[i].itemId == itemId && rs[i].status == Active then rs[i].quantityBorrowed else 0)
  {
    assert rs[..i + 1][..i] == rs[..i];
  }

  /** Replacing one record changes the sum by the difference of the two contributions. */
  lemma {:induction false} OutstandingReplace(rs: seq<Record>, j: nat, r: Record, itemId: int)
    requires j < |rs|
    ensures OutstandingQty(rs[j := r], itemId)
            == OutstandingQty(rs, itemId) - Contribution(rs[j], itemId) + Contribution(r, itemId)
    decreases |rs|
  {
    var n := |rs|;
    if j == n - 1 {
      assert rs[j := r][..n - 1] == rs[..n - 1];
    } else {
      assert rs[j := r][..n - 1] == rs[..n - 1][j := r];
      OutstandingReplace(rs[..n - 1], j, r, itemId);
    }
  }

  lemma {:induction false} OutstandingNonNegative(rs: seq<Record>, itemId: int)
    requires forall j | 0 <= j < |rs| :: rs[j].quantityBorrowed >= 0
    ensures OutstandingQty(rs, itemId) >= 0
    decreases |rs|
  {
    if rs != [] {
      OutstandingNonNegative(rs[..|rs| - 1], itemId);
    }
  }

  /** No record refers to the item: nothing of it is out. */
  lemma {:induction false} OutstandingOfUnreferenced(rs: seq<Record>, itemId: int)
    requires forall j | 0 <= j < |rs| :: rs[j].itemId != itemId
    ensures OutstandingQty(rs, itemId) == 0 && ActiveQty(rs, itemId) == 0
    decreases |rs|
  {
    if rs != [] {
      OutstandingOfUnreferenced(rs[..|rs| - 1], itemId);
    }
  }

  /** The active-only sum is the open-loan sum exactly when no overdue loan
      contributes; with overdue loans it is smaller. */
  lemma {:induction false} ActiveVersusOutstanding(rs: seq<Record>, itemId: int)
    requires forall j | 0 <= j < |rs| :: rs[j].quantityBorrowed >= 1
    ensures ActiveQty(rs, itemId) <= OutstandingQty(rs, itemId)
    ensures ActiveQty(rs, itemId) == OutstandingQty(rs, itemId) <==> NoOverdueLoans(rs, itemId)
    decreases |rs|
  {
    if rs != [] {
      var n := |rs|;
      var init := rs[..n - 1];
      ActiveVersusOutstanding(init, itemId);
      if NoOverdueLoans(rs, itemId) {
        assert NoOverdueLoans(init, itemId) by {
          forall j | 0 <= j < |init| && init[j].itemId == itemId ensures init[j].status != Overdue {
            assert init[j] == rs[j];
          }
        }
      } else {
        var j :| 0 <= j < n && rs[j].itemId == itemId && rs[j].status == Overdue;
        if j < n - 1 {
          assert init[j] == rs[j];
          assert !NoOverdueLoans(init, itemId);
        }
      }
    }
  }

  /** The sweep moves loans between two open states, so no sum of open loans changes. */
  lemma {:induction false} SweepKeepsOutstanding(rs: seq<Record>, itemId: int, now: Timestamp)
    ensures OutstandingQty(SweepAll(rs, now), itemId) == OutstandingQty(rs, itemId)
    decreases |rs|
  {
    if rs != [] {
      var n := |rs|;
      assert SweepAll(rs, now)[..n - 1] == SweepAll(rs[..n - 1], now);
      SweepKeepsOutstanding(rs[..n - 1], itemId, now);
    }
  }

  /** Under the invariant, and with well-formed rows, availability never exceeds the total. */
  lemma {:induction false} BalancedBounds(items: seq<Item>, rs: seq<Record>)
    requires Balanced(items, rs)
    requires forall j | 0 <= j < |rs| :: RecordRowOk(rs[j])
    requires forall i | 0 <= i < |items| :: ItemRowOk(items[i])
    ensures forall i | 0 <= i < |items| :: 0 <= items[i].quantityAvailable <= items[i].quantityTotal
  {
    forall i | 0 <= i < |items| ensures items[i].quantityAvailable <= items[i].quantityTotal {
      OutstandingNonNegative(rs, items[i].id);
    }
  }

  /** With unique ids the adjustment touches exactly one position. */
  lemma {:induction false} AdjustAt(items: seq<Item>, k: nat, delta: int, now: Timestamp)
    requires UniqueItemIds(items) && k < |items|
    ensures AdjustAvailable(items, items[k].id, delta, now)
            == items[k := items[k].(quantityAvailable := items[k].quantityAvailable + delta, updatedAt := now)]
  {
  }

  /** A borrow followed by the return of the same units restores every quantity. */
  lemma {:induction false} BorrowThenReturnRestores(items: seq<Item>, itemId: int, q: int, t1: Timestamp, t2: Timestamp)
    ensures var after := AdjustAvailable(AdjustAvailable(items, itemId, -q, t1), itemId, q, t2);
            |after| == |items| &&
            forall i | 0 <= i < |items| ::
              after[i] == items[i].(updatedAt := if items[i].id == itemId then t2 else items[i].updatedAt)
  {
  }

  // ---------------------------------------------------------------------------
  // The operations keep the invariant

  /** A new item with a fresh id and everything available is balanced. */
  lemma {:induction false} CreatePreservesBalance(items: seq<Item>, rs: seq<Record>, it: Item)
    requires Balanced(items, rs)
    requires it.quantityAvailable == it.quantityTotal
    requires forall j | 0 <= j < |rs| :: rs[j].itemId != it.id
    ensures Balanced(items + [it], rs)
  {
    OutstandingOfUnreferenced(rs, it.id);
  }

  /** Taking `q` units out of availability and recording an open loan of `q` units. */
  lemma {:induction false} BorrowPreservesBalance(items: seq<Item>, rs: seq<Record>, rec: Record, now: Timestamp)
    requires Balanced(items, rs)
    requires IsOpen(rec.status)
    ensures Balanced(AdjustAvailable(items, rec.itemId, -rec.quantityBorrowed, now), rs + [rec])
  {
    // The new loan adds its quantity to its own item's open-loan sum only.
    forall i | 0 <= i < |items| {
      OutstandingAppend(rs, rec, items[i].id);
    }
  }

  /** Closing an open loan and giving its units back. This holds whether or
      not the item still exists. */
  lemma {:induction false} ReturnPreservesBalance(items: seq<Item>, rs: seq<Record>, j: nat, notes: Option<string>, now: Timestamp)
    requires Balanced(items, rs)
    requires j < |rs| && IsOpen(rs[j].status)
    ensures Balanced(AdjustAvailable(items, rs[j].itemId, rs[j].quantityBorrowed, now),
                     rs[j := ReturnedRecord(rs[j], notes, now)])
  {
    var after := AdjustAvailable(items, rs[j].itemId, rs[j].quantityBorrowed, now);
    var rs' := rs[j := ReturnedRecord(rs[j], notes, now)];
    forall i | 0 <= i < |after|
      ensures after[i].quantityTotal - after[i].quantityAvailable == OutstandingQty(rs', after[i].id)
    {
      OutstandingReplace(rs, j, ReturnedRecord(rs[j], notes, now), items[i].id);
    }
  }

  lemma {:induction false} SweepPreservesBalance(items: seq<Item>, rs: seq<Record>, now: Timestamp)
    requires Balanced(items, rs)
    ensures Balanced(items, SweepAll(rs, now))
  {
    forall i | 0 <= i < |items|
      ensures items[i].quantityTotal - items[i].quantityAvailable == OutstandingQty(SweepAll(rs, now), items[i].id)
    {
      SweepKeepsOutstanding(rs, items[i].id, now);
    }
  }

  /** Removing an item leaves every other item, and so its balance, as it was. */
  lemma {:induction false} DeletePreservesBalance(items: seq<Item>, rs: seq<Record>, k: nat)
    requires Balanced(items, rs) && k < |items|
    ensures Balanced(items[..k] + items[k + 1..], rs)
  {
  }

  /** The update recomputes availability from `active` loans only, so it keeps
      the invariant when the item has no overdue loan. */
  lemma {:induction false} UpdatePreservesBalance(items: seq<Item>, rs: seq<Record>, k: nat, input: UpdateItemInput, now: Timestamp)
    requires Balanced(items, rs) && k < |items|
    requires forall j | 0 <= j < |rs| :: rs[j].quantityBorrowed >= 1
    requires input.quantityTotal.Keep? || NoOverdueLoans(rs, items[k].id)
    ensures Balanced(items[k := Patched(items[k], input, ActiveQty(rs, items[k].id), now)], rs)
  {
    ActiveVersusOutstanding(rs, items[k].id);
  }

  /** The converse: an update that supplies a total, on an item with a loan in
      status `overdue`, leaves that item's row out of balance, whatever the
      store was before. */
  lemma {:induction false} UpdateTotalWithOverdueLoanBreaksBalance(items: seq<Item>, rs: seq<Record>, k: nat, input: UpdateItemInput, now: Timestamp)
    requires k < |items| && input.quantityTotal.Put?
    requires forall j | 0 <= j < |rs| :: rs[j].quantityBorrowed >= 1
    requires !NoOverdueLoans(rs, items[k].id)
    ensures !Balanced(items[k := Patched(items[k], input, ActiveQty(rs, items[k].id), now)], rs)
  {
    var patched := Patched(items[k], input, ActiveQty(rs, items[k].id), now);
    ActiveVersusOutstanding(rs, items[k].id);
    assert items[k := patched][k] == patched;
    assert patched.quantityTotal - patched.quantityAvailable != OutstandingQty(rs, patched.id);
  }

  /** With an overdue loan outstanding, an update that supplies the unchanged
      total breaks the invariant: availability is credited with the overdue
      units, and returning that loan afterwards lifts availability above the total. */
  lemma {:induction false} UpdateWithOverdueLoanBreaksBalance()
    ensures
      var it := Item(1, "Microscope", None, LaboratoryEquipment, "LAB001", 5, 3, None, None, None, None, 0, 0);
      var rs := [Record(1, 1, 1, 2, 0, DayMs, None, Overdue, None, 0, 2 * DayMs)];
      var input := NoChanges(1).(quantityTotal := Put(5));
      var updated := Patched(it, input, ActiveQty(rs, 1), 3 * DayMs);
      var returned := AdjustAvailable([updated], 1, 2, 4 * DayMs);
      && Balanced([it], rs)
      && updated.quantityAvailable == 5
      && !Balanced([updated], rs)
      && returned[0].quantityAvailable == 7 > returned[0].quantityTotal
  {
    var it := Item(1, "Microscope", None, LaboratoryEquipment, "LAB001", 5, 3, None, None, None, None, 0, 0);
    var rs := [Record(1, 1, 1, 2, 0, DayMs, None, Overdue, None, 0, 2 * DayMs)];
    assert rs[..0] == [];
    assert OutstandingQty(rs, 1) == 2;
    assert ActiveQty(rs, 1) == 0;
    var updated := Patched(it, NoChanges(1).(quantityTotal := Put(5)), 0, 3 * DayMs);
    assert updated.quantityAvailable == 5;
    assert AdjustAvailable([updated], 1, 2, 4 * DayMs)[0] == updated.(quantityAvailable := 7, updatedAt := 4 * DayMs);
  }
}
