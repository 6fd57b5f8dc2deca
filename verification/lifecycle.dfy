/**
 * The borrowing-record lifecycle: active -> overdue (the sweep),
 * active or overdue -> returned (a return); returned is final.
 */
module Lifecycle {
  import opened Schema

  /** A loan still out: the units it took have not come back. */
  predicate IsOpen(s: Status) {
    s == Active || s == Overdue
  }

  /** The transitions the handlers make. */
  predicate Step(from: Status, to: Status) {
    (from == Active && to == Overdue) || (IsOpen(from) && to == Returned)
  }

  /** A record the sweep picks up: still active and due strictly before `now`. */
  predicate IsDue(r: Record, now: Timestamp) {
    r.status == Active && r.dueDate < now
  }

  /** One record after the sweep's UPDATE ... SET status, updated_at. */
  function Swept(r: Record, now: Timestamp): Record {
    if IsDue(r, now) then r.(status := Overdue, updatedAt := now) else r
  }

  /** All records after the sweep. */
  function SweepAll(rs: seq<Record>, now: Timestamp): seq<Record> {
    seq(|rs|, i requires 0 <= i < |rs| => Swept(rs[i], now))
  }

  /** How many records are due at `now`: the row count the sweep reports. */
  function CountDue(rs: seq<Record>, now: Timestamp): nat
    decreases |rs|
  {
    if rs == [] then 0
    else CountDue(rs[..|rs| - 1], now) + (if IsDue(rs[|rs| - 1], now) then 1 else 0)
  }

  /** A record after a successful return. */
  function ReturnedRecord(r: Record, notes: Option<string>, now: Timestamp): (s: Record)
    requires IsOpen(r.status)
    ensures Step(r.status, s.status) && s.status == Returned
    ensures s.returnedDate == Some(now) && s.notes == notes && s.updatedAt == now
    ensures s.(status := r.status, returnedDate := r.returnedDate, notes := r.notes, updatedAt := r.updatedAt) == r
  {
    r.(status := Returned, returnedDate := Some(now), notes := notes, updatedAt := now)
  }

  /** The sweep changes nothing but status and updated_at; it moves exactly
      the due records to overdue and leaves returned and overdue ones alone. */
  lemma {:induction false} SweepChangesOnlyDue(rs: seq<Record>, now: Timestamp)
    ensures |SweepAll(rs, now)| == |rs|
    ensures forall i | 0 <= i < |rs| ::
      SweepAll(rs, now)[i].(status := rs[i].status, updatedAt := rs[i].updatedAt) == rs[i]
    ensures forall i | 0 <= i < |rs| ::
      if IsDue(rs[i], now)
      then Step(rs[i].status, SweepAll(rs, now)[i].status) && SweepAll(rs, now)[i].status == Overdue
      else SweepAll(rs, now)[i] == rs[i]
  {
  }

  /** After a sweep nothing is due at the same instant, so a second sweep reports 0. */
  lemma {:induction false} SweepClearsDue(rs: seq<Record>, now: Timestamp)
    ensures CountDue(SweepAll(rs, now), now) == 0
    decreases |rs|
  {
    if rs != [] {
      var n := |rs|;
      assert SweepAll(rs, now)[..n - 1] == SweepAll(rs[..n - 1], now);
      SweepClearsDue(rs[..n - 1], now);
    }
  }

  /** The sweep is idempotent at a fixed instant. */
  lemma {:induction false} SweepIdempotent(rs: seq<Record>, now: Timestamp)
    ensures SweepAll(SweepAll(rs, now), now) == SweepAll(rs, now)
  {
  }

  /** The count over a prefix grows by one record at a time (used by the sweep loop). */
  lemma {:induction false} CountDuePrefix(rs: seq<Record>, i: nat, now: Timestamp)
    requires i < |rs|
    ensures CountDue(rs[..i + 1], now) == CountDue(rs[..i], now) + (if IsDue(rs[i], now) then 1 else 0)
  {
    assert rs[..i + 1][..i] == rs[..i];
  }
}
