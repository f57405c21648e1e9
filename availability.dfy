/**
 * The slot model of `core/manager.py`: a table is taken for a date, time and
 * shift when some reservation on it has exactly that date, time and shift,
 * unless that reservation is the one being edited or moved.
 */
module Availability {
  import opened Base
  import opened Models
  import opened Catalog

  /** The four-way exact match of `get_reservations_on_table_at_datetime_and_shift`. */
  predicate AtSlot(r: Reservation, tableId: string, date: string, time: string, shift: string)
  {
    r.tableId == tableId && r.date == date && r.shift == shift && r.time == time
  }

  /** `reservation_id_to_ignore`; `None` ignores nothing, since no id equals None. */
  predicate Ignored(r: Reservation, ignore: Option<string>)
  {
    ignore.Some? && r.id == ignore.value
  }

  /** `get_reservations_on_table_at_datetime_and_shift`: the reservations on the slot, in list order. */
  function ReservationsAtSlot(xs: seq<Reservation>, tableId: string, date: string, time: string, shift: string): (rs: seq<Reservation>)
    ensures forall r :: r in rs <==> r in xs && AtSlot(r, tableId, date, time, shift)
    ensures |rs| <= |xs|
  {
    if xs == [] then []
    else
      var rest := ReservationsAtSlot(xs[1..], tableId, date, time, shift);
      assert forall r :: r in xs <==> r == xs[0] || r in xs[1..];
      if AtSlot(xs[0], tableId, date, time, shift) then [xs[0]] + rest else rest
  }

  /** The loop of `is_table_available_for_specific_reservation_time`: skip the ignored id, refuse on any other. */
  function OnlyIgnored(rs: seq<Reservation>, ignore: Option<string>): (free: bool)
    ensures free <==> forall r :: r in rs ==> Ignored(r, ignore)
  {
    if rs == [] then true
    else if Ignored(rs[0], ignore) then
      var rest := OnlyIgnored(rs[1..], ignore);
      assert forall r :: r in rs <==> r == rs[0] || r in rs[1..];
      rest
    else false
  }

  /** `is_table_available_for_specific_reservation_time`. */
  function IsTableAvailable(xs: seq<Reservation>, tableId: string, date: string, time: string, shift: string,
                            ignore: Option<string>): (free: bool)
    ensures !free <==> exists r :: r in xs && AtSlot(r, tableId, date, time, shift) && !Ignored(r, ignore)
  {
    OnlyIgnored(ReservationsAtSlot(xs, tableId, date, time, shift), ignore)
  }

  /** Once `r` is stored, its slot is refused to every booking except an edit of `r` itself. */
  lemma SecondBookingRefused(xs: seq<Reservation>, r: Reservation, ignore: Option<string>)
    requires !Ignored(r, ignore)
    ensures !IsTableAvailable(xs + [r], r.tableId, r.date, r.time, r.shift, ignore)
  {
    assert (xs + [r])[|xs|] == r;
  }

  /** Ignoring the slot's sole occupant frees the slot. */
  lemma SoleOccupantIgnored(xs: seq<Reservation>, r: Reservation)
    requires r in xs
    requires forall q :: q in xs && AtSlot(q, r.tableId, r.date, r.time, r.shift) ==> q.id == r.id
    ensures IsTableAvailable(xs, r.tableId, r.date, r.time, r.shift, Some(r.id))
    ensures !IsTableAvailable(xs, r.tableId, r.date, r.time, r.shift, None)
  {
  }

  /** No two reservations with different ids hold the same table at the same date, time and shift. */
  predicate NoDoubleBooking(xs: seq<Reservation>)
  {
    forall a, b :: a in xs && b in xs && a.id != b.id ==> !AtSlot(b, a.tableId, a.date, a.time, a.shift)
  }

  /**
   * Replacing the record at `i` by a record with the same id keeps every slot
   * exclusive when the new record stays on the old slot or its new slot was
   * free apart from the record itself: the check a move and a guarded edit make.
   */
  lemma RebookKeepsNoDoubleBooking(xs: seq<Reservation>, i: nat, r: Reservation)
    requires i < |xs| && NoDoubleBooking(xs) && r.id == xs[i].id
    requires AtSlot(r, xs[i].tableId, xs[i].date, xs[i].time, xs[i].shift) ||
             IsTableAvailable(xs, r.tableId, r.date, r.time, r.shift, Some(r.id))
    ensures NoDoubleBooking(xs[i := r])
  {
    var ys := xs[i := r];
    assert forall q :: q in ys ==> q == r || q in xs by {
      forall q | q in ys ensures q == r || q in xs {
        var k :| 0 <= k < |ys| && ys[k] == q;
        if k != i { assert xs[k] == q; }
      }
    }
    forall a, b | a in ys && b in ys && a.id != b.id
      ensures !AtSlot(b, a.tableId, a.date, a.time, a.shift)
    {
      if a == r && b != r {
        assert xs[i] in xs;
      } else if b == r && a != r {
        assert xs[i] in xs;
      }
    }
  }

  /**
   * `get_available_tables_for_moving`: the catalog tables, in catalog order,
   * other than the reservation's own, whose slot at the reservation's date,
   * time and shift is free once the reservation itself is ignored; no table
   * for a missing reservation.
   */
  method AvailableTablesForMoving(xs: seq<Reservation>, original: Option<Reservation>) returns (targets: seq<Table>)
    ensures original.None? ==> targets == []
    ensures original.Some? ==> forall t :: t in targets <==>
      t in AllTables() && t.id != original.value.tableId &&
      IsTableAvailable(xs, t.id, original.value.date, original.value.time, original.value.shift, Some(original.value.id))
    ensures forall i, j :: 0 <= i < j < |targets| ==> CatalogIndex(targets[i].id) < CatalogIndex(targets[j].id)
  {
    targets := [];
    if original.None? {
      return;
    }
    var r := original.value;
    ghost var pos;
    targets, pos := FreeTablesAmong(xs, AllTables(), r);
    forall i | 0 <= i < |targets|
      ensures CatalogIndex(targets[i].id) == pos[i]
    {
      CatalogIndexOfTable(pos[i]);
    }
  }

  /**
   * The loop of `get_available_tables_for_moving` over a list of tables:
   * keeps, in list order, those other than the reservation's own whose slot
   * is free once the reservation is ignored; `pos` are their positions.
   */
  method FreeTablesAmong(xs: seq<Reservation>, tables: seq<Table>, r: Reservation)
    returns (targets: seq<Table>, ghost pos: seq<nat>)
    ensures forall t :: t in targets <==>
      t in tables && t.id != r.tableId && IsTableAvailable(xs, t.id, r.date, r.time, r.shift, Some(r.id))
    ensures |pos| == |targets|
    ensures forall i :: 0 <= i < |targets| ==> pos[i] < |tables| && targets[i] == tables[pos[i]]
    ensures forall i, j :: 0 <= i < j < |targets| ==> pos[i] < pos[j]
  {
    targets := [];
    pos := [];
    for k := 0 to |tables|
      invariant |pos| == |targets|
      invariant forall i :: 0 <= i < |targets| ==> pos[i] < k && targets[i] == tables[pos[i]]
      invariant forall i, j :: 0 <= i < j < |targets| ==> pos[i] < pos[j]
      invariant forall t :: t in targets ==>
        t.id != r.tableId && IsTableAvailable(xs, t.id, r.date, r.time, r.shift, Some(r.id))
      invariant forall j ::
        (0 <= j < k && tables[j].id != r.tableId &&
         IsTableAvailable(xs, tables[j].id, r.date, r.time, r.shift, Some(r.id))) ==> tables[j] in targets
    {
      var t := tables[k];
      if t.id == r.tableId {
        continue;
      }
      if IsTableAvailable(xs, t.id, r.date, r.time, r.shift, Some(r.id)) {
        targets := targets + [t];
        pos := pos + [k];
      }
    }
  }
}
