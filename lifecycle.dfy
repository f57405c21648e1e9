/**
 * What the operations of `core/manager.py` do to one reservation and to the
 * list of reservations, as values: the store's methods apply these.
 */
module Lifecycle {
  import opened Base
  import opened Models
  import opened Calendar

  predicate HasId(xs: seq<Reservation>, id: string)
  {
    exists r :: r in xs && r.id == id
  }

  /** The position the manager's `for i, res in enumerate(...)` loops stop at: the first record with the id. */
  function FindIndex(xs: seq<Reservation>, id: string): (k: Option<nat>)
    ensures k.None? <==> !HasId(xs, id)
    ensures k.Some? ==> k.value < |xs| && xs[k.value].id == id && forall j :: 0 <= j < k.value ==> xs[j].id != id
  {
    if xs == [] then None
    else if xs[0].id == id then Some(0)
    else
      var rest := FindIndex(xs[1..], id);
      assert forall r :: r in xs <==> r == xs[0] || r in xs[1..];
      match rest
      case None => None
      case Some(k) => Some(k + 1)
  }

  /** `[res for res in all_reservations if res.id != reservation_id_to_delete]`. */
  function Without(xs: seq<Reservation>, id: string): (ys: seq<Reservation>)
    ensures forall r :: r in ys <==> r in xs && r.id != id
    ensures |ys| <= |xs|
  {
    if xs == [] then []
    else
      var rest := Without(xs[1..], id);
      assert forall r :: r in xs <==> r == xs[0] || r in xs[1..];
      if xs[0].id != id then [xs[0]] + rest else rest
  }

  /** One step of the filter: the head is kept unless it has the id. */
  lemma WithoutHead(zs: seq<Reservation>, id: string)
    requires zs != []
    ensures Without(zs, id) == (if zs[0].id != id then [zs[0]] else []) + Without(zs[1..], id)
  {
  }

  /** The filter keeps the list's order: it distributes over concatenation. */
  lemma {:induction false} WithoutConcat(xs: seq<Reservation>, ys: seq<Reservation>, id: string)
    ensures Without(xs + ys, id) == Without(xs, id) + Without(ys, id)
  {
    if xs == [] {
      assert xs + ys == ys;
    } else {
      var zs := xs + ys;
      assert zs[0] == xs[0] && zs[1..] == xs[1..] + ys;
      WithoutConcat(xs[1..], ys, id);
      WithoutHead(zs, id);
      WithoutHead(xs, id);
      ConcatAssoc(if xs[0].id != id then [xs[0]] else [], Without(xs[1..], id), Without(ys, id));
    }
  }

  lemma ConcatAssoc(a: seq<Reservation>, b: seq<Reservation>, c: seq<Reservation>)
    ensures a + (b + c) == (a + b) + c
  {
  }

  /** Deletion shortens the list exactly when the id was present; an absent id leaves it as it was. */
  lemma {:induction false} WithoutShortens(xs: seq<Reservation>, id: string)
    ensures |Without(xs, id)| < |xs| <==> HasId(xs, id)
    ensures !HasId(xs, id) ==> Without(xs, id) == xs
  {
    if xs != [] {
      assert HasId(xs, id) <==> xs[0].id == id || HasId(xs[1..], id) by {
        assert forall r :: r in xs <==> r == xs[0] || r in xs[1..];
      }
      WithoutShortens(xs[1..], id);
      if xs[0].id != id {
        assert Without(xs, id) == [xs[0]] + Without(xs[1..], id);
        assert !HasId(xs[1..], id) ==> Without(xs, id) == [xs[0]] + xs[1..] == xs;
      }
    }
  }

  /** Every record has an id of its own: `create_reservation` draws each new id from `uuid4`. */
  predicate UniqueIds(xs: seq<Reservation>)
  {
    forall i, j :: 0 <= i < j < |xs| ==> xs[i].id != xs[j].id
  }

  /** A list has distinct ids exactly when its tail has and the head's id does not occur in the tail. */
  lemma UniqueIdsCons(x: Reservation, ys: seq<Reservation>)
    ensures UniqueIds([x] + ys) <==> UniqueIds(ys) && !HasId(ys, x.id)
  {
    var zs := [x] + ys;
    assert forall k :: 0 <= k < |ys| ==> zs[k + 1] == ys[k];
    if UniqueIds(zs) {
      forall r | r in ys
        ensures r.id != x.id
      {
        var k :| 0 <= k < |ys| && ys[k] == r;
        assert zs[0] == x && zs[k + 1] == r;
        assert zs[0].id != zs[k + 1].id;
      }
    }
  }

  /** A list has distinct ids exactly when its front has and the last id does not occur in the front. */
  lemma UniqueIdsSnoc(xs: seq<Reservation>, y: Reservation)
    ensures UniqueIds(xs + [y]) <==> UniqueIds(xs) && !HasId(xs, y.id)
  {
    var zs := xs + [y];
    assert forall k :: 0 <= k < |xs| ==> zs[k] == xs[k];
    if UniqueIds(zs) {
      forall r | r in xs
        ensures r.id != y.id
      {
        var k :| 0 <= k < |xs| && xs[k] == r;
        assert zs[k] == r && zs[|xs|] == y;
        assert zs[k].id != zs[|xs|].id;
      }
    }
  }

  /** With distinct ids, deleting a present id removes exactly one record. */
  lemma {:induction false} WithoutRemovesOne(xs: seq<Reservation>, id: string)
    requires UniqueIds(xs) && HasId(xs, id)
    ensures |Without(xs, id)| == |xs| - 1
  {
    assert xs == [xs[0]] + xs[1..];
    UniqueIdsCons(xs[0], xs[1..]);
    assert HasId(xs, id) <==> xs[0].id == id || HasId(xs[1..], id) by {
      assert forall r :: r in xs <==> r == xs[0] || r in xs[1..];
    }
    if xs[0].id == id {
      WithoutShortens(xs[1..], id);
    } else {
      WithoutRemovesOne(xs[1..], id);
    }
  }

  /** Deleting keeps the ids distinct. */
  lemma {:induction false} WithoutKeepsUniqueIds(xs: seq<Reservation>, id: string)
    requires UniqueIds(xs)
    ensures UniqueIds(Without(xs, id))
  {
    if xs != [] {
      assert xs == [xs[0]] + xs[1..];
      UniqueIdsCons(xs[0], xs[1..]);
      var rest := Without(xs[1..], id);
      WithoutKeepsUniqueIds(xs[1..], id);
      if xs[0].id != id {
        UniqueIdsCons(xs[0], rest);
      }
    }
  }

  /** Purging keeps the ids distinct. */
  lemma {:induction false} PurgedKeepsUniqueIds(xs: seq<Reservation>, cutoff: int)
    requires UniqueIds(xs)
    ensures UniqueIds(Purged(xs, cutoff))
  {
    if xs != [] {
      var init := xs[..|xs| - 1];
      var last := xs[|xs| - 1];
      assert xs == init + [last];
      UniqueIdsSnoc(init, last);
      PurgedKeepsUniqueIds(init, cutoff);
      if Kept(last, cutoff) {
        UniqueIdsSnoc(Purged(init, cutoff), last);
      }
    }
  }

  /** The keyword arguments of `update_reservation`; `None` means "not given". */
  datatype Patch = Patch(
    name: Option<string>,
    date: Option<string>,
    time: Option<string>,
    persons: Option<IntArg>,
    tableId: Option<string>,
    info: Option<string>,
    shift: Option<string>)

  /** A record after an operation, and whether the operation saves. */
  datatype Applied = Applied(res: Reservation, changed: bool)

  /**
   * The field-by-field body of `update_reservation`: a field changes when its
   * argument is given and differs; `persons` is ignored when `int()` rejects
   * it, `shift` when it is not a valid shift.
   */
  function ApplyPatch(r: Reservation, p: Patch): (a: Applied)
    ensures a.res.id == r.id && a.res.arrived == r.arrived && a.res.departed == r.departed
    ensures a.res.name == (if p.name.Some? then p.name.value else r.name)
    ensures a.res.date == (if p.date.Some? then p.date.value else r.date)
    ensures a.res.time == (if p.time.Some? then p.time.value else r.time)
    ensures a.res.tableId == (if p.tableId.Some? then p.tableId.value else r.tableId)
    ensures a.res.info == (if p.info.Some? then Some(p.info.value) else r.info)
    ensures a.res.persons == (if PersonsArg(p).Some? then PersonsArg(p).value else r.persons)
    ensures a.res.shift == (if ShiftArg(p).Some? then ShiftArg(p).value else r.shift)
  {
    var persons := PersonsArg(p);
    var shift := ShiftArg(p);
    var personsChanged := persons.Some? && r.persons != persons.value;
    var res := Reservation(
      r.id,
      Pick(p.name, r.name),
      Pick(p.date, r.date),
      Pick(p.time, r.time),
      if personsChanged then persons.value else r.persons,
      Pick(p.tableId, r.tableId),
      Pick(InfoArg(p), r.info),
      r.arrived,
      r.departed,
      Pick(shift, r.shift));
    Applied(res, Differs(p.name, r.name) || Differs(p.date, r.date) || Differs(p.time, r.time) || personsChanged ||
                 Differs(p.tableId, r.tableId) || Differs(InfoArg(p), r.info) || Differs(shift, r.shift))
  }

  /** The `persons` argument after `int()`: `None` when not given or when `int()` raises ValueError. */
  function PersonsArg(p: Patch): Option<int>
  {
    if p.persons.Some? then IntOf(p.persons.value) else None
  }

  /** The `shift` argument when it is given and valid; an invalid shift is only logged. */
  function ShiftArg(p: Patch): (s: Option<string>)
    ensures s.Some? <==> p.shift.Some? && ValidShift(p.shift.value)
    ensures s.Some? ==> s.value == p.shift.value
  {
    if p.shift.Some? && ValidShift(p.shift.value) then p.shift else None
  }

  /** The `info` argument as the value the record stores: a given text is never None. */
  function InfoArg(p: Patch): Option<Option<string>>
  {
    if p.info.Some? then Some(p.info) else None
  }

  /** `x is not None and stored != x`. */
  predicate Differs<T(==)>(arg: Option<T>, stored: T)
  {
    arg.Some? && arg.value != stored
  }

  /** The value a field holds after `if x is not None and stored != x: stored = x`. */
  function Pick<T(==)>(arg: Option<T>, stored: T): (v: T)
    ensures v == (if arg.Some? then arg.value else stored)
    ensures v != stored <==> Differs(arg, stored)
  {
    if Differs(arg, stored) then arg.value else stored
  }

  /** `update_reservation` saves exactly when some field's value actually changed. */
  lemma ApplyPatchSavesIffChanged(r: Reservation, p: Patch)
    ensures ApplyPatch(r, p).changed <==> ApplyPatch(r, p).res != r
  {
    var a := ApplyPatch(r, p);
    if !a.changed {
      assert a.res.name == r.name && a.res.date == r.date && a.res.time == r.time;
      assert a.res.persons == r.persons && a.res.tableId == r.tableId && a.res.info == r.info && a.res.shift == r.shift;
    }
  }

  /** An update that repeats the stored values changes nothing and does not save. */
  lemma RepeatedUpdateIsNoOp(r: Reservation)
    ensures ApplyPatch(r, Patch(Some(r.name), Some(r.date), Some(r.time), Some(Num(r.persons)),
                                Some(r.tableId), r.info, Some(r.shift))) == Applied(r, false)
  {
  }

  /** Updating again with the same arguments changes nothing more. */
  lemma ApplyPatchIdempotent(r: Reservation, p: Patch)
    ensures ApplyPatch(ApplyPatch(r, p).res, p) == Applied(ApplyPatch(r, p).res, false)
  {
  }

  /** `toggle_arrival_status` on one record: only `arrived` flips. */
  function ToggleArrival(r: Reservation): (t: Reservation)
    ensures t.arrived == !r.arrived && t.(arrived := r.arrived) == r
  {
    r.(arrived := !r.arrived)
  }

  lemma ToggleTwice(r: Reservation)
    ensures ToggleArrival(ToggleArrival(r)) == r
  {
  }

  /**
   * `mark_as_departed` on one record: a record already departed is returned
   * as it is, without saving; otherwise it is marked departed, and arrived
   * too when it had not arrived.
   */
  function Depart(r: Reservation): (a: Applied)
    ensures a.res.departed
    ensures a.changed <==> !r.departed
    ensures r.departed ==> a.res == r
    ensures !r.departed ==> a.res == r.(arrived := true, departed := true)
  {
    var arrivedFirst := if !r.arrived && !r.departed then r.(arrived := true) else r;
    if arrivedFirst.departed then Applied(arrivedFirst, false)
    else Applied(arrivedFirst.(departed := true), true)
  }

  /** A second departure is a no-op that reports the record unchanged. */
  lemma DepartTwice(r: Reservation)
    ensures Depart(Depart(r).res) == Applied(Depart(r).res, false)
  {
  }

  /** The record `move_reservation` stores: only the table changes. */
  function MoveTo(r: Reservation, newTable: string): (m: Reservation)
    ensures m.tableId == newTable && m.id == r.id
    ensures m.(tableId := r.tableId) == r
  {
    r.(tableId := newTable)
  }

  /** No record operation resets `departed`. */
  lemma DepartedIsPermanent(r: Reservation, p: Patch, newTable: string)
    requires r.departed
    ensures ApplyPatch(r, p).res.departed && ToggleArrival(r).departed && Depart(r).res.departed
    ensures MoveTo(r, newTable).departed
  {
  }

  /**
   * Whether `cleanup_old_reservations` keeps a record: its date parses and is
   * on or after the cut-off day, or it does not parse at all.
   */
  predicate Kept(r: Reservation, cutoff: int)
  {
    match ParseIsoDate(r.date)
    case None => true
    case Some(d) => Ordinal(d) >= cutoff
  }

  /** The reservations the purge keeps, in list order. */
  function Purged(xs: seq<Reservation>, cutoff: int): (ys: seq<Reservation>)
    ensures forall r :: r in ys <==> r in xs && Kept(r, cutoff)
    ensures |ys| <= |xs|
  {
    if xs == [] then []
    else
      var last := xs[|xs| - 1];
      var rest := Purged(xs[..|xs| - 1], cutoff);
      assert forall r :: r in xs <==> r == last || r in xs[..|xs| - 1] by {
        assert xs == xs[..|xs| - 1] + [last];
      }
      if Kept(last, cutoff) then rest + [last] else rest
  }

  /** One step of the purge: the last record is appended when it is kept. */
  lemma PurgedSnoc(xs: seq<Reservation>, last: Reservation, cutoff: int)
    ensures Purged(xs + [last], cutoff) == Purged(xs, cutoff) + (if Kept(last, cutoff) then [last] else [])
  {
    var zs := xs + [last];
    assert zs[..|zs| - 1] == xs;
  }

  /** The purge keeps the list's order: it distributes over concatenation. */
  lemma {:induction false} PurgedConcat(xs: seq<Reservation>, ys: seq<Reservation>, cutoff: int)
    ensures Purged(xs + ys, cutoff) == Purged(xs, cutoff) + Purged(ys, cutoff)
  {
    if ys == [] {
      assert xs + ys == xs;
    } else {
      var init, last := ys[..|ys| - 1], ys[|ys| - 1];
      assert ys == init + [last];
      assert xs + ys == (xs + init) + [last];
      PurgedConcat(xs, init, cutoff);
      PurgedSnoc(xs + init, last, cutoff);
      PurgedSnoc(init, last, cutoff);
      ConcatAssoc(Purged(xs, cutoff), Purged(init, cutoff), if Kept(last, cutoff) then [last] else []);
    }
  }

  /** The purge removes something exactly when some record is dated before the cut-off. */
  lemma {:induction false} PurgedShortens(xs: seq<Reservation>, cutoff: int)
    ensures |Purged(xs, cutoff)| < |xs| <==> exists r :: r in xs && !Kept(r, cutoff)
    ensures (forall r :: r in xs ==> Kept(r, cutoff)) ==> Purged(xs, cutoff) == xs
  {
    if xs != [] {
      var init := xs[..|xs| - 1];
      assert xs == init + [xs[|xs| - 1]];
      assert forall r :: r in xs <==> r == xs[|xs| - 1] || r in init;
      PurgedShortens(init, cutoff);
    }
  }

  /** Reservations with an unreadable date always survive the purge. */
  lemma UnparseableDateKept(r: Reservation, cutoff: int)
    requires ParseIsoDate(r.date).None?
    ensures Kept(r, cutoff)
  {
  }

  /** A canonical date is kept exactly when it is not before the cut-off day. */
  lemma CanonicalDateKept(r: Reservation, d: Date, cutoff: int)
    requires ValidDate(d) && r.date == IsoText(d)
    ensures Kept(r, cutoff) <==> Ordinal(d) >= cutoff
  {
    ParseIsoText(d);
  }
}
