/**
 * The persistence layer of `core/manager.py`: the data file, the backup
 * directory, the in-memory cache of reservations, and the manager
 * operations that load the list, change it and save it back.
 *
 * The file system is a value of type `Disk`. The outcome of the atomic
 * write and the clock are parameters (`writeOk`, `now`).
 */
module Store {
  import opened Base
  import opened Models
  import opened Calendar
  import opened Availability
  import opened Lifecycle
  import opened Backups

  const MAX_RESERVATION_AGE_DAYS := 7

  /** The ordinal of the oldest date `cleanup_old_reservations` keeps: seven days before today. */
  function Cutoff(today: int): int
  {
    today - MAX_RESERVATION_AGE_DAYS
  }

  /** `reservations.json`: missing, or present with a content and a modification time. */
  datatype DataFile = Absent | Present(content: Content, mtime: int)

  /** The data file and the entries of the backup directory. */
  datatype Disk = Disk(data: DataFile, backups: seq<Backup>)

  /** The data file cannot serve as it is: missing, only white space, or not JSON. */
  predicate NeedsBackup(f: DataFile)
  {
    f.Absent? || f.content.Blank? || f.content.Unparseable?
  }

  /** What `from_dict` gives for each element of a loaded list. */
  function Parsed(items: seq<Dict>): (rs: seq<Result<Reservation, FromDictError>>)
    ensures |rs| == |items|
    ensures forall k :: 0 <= k < |items| ==> rs[k] == FromDict(items[k])
  {
    seq(|items|, k requires 0 <= k < |items| => FromDict(items[k]))
  }

  /** The built records among the results, in order; the elements that raised are skipped. */
  function Accepted(rs: seq<Result<Reservation, FromDictError>>): (xs: seq<Reservation>)
    ensures |xs| <= |rs|
    ensures forall r :: r in xs <==> Ok(r) in rs
  {
    if rs == [] then []
    else
      var last := rs[|rs| - 1];
      assert rs == rs[..|rs| - 1] + [last];
      Accepted(rs[..|rs| - 1]) + (if last.Ok? then [last.value] else [])
  }

  /** The records `_load_reservations_from_disk` builds from a list. */
  function ParseAll(items: seq<Dict>): (rs: seq<Reservation>)
    ensures |rs| <= |items|
  {
    Accepted(Parsed(items))
  }

  /** The list `save_reservations` writes: `to_dict` of every record, in order. */
  function Dicts(xs: seq<Reservation>): (ds: seq<Dict>)
    ensures |ds| == |xs|
    ensures forall k :: 0 <= k < |xs| ==> ds[k] == ToDict(xs[k])
  {
    seq(|xs|, k requires 0 <= k < |xs| => ToDict(xs[k]))
  }

  /** The list `_load_reservations_from_disk` returns for a disk. */
  function LoadedRecords(d: Disk): seq<Reservation>
  {
    if NeedsBackup(d.data) then
      match LatestUsable(d.backups)
      case None => []
      case Some(b) => ParseAll(b.content.items)
    else if d.data.content.Records? then ParseAll(d.data.content.items)
    else []
  }

  /**
   * The disk after `_load_reservations_from_disk`: a usable backup is copied
   * over the data file with its modification time; without one, a missing or
   * unparseable data file is replaced by an empty list written at `now`.
   */
  function LoadedDisk(d: Disk, now: int): Disk
  {
    if NeedsBackup(d.data) then
      match LatestUsable(d.backups)
      case Some(b) => d.(data := Present(b.content, b.mtime))
      case None => if d.data.Present? && d.data.content.Blank? then d else d.(data := Present(Records([]), now))
    else d
  }

  /** Whether the load reaches the point that sets `_reservations_loaded_at_least_once`. */
  predicate MarksLoaded(d: Disk)
  {
    !NeedsBackup(d.data) || LatestUsable(d.backups).Some?
  }

  /**
   * The disk after `save_reservations(ys)`: an existing data file is first
   * copied into the backup directory, which is then pruned; a successful
   * write replaces the data file by the records of `ys`, stamped `now`.
   */
  function SavedDisk(d: Disk, ys: seq<Reservation>, now: int, writeOk: bool): Disk
  {
    var backups := if d.data.Present? then Prune(d.backups + [Backup(d.data.mtime, d.data.content)]) else d.backups;
    Disk(if writeOk then Present(Records(Dicts(ys)), now) else d.data, backups)
  }

  /** Results that are all built records give exactly those records. */
  lemma {:induction false} AcceptedAllOk(rs: seq<Result<Reservation, FromDictError>>, xs: seq<Reservation>)
    requires |rs| == |xs|
    requires forall k :: 0 <= k < |rs| ==> rs[k] == Ok(xs[k])
    ensures Accepted(rs) == xs
  {
    if rs != [] {
      var n := |rs| - 1;
      AcceptedAllOk(rs[..n], xs[..n]);
      assert xs == xs[..n] + [xs[n]];
    }
  }

  /** Writing records and parsing them back gives the same list. */
  lemma ParseDicts(xs: seq<Reservation>)
    requires forall r :: r in xs ==> RoundTrips(r)
    ensures ParseAll(Dicts(xs)) == xs
  {
    var ds := Dicts(xs);
    forall k | 0 <= k < |xs|
      ensures Parsed(ds)[k] == Ok(xs[k])
    {
      FromToDict(xs[k]);
    }
    AcceptedAllOk(Parsed(ds), xs);
  }

  /** Every record `ParseAll` returns is one that `from_dict` built from an element of the list. */
  lemma ParseAllSound(items: seq<Dict>)
    ensures forall r :: r in ParseAll(items) ==> exists d :: d in items && FromDict(d) == Ok(r)
  {
    forall r | r in ParseAll(items)
      ensures exists d :: d in items && FromDict(d) == Ok(r)
    {
      var k :| 0 <= k < |items| && Parsed(items)[k] == Ok(r);
      assert items[k] in items;
    }
  }

  /**
   * A save that succeeds is what the next load from disk returns, and that
   * load marks the store as loaded.
   */
  lemma SaveThenReload(d: Disk, ys: seq<Reservation>, now: int, later: int)
    requires forall r :: r in ys ==> RoundTrips(r)
    ensures MarksLoaded(SavedDisk(d, ys, now, true))
    ensures LoadedRecords(SavedDisk(d, ys, now, true)) == ys
    ensures LoadedDisk(SavedDisk(d, ys, now, true), later) == SavedDisk(d, ys, now, true)
  {
    ParseDicts(ys);
  }

  /**
   * A load that returns early gives the empty list and leaves a disk from
   * which the next load also gives the empty list.
   */
  lemma EarlyReturnIsStable(d: Disk, now: int, later: int)
    requires !MarksLoaded(d)
    ensures LoadedRecords(d) == []
    ensures LoadedRecords(LoadedDisk(d, now)) == []
    ensures LoadedDisk(d, now).backups == d.backups
    ensures !MarksLoaded(LoadedDisk(d, now)) ==> LoadedDisk(LoadedDisk(d, now), later) == LoadedDisk(d, now)
  {
  }

  /** A restore copies the backup it reads from, so loading again gives the same records. */
  lemma RestoreThenReload(d: Disk, now: int, later: int)
    requires NeedsBackup(d.data) && LatestUsable(d.backups).Some?
    ensures MarksLoaded(LoadedDisk(d, now))
    ensures LoadedRecords(LoadedDisk(d, now)) == LoadedRecords(d)
    ensures LoadedDisk(LoadedDisk(d, now), later) == LoadedDisk(d, now)
  {
    LatestUsableIsNewest(d.backups);
  }

  /** Saving never leaves more than `MAX_BACKUPS_TO_KEEP` backups once there were at most that many. */
  lemma SaveBoundsBackups(d: Disk, ys: seq<Reservation>, now: int, writeOk: bool)
    requires |d.backups| <= MAX_BACKUPS_TO_KEEP
    ensures |SavedDisk(d, ys, now, writeOk).backups| <= MAX_BACKUPS_TO_KEEP
    ensures d.data.Present? ==> multiset(SavedDisk(d, ys, now, writeOk).backups) <= multiset(d.backups + [Backup(d.data.mtime, d.data.content)])
  {
    if d.data.Present? {
      PruneKeepsNewest(d.backups + [Backup(d.data.mtime, d.data.content)]);
    }
  }

  /**
   * The list invariant the application keeps: ids are distinct and no two
   * reservations hold one table at the same date, time and shift.
   */
  predicate Consistent(xs: seq<Reservation>)
  {
    UniqueIds(xs) && NoDoubleBooking(xs)
  }

  /** Any selection of the records of a consistent list is consistent once its ids are distinct. */
  lemma SelectionKeepsNoDoubleBooking(xs: seq<Reservation>, ys: seq<Reservation>)
    requires NoDoubleBooking(xs) && forall r :: r in ys ==> r in xs
    ensures NoDoubleBooking(ys)
  {
  }

  /** A record with a fresh id on a free slot, appended as `api_create_reservation` does, keeps the list consistent. */
  lemma CreateKeepsConsistent(xs: seq<Reservation>, r: Reservation)
    requires Consistent(xs) && !HasId(xs, r.id)
    requires IsTableAvailable(xs, r.tableId, r.date, r.time, r.shift, None)
    ensures Consistent(xs + [r])
  {
    UniqueIdsSnoc(xs, r);
    var ys := xs + [r];
    forall a, b | a in ys && b in ys && a.id != b.id
      ensures !AtSlot(b, a.tableId, a.date, a.time, a.shift)
    {
    }
  }

  /** Replacing a record by one with the same id keeps the ids distinct. */
  lemma ReplaceKeepsUniqueIds(xs: seq<Reservation>, i: nat, r: Reservation)
    requires i < |xs| && UniqueIds(xs) && r.id == xs[i].id
    ensures UniqueIds(xs[i := r])
  {
  }

  /** A move the availability check allowed keeps the list consistent. */
  lemma MoveKeepsConsistent(xs: seq<Reservation>, i: nat, newTable: string)
    requires i < |xs| && Consistent(xs)
    requires IsTableAvailable(xs, newTable, xs[i].date, xs[i].time, xs[i].shift, Some(xs[i].id))
    ensures Consistent(xs[i := MoveTo(xs[i], newTable)])
  {
    ReplaceKeepsUniqueIds(xs, i, MoveTo(xs[i], newTable));
    RebookKeepsNoDoubleBooking(xs, i, MoveTo(xs[i], newTable));
  }

  /** Marking arrival or departure changes no id and no slot, so it keeps the list consistent. */
  lemma StatusChangeKeepsConsistent(xs: seq<Reservation>, i: nat)
    requires i < |xs| && Consistent(xs)
    ensures Consistent(xs[i := ToggleArrival(xs[i])])
    ensures Consistent(xs[i := Depart(xs[i]).res])
  {
    ReplaceKeepsUniqueIds(xs, i, ToggleArrival(xs[i]));
    RebookKeepsNoDoubleBooking(xs, i, ToggleArrival(xs[i]));
    ReplaceKeepsUniqueIds(xs, i, Depart(xs[i]).res);
    RebookKeepsNoDoubleBooking(xs, i, Depart(xs[i]).res);
  }

  /** Deleting and purging keep the list consistent. */
  lemma RemovalKeepsConsistent(xs: seq<Reservation>, id: string, cutoff: int)
    requires Consistent(xs)
    ensures Consistent(Without(xs, id))
    ensures Consistent(Purged(xs, cutoff))
  {
    WithoutKeepsUniqueIds(xs, id);
    PurgedKeepsUniqueIds(xs, cutoff);
    SelectionKeepsNoDoubleBooking(xs, Without(xs, id));
    SelectionKeepsNoDoubleBooking(xs, Purged(xs, cutoff));
  }

  /** The in-memory state of the manager module and the files it owns. */
  class ReservationStore {
    /** `_cached_reservations`. */
    var cache: seq<Reservation>
    /** `_reservations_loaded_at_least_once`. */
    var loadedOnce: bool
    var disk: Disk

    /** The module state at import: no cache, nothing loaded yet. */
    constructor (d: Disk)
      ensures cache == [] && !loadedOnce && disk == d
    {
      cache := [];
      loadedOnce := false;
      disk := d;
    }

    /** The list `load_reservations()` would return now. */
    ghost function Current(): seq<Reservation>
      reads this
    {
      if loadedOnce then cache else LoadedRecords(disk)
    }

    /** The disk after `load_reservations()`. */
    ghost function DiskAfterLoad(now: int): Disk
      reads this
    {
      if loadedOnce then disk else LoadedDisk(disk, now)
    }

    /** Whether the store counts as loaded after `load_reservations()`. */
    ghost predicate LoadedAfterLoad()
      reads this
    {
      loadedOnce || MarksLoaded(disk)
    }

    /**
     * The state a manager operation leaves behind: it loaded `xs` onto disk
     * `d0`, then saved `ys` when `save` holds.
     */
    ghost predicate Committed(d0: Disk, xs: seq<Reservation>, save: bool, ys: seq<Reservation>, now: int, writeOk: bool)
      reads this
    {
      disk == (if save then SavedDisk(d0, ys, now, writeOk) else d0) &&
      cache == (if save && writeOk then ys else xs)
    }

    /** Builds the records of a loaded list one element at a time, skipping those `from_dict` rejects. */
    static method ParseRecords(items: seq<Dict>) returns (xs: seq<Reservation>)
      ensures xs == ParseAll(items)
    {
      xs := [];
      for k := 0 to |items|
        invariant xs == Accepted(Parsed(items[..k]))
      {
        assert Parsed(items[..k + 1])[..k] == Parsed(items[..k]);
        match FromDict(items[k])
        case Ok(r) =>
          xs := xs + [r];
        case Err(_) =>
      }
      assert items[..|items|] == items;
    }

    /** `_load_reservations_from_disk`. */
    method LoadFromDisk(now: int) returns (xs: seq<Reservation>)
      modifies this
      ensures xs == LoadedRecords(old(disk))
      ensures disk == LoadedDisk(old(disk), now)
      ensures loadedOnce == (old(loadedOnce) || MarksLoaded(old(disk)))
      ensures cache == old(cache)
    {
      var d := disk;
      var items: seq<Dict> := [];
      if NeedsBackup(d.data) {
        var found := LoadLatestValidBackup(d.backups);
        if found.None? {
          if d.data.Absent? || d.data.content.Unparseable? {
            disk := d.(data := Present(Records([]), now));
          }
          return [];
        }
        disk := d.(data := Present(found.value.content, found.value.mtime));
        items := found.value.content.items;
      } else if d.data.content.Records? {
        items := d.data.content.items;
      }
      xs := ParseRecords(items);
      loadedOnce := true;
    }

    /** `load_reservations(force_reload)`. */
    method Load(force: bool, now: int) returns (xs: seq<Reservation>)
      modifies this
      ensures !force ==> xs == old(Current()) && disk == old(DiskAfterLoad(now)) && loadedOnce == old(LoadedAfterLoad())
      ensures force ==> xs == LoadedRecords(old(disk)) && disk == LoadedDisk(old(disk), now)
      ensures force ==> loadedOnce == (old(loadedOnce) || MarksLoaded(old(disk)))
      ensures cache == xs
    {
      if force || !loadedOnce {
        cache := LoadFromDisk(now);
      }
      xs := cache;
    }

    /** `cleanup_old_backups`. */
    method CleanupOldBackups()
      modifies this
      ensures disk == old(disk).(backups := Prune(old(disk.backups)))
      ensures cache == old(cache) && loadedOnce == old(loadedOnce)
    {
      disk := disk.(backups := Prune(disk.backups));
    }

    /**
     * `save_reservations(ys)`. After a successful write the store holds `ys`,
     * both in the cache and, for records that survive the dictionary form, on disk.
     */
    method Save(ys: seq<Reservation>, now: int, writeOk: bool)
      modifies this
      ensures disk == SavedDisk(old(disk), ys, now, writeOk)
      ensures cache == (if writeOk then ys else old(cache))
      ensures loadedOnce == old(loadedOnce)
    {
      ghost var d0 := disk;
      if disk.data.Present? {
        disk := disk.(backups := disk.backups + [Backup(disk.data.mtime, disk.data.content)]);
        CleanupOldBackups();
      }
      if writeOk {
        disk := disk.(data := Present(Records(Dicts(ys)), now));
        cache := ys;
      }
      assert disk == SavedDisk(d0, ys, now, writeOk);
    }

    /**
     * The loop of `cleanup_old_reservations`: keeps, in order, every record
     * whose date is unreadable or not before the cut-off, and counts the others.
     */
    static method PurgeOld(xs: seq<Reservation>, cutoff: int) returns (kept: seq<Reservation>, deleted: nat)
      ensures kept == Purged(xs, cutoff)
      ensures deleted == |xs| - |kept|
      ensures deleted > 0 <==> exists r :: r in xs && !Kept(r, cutoff)
    {
      kept := [];
      deleted := 0;
      for k := 0 to |xs|
        invariant kept == Purged(xs[..k], cutoff)
        invariant deleted + |kept| == k
      {
        assert xs[..k + 1][..k] == xs[..k];
        var res := xs[k];
        match ParseIsoDate(res.date)
        case None =>
          kept := kept + [res];
        case Some(d) =>
          if Ordinal(d) >= cutoff {
            kept := kept + [res];
          } else {
            deleted := deleted + 1;
          }
      }
      assert xs[..|xs|] == xs;
      PurgedShortens(xs, cutoff);
    }

    /** `cleanup_old_reservations`, with today's date as an ordinal. */
    method CleanupOldReservations(today: int, now: int, writeOk: bool) returns (removedAny: bool)
      requires today > MAX_RESERVATION_AGE_DAYS
      modifies this
      ensures var xs := old(LoadedRecords(disk));
        removedAny <==> |Purged(xs, Cutoff(today))| < |xs|
      ensures var xs := old(LoadedRecords(disk));
        Committed(old(LoadedDisk(disk, now)), xs, removedAny, Purged(xs, Cutoff(today)), now, writeOk)
      ensures loadedOnce == old(loadedOnce || MarksLoaded(disk))
    {
      var xs := Load(true, now);
      var cutoff := Cutoff(today);
      if |xs| == 0 {
        return false;
      }
      removedAny := PurgeAndSave(xs, cutoff, now, writeOk);
    }

    /** The part of `cleanup_old_reservations` after the load: drop the old records and save if any went. */
    method PurgeAndSave(xs: seq<Reservation>, cutoff: int, now: int, writeOk: bool) returns (removedAny: bool)
      requires cache == xs
      modifies this
      ensures removedAny <==> |Purged(xs, cutoff)| < |xs|
      ensures Committed(old(disk), xs, removedAny, Purged(xs, cutoff), now, writeOk)
      ensures loadedOnce == old(loadedOnce)
    {
      var kept, deleted := PurgeOld(xs, cutoff);
      if deleted > 0 {
        Save(kept, now, writeOk);
        return true;
      }
      return false;
    }

    /** The search loop the manager operations share: the position of the first record with the identifier. */
    static method FindById(xs: seq<Reservation>, id: string) returns (k: Option<nat>)
      ensures k == FindIndex(xs, id)
    {
      for i := 0 to |xs|
        invariant forall j :: 0 <= j < i ==> xs[j].id != id
      {
        if xs[i].id == id {
          return Some(i);
        }
      }
      return None;
    }

    /** `create_reservation`, with the fresh `uuid4` identifier as a parameter. */
    method CreateReservation(newId: string, name: string, date: string, time: string, persons: IntArg,
                             tableId: string, info: Option<string>, shift: string, now: int, writeOk: bool)
      returns (r: Reservation)
      requires !HasId(Current(), newId)
      modifies this
      ensures r == NewReservation(newId, name, date, time, persons, tableId, info, false, false, shift)
      ensures Committed(old(DiskAfterLoad(now)), old(Current()), true, old(Current()) + [r], now, writeOk)
      ensures loadedOnce == old(LoadedAfterLoad())
    {
      var xs := Load(false, now);
      r := NewReservation(newId, name, date, time, persons, tableId, info, false, false, shift);
      Save(xs + [r], now, writeOk);
    }

    /** `get_reservation_by_id`: the first record with the identifier. */
    method GetReservationById(id: string, now: int) returns (r: Option<Reservation>)
      modifies this
      ensures var xs := old(Current());
        match FindIndex(xs, id)
        case None => r.None?
        case Some(i) => r == Some(xs[i])
      ensures Committed(old(DiskAfterLoad(now)), old(Current()), false, old(Current()), now, false)
      ensures loadedOnce == old(LoadedAfterLoad())
    {
      var xs := Load(false, now);
      var k := FindById(xs, id);
      if k.None? {
        return None;
      }
      return Some(xs[k.value]);
    }

    /** `update_reservation`: saves only when a field actually changed. */
    method UpdateReservation(id: string, p: Patch, now: int, writeOk: bool) returns (r: Option<Reservation>)
      modifies this
      ensures var xs := old(Current());
        match FindIndex(xs, id)
        case None =>
          r.None? && Committed(old(DiskAfterLoad(now)), xs, false, xs, now, writeOk)
        case Some(i) =>
          var a := ApplyPatch(xs[i], p);
          r == Some(a.res) && Committed(old(DiskAfterLoad(now)), xs, a.changed, xs[i := a.res], now, writeOk)
      ensures loadedOnce == old(LoadedAfterLoad())
    {
      var xs := Load(false, now);
      var k := FindById(xs, id);
      if k.None? {
        return None;
      }
      var i := k.value;
      var a := ApplyPatch(xs[i], p);
      if a.changed {
        Save(xs[i := a.res], now, writeOk);
      }
      return Some(a.res);
    }

    /** `delete_reservation`: removes every record with the identifier. */
    method DeleteReservation(id: string, now: int, writeOk: bool) returns (removed: bool)
      modifies this
      ensures var xs := old(Current());
        removed == HasId(xs, id) && Committed(old(DiskAfterLoad(now)), xs, removed, Without(xs, id), now, writeOk)
      ensures loadedOnce == old(LoadedAfterLoad())
    {
      var xs := Load(false, now);
      var ys := Without(xs, id);
      WithoutShortens(xs, id);
      if |ys| < |xs| {
        Save(ys, now, writeOk);
        return true;
      }
      return false;
    }

    /** `move_reservation`: refused when another reservation holds the target table at the same slot. */
    method MoveReservation(id: string, newTable: string, now: int, writeOk: bool) returns (r: Option<Reservation>)
      modifies this
      ensures var xs := old(Current());
        match FindIndex(xs, id)
        case None =>
          r.None? && Committed(old(DiskAfterLoad(now)), xs, false, xs, now, writeOk)
        case Some(i) =>
          var free := IsTableAvailable(xs, newTable, xs[i].date, xs[i].time, xs[i].shift, Some(id));
          var moved := MoveTo(xs[i], newTable);
          r == (if free then Some(moved) else None) &&
          Committed(old(DiskAfterLoad(now)), xs, free, xs[i := moved], now, writeOk)
      ensures loadedOnce == old(LoadedAfterLoad())
    {
      var xs := Load(false, now);
      var k := FindById(xs, id);
      if k.None? {
        return None;
      }
      var idx := k.value;
      var res := xs[idx];
      if !IsTableAvailable(xs, newTable, res.date, res.time, res.shift, Some(id)) {
        return None;
      }
      var moved := MoveTo(res, newTable);
      Save(xs[idx := moved], now, writeOk);
      return Some(moved);
    }

    /** `toggle_arrival_status`: flips the arrival flag and always saves. */
    method ToggleArrivalStatus(id: string, now: int, writeOk: bool) returns (r: Option<Reservation>)
      modifies this
      ensures var xs := old(Current());
        match FindIndex(xs, id)
        case None =>
          r.None? && Committed(old(DiskAfterLoad(now)), xs, false, xs, now, writeOk)
        case Some(i) =>
          r == Some(ToggleArrival(xs[i])) && Committed(old(DiskAfterLoad(now)), xs, true, xs[i := ToggleArrival(xs[i])], now, writeOk)
      ensures loadedOnce == old(LoadedAfterLoad())
    {
      var xs := Load(false, now);
      var k := FindById(xs, id);
      if k.None? {
        return None;
      }
      var i := k.value;
      var t := ToggleArrival(xs[i]);
      Save(xs[i := t], now, writeOk);
      return Some(t);
    }

    /** `mark_as_departed`: saves only when the guest had not departed yet. */
    method MarkAsDeparted(id: string, now: int, writeOk: bool) returns (r: Option<Reservation>)
      modifies this
      ensures var xs := old(Current());
        match FindIndex(xs, id)
        case None =>
          r.None? && Committed(old(DiskAfterLoad(now)), xs, false, xs, now, writeOk)
        case Some(i) =>
          var a := Depart(xs[i]);
          r == Some(a.res) && Committed(old(DiskAfterLoad(now)), xs, a.changed, xs[i := a.res], now, writeOk)
      ensures loadedOnce == old(LoadedAfterLoad())
    {
      var xs := Load(false, now);
      var k := FindById(xs, id);
      if k.None? {
        return None;
      }
      var i := k.value;
      var res := xs[i];
      if !res.arrived && !res.departed {
        res := res.(arrived := true);
      }
      if res.departed {
        return Some(res);
      }
      res := res.(departed := true);
      Save(xs[i := res], now, writeOk);
      return Some(res);
    }
  }
}
