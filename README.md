# Restaurant reservations: a Dafny model of the reservation engine

This project models the reservation engine of `restaurant_reservierung`.
A restaurant has a fixed catalog of 45 tables. Guests book a table for a
date, a clock time and a shift (`mittag` or `abend`). The manager module
keeps the reservations in a JSON file with a rotating backup directory and
an in-memory cache.

What the model covers:

- **Catalog and records** (`catalog.dfy`, `models.dfy`). The table catalog
  and how its five loops build it. The `Reservation` constructor's
  coercions: an invalid shift becomes `abend`, and a `persons` value that
  `int()` rejects becomes 0. `from_dict` with its fallback keys, defaults
  and required values, and `to_dict`.
- **Slot model** (`availability.dfy`). A table is taken for a date, time and
  shift when some other reservation has exactly that table, date, time and
  shift. The search for move targets runs over the catalog.
- **List operations** (`lifecycle.dfy`). The record-level effect of update,
  delete, arrival toggle, departure and the seven-day retention purge.
- **Backups** (`backups.dfy`). Pruning the directory to the ten newest
  entries, and the newest-first search for a usable backup.
- **The store** (`store.dfy`). A class holding the cache, the "loaded at
  least once" flag and an abstract disk:
  - the data file is missing, or holds white space, unparseable text, a
    non-list JSON value, or a list of dictionaries, with a modification time;
  - each backup has a modification time and such a content.

  Every manager operation is a method. It states the new cache, the new
  disk and the flag in terms of pure specification functions, and lemmas
  relate those functions: a save is what the next load returns, a restore
  is stable, and saving keeps at most ten backups. The list stays
  *consistent* (ids distinct, no slot held twice) under conditions the
  manager itself does not check:
  - create keeps it when the new id is unused and the caller found the slot
    free, as the booking page does with its availability check;
  - update keeps it when `api_update_reservation`'s gate let it through and
    the body sends none of table, date, time and shift as `null` (see
    "## Findings");
  - move, the status changes, delete and purge keep it whenever the list
    was consistent before.
- **Application helpers** (`views.dfy`):
  - `generate_time_slots` and the two shift windows;
  - `format_date_european`;
  - the display name lookup;
  - the floor plan's `frei`/`belegt` status;
  - the time list of the edit page;
  - the checks `api_update_reservation` makes before it calls the manager.

Two consequences of the source are stated as lemmas.
- `to_dict` writes an empty id, date or time as it is, but `from_dict` reads
  an empty value as missing. Such a record is therefore dropped on the next
  load (`Models.EmptyKeyFieldIsLost`). The update endpoint checks a date only
  when it is non-empty, so an update with `"date": ""` stores such a record.
- The edit page sorts with Python's stable sort. Two different texts can
  denote the same clock time (`11:0` and `11:00`); the reservation's own
  time is then placed after the slot it ties with (`Views.WithOwnTime`).

Python library behaviour the code relies on is written out in `text.dfy`
and `calendar.dfy`, for ASCII text: `str(n)`, `int(s)`,
`strptime`/`strftime` with `%Y-%m-%d`, `%d.%m.%Y` and `%H:%M`, and
`date.toordinal()`.

The clock and the outcome of the atomic file write are parameters: `now`,
`today` as a day number, and `writeOk`. The fresh `uuid4` identifier of a new
reservation is a parameter too, required to be unused.

## Model

| member | source | states |
|---|---|---|
| `Text.NatToString` | restaurant_reservierung/core/models.py:20-21 | `str(n)` of a natural number is a non-empty run of digits, with a leading `0` only for 0 |
| `Text.NatToStringValue` | restaurant_reservierung/core/models.py:20 | the digits of `str(n)` have the value `n` |
| `Text.NatToStringInjective` | restaurant_reservierung/core/models.py:19-62 | distinct numbers give distinct texts, which is what keeps the catalog ids apart |
| `Text.Pad2` | restaurant_reservierung/app.py:42 | `%02d` of n < 100 is two digits whose value is n |
| `Text.Pad4` | restaurant_reservierung/app.py:42 | `%04d` of n < 10000 is four digits whose value is n |
| `Text.StripStart` | restaurant_reservierung/core/models.py:76 | the result is a suffix of the input that does not start with white space |
| `Text.StripEnd` | restaurant_reservierung/core/models.py:76 | the result is a prefix of the input that does not end with white space |
| `Text.ParseDigits` | restaurant_reservierung/core/models.py:76 | `int()` reads a non-empty run of digits as its value |
| `Text.ParseNatToString` | restaurant_reservierung/core/models.py:76 | `int(str(n)) == n` |
| `Calendar.DaysInMonth` | restaurant_reservierung/core/manager.py:216 | every month has 28 to 31 days |
| `Calendar.ParseIsoDate` | restaurant_reservierung/core/manager.py:216 | a text `strptime(.., "%Y-%m-%d")` accepts gives a valid calendar date whose year is its first four digits |
| `Calendar.EuropeanText` | restaurant_reservierung/app.py:42 | `%d.%m.%Y` is ten characters with dots at positions 2 and 5 |
| `Calendar.ParseIsoText` | restaurant_reservierung/core/manager.py:216 | reading back the canonical `YYYY-MM-DD` text of a valid date gives that date |
| `Calendar.OrdinalOrder` | restaurant_reservierung/core/manager.py:211-217 | day numbers order valid dates exactly as Python compares dates, and equal day numbers mean equal dates |
| `Calendar.ClockText` | restaurant_reservierung/app.py:205 | `%H:%M` is five characters with a colon in the middle |
| `Models.CoerceShift` | restaurant_reservierung/core/models.py:83 | the stored shift is valid; it is the given one iff that is valid, and `abend` otherwise |
| `Models.Or` | restaurant_reservierung/core/models.py:90-93 | `a or b` is `a` when `a` is truthy, else `b` |
| `Models.NewReservation` | restaurant_reservierung/core/models.py:70-83 | fields are stored as given, `info` included, where None stays None; `persons` is `int(persons)`, or 0 when `int()` raises; the shift is valid, it is the given one iff that is valid, and `abend` otherwise |
| `Models.FirstMissing` | restaurant_reservierung/core/models.py:101-104 | none is reported iff no required value is None; a report names a required value that is None |
| `Models.FromDict` | restaurant_reservierung/core/models.py:86-105 | a built record always has a valid shift |
| `Models.InfoOf` | restaurant_reservierung/core/models.py:96 | `info` is the given text, None for a JSON null, and a value of another type is refused |
| `Models.FromDictFields` | restaurant_reservierung/core/models.py:86-105 | a built record takes name and table id from their keys. `persons` is an integer value, a boolean as 1 or 0, or `int()` of a text, 0 when that raises. `info` is the given text, or None for a JSON null. `arrived`/`departed` are the truthiness of their values. A valid shift is kept |
| `Models.ToDict` | restaurant_reservierung/core/models.py:107-119 | the dictionary has exactly the ten keys id, name, date, time, persons, table_id, info, arrived, departed, shift |
| `Models.FromToDict` | restaurant_reservierung/core/models.py:86-119 | `from_dict(to_dict(r))` reproduces every field of `r` when id, date and time are non-empty and the shift is valid |
| `Models.EmptyKeyFieldIsLost` | restaurant_reservierung/core/models.py:90-93 | a record with an empty id, date or time cannot be read back: `from_dict` reports the first of `reservation_id`, `date_str`, `time_str` that is empty as missing |
| `Models.FromDictMissing` | restaurant_reservierung/core/models.py:101-104 | `from_dict` succeeds only when no required value is None, fails with a missing value when one is, and reports `reservation_id` when neither `id` nor `reservation_id` is given |
| `Models.FromDictFallbackKeys` | restaurant_reservierung/core/models.py:90-93 | for each of id, date and time: when the primary key is truthy the value is taken from it, and otherwise from `reservation_id`, `date_str`, `time_str` |
| `Models.FromDictDefaults` | restaurant_reservierung/core/models.py:87-99 | missing `info` is the text "", missing `arrived`/`departed` are false, a missing or invalid shift is `abend` |
| `Catalog.AllTables` | restaurant_reservierung/core/models.py:17-62 | the catalog has 45 tables, and table k is the k-th of saal-1..9, stube-1..7, garten-r1..3-t1..7 row by row, bar-theke-1..3, bar-rtisch-1..5 |
| `Catalog.BuildAllTables` | restaurant_reservierung/core/models.py:17-62 | the five append loops build exactly the catalog |
| `Catalog.AddSaalTables` | restaurant_reservierung/core/models.py:19-22 | the first loop appends catalog positions 0 to 8 |
| `Catalog.AddStubeTables` | restaurant_reservierung/core/models.py:24-27 | the second loop appends positions 9 to 15 |
| `Catalog.AddGardenTables` | restaurant_reservierung/core/models.py:29-40 | the nested loops append positions 16 to 36 |
| `Catalog.AddGardenRow` | restaurant_reservierung/core/models.py:30-40 | one pass of the inner loop appends the seven tables of its row |
| `Catalog.GardenPosition` | restaurant_reservierung/core/models.py:29-40 | table t of garden row r is at position 16 + 7(r-1) + t-1 |
| `Catalog.AddCounterSeats` | restaurant_reservierung/core/models.py:42-51 | the fourth loop appends positions 37 to 39 |
| `Catalog.AddBarTables` | restaurant_reservierung/core/models.py:53-62 | the last loop completes the catalog |
| `Catalog.CatalogIndexOfTable` | restaurant_reservierung/core/models.py:17-62 | every catalog id decodes back to its own position |
| `Catalog.CatalogIndexSound` | restaurant_reservierung/core/models.py:17-62 | only catalog ids decode to a position |
| `Catalog.CatalogIdsUnique` | restaurant_reservierung/core/models.py:17-62 | no two catalog tables share an id |
| `Catalog.CatalogCapacitiesPositive` | restaurant_reservierung/core/models.py:17-62 | every table seats at least one guest |
| `Availability.ReservationsAtSlot` | restaurant_reservierung/core/manager.py:297-307 | exactly the stored reservations with equal table, date, shift and time |
| `Availability.OnlyIgnored` | restaurant_reservierung/core/manager.py:313-317 | the loop answers free iff every reservation at the slot has the ignored id |
| `Availability.IsTableAvailable` | restaurant_reservierung/core/manager.py:309-317 | a table is unavailable iff some stored reservation has equal table, date, time and shift and is not the ignored one |
| `Availability.SecondBookingRefused` | restaurant_reservierung/core/manager.py:297-317 | once a reservation is stored, its slot is refused to every check that does not ignore it |
| `Availability.SoleOccupantIgnored` | restaurant_reservierung/core/manager.py:309-317 | ignoring the sole occupant's id makes the slot available; without ignoring, it is taken |
| `Availability.RebookKeepsNoDoubleBooking` | restaurant_reservierung/core/manager.py:351-363 | replacing a record by one with the same id on its old slot, or on a slot the check found free, keeps every slot held at most once |
| `Availability.AvailableTablesForMoving` | restaurant_reservierung/core/manager.py:322-336 | none for a missing reservation; otherwise exactly the catalog tables other than its own that are free at its date, time and shift with its id ignored, in catalog order |
| `Availability.FreeTablesAmong` | restaurant_reservierung/core/manager.py:325-335 | the loop keeps exactly those tables, in list order, at increasing positions |
| `Lifecycle.FindIndex` | restaurant_reservierung/core/manager.py:251-253 | the position of the first record with the id; none iff no record has it |
| `Lifecycle.Without` | restaurant_reservierung/core/manager.py:291 | exactly the records whose id differs |
| `Lifecycle.WithoutConcat` | restaurant_reservierung/core/manager.py:291 | the filter distributes over concatenation, so it keeps the list order |
| `Lifecycle.WithoutShortens` | restaurant_reservierung/core/manager.py:290-295 | deleting shortens the list iff the id was present; an absent id leaves the list as it was |
| `Lifecycle.WithoutRemovesOne` | restaurant_reservierung/core/manager.py:288-295 | with distinct ids, deleting a present id removes exactly one record |
| `Lifecycle.WithoutKeepsUniqueIds` | restaurant_reservierung/core/manager.py:291 | deleting keeps ids distinct |
| `Lifecycle.PurgedKeepsUniqueIds` | restaurant_reservierung/core/manager.py:212-225 | purging keeps ids distinct |
| `Lifecycle.ApplyPatch` | restaurant_reservierung/core/manager.py:261-280 | id, arrived and departed never change; a field takes its argument when one is given, and otherwise stays (a stored None `info` stays None); `persons` stays when `int()` rejects it; `shift` stays when it is not valid |
| `Lifecycle.ShiftArg` | restaurant_reservierung/core/manager.py:275-279 | the shift argument is used iff it is given and valid |
| `Lifecycle.Pick` | restaurant_reservierung/core/manager.py:264-274 | a field takes a given argument, and changes iff the argument differs |
| `Lifecycle.ApplyPatchSavesIffChanged` | restaurant_reservierung/core/manager.py:264-284 | the update saves iff the record actually changed |
| `Lifecycle.RepeatedUpdateIsNoOp` | restaurant_reservierung/core/manager.py:264-281 | passing the stored values changes nothing and does not save |
| `Lifecycle.ApplyPatchIdempotent` | restaurant_reservierung/core/manager.py:256-286 | repeating an update changes nothing more and does not save |
| `Lifecycle.ToggleArrival` | restaurant_reservierung/core/manager.py:372 | only `arrived` flips |
| `Lifecycle.ToggleTwice` | restaurant_reservierung/core/manager.py:367-376 | toggling twice restores the record |
| `Lifecycle.Depart` | restaurant_reservierung/core/manager.py:381-395 | the result is departed; it saves iff the record had not departed; an already departed record comes back unchanged; otherwise arrived and departed are both set |
| `Lifecycle.DepartTwice` | restaurant_reservierung/core/manager.py:387-389 | a second departure is a no-op without a save |
| `Lifecycle.MoveTo` | restaurant_reservierung/core/manager.py:361-362 | the moved record has the new table, and every other field is unchanged |
| `Lifecycle.DepartedIsPermanent` | restaurant_reservierung/core/manager.py:256-395 | no update, toggle, departure or move resets `departed` |
| `Lifecycle.Purged` | restaurant_reservierung/core/manager.py:212-225 | exactly the records dated on or after the cut-off, plus those whose date does not parse |
| `Lifecycle.PurgedConcat` | restaurant_reservierung/core/manager.py:214-225 | the purge distributes over concatenation, so the kept records stay in list order |
| `Lifecycle.PurgedShortens` | restaurant_reservierung/core/manager.py:214-226 | the purge removes something iff some record is dated before the cut-off; otherwise the list is unchanged |
| `Lifecycle.UnparseableDateKept` | restaurant_reservierung/core/manager.py:222-225 | a record whose date does not parse is always kept |
| `Lifecycle.CanonicalDateKept` | restaurant_reservierung/core/manager.py:216-220 | a record with a canonical date is kept iff its day is not before the cut-off |
| `Backups.Insert` | restaurant_reservierung/core/manager.py:37 | inserting into a sorted list keeps it sorted and adds exactly the entry |
| `Backups.SortByMtime` | restaurant_reservierung/core/manager.py:57 | the result is sorted by mtime in the requested direction and is a permutation of the input |
| `Backups.PruneKeepsNewest` | restaurant_reservierung/core/manager.py:32-46 | ten or fewer backups are left alone; more are cut to exactly ten; nothing is added; no deleted backup is newer than a kept one |
| `Backups.FirstUsable` | restaurant_reservierung/core/manager.py:58-86 | the first usable entry, none iff no entry is usable |
| `Backups.LatestUsableIsNewest` | restaurant_reservierung/core/manager.py:48-91 | the chosen backup is usable, is one of the backups, and no usable backup is newer; none is chosen iff none is usable |
| `Backups.LoadLatestValidBackup` | restaurant_reservierung/core/manager.py:48-91 | the loop over the newest-first list skips empty, unparseable and non-list files and lists whose first element does not build, and returns the latest usable backup |
| `Store.Parsed` | restaurant_reservierung/core/manager.py:159-161 | one `from_dict` result per loaded element |
| `Store.Accepted` | restaurant_reservierung/core/manager.py:157-165 | exactly the built records; elements that raised are skipped |
| `Store.ParseAll` | restaurant_reservierung/core/manager.py:157-167 | never more records than elements |
| `Store.Dicts` | restaurant_reservierung/core/manager.py:192 | `to_dict` of every record, in order |
| `Store.ParseDicts` | restaurant_reservierung/core/manager.py:157-192 | reading back the saved dictionaries gives the saved records |
| `Store.ParseAllSound` | restaurant_reservierung/core/manager.py:157-165 | every loaded record was built from some element of the list |
| `Store.SaveThenReload` | restaurant_reservierung/core/manager.py:93-203 | after a successful save the next load returns the saved list, marks the store loaded and leaves the disk as it is |
| `Store.EarlyReturnIsStable` | restaurant_reservierung/core/manager.py:98-142 | a load that returns early gives the empty list, keeps the backups, and the next load also gives the empty list |
| `Store.RestoreThenReload` | restaurant_reservierung/core/manager.py:144-155 | after a restore from a backup, loading again gives the same records and leaves the disk as it is |
| `Store.SaveBoundsBackups` | restaurant_reservierung/core/manager.py:181-187 | a save never leaves more than ten backups, and keeps only backups that existed or the copy of the data file |
| `Store.SelectionKeepsNoDoubleBooking` | restaurant_reservierung/core/manager.py:291 | any selection of the records of a list without double bookings has none |
| `Store.CreateKeepsConsistent` | restaurant_reservierung/core/manager.py:237-246 | appending a record with a fresh id on a free slot keeps the list consistent |
| `Store.ReplaceKeepsUniqueIds` | restaurant_reservierung/core/manager.py:362 | replacing a record by one with the same id keeps ids distinct |
| `Store.MoveKeepsConsistent` | restaurant_reservierung/core/manager.py:338-365 | a move the availability check allowed keeps the list consistent |
| `Store.StatusChangeKeepsConsistent` | restaurant_reservierung/core/manager.py:367-395 | arrival and departure keep the list consistent |
| `Store.RemovalKeepsConsistent` | restaurant_reservierung/core/manager.py:205-295 | deleting and purging keep the list consistent |
| `Store.ReservationStore.constructor` | restaurant_reservierung/core/manager.py:19-20 | at import there is no cache and nothing is loaded |
| `Store.ReservationStore.ParseRecords` | restaurant_reservierung/core/manager.py:157-165 | the parsing loop returns exactly the records `from_dict` builds, in order |
| `Store.ReservationStore.LoadFromDisk` | restaurant_reservierung/core/manager.py:93-167 | returns the records of the data file, or of the latest usable backup when the file is missing, blank or unparseable. It restores that backup over the file. Without a backup it writes an empty list, except over a blank file. It sets the flag iff it got past the early returns. The cache is untouched |
| `Store.ReservationStore.Load` | restaurant_reservierung/core/manager.py:169-174 | a forced or first load reads the disk and refills the cache; otherwise the cache is returned and nothing changes |
| `Store.ReservationStore.CleanupOldBackups` | restaurant_reservierung/core/manager.py:32-46 | the backups become their pruned list; nothing else changes |
| `Store.ReservationStore.Save` | restaurant_reservierung/core/manager.py:176-203 | an existing data file is copied into the backups, which are pruned. A successful write replaces the file by the saved records and the cache by the list. A failed write leaves both |
| `Store.ReservationStore.PurgeOld` | restaurant_reservierung/core/manager.py:211-225 | the loop keeps the purged list and counts the rest; it deletes something iff some record is dated before the cut-off |
| `Store.ReservationStore.CleanupOldReservations` | restaurant_reservierung/core/manager.py:205-233 | after a forced load, it reports and saves the purged list iff some record was removed; an empty list returns false at once |
| `Store.ReservationStore.PurgeAndSave` | restaurant_reservierung/core/manager.py:212-233 | saves the purged list iff it is shorter, and reports that |
| `Store.ReservationStore.FindById` | restaurant_reservierung/core/manager.py:343-347 | the search loop finds the first record with the id |
| `Store.ReservationStore.CreateReservation` | restaurant_reservierung/core/manager.py:237-246 | appends the coerced new record and saves |
| `Store.ReservationStore.GetReservationById` | restaurant_reservierung/core/manager.py:249-254 | returns the first record with the id, None when absent; saves nothing |
| `Store.ReservationStore.UpdateReservation` | restaurant_reservierung/core/manager.py:256-286 | None for an unknown id. Otherwise it returns the patched record, and saves the list with that record replaced in place iff a field changed |
| `Store.ReservationStore.DeleteReservation` | restaurant_reservierung/core/manager.py:288-295 | true iff the id was present, and then saves the list with that id filtered out |
| `Store.ReservationStore.MoveReservation` | restaurant_reservierung/core/manager.py:338-365 | None, without a save, for an unknown id or a taken target. Otherwise it saves the list with only that record's table changed, in place |
| `Store.ReservationStore.ToggleArrivalStatus` | restaurant_reservierung/core/manager.py:367-376 | None for an unknown id; otherwise flips `arrived` in place and saves |
| `Store.ReservationStore.MarkAsDeparted` | restaurant_reservierung/core/manager.py:378-397 | None for an unknown id. Otherwise it returns the departed record, and saves iff the record had not departed before |
| `Views.WindowEnd` | restaurant_reservierung/app.py:199-202 | the end lies within a day after the start and is the given clock time, moved to the next day when before the start |
| `Views.SlotMinutes` | restaurant_reservierung/app.py:204-206 | one minute of the day per slot, each below 1440 |
| `Views.SlotCountBounds` | restaurant_reservierung/app.py:204-206 | at least one slot; the last is at most the end, and one more step would pass it |
| `Views.SlotMinutesAt` | restaurant_reservierung/app.py:204-206 | slot k is start + k·step, wrapped at midnight |
| `Views.SlotsFromAt` | restaurant_reservierung/app.py:204-206 | slot text k is the clock text of start + k·step: the first is the start, each next one a step later |
| `Views.GenerateTimeSlots` | restaurant_reservierung/app.py:193-207 | the slots from the start to the end, moved to the next day when before the start; at least one, the last within the end, the next step past it |
| `Views.SlotLoop` | restaurant_reservierung/app.py:204-207 | the while loop produces exactly those slot texts |
| `Views.ShiftMinutes` | restaurant_reservierung/app.py:274-278 | lunch offers 13 and dinner 21 minutes, a quarter of an hour apart from 11:00 and 17:00 |
| `Views.ShiftSlots` | restaurant_reservierung/app.py:274-278 | one text per minute of the shift |
| `Views.SlotMinutesOfShift` | restaurant_reservierung/app.py:275-278 | `generate_time_slots` over a shift's window yields that shift's minutes |
| `Views.ShiftTimeSlots` | restaurant_reservierung/app.py:274-278 | the lunch and dinner calls give the shift's slots; any other shift gives none |
| `Views.ShiftSlotsIncreasing` | restaurant_reservierung/app.py:274-278 | slot k parses back as the first minute + 15k |
| `Views.ShiftSlotsOrdered` | restaurant_reservierung/app.py:274-278 | every slot parses, and the slots strictly increase as clock times |
| `Views.ShiftSlotBounds` | restaurant_reservierung/app.py:229-237 | lunch gives 13 slots from 11:00 to 14:00, dinner 21 from 17:00 to 22:00, other shifts none |
| `Views.HourField` | restaurant_reservierung/app.py:294 | an accepted `%H` is below 24 |
| `Views.MinuteField` | restaurant_reservierung/app.py:294 | an accepted `%M` is below 60 |
| `Views.ParseClock` | restaurant_reservierung/app.py:294 | an accepted `%H:%M` is a minute of the day |
| `Views.ClockValue` | restaurant_reservierung/app.py:294 | always a minute of the day |
| `Views.ParseClockText` | restaurant_reservierung/app.py:205 | every generated slot parses back as its own minute |
| `Views.InsertBy` | restaurant_reservierung/app.py:294-296 | inserting into a sorted list keeps it sorted and adds exactly the element |
| `Views.SortBy` | restaurant_reservierung/app.py:294-296 | the result is sorted and is a permutation of the input |
| `Views.WithKey` | restaurant_reservierung/app.py:294-296 | holds exactly the entries of the list that have the given key; stability is stated by comparing these sublists |
| `Views.InsertByStable` | restaurant_reservierung/app.py:294-296 | inserting places the element before the entries with an equal key and leaves their order |
| `Views.SortByStable` | restaurant_reservierung/app.py:294-296 | the sort is stable: for every key, the entries with that key come out in input order |
| `Views.StableTie` | restaurant_reservierung/app.py:291-296 | stably sorting distinct keys with one element appended: where two entries tie, the later one is the appended element |
| `Views.FreeSlots` | restaurant_reservierung/app.py:280-289 | exactly the candidate times at which the table is free with the reservation ignored, still parsing and strictly increasing |
| `Views.WithOwnTime` | restaurant_reservierung/app.py:291-296 | the free times plus the own time, each once, sorted by clock time, or as text when the own time does not parse; when the own time ties with a free time, it comes after it |
| `Views.EditPageTimes` | restaurant_reservierung/app.py:274-296 | the shift's slots that are free with the reservation ignored, plus its own time, each once, sorted; a tie with the own time puts the own time last |
| `Views.FormatDateEuropean` | restaurant_reservierung/app.py:37-44 | "" stays ""; the result is the input or a `DD.MM.YYYY` text |
| `Views.FormatIsoDate` | restaurant_reservierung/app.py:37-44 | a valid `YYYY-MM-DD` becomes its `DD.MM.YYYY` |
| `Views.FormatDateEuropeanCases` | restaurant_reservierung/app.py:37-44 | text `strptime` rejects comes back unchanged; accepted text is reformatted and never left as it was |
| `Views.TableDisplayName` | restaurant_reservierung/app.py:30-34 | the display name of the catalog table with the id, or the id itself when no table has it |
| `Views.OfDayAndShift` | restaurant_reservierung/app.py:128-131 | exactly the reservations of the date and shift |
| `Views.SelectDayAndShift` | restaurant_reservierung/app.py:128-131 | the first loop selects them in list order |
| `Views.IsActivelyOccupied` | restaurant_reservierung/app.py:147-165 | the flag is set iff a selected reservation on the table has arrived and not departed |
| `Views.TableStatuses` | restaurant_reservierung/app.py:133-169 | one status per catalog table, in catalog order: `belegt` iff a reservation of the date and shift on it has arrived and not departed, else `frei` |
| `Views.OccupiedBySelection` | restaurant_reservierung/app.py:128-169 | looking at the selected date and shift finds exactly the occupying reservations of the whole list |
| `Views.ArrivalOccupiesTable` | restaurant_reservierung/app.py:164-169 | registering a guest's arrival makes the table `belegt` |
| `Views.DepartureFreesTable` | restaurant_reservierung/app.py:164-169 | after a departure the table stays `belegt` iff another reservation of the date and shift occupies it |
| `Views.Target` | restaurant_reservierung/app.py:517-520 | the request keeps the stored slot iff each of table, date, time and shift is missing or repeats the stored value; a part is None iff its key was sent as `null` |
| `Views.IntendedTarget` | restaurant_reservierung/app.py:517-520 | with a `null` read as the stored value, every part is set, and it agrees with the source's target when no slot key is `null` |
| `Views.UpdateGate` | restaurant_reservierung/app.py:496-544 | an update proceeds only for a non-empty body, an existing reservation, a valid, missing or `null` shift, a missing, `null` or empty date or one `strptime` accepts, and an integer persons value |
| `Views.IntendedUpdateGate` | restaurant_reservierung/app.py:496-544 | the gate with a `null` slot key keeping the stored value; it answers as the source's gate for every body without such a key |
| `Views.UnmovedNeverConflicts` | restaurant_reservierung/app.py:522-533 | a body that keeps table, date, time and shift is never refused for its slot |
| `Views.TakenSlotConflicts` | restaurant_reservierung/app.py:522-533 | a body whose shift and date pass the earlier checks, and whose target is the slot another reservation holds, is refused with 409 |
| `Views.PatchedAtIntendedTarget` | restaurant_reservierung/app.py:535-544 | the record `update_reservation` stores from the gate's patch stands on the intended target |
| `Views.IntendedGateKeepsNoDoubleBooking` | restaurant_reservierung/app.py:517-544 | an update the intended gate lets through keeps every slot held at most once, for every body |
| `Views.GatedUpdateKeepsNoDoubleBooking` | restaurant_reservierung/app.py:517-544 | an update the source's gate lets through keeps every slot held at most once when no slot key is sent as `null` |
| `Views.NullKeyBypassesGate` | restaurant_reservierung/app.py:505-544 | for a list without double bookings and the body `{"date": null, "time": "19:00"}`, the source's gate proceeds, the stored update double-books a slot, and the intended gate answers 409 |

## Left out

- File system work is not modelled. This covers JSON text, `tempfile`, `os.replace`, `shutil.copy2`/`move` and `glob`. It also covers creating the backup directory, the `.corrupt_*` copies of a broken data file, and failures to create or delete files. The disk is a value. A backup keeps the data file's modification time, as `copy2` does.
- Logging, Flask routing, templates, sessions, language selection and HTTP responses are not modelled. The list page's filtering and sorting is also left out.
- The clock and `uuid4` are parameters (`now`, `today`, the new id).
- A data file that cannot be read for another reason (the generic `except Exception` branch of the load) is not modelled.
- A data file holding a JSON value that is not a list yields no records. For a JSON number or `true`, the source would instead raise `TypeError` when iterating it.
- `load_reservations` returns a shallow copy of the cache, so the source's field assignments also change cached objects when no save follows or the write fails. Records are values here, and the cache changes only through a successful save.
- Values of `from_dict` that are not str/int/bool/None are not modelled: floats, lists and nested objects. A non-string value for a text field is refused (`WrongType`), where Python would store it; for `info` this includes a number or a boolean, so a record holding one is dropped on load where the source keeps it. `arrived` and `departed` are stored as their truthiness.
- A loaded JSON list is a list of dictionaries here. Python skips an element that is not a dictionary (`core/manager.py:161-164`), and a backup whose first element is not one is not usable (`core/manager.py:68-84`). Such lists are not representable.
- Views.GenerateTimeSlots: requires a positive interval, which every caller passes (15 minutes). With an interval of 0 the source's loop never ends.
- `int()` accepts only ASCII digits with an optional sign and surrounding white space here. Unicode digits and `_` separators are not accepted.
- `strptime` accepts only ASCII digits here. `%Y` is read as exactly four digits.
- The date and shift defaulting of `index`, and the per-table detail list it sorts, are not modelled. Only the status loop is.
- The values of the update endpoint's body are texts, or integers and texts for `persons`. A JSON float, list or object there is not modelled.
- `ALL_RESOURCES`, imported by the move-target search, is not defined in `core/models.py`. The catalog `ALL_TABLES` stands in for it.
- The endpoint branch that answers 409 for an already departed guest is not modelled. `mark_as_departed` returns the record in that case, so the branch is never reached.
- Backups.SortByMtime: stability of the sort is not stated, only sortedness and permutation; the chosen backup among equal mtimes is therefore stated only as one of the newest usable.

## Findings

| source | as written | input that shows it | evidently intended | confidence | as-written member | corrected member |
|---|---|---|---|---|---|---|
| restaurant_reservierung/app.py:517-533 | the target slot takes each key of the body when present, so a key sent as `null` becomes None; the availability check finds no record at a slot with a None part and lets the update through, while `update_reservation` ignores the None and keeps the stored value | reservations `a` at (T, D, 18:00, abend) and `b` at (T, D, 19:00, abend); body `{"date": null, "time": "19:00"}` for `a`: the update proceeds and both stand at 19:00 on T | a `null` key keeps the stored value in the target too, so the slot actually stored is checked | high, not executed | `Views.NullKeyBypassesGate` | `Views.IntendedGateKeepsNoDoubleBooking` |
