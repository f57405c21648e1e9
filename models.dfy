/**
 * The reservation record of `core/models.py`: its constructor's coercions,
 * and its conversion from and to the dictionaries stored in the JSON file.
 */
module Models {
  import opened Base
  import opened Text

  const SHIFT_LUNCH: string := "mittag"
  const SHIFT_DINNER: string := "abend"
  const VALID_SHIFTS: seq<string> := [SHIFT_LUNCH, SHIFT_DINNER]

  predicate ValidShift(s: string) { s in VALID_SHIFTS }

  /** The constructor's `shift if shift in VALID_SHIFTS else SHIFT_DINNER`. */
  function CoerceShift(s: string): (r: string)
    ensures ValidShift(r)
    ensures r == s <==> ValidShift(s)
    ensures !ValidShift(s) ==> r == SHIFT_DINNER
  {
    if s in VALID_SHIFTS then s else SHIFT_DINNER
  }

  /** A JSON value as `json.load` hands it to `from_dict`; `Null` is Python's `None`. */
  datatype Value = Null | Bool(b: bool) | Int(i: int) | Str(s: string)

  type Dict = map<string, Value>

  /** Python truthiness of a JSON scalar. */
  predicate Truthy(v: Value)
  {
    match v
    case Null => false
    case Bool(b) => b
    case Int(i) => i != 0
    case Str(s) => s != ""
  }

  /** `a or b`. */
  function Or(a: Value, b: Value): (r: Value)
    ensures Truthy(a) ==> r == a
    ensures !Truthy(a) ==> r == b
  {
    if Truthy(a) then a else b
  }

  /** `d.get(k, default)`; `d.get(k)` is `Get(d, k, Null)`. */
  function Get(d: Dict, k: string, default: Value := Null): Value
  {
    if k in d then d[k] else default
  }

  /** What `int(...)` is applied to: an int already, or a text. */
  datatype IntArg = Num(n: int) | Text(t: string)

  /** `int(x)`, `None` standing for the ValueError it raises on a text that is not an integer. */
  function IntOf(a: IntArg): Option<int>
  {
    match a
    case Num(n) => Some(n)
    case Text(t) => ParseInt(t)
  }

  datatype Reservation = Reservation(
    id: string,
    name: string,
    date: string,
    time: string,
    persons: int,
    tableId: string,
    info: Option<string>,   // `None` is a JSON null
    arrived: bool,
    departed: bool,
    shift: string)

  /**
   * `Reservation.__init__`: `persons` is `int(persons)`, or 0 when that raises
   * ValueError; a shift outside VALID_SHIFTS is stored as the dinner shift.
   */
  function NewReservation(id: string, name: string, date: string, time: string, persons: IntArg,
                          tableId: string, info: Option<string>, arrived: bool, departed: bool, shift: string): (r: Reservation)
    ensures r.id == id && r.name == name && r.date == date && r.time == time && r.tableId == tableId
    ensures r.info == info && r.arrived == arrived && r.departed == departed
    ensures IntOf(persons).Some? ==> r.persons == IntOf(persons).value
    ensures IntOf(persons).None? ==> r.persons == 0
    ensures ValidShift(r.shift) && (r.shift == shift <==> ValidShift(shift))
    ensures !ValidShift(shift) ==> r.shift == SHIFT_DINNER
  {
    var p := match IntOf(persons) case Some(n) => n case None => 0;
    Reservation(id, name, date, time, p, tableId, info, arrived, departed, CoerceShift(shift))
  }

  /** Why `from_dict` refuses a dictionary. */
  datatype FromDictError =
    | MissingValue(key: string)   // the ValueError `from_dict` raises for a required value that is None
    | WrongType(key: string)      // a value of a type the record does not hold (see README)

  /** `int(x)` applied to a JSON scalar other than null (a bool is an int in Python). */
  function IntArgOf(v: Value): IntArg
    requires !v.Null?
  {
    match v
    case Bool(b) => Num(if b then 1 else 0)
    case Int(i) => Num(i)
    case Str(s) => Text(s)
  }

  /** The six values `from_dict` requires, in the order it checks them, with the names it reports. */
  function RequiredArgs(d: Dict): seq<(string, Value)>
  {
    [ ("reservation_id", Or(Get(d, "id"), Get(d, "reservation_id"))),
      ("name", Get(d, "name")),
      ("date_str", Or(Get(d, "date"), Get(d, "date_str"))),
      ("time_str", Or(Get(d, "time"), Get(d, "time_str"))),
      ("persons", Get(d, "persons")),
      ("table_id", Get(d, "table_id")) ]
  }

  /** The first required value that is None, if any. */
  function FirstMissing(args: seq<(string, Value)>): (r: Option<string>)
    ensures r.None? <==> forall i :: 0 <= i < |args| ==> !args[i].1.Null?
    ensures r.Some? ==> exists i :: 0 <= i < |args| && args[i].1.Null? && args[i].0 == r.value
  {
    if args == [] then None
    else if args[0].1.Null? then Some(args[0].0)
    else
      var rest := FirstMissing(args[1..]);
      assert forall i :: 1 <= i < |args| ==> args[i] == args[1..][i - 1];
      rest
  }

  /** The value stored for `info`, given `d.get('info', "")`: a text, or None for a JSON null. */
  function InfoOf(v: Value): (r: Result<Option<string>, FromDictError>)
    ensures r.Ok? <==> v.Str? || v.Null?
    ensures r.Ok? ==> (r.value.Some? <==> v.Str?) && (v.Str? ==> r.value.value == v.s)
  {
    match v
    case Str(s) => Ok(Some(s))
    case Null => Ok(None)
    case _ => Err(WrongType("info"))
  }

  /**
   * `Reservation.from_dict`: reads `id`, `date` and `time` with the fallback
   * keys `reservation_id`, `date_str` and `time_str`, defaults a missing `info` to "",
   * `arrived` and `departed` to False and an invalid or missing shift to the
   * dinner shift, and raises ValueError when a required value is None.
   */
  function FromDict(d: Dict): (r: Result<Reservation, FromDictError>)
    ensures r.Ok? ==> ValidShift(r.value.shift)
  {
    var args := RequiredArgs(d);
    match FirstMissing(args)
    case Some(k) => Err(MissingValue(k))
    case None =>
      if !args[0].1.Str? then Err(WrongType("reservation_id"))
      else if !args[1].1.Str? then Err(WrongType("name"))
      else if !args[2].1.Str? then Err(WrongType("date_str"))
      else if !args[3].1.Str? then Err(WrongType("time_str"))
      else if !args[5].1.Str? then Err(WrongType("table_id"))
      else
        match InfoOf(Get(d, "info", Str("")))
        case Err(e) => Err(e)
        case Ok(info) =>
          var rawShift := Get(d, "shift", Str(SHIFT_DINNER));
          var shift := if rawShift.Str? && ValidShift(rawShift.s) then rawShift.s else SHIFT_DINNER;
          assert !args[4].1.Null?;
          Ok(NewReservation(args[0].1.s, args[1].1.s, args[2].1.s, args[3].1.s, IntArgOf(args[4].1),
                            args[5].1.s, info, Truthy(Get(d, "arrived")), Truthy(Get(d, "departed")), shift))
  }

  /** `Reservation.to_dict`. */
  function ToDict(r: Reservation): (d: Dict)
    ensures d.Keys == {"id", "name", "date", "time", "persons", "table_id", "info", "arrived", "departed", "shift"}
  {
    map[ "id" := Str(r.id), "name" := Str(r.name), "date" := Str(r.date), "time" := Str(r.time),
         "persons" := Int(r.persons), "table_id" := Str(r.tableId), "info" := (if r.info.Some? then Str(r.info.value) else Null),
         "arrived" := Bool(r.arrived), "departed" := Bool(r.departed), "shift" := Str(r.shift) ]
  }

  /** A record that survives a save and a reload unchanged. */
  predicate RoundTrips(r: Reservation)
  {
    r.id != "" && r.date != "" && r.time != "" && ValidShift(r.shift)
  }

  /** `from_dict(to_dict(r))` reproduces every field of `r`. */
  lemma FromToDict(r: Reservation)
    requires RoundTrips(r)
    ensures FromDict(ToDict(r)) == Ok(r)
  {
    var d := ToDict(r);
    assert Get(d, "id") == Str(r.id);
    assert RequiredArgs(d) == [("reservation_id", Str(r.id)), ("name", Str(r.name)), ("date_str", Str(r.date)),
                               ("time_str", Str(r.time)), ("persons", Int(r.persons)), ("table_id", Str(r.tableId))];
  }

  /**
   * An empty id, date or time makes the record unreadable once saved:
   * `"" or None` is None, so `from_dict` reports the value as missing.
   */
  lemma EmptyKeyFieldIsLost(r: Reservation)
    requires r.id == "" || r.date == "" || r.time == ""
    ensures FromDict(ToDict(r)) ==
      Err(MissingValue(if r.id == "" then "reservation_id" else if r.date == "" then "date_str" else "time_str"))
  {
    var args := RequiredArgs(ToDict(r));
    assert args[0] == ("reservation_id", if r.id == "" then Null else Str(r.id));
    if r.id != "" {
      assert FirstMissing(args) == FirstMissing(args[1..]);
      assert args[1..][0] == ("name", Str(r.name));
      assert FirstMissing(args[1..]) == FirstMissing(args[1..][1..]);
      assert args[1..][1..][0] == ("date_str", if r.date == "" then Null else Str(r.date));
      if r.date != "" {
        assert FirstMissing(args[1..][1..]) == FirstMissing(args[1..][1..][1..]);
        assert args[1..][1..][1..][0] == ("time_str", Null);
      }
    }
  }

  /** `from_dict` fails with the first required value that is None, and succeeds only when none is. */
  lemma FromDictMissing(d: Dict)
    ensures FromDict(d).Ok? ==> forall i :: 0 <= i < 6 ==> !RequiredArgs(d)[i].1.Null?
    ensures forall i :: 0 <= i < 6 && RequiredArgs(d)[i].1.Null? ==> FromDict(d).Err? && FromDict(d).error.MissingValue?
    ensures Get(d, "id").Null? && Get(d, "reservation_id").Null? ==> FromDict(d) == Err(MissingValue("reservation_id"))
  {
    var args := RequiredArgs(d);
    if Get(d, "id").Null? && Get(d, "reservation_id").Null? {
      assert args[0].1.Null?;
    }
  }

  /** The fallback keys are used when the primary key is absent, None or empty. */
  lemma FromDictFallbackKeys(d: Dict)
    requires FromDict(d).Ok?
    ensures !Truthy(Get(d, "id")) ==> Get(d, "reservation_id") == Str(FromDict(d).value.id)
    ensures !Truthy(Get(d, "date")) ==> Get(d, "date_str") == Str(FromDict(d).value.date)
    ensures !Truthy(Get(d, "time")) ==> Get(d, "time_str") == Str(FromDict(d).value.time)
    ensures Truthy(Get(d, "id")) ==> Get(d, "id") == Str(FromDict(d).value.id)
    ensures Truthy(Get(d, "date")) ==> Get(d, "date") == Str(FromDict(d).value.date)
    ensures Truthy(Get(d, "time")) ==> Get(d, "time") == Str(FromDict(d).value.time)
  {
  }

  /** Missing optional keys take their defaults. */
  lemma FromDictDefaults(d: Dict)
    requires FromDict(d).Ok?
    ensures "info" !in d ==> FromDict(d).value.info == Some("")
    ensures "arrived" !in d ==> !FromDict(d).value.arrived
    ensures "departed" !in d ==> !FromDict(d).value.departed
    ensures "shift" !in d ==> FromDict(d).value.shift == SHIFT_DINNER
    ensures !(Get(d, "shift").Str? && ValidShift(Get(d, "shift").s)) ==> FromDict(d).value.shift == SHIFT_DINNER
  {
  }

  /** The other values are read from their own keys. */
  lemma FromDictFields(d: Dict)
    requires FromDict(d).Ok?
    ensures var r := FromDict(d).value;
      Get(d, "name") == Str(r.name) && Get(d, "table_id") == Str(r.tableId)
    ensures var r := FromDict(d).value;
      (Get(d, "persons").Int? ==> r.persons == Get(d, "persons").i) &&
      (Get(d, "persons").Bool? ==> r.persons == (if Get(d, "persons").b then 1 else 0)) &&
      (Get(d, "persons").Str? ==> r.persons == (match ParseInt(Get(d, "persons").s) case Some(n) => n case None => 0))
    ensures var r := FromDict(d).value;
      (Get(d, "info").Str? ==> r.info == Some(Get(d, "info").s)) && ("info" in d && d["info"].Null? ==> r.info == None)
    ensures var r := FromDict(d).value;
      r.arrived == Truthy(Get(d, "arrived")) && r.departed == Truthy(Get(d, "departed"))
    ensures Get(d, "shift").Str? && ValidShift(Get(d, "shift").s) ==> FromDict(d).value.shift == Get(d, "shift").s
  {
  }
}
