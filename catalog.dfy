/**
 * The table catalog `ALL_TABLES` of `core/models.py`: 45 tables in five
 * groups, with ids that reservations store as foreign keys.
 */
module Catalog {
  import opened Base
  import opened Text

  /** `Table`: `row`, `numberInRow` and `kind` (the source's `type`) are None unless given. */
  datatype Table = Table(
    id: string,
    area: string,
    capacity: nat,
    displayName: string,
    row: Option<nat>,
    numberInRow: Option<nat>,
    kind: Option<string>)

  const SAAL_COUNT := 9
  const STUBE_COUNT := 7
  const GARDEN_ROWS := 3
  const GARDEN_ROW_LENGTH := 7
  const COUNTER_COUNT := 3
  const BAR_TABLE_COUNT := 5
  const CATALOG_SIZE := SAAL_COUNT + STUBE_COUNT + GARDEN_ROWS * GARDEN_ROW_LENGTH + COUNTER_COUNT + BAR_TABLE_COUNT

  function SaalTable(i: nat): Table
  {
    Table("saal-" + NatToString(i), "Saal", 4, "Saal " + NatToString(i), None, None, None)
  }

  function StubeTable(i: nat): Table
  {
    Table("stube-" + NatToString(i), "Stube", 6, "Stube " + NatToString(i), None, None, None)
  }

  function GardenTable(r: nat, t: nat): Table
  {
    Table("garten-r" + NatToString(r) + "-t" + NatToString(t), "Garten", 2,
          "Garten " + NatToString(r) + "-" + NatToString(t), Some(r), Some(t), None)
  }

  function CounterSeat(i: nat): Table
  {
    Table("bar-theke-" + NatToString(i), "Bar", 1, "Bar " + NatToString(i), None, None, Some("Theke"))
  }

  function BarTable(i: nat): Table
  {
    Table("bar-rtisch-" + NatToString(i), "Bar", 2, "R " + NatToString(i), None, None, Some("Regulär"))
  }

  /** The catalog by position: saal-1..9, stube-1..7, garten-r1..3-t1..7 row by row, bar-theke-1..3, bar-rtisch-1..5. */
  function TableAt(k: nat): Table
    requires k < CATALOG_SIZE
  {
    if k < 9 then SaalTable(k + 1)
    else if k < 16 then StubeTable(k - 9 + 1)
    else if k < 37 then GardenTable((k - 16) / 7 + 1, (k - 16) % 7 + 1)
    else if k < 40 then CounterSeat(k - 37 + 1)
    else BarTable(k - 40 + 1)
  }

  /** `ALL_TABLES`. */
  function AllTables(): (ts: seq<Table>)
    ensures |ts| == CATALOG_SIZE == 45
    ensures forall k :: 0 <= k < |ts| ==> ts[k] == TableAt(k)
  {
    seq(CATALOG_SIZE, k requires 0 <= k < CATALOG_SIZE => TableAt(k))
  }

  /** The catalog so far holds its first `n` tables. */
  predicate CatalogPrefix(tables: seq<Table>, n: nat)
  {
    |tables| == n <= CATALOG_SIZE && forall k :: 0 <= k < |tables| ==> tables[k] == TableAt(k)
  }

  /** The module-level loops that append the five groups to `ALL_TABLES`. */
  method BuildAllTables() returns (tables: seq<Table>)
    ensures tables == AllTables()
  {
    tables := AddSaalTables([]);
    tables := AddStubeTables(tables);
    tables := AddGardenTables(tables);
    tables := AddCounterSeats(tables);
    tables := AddBarTables(tables);
  }

  /** The loop adding `saal-1` to `saal-9`. */
  method AddSaalTables(start: seq<Table>) returns (tables: seq<Table>)
    requires CatalogPrefix(start, 0)
    ensures CatalogPrefix(tables, 9)
  {
    tables := start;
    for i := 1 to 10
      invariant CatalogPrefix(tables, i - 1)
    {
      tables := tables + [SaalTable(i)];
    }
  }

  /** The loop adding `stube-1` to `stube-7`. */
  method AddStubeTables(start: seq<Table>) returns (tables: seq<Table>)
    requires CatalogPrefix(start, 9)
    ensures CatalogPrefix(tables, 16)
  {
    tables := start;
    for i := 1 to 8
      invariant CatalogPrefix(tables, 9 + i - 1)
    {
      tables := tables + [StubeTable(i)];
    }
  }

  /** The nested loops adding the garden tables row by row, seven per row. */
  method AddGardenTables(start: seq<Table>) returns (tables: seq<Table>)
    requires CatalogPrefix(start, 16)
    ensures CatalogPrefix(tables, 37)
  {
    tables := start;
    for r := 1 to 4
      invariant CatalogPrefix(tables, 16 + (r - 1) * 7)
    {
      tables := AddGardenRow(tables, r);
    }
  }

  /** The inner loop: the seven tables of garden row `r`. */
  method AddGardenRow(start: seq<Table>, r: nat) returns (tables: seq<Table>)
    requires 1 <= r <= GARDEN_ROWS && CatalogPrefix(start, 16 + (r - 1) * 7)
    ensures CatalogPrefix(tables, 16 + r * 7)
  {
    tables := start;
    for t := 1 to 8
      invariant CatalogPrefix(tables, 16 + (r - 1) * 7 + t - 1)
    {
      GardenPosition(r, t);
      tables := tables + [GardenTable(r, t)];
    }
  }

  /** Table t of garden row r sits at position 16 + 7 (r - 1) + t - 1. */
  lemma GardenPosition(r: nat, t: nat)
    requires 1 <= r <= GARDEN_ROWS && 1 <= t <= GARDEN_ROW_LENGTH
    ensures TableAt(16 + (r - 1) * 7 + t - 1) == GardenTable(r, t)
  {
    var k := 16 + (r - 1) * 7 + t - 1;
    assert (k - 16) / 7 + 1 == r && (k - 16) % 7 + 1 == t;
  }

  /** The loop adding the counter seats `bar-theke-1` to `bar-theke-3`. */
  method AddCounterSeats(start: seq<Table>) returns (tables: seq<Table>)
    requires CatalogPrefix(start, 37)
    ensures CatalogPrefix(tables, 40)
  {
    tables := start;
    for i := 1 to 4
      invariant CatalogPrefix(tables, 37 + i - 1)
    {
      tables := tables + [CounterSeat(i)];
    }
  }

  /** The loop adding the bar tables `bar-rtisch-1` to `bar-rtisch-5`. */
  method AddBarTables(start: seq<Table>) returns (tables: seq<Table>)
    requires CatalogPrefix(start, 40)
    ensures tables == AllTables()
  {
    tables := start;
    for i := 1 to 6
      invariant CatalogPrefix(tables, 40 + i - 1)
    {
      tables := tables + [BarTable(i)];
    }
  }

  /** Single-digit ids: the digit `c` for 1 <= n <= 9. */
  lemma OneDigit(n: nat)
    requires 1 <= n <= 9
    ensures NatToString(n) == [DigitChar(n)]
  {
  }

  /**
   * Decodes a catalog id back to its position, -1 for an id outside the
   * catalog: the lookup by id that reservations' `table_id` relies on.
   */
  function CatalogIndex(id: string): (k: int)
    ensures -1 <= k < CATALOG_SIZE
  {
    if |id| == 6 && id[..5] == "saal-" && '1' <= id[5] <= '9' then
      DigitValue(id[5]) - 1
    else if |id| == 7 && id[..6] == "stube-" && '1' <= id[6] <= '7' then
      9 + DigitValue(id[6]) - 1
    else if |id| == 12 && id[..8] == "garten-r" && '1' <= id[8] <= '3' && id[9..11] == "-t" && '1' <= id[11] <= '7' then
      16 + (DigitValue(id[8]) - 1) * 7 + DigitValue(id[11]) - 1
    else if |id| == 11 && id[..10] == "bar-theke-" && '1' <= id[10] <= '3' then
      37 + DigitValue(id[10]) - 1
    else if |id| == 12 && id[..11] == "bar-rtisch-" && '1' <= id[11] <= '5' then
      40 + DigitValue(id[11]) - 1
    else -1
  }

  /** Every catalog id decodes to its own position. */
  lemma CatalogIndexOfTable(k: nat)
    requires k < CATALOG_SIZE
    ensures CatalogIndex(TableAt(k).id) == k
  {
    if k < 9 {
      SaalIndex(k + 1);
    } else if k < 16 {
      StubeIndex(k - 8);
    } else if k < 37 {
      GardenIndex((k - 16) / 7 + 1, (k - 16) % 7 + 1);
    } else if k < 40 {
      CounterIndex(k - 36);
    } else {
      BarIndex(k - 39);
    }
  }

  lemma SaalIndex(i: nat)
    requires 1 <= i <= SAAL_COUNT
    ensures CatalogIndex(SaalTable(i).id) == i - 1
  {
    var id := SaalTable(i).id;
    OneDigit(i);
    assert id == "saal-" + [DigitChar(i)];
    assert id[..5] == "saal-";
  }

  lemma StubeIndex(i: nat)
    requires 1 <= i <= STUBE_COUNT
    ensures CatalogIndex(StubeTable(i).id) == 9 + i - 1
  {
    var id := StubeTable(i).id;
    OneDigit(i);
    assert id == "stube-" + [DigitChar(i)];
    assert id[..6] == "stube-";
    assert !(id[..5] == "saal-") by { assert id[1] != "saal-"[1]; }
  }

  lemma GardenIndex(r: nat, t: nat)
    requires 1 <= r <= GARDEN_ROWS && 1 <= t <= GARDEN_ROW_LENGTH
    ensures CatalogIndex(GardenTable(r, t).id) == 16 + (r - 1) * 7 + t - 1
  {
    var id := GardenTable(r, t).id;
    OneDigit(r);
    OneDigit(t);
    assert id == "garten-r" + [DigitChar(r)] + "-t" + [DigitChar(t)];
    assert id[..8] == "garten-r" && id[9..11] == "-t";
    assert id[8] == DigitChar(r) && id[11] == DigitChar(t);
  }

  lemma CounterIndex(i: nat)
    requires 1 <= i <= COUNTER_COUNT
    ensures CatalogIndex(CounterSeat(i).id) == 37 + i - 1
  {
    var id := CounterSeat(i).id;
    OneDigit(i);
    assert id == "bar-theke-" + [DigitChar(i)];
    assert id[..10] == "bar-theke-";
  }

  lemma BarIndex(i: nat)
    requires 1 <= i <= BAR_TABLE_COUNT
    ensures CatalogIndex(BarTable(i).id) == 40 + i - 1
  {
    var id := BarTable(i).id;
    OneDigit(i);
    assert id == "bar-rtisch-" + [DigitChar(i)];
    assert id[..11] == "bar-rtisch-";
    assert !(id[..8] == "garten-r") by { assert id[0] != "garten-r"[0]; }
  }

  /** An id that decodes to a position is the id of the table there: the decoding recognises catalog ids only. */
  lemma CatalogIndexSound(id: string)
    requires CatalogIndex(id) >= 0
    ensures TableAt(CatalogIndex(id)).id == id
  {
    var k := CatalogIndex(id);
    if |id| == 6 && id[..5] == "saal-" && '1' <= id[5] <= '9' {
      OneDigit(k + 1);
      assert DigitChar(k + 1) == id[5];
      assert id == id[..5] + [id[5]];
    } else if |id| == 7 && id[..6] == "stube-" && '1' <= id[6] <= '7' {
      OneDigit(k - 8);
      assert DigitChar(k - 8) == id[6];
      assert id == id[..6] + [id[6]];
    } else if |id| == 12 && id[..8] == "garten-r" && '1' <= id[8] <= '3' && id[9..11] == "-t" && '1' <= id[11] <= '7' {
      var r, t := DigitValue(id[8]), DigitValue(id[11]);
      assert (k - 16) / 7 + 1 == r && (k - 16) % 7 + 1 == t;
      OneDigit(r);
      OneDigit(t);
      assert DigitChar(r) == id[8] && DigitChar(t) == id[11];
      assert id == id[..8] + [id[8]] + id[9..11] + [id[11]];
    } else if |id| == 11 && id[..10] == "bar-theke-" && '1' <= id[10] <= '3' {
      OneDigit(k - 36);
      assert DigitChar(k - 36) == id[10];
      assert id == id[..10] + [id[10]];
    } else {
      OneDigit(k - 39);
      assert DigitChar(k - 39) == id[11];
      assert id == id[..11] + [id[11]];
    }
  }

  /** Table ids are unique across the catalog. */
  lemma CatalogIdsUnique()
    ensures forall i, j :: 0 <= i < j < |AllTables()| ==> AllTables()[i].id != AllTables()[j].id
  {
    forall i, j | 0 <= i < j < |AllTables()|
      ensures AllTables()[i].id != AllTables()[j].id
    {
      CatalogIndexOfTable(i);
      CatalogIndexOfTable(j);
    }
  }

  /** Every table seats at least one guest. */
  lemma CatalogCapacitiesPositive()
    ensures forall t :: t in AllTables() ==> t.capacity > 0
  {
    forall t | t in AllTables()
      ensures t.capacity > 0
    {
      var k :| 0 <= k < |AllTables()| && AllTables()[k] == t;
    }
  }
}
