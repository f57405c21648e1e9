/**
 * The helpers of `app.py` that compute something: the time slots of a shift,
 * the European date text, a table's display name, the occupancy status of the
 * floor plan, the time list of the edit page and the conflict gate of the
 * update endpoint.
 */
module Views {
  import opened Base
  import opened Text
  import opened Calendar
  import opened Models
  import opened Catalog
  import opened Availability
  import opened Lifecycle

  const MINUTES_PER_DAY := 1440
  const SLOT_STEP := 15
  const STATUS_FREE: string := "frei"
  const STATUS_OCCUPIED: string := "belegt"

  // ---------------------------------------------------------------- time slots

  /** The end of a window in minutes after the start day's midnight: an end before the start is on the next day. */
  function WindowEnd(start: int, end: int): (e: int)
    requires 0 <= start < MINUTES_PER_DAY && 0 <= end < MINUTES_PER_DAY
    ensures start <= e < start + MINUTES_PER_DAY
    ensures e % MINUTES_PER_DAY == end
  {
    if end < start then end + MINUTES_PER_DAY else end
  }

  /** How many slots fit from minute `current` up to and including minute `end`, `step` minutes apart. */
  function SlotCount(current: nat, end: nat, step: nat): nat
    requires step > 0
    decreases end + step - current
  {
    if current > end then 0 else 1 + SlotCount(current + step, end, step)
  }

  /** The minutes of the day of the slots from minute `current` up to and including minute `end`, wrapping at midnight. */
  function SlotMinutes(current: nat, end: nat, step: nat): (ms: seq<int>)
    requires step > 0
    ensures |ms| == SlotCount(current, end, step)
    ensures forall i :: 0 <= i < |ms| ==> 0 <= ms[i] < MINUTES_PER_DAY
    decreases end + step - current
  {
    if current > end then [] else [current % MINUTES_PER_DAY] + SlotMinutes(current + step, end, step)
  }

  /** `strftime("%H:%M")` of each minute of a list. */
  function ClockTexts(ms: seq<int>): (ts: seq<string>)
    requires forall i :: 0 <= i < |ms| ==> 0 <= ms[i] < MINUTES_PER_DAY
    ensures |ts| == |ms|
  {
    seq(|ms|, i requires 0 <= i < |ms| => ClockText(ms[i]))
  }

  /** The clock texts of the slots from minute `current` up to and including minute `end`. */
  function SlotsFrom(current: nat, end: nat, step: nat): (ts: seq<string>)
    requires step > 0
  {
    ClockTexts(SlotMinutes(current, end, step))
  }

  /** k steps are one step and k - 1 more. */
  lemma OneMoreStep(k: nat, step: nat)
    requires k > 0
    ensures k * step == step + (k - 1) * step
  {
  }

  /** The count is the largest whose last slot is still within the window. */
  lemma {:induction false} SlotCountBounds(current: nat, end: nat, step: nat)
    requires step > 0 && current <= end
    ensures var n := SlotCount(current, end, step); n >= 1 && end < current + n * step <= end + step
    decreases end + step - current
  {
    if current + step <= end {
      SlotCountBounds(current + step, end, step);
      var n' := SlotCount(current + step, end, step);
      OneMoreStep(n' + 1, step);
    }
  }

  /** When the window ends within the n-th step from `current`, exactly n slots fit. */
  lemma {:induction false} SlotCountExact(current: nat, end: nat, step: nat, n: nat)
    requires step > 0 && n >= 1
    requires current + (n - 1) * step <= end < current + n * step
    ensures SlotCount(current, end, step) == n
    decreases n
  {
    if n > 1 {
      OneMoreStep(n - 1, step);
      OneMoreStep(n, step);
      SlotCountExact(current + step, end, step, n - 1);
    }
  }

  /** The k-th slot is the minute start + k * step, read on the clock. */
  lemma {:induction false} SlotMinutesAt(current: nat, end: nat, step: nat, k: nat)
    requires step > 0 && k < |SlotMinutes(current, end, step)|
    ensures SlotMinutes(current, end, step)[k] == (current + k * step) % MINUTES_PER_DAY
    decreases k
  {
    if k > 0 {
      SlotMinutesAt(current + step, end, step, k - 1);
      OneMoreStep(k, step);
    }
  }

  /** Hence the k-th slot text is the clock text of start + k * step: the first is the start, each next one a step later. */
  lemma SlotsFromAt(current: nat, end: nat, step: nat, k: nat)
    requires step > 0 && k < |SlotsFrom(current, end, step)|
    ensures SlotsFrom(current, end, step)[k] == ClockText((current + k * step) % MINUTES_PER_DAY)
  {
    SlotMinutesAt(current, end, step, k);
  }

  /** Formatting distributes over a leading minute. */
  lemma ClockTextsCons(m: int, ms: seq<int>)
    requires 0 <= m < MINUTES_PER_DAY
    requires forall i :: 0 <= i < |ms| ==> 0 <= ms[i] < MINUTES_PER_DAY
    ensures ClockTexts([m] + ms) == [ClockText(m)] + ClockTexts(ms)
  {
  }

  /** One step of the slot loop: the slot at `current` moves from the slots still to come to those produced. */
  lemma SlotsFromStep(done: seq<string>, current: nat, end: nat, step: nat)
    requires step > 0 && current <= end
    ensures (done + [ClockText(current % MINUTES_PER_DAY)]) + SlotsFrom(current + step, end, step) ==
            done + SlotsFrom(current, end, step)
  {
    ClockTextsCons(current % MINUTES_PER_DAY, SlotMinutes(current + step, end, step));
  }

  /**
   * `generate_time_slots`: the clock times start, start + step, ... up to
   * and including the end, wrapping past midnight.
   */
  method GenerateTimeSlots(startHour: nat, startMinute: nat, endHour: nat, endMinute: nat, interval: nat)
    returns (slots: seq<string>)
    requires startHour < 24 && startMinute < 60 && endHour < 24 && endMinute < 60
    requires interval > 0
    ensures var start := startHour * 60 + startMinute;
      slots == SlotsFrom(start, WindowEnd(start, endHour * 60 + endMinute), interval)
    ensures var start := startHour * 60 + startMinute;
      var end := WindowEnd(start, endHour * 60 + endMinute);
      |slots| >= 1 && end < start + |slots| * interval <= end + interval
  {
    var start := startHour * 60 + startMinute;
    var end := WindowEnd(start, endHour * 60 + endMinute);
    slots := SlotLoop(start, end, interval);
    SlotCountBounds(start, end, interval);
  }

  /** The loop of `generate_time_slots`, over minutes since midnight of the start day. */
  method SlotLoop(start: nat, end: nat, interval: nat) returns (slots: seq<string>)
    requires interval > 0
    ensures slots == SlotsFrom(start, end, interval)
  {
    var current := start;
    slots := [];
    while current <= end
      invariant slots + SlotsFrom(current, end, interval) == SlotsFrom(start, end, interval)
      decreases end + interval - current
    {
      SlotsFromStep(slots, current, end, interval);
      slots := slots + [ClockText(current % MINUTES_PER_DAY)];
      current := current + interval;
    }
  }

  /** The first slot and the number of slots of a shift on the reservation pages. */
  function ShiftWindow(shift: string): (w: (int, nat))
  {
    if shift == SHIFT_LUNCH then (11 * 60, 13)
    else if shift == SHIFT_DINNER then (17 * 60, 21)
    else (0, 0)
  }

  /** The minutes a shift offers: lunch 11:00 to 14:00, dinner 17:00 to 22:00, every quarter of an hour. */
  function ShiftMinutes(shift: string): (ms: seq<int>)
    ensures |ms| == ShiftWindow(shift).1
    ensures forall k :: 0 <= k < |ms| ==> ms[k] == ShiftWindow(shift).0 + k * SLOT_STEP < MINUTES_PER_DAY
  {
    var (first, count) := ShiftWindow(shift);
    seq(count, k requires 0 <= k < count => first + k * SLOT_STEP)
  }

  /** The times a shift offers, as clock texts. */
  function ShiftSlots(shift: string): (ts: seq<string>)
    ensures |ts| == ShiftWindow(shift).1
  {
    ClockTexts(ShiftMinutes(shift))
  }

  /** A slot within the first day needs no wrapping. */
  lemma QuarterWithinDay(first: nat, count: nat, k: nat)
    requires k < count && first + (count - 1) * 15 < MINUTES_PER_DAY
    ensures (first + k * 15) % MINUTES_PER_DAY == first + k * 15
  {
  }

  /** The slot loop over a shift's window yields the shift's minutes. */
  lemma SlotMinutesOfShift(shift: string, first: nat, count: nat)
    requires ShiftWindow(shift) == (first, count) && count >= 1 && first + (count - 1) * 15 < MINUTES_PER_DAY
    ensures SlotMinutes(first, first + (count - 1) * 15, 15) == ShiftMinutes(shift)
  {
    var end := first + (count - 1) * 15;
    var ms := SlotMinutes(first, end, 15);
    SlotCountExact(first, end, 15, count);
    forall k | 0 <= k < count
      ensures ms[k] == ShiftMinutes(shift)[k]
    {
      SlotMinutesAt(first, end, 15, k);
      QuarterWithinDay(first, count, k);
    }
  }

  /** The calls of `generate_time_slots` with the two shift windows. */
  method ShiftTimeSlots(shift: string) returns (slots: seq<string>)
    ensures slots == ShiftSlots(shift)
  {
    slots := [];
    if shift == SHIFT_LUNCH {
      slots := GenerateTimeSlots(11, 0, 14, 0, 15);
      SlotMinutesOfShift(shift, 660, 13);
    } else if shift == SHIFT_DINNER {
      slots := GenerateTimeSlots(17, 0, 22, 0, 15);
      SlotMinutesOfShift(shift, 1020, 21);
    }
  }

  /** The slots of a shift read back as strictly increasing minutes, a quarter of an hour apart. */
  lemma ShiftSlotsIncreasing(shift: string)
    ensures forall k :: 0 <= k < |ShiftSlots(shift)| ==>
      ParseClock(ShiftSlots(shift)[k]) == Some(ShiftWindow(shift).0 + k * SLOT_STEP)
  {
    forall k | 0 <= k < |ShiftSlots(shift)|
      ensures ParseClock(ShiftSlots(shift)[k]) == Some(ShiftWindow(shift).0 + k * SLOT_STEP)
    {
      ParseClockText(ShiftMinutes(shift)[k]);
    }
  }

  /** Hence every slot of a shift parses, and the slots are strictly increasing as clock times. */
  lemma ShiftSlotsOrdered(shift: string)
    ensures forall t :: t in ShiftSlots(shift) ==> ParseClock(t).Some?
    ensures forall i, j :: 0 <= i < j < |ShiftSlots(shift)| ==>
      ClockValue(ShiftSlots(shift)[i]) < ClockValue(ShiftSlots(shift)[j])
  {
    ShiftSlotsIncreasing(shift);
  }

  /** Lunch offers 13 times from 11:00 to 14:00, dinner 21 times from 17:00 to 22:00; other shifts none. */
  lemma ShiftSlotBounds()
    ensures |ShiftSlots(SHIFT_LUNCH)| == 13
    ensures ShiftSlots(SHIFT_LUNCH)[0] == "11:00" && ShiftSlots(SHIFT_LUNCH)[12] == "14:00"
    ensures |ShiftSlots(SHIFT_DINNER)| == 21
    ensures ShiftSlots(SHIFT_DINNER)[0] == "17:00" && ShiftSlots(SHIFT_DINNER)[20] == "22:00"
    ensures forall s :: !ValidShift(s) ==> ShiftSlots(s) == []
  {
    SlotEnds(SHIFT_LUNCH, 11, 14);
    SlotEnds(SHIFT_DINNER, 17, 22);
  }

  /** The first and last slot of a shift whose window runs from `first` to `last` o'clock. */
  lemma SlotEnds(shift: string, first: nat, last: nat)
    requires |ShiftSlots(shift)| > 0 && first < 24 && last < 24
    requires ShiftMinutes(shift)[0] == first * 60 && ShiftMinutes(shift)[|ShiftSlots(shift)| - 1] == last * 60
    ensures ShiftSlots(shift)[0] == Pad2(first) + ":" + Pad2(0)
    ensures ShiftSlots(shift)[|ShiftSlots(shift)| - 1] == Pad2(last) + ":" + Pad2(0)
  {
  }

  // ---------------------------------------------------------------- clock text

  /** `%H`: one digit, or two digits up to 23. */
  function HourField(s: string): (h: Option<int>)
    ensures h.Some? ==> 0 <= h.value < 24
  {
    if |s| == 1 && IsDigit(s[0]) then Some(DigitValue(s[0]))
    else if |s| == 2 && AllDigits(s) && DigitsValue(s) <= 23 then Some(DigitsValue(s))
    else None
  }

  /** `%M`: one digit, or two digits whose first is at most 5. */
  function MinuteField(s: string): (m: Option<int>)
    ensures m.Some? ==> 0 <= m.value < 60
  {
    if |s| == 1 && IsDigit(s[0]) then Some(DigitValue(s[0]))
    else if |s| == 2 && AllDigits(s) && s[0] <= '5' then
      assert DigitsValue(s) == DigitValue(s[0]) * 10 + DigitValue(s[1]) by {
        assert s[..1][..0] == [] && s[..1][0] == s[0];
        assert DigitsValue(s[..1]) == DigitValue(s[0]);
      }
      Some(DigitsValue(s))
    else None
  }

  /** `strptime(t, "%H:%M")` as minutes after midnight, None when it raises ValueError. */
  function ParseClock(s: string): (m: Option<int>)
    ensures m.Some? ==> 0 <= m.value < MINUTES_PER_DAY
  {
    var colon := if |s| >= 2 && s[1] == ':' then 1 else if |s| >= 3 && s[2] == ':' then 2 else 0;
    if colon == 0 then None
    else
      match (HourField(s[..colon]), MinuteField(s[colon + 1..]))
      case (Some(h), Some(m)) => Some(h * 60 + m)
      case _ => None
  }

  /** The minute of the day a time text stands for, 0 when it does not parse. */
  function ClockValue(t: string): (m: int)
    ensures 0 <= m < MINUTES_PER_DAY
  {
    match ParseClock(t)
    case Some(m) => m
    case None => 0
  }

  /** Every generated slot reads back as its own minute of the day. */
  lemma ParseClockText(m: int)
    requires 0 <= m < MINUTES_PER_DAY
    ensures ParseClock(ClockText(m)) == Some(m)
  {
    var s := ClockText(m);
    var hh, mm := Pad2(m / 60), Pad2(m % 60);
    assert s == hh + ":" + mm;
    assert s[..2] == hh && s[3..] == mm;
    assert IsDigit(s[1]);
    assert mm[0] == DigitChar(m % 60 / 10);
  }

  // ---------------------------------------------------------------- sorting

  /** The two orders of the edit page: by the parsed clock time, or, when a time does not parse, as text. */
  datatype SortMode = ByClock | ByText

  /** The sort key: the minute of the day, or the code points of the text. */
  function SortKey(mode: SortMode, t: string): (key: seq<int>)
  {
    match mode
    case ByClock => [ClockValue(t)]
    case ByText => seq(|t|, i requires 0 <= i < |t| => t[i] as int)
  }

  /** Lexicographic order on keys, as Python compares strings and one-element tuples. */
  predicate KeyLe(a: seq<int>, b: seq<int>)
  {
    a == [] || (b != [] && (a[0] < b[0] || (a[0] == b[0] && KeyLe(a[1..], b[1..]))))
  }

  lemma {:induction false} KeyLeTotal(a: seq<int>, b: seq<int>)
    ensures KeyLe(a, b) || KeyLe(b, a)
  {
    if a != [] && b != [] && a[0] == b[0] {
      KeyLeTotal(a[1..], b[1..]);
    }
  }

  lemma {:induction false} KeyLeTrans(a: seq<int>, b: seq<int>, c: seq<int>)
    requires KeyLe(a, b) && KeyLe(b, c)
    ensures KeyLe(a, c)
  {
    if a != [] && b != [] && c != [] && a[0] == b[0] == c[0] {
      KeyLeTrans(a[1..], b[1..], c[1..]);
    }
  }

  predicate InOrder(mode: SortMode, a: string, b: string)
  {
    KeyLe(SortKey(mode, a), SortKey(mode, b))
  }

  predicate Sorted(mode: SortMode, ts: seq<string>)
  {
    forall i, j :: 0 <= i < j < |ts| ==> InOrder(mode, ts[i], ts[j])
  }

  /** By clock, the order is that of the minutes of the day. */
  lemma ClockOrder(a: string, b: string)
    ensures InOrder(ByClock, a, b) <==> ClockValue(a) <= ClockValue(b)
  {
    var ka, kb := SortKey(ByClock, a), SortKey(ByClock, b);
    assert ka == [ClockValue(a)] && kb == [ClockValue(b)];
    assert ka[1..] == [] && kb[1..] == [];
    assert KeyLe(ka[1..], kb[1..]);
  }

  lemma InOrderTotal(mode: SortMode, a: string, b: string)
    ensures InOrder(mode, a, b) || InOrder(mode, b, a)
  {
    KeyLeTotal(SortKey(mode, a), SortKey(mode, b));
  }

  lemma InOrderTrans(mode: SortMode, a: string, b: string, c: string)
    requires InOrder(mode, a, b) && InOrder(mode, b, c)
    ensures InOrder(mode, a, c)
  {
    KeyLeTrans(SortKey(mode, a), SortKey(mode, b), SortKey(mode, c));
  }

  /** An element that may precede the head of a sorted list may precede all of it. */
  lemma LeadsSorted(mode: SortMode, t: string, ts: seq<string>)
    requires Sorted(mode, ts) && ts != [] && InOrder(mode, t, ts[0])
    ensures forall x :: x in ts ==> InOrder(mode, t, x)
  {
    forall x | x in ts ensures InOrder(mode, t, x) {
      var k :| 0 <= k < |ts| && ts[k] == x;
      if k > 0 {
        InOrderTrans(mode, t, ts[0], x);
      }
    }
  }

  /** The head of a sorted list may precede every element of a list made of its tail and `t`, when it may precede `t`. */
  lemma HeadLeads(mode: SortMode, t: string, ts: seq<string>, rest: seq<string>)
    requires Sorted(mode, ts) && ts != [] && InOrder(mode, ts[0], t)
    requires multiset(rest) == multiset(ts[1..]) + multiset{t}
    ensures forall x :: x in rest ==> InOrder(mode, ts[0], x)
  {
    forall x | x in rest ensures InOrder(mode, ts[0], x) {
      assert x in multiset(rest);
      if x != t {
        assert x in multiset(ts[1..]);
        var k :| 0 <= k < |ts[1..]| && ts[1..][k] == x;
        assert ts[k + 1] == x;
      }
    }
  }

  /** Places `t` before the first element it may precede; equal keys keep `t` first. */
  function InsertBy(mode: SortMode, t: string, ts: seq<string>): (r: seq<string>)
    requires Sorted(mode, ts)
    ensures Sorted(mode, r)
    ensures multiset(r) == multiset(ts) + multiset{t}
  {
    if ts == [] then [t]
    else if InOrder(mode, t, ts[0]) then
      LeadsSorted(mode, t, ts);
      [t] + ts
    else
      var rest := InsertBy(mode, t, ts[1..]);
      InOrderTotal(mode, t, ts[0]);
      assert ts == [ts[0]] + ts[1..];
      HeadLeads(mode, t, ts, rest);
      [ts[0]] + rest
  }

  /** `list.sort(key=...)` or `list.sort()`: a stable insertion sort. */
  function SortBy(mode: SortMode, ts: seq<string>): (r: seq<string>)
    ensures Sorted(mode, r)
    ensures multiset(r) == multiset(ts) && |r| == |ts|
  {
    if ts == [] then []
    else
      assert ts == [ts[0]] + ts[1..];
      InsertBy(mode, ts[0], SortBy(mode, ts[1..]))
  }

  /** The sort key of a mode, as a function. */
  function KeyOf(mode: SortMode): string -> seq<int>
  {
    t => SortKey(mode, t)
  }

  /** The entries of `ts` whose key is `k`, in list order. */
  function WithKey(key: string -> seq<int>, k: seq<int>, ts: seq<string>): (w: seq<string>)
    ensures forall t :: t in w <==> t in ts && key(t) == k
  {
    if ts == [] then []
    else
      assert ts == [ts[0]] + ts[1..];
      (if key(ts[0]) == k then [ts[0]] else []) + WithKey(key, k, ts[1..])
  }

  lemma WithKeyHead(key: string -> seq<int>, k: seq<int>, ts: seq<string>)
    requires ts != []
    ensures WithKey(key, k, ts) == (if key(ts[0]) == k then [ts[0]] else []) + WithKey(key, k, ts[1..])
  {
  }

  lemma {:induction false} WithKeyConcat(key: string -> seq<int>, k: seq<int>, a: seq<string>, b: seq<string>)
    ensures WithKey(key, k, a + b) == WithKey(key, k, a) + WithKey(key, k, b)
  {
    if a == [] {
      assert a + b == b;
    } else {
      assert (a + b)[0] == a[0] && (a + b)[1..] == a[1..] + b;
      WithKeyConcat(key, k, a[1..], b);
    }
  }

  lemma {:induction false} KeyLeRefl(a: seq<int>)
    ensures KeyLe(a, a)
  {
    if a != [] {
      KeyLeRefl(a[1..]);
    }
  }

  /** Two lists of which one is empty may be put in either order. */
  lemma SwapEmpty(a: seq<string>, b: seq<string>, c: seq<string>)
    requires a == [] || b == []
    ensures a + (b + c) == b + (a + c)
  {
    if a == [] {
      assert a + (b + c) == b + c == b + (a + c);
    } else {
      assert a + (b + c) == a + c == b + (a + c);
    }
  }

  /** Inserting `t` puts it before the entries of equal key. */
  lemma {:induction false} InsertByStable(mode: SortMode, t: string, ts: seq<string>, k: seq<int>)
    requires Sorted(mode, ts)
    ensures WithKey(KeyOf(mode), k, InsertBy(mode, t, ts)) ==
            (if SortKey(mode, t) == k then [t] else []) + WithKey(KeyOf(mode), k, ts)
  {
    var key := KeyOf(mode);
    var r := InsertBy(mode, t, ts);
    var own := if SortKey(mode, t) == k then [t] else [];
    if ts == [] {
      assert r == [t];
      WithKeyHead(key, k, r);
      assert r[1..] == [];
    } else if InOrder(mode, t, ts[0]) {
      assert r == [t] + ts;
      WithKeyHead(key, k, r);
      assert r[1..] == ts;
    } else {
      KeyLeRefl(SortKey(mode, t));
      assert SortKey(mode, t) != SortKey(mode, ts[0]);
      var rest := InsertBy(mode, t, ts[1..]);
      assert r == [ts[0]] + rest;
      assert r[0] == ts[0] && r[1..] == rest;
      InsertByStable(mode, t, ts[1..], k);
      WithKeyHead(key, k, r);
      WithKeyHead(key, k, ts);
      var head := if SortKey(mode, ts[0]) == k then [ts[0]] else [];
      var w := WithKey(key, k, ts[1..]);
      assert WithKey(key, k, r) == head + (own + w);
      assert WithKey(key, k, ts) == head + w;
      assert head == [] || own == [];
      SwapEmpty(head, own, w);
    }
  }

  /** The sort is stable: the entries of each key keep their input order. */
  lemma {:induction false} SortByStable(mode: SortMode, ts: seq<string>, k: seq<int>)
    ensures WithKey(KeyOf(mode), k, SortBy(mode, ts)) == WithKey(KeyOf(mode), k, ts)
  {
    if ts != [] {
      SortByStable(mode, ts[1..], k);
      InsertByStable(mode, ts[0], SortBy(mode, ts[1..]), k);
      WithKeyHead(KeyOf(mode), k, ts);
    }
  }

  /** Text keys are the code points of the text, so equal keys mean equal texts. */
  lemma TextKeyInjective(a: string, b: string)
    requires SortKey(ByText, a) == SortKey(ByText, b)
    ensures a == b
  {
    assert |a| == |SortKey(ByText, a)| == |b|;
    forall i | 0 <= i < |a| ensures a[i] == b[i] {
      assert SortKey(ByText, a)[i] == a[i] as int && SortKey(ByText, b)[i] == b[i] as int;
    }
  }

  /** A list without an entry of key `k` keeps nothing of that key. */
  lemma {:induction false} NoKeyNoEntries(key: string -> seq<int>, k: seq<int>, ts: seq<string>)
    requires forall m :: 0 <= m < |ts| ==> key(ts[m]) != k
    ensures WithKey(key, k, ts) == []
  {
    if ts != [] {
      assert forall m :: 0 <= m < |ts[1..]| ==> ts[1..][m] == ts[m + 1];
      NoKeyNoEntries(key, k, ts[1..]);
    }
  }

  /** A list whose keys are pairwise distinct has at most one entry of each key. */
  lemma {:induction false} SingleKey(key: string -> seq<int>, k: seq<int>, ts: seq<string>)
    requires forall i, j :: 0 <= i < j < |ts| ==> key(ts[i]) != key(ts[j])
    ensures |WithKey(key, k, ts)| <= 1
  {
    if ts != [] {
      var tail := ts[1..];
      assert forall i :: 0 <= i < |tail| ==> tail[i] == ts[i + 1];
      SingleKey(key, k, tail);
      WithKeyHead(key, k, ts);
      if key(ts[0]) == k {
        forall m | 0 <= m < |tail| ensures key(tail[m]) != k {
          assert key(ts[0]) != key(ts[m + 1]);
        }
        NoKeyNoEntries(key, k, tail);
      }
    }
  }

  /** Of two entries with the same key, the later one is not the first of that key. */
  lemma {:induction false} LaterInFilter(key: string -> seq<int>, s: seq<string>, i: nat, j: nat)
    requires i < j < |s| && key(s[i]) == key(s[j])
    ensures exists p :: 1 <= p < |WithKey(key, key(s[j]), s)| && WithKey(key, key(s[j]), s)[p] == s[j]
  {
    var k := key(s[j]);
    WithKeyHead(key, k, s);
    var head := if key(s[0]) == k then [s[0]] else [];
    var w := WithKey(key, k, s[1..]);
    assert WithKey(key, k, s) == head + w;
    if i == 0 {
      assert s[j] == s[1..][j - 1];
      assert s[j] in w;
      var q :| 0 <= q < |w| && w[q] == s[j];
      assert (head + w)[q + 1] == w[q];
    } else {
      assert s[1..][i - 1] == s[i] && s[1..][j - 1] == s[j];
      LaterInFilter(key, s[1..], i - 1, j - 1);
      var q :| 1 <= q < |w| && w[q] == s[j];
      assert (head + w)[q + |head|] == w[q];
    }
  }

  /**
   * Stably sorting a list of pairwise distinct keys with `last` appended: of
   * two entries with equal keys, the later one is `last`.
   */
  lemma StableTie(key: string -> seq<int>, input: seq<string>, last: string, sorted: seq<string>, i: nat, j: nat)
    requires forall a, b :: 0 <= a < b < |input| ==> key(input[a]) != key(input[b])
    requires i < j < |sorted| && key(sorted[i]) == key(sorted[j])
    requires WithKey(key, key(sorted[j]), sorted) == WithKey(key, key(sorted[j]), input + [last])
    ensures sorted[j] == last
  {
    var k := key(sorted[j]);
    var wi, wl := WithKey(key, k, input), WithKey(key, k, [last]);
    WithKeyConcat(key, k, input, [last]);
    SingleKey(key, k, input);
    WithKeyHead(key, k, [last]);
    assert [last][1..] == [];
    assert wl == if key(last) == k then [last] else [];
    LaterInFilter(key, sorted, i, j);
    var p :| 1 <= p < |wi + wl| && (wi + wl)[p] == sorted[j];
    assert p == 1 && |wi| == 1 && wl != [];
  }

  // ---------------------------------------------------------------- edit page

  /** No text occurs twice. */
  predicate Distinct(ts: seq<string>)
  {
    forall i, j :: 0 <= i < j < |ts| ==> ts[i] != ts[j]
  }

  /** A list without repetitions holds each text at most once, in any order it is later put. */
  lemma {:induction false} DistinctOnce(ts: seq<string>)
    requires Distinct(ts)
    ensures forall t :: multiset(ts)[t] <= 1
  {
    if ts != [] {
      var p, last := ts[..|ts| - 1], ts[|ts| - 1];
      assert ts == p + [last];
      DistinctOnce(p);
      forall i | 0 <= i < |p| ensures p[i] != last {
        assert p[i] == ts[i];
      }
    }
  }

  /**
   * The filtering loop of `edit_reservation_page`: the candidate times at
   * which the table is free once the reservation itself is ignored, in the
   * candidates' order.
   */
  method FreeSlots(xs: seq<Reservation>, res: Reservation, possible: seq<string>) returns (free: seq<string>)
    requires forall t :: t in possible ==> ParseClock(t).Some?
    requires forall i, j :: 0 <= i < j < |possible| ==> ClockValue(possible[i]) < ClockValue(possible[j])
    ensures forall t :: t in free <==>
      t in possible && IsTableAvailable(xs, res.tableId, res.date, t, res.shift, Some(res.id))
    ensures forall t :: t in free ==> ParseClock(t).Some?
    ensures forall i, j :: 0 <= i < j < |free| ==> ClockValue(free[i]) < ClockValue(free[j])
  {
    free := [];
    for k := 0 to |possible|
      invariant forall t :: t in free <==>
        t in possible[..k] && IsTableAvailable(xs, res.tableId, res.date, t, res.shift, Some(res.id))
      invariant forall t :: t in free ==> ParseClock(t).Some?
      invariant forall i, j :: 0 <= i < j < |free| ==> ClockValue(free[i]) < ClockValue(free[j])
      invariant k < |possible| ==> forall i :: 0 <= i < |free| ==> ClockValue(free[i]) < ClockValue(possible[k])
    {
      var slot := possible[k];
      assert possible[..k + 1] == possible[..k] + [slot];
      if IsTableAvailable(xs, res.tableId, res.date, slot, res.shift, Some(res.id)) {
        free := free + [slot];
      }
    }
    assert possible[..|possible|] == possible;
  }

  /**
   * The tail of `edit_reservation_page`: the reservation's own time is added
   * when missing and the list re-sorted, by clock time when every entry
   * parses and as text otherwise.
   */
  method WithOwnTime(free: seq<string>, own: string) returns (times: seq<string>)
    requires forall t :: t in free ==> ParseClock(t).Some?
    requires forall i, j :: 0 <= i < j < |free| ==> ClockValue(free[i]) < ClockValue(free[j])
    ensures forall t :: t in times <==> t == own || t in free
    ensures Sorted(if ParseClock(own).Some? then ByClock else ByText, times)
    ensures forall t :: multiset(times)[t] <= 1
    ensures var mode := if ParseClock(own).Some? then ByClock else ByText;
      forall i, j :: 0 <= i < j < |times| && SortKey(mode, times[i]) == SortKey(mode, times[j]) ==> times[j] == own
  {
    if own !in free {
      var all := free + [own];
      assert Distinct(all);
      DistinctOnce(all);
      var mode := if forall t | t in all :: ParseClock(t).Some? then ByClock else ByText;
      assert mode == ByClock <==> ParseClock(own).Some?;
      times := SortBy(mode, all);
      assert forall t :: t in times <==> t in multiset(all);
      var key := KeyOf(mode);
      forall a, b | 0 <= a < b < |free| ensures key(free[a]) != key(free[b]) {
        if mode == ByText && SortKey(mode, free[a]) == SortKey(mode, free[b]) {
          TextKeyInjective(free[a], free[b]);
        }
      }
      forall i, j | 0 <= i < j < |times| && SortKey(mode, times[i]) == SortKey(mode, times[j])
        ensures times[j] == own
      {
        SortByStable(mode, all, SortKey(mode, times[j]));
        StableTie(key, free, own, times, i, j);
      }
    } else {
      times := free;
      DistinctOnce(times);
      forall i, j | 0 <= i < j < |times|
        ensures InOrder(ByClock, times[i], times[j])
      {
        ClockOrder(times[i], times[j]);
      }
    }
  }

  /**
   * The time list of `edit_reservation_page`: the shift's slots at which the
   * reservation's table is free once the reservation itself is ignored, plus
   * the reservation's own time when missing, each once, sorted by clock time,
   * or as text when the own time does not parse.
   */
  method EditPageTimes(xs: seq<Reservation>, res: Reservation) returns (times: seq<string>)
    ensures forall t :: t in times <==>
      t == res.time ||
      (t in ShiftSlots(res.shift) && IsTableAvailable(xs, res.tableId, res.date, t, res.shift, Some(res.id)))
    ensures Sorted(if ParseClock(res.time).Some? then ByClock else ByText, times)
    ensures forall t :: multiset(times)[t] <= 1
    ensures var mode := if ParseClock(res.time).Some? then ByClock else ByText;
      forall i, j :: 0 <= i < j < |times| && SortKey(mode, times[i]) == SortKey(mode, times[j]) ==> times[j] == res.time
  {
    var possible := ShiftTimeSlots(res.shift);
    ShiftSlotsOrdered(res.shift);
    var free := FreeSlots(xs, res, possible);
    times := WithOwnTime(free, res.time);
  }

  // ---------------------------------------------------------------- date text

  /**
   * `format_date_european`: an empty text stays empty, a date `strptime`
   * accepts as `%Y-%m-%d` is written as `%d.%m.%Y`, anything else is
   * returned unchanged.
   */
  function FormatDateEuropean(s: string): (out: string)
    ensures s == "" ==> out == ""
    ensures out == s || (|out| == 10 && out[2] == '.' && out[5] == '.')
  {
    if s == "" then ""
    else
      match ParseIsoDate(s)
      case Some(d) => EuropeanText(d)
      case None => s
  }

  /** The canonical text of a date becomes its European text. */
  lemma FormatIsoDate(d: Date)
    requires ValidDate(d)
    ensures FormatDateEuropean(IsoText(d)) == EuropeanText(d)
  {
    ParseIsoText(d);
  }

  /** A text `strptime` rejects comes back unchanged; one it accepts is reformatted, never left as it was. */
  lemma FormatDateEuropeanCases(s: string)
    ensures ParseIsoDate(s).None? ==> FormatDateEuropean(s) == s
    ensures ParseIsoDate(s).Some? ==> FormatDateEuropean(s) == EuropeanText(ParseIsoDate(s).value) != s
  {
    if ParseIsoDate(s).Some? {
      var out := EuropeanText(ParseIsoDate(s).value);
      assert s[4] == '-' && AllDigits(s[..4]);
      if |s| == 10 {
        assert s[..4][2] == s[2];
        assert out[2] != s[2];
      }
    }
  }

  // ---------------------------------------------------------------- table names

  /**
   * `get_table_display_name_by_id`: the display name of the catalog table
   * with the id, or the id itself when no table has it.
   */
  method TableDisplayName(id: string) returns (name: string)
    ensures forall t :: t in AllTables() && t.id == id ==> name == t.displayName
    ensures (forall t :: t in AllTables() ==> t.id != id) ==> name == id
  {
    var tables := AllTables();
    for k := 0 to |tables|
      invariant forall j :: 0 <= j < k ==> tables[j].id != id
    {
      if tables[k].id == id {
        CatalogIdsUnique();
        return tables[k].displayName;
      }
    }
    name := id;
  }

  // ---------------------------------------------------------------- floor plan

  /** A guest of `r` sits at the table: the reservation is on it, has arrived and has not left. */
  predicate Occupies(r: Reservation, tableId: string)
  {
    r.tableId == tableId && r.arrived && !r.departed
  }

  /** Some reservation of the date and shift currently occupies the table. */
  predicate ActivelyOccupied(xs: seq<Reservation>, tableId: string, date: string, shift: string)
  {
    exists k :: 0 <= k < |xs| && xs[k].date == date && xs[k].shift == shift && Occupies(xs[k], tableId)
  }

  /** The reservations of one date and shift, in list order. */
  function OfDayAndShift(xs: seq<Reservation>, date: string, shift: string): (ys: seq<Reservation>)
    ensures forall r :: r in ys <==> r in xs && r.date == date && r.shift == shift
  {
    if xs == [] then []
    else
      var last := xs[|xs| - 1];
      var rest := OfDayAndShift(xs[..|xs| - 1], date, shift);
      assert forall r :: r in xs <==> r == last || r in xs[..|xs| - 1] by {
        assert xs == xs[..|xs| - 1] + [last];
      }
      if last.date == date && last.shift == shift then rest + [last] else rest
  }

  /** The first loop of `index`: the reservations of the selected date and shift. */
  method SelectDayAndShift(xs: seq<Reservation>, date: string, shift: string) returns (sel: seq<Reservation>)
    ensures sel == OfDayAndShift(xs, date, shift)
  {
    sel := [];
    for k := 0 to |xs|
      invariant sel == OfDayAndShift(xs[..k], date, shift)
    {
      assert xs[..k + 1][..k] == xs[..k];
      if xs[k].date == date && xs[k].shift == shift {
        sel := sel + [xs[k]];
      }
    }
    assert xs[..|xs|] == xs;
  }

  /**
   * The inner loop of `index` for one table: the flag
   * `is_table_actively_occupied` ends up set exactly when one of the
   * selected reservations occupies the table.
   */
  method IsActivelyOccupied(sel: seq<Reservation>, tableId: string) returns (occupied: bool)
    ensures occupied <==> exists r :: r in sel && Occupies(r, tableId)
  {
    occupied := false;
    for i := 0 to |sel|
      invariant occupied <==> exists j :: 0 <= j < i && Occupies(sel[j], tableId)
    {
      if sel[i].tableId == tableId && sel[i].arrived && !sel[i].departed {
        occupied := true;
      }
    }
  }

  /**
   * The status loop of `index`: for each catalog table, in catalog order,
   * `belegt` when a reservation of the selected date and shift occupies it,
   * `frei` otherwise.
   */
  method TableStatuses(xs: seq<Reservation>, date: string, shift: string) returns (statuses: seq<string>)
    ensures |statuses| == |AllTables()|
    ensures forall k :: 0 <= k < |statuses| ==>
      statuses[k] == (if ActivelyOccupied(xs, AllTables()[k].id, date, shift) then STATUS_OCCUPIED else STATUS_FREE)
  {
    var sel := SelectDayAndShift(xs, date, shift);
    var tables := AllTables();
    statuses := [];
    for k := 0 to |tables|
      invariant |statuses| == k
      invariant forall j :: 0 <= j < k ==>
        statuses[j] == (if ActivelyOccupied(xs, tables[j].id, date, shift) then STATUS_OCCUPIED else STATUS_FREE)
    {
      var occupied := IsActivelyOccupied(sel, tables[k].id);
      OccupiedBySelection(xs, date, shift, tables[k].id);
      statuses := statuses + [if occupied then STATUS_OCCUPIED else STATUS_FREE];
    }
  }

  /** Looking only at the selected date and shift finds exactly the occupying reservations of the whole list. */
  lemma OccupiedBySelection(xs: seq<Reservation>, date: string, shift: string, tableId: string)
    ensures (exists r :: r in OfDayAndShift(xs, date, shift) && Occupies(r, tableId)) <==>
            ActivelyOccupied(xs, tableId, date, shift)
  {
    if ActivelyOccupied(xs, tableId, date, shift) {
      var k :| 0 <= k < |xs| && xs[k].date == date && xs[k].shift == shift && Occupies(xs[k], tableId);
      assert xs[k] in OfDayAndShift(xs, date, shift);
    }
  }

  /** Registering the arrival of a guest who had not arrived or left puts the table in use. */
  lemma ArrivalOccupiesTable(xs: seq<Reservation>, i: nat)
    requires i < |xs| && !xs[i].arrived && !xs[i].departed
    ensures ActivelyOccupied(xs[i := ToggleArrival(xs[i])], xs[i].tableId, xs[i].date, xs[i].shift)
  {
    var ys := xs[i := ToggleArrival(xs[i])];
    assert Occupies(ys[i], xs[i].tableId);
  }

  /** After a departure the table stays in use only through another reservation of the same date and shift. */
  lemma DepartureFreesTable(xs: seq<Reservation>, i: nat)
    requires i < |xs|
    ensures var r := xs[i];
      ActivelyOccupied(xs[i := Depart(r).res], r.tableId, r.date, r.shift) <==>
      exists k :: 0 <= k < |xs| && k != i && xs[k].date == r.date && xs[k].shift == r.shift && Occupies(xs[k], r.tableId)
  {
    var r := xs[i];
    var ys := xs[i := Depart(r).res];
    assert !Occupies(ys[i], r.tableId);
    if ActivelyOccupied(ys, r.tableId, r.date, r.shift) {
      var k :| 0 <= k < |ys| && ys[k].date == r.date && ys[k].shift == r.shift && Occupies(ys[k], r.tableId);
      assert k != i && ys[k] == xs[k];
    }
    if exists k :: 0 <= k < |xs| && k != i && xs[k].date == r.date && xs[k].shift == r.shift && Occupies(xs[k], r.tableId) {
      var k :| 0 <= k < |xs| && k != i && xs[k].date == r.date && xs[k].shift == r.shift && Occupies(xs[k], r.tableId);
      assert ys[k] == xs[k];
    }
  }

  // ---------------------------------------------------------------- update gate

  /** One key of the JSON body: missing, an explicit `null`, or a value. */
  datatype BodyField<T> = Absent | Nil | Given(value: T)

  /** `data.get(key)`: a missing key and a `null` both read as None. */
  function GetField<T>(f: BodyField<T>): Option<T>
  {
    if f.Given? then Some(f.value) else None
  }

  /**
   * The JSON body of the update endpoint; `otherKeys` says whether the body
   * holds keys besides these seven.
   */
  datatype UpdateBody = UpdateBody(
    name: BodyField<string>,
    date: BodyField<string>,
    time: BodyField<string>,
    persons: BodyField<IntArg>,
    tableId: BodyField<string>,
    info: BodyField<string>,
    shift: BodyField<string>,
    otherKeys: bool)

  /** `not data`: the body is an empty JSON object; a key sent as `null` makes it non-empty. */
  predicate EmptyBody(body: UpdateBody)
  {
    body.name.Absent? && body.date.Absent? && body.time.Absent? && body.persons.Absent? &&
    body.tableId.Absent? && body.info.Absent? && body.shift.Absent? && !body.otherKeys
  }

  /** None of table, date, time and shift is sent as `null`. */
  predicate NoNullSlotKey(body: UpdateBody)
  {
    !body.tableId.Nil? && !body.date.Nil? && !body.time.Nil? && !body.shift.Nil?
  }

  /** How `api_update_reservation` answers before and instead of calling `update_reservation`. */
  datatype Gate =
    | NoData             // 400: an empty body
    | InvalidShift       // 400: a shift outside VALID_SHIFTS
    | InvalidDate        // 400: a non-empty date `strptime` rejects
    | OriginalMissing    // 404: no reservation with the id
    | SlotTaken          // 409: the requested slot is held by another reservation
    | InvalidPersons     // 400: `int()` rejects the persons value
    | Proceed(patch: Patch)

  /** A requested table, date, time and shift; a part that is `None` is Python's None. */
  datatype SlotRequest = SlotRequest(tableId: Option<string>, date: Option<string>, time: Option<string>, shift: Option<string>)

  /** The slot a stored record holds. */
  function SlotOf(r: Reservation): SlotRequest
  {
    SlotRequest(Some(r.tableId), Some(r.date), Some(r.time), Some(r.shift))
  }

  /** `data.get(key, default)`: the default for a missing key, None for a `null`. */
  function GetOr(f: BodyField<string>, default: string): Option<string>
  {
    match f
    case Absent => Some(default)
    case Nil => None
    case Given(v) => Some(v)
  }

  /** A key that is missing or repeats the stored value. */
  predicate Keeps(f: BodyField<string>, stored: string)
  {
    f.Absent? || f == Given(stored)
  }

  /** The slot the body asks for: each of table, date, time and shift from the body, or else from the stored record. */
  function Target(orig: Reservation, body: UpdateBody): (t: SlotRequest)
    ensures t == SlotOf(orig) <==>
      Keeps(body.tableId, orig.tableId) && Keeps(body.date, orig.date) && Keeps(body.time, orig.time) && Keeps(body.shift, orig.shift)
    ensures (t.tableId.None? || t.date.None? || t.time.None? || t.shift.None?) <==> !NoNullSlotKey(body)
  {
    SlotRequest(GetOr(body.tableId, orig.tableId), GetOr(body.date, orig.date),
                GetOr(body.time, orig.time), GetOr(body.shift, orig.shift))
  }

  /** The target where a `null` keeps the stored value, as `update_reservation` then does. */
  function IntendedTarget(orig: Reservation, body: UpdateBody): (t: SlotRequest)
    ensures t.tableId.Some? && t.date.Some? && t.time.Some? && t.shift.Some?
    ensures NoNullSlotKey(body) ==> t == Target(orig, body)
  {
    SlotRequest(Some(IfNone(GetField(body.tableId), orig.tableId)), Some(IfNone(GetField(body.date), orig.date)),
                Some(IfNone(GetField(body.time), orig.time)), Some(IfNone(GetField(body.shift), orig.shift)))
  }

  /** `v if v is not None else default`. */
  function IfNone(v: Option<string>, default: string): string
  {
    if v.Some? then v.value else default
  }

  /**
   * `is_table_available_for_specific_reservation_time` on a requested slot.
   * A None part equals no stored text, so no record is at such a slot and it counts as free.
   */
  predicate RequestFree(xs: seq<Reservation>, t: SlotRequest, id: string)
  {
    t.tableId.None? || t.date.None? || t.time.None? || t.shift.None? ||
    IsTableAvailable(xs, t.tableId.value, t.date.value, t.time.value, t.shift.value, Some(id))
  }

  /**
   * The checks of `api_update_reservation`, in order: an empty body, shift, date, presence
   * of the original, and, only when table, date, time or shift differs from
   * the stored record, the availability of the new slot with the record's
   * own id ignored; then `int()` on persons. `nullKeeps` selects the target:
   * the source's (false) or the one where a `null` keeps the stored value (true).
   */
  function GateWith(xs: seq<Reservation>, id: string, body: UpdateBody, nullKeeps: bool): Gate
  {
    if EmptyBody(body) then NoData
    else if body.shift.Given? && !ValidShift(body.shift.value) then InvalidShift
    else if body.date.Given? && body.date.value != "" && ParseIsoDate(body.date.value).None? then InvalidDate
    else
      match FindIndex(xs, id)
      case None => OriginalMissing
      case Some(i) =>
        var t := if nullKeeps then IntendedTarget(xs[i], body) else Target(xs[i], body);
        if t != SlotOf(xs[i]) && !RequestFree(xs, t, id) then SlotTaken
        else if body.persons.Given? && IntOf(body.persons.value).None? then InvalidPersons
        else
          var persons := if body.persons.Given? then Some(Num(IntOf(body.persons.value).value)) else None;
          Proceed(Patch(GetField(body.name), GetField(body.date), GetField(body.time), persons,
                        GetField(body.tableId), GetField(body.info), GetField(body.shift)))
  }

  /** The gate of `api_update_reservation` as written. */
  function UpdateGate(xs: seq<Reservation>, id: string, body: UpdateBody): (g: Gate)
    ensures g.Proceed? ==> HasId(xs, id) && !EmptyBody(body)
    ensures g.Proceed? ==> !body.shift.Given? || ValidShift(body.shift.value)
    ensures g.Proceed? ==> !body.date.Given? || body.date.value == "" || ParseIsoDate(body.date.value).Some?
    ensures g.Proceed? ==> g.patch.persons.None? || g.patch.persons.value.Num?
  {
    GateWith(xs, id, body, false)
  }

  /** The gate with a `null` table, date, time or shift keeping the stored value; it differs only for such bodies. */
  function IntendedUpdateGate(xs: seq<Reservation>, id: string, body: UpdateBody): (g: Gate)
    ensures NoNullSlotKey(body) ==> g == UpdateGate(xs, id, body)
    ensures g.Proceed? ==> HasId(xs, id) && !EmptyBody(body)
  {
    GateWith(xs, id, body, true)
  }

  /** A body that keeps table, date, time and shift is never refused for its slot. */
  lemma UnmovedNeverConflicts(xs: seq<Reservation>, id: string, body: UpdateBody)
    requires HasId(xs, id)
    requires var r := xs[FindIndex(xs, id).value]; Target(r, body) == SlotOf(r)
    ensures UpdateGate(xs, id, body) != SlotTaken
  {
  }

  /** A body that moves the record to a slot another reservation holds is refused with 409. */
  lemma TakenSlotConflicts(xs: seq<Reservation>, id: string, body: UpdateBody, other: Reservation)
    requires !body.shift.Given? || ValidShift(body.shift.value)
    requires !body.date.Given? || body.date.value == "" || ParseIsoDate(body.date.value).Some?
    requires HasId(xs, id) && other in xs && other.id != id
    requires var r := xs[FindIndex(xs, id).value]; Target(r, body) == SlotOf(other) && Target(r, body) != SlotOf(r)
    ensures UpdateGate(xs, id, body) == SlotTaken
  {
  }

  /** The patched record stands on the slot the intended target names. */
  lemma PatchedAtIntendedTarget(orig: Reservation, body: UpdateBody, p: Patch)
    requires !body.shift.Given? || ValidShift(body.shift.value)
    requires p == Patch(GetField(body.name), GetField(body.date), GetField(body.time), p.persons,
                        GetField(body.tableId), GetField(body.info), GetField(body.shift))
    ensures SlotOf(ApplyPatch(orig, p).res) == IntendedTarget(orig, body)
  {
    assert ShiftArg(p) == GetField(body.shift);
  }

  /** An update the intended gate lets through keeps every slot held by at most one reservation. */
  lemma IntendedGateKeepsNoDoubleBooking(xs: seq<Reservation>, id: string, body: UpdateBody)
    requires NoDoubleBooking(xs)
    requires IntendedUpdateGate(xs, id, body).Proceed?
    ensures var i := FindIndex(xs, id).value;
      NoDoubleBooking(xs[i := ApplyPatch(xs[i], IntendedUpdateGate(xs, id, body).patch).res])
  {
    var i := FindIndex(xs, id).value;
    var p := IntendedUpdateGate(xs, id, body).patch;
    var r := ApplyPatch(xs[i], p).res;
    PatchedAtIntendedTarget(xs[i], body, p);
    RebookKeepsNoDoubleBooking(xs, i, r);
  }

  /** An update the gate lets through keeps every slot held at most once, when no slot key is sent as `null`. */
  lemma GatedUpdateKeepsNoDoubleBooking(xs: seq<Reservation>, id: string, body: UpdateBody)
    requires NoDoubleBooking(xs) && NoNullSlotKey(body)
    requires UpdateGate(xs, id, body).Proceed?
    ensures var i := FindIndex(xs, id).value;
      NoDoubleBooking(xs[i := ApplyPatch(xs[i], UpdateGate(xs, id, body).patch).res])
  {
    IntendedGateKeepsNoDoubleBooking(xs, id, body);
  }

  /** Two dinner reservations on one table and date, an hour apart. */
  function EarlyGuest(): Reservation
  {
    Reservation("a", "A", "D", "18:00", 2, "T", None, false, false, SHIFT_DINNER)
  }

  function LateGuest(): Reservation
  {
    Reservation("b", "B", "D", "19:00", 2, "T", None, false, false, SHIFT_DINNER)
  }

  /** `{"date": null, "time": "19:00"}`. */
  function NullDateBody(): UpdateBody
  {
    UpdateBody(Absent, Nil, Given("19:00"), Absent, Absent, Absent, Absent, false)
  }

  /** The source's gate lets the body through, as a patch that only sets the time. */
  lemma NullDateProceeds()
    ensures UpdateGate([EarlyGuest(), LateGuest()], "a", NullDateBody()) ==
            Proceed(Patch(None, None, Some("19:00"), None, None, None, None))
  {
    assert FindIndex([EarlyGuest(), LateGuest()], "a") == Some(0);
    assert Target(EarlyGuest(), NullDateBody()) == SlotRequest(Some("T"), None, Some("19:00"), Some(SHIFT_DINNER));
  }

  /** The intended gate refuses the same body with 409. */
  lemma NullDateRefusedWhenKept()
    ensures IntendedUpdateGate([EarlyGuest(), LateGuest()], "a", NullDateBody()) == SlotTaken
  {
    var xs := [EarlyGuest(), LateGuest()];
    assert FindIndex(xs, "a") == Some(0);
    assert IntendedTarget(EarlyGuest(), NullDateBody()) == SlotOf(LateGuest());
    assert !IsTableAvailable(xs, "T", "D", "19:00", SHIFT_DINNER, Some("a")) by {
      assert LateGuest() in xs && AtSlot(LateGuest(), "T", "D", "19:00", SHIFT_DINNER) && !Ignored(LateGuest(), Some("a"));
    }
  }

  /** The patch that sets only the time moves the early guest onto the late guest's slot. */
  lemma TimePatchDoubleBooks()
    ensures ApplyPatch(EarlyGuest(), Patch(None, None, Some("19:00"), None, None, None, None)).res == EarlyGuest().(time := "19:00")
    ensures NoDoubleBooking([EarlyGuest(), LateGuest()])
    ensures !NoDoubleBooking([EarlyGuest().(time := "19:00"), LateGuest()])
  {
    var ys := [EarlyGuest().(time := "19:00"), LateGuest()];
    assert ys[0] in ys && ys[1] in ys && AtSlot(ys[1], ys[0].tableId, ys[0].date, ys[0].time, ys[0].shift);
  }

  /**
   * A `null` date lets a move onto a held slot through the gate: the target's
   * date is None, which no record has, while `update_reservation` keeps the
   * stored date and takes the new time. The intended gate refuses it.
   */
  lemma NullKeyBypassesGate()
    ensures var xs := [EarlyGuest(), LateGuest()];
      var g := UpdateGate(xs, "a", NullDateBody());
      NoDoubleBooking(xs) && g.Proceed? &&
      !NoDoubleBooking(xs[0 := ApplyPatch(xs[0], g.patch).res]) &&
      IntendedUpdateGate(xs, "a", NullDateBody()) == SlotTaken
  {
    var xs := [EarlyGuest(), LateGuest()];
    NullDateProceeds();
    NullDateRefusedWhenKept();
    TimePatchDoubleBooks();
    assert xs[0 := EarlyGuest().(time := "19:00")] == [EarlyGuest().(time := "19:00"), LateGuest()];
  }
}
