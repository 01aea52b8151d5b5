/**
 * The default weekly grid of meeting-time slots and the table operation
 * that inserts the slots of the grid a table does not have yet.
 */
module DefaultSlots {
  import opened Models

  /** The days the grid covers, in creation order. */
  const Days: seq<Day> := [Monday, Tuesday, Wednesday, Thursday, Friday, Saturday]

  /** `day[:3].upper()`. */
  function DayCode(d: Day): string {
    match d
    case Monday => "MON"
    case Tuesday => "TUE"
    case Wednesday => "WED"
    case Thursday => "THU"
    case Friday => "FRI"
    case Saturday => "SAT"
  }

  function Digit(n: int): char
    requires 0 <= n < 10
  {
    ('0' as int + n) as char
  }

  /** `strftime('%H%M')`. */
  function HHMM(t: Time): (s: string)
    ensures |s| == 4
  {
    [Digit(Hour(t) / 10), Digit(Hour(t) % 10), Digit(Minute(t) / 10), Digit(Minute(t) % 10)]
  }

  /** The pid a created slot gets: `MT-<DAY>-<HHMM>`, or `MT-<DAY>-LUNCH`
    * for the lunch slot. */
  function Pid(d: Day, start: Time, lunch: bool): (p: string)
    ensures |p| == if lunch then 12 else 11
  {
    "MT-" + DayCode(d) + "-" + (if lunch then "LUNCH" else HHMM(start))
  }

  /** Different slots get different pids: the pid gives back the day,
    * whether the slot is the lunch break, and otherwise the start's hour
    * and minute. */
  lemma PidInjective(d1: Day, t1: Time, l1: bool, d2: Day, t2: Time, l2: bool)
    requires Pid(d1, t1, l1) == Pid(d2, t2, l2)
    ensures d1 == d2 && l1 == l2
    ensures !l1 ==> t1 == t2
  {
    var p := Pid(d1, t1, l1);
    assert l1 == l2 by {
      assert |p| == |Pid(d2, t2, l2)|;
    }
    assert DayCode(d1) == p[3..6] == DayCode(d2);
    assert d1 == d2;
    if !l1 {
      assert HHMM(t1) == p[7..] == HHMM(t2);
      DigitInjective(Hour(t1) / 10, Hour(t2) / 10);
      DigitInjective(Hour(t1) % 10, Hour(t2) % 10);
      DigitInjective(Minute(t1) / 10, Minute(t2) / 10);
      DigitInjective(Minute(t1) % 10, Minute(t2) % 10);
      assert Hour(t1) == Hour(t2) && Minute(t1) == Minute(t2);
    }
  }

  lemma DigitInjective(a: int, b: int)
    requires 0 <= a < 10 && 0 <= b < 10 && Digit(a) == Digit(b)
    ensures a == b
  {
  }

  /** The one-hour slot starting at `h`:00. */
  function HourSlot(d: Day, h: int): MeetingTime
    requires 9 <= h < 19
  {
    MeetingTime(Pid(d, At(h, 0), false), d, At(h, 0), At(h + 1, 0), false)
  }

  /** 13:00-13:45, the lunch break. */
  function LunchSlot(d: Day): MeetingTime {
    MeetingTime(Pid(d, At(13, 0), true), d, At(13, 0), At(13, 45), true)
  }

  /** The one-hour slot starting at `h`:45, after lunch. */
  function PostLunchSlot(d: Day, h: int): MeetingTime
    requires 13 <= h <= 15
  {
    MeetingTime(Pid(d, At(h, 45), false), d, At(h, 45), At(h + 1, 45), false)
  }

  /** The start hour of the `i`-th hourly slot: 9 to 18, skipping 13. */
  function HourOf(i: int): int {
    if i < 4 then 9 + i else 10 + i
  }

  /** How many hourly slots start before `h`:00. */
  function HoursBefore(h: int): int {
    if h <= 13 then h - 9 else h - 10
  }

  /** The hourly slots of `d`, from 9:00 to 18:00 without the one at 13:00. */
  function Hourly(d: Day): (r: seq<MeetingTime>)
    ensures |r| == 9
  {
    seq(9, i requires 0 <= i < 9 => HourSlot(d, HourOf(i)))
  }

  function PostLunch(d: Day): seq<MeetingTime> {
    [PostLunchSlot(d, 13), PostLunchSlot(d, 14), PostLunchSlot(d, 15)]
  }

  /** Weekdays add the lunch break and the post-lunch slots. */
  function WeekdayExtras(d: Day): seq<MeetingTime> {
    if d != Saturday then [LunchSlot(d)] + PostLunch(d) else []
  }

  /** The slots of one day, in creation order. */
  function DaySlots(d: Day): seq<MeetingTime> {
    Hourly(d) + WeekdayExtras(d)
  }

  /** The slots of the given days, day after day, in creation order. */
  function GridOf(days: seq<Day>): seq<MeetingTime> {
    if days == [] then [] else GridOf(days[..|days| - 1]) + DaySlots(days[|days| - 1])
  }

  /** The whole grid: exactly the default slots, 74 of them, no two with
    * the same day, start and end. */
  function Grid(): (r: seq<MeetingTime>)
    ensures forall s :: s in r <==> IsDefaultSlot(s)
    ensures |r| == 74 && DistinctKeys(r)
  {
    WeekGrid();
    GridOf(Days)
  }

  lemma WeekGrid()
    ensures forall s :: s in GridOf(Days) <==> IsDefaultSlot(s)
    ensures |GridOf(Days)| == 74 && DistinctKeys(GridOf(Days))
  {
    GridOfMembers(Days);
    EveryDayCovered();
    forall s | IsDefaultSlot(s) ensures s in GridOf(Days) {
      assert s.day in Days;
    }
    GridOfDistinct(Days);
    SaturdaysOfDistinct(Days);
    assert Days[5] == Saturday;
  }

  // ---------------------------------------------------------------------
  // The grid, described slot by slot

  /** A slot of the default grid, by its own properties: its pid follows
    * the naming scheme, and it is an hourly slot from 9:00 to 18:00 other
    * than 13:00, or on a weekday the lunch break or a post-lunch slot. */
  predicate IsDefaultSlot(s: MeetingTime)
    ensures IsDefaultSlot(s) ==> At(9, 0) <= s.start < s.end <= At(19, 0)
  {
    && s.pid == Pid(s.day, s.start, s.isLunchBreak)
    && (|| (!s.isLunchBreak && Minute(s.start) == 0 && 9 <= Hour(s.start) <= 18 && Hour(s.start) != 13
            && s.end == At(Hour(s.start) + 1, 0))
        || (s.isLunchBreak && s.day != Saturday && s.start == At(13, 0) && s.end == At(13, 45))
        || (!s.isLunchBreak && s.day != Saturday && Minute(s.start) == 45 && 13 <= Hour(s.start) <= 15
            && s.end == At(Hour(s.start) + 1, 45)))
  }

  /** Each kind of created slot is a default slot. */
  lemma CreatedSlotsAreDefault(d: Day)
    ensures forall h :: 9 <= h < 19 && h != 13 ==> IsDefaultSlot(HourSlot(d, h))
    ensures d != Saturday ==> IsDefaultSlot(LunchSlot(d))
    ensures d != Saturday ==> forall h :: 13 <= h <= 15 ==> IsDefaultSlot(PostLunchSlot(d, h))
  {
  }

  /** A default slot is one of the created slots of its day. */
  lemma DefaultSlotIsCreated(s: MeetingTime)
    requires IsDefaultSlot(s)
    ensures || (9 <= Hour(s.start) < 19 && Hour(s.start) != 13 && s == HourSlot(s.day, Hour(s.start)))
            || (s.day != Saturday && s == LunchSlot(s.day))
            || (s.day != Saturday && 13 <= Hour(s.start) <= 15 && s == PostLunchSlot(s.day, Hour(s.start)))
  {
    SameTime(s.start, At(Hour(s.start), Minute(s.start)));
  }

  lemma SameTime(a: Time, b: Time)
    requires Hour(a) == Hour(b) && Minute(a) == Minute(b)
    ensures a == b
  {
  }

  lemma HourlySound(d: Day)
    ensures forall s :: s in Hourly(d) ==> 9 <= Hour(s.start) < 19 && Hour(s.start) != 13 && s == HourSlot(d, Hour(s.start))
  {
    forall s | s in Hourly(d)
      ensures 9 <= Hour(s.start) < 19 && Hour(s.start) != 13 && s == HourSlot(d, Hour(s.start))
    {
      var i :| 0 <= i < 9 && Hourly(d)[i] == s;
      assert s == HourSlot(d, HourOf(i));
    }
  }

  lemma HourlyComplete(d: Day)
    ensures forall k :: 9 <= k < 19 && k != 13 ==> HourSlot(d, k) in Hourly(d)
  {
    forall k | 9 <= k < 19 && k != 13 ensures HourSlot(d, k) in Hourly(d) {
      assert Hourly(d)[HoursBefore(k)] == HourSlot(d, k);
    }
  }

  lemma ExtrasList(d: Day)
    requires d != Saturday
    ensures WeekdayExtras(d) == [LunchSlot(d), PostLunchSlot(d, 13), PostLunchSlot(d, 14), PostLunchSlot(d, 15)]
  {
  }

  lemma ExtrasSound(d: Day)
    ensures forall s :: s in WeekdayExtras(d) ==> s.day == d && IsDefaultSlot(s)
  {
    if d != Saturday {
      ExtrasList(d);
      CreatedSlotsAreDefault(d);
    }
  }

  lemma ExtrasStarts(d: Day)
    ensures forall s :: s in WeekdayExtras(d) ==> (Hour(s.start) == 13 && Minute(s.start) == 0) || Minute(s.start) == 45
  {
    if d != Saturday {
      ExtrasList(d);
    }
  }

  lemma ExtrasDistinct(d: Day)
    ensures |WeekdayExtras(d)| == if d == Saturday then 0 else 4
    ensures DistinctKeys(WeekdayExtras(d))
  {
    if d != Saturday {
      ExtrasList(d);
    }
  }

  lemma ExtrasComplete(d: Day)
    requires d != Saturday
    ensures LunchSlot(d) in WeekdayExtras(d)
    ensures forall h :: 13 <= h <= 15 ==> PostLunchSlot(d, h) in WeekdayExtras(d)
  {
    ExtrasList(d);
  }

  lemma DaySlotsSound(d: Day)
    ensures forall s :: s in DaySlots(d) ==> s.day == d && IsDefaultSlot(s)
  {
    HourlySound(d);
    CreatedSlotsAreDefault(d);
    ExtrasSound(d);
  }

  lemma DaySlotsComplete(d: Day, s: MeetingTime)
    requires s.day == d && IsDefaultSlot(s)
    ensures s in DaySlots(d)
  {
    HourlyComplete(d);
    DefaultSlotIsCreated(s);
    if s.day != Saturday {
      ExtrasComplete(d);
    }
  }

  lemma {:induction false} GridOfMembers(days: seq<Day>)
    ensures forall s :: s in GridOf(days) <==> s.day in days && IsDefaultSlot(s)
  {
    if days != [] {
      var init := days[..|days| - 1];
      var d := days[|days| - 1];
      GridOfMembers(init);
      DaySlotsSound(d);
      forall s: MeetingTime | s.day == d && IsDefaultSlot(s) ensures s in DaySlots(d) {
        DaySlotsComplete(d, s);
      }
      assert days == init + [d];
    }
  }

  lemma EveryDayCovered()
    ensures forall d: Day :: d in Days
  {
    forall d: Day ensures d in Days {
      match d
      case Monday => assert Days[0] == d;
      case Tuesday => assert Days[1] == d;
      case Wednesday => assert Days[2] == d;
      case Thursday => assert Days[3] == d;
      case Friday => assert Days[4] == d;
      case Saturday => assert Days[5] == d;
    }
  }

  /** The properties of the created rows: only the 13:00-13:45 slot is a
    * lunch break, nothing else starts at 13:00, Saturday has neither the
    * lunch break nor a post-lunch slot, and every other slot lasts an
    * hour. */
  lemma GridFacts()
    ensures forall s :: s in Grid() ==> (s.isLunchBreak <==> s.start == At(13, 0) && s.end == At(13, 45))
    ensures forall s :: s in Grid() ==> s.start == At(13, 0) ==> s.isLunchBreak
    ensures forall s :: s in Grid() && s.day == Saturday ==> Minute(s.start) == 0 && !s.isLunchBreak
    ensures forall s :: s in Grid() && !s.isLunchBreak ==> s.end == s.start + 60
  {
    forall s | s in Grid()
      ensures (s.isLunchBreak <==> s.start == At(13, 0) && s.end == At(13, 45))
      ensures s.day == Saturday ==> Minute(s.start) == 0 && !s.isLunchBreak
      ensures !s.isLunchBreak ==> s.end == s.start + 60
    {
      assert IsDefaultSlot(s);
    }
  }

  // ---------------------------------------------------------------------
  // Size and distinctness of the grid

  function Key(s: MeetingTime): (Day, Time, Time) {
    (s.day, s.start, s.end)
  }

  predicate DistinctKeys(ss: seq<MeetingTime>) {
    forall i, j :: 0 <= i < j < |ss| ==> Key(ss[i]) != Key(ss[j])
  }

  lemma DistinctAppend(a: seq<MeetingTime>, b: seq<MeetingTime>)
    requires DistinctKeys(a) && DistinctKeys(b)
    requires forall x, y :: x in a && y in b ==> Key(x) != Key(y)
    ensures DistinctKeys(a + b)
  {
    var ab := a + b;
    forall i, j | 0 <= i < j < |ab| ensures Key(ab[i]) != Key(ab[j]) {
      if j < |a| {
        assert ab[i] == a[i] && ab[j] == a[j];
      } else if i < |a| {
        assert ab[i] in a && ab[j] in b;
      } else {
        assert ab[i] == b[i - |a|] && ab[j] == b[j - |a|];
      }
    }
  }

  lemma HourlyDistinct(d: Day)
    ensures DistinctKeys(Hourly(d))
  {
    var r := Hourly(d);
    forall i, j | 0 <= i < j < 9 ensures Key(r[i]) != Key(r[j]) {
      assert Hour(r[i].start) == HourOf(i) < HourOf(j) == Hour(r[j].start);
    }
  }

  lemma DaySlotsDistinct(d: Day)
    ensures |DaySlots(d)| == if d == Saturday then 9 else 13
    ensures DistinctKeys(DaySlots(d))
  {
    HourlyDistinct(d);
    HourlySound(d);
    ExtrasDistinct(d);
    ExtrasStarts(d);
    DistinctAppend(Hourly(d), WeekdayExtras(d));
  }

  lemma DaySlotsDay(d: Day)
    ensures forall s :: s in DaySlots(d) ==> s.day == d
  {
    HourlySound(d);
    ExtrasSound(d);
  }

  lemma {:induction false} GridOfDays(days: seq<Day>)
    ensures forall s :: s in GridOf(days) ==> s.day in days
  {
    if days != [] {
      var init := days[..|days| - 1];
      GridOfDays(init);
      DaySlotsDay(days[|days| - 1]);
      assert days == init + [days[|days| - 1]];
    }
  }

  /** The number of Saturdays in `days`. */
  function Saturdays(days: seq<Day>): nat {
    if days == [] then 0 else Saturdays(days[..|days| - 1]) + (if days[|days| - 1] == Saturday then 1 else 0)
  }

  lemma {:induction false} SaturdaysOfDistinct(days: seq<Day>)
    requires forall i, j :: 0 <= i < j < |days| ==> days[i] != days[j]
    ensures Saturdays(days) == if Saturday in days then 1 else 0
  {
    if days != [] {
      var init := days[..|days| - 1];
      SaturdaysOfDistinct(init);
      assert days == init + [days[|days| - 1]];
      if days[|days| - 1] == Saturday {
        assert Saturday !in init;
      }
    }
  }

  lemma {:induction false} GridOfDistinct(days: seq<Day>)
    requires forall i, j :: 0 <= i < j < |days| ==> days[i] != days[j]
    ensures DistinctKeys(GridOf(days))
    ensures |GridOf(days)| == 13 * |days| - 4 * Saturdays(days)
  {
    if days != [] {
      var init := days[..|days| - 1];
      var d := days[|days| - 1];
      GridOfDistinct(init);
      GridOfDays(init);
      DaySlotsDay(d);
      DaySlotsDistinct(d);
      assert d !in init;
      DistinctAppend(GridOf(init), DaySlots(d));
    }
  }

  // ---------------------------------------------------------------------
  // Inserting missing slots into a table

  /** `filter(day=…, start_time=…, end_time=…).exists()`. */
  predicate HasSlot(rows: seq<MeetingTime>, s: MeetingTime) {
    exists r :: r in rows && Key(r) == Key(s)
  }

  /** Insert `s` unless a row with its day, start and end is present. */
  function AddOne(rows: seq<MeetingTime>, s: MeetingTime): (r: seq<MeetingTime>)
    ensures HasSlot(rows, s) ==> r == rows
    ensures !HasSlot(rows, s) ==> r == rows + [s]
  {
    if HasSlot(rows, s) then rows else rows + [s]
  }

  /** Insert the slots of `ss` in order, each unless already present. */
  function AddAll(rows: seq<MeetingTime>, ss: seq<MeetingTime>): (r: seq<MeetingTime>)
    decreases |ss|
  {
    if ss == [] then rows else AddAll(AddOne(rows, ss[0]), ss[1..])
  }

  /** Inserting only appends rows, and only rows of `ss`. */
  lemma {:induction false} AddAllAppends(rows: seq<MeetingTime>, ss: seq<MeetingTime>)
    ensures |rows| <= |AddAll(rows, ss)|
    ensures AddAll(rows, ss)[..|rows|] == rows
    ensures forall i :: |rows| <= i < |AddAll(rows, ss)| ==> AddAll(rows, ss)[i] in ss
    decreases |ss|
  {
    if ss != [] {
      var next := AddOne(rows, ss[0]);
      AddAllAppends(next, ss[1..]);
      var r := AddAll(rows, ss);
      assert r[..|rows|] == r[..|next|][..|rows|];
      forall i | |rows| <= i < |r| ensures r[i] in ss {
        if i >= |next| {
          assert r[i] in ss[1..];
        } else {
          assert r[i] == r[..|next|][i] == ss[0];
        }
      }
    }
  }

  lemma {:induction false} AddAllConcat(rows: seq<MeetingTime>, a: seq<MeetingTime>, b: seq<MeetingTime>)
    ensures AddAll(rows, a + b) == AddAll(AddAll(rows, a), b)
    decreases |a|
  {
    if a == [] {
      assert a + b == b;
    } else {
      assert (a + b)[0] == a[0] && (a + b)[1..] == a[1..] + b;
      AddAllConcat(AddOne(rows, a[0]), a[1..], b);
    }
  }

  lemma AddAllSnoc(rows: seq<MeetingTime>, a: seq<MeetingTime>, s: MeetingTime)
    ensures AddAll(rows, a + [s]) == AddOne(AddAll(rows, a), s)
  {
    AddAllConcat(rows, a, [s]);
    assert [s][1..] == [];
  }

  /** A row, once present, stays present. */
  lemma {:induction false} AddAllKeeps(rows: seq<MeetingTime>, ss: seq<MeetingTime>, s: MeetingTime)
    requires HasSlot(rows, s)
    ensures HasSlot(AddAll(rows, ss), s)
  {
    AddAllAppends(rows, ss);
    var r :| r in rows && Key(r) == Key(s);
    var i :| 0 <= i < |rows| && rows[i] == r;
    assert AddAll(rows, ss)[..|rows|][i] == r;
  }

  /** After inserting, every slot of `ss` is present. */
  lemma {:induction false} AddAllCovers(rows: seq<MeetingTime>, ss: seq<MeetingTime>)
    ensures forall s :: s in ss ==> HasSlot(AddAll(rows, ss), s)
    decreases |ss|
  {
    if ss != [] {
      var next := AddOne(rows, ss[0]);
      AddAllCovers(next, ss[1..]);
      assert ss[0] in next || HasSlot(rows, ss[0]);
      assert HasSlot(next, ss[0]);
      AddAllKeeps(next, ss[1..], ss[0]);
    }
  }

  /** Inserting slots that are all present changes nothing. */
  lemma {:induction false} AddAllPresent(rows: seq<MeetingTime>, ss: seq<MeetingTime>)
    requires forall s :: s in ss ==> HasSlot(rows, s)
    ensures AddAll(rows, ss) == rows
    decreases |ss|
  {
    if ss != [] {
      assert ss[0] in ss;
      AddAllPresent(rows, ss[1..]);
    }
  }

  /** Inserting slots with distinct keys, none present, appends them all. */
  lemma {:induction false} AddAllFresh(rows: seq<MeetingTime>, ss: seq<MeetingTime>)
    requires DistinctKeys(ss)
    requires forall s :: s in ss ==> !HasSlot(rows, s)
    ensures AddAll(rows, ss) == rows + ss
    decreases |ss|
  {
    if ss != [] {
      var next := rows + [ss[0]];
      assert ss[0] in ss;
      forall s | s in ss[1..] ensures !HasSlot(next, s) {
        var j :| 0 <= j < |ss[1..]| && ss[1..][j] == s;
        assert Key(ss[0]) != Key(ss[j + 1]);
        assert s in ss;
        forall r | r in next ensures Key(r) != Key(s) {
          if r !in rows {
            assert r == ss[0];
          }
        }
      }
      assert DistinctKeys(ss[1..]) by {
        forall i, j | 0 <= i < j < |ss[1..]| ensures Key(ss[1..][i]) != Key(ss[1..][j]) {
          assert ss[1..][i] == ss[i + 1] && ss[1..][j] == ss[j + 1];
        }
      }
      AddAllFresh(next, ss[1..]);
      assert next + ss[1..] == rows + ss;
    }
  }

  /** On a table with none of the grid's slots, the whole grid is inserted:
    * 74 rows. */
  lemma EmptyTableGetsGrid(rows: seq<MeetingTime>)
    requires forall s :: s in Grid() ==> !HasSlot(rows, s)
    ensures AddAll(rows, Grid()) == rows + Grid()
    ensures |AddAll(rows, Grid())| - |rows| == 74
  {
    AddAllFresh(rows, Grid());
  }

  /** A second run inserts nothing. */
  lemma SecondRunAddsNothing(rows: seq<MeetingTime>)
    ensures AddAll(AddAll(rows, Grid()), Grid()) == AddAll(rows, Grid())
  {
    AddAllCovers(rows, Grid());
    AddAllPresent(AddAll(rows, Grid()), Grid());
  }

  lemma PrefixSnoc<T>(xs: seq<T>, k: nat)
    requires k < |xs|
    ensures xs[..k + 1] == xs[..k] + [xs[k]]
  {
  }

  lemma HourlyStep(d: Day, h: int)
    requires 9 <= h < 19 && h != 13
    ensures Hourly(d)[..HoursBefore(h + 1)] == Hourly(d)[..HoursBefore(h)] + [HourSlot(d, h)]
  {
    assert Hourly(d)[HoursBefore(h)] == HourSlot(d, h);
  }

  /** Inserting the slots of one more day: its hourly slots, then its
    * lunch break and post-lunch slots. */
  lemma AddDay(rows: seq<MeetingTime>, days: seq<Day>, d: Day)
    ensures AddAll(rows, GridOf(days + [d])) == AddAll(AddAll(AddAll(rows, GridOf(days)), Hourly(d)), WeekdayExtras(d))
  {
    assert (days + [d])[..|days|] == days;
    var g, a, b := GridOf(days), Hourly(d), WeekdayExtras(d);
    assert GridOf(days + [d]) == g + (a + b);
    assert g + (a + b) == (g + a) + b;
    AddAllConcat(rows, g, a);
    AddAllConcat(rows, g + a, b);
  }

  /** The MeetingTime table. */
  class SlotTable {
    var rows: seq<MeetingTime>

    constructor (initial: seq<MeetingTime>)
      ensures rows == initial
    {
      rows := initial;
    }

    /** Insert `s` unless its day, start and end are present. */
    method Ensure(s: MeetingTime) returns (created: nat)
      modifies this
      ensures rows == AddOne(old(rows), s)
      ensures created == |rows| - |old(rows)|
    {
      created := 0;
      if !HasSlot(rows, s) {
        rows := rows + [s];
        created := 1;
      }
    }

    method EnsureHourly(d: Day) returns (created: nat)
      modifies this
      ensures rows == AddAll(old(rows), Hourly(d))
      ensures created == |rows| - |old(rows)|
    {
      created := 0;
      assert rows == AddAll(old(rows), Hourly(d)[..HoursBefore(9)]);
      for h := 9 to 19
        invariant rows == AddAll(old(rows), Hourly(d)[..HoursBefore(h)])
        invariant created == |rows| - |old(rows)|
      {
        if h == 13 {
          assert HoursBefore(h + 1) == HoursBefore(h);
          continue;
        }
        HourlyStep(d, h);
        AddAllSnoc(old(rows), Hourly(d)[..HoursBefore(h)], HourSlot(d, h));
        var c := Ensure(HourSlot(d, h));
        created := created + c;
      }
      assert Hourly(d)[..HoursBefore(19)] == Hourly(d);
    }

    method EnsureWeekdayExtras(d: Day) returns (created: nat)
      modifies this
      ensures rows == AddAll(old(rows), WeekdayExtras(d))
      ensures created == |rows| - |old(rows)|
    {
      created := 0;
      if d == Saturday {
        return;
      }
      created := Ensure(LunchSlot(d));
      assert rows == AddAll(old(rows), [LunchSlot(d)] + PostLunch(d)[..0]);
      for i := 0 to 3
        invariant rows == AddAll(old(rows), [LunchSlot(d)] + PostLunch(d)[..i])
        invariant created == |rows| - |old(rows)|
      {
        var slot := PostLunchSlot(d, 13 + i);
        PrefixSnoc(PostLunch(d), i);
        assert [LunchSlot(d)] + PostLunch(d)[..i + 1] == ([LunchSlot(d)] + PostLunch(d)[..i]) + [slot];
        AddAllSnoc(old(rows), [LunchSlot(d)] + PostLunch(d)[..i], slot);
        var c := Ensure(slot);
        created := created + c;
      }
      assert PostLunch(d)[..3] == PostLunch(d);
    }

    /** `generate_default_slots`: insert every slot of the grid the table
      * does not have, and return how many were inserted. */
    method GenerateDefaultSlots() returns (created: nat)
      modifies this
      ensures rows == AddAll(old(rows), Grid())
      ensures created == |rows| - |old(rows)|
    {
      created := 0;
      for k := 0 to |Days|
        invariant rows == AddAll(old(rows), GridOf(Days[..k]))
        invariant created == |rows| - |old(rows)|
      {
        var day := Days[k];
        PrefixSnoc(Days, k);
        AddDay(old(rows), Days[..k], day);
        var c := EnsureHourly(day);
        created := created + c;
        c := EnsureWeekdayExtras(day);
        created := created + c;
      }
      assert Days[..|Days|] == Days;
    }
  }
}
