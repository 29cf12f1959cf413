/** The attendance half of the student dashboard script (dashboard.js): the
    percentage bands, the overall figure over the categorised subject lists
    with its two localStorage toggles, the month calendar with its day cells
    and selected date, and the grouping of one subject's dates by month. */
module DashboardAttendance {
  import opened Common
  import opened Store
  import Attendance

  type SubjectStat = Attendance.SubjectStat
  type DayCount = Attendance.DayCount
  type DateEntry = Attendance.DateEntry

  // ---------------------------------------------------------------------
  // Percentage bands
  // ---------------------------------------------------------------------

  datatype Band = High | Medium | Low

  /** getPercentageClass: above 85 is high, from 75 up to 85 medium, below 75 low. */
  function PercentageClass(p: real): (b: Band)
    ensures b == High <==> p > 85.0
    ensures b == Medium <==> 75.0 <= p <= 85.0
    ensures b == Low <==> p < 75.0
  {
    if p > 85.0 then High else if p >= 75.0 then Medium else Low
  }

  const Green := "#10b981"
  const Amber := "#f59e0b"
  const Red := "#ef4444"

  /** The progress circle's stroke for a band (updateProgressCircle). */
  function BandColor(b: Band): string {
    match b
    case High => Green
    case Medium => Amber
    case Low => Red
  }

  /** A subject card's stroke, chosen from the percentage by its own chain
      of comparisons (createSubjectCard). */
  function StrokeColor(p: real): string {
    var color := Red;
    if p > 85.0 then Green else if p >= 75.0 then Amber else color
  }

  /** The card's stroke and the circle's colour follow the same bands, and
      the three bands have three different colours. */
  lemma StrokeFollowsBand(p: real)
    ensures StrokeColor(p) == BandColor(PercentageClass(p))
    ensures StrokeColor(p) == Green <==> p > 85.0
    ensures StrokeColor(p) == Red <==> p < 75.0
  {
    assert Green != Amber && Green != Red && Amber != Red by {
      assert Green[1] != Amber[1] && Green[1] != Red[1] && Amber[1] != Red[1];
    }
  }

  // ---------------------------------------------------------------------
  // The toggles in localStorage
  // ---------------------------------------------------------------------

  function ToggleKey(section: string): string {
    "toggle_" + section
  }

  /** getToggleState: on only when the stored text is exactly "true";
      a missing key reads as off. */
  function ToggleState(storage: map<string, string>, section: string): bool {
    var key := ToggleKey(section);
    key in storage && storage[key] == "true"
  }

  /** setToggleState: stores `enabled.toString()`. */
  function SetToggle(storage: map<string, string>, section: string, enabled: bool): map<string, string> {
    storage[ToggleKey(section) := if enabled then "true" else "false"]
  }

  lemma ToggleKeyInjective(a: string, b: string)
    requires ToggleKey(a) == ToggleKey(b)
    ensures a == b
  {
    var n := |"toggle_"|;
    assert ToggleKey(a)[n..] == a;
    assert ToggleKey(b)[n..] == b;
  }

  /** Reading a toggle back gives what was last stored for that section and
      leaves every other section's reading alone; nothing stored reads as off. */
  lemma ToggleReadBack(storage: map<string, string>, section: string, enabled: bool, other: string)
    ensures ToggleState(SetToggle(storage, section, enabled), section) == enabled
    ensures other != section ==>
              ToggleState(SetToggle(storage, section, enabled), other) == ToggleState(storage, other)
    ensures !ToggleState(map[], section)
  {
    if other != section && ToggleKey(other) == ToggleKey(section) {
      ToggleKeyInjective(other, section);
    }
  }

  // ---------------------------------------------------------------------
  // The overall figure
  // ---------------------------------------------------------------------

  /** The categorised lists the page reads from the attendance reply; any
      of them may be missing. */
  datatype Categorized = Categorized(
    theory: Option<seq<SubjectStat>>, labs: Option<seq<SubjectStat>>,
    projectElectives: Option<seq<SubjectStat>>,
    libraryPE: Option<seq<SubjectStat>>, remedial: Option<seq<SubjectStat>>)

  /** `list || []` */
  function Listed(l: Option<seq<SubjectStat>>): seq<SubjectStat> {
    l.GetOr([])
  }

  /** Theory, labs and project/electives always count. */
  function AlwaysIncluded(cat: Categorized): seq<SubjectStat> {
    Listed(cat.theory) + Listed(cat.labs) + Listed(cat.projectElectives)
  }

  /** The subjects the overall figure is taken over for two toggle readings. */
  function Included(cat: Categorized, libraryOn: bool, remedialOn: bool): seq<SubjectStat> {
    AlwaysIncluded(cat)
    + (if libraryOn then Listed(cat.libraryPE) else [])
    + (if remedialOn then Listed(cat.remedial) else [])
  }

  /** The figure the page shows: present over classes across the included
      subjects, as a percentage to two decimals, or 0 without classes. */
  function Overall(cat: Categorized, storage: map<string, string>): real {
    var rows := Included(cat, ToggleState(storage, "libraryPE"), ToggleState(storage, "remedial"));
    Attendance.Percentage(Attendance.SumPresent(rows), Attendance.SumTotal(rows))
  }

  lemma {:induction false} SumsAppend(a: seq<SubjectStat>, b: seq<SubjectStat>)
    ensures Attendance.SumPresent(a + b) == Attendance.SumPresent(a) + Attendance.SumPresent(b)
    ensures Attendance.SumTotal(a + b) == Attendance.SumTotal(a) + Attendance.SumTotal(b)
    decreases |b|
  {
    if |b| == 0 {
      assert a + b == a;
    } else {
      var b' := b[..|b| - 1];
      assert (a + b)[..|a + b| - 1] == a + b';
      assert (a + b)[|a + b| - 1] == b[|b| - 1];
      SumsAppend(a, b');
    }
  }

  /** Sums over a list are sums over the list with one element taken out
      plus that element. */
  lemma SumsRemove(s: seq<SubjectStat>, j: nat)
    requires j < |s|
    ensures Attendance.SumPresent(s) == Attendance.SumPresent(s[..j] + s[j + 1..]) + s[j].present
    ensures Attendance.SumTotal(s) == Attendance.SumTotal(s[..j] + s[j + 1..]) + s[j].total
  {
    SplitAt(s, j);
    SumsSplice(s[..j], s[j], s[j + 1..]);
  }

  lemma SumsSplice(a: seq<SubjectStat>, x: SubjectStat, c: seq<SubjectStat>)
    ensures Attendance.SumPresent(a + [x] + c) == Attendance.SumPresent(a + c) + x.present
    ensures Attendance.SumTotal(a + [x] + c) == Attendance.SumTotal(a + c) + x.total
  {
    SumsAppend(a + [x], c);
    SumsAppend(a, [x]);
    SumsAppend(a, c);
    SumsSingle(x);
  }

  lemma SplitAt<T>(s: seq<T>, j: nat)
    requires j < |s|
    ensures s == s[..j] + [s[j]] + s[j + 1..]
  {
  }

  lemma SumsSingle(x: SubjectStat)
    ensures Attendance.SumPresent([x]) == x.present && Attendance.SumTotal([x]) == x.total
  {
    assert [x][..0] == [];
  }

  /** Taking out the element at j takes one occurrence of it out of the multiset. */
  lemma MultisetRemove<T>(b: seq<T>, j: nat)
    requires j < |b|
    ensures multiset(b[..j] + b[j + 1..]) == multiset(b) - multiset{b[j]}
  {
    SplitAt(b, j);
  }

  /** The sums do not depend on the order of the subjects. */
  lemma {:induction false} SumsPermutation(a: seq<SubjectStat>, b: seq<SubjectStat>)
    requires multiset(a) == multiset(b)
    ensures Attendance.SumPresent(a) == Attendance.SumPresent(b)
    ensures Attendance.SumTotal(a) == Attendance.SumTotal(b)
    decreases |a|
  {
    if |a| > 0 {
      var x := a[|a| - 1];
      var a' := a[..|a| - 1];
      assert x in multiset(b);
      var j :| 0 <= j < |b| && b[j] == x;
      MultisetRemove(a, |a| - 1);
      assert a[..|a| - 1] + a[|a|..] == a';
      MultisetRemove(b, j);
      SumsPermutation(a', b[..j] + b[j + 1..]);
      SumsRemove(b, j);
    } else {
      assert |b| == |multiset(b)| == 0;
    }
  }

  /** A section whose toggle is off, or that is missing, adds nothing: the
      figure is the same whatever that list holds. */
  lemma SwitchedOffSectionIgnored(cat: Categorized, storage: map<string, string>,
                                  library: Option<seq<SubjectStat>>, remedial: Option<seq<SubjectStat>>)
    ensures !ToggleState(storage, "libraryPE") ==> Overall(cat.(libraryPE := library), storage) == Overall(cat, storage)
    ensures !ToggleState(storage, "remedial") ==> Overall(cat.(remedial := remedial), storage) == Overall(cat, storage)
    ensures ToggleState(storage, "libraryPE") && ToggleState(storage, "remedial") ==>
              Overall(cat.(libraryPE := None, remedial := None), storage)
              == Overall(cat, map[])
  {
  }

  /** Switching a section off and on again gives back the figure it had:
      the figure depends only on the cached lists and the two readings. */
  lemma ToggleOffOnRestores(cat: Categorized, storage: map<string, string>, section: string)
    requires ToggleState(storage, section)
    ensures Overall(cat, SetToggle(SetToggle(storage, section, false), section, true)) == Overall(cat, storage)
  {
    var after := SetToggle(SetToggle(storage, section, false), section, true);
    ToggleReadBack(SetToggle(storage, section, false), section, true, "libraryPE");
    ToggleReadBack(SetToggle(storage, section, false), section, true, "remedial");
    ToggleReadBack(storage, section, false, "libraryPE");
    ToggleReadBack(storage, section, false, "remedial");
    assert ToggleState(after, "libraryPE") == ToggleState(storage, "libraryPE");
    assert ToggleState(after, "remedial") == ToggleState(storage, "remedial");
  }

  /** With counts where no subject has more present than classes, the
      figure is a percentage. */
  lemma OverallBounded(cat: Categorized, storage: map<string, string>)
    requires forall s :: s in Included(cat, true, true) ==> s.present <= s.total
    ensures 0.0 <= Overall(cat, storage) <= 100.0
  {
    var rows := Included(cat, ToggleState(storage, "libraryPE"), ToggleState(storage, "remedial"));
    forall i | 0 <= i < |rows|
      ensures rows[i].present <= rows[i].total
    {
      assert rows[i] in Included(cat, true, true);
    }
    Attendance.SumPresentAtMostTotal(rows);
    Attendance.PercentageBounded(Attendance.SumPresent(rows), Attendance.SumTotal(rows));
  }

  /** When the five lists hold exactly the subjects of get_attendance.php's
      reply and both toggles are on, the page shows the server's overall
      figure. */
  lemma AllSectionsMatchServer(cat: Categorized, storage: map<string, string>,
                               summary: Attendance.AttendanceSummary)
    requires ToggleState(storage, "libraryPE") && ToggleState(storage, "remedial")
    requires multiset(Included(cat, true, true)) == multiset(summary.subjects)
    requires summary.overall == Attendance.Percentage(Attendance.SumPresent(summary.subjects),
                                                      Attendance.SumTotal(summary.subjects))
    ensures Overall(cat, storage) == summary.overall
  {
    SumsPermutation(Included(cat, true, true), summary.subjects);
  }

  /** The included subjects are the always-included ones followed by each
      switched-on list that is present, so their sums add up that way. */
  lemma IncludedSums(cat: Categorized, libraryOn: bool, remedialOn: bool,
                     library: seq<SubjectStat>, remedial: seq<SubjectStat>)
    requires library == (if libraryOn && cat.libraryPE.Some? then cat.libraryPE.value else [])
    requires remedial == (if remedialOn && cat.remedial.Some? then cat.remedial.value else [])
    ensures var rows := Included(cat, libraryOn, remedialOn);
            Attendance.SumPresent(rows)
              == Attendance.SumPresent(AlwaysIncluded(cat)) + Attendance.SumPresent(library) + Attendance.SumPresent(remedial)
            && Attendance.SumTotal(rows)
              == Attendance.SumTotal(AlwaysIncluded(cat)) + Attendance.SumTotal(library) + Attendance.SumTotal(remedial)
  {
    assert Included(cat, libraryOn, remedialOn) == AlwaysIncluded(cat) + library + remedial;
    SumsAppend(AlwaysIncluded(cat), library);
    SumsAppend(AlwaysIncluded(cat) + library, remedial);
  }

  lemma OverallFromSums(cat: Categorized, storage: map<string, string>,
                        library: seq<SubjectStat>, remedial: seq<SubjectStat>, present: nat, classes: nat)
    requires library == (if ToggleState(storage, "libraryPE") && cat.libraryPE.Some? then cat.libraryPE.value else [])
    requires remedial == (if ToggleState(storage, "remedial") && cat.remedial.Some? then cat.remedial.value else [])
    requires present == Attendance.SumPresent(AlwaysIncluded(cat)) + Attendance.SumPresent(library) + Attendance.SumPresent(remedial)
    requires classes == Attendance.SumTotal(AlwaysIncluded(cat)) + Attendance.SumTotal(library) + Attendance.SumTotal(remedial)
    ensures Overall(cat, storage)
            == if classes > 0 then Round2(present as real / classes as real * 100.0) else 0.0
  {
    IncludedSums(cat, ToggleState(storage, "libraryPE"), ToggleState(storage, "remedial"), library, remedial);
  }

  /** The cached reply, the toggles and the figure on the page. */
  class Overview {
    var storage: map<string, string>
    var data: Option<Categorized>
    var shown: Option<real>
    var band: Option<Band>

    constructor (storage: map<string, string>)
      ensures this.storage == storage && data.None? && shown.None? && band.None?
    {
      this.storage := storage;
      data := None;
      shown := None;
      band := None;
    }

    /** One forEach of updateOverallAttendance: adds the subjects' counts. */
    static method AddUp(subjects: seq<SubjectStat>, present: nat, classes: nat)
      returns (present': nat, classes': nat)
      ensures present' == present + Attendance.SumPresent(subjects)
      ensures classes' == classes + Attendance.SumTotal(subjects)
    {
      present', classes' := present, classes;
      for i := 0 to |subjects|
        invariant present' == present + Attendance.SumPresent(subjects[..i])
        invariant classes' == classes + Attendance.SumTotal(subjects[..i])
      {
        assert subjects[..i + 1][..i] == subjects[..i];
        present' := present' + subjects[i].present;
        classes' := classes' + subjects[i].total;
      }
      assert subjects[..|subjects|] == subjects;
    }

    /** updateOverallAttendance: nothing before a reply is cached; otherwise
        the figure and its band are recomputed from the cache and toggles. */
    method UpdateOverallAttendance()
      modifies this
      ensures storage == old(storage) && data == old(data)
      ensures data.None? ==> shown == old(shown) && band == old(band)
      ensures data.Some? ==> shown == Some(Overall(data.value, storage))
                             && band == Some(PercentageClass(Overall(data.value, storage)))
    {
      if data.None? {
        return;
      }
      var cat := data.value;
      var always := AlwaysIncluded(cat);
      var totalPresent, totalClasses := AddUp(always, 0, 0);
      var library: seq<SubjectStat> := [];
      if ToggleState(storage, "libraryPE") && cat.libraryPE.Some? {
        library := cat.libraryPE.value;
        totalPresent, totalClasses := AddUp(library, totalPresent, totalClasses);
      }
      var remedial: seq<SubjectStat> := [];
      if ToggleState(storage, "remedial") && cat.remedial.Some? {
        remedial := cat.remedial.value;
        totalPresent, totalClasses := AddUp(remedial, totalPresent, totalClasses);
      }
      var overall := if totalClasses > 0 then Round2(totalPresent as real / totalClasses as real * 100.0) else 0.0;
      OverallFromSums(cat, storage, library, remedial, totalPresent, totalClasses);
      shown := Some(overall);
      band := Some(PercentageClass(overall));
    }

    /** loadAttendance's success branch: cache the reply, then recompute. */
    method AttendanceLoaded(cat: Categorized)
      modifies this
      ensures storage == old(storage) && data == Some(cat)
      ensures shown == Some(Overall(cat, storage)) && band == Some(PercentageClass(Overall(cat, storage)))
    {
      data := Some(cat);
      UpdateOverallAttendance();
    }

    /** A toggle's change handler: store the new state, then recompute. */
    method ToggleChanged(section: string, enabled: bool)
      modifies this
      ensures storage == SetToggle(old(storage), section, enabled) && data == old(data)
      ensures ToggleState(storage, section) == enabled
      ensures data.None? ==> shown == old(shown) && band == old(band)
      ensures data.Some? ==> shown == Some(Overall(data.value, storage))
    {
      storage := SetToggle(storage, section, enabled);
      ToggleReadBack(old(storage), section, enabled, section);
      UpdateOverallAttendance();
    }
  }

  // ---------------------------------------------------------------------
  // The calendar
  // ---------------------------------------------------------------------

  predicate IsLeapYear(y: int) {
    y % 4 == 0 && (y % 100 != 0 || y % 400 == 0)
  }

  /** Days in a month of the proleptic Gregorian calendar (month 1..12). */
  function DaysInMonth(year: int, month: int): (n: nat)
    requires 1 <= month <= 12
    ensures 28 <= n <= 31
    ensures n == 28 ==> month == 2
  {
    if month == 2 then (if IsLeapYear(year) then 29 else 28)
    else if month in {4, 6, 9, 11} then 30
    else 31
  }

  /** `new Date(year, month, 0).getDate()`: the last day of the month before
      the zero-based month. */
  function PrevMonthDays(year: int, month0: int): (n: nat)
    requires 0 <= month0 < 12
    ensures 28 <= n <= 31
  {
    if month0 == 0 then DaysInMonth(year - 1, 12) else DaysInMonth(year, month0)
  }

  /** `(7 - (n % 7)) % 7`: the cells that complete the last week. */
  function Trailing(n: nat): (k: nat)
    ensures k < 7 && (n + k) % 7 == 0
  {
    (7 - n % 7) % 7
  }

  /** One cell of the grid: the day number shown, whether it belongs to a
      neighbouring month, whether it is today, and for days of the shown
      month the date and its counts from the month map. */
  datatype Cell = Cell(day: nat, otherMonth: bool, isToday: bool, date: Option<Date>, counts: Option<DayCount>)

  function OtherMonthCell(day: nat): Cell {
    Cell(day, true, false, None, None)
  }

  function MonthCell(year: int, month0: int, day: nat, days: map<Date, DayCount>, today: Date): Cell {
    var d := Date(year, month0 + 1, day);
    Cell(day, false, d == today, Some(d), if d in days then Some(days[d]) else None)
  }

  /** generateCalendarDays' cells: the last firstDay days of the previous
      month, every day of this one, then the next month's first days up to
      a whole number of weeks. firstDay is the weekday of the 1st (getDay). */
  function CalendarGrid(year: int, month0: int, firstDay: nat, days: map<Date, DayCount>, today: Date): seq<Cell>
    requires 0 <= month0 < 12 && firstDay < 7
  {
    var prev := PrevMonthDays(year, month0);
    var dim := DaysInMonth(year, month0 + 1);
    seq(firstDay, i requires 0 <= i < firstDay => OtherMonthCell(prev - (firstDay - 1 - i)))
    + seq(dim, i requires 0 <= i < dim => MonthCell(year, month0, i + 1, days, today))
    + seq(Trailing(firstDay + dim), i requires 0 <= i => OtherMonthCell(i + 1))
  }

  /** The grid is four to six whole weeks; the cells of the shown month are
      exactly those after the leading ones, one per day in order; trailing
      cells never fill a whole week. */
  lemma GridLayout(year: int, month0: int, firstDay: nat, days: map<Date, DayCount>, today: Date)
    requires 0 <= month0 < 12 && firstDay < 7
    ensures var g := CalendarGrid(year, month0, firstDay, days, today);
            var dim := DaysInMonth(year, month0 + 1);
            |g| % 7 == 0 && 28 <= |g| <= 42
            && |g| - (firstDay + dim) < 7
            && (forall i :: 0 <= i < |g| ==> (g[i].otherMonth <==> !(firstDay <= i < firstDay + dim)))
            && (forall i :: firstDay <= i < firstDay + dim ==>
                  g[i].date == Some(Date(year, month0 + 1, i - firstDay + 1)))
            && (forall i :: 0 <= i < |g| ==> (g[i].date.Some? <==> !g[i].otherMonth))
  {
    var prev := PrevMonthDays(year, month0);
    var dim := DaysInMonth(year, month0 + 1);
    var n := firstDay + dim;
    var lead := seq(firstDay, i requires 0 <= i < firstDay => OtherMonthCell(prev - (firstDay - 1 - i)));
    var body := seq(dim, i requires 0 <= i < dim => MonthCell(year, month0, i + 1, days, today));
    var tail := seq(Trailing(n), i requires 0 <= i => OtherMonthCell(i + 1));
    var g := CalendarGrid(year, month0, firstDay, days, today);
    assert g == lead + body + tail;
    assert |g| == n + Trailing(n);
    var w := |g| / 7;
    assert |g| == 7 * w;
    assert 28 <= |g| <= 42;
    forall i | 0 <= i < |g|
      ensures g[i].otherMonth <==> !(firstDay <= i < n)
      ensures g[i].date.Some? <==> !g[i].otherMonth
      ensures firstDay <= i < n ==> g[i].date == Some(Date(year, month0 + 1, i - firstDay + 1))
    {
      if i < firstDay {
        assert g[i] == lead[i] == OtherMonthCell(prev - (firstDay - 1 - i));
      } else if i < n {
        assert g[i] == body[i - firstDay] == MonthCell(year, month0, i - firstDay + 1, days, today);
      } else {
        assert g[i] == tail[i - n];
      }
    }
  }

  /** generateCalendarDays: three loops appending the leading, month and
      trailing cells. */
  method GenerateCalendarDays(year: int, month0: int, firstDay: nat, days: map<Date, DayCount>, today: Date)
    returns (cells: seq<Cell>)
    requires 0 <= month0 < 12 && firstDay < 7
    ensures cells == CalendarGrid(year, month0, firstDay, days, today)
    ensures |cells| % 7 == 0
  {
    var prev := PrevMonthDays(year, month0);
    var dim := DaysInMonth(year, month0 + 1);
    ghost var lead := seq(firstDay, i requires 0 <= i < firstDay => OtherMonthCell(prev - (firstDay - 1 - i)));
    ghost var body := seq(dim, i requires 0 <= i < dim => MonthCell(year, month0, i + 1, days, today));
    cells := [];
    var i: int := firstDay - 1;
    while i >= 0
      invariant -1 <= i < firstDay
      invariant cells == lead[..firstDay - 1 - i]
    {
      cells := cells + [OtherMonthCell(prev - i)];
      i := i - 1;
    }
    assert cells == lead;
    for day := 1 to dim + 1
      invariant cells == lead + body[..day - 1]
    {
      cells := cells + [MonthCell(year, month0, day, days, today)];
    }
    assert body[..dim] == body;
    var remaining := Trailing(|cells|);
    ghost var tail := seq(remaining, i requires 0 <= i => OtherMonthCell(i + 1));
    for day := 1 to remaining + 1
      invariant cells == lead + body + tail[..day - 1]
    {
      cells := cells + [OtherMonthCell(day)];
    }
    assert tail[..remaining] == tail;
  }

  /** What createDayElement puts on a cell. */
  datatype DayView = DayView(
    otherMonth: bool, today: bool, future: bool, selected: bool,
    hasAttendance: bool, presentDot: bool, presentPlus: bool, absentDot: bool, absentPlus: bool,
    clickable: bool)

  /** createDayElement. `future` compares the cell's midnight with today's;
      a neighbouring month's cell has no date string. */
  function DayElement(c: Cell, selected: Date, today: Date): DayView {
    var future := c.date.Some? && !c.otherMonth && !DateLe(c.date.value, today);
    var shows := c.counts.Some? && !c.otherMonth;
    var present := if shows then c.counts.value.present else 0;
    var absent := if shows then c.counts.value.absent else 0;
    var has := present > 0 || absent > 0;
    DayView(c.otherMonth, c.isToday, future, c.date == Some(selected),
            has, has && present > 0, has && present > 0 && present > 1,
            has && absent > 0, has && absent > 0 && absent > 1,
            !c.otherMonth && c.date.Some? && !future)
  }

  /** Every cell of the grid as createDayElement draws it: a day of the
      shown month is marked with attendance iff its map entry has a present
      or an absent count, gets a '+' for a status iff that count exceeds
      one, and is clickable iff it is not after today; other months' cells
      show nothing and are never clickable. */
  lemma DayCells(year: int, month0: int, firstDay: nat, days: map<Date, DayCount>,
                 today: Date, selected: Date, i: nat)
    requires 0 <= month0 < 12 && firstDay < 7
    requires i < |CalendarGrid(year, month0, firstDay, days, today)|
    ensures var c := CalendarGrid(year, month0, firstDay, days, today)[i];
            var v := DayElement(c, selected, today);
            (c.otherMonth ==> !v.hasAttendance && !v.clickable && !v.selected && !v.future)
            && (!c.otherMonth ==>
                  c.date.Some? && var d := c.date.value;
                  d == Date(year, month0 + 1, c.day)
                  && (v.clickable <==> DateLe(d, today))
                  && (v.hasAttendance <==> d in days && (days[d].present > 0 || days[d].absent > 0))
                  && (v.presentPlus <==> d in days && days[d].present > 1)
                  && (v.absentPlus <==> d in days && days[d].absent > 1)
                  && (v.selected <==> d == selected)
                  && (v.today <==> d == today))
  {
    GridLayout(year, month0, firstDay, days, today);
  }

  /** The month map's reply to renderCalendar's fetch. */
  datatype CalendarReply = CalendarLoaded(days: map<Date, DayCount>) | CalendarRefused | CalendarThrown

  /** What a click on a day leads to. */
  datatype ClickAction = NoAction | ShowDetails(date: Date) | Rerender

  /** The calendar's globals: the shown month, the selected date and the
      month's attendance map. */
  class Calendar {
    var year: int
    var month0: int
    var selected: Date
    var days: map<Date, DayCount>

    predicate Valid()
      reads this
    {
      0 <= month0 < 12
    }

    /** Page load: the current month is shown and today is selected. */
    constructor (today: Date)
      requires 1 <= today.month <= 12
      ensures Valid() && year == today.year && month0 == today.month - 1
      ensures selected == today && days == map[]
    {
      year := today.year;
      month0 := today.month - 1;
      selected := today;
      days := map[];
    }

    /** handleDateClick: a future date changes nothing; the selected date
        opens its details only when the month map has an entry for it; any
        other date becomes the selection and the calendar is drawn again. */
    method HandleDateClick(d: Date, today: Date) returns (action: ClickAction)
      modifies this
      ensures year == old(year) && month0 == old(month0) && days == old(days)
      ensures !DateLe(d, today) ==> action == NoAction && selected == old(selected)
      ensures DateLe(d, today) && d == old(selected) ==>
                selected == old(selected) && action == (if d in days then ShowDetails(d) else NoAction)
      ensures DateLe(d, today) && d != old(selected) ==> selected == d && action == Rerender
    {
      if !DateLe(d, today) {
        return NoAction;
      }
      if d == selected {
        action := if d in days then ShowDetails(d) else NoAction;
      } else {
        selected := d;
        action := Rerender;
      }
    }

    /** renderCalendar after its fetch: a successful reply replaces the
        month map and the grid is drawn; a refusal draws nothing; a thrown
        error draws the grid from the map already held. */
    method Render(reply: CalendarReply, firstDay: nat, today: Date) returns (grid: Option<seq<Cell>>)
      requires Valid() && firstDay < 7
      modifies this
      ensures Valid() && year == old(year) && month0 == old(month0) && selected == old(selected)
      ensures days == (if reply.CalendarLoaded? then reply.days else old(days))
      ensures grid == (if reply.CalendarRefused? then None
                       else Some(CalendarGrid(year, month0, firstDay, days, today)))
    {
      match reply
      case CalendarRefused =>
        return None;
      case CalendarLoaded(m) =>
        days := m;
        var cells := GenerateCalendarDays(year, month0, firstDay, days, today);
        grid := Some(cells);
      case CalendarThrown =>
        var cells := GenerateCalendarDays(year, month0, firstDay, days, today);
        grid := Some(cells);
    }
  }

  // ---------------------------------------------------------------------
  // A subject's dates grouped by month
  // ---------------------------------------------------------------------

  datatype MonthKey = MonthKey(year: int, month: int)

  function MonthOf(d: Date): MonthKey {
    MonthKey(d.year, d.month)
  }

  /** Chronological order of months (the order of the "YYYY-MM" keys). */
  predicate MonthLe(a: MonthKey, b: MonthKey) {
    a.year < b.year || (a.year == b.year && a.month <= b.month)
  }

  lemma MonthLeTotalPreorder()
    ensures TotalPreorder(MonthLe)
  {
  }

  /** The entries of one month, in the order the reply lists them. */
  function InMonth(entries: seq<DateEntry>, k: MonthKey): seq<DateEntry> {
    Filter(entries, (e: DateEntry) => MonthOf(e.date) == k)
  }

  function Reverse<T>(s: seq<T>): (r: seq<T>)
    ensures |r| == |s| && multiset(r) == multiset(s)
    ensures forall i :: 0 <= i < |s| ==> r[i] == s[|s| - 1 - i]
    decreases |s|
  {
    if |s| == 0 then []
    else
      assert s == s[..|s| - 1] + [s[|s| - 1]];
      [s[|s| - 1]] + Reverse(s[..|s| - 1])
  }

  predicate Distinct<T(==)>(s: seq<T>) {
    forall i, j :: 0 <= i < j < |s| ==> s[i] != s[j]
  }

  /** A value occurs at two positions only if the multiset counts it twice. */
  lemma TwiceCounted<T>(s: seq<T>, i: nat, j: nat)
    requires i < j < |s| && s[i] == s[j]
    ensures multiset(s)[s[i]] >= 2
  {
    assert s == s[..i] + [s[i]] + s[i + 1..j] + [s[j]] + s[j + 1..];
  }

  lemma {:induction false} DistinctCountsOnce<T>(s: seq<T>, x: T)
    requires Distinct(s)
    ensures multiset(s)[x] <= 1
    decreases |s|
  {
    if |s| > 0 {
      var init := s[..|s| - 1];
      assert s == init + [s[|s| - 1]];
      DistinctCountsOnce(init, x);
    }
  }

  lemma DistinctPermutation<T>(a: seq<T>, b: seq<T>)
    requires Distinct(a) && multiset(a) == multiset(b)
    ensures Distinct(b)
  {
    forall i, j | 0 <= i < j < |b|
      ensures b[i] != b[j]
    {
      if b[i] == b[j] {
        TwiceCounted(b, i, j);
        DistinctCountsOnce(a, b[i]);
      }
    }
  }

  /** `Object.keys(monthGroups).sort().reverse()`: newest month first. */
  function NewestFirst(keys: seq<MonthKey>): seq<MonthKey> {
    Reverse(SortBy(keys, MonthLe))
  }

  /** The month headers are the group keys, each once, newest first. */
  lemma NewestFirstOrder(keys: seq<MonthKey>)
    requires Distinct(keys)
    ensures var r := NewestFirst(keys);
            multiset(r) == multiset(keys)
            && forall i, j :: 0 <= i < j < |r| ==> MonthLe(r[j], r[i]) && r[i] != r[j]
  {
    var sorted := SortBy(keys, MonthLe);
    MonthLeTotalPreorder();
    SortSorted(keys, MonthLe);
    DistinctPermutation(keys, NewestFirst(keys));
  }

  /** Appending an entry extends its own month's list and no other. */
  lemma InMonthSnoc(entries: seq<DateEntry>, n: nat, k: MonthKey)
    requires n < |entries|
    ensures InMonth(entries[..n + 1], k)
            == InMonth(entries[..n], k) + (if MonthOf(entries[n].date) == k then [entries[n]] else [])
  {
    assert entries[..n + 1][..n] == entries[..n];
  }

  lemma InMonthNone(entries: seq<DateEntry>, n: nat, k: MonthKey)
    requires n <= |entries|
    requires forall i :: 0 <= i < n ==> MonthOf(entries[i].date) != k
    ensures InMonth(entries[..n], k) == []
  {
    if InMonth(entries[..n], k) != [] {
      var x := InMonth(entries[..n], k)[0];
      FilterMembership(entries[..n], (e: DateEntry) => MonthOf(e.date) == k, x);
      assert false;
    }
  }

  /** The grouping loop of showSubjectAttendanceDates: each entry goes to
      the end of its month's list, the list being created, and its key
      recorded, the first time the month is met. */
  method CollectGroups(entries: seq<DateEntry>) returns (keys: seq<MonthKey>, groups: map<MonthKey, seq<DateEntry>>)
    ensures forall k :: k in groups <==> k in keys
    ensures Distinct(keys)
    ensures forall k :: k in keys <==> exists i :: 0 <= i < |entries| && MonthOf(entries[i].date) == k
    ensures forall k :: k in groups ==> groups[k] == InMonth(entries, k) && |groups[k]| > 0
  {
    keys := [];
    groups := map[];
    for n := 0 to |entries|
      invariant forall k :: k in groups <==> k in keys
      invariant Distinct(keys)
      invariant forall k :: k in keys <==> exists i :: 0 <= i < n && MonthOf(entries[i].date) == k
      invariant forall k :: k in groups ==> groups[k] == InMonth(entries[..n], k) && |groups[k]| > 0
    {
      var e := entries[n];
      var k := MonthOf(e.date);
      forall k' | k' in groups {
        InMonthSnoc(entries, n, k');
      }
      if k !in groups {
        InMonthNone(entries, n, k);
        InMonthSnoc(entries, n, k);
        groups := groups[k := [e]];
        keys := keys + [k];
      } else {
        groups := groups[k := groups[k] + [e]];
      }
    }
    assert entries[..|entries|] == entries;
  }

  /** showSubjectAttendanceDates' month groups: the headers are the months
      of the entries, each once and newest first, and each header lists
      exactly its month's entries in the reply's order. */
  method GroupByMonth(entries: seq<DateEntry>) returns (months: seq<MonthKey>, groups: map<MonthKey, seq<DateEntry>>)
    ensures forall k :: k in groups <==> k in months
    ensures forall k :: k in months <==> exists i :: 0 <= i < |entries| && MonthOf(entries[i].date) == k
    ensures forall k :: k in groups ==> groups[k] == InMonth(entries, k) && |groups[k]| > 0
    ensures forall i, j :: 0 <= i < j < |months| ==> MonthLe(months[j], months[i]) && months[i] != months[j]
  {
    var keys;
    keys, groups := CollectGroups(entries);
    months := NewestFirst(keys);
    NewestFirstOrder(keys);
    assert forall k :: k in months <==> k in multiset(keys);
  }

  /** An entry is listed under a month header iff it falls in that month. */
  lemma GroupMembership(entries: seq<DateEntry>, k: MonthKey, e: DateEntry)
    ensures e in InMonth(entries, k) <==> e in entries && MonthOf(e.date) == k
  {
    FilterMembership(entries, (x: DateEntry) => MonthOf(x.date) == k, e);
  }
}
