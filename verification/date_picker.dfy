/** The `DatePicker` component of js/base/date_picker.js as a state machine:
    opening, the actions its buttons, arrow keys and mouse wheel send, the
    per-year holiday cache and the month grid it draws. The clock ("today")
    is a parameter; the DOM is replaced by the `Grid` value `Render`
    returns; callbacks become the `Call`s an action emits. */
module DatePicker {
  import opened Wrappers
  import opened Text
  import opened Decimal
  import opened Calendar
  import opened Holidays

  /** `_selected`: no date, a date, or the `Invalid Date` that `new Date`
      yields for a string it cannot read. */
  datatype Selection = NoSelection | Picked(date: Date) | InvalidDate

  /** The component's fields. `month` is 0-based as in the source;
      `cachedYear` is `None` for the initial `NaN`. */
  datatype Picker = Picker(
    year: int,
    month: int,
    selected: Selection,
    holidays: set<MonthDay>,
    cachedYear: Option<int>,
    isOpen: bool,
    hasOnSelect: bool,
    hasOnClear: bool)

  const Initial: Picker := Picker(0, 0, NoSelection, {}, None, false, false, false)

  datatype Action =
    | PrevYear | NextYear | PrevMonth | NextMonth
    | PickDate(cell: string)
    | Today | Tomorrow | MonthEnd
    | Confirm | Clear | Cancel
    | Unknown(name: string)

  /** A callback the picker invokes. */
  datatype Call = SelectCalled(value: string) | ClearCalled

  datatype Outcome = Outcome(picker: Picker, calls: seq<Call>)

  /** The `data-dp-action` names; `data` is the button's `data-date`. */
  function ActionOf(name: string, data: string): (a: Action)
    ensures a.Unknown? <==> name !in {"prev-year", "next-year", "prev-month", "next-month",
      "pick-date", "today", "tomorrow", "month-end", "confirm", "clear", "cancel"}
    ensures a.PickDate? ==> a.cell == data
  {
    if name == "prev-year" then PrevYear
    else if name == "next-year" then NextYear
    else if name == "prev-month" then PrevMonth
    else if name == "next-month" then NextMonth
    else if name == "pick-date" then PickDate(data)
    else if name == "today" then Today
    else if name == "tomorrow" then Tomorrow
    else if name == "month-end" then MonthEnd
    else if name == "confirm" then Confirm
    else if name == "clear" then Clear
    else if name == "cancel" then Cancel
    else Unknown(name)
  }

  /** The arrow keys while the picker is open. */
  function KeyAction(key: string): Option<Action> {
    if key == "ArrowLeft" then Some(PrevMonth)
    else if key == "ArrowRight" then Some(NextMonth)
    else if key == "ArrowUp" then Some(PrevYear)
    else if key == "ArrowDown" then Some(NextYear)
    else None
  }

  /** The mouse wheel: up shows the previous month, anything else the next. */
  function WheelAction(deltaY: real): Action {
    if deltaY < 0.0 then PrevMonth else NextMonth
  }

  /** Only the four arrow keys act, and each moves by a month or a year. */
  lemma KeyActionCases(key: string)
    ensures KeyAction(key).Some? <==> key in {"ArrowLeft", "ArrowRight", "ArrowUp", "ArrowDown"}
    ensures KeyAction(key).Some? ==> KeyAction(key).value in {PrevMonth, NextMonth, PrevYear, NextYear}
  {
  }

  // ------------------------------------------------------------------
  // Dates as text
  // ------------------------------------------------------------------

  /** `${y}-${MM}-${DD}`, the text `confirm` hands over and every grid
      cell carries. */
  function FormatDate(d: Date): string
    requires d.month >= 0 && d.day >= 0
  {
    IntToString(d.year) + "-" + Pad2(d.month) + "-" + Pad2(d.day)
  }

  /** `new Date(s + 'T00:00:00')` for the `YYYY-MM-DD` form: a real date, or
      `None` for the `Invalid Date`. */
  function ParseIsoDate(s: string): (r: Option<Date>)
    ensures r.Some? ==> Valid(r.value) && 0 <= r.value.year <= 9999
  {
    if |s| == 10 && s[4] == '-' && s[7] == '-'
       && AllDigits(s[..4]) && AllDigits(s[5..7]) && AllDigits(s[8..])
    then
      var d := Date(DigitsValue(s[..4]), DigitsValue(s[5..7]), DigitsValue(s[8..]));
      assert DigitsValue(s[..4]) <= 9999 by { DigitsBound(s[..4]); }
      if Valid(d) then Some(d) else None
    else None
  }

  lemma {:induction false} DigitsBound(s: string)
    requires AllDigits(s) && |s| <= 4
    ensures DigitsValue(s) < Power10(|s|)
    decreases |s|
  {
    if |s| > 0 {
      DigitsBound(s[..|s| - 1]);
    }
  }

  function Power10(n: nat): nat {
    if n == 0 then 1 else 10 * Power10(n - 1)
  }

  /** Reading back a formatted four-digit-year date gives the date. */
  lemma FormatParse(d: Date)
    requires Valid(d) && 1000 <= d.year <= 9999
    ensures ParseIsoDate(FormatDate(d)) == Some(d)
  {
    var y := NatToString(d.year);
    NatToStringLength(d.year);
    NatToStringValue(d.year);
    var m := Pad2(d.month);
    var dd := Pad2(d.day);
    var s := FormatDate(d);
    assert s == y + "-" + m + "-" + dd;
    assert s[..4] == y && s[5..7] == m && s[8..] == dd;
  }

  /** A string the parser accepts with a year not starting with `0` is
      exactly the formatted form of the date it denotes. */
  lemma ParseFormat(s: string)
    requires ParseIsoDate(s).Some? && s[0] != '0'
    ensures FormatDate(ParseIsoDate(s).value) == s
  {
    var d := ParseIsoDate(s).value;
    assert s[..4][0] == s[0];
    DigitsValueString(s[..4]);
    Pad2DigitsValue(s[5..7]);
    Pad2DigitsValue(s[8..]);
    assert s == s[..4] + "-" + s[5..7] + "-" + s[8..];
  }

  // ------------------------------------------------------------------
  // Holiday cache
  // ------------------------------------------------------------------

  /** `_computeHolidays(year)` for the years whose approximated equinox days
      fall inside March and September; see README for the others. */
  function YearHolidays(year: int): set<MonthDay> {
    if ValidEquinox(EquinoxOf(year)) then ComputeHolidays(year) else {}
  }

  /** `_refreshHolidays`: recompute only when the shown year is not the
      cached one. */
  function RefreshHolidays(p: Picker): Picker {
    if p.cachedYear != Some(p.year)
    then p.(holidays := YearHolidays(p.year), cachedYear := Some(p.year))
    else p
  }

  /** The cache holds the holidays of the year on screen. */
  predicate Fresh(p: Picker) {
    p.cachedYear == Some(p.year) && p.holidays == YearHolidays(p.year)
  }

  /** A refresh leaves a picker whose cache is the shown year's; when the
      year was already cached nothing is recomputed, and only the two cache
      fields may change. */
  lemma RefreshMakesFresh(p: Picker)
    requires p.cachedYear == Some(p.year) ==> p.holidays == YearHolidays(p.year)
    ensures Fresh(RefreshHolidays(p))
    ensures p.cachedYear == Some(p.year) ==> RefreshHolidays(p) == p
    ensures RefreshHolidays(p).(holidays := p.holidays, cachedYear := p.cachedYear) == p
  {
  }

  /** A refresh touches the two cache fields only. */
  lemma RefreshTouchesCacheOnly(p: Picker)
    ensures RefreshHolidays(p).(holidays := p.holidays, cachedYear := p.cachedYear) == p
    ensures RefreshHolidays(p).year == p.year && RefreshHolidays(p).month == p.month
    ensures RefreshHolidays(p).selected == p.selected
  {
  }

  /** A picker whose cache names a year holds that year's holidays. */
  predicate CacheConsistent(p: Picker) {
    p.cachedYear.Some? ==> p.holidays == YearHolidays(p.cachedYear.value)
  }

  // ------------------------------------------------------------------
  // Opening and actions
  // ------------------------------------------------------------------

  /** `open(dateStr, onSelect, onClear)`; `None` stands for the state a
      non-empty string that is not a date leaves (year and month `NaN`). */
  function Open(p: Picker, dateStr: string, today: Date, hasOnSelect: bool, hasOnClear: bool)
    : (r: Option<Picker>)
    requires Valid(today)
  {
    if dateStr == "" then
      Some(RefreshHolidays(p.(year := today.year, month := today.month - 1, selected := NoSelection,
        isOpen := true, hasOnSelect := hasOnSelect, hasOnClear := hasOnClear)))
    else
      match ParseIsoDate(dateStr)
      case None => None
      case Some(d) =>
        Some(RefreshHolidays(p.(year := d.year, month := d.month - 1, selected := Picked(d),
          isOpen := true, hasOnSelect := hasOnSelect, hasOnClear := hasOnClear)))
  }

  /** Opening shows the month of the given date (or of today), selects that
      date, and leaves the holiday cache fresh. */
  lemma OpenShows(p: Picker, dateStr: string, today: Date, hasOnSelect: bool, hasOnClear: bool)
    requires Valid(today) && CacheConsistent(p)
    ensures var r := Open(p, dateStr, today, hasOnSelect, hasOnClear);
      && (dateStr == "" ==> (r.Some? && r.value.year == today.year && r.value.month == today.month - 1
            && r.value.selected == NoSelection))
      && (ParseIsoDate(dateStr).Some? ==> var d := ParseIsoDate(dateStr).value;
            r.Some? && r.value.year == d.year && r.value.month == d.month - 1
            && r.value.selected == Picked(d))
      && (r.Some? ==> (Fresh(r.value) && r.value.isOpen && 0 <= r.value.month < 12
            && r.value.hasOnSelect == hasOnSelect && r.value.hasOnClear == hasOnClear))
      && (r.None? <==> dateStr != "" && ParseIsoDate(dateStr).None?)
  {
  }

  function Close(p: Picker): Picker {
    p.(isOpen := false)
  }

  /** Show and select one date, as `today`, `tomorrow` and `month-end` do. */
  function Jump(p: Picker, d: Date): Picker
    requires Valid(d)
  {
    RefreshHolidays(p.(selected := Picked(d), year := d.year, month := d.month - 1))
  }

  /** The last day of the month `d` is in. */
  function MonthEndOf(d: Date): (r: Date)
    requires Valid(d)
    ensures Valid(r)
  {
    Date(d.year, d.month, DaysInMonth(d.year, d.month))
  }

  /** The text `confirm` passes on: `NaN-NaN-NaN` for an invalid date. */
  function ConfirmText(s: Selection): string
    requires s != NoSelection
    requires s.Picked? ==> s.date.month >= 0 && s.date.day >= 0
  {
    match s
    case Picked(d) => FormatDate(d)
    case InvalidDate => "NaN-NaN-NaN"
  }

  /** A selection of a real date or an invalid one. */
  predicate SelectionOk(s: Selection) {
    s.Picked? ==> Valid(s.date)
  }

  /** `handleAction(action, btn)`. */
  function HandleAction(p: Picker, a: Action, today: Date): Outcome
    requires Valid(today) && SelectionOk(p.selected)
  {
    match a
    case PrevYear => Outcome(RefreshHolidays(p.(year := p.year - 1)), [])
    case NextYear => Outcome(RefreshHolidays(p.(year := p.year + 1)), [])
    case PrevMonth =>
      if p.month - 1 < 0 then Outcome(RefreshHolidays(p.(month := 11, year := p.year - 1)), [])
      else Outcome(p.(month := p.month - 1), [])
    case NextMonth =>
      if p.month + 1 > 11 then Outcome(RefreshHolidays(p.(month := 0, year := p.year + 1)), [])
      else Outcome(p.(month := p.month + 1), [])
    case PickDate(cell) =>
      var sel := match ParseIsoDate(cell) case Some(d) => Picked(d) case None => InvalidDate;
      Outcome(p.(selected := sel), [])
    case Today => Outcome(Jump(p, today), [])
    case Tomorrow => Outcome(Jump(p, NextDay(today)), [])
    case MonthEnd => Outcome(Jump(p, MonthEndOf(today)), [])
    case Confirm =>
      var calls := if p.selected != NoSelection && p.hasOnSelect then [SelectCalled(ConfirmText(p.selected))] else [];
      Outcome(Close(p), calls)
    case Clear => Outcome(Close(p), if p.hasOnClear then [ClearCalled] else [])
    case Cancel => Outcome(Close(p), [])
    case Unknown(_) => Outcome(p, [])
  }

  /** The month count since year 0, to state navigation arithmetically. */
  function AbsMonth(p: Picker): int {
    p.year * 12 + p.month
  }

  predicate WellFormed(p: Picker) {
    0 <= p.month < 12 && SelectionOk(p.selected)
  }

  /** The four navigation actions move the view by one month or one year and
      touch nothing but the view and the holiday cache. */
  lemma Navigation(p: Picker, today: Date)
    requires Valid(today) && WellFormed(p)
    ensures var q := HandleAction(p, PrevMonth, today);
      WellFormed(q.picker) && AbsMonth(q.picker) == AbsMonth(p) - 1 && q.calls == []
      && q.picker.(year := p.year, month := p.month, holidays := p.holidays, cachedYear := p.cachedYear) == p
    ensures var q := HandleAction(p, NextMonth, today);
      WellFormed(q.picker) && AbsMonth(q.picker) == AbsMonth(p) + 1 && q.calls == []
      && q.picker.(year := p.year, month := p.month, holidays := p.holidays, cachedYear := p.cachedYear) == p
    ensures var q := HandleAction(p, PrevYear, today);
      WellFormed(q.picker) && AbsMonth(q.picker) == AbsMonth(p) - 12 && q.picker.month == p.month
      && q.picker.(year := p.year, holidays := p.holidays, cachedYear := p.cachedYear) == p
    ensures var q := HandleAction(p, NextYear, today);
      WellFormed(q.picker) && AbsMonth(q.picker) == AbsMonth(p) + 12 && q.picker.month == p.month
      && q.picker.(year := p.year, holidays := p.holidays, cachedYear := p.cachedYear) == p
  {
    PrevMonthMoves(p, today);
    NextMonthMoves(p, today);
    YearMoves(p, today);
  }

  lemma PrevMonthMoves(p: Picker, today: Date)
    requires Valid(today) && WellFormed(p)
    ensures var q := HandleAction(p, PrevMonth, today);
      WellFormed(q.picker) && AbsMonth(q.picker) == AbsMonth(p) - 1 && q.calls == []
      && q.picker.(year := p.year, month := p.month, holidays := p.holidays, cachedYear := p.cachedYear) == p
  {
    PrevMonthStep(p, today);
    RefreshTouchesCacheOnly(p.(month := 11, year := p.year - 1));
  }

  lemma NextMonthMoves(p: Picker, today: Date)
    requires Valid(today) && WellFormed(p)
    ensures var q := HandleAction(p, NextMonth, today);
      WellFormed(q.picker) && AbsMonth(q.picker) == AbsMonth(p) + 1 && q.calls == []
      && q.picker.(year := p.year, month := p.month, holidays := p.holidays, cachedYear := p.cachedYear) == p
  {
    NextMonthStep(p, today);
    RefreshTouchesCacheOnly(p.(month := 0, year := p.year + 1));
  }

  lemma YearMoves(p: Picker, today: Date)
    requires Valid(today) && WellFormed(p)
    ensures var q := HandleAction(p, PrevYear, today);
      WellFormed(q.picker) && AbsMonth(q.picker) == AbsMonth(p) - 12 && q.picker.month == p.month
      && q.picker.(year := p.year, holidays := p.holidays, cachedYear := p.cachedYear) == p
    ensures var q := HandleAction(p, NextYear, today);
      WellFormed(q.picker) && AbsMonth(q.picker) == AbsMonth(p) + 12 && q.picker.month == p.month
      && q.picker.(year := p.year, holidays := p.holidays, cachedYear := p.cachedYear) == p
  {
    assert HandleAction(p, PrevYear, today).picker == RefreshHolidays(p.(year := p.year - 1));
    assert HandleAction(p, NextYear, today).picker == RefreshHolidays(p.(year := p.year + 1));
    RefreshTouchesCacheOnly(p.(year := p.year - 1));
    RefreshTouchesCacheOnly(p.(year := p.year + 1));
  }

  lemma PrevMonthStep(p: Picker, today: Date)
    requires Valid(today) && WellFormed(p)
    ensures HandleAction(p, PrevMonth, today) ==
      if p.month == 0 then Outcome(RefreshHolidays(p.(month := 11, year := p.year - 1)), [])
      else Outcome(p.(month := p.month - 1), [])
  {
  }

  lemma NextMonthStep(p: Picker, today: Date)
    requires Valid(today) && WellFormed(p)
    ensures HandleAction(p, NextMonth, today) ==
      if p.month == 11 then Outcome(RefreshHolidays(p.(month := 0, year := p.year + 1)), [])
      else Outcome(p.(month := p.month + 1), [])
  {
  }

  /** Going forward a month and back again returns to the same month. */
  lemma NextPrevMonthInverse(p: Picker, today: Date)
    requires Valid(today) && WellFormed(p)
    ensures var q := HandleAction(HandleAction(p, NextMonth, today).picker, PrevMonth, today).picker;
      q.year == p.year && q.month == p.month && q.selected == p.selected
  {
    Navigation(p, today);
    Navigation(HandleAction(p, NextMonth, today).picker, today);
  }

  /** Every action keeps the cache of the shown year fresh, and keeps the
      month in range and the selection meaningful. */
  lemma HandleActionKeepsFresh(p: Picker, a: Action, today: Date)
    requires Valid(today) && WellFormed(p) && Fresh(p)
    ensures Fresh(HandleAction(p, a, today).picker)
    ensures WellFormed(HandleAction(p, a, today).picker)
  {
    if a == PrevYear || a == NextYear {
      YearKeepsFresh(p, a, today);
    } else if a == PrevMonth || a == NextMonth {
      MonthKeepsFresh(p, a, today);
    } else if a == Today || a == Tomorrow || a == MonthEnd {
      JumpKeepsFresh(p, a, today);
    } else {
      ViewKeepsFresh(p, a, today);
    }
  }

  lemma YearKeepsFresh(p: Picker, a: Action, today: Date)
    requires Valid(today) && WellFormed(p) && Fresh(p)
    requires a == PrevYear || a == NextYear
    ensures Fresh(HandleAction(p, a, today).picker) && WellFormed(HandleAction(p, a, today).picker)
  {
    if a == PrevYear {
      PrevYearKeepsFresh(p, today);
    } else {
      NextYearKeepsFresh(p, today);
    }
  }

  lemma PrevYearKeepsFresh(p: Picker, today: Date)
    requires Valid(today) && WellFormed(p) && Fresh(p)
    ensures Fresh(HandleAction(p, PrevYear, today).picker) && WellFormed(HandleAction(p, PrevYear, today).picker)
  {
    var q := p.(year := p.year - 1);
    assert HandleAction(p, PrevYear, today) == Outcome(RefreshHolidays(q), []);
    RefreshKeeps(q);
  }

  lemma NextYearKeepsFresh(p: Picker, today: Date)
    requires Valid(today) && WellFormed(p) && Fresh(p)
    ensures Fresh(HandleAction(p, NextYear, today).picker) && WellFormed(HandleAction(p, NextYear, today).picker)
  {
    var q := p.(year := p.year + 1);
    assert HandleAction(p, NextYear, today) == Outcome(RefreshHolidays(q), []);
    RefreshKeeps(q);
  }

  /** A refresh of a well-formed picker leaves it well-formed and fresh. */
  lemma RefreshKeeps(q: Picker)
    requires WellFormed(q) && q.cachedYear != Some(q.year)
    ensures Fresh(RefreshHolidays(q)) && WellFormed(RefreshHolidays(q))
  {
    assert RefreshHolidays(q) == q.(holidays := YearHolidays(q.year), cachedYear := Some(q.year));
  }

  lemma MonthKeepsFresh(p: Picker, a: Action, today: Date)
    requires Valid(today) && WellFormed(p) && Fresh(p)
    requires a == PrevMonth || a == NextMonth
    ensures Fresh(HandleAction(p, a, today).picker) && WellFormed(HandleAction(p, a, today).picker)
  {
    if a == PrevMonth {
      PrevMonthKeepsFresh(p, today);
    } else {
      NextMonthKeepsFresh(p, today);
    }
  }

  lemma PrevMonthKeepsFresh(p: Picker, today: Date)
    requires Valid(today) && WellFormed(p) && Fresh(p)
    ensures Fresh(HandleAction(p, PrevMonth, today).picker) && WellFormed(HandleAction(p, PrevMonth, today).picker)
  {
    PrevMonthStep(p, today);
    if p.month == 0 {
      RefreshKeeps(p.(month := 11, year := p.year - 1));
    } else {
      MonthOnlyKeepsFresh(p, p.month - 1);
    }
  }

  lemma NextMonthKeepsFresh(p: Picker, today: Date)
    requires Valid(today) && WellFormed(p) && Fresh(p)
    ensures Fresh(HandleAction(p, NextMonth, today).picker) && WellFormed(HandleAction(p, NextMonth, today).picker)
  {
    NextMonthStep(p, today);
    if p.month == 11 {
      RefreshKeeps(p.(month := 0, year := p.year + 1));
    } else {
      MonthOnlyKeepsFresh(p, p.month + 1);
    }
  }

  /** Moving within the year keeps the cache and the selection. */
  lemma MonthOnlyKeepsFresh(p: Picker, m: int)
    requires WellFormed(p) && Fresh(p) && 0 <= m < 12
    ensures Fresh(p.(month := m)) && WellFormed(p.(month := m))
  {
    var q := p.(month := m);
    assert q.year == p.year && q.holidays == p.holidays && q.cachedYear == p.cachedYear;
  }

  lemma JumpKeepsFresh(p: Picker, a: Action, today: Date)
    requires Valid(today) && WellFormed(p) && Fresh(p)
    requires a == Today || a == Tomorrow || a == MonthEnd
    ensures Fresh(HandleAction(p, a, today).picker) && WellFormed(HandleAction(p, a, today).picker)
  {
    if a == Today {
      JumpFresh(p, today);
    } else if a == Tomorrow {
      JumpFresh(p, NextDay(today));
    } else {
      JumpFresh(p, MonthEndOf(today));
    }
  }

  /** The other actions leave the year, the month and the cache alone. */
  lemma ViewKeepsFresh(p: Picker, a: Action, today: Date)
    requires Valid(today) && WellFormed(p) && Fresh(p)
    requires !(a == PrevYear || a == NextYear || a == PrevMonth || a == NextMonth)
    requires !(a == Today || a == Tomorrow || a == MonthEnd)
    ensures var q := HandleAction(p, a, today).picker;
      q.year == p.year && q.month == p.month && q.holidays == p.holidays
      && q.cachedYear == p.cachedYear && SelectionOk(q.selected)
    ensures Fresh(HandleAction(p, a, today).picker) && WellFormed(HandleAction(p, a, today).picker)
  {
  }

  lemma JumpFresh(p: Picker, d: Date)
    requires Valid(d) && Fresh(p)
    ensures Fresh(Jump(p, d)) && Jump(p, d).selected == Picked(d)
    ensures 0 <= Jump(p, d).month < 12
  {
    RefreshMakesFresh(p.(selected := Picked(d), year := d.year, month := d.month - 1));
  }

  /** `today`, `tomorrow` and `month-end` select that day and show its
      month. */
  lemma QuickButtons(p: Picker, today: Date)
    requires Valid(today) && SelectionOk(p.selected)
    ensures var q := HandleAction(p, Today, today).picker;
      q.selected == Picked(today) && q.year == today.year && q.month == today.month - 1
    ensures var q := HandleAction(p, Tomorrow, today).picker;
      q.selected.Picked? && DayNumber(q.selected.date) == DayNumber(today) + 1
      && q.year == q.selected.date.year && q.month == q.selected.date.month - 1
    ensures var q := HandleAction(p, MonthEnd, today).picker;
      q.selected.Picked? && q.selected.date.year == today.year && q.selected.date.month == today.month
      && q.selected.date.day >= today.day && NextDay(q.selected.date).day == 1
  {
    TodayButton(p, today);
    TomorrowButton(p, today);
    MonthEndButton(p, today);
  }

  lemma TodayButton(p: Picker, today: Date)
    requires Valid(today) && SelectionOk(p.selected)
    ensures var q := HandleAction(p, Today, today).picker;
      q.selected == Picked(today) && q.year == today.year && q.month == today.month - 1
  {
    assert HandleAction(p, Today, today).picker == Jump(p, today);
  }

  lemma TomorrowButton(p: Picker, today: Date)
    requires Valid(today) && SelectionOk(p.selected)
    ensures var q := HandleAction(p, Tomorrow, today).picker;
      q.selected.Picked? && DayNumber(q.selected.date) == DayNumber(today) + 1
      && q.year == q.selected.date.year && q.month == q.selected.date.month - 1
  {
    NextDayFollows(today);
    assert HandleAction(p, Tomorrow, today).picker == Jump(p, NextDay(today));
  }

  lemma MonthEndButton(p: Picker, today: Date)
    requires Valid(today) && SelectionOk(p.selected)
    ensures var q := HandleAction(p, MonthEnd, today).picker;
      q.selected.Picked? && q.selected.date.year == today.year && q.selected.date.month == today.month
      && q.selected.date.day >= today.day && NextDay(q.selected.date).day == 1
  {
    assert HandleAction(p, MonthEnd, today).picker == Jump(p, MonthEndOf(today));
  }

  /** `confirm` reports the selected date as text when a date is selected
      and a callback was given, and closes the picker; `clear` reports the
      clearing and closes; `cancel` only closes. */
  lemma Closing(p: Picker, today: Date)
    requires Valid(today) && SelectionOk(p.selected)
    ensures var q := HandleAction(p, Confirm, today);
      && q.picker == p.(isOpen := false)
      && (p.selected.Picked? && p.hasOnSelect ==> q.calls == [SelectCalled(FormatDate(p.selected.date))])
      && (p.selected == InvalidDate && p.hasOnSelect ==> q.calls == [SelectCalled("NaN-NaN-NaN")])
      && (p.selected == NoSelection || !p.hasOnSelect ==> q.calls == [])
    ensures var q := HandleAction(p, Clear, today);
      q.picker == p.(isOpen := false) && q.calls == (if p.hasOnClear then [ClearCalled] else [])
    ensures HandleAction(p, Cancel, today) == Outcome(p.(isOpen := false), [])
  {
  }

  // ------------------------------------------------------------------
  // The month grid
  // ------------------------------------------------------------------

  /** One day button: its number, `data-date`, and CSS classes. */
  datatype Cell = Cell(day: int, date: string, sunday: bool, saturday: bool, selected: bool, today: bool)

  /** The dialog's contents: the month label, the blank cells before the 1st
      and the day buttons. */
  datatype Grid = Grid(caption: string, blanks: nat, cells: seq<Cell>)

  const WeekdayNames: seq<string> := ["日", "月", "火", "水", "木", "金", "土"]

  function CellOf(p: Picker, today: Date, day: int): Cell
    requires 0 <= p.month < 12 && 1 <= day
  {
    var date := Date(p.year, p.month + 1, day);
    var dow := Weekday(date);
    var holiday := MD(p.month + 1, day) in p.holidays;
    Cell(day, FormatDate(date),
      dow == 0 || holiday,
      !(dow == 0 || holiday) && dow == 6,
      p.selected == Picked(date),
      date == today)
  }

  /** `_render()`. */
  function Render(p: Picker, today: Date): Grid
    requires 0 <= p.month < 12
  {
    Grid(IntToString(p.year) + "年 " + IntToString(p.month + 1) + "月",
      Weekday(Date(p.year, p.month + 1, 1)),
      DayCells(p, today))
  }

  /** The buttons for days 1 to the month's length. */
  function DayCells(p: Picker, today: Date): (cs: seq<Cell>)
    requires 0 <= p.month < 12
    ensures |cs| == DaysInMonth(p.year, p.month + 1)
    ensures forall i :: 0 <= i < |cs| ==> cs[i] == CellOf(p, today, i + 1)
  {
    var n := DaysInMonth(p.year, p.month + 1);
    seq(n, i requires 0 <= i < n => CellOf(p, today, i + 1))
  }

  /** One day button: it sits in the column of its weekday; Sundays and
      holidays are marked red, other Saturdays blue; it is marked selected
      or today exactly when its date is that one. */
  lemma CellShape(p: Picker, today: Date, blanks: int, day: int)
    requires 0 <= p.month < 12 && 1 <= day <= DaysInMonth(p.year, p.month + 1)
    requires blanks == Weekday(Date(p.year, p.month + 1, 1))
    ensures var c := CellOf(p, today, day);
      var date := Date(p.year, p.month + 1, day);
      && Valid(date)
      && c.day == day
      && (blanks + day - 1) % 7 == Weekday(date)
      && (c.sunday <==> Weekday(date) == 0 || MD(p.month + 1, day) in p.holidays)
      && (c.saturday <==> Weekday(date) == 6 && MD(p.month + 1, day) !in p.holidays)
      && !(c.sunday && c.saturday)
      && (c.selected <==> p.selected == Picked(date))
      && (c.today <==> today == date)
  {
    WeekdayShift(p.year, p.month + 1, 1, day - 1);
  }

  /** The grid has one button per day of the month, in order, after as many
      blanks as the weekday of the 1st. */
  lemma RenderShape(p: Picker, today: Date)
    requires 0 <= p.month < 12
    ensures var g := Render(p, today);
      && g.blanks == Weekday(Date(p.year, p.month + 1, 1))
      && |g.cells| == DaysInMonth(p.year, p.month + 1)
      && forall i :: 0 <= i < |g.cells| ==> g.cells[i] == CellOf(p, today, i + 1)
  {
  }

  /** At most one button is marked selected. */
  lemma RenderSelectsAtMostOne(p: Picker, today: Date)
    requires 0 <= p.month < 12
    ensures var g := Render(p, today);
      forall i, j :: 0 <= i < j < |g.cells| ==> !(g.cells[i].selected && g.cells[j].selected)
  {
    var g := Render(p, today);
    forall i, j | 0 <= i < j < |g.cells|
      ensures !(g.cells[i].selected && g.cells[j].selected)
    {
      CellSelected(p, today, i);
      CellSelected(p, today, j);
    }
  }

  /** Clicking a button selects exactly the date it shows. */
  lemma PickRenderedDate(p: Picker, today: Date, i: int)
    requires Valid(today) && WellFormed(p) && 1000 <= p.year <= 9999
    requires 0 <= i < |Render(p, today).cells|
    ensures var q := HandleAction(p, PickDate(Render(p, today).cells[i].date), today).picker;
      && q.year == p.year && q.month == p.month
      && q.selected == Picked(Date(p.year, p.month + 1, i + 1))
      && Render(q, today).cells[i].selected
  {
    CellDate(p, today, i);
    PickFormatted(p, Date(p.year, p.month + 1, i + 1), today);
    SelectedAfterPick(p, today, i, Render(p, today).cells[i].date);
  }

  /** A click that selects the date of day i + 1 marks button i selected. */
  lemma SelectedAfterPick(p: Picker, today: Date, i: int, text: string)
    requires Valid(today) && WellFormed(p) && 0 <= i < DaysInMonth(p.year, p.month + 1)
    requires HandleAction(p, PickDate(text), today).picker == p.(selected := Picked(Date(p.year, p.month + 1, i + 1)))
    ensures var q := HandleAction(p, PickDate(text), today).picker;
      && q.year == p.year && q.month == p.month
      && q.selected == Picked(Date(p.year, p.month + 1, i + 1))
      && Render(q, today).cells[i].selected
  {
    CellSelected(p.(selected := Picked(Date(p.year, p.month + 1, i + 1))), today, i);
  }

  /** Picking a formatted date selects that date. */
  lemma PickFormatted(p: Picker, date: Date, today: Date)
    requires Valid(today) && SelectionOk(p.selected) && Valid(date) && 1000 <= date.year <= 9999
    ensures HandleAction(p, PickDate(FormatDate(date)), today) == Outcome(p.(selected := Picked(date)), [])
  {
    FormatParse(date);
    PickDateSets(p, FormatDate(date), today);
  }

  /** The i-th button carries the date of day i + 1. */
  lemma CellDate(p: Picker, today: Date, i: int)
    requires 0 <= p.month < 12 && 0 <= i < |Render(p, today).cells|
    ensures i < DaysInMonth(p.year, p.month + 1)
    ensures Valid(Date(p.year, p.month + 1, i + 1))
    ensures Render(p, today).cells[i].date == FormatDate(Date(p.year, p.month + 1, i + 1))
  {
    RenderShape(p, today);
    CellShape(p, today, Weekday(Date(p.year, p.month + 1, 1)), i + 1);
  }

  /** The i-th button is marked selected exactly when day i + 1 is picked. */
  lemma CellSelected(q: Picker, today: Date, i: int)
    requires 0 <= q.month < 12 && 0 <= i < DaysInMonth(q.year, q.month + 1)
    ensures i < |Render(q, today).cells|
    ensures Render(q, today).cells[i].selected <==> q.selected == Picked(Date(q.year, q.month + 1, i + 1))
  {
    RenderShape(q, today);
  }

  /** Clicking a day button selects the date it carries. */
  lemma PickDateSets(p: Picker, cell: string, today: Date)
    requires Valid(today) && SelectionOk(p.selected) && ParseIsoDate(cell).Some?
    ensures HandleAction(p, PickDate(cell), today) == Outcome(p.(selected := Picked(ParseIsoDate(cell).value)), [])
  {
  }
}
