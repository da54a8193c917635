/** `_computeHolidays` of js/base/date_picker.js: the national holidays of one
    year under Japan's Act on National Holidays (Act No. 178 of 1948) --
    Article 2's fixed days and "Happy Monday" days, the equinox days, the
    citizens' holiday of Article 3 paragraph 3 and the substitute holidays of
    Article 3 paragraph 2. A holiday is a month/day pair, the model of the
    source's 'MM-DD' set keys. */
module Holidays {
  import opened Calendar
  import opened Wrappers

  datatype MonthDay = MD(month: int, day: int)

  /** The vernal (March) and autumnal (September) equinox days of a year. */
  datatype Equinox = Equinox(vernal: int, autumnal: int)

  /** The approximation formula for 1980-2099, evaluated in exact rational
      arithmetic; `i / 4` is `Math.floor(i / 4)` because the divisor is
      positive. */
  function EquinoxOf(year: int): Equinox {
    var i := year - 1980;
    var leaps := (i / 4) as real;
    Equinox((20.8431 + 0.242194 * i as real - leaps).Floor,
            (23.2488 + 0.242194 * i as real - leaps).Floor)
  }

  /** Over the range the formula is meant for, the vernal equinox falls on
      March 19-21 and the autumnal one on September 22-23. */
  lemma EquinoxRange(year: int)
    requires 1980 <= year <= 2099
    ensures var e := EquinoxOf(year); 19 <= e.vernal <= 21 && 22 <= e.autumnal <= 23
  {
    var i := year - 1980;
    var q := i / 4;
    var r := i % 4;
    assert i == 4 * q + r && 0 <= q <= 29 && 0 <= r < 4;
    var x := 0.242194 * i as real - q as real;
    assert x == -0.031224 * q as real + 0.242194 * r as real;
  }

  predicate ValidEquinox(e: Equinox) {
    1 <= e.vernal <= 31 && 1 <= e.autumnal <= 30
  }

  function KeyOf(d: Date): MonthDay {
    MD(d.month, d.day)
  }

  function DateOf(year: int, md: MonthDay): Date {
    Date(year, md.month, md.day)
  }

  /** `nthWeekday(mon, n, dow)`: the `n`-th day of weekday `dow` in month `mon`. */
  function NthWeekday(year: int, mon: int, n: int, dow: int): int
    requires 1 <= mon <= 12
  {
    1 + ((dow - Weekday(Date(year, mon, 1)) + 7) % 7) + (n - 1) * 7
  }

  lemma ModArith(f: int, dow: int, k: int)
    requires 0 <= f < 7 && 0 <= dow < 7
    ensures (f + (dow - f + 7) % 7 + 7 * k) % 7 == dow
    ensures 0 <= (dow - f + 7) % 7 < 7
  {
    var x := (dow - f + 7) % 7;
    assert x == if dow >= f then dow - f else dow - f + 7;
  }

  /** The `n`-th weekday falls in the `n`-th week of the month and has the
      requested weekday. */
  lemma NthWeekdayCorrect(year: int, mon: int, n: int, dow: int)
    requires 1 <= mon <= 12 && 0 <= dow < 7
    ensures var day := NthWeekday(year, mon, n, dow);
      && 7 * (n - 1) + 1 <= day <= 7 * n
      && Weekday(Date(year, mon, day)) == dow
  {
    var f := Weekday(Date(year, mon, 1));
    var day := NthWeekday(year, mon, n, dow);
    ModArith(f, dow, n - 1);
    WeekdayShift(year, mon, 1, day - 1);
    assert (f + (day - 1)) % 7 == dow;
  }

  /** Inserting into a JavaScript Set keeps the first insertion's place. */
  function Add(h: seq<MonthDay>, x: MonthDay): (r: seq<MonthDay>)
    ensures x in r && forall y :: y in h ==> y in r
    ensures forall y :: y in r ==> y in h || y == x
  {
    if x in h then h else h + [x]
  }

  /** Third Monday of September (Respect for the Aged Day). */
  function AgingDay(year: int): int {
    NthWeekday(year, 9, 3, 1)
  }

  /** The fixed-date holidays Article 2 names for `year`. */
  function FixedDays(year: int): seq<MonthDay> {
    var h0 := [MD(1, 1), MD(2, 11)];
    var h1 := if year >= 2020 then h0 + [MD(2, 23)] else h0;
    var h2 := h1 + [MD(4, 29), MD(5, 3), MD(5, 4), MD(5, 5)];
    var h3 := if year >= 2016 then h2 + [MD(8, 11)] else h2;
    h3 + [MD(11, 3), MD(11, 23)]
  }

  /** The fixed-date and Happy Monday holidays plus the equinox days, in the
      order the source inserts them. */
  function Article2(year: int, eq: Equinox): seq<MonthDay>
  {
    var h5 := Add(Add(Add(Add(FixedDays(year),
      MD(1, NthWeekday(year, 1, 2, 1))),
      MD(7, NthWeekday(year, 7, 3, 1))),
      MD(9, AgingDay(year))),
      MD(10, NthWeekday(year, 10, 2, 1)));
    Add(Add(h5, MD(3, eq.vernal)), MD(9, eq.autumnal))
  }

  /** Article 3 paragraph 3 as the source applies it: the day after the third
      Monday of September becomes a holiday when the autumnal equinox is the
      day after that, unless it is a Sunday. */
  function PreSubstitute(year: int, eq: Equinox): seq<MonthDay>
  {
    var h := Article2(year, eq);
    var aging := AgingDay(year);
    if eq.autumnal - aging == 2 && Weekday(Date(year, 9, aging + 1)) != 0
    then Add(h, MD(9, aging + 1))
    else h
  }

  predicate AllValid(year: int, xs: seq<MonthDay>) {
    forall x :: x in xs ==> Valid(DateOf(year, x))
  }

  lemma AddValid(year: int, h: seq<MonthDay>, x: MonthDay)
    requires AllValid(year, h) && Valid(DateOf(year, x))
    ensures AllValid(year, Add(h, x))
  {
  }

  /** The `n`-th Monday of a month, `n` at most 3, is a real date. */
  lemma HappyMondayValid(year: int, mon: int, n: int)
    requires 1 <= mon <= 12 && 1 <= n <= 3
    ensures Valid(DateOf(year, MD(mon, NthWeekday(year, mon, n, 1))))
  {
    NthWeekdayCorrect(year, mon, n, 1);
  }

  lemma Article2Valid(year: int, eq: Equinox)
    requires ValidEquinox(eq)
    ensures AllValid(year, Article2(year, eq))
  {
    var h4 := FixedDays(year);
    assert AllValid(year, h4);
    var m1 := MD(1, NthWeekday(year, 1, 2, 1));
    var m7 := MD(7, NthWeekday(year, 7, 3, 1));
    var m9 := MD(9, AgingDay(year));
    var m10 := MD(10, NthWeekday(year, 10, 2, 1));
    HappyMondayValid(year, 1, 2);
    HappyMondayValid(year, 7, 3);
    HappyMondayValid(year, 9, 3);
    HappyMondayValid(year, 10, 2);
    AddValid(year, h4, m1);
    AddValid(year, Add(h4, m1), m7);
    AddValid(year, Add(Add(h4, m1), m7), m9);
    var h5 := Add(Add(Add(Add(h4, m1), m7), m9), m10);
    AddValid(year, Add(Add(Add(h4, m1), m7), m9), m10);
    AddValid(year, h5, MD(3, eq.vernal));
    AddValid(year, Add(h5, MD(3, eq.vernal)), MD(9, eq.autumnal));
  }

  /** Every holiday before the substitute pass is a real date of the year. */
  lemma PreSubstituteValid(year: int, eq: Equinox)
    requires ValidEquinox(eq)
    ensures var pre := PreSubstitute(year, eq);
      forall i :: 0 <= i < |pre| ==> Valid(DateOf(year, pre[i]))
  {
    Article2Valid(year, eq);
    var aging := AgingDay(year);
    NthWeekdayCorrect(year, 9, 3, 1);
    if eq.autumnal - aging == 2 && Weekday(Date(year, 9, aging + 1)) != 0 {
      AddValid(year, Article2(year, eq), MD(9, aging + 1));
    }
    var pre := PreSubstitute(year, eq);
    assert AllValid(year, pre);
    forall i | 0 <= i < |pre| ensures Valid(DateOf(year, pre[i])) {
      assert pre[i] in pre;
    }
  }

  /** The date `k` days after `d`. */
  function Advance(d: Date, k: nat): (r: Date)
    requires Valid(d)
    ensures Valid(r)
  {
    if k == 0 then d else NextDay(Advance(d, k - 1))
  }

  /** `Advance` moves exactly `k` days forward. */
  lemma {:induction false} AdvanceDayNumber(d: Date, k: nat)
    requires Valid(d)
    ensures DayNumber(Advance(d, k)) == DayNumber(d) + k
    decreases k
  {
    if k > 0 {
      AdvanceDayNumber(d, k - 1);
      NextDayFollows(Advance(d, k - 1));
    }
  }

  lemma {:induction false} AdvanceNext(d: Date, k: nat)
    requires Valid(d)
    ensures Advance(NextDay(d), k) == Advance(d, k + 1)
    decreases k
  {
    if k > 0 {
      AdvanceNext(d, k - 1);
      assert Advance(NextDay(d), k) == NextDay(Advance(NextDay(d), k - 1));
      assert Advance(d, k + 1) == NextDay(Advance(d, k));
    } else {
      assert Advance(d, 1) == NextDay(Advance(d, 0));
    }
  }

  /** The `while` loop of the substitute search: how many days past `d` the
      first day whose month/day is not blocked lies, looking at most `fuel`
      days ahead. */
  function FirstFree(d: Date, blocked: set<MonthDay>, fuel: nat): (r: Option<nat>)
    requires Valid(d)
    ensures r.Some? ==> r.value <= fuel
    decreases fuel
  {
    if KeyOf(d) !in blocked then Some(0)
    else if fuel == 0 then None
    else
      match FirstFree(NextDay(d), blocked, fuel - 1)
      case None => None
      case Some(j) => Some(j + 1)
  }

  /** What the search promises from `d`: every day it skipped is blocked,
      the day it stops on is not, and it fails only when all the days it may
      look at are blocked. */
  ghost predicate SearchFacts(d: Date, blocked: set<MonthDay>, fuel: nat)
    requires Valid(d)
  {
    var r := FirstFree(d, blocked, fuel);
    && (r.Some? ==> KeyOf(Advance(d, r.value)) !in blocked)
    && (r.Some? ==> forall k :: 0 <= k < r.value ==> KeyOf(Advance(d, k)) in blocked)
    && (r.None? ==> forall k :: 0 <= k <= fuel ==> KeyOf(Advance(d, k)) in blocked)
  }

  /** The search returns the first unblocked day. */
  lemma {:induction false} FirstFreeIsFirst(d: Date, blocked: set<MonthDay>, fuel: nat)
    requires Valid(d)
    ensures SearchFacts(d, blocked, fuel)
    decreases fuel
  {
    assert Advance(d, 0) == d;
    if KeyOf(d) in blocked && fuel > 0 {
      FirstFreeIsFirst(NextDay(d), blocked, fuel - 1);
      SearchStep(d, blocked, fuel);
    }
  }

  /** From a blocked day the search's promise carries over from the next
      day. */
  lemma SearchStep(d: Date, blocked: set<MonthDay>, fuel: nat)
    requires Valid(d) && KeyOf(d) in blocked && fuel > 0
    requires SearchFacts(NextDay(d), blocked, fuel - 1)
    ensures SearchFacts(d, blocked, fuel)
  {
    var r' := FirstFree(NextDay(d), blocked, fuel - 1);
    if r'.None? {
      SkipOne(d, blocked, fuel);
    } else {
      SkipOne(d, blocked, r'.value);
      AdvanceNext(d, r'.value);
    }
  }

  /** A blocked day followed by a blocked run makes a run one day longer. */
  lemma SkipOne(d: Date, blocked: set<MonthDay>, n: nat)
    requires Valid(d) && KeyOf(d) in blocked
    requires forall k :: 0 <= k < n ==> KeyOf(Advance(NextDay(d), k)) in blocked
    ensures forall k :: 0 <= k < n + 1 ==> KeyOf(Advance(d, k)) in blocked
  {
    forall k | 0 <= k < n + 1 ensures KeyOf(Advance(d, k)) in blocked {
      if k > 0 { AdvanceNext(d, k - 1); }
    }
  }

  /** The day-after loop over a snapshot of the holidays: for each Sunday
      holiday (in insertion order) the first later day that is neither in
      the snapshot nor already chosen becomes a substitute. */
  function Substitutes(year: int, rest: seq<MonthDay>, snapshot: set<MonthDay>, chosen: seq<MonthDay>)
    : (r: seq<MonthDay>)
    requires forall i :: 0 <= i < |rest| ==> Valid(DateOf(year, rest[i]))
    ensures chosen <= r && |r| <= |chosen| + |rest|
    decreases |rest|
  {
    if |rest| == 0 then chosen
    else Substitutes(year, rest[1..], snapshot, Step(year, rest[0], snapshot, chosen))
  }

  /** One turn of the loop: a Sunday holiday appends the first later day
      that is neither in the snapshot nor already chosen; any other day
      appends nothing. */
  function Step(year: int, x: MonthDay, snapshot: set<MonthDay>, chosen: seq<MonthDay>): (next: seq<MonthDay>)
    requires Valid(DateOf(year, x))
    ensures chosen <= next && |next| <= |chosen| + 1
  {
    var d := DateOf(year, x);
    if Weekday(d) != 0 then chosen
    else
      var start := NextDay(d);
      match FirstFree(start, snapshot + Elems(chosen), 366)
      case None => chosen
      case Some(k) => chosen + [KeyOf(Advance(start, k))]
  }

  predicate NoDuplicates(xs: seq<MonthDay>) {
    forall i, j :: 0 <= i < j < |xs| ==> xs[i] != xs[j]
  }

  /** Substitute days never coincide with each other or with a holiday of
      the snapshot. */
  lemma {:induction false} SubstitutesFresh(year: int, rest: seq<MonthDay>, snapshot: set<MonthDay>, chosen: seq<MonthDay>)
    requires forall i :: 0 <= i < |rest| ==> Valid(DateOf(year, rest[i]))
    requires NoDuplicates(chosen) && forall x :: x in chosen ==> x !in snapshot
    ensures var r := Substitutes(year, rest, snapshot, chosen);
      NoDuplicates(r) && forall x :: x in r ==> x !in snapshot
    decreases |rest|
  {
    if |rest| > 0 {
      StepFresh(year, rest[0], snapshot, chosen);
      SubstitutesFresh(year, rest[1..], snapshot, Step(year, rest[0], snapshot, chosen));
    }
  }

  /** One turn adds a day that is new to both the snapshot and the list. */
  lemma StepFresh(year: int, x: MonthDay, snapshot: set<MonthDay>, chosen: seq<MonthDay>)
    requires Valid(DateOf(year, x))
    requires NoDuplicates(chosen) && forall y :: y in chosen ==> y !in snapshot
    ensures var next := Step(year, x, snapshot, chosen);
      NoDuplicates(next) && forall y :: y in next ==> y !in snapshot
  {
    var d := DateOf(year, x);
    if Weekday(d) == 0 {
      var start := NextDay(d);
      var blocked := snapshot + Elems(chosen);
      FirstFreeIsFirst(start, blocked, 366);
      match FirstFree(start, blocked, 366) {
        case None =>
        case Some(k) =>
          var key := KeyOf(Advance(start, k));
          assert key !in chosen && key !in snapshot;
          AppendFresh(chosen, key);
      }
    }
  }

  lemma AppendFresh(xs: seq<MonthDay>, y: MonthDay)
    requires NoDuplicates(xs) && y !in xs
    ensures NoDuplicates(xs + [y])
  {
    var r := xs + [y];
    forall i, j | 0 <= i < j < |r| ensures r[i] != r[j] {
      assert r[i] == xs[i];
      if j < |xs| { assert r[j] == xs[j]; }
    }
  }

  /** A holiday whose date is a Sunday is followed by an unbroken run of
      holidays in `h` that ends on a day not in the snapshot (its substitute),
      or the run covers every day the search looks at. */
  ghost predicate Covered(year: int, x: MonthDay, snapshot: set<MonthDay>, h: set<MonthDay>)
    requires Valid(DateOf(year, x))
  {
    var d := DateOf(year, x);
    Weekday(d) == 0 ==>
      (exists k :: 1 <= k <= 367 && KeyOf(Advance(d, k)) !in snapshot && KeyOf(Advance(d, k)) in h
          && forall j :: 1 <= j < k ==> KeyOf(Advance(d, j)) in h)
      || (forall j :: 1 <= j <= 367 ==> KeyOf(Advance(d, j)) in h)
  }

  lemma CoveredGrows(year: int, x: MonthDay, snapshot: set<MonthDay>, h: set<MonthDay>, h': set<MonthDay>)
    requires Valid(DateOf(year, x)) && h <= h'
    requires Covered(year, x, snapshot, h)
    ensures Covered(year, x, snapshot, h')
  {
  }

  function Elems(xs: seq<MonthDay>): set<MonthDay> {
    set x | x in xs
  }

  /** One turn of the loop: a Sunday holiday is covered by any set that
      holds everything the search skipped and the day it found. */
  lemma CoverOne(year: int, x: MonthDay, snapshot: set<MonthDay>, chosen: seq<MonthDay>, h: set<MonthDay>)
    requires Valid(DateOf(year, x)) && Weekday(DateOf(year, x)) == 0
    requires snapshot + Elems(chosen) <= h
    requires var f := FirstFree(NextDay(DateOf(year, x)), snapshot + Elems(chosen), 366);
      f.Some? ==> KeyOf(Advance(NextDay(DateOf(year, x)), f.value)) in h
    ensures Covered(year, x, snapshot, h)
  {
    var start := NextDay(DateOf(year, x));
    var blocked := snapshot + Elems(chosen);
    FirstFreeIsFirst(start, blocked, 366);
    var f := FirstFree(start, blocked, 366);
    if f.None? {
      CoverAll(year, x, snapshot, blocked, h);
    } else {
      CoverAt(year, x, snapshot, blocked, h, f.value);
    }
  }

  /** Every day the search looked at was blocked. */
  lemma CoverAll(year: int, x: MonthDay, snapshot: set<MonthDay>, blocked: set<MonthDay>, h: set<MonthDay>)
    requires Valid(DateOf(year, x)) && blocked <= h
    requires forall k :: 0 <= k <= 366 ==> KeyOf(Advance(NextDay(DateOf(year, x)), k)) in blocked
    ensures Covered(year, x, snapshot, h)
  {
    var d := DateOf(year, x);
    forall j | 1 <= j <= 367 ensures KeyOf(Advance(d, j)) in h {
      AdvanceNext(d, j - 1);
    }
  }

  /** The search stopped `k` days after the day after `x`. */
  lemma CoverAt(year: int, x: MonthDay, snapshot: set<MonthDay>, blocked: set<MonthDay>, h: set<MonthDay>, k: nat)
    requires Valid(DateOf(year, x)) && snapshot <= blocked <= h && k <= 366
    requires var start := NextDay(DateOf(year, x));
      && KeyOf(Advance(start, k)) !in blocked && KeyOf(Advance(start, k)) in h
      && forall i :: 0 <= i < k ==> KeyOf(Advance(start, i)) in blocked
    ensures Covered(year, x, snapshot, h)
  {
    var d := DateOf(year, x);
    AdvanceNext(d, k);
    forall j | 1 <= j < k + 1 ensures KeyOf(Advance(d, j)) in h {
      AdvanceNext(d, j - 1);
    }
    assert KeyOf(Advance(d, k + 1)) !in snapshot && KeyOf(Advance(d, k + 1)) in h;
  }

  /** Every Sunday holiday the loop visits is covered by the snapshot plus
      the substitutes it chose. */
  lemma {:induction false} SubstitutesCover(year: int, rest: seq<MonthDay>, snapshot: set<MonthDay>, chosen: seq<MonthDay>)
    requires forall i :: 0 <= i < |rest| ==> Valid(DateOf(year, rest[i]))
    ensures var h := snapshot + Elems(Substitutes(year, rest, snapshot, chosen));
      forall i :: 0 <= i < |rest| ==> Covered(year, rest[i], snapshot, h)
    decreases |rest|
  {
    if |rest| > 0 {
      var next := Step(year, rest[0], snapshot, chosen);
      SubstitutesCover(year, rest[1..], snapshot, next);
      var r := Substitutes(year, rest, snapshot, chosen);
      assert r == Substitutes(year, rest[1..], snapshot, next);
      var h := snapshot + Elems(r);
      assert Elems(next) <= Elems(r);
      StepCovers(year, rest[0], snapshot, chosen, h);
      CoverShift(year, rest, snapshot, h);
    }
  }

  /** A day covered by the set that holds the turn's outcome. */
  lemma StepCovers(year: int, x: MonthDay, snapshot: set<MonthDay>, chosen: seq<MonthDay>, h: set<MonthDay>)
    requires Valid(DateOf(year, x))
    requires snapshot + Elems(Step(year, x, snapshot, chosen)) <= h
    ensures Covered(year, x, snapshot, h)
  {
    if Weekday(DateOf(year, x)) == 0 {
      assert Elems(chosen) <= Elems(Step(year, x, snapshot, chosen));
      CoverOne(year, x, snapshot, chosen, h);
    }
  }

  /** Covering the head and the tail covers the list. */
  lemma CoverShift(year: int, rest: seq<MonthDay>, snapshot: set<MonthDay>, h: set<MonthDay>)
    requires |rest| > 0 && forall i :: 0 <= i < |rest| ==> Valid(DateOf(year, rest[i]))
    requires Covered(year, rest[0], snapshot, h)
    requires forall i :: 0 <= i < |rest| - 1 ==> Covered(year, rest[1..][i], snapshot, h)
    ensures forall i :: 0 <= i < |rest| ==> Covered(year, rest[i], snapshot, h)
  {
    forall i | 1 <= i < |rest| ensures Covered(year, rest[i], snapshot, h) {
      assert rest[i] == rest[1..][i - 1];
    }
  }

  /** The substitute the search finds for `x` given what is blocked: the
      first free day after it, or nothing when the window is all blocked. */
  function NextFree(year: int, x: MonthDay, blocked: set<MonthDay>): Option<MonthDay> {
    if !Valid(DateOf(year, x)) then None
    else
      var start := NextDay(DateOf(year, x));
      match FirstFree(start, blocked, 366)
      case None => None
      case Some(k) => Some(KeyOf(Advance(start, k)))
  }

  /** A turn appends exactly when its day is a Sunday and the search
      succeeds, and then appends what the search found. */
  lemma StepShape(year: int, x: MonthDay, snapshot: set<MonthDay>, chosen: seq<MonthDay>)
    requires Valid(DateOf(year, x))
    ensures var next := Step(year, x, snapshot, chosen);
      var found := NextFree(year, x, snapshot + Elems(chosen));
      && (|next| > |chosen| <==> Weekday(DateOf(year, x)) == 0 && found.Some?)
      && (|next| == |chosen| ==> next == chosen)
      && (|next| > |chosen| ==> next == chosen + [found.value])
  {
  }

  function Shift1(o: seq<nat>): (r: seq<nat>)
    ensures |r| == |o| && forall j :: 0 <= j < |o| ==> r[j] == o[j] + 1
  {
    seq(|o|, j requires 0 <= j < |o| => o[j] + 1)
  }

  /** `y` is the substitute for the Sunday holiday `x` given `blocked`. */
  ghost predicate Explains(year: int, x: MonthDay, blocked: set<MonthDay>, y: MonthDay) {
    Valid(DateOf(year, x)) && Weekday(DateOf(year, x)) == 0 && NextFree(year, x, blocked) == Some(y)
  }

  /** `Explains` for one year, as a relation on (holiday, blocked days, substitute). */
  ghost function SubstituteOf(year: int): (MonthDay, set<MonthDay>, MonthDay) -> bool {
    (x, blocked, y) => Explains(year, x, blocked, y)
  }

  /** The positions in `rest` of the Sunday holidays that produced a
      substitute, in order. */
  ghost function Origins(year: int, rest: seq<MonthDay>, snapshot: set<MonthDay>, chosen: seq<MonthDay>): seq<nat>
    requires forall i :: 0 <= i < |rest| ==> Valid(DateOf(year, rest[i]))
    decreases |rest|
  {
    if |rest| == 0 then []
    else
      var next := Step(year, rest[0], snapshot, chosen);
      var tail := Shift1(Origins(year, rest[1..], snapshot, next));
      if |next| > |chosen| then [0] + tail else tail
  }

  /** Each entry of `r` past `chosen` comes from its own holiday of `rest`,
      at the positions `o` in order, and is related by `e` to it and to the
      snapshot plus the entries before it. The lemmas below keep `e`
      abstract; the substitute pass uses `SubstituteOf(year)`. */
  ghost predicate Explained(e: (MonthDay, set<MonthDay>, MonthDay) -> bool, rest: seq<MonthDay>,
                            snapshot: set<MonthDay>, chosen: seq<MonthDay>, r: seq<MonthDay>, o: seq<nat>)
  {
    && chosen <= r
    && |o| + |chosen| == |r|
    && (forall j :: 0 <= j < |o| ==>
          o[j] < |rest| && e(rest[o[j]], snapshot + Elems(r[..|chosen| + j]), r[|chosen| + j]))
    && (forall j, k :: 0 <= j < k < |o| ==> o[j] < o[k])
  }

  /** A turn that appends nothing: the tail's explanation, shifted. */
  lemma ExplainedSkip(e: (MonthDay, set<MonthDay>, MonthDay) -> bool, rest: seq<MonthDay>,
                      snapshot: set<MonthDay>, chosen: seq<MonthDay>, r: seq<MonthDay>, o': seq<nat>)
    requires |rest| > 0
    requires Explained(e, rest[1..], snapshot, chosen, r, o')
    ensures Explained(e, rest, snapshot, chosen, r, Shift1(o'))
  {
    var o := Shift1(o');
    forall j | 0 <= j < |o|
      ensures o[j] < |rest| && e(rest[o[j]], snapshot + Elems(r[..|chosen| + j]), r[|chosen| + j])
    {
      assert rest[o[j]] == rest[1..][o'[j]];
    }
  }

  /** Putting 0 before a strictly increasing list of positions, each moved
      one on, keeps it strictly increasing. */
  lemma ConsShift(o': seq<nat>)
    requires forall j, k :: 0 <= j < k < |o'| ==> o'[j] < o'[k]
    ensures var o := [0] + Shift1(o');
      && (forall j :: 0 < j < |o| ==> o[j] == o'[j - 1] + 1)
      && forall j, k :: 0 <= j < k < |o| ==> o[j] < o[k]
  {
    var o := [0] + Shift1(o');
    forall j, k | 0 <= j < k < |o|
      ensures o[j] < o[k]
    {
      assert o[k] == o'[k - 1] + 1;
      if j > 0 { assert o[j] == o'[j - 1] + 1; }
    }
  }

  lemma PrefixParts(chosen: seq<MonthDay>, y: MonthDay, r: seq<MonthDay>)
    requires chosen + [y] <= r
    ensures r[..|chosen|] == chosen && r[|chosen|] == y
  {
    assert r[..|chosen| + 1] == chosen + [y];
  }

  /** A turn that appends `y`, related to the head: it explains the first
      new entry, and the tail's explanation, shifted, the rest. */
  lemma ExplainedTake(e: (MonthDay, set<MonthDay>, MonthDay) -> bool, rest: seq<MonthDay>,
                      snapshot: set<MonthDay>, chosen: seq<MonthDay>, y: MonthDay, r: seq<MonthDay>, o': seq<nat>)
    requires |rest| > 0
    requires e(rest[0], snapshot + Elems(chosen), y)
    requires Explained(e, rest[1..], snapshot, chosen + [y], r, o')
    ensures Explained(e, rest, snapshot, chosen, r, [0] + Shift1(o'))
  {
    var o := [0] + Shift1(o');
    PrefixParts(chosen, y, r);
    ConsShift(o');
    forall j | 0 <= j < |o|
      ensures o[j] < |rest| && e(rest[o[j]], snapshot + Elems(r[..|chosen| + j]), r[|chosen| + j])
    {
      if j > 0 {
        assert rest[o[j]] == rest[1..][o'[j - 1]];
        assert |chosen + [y]| + (j - 1) == |chosen| + j;
      }
    }
  }

  lemma {:induction false} OriginsExplain(year: int, rest: seq<MonthDay>, snapshot: set<MonthDay>, chosen: seq<MonthDay>)
    requires forall i :: 0 <= i < |rest| ==> Valid(DateOf(year, rest[i]))
    ensures Explained(SubstituteOf(year), rest, snapshot, chosen,
                      Substitutes(year, rest, snapshot, chosen), Origins(year, rest, snapshot, chosen))
    decreases |rest|
  {
    if |rest| > 0 {
      var next := Step(year, rest[0], snapshot, chosen);
      StepShape(year, rest[0], snapshot, chosen);
      OriginsExplain(year, rest[1..], snapshot, next);
      var r := Substitutes(year, rest[1..], snapshot, next);
      var o' := Origins(year, rest[1..], snapshot, next);
      assert Substitutes(year, rest, snapshot, chosen) == r;
      if |next| > |chosen| {
        var y := NextFree(year, rest[0], snapshot + Elems(chosen)).value;
        assert SubstituteOf(year)(rest[0], snapshot + Elems(chosen), y);
        ExplainedTake(SubstituteOf(year), rest, snapshot, chosen, y, r, o');
        assert Origins(year, rest, snapshot, chosen) == [0] + Shift1(o');
      } else {
        ExplainedSkip(SubstituteOf(year), rest, snapshot, chosen, r, o');
        assert Origins(year, rest, snapshot, chosen) == Shift1(o');
      }
    }
  }

  /** `_computeHolidays(year)` with the year's equinox days. */
  function HolidaysWith(year: int, eq: Equinox): set<MonthDay>
    requires ValidEquinox(eq)
  {
    Elems(PreSubstitute(year, eq)) + Elems(SubstituteDays(year, eq))
  }

  /** The `toAdd` list: the substitute days, in the order they were found. */
  function SubstituteDays(year: int, eq: Equinox): seq<MonthDay>
    requires ValidEquinox(eq)
  {
    var pre := PreSubstitute(year, eq);
    PreSubstituteValid(year, eq);
    Substitutes(year, pre, Elems(pre), [])
  }

  function ComputeHolidays(year: int): set<MonthDay>
    requires ValidEquinox(EquinoxOf(year))
  {
    HolidaysWith(year, EquinoxOf(year))
  }

  /** Emperor's Birthday is a fixed day from 2020, Mountain Day from 2016,
      and no fixed day falls in September. */
  lemma FixedDaysEras(year: int, d: int)
    ensures MD(2, 23) in FixedDays(year) <==> year >= 2020
    ensures MD(8, 11) in FixedDays(year) <==> year >= 2016
    ensures MD(9, d) !in FixedDays(year)
  {
  }

  /** What Article 2 contributes: the fixed days, the four Happy Mondays and
      the two equinox days, and nothing else. */
  lemma Article2Members(year: int, eq: Equinox, x: MonthDay)
    ensures x in Article2(year, eq) <==>
      || x in FixedDays(year)
      || x == MD(1, NthWeekday(year, 1, 2, 1))
      || x == MD(7, NthWeekday(year, 7, 3, 1))
      || x == MD(9, AgingDay(year))
      || x == MD(10, NthWeekday(year, 10, 2, 1))
      || x == MD(3, eq.vernal)
      || x == MD(9, eq.autumnal)
  {
    var h4 := FixedDays(year);
    var m1 := MD(1, NthWeekday(year, 1, 2, 1));
    var m7 := MD(7, NthWeekday(year, 7, 3, 1));
    var m9 := MD(9, AgingDay(year));
    var m10 := MD(10, NthWeekday(year, 10, 2, 1));
    var a := Add(h4, m1);
    var b := Add(a, m7);
    var c := Add(b, m9);
    var h5 := Add(c, m10);
    var e := Add(h5, MD(3, eq.vernal));
    assert Article2(year, eq) == Add(e, MD(9, eq.autumnal));
  }

  /** The substitute pass keeps every holiday it started from. */
  lemma HolidaysKeepArticle2(year: int, eq: Equinox)
    requires ValidEquinox(eq)
    ensures Elems(Article2(year, eq)) <= HolidaysWith(year, eq)
  {
  }

  /** The fixed-date holidays, with Emperor's Birthday from 2020 and Mountain
      Day from 2016, and both equinox days. */
  lemma FixedHolidays(year: int, eq: Equinox)
    requires ValidEquinox(eq)
    ensures var h := HolidaysWith(year, eq);
      && MD(1, 1) in h && MD(2, 11) in h && MD(4, 29) in h
      && MD(5, 3) in h && MD(5, 4) in h && MD(5, 5) in h
      && MD(11, 3) in h && MD(11, 23) in h
      && (year >= 2020 ==> MD(2, 23) in h)
      && (year >= 2016 ==> MD(8, 11) in h)
      && MD(3, eq.vernal) in h && MD(9, eq.autumnal) in h
  {
    HolidaysKeepArticle2(year, eq);
    var f := FixedDays(year);
    assert MD(1, 1) in f && MD(2, 11) in f && MD(4, 29) in f;
    assert MD(5, 3) in f && MD(5, 4) in f && MD(5, 5) in f;
    assert MD(11, 3) in f && MD(11, 23) in f;
    assert year >= 2020 ==> MD(2, 23) in f;
    assert year >= 2016 ==> MD(8, 11) in f;
    Article2Members(year, eq, MD(1, 1));
    Article2Members(year, eq, MD(2, 11));
    Article2Members(year, eq, MD(4, 29));
    Article2Members(year, eq, MD(5, 3));
    Article2Members(year, eq, MD(5, 4));
    Article2Members(year, eq, MD(5, 5));
    Article2Members(year, eq, MD(11, 3));
    Article2Members(year, eq, MD(11, 23));
    Article2Members(year, eq, MD(2, 23));
    Article2Members(year, eq, MD(8, 11));
    Article2Members(year, eq, MD(3, eq.vernal));
    Article2Members(year, eq, MD(9, eq.autumnal));
  }

  /** Before substitutes are added, February 23 is a holiday exactly from
      2020 on and August 11 exactly from 2016 on. */
  lemma Article2Eras(year: int, eq: Equinox)
    requires ValidEquinox(eq)
    ensures MD(2, 23) in Article2(year, eq) <==> year >= 2020
    ensures MD(8, 11) in Article2(year, eq) <==> year >= 2016
  {
    Article2Members(year, eq, MD(2, 23));
    Article2Members(year, eq, MD(8, 11));
    FixedDaysEras(year, 0);
  }

  /** Coming-of-Age Day, Marine Day, Respect for the Aged Day and Sports Day
      are holidays, each a Monday in the week the law names. */
  lemma HappyMondays(year: int, eq: Equinox)
    requires ValidEquinox(eq)
    ensures var h := HolidaysWith(year, eq);
      && MD(1, NthWeekday(year, 1, 2, 1)) in h
      && MD(7, NthWeekday(year, 7, 3, 1)) in h
      && MD(9, NthWeekday(year, 9, 3, 1)) in h
      && MD(10, NthWeekday(year, 10, 2, 1)) in h
    ensures 8 <= NthWeekday(year, 1, 2, 1) <= 14 && Weekday(Date(year, 1, NthWeekday(year, 1, 2, 1))) == 1
    ensures 15 <= NthWeekday(year, 7, 3, 1) <= 21 && Weekday(Date(year, 7, NthWeekday(year, 7, 3, 1))) == 1
    ensures 15 <= NthWeekday(year, 9, 3, 1) <= 21 && Weekday(Date(year, 9, NthWeekday(year, 9, 3, 1))) == 1
    ensures 8 <= NthWeekday(year, 10, 2, 1) <= 14 && Weekday(Date(year, 10, NthWeekday(year, 10, 2, 1))) == 1
  {
    HolidaysKeepArticle2(year, eq);
    NthWeekdayCorrect(year, 1, 2, 1);
    NthWeekdayCorrect(year, 7, 3, 1);
    NthWeekdayCorrect(year, 9, 3, 1);
    NthWeekdayCorrect(year, 10, 2, 1);
  }

  /** The day after Respect for the Aged Day is always a Tuesday, so the
      source's "not a Sunday" test on it never fails. */
  lemma CitizensDayIsTuesday(year: int)
    ensures Weekday(Date(year, 9, AgingDay(year) + 1)) == 2
  {
    NthWeekdayCorrect(year, 9, 3, 1);
    WeekdayShift(year, 9, AgingDay(year), 1);
  }

  /** The day after Respect for the Aged Day is a holiday before the
      substitute pass exactly when the autumnal equinox is the day after it
      (a citizens' holiday between two holidays) or that day itself. */
  lemma CitizensHoliday(year: int, eq: Equinox)
    requires ValidEquinox(eq)
    ensures var aging := AgingDay(year);
      (MD(9, aging + 1) in PreSubstitute(year, eq))
        <==> (eq.autumnal == aging + 2 || eq.autumnal == aging + 1)
  {
    var aging := AgingDay(year);
    var x := MD(9, aging + 1);
    CitizensDayIsTuesday(year);
    Article2Members(year, eq, x);
    FixedDaysEras(year, aging + 1);
  }

  /** Every Sunday holiday is followed by an unbroken run of holidays that
      ends on a substitute day (or fills the whole search window). */
  lemma SundayHolidaysCovered(year: int, eq: Equinox)
    requires ValidEquinox(eq)
    ensures var pre := PreSubstitute(year, eq);
      forall x :: x in pre ==> Valid(DateOf(year, x)) && Covered(year, x, Elems(pre), HolidaysWith(year, eq))
  {
    var pre := PreSubstitute(year, eq);
    PreSubstituteValid(year, eq);
    SubstitutesCover(year, pre, Elems(pre), []);
    forall x | x in pre ensures Valid(DateOf(year, x)) && Covered(year, x, Elems(pre), HolidaysWith(year, eq)) {
      var i :| 0 <= i < |pre| && pre[i] == x;
    }
  }

  /** Substitute days are days that were not holidays already, each added
      once. */
  lemma SubstitutesAreNew(year: int, eq: Equinox)
    requires ValidEquinox(eq)
    ensures NoDuplicates(SubstituteDays(year, eq))
    ensures Elems(PreSubstitute(year, eq)) !! Elems(SubstituteDays(year, eq))
  {
    var pre := PreSubstitute(year, eq);
    PreSubstituteValid(year, eq);
    SubstitutesFresh(year, pre, Elems(pre), []);
  }

  /** The substitute pass adds nothing else: the j-th substitute day is the
      first free day after its own Sunday holiday, those holidays taken in
      the order of the list, given the earlier holidays and substitutes. */
  lemma SubstituteDaysOrigins(year: int, eq: Equinox)
    requires ValidEquinox(eq)
    ensures forall i :: 0 <= i < |PreSubstitute(year, eq)| ==> Valid(DateOf(year, PreSubstitute(year, eq)[i]))
    ensures var pre := PreSubstitute(year, eq);
      Explained(SubstituteOf(year), pre, Elems(pre), [], SubstituteDays(year, eq), Origins(year, pre, Elems(pre), []))
  {
    var pre := PreSubstitute(year, eq);
    PreSubstituteValid(year, eq);
    OriginsExplain(year, pre, Elems(pre), []);
  }

  /** Over 1980-2099 the year's holidays are well defined. */
  lemma ComputeHolidaysDefined(year: int)
    requires 1980 <= year <= 2099
    ensures ValidEquinox(EquinoxOf(year))
  {
    EquinoxRange(year);
  }
}
