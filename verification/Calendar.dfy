/** The calendar arithmetic of src/platform/cg_time.c and the text it writes. */
module Calendar {
  import opened Bytes
  import opened Division
  import Decimal

  // ----- the Gregorian calendar -----

  datatype Date = Date(y: int, m: int, d: int)

  predicate IsLeap(y: int) {
    y % 4 == 0 && (y % 100 != 0 || y % 400 == 0)
  }

  function DaysIn(y: int, m: int): int {
    if m == 2 then (if IsLeap(y) then 29 else 28)
    else if m == 4 || m == 6 || m == 9 || m == 11 then 30
    else 31
  }

  predicate ValidDate(t: Date) {
    1 <= t.m <= 12 && 1 <= t.d <= DaysIn(t.y, t.m)
  }

  function NextDay(t: Date): Date {
    if t.d < DaysIn(t.y, t.m) then t.(d := t.d + 1)
    else if t.m < 12 then Date(t.y, t.m + 1, 1)
    else Date(t.y + 1, 1, 1)
  }

  /** The date `n` days after 1 January 1970. */
  function DateAfter(n: nat): Date {
    if n == 0 then Date(1970, 1, 1) else NextDay(DateAfter(n - 1))
  }

  // ----- the source's arithmetic -----

  /** The straight-line computation of year, month and day from the days since the epoch. */
  function Civil(days: nat): Date {
    var z := days + 719468;
    var era := z / 146097;
    var doe := z - era * 146097;
    CivilInEra(era, doe)
  }

  function CivilInEra(era: nat, doe: nat): Date {
    var yoe := (doe - doe / 1460 + doe / 36524 - doe / 146096) / 365;
    var doy := doe - (365 * yoe + yoe / 4 - yoe / 100);
    CivilInYear(yoe + era * 400, doy)
  }

  function CivilInYear(y: int, doy: int): Date {
    var mp := (5 * doy + 2) / 153;
    var d := doy - (153 * mp + 2) / 5 + 1;
    var m := (mp + (if mp < 10 then 3 else 0xFFFF_FFF7)) % 0x1_0000_0000;
    Date(y + (if m <= 2 then 1 else 0), m, d)
  }

  /** A day of a 400-year era: century, four-year group, year in it, and day from 1 March. */
  datatype EraDay = EraDay(c: int, q: int, s: int, doy: int)

  predicate ValidEraDay(e: EraDay) {
    0 <= e.c <= 3 && 0 <= e.q <= 24 && 0 <= e.s <= 3 && 0 <= e.doy <= 365
    && (e.doy == 365 ==> e.s == 3 && (e.q < 24 || e.c == 3))
  }

  function DayOfEra(e: EraDay): int {
    36524 * e.c + 1461 * e.q + 365 * e.s + e.doy
  }

  function YearOfEra(e: EraDay): int {
    100 * e.c + 4 * e.q + e.s
  }

  /** The closed formula for the year is exact on every day of an era. */
  lemma YearFormula(e: EraDay)
    requires ValidEraDay(e)
    ensures var doe, y := DayOfEra(e), YearOfEra(e);
            (doe - doe / 1460 + doe / 36524 - doe / 146096) / 365 == y
            && doe - (365 * y + y / 4 - y / 100) == e.doy
  {
    var doe, y := DayOfEra(e), YearOfEra(e);
    assert y / 4 == 25 * e.c + e.q && y / 100 == e.c;
    var k := 24 * e.c + e.q + 365 * e.s + e.doy;
    assert doe == 1460 * (25 * e.c + e.q) + k;
    assert doe / 1460 == 25 * e.c + e.q + k / 1460;
    if doe == 146096 {
      assert doe / 36524 == 4 && doe / 146096 == 1;
    } else {
      assert doe / 36524 == e.c && doe / 146096 == 0;
    }
  }

  /** Days of the year, counted from March, before month `mp`. */
  function MonthStart(mp: int): int {
    (153 * mp + 2) / 5
  }

  /** Month and day from the day counted from 1 March, in the year that began then. */
  function FromMarch(year: int, doy: int): Date {
    var mp := (5 * doy + 2) / 153;
    var m := if mp < 10 then mp + 3 else mp - 9;
    Date(year + (if m <= 2 then 1 else 0), m, doy - MonthStart(mp) + 1)
  }

  /** The date of a day of the era whose first year is `year`. */
  function EraDate(year: int, e: EraDay): Date {
    FromMarch(YearOfEra(e) + year, e.doy)
  }

  /** Adding the 32-bit representation of -9 subtracts 9. */
  lemma WrappedMonth(mp: int)
    requires 0 <= mp <= 11
    ensures (mp + (if mp < 10 then 3 else 0xFFFF_FFF7)) % 0x1_0000_0000 == if mp < 10 then mp + 3 else mp - 9
  {
  }

  lemma CivilInEraDate(era: nat, doe: nat, e: EraDay)
    requires ValidEraDay(e) && doe == DayOfEra(e)
    ensures CivilInEra(era, doe) == EraDate(era * 400, e)
  {
    YearFormula(e);
    CivilInEraBy(era, doe, YearOfEra(e), e.doy);
    CivilInYearDate(YearOfEra(e) + era * 400, e.doy);
  }

  lemma CivilInEraBy(era: nat, doe: nat, yoe: int, doy: int)
    requires yoe == (doe - doe / 1460 + doe / 36524 - doe / 146096) / 365
    requires doy == doe - (365 * yoe + yoe / 4 - yoe / 100)
    ensures CivilInEra(era, doe) == CivilInYear(yoe + era * 400, doy)
  {
  }

  lemma CivilInYearDate(y: int, doy: int)
    requires 0 <= doy <= 365
    ensures CivilInYear(y, doy) == FromMarch(y, doy)
  {
    var mp := (5 * doy + 2) / 153;
    MonthOf(doy, mp);
    WrappedMonth(mp);
  }

  /** The month number is the one whose days contain the day. */
  lemma MonthOf(doy: int, mp: int)
    requires 0 <= doy <= 365
    ensures mp == (5 * doy + 2) / 153 <==> 0 <= mp <= 11 && MonthStart(mp) <= doy < MonthStart(mp + 1)
  {
  }

  lemma MonthLength(year: int, mp: int)
    requires 0 <= mp <= 11
    ensures DaysIn(year + (if mp < 10 then 0 else 1), if mp < 10 then mp + 3 else mp - 9)
         == if mp == 11 then (if IsLeap(year + 1) then 29 else 28) else MonthStart(mp + 1) - MonthStart(mp)
  {
  }

  lemma FromMarchValid(year: int, doy: int)
    requires 0 <= doy <= if IsLeap(year + 1) then 365 else 364
    ensures ValidDate(FromMarch(year, doy))
  {
    var mp := (5 * doy + 2) / 153;
    MonthOf(doy, mp);
    MonthLength(year, mp);
  }

  lemma NextInYear(year: int, doy: int)
    requires 0 <= doy < if IsLeap(year + 1) then 365 else 364
    ensures NextDay(FromMarch(year, doy)) == FromMarch(year, doy + 1)
  {
    var mp := (5 * doy + 2) / 153;
    MonthOf(doy, mp);
    MonthLength(year, mp);
    MonthOf(doy + 1, mp);
    MonthOf(doy + 1, mp + 1);
  }

  lemma NextAfterYear(year: int, doy: int)
    requires doy == if IsLeap(year + 1) then 365 else 364
    ensures NextDay(FromMarch(year, doy)) == FromMarch(year + 1, 0)
  {
    MonthOf(doy, 11);
    MonthLength(year, 11);
  }

  /** The February that ends a year of an era is a leap February exactly at the end of a four-year group
      that does not end a century, or at the end of the era. */
  lemma LeapInEra(e: EraDay, year: int)
    requires ValidEraDay(e) && year % 400 == 0
    ensures IsLeap(YearOfEra(e) + year + 1) <==> e.s == 3 && (e.q < 24 || e.c == 3)
  {
    var k := 100 * e.c + 4 * e.q + e.s + 1;
    var era := year / 400;
    Remainder4(100 * era, k);
    Remainder4(25 * e.c + e.q, e.s + 1);
    Remainder100(4 * era, k);
    Remainder100(e.c, 4 * e.q + e.s + 1);
    Remainder400(era, k);
    assert year == 400 * era;
  }

  lemma Remainder4(t: int, k: int)
    ensures (4 * t + k) % 4 == k % 4
  {
  }

  lemma Remainder100(t: int, k: int)
    ensures (100 * t + k) % 100 == k % 100
  {
  }

  lemma Remainder400(t: int, k: int)
    ensures (400 * t + k) % 400 == k % 400
  {
  }

  predicate LastOfYear(e: EraDay) {
    e.doy == if e.s == 3 && (e.q < 24 || e.c == 3) then 365 else 364
  }

  predicate LastOfEra(e: EraDay) {
    e.c == 3 && e.q == 24 && e.s == 3 && e.doy == 365
  }

  /** Day and year steps from `e` to the first day of the next year, `e'`, in the same era. */
  predicate BeginsNextYear(e: EraDay, e': EraDay) {
    ValidEraDay(e') && e'.doy == 0 && DayOfEra(e') == DayOfEra(e) + 1 && YearOfEra(e') == YearOfEra(e) + 1
  }

  lemma NextInGroup(e: EraDay)
    requires ValidEraDay(e) && LastOfYear(e) && e.s < 3
    ensures BeginsNextYear(e, EraDay(e.c, e.q, e.s + 1, 0))
  {
  }

  lemma NextGroup(e: EraDay)
    requires ValidEraDay(e) && LastOfYear(e) && e.s == 3 && e.q < 24
    ensures BeginsNextYear(e, EraDay(e.c, e.q + 1, 0, 0))
  {
  }

  lemma NextCentury(e: EraDay)
    requires ValidEraDay(e) && LastOfYear(e) && e.s == 3 && e.q == 24 && e.c < 3
    ensures BeginsNextYear(e, EraDay(e.c + 1, 0, 0, 0))
  {
  }

  lemma NextYear(e: EraDay) returns (e': EraDay)
    requires ValidEraDay(e) && LastOfYear(e) && !LastOfEra(e)
    ensures BeginsNextYear(e, e')
  {
    if e.s < 3 {
      NextInGroup(e);
      e' := EraDay(e.c, e.q, e.s + 1, 0);
    } else if e.q < 24 {
      NextGroup(e);
      e' := EraDay(e.c, e.q + 1, 0, 0);
    } else {
      NextCentury(e);
      e' := EraDay(e.c + 1, 0, 0, 0);
    }
  }

  lemma EraDateValid(year: int, e: EraDay)
    requires ValidEraDay(e) && year % 400 == 0
    ensures ValidDate(EraDate(year, e))
  {
    LeapInEra(e, year);
    FromMarchValid(YearOfEra(e) + year, e.doy);
  }

  lemma NextDayInYear(year: int, e: EraDay)
    requires ValidEraDay(e) && year % 400 == 0 && !LastOfYear(e)
    ensures NextDay(EraDate(year, e)) == EraDate(year, e.(doy := e.doy + 1))
  {
    LeapInEra(e, year);
    NextInYear(YearOfEra(e) + year, e.doy);
    NextEraDate(year, e, e.doy + 1);
  }

  lemma NextEraDate(year: int, e: EraDay, doy: int)
    ensures EraDate(year, e.(doy := doy)) == FromMarch(YearOfEra(e) + year, doy)
  {
  }

  lemma NextDayInNewYear(year: int, e: EraDay)
    requires ValidEraDay(e) && year % 400 == 0 && LastOfYear(e)
    ensures NextDay(EraDate(year, e)) == FromMarch(YearOfEra(e) + year + 1, 0)
  {
    LeapInEra(e, year);
    NextAfterYear(YearOfEra(e) + year, e.doy);
  }

  /** The day behind any but the last day of an era, and its date. */
  lemma NextInEra(year: int, e: EraDay) returns (e': EraDay)
    requires year % 400 == 0 && ValidEraDay(e) && !LastOfEra(e)
    ensures ValidEraDay(e') && DayOfEra(e') == DayOfEra(e) + 1 && NextDay(EraDate(year, e)) == EraDate(year, e')
  {
    if LastOfYear(e) {
      e' := NextYear(e);
      NextDayInNewYear(year, e);
    } else {
      e' := e.(doy := e.doy + 1);
      NextDayInYear(year, e);
    }
  }

  lemma SplitEra(doe: nat) returns (e: EraDay)
    requires doe < 146097
    ensures ValidEraDay(e) && doe == DayOfEra(e) && (LastOfEra(e) <==> doe == 146096)
  {
    var c := if doe == 146096 then 3 else doe / 36524;
    var r := doe - 36524 * c;
    var q := r / 1461;
    var t := r - 1461 * q;
    var s := if t == 1460 then 3 else t / 365;
    e := EraDay(c, q, s, t - 365 * s);
  }

  /** The day number `n` is day `doe` of the era numbered `era`, whose first year is `year`. */
  predicate InEra(n: nat, era: nat, year: nat, doe: nat) {
    n + 719468 == era * 146097 + doe && doe < 146097 && year == era * 400
  }

  lemma CivilAt(n: nat, era: nat, year: nat, doe: nat, e: EraDay)
    requires InEra(n, era, year, doe) && ValidEraDay(e) && doe == DayOfEra(e)
    ensures year % 400 == 0 && Civil(n) == EraDate(year, e)
  {
    CivilBy(n, era, doe);
    CivilInEraDate(era, doe, e);
  }

  lemma CivilBy(n: nat, era: nat, doe: nat)
    requires n + 719468 == era * 146097 + doe && doe < 146097
    ensures Civil(n) == CivilInEra(era, doe) && (era * 400) % 400 == 0
  {
    EraQuotient(n + 719468, era, doe);
  }

  lemma EraQuotient(z: nat, era: nat, doe: nat)
    requires z == era * 146097 + doe && doe < 146097
    ensures z / 146097 == era && z - era * 146097 == doe && (era * 400) % 400 == 0
  {
  }

  lemma EraOf(n: nat) returns (era: nat, year: nat, doe: nat)
    ensures InEra(n, era, year, doe)
  {
    era, doe := (n + 719468) / 146097, (n + 719468) % 146097;
    year := era * 400;
  }

  /** The next day number, in the same era or the next. */
  lemma NextInEras(n: nat, era: nat, year: nat, doe: nat) returns (era': nat, year': nat, doe': nat)
    requires InEra(n, era, year, doe)
    ensures InEra(n + 1, era', year', doe')
    ensures if doe == 146096 then year' == year + 400 && doe' == 0 else era' == era && year' == year && doe' == doe + 1
  {
    if doe == 146096 {
      era', year', doe' := era + 1, year + 400, 0;
    } else {
      era', year', doe' := era, year, doe + 1;
    }
  }

  lemma SameYear(y: int, y': int)
    requires y == y'
    ensures FromMarch(y, 0) == FromMarch(y', 0)
  {
  }

  lemma LastYear(e: EraDay)
    requires LastOfEra(e)
    ensures ValidEraDay(e) && LastOfYear(e) && YearOfEra(e) == 399
  {
  }

  /** The first day of the next era follows the last day of an era. */
  lemma TurnOfEra(year: int, e: EraDay)
    requires year % 400 == 0 && LastOfEra(e)
    ensures NextDay(EraDate(year, e)) == FromMarch(year + 400, 0)
  {
    LastYear(e);
    NextDayInNewYear(year, e);
    SameYear(YearOfEra(e) + year + 1, year + 400);
  }

  lemma CivilAtStart(n: nat, era: nat, year: nat)
    requires InEra(n, era, year, 0)
    ensures Civil(n) == FromMarch(year, 0)
  {
    EraQuotient(n + 719468, era, 0);
    CivilInEraBy(era, 0, 0, 0);
    CivilInYearDate(0 + era * 400, 0);
  }

  lemma NextPair(year: nat, doe: nat) returns (e: EraDay, e': EraDay)
    requires year % 400 == 0 && doe < 146096
    ensures ValidEraDay(e) && DayOfEra(e) == doe && ValidEraDay(e') && DayOfEra(e') == doe + 1
    ensures NextDay(EraDate(year, e)) == EraDate(year, e')
  {
    e := SplitEra(doe);
    e' := NextInEra(year, e);
  }

  lemma CivilNextInside(n: nat, era: nat, year: nat, doe: nat)
    requires InEra(n, era, year, doe) && InEra(n + 1, era, year, doe + 1)
    ensures Civil(n + 1) == NextDay(Civil(n))
  {
    var e, e' := PairInEra(n, era, year, doe);
    var t := CivilDate(n, era, year, doe, e);
    var t' := CivilDate(n + 1, era, year, doe + 1, e');
  }

  lemma PairInEra(n: nat, era: nat, year: nat, doe: nat) returns (e: EraDay, e': EraDay)
    requires InEra(n, era, year, doe) && doe < 146096
    ensures ValidEraDay(e) && DayOfEra(e) == doe && ValidEraDay(e') && DayOfEra(e') == doe + 1
    ensures NextDay(EraDate(year, e)) == EraDate(year, e')
  {
    EraQuotient(n + 719468, era, doe);
    e, e' := NextPair(year, doe);
  }

  lemma CivilDate(n: nat, era: nat, year: nat, doe: nat, e: EraDay) returns (t: Date)
    requires InEra(n, era, year, doe) && ValidEraDay(e) && doe == DayOfEra(e)
    ensures t == Civil(n) == EraDate(year, e)
  {
    CivilAt(n, era, year, doe, e);
    t := Civil(n);
  }

  lemma CivilNextTurn(n: nat, era: nat, year: nat, era': nat, year': nat)
    requires InEra(n, era, year, 146096) && InEra(n + 1, era', year', 0) && year' == year + 400
    ensures Civil(n + 1) == NextDay(Civil(n))
  {
    var e := SplitEra(146096);
    CivilAt(n, era, year, 146096, e);
    TurnOfEra(year, e);
    CivilAtStart(n + 1, era', year');
  }

  lemma CivilNext(n: nat)
    ensures Civil(n + 1) == NextDay(Civil(n))
  {
    var era, year, doe := EraOf(n);
    var era', year', doe' := NextInEras(n, era, year, doe);
    if doe == 146096 {
      CivilNextTurn(n, era, year, era', year');
    } else {
      CivilNextInside(n, era', year, doe);
    }
  }

  lemma CivilValid(n: nat)
    ensures ValidDate(Civil(n))
  {
    var era, year, doe := EraOf(n);
    var e := SplitEra(doe);
    CivilAt(n, era, year, doe, e);
    EraDateValid(year, e);
  }

  lemma CivilEpoch()
    ensures Civil(0) == Date(1970, 1, 1)
  {
    CivilAt(0, 4, 1600, 135080, EraDay(3, 17, 1, 306));
  }

  /** A sequence of dates that starts on 1 January 1970 and goes on day by day is the calendar's. */
  lemma {:induction false} CountedDates(f: nat -> Date, n: nat)
    requires f(0) == Date(1970, 1, 1) && forall k: nat :: f(k + 1) == NextDay(f(k))
    ensures f(n) == DateAfter(n)
  {
    if n > 0 {
      CountedDates(f, n - 1);
      assert f(n - 1 + 1) == NextDay(f(n - 1));
    }
  }

  /** For every day number the computed date is the one the Gregorian calendar counts to. */
  lemma CivilIsGregorian(n: nat)
    ensures Civil(n) == DateAfter(n) && ValidDate(Civil(n))
  {
    var f := (k: nat) => Civil(k);
    CivilEpoch();
    CivilValid(n);
    forall k: nat ensures f(k + 1) == NextDay(f(k)) {
      CivilNext(k);
    }
    CountedDates(f, n);
  }

  // ----- counting days -----

  function DaysBeforeYear(y: int): int
    requires y >= 1970
    decreases y
  {
    if y == 1970 then 0 else DaysBeforeYear(y - 1) + (if IsLeap(y - 1) then 366 else 365)
  }

  function DaysBeforeMonth(y: int, m: int): int
    requires 1 <= m <= 13
    decreases m
  {
    if m == 1 then 0 else DaysBeforeMonth(y, m - 1) + DaysIn(y, m - 1)
  }

  /** Days from 1 January 1970 to a date. */
  function DayNumber(t: Date): int
    requires ValidDate(t) && t.y >= 1970
  {
    DaysBeforeYear(t.y) + DaysBeforeMonth(t.y, t.m) + t.d - 1
  }

  lemma YearLength(y: int)
    ensures DaysBeforeMonth(y, 13) == if IsLeap(y) then 366 else 365
  {
    assert DaysBeforeMonth(y, 3) == 31 + DaysIn(y, 2);
    assert DaysBeforeMonth(y, 5) == 31 + DaysIn(y, 2) + 61;
    assert DaysBeforeMonth(y, 7) == 31 + DaysIn(y, 2) + 122;
    assert DaysBeforeMonth(y, 9) == 31 + DaysIn(y, 2) + 184;
    assert DaysBeforeMonth(y, 11) == 31 + DaysIn(y, 2) + 245;
  }

  lemma NextIsCounted(t: Date)
    requires ValidDate(t) && t.y >= 1970
    ensures ValidDate(NextDay(t)) && DayNumber(NextDay(t)) == DayNumber(t) + 1
  {
    YearLength(t.y);
    MonthLonger(t.y, t.m);
  }

  lemma MonthLonger(y: int, m: int)
    requires 1 <= m <= 12
    ensures DaysBeforeMonth(y, m + 1) == DaysBeforeMonth(y, m) + DaysIn(y, m)
  {
  }

  lemma {:induction false} DateAfterCounts(n: nat)
    ensures ValidDate(DateAfter(n)) && DateAfter(n).y >= 1970 && DayNumber(DateAfter(n)) == n
  {
    if n == 0 {
      assert DayNumber(Date(1970, 1, 1)) == 0;
    } else {
      DateAfterCounts(n - 1);
      NextIsCounted(DateAfter(n - 1));
    }
  }

  /** The computed date is the one with that day number. */
  lemma CivilCounts(n: nat)
    ensures ValidDate(Civil(n)) && Civil(n).y >= 1970 && DayNumber(Civil(n)) == n
  {
    CivilIsGregorian(n);
    DateAfterCounts(n);
  }

  function DayBefore(t: Date): Date {
    if t.d > 1 then t.(d := t.d - 1)
    else if t.m > 1 then Date(t.y, t.m - 1, DaysIn(t.y, t.m - 1))
    else Date(t.y - 1, 12, 31)
  }

  lemma {:induction false} DayNumberNonNegative(y: int, m: int)
    requires y >= 1970 && 1 <= m <= 13
    ensures DaysBeforeYear(y) >= 0 && DaysBeforeMonth(y, m) >= 0
    decreases y, m
  {
    if y > 1970 { DayNumberNonNegative(y - 1, 13); }
    if m > 1 { DayNumberNonNegative(y, m - 1); }
  }

  lemma {:induction false} DateAfterInverts(t: Date)
    requires ValidDate(t) && t.y >= 1970
    ensures DayNumber(t) >= 0 && DateAfter(DayNumber(t)) == t
    decreases t.y, t.m, t.d
  {
    DayNumberNonNegative(t.y, t.m);
    if t != Date(1970, 1, 1) {
      var b := DayBefore(t);
      assert ValidDate(b) && b.y >= 1970 && NextDay(b) == t;
      DateAfterInverts(b);
      NextIsCounted(b);
    }
  }

  /** The other way round: every date from 1970 on is computed back from its day number. */
  lemma CivilInverts(t: Date)
    requires ValidDate(t) && t.y >= 1970
    ensures DayNumber(t) >= 0 && Civil(DayNumber(t)) == t
  {
    DateAfterInverts(t);
    CivilIsGregorian(DayNumber(t));
  }

  // ----- the text -----

  function Digit(v: int): byte
    requires v >= 0
  {
    48 + v % 10
  }

  function Digits2(v: int): seq<byte>
    requires v >= 0
  {
    [Digit(v / 10), Digit(v)]
  }

  function Digits4(v: int): seq<byte>
    requires v >= 0
  {
    [Digit(v / 1000), Digit(v / 100), Digit(v / 10), Digit(v)]
  }

  /** `YYYY-MM-DD HH:MM:SS`. */
  function DateTimeText(t: Date, hours: nat, minutes: nat, secs: nat): seq<byte>
    requires t.y >= 0 && ValidDate(t)
  {
    Digits4(t.y) + ['-' as byte] + Digits2(t.m) + ['-' as byte] + Digits2(t.d) + [' ' as byte]
    + Digits2(hours) + [':' as byte] + Digits2(minutes) + [':' as byte] + Digits2(secs)
  }

  /** Decimal digits that stand for a number. */
  predicate Reads(s: seq<byte>, n: int) {
    (forall b | b in s :: Decimal.IsDigit(b)) && Decimal.Value(s) == n
  }

  lemma ReadMore(s: seq<byte>, n: int, b: byte)
    requires Reads(s, n) && Decimal.IsDigit(b)
    ensures Reads(s + [b], 10 * n + (b as int - 48))
  {
    assert (s + [b])[..|s|] == s;
  }

  lemma Digits2Read(v: int)
    requires 0 <= v < 100
    ensures Reads(Digits2(v), v)
  {
    ReadMore([], 0, Digit(v / 10));
    ReadMore([] + [Digit(v / 10)], v / 10, Digit(v));
    assert [] + [Digit(v / 10)] + [Digit(v)] == Digits2(v);
  }

  lemma Digits4Read(v: int)
    requires 0 <= v < 10000
    ensures Reads(Digits4(v), v)
  {
    var a, b, c := v / 1000, v / 100, v / 10;
    assert b == 10 * a + b % 10 && c == 10 * b + c % 10 && v == 10 * c + v % 10;
    ReadMore([], 0, Digit(a));
    ReadMore([] + [Digit(a)], a, Digit(b));
    ReadMore([] + [Digit(a)] + [Digit(b)], b, Digit(c));
    ReadMore([] + [Digit(a)] + [Digit(b)] + [Digit(c)], c, Digit(v));
    assert [] + [Digit(a)] + [Digit(b)] + [Digit(c)] + [Digit(v)] == Digits4(v);
  }

  /** Nineteen characters that show a date and a time of day as `YYYY-MM-DD HH:MM:SS`. */
  predicate Shows(s: seq<byte>, t: Date, hours: nat, minutes: nat, secs: nat) {
    |s| == 19 && Separators(s)
    && Reads(s[0..4], t.y) && Reads(s[5..7], t.m) && Reads(s[8..10], t.d)
    && Reads(s[11..13], hours) && Reads(s[14..16], minutes) && Reads(s[17..19], secs)
  }

  lemma TextShows(t: Date, hours: nat, minutes: nat, secs: nat)
    requires 0 <= t.y < 10000 && ValidDate(t) && hours < 100 && minutes < 100 && secs < 100
    ensures Shows(DateTimeText(t, hours, minutes, secs), t, hours, minutes, secs)
  {
    Digits4Read(t.y);
    Digits2Read(t.m);
    Digits2Read(t.d);
    Digits2Read(hours);
    Digits2Read(minutes);
    Digits2Read(secs);
    Fields(Digits4(t.y), Digits2(t.m), Digits2(t.d), Digits2(hours), Digits2(minutes), Digits2(secs));
  }

  lemma Fields(y: seq<byte>, m: seq<byte>, d: seq<byte>, h: seq<byte>, mi: seq<byte>, s: seq<byte>)
    requires |y| == 4 && |m| == |d| == |h| == |mi| == |s| == 2
    ensures var date := y + ['-' as byte] + m + ['-' as byte] + d;
            var r := date + [' ' as byte] + h + [':' as byte] + mi + [':' as byte] + s;
            |r| == 19 && Separators(r) && r[0..4] == y && r[5..7] == m && r[8..10] == d
            && r[11..13] == h && r[14..16] == mi && r[17..19] == s
  {
  }

  method WriteDigits2(out: array<byte>, at: nat, val: u32)
    requires at + 2 <= out.Length && val < 100
    modifies out
    ensures out[..] == Overwrite(old(out[..]), at, Digits2(val)) && Reads(out[at..at + 2], val)
  {
    Digits2Read(val);
    var prod := Div10(val);
    out[at + 1] := 48 + (val - prod * 10);
    out[at] := 48 + prod;
    assert out[at..at + 2] == Digits2(val);
  }

  /** Text with the digits `d` written at `at`. */
  function Overwrite(s: seq<byte>, at: nat, d: seq<byte>): (r: seq<byte>)
    requires at + |d| <= |s|
    ensures |r| == |s|
    ensures forall i :: 0 <= i < |s| ==> r[i] == if at <= i < at + |d| then d[i - at] else s[i]
  {
    seq(|s|, i requires 0 <= i < |s| => if at <= i < at + |d| then d[i - at] else s[i])
  }

  method WriteDigits4(out: array<byte>, at: nat, val: u32)
    requires at + 4 <= out.Length
    modifies out
    ensures out[..] == Overwrite(old(out[..]), at, Digits4(val)) && (val < 10000 ==> Reads(out[at..at + 4], val))
  {
    Tenths(val);
    ghost var was := out[..];
    var prod := WriteDigit(out, at + 3, val);
    prod := WriteDigit(out, at + 2, prod);
    prod := WriteDigit(out, at + 1, prod);
    prod := WriteDigit(out, at, prod);
    FourWritten(was, at, val);
    if val < 10000 {
      Digits4Read(val);
      assert out[at..at + 4] == out[..][at..at + 4] == Digits4(val);
    }
  }

  /** One digit, and the quotient for the next. */
  method WriteDigit(out: array<byte>, at: nat, val: u32) returns (prod: u32)
    requires at < out.Length
    modifies out
    ensures prod == val / 10 && out[..] == old(out[..])[at := Digit(val)]
  {
    prod := Div10(val);
    out[at] := 48 + (val - prod * 10);
  }

  lemma FourWritten(was: seq<byte>, at: nat, val: nat)
    requires at + 4 <= |was|
    ensures was[at + 3 := Digit(val)][at + 2 := Digit(val / 10)][at + 1 := Digit(val / 100)][at := Digit(val / 1000)]
         == Overwrite(was, at, Digits4(val))
  {
  }

  lemma Tenths(v: nat)
    ensures v / 10 / 10 == v / 100 && v / 100 / 10 == v / 1000
  {
  }

  lemma YearFits(days: nat)
    requires days < 0x1_0000_0000 / 86400 + 1
    ensures 0 <= Civil(days).y < 10000
  {
    var era, year, doe := EraOf(days);
    var e := SplitEra(doe);
    CivilAt(days, era, year, doe, e);
  }

  method WriteDate(out: array<byte>, days: nat)
    requires out.Length >= 19 && days < 0x1_0000_0000 / 86400 + 1
    modifies out
    ensures var t := DateAfter(days);
            ValidDate(t) && 0 <= t.y
            && out[..]
               == Overwrite(Overwrite(Overwrite(old(out[..]), 0, Digits4(t.y)), 5, Digits2(t.m)), 8, Digits2(t.d))
  {
    CivilIsGregorian(days);
    YearFits(days);
    var t := Civil(days);
    WriteDigits4(out, 0, t.y);
    WriteDigits2(out, 5, t.m);
    WriteDigits2(out, 8, t.d);
  }

  method WriteTime(out: array<byte>, secsOfDay: u32)
    requires out.Length >= 19 && secsOfDay < 86400
    modifies out
    ensures out[..] == Overwrite(Overwrite(Overwrite(old(out[..]), 11, Digits2(secsOfDay / 3600)),
                                           14, Digits2(secsOfDay % 3600 / 60)),
                                 17, Digits2(secsOfDay % 60))
  {
    var hours := Div3600(secsOfDay);
    var hourRest := secsOfDay - hours * 3600;
    var minutes := Div60(hourRest);
    var secs := hourRest - minutes * 60;
    Minutes(secsOfDay, hours);
    WriteDigits2(out, 11, hours);
    WriteDigits2(out, 14, minutes);
    WriteDigits2(out, 17, secs);
  }

  lemma Minutes(s: nat, hours: nat)
    requires hours == s / 3600
    ensures s - hours * 3600 == s % 3600 && (s % 3600) - s % 3600 / 60 * 60 == s % 60
  {
    assert s % 3600 % 60 == s % 60 by {
      assert s == 60 * (60 * hours + s % 3600 / 60) + s % 3600 % 60;
    }
  }

  /** `cg_datetime_str_get` at the given second: a buffer that holds the separators shows the Gregorian date and the
      time of day, and nothing behind the text changes. */
  method DateTimeStrGet(out: array<byte>, seconds: u32)
    requires out.Length >= 19
    modifies out
    ensures out[19..] == old(out[19..]) && ValidDate(DateAfter(seconds / 86400))
    ensures Separators(old(out[..])) ==>
              Shows(out[..19], DateAfter(seconds / 86400), seconds % 86400 / 3600, seconds % 3600 / 60, seconds % 60)
  {
    ghost var was := out[..];
    var days := Div86400(seconds);
    WriteDate(out, days);
    var s := seconds - days * 86400;
    WriteTime(out, s);
    ghost var t := DateAfter(days);
    Assembled(was, Digits4(t.y), Digits2(t.m), Digits2(t.d), Digits2(s / 3600), Digits2(s % 3600 / 60),
        Digits2(s % 60));
    assert out[19..] == out[..][19..];
    TimeOfDay(seconds, s);
    CivilIsGregorian(days);
    YearFits(days);
    TextShows(t, s / 3600, s % 3600 / 60, s % 60);
  }

  lemma TimeOfDay(seconds: nat, s: nat)
    requires s == seconds - seconds / 86400 * 86400
    ensures s == seconds % 86400 && s % 3600 == seconds % 3600 && s % 60 == seconds % 60
  {
    var days := seconds / 86400;
    RemainderOfHour(seconds, days, s, s / 3600, s % 3600);
    RemainderOfMinute(seconds, days, s, s / 60, s % 60);
  }

  lemma RemainderOfHour(seconds: nat, days: nat, s: nat, hours: nat, rest: nat)
    requires seconds == days * 86400 + s && s == hours * 3600 + rest && rest < 3600
    ensures seconds % 3600 == rest
  {
    assert seconds == (days * 24 + hours) * 3600 + rest;
  }

  lemma RemainderOfMinute(seconds: nat, days: nat, s: nat, minutes: nat, rest: nat)
    requires seconds == days * 86400 + s && s == minutes * 60 + rest && rest < 60
    ensures seconds % 60 == rest
  {
    assert seconds == (days * 1440 + minutes) * 60 + rest;
  }

  /** The six fields fill the buffer around its separators. */
  lemma Assembled(was: seq<byte>, y: seq<byte>, m: seq<byte>, d: seq<byte>, h: seq<byte>, mi: seq<byte>, s: seq<byte>)
    requires |was| >= 19 && |y| == 4 && |m| == |d| == |h| == |mi| == |s| == 2
    ensures var date := Overwrite(Overwrite(Overwrite(was, 0, y), 5, m), 8, d);
            var r := Overwrite(Overwrite(Overwrite(date, 11, h), 14, mi), 17, s);
            r[19..] == was[19..]
            && r[..19] == y + [was[4]] + m + [was[7]] + d + [was[10]] + h + [was[13]] + mi + [was[16]] + s
  {
  }

  /** The punctuation that `cg_main_init` puts into the timestamp buffer. */
  predicate Separators(s: seq<byte>) {
    |s| >= 19 && s[4] == s[7] == '-' as byte && s[10] == ' ' as byte && s[13] == s[16] == ':' as byte
  }
}
