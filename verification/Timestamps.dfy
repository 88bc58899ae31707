/** Timestamps as Authority reads them: two grammars of section 5.6 of RFC 3339,
    and instants compared as whole seconds and then digit strings. */
module Timestamps {
  import opened Results
  import opened Ordering

  // ---------------------------------------------------------------- digits

  predicate IsDigit(c: char) { '0' <= c <= '9' }

  predicate AllDigits(s: string) { forall i :: 0 <= i < |s| ==> IsDigit(s[i]) }

  function DigitValue(c: char): (d: nat)
    requires IsDigit(c)
    ensures d < 10
  {
    c as int - '0' as int
  }

  function Number(s: string): nat
    requires AllDigits(s)
  {
    if s == "" then 0 else 10 * Number(s[..|s| - 1]) + DigitValue(s[|s| - 1])
  }

  lemma {:induction false} EqualNumbersEqualDigits(a: string, b: string)
    requires AllDigits(a) && AllDigits(b) && |a| == |b| && Number(a) == Number(b)
    ensures a == b
  {
    if a != "" {
      var n := |a| - 1;
      EqualNumbersEqualDigits(a[..n], b[..n]);
      assert a == a[..n] + [a[n]] && b == b[..n] + [b[n]];
    }
  }

  /** `rstrip("0")`. */
  function Trimmed(s: string): string {
    if s == "" || s[|s| - 1] != '0' then s else Trimmed(s[..|s| - 1])
  }

  predicate IsTrimmed(s: string) { s == "" || s[|s| - 1] != '0' }

  // ---------------------------------------------------------------- the calendar

  datatype Civil = Civil(year: nat, month: nat, day: nat, hour: nat, minute: nat, second: nat)

  predicate IsLeap(year: nat) { year % 4 == 0 && (year % 100 != 0 || year % 400 == 0) }

  function MonthLength(year: nat, month: nat): nat {
    if month == 2 then if IsLeap(year) then 29 else 28
    else if month in {4, 6, 9, 11} then 30
    else 31
  }

  predicate IsCivil(c: Civil) {
    && 1 <= c.year <= 9999 && 1 <= c.month <= 12 && 1 <= c.day <= MonthLength(c.year, c.month)
    && c.hour < 24 && c.minute < 60 && c.second < 60
  }

  /** The days of the year's months before `month`. */
  function DaysBeforeMonth(year: nat, month: nat): nat {
    if month <= 1 then 0 else DaysBeforeMonth(year, month - 1) + MonthLength(year, month - 1)
  }

  function DaysBeforeYear(year: nat): nat {
    if year <= 1 then 0 else DaysBeforeYear(year - 1) + DaysBeforeMonth(year - 1, 13)
  }

  /** The days before the first of January 1970. */
  const EPOCH_DAYS := 719162

  function DayNumber(c: Civil): int {
    DaysBeforeYear(c.year) + DaysBeforeMonth(c.year, c.month) + c.day - 1 - EPOCH_DAYS
  }

  function TimeOfDay(c: Civil): nat { 3600 * c.hour + 60 * c.minute + c.second }

  /** Seconds since the start of 1970 of a civil time read in UTC. */
  function SecondsOf(c: Civil): int { 86400 * DayNumber(c) + TimeOfDay(c) }

  predicate DateBefore(a: Civil, b: Civil) {
    a.year < b.year || (a.year == b.year && (a.month < b.month || (a.month == b.month && a.day < b.day)))
  }

  predicate SameDate(a: Civil, b: Civil) { a.year == b.year && a.month == b.month && a.day == b.day }

  /** Field by field, most significant first. */
  predicate Earlier(a: Civil, b: Civil) {
    || DateBefore(a, b)
    || (SameDate(a, b) &&
       (a.hour < b.hour || (a.hour == b.hour &&
         (a.minute < b.minute || (a.minute == b.minute && a.second < b.second)))))
  }

  lemma {:induction false} MonthsAddUp(year: nat, m: nat, n: nat)
    requires 1 <= m < n
    ensures DaysBeforeMonth(year, m) + MonthLength(year, m) <= DaysBeforeMonth(year, n)
  {
    if m + 1 < n { MonthsAddUp(year, m, n - 1); }
  }

  lemma {:induction false} YearsAddUp(y: nat, z: nat)
    requires 1 <= y < z
    ensures DaysBeforeYear(y) + DaysBeforeMonth(y, 13) <= DaysBeforeYear(z)
  {
    if y + 1 < z { YearsAddUp(y, z - 1); }
  }

  const DAYS_BEFORE_MONTH := [0, 31, 59, 90, 120, 151, 181, 212, 243, 273, 304, 334]

  lemma MonthsBefore(year: nat, month: nat)
    requires 1 <= month <= 12
    ensures DaysBeforeMonth(year, month) ==
            DAYS_BEFORE_MONTH[month - 1] + if month > 2 && IsLeap(year) then 1 else 0
  {
    var february := MonthLength(year, 2);
    assert DaysBeforeMonth(year, 2) == 31;
    assert DaysBeforeMonth(year, 3) == 31 + february;
    assert DaysBeforeMonth(year, 4) == 62 + february;
    assert DaysBeforeMonth(year, 5) == 92 + february;
    assert DaysBeforeMonth(year, 6) == 123 + february;
    assert DaysBeforeMonth(year, 7) == 153 + february;
    assert DaysBeforeMonth(year, 8) == 184 + february;
    assert DaysBeforeMonth(year, 9) == 215 + february;
    assert DaysBeforeMonth(year, 10) == 245 + february;
    assert DaysBeforeMonth(year, 11) == 276 + february;
    assert DaysBeforeMonth(year, 12) == 306 + february;
  }

  lemma YearHasItsDays(year: nat)
    ensures DaysBeforeMonth(year, 13) == if IsLeap(year) then 366 else 365
  {
    MonthsBefore(year, 12);
  }

  lemma FourthYears(n: nat)
    requires n >= 1
    ensures n / 4 == (n - 1) / 4 + if n % 4 == 0 then 1 else 0
  {
  }

  lemma HundredthYears(n: nat)
    requires n >= 1
    ensures n / 100 == (n - 1) / 100 + if n % 100 == 0 then 1 else 0
    ensures n % 100 == 0 ==> n % 4 == 0
  {
  }

  lemma FourHundredthYears(n: nat)
    requires n >= 1
    ensures n / 400 == (n - 1) / 400 + if n % 400 == 0 then 1 else 0
    ensures n % 400 == 0 ==> n % 100 == 0
  {
  }

  lemma LeapDays(n: nat)
    requires n >= 1
    ensures n / 4 - n / 100 + n / 400 == (n - 1) / 4 - (n - 1) / 100 + (n - 1) / 400 + if IsLeap(n) then 1 else 0
  {
    FourthYears(n);
    HundredthYears(n);
    FourHundredthYears(n);
  }

  function ClosedForm(y: int): int { 365 * (y - 1) + (y - 1) / 4 - (y - 1) / 100 + (y - 1) / 400 }

  lemma ClosedFormStep(y: nat)
    requires y >= 2
    ensures ClosedForm(y) == ClosedForm(y - 1) + if IsLeap(y - 1) then 366 else 365
  {
    LeapDays(y - 1);
  }

  lemma {:induction false} YearsInClosedForm(y: nat)
    requires y >= 1
    ensures DaysBeforeYear(y) == ClosedForm(y)
  {
    if y > 1 {
      YearsInClosedForm(y - 1);
      YearHasItsDays(y - 1);
      ClosedFormStep(y);
    }
  }

  /** Day zero is the first of January of the year whose days before it are
      EPOCH_DAYS, which is 1970. */
  lemma EpochIsDayZero(c: Civil)
    requires 1 <= c.year && c.month == 1 && c.day == 1
    ensures DayNumber(c) == ClosedForm(c.year) - EPOCH_DAYS
    ensures ClosedForm(1970) == EPOCH_DAYS
  {
    YearsInClosedForm(c.year);
  }

  lemma LaterDateLaterDay(a: Civil, b: Civil)
    requires IsCivil(a) && IsCivil(b) && DateBefore(a, b)
    ensures DayNumber(a) < DayNumber(b)
  {
    if a.year < b.year {
      YearsAddUp(a.year, b.year);
      MonthsAddUp(a.year, a.month, 13);
    } else if a.month < b.month {
      MonthsAddUp(a.year, a.month, b.month);
    }
  }

  lemma LaterDayLaterSecond(d: int, e: int, t: nat, u: nat)
    requires d < e && t < 86400
    ensures 86400 * d + t < 86400 * e + u
  {
  }

  lemma TimeOfDayOrder(a: Civil, b: Civil)
    requires IsCivil(a) && IsCivil(b)
    ensures TimeOfDay(a) < 86400
    ensures SameDate(a, b) && Earlier(a, b) ==> TimeOfDay(a) < TimeOfDay(b)
  {
  }

  /** The count of seconds is strictly monotone in civil time. */
  lemma SecondsAreMonotone(a: Civil, b: Civil)
    requires IsCivil(a) && IsCivil(b) && Earlier(a, b)
    ensures SecondsOf(a) < SecondsOf(b)
  {
    TimeOfDayOrder(a, b);
    if DateBefore(a, b) {
      LaterDateLaterDay(a, b);
      LaterDayLaterSecond(DayNumber(a), DayNumber(b), TimeOfDay(a), TimeOfDay(b));
    } else {
      assert DayNumber(a) == DayNumber(b);
    }
  }

  lemma SecondsAreInjective(a: Civil, b: Civil)
    requires IsCivil(a) && IsCivil(b) && SecondsOf(a) == SecondsOf(b)
    ensures a == b
  {
    if Earlier(a, b) { SecondsAreMonotone(a, b); }
    if Earlier(b, a) { SecondsAreMonotone(b, a); }
  }

  // ---------------------------------------------------------------- instants

  /** Fraction digits carry no trailing zero. */
  datatype Instant = Instant(secondsSinceEpoch: int, fractionDigits: string)

  predicate IsInstant(i: Instant) { AllDigits(i.fractionDigits) && IsTrimmed(i.fractionDigits) }

  /** Field order: whole seconds, then the digit strings by code point. */
  predicate NotAfter(a: Instant, b: Instant) {
    || a.secondsSinceEpoch < b.secondsSinceEpoch
    || (a.secondsSinceEpoch == b.secondsSinceEpoch && StringLe(a.fractionDigits, b.fractionDigits))
  }

  /** The fraction 0.s as a number. */
  ghost function Fraction(s: string): real
    requires AllDigits(s)
  {
    if s == "" then 0.0 else (DigitValue(s[0]) as real + Fraction(s[1..])) / 10.0
  }

  /** The time an instant names, in seconds. */
  ghost function Time(i: Instant): real
    requires AllDigits(i.fractionDigits)
  {
    i.secondsSinceEpoch as real + Fraction(i.fractionDigits)
  }

  lemma {:induction false} FractionIsProper(s: string)
    requires AllDigits(s)
    ensures 0.0 <= Fraction(s) < 1.0
    ensures IsTrimmed(s) && s != "" ==> Fraction(s) > 0.0
  {
    if s != "" {
      FractionIsProper(s[1..]);
    }
  }

  /** On trimmed digit strings of any length, code-point order is numeric order. */
  lemma {:induction false} DigitOrderIsNumeric(a: string, b: string)
    requires AllDigits(a) && AllDigits(b) && IsTrimmed(a) && IsTrimmed(b)
    ensures StringLe(a, b) <==> Fraction(a) <= Fraction(b)
    ensures a == b <==> Fraction(a) == Fraction(b)
  {
    FractionIsProper(a);
    FractionIsProper(b);
    if a != "" && b != "" {
      FractionIsProper(a[1..]);
      FractionIsProper(b[1..]);
      assert a == [a[0]] + a[1..] && b == [b[0]] + b[1..];
      if a[0] == b[0] { DigitOrderIsNumeric(a[1..], b[1..]); }
    }
  }

  /** Instants are ordered exactly as the times they name, to any precision, and
      equal exactly when they name the same time. */
  lemma InstantOrderIsNumeric(a: Instant, b: Instant)
    requires IsInstant(a) && IsInstant(b)
    ensures NotAfter(a, b) <==> Time(a) <= Time(b)
    ensures a == b <==> Time(a) == Time(b)
  {
    FractionIsProper(a.fractionDigits);
    FractionIsProper(b.fractionDigits);
    DigitOrderIsNumeric(a.fractionDigits, b.fractionDigits);
  }

  lemma {:induction false} TrailingZeroIsNothing(s: string)
    requires AllDigits(s)
    ensures Fraction(s + "0") == Fraction(s)
  {
    if s == "" {
      assert ("" + "0")[1..] == "";
    } else {
      assert (s + "0")[1..] == s[1..] + "0";
      TrailingZeroIsNothing(s[1..]);
    }
  }

  lemma {:induction false} TrimmingKeepsValue(s: string)
    requires AllDigits(s)
    ensures AllDigits(Trimmed(s)) && IsTrimmed(Trimmed(s))
    ensures Fraction(Trimmed(s)) == Fraction(s)
    ensures IsTrimmed(s) ==> Trimmed(s) == s
  {
    if s != "" && s[|s| - 1] == '0' {
      var n := |s| - 1;
      assert s == s[..n] + "0";
      TrailingZeroIsNothing(s[..n]);
      TrimmingKeepsValue(s[..n]);
    }
  }

  // ---------------------------------------------------------------- the two grammars

  /** dddd-dd-ddTdd:dd:dd, the separator being one of `seps`. */
  predicate Layout(s: string, seps: set<char>) {
    && |s| == 19
    && AllDigits(s[0..4]) && s[4] == '-' && AllDigits(s[5..7]) && s[7] == '-' && AllDigits(s[8..10])
    && s[10] in seps
    && AllDigits(s[11..13]) && s[13] == ':' && AllDigits(s[14..16]) && s[16] == ':' && AllDigits(s[17..19])
  }

  /** Nothing, or a point and one or more digits. */
  predicate AnyFraction(s: string) { s == "" || (|s| >= 2 && s[0] == '.' && AllDigits(s[1..])) }

  /** Nothing, or a point and digits of which the last is not zero. */
  predicate CanonicalFraction(s: string) { AnyFraction(s) && (s == "" || s[|s| - 1] != '0') }

  /** A sign, an hour 00-23, a colon and a minute 00-59. */
  predicate NumericOffset(s: string) {
    && |s| == 6 && s[0] in {'+', '-'} && AllDigits(s[1..3]) && s[3] == ':' && AllDigits(s[4..6])
    && Number(s[1..3]) <= 23 && Number(s[4..6]) <= 59
  }

  predicate StoredGrammar(v: string) {
    && |v| >= 20 && Layout(v[..19], {'T'}) && v[|v| - 1] == 'Z' && CanonicalFraction(v[19..|v| - 1])
  }

  predicate TransientGrammar(v: string) {
    && |v| >= 20 && Layout(v[..19], {'T', 't'})
    && (if v[|v| - 1] in {'Z', 'z'} then AnyFraction(v[19..|v| - 1])
        else |v| >= 25 && NumericOffset(v[|v| - 6..]) && AnyFraction(v[19..|v| - 6]))
  }

  datatype TimeError = NotATimestamp

  function CivilOf(s: string): Civil
    requires Layout(s, {'T', 't'})
  {
    Civil(Number(s[0..4]), Number(s[5..7]), Number(s[8..10]), Number(s[11..13]), Number(s[14..16]), Number(s[17..19]))
  }

  /** The offset from UTC in minutes. */
  function OffsetMinutes(s: string): int
    requires NumericOffset(s)
  {
    (if s[0] == '-' then -1 else 1) * (60 * Number(s[1..3]) + Number(s[4..6]))
  }

  /** The digits of a fraction text without its point. */
  function FractionDigits(s: string): (digits: string)
    requires AnyFraction(s)
    ensures AllDigits(digits)
  {
    if s == "" then "" else s[1..]
  }

  function FractionText(v: string): string
    requires TransientGrammar(v)
  {
    if v[|v| - 1] in {'Z', 'z'} then v[19..|v| - 1] else v[19..|v| - 6]
  }

  function OffsetOf(v: string): int
    requires TransientGrammar(v)
  {
    if v[|v| - 1] in {'Z', 'z'} then 0 else OffsetMinutes(v[|v| - 6..])
  }

  function ReadInstant(v: string): (r: Result<Instant, TimeError>)
    requires TransientGrammar(v)
  {
    var c := CivilOf(v[..19]);
    if !IsCivil(c) then Err(NotATimestamp)
    else Ok(Instant(SecondsOf(c) - 60 * OffsetOf(v), Trimmed(FractionDigits(FractionText(v)))))
  }

  lemma StoredIsTransient(v: string)
    requires StoredGrammar(v)
    ensures TransientGrammar(v) && OffsetOf(v) == 0
  {
  }

  function StoredInstant(v: string): Result<Instant, TimeError> {
    if !StoredGrammar(v) then Err(NotATimestamp) else StoredIsTransient(v); ReadInstant(v)
  }

  function TransientInstant(v: string): Result<Instant, TimeError> {
    if !TransientGrammar(v) then Err(NotATimestamp) else ReadInstant(v)
  }

  /** The time a text names: its civil time less its offset, and its fraction as
      written, trailing zeros included. */
  ghost function NamedTime(v: string): real
    requires TransientGrammar(v)
  {
    (SecondsOf(CivilOf(v[..19])) - 60 * OffsetOf(v)) as real + Fraction(FractionDigits(FractionText(v)))
  }

  lemma ReadInstantIsExact(v: string)
    requires TransientGrammar(v) && IsCivil(CivilOf(v[..19]))
    ensures IsInstant(ReadInstant(v).value) && Time(ReadInstant(v).value) == NamedTime(v)
  {
    TrimmingKeepsValue(FractionDigits(FractionText(v)));
  }

  /** Reading a timestamp keeps the time it names, exactly, and every stored
      timestamp is a transient one naming the same instant. */
  lemma ReadingIsExact(v: string)
    ensures TransientInstant(v).Ok? <==> TransientGrammar(v) && IsCivil(CivilOf(v[..19]))
    ensures TransientInstant(v).Ok? ==>
            IsInstant(TransientInstant(v).value) && Time(TransientInstant(v).value) == NamedTime(v)
    ensures StoredInstant(v).Ok? ==> StoredInstant(v) == TransientInstant(v)
  {
    if StoredGrammar(v) { StoredIsTransient(v); }
    if TransientGrammar(v) && IsCivil(CivilOf(v[..19])) { ReadInstantIsExact(v); }
  }

  /** Two admitted timestamps, stored or supplied, compare as the times they name. */
  lemma ComparisonIsExact(v: string, w: string)
    requires TransientInstant(v).Ok? && TransientInstant(w).Ok?
    ensures NotAfter(TransientInstant(v).value, TransientInstant(w).value) <==> NamedTime(v) <= NamedTime(w)
    ensures TransientInstant(v) == TransientInstant(w) <==> NamedTime(v) == NamedTime(w)
  {
    ReadingIsExact(v);
    ReadingIsExact(w);
    InstantOrderIsNumeric(TransientInstant(v).value, TransientInstant(w).value);
  }

  // ---------------------------------------------------------------- one spelling per stored instant

  lemma SameCivilSameText(a: string, b: string)
    requires Layout(a, {'T'}) && Layout(b, {'T'}) && CivilOf(a) == CivilOf(b)
    ensures a == b
  {
    EqualNumbersEqualDigits(a[0..4], b[0..4]);
    EqualNumbersEqualDigits(a[5..7], b[5..7]);
    EqualNumbersEqualDigits(a[8..10], b[8..10]);
    EqualNumbersEqualDigits(a[11..13], b[11..13]);
    EqualNumbersEqualDigits(a[14..16], b[14..16]);
    EqualNumbersEqualDigits(a[17..19], b[17..19]);
    LayoutRebuilds(a);
    LayoutRebuilds(b);
  }

  lemma LayoutRebuilds(a: string)
    requires Layout(a, {'T'})
    ensures a == a[0..4] + "-" + a[5..7] + "-" + a[8..10] + "T" + a[11..13] + ":" + a[14..16] + ":" + a[17..19]
  {
  }

  lemma SameDigitsSameFraction(a: string, b: string)
    requires CanonicalFraction(a) && CanonicalFraction(b) && FractionDigits(a) == FractionDigits(b)
    ensures a == b
  {
    if a != "" { assert a == ['.'] + a[1..]; }
    if b != "" { assert b == ['.'] + b[1..]; }
  }

  lemma StoredParts(v: string)
    requires StoredGrammar(v)
    ensures TransientGrammar(v) && CanonicalFraction(FractionText(v))
    ensures v == v[..19] + FractionText(v) + "Z"
    ensures Trimmed(FractionDigits(FractionText(v))) == FractionDigits(FractionText(v))
  {
    StoredIsTransient(v);
    TrimmingKeepsValue(FractionDigits(FractionText(v)));
  }

  lemma SameInstantSameParts(v: string, w: string)
    requires StoredGrammar(v) && StoredGrammar(w) && StoredInstant(v).Ok? && StoredInstant(v) == StoredInstant(w)
    ensures v[..19] == w[..19]
    ensures TransientGrammar(v) && TransientGrammar(w) && FractionText(v) == FractionText(w)
  {
    StoredParts(v);
    StoredParts(w);
    StoredIsTransient(v);
    StoredIsTransient(w);
    SecondsAreInjective(CivilOf(v[..19]), CivilOf(w[..19]));
    SameCivilSameText(v[..19], w[..19]);
    SameDigitsSameFraction(FractionText(v), FractionText(w));
  }

  /** Two stored timestamps that name the same time are the same text, so an
      instant has one address. */
  lemma StoredSpellingIsUnique(v: string, w: string)
    requires StoredInstant(v).Ok? && StoredInstant(w).Ok?
    requires TransientGrammar(v) && TransientGrammar(w) && NamedTime(v) == NamedTime(w)
    ensures v == w
  {
    ReadingIsExact(v);
    ReadingIsExact(w);
    ComparisonIsExact(v, w);
    SameInstantSameParts(v, w);
    StoredParts(v);
    StoredParts(w);
  }

  // ---------------------------------------------------------------- written out

  /** Where a clock stands: UTC by letter, or a signed number of hours and minutes. */
  datatype Zone = Utc(letter: char) | Offset(sign: char, hours: nat, minutes: nat)

  predicate IsZone(z: Zone) {
    match z
    case Utc(letter) => letter == 'Z' || letter == 'z'
    case Offset(sign, hours, minutes) => (sign == '+' || sign == '-') && hours <= 23 && minutes <= 59
  }

  function Digit(n: nat): (c: char)
    requires n < 10
    ensures IsDigit(c) && DigitValue(c) == n
  {
    ('0' as int + n) as char
  }

  function Two(n: nat): (s: string)
    requires n < 100
  {
    [Digit(n / 10), Digit(n % 10)]
  }

  function Four(n: nat): (s: string)
    requires n < 10000
  {
    Two(n / 100) + Two(n % 100)
  }

  function ZoneText(z: Zone): string
    requires IsZone(z)
  {
    match z
    case Utc(letter) => [letter]
    case Offset(sign, hours, minutes) => [sign] + Two(hours) + ":" + Two(minutes)
  }

  /** The minutes a zone is ahead of UTC. */
  function MinutesAhead(z: Zone): int {
    match z
    case Utc(_) => 0
    case Offset(sign, hours, minutes) => if sign == '-' then -(60 * hours + minutes) else 60 * hours + minutes
  }

  function DateTimeText(c: Civil, separator: char): string
    requires IsCivil(c)
  {
    MonthsAreShort(c);
    Four(c.year) + "-" + Two(c.month) + "-" + Two(c.day) + [separator]
    + Two(c.hour) + ":" + Two(c.minute) + ":" + Two(c.second)
  }

  function PointAndDigits(digits: string): string { if digits == "" then "" else "." + digits }

  /** The text of a civil time, a separator, fraction digits if any, and a zone. */
  function Rendered(c: Civil, separator: char, digits: string, z: Zone): string
    requires IsCivil(c) && IsZone(z)
  {
    DateTimeText(c, separator) + PointAndDigits(digits) + ZoneText(z)
  }

  lemma MonthsAreShort(c: Civil)
    requires IsCivil(c)
    ensures c.year < 10000 && c.month < 100 && c.day < 100
  {
  }

  lemma NumberOfTwo(s: string)
    requires |s| == 2 && AllDigits(s)
    ensures Number(s) == 10 * DigitValue(s[0]) + DigitValue(s[1])
    ensures Number(s) < 100 && Two(Number(s)) == s
  {
    assert s[..1][..0] == "" && s[..1] == [s[0]];
    assert Number(s[..1]) == 10 * Number("") + DigitValue(s[0]);
  }

  lemma NumberOfFour(s: string)
    requires |s| == 4 && AllDigits(s)
    ensures Number(s) == 100 * Number(s[..2]) + Number(s[2..])
    ensures Number(s) < 10000 && Four(Number(s)) == s
  {
    NumberOfTwo(s[..2]);
    NumberOfTwo(s[2..]);
    assert s[..3][..2] == s[..2] && s == s[..2] + s[2..];
    assert Number(s[..3]) == 10 * Number(s[..2]) + DigitValue(s[2]);
    Hundreds(Number(s[..2]), Number(s[2..]));
  }

  lemma Hundreds(a: nat, b: nat)
    requires b < 100
    ensures (100 * a + b) / 100 == a && (100 * a + b) % 100 == b
  {
  }

  lemma TwoReadsBack(n: nat)
    requires n < 100
    ensures |Two(n)| == 2 && AllDigits(Two(n)) && Number(Two(n)) == n
  {
    NumberOfTwo(Two(n));
  }

  lemma FourReadsBack(n: nat)
    requires n < 10000
    ensures |Four(n)| == 4 && AllDigits(Four(n)) && Number(Four(n)) == n
  {
    TwoReadsBack(n / 100);
    TwoReadsBack(n % 100);
    assert Four(n)[..2] == Two(n / 100) && Four(n)[2..] == Two(n % 100);
    NumberOfFour(Four(n));
  }

  lemma LayoutReadsBack(c: Civil, separator: char)
    requires IsCivil(c) && separator in {'T', 't'}
    ensures Writes(DateTimeText(c, separator), c, separator)
  {
    var layout := DateTimeText(c, separator);
    MonthsAreShort(c);
    FourReadsBack(c.year);
    TwoReadsBack(c.month);
    TwoReadsBack(c.day);
    TwoReadsBack(c.hour);
    TwoReadsBack(c.minute);
    TwoReadsBack(c.second);
    assert layout[0..4] == Four(c.year) && layout[5..7] == Two(c.month) && layout[8..10] == Two(c.day);
    assert layout[11..13] == Two(c.hour) && layout[14..16] == Two(c.minute) && layout[17..19] == Two(c.second);
  }

  lemma ZoneReadsBack(z: Zone)
    requires IsZone(z)
    ensures z.Offset? ==> NumericOffset(ZoneText(z)) && OffsetMinutes(ZoneText(z)) == MinutesAhead(z)
  {
    if z.Offset? {
      var t := ZoneText(z);
      TwoReadsBack(z.hours);
      TwoReadsBack(z.minutes);
      assert t[1..3] == Two(z.hours) && t[4..6] == Two(z.minutes);
    }
  }

  /** The two grammars take the text apart into these parts. */
  ghost predicate HasParts(v: string, layout: string, fraction: string, z: Zone)
    requires Layout(layout, {'T', 't'}) && AnyFraction(fraction)
  {
    && TransientGrammar(v) && v[..19] == layout && FractionText(v) == fraction && OffsetOf(v) == MinutesAhead(z)
    && (StoredGrammar(v) <==> layout[10] == 'T' && z == Utc('Z') && CanonicalFraction(fraction))
  }

  lemma PartsReadBack(layout: string, fraction: string, z: Zone)
    requires Layout(layout, {'T', 't'}) && AnyFraction(fraction) && IsZone(z)
    ensures HasParts(layout + fraction + ZoneText(z), layout, fraction, z)
  {
    var zone := ZoneText(z);
    var v := layout + fraction + zone;
    ZoneReadsBack(z);
    assert v[..19] == layout;
    match z
    case Utc(letter) =>
      assert v[|v| - 1] == letter && v[19..|v| - 1] == fraction;
    case Offset(_, _, _) =>
      assert IsDigit(zone[5]) && v[|v| - 1] == zone[5];
      assert v[|v| - 6..] == zone && v[19..|v| - 6] == fraction;
  }

  /** Every civil time between years 1 and 9999, written with either separator, any
      digits of a fraction and any zone, is admitted and read as the seconds it names
      and its digits; as a stored one only with a capital T and Z, and digits trimmed. */
  lemma RenderedReadsBack(c: Civil, separator: char, digits: string, z: Zone)
    requires IsCivil(c) && separator in {'T', 't'} && AllDigits(digits) && IsZone(z)
    ensures TransientInstant(Rendered(c, separator, digits, z)) ==
            Ok(Instant(SecondsOf(c) - 60 * MinutesAhead(z), Trimmed(digits)))
    ensures StoredInstant(Rendered(c, separator, digits, z)).Ok? <==>
            separator == 'T' && z == Utc('Z') && (digits == "" || digits[|digits| - 1] != '0')
  {
    LayoutReadsBack(c, separator);
    FractionReadsBack(digits);
    WrittenReadsBack(DateTimeText(c, separator), c, PointAndDigits(digits), digits, z);
  }

  ghost predicate Writes(layout: string, c: Civil, separator: char) {
    Layout(layout, {'T', 't'}) && layout[10] == separator && CivilOf(layout) == c
  }

  /** The text is read as these seconds and digits, and is a stored one or not. */
  ghost predicate ReadsAs(v: string, seconds: int, digits: string, stored: bool) {
    && TransientInstant(v) == Ok(Instant(seconds, Trimmed(digits)))
    && (StoredInstant(v).Ok? <==> stored)
  }

  lemma WrittenReadsBack(layout: string, c: Civil, fraction: string, digits: string, z: Zone)
    requires Layout(layout, {'T', 't'}) && CivilOf(layout) == c && IsCivil(c)
    requires AnyFraction(fraction) && FractionDigits(fraction) == digits && IsZone(z)
    ensures ReadsAs(layout + fraction + ZoneText(z), SecondsOf(c) - 60 * MinutesAhead(z), digits,
                    layout[10] == 'T' && z == Utc('Z') && CanonicalFraction(fraction))
  {
    PartsReadBack(layout, fraction, z);
    InstantOfParts(layout + fraction + ZoneText(z), layout, c, fraction, digits, z);
  }

  lemma InstantOfParts(v: string, layout: string, c: Civil, fraction: string, digits: string, z: Zone)
    requires Layout(layout, {'T', 't'}) && CivilOf(layout) == c && IsCivil(c)
    requires AnyFraction(fraction) && FractionDigits(fraction) == digits && HasParts(v, layout, fraction, z)
    ensures ReadsAs(v, SecondsOf(c) - 60 * MinutesAhead(z), digits,
                    layout[10] == 'T' && z == Utc('Z') && CanonicalFraction(fraction))
  {
    TransientOfParts(v);
    StoredOfParts(v);
  }

  lemma TransientOfParts(v: string)
    requires TransientGrammar(v) && IsCivil(CivilOf(v[..19]))
    ensures TransientInstant(v) ==
            Ok(Instant(SecondsOf(CivilOf(v[..19])) - 60 * OffsetOf(v), Trimmed(FractionDigits(FractionText(v)))))
  {
  }

  lemma StoredOfParts(v: string)
    requires TransientGrammar(v) && IsCivil(CivilOf(v[..19]))
    ensures StoredInstant(v).Ok? <==> StoredGrammar(v)
  {
  }

  lemma FractionReadsBack(digits: string)
    requires AllDigits(digits)
    ensures var fraction := PointAndDigits(digits);
            && AnyFraction(fraction) && FractionDigits(fraction) == digits
            && (CanonicalFraction(fraction) <==> digits == "" || digits[|digits| - 1] != '0')
  {
  }

  lemma FractionIsWritten(fraction: string)
    requires AnyFraction(fraction)
    ensures fraction == PointAndDigits(FractionDigits(fraction))
  {
  }

  lemma ZoneOf(s: string) returns (z: Zone)
    requires NumericOffset(s)
    ensures IsZone(z) && s == ZoneText(z)
  {
    NumberOfTwo(s[1..3]);
    NumberOfTwo(s[4..6]);
    z := Offset(s[0], Number(s[1..3]), Number(s[4..6]));
    assert s == [s[0]] + s[1..3] + [s[3]] + s[4..6];
  }

  lemma LayoutIsWritten(s: string)
    requires Layout(s, {'T', 't'}) && IsCivil(CivilOf(s))
    ensures s == DateTimeText(CivilOf(s), s[10])
  {
    MonthsAreShort(CivilOf(s));
    NumberOfFour(s[0..4]);
    NumberOfTwo(s[5..7]);
    NumberOfTwo(s[8..10]);
    NumberOfTwo(s[11..13]);
    NumberOfTwo(s[14..16]);
    NumberOfTwo(s[17..19]);
    assert s == s[0..4] + [s[4]] + s[5..7] + [s[7]] + s[8..10] + [s[10]]
                + s[11..13] + [s[13]] + s[14..16] + [s[16]] + s[17..19];
  }

  /** And no other text is admitted. */
  lemma AdmittedIsRendered(v: string) returns (c: Civil, separator: char, digits: string, z: Zone)
    requires TransientInstant(v).Ok?
    ensures IsCivil(c) && separator in {'T', 't'} && AllDigits(digits) && IsZone(z)
    ensures v == Rendered(c, separator, digits, z)
  {
    c, separator, digits := CivilOf(v[..19]), v[..19][10], FractionDigits(FractionText(v));
    LayoutIsWritten(v[..19]);
    FractionIsWritten(FractionText(v));
    z := ZoneAtEnd(v);
  }

  lemma ZoneAtEnd(v: string) returns (z: Zone)
    requires TransientGrammar(v)
    ensures IsZone(z) && v == v[..19] + FractionText(v) + ZoneText(z)
  {
    if v[|v| - 1] in {'Z', 'z'} {
      z := Utc(v[|v| - 1]);
      assert v == v[..19] + v[19..|v| - 1] + [v[|v| - 1]];
    } else {
      z := ZoneOf(v[|v| - 6..]);
      assert v == v[..19] + v[19..|v| - 6] + v[|v| - 6..];
    }
  }

  /** The seconds of a civil time, in closed form: the Gregorian calendar's days since
      the first of January 1970, and the time of day. */
  lemma SecondsAreGregorian(c: Civil)
    requires IsCivil(c)
    ensures var y := c.year - 1;
            SecondsOf(c) ==
            86400 * (365 * y + y / 4 - y / 100 + y / 400 - 719162
                     + DAYS_BEFORE_MONTH[c.month - 1]
                     + (if c.month > 2 && c.year % 4 == 0 && (c.year % 100 != 0 || c.year % 400 == 0) then 1 else 0)
                     + c.day - 1)
            + 3600 * c.hour + 60 * c.minute + c.second
  {
    YearsInClosedForm(c.year);
    MonthsBefore(c.year, c.month);
  }
}
