/** RFC 3339 timestamps in UTC (crates/ciphr-audit/src/time.rs, `rfc3339_millis`). */
module Timestamp {
  import opened Basics
  import opened Calendar
  import opened Text

  // ----- `format!("{n:0width}")`

  function DigitChar(d: int): char
    requires 0 <= d < 10
  {
    '0' + d as char
  }

  function Decimal(n: nat): (text: string)
    ensures |text| > 0
    ensures forall c :: c in text ==> '0' <= c <= '9'
  {
    if n < 10 then [DigitChar(n)] else Decimal(n / 10) + [DigitChar(n % 10)]
  }

  function Zeros(n: int): string {
    if n <= 0 then [] else Zeros(n - 1) + ['0']
  }

  function Padded(n: int, width: nat): string {
    if n >= 0 then Zeros(width - |Decimal(n)|) + Decimal(n)
    else ['-'] + Zeros(width - 1 - |Decimal(-n)|) + Decimal(-n)
  }

  /** A format string as its fields: each number padded to its width, then the literal after it. */
  function Formatted(numbers: seq<int>, widths: seq<nat>, marks: string): string
    requires |numbers| == |widths| == |marks|
  {
    if numbers == [] then []
    else Padded(numbers[0], widths[0]) + [marks[0]] + Formatted(numbers[1..], widths[1..], marks[1..])
  }

  // The widths of the seven fields, year to millisecond, and the character after each.
  const WIDTHS: seq<nat> := [4, 2, 2, 2, 2, 2, 3]
  const MARKS := "--T::.Z"

  function ClockFields(millis: int): seq<int> {
    var secondOfDay := millis / 1000 % 86400;
    [secondOfDay / 3600, secondOfDay % 3600 / 60, secondOfDay % 60, millis % 1000]
  }

  function FieldsOf(date: Date, clock: seq<int>): seq<int> {
    [date.year, date.month, date.day] + clock
  }

  function Fields(millis: int): seq<int> {
    FieldsOf(CivilFromDays(millis / 1000 / 86400), ClockFields(millis))
  }

  function Rfc3339(millis: int): string {
    Formatted(Fields(millis), WIDTHS, MARKS)
  }

  function YearOf(millis: int): int {
    CivilFromDays(millis / 1000 / 86400).year
  }

  /** The years whose number takes four digits. */
  predicate InFourDigitYears(millis: int) {
    0 <= YearOf(millis) <= 9999
  }

  // ----- fixed-width numbers

  function Power10(width: nat): nat {
    if width == 0 then 1 else 10 * Power10(width - 1)
  }

  function Fixed(n: nat, width: nat): (text: string)
    ensures |text| == width
    ensures forall c :: c in text ==> '0' <= c <= '9'
  {
    if width == 0 then [] else Fixed(n / 10, width - 1) + [DigitChar(n % 10)]
  }

  lemma {:induction false} FixedOfZero(width: nat)
    ensures Fixed(0, width) == Zeros(width)
  {
    if width > 0 {
      FixedOfZero(width - 1);
    }
  }

  lemma {:induction false} PaddedIsFixed(n: nat, width: nat)
    requires width > 0 && n < Power10(width)
    ensures Padded(n, width) == Fixed(n, width)
    ensures |Decimal(n)| <= width
  {
    if n < 10 {
      FixedOfZero(width - 1);
    } else {
      assert width > 1 by { assert Power10(1) == 10 * Power10(0); }
      PaddedIsFixed(n / 10, width - 1);
      var zeros := Zeros(width - |Decimal(n)|);
      assert zeros + (Decimal(n / 10) + [DigitChar(n % 10)]) == zeros + Decimal(n / 10) + [DigitChar(n % 10)];
    }
  }

  lemma {:induction false} FixedKeepsOrder(x: nat, y: nat, width: nat)
    requires x < y < Power10(width)
    ensures Less(Fixed(x, width), Fixed(y, width))
  {
    if x / 10 < y / 10 {
      FixedKeepsOrder(x / 10, y / 10, width - 1);
      LessBeforeSuffix(Fixed(x / 10, width - 1), Fixed(y / 10, width - 1), [DigitChar(x % 10)], [DigitChar(y % 10)]);
    } else {
      LessAfterPrefix(Fixed(x / 10, width - 1), [DigitChar(x % 10)], [DigitChar(y % 10)]);
    }
  }

  // ----- a timestamp is a row of fixed-width fields

  function Rendered(numbers: seq<nat>, widths: seq<nat>, marks: string): string
    requires |numbers| == |widths| == |marks|
  {
    if numbers == [] then []
    else Fixed(numbers[0], widths[0]) + [marks[0]] + Rendered(numbers[1..], widths[1..], marks[1..])
  }

  predicate Fit(numbers: seq<int>, widths: seq<nat>) {
    |numbers| == |widths| && forall i :: 0 <= i < |numbers| ==> 0 <= numbers[i] < Power10(widths[i])
  }

  lemma {:induction false} RenderedKeepsOrder(a: seq<nat>, b: seq<nat>, widths: seq<nat>, marks: string, at: nat)
    requires |a| == |b| == |widths| == |marks| && Fit(a, widths) && Fit(b, widths)
    requires at < |a| && a[at] < b[at] && forall i :: 0 <= i < at ==> a[i] == b[i]
    ensures Less(Rendered(a, widths, marks), Rendered(b, widths, marks))
  {
    var headA, headB := Fixed(a[0], widths[0]) + [marks[0]], Fixed(b[0], widths[0]) + [marks[0]];
    var restA, restB := Rendered(a[1..], widths[1..], marks[1..]), Rendered(b[1..], widths[1..], marks[1..]);
    if at == 0 {
      FixedKeepsOrder(a[0], b[0], widths[0]);
      LessBeforeSuffix(Fixed(a[0], widths[0]), Fixed(b[0], widths[0]), [marks[0]] + restA, [marks[0]] + restB);
      assert headA + restA == Fixed(a[0], widths[0]) + ([marks[0]] + restA);
      assert headB + restB == Fixed(b[0], widths[0]) + ([marks[0]] + restB);
    } else {
      RenderedKeepsOrder(a[1..], b[1..], widths[1..], marks[1..], at - 1);
      LessAfterPrefix(headA, restA, restB);
    }
  }

  lemma ClockFieldsFit(millis: int)
    ensures var c := ClockFields(millis); 0 <= c[0] < 24 && 0 <= c[1] < 60 && 0 <= c[2] < 60 && 0 <= c[3] < 1000
  {
  }

  lemma FieldsOfFit(date: Date, clock: seq<int>)
    requires 0 <= date.year < 10000 && 0 <= date.month < 100 && 0 <= date.day < 100
    requires |clock| == 4 && 0 <= clock[0] < 100 && 0 <= clock[1] < 100 && 0 <= clock[2] < 100 && 0 <= clock[3] < 1000
    ensures Fit(FieldsOf(date, clock), WIDTHS)
  {
    assert Power10(2) == 100 && Power10(3) == 1000 && Power10(4) == 10000 by {
      assert Power10(1) == 10;
    }
  }

  lemma FieldsFit(millis: int)
    requires InFourDigitYears(millis)
    ensures Fit(Fields(millis), WIDTHS)
  {
    var date := CivilFromDays(millis / 1000 / 86400);
    DateInRange(millis / 1000 / 86400);
    ClockFieldsFit(millis);
    FieldsOfFit(date, ClockFields(millis));
  }

  lemma DateInRange(days: int)
    ensures 1 <= CivilFromDays(days).month <= 12 && 1 <= CivilFromDays(days).day <= 31
  {
    SuccessorIsNextDay(days);
  }

  /** The first field in which two dates or, on one date, two clocks differ. */
  lemma FirstFieldDifference(d: Date, x: seq<int>, e: Date, y: seq<int>, c: nat) returns (at: nat)
    requires |x| == |y| == 4 && (Before(d, e) || (d == e && c < 4 && x[c] < y[c] && x[..c] == y[..c]))
    ensures at < 7 && FieldsOf(d, x)[at] < FieldsOf(e, y)[at] && FieldsOf(d, x)[..at] == FieldsOf(e, y)[..at]
  {
    if Before(d, e) {
      at := if d.year < e.year then 0 else if d.month < e.month then 1 else 2;
    } else {
      at := c + 3;
      assert FieldsOf(d, x)[..at] == [d.year, d.month, d.day] + x[..c];
      assert FieldsOf(e, y)[..at] == [d.year, d.month, d.day] + y[..c];
    }
  }

  /** The first field in which two moments differ is smaller in the earlier one. */
  lemma FirstDifference(a: int, b: int) returns (at: nat)
    requires a < b
    ensures at < 7 && Fields(a)[at] < Fields(b)[at]
    ensures Fields(a)[..at] == Fields(b)[..at]
  {
    var d, e := a / 1000 / 86400, b / 1000 / 86400;
    var c := 0;
    if d < e {
      LaterDaysAreLaterDates(d, e);
    } else {
      c := FirstClockDifference(a, b);
    }
    at := FirstFieldDifference(CivilFromDays(d), ClockFields(a), CivilFromDays(e), ClockFields(b), c);
  }

  lemma ClockParts(s: int)
    requires 0 <= s < 86400
    ensures s == s / 3600 * 3600 + s % 3600 / 60 * 60 + s % 60
    ensures 0 <= s % 3600 / 60 < 60
  {
  }

  lemma FirstPartDifference(s: int, m: int, t: int, n: int) returns (at: nat)
    requires 0 <= s < 86400 && 0 <= t < 86400 && (s < t || (s == t && m < n))
    ensures var x, y := [s / 3600, s % 3600 / 60, s % 60, m], [t / 3600, t % 3600 / 60, t % 60, n];
            at < 4 && x[at] < y[at] && x[..at] == y[..at]
  {
    ClockParts(s);
    ClockParts(t);
    var x, y := [s / 3600, s % 3600 / 60, s % 60, m], [t / 3600, t % 3600 / 60, t % 60, n];
    at := if x[0] != y[0] then 0 else if x[1] != y[1] then 1 else if x[2] != y[2] then 2 else 3;
  }

  lemma FirstClockDifference(a: int, b: int) returns (at: nat)
    requires a < b && a / 1000 / 86400 == b / 1000 / 86400
    ensures at < 4 && ClockFields(a)[at] < ClockFields(b)[at]
    ensures ClockFields(a)[..at] == ClockFields(b)[..at]
  {
    var p, q := a / 1000, b / 1000;
    assert p < q || (p == q && a % 1000 < b % 1000);
    assert p % 86400 == p - p / 86400 * 86400 && q % 86400 == q - q / 86400 * 86400;
    at := FirstPartDifference(p % 86400, a % 1000, q % 86400, b % 1000);
  }

  lemma {:induction false} FormattedIsRendered(numbers: seq<nat>, widths: seq<nat>, marks: string)
    requires |numbers| == |widths| == |marks| && Fit(numbers, widths)
    requires forall i :: 0 <= i < |widths| ==> widths[i] > 0
    ensures Formatted(numbers, widths, marks) == Rendered(numbers, widths, marks)
  {
    if numbers != [] {
      PaddedIsFixed(numbers[0], widths[0]);
      FormattedIsRendered(numbers[1..], widths[1..], marks[1..]);
    }
  }

  lemma Rfc3339IsRendered(millis: int)
    requires InFourDigitYears(millis)
    ensures Fit(Fields(millis), WIDTHS)
    ensures Rfc3339(millis) == Rendered(Fields(millis), WIDTHS, MARKS)
  {
    FieldsFit(millis);
    FormattedIsRendered(Fields(millis), WIDTHS, MARKS);
  }

  /** Sorting the text sorts the moments. */
  lemma TextOrderIsTimeOrder(a: int, b: int)
    requires InFourDigitYears(a) && InFourDigitYears(b)
    requires a < b
    ensures Less(Rfc3339(a), Rfc3339(b))
  {
    Rfc3339IsRendered(a);
    Rfc3339IsRendered(b);
    var at := FirstDifference(a, b);
    forall i | 0 <= i < at ensures Fields(a)[i] == Fields(b)[i] {
      assert Fields(a)[..at][i] == Fields(b)[..at][i];
    }
    RenderedKeepsOrder(Fields(a), Fields(b), WIDTHS, MARKS, at);
  }

  /** The form of section 5.6 of RFC 3339, with milliseconds. */
  predicate HasShape(text: string) {
    |text| == 24
    && forall i :: 0 <= i < 24 ==>
         if i == 4 || i == 7 then text[i] == '-'
         else if i == 10 then text[i] == 'T'
         else if i == 13 || i == 16 then text[i] == ':'
         else if i == 19 then text[i] == '.'
         else if i == 23 then text[i] == 'Z'
         else '0' <= text[i] <= '9'
  }

  /** Where the field with index `k` begins. */
  function Offset(widths: seq<nat>, k: nat): nat
    requires k <= |widths|
  {
    if k == 0 then 0 else widths[0] + 1 + Offset(widths[1..], k - 1)
  }

  lemma HeadOfConcat(field: string, mark: char, rest: string)
    ensures var text := field + [mark] + rest;
            text[0..|field|] == field && text[|field|] == mark
  {
  }

  lemma SliceOfConcat(head: string, rest: string, at: nat, width: nat)
    requires at + width < |rest|
    ensures (head + rest)[|head| + at..|head| + at + width] == rest[at..at + width]
    ensures (head + rest)[|head| + at + width] == rest[at + width]
  {
  }

  lemma {:induction false} FieldAt(numbers: seq<nat>, widths: seq<nat>, marks: string, k: nat)
    requires |numbers| == |widths| == |marks| && k < |widths|
    ensures var at, text := Offset(widths, k), Rendered(numbers, widths, marks);
            && at + widths[k] < |text|
            && text[at..at + widths[k]] == Fixed(numbers[k], widths[k])
            && text[at + widths[k]] == marks[k]
    ensures k == |widths| - 1 ==> |Rendered(numbers, widths, marks)| == Offset(widths, k) + widths[k] + 1
  {
    var head := Fixed(numbers[0], widths[0]) + [marks[0]];
    var rest := Rendered(numbers[1..], widths[1..], marks[1..]);
    if k == 0 {
      HeadOfConcat(Fixed(numbers[0], widths[0]), marks[0], rest);
      assert |widths| == 1 ==> rest == [];
    } else {
      FieldAt(numbers[1..], widths[1..], marks[1..], k - 1);
      var at := Offset(widths[1..], k - 1);
      SliceOfConcat(head, rest, at, widths[k]);
    }
  }

  lemma Offsets()
    ensures Offset(WIDTHS, 0) == 0 && Offset(WIDTHS, 1) == 5 && Offset(WIDTHS, 2) == 8 && Offset(WIDTHS, 3) == 11
    ensures Offset(WIDTHS, 4) == 14 && Offset(WIDTHS, 5) == 17 && Offset(WIDTHS, 6) == 20
  {
  }

  lemma DigitsAt(text: string, at: nat, n: nat, width: nat)
    requires at + width <= |text| && text[at..at + width] == Fixed(n, width)
    ensures forall i :: at <= i < at + width ==> '0' <= text[i] <= '9'
  {
    forall i | at <= i < at + width
      ensures '0' <= text[i] <= '9'
    {
      assert text[at..at + width][i - at] in Fixed(n, width);
    }
  }

  lemma FieldHasShape(millis: int, k: nat)
    requires InFourDigitYears(millis) && k < 7
    ensures var at, text := Offset(WIDTHS, k), Rfc3339(millis);
            && |text| == 24 && at + WIDTHS[k] < 24 && text[at + WIDTHS[k]] == MARKS[k]
            && forall i :: at <= i < at + WIDTHS[k] ==> '0' <= text[i] <= '9'
  {
    var n, text := Fields(millis), Rfc3339(millis);
    Rfc3339IsRendered(millis);
    Offsets();
    FieldAt(n, WIDTHS, MARKS, 6);
    FieldAt(n, WIDTHS, MARKS, k);
    DigitsAt(text, Offset(WIDTHS, k), n[k], WIDTHS[k]);
  }

  lemma TextHasShape(millis: int)
    requires InFourDigitYears(millis)
    ensures HasShape(Rfc3339(millis))
  {
    Offsets();
    var text := Rfc3339(millis);
    forall k | 0 <= k < 7
      ensures |text| == 24 && text[Offset(WIDTHS, k) + WIDTHS[k]] == MARKS[k]
      ensures forall i :: Offset(WIDTHS, k) <= i < Offset(WIDTHS, k) + WIDTHS[k] ==> '0' <= text[i] <= '9'
    {
      FieldHasShape(millis, k);
    }
    assert text[Offset(WIDTHS, 0) + 4] == '-' && text[Offset(WIDTHS, 1) + 2] == '-' && text[Offset(WIDTHS, 2) + 2] == 'T';
    assert text[Offset(WIDTHS, 3) + 2] == ':' && text[Offset(WIDTHS, 4) + 2] == ':';
    assert text[Offset(WIDTHS, 5) + 2] == '.' && text[Offset(WIDTHS, 6) + 3] == 'Z';
  }

  // ----- the text read back

  /** The number that a row of digits stands for. */
  function ReadDecimal(digits: string): nat
    requires forall c :: c in digits ==> '0' <= c <= '9'
  {
    if digits == [] then 0
    else
      var n := |digits| - 1;
      assert digits[n] in digits && forall c :: c in digits[..n] ==> c in digits;
      ReadDecimal(digits[..n]) * 10 + (digits[n] - '0') as nat
  }

  lemma {:induction false} ReadOfFixed(n: nat, width: nat)
    requires n < Power10(width)
    ensures ReadDecimal(Fixed(n, width)) == n
  {
    if width > 0 {
      ReadOfFixed(n / 10, width - 1);
      assert Fixed(n, width)[..width - 1] == Fixed(n / 10, width - 1);
    }
  }

  lemma {:induction false} ReadOfDecimal(n: nat)
    ensures ReadDecimal(Decimal(n)) == n
  {
    if n >= 10 {
      ReadOfDecimal(n / 10);
      assert Decimal(n)[..|Decimal(n)| - 1] == Decimal(n / 10);
    } else {
      assert Decimal(n)[..0] == [];
    }
  }

  /** The number that the characters from `start` to `end` show, if they are digits. */
  function ReadAt(text: string, start: nat, end: nat): Option<int> {
    if start <= end <= |text| && forall c :: c in text[start..end] ==> '0' <= c <= '9'
    then Some(ReadDecimal(text[start..end])) else None
  }

  lemma ReadsFixed(text: string, start: nat, width: nat, n: nat)
    requires start + width <= |text| && text[start..start + width] == Fixed(n, width) && n < Power10(width)
    ensures ReadAt(text, start, start + width) == Some(n)
  {
    ReadOfFixed(n, width);
  }

  /** The field with index `k` of a row of fields reads as its number. */
  lemma FieldOf(numbers: seq<nat>, widths: seq<nat>, marks: string, k: nat) returns (start: nat, end: nat, n: nat)
    requires |numbers| == |widths| == |marks| && k < |widths| && numbers[k] < Power10(widths[k])
    ensures start == Offset(widths, k) && end == start + widths[k] && n == numbers[k]
    ensures ReadAt(Rendered(numbers, widths, marks), start, end) == Some(n)
  {
    FieldAt(numbers, widths, marks, k);
    start, n := Offset(widths, k), numbers[k];
    end := start + widths[k];
    ReadsFixed(Rendered(numbers, widths, marks), start, widths[k], n);
  }

  lemma FieldReadsBack(millis: int, k: nat) returns (start: nat, end: nat)
    requires InFourDigitYears(millis) && k < 7
    ensures start == Offset(WIDTHS, k) && end == start + WIDTHS[k]
    ensures ReadAt(Rfc3339(millis), start, end) == Some(Fields(millis)[k])
  {
    Rfc3339IsRendered(millis);
    var n;
    start, end, n := FieldOf(Fields(millis), WIDTHS, MARKS, k);
  }

  lemma DayOfMillis(millis: int)
    ensures millis / 1000 / 86400 == millis / 86400000
    ensures millis % 86400000 == millis / 1000 % 86400 * 1000 + millis % 1000
  {
    var s := millis / 1000;
    assert millis == s * 1000 + millis % 1000 && s == s / 86400 * 86400 + s % 86400;
    assert millis == s / 86400 * 86400000 + (s % 86400 * 1000 + millis % 1000);
    assert 0 <= s % 86400 * 1000 + millis % 1000 < 86400000;
  }

  /** What the clock part of the text shows. */
  datatype Clock = Clock(hour: nat, minute: nat, second: nat, milli: nat) {
    predicate IsTime() {
      0 <= hour < 24 && 0 <= minute < 60 && 0 <= second < 60 && 0 <= milli < 1000
    }

    function Millis(): int {
      ((hour * 60 + minute) * 60 + second) * 1000 + milli
    }
  }

  lemma ClockOfMillis(millis: int) returns (clock: Clock)
    ensures clock.IsTime() && clock.Millis() == millis % 86400000
    ensures ClockFields(millis) == [clock.hour, clock.minute, clock.second, clock.milli]
  {
    var s := millis / 1000 % 86400;
    clock := Clock(s / 3600, s % 3600 / 60, s % 60, millis % 1000);
    ClockParts(s);
    DayOfMillis(millis);
    assert s % 3600 == s - s / 3600 * 3600;
  }

  /**
   * The text shows the moment: the date is the one of its day count, and the clock is a time of day
   * that makes up what is left of it.
   */
  lemma TextReadsBack(millis: int) returns (clock: Clock)
    requires InFourDigitYears(millis)
    ensures var text, date := Rfc3339(millis), CivilFromDays(millis / 86400000);
            && ReadAt(text, 0, 4) == Some(date.year)
            && ReadAt(text, 5, 7) == Some(date.month) && ReadAt(text, 8, 10) == Some(date.day)
            && ReadAt(text, 11, 13) == Some(clock.hour) && ReadAt(text, 14, 16) == Some(clock.minute)
            && ReadAt(text, 17, 19) == Some(clock.second) && ReadAt(text, 20, 23) == Some(clock.milli)
    ensures clock.IsTime() && clock.Millis() == millis % 86400000
  {
    Offsets();
    DayOfMillis(millis);
    clock := ClockOfMillis(millis);
    DateReadsBack(millis);
    ClockReadsBack(millis, clock);
  }

  lemma DateReadsBack(millis: int)
    requires InFourDigitYears(millis)
    ensures var text, date := Rfc3339(millis), CivilFromDays(millis / 1000 / 86400);
            && ReadAt(text, 0, 4) == Some(date.year)
            && ReadAt(text, 5, 7) == Some(date.month) && ReadAt(text, 8, 10) == Some(date.day)
  {
    Offsets();
    var yearStart, yearEnd := FieldReadsBack(millis, 0);
    var monthStart, monthEnd := FieldReadsBack(millis, 1);
    var dayStart, dayEnd := FieldReadsBack(millis, 2);
  }

  lemma ClockReadsBack(millis: int, clock: Clock)
    requires InFourDigitYears(millis)
    requires ClockFields(millis) == [clock.hour, clock.minute, clock.second, clock.milli]
    ensures var text := Rfc3339(millis);
            && ReadAt(text, 11, 13) == Some(clock.hour) && ReadAt(text, 14, 16) == Some(clock.minute)
            && ReadAt(text, 17, 19) == Some(clock.second) && ReadAt(text, 20, 23) == Some(clock.milli)
  {
    Offsets();
    var hourStart, hourEnd := FieldReadsBack(millis, 3);
    var minuteStart, minuteEnd := FieldReadsBack(millis, 4);
    var secondStart, secondEnd := FieldReadsBack(millis, 5);
    var milliStart, milliEnd := FieldReadsBack(millis, 6);
  }
}
