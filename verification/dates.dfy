/** Calendar dates as the generator uses them: read strictly from the
    `YYYY-MM-DD` form of a post's `publishDate`, compared chronologically,
    and shown as "Month Day, Year" (chrono's `%B %-d, %C%y`). */
module Dates {
  import opened Wrappers
  import opened Errors
  import opened Text

  datatype Date = Date(year: int, month: int, day: int)

  predicate IsLeapYear(y: int) {
    (y % 4 == 0 && y % 100 != 0) || y % 400 == 0
  }

  function DaysInMonth(y: int, m: int): int {
    if m == 2 then (if IsLeapYear(y) then 29 else 28)
    else if m == 4 || m == 6 || m == 9 || m == 11 then 30
    else 31
  }

  /** A day of the proleptic Gregorian calendar with a four-digit year. */
  predicate Valid(d: Date) {
    0 <= d.year <= 9999 && 1 <= d.month <= 12 && 1 <= d.day <= DaysInMonth(d.year, d.month)
  }

  /** `a` is an earlier day than `b` (`NaiveDate`'s ordering). */
  predicate Earlier(a: Date, b: Date) {
    a.year < b.year
    || (a.year == b.year && (a.month < b.month || (a.month == b.month && a.day < b.day)))
  }

  lemma EarlierTransitive(a: Date, b: Date, c: Date)
    requires Earlier(a, b) && Earlier(b, c)
    ensures Earlier(a, c)
  {
  }

  /** Two days are either equal or one is the earlier. */
  lemma EarlierTotal(a: Date, b: Date)
    ensures a == b || Earlier(a, b) || Earlier(b, a)
  {
  }

  predicate IsDigit(c: char) {
    '0' <= c <= '9'
  }

  function DigitChar(n: int): (c: char)
    requires 0 <= n < 10
    ensures IsDigit(c) && DigitOf(c) == n
  {
    ('0' as int + n) as char
  }

  function DigitOf(c: char): (n: nat)
    requires IsDigit(c)
    ensures n < 10
  {
    c as int - '0' as int
  }

  /** The number written by a string of decimal digits. */
  function DigitsValue(s: string): (n: nat)
    requires forall k :: 0 <= k < |s| ==> IsDigit(s[k])
  {
    if |s| == 0 then 0
    else DigitsValue(s[..|s| - 1]) * 10 + DigitOf(s[|s| - 1])
  }

  /** The value of two digits. */
  lemma TwoDigits(a: char, b: char)
    requires IsDigit(a) && IsDigit(b)
    ensures DigitsValue([a, b]) == DigitOf(a) * 10 + DigitOf(b)
  {
    assert [a][..0] == [];
    assert DigitsValue([a]) == DigitOf(a);
    assert [a, b][..1] == [a];
    assert DigitsValue([a, b]) == DigitsValue([a]) * 10 + DigitOf(b);
  }

  /** `n` in two digits, with a leading zero below ten. */
  function Pad2(n: int): (r: string)
    requires 0 <= n < 100
    ensures |r| == 2 && forall k :: 0 <= k < 2 ==> IsDigit(r[k])
  {
    [DigitChar(n / 10), DigitChar(n % 10)]
  }

  /** `n` in four digits, with leading zeros. */
  function Pad4(n: int): (r: string)
    requires 0 <= n < 10000
    ensures |r| == 4 && forall k :: 0 <= k < 4 ==> IsDigit(r[k])
  {
    Pad2(n / 100) + Pad2(n % 100)
  }

  lemma Pad2Value(n: int)
    requires 0 <= n < 100
    ensures DigitsValue(Pad2(n)) == n
  {
    TwoDigits(DigitChar(n / 10), DigitChar(n % 10));
  }

  /** Four digits are worth a hundred times their first two plus their last two. */
  lemma FourDigits(hi: string, lo: string)
    requires |hi| == 2 && |lo| == 2
    requires forall k :: 0 <= k < 2 ==> IsDigit(hi[k]) && IsDigit(lo[k])
    ensures forall k :: 0 <= k < 4 ==> IsDigit((hi + lo)[k])
    ensures DigitsValue(hi + lo) == DigitsValue(hi) * 100 + DigitsValue(lo)
  {
    var r := hi + lo;
    assert r[..3] == hi + [lo[0]];
    assert r[..3][..2] == hi;
    assert r[3] == lo[1] && r[..3][2] == lo[0];
    assert hi == [hi[0], hi[1]] && lo == [lo[0], lo[1]];
    TwoDigits(hi[0], hi[1]);
    TwoDigits(lo[0], lo[1]);
  }

  lemma Pad4Value(n: int)
    requires 0 <= n < 10000
    ensures DigitsValue(Pad4(n)) == n
  {
    Pad2Value(n / 100);
    Pad2Value(n % 100);
    FourDigits(Pad2(n / 100), Pad2(n % 100));
  }

  /** Digits `[i, j)` of `s`, or `None` when one of them is not a digit. */
  function NumberAt(s: string, i: nat, j: nat): (r: Option<nat>)
    requires i <= j <= |s|
    ensures r.Some? <==> forall k :: i <= k < j ==> IsDigit(s[k])
  {
    var t := s[i..j];
    if forall k :: 0 <= k < |t| ==> IsDigit(t[k]) then Some(DigitsValue(t))
    else (assert exists k :: 0 <= k < |t| && !IsDigit(t[k]) && s[i + k] == t[k]; None)
  }

  /** The strict `%Y-%m-%d` reading of a date: four digits, a hyphen, two
      digits, a hyphen, two digits, naming a real day. */
  function ParseDate(s: string): (r: Result<Date, Error>)
    ensures r.Success? ==> Valid(r.value)
    ensures r.Failure? ==> r.error == MalformedDate(s)
  {
    if |s| != 10 || s[4] != '-' || s[7] != '-' then Failure(MalformedDate(s))
    else
      match (NumberAt(s, 0, 4), NumberAt(s, 5, 7), NumberAt(s, 8, 10))
      case (Some(y), Some(m), Some(d)) =>
        var date := Date(y, m, d);
        if Valid(date) then Success(date) else Failure(MalformedDate(s))
      case _ => Failure(MalformedDate(s))
  }

  /** The `YYYY-MM-DD` text of a date. */
  function IsoText(d: Date): (r: string)
    requires Valid(d)
    ensures |r| == 10
  {
    Pad4(d.year) + "-" + Pad2(d.month) + "-" + Pad2(d.day)
  }

  /** Reading the text of a date gives the date back. */
  lemma ParseIsoText(d: Date)
    requires Valid(d)
    ensures ParseDate(IsoText(d)) == Success(d)
  {
    var s := IsoText(d);
    var y := Pad4(d.year);
    var m := Pad2(d.month);
    var dd := Pad2(d.day);
    assert s[0..4] == y && s[5..7] == m && s[8..10] == dd;
    assert s[4] == '-' && s[7] == '-';
    Pad4Value(d.year);
    Pad2Value(d.month);
    Pad2Value(d.day);
  }

  /** Every text the reader accepts is the text of the date it reads: the
      reader admits exactly one spelling per day. */
  lemma ParsedIsIsoText(s: string)
    requires ParseDate(s).Success?
    ensures IsoText(ParseDate(s).value) == s
  {
    var d := ParseDate(s).value;
    DigitsCanonical4(s[0..4]);
    DigitsCanonical2(s[5..7]);
    DigitsCanonical2(s[8..10]);
    assert s == s[0..4] + "-" + s[5..7] + "-" + s[8..10];
  }

  lemma DigitsCanonical2(t: string)
    requires |t| == 2 && forall k :: 0 <= k < 2 ==> IsDigit(t[k])
    ensures DigitsValue(t) < 100 && Pad2(DigitsValue(t)) == t
  {
    assert t == [t[0], t[1]];
    TwoDigits(t[0], t[1]);
    var n := DigitsValue(t);
    assert n / 10 == DigitOf(t[0]) && n % 10 == DigitOf(t[1]);
    assert DigitChar(DigitOf(t[0])) == t[0];
    assert DigitChar(DigitOf(t[1])) == t[1];
  }

  lemma DigitsCanonical4(t: string)
    requires |t| == 4 && forall k :: 0 <= k < 4 ==> IsDigit(t[k])
    ensures DigitsValue(t) < 10000 && Pad4(DigitsValue(t)) == t
  {
    var hi := t[..2];
    var lo := t[2..];
    assert t == hi + lo;
    DigitsCanonical2(hi);
    DigitsCanonical2(lo);
    FourDigits(hi, lo);
    var n := DigitsValue(t);
    assert n / 100 == DigitsValue(hi) && n % 100 == DigitsValue(lo);
  }

  const MonthNames := ["January", "February", "March", "April", "May", "June", "July",
                       "August", "September", "October", "November", "December"]

  /** The day of the month without padding (`%-d`). */
  function DayText(day: int): (r: string)
    requires 1 <= day <= 31
    ensures 1 <= |r| <= 2 && forall k :: 0 <= k < |r| ==> IsDigit(r[k])
  {
    if day < 10 then [DigitChar(day)] else Pad2(day)
  }

  /** `%B %-d, %C%y`: the full month name, a space, the day unpadded, a
      comma and a space, then the century and the year within it, each in
      two digits. */
  function DisplayDate(d: Date): string
    requires Valid(d)
  {
    MonthNames[d.month - 1] + " " + DayText(d.day) + ", " + Pad2(d.year / 100) + Pad2(d.year % 100)
  }

  /** The reading of a shown date: month name, day and year separated as
      `DisplayDate` writes them. */
  function ReadDisplayDate(s: string): Option<Date> {
    ReadWords(Split(s, ' '))
  }

  function ReadWords(words: seq<string>): Option<Date> {
    if |words| != 3 then None
    else
      var dayWord := words[1];
      var yearWord := words[2];
      if |dayWord| < 2 || dayWord[|dayWord| - 1] != ',' || |yearWord| != 4 then None
      else
        match (MonthIndex(words[0], 0), NumberAt(dayWord, 0, |dayWord| - 1), NumberAt(yearWord, 0, 4))
        case (Some(m), Some(day), Some(year)) => Some(Date(year, m + 1, day))
        case _ => None
  }

  /** The position, from zero, of a month's name in the calendar, searched
      from position `from` on. */
  function MonthIndex(name: string, from: nat): (r: Option<nat>)
    requires from <= 12
    ensures r.Some? ==> from <= r.value < 12 && MonthNames[r.value] == name
    ensures r.None? ==> forall k :: from <= k < 12 ==> MonthNames[k] != name
    decreases 12 - from
  {
    if from == 12 then None
    else if MonthNames[from] == name then Some(from)
    else MonthIndex(name, from + 1)
  }

  lemma MonthIndexOf(k: nat)
    requires k < 12
    ensures MonthIndex(MonthNames[k], 0) == Some(k)
  {
    var r := MonthIndex(MonthNames[k], 0);
    assert r.Some?;
    assert MonthNames[r.value] == MonthNames[k];
  }

  /** A shown date reads back as the date shown, so no two days are shown
      alike. */
  lemma ReadDisplayed(d: Date)
    requires Valid(d)
    ensures ReadDisplayDate(DisplayDate(d)) == Some(d)
  {
    var month := MonthNames[d.month - 1];
    var dayWord := DayText(d.day) + ",";
    var yearWord := Pad4(d.year);
    DisplayWords(d, month, dayWord, yearWord);
    NoSpaces(d, month, dayWord, yearWord);
    SplitJoin([month, dayWord, yearWord], ' ');
    ReadWordsOf(d, month, dayWord, yearWord);
  }

  lemma DisplayWords(d: Date, month: string, dayWord: string, yearWord: string)
    requires Valid(d) && month == MonthNames[d.month - 1]
    requires dayWord == DayText(d.day) + "," && yearWord == Pad4(d.year)
    ensures DisplayDate(d) == JoinWith([month, dayWord, yearWord], ' ')
  {
    assert JoinWith([yearWord], ' ') == yearWord;
    assert [month, dayWord, yearWord][1..] == [dayWord, yearWord];
    assert [dayWord, yearWord][1..] == [yearWord];
    assert JoinWith([dayWord, yearWord], ' ') == dayWord + [' '] + yearWord;
    assert JoinWith([month, dayWord, yearWord], ' ') == month + [' '] + (dayWord + [' '] + yearWord);
  }

  lemma ReadWordsOf(d: Date, month: string, dayWord: string, yearWord: string)
    requires Valid(d) && month == MonthNames[d.month - 1]
    requires dayWord == DayText(d.day) + "," && yearWord == Pad4(d.year)
    ensures ReadWords([month, dayWord, yearWord]) == Some(d)
  {
    MonthIndexOf(d.month - 1);
    assert dayWord[0..|dayWord| - 1] == DayText(d.day);
    DayTextValue(d.day);
    Pad4Value(d.year);
    assert yearWord[0..4] == yearWord;
  }

  lemma NoSpaces(d: Date, month: string, dayWord: string, yearWord: string)
    requires Valid(d) && month == MonthNames[d.month - 1]
    requires dayWord == DayText(d.day) + "," && yearWord == Pad4(d.year)
    ensures forall k :: 0 <= k < |[month, dayWord, yearWord]| ==> ' ' !in [month, dayWord, yearWord][k]
  {
    assert ' ' !in month;
    assert forall k :: 0 <= k < |dayWord| ==> dayWord[k] != ' ';
    assert forall k :: 0 <= k < |yearWord| ==> yearWord[k] != ' ';
  }

  lemma DayTextValue(day: int)
    requires 1 <= day <= 31
    ensures DigitsValue(DayText(day)) == day
  {
    if day < 10 {
      assert DayText(day)[..0] == [];
    } else {
      Pad2Value(day);
    }
  }

  /** Two days shown alike are the same day. */
  lemma DisplayDateInjective(a: Date, b: Date)
    requires Valid(a) && Valid(b) && DisplayDate(a) == DisplayDate(b)
    ensures a == b
  {
    ReadDisplayed(a);
    ReadDisplayed(b);
  }

  /** 3 June 2024 is shown as "June 3, 2024". */
  lemma DisplayExample()
    ensures DisplayDate(Date(2024, 6, 3)) == "June 3, 2024"
  {
  }
}
