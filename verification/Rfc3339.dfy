/** RFC 3339 timestamps (apps/wifi-provisioner/src/ztp_manifest.c): printing,
    parsing, and the exact range on which they agree. */
module Rfc3339 {
  import opened Common
  import opened Calendar

  // ----- printing -----

  function Digit(n: int): char
    requires 0 <= n < 10
  {
    ('0' as int + n) as char
  }

  function Dec2(n: int): string
    requires 0 <= n < 100
  {
    [Digit(n / 10), Digit(n % 10)]
  }

  function Decimal(n: nat): (r: string)
    ensures |r| >= 1 && forall i :: 0 <= i < |r| ==> '0' <= r[i] <= '9'
  {
    if n < 10 then [Digit(n)] else Decimal(n / 10) + [Digit(n % 10)]
  }

  function Zeros(n: nat): (r: string)
    ensures |r| == n && forall i :: 0 <= i < n ==> r[i] == '0'
  {
    if n == 0 then "" else Zeros(n - 1) + "0"
  }

  function Pad(s: string, width: nat): string {
    if |s| < width then Zeros(width - |s|) + s else s
  }

  /** printf's %04d. */
  function Year04(v: int): (r: string)
    ensures |r| >= 4
  {
    if v >= 0 then Pad(Decimal(v), 4) else "-" + Pad(Decimal(-v), 3)
  }

  function DayOf(t: int): int { CDiv(if t >= 0 then t else t - 86399, 86400) }
  function SecondOf(t: int): int { t - DayOf(t) * 86400 }
  function YearOf(t: int): int { CivilFromDays(DayOf(t)).y }

  lemma DayIsFloor(t: int)
    ensures DayOf(t) == t / 86400 && SecondOf(t) == t % 86400
  {
  }

  function TimeText(secs: int): string
    requires 0 <= secs < 86400
  {
    Dec2(secs / 3600) + (":" + (Dec2(secs / 60 % 60) + (":" + (Dec2(secs % 60) + "Z"))))
  }

  function DateText(year: string, m: int, d: int, time: string): string
    requires 0 <= m < 100 && 0 <= d < 100
  {
    year + ("-" + (Dec2(m) + ("-" + (Dec2(d) + ("T" + time)))))
  }

  /** ztp_format_rfc3339: the year goes through an int, and the scratch text is
      cut to 20 characters. */
  function Format(t: int): (r: string)
    ensures |r| == 20
  {
    DaysOfCivil(DayOf(t));
    DayIsFloor(t);
    var date := CivilFromDays(DayOf(t));
    DateText(Year04(ToInt32(date.y)), date.m, date.d, TimeText(SecondOf(t)))[..20]
  }

  /** Nothing that would end a JSON string. */
  lemma FormatChars(t: int)
    ensures '"' !in Format(t)
  {
    DaysOfCivil(DayOf(t));
    DayIsFloor(t);
    var date := CivilFromDays(DayOf(t));
    YearChars(ToInt32(date.y));
    TimeChars(SecondOf(t));
    DateChars(Year04(ToInt32(date.y)), date.m, date.d, TimeText(SecondOf(t)));
    hide DayOf, SecondOf, CivilFromDays, DateText, TimeText, Year04, Valid;
  }

  lemma YearChars(v: int)
    ensures '"' !in Year04(v)
  {
  }

  lemma TimeChars(secs: int)
    requires 0 <= secs < 86400
    ensures '"' !in TimeText(secs)
  {
    SecondsSplit(secs);
    Dec2Chars(secs / 3600);
    Dec2Chars(secs / 60 % 60);
    Dec2Chars(secs % 60);
    hide Dec2;
  }

  lemma Dec2Chars(n: int)
    requires 0 <= n < 100
    ensures '"' !in Dec2(n)
  {
  }

  lemma DateChars(year: string, m: int, d: int, time: string)
    requires 0 <= m < 100 && 0 <= d < 100 && '"' !in year && '"' !in time
    ensures '"' !in DateText(year, m, d, time)
  {
    Dec2Chars(m);
    Dec2Chars(d);
    hide Dec2;
  }

  // ----- parsing -----

  /** The number a run of decimal digits stands for. */
  function DigitsValue(s: string): Option<nat> {
    if s == "" then Some(0)
    else
      var v :- DigitsValue(s[..|s| - 1]);
      var c := s[|s| - 1];
      if c < '0' || c > '9' then None else Some(v * 10 + (c as int - '0' as int))
  }

  function Uint(s: string): Option<nat> {
    if |s| == 0 || |s| > 9 then None else DigitsValue(s)
  }

  /** parse_uint's loop. */
  method ParseUint(s: string) returns (r: Option<nat>)
    ensures r == Uint(s)
  {
    if |s| == 0 || |s| > 9 {
      return None;
    }
    var v: nat := 0;
    var i := 0;
    while i < |s|
      invariant 0 <= i <= |s|
      invariant DigitsValue(s[..i]) == Some(v)
    {
      assert s[..i + 1][..i] == s[..i];
      if s[i] < '0' || s[i] > '9' {
        NotAllDigits(s, i + 1);
        return None;
      }
      v := v * 10 + (s[i] as int - '0' as int);
      i := i + 1;
    }
    assert s[..|s|] == s;
    r := Some(v);
  }

  lemma {:induction false} NotAllDigits(s: string, i: nat)
    requires i <= |s| && DigitsValue(s[..i]) == None
    ensures DigitsValue(s) == None
    decreases |s| - i
  {
    if i == |s| {
      assert s[..i] == s;
    } else {
      assert s[..i + 1][..i] == s[..i];
      NotAllDigits(s, i + 1);
    }
  }

  /** ztp_parse_rfc3339. */
  function Parse(s: string): Option<int> {
    if |s| < 20 || s[4] != '-' || s[7] != '-' || (s[10] != 'T' && s[10] != 't')
       || s[13] != ':' || s[16] != ':' || (s[|s| - 1] != 'Z' && s[|s| - 1] != 'z') then None
    else if |s| > 20 && s[19] != '.' then None
    else
      var y :- Uint(s[0..4]);
      var mo :- Uint(s[5..7]);
      var d :- Uint(s[8..10]);
      var h :- Uint(s[11..13]);
      var mi :- Uint(s[14..16]);
      var se :- Uint(s[17..19]);
      if mo < 1 || mo > 12 || d < 1 || d > 31 || h > 23 || mi > 59 || se > 60 then None
      else Some(DaysFromCivil(y, mo, d) * 86400 + h * 3600 + mi * 60 + se)
  }

  // ----- round trip -----

  lemma UintOfDec2(n: int)
    requires 0 <= n < 100
    ensures Uint(Dec2(n)) == Some(n)
  {
    var s := Dec2(n);
    assert s[..1] == [Digit(n / 10)];
    assert s[..1][..0] == "";
    assert DigitsValue(s[..1]) == Some(n / 10);
  }

  lemma {:induction false} ValueOfDecimal(n: nat)
    ensures DigitsValue(Decimal(n)) == Some(n)
  {
    var s := Decimal(n);
    if n < 10 {
      assert s[..0] == "";
    } else {
      ValueOfDecimal(n / 10);
      assert s[..|s| - 1] == Decimal(n / 10);
    }
  }

  lemma {:induction false} ValueOfPadded(k: nat, s: string)
    ensures DigitsValue(Zeros(k) + s) == DigitsValue(s)
    decreases k + |s|
  {
    if s != "" {
      assert (Zeros(k) + s)[..k + |s| - 1] == Zeros(k) + s[..|s| - 1];
      ValueOfPadded(k, s[..|s| - 1]);
    } else if k > 0 {
      assert Zeros(k) + "" == Zeros(k);
      assert Zeros(k)[..k - 1] == Zeros(k - 1) + "";
      ValueOfPadded(k - 1, "");
    }
  }

  /** A decimal number of up to nine digits is read as it is, and a longer one not. */
  lemma UintReads(n: nat)
    ensures Uint(Decimal(n)) == if |Decimal(n)| <= 9 then Some(n) else None
  {
    hide DigitsValue;
    ValueOfDecimal(n);
  }

  lemma DecimalShort(n: nat)
    ensures n < 10 ==> Decimal(n) == [Digit(n)]
    ensures 10 <= n < 100 ==> Decimal(n) == Dec2(n)
  {
  }

  lemma DecimalLong(n: nat)
    requires n >= 100
    ensures Decimal(n) == Decimal(n / 100) + Dec2(n % 100)
  {
    assert Decimal(n) == Decimal(n / 10) + [Digit(n % 10)];
    assert n / 10 / 10 == n / 100;
    assert Decimal(n / 10) == Decimal(n / 100) + [Digit(n / 10 % 10)];
    assert n % 100 / 10 == n / 10 % 10 && n % 100 % 10 == n % 10;
  }

  lemma DecimalLength(n: nat)
    ensures |Decimal(n)| <= 4 <==> n < 10000
  {
    DecimalShort(n);
    if n >= 100 {
      DecimalLong(n);
      DecimalShort(n / 100);
      if n / 100 >= 100 { DecimalLong(n / 100); }
    }
  }

  /** Four characters exactly for the years 0 to 9999 (and -999 to -1). */
  lemma Year04Shape(v: int)
    ensures 0 <= v <= 9999 ==> |Year04(v)| == 4 && Uint(Year04(v)) == Some(v)
    ensures v > 9999 ==> |Year04(v)| > 4 && '0' <= Year04(v)[4] <= '9'
    ensures v < 0 ==> Year04(v)[0] == '-'
  {
    if v >= 0 {
      DecimalLength(v);
      ValueOfDecimal(v);
      if v <= 9999 { ValueOfPadded(4 - |Decimal(v)|, Decimal(v)); }
    }
  }

  lemma SecondsSplit(secs: int)
    requires 0 <= secs < 86400
    ensures 0 <= secs / 3600 < 24 && 0 <= secs / 60 % 60 < 60 && 0 <= secs % 60 < 60
    ensures secs == secs / 3600 * 3600 + secs / 60 % 60 * 60 + secs % 60
  {
    assert secs / 3600 == secs / 60 / 60;
  }

  /** The fields of a 20-character text with a four-character year. */
  lemma ParseText(year: string, m: int, d: int, secs: int)
    requires |year| == 4 && 1 <= m <= 12 && 1 <= d <= 31 && 0 <= secs < 86400
    ensures var s := DateText(year, m, d, TimeText(secs));
      |s| == 20
      && Parse(s) == match Uint(year)
                     case None => None
                     case Some(y) => Some(DaysFromCivil(y, m, d) * 86400 + secs)
  {
    hide Uint, DaysFromCivil, DateText, TimeText, Dec2;
    var s := DateText(year, m, d, TimeText(secs));
    SecondsSplit(secs);
    TextAt(year, m, d, TimeText(secs));
    TimeAt(secs);
    TwoAt(s, 5, m);
    TwoAt(s, 8, d);
    TwoAt(s, 11, secs / 3600);
    TwoAt(s, 14, secs / 60 % 60);
    TwoAt(s, 17, secs % 60);
    assert s[0..4] == year;
  }

  lemma TwoAt(s: string, i: nat, n: int)
    requires 0 <= n < 100 && i + 2 <= |s| && s[i] == Dec2(n)[0] && s[i + 1] == Dec2(n)[1]
    ensures Uint(s[i..i + 2]) == Some(n)
  {
    assert s[i..i + 2] == Dec2(n);
    UintOfDec2(n);
  }

  lemma TextAt(year: string, m: int, d: int, time: string)
    requires |year| == 4 && 0 <= m < 100 && 0 <= d < 100
    ensures var s := DateText(year, m, d, time);
      && |s| == 11 + |time| && s[0..4] == year && s[11..] == time
      && s[4] == '-' && s[5] == Dec2(m)[0] && s[6] == Dec2(m)[1]
      && s[7] == '-' && s[8] == Dec2(d)[0] && s[9] == Dec2(d)[1] && s[10] == 'T'
  {
  }

  lemma TimeAt(secs: int)
    requires 0 <= secs < 86400
    ensures var s := TimeText(secs);
      && |s| == 9 && s[2] == ':' && s[5] == ':' && s[8] == 'Z'
      && s[0] == Dec2(secs / 3600)[0] && s[1] == Dec2(secs / 3600)[1]
      && s[3] == Dec2(secs / 60 % 60)[0] && s[4] == Dec2(secs / 60 % 60)[1]
      && s[6] == Dec2(secs % 60)[0] && s[7] == Dec2(secs % 60)[1]
  {
  }

  /** A day and month of one year in another one: still that year. */
  lemma YearOfShiftedDate(y: int, m: int, d: int, year: int)
    requires Valid(Date(y, m, d)) && d <= 31
    ensures CivilFromDays(DaysFromCivil(year, m, d)).y == year
  {
    hide CivilFromDays, DaysFromCivil, Leap;
    var t := Date(year, m, d);
    if Valid(t) {
      CivilOfDays(t);
    } else {
      assert m == 2 && d == 29;
      CivilOfDays(Date(year, 2, 28));
      NextDateIsNextDay(Date(year, 2, 28));
      NextToLastOfFebruary(year);
      CivilOfDays(Date(year, 3, 1));
    }
  }

  lemma NextToLastOfFebruary(y: int)
    ensures DaysFromCivil(y, 2, 29) == DaysFromCivil(y, 2, 28) + 1
  {
  }

  /** Parsing a formatted time gives it back exactly when its year has four
      digits: outside 0000..9999 the text is refused, or, where the cast to int
      wraps the year, it reads as another time. */
  lemma RoundTrip(t: int)
    ensures Parse(Format(t)) == Some(t) <==> 0 <= YearOf(t) <= 9999
  {
    hide CivilFromDays, DaysFromCivil, Year04, Parse, DayOf;
    DaysOfCivil(DayOf(t));
    DayIsFloor(t);
    var date := CivilFromDays(DayOf(t));
    var v := ToInt32(date.y);
    Year04Shape(v);
    var text := DateText(Year04(v), date.m, date.d, TimeText(SecondOf(t)));
    assert Format(t) == text[..20];
    if 0 <= v <= 9999 {
      ParseText(Year04(v), date.m, date.d, SecondOf(t));
      assert text[..20] == text;
      WrappedYear(t, date, v);
    } else {
      RefusedYear(Year04(v), date.m, date.d, TimeText(SecondOf(t)));
    }
  }

  /** The time read under another year is another time. */
  lemma WrappedYear(t: int, date: Date, v: int)
    requires date == CivilFromDays(DayOf(t))
    ensures Valid(date) && date.d <= 31
    ensures DaysFromCivil(v, date.m, date.d) * 86400 + SecondOf(t) == t <==> v == date.y
  {
    hide CivilFromDays, DaysFromCivil, DayOf;
    DaysOfCivil(DayOf(t));
    YearOfShiftedDate(date.y, date.m, date.d, v);
    assert t == DayOf(t) * 86400 + SecondOf(t);
  }

  lemma RefusedYear(year: string, m: int, d: int, time: string)
    requires |year| >= 4 && 1 <= m <= 12 && 1 <= d <= 31 && |time| >= 9
    requires year[0] == '-' || (|year| > 4 && year[4] != '-')
    ensures Parse(DateText(year, m, d, time)[..20]) == None
  {
    var s := DateText(year, m, d, time)[..20];
    if year[0] == '-' {
      assert s[0..4][..1] == "-";
      NotAllDigits(s[0..4], 1);
    } else {
      assert s[4] == year[4];
    }
  }

  // ----- which texts are written as they are read -----

  lemma TwoDigits(s: string)
    requires |s| == 2 && Uint(s).Some?
    ensures 0 <= Uint(s).value < 100 && s == Dec2(Uint(s).value)
  {
    assert s[..1][..0] == "" && s[..1][0] == s[0];
    assert DigitsValue(s[..1]) == Some(s[0] as int - '0' as int);
  }

  lemma DigitsStep(s: string)
    requires s != "" && DigitsValue(s).Some?
    ensures var init, c := s[..|s| - 1], s[|s| - 1];
      && DigitsValue(init).Some? && '0' <= c <= '9'
      && DigitsValue(s).value == DigitsValue(init).value * 10 + (c as int - '0' as int)
  {
  }

  lemma FourDigits(s: string)
    requires |s| == 4 && Uint(s).Some?
    ensures Uint(s).value <= 9999 && s == Year04(Uint(s).value)
  {
    hide Year04, Dec2, DigitsValue;
    DigitsStep(s);
    DigitsStep(s[..3]);
    assert s[..3][..2] == s[..2] && s[..3][2] == s[2];
    TwoDigits(s[..2]);
    LastTwo(s[2], s[3]);
    assert s == s[..2] + [s[2], s[3]];
    Year04Digits(Uint(s).value);
  }

  lemma LastTwo(a: char, b: char)
    requires '0' <= a <= '9' && '0' <= b <= '9'
    ensures [a, b] == Dec2((a as int - '0' as int) * 10 + b as int - '0' as int)
  {
  }

  /** The date a text names, whether the month has that day or not. */
  function DateOf(s: string): Date
    requires Parse(s).Some?
  {
    Date(Uint(s[0..4]).value, Uint(s[5..7]).value, Uint(s[8..10]).value)
  }

  function SecondsOf(s: string): int
    requires Parse(s).Some?
  {
    Uint(s[11..13]).value * 3600 + Uint(s[14..16]).value * 60 + Uint(s[17..19]).value
  }

  /** No fraction, capital letters, no leap second, and a day the month has. */
  predicate Normal(s: string)
    requires Parse(s).Some?
  {
    |s| == 20 && s[10] == 'T' && s[19] == 'Z' && Uint(s[17..19]).value <= 59 && Valid(DateOf(s))
  }

  /** An accepted text is what its time is written as exactly when it is a normal one. */
  lemma FormatOfParse(s: string)
    requires Parse(s).Some?
    ensures Format(Parse(s).value) == s <==> Normal(s)
  {
    hide Format, Parse, Normal;
    if Normal(s) { FormatOfNormal(s); }
    if Format(Parse(s).value) == s { FormattedIsNormal(s, Parse(s).value); }
  }

  lemma FormatOfNormal(s: string)
    requires Parse(s).Some? && Normal(s)
    ensures Format(Parse(s).value) == s
  {
    var date, secs := DateOf(s), SecondsOf(s);
    var t := Parse(s).value;
    ParseIs(s);
    TextOfFields(s, secs);
    DayFromTime(t, DaysFromCivil(date.y, date.m, date.d), secs);
    CivilOfDays(date);
    FourDigits(s[0..4]);
    WrittenAs(t, date, secs);
    hide *;
  }

  lemma ParseIs(s: string)
    requires Parse(s).Some?
    ensures Parse(s).value == DaysFromCivil(DateOf(s).y, DateOf(s).m, DateOf(s).d) * 86400 + SecondsOf(s)
  {
    hide DaysFromCivil, Uint;
  }

  lemma DayFromTime(t: int, n: int, secs: int)
    requires t == n * 86400 + secs && 0 <= secs < 86400
    ensures DayOf(t) == n && SecondOf(t) == secs
  {
    DayIsFloor(t);
  }

  lemma WrittenAs(t: int, date: Date, secs: int)
    requires CivilFromDays(DayOf(t)) == date && SecondOf(t) == secs && 0 <= date.y <= 9999
    ensures 0 <= secs < 86400 && 1 <= date.m <= 12 && 1 <= date.d <= 31
    ensures Format(t) == DateText(Year04(date.y), date.m, date.d, TimeText(secs))[..20]
  {
    hide CivilFromDays, DayOf, DateText, TimeText, Year04;
    DaysOfCivil(DayOf(t));
    DayIsFloor(t);
  }

  lemma TextOfFields(s: string, secs: int)
    requires Parse(s).Some? && Normal(s) && secs == SecondsOf(s)
    ensures 0 <= secs < 86400
    ensures DateText(s[0..4], DateOf(s).m, DateOf(s).d, TimeText(secs)) == s
  {
    hide Uint, Valid, Dec2;
    TwoDigits(s[5..7]);
    TwoDigits(s[8..10]);
    TwoDigits(s[11..13]);
    TwoDigits(s[14..16]);
    TwoDigits(s[17..19]);
    TimeParts(Uint(s[11..13]).value, Uint(s[14..16]).value, Uint(s[17..19]).value);
    Fields(s);
    hide Parse;
  }

  lemma TimeParts(h: nat, m: nat, s: nat)
    requires h < 24 && m < 60 && s < 60
    ensures var secs := h * 3600 + m * 60 + s;
      0 <= secs < 86400 && secs / 3600 == h && secs / 60 % 60 == m && secs % 60 == s
  {
  }

  lemma Fields(s: string)
    requires |s| == 20
    ensures s == s[0..4] + ([s[4]] + (s[5..7] + ([s[7]] + (s[8..10] + ([s[10]]
                 + (s[11..13] + ([s[13]] + (s[14..16] + ([s[16]] + (s[17..19] + [s[19]]))))))))))
  {
  }

  lemma FormattedIsNormal(s: string, t: int)
    requires Parse(s) == Some(t) && Format(t) == s
    ensures Normal(s)
  {
    hide CivilFromDays, DaysFromCivil, DayOf, Year04, Dec2, Uint, Valid, DateText, TimeText, Parse;
    RoundTrip(t);
    DaysOfCivil(DayOf(t));
    DayIsFloor(t);
    var date, secs := CivilFromDays(DayOf(t)), SecondOf(t);
    WrittenAs(t, date, secs);
    Year04Shape(date.y);
    SecondsSplit(secs);
    TextAt(Year04(date.y), date.m, date.d, TimeText(secs));
    TimeAt(secs);
    assert DateText(Year04(date.y), date.m, date.d, TimeText(secs))[..20] == s;
    TwoAt(s, 5, date.m);
    TwoAt(s, 8, date.d);
    TwoAt(s, 17, secs % 60);
    assert s[11..][8] == s[19];
    assert s[0..4] == Year04(date.y);
    assert ToInt32(date.y) == date.y;
    assert DateOf(s) == date;
  }

  function ClockText(h: int, mi: int, se: int): string
    requires 0 <= h < 100 && 0 <= mi < 100 && 0 <= se < 100
  {
    Dec2(h) + (":" + (Dec2(mi) + (":" + (Dec2(se) + "Z"))))
  }

  lemma ClockAt(h: int, mi: int, se: int)
    requires 0 <= h < 100 && 0 <= mi < 100 && 0 <= se < 100
    ensures var s := ClockText(h, mi, se);
      && |s| == 9 && s[2] == ':' && s[5] == ':' && s[8] == 'Z'
      && s[0] == Dec2(h)[0] && s[1] == Dec2(h)[1] && s[3] == Dec2(mi)[0] && s[4] == Dec2(mi)[1]
      && s[6] == Dec2(se)[0] && s[7] == Dec2(se)[1]
  {
  }

  /** A text of any two-digit fields is accepted exactly in the usual ranges, with the
      31st of every month and second 60, and is the time it says. */
  lemma ParseFields(y: int, mo: int, d: int, h: int, mi: int, se: int)
    requires 0 <= y <= 9999 && 0 <= mo < 100 && 0 <= d < 100 && 0 <= h < 100 && 0 <= mi < 100 && 0 <= se < 100
    ensures Parse(DateText(Year04(y), mo, d, ClockText(h, mi, se)))
         == if 1 <= mo <= 12 && 1 <= d <= 31 && h <= 23 && mi <= 59 && se <= 60
            then Some(DaysFromCivil(y, mo, d) * 86400 + h * 3600 + mi * 60 + se) else None
  {
    hide Uint, DaysFromCivil, DateText, ClockText, Dec2, Year04;
    var s := DateText(Year04(y), mo, d, ClockText(h, mi, se));
    Year04Shape(y);
    ClockAt(h, mi, se);
    TextAt(Year04(y), mo, d, ClockText(h, mi, se));
    assert forall i :: 0 <= i < 9 ==> s[11..][i] == s[11 + i];
    TwoAt(s, 5, mo);
    TwoAt(s, 8, d);
    TwoAt(s, 11, h);
    TwoAt(s, 14, mi);
    TwoAt(s, 17, se);
    assert s[0..4] == Year04(y);
  }

  /** A fraction and lower-case letters are read as if they were not there. */
  lemma ParseIgnores(s: string, fraction: string)
    requires |s| == 20 && s[10] == 'T' && s[19] == 'Z'
    ensures Parse(s[..19] + "." + fraction + "Z") == Parse(s)
    ensures Parse(s[..10] + "t" + s[11..19] + "z") == Parse(s)
  {
    hide Uint, DaysFromCivil;
    var a, b := s[..19] + "." + fraction + "Z", s[..10] + "t" + s[11..19] + "z";
    SameFields(s, a);
    SameFields(s, b);
  }

  lemma SameFields(s: string, t: string)
    requires |s| == 20 && |t| >= 20 && forall i :: 0 <= i < 19 && i != 10 ==> s[i] == t[i]
    ensures s[0..4] == t[0..4] && s[5..7] == t[5..7] && s[8..10] == t[8..10]
    ensures s[11..13] == t[11..13] && s[14..16] == t[14..16] && s[17..19] == t[17..19]
  {
  }

  /** Three times as they are written. */
  lemma Samples()
    ensures Format(0) == "1970-01-01T00:00:00Z"
    ensures Format(1_000_000_000) == "2001-09-09T01:46:40Z"
    ensures Format(-1) == "1969-12-31T23:59:59Z"
  {
    hide *;
    SampleEpoch();
    SampleBillion();
    SampleBefore();
  }

  lemma SampleEpoch()
    ensures Format(0) == "1970-01-01T00:00:00Z"
  {
    hide TextOf, Format, Valid, DaysFromCivil;
    EpochDay();
    Sample(0, Date(1970, 1, 1), 0, 0);
    EpochText();
  }

  lemma EpochDay()
    ensures DaysFromCivil(1970, 1, 1) == 0 && Valid(Date(1970, 1, 1))
  {
  }

  lemma EpochText()
    ensures TextOf(19, 70, 1, 1, 0, 0, 0) == "1970-01-01T00:00:00Z"
  {
  }

  lemma SampleBillion()
    ensures Format(1_000_000_000) == "2001-09-09T01:46:40Z"
  {
    hide TextOf, Format, Valid, DaysFromCivil;
    BillionDay();
    Sample(1_000_000_000, Date(2001, 9, 9), 11574, 6400);
    BillionText();
  }

  lemma BillionDay()
    ensures DaysFromCivil(2001, 9, 9) == 11574 && Valid(Date(2001, 9, 9))
  {
  }

  lemma BillionText()
    ensures TextOf(20, 1, 9, 9, 1, 46, 40) == "2001-09-09T01:46:40Z"
  {
  }

  lemma SampleBefore()
    ensures Format(-1) == "1969-12-31T23:59:59Z"
  {
    hide TextOf, Format, Valid, DaysFromCivil;
    BeforeDay();
    Sample(-1, Date(1969, 12, 31), -1, 86399);
    BeforeText();
  }

  lemma BeforeDay()
    ensures DaysFromCivil(1969, 12, 31) == -1 && Valid(Date(1969, 12, 31))
  {
  }

  lemma BeforeText()
    ensures TextOf(19, 69, 12, 31, 23, 59, 59) == "1969-12-31T23:59:59Z"
  {
  }

  /** Century, year, month, day, hour, minute and second in two digits each. */
  function TextOf(c: int, y: int, m: int, d: int, h: int, mi: int, s: int): string
    requires 0 <= c < 100 && 0 <= y < 100 && 0 <= m < 100 && 0 <= d < 100
    requires 0 <= h < 100 && 0 <= mi < 100 && 0 <= s < 100
  {
    Dec2(c) + Dec2(y) + ("-" + (Dec2(m) + ("-" + (Dec2(d) + ("T" + (Dec2(h) + (":" + (Dec2(mi) + (":" + (Dec2(s) + "Z"))))))))))
  }

  lemma Sample(t: int, date: Date, day: int, secs: int)
    requires Valid(date) && 0 <= date.y <= 9999 && 1 <= date.m <= 12 && 1 <= date.d <= 31 && 0 <= secs < 86400
    requires DaysFromCivil(date.y, date.m, date.d) == day && t == day * 86400 + secs
    ensures Format(t) == TextOf(date.y / 100, date.y % 100, date.m, date.d, secs / 3600, secs / 60 % 60, secs % 60)
  {
    hide Format, CivilFromDays, DaysFromCivil, DayOf, Year04, Dec2;
    SecondsSplit(secs);
    DayFromTime(t, day, secs);
    CivilOfDays(date);
    WrittenAs(t, date, secs);
    Year04Digits(date.y);
    Year04Shape(date.y);
    WholeText(Year04(date.y), date.m, date.d, secs);
  }

  lemma WholeText(year: string, m: int, d: int, secs: int)
    requires |year| == 4 && 0 <= m < 100 && 0 <= d < 100 && 0 <= secs < 86400
    ensures DateText(year, m, d, TimeText(secs))[..20] == DateText(year, m, d, TimeText(secs))
  {
    TimeAt(secs);
    TextAt(year, m, d, TimeText(secs));
    hide DateText, TimeText;
  }

  // ----- order -----

  predicate Less(a: string, b: string) {
    if a == "" then b != ""
    else b != "" && (a[0] < b[0] || (a[0] == b[0] && Less(a[1..], b[1..])))
  }

  lemma {:induction false} LessAsymmetric(a: string, b: string)
    ensures Less(a, b) ==> !Less(b, a) && a != b
  {
    if a != "" && b != "" { LessAsymmetric(a[1..], b[1..]); }
  }

  lemma {:induction false} LessTail(p: string, x: string, y: string)
    requires Less(x, y)
    ensures Less(p + x, p + y)
  {
    if p == "" {
      assert p + x == x && p + y == y;
    } else {
      assert (p + x)[1..] == p[1..] + x && (p + y)[1..] == p[1..] + y;
      LessTail(p[1..], x, y);
    }
  }

  lemma {:induction false} LessHead(a: string, b: string, x: string, y: string)
    requires |a| == |b| && Less(a, b)
    ensures Less(a + x, b + y)
  {
    assert (a + x)[1..] == a[1..] + x && (b + y)[1..] == b[1..] + y;
    if a[0] == b[0] { LessHead(a[1..], b[1..], x, y); }
  }

  lemma Dec2Less(n: int, k: int)
    requires 0 <= n < k < 100
    ensures Less(Dec2(n), Dec2(k))
  {
    var a, b := Dec2(n), Dec2(k);
    assert a[1..] == [Digit(n % 10)] && b[1..] == [Digit(k % 10)];
  }

  lemma Year04Less(n: int, k: int)
    requires 0 <= n < k <= 9999
    ensures |Year04(n)| == |Year04(k)| == 4 && Less(Year04(n), Year04(k))
  {
    hide Year04, Less;
    Year04Shape(n);
    Year04Shape(k);
    Year04Digits(n);
    Year04Digits(k);
    if n / 100 < k / 100 {
      Dec2Less(n / 100, k / 100);
      LessHead(Dec2(n / 100), Dec2(k / 100), Dec2(n % 100), Dec2(k % 100));
    } else {
      Dec2Less(n % 100, k % 100);
      LessTail(Dec2(n / 100), Dec2(n % 100), Dec2(k % 100));
    }
  }

  lemma Year04Digits(n: int)
    requires 0 <= n <= 9999
    ensures Year04(n) == Dec2(n / 100) + Dec2(n % 100)
  {
    DecimalShort(n);
    if n >= 100 {
      DecimalLong(n);
      DecimalShort(n / 100);
    }
    PadLow(n);
  }

  lemma PadLow(n: int)
    requires 0 <= n <= 9999
    requires n < 10 ==> Decimal(n) == [Digit(n)]
    requires 10 <= n < 100 ==> Decimal(n) == Dec2(n)
    requires 100 <= n < 1000 ==> Decimal(n) == [Digit(n / 100)] + Dec2(n % 100)
    requires n >= 1000 ==> Decimal(n) == Dec2(n / 100) + Dec2(n % 100)
    ensures Pad(Decimal(n), 4) == Dec2(n / 100) + Dec2(n % 100)
  {
    hide Decimal;
    assert Zeros(1) == "0" && Zeros(2) == "00" && Zeros(3) == "000";
    if n < 100 { assert Dec2(n / 100) == "00"; }
    if n < 10 { assert Dec2(n) == "0" + [Digit(n)]; }
    if 100 <= n < 1000 { assert Dec2(n / 100) == "0" + [Digit(n / 100)]; }
  }

  lemma TimeLess(a: int, b: int)
    requires 0 <= a < b < 86400
    ensures Less(TimeText(a), TimeText(b))
  {
    hide Less;
    SecondsSplit(a);
    SecondsSplit(b);
    var sa, sb := Dec2(a % 60) + "Z", Dec2(b % 60) + "Z";
    var ma, mb := Dec2(a / 60 % 60) + (":" + sa), Dec2(b / 60 % 60) + (":" + sb);
    if a / 3600 < b / 3600 {
      Dec2Less(a / 3600, b / 3600);
      LessHead(Dec2(a / 3600), Dec2(b / 3600), ":" + ma, ":" + mb);
    } else {
      if a / 60 % 60 < b / 60 % 60 {
        Dec2Less(a / 60 % 60, b / 60 % 60);
        LessHead(Dec2(a / 60 % 60), Dec2(b / 60 % 60), ":" + sa, ":" + sb);
      } else {
        Dec2Less(a % 60, b % 60);
        LessHead(Dec2(a % 60), Dec2(b % 60), "Z", "Z");
        LessTail(":", sa, sb);
        LessTail(Dec2(a / 60 % 60), ":" + sa, ":" + sb);
      }
      LessTail(":", ma, mb);
      LessTail(Dec2(a / 3600), ":" + ma, ":" + mb);
    }
  }

  lemma DateLess(a: Date, b: Date, x: string, y: string)
    requires Valid(a) && Valid(b) && a.d <= 31 && b.d <= 31
    requires 0 <= a.y <= 9999 && 0 <= b.y <= 9999
    requires Earlier(a, b) || (a == b && Less(x, y))
    ensures Less(DateText(Year04(a.y), a.m, a.d, x), DateText(Year04(b.y), b.m, b.d, y))
  {
    var da, db := Dec2(a.d) + ("T" + x), Dec2(b.d) + ("T" + y);
    var ma, mb := Dec2(a.m) + ("-" + da), Dec2(b.m) + ("-" + db);
    hide Less, Year04;
    if a.y < b.y {
      Year04Less(a.y, b.y);
      LessHead(Year04(a.y), Year04(b.y), "-" + ma, "-" + mb);
    } else {
      if a.m < b.m {
        Dec2Less(a.m, b.m);
        LessHead(Dec2(a.m), Dec2(b.m), "-" + da, "-" + db);
      } else {
        if a.d < b.d {
          Dec2Less(a.d, b.d);
          LessHead(Dec2(a.d), Dec2(b.d), "T" + x, "T" + y);
        } else {
          LessTail("T", x, y);
          LessTail(Dec2(a.d), "T" + x, "T" + y);
        }
        LessTail("-", da, db);
        LessTail(Dec2(a.m), "-" + da, "-" + db);
      }
      LessTail("-", ma, mb);
      LessTail(Year04(a.y), "-" + ma, "-" + mb);
    }
  }

  lemma FormatWhole(t: int)
    requires 0 <= YearOf(t) <= 9999
    ensures var date := CivilFromDays(DayOf(t));
      && Valid(date) && date.d <= 31 && 0 <= SecondOf(t) < 86400
      && Format(t) == DateText(Year04(date.y), date.m, date.d, TimeText(SecondOf(t)))
  {
    hide CivilFromDays, DaysFromCivil, DayOf, Year04;
    DaysOfCivil(DayOf(t));
    DayIsFloor(t);
    var date := CivilFromDays(DayOf(t));
    Year04Shape(date.y);
    var text := DateText(Year04(date.y), date.m, date.d, TimeText(SecondOf(t)));
    assert |text| == 20 && text[..20] == text;
  }

  lemma FormatLess(a: int, b: int)
    requires a < b && 0 <= YearOf(a) <= 9999 && 0 <= YearOf(b) <= 9999
    ensures Less(Format(a), Format(b))
  {
    FormatWhole(a);
    FormatWhole(b);
    DayOrSecondLess(a, b);
    hide Format, CivilFromDays, DateText, TimeText, Less, Year04, DayOf, SecondOf;
    if DayOf(a) < DayOf(b) {
      CivilMonotone(DayOf(a), DayOf(b));
    } else {
      TimeLess(SecondOf(a), SecondOf(b));
    }
    DateLess(CivilFromDays(DayOf(a)), CivilFromDays(DayOf(b)),
             TimeText(SecondOf(a)), TimeText(SecondOf(b)));
  }

  lemma DayOrSecondLess(a: int, b: int)
    requires a < b
    ensures DayOf(a) < DayOf(b) || (DayOf(a) == DayOf(b) && SecondOf(a) < SecondOf(b))
  {
    DayIsFloor(a);
    DayIsFloor(b);
  }

  /** Formatted times compare as text exactly as the times do, negative ones included. */
  lemma TextOrderIsTimeOrder(a: int, b: int)
    requires 0 <= YearOf(a) <= 9999 && 0 <= YearOf(b) <= 9999
    ensures Less(Format(a), Format(b)) <==> a < b
  {
    LessAsymmetric(Format(a), Format(b));
    if a < b { FormatLess(a, b); }
    if b < a { FormatLess(b, a); }
  }
}
