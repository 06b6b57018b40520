/**
 Wall-clock input in Korean time (frontend/src/display/format.ts): reading a
 `datetime-local` text as KST, and writing an instant back into the field.
 */
module Kst {
  import opened Prelude
  import opened Digits
  import DecimalText
  import opened Calendar

  /** KST is UTC+09:00 all year. */
  const KST_OFFSET := 9 * MS_PER_HOUR

  /** The fields of `2026-09-20T09:30`, as written. */
  datatype Wall = Wall(year: int, month: int, day: int, hour: int, minute: int)

  /** `width` digits of n, zero-filled. */
  function Fixed(n: int, width: nat): (s: string)
    requires 0 <= n < Pow10(width)
    ensures AllDigits(s) && |s| == width && Value(s) == n
  {
    if width == 0 then []
    else
      var s := Fixed(n / 10, width - 1) + [DigitChar(n % 10)];
      assert s[..|s| - 1] == Fixed(n / 10, width - 1);
      s
  }

  lemma FixedUnique(s: string)
    requires AllDigits(s)
    ensures Value(s) < Pow10(|s|) && Fixed(Value(s), |s|) == s
  {
    ValueBound(s);
    SameLengthSameValue(Fixed(Value(s), |s|), s);
  }

  lemma SmallPowers()
    ensures Pow10(2) == 100 && Pow10(3) == 1000 && Pow10(4) == 10000
  {
    assert Pow10(1) == 10;
  }

  /** The form `dddd-dd-ddTdd:dd` on the whole text. */
  predicate IsLocalInput(t: string) {
    && |t| == 16 && t[4] == '-' && t[7] == '-' && t[10] == 'T' && t[13] == ':'
    && AllDigits(t[..4]) && AllDigits(t[5..7]) && AllDigits(t[8..10]) && AllDigits(t[11..13]) && AllDigits(t[14..])
  }

  function Fields(t: string): (w: Wall)
    requires IsLocalInput(t)
    ensures 0 <= w.year < 10000 && 0 <= w.month < 100 && 0 <= w.day < 100 && 0 <= w.hour < 100 && 0 <= w.minute < 100
  {
    SmallPowers();
    ValueBound(t[..4]);
    ValueBound(t[5..7]);
    ValueBound(t[8..10]);
    ValueBound(t[11..13]);
    ValueBound(t[14..]);
    Wall(Value(t[..4]), Value(t[5..7]), Value(t[8..10]), Value(t[11..13]), Value(t[14..]))
  }

  /** A wall-clock time that exists: a date of the Gregorian calendar and a time of day. */
  predicate RealWall(w: Wall): (ok: bool)
    ensures ok ==> 1 <= w.month <= 12 && 1 <= w.day <= 31
  {
    RealDate(w.year, w.month, w.day) && 0 <= w.hour < 24 && 0 <= w.minute < 60
  }

  /** `Date.UTC`: overflowing fields roll into the next one, and the years 0 to 99 mean
      1900 to 1999. */
  function DateUtc(year: int, monthIndex: int, day: int, hour: int, minute: int): int {
    var y := if 0 <= year <= 99 then 1900 + year else year;
    MakeDate(MakeDay(y, monthIndex, day), MakeTime(hour, minute))
  }

  /** The UTC fields of a time value. */
  function UtcFields(t: int): Wall {
    var date := DateOfDay(Day(t));
    Wall(date.year, date.month, date.day, HourOf(t), MinuteOf(t))
  }

  /** The roll-over test: put on the UTC calendar, do the written fields come back? */
  predicate SurvivesUtc(w: Wall) {
    UtcFields(DateUtc(w.year, w.month - 1, w.day, w.hour, w.minute)) == w
  }

  /** The instant a wall-clock time means when read as UTC+09:00. */
  function KstInstant(w: Wall): int {
    MakeDate(MakeDay(w.year, w.month - 1, w.day), MakeTime(w.hour, w.minute)) - KST_OFFSET
  }

  /** `toISOString` for the years 0 to 9999 and whole minutes: `YYYY-MM-DDTHH:mm:00.000Z`. */
  function IsoText(t: int): string
    requires 0 <= UtcFields(t).year < 10000
  {
    var w := UtcFields(t);
    ClockBounds(t);
    SmallPowers();
    Fixed(w.year, 4) + "-" + Fixed(w.month, 2) + "-" + Fixed(w.day, 2) + "T"
    + Fixed(w.hour, 2) + ":" + Fixed(w.minute, 2) + ":00.000Z"
  }

  lemma ClockBounds(t: int)
    ensures RealWall(UtcFields(t))
  {
  }

  /** Reading such a text back as an instant. */
  function ParseIso(s: string): Option<int> {
    if |s| == 24 && s[16..] == ":00.000Z" && IsLocalInput(s[..16]) then
      var w := Fields(s[..16]);
      if RealWall(w) then Some(MakeDate(MakeDay(w.year, w.month - 1, w.day), MakeTime(w.hour, w.minute))) else None
    else None
  }

  /** The field value as KST, sent to the server as a UTC text. */
  function KstInputToIso(local: string): Option<string> {
    var t := DecimalText.Trim(local);
    if !IsLocalInput(t) then None else
    var w := Fields(t);
    if !SurvivesUtc(w) then None else
    var at := KstInstant(w);
    AcceptedInstant(w);
    Some(IsoText(at))
  }

  /** The decimal numeral of the year, as the date formatter writes it: no padding. */
  function YearText(y: int): string
    requires y >= 0
  {
    Numeral(y)
  }

  /** The fields of a date and time put together. `midnight24` is a formatter that writes
      hour 24. */
  function Shown(w: Wall, midnight24: bool): string
    requires RealWall(w) && w.year >= 0
  {
    SmallPowers();
    var written := if w.hour == 0 && midnight24 then "24" else Fixed(w.hour, 2);
    var hour := if written == "24" then "00" else written;
    YearText(w.year) + "-" + Fixed(w.month, 2) + "-" + Fixed(w.day, 2) + "T" + hour + ":" + Fixed(w.minute, 2)
  }

  /** An instant as the field shows it. */
  function ToKstInput(value: string, midnight24: bool): string {
    match ParseIso(value)
    case None => ""
    case Some(at) =>
      ClockBounds(at + KST_OFFSET);
      var w := UtcFields(at + KST_OFFSET);
      if w.year < 0 then "" else Shown(w, midnight24)
  }

  // ---- The roll-over test is the calendar ----

  /** A wall-clock time that exists comes back unchanged. */
  lemma RealComesBack(w: Wall)
    requires RealWall(w)
    ensures UtcFields(MakeDate(MakeDay(w.year, w.month - 1, w.day), MakeTime(w.hour, w.minute))) == w
  {
    hide DateOfDay, MakeDay;
    ClockOfMadeDate(MakeDay(w.year, w.month - 1, w.day), w.hour, w.minute);
    DateOfMadeDay(w.year, w.month, w.day);
  }

  /** Nothing rolls from the year 1900 or later below the year 1898. */
  lemma NeverEarly(year: int, monthIndex: int, day: int, hour: int, minute: int)
    requires 0 <= year <= 99 && monthIndex >= -1 && day >= 0 && hour >= 0 && minute >= 0
    ensures UtcFields(DateUtc(year, monthIndex, day, hour, minute)).year >= 1898
  {
    hide DayFromYear, MonthStart;
    var t := DateUtc(year, monthIndex, day, hour, minute);
    var y, m := 1900 + year + monthIndex / 12, monthIndex % 12 + 1;
    assert y >= 1899;
    YearsGrow(1899, y);
    DecemberDay(y, m);
    YearsGrow(1898, 1899);
    assert t >= MS_PER_DAY * (DayFromYear(1899) - 1);
    if UtcFields(t).year < 1898 {
      YearsGrow(UtcFields(t).year + 1, 1898);
    }
  }

  lemma DecemberDay(y: int, m: int)
    requires 1 <= m <= 12
    ensures MonthStart(y, m) >= 0
  {
    MonthsGrow(y, 1, m);
  }

  /** The test passes exactly on the wall-clock times that exist, from the year 100 on:
      `Date.UTC` reads the years 0 to 99 as 1900 to 1999, so those never come back. */
  lemma SurvivesExactly(w: Wall)
    requires 0 <= w.year && 0 <= w.month && 0 <= w.day && 0 <= w.hour && 0 <= w.minute
    ensures SurvivesUtc(w) <==> RealWall(w) && w.year >= 100
  {
    hide DateOfDay, MakeDay;
    ClockBounds(DateUtc(w.year, w.month - 1, w.day, w.hour, w.minute));
    if w.year <= 99 {
      NeverEarly(w.year, w.month - 1, w.day, w.hour, w.minute);
    } else if RealWall(w) {
      RealComesBack(w);
    }
  }

  /** The instant nine hours earlier still has a four-digit year. */
  lemma AcceptedInstant(w: Wall)
    requires 0 <= w.year < 10000 && 0 <= w.month && 0 <= w.day && 0 <= w.hour && 0 <= w.minute
    requires SurvivesUtc(w)
    ensures RealWall(w) && w.year >= 100
    ensures 99 <= UtcFields(KstInstant(w)).year < 10000
  {
    hide UtcFields, MakeDay, SurvivesUtc, RealDate;
    SurvivesExactly(w);
    RealComesBack(w);
    YearBefore(KstInstant(w), w.year);
  }

  /** Nine hours before an instant of year y, it is year y or the year before. */
  lemma YearBefore(t: int, y: int)
    requires UtcFields(t + KST_OFFSET).year == y
    ensures y - 1 <= UtcFields(t).year <= y
  {
    hide DayFromYear, Leap, MonthFromDay, MonthStart;
    var d, e := Day(t + KST_OFFSET), Day(t);
    assert d - 1 <= e <= d;
    var z := YearFromDay(e);
    YearsGrow(y - 1, y);
    if z < y - 1 {
      YearsGrow(z + 1, y - 1);
    } else if y < z {
      YearsGrow(y + 1, z);
    }
  }

  /** The field is accepted exactly when it is written in the form and names a date and
      time that exist, in the year 100 or later: the year in front, then month, day, hour
      and minute. */
  lemma AcceptsExactly(local: string, t: string)
    requires t == DecimalText.Trim(local)
    ensures KstInputToIso(local).Some? <==>
      && IsLocalInput(t)
      && RealDate(Value(t[..4]), Value(t[5..7]), Value(t[8..10])) && Value(t[..4]) >= 100
      && Value(t[11..13]) < 24 && Value(t[14..]) < 60
  {
    hide DecimalText.Trim, SurvivesUtc, IsoText, RealDate, Value;
    if IsLocalInput(t) {
      SurvivesExactly(Fields(t));
    }
  }

  // ---- Texts and back ----

  function LocalText(w: Wall): string
    requires 0 <= w.year < 10000 && 0 <= w.month < 100 && 0 <= w.day < 100 && 0 <= w.hour < 100 && 0 <= w.minute < 100
  {
    SmallPowers();
    Fixed(w.year, 4) + "-" + Fixed(w.month, 2) + "-" + Fixed(w.day, 2) + "T" + Fixed(w.hour, 2) + ":" + Fixed(w.minute, 2)
  }

  lemma FieldsOfText(w: Wall)
    requires 0 <= w.year < 10000 && 0 <= w.month < 100 && 0 <= w.day < 100 && 0 <= w.hour < 100 && 0 <= w.minute < 100
    ensures IsLocalInput(LocalText(w)) && Fields(LocalText(w)) == w
  {
    hide Fixed, Value, Pow10;
    SmallPowers();
    var t := LocalText(w);
    assert t[..4] == Fixed(w.year, 4);
    assert t[5..7] == Fixed(w.month, 2);
    assert t[8..10] == Fixed(w.day, 2);
    assert t[11..13] == Fixed(w.hour, 2);
    assert t[14..] == Fixed(w.minute, 2);
  }

  lemma TextOfFields(t: string)
    requires IsLocalInput(t)
    ensures LocalText(Fields(t)) == t
  {
    hide Fixed, Value, Pow10;
    SmallPowers();
    FixedUnique(t[..4]);
    FixedUnique(t[5..7]);
    FixedUnique(t[8..10]);
    FixedUnique(t[11..13]);
    FixedUnique(t[14..]);
    assert t == t[..4] + [t[4]] + t[5..7] + [t[7]] + t[8..10] + [t[10]] + t[11..13] + [t[13]] + t[14..];
  }

  /** The UTC text denotes exactly the instant it was written for. */
  lemma ParseIsoText(t: int)
    requires 0 <= UtcFields(t).year < 10000 && t % MS_PER_MINUTE == 0
    ensures ParseIso(IsoText(t)) == Some(t)
  {
    hide UtcFields, LocalText, IsLocalInput, Fixed, RealWall, MakeDay;
    var w := UtcFields(t);
    ClockBounds(t);
    FieldsOfText(w);
    var s := IsoText(t);
    IsoIsLocal(t);
    FieldsMake(t);
  }

  lemma IsoIsLocal(t: int)
    requires 0 <= UtcFields(t).year < 10000
    ensures RealWall(UtcFields(t))
    ensures var s := IsoText(t); |s| == 24 && s[16..] == ":00.000Z" && s[..16] == LocalText(UtcFields(t))
  {
    hide UtcFields, Fixed;
    ClockBounds(t);
    assert IsoText(t) == LocalText(UtcFields(t)) + ":00.000Z";
  }

  lemma FieldsMake(t: int)
    requires t % MS_PER_MINUTE == 0
    ensures var w := UtcFields(t); RealWall(w) && MakeDate(MakeDay(w.year, w.month - 1, w.day), MakeTime(w.hour, w.minute)) == t
  {
    hide MakeDay, DateOfDay;
    ClockBounds(t);
    MadeDayOfDate(Day(t));
    MadeDateOfClock(t);
  }

  /** The text has the form of the field exactly from the year 1000 on. */
  lemma ShownText(w: Wall, midnight24: bool)
    requires RealWall(w) && 0 <= w.year < 10000
    ensures Shown(w, midnight24) == LocalText(w) <==> w.year >= 1000
  {
    hide Value, Pow10, Numeral, Fixed;
    SmallPowers();
    HourText(w.hour, midnight24);
    YearWidth(w.year);
    var rest := "-" + Fixed(w.month, 2) + "-" + Fixed(w.day, 2) + "T" + Fixed(w.hour, 2) + ":" + Fixed(w.minute, 2);
    assert LocalText(w) == Fixed(w.year, 4) + rest;
    assert Shown(w, midnight24) == YearText(w.year) + rest;
    if w.year < 1000 {
      assert |YearText(w.year) + rest| != |Fixed(w.year, 4) + rest|;
    }
  }

  /** Writing an instant into the field, for a year of four digits. */
  lemma FieldText(t: int, midnight24: bool)
    requires 0 <= UtcFields(t).year < 10000 && t % MS_PER_MINUTE == 0
    requires 0 <= UtcFields(t + KST_OFFSET).year < 10000
    ensures RealWall(UtcFields(t + KST_OFFSET))
    ensures ToKstInput(IsoText(t), midnight24) == LocalText(UtcFields(t + KST_OFFSET))
       <==> UtcFields(t + KST_OFFSET).year >= 1000
  {
    hide UtcFields, IsoText, ParseIso, LocalText, Shown;
    ParseIsoText(t);
    ClockBounds(t + KST_OFFSET);
    ShownText(UtcFields(t + KST_OFFSET), midnight24);
  }

  lemma HourText(hour: int, midnight24: bool)
    requires 0 <= hour < 24
    ensures hour < Pow10(2)
    ensures Fixed(hour, 2) != "24" && Fixed(0, 2) == "00"
  {
    SmallPowers();
    assert Value("24") == 24 by {
      assert "24"[..1] == "2" && "2"[..0] == [];
    }
    assert Value("00") == 0 by {
      assert "00"[..1] == "0" && "0"[..0] == [];
    }
    SameLengthSameValue(Fixed(0, 2), "00");
  }

  /** A year is written in four digits by both exactly from the year 1000 on. */
  lemma YearWidth(y: int)
    requires 0 <= y < 10000
    ensures y < Pow10(4)
    ensures y >= 1000 ==> YearText(y) == Fixed(y, 4)
    ensures y < 1000 ==> |YearText(y)| < 4
  {
    SmallPowers();
    NumeralValue(y);
    ValueBound(Numeral(y));
    if y < 1000 {
      NumeralLength(y, 3);
    } else {
      NumeralLength(y, 4);
      if |Numeral(y)| < 4 {
        Pow10Monotone(|Numeral(y)|, 3);
      }
      SameLengthSameValue(Numeral(y), Fixed(y, 4));
    }
  }

  // ---- Nine hours ----

  /** The date and time nine hours earlier, on the calendar sheet and the clock. */
  function NineHoursBefore(w: Wall): (v: Wall)
    requires RealWall(w)
    ensures RealWall(v)
  {
    if w.hour >= 9 then Wall(w.year, w.month, w.day, w.hour - 9, w.minute)
    else
      var date := DayBefore(Date(w.year, w.month, w.day));
      DayBeforeFollows(Date(w.year, w.month, w.day));
      Wall(date.year, date.month, date.day, w.hour + 15, w.minute)
  }

  function NineHoursAfter(w: Wall): (v: Wall)
    requires RealWall(w)
    ensures RealWall(v)
  {
    if w.hour < 15 then Wall(w.year, w.month, w.day, w.hour + 9, w.minute)
    else
      var date := DayAfter(Date(w.year, w.month, w.day));
      DayNumbersFollow(Date(w.year, w.month, w.day));
      Wall(date.year, date.month, date.day, w.hour - 15, w.minute)
  }

  /** A date and time as a time value. */
  function TimeValue(w: Wall): int {
    MakeDate(MakeDay(w.year, w.month - 1, w.day), MakeTime(w.hour, w.minute))
  }

  lemma ClockShift(d: int, hour: int, minute: int)
    ensures MakeDate(d - 1, MakeTime(hour + 15, minute)) == MakeDate(d, MakeTime(hour, minute)) - 32400000
    ensures MakeDate(d, MakeTime(hour - 9, minute)) == MakeDate(d, MakeTime(hour, minute)) - 32400000
    ensures MakeDate(d + 1, MakeTime(hour - 15, minute)) == MakeDate(d, MakeTime(hour, minute)) + 32400000
    ensures MakeDate(d, MakeTime(hour + 9, minute)) == MakeDate(d, MakeTime(hour, minute)) + 32400000
  {
  }

  lemma EarlierValue(w: Wall)
    requires RealWall(w)
    ensures TimeValue(NineHoursBefore(w)) == TimeValue(w) - 32400000
  {
    hide MakeDay, MakeDate, MakeTime, DayBefore, DayAfter, RealDate;
    ClockShift(MakeDay(w.year, w.month - 1, w.day), w.hour, w.minute);
    if w.hour < 9 {
      var date := Date(w.year, w.month, w.day);
      DayBeforeFollows(date);
      DayNumbersFollow(DayBefore(date));
    }
  }

  lemma LaterValue(w: Wall)
    requires RealWall(w)
    ensures TimeValue(NineHoursAfter(w)) == TimeValue(w) + 32400000
  {
    hide MakeDay, MakeDate, MakeTime, DayBefore, DayAfter, RealDate;
    ClockShift(MakeDay(w.year, w.month - 1, w.day), w.hour, w.minute);
    if w.hour >= 15 {
      DayNumbersFollow(Date(w.year, w.month, w.day));
    }
  }

  lemma NineHoursBack(w: Wall)
    requires RealWall(w)
    ensures UtcFields(KstInstant(w)) == NineHoursBefore(w)
  {
    assert KstInstant(w) == TimeValue(w) - 32400000;
    RealBack(NineHoursBefore(w));
    EarlierValue(w);
    hide *;
  }

  lemma RealBack(w: Wall)
    ensures RealWall(w) ==> UtcFields(TimeValue(w)) == w
  {
    hide UtcFields, RealWall;
    if RealWall(w) {
      RealComesBack(w);
    }
  }

  lemma NineHoursOn(w: Wall)
    requires RealWall(w)
    ensures UtcFields(TimeValue(w) + KST_OFFSET) == NineHoursAfter(w)
  {
    assert KST_OFFSET == 32400000;
    RealBack(NineHoursAfter(w));
    LaterValue(w);
    hide *;
  }

  lemma OnMinute(w: Wall)
    ensures TimeValue(w) % MS_PER_MINUTE == 0
  {
    hide MakeDay;
    assert TimeValue(w) == MS_PER_MINUTE * (1440 * MakeDay(w.year, w.month - 1, w.day) + 60 * w.hour + w.minute);
  }

  /** What is sent: the UTC text of the written date and time, nine hours earlier - before
      nine o'clock that is a time of the day before on the calendar. */
  lemma SendsNineHoursEarlier(local: string)
    requires KstInputToIso(local).Some?
    ensures IsLocalInput(DecimalText.Trim(local)) && RealWall(Fields(DecimalText.Trim(local)))
    ensures var v := NineHoursBefore(Fields(DecimalText.Trim(local)));
      && 0 <= v.year < 10000
      && KstInputToIso(local) == Some(LocalText(v) + ":00.000Z")
  {
    hide DecimalText.Trim, UtcFields, LocalText, SurvivesUtc, Fixed;
    var w := Fields(DecimalText.Trim(local));
    AcceptedInstant(w);
    NineHoursBack(w);
    WrittenIso(KstInstant(w));
    hide IsoText, KstInstant, NineHoursBefore, RealWall;
  }

  /** What is shown: the date and time of a UTC text, nine hours later, for a year of four
      digits. */
  lemma ShowsNineHoursLater(v: Wall, midnight24: bool)
    requires RealWall(v) && 0 <= v.year < 10000 && 1000 <= NineHoursAfter(v).year < 10000
    ensures ToKstInput(LocalText(v) + ":00.000Z", midnight24) == LocalText(NineHoursAfter(v))
  {
    hide *;
    var t := TimeValue(v);
    NineHoursOn(v);
    RealBack(v);
    OnMinute(v);
    FieldText(t, midnight24);
    WrittenIso(t);
  }

  lemma WrittenIso(t: int)
    requires 0 <= UtcFields(t).year < 10000
    ensures RealWall(UtcFields(t)) && IsoText(t) == LocalText(UtcFields(t)) + ":00.000Z"
  {
    hide UtcFields, LocalText, IsoText;
    IsoIsLocal(t);
    var s := IsoText(t);
    assert s == s[..16] + s[16..];
  }

  /** What the field said, the field says again - exactly for the years from 1000 on. */
  lemma FieldRoundTrip(local: string, midnight24: bool)
    requires KstInputToIso(local).Some?
    ensures ToKstInput(KstInputToIso(local).value, midnight24) == DecimalText.Trim(local)
       <==> Fields(DecimalText.Trim(local)).year >= 1000
  {
    hide DecimalText.Trim, UtcFields, IsoText, MakeDay, LocalText, SurvivesUtc;
    var t := DecimalText.Trim(local);
    var w := Fields(t);
    AcceptedInstant(w);
    RealComesBack(w);
    TextOfFields(t);
    KstOnMinute(w);
    FieldText(KstInstant(w), midnight24);
  }

  lemma KstOnMinute(w: Wall)
    ensures KstInstant(w) % MS_PER_MINUTE == 0
    ensures KstInstant(w) + KST_OFFSET == MakeDate(MakeDay(w.year, w.month - 1, w.day), MakeTime(w.hour, w.minute))
  {
    hide MakeDay;
    var d := MakeDay(w.year, w.month - 1, w.day);
    assert KstInstant(w) == MS_PER_MINUTE * (1440 * d + 60 * w.hour + w.minute - 540);
  }

  /** The other way round: an instant on a whole minute that the field shows is read
      back as the same instant. */
  lemma InstantRoundTrip(t: int, midnight24: bool)
    requires t % MS_PER_MINUTE == 0
    requires 0 <= UtcFields(t).year < 10000 && 1000 <= UtcFields(t + KST_OFFSET).year < 10000
    ensures KstInputToIso(ToKstInput(IsoText(t), midnight24)) == Some(IsoText(t))
  {
    hide UtcFields, IsoText, MakeDay, LocalText, SurvivesUtc, DecimalText.Trim;
    var w := UtcFields(t + KST_OFFSET);
    FieldText(t, midnight24);
    ClockBounds(t + KST_OFFSET);
    FieldsOfText(w);
    TrimLocal(LocalText(w));
    SurvivesExactly(w);
    assert (t + KST_OFFSET) % MS_PER_MINUTE == 0;
    FieldsMake(t + KST_OFFSET);
  }

  lemma TrimLocal(t: string)
    requires IsLocalInput(t)
    ensures DecimalText.Trim(t) == t
  {
    assert IsDigit(t[..4][0]) && IsDigit(t[14..][1]);
  }
}
