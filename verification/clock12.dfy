/** `convert_time`: a 24-hour "HH:MM" time shown as a 12-hour "H:MM AM/PM" time. */
module Clock12 {
  import opened Wrappers
  import opened Digits
  import opened TimeText

  datatype Period = AM | PM

  /** A 12-hour clock reading: hour 1..12, minute 0..59 and the half of the day. */
  datatype Time12 = Time12(hour: int, minute: int, period: Period)

  predicate InRange24(hour: int, minute: int) {
    0 <= hour <= 23 && 0 <= minute <= 59
  }

  predicate Valid12(t: Time12) {
    1 <= t.hour <= 12 && 0 <= t.minute <= 59
  }

  /** The 24-hour hour a 12-hour reading stands for: 12 AM is 0, 12 PM is 12. */
  function Hour24(t: Time12): int {
    t.hour % 12 + (if t.period == PM then 12 else 0)
  }

  /** The arithmetic of convert_time: pick the period, then fold the hour into 1..12. */
  function To12(hour: int, minute: int): (t: Time12)
    requires InRange24(hour, minute)
    ensures Valid12(t) && t.minute == minute
    ensures t.period == AM <==> hour < 12
    ensures Hour24(t) == hour
  {
    var period := if hour < 12 then AM else PM;
    var h := hour % 12;
    Time12(if h == 0 then 12 else h, minute, period)
  }

  /** Two different 24-hour times never show as the same 12-hour time. */
  lemma To12Injective(h1: int, m1: int, h2: int, m2: int)
    requires InRange24(h1, m1) && InRange24(h2, m2)
    requires To12(h1, m1) == To12(h2, m2)
    ensures h1 == h2 && m1 == m2
  {
    assert Hour24(To12(h1, m1)) == h1;
    assert Hour24(To12(h2, m2)) == h2;
  }

  function PeriodText(p: Period): string {
    match p
    case AM => "AM"
    case PM => "PM"
  }

  /** `f"{hours}:{minutes:02d} {period}"`. */
  function Render(t: Time12): (s: string)
    requires Valid12(t)
    ensures |s| >= 7 && IsDigit(s[0]) && s[0] != '0'
    ensures s[|s| - 6] == ':' && s[|s| - 3] == ' ' && s[|s| - 2..] == PeriodText(t.period)
    ensures AllDigits(s[|s| - 5..|s| - 3])
  {
    var s := Decimal(t.hour) + ":" + ZeroPad2(t.minute) + " " + PeriodText(t.period);
    assert s[0] == Decimal(t.hour)[0];
    s
  }

  /**
   * Reads a rendered 12-hour time back: the hour digits with no leading
   * zero, ':', two minute digits, a space, and "AM" or "PM".
   */
  function Parse12(s: string): Option<Time12> {
    if |s| < 7 then None
    else
      var n := |s|;
      var hourText, minuteText, periodText := s[..n - 6], s[n - 5..n - 3], s[n - 2..];
      if s[n - 6] != ':' || s[n - 3] != ' ' || !AllDigits(hourText) || !AllDigits(minuteText) || hourText[0] == '0' then None
      else if periodText == "AM" then Some(Time12(DigitsValue(hourText), DigitsValue(minuteText), AM))
      else if periodText == "PM" then Some(Time12(DigitsValue(hourText), DigitsValue(minuteText), PM))
      else None
  }

  /** Rendering loses nothing: the reading is recovered from its text. */
  lemma ParseRender(t: Time12)
    requires Valid12(t)
    ensures Parse12(Render(t)) == Some(t)
  {
    var h, m, p := Decimal(t.hour), ZeroPad2(t.minute), PeriodText(t.period);
    var s := Render(t);
    var n := |s|;
    assert s == h + [':'] + m + [' '] + p;
    assert |m| == 2 && |p| == 2;
    assert s[..n - 6] == h;
    assert s[n - 5..n - 3] == m;
    assert s[n - 2..] == p;
  }

  /** Reading back loses nothing either: a text read as a valid reading is that reading's text. */
  lemma RenderParse(s: string)
    requires Parse12(s).Some? && Valid12(Parse12(s).value)
    ensures Render(Parse12(s).value) == s
  {
    var t := Parse12(s).value;
    var n := |s|;
    var hourText, minuteText, periodText := s[..n - 6], s[n - 5..n - 3], s[n - 2..];
    DecimalOfDigits(hourText);
    TwoDigitText(minuteText);
    assert PeriodText(t.period) == periodText;
    assert s == hourText + ":" + minuteText + " " + periodText;
  }

  /** The input converts: it unpacks to two ints that make a time of day. */
  predicate Valid24(text: string) {
    Unpack(text).Ok? && InRange24(Unpack(text).value.0, Unpack(text).value.1)
  }

  predicate IsErrorText(s: string) {
    |s| >= 7 && s[..7] == "Error: "
  }

  /** A rendered time starts with a digit, so it never reads as an error. */
  lemma RenderNotError(t: Time12)
    requires Valid12(t)
    ensures !IsErrorText(Render(t))
  {
  }

  /**
   * `convert_time`: every failure, from splitting, from int() or from the
   * range check, becomes "Error: " followed by the exception's text.
   */
  function ConvertTime(text: string): (r: string)
    ensures IsErrorText(r) <==> !Valid24(text)
    ensures !Valid24(text) ==> Unpack(text).Err? ==> r == "Error: " + Message(Unpack(text).error)
    ensures !Valid24(text) ==> Unpack(text).Ok? ==> r == "Error: Invalid time"
    ensures Valid24(text) ==>
      && Parse12(r).Some? && Valid12(Parse12(r).value)
      && (Parse12(r).value.period == AM <==> Unpack(text).value.0 < 12)
      && Hour24(Parse12(r).value) == Unpack(text).value.0
      && Parse12(r).value.minute == Unpack(text).value.1
  {
    match Unpack(text)
    case Err(e) =>
      var r := "Error: " + Message(e);
      assert r[..7] == "Error: ";
      r
    case Ok((hours, minutes)) =>
      if !InRange24(hours, minutes) then
        var r := "Error: " + Message(InvalidTime);
        assert r[..7] == "Error: ";
        r
      else
        var t := To12(hours, minutes);
        ParseRender(t);
        RenderNotError(t);
        Render(t)
  }

  /** On the inputs it accepts, convert_time is injective. */
  lemma ConvertTimeInjective(a: string, b: string)
    requires Valid24(a) && Valid24(b)
    requires ConvertTime(a) == ConvertTime(b)
    ensures Unpack(a) == Unpack(b)
  {
  }

  /** Once "HH:MM" has unpacked, only the range check decides the outcome. */
  lemma ConvertPadded(hour: nat, minute: nat, text: string)
    requires text == ZeroPad2(hour) + ":" + ZeroPad2(minute)
    ensures InRange24(hour, minute) ==> ConvertTime(text) == Render(To12(hour, minute))
    ensures !InRange24(hour, minute) ==> ConvertTime(text) == "Error: Invalid time"
  {
    UnpackPadded(hour, minute);
  }

  /** The strings of the examples below, spelled out digit by digit. */
  lemma ExampleTexts()
    ensures ZeroPad2(0) + ":" + ZeroPad2(5) == "00:05" && Render(To12(0, 5)) == "12:05 AM"
    ensures ZeroPad2(12) + ":" + ZeroPad2(30) == "12:30" && Render(To12(12, 30)) == "12:30 PM"
    ensures ZeroPad2(13) + ":" + ZeroPad2(7) == "13:07" && Render(To12(13, 7)) == "1:07 PM"
    ensures ZeroPad2(24) + ":" + ZeroPad2(0) == "24:00"
  {
    ZeroPad2Below100(0);
    ZeroPad2Below100(5);
    ZeroPad2Below100(7);
    ZeroPad2Below100(12);
    ZeroPad2Below100(13);
    ZeroPad2Below100(24);
    ZeroPad2Below100(30);
    DecimalBelow100(1);
    DecimalBelow100(12);
    assert To12(0, 5) == Time12(12, 5, AM);
    assert To12(12, 30) == Time12(12, 30, PM);
    assert To12(13, 7) == Time12(1, 7, PM);
  }

  /** Hour 0 is 12 AM. */
  lemma ConvertMidnightHour()
    ensures ConvertTime("00:05") == "12:05 AM"
  {
    ExampleTexts();
    ConvertPadded(0, 5, "00:05");
  }

  /** Hour 12 is 12 PM. */
  lemma ConvertNoonHour()
    ensures ConvertTime("12:30") == "12:30 PM"
  {
    ExampleTexts();
    ConvertPadded(12, 30, "12:30");
  }

  /** Hour 13 is 1 PM, with no leading zero on the hour. */
  lemma ConvertAfternoonHour()
    ensures ConvertTime("13:07") == "1:07 PM"
  {
    ExampleTexts();
    ConvertPadded(13, 7, "13:07");
  }

  /** Hour 24 is out of range. */
  lemma ConvertHourOutOfRange()
    ensures ConvertTime("24:00") == "Error: Invalid time"
  {
    ExampleTexts();
    ConvertPadded(24, 0, "24:00");
  }
}
