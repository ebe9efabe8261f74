/**
 * The statement `hour, minute = map(int, text.split(':'))` that both
 * `convert_time` and `convert_to_datetime` begin with, and the exceptions
 * the prayer-time code can raise.
 */
module TimeText {
  import opened Wrappers
  import opened Digits

  /** The exceptions raised on the modelled paths. */
  datatype Exception =
    | NotEnoughValues(got: nat)   // unpacking found fewer than two parts
    | TooManyValues               // unpacking found a third part
    | InvalidLiteral(text: string) // int() refused a part
    | InvalidTime                 // convert_time's own range check
    | HourOutOfRange              // datetime.replace refused the hour
    | MinuteOutOfRange            // datetime.replace refused the minute
    | MissingKey(key: string)     // a dict lookup of an absent key

  /**
   * `str(e)`: the text after "Error: " when convert_time reports `e`. Only
   * convert_time's own range check reads "Invalid time".
   */
  function Message(e: Exception): (r: string)
    ensures |r| > 0
    ensures r == "Invalid time" <==> e.InvalidTime?
    ensures e.InvalidLiteral? ==> |r| <= 240
  {
    match e
    case NotEnoughValues(got) =>
      var head := "not enough values to unpack (expected 2, got ";
      assert |head| == 45;
      head + Decimal(got) + ")"
    case TooManyValues => "too many values to unpack (expected 2)"
    case InvalidLiteral(text) =>
      // `%.200R`: the quoted part is cut after 200 characters, closing quote included
      var head := "invalid literal for int() with base 10: ";
      var quoted := "'" + text + "'";
      assert |head| == 40;
      head + (if |quoted| > 200 then quoted[..200] else quoted)
    case InvalidTime => "Invalid time"
    case HourOutOfRange => "hour must be in 0..23"
    case MinuteOutOfRange => "minute must be in 0..59"
    case MissingKey(key) =>
      var r := "'" + key + "'";
      assert r[0] == '\'' && "Invalid time"[0] == 'I';
      r
  }

  /**
   * `hour, minute = map(int, text.split(':'))`. The map is lazy, so
   * unpacking converts the first part, then the second, then the third if
   * there is one, and only then complains that there are too many.
   */
  function Unpack(text: string): (r: Result<(int, int), Exception>)
    ensures r.Err? ==> r.error.NotEnoughValues? || r.error.TooManyValues? || r.error.InvalidLiteral?
    ensures r.Err? && r.error.NotEnoughValues? ==> ':' !in text
  {
    var parts := Split(text, ':');
    match ParseInt(parts[0])
    case None => Err(InvalidLiteral(parts[0]))
    case Some(hour) =>
      if |parts| == 1 then Err(NotEnoughValues(1))
      else
        match ParseInt(parts[1])
        case None => Err(InvalidLiteral(parts[1]))
        case Some(minute) =>
          if |parts| == 2 then Ok((hour, minute))
          else
            match ParseInt(parts[2])
            case None => Err(InvalidLiteral(parts[2]))
            case Some(_) => Err(TooManyValues)
  }

  /**
   * Unpacking succeeds exactly when there are two parts and both are int
   * literals; a refused literal is one of the first three parts.
   */
  lemma UnpackParts(text: string)
    ensures var parts := Split(text, ':');
      && (Unpack(text).Ok? <==> |parts| == 2 && ParseInt(parts[0]).Some? && ParseInt(parts[1]).Some?)
      && (Unpack(text).Ok? ==> Some(Unpack(text).value.0) == ParseInt(parts[0]) && Some(Unpack(text).value.1) == ParseInt(parts[1]))
      && (Unpack(text).Err? && Unpack(text).error.InvalidLiteral? ==>
            exists i :: 0 <= i < 3 && i < |parts| && parts[i] == Unpack(text).error.text)
  {
  }

  /** The text the timings service sends, "HH:MM", unpacks to its two numbers. */
  lemma UnpackPadded(hour: nat, minute: nat)
    ensures Unpack(ZeroPad2(hour) + ":" + ZeroPad2(minute)) == Ok((hour, minute))
  {
    var parts := [ZeroPad2(hour), ZeroPad2(minute)];
    DigitsHaveNoColon(parts[0]);
    DigitsHaveNoColon(parts[1]);
    assert Join(parts, ':') == ZeroPad2(hour) + ":" + ZeroPad2(minute);
    SplitJoin(parts, ':');
    ParseIntDecimal(hour);
    ParseIntDecimal(minute);
  }
}
