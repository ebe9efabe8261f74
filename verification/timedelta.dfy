/**
 * Python's `timedelta`, reduced to what the countdown uses: a signed
 * duration in microseconds and its normalised (days, seconds, microseconds)
 * form, whose `seconds` field the countdown formats.
 */
module Timedelta {

  const SecondUs: int := 1_000_000
  const MinuteUs: int := 60 * SecondUs
  const HourUs: int := 60 * MinuteUs
  const DayUs: int := 24 * HourUs
  const DaySeconds: int := 86_400

  /** The fields Python keeps; `days` may be negative, the other two never are. */
  datatype Timedelta = Timedelta(days: int, seconds: int, microseconds: int)

  predicate Normalized(d: Timedelta) {
    0 <= d.seconds < DaySeconds && 0 <= d.microseconds < SecondUs
  }

  /** The duration the fields stand for, in microseconds. */
  function TotalUs(d: Timedelta): int {
    d.days * DayUs + d.seconds * SecondUs + d.microseconds
  }

  /** The normalised timedelta of a duration given in microseconds. */
  function FromUs(us: int): (d: Timedelta)
    ensures Normalized(d)
    ensures TotalUs(d) == us
  {
    var withinDay := us % DayUs;
    Timedelta(us / DayUs, withinDay / SecondUs, withinDay % SecondUs)
  }

  /** The only multiple of a positive unit strictly between -unit and unit is 0. */
  lemma MultipleInOpenRange(k: int, unit: int)
    requires unit > 0 && -unit < k * unit < unit
    ensures k == 0
  {
  }

  /** A duration has exactly one normalised form, so FromUs is the form Python stores. */
  lemma {:induction false} NormalizedUnique(a: Timedelta, b: Timedelta)
    requires Normalized(a) && Normalized(b) && TotalUs(a) == TotalUs(b)
    ensures a == b
  {
    var ra := a.seconds * SecondUs + a.microseconds;
    var rb := b.seconds * SecondUs + b.microseconds;
    assert a.seconds <= DaySeconds - 1;
    assert a.seconds * SecondUs <= (DaySeconds - 1) * SecondUs;
    assert b.seconds * SecondUs <= (DaySeconds - 1) * SecondUs;
    assert 0 <= ra < DayUs && 0 <= rb < DayUs;
    assert (a.days - b.days) * DayUs == rb - ra;
    MultipleInOpenRange(a.days - b.days, DayUs);
    assert (a.seconds - b.seconds) * SecondUs == b.microseconds - a.microseconds;
    MultipleInOpenRange(a.seconds - b.seconds, SecondUs);
  }

  /**
   * `.seconds` of a duration shorter than a day and not negative: its
   * whole seconds, the microseconds dropped.
   */
  lemma SecondsWithinDay(us: int)
    requires 0 <= us < DayUs
    ensures FromUs(us).days == 0
    ensures FromUs(us).seconds * SecondUs <= us < (FromUs(us).seconds + 1) * SecondUs
  {
  }

  /** `.seconds` of exactly one day is 0: the whole day sits in `days`. */
  lemma SecondsOfOneDay()
    ensures FromUs(DayUs) == Timedelta(1, 0, 0)
  {
  }
}
