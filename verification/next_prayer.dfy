/**
 * `convert_to_datetime` and `time_until_next_prayer`: placing each prayer's
 * "HH:MM" on today's date, choosing the next prayer, and formatting the time
 * left as "HH:MM:SS".
 *
 * An instant is an integer number of microseconds since today's midnight,
 * the resolution of Python's datetime. `now` is a parameter: the code reads
 * the clock once in time_until_next_prayer and once more in every call of
 * convert_to_datetime, and the model takes all of these readings to be the
 * same instant.
 */
module NextPrayer {
  import opened Wrappers
  import opened Digits
  import opened TimeText
  import opened Clock12
  import opened Timedelta

  /** The names the code looks for, in the order it looks for them. */
  const Prayers: seq<string> := ["Fajr", "Sunrise", "Dhuhr", "Asr", "Maghrib", "Isha"]

  /** A moment of today: at or after today's midnight and before tomorrow's. */
  predicate Today(now: int) {
    0 <= now < DayUs
  }

  /** Today at hour:minute:00.000000, the instant `now.replace(...)` builds. */
  function WallClock(hour: int, minute: int): int {
    hour * HourUs + minute * MinuteUs
  }

  /**
   * The rollover rule of convert_to_datetime: today's hour:minute moves to
   * tomorrow when it has already passed and falls before noon.
   */
  function PlaceToday(hour: int, minute: int, now: int): (at: int)
    requires InRange24(hour, minute) && Today(now)
    ensures at == WallClock(hour, minute) || at == WallClock(hour, minute) + DayUs
    ensures at == WallClock(hour, minute) + DayUs <==> WallClock(hour, minute) < now && hour < 12
    ensures hour >= 12 ==> at == WallClock(hour, minute)
    ensures hour < 12 ==> now <= at < now + DayUs
    ensures 0 <= at < now + DayUs
  {
    var at := WallClock(hour, minute);
    if at < now && hour < 12 then at + DayUs else at
  }

  /**
   * `convert_to_datetime`: unpack "HH:MM", let `replace` check the hour and
   * then the minute, and place the time with the rollover rule. Nothing is
   * caught here, so each failure is the exception the caller sees.
   */
  function ConvertToDatetime(text: string, now: int): (r: Result<int, Exception>)
    requires Today(now)
    ensures r.Ok? ==> 0 <= r.value < now + DayUs
  {
    match Unpack(text)
    case Err(e) => Err(e)
    case Ok((hour, minute)) =>
      if !(0 <= hour <= 23) then Err(HourOutOfRange)
      else if !(0 <= minute <= 59) then Err(MinuteOutOfRange)
      else Ok(PlaceToday(hour, minute, now))
  }

  /**
   * A time that converts lands on its wall-clock time today or tomorrow,
   * tomorrow exactly when it has passed and is before noon; a morning time
   * is never behind now.
   */
  lemma ConvertToDatetimeOk(text: string, now: int)
    requires Today(now)
    ensures ConvertToDatetime(text, now).Ok? <==> Valid24(text)
    ensures Valid24(text) ==>
      var (hour, minute) := Unpack(text).value;
      var at := ConvertToDatetime(text, now).value;
      && (at == WallClock(hour, minute) || at == WallClock(hour, minute) + DayUs)
      && (at == WallClock(hour, minute) + DayUs <==> WallClock(hour, minute) < now && hour < 12)
      && (hour >= 12 ==> at == WallClock(hour, minute))
      && (hour < 12 ==> now <= at)
  {
  }

  /** The exceptions convert_to_datetime raises: unpacking's, then the hour's, then the minute's. */
  lemma ConvertToDatetimeErrors(text: string, now: int)
    requires Today(now)
    ensures Unpack(text).Err? ==> ConvertToDatetime(text, now) == Err(Unpack(text).error)
    ensures Unpack(text).Ok? && !(0 <= Unpack(text).value.0 <= 23) ==>
      ConvertToDatetime(text, now) == Err(HourOutOfRange)
    ensures Unpack(text).Ok? && 0 <= Unpack(text).value.0 <= 23 && !(0 <= Unpack(text).value.1 <= 59) ==>
      ConvertToDatetime(text, now) == Err(MinuteOutOfRange)
  {
  }

  /** A prayer the code has placed in time. */
  datatype Candidate = Candidate(name: string, at: int)

  /** convert_to_datetime with the clock reading fixed at `now`. */
  function Placement(now: int): string -> Result<int, Exception>
    requires Today(now)
  {
    text => ConvertToDatetime(text, now)
  }

  /** What NextPrayerWith needs of a placement: a placed time is not before today and is less than a day after now. */
  ghost predicate PlacesWithinDay(place: string -> Result<int, Exception>, now: int) {
    forall text :: place(text).Ok? ==> 0 <= place(text).value < now + DayUs
  }

  lemma PlacementWithinDay(now: int)
    requires Today(now)
    ensures PlacesWithinDay(Placement(now), now)
  {
  }

  /** The names of `names` that are keys of `timings`, in their order. */
  function Present(names: seq<string>, timings: map<string, string>): (r: seq<string>)
    ensures |r| <= |names|
    ensures forall n :: n in r <==> n in names && n in timings
    decreases |names|
  {
    if |names| == 0 then []
    else if names[0] in timings then [names[0]] + Present(names[1..], timings)
    else Present(names[1..], timings)
  }

  /** The names of the candidates, in their order. */
  function NamesOf(cands: seq<Candidate>): seq<string> {
    seq(|cands|, i requires 0 <= i < |cands| => cands[i].name)
  }

  /** The name is a key whose time does not convert. */
  predicate Unplaceable(timings: map<string, string>, place: string -> Result<int, Exception>, name: string) {
    name in timings && place(timings[name]).Err?
  }

  /** Position `i` holds the first name whose conversion raises, and it raises `e`. */
  predicate FirstFailure(timings: map<string, string>, place: string -> Result<int, Exception>, names: seq<string>, i: int, e: Exception) {
    && 0 <= i < |names|
    && Unplaceable(timings, place, names[i])
    && place(timings[names[i]]) == Err(e)
    && forall j :: 0 <= j < i ==> !Unplaceable(timings, place, names[j])
  }

  /**
   * The first loop of time_until_next_prayer: convert the time of every
   * listed name that is present, in order. The first conversion that raises
   * ends the whole computation with its exception.
   */
  function Candidates(timings: map<string, string>, names: seq<string>, place: string -> Result<int, Exception>): (r: Result<seq<Candidate>, Exception>)
    ensures r.Ok? <==> forall i :: 0 <= i < |names| ==> !Unplaceable(timings, place, names[i])
    ensures r.Ok? ==> forall i :: 0 <= i < |r.value| ==>
      && r.value[i].name in names && r.value[i].name in timings
      && place(timings[r.value[i].name]) == Ok(r.value[i].at)
    ensures r.Ok? && |names| > 0 && names[0] in timings ==>
      |r.value| > 0 && r.value[0].name == names[0]
    decreases |names|
  {
    if |names| == 0 then Ok([])
    else
      var rest := Candidates(timings, names[1..], place);
      assert forall i :: 1 <= i < |names| ==> names[i] == names[1..][i - 1];
      if names[0] in timings then
        match place(timings[names[0]])
        case Err(e) => Err(e)
        case Ok(at) =>
          match rest
          case Err(e) => Err(e)
          case Ok(cs) => Ok([Candidate(names[0], at)] + cs)
      else rest
  }

  /** The candidates are the present names, in the order of `names`. */
  lemma {:induction false} CandidatesNames(timings: map<string, string>, names: seq<string>, place: string -> Result<int, Exception>)
    requires Candidates(timings, names, place).Ok?
    ensures NamesOf(Candidates(timings, names, place).value) == Present(names, timings)
    decreases |names|
  {
    if |names| > 0 {
      CandidatesNames(timings, names[1..], place);
      var cs := Candidates(timings, names[1..], place).value;
      if names[0] in timings {
        var r := Candidates(timings, names, place).value;
        assert r == [Candidate(names[0], place(timings[names[0]]).value)] + cs;
        assert NamesOf(r) == [names[0]] + NamesOf(cs);
      }
    }
  }

  /** The exception that ends the first loop is that of the first name, in order, whose time does not convert. */
  lemma {:induction false} CandidatesFirstFailure(timings: map<string, string>, names: seq<string>, place: string -> Result<int, Exception>)
    requires Candidates(timings, names, place).Err?
    ensures exists i :: FirstFailure(timings, place, names, i, Candidates(timings, names, place).error)
    decreases |names|
  {
    var e := Candidates(timings, names, place).error;
    if names[0] in timings && place(timings[names[0]]).Err? {
      assert FirstFailure(timings, place, names, 0, e);
    } else {
      CandidatesFirstFailure(timings, names[1..], place);
      var i :| FirstFailure(timings, place, names[1..], i, e);
      assert forall j :: 1 <= j < |names| ==> names[j] == names[1..][j - 1];
      assert FirstFailure(timings, place, names, i + 1, e);
    }
  }

  /** When every name is present and converts, the candidates are exactly those names, in order. */
  lemma {:induction false} CandidatesAllPresent(timings: map<string, string>, names: seq<string>, place: string -> Result<int, Exception>, cands: seq<Candidate>)
    requires |cands| == |names|
    requires forall i :: 0 <= i < |names| ==>
      cands[i].name == names[i] && names[i] in timings && place(timings[names[i]]) == Ok(cands[i].at)
    ensures Candidates(timings, names, place) == Ok(cands)
    decreases |names|
  {
    if |names| > 0 {
      assert forall i :: 1 <= i < |names| ==> names[i] == names[1..][i - 1] && cands[i] == cands[1..][i - 1];
      CandidatesAllPresent(timings, names[1..], place, cands[1..]);
      assert cands == [Candidate(names[0], cands[0].at)] + cands[1..];
    }
  }

  /** The two maps have the same keys among `names`, with the same values. */
  predicate AgreeOn(t1: map<string, string>, t2: map<string, string>, names: seq<string>) {
    forall i :: 0 <= i < |names| ==>
      (names[i] in t1 <==> names[i] in t2) && (names[i] in t1 ==> t1[names[i]] == t2[names[i]])
  }

  /** Maps that agree on the listed names give the same candidates. */
  lemma {:induction false} CandidatesAgree(t1: map<string, string>, t2: map<string, string>, names: seq<string>, place: string -> Result<int, Exception>)
    requires AgreeOn(t1, t2, names)
    ensures Candidates(t1, names, place) == Candidates(t2, names, place)
    decreases |names|
  {
    if |names| > 0 {
      assert forall i :: 1 <= i < |names| ==> names[i] == names[1..][i - 1];
      CandidatesAgree(t1, t2, names[1..], place);
    }
  }

  /** Strictly after now and less than a day away: the test `diff > timedelta(0) and diff < min_diff` of time_until_next_prayer while `min_diff` is still one day. */
  predicate Qualifies(c: Candidate, now: int) {
    0 < c.at - now < DayUs
  }

  /**
   * Among the first `n` candidates, `k` qualifies, none is sooner, and every
   * earlier one that qualifies is strictly later.
   */
  predicate SoonestWithin(cands: seq<Candidate>, now: int, n: int, k: int) {
    && 0 <= k < n <= |cands|
    && Qualifies(cands[k], now)
    && forall j :: 0 <= j < n && Qualifies(cands[j], now) ==>
         cands[k].at <= cands[j].at && (j < k ==> cands[k].at < cands[j].at)
  }

  predicate Soonest(cands: seq<Candidate>, now: int, k: int) {
    SoonestWithin(cands, now, |cands|, k)
  }

  predicate NoneQualifies(cands: seq<Candidate>, now: int) {
    forall j :: 0 <= j < |cands| ==> !Qualifies(cands[j], now)
  }

  /** At most one candidate is the soonest. */
  lemma SoonestUnique(cands: seq<Candidate>, now: int, k1: int, k2: int)
    requires Soonest(cands, now, k1) && Soonest(cands, now, k2)
    ensures k1 == k2
  {
  }

  /**
   * The second loop of time_until_next_prayer from position `i` on, with
   * `minDiff` and `best` as left by the earlier positions.
   */
  function Scan(cands: seq<Candidate>, now: int, i: nat, minDiff: int, best: Option<nat>): (r: Option<nat>)
    requires i <= |cands|
    requires best.None? ==> minDiff == DayUs && forall j :: 0 <= j < i ==> !Qualifies(cands[j], now)
    requires best.Some? ==> SoonestWithin(cands, now, i, best.value) && minDiff == cands[best.value].at - now
    ensures r.None? <==> NoneQualifies(cands, now)
    ensures r.Some? ==> Soonest(cands, now, r.value)
    decreases |cands| - i
  {
    if i == |cands| then best
    else
      var diff := cands[i].at - now;
      if diff > 0 && diff < minDiff then Scan(cands, now, i + 1, diff, Some(i))
      else Scan(cands, now, i + 1, minDiff, best)
  }

  /** The selection loop of time_until_next_prayer (`for prayer, prayer_time in prayer_datetimes.items()`): the position of the next prayer, or None when none qualifies. */
  function SelectNext(cands: seq<Candidate>, now: int): (r: Option<nat>)
    ensures r.None? <==> NoneQualifies(cands, now)
    ensures r.Some? ==> Soonest(cands, now, r.value)
  {
    Scan(cands, now, 0, DayUs, None)
  }

  /** The list of names starts with Fajr, as the code's list does. */
  predicate FajrFirst(names: seq<string>) {
    |names| > 0 && names[0] == "Fajr"
  }

  /** In the fallback, a present Fajr's placed time is not ahead of now. */
  lemma FajrNotAhead(timings: map<string, string>, names: seq<string>, now: int, place: string -> Result<int, Exception>, cands: seq<Candidate>)
    requires Today(now) && PlacesWithinDay(place, now) && FajrFirst(names)
    requires Candidates(timings, names, place) == Ok(cands)
    ensures NoneQualifies(cands, now) && "Fajr" in timings ==>
      place(timings["Fajr"]).Ok? && place(timings["Fajr"]).value <= now
  {
    if NoneQualifies(cands, now) && "Fajr" in timings {
      assert !Qualifies(cands[0], now);
    }
  }

  /** `convert_to_datetime(prayer_times['Fajr'])`: the lookup raises when there is no Fajr entry. */
  function FajrLookup(timings: map<string, string>, place: string -> Result<int, Exception>): (r: Result<int, Exception>)
    ensures "Fajr" in timings ==> r == place(timings["Fajr"])
    ensures "Fajr" !in timings ==> r.Err? && Message(r.error) == "'Fajr'"
  {
    if "Fajr" in timings then place(timings["Fajr"]) else Err(MissingKey("Fajr"))
  }

  /**
   * The selection loop of time_until_next_prayer and its `if next_prayer is None`
   * fallback: the soonest qualifying candidate, or else Fajr one day
   * after its placed time, with the time left in microseconds.
   */
  function Choose(cands: seq<Candidate>, now: int, fajr: Result<int, Exception>): (r: Result<(string, int), Exception>)
    ensures !NoneQualifies(cands, now) ==>
      exists k :: Soonest(cands, now, k) && r == Ok((cands[k].name, cands[k].at - now))
    ensures NoneQualifies(cands, now) && fajr.Err? ==> r == Err(fajr.error)
    ensures NoneQualifies(cands, now) && fajr.Ok? ==> r == Ok(("Fajr", fajr.value + DayUs - now))
  {
    match SelectNext(cands, now)
    case Some(k) =>
      assert Soonest(cands, now, k);
      Ok((cands[k].name, cands[k].at - now))
    case None =>
      match fajr
      case Err(e) => Err(e)
      case Ok(at) => Ok(("Fajr", at + DayUs - now))
  }

  /**
   * time_until_next_prayer up to the countdown, for a given placement: the
   * next prayer's name and the time until it, in microseconds, before it is
   * formatted.
   */
  function NextPrayerWith(timings: map<string, string>, names: seq<string>, now: int, place: string -> Result<int, Exception>): (r: Result<(string, int), Exception>)
    requires Today(now) && PlacesWithinDay(place, now) && FajrFirst(names)
    ensures r.Ok? ==> r.value.0 in names && r.value.0 in timings
    ensures r.Ok? ==> 0 < r.value.1 <= DayUs
  {
    match Candidates(timings, names, place)
    case Err(e) => Err(e)
    case Ok(cands) =>
      FajrNotAhead(timings, names, now, place, cands);
      Choose(cands, now, FajrLookup(timings, place))
  }

  /**
   * When some present prayer is strictly ahead and less than a day away, the
   * answer is the soonest of them, the first in the fixed order on a tie.
   */
  lemma NextIsSoonest(timings: map<string, string>, names: seq<string>, now: int, place: string -> Result<int, Exception>)
    requires Today(now) && PlacesWithinDay(place, now) && FajrFirst(names)
    requires Candidates(timings, names, place).Ok?
    requires !NoneQualifies(Candidates(timings, names, place).value, now)
    ensures var cands := Candidates(timings, names, place).value;
      exists k :: Soonest(cands, now, k) && NextPrayerWith(timings, names, now, place) == Ok((cands[k].name, cands[k].at - now))
  {
    NextIsSelected(timings, names, now, place);
  }

  lemma NextIsSelected(timings: map<string, string>, names: seq<string>, now: int, place: string -> Result<int, Exception>)
    requires Today(now) && PlacesWithinDay(place, now) && FajrFirst(names)
    requires Candidates(timings, names, place).Ok?
    requires !NoneQualifies(Candidates(timings, names, place).value, now)
    ensures var cands := Candidates(timings, names, place).value;
      && SelectNext(cands, now).Some?
      && Soonest(cands, now, SelectNext(cands, now).value)
      && NextPrayerWith(timings, names, now, place) ==
           Ok((cands[SelectNext(cands, now).value].name, cands[SelectNext(cands, now).value].at - now))
  {
    var cands := Candidates(timings, names, place).value;
    assert NextPrayerWith(timings, names, now, place) == Choose(cands, now, FajrLookup(timings, place));
    ChooseSelected(cands, now, FajrLookup(timings, place));
  }

  /** A selected candidate decides the answer whatever the Fajr lookup gives. */
  lemma ChooseSelected(cands: seq<Candidate>, now: int, fajr: Result<int, Exception>)
    requires SelectNext(cands, now).Some?
    ensures var k := SelectNext(cands, now).value;
      k < |cands| && Choose(cands, now, fajr) == Ok((cands[k].name, cands[k].at - now))
  {
  }

  /**
   * When no present prayer qualifies, the answer is Fajr a day after its
   * placed time; without a Fajr entry the fallback's lookup `prayer_times['Fajr']` raises.
   */
  lemma FallbackToFajr(timings: map<string, string>, names: seq<string>, now: int, place: string -> Result<int, Exception>)
    requires Today(now) && PlacesWithinDay(place, now) && FajrFirst(names)
    requires Candidates(timings, names, place).Ok?
    requires NoneQualifies(Candidates(timings, names, place).value, now)
    ensures "Fajr" !in timings ==> NextPrayerWith(timings, names, now, place) == Err(MissingKey("Fajr"))
    ensures "Fajr" in timings ==>
      && place(timings["Fajr"]).Ok?
      && NextPrayerWith(timings, names, now, place) == Ok(("Fajr", place(timings["Fajr"]).value + DayUs - now))
  {
    var cands := Candidates(timings, names, place).value;
    assert SelectNext(cands, now).None?;
    FajrNotAhead(timings, names, now, place, cands);
    assert NextPrayerWith(timings, names, now, place) == Choose(cands, now, FajrLookup(timings, place));
  }

  /** A failing conversion ends the computation with the exception of the first failing name. */
  lemma NextPrayerFailure(timings: map<string, string>, names: seq<string>, now: int, place: string -> Result<int, Exception>)
    requires Today(now) && PlacesWithinDay(place, now) && FajrFirst(names)
    requires Candidates(timings, names, place).Err?
    ensures NextPrayerWith(timings, names, now, place).Err?
    ensures exists i :: FirstFailure(timings, place, names, i, NextPrayerWith(timings, names, now, place).error)
  {
    CandidatesFirstFailure(timings, names, place);
  }

  /** Keys other than the six names, and their values, never change the answer. */
  lemma OnlyPrayerKeysMatter(t1: map<string, string>, t2: map<string, string>, names: seq<string>, now: int, place: string -> Result<int, Exception>)
    requires Today(now) && PlacesWithinDay(place, now) && FajrFirst(names)
    requires AgreeOn(t1, t2, names)
    ensures NextPrayerWith(t1, names, now, place) == NextPrayerWith(t2, names, now, place)
  {
    CandidatesAgree(t1, t2, names, place);
    assert FajrLookup(t1, place) == FajrLookup(t2, place);
  }

  /** time_until_next_prayer's choice, with convert_to_datetime placing the times. */
  function NextPrayerDiff(timings: map<string, string>, now: int): (r: Result<(string, int), Exception>)
    requires Today(now)
    ensures r.Ok? ==> r.value.0 in Prayers && r.value.0 in timings
    ensures r.Ok? ==> 0 < r.value.1 <= DayUs
  {
    PlacementWithinDay(now);
    NextPrayerWith(timings, Prayers, now, Placement(now))
  }

  /** Whenever a candidate is the soonest qualifying one, time_until_next_prayer's choice is that candidate. */
  lemma NextPrayerDiffSoonest(timings: map<string, string>, now: int, cands: seq<Candidate>, k: int)
    requires Today(now)
    requires Candidates(timings, Prayers, Placement(now)) == Ok(cands)
    requires Soonest(cands, now, k)
    ensures NextPrayerDiff(timings, now) == Ok((cands[k].name, cands[k].at - now))
  {
    PlacementWithinDay(now);
    SoonestSelected(timings, Prayers, now, Placement(now), cands, k);
  }

  /** The soonest candidate, for any list that starts with Fajr and any placement. */
  lemma SoonestSelected(timings: map<string, string>, names: seq<string>, now: int, place: string -> Result<int, Exception>, cands: seq<Candidate>, k: int)
    requires Today(now) && PlacesWithinDay(place, now) && FajrFirst(names)
    requires Candidates(timings, names, place) == Ok(cands)
    requires Soonest(cands, now, k)
    ensures NextPrayerWith(timings, names, now, place) == Ok((cands[k].name, cands[k].at - now))
  {
    assert !NoneQualifies(cands, now);
    NextIsSelected(timings, names, now, place);
    SoonestUnique(cands, now, SelectNext(cands, now).value, k);
  }

  /**
   * With Fajr in the morning, as it always is, the fallback is reached only
   * when Fajr's time is exactly now.
   */
  lemma MorningFajrAtNow(timings: map<string, string>, now: int)
    requires Today(now)
    requires Candidates(timings, Prayers, Placement(now)).Ok?
    requires NoneQualifies(Candidates(timings, Prayers, Placement(now)).value, now)
    requires "Fajr" in timings && Valid24(timings["Fajr"]) && Unpack(timings["Fajr"]).value.0 < 12
    ensures ConvertToDatetime(timings["Fajr"], now) == Ok(now)
  {
    var place := Placement(now);
    PlacementWithinDay(now);
    var text := timings["Fajr"];
    FajrNotAhead(timings, Prayers, now, place, Candidates(timings, Prayers, place).value);
    assert place(text) == ConvertToDatetime(text, now);
    PinnedAtNow(text, now);
  }

  /**
   * In that case the time left is a whole day, which the countdown then
   * reads as "00:00:00" although the Fajr it names is a day away.
   */
  lemma MorningFajrFallback(timings: map<string, string>, now: int)
    requires Today(now)
    requires Candidates(timings, Prayers, Placement(now)).Ok?
    requires NoneQualifies(Candidates(timings, Prayers, Placement(now)).value, now)
    requires "Fajr" in timings && Valid24(timings["Fajr"]) && Unpack(timings["Fajr"]).value.0 < 12
    ensures NextPrayerDiff(timings, now) == Ok(("Fajr", DayUs))
  {
    MorningFajrAtNow(timings, now);
    var place := Placement(now);
    PlacementWithinDay(now);
    assert place(timings["Fajr"]) == Ok(now);
    FallbackAtNow(timings, Prayers, now, place);
  }

  /** The fallback to a Fajr placed exactly at now leaves a whole day. */
  lemma FallbackAtNow(timings: map<string, string>, names: seq<string>, now: int, place: string -> Result<int, Exception>)
    requires Today(now) && PlacesWithinDay(place, now) && FajrFirst(names)
    requires Candidates(timings, names, place).Ok?
    requires NoneQualifies(Candidates(timings, names, place).value, now)
    requires "Fajr" in timings && place(timings["Fajr"]) == Ok(now)
    ensures NextPrayerWith(timings, names, now, place) == Ok(("Fajr", DayUs))
  {
    var cands := Candidates(timings, names, place).value;
    assert SelectNext(cands, now).None?;
    assert FajrLookup(timings, place) == Ok(now);
    assert NextPrayerWith(timings, names, now, place) == Choose(cands, now, Ok(now));
  }

  /** A morning time that converts to a point no later than now converts to now itself. */
  lemma PinnedAtNow(text: string, now: int)
    requires Today(now)
    requires Valid24(text) && Unpack(text).value.0 < 12
    requires ConvertToDatetime(text, now).Ok? && ConvertToDatetime(text, now).value <= now
    ensures ConvertToDatetime(text, now) == Ok(now)
  {
    ConvertToDatetimeOk(text, now);
  }

  /** "HH:MM:SS" with two digits in each field, hours under 24 and minutes and seconds under 60. */
  predicate IsCountdown(text: string) {
    && |text| == 8 && text[2] == ':' && text[5] == ':'
    && AllDigits(text[..2]) && AllDigits(text[3..5]) && AllDigits(text[6..])
    && DigitsValue(text[..2]) < 24 && DigitsValue(text[3..5]) < 60 && DigitsValue(text[6..]) < 60
  }

  /** The number of seconds a countdown text reads as. */
  function CountdownSeconds(text: string): int
    requires IsCountdown(text)
  {
    DigitsValue(text[..2]) * 3600 + DigitsValue(text[3..5]) * 60 + DigitsValue(text[6..])
  }

  /** The last lines of time_until_next_prayer: `divmod` of `min_diff.seconds` into hours, minutes and seconds, each formatted `:02d`. */
  function FormatCountdown(secs: int): (r: string)
    requires 0 <= secs < DaySeconds
    ensures IsCountdown(r) && CountdownSeconds(r) == secs
  {
    var hours, remainder := secs / 3600, secs % 3600;
    var minutes, seconds := remainder / 60, remainder % 60;
    var r := ZeroPad2(hours) + ":" + ZeroPad2(minutes) + ":" + ZeroPad2(seconds);
    assert r[..2] == ZeroPad2(hours);
    assert r[3..5] == ZeroPad2(minutes);
    assert r[6..] == ZeroPad2(seconds);
    r
  }

  /** Minutes and seconds under a minute split back by `divmod(_, 60)`. */
  lemma DivMod60(q: int, r: int)
    requires 0 <= r < 60
    ensures (q * 60 + r) / 60 == q && (q * 60 + r) % 60 == r
  {
  }

  /** Hours and a remainder under an hour split back by `divmod(_, 3600)`. */
  lemma DivMod3600(q: int, r: int)
    requires 0 <= r < 3600
    ensures (q * 3600 + r) / 3600 == q && (q * 3600 + r) % 3600 == r
  {
  }

  /** Fields in range are what `divmod` recovers from their total, so they format as themselves. */
  lemma FormatFields(h: nat, m: nat, sec: nat, secs: int)
    requires h < 24 && m < 60 && sec < 60 && secs == h * 3600 + m * 60 + sec
    ensures 0 <= secs < DaySeconds
    ensures FormatCountdown(secs) == ZeroPad2(h) + ":" + ZeroPad2(m) + ":" + ZeroPad2(sec)
  {
    var remainder := m * 60 + sec;
    DivMod60(m, sec);
    DivMod3600(h, remainder);
    assert secs / 3600 == h && secs % 3600 == remainder;
  }

  /** A countdown text is its three fields with ':' between them. */
  lemma CountdownPieces(text: string)
    requires IsCountdown(text)
    ensures text == text[..2] + ":" + text[3..5] + ":" + text[6..]
  {
    var joined := text[..2] + ":" + text[3..5] + ":" + text[6..];
    assert |joined| == |text|;
    forall i | 0 <= i < |text|
      ensures joined[i] == text[i]
    {
    }
  }

  /** Every countdown text is the one its seconds format to, so the format fixes the text. */
  lemma CountdownFormatted(text: string)
    requires IsCountdown(text)
    ensures 0 <= CountdownSeconds(text) < DaySeconds
    ensures FormatCountdown(CountdownSeconds(text)) == text
  {
    var h, m, sec := DigitsValue(text[..2]), DigitsValue(text[3..5]), DigitsValue(text[6..]);
    FormatFields(h, m, sec, CountdownSeconds(text));
    TwoDigitText(text[..2]);
    TwoDigitText(text[3..5]);
    TwoDigitText(text[6..]);
    CountdownPieces(text);
  }

  /** Zero seconds format as "00:00:00". */
  lemma FormatZero()
    ensures FormatCountdown(0) == "00:00:00"
  {
    assert ZeroPad2(0) == ['0', DigitChar(0)];
  }

  /** The countdown for a time left of `diff` microseconds: the `seconds` field of its timedelta. */
  function Countdown(diff: int): (r: string)
    requires 0 < diff <= DayUs
    ensures IsCountdown(r)
    ensures CountdownSeconds(r) == FromUs(diff).seconds
    ensures diff < DayUs ==> CountdownSeconds(r) * SecondUs <= diff < (CountdownSeconds(r) + 1) * SecondUs
    ensures diff == DayUs ==> r == "00:00:00"
  {
    var secs := FromUs(diff).seconds;
    var r := FormatCountdown(secs);
    if diff < DayUs then
      SecondsWithinDay(diff);
      assert CountdownSeconds(r) == secs;
      r
    else
      SecondsOfOneDay();
      assert secs == 0;
      FormatZero();
      r
  }

  /**
   * `time_until_next_prayer`: the next prayer's name and the `seconds` field
   * of the time left, formatted as "HH:MM:SS".
   */
  function TimeUntilNextPrayer(timings: map<string, string>, now: int): (r: Result<(string, string), Exception>)
    requires Today(now)
    ensures r.Ok? <==> NextPrayerDiff(timings, now).Ok?
    ensures r.Err? ==> r.error == NextPrayerDiff(timings, now).error
    ensures r.Ok? ==> r.value.0 in Prayers && r.value.0 in timings
    ensures r.Ok? ==> r.value.0 == NextPrayerDiff(timings, now).value.0
    ensures r.Ok? ==> IsCountdown(r.value.1) && CountdownSeconds(r.value.1) == FromUs(NextPrayerDiff(timings, now).value.1).seconds
  {
    match NextPrayerDiff(timings, now)
    case Err(e) => Err(e)
    case Ok((name, diff)) => Ok((name, Countdown(diff)))
  }
}
