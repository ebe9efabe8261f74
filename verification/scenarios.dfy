/**
 * One day of timings worked through time_until_next_prayer: Fajr 05:00,
 * Sunrise 06:30, Dhuhr 12:15, Asr 15:45, Maghrib 18:20, Isha 19:50.
 */
module Scenarios {
  import opened Wrappers
  import opened Digits
  import opened TimeText
  import opened Clock12
  import opened Timedelta
  import opened NextPrayer

  /** The timings hold the example's six entries, whatever else they hold. */
  predicate HoldsExample(timings: map<string, string>) {
    && "Fajr" in timings && timings["Fajr"] == "05:00"
    && "Sunrise" in timings && timings["Sunrise"] == "06:30"
    && "Dhuhr" in timings && timings["Dhuhr"] == "12:15"
    && "Asr" in timings && timings["Asr"] == "15:45"
    && "Maghrib" in timings && timings["Maghrib"] == "18:20"
    && "Isha" in timings && timings["Isha"] == "19:50"
  }

  /** Where the example's times land for any `now` from noon on: the two morning times roll over to tomorrow. */
  const ExampleCandidates: seq<Candidate> := [
    Candidate("Fajr", WallClock(5, 0) + DayUs),
    Candidate("Sunrise", WallClock(6, 30) + DayUs),
    Candidate("Dhuhr", WallClock(12, 15)),
    Candidate("Asr", WallClock(15, 45)),
    Candidate("Maghrib", WallClock(18, 20)),
    Candidate("Isha", WallClock(19, 50))]

  /** A zero-padded "HH:MM" in range converts to its placed time. */
  lemma PlacePadded(hour: nat, minute: nat, now: int, text: string)
    requires Today(now) && InRange24(hour, minute)
    requires text == [DigitChar(hour / 10), DigitChar(hour % 10), ':', DigitChar(minute / 10), DigitChar(minute % 10)]
    ensures Unpack(text) == Ok((hour, minute))
    ensures ConvertToDatetime(text, now) == Ok(PlaceToday(hour, minute, now))
  {
    ZeroPad2Below100(hour);
    ZeroPad2Below100(minute);
    assert text == ZeroPad2(hour) + ":" + ZeroPad2(minute);
    UnpackPadded(hour, minute);
  }

  /** From noon on, 05:00 has passed and is before noon: tomorrow. */
  lemma FajrPlaced(now: int)
    requires 12 * HourUs <= now < DayUs
    ensures ConvertToDatetime("05:00", now) == Ok(ExampleCandidates[0].at)
  {
    PlacePadded(5, 0, now, "05:00");
  }

  /** From noon on, 06:30 is likewise tomorrow. */
  lemma SunrisePlaced(now: int)
    requires 12 * HourUs <= now < DayUs
    ensures ConvertToDatetime("06:30", now) == Ok(ExampleCandidates[1].at)
  {
    PlacePadded(6, 30, now, "06:30");
  }

  /** 12:15 is in the afternoon, so it stays today even once passed. */
  lemma DhuhrPlaced(now: int)
    requires 12 * HourUs <= now < DayUs
    ensures ConvertToDatetime("12:15", now) == Ok(ExampleCandidates[2].at)
  {
    PlacePadded(12, 15, now, "12:15");
  }

  /** 15:45 stays today. */
  lemma AsrPlaced(now: int)
    requires 12 * HourUs <= now < DayUs
    ensures ConvertToDatetime("15:45", now) == Ok(ExampleCandidates[3].at)
  {
    PlacePadded(15, 45, now, "15:45");
  }

  /** 18:20 stays today. */
  lemma MaghribPlaced(now: int)
    requires 12 * HourUs <= now < DayUs
    ensures ConvertToDatetime("18:20", now) == Ok(ExampleCandidates[4].at)
  {
    PlacePadded(18, 20, now, "18:20");
  }

  /** 19:50 stays today. */
  lemma IshaPlaced(now: int)
    requires 12 * HourUs <= now < DayUs
    ensures ConvertToDatetime("19:50", now) == Ok(ExampleCandidates[5].at)
  {
    PlacePadded(19, 50, now, "19:50");
  }

  /** A placement that sends each of the example's texts to the listed candidate's time. */
  predicate PlacesExample(place: string -> Result<int, Exception>) {
    && place("05:00") == Ok(ExampleCandidates[0].at)
    && place("06:30") == Ok(ExampleCandidates[1].at)
    && place("12:15") == Ok(ExampleCandidates[2].at)
    && place("15:45") == Ok(ExampleCandidates[3].at)
    && place("18:20") == Ok(ExampleCandidates[4].at)
    && place("19:50") == Ok(ExampleCandidates[5].at)
  }

  /** Such a placement gives exactly the listed candidates. */
  lemma ExampleCandidatesFrom(timings: map<string, string>, place: string -> Result<int, Exception>)
    requires HoldsExample(timings) && PlacesExample(place)
    ensures Candidates(timings, Prayers, place) == Ok(ExampleCandidates)
  {
    forall i | 0 <= i < |Prayers|
      ensures ExampleCandidates[i].name == Prayers[i] && Prayers[i] in timings
      ensures place(timings[Prayers[i]]) == Ok(ExampleCandidates[i].at)
    {
      // one empty branch per index, so that each element of the literal lists is unfolded
      if i == 0 {
      } else if i == 1 {
      } else if i == 2 {
      } else if i == 3 {
      } else if i == 4 {
      } else {
        assert i == 5;
      }
    }
    CandidatesAllPresent(timings, Prayers, place, ExampleCandidates);
  }

  /** From noon on, the example's entries give exactly the listed candidates. */
  lemma ExamplePlaced(timings: map<string, string>, now: int)
    requires HoldsExample(timings)
    requires 12 * HourUs <= now < DayUs
    ensures Candidates(timings, Prayers, Placement(now)) == Ok(ExampleCandidates)
  {
    FajrPlaced(now);
    SunrisePlaced(now);
    DhuhrPlaced(now);
    AsrPlaced(now);
    MaghribPlaced(now);
    IshaPlaced(now);
    assert PlacesExample(Placement(now));
    ExampleCandidatesFrom(timings, Placement(now));
  }

  /** From noon until 12:15 every entry qualifies and Dhuhr is the soonest. */
  lemma DhuhrSoonestBefore(now: int)
    requires 12 * HourUs <= now < WallClock(12, 15)
    ensures forall j :: 0 <= j < |ExampleCandidates| ==> Qualifies(ExampleCandidates[j], now)
    ensures Soonest(ExampleCandidates, now, 2)
    ensures ExampleCandidates[2] == Candidate("Dhuhr", WallClock(12, 15))
  {
    forall j | 0 <= j < |ExampleCandidates| && Qualifies(ExampleCandidates[j], now)
      ensures ExampleCandidates[2].at <= ExampleCandidates[j].at
      ensures j < 2 ==> ExampleCandidates[2].at < ExampleCandidates[j].at
    {
    }
  }

  /** After Isha only the two rolled-over morning entries qualify and Fajr is the sooner. */
  lemma FajrSoonestAfterIsha(now: int)
    requires WallClock(19, 50) <= now < DayUs
    ensures Soonest(ExampleCandidates, now, 0)
    ensures ExampleCandidates[0] == Candidate("Fajr", WallClock(5, 0) + DayUs)
  {
    forall j | 0 <= j < |ExampleCandidates| && Qualifies(ExampleCandidates[j], now)
      ensures ExampleCandidates[0].at <= ExampleCandidates[j].at
    {
    }
  }

  /** A whole number of seconds under a day formats as that number of seconds. */
  lemma CountdownWhole(secs: int)
    requires 0 < secs < DaySeconds
    ensures Countdown(secs * SecondUs) == FormatCountdown(secs)
  {
    NormalizedUnique(FromUs(secs * SecondUs), Timedelta(0, secs, 0));
  }

  /** A quarter of an hour formats as "00:15:00". */
  lemma QuarterHourCountdown()
    ensures Countdown(15 * MinuteUs) == "00:15:00"
  {
    CountdownWhole(900);
    assert FormatCountdown(900) == "00:15:00" by {
      ZeroPad2Below100(0);
      ZeroPad2Below100(15);
    }
  }

  /** Six hours format as "06:00:00". */
  lemma SixHourCountdown()
    ensures Countdown(6 * HourUs) == "06:00:00"
  {
    CountdownWhole(21600);
    assert FormatCountdown(21600) == "06:00:00" by {
      ZeroPad2Below100(0);
      ZeroPad2Below100(6);
    }
  }

  /** A chosen prayer and time left give the returned answer. */
  lemma AnswerOf(timings: map<string, string>, now: int, name: string, diff: int)
    requires Today(now) && NextPrayerDiff(timings, now) == Ok((name, diff))
    ensures 0 < diff <= DayUs
    ensures TimeUntilNextPrayer(timings, now) == Ok((name, Countdown(diff)))
  {
  }

  /**
   * From 12:00 until 12:15 the choice is Dhuhr, with Fajr already rolled
   * over to tomorrow: every listed time that is strictly ahead and less
   * than a day away competes, not only those after the one just passed.
   */
  lemma DhuhrNextAfterNoon(timings: map<string, string>, now: int)
    requires 12 * HourUs <= now < WallClock(12, 15)
    requires Candidates(timings, Prayers, Placement(now)) == Ok(ExampleCandidates)
    ensures NextPrayerDiff(timings, now) == Ok(("Dhuhr", WallClock(12, 15) - now))
  {
    DhuhrSoonestBefore(now);
    NextPrayerDiffSoonest(timings, now, ExampleCandidates, 2);
  }

  /** So at 12:00 the answer returned is Dhuhr in "00:15:00". */
  lemma NoonPicksDhuhr(timings: map<string, string>)
    requires HoldsExample(timings)
    ensures TimeUntilNextPrayer(timings, 12 * HourUs) == Ok(("Dhuhr", "00:15:00"))
  {
    ExamplePlaced(timings, 12 * HourUs);
    DhuhrNextAfterNoon(timings, 12 * HourUs);
    AnswerOf(timings, 12 * HourUs, "Dhuhr", 15 * MinuteUs);
    QuarterHourCountdown();
  }

  /** After Isha the choice is tomorrow's Fajr. */
  lemma FajrNextAfterIsha(timings: map<string, string>, now: int)
    requires WallClock(19, 50) <= now < DayUs
    requires Candidates(timings, Prayers, Placement(now)) == Ok(ExampleCandidates)
    ensures NextPrayerDiff(timings, now) == Ok(("Fajr", WallClock(5, 0) + DayUs - now))
  {
    FajrSoonestAfterIsha(now);
    NextPrayerDiffSoonest(timings, now, ExampleCandidates, 0);
  }

  /** So at 23:00 the answer returned is Fajr in "06:00:00". */
  lemma ElevenPicksFajr(timings: map<string, string>)
    requires HoldsExample(timings)
    ensures TimeUntilNextPrayer(timings, 23 * HourUs) == Ok(("Fajr", "06:00:00"))
  {
    ExamplePlaced(timings, 23 * HourUs);
    FajrNextAfterIsha(timings, 23 * HourUs);
    AnswerOf(timings, 23 * HourUs, "Fajr", 6 * HourUs);
    SixHourCountdown();
  }

  /** Every prayer of the day listed at the same morning time, 05:00. */
  predicate AllAtFive(timings: map<string, string>) {
    && "Fajr" in timings && timings["Fajr"] == "05:00"
    && "Sunrise" in timings && timings["Sunrise"] == "05:00"
    && "Dhuhr" in timings && timings["Dhuhr"] == "05:00"
    && "Asr" in timings && timings["Asr"] == "05:00"
    && "Maghrib" in timings && timings["Maghrib"] == "05:00"
    && "Isha" in timings && timings["Isha"] == "05:00"
  }

  /** At 05:00 itself, 05:00 has not passed, so every entry lands exactly on now. */
  const SameTimeCandidates: seq<Candidate> := [
    Candidate("Fajr", WallClock(5, 0)),
    Candidate("Sunrise", WallClock(5, 0)),
    Candidate("Dhuhr", WallClock(5, 0)),
    Candidate("Asr", WallClock(5, 0)),
    Candidate("Maghrib", WallClock(5, 0)),
    Candidate("Isha", WallClock(5, 0))]

  /** "05:00" converts, to a morning hour. */
  lemma FiveIsMorning()
    ensures Valid24("05:00") && Unpack("05:00").value.0 < 12
  {
    PlacePadded(5, 0, WallClock(5, 0), "05:00");
  }

  /** Placing "05:00" at 05:00 gives 05:00 today. */
  lemma FivePlacedAtFive()
    ensures ConvertToDatetime("05:00", WallClock(5, 0)) == Ok(WallClock(5, 0))
  {
    PlacePadded(5, 0, WallClock(5, 0), "05:00");
  }

  /** A placement that sends "05:00" to 05:00 gives six candidates all at 05:00. */
  lemma SameTimeCandidatesFrom(timings: map<string, string>, place: string -> Result<int, Exception>)
    requires AllAtFive(timings) && place("05:00") == Ok(WallClock(5, 0))
    ensures Candidates(timings, Prayers, place) == Ok(SameTimeCandidates)
  {
    forall i | 0 <= i < |Prayers|
      ensures SameTimeCandidates[i].name == Prayers[i] && Prayers[i] in timings
      ensures place(timings[Prayers[i]]) == Ok(SameTimeCandidates[i].at)
    {
      // one empty branch per index, so that each element of the literal lists is unfolded
      if i == 0 {
      } else if i == 1 {
      } else if i == 2 {
      } else if i == 3 {
      } else if i == 4 {
      } else {
        assert i == 5;
      }
    }
    CandidatesAllPresent(timings, Prayers, place, SameTimeCandidates);
  }

  /** None of them is strictly ahead of 05:00. */
  lemma NoneAheadOfFive()
    ensures NoneQualifies(SameTimeCandidates, WallClock(5, 0))
  {
    forall j | 0 <= j < |SameTimeCandidates|
      ensures !Qualifies(SameTimeCandidates[j], WallClock(5, 0))
    {
    }
  }

  /**
   * With every entry at 05:00 and now exactly 05:00, no time is ahead, the
   * fallback takes Fajr a day later, and the countdown reads "00:00:00".
   */
  lemma SameMorningFallback(timings: map<string, string>)
    requires AllAtFive(timings)
    ensures TimeUntilNextPrayer(timings, WallClock(5, 0)) == Ok(("Fajr", "00:00:00"))
  {
    var now := WallClock(5, 0);
    FivePlacedAtFive();
    SameTimeCandidatesFrom(timings, Placement(now));
    NoneAheadOfFive();
    FiveIsMorning();
    MorningFajrFallback(timings, now);
    AnswerOf(timings, now, "Fajr", DayUs);
  }
}
