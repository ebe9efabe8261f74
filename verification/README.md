# Prayer-time countdown, modelled in Dafny

`prayer_time.py` is a terminal program. It fetches the day's prayer times
("HH:MM" strings keyed by Fajr, Sunrise, Dhuhr, Asr, Maghrib and Isha) and
prints them as 12-hour times. It also says which prayer comes next and how
long remains until it. This project models the three pure functions behind
that display:

- `convert_time` turns "HH:MM" into "H:MM AM/PM". Any failure comes back as
  the text "Error: ...".
- `convert_to_datetime` places "HH:MM" on today's date. A time that has
  passed and falls before noon moves to tomorrow.
- `time_until_next_prayer` places every listed prayer that is present. It
  picks the soonest one that is strictly ahead and less than a day away.
  When none qualifies, it falls back to Fajr one day after its placed time.
  It returns the time left as "HH:MM:SS", taken from the `seconds` field of
  the `timedelta`.

Modules and files:

- `Wrappers` (`wrappers.dfy`): `Option` and `Result`.
- `Digits` (`digits.dfy`): Python's `str(n)`, `:02d`, `int(text)` and
  `str.split`.
- `TimeText` (`time_text.dfy`):
  - the statement `hour, minute = map(int, text.split(':'))`, which both
    converters start with, including the order in which CPython converts and
    unpacks;
  - the exceptions that can be raised, with their `str()` texts.
- `Clock12` (`clock12.dfy`): `convert_time`.
- `Timedelta` (`timedelta.dfy`): the normalised (days, seconds,
  microseconds) form of a duration.
- `NextPrayer` (`next_prayer.dfy`): `convert_to_datetime` and
  `time_until_next_prayer`.
- `Scenarios` (`scenarios.dfy`): one day of timings worked through
  `time_until_next_prayer`.

How time is represented:

- An instant is an integer count of microseconds since today's midnight.
  Microseconds are the resolution of `datetime`.
- The current time is a parameter `now` with `0 <= now < one day`.
- An exception is a `Result.Err` carrying an `Exception` value.
- The selection loop is modelled over any list of distinct names that
  begins with Fajr (the program's dict `prayer_datetimes` keeps one entry
  per name, so a repeated name would make the model differ), and over any placement function that keeps placed times within a day
  of `now`. `NextPrayerDiff` instantiates it with the program's fixed list
  and with `convert_to_datetime`.

Two consequences of the code are worth stating on their own:

- **Which prayer is next at 12:00.** With Fajr 05:00, Sunrise 06:30, Dhuhr
  12:15, Asr 15:45, Maghrib 18:20 and Isha 19:50, the code compares every
  placed time with `now`. So at 12:00 Dhuhr at 12:15 wins, with "00:15:00"
  (`Scenarios.NoonPicksDhuhr`).
- **When the Fajr fallback is reached.** After the last prayer of the day,
  the rollover rule has already moved a morning Fajr to tomorrow. So the
  selection loop (the second loop, which compares the differences) picks
  Fajr itself (`Scenarios.FajrNextAfterIsha`). With Fajr before noon, the
  fallback is reached only when Fajr's time is exactly `now`
  (`NextPrayer.MorningFajrAtNow`). The answer is then Fajr with "00:00:00",
  although that Fajr is a whole day away (`NextPrayer.MorningFajrFallback`).
  This needs every listed time to sit exactly at `now`. For example, with
  all six entries at "05:00", at 05:00 the answer is Fajr in "00:00:00"
  (`Scenarios.SameMorningFallback`).

## Model

| member | source | states |
|---|---|---|
| Digits.Decimal | prayer_time.py:24 | `str(n)` is a non-empty digit string with no leading zero whose value is `n`; it has one digit exactly when `n < 10` |
| Digits.ZeroPad2 | prayer_time.py:153 | `:02d` gives at least two digits with value `n`, exactly two below 100 |
| Digits.DecimalBelow100 | prayer_time.py:24 | `str(n)` below 100 is the single digit, or the tens digit and then the units digit |
| Digits.ZeroPad2Below100 | prayer_time.py:153 | `:02d` of a number under 100 is its tens digit and then its units digit |
| Digits.TwoDigitText | prayer_time.py:153 | every two-digit text is the `:02d` of the number it reads as, so `:02d` is the only way to write a value under 100 in two digits |
| Digits.DecimalOfDigits | prayer_time.py:24 | a digit string with no leading zero is `str` of its value, so `str` is the only way to write a positive number without a leading zero |
| Digits.ParseInt | prayer_time.py:17 | `int(text)` succeeds exactly on an optional `+` or `-` followed by at least one ASCII digit, and only a leading `-` gives a negative value |
| Digits.ParseIntDecimal | prayer_time.py:17 | `int` reads back what `str` and `:02d` write; a leading `-` negates the value and a leading `+` leaves it unchanged |
| Digits.Split | prayer_time.py:17 | `split(':')` gives one more piece than there are colons; no piece contains a colon; joining the pieces with ':' rebuilds the text |
| Digits.SplitJoin | prayer_time.py:17 | splitting a join of colon-free pieces gives the same pieces back |
| TimeText.Unpack | prayer_time.py:17 | unpacking fails only with too few values, too many values or an int() literal error; too few values means the text has no colon |
| TimeText.UnpackParts | prayer_time.py:17 | unpacking succeeds exactly when there are two pieces and both are int literals, and the two pieces give the two numbers; a refused literal is one of the first three pieces |
| TimeText.UnpackPadded | prayer_time.py:117 | a zero-padded "HH:MM" unpacks to its hour and minute |
| TimeText.Message | prayer_time.py:19 | `str` of an exception is non-empty, and it reads "Invalid time" exactly for the `ValueError` that convert_time raises itself; an invalid-literal text is at most 240 characters long, because the quoted piece is cut at 200 characters as CPython's `%.200R` cuts it |
| Clock12.To12 | prayer_time.py:21-23 | the 12-hour hour is in 1..12 and the minute is kept; the period is AM exactly when the hour is before 12; the reading maps back to the 24-hour hour |
| Clock12.To12Injective | prayer_time.py:21-23 | two different times of day never give the same 12-hour reading |
| Clock12.Render | prayer_time.py:24 | the f-string starts with a non-zero digit of the hour, and ends with ':', two minute digits, a space and the period |
| Clock12.ParseRender | prayer_time.py:24 | the "H:MM AM" text can be read back to the same reading, so the text loses nothing |
| Clock12.RenderParse | prayer_time.py:24 | every text that reads back as a valid 12-hour reading is exactly that reading's f-string, so the read-back fixes the text |
| Clock12.RenderNotError | prayer_time.py:24-26 | a successful conversion starts with the hour's digit, so it can never be mistaken for the "Error: " text the except branch returns |
| Clock12.ConvertTime | prayer_time.py:15-26 | the result starts with "Error: " exactly when the input does not unpack to a time of day; an unpacking failure gives that exception's text and an out-of-range time gives "Invalid time"; otherwise the result reads back as the input's hour (AM before noon) and minute, which by `Clock12.RenderParse` fixes the "H:MM AM/PM" text |
| Clock12.ConvertTimeInjective | prayer_time.py:15-26 | two accepted inputs with the same output unpack to the same time |
| Clock12.ConvertPadded | prayer_time.py:17-24 | after a zero-padded "HH:MM" has unpacked, only the range check decides between the 12-hour text and "Error: Invalid time" |
| Clock12.ConvertMidnightHour | prayer_time.py:21-24 | "00:05" is "12:05 AM" |
| Clock12.ConvertNoonHour | prayer_time.py:21-24 | "12:30" is "12:30 PM" |
| Clock12.ConvertAfternoonHour | prayer_time.py:21-24 | "13:07" is "1:07 PM", with no leading zero on the hour |
| Clock12.ConvertHourOutOfRange | prayer_time.py:18-19 | "24:00" is "Error: Invalid time" |
| Timedelta.FromUs | prayer_time.py:140 | a duration's normalised form has seconds in 0..86399 and microseconds in 0..999999, and it adds back up to the duration |
| Timedelta.NormalizedUnique | prayer_time.py:148-150 | a duration has exactly one normalised form |
| Timedelta.SecondsWithinDay | prayer_time.py:150 | for a non-negative duration under a day, `days` is 0 and `seconds` is its whole number of seconds |
| Timedelta.SecondsOfOneDay | prayer_time.py:148-150 | exactly one day normalises to one day, zero seconds and zero microseconds |
| NextPrayer.PlaceToday | prayer_time.py:118-121 | the placed time is today's wall-clock time, or that time plus one day exactly when it has passed and the hour is before 12; a morning time lands in [now, now + 1 day) |
| NextPrayer.ConvertToDatetime | prayer_time.py:114-123 | a converted time is not before today's midnight and is less than one day after now |
| NextPrayer.ConvertToDatetimeOk | prayer_time.py:114-123 | conversion succeeds exactly when the text unpacks to a time of day; the result is the wall-clock time, moved to tomorrow exactly when it has passed and is before noon; an afternoon time is never moved and a morning time is never behind now |
| NextPrayer.ConvertToDatetimeErrors | prayer_time.py:117-118 | failures come in order: the unpacking exception first, then the hour range, then the minute range |
| NextPrayer.Candidates | prayer_time.py:132-134 | the first loop succeeds exactly when no present name's time fails to convert; each candidate is a present listed name with its converted time; a present first name comes first |
| NextPrayer.CandidatesNames | prayer_time.py:132-134 | the candidates are exactly the listed names present in the mapping, in list order |
| NextPrayer.CandidatesFirstFailure | prayer_time.py:132-134 | a failing first loop raises the exception of the first present name, in list order, whose time does not convert |
| NextPrayer.CandidatesAllPresent | prayer_time.py:132-134 | when every listed name is present and converts, the candidates are those names with their converted times, in order |
| NextPrayer.CandidatesAgree | prayer_time.py:132-134 | mappings that agree on the listed names give the same candidates |
| NextPrayer.SoonestUnique | prayer_time.py:139-143 | the soonest qualifying candidate, with the earlier one winning a tie, is unique |
| NextPrayer.Scan | prayer_time.py:136-143 | continuing the loop from any position, with the loop state so far, ends in no choice exactly when no candidate qualifies, and otherwise in the soonest qualifying candidate |
| NextPrayer.SelectNext | prayer_time.py:136-143 | the second loop chooses nothing exactly when no candidate is strictly ahead and less than a day away; otherwise it chooses the soonest one, the earliest in list order on a tie |
| NextPrayer.FajrNotAhead | prayer_time.py:139-147 | whenever nothing qualifies and Fajr is present, Fajr's placed time is not after now |
| NextPrayer.FajrLookup | prayer_time.py:147 | with a Fajr entry the lookup gives that entry's conversion; without one it raises a KeyError whose text is 'Fajr' in quotes |
| NextPrayer.Choose | prayer_time.py:136-148 | when some candidate qualifies, the answer is a soonest qualifying one with its time left; otherwise it is Fajr one day after its placed time, or the lookup's exception |
| NextPrayer.NextPrayerWith | prayer_time.py:129-148 | a chosen prayer is a listed name present in the mapping, and the time left is more than zero and at most one day |
| NextPrayer.NextIsSoonest | prayer_time.py:136-143 | when some candidate qualifies, the answer is a soonest qualifying candidate and its time left |
| NextPrayer.NextIsSelected | prayer_time.py:136-143 | when some candidate qualifies, the loop's choice is the soonest candidate and decides the answer |
| NextPrayer.ChooseSelected | prayer_time.py:136-148 | a chosen candidate decides the answer whatever the Fajr lookup would give |
| NextPrayer.SoonestSelected | prayer_time.py:136-148 | any candidate that is the soonest qualifying one is the answer |
| NextPrayer.FallbackToFajr | prayer_time.py:145-148 | when nothing qualifies, the answer is Fajr one day after its placed time; without a Fajr entry the lookup raises KeyError('Fajr') |
| NextPrayer.FallbackAtNow | prayer_time.py:145-148 | a fallback Fajr placed exactly at now leaves exactly one day |
| NextPrayer.NextPrayerFailure | prayer_time.py:132-134 | when a conversion fails, the answer is the exception of the first failing name |
| NextPrayer.OnlyPrayerKeysMatter | prayer_time.py:129-134 | keys outside the listed names, and their values, never change the answer |
| NextPrayer.NextPrayerDiff | prayer_time.py:125-148 | with the program's list and `convert_to_datetime`, the chosen prayer is one of the six names and present, and the time left is in (0, one day] |
| NextPrayer.NextPrayerDiffSoonest | prayer_time.py:127-148 | with the program's list and `convert_to_datetime`, the soonest qualifying candidate is the answer |
| NextPrayer.PinnedAtNow | prayer_time.py:118-121 | a morning time placed no later than now is placed exactly at now |
| NextPrayer.MorningFajrAtNow | prayer_time.py:120-147 | with Fajr before noon, the fallback happens only when Fajr's time is exactly now |
| NextPrayer.MorningFajrFallback | prayer_time.py:145-148 | in that case the time left is exactly one day |
| NextPrayer.FormatCountdown | prayer_time.py:150-153 | the text is "HH:MM:SS" with two digits per field, its fields are below 24, 60 and 60, and it reads back as the number of seconds |
| NextPrayer.FormatFields | prayer_time.py:150-153 | hours under 24 and minutes and seconds under 60 are exactly what `divmod` recovers from their total, so they format as themselves |
| NextPrayer.CountdownFormatted | prayer_time.py:150-153 | every "HH:MM:SS" text with fields in range is the format of the seconds it reads as, so the format fixes the text |
| NextPrayer.FormatZero | prayer_time.py:150-153 | zero seconds format as "00:00:00" |
| NextPrayer.Countdown | prayer_time.py:148-153 | the countdown is "HH:MM:SS" with hours under 24 and minutes and seconds under 60; it reads as the `seconds` field of the time left; under a day it is the whole seconds, and exactly one day formats as "00:00:00" |
| NextPrayer.TimeUntilNextPrayer | prayer_time.py:125-153 | it fails exactly when the choice fails, with the same exception; otherwise it names the chosen prayer, one of the six and present, with "HH:MM:SS" whose hours are under 24 and minutes and seconds under 60, and which reads as the `seconds` field of the time left |
| Scenarios.PlacePadded | prayer_time.py:114-123 | a zero-padded "HH:MM" in range unpacks to its hour and minute and converts to its placed time |
| Scenarios.FajrPlaced | prayer_time.py:118-121 | from noon on, "05:00" is placed tomorrow |
| Scenarios.SunrisePlaced | prayer_time.py:118-121 | from noon on, "06:30" is placed tomorrow |
| Scenarios.DhuhrPlaced | prayer_time.py:118-121 | "12:15" stays today, even once it has passed |
| Scenarios.AsrPlaced | prayer_time.py:118-121 | "15:45" stays today |
| Scenarios.MaghribPlaced | prayer_time.py:118-121 | "18:20" stays today |
| Scenarios.IshaPlaced | prayer_time.py:118-121 | "19:50" stays today |
| Scenarios.ExampleCandidatesFrom | prayer_time.py:132-134 | the example's entries, placed as listed, give the six candidates in order |
| Scenarios.ExamplePlaced | prayer_time.py:129-134 | from noon on, the example's timings give the six candidates, with the two morning ones tomorrow |
| Scenarios.DhuhrSoonestBefore | prayer_time.py:139-143 | between 12:00 and 12:15 every example candidate qualifies and Dhuhr is the soonest |
| Scenarios.FajrSoonestAfterIsha | prayer_time.py:139-143 | after 19:50, tomorrow's Fajr is the soonest qualifying candidate |
| Scenarios.CountdownWhole | prayer_time.py:148-153 | a whole number of seconds under a day formats as that number of seconds |
| Scenarios.QuarterHourCountdown | prayer_time.py:150-153 | fifteen minutes format as "00:15:00" |
| Scenarios.SixHourCountdown | prayer_time.py:150-153 | six hours format as "06:00:00" |
| Scenarios.AnswerOf | prayer_time.py:150-153 | the returned answer is the chosen prayer with the countdown of its time left |
| Scenarios.DhuhrNextAfterNoon | prayer_time.py:125-148 | with the example's timings, from 12:00 until 12:15 the choice is Dhuhr, with the time left until 12:15 |
| Scenarios.NoonPicksDhuhr | prayer_time.py:125-153 | with the example's timings, at 12:00 the answer is Dhuhr in "00:15:00" |
| Scenarios.FajrNextAfterIsha | prayer_time.py:125-148 | with the example's timings, after 19:50 the choice is tomorrow's Fajr, found by the selection loop rather than the fallback |
| Scenarios.ElevenPicksFajr | prayer_time.py:125-153 | with the example's timings, at 23:00 the answer is Fajr in "06:00:00" |
| Scenarios.FiveIsMorning | prayer_time.py:117-120 | "05:00" converts, and its hour is before noon |
| Scenarios.FivePlacedAtFive | prayer_time.py:114-123 | at 05:00, "05:00" has not passed and stays at 05:00 today |
| Scenarios.SameTimeCandidatesFrom | prayer_time.py:132-134 | six entries all at "05:00", placed at 05:00, give six candidates all at 05:00 |
| Scenarios.NoneAheadOfFive | prayer_time.py:139-141 | no candidate at 05:00 is strictly ahead of 05:00, so the selection loop picks nothing |
| Scenarios.SameMorningFallback | prayer_time.py:125-153 | with all six entries at "05:00", at 05:00 the fallback picks Fajr and the answer reads "00:00:00" |

## Left out

- `fetch_location`, `fetch_ptimes`, `get_terminal_width` and `display`. They do network, file and terminal I/O and have no logic of their own worth proving.
- The clock. `datetime.now()` becomes the parameter `now`. The code reads the clock once in `time_until_next_prayer` and once more in every call of `convert_to_datetime`. The model takes all of these readings to be the same instant.
- Time zones and daylight-saving time: `datetime.now()` is naive local time, and its day is modelled as exactly 24 hours.
- Python's `int()` leniency: surrounding whitespace, `_` between digits and non-ASCII digits. The model accepts only an optional sign followed by ASCII digits.
- Digits.ParseInt: CPython's `int()` refuses a decimal literal longer than 4300 digits with a `ValueError` about the integer string conversion limit. The model reads literals of any length, so for such an hour or minute `convert_time` reports a different error text and `convert_to_datetime` a range error instead. The limit is a configurable interpreter setting, not part of the program.
- Quoting in `repr`: an invalid-literal message quotes the piece between single quotes without escaping it.
- Dates. An instant is a time of day, possibly a day ahead, with no calendar date. On 9999-12-31, `prayer_time += timedelta(days=1)` in `convert_to_datetime` and `fajr_time + timedelta(days=1)` in `time_until_next_prayer` raise `OverflowError`; `PlaceToday` and `Choose` return a time there.
- `OverflowError` from `datetime.replace` for an hour or minute too large for a C int. The model raises the range error for every out-of-range value.
- Inputs that are not strings, and mapping values that are not strings.
