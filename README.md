# Millisecond timestamp codec of nodes-admin, in Dafny

This project models the date codec of `src/date.cpp` and the `"$date"`
document adapter and member accessors of `src/json.cpp`. It proves
properties of that model.

A timestamp is a count of milliseconds since 1970-01-01T00:00:00 UTC.
`Date::toISODate` writes it as `YYYY-MM-DDTHH:MM:SS.<ms>+00:00`. The `<ms>`
part is the millisecond remainder as a plain, unpadded integer, so `.5` means
5 ms. `Date::fromISODate` reads that form back. When the text has no `T`, it
hands the text to `Date::fromRubyDate`, which reads the legacy form
`YYYY-MM-DD HH:MM:SS <sign>HHMM`. `Date::getFutureTime` moves a timestamp by
whole hours and prints the result.

Layout, one module per file:

- `wrappers.dfy`, module `Wrappers`: `Option` and `Result`.
- `ctext.dfy`, module `CText`: the C library text helpers the codec uses:
  - `ostream << n` as `IntToString`;
  - `atol` as `Atol`: white space, an optional sign, leading digits, 0 when there are none;
  - `string::rfind` of one character as `LastIndexOf`.
- `calendar.dfy`, module `Calendar`: the proleptic Gregorian calendar, with
  the epoch day count of section 4.16 of the Base Definitions volume of
  POSIX.1-2017. Day numbers are converted to dates (`CivilFromDays`) and back
  (`DaysFromCivil`), and the two are proved inverse for every integer day.
- `ctime.dfy`, module `CTime`: `struct tm`, `gmtime` and `timegm`.
- `time_text.dfy`, module `TimeText`: `put_time` and `get_time` for
  `TIME_FORMAT` and `RUBY_TIME_FORMAT`. Each field has a fixed width, and the
  formats are lists of directives.
- `date.dfy`, module `Date`: the four codec functions. C++ truncating
  division is written out as `TruncDiv`. The decoders first produce a
  `Result` (`DecodeIso`, `DecodeRuby`). `FromISODate` and `FromRubyDate` then
  map every error to 0, as the C++ code does. This lets a lemma tell a
  failure apart from a real epoch 0.
- `date_lemmas.dfy`, `legacy_lemmas.dfy`, `date_examples.dfy`: what the
  codec promises, proved. The examples include the timestamp quoted in
  `include/date.hpp`.
- `json.dfy`, module `Json`: a JSON value with the kinds of
  `boost::json::value`, `Json::toISODate` and the member accessors.

The code splits with truncating division, not floor division, and accepts
only offset tokens that hold a `+`; the model follows the code:

- Encoding splits the timestamp with truncating division, not floor
  division. A negative timestamp therefore keeps a negative remainder, printed
  after the dot with its minus sign (`ToISODateNegativeMillis`).
- The legacy decoder accepts only an offset token that contains a `+`. A
  usual negative offset such as `-0500` yields 0 and is not applied
  (`NegativeOffsetRefused`). The negation is reached only by a token that
  starts with `-` and also holds a `+` (`NegativeOffsetWithPlus`).

## Model

| member | source | states |
|---|---|---|
| `Date.TruncDiv` | src/date.cpp:38 | C++ `/` on `long`: the quotient leaves a remainder in 0..b-1 for a non-negative dividend and in -(b-1)..0 for a negative one |
| `Date.MillisBounds` | src/date.cpp:55-68 | the millisecond remainder is in 0..999 for `t >= 0` and in -999..0 for `t < 0`, and the whole seconds times 1000 plus the remainder give back `t` |
| `Date.ToISODate` | src/date.cpp:53-79 | `Date::toISODate`; no contract of its own, its properties are `ToISODateLayout`, `ToISODateHasPlus`, `IsoRoundTrip` and the examples below |
| `DateLemmas.ToISODateLayout` | src/date.cpp:53-77 | for a year from 1000 to 9999, the text is the zero-padded year, month, day, `T`, hour, minute and second of the UTC time for `t/1000` (truncating), then `.`, the unpadded remainder and `+00:00` |
| `DateExamples.ToISODateEpoch` | src/date.cpp:53-77 | `toISODate(0)` is `1970-01-01T00:00:00.0+00:00` |
| `DateExamples.ToISODateNegativeMillis` | src/date.cpp:55-74 | `toISODate(-500)` is `1970-01-01T00:00:00.-500+00:00`: the second truncates toward zero and the remainder keeps its minus sign |
| `DateLemmas.ToISODateHasPlus` | src/date.cpp:75 | every printed timestamp contains a `+` |
| `Date.DecodeIso` | src/date.cpp:81-130 | `Date::fromISODate` before errors become 0; its properties are `DecodeIsoDispatch`, `DecodeIsoNoDot`, `DecodeIsoNoPlus`, `DecodeIsoValue` and `DecodeIsoIgnoresOffset` |
| `Date.FromISODate` | src/date.cpp:81-130 | every error of `DecodeIso` becomes 0; its properties are `FromISODateValue`, `IsoRoundTrip` and `HeaderExample` |
| `DateLemmas.DecodeIsoDispatch` | src/date.cpp:85-87 | text without a `T` decodes exactly as the legacy decoder decodes it |
| `DateLemmas.DecodeIsoNoDot` | src/date.cpp:89-93 | text with a `T` fails for want of a dot if and only if it has no `.` |
| `DateLemmas.DecodeIsoNoPlus` | src/date.cpp:98-104 | text with a `T` fails for want of a plus if and only if no `+` follows its last `.`, and decodes if and only if one does |
| `DateLemmas.IsoPartsValue` | src/date.cpp:100-128 | after the dot, the text up to the last `+` is read with `atol` as milliseconds and added to 1000 times `timegm` of the fields before the dot; what follows that `+` plays no part |
| `DateLemmas.IsoSplit` | src/date.cpp:85-98 | in `start.rem`, where `start` holds a `T` and `rem` holds no `.`, the last dot is the one after `start`, so decoding goes on with exactly `start` and `rem` |
| `DateLemmas.DecodeIsoValue` | src/date.cpp:85-128 | when `start` holds a `T`, `ms` and `offset` hold no `.` and `offset` holds no `+`, `start.ms+offset` decodes to `timegm(get_time(start))*1000 + atol(ms)` |
| `DateLemmas.FromISODateValue` | src/date.cpp:81-128 | the same value, as `fromISODate` returns it |
| `DateLemmas.DecodeIsoIgnoresOffset` | src/date.cpp:100-128 | any two offsets after the `+` decode alike: the offset is ignored |
| `DateLemmas.FractionIsUnscaled` | src/date.cpp:124-128 | `.5` adds 5 ms and `.500` adds 500 ms to the fields' seconds times 1000: the digits count milliseconds and are not a fraction |
| `DateLemmas.UtcDigits` | src/date.cpp:124-128 | any run of digits after the dot adds its decimal value in milliseconds |
| `DateLemmas.IsoFieldsRoundTrip` | src/date.cpp:72 | `get_time` with `TIME_FORMAT` reads back every field `put_time` printed, for a canonical time with a year from 1000 to 9999 |
| `DateLemmas.IsoTextSplits` | src/date.cpp:70-100 | the text `toISODate` assembles from any time and millisecond count is split at its last dot and last plus into the printed fields and the printed count |
| `DateLemmas.IsoSecondsRoundTrip` | src/date.cpp:106-121 | `timegm(get_time(put_time(tm)))` is `timegm(tm)` for a canonical time with a year from 1000 to 9999 |
| `DateLemmas.MillisReadBack` | src/date.cpp:124-125 | `atol` reads back the printed millisecond count, and that count holds no `.` or `+` |
| `DateLemmas.IsoTextDecodes` | src/date.cpp:70-128 | the text for a canonical time and any millisecond count decodes to `timegm` of the time times 1000 plus that count |
| `DateLemmas.IsoRoundTrip` | src/date.cpp:53-128 | `fromISODate(toISODate(t)) == t` whenever the year of `t` is from 1000 to 9999, negative `t` included |
| `DateLemmas.IsoRoundTripFromEpoch` | src/date.cpp:53-128 | `fromISODate(toISODate(t)) == t` for every `t` from 0 up to the end of year 9999 |
| `Date.ShiftedMillis` | src/date.cpp:38-47 | the shifted whole seconds times 1000 plus the remainder `now - tnum*1000` equal `now + hours*3600000` |
| `Date.GetFutureTime` | src/date.cpp:36-51 | `Date::getFutureTime`; its properties are `GetFutureTimeShift`, `GetFutureTimeZero`, `GetFutureTimeDay`, `GetFutureTimeNextDay` and `GetFutureTimeDayBeforeEpoch` |
| `DateLemmas.GetFutureTimeShift` | src/date.cpp:36-49 | `getFutureTime(t, h)` prints `t + h*3600000`: the split into whole seconds and remainder recombines exactly |
| `DateLemmas.GetFutureTimeZero` | src/date.cpp:36-49 | `getFutureTime(t, 0) == toISODate(t)` for every `t` |
| `DateLemmas.DayLaterSplits` | src/date.cpp:38-46 | for `now >= 0`, for `now <= -86400000` and for a whole second, a day later has 86400 more whole seconds and the same millisecond remainder |
| `DateLemmas.GetFutureTimeDay` | src/date.cpp:36-49 | in the same cases, 24 hours ahead prints the second one day later with the same millisecond remainder |
| `DateLemmas.GetFutureTimeNextDay` | src/date.cpp:36-49 | for every `t`, the second 86400 after that of `t` is the next calendar date at the same hour, minute and second |
| `DateLemmas.SubSecond` | src/date.cpp:38-46 | less than a second from the epoch, either way, has 0 whole seconds and a remainder equal to the timestamp |
| `DateLemmas.DayLaterCrosses` | src/date.cpp:38-46 | between a day before the epoch and the epoch, off the whole second, a day later has only 86399 more whole seconds and a remainder 1000 above the old negative one |
| `DateLemmas.GetFutureTimeDayBeforeEpoch` | src/date.cpp:36-49 | in that case 24 hours ahead prints the second 86399 later with a positive remainder where `now` has a negative one |
| `DateLemmas.GmtimeSameDay` | src/date.cpp:56 | two seconds of the same day number have the same `gmtime` date |
| `DateLemmas.GetFutureTimeSubSecondBeforeEpoch` | src/date.cpp:36-49 | within a second before the epoch (`-500`, say), 24 hours ahead prints second 86399 of the same date as `now`, not the next day |
| `DateExamples.HeaderExample` | include/date.hpp:10 | `fromISODate("2024-07-25T06:54:39.599+00:00") == 1721890479599` |
| `DateExamples.HeaderFieldsRead` | src/date.cpp:106-109 | `get_time` reads `2024-07-25T06:54:39` as 25 July 2024, 06:54:39 |
| `DateExamples.HeaderSeconds` | src/date.cpp:121 | `timegm` of 25 July 2024, 06:54:39 is 1721890479 |
| `Date.DecodeRuby` | src/date.cpp:132-179 | `Date::fromRubyDate` before errors become 0; its properties are `DecodeRubyNoSpace`, `DecodeRubyNoPlus`, `DecodeRubyValue` and `DecodeRubyOffset` |
| `Date.FromRubyDate` | src/date.cpp:132-179 | every error of `DecodeRuby` becomes 0; its properties are `FromRubyDateWholeSeconds`, `NegativeOffsetRefused` and `LegacyMinusExample` |
| `Date.RubyOffset` | src/date.cpp:169-174 | the offset in seconds of a legacy token; its properties are `SignedOffset`, `HalfHourOffsetDropsMinutes` and `NegativeOffsetWithPlus` |
| `LegacyLemmas.DecodeRubyNoSpace` | src/date.cpp:134-138 | the legacy decoder fails for want of a space if and only if the text has no space |
| `LegacyLemmas.SignedOffset` | src/date.cpp:169-174 | a token `<sign><digits>...` gives an offset of `digits/100` whole hours in seconds, negated when the sign is `-` |
| `LegacyLemmas.RubySplit` | src/date.cpp:134-161 | in `start token` with no space in the token, the last space ends `start`, so decoding goes on with exactly `start` and the token |
| `LegacyLemmas.DecodeRubyValue` | src/date.cpp:134-177 | `start token`, with no space and a `+` in the token, decodes to `(timegm(get_time(start)) + s*(atol(token[1..])/100)*3600)*1000`, where `s` is -1 if the token starts with `-` |
| `LegacyLemmas.DecodeRubyNoPlus` | src/date.cpp:161-167 | a token fails for want of a plus if and only if it has no `+`, and then the result is 0 |
| `LegacyLemmas.NegativeOffsetRefused` | src/date.cpp:163-167 | the offset `-0500` is refused and the result is 0 |
| `LegacyLemmas.FromRubyDateWholeSeconds` | src/date.cpp:177 | every legacy result is a multiple of 1000 |
| `LegacyLemmas.SignedToken` | src/date.cpp:163-172 | a sign, digits and space-free text form a token that starts with the sign and holds a `+` when the sign is `+` or the text has one |
| `LegacyLemmas.DecodeRubyOffset` | src/date.cpp:169-177 | a `<sign><digits>` token moves the clock reading by `digits/100` whole hours, forward for `+` and back for `-`, provided a `+` appears |
| `LegacyLemmas.HalfHourOffsetDropsMinutes` | src/date.cpp:169-171 | `+0530` adds exactly 5 hours: the minutes are dropped |
| `LegacyLemmas.NegativeOffsetWithPlus` | src/date.cpp:172-174 | the token `-0500+` moves the clock reading back by 5 hours |
| `LegacyLemmas.RubyFieldsRoundTrip` | src/date.cpp:143-146 | `get_time` with `RUBY_TIME_FORMAT` reads back every field `put_time` printed with it |
| `LegacyLemmas.RubySecondsRoundTrip` | src/date.cpp:143-158 | `timegm(get_time(put_time(tm)))` with `RUBY_TIME_FORMAT` is `timegm(tm)` for a canonical time with a year from 1000 to 9999 |
| `LegacyLemmas.LegacyUtcAgreesWithIso` | src/date.cpp:81-177 | `Y-M-D H:M:S +0000` decodes, through either entry point, to the same timestamp as the ISO text for that time with 0 ms |
| `DateExamples.LegacyMinusExample` | src/date.cpp:161-167 | `fromRubyDate("2024-07-01 06:54:39 -0500") == 0` |
| `DateExamples.LegacyUtcExample` | src/date.cpp:132-177 | `fromRubyDate("2024-07-01 06:54:39 +0000") == fromISODate("2024-07-01T06:54:39.0+00:00")` |
| `CText.IntToString` | src/date.cpp:74 | `ostream << n`: non-empty, a leading `-` exactly when `n < 0`, digits otherwise |
| `CText.NatToString` | src/date.cpp:74 | a non-negative number prints as digits whose value is the number, with a leading `0` only for the number 0 |
| `CText.IntToStringChars` | src/date.cpp:74 | `ostream << n` prints only digits and `-` |
| `CText.NatToStringWidth` | src/date.cpp:72 | a number with exactly `w` digits prints the same with or without zero padding to `w` |
| `CText.ZeroPad` | src/date.cpp:72 | a field prints as exactly `w` digits whose value is the number |
| `CText.Atol` | src/date.cpp:125 | `atol`; its properties are `AtolIntToString`, `AtolDigits`, `AtolUnsigned`, `AtolMinus` and `AtolNoDigits` |
| `CText.AtolIntToString` | src/date.cpp:125 | `atol` reads back what `ostream << n` printed, for any `n`, whatever non-digit text follows |
| `CText.AtolDigits` | src/date.cpp:125 | `atol` of a run of digits is their value, whatever non-digit text follows |
| `CText.AtolUnsigned` | src/date.cpp:125 | `atol` of text that starts with a digit is the value of its leading digits |
| `CText.AtolMinus` | src/date.cpp:169 | `atol` of `-` followed by text is minus the value of that text's leading digits |
| `CText.AtolNoDigits` | src/date.cpp:125 | `atol` is 0 when no digit follows the leading white space and the optional sign |
| `CText.LastIndexOf` | src/date.cpp:85 | `rfind`: none if and only if the character is absent; otherwise an index holding it with no later occurrence |
| `CText.LastIndexOfAt` | src/date.cpp:89 | the last occurrence of a character is the index `rfind` returns |
| `Calendar.DaysFromCivil` | src/date.cpp:121 | the day number of a date, day 0 being 1970-01-01; its properties are `DaysFromCivilInverse` and `CivilFromDays` |
| `Calendar.CivilFromDays` | src/date.cpp:56 | a day number maps to a valid date whose day number it is |
| `Calendar.DaysFromCivilInverse` | src/date.cpp:121 | every valid date maps back to itself through its day number |
| `Calendar.CivilFromDaysYearRange` | src/date.cpp:56 | day numbers between the first days of two years fall in the years between them |
| `Calendar.CivilFromDaysSucc` | src/date.cpp:40-42 | day `n + 1` is the date after day `n` |
| `CTime.Gmtime` | src/date.cpp:56 | `gmtime`: canonical fields whose date is day `t/86400` and whose clock time is second `t%86400` of that day |
| `CTime.Timegm` | src/date.cpp:121 | `timegm`; its properties are `TimegmGmtime` and `GmtimeTimegm` |
| `CTime.TimegmGmtime` | src/date.cpp:121 | `timegm(gmtime(t)) == t` for every second |
| `CTime.GmtimeTimegm` | src/date.cpp:158 | `gmtime(timegm(tm)) == tm` for every canonical `tm` |
| `CTime.GmtimeNextDay` | src/date.cpp:40-42 | 86400 seconds later is the next date at the same clock time |
| `TimeText.PutTime` | src/date.cpp:72 | `put_time`; its properties are `PutTimeLayout`, `PutTimeAppend` and `GetTimePutTime` |
| `TimeText.GetTime` | src/date.cpp:109 | `get_time`; its property is `GetTimePutTime` |
| `TimeText.PutInRange` | src/date.cpp:72 | a field in the range `get_time` accepts prints as exactly its width in digits; the year, printed unpadded, has four digits from 1000 on |
| `TimeText.PutTimeAppend` | src/date.cpp:72 | printing two formats one after the other prints the text of each in turn |
| `TimeText.PutDate` | src/date.cpp:20-21 | the date part of both formats prints the year, month and day with `-` between them |
| `TimeText.PutClock` | src/date.cpp:20-21 | the clock part of both formats prints hour, minute and second in two digits with `:` between them |
| `TimeText.GetTimePutTime` | src/date.cpp:109 | `get_time` reads back, field by field, what `put_time` printed with the same format, whatever follows |
| `TimeText.PutTimeLayout` | src/date.cpp:20-21 | both formats print a four-digit year and two-digit month, day, hour, minute and second, with `T` or a space between date and time |
| `TimeText.CanonicalInRange` | src/date.cpp:146 | every field of a canonical time with a year from 1000 to 9999 prints in its width and is in the range `get_time` accepts |
| `Json.Has` | src/json.cpp:47-51 | `Json::has`: an object holding the member; its property is `GettersImplyHas` |
| `Json.GetMember` | src/json.cpp:32-45 | the member called `name` when `j` is an object that has it, null otherwise |
| `Json.GetString` | src/json.cpp:53-64 | `Some(s)` if and only if the member exists and is a string, and then it is the string `s` |
| `Json.GetArray` | src/json.cpp:66-77 | `Some` if and only if the member exists and is an array, holding its elements |
| `Json.GetObject` | src/json.cpp:79-90 | `Some` if and only if the member exists and is an object, holding that object |
| `Json.GetBool` | src/json.cpp:92-103 | `Some` if and only if the member exists and is a bool, holding its value |
| `Json.GetNumber` | src/json.cpp:105-116 | `Some` if and only if the member exists and is an int64 (not a uint64 or a double), holding its value |
| `Json.ToISODate` | src/json.cpp:18-30 | `not_object` exactly for a non-object, `bad_object` exactly for an object without `$date`, and otherwise the ISO text of the `$date` integer |
| `Json.GettersImplyHas` | src/json.cpp:47-51 | a typed getter that succeeds implies `has(j, name)` |
| `Json.GettersExclusive` | src/json.cpp:53-116 | no two of the five typed getters succeed on the same member: each of the ten pairs is stated |
| `Json.NullMemberLooksMissing` | src/json.cpp:32-45 | for every object, a member that is null and a name it does not hold give the same `getMember` result, null |
| `Json.SilentChangesNothing` | src/json.cpp:32-116 | the `silent` flag changes no accessor's result |
| `Json.DateDocumentRoundTrip` | src/json.cpp:28 | a `$date` document from the epoch to the end of year 9999 prints text that decodes back to its integer |

## Left out

- `Date::now` reads the wall clock and is not modelled. No other member depends on it.
- Logging through `BOOST_LOG_TRIVIAL` is not modelled. The models keep only the returned values.
- Machine widths are not modelled: the `long`, `time_t` and `int` locals use unbounded integers. `atol` overflow is undefined behaviour in C and is also left out. Only `Json.Value` keeps int64 and uint64 payload ranges.
- `TimeText.GetTime` models `get_time` for well-formed text only. Each field is read with exactly its width and within its range, and reading stops at the first mismatch. The stream's failbit is never checked by the code, and the model does not model it either. libstdc++'s handling of shorter fields and of leading white space is not modelled.
- `CTime.Timegm` normalises an out-of-range month into the year, and counts days, hours, minutes and seconds on linearly. The weekday, day-of-year and daylight-saving fields of `struct tm` are not modelled.
- `TimeText.Put` prints `%Y` as a plain decimal without padding, as glibc's `strftime` does, so the year 999 prints as `999`. `get_time` reads exactly four year digits in this model, so the round-trip and layout properties are stated for years 1000 to 9999. libstdc++'s reading of shorter or longer years is not modelled.
- `Date.GetFutureTime`: `std::chrono::system_clock` counts 64-bit nanoseconds, so `from_time_t` and the addition at src/date.cpp:40-42 overflow outside roughly the years 1677 to 2262. The model uses unbounded integers, so `GetFutureTimeShift` also holds where the program would overflow.
- `Json.ToISODate` requires the `$date` member to be an int64, because `as_int64` throws otherwise. That exception path is not modelled.
- `Json.Value` keeps a double as a real number. JSON parsing and serialisation (`boost::json::parse`, `operator<<`) are not modelled.
- src/nodesadmin.cpp (the GUI, the socket transport and its duplicate accessors) is not part of this model.
