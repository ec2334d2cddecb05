# Weather mini challenge — a Dafny model

`WeatherMiniChallenge.py` builds an OpenWeatherMap request URL for a city, fetches the five-day forecast, annotates every three-hour entry with its weekday, buckets the humidities by weekday, and then advises an umbrella on at most three of the five days after today whose mean humidity is at least 70%. This project models that pipeline minus the fetch, and proves what each stage promises.

Modules, one file each:

- `wrappers.dfy` — `Option`, `Result`, and `Failure`. `Failure` has one constructor per cause of failure, and each stands for the Python exception the script raises for that cause:
  - IndexError: `CityIndexError` (`city[0]` on an empty city), `MissingTime` (a timestamp without a second space-separated field);
  - ValueError: `CountryValueError` (a bad country code), `NotAnInteger` (`int()` refuses a date field), `DateOutOfRange` (a date outside the calendar);
  - KeyError: `MissingList` (no `list` in the document), `UnknownWeekday` (a weekday that is not a bucket name), `MissingBucket` (one of the five days has no bucket);
  - TypeError: `DateArity` (a date part without three fields);
  - OverflowError: `DateArgOverflow` (a date field beyond a C `int`), `DateOverflow` (a day past 9999-12-31);
  - statistics.StatisticsError: `EmptyBucket` (the mean of an empty bucket).
- `text.dfy` — the string operations the script borrows from Python:
  - `str.isspace` as an explicit character set;
  - `strip()`;
  - `re.sub('\s+', '+', s)` as `Collapse`;
  - ASCII `lower()`;
  - `split` and its inverse `Join`;
  - `int()` on a field.
- `calendar.dfy` — the proleptic Gregorian calendar of `datetime.date`: validity, the day ordinal, the weekday (Monday = 0), and the next day.
- `url.dfy` — `url_builder`.
- `forecast.dfy` — `get_wd_and_hour`, `weekday_data_transform`, `get_humidity_by_weekday`.
- `umbrella.dfy` — `generate_days_list` and the umbrella-selection loop of the script's main block.
- `message.dfy` — the sentence the main block prints.

Where the script works step by step, the model does too:

- `url_builder` reassigns its `city` and `country` variables.
- The transform, the bucketing, the day generator, the selection and the message builder are all loops.
- Each of these is a `method` with loop invariants, proved against a specification function.
- The properties of each specification function are proved as lemmas.

`get_wd_and_hour` is an expression and is a `function`.

Behaviour of the script that the model keeps:

- **City stripping.** The city is stripped only when its first or last character is a literal space (line 38). It is not always trimmed. A city that starts with a tab and does not end with a space keeps the tab, which becomes `+`.
- **Country check.** The country check looks only for the character `' '` (line 40). It does not reject all whitespace.
- **Error kinds.** Each failure is the exception Python raises at that point of the script. An empty city fails with IndexError at `city[0]`.
- **Date errors.** `datetime.date(*date_list)` is a C constructor that converts the fields present before it reports a missing one. So a two-field date part whose first field is beyond a C `int` is an OverflowError, not a TypeError. Four or more fields are a TypeError at once.
- **Whitespace around numbers.** `int()` skips only the whitespace of C's `isspace` and non-ASCII whitespace. So U+001C to U+001F, which `str.isspace` and `strip()` treat as whitespace, make a date field a ValueError.
- **Digit limit.** `int()` refuses a decimal string of more than 4300 digits with a ValueError (the default of `sys.get_int_max_str_digits()` in current Python releases).
- **Selection loop.** The loop does not stop once three days are kept. It still takes the mean of every remaining day's bucket (line 128), so an empty bucket after the third kept day is still a StatisticsError.

## Model

| member | source | states |
|---|---|---|
| Url.IsCountryCode | WeatherMiniChallenge.py:40-44 | Lower-casing an accepted country code keeps it two characters long and free of spaces. |
| Url.UrlBuilder | WeatherMiniChallenge.py:29-46 | An empty city is an IndexError. A country that holds a space or is not two characters long is a ValueError. Otherwise the URL is the base URL, the city query, `,`, the lower-cased country, `&APPID=`, and the key. |
| Url.CityQuery | WeatherMiniChallenge.py:38-43 | The city part of the URL contains no whitespace at all. |
| Url.CityQueryOfPlainName | WeatherMiniChallenge.py:43 | A city without whitespace is sent unchanged. |
| Url.CityQueryOfSpacedName | WeatherMiniChallenge.py:38-43 | When the city begins or ends with a space, the query begins and ends with the first and last non-whitespace characters of the city, never with a `+` that stands for whitespace. |
| Url.CityQueryKeepsLeadingTab | WeatherMiniChallenge.py:38-43 | A city that begins with a tab and does not end with a space is not stripped, and its query begins with `+`. |
| Url.CityQueryOfPaddedTwoWords | WeatherMiniChallenge.py:38-43 | A two-word name padded with whitespace and starting with a space, such as `"  New York "`, becomes the two words joined by one `+`. |
| Text.Strip | WeatherMiniChallenge.py:39 | Its own contract only bounds the length: the result is no longer than the input. What it returns is stated by StripReturnsCore and StripIsCore. |
| Text.StripReturnsCore | WeatherMiniChallenge.py:39 | Stripping a text made of a whitespace run, a core with non-whitespace ends, and a whitespace run gives back exactly the core. |
| Text.StripIsCore | WeatherMiniChallenge.py:39 | Conversely, every text is such a run, core and run, and `strip()` returns that core, which is a contiguous slice of the text. |
| Text.Collapse | WeatherMiniChallenge.py:43 | Its own contract only bounds the length: the substitution never makes the text longer. What it returns is stated by the Collapse lemmas below. |
| Text.CollapseHasNoWhitespace | WeatherMiniChallenge.py:43 | After the substitution no whitespace is left. |
| Text.CollapseKeepsPlainText | WeatherMiniChallenge.py:43 | A text without whitespace is left unchanged by the substitution. |
| Text.CollapseRun | WeatherMiniChallenge.py:43 | A whole whitespace run, whatever its length, becomes a single `+`. |
| Text.CollapseConcat | WeatherMiniChallenge.py:43 | The substitution works piece by piece when the cut does not split a whitespace run. |
| Text.CollapseKeepsFirst | WeatherMiniChallenge.py:43 | A first character that is not whitespace stays first. |
| Text.CollapseKeepsLast | WeatherMiniChallenge.py:43 | A last character that is not whitespace stays last. |
| Text.CollapseTwoWords | WeatherMiniChallenge.py:43 | Two words around one whitespace character become the words joined by `+`. |
| Text.Lower | WeatherMiniChallenge.py:44 | Same length, no upper-case ASCII letter left, and each character lower-cases the same as the original. |
| Text.Split | WeatherMiniChallenge.py:75-76 | A split always has at least one field, and no field contains the separator. |
| Text.JoinSplit | WeatherMiniChallenge.py:75-76 | Joining the fields of a split with the separator gives back the text. |
| Text.SplitJoin | WeatherMiniChallenge.py:75-76 | Splitting a join of separator-free fields gives back the fields. |
| Text.SplitPrefix | WeatherMiniChallenge.py:75 | A separator-free prefix stays inside the first field of a split. |
| Text.ParseInt | WeatherMiniChallenge.py:76 | When `int()` succeeds, the text holds no character U+001C to U+001F (which `str.isspace` accepts but `int()` refuses), the stripped text is 1 to 4301 characters long (an optional sign and at most 4300 digits), ends in a digit, and begins with `-` when the value is negative. |
| Text.ParseDigits | WeatherMiniChallenge.py:76 | `int()` reads a plain string of at most 4300 decimal digits as its decimal value. |
| Text.ParseRejectsLongDigits | WeatherMiniChallenge.py:76 | A plain string of more than 4300 digits is refused with ValueError. |
| Text.ParseZeroPadded | WeatherMiniChallenge.py:76 | `int()` reads a zero-padded decimal within the digit limit back as the number it was written from. |
| Text.DecimalValue | WeatherMiniChallenge.py:76 | The decimal digits written for a number denote that number. |
| Text.LeadingZerosValue | WeatherMiniChallenge.py:76 | Leading zeros do not change the value of a digit string. |
| Calendar.WeekdayNamesDistinct | WeatherMiniChallenge.py:26 | The seven weekday names are pairwise different. |
| Calendar.IsValid | WeatherMiniChallenge.py:77 | A valid date has a day between 1 and 31, and 29 February only in a leap year. |
| Calendar.Ordinal | WeatherMiniChallenge.py:79 | Day numbers start at 1. Its bounds are OrdinalBounds, and its step is NextDayOrdinal. |
| Calendar.Weekday | WeatherMiniChallenge.py:79 | The weekday indexes the seven names: it lies between 0 and 6. |
| Calendar.NextDay | WeatherMiniChallenge.py:97-98 | The next day has a month from 1 to 12 and a positive day, and is in the same year or is 1 January of the following year. |
| Calendar.DaysInMonth | WeatherMiniChallenge.py:77 | Months have 28 to 31 days, and 29 exactly for February of a leap year. |
| Calendar.DaysBeforeNextYear | WeatherMiniChallenge.py:77-79 | The day count before a year grows by 365, or by 366 after a leap year. |
| Calendar.OrdinalWithinYear | WeatherMiniChallenge.py:77-79 | The ordinal of a date lies within its year, and is the year's last day exactly for 31 December. |
| Calendar.OrdinalBounds | WeatherMiniChallenge.py:97 | Every valid date lies between day 1 and 9999-12-31, and reaches that last day only for 9999-12-31 itself. |
| Calendar.NextDayOrdinal | WeatherMiniChallenge.py:97 | Adding one day to any valid date other than 9999-12-31 gives a valid date whose ordinal is one more. |
| Calendar.NextDayWeekday | WeatherMiniChallenge.py:97-98 | The next day's weekday is the following weekday, wrapping from Sunday to Monday. |
| Calendar.WeekdaysApart | WeatherMiniChallenge.py:96-98 | Dates `k` days apart have weekdays `k` apart modulo 7. |
| Calendar.MondayDate | WeatherMiniChallenge.py:79 | 2023-01-02 is valid and has weekday 0, Monday. |
| Forecast.ParseFields | WeatherMiniChallenge.py:76 | The list comprehension either reads every field as an integer, in order, or fails with ValueError. |
| Forecast.ParseFieldsOk | WeatherMiniChallenge.py:76 | When every field reads as an integer, the comprehension succeeds with exactly those integers. |
| Forecast.MakeDate | WeatherMiniChallenge.py:77 | `datetime.date(*fields)` succeeds exactly for three fields forming a valid date, and the result is that date. It is an OverflowError exactly when there are at most three fields and one is beyond a C `int`. It is a TypeError exactly when there are more than three fields, or fewer than three that all fit a C `int`. It is a ValueError exactly when three fields fit a C `int` but do not form a valid date. |
| Forecast.GetWdAndHour | WeatherMiniChallenge.py:72-81 | Succeeds exactly when the timestamp has a second space-separated field and the first one's `-`-separated parts all read as integers forming a valid date. The weekday is then the name of that parsed date's weekday, `date` is the first field, and `hour` is the second. |
| Forecast.StampKeepsText | WeatherMiniChallenge.py:75-81 | The timestamp reads the annotation's date, a space and its hour, followed by nothing or by more space-separated text. |
| Forecast.StampNeedsSpace | WeatherMiniChallenge.py:75 | A timestamp without a space has no hour: IndexError. |
| Forecast.DateRoundTrip | WeatherMiniChallenge.py:76-77 | Splitting a `YYYY-MM-DD` date at `-` and reading the fields gives back its year, month and day. |
| Forecast.FormattedDateSplits | WeatherMiniChallenge.py:76 | Splitting a formatted date at `-` gives its three zero-padded fields. |
| Forecast.PaddedFieldsParse | WeatherMiniChallenge.py:76 | The three zero-padded fields of a date read back as its year, month and day. |
| Forecast.StampRoundTrip | WeatherMiniChallenge.py:72-81 | For the timestamp of any valid date and a time without spaces, the annotation is the date's weekday name, that time as the hour, and the date text. |
| Forecast.StampRefusesInfoSeparator | WeatherMiniChallenge.py:75-77 | A timestamp in the service's layout with an information separator such as U+001C in front is a ValueError, although `strip()` would remove that character. |
| Forecast.MondayExample | WeatherMiniChallenge.py:72-81 | The noon timestamp of 2023-01-02 is annotated as Monday with hour `12:00:00`. |
| Forecast.FormatDateExample | WeatherMiniChallenge.py:73 | That date is written `2023-01-02`. |
| Forecast.WeekdayDataTransform | WeatherMiniChallenge.py:62-70 | A document without `list` is a KeyError. Otherwise the result succeeds exactly when every timestamp can be annotated. It then keeps the length and order, with each entry's timestamp replaced by its annotation and its humidity untouched. A failure carries the error of the first bad timestamp. |
| Forecast.HumiditiesOnAppend | WeatherMiniChallenge.py:87-88 | One more entry adds its humidity to the end of its own weekday's bucket and changes no other bucket. |
| Forecast.CollectHumidities | WeatherMiniChallenge.py:85-90 | Succeeds exactly when every entry's weekday is a bucket name, and otherwise is a KeyError. The keys are exactly the names. Each bucket holds that weekday's humidities in entry order. |
| Forecast.GetHumidityByWeekday | WeatherMiniChallenge.py:83-90 | The same for the seven weekday names: all seven keys are present, each with its weekday's humidities in entry order. |
| Forecast.TotalOnStep | WeatherMiniChallenge.py:87-88 | One more entry adds one to the total bucket size once for each time its weekday appears among the names. |
| Forecast.DistinctOccursOnce | WeatherMiniChallenge.py:85 | A name that appears in a list without repeats appears exactly once. |
| Forecast.AbsentOccursNever | WeatherMiniChallenge.py:85 | A name not in the list appears zero times. |
| Forecast.BucketsCoverEntries | WeatherMiniChallenge.py:83-90 | When every entry has one of the seven weekdays, the bucket sizes add up to the number of entries. |
| Umbrella.NamesAfterSkipTwo | WeatherMiniChallenge.py:96-98 | Of seven distinct names taken cyclically, the five after position `w` are distinct. They are exactly the names other than the one at `w` and the one before it. |
| Umbrella.FollowingWeekdaysAreTheRestOfTheWeek | WeatherMiniChallenge.py:92-99 | The five days after today are five distinct weekdays: every weekday except today and yesterday. |
| Umbrella.CollectNamesAhead | WeatherMiniChallenge.py:94-99 | Stepping one day at a time overflows exactly when today plus the count passes 9999-12-31. Otherwise entry `i` is the name `i + 1` places after today's weekday. |
| Umbrella.GenerateDaysList | WeatherMiniChallenge.py:92-99 | Five names, entry `i` being `WEEKDAY_LIST[(weekday(today) + i + 1) mod 7]`. It is an OverflowError exactly when a date past 9999-12-31 would be reached. |
| Umbrella.ThursdayExample | WeatherMiniChallenge.py:92-99 | 2023-01-05 is a Thursday, and the five days after it are Friday, Saturday, Sunday, Monday, Tuesday. |
| Umbrella.NeedsUmbrella | WeatherMiniChallenge.py:128 | A bucket with one reading needs an umbrella exactly when that reading is at least 70. |
| Umbrella.NeedsUmbrellaIsMeanAtLeast70 | WeatherMiniChallenge.py:128 | The exact integer test `sum >= 70 * len` holds exactly when the arithmetic mean is at least 70. |
| Umbrella.BoundaryBuckets | WeatherMiniChallenge.py:128 | 70 is inclusive: humidities 80 and 60 qualify, 80 and 59 do not. |
| Umbrella.RainyDays | WeatherMiniChallenge.py:127-129 | A day is among the rainy days exactly when it is one of the days and its bucket needs an umbrella. |
| Umbrella.TakeAppend | WeatherMiniChallenge.py:128-129 | An appended element joins the first three only while fewer than three are there. |
| Umbrella.SelectionStep | WeatherMiniChallenge.py:127-129 | One loop step keeps the day exactly when its bucket qualifies and fewer than three days are kept. |
| Umbrella.SelectUmbrellaDays | WeatherMiniChallenge.py:126-129 | Succeeds exactly when every day has a non-empty bucket. Otherwise the first bad day decides the error: KeyError for a missing bucket, StatisticsError for an empty one. On success the result is the first three qualifying days in order. |
| Umbrella.SelectionProperties | WeatherMiniChallenge.py:126-129 | At most three days are kept, each one of the days and qualifying. When fewer than three are kept, no qualifying day was left out. |
| Umbrella.RainyDaysInOrder | WeatherMiniChallenge.py:127-129 | The qualifying days stand at increasing positions of the day list. |
| Umbrella.SelectionInOrder | WeatherMiniChallenge.py:126-129 | The kept days are an in-order subsequence of the five days. |
| Message.TerminatedAppend | WeatherMiniChallenge.py:134-135 | Writing one more day adds it and its `, ` at the end. |
| Message.TerminatedIsJoinPlusSep | WeatherMiniChallenge.py:134-136 | Cutting the last `, ` off the written days leaves them joined by `, `. |
| Message.BuildMessage | WeatherMiniChallenge.py:131-142 | The loop writes the message specification. It is the no-umbrella sentence naming the city for no days, the one-day sentence for one day, and otherwise the days joined by `, ` with the last one added after ` and ` and a period. |
| Message.JoinShowsItem | WeatherMiniChallenge.py:134-137 | Every item of a joined list occurs whole in it. |
| Message.MessageNamesEveryDay | WeatherMiniChallenge.py:131-142 | Every kept day is named in the message. |
| Message.OpeningTellsCount | WeatherMiniChallenge.py:131-142 | The opening of the message tells, in both directions, whether no day, one day, or several days were kept. |

## Left out

- The `isinstance` checks of `url_builder` (lines 31-36): parameters are typed `string`, so their TypeError cannot arise.
- `json_data_fetsher` (lines 48-60): it is a network request and JSON decoding. The model starts from a decoded `Document` whose entries carry `dt_txt` and `main.humidity`.
  - Other JSON fields are not represented.
  - A missing `main`, `humidity` or `dt_txt` key is not modelled. The script would report a missing `dt_txt` as the KeyError for a missing `list` (lines 64-70), because the typed entries here always carry one.
- `deepcopy` and the in-place update of `item['dt_txt']` (lines 65-67): the model builds a new immutable sequence, so the caller's document is unchanged by construction and aliasing cannot arise.
- `datetime.datetime.today()` (line 122): the clock is not modelled. Today is a parameter.
  - Only the date of `today` is modelled.
  - The time of day carried by `datetime.datetime` does not affect the weekdays or the overflow point, so it is not modelled.
- `print` (lines 140, 142): the message is returned as a string.
- The script's constants and wiring in `__main__` (lines 104-123): the fixed city, country and key are not modelled. The stages are modelled one by one.
- Text.Lower: only ASCII letters are lowered. Python's full Unicode `lower()` is not modelled.
- Text.ParseInt: reads optional surrounding whitespace, an optional sign and at most 4300 ASCII digits. Underscore separators and non-ASCII decimal digits, which Python's `int()` also accepts, are not modelled. The digit limit is the default one; a limit changed by `sys.set_int_max_str_digits`, or a Python release older than the limit, is not modelled.
- Forecast.MakeDate: the order of its errors is that of CPython's C `datetime` module. The pure-Python `datetime` fallback is not modelled.
- Text.IsWhitespace: the fixed set of characters for which Python's `str.isspace()` is true, the same set `\s` matches in a `str` pattern. The `re` engine itself is not modelled.
- Umbrella.NeedsUmbrella: `statistics.mean(...) >= 70.0` is compared exactly, as `sum >= 70 * len` on integer humidities. Floating-point rounding is not modelled.
- Umbrella.SelectUmbrellaDays: an empty bucket is the modelled error EmptyBucket. It is not a precondition, because the script raises there.
