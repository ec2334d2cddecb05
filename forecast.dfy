/** The forecast document and the two passes over it: `get_wd_and_hour` with
    `weekday_data_transform`, which annotate every entry with its weekday, and
    `get_humidity_by_weekday`, which buckets the humidities by weekday name. */
module Forecast {
  import opened Wrappers
  import opened Text
  import opened Calendar

  /** What `get_wd_and_hour` puts in place of an entry's timestamp. */
  datatype Stamp = Stamp(weekday: string, hour: string, date: string)

  /** One three-hour slot as the service sends it: `dt_txt` and `main.humidity`. */
  datatype RawEntry = RawEntry(dtTxt: string, humidity: int)

  /** The same slot once its `dt_txt` has been annotated. */
  datatype Entry = Entry(dtTxt: Stamp, humidity: int)

  /** The decoded document; `list` is `None` when it has no "list" key. */
  datatype Document = Document(list: Option<seq<RawEntry>>)

  /** The annotated document. */
  datatype Annotated = Annotated(list: seq<Entry>)

  /** The range of a C `int`, which `datetime.date` converts its arguments to. */
  const CIntMin := -0x8000_0000
  const CIntMax := 0x7FFF_FFFF

  /** `[int(x) for x in parts]`: the values of all parts, or the ValueError of the first part that is not an integer. */
  function ParseFields(parts: seq<string>): (r: Result<seq<int>>)
    ensures r.Ok? ==> |r.value| == |parts| && forall i :: 0 <= i < |parts| ==> ParseInt(parts[i]) == Some(r.value[i])
    ensures r.Err? ==> r.error == NotAnInteger
  {
    if parts == [] then Ok([])
    else match ParseInt(parts[0])
      case None => Err(NotAnInteger)
      case Some(n) =>
        match ParseFields(parts[1..])
        case Err(e) => Err(e)
        case Ok(ns) => Ok([n] + ns)
  }

  /** The list comprehension fails exactly when some part is not an integer. */
  lemma {:induction false} ParseFieldsOk(parts: seq<string>, values: seq<int>)
    requires |values| == |parts| && forall i :: 0 <= i < |parts| ==> ParseInt(parts[i]) == Some(values[i])
    ensures ParseFields(parts) == Ok(values)
  {
    if parts != [] {
      var rest := parts[1..];
      forall i | 0 <= i < |rest| ensures ParseInt(rest[i]) == Some(values[1..][i]) {
        assert rest[i] == parts[i + 1];
      }
      ParseFieldsOk(rest, values[1..]);
      ParseFieldsCons(parts, values[0], values[1..]);
      assert values == [values[0]] + values[1..];
    }
  }

  lemma ParseFieldsCons(parts: seq<string>, v: int, vs: seq<int>)
    requires parts != [] && ParseInt(parts[0]) == Some(v) && ParseFields(parts[1..]) == Ok(vs)
    ensures ParseFields(parts) == Ok([v] + vs)
  {
  }

  /** `datetime.date(*fields)`, whose C constructor converts its arguments with the format
      `"iii"`: more than three fields is a TypeError at once; otherwise each field present is
      converted first, so a field beyond a C `int` is an OverflowError even when fields are
      missing; fewer than three is then a TypeError, and a date outside the calendar a ValueError. */
  function MakeDate(fields: seq<int>): (r: Result<Date>)
    ensures r.Ok? <==> |fields| == 3 && IsValid(Date(fields[0], fields[1], fields[2]))
    ensures r.Ok? ==> r.value == Date(fields[0], fields[1], fields[2])
    ensures r == Err(DateArgOverflow) <==>
              |fields| <= 3 && exists i :: 0 <= i < |fields| && !(CIntMin <= fields[i] <= CIntMax)
    ensures r == Err(DateArity) <==>
              |fields| > 3 || (|fields| < 3 && forall i :: 0 <= i < |fields| ==> CIntMin <= fields[i] <= CIntMax)
    ensures r == Err(DateOutOfRange) <==>
              |fields| == 3 && (forall i :: 0 <= i < 3 ==> CIntMin <= fields[i] <= CIntMax)
              && !IsValid(Date(fields[0], fields[1], fields[2]))
  {
    if |fields| > 3 then Err(DateArity)
    else if exists i :: 0 <= i < |fields| && !(CIntMin <= fields[i] <= CIntMax) then Err(DateArgOverflow)
    else if |fields| < 3 then Err(DateArity)
    else
      var d := Date(fields[0], fields[1], fields[2]);
      if IsValid(d) then Ok(d) else Err(DateOutOfRange)
  }

  /** Three integers that form a date of the calendar. */
  predicate DateFields(nums: seq<int>) {
    |nums| == 3 && IsValid(Date(nums[0], nums[1], nums[2]))
  }

  /** `get_wd_and_hour(dt_txt)`: the second space-separated field is the hour (an IndexError
      when there is none), the first is the date, parsed as `year-month-day`. */
  function GetWdAndHour(dtTxt: string): (r: Result<Stamp>)
    ensures r.Ok? ==> r.value.weekday in WeekdayNames
    ensures r.Ok? ==> |Split(dtTxt, ' ')| >= 2 && r.value.date == Split(dtTxt, ' ')[0] && r.value.hour == Split(dtTxt, ' ')[1]
    ensures r.Ok? ==> exists d :: IsValid(d) && ParseFields(Split(r.value.date, '-')) == Ok([d.year, d.month, d.day])
                                 && r.value.weekday == WeekdayNames[Weekday(d)]
    ensures r.Ok? <==> |Split(dtTxt, ' ')| >= 2 && ParseFields(Split(Split(dtTxt, ' ')[0], '-')).Ok?
                       && DateFields(ParseFields(Split(Split(dtTxt, ' ')[0], '-')).value)
  {
    var fields := Split(dtTxt, ' ');
    if |fields| < 2 then Err(MissingTime)
    else
      var parsed := ParseFields(Split(fields[0], '-'));
      if parsed.Err? then Err(parsed.error)
      else
        var made := MakeDate(parsed.value);
        if made.Err? then Err(made.error)
        else
          var d := made.value;
          assert parsed.value == [d.year, d.month, d.day];
          Ok(Stamp(WeekdayNames[Weekday(d)], fields[1], fields[0]))
  }

  /** The annotation keeps the two original substrings: the timestamp reads
      `date + " " + hour`, followed by nothing or by more space-separated text. */
  lemma StampKeepsText(dtTxt: string)
    requires GetWdAndHour(dtTxt).Ok?
    ensures var st := GetWdAndHour(dtTxt).value;
            exists rest :: dtTxt == st.date + " " + st.hour + rest && (rest == [] || rest[0] == ' ')
  {
    var fields := Split(dtTxt, ' ');
    var st := GetWdAndHour(dtTxt).value;
    assert st.date == fields[0] && st.hour == fields[1];
    assert dtTxt == Join(fields, " ") by {
      JoinSplit(dtTxt, ' ');
    }
    var rest := JoinHead(fields, " ");
    assert dtTxt == st.date + " " + st.hour + rest;
    if rest != [] {
      assert rest[..1][0] == rest[0];
    }
    assert rest == [] || rest[0] == ' ';
  }

  /** A join of two or more fields begins with the first two and the separator between them. */
  lemma JoinHead(fields: seq<string>, sep: string) returns (rest: string)
    requires |fields| >= 2 && sep != []
    ensures Join(fields, sep) == fields[0] + sep + fields[1] + rest
    ensures rest == [] || (|rest| >= |sep| && rest[..|sep|] == sep)
  {
    if |fields| == 2 {
      rest := [];
      assert Join(fields[1..], sep) == fields[1];
    } else {
      rest := sep + Join(fields[2..], sep);
      assert fields[1..][1..] == fields[2..];
      assert rest[..|sep|] == sep;
    }
  }

  /** A timestamp without a space has no hour: IndexError. */
  lemma StampNeedsSpace(dtTxt: string)
    requires ' ' !in dtTxt
    ensures GetWdAndHour(dtTxt) == Err(MissingTime)
  {
    SplitPrefix(dtTxt, [], ' ');
    assert dtTxt + [] == dtTxt;
  }

  /** The date layout the service uses: `YYYY-MM-DD`. */
  function FormatDate(d: Date): string
    requires IsValid(d)
  {
    Join([ZeroPadded(d.year as nat, 4), ZeroPadded(d.month as nat, 2), ZeroPadded(d.day as nat, 2)], "-")
  }

  lemma DigitsHaveNoSeparator(s: string, sep: char)
    requires AllDigits(s) && !IsDigit(sep)
    ensures sep !in s
  {
  }

  /** Reading a formatted date back gives the date. */
  lemma DateRoundTrip(d: Date)
    requires IsValid(d)
    ensures ParseFields(Split(FormatDate(d), '-')) == Ok([d.year, d.month, d.day])
  {
    FormattedDateSplits(d);
    PaddedFieldsParse(d);
  }

  /** Splitting a formatted date at '-' gives its three zero-padded fields. */
  lemma FormattedDateSplits(d: Date)
    requires IsValid(d)
    ensures Split(FormatDate(d), '-')
            == [ZeroPadded(d.year as nat, 4), ZeroPadded(d.month as nat, 2), ZeroPadded(d.day as nat, 2)]
  {
    var y, m, dd := ZeroPadded(d.year as nat, 4), ZeroPadded(d.month as nat, 2), ZeroPadded(d.day as nat, 2);
    DigitsHaveNoSeparator(y, '-');
    DigitsHaveNoSeparator(m, '-');
    DigitsHaveNoSeparator(dd, '-');
    SplitJoin([y, m, dd], '-');
  }

  /** The three zero-padded fields of a date parse back to its year, month and day. */
  lemma PaddedFieldsParse(d: Date)
    requires IsValid(d)
    ensures ParseFields([ZeroPadded(d.year as nat, 4), ZeroPadded(d.month as nat, 2), ZeroPadded(d.day as nat, 2)])
            == Ok([d.year, d.month, d.day])
  {
    var y, m, dd := ZeroPadded(d.year as nat, 4), ZeroPadded(d.month as nat, 2), ZeroPadded(d.day as nat, 2);
    PaddedFieldsFit(d);
    ParseZeroPadded(d.year as nat, 4);
    ParseZeroPadded(d.month as nat, 2);
    ParseZeroPadded(d.day as nat, 2);
    ParseThreeFields(y, m, dd, d.year, d.month, d.day);
  }

  /** Three fields that each read as an integer give those three integers. */
  lemma ParseThreeFields(a: string, b: string, c: string, x: int, y: int, z: int)
    requires ParseInt(a) == Some(x) && ParseInt(b) == Some(y) && ParseInt(c) == Some(z)
    ensures ParseFields([a, b, c]) == Ok([x, y, z])
  {
    ParseFieldsOk([a, b, c], [x, y, z]);
  }

  /** The fields of a date are written in exactly 4, 2 and 2 digits. */
  lemma PaddedFieldsFit(d: Date)
    requires IsValid(d)
    ensures |ZeroPadded(d.year as nat, 4)| == 4 && |ZeroPadded(d.month as nat, 2)| == 2
            && |ZeroPadded(d.day as nat, 2)| == 2
  {
    assert Pow10(2) == 100 && Pow10(4) == 10000;
    ZeroPaddedLength(d.year as nat, 4);
    ZeroPaddedLength(d.month as nat, 2);
    ZeroPaddedLength(d.day as nat, 2);
  }

  /** Annotating the service's timestamp of a date `d` and a time of day gives `d`'s weekday,
      the time as the hour and the formatted date. */
  lemma StampRoundTrip(d: Date, time: string)
    requires IsValid(d) && ' ' !in time
    ensures GetWdAndHour(FormatDate(d) + " " + time)
            == Ok(Stamp(WeekdayNames[Weekday(d)], time, FormatDate(d)))
  {
    var date := FormatDate(d);
    assert ' ' !in date by {
      var y, m, dd := ZeroPadded(d.year as nat, 4), ZeroPadded(d.month as nat, 2), ZeroPadded(d.day as nat, 2);
      DigitsHaveNoSeparator(y, ' ');
      DigitsHaveNoSeparator(m, ' ');
      DigitsHaveNoSeparator(dd, ' ');
      assert [y, m, dd][1..] == [m, dd] && [m, dd][1..] == [dd];
      assert Join([m, dd], "-") == m + "-" + dd;
      assert date == y + "-" + Join([m, dd], "-");
    }
    SplitJoin([date, time], ' ');
    assert [date, time][1..] == [time];
    DateRoundTrip(d);
    assert MakeDate([d.year, d.month, d.day]) == Ok(d);
  }

  /** A timestamp that begins with an information separator, such as U+001C, is a ValueError:
      `strip()` would remove it, but `int()` refuses it. */
  lemma StampRefusesInfoSeparator(d: Date, time: string, c: char)
    requires IsValid(d) && ' ' !in time && IsInfoSeparator(c)
    ensures GetWdAndHour([c] + FormatDate(d) + " " + time) == Err(NotAnInteger)
  {
    var date := [c] + FormatDate(d);
    var first := SeparatedDateSplits(d, c);
    SplitJoin([date, time], ' ');
    assert [date, time][1..] == [time];
    assert Join([date, time], " ") == date + " " + time;
    assert first[0] == c;
    assert ParseInt(first) == None;
  }

  /** The date text behind the separator holds no space, and its first `-`-field starts with it. */
  lemma SeparatedDateSplits(d: Date, c: char) returns (first: string)
    requires IsValid(d) && IsInfoSeparator(c)
    ensures ' ' !in [c] + FormatDate(d)
    ensures first != [] && first[0] == c
    ensures Split([c] + FormatDate(d), '-')
            == [first, ZeroPadded(d.month as nat, 2), ZeroPadded(d.day as nat, 2)]
  {
    var y, m, dd := ZeroPadded(d.year as nat, 4), ZeroPadded(d.month as nat, 2), ZeroPadded(d.day as nat, 2);
    first := [c] + y;
    JoinThree(y, m, dd, "-");
    JoinThree(first, m, dd, "-");
    assert [c] + FormatDate(d) == Join([first, m, dd], "-");
    DigitsHaveNoSeparator(y, '-');
    DigitsHaveNoSeparator(m, '-');
    DigitsHaveNoSeparator(dd, '-');
    SplitThree(first, m, dd, '-');
    DigitsHaveNoSeparator(y, ' ');
    DigitsHaveNoSeparator(m, ' ');
    DigitsHaveNoSeparator(dd, ' ');
  }

  lemma JoinThree(a: string, b: string, c: string, sep: string)
    ensures Join([a, b, c], sep) == a + sep + (b + sep + c)
  {
    assert [a, b, c][1..] == [b, c] && [b, c][1..] == [c];
    assert Join([b, c], sep) == b + sep + c;
  }

  lemma SplitThree(a: string, b: string, c: string, sep: char)
    requires sep !in a && sep !in b && sep !in c
    ensures Split(Join([a, b, c], [sep]), sep) == [a, b, c]
  {
    SplitJoin([a, b, c], sep);
  }

  /** 2023-01-02 was a Monday: the service's timestamp for noon that day is annotated
      as Monday, with "12:00:00" as its hour. */
  lemma MondayExample()
    ensures IsValid(Date(2023, 1, 2))
    ensures GetWdAndHour(FormatDate(Date(2023, 1, 2)) + " " + "12:00:00")
            == Ok(Stamp("monday", "12:00:00", FormatDate(Date(2023, 1, 2))))
  {
    var d := Date(2023, 1, 2);
    MondayDate();
    StampRoundTrip(d, "12:00:00");
  }

  /** That timestamp's date part reads "2023-01-02". */
  lemma FormatDateExample()
    ensures IsValid(Date(2023, 1, 2)) && FormatDate(Date(2023, 1, 2)) == "2023-01-02"
  {
    PaddedExamples();
    assert FormatDate(Date(2023, 1, 2)) == Join(["2023", "01", "02"], "-");
  }

  lemma PaddedExamples()
    ensures ZeroPadded(2023, 4) == "2023" && ZeroPadded(1, 2) == "01" && ZeroPadded(2, 2) == "02"
  {
    assert Decimal(2023) == Decimal(202) + "3";
    assert Decimal(202) == Decimal(20) + "2";
    assert Decimal(20) == Decimal(2) + "0";
  }

  /** `weekday_data_transform(json_data)`: a copy of the document in which every entry's
      `dt_txt` is replaced by its annotation, in the same order and with the humidity
      untouched. The first timestamp that cannot be annotated aborts the whole transform
      with its error, and a document without "list" is a KeyError. */
  method WeekdayDataTransform(doc: Document) returns (r: Result<Annotated>)
    ensures doc.list.None? ==> r == Err(MissingList)
    ensures doc.list.Some? ==>
              (r.Ok? <==> forall k :: 0 <= k < |doc.list.value| ==> GetWdAndHour(doc.list.value[k].dtTxt).Ok?)
    ensures r.Ok? ==> doc.list.Some? && |r.value.list| == |doc.list.value|
    ensures r.Ok? ==> forall k :: 0 <= k < |r.value.list| ==>
              r.value.list[k] == Entry(GetWdAndHour(doc.list.value[k].dtTxt).value, doc.list.value[k].humidity)
    ensures doc.list.Some? && r.Err? ==>
              exists k :: 0 <= k < |doc.list.value| && GetWdAndHour(doc.list.value[k].dtTxt) == Err(r.error)
                          && forall j :: 0 <= j < k ==> GetWdAndHour(doc.list.value[j].dtTxt).Ok?
  {
    if doc.list.None? {
      return Err(MissingList);
    }
    var items := doc.list.value;
    var out: seq<Entry> := [];
    var i := 0;
    while i < |items|
      invariant 0 <= i <= |items|
      invariant |out| == i
      invariant forall k :: 0 <= k < i ==> GetWdAndHour(items[k].dtTxt).Ok?
      invariant forall k :: 0 <= k < i ==> out[k] == Entry(GetWdAndHour(items[k].dtTxt).value, items[k].humidity)
    {
      var stamp := GetWdAndHour(items[i].dtTxt);
      if stamp.Err? {
        assert GetWdAndHour(items[i].dtTxt) == Err(stamp.error);
        return Err(stamp.error);
      }
      var next := out + [Entry(stamp.value, items[i].humidity)];
      forall k | 0 <= k < i + 1
        ensures GetWdAndHour(items[k].dtTxt).Ok?
        ensures next[k] == Entry(GetWdAndHour(items[k].dtTxt).value, items[k].humidity)
      {
        if k == i {
          assert next[k] == Entry(stamp.value, items[i].humidity);
        } else {
          assert next[k] == out[k];
        }
      }
      out := next;
      i := i + 1;
    }
    return Ok(Annotated(out));
  }

  /** The weekday names as a set: the keys of the humidity buckets. */
  const WeekdaySet: set<string> := set n | n in WeekdayNames

  /** The humidities of the entries annotated with weekday `name`, in entry order. */
  function HumiditiesOn(entries: seq<Entry>, name: string): (hs: seq<int>)
    ensures |hs| <= |entries|
  {
    if entries == [] then []
    else (if entries[0].dtTxt.weekday == name then [entries[0].humidity] else []) + HumiditiesOn(entries[1..], name)
  }

  /** Appending an entry appends its humidity to its own weekday's list and to no other. */
  lemma {:induction false} HumiditiesOnAppend(entries: seq<Entry>, e: Entry, name: string)
    ensures HumiditiesOn(entries + [e], name)
            == HumiditiesOn(entries, name) + (if e.dtTxt.weekday == name then [e.humidity] else [])
  {
    if entries != [] {
      assert (entries + [e])[1..] == entries[1..] + [e];
      HumiditiesOnAppend(entries[1..], e, name);
    } else {
      assert [] + [e] == [e];
    }
  }

  /** The loop of `get_humidity_by_weekday` for any list of bucket names: start with an
      empty bucket per name, then append each entry's humidity to its weekday's bucket.
      An entry whose weekday has no bucket is a KeyError. */
  method CollectHumidities(entries: seq<Entry>, names: seq<string>) returns (r: Result<map<string, seq<int>>>)
    ensures r.Ok? <==> forall k :: 0 <= k < |entries| ==> entries[k].dtTxt.weekday in names
    ensures r.Err? ==> r.error == UnknownWeekday
    ensures r.Ok? ==> r.value.Keys == (set n | n in names)
    ensures r.Ok? ==> forall n :: n in r.value ==> r.value[n] == HumiditiesOn(entries, n)
  {
    var buckets: map<string, seq<int>> := map n | n in names :: [];
    var i := 0;
    while i < |entries|
      invariant 0 <= i <= |entries|
      invariant buckets.Keys == (set n | n in names)
      invariant forall n :: n in buckets ==> buckets[n] == HumiditiesOn(entries[..i], n)
      invariant forall k :: 0 <= k < i ==> entries[k].dtTxt.weekday in names
    {
      var w := entries[i].dtTxt.weekday;
      if w !in buckets {
        assert w !in names;
        return Err(UnknownWeekday);
      }
      var updated := buckets[w := buckets[w] + [entries[i].humidity]];
      assert entries[..i + 1] == entries[..i] + [entries[i]];
      forall n | n in updated ensures updated[n] == HumiditiesOn(entries[..i + 1], n) {
        HumiditiesOnAppend(entries[..i], entries[i], n);
      }
      assert updated.Keys == buckets.Keys;
      buckets := updated;
      i := i + 1;
    }
    assert entries[..i] == entries;
    return Ok(buckets);
  }

  /** `get_humidity_by_weekday(json_data)`: one bucket per weekday name, all seven present,
      each holding the humidities of that weekday's entries in entry order. An entry whose
      weekday is not one of the seven names is a KeyError. */
  method GetHumidityByWeekday(doc: Annotated) returns (r: Result<map<string, seq<int>>>)
    ensures r.Ok? <==> forall k :: 0 <= k < |doc.list| ==> doc.list[k].dtTxt.weekday in WeekdayNames
    ensures r.Err? ==> r.error == UnknownWeekday
    ensures r.Ok? ==> r.value.Keys == WeekdaySet
    ensures r.Ok? ==> forall n :: n in r.value ==> r.value[n] == HumiditiesOn(doc.list, n)
  {
    r := CollectHumidities(doc.list, WeekdayNames);
  }

  /** Total number of humidities over the buckets of `names`. */
  function TotalOn(entries: seq<Entry>, names: seq<string>): nat {
    if names == [] then 0 else |HumiditiesOn(entries, names[0])| + TotalOn(entries, names[1..])
  }

  /** How many times `w` occurs in `names`. */
  function Occurrences(names: seq<string>, w: string): nat {
    if names == [] then 0 else (if names[0] == w then 1 else 0) + Occurrences(names[1..], w)
  }

  lemma {:induction false} TotalOnStep(entries: seq<Entry>, names: seq<string>)
    requires entries != []
    ensures TotalOn(entries, names)
            == TotalOn(entries[..|entries| - 1], names) + Occurrences(names, entries[|entries| - 1].dtTxt.weekday)
  {
    if names != [] {
      var last := entries[|entries| - 1];
      assert entries == entries[..|entries| - 1] + [last];
      HumiditiesOnAppend(entries[..|entries| - 1], last, names[0]);
      TotalOnStep(entries, names[1..]);
    }
  }

  /** A name that is absent occurs zero times. */
  lemma {:induction false} AbsentOccursNever(names: seq<string>, w: string)
    requires w !in names
    ensures Occurrences(names, w) == 0
  {
    if names != [] {
      assert w !in names[1..];
      AbsentOccursNever(names[1..], w);
    }
  }

  /** In a list without repetitions, each of its names occurs exactly once. */
  lemma {:induction false} DistinctOccursOnce(names: seq<string>, w: string)
    requires Distinct(names) && w in names
    ensures Occurrences(names, w) == 1
  {
    if names[0] == w {
      assert w !in names[1..] by {
        forall k | 0 <= k < |names| - 1 ensures names[1..][k] != w {
          assert names[1..][k] == names[k + 1];
        }
      }
      AbsentOccursNever(names[1..], w);
    } else {
      assert w in names[1..] by {
        var k :| 0 <= k < |names| && names[k] == w;
        assert names[1..][k - 1] == w;
      }
      DistinctOccursOnce(names[1..], w);
    }
  }

  /** Every entry lands in exactly one bucket: the bucket sizes add up to the number of entries. */
  lemma {:induction false} BucketsCoverEntries(entries: seq<Entry>)
    requires forall k :: 0 <= k < |entries| ==> entries[k].dtTxt.weekday in WeekdayNames
    ensures TotalOn(entries, WeekdayNames) == |entries|
  {
    if entries != [] {
      BucketsCoverEntries(entries[..|entries| - 1]);
      TotalOnStep(entries, WeekdayNames);
      WeekdayNamesDistinct();
      DistinctOccursOnce(WeekdayNames, entries[|entries| - 1].dtTxt.weekday);
    } else {
      assert TotalOn([], WeekdayNames) == 0;
    }
  }
}
