/** The umbrella decision: the five weekday names after today (`generate_days_list`) and
    the choice of at most three of them whose humidity bucket has a mean of at least 70. */
module Umbrella {
  import opened Wrappers
  import opened Calendar

  /** How many days ahead `generate_days_list` looks. */
  const DaysAhead := 5

  /** At most this many umbrella days are chosen. */
  const MaxUmbrellaDays := 3

  /** A day needs an umbrella when its mean humidity reaches this percentage. */
  const HumidityThreshold := 70

  /** The `count` names that follow position `w` in the cyclic list `names`. */
  function NamesAfter(names: seq<string>, w: nat, count: nat): seq<string>
    requires w < |names|
  {
    seq(count, i requires 0 <= i < count => names[(w + i + 1) % |names|])
  }

  /** Entry `i` of `NamesAfter` is the name `i + 1` places after `w`, wrapping round. */
  lemma NamesAfterAt(names: seq<string>, w: nat, count: nat, i: nat)
    requires w < |names| && i < count
    ensures NamesAfter(names, w, count)[i] == names[(w + i + 1) % |names|]
  {
  }

  /** The names of the `DaysAhead` weekdays that follow weekday number `w`. */
  function FollowingWeekdays(w: nat): seq<string>
    requires w < |WeekdayNames|
  {
    NamesAfter(WeekdayNames, w, DaysAhead)
  }

  /** Of a cyclic list of seven distinct names, the five after position `w` are all of
      them except the one at `w` and the one before it, each named once. */
  lemma NamesAfterSkipTwo(names: seq<string>, w: nat)
    requires |names| == 7 && Distinct(names) && w < 7
    ensures |NamesAfter(names, w, 5)| == 5
    ensures Distinct(NamesAfter(names, w, 5))
    ensures forall n :: n in NamesAfter(names, w, 5) <==>
              n in names && n != names[w] && n != names[(w + 6) % 7]
  {
    NamesAfterDistinct(names, w);
    NamesAfterExclude(names, w);
    NamesAfterInclude(names, w);
  }

  lemma NamesAfterDistinct(names: seq<string>, w: nat)
    requires |names| == 7 && Distinct(names) && w < 7
    ensures Distinct(NamesAfter(names, w, 5))
  {
    var days := NamesAfter(names, w, 5);
    forall i, j | 0 <= i < j < 5 ensures days[i] != days[j] {
      WrapWeek(w + i + 1);
      WrapWeek(w + j + 1);
    }
  }

  lemma NamesAfterExclude(names: seq<string>, w: nat)
    requires |names| == 7 && Distinct(names) && w < 7
    ensures forall n :: n in NamesAfter(names, w, 5) ==>
              n in names && n != names[w] && n != names[(w + 6) % 7]
  {
    var days := NamesAfter(names, w, 5);
    forall i | 0 <= i < 5
      ensures days[i] in names && days[i] != names[w] && days[i] != names[(w + 6) % 7]
    {
      WrapWeek(w + i + 1);
      WrapWeek(w + 6);
    }
  }

  lemma NamesAfterInclude(names: seq<string>, w: nat)
    requires |names| == 7 && w < 7
    ensures forall n :: n in names && n != names[w] && n != names[(w + 6) % 7] ==>
              n in NamesAfter(names, w, 5)
  {
    var days := NamesAfter(names, w, 5);
    forall k | 0 <= k < 7 && names[k] != names[w] && names[k] != names[(w + 6) % 7]
      ensures names[k] in days
    {
      var i := if k > w then k - w - 1 else k + 6 - w;
      WrapWeek(w + 6);
      WrapWeek(w + i + 1);
      assert days[i] == names[k];
    }
  }

  /** Reducing a position of at most two weeks to the week. */
  lemma WrapWeek(x: nat)
    requires x < 14
    ensures x % 7 == if x < 7 then x else x - 7
  {
  }

  /** The five days after today are the week without today and yesterday, each once. */
  lemma FollowingWeekdaysAreTheRestOfTheWeek(w: nat)
    requires w < 7
    ensures |FollowingWeekdays(w)| == DaysAhead
    ensures Distinct(FollowingWeekdays(w))
    ensures forall n :: n in FollowingWeekdays(w) <==>
              n in WeekdayNames && n != WeekdayNames[w] && n != WeekdayNames[(w + 6) % 7]
  {
    WeekdayNamesDistinct();
    NamesAfterSkipTwo(WeekdayNames, w);
  }

  /** One step of the loop below: the next date is valid, one day further on, and its
      weekday's name is the next entry of `NamesAfter`. */
  lemma StepAhead(today: Date, target: Date, names: seq<string>, count: nat, i: nat, days: seq<string>)
    requires IsValid(today) && IsValid(target) && |names| == 7 && i < count
    requires Ordinal(target) == Ordinal(today) + i && target != LastDate
    requires days == NamesAfter(names, Weekday(today), count)[..i]
    ensures IsValid(NextDay(target)) && Ordinal(NextDay(target)) == Ordinal(today) + i + 1
    ensures days + [names[Weekday(NextDay(target))]] == NamesAfter(names, Weekday(today), count)[..i + 1]
  {
    NextDayOrdinal(target);
    NameOfDateAhead(today, NextDay(target), names, count, i, days);
  }

  /** The date `i + 1` days after `today` carries entry `i` of `NamesAfter`. */
  lemma NameOfDateAhead(today: Date, next: Date, names: seq<string>, count: nat, i: nat, days: seq<string>)
    requires IsValid(today) && IsValid(next) && |names| == 7 && i < count
    requires Ordinal(next) == Ordinal(today) + i + 1
    requires days == NamesAfter(names, Weekday(today), count)[..i]
    ensures days + [names[Weekday(next)]] == NamesAfter(names, Weekday(today), count)[..i + 1]
  {
    var ahead := NamesAfter(names, Weekday(today), count);
    WeekdaysApart(today, next, i + 1);
    NamesAfterAt(names, Weekday(today), count, i);
    assert ahead[..i + 1] == ahead[..i] + [ahead[i]];
  }

  /** The loop of `generate_days_list` for any cyclic naming of the weekdays: step one day
      at a time, `count` times, and collect the name of each new date's weekday. */
  method CollectNamesAhead(today: Date, names: seq<string>, count: nat) returns (r: Result<seq<string>>)
    requires IsValid(today) && |names| == 7
    ensures r.Ok? <==> Ordinal(today) + count <= Ordinal(LastDate)
    ensures r.Err? ==> r.error == DateOverflow
    ensures r.Ok? ==> r.value == NamesAfter(names, Weekday(today), count)
  {
    var target := today;
    var days: seq<string> := [];
    var i := 0;
    while i < count
      invariant 0 <= i <= count
      invariant IsValid(target) && Ordinal(target) == Ordinal(today) + i
      invariant days == NamesAfter(names, Weekday(today), count)[..i]
    {
      OrdinalBounds(target);
      if target == LastDate {
        return Err(DateOverflow);
      }
      StepAhead(today, target, names, count, i, days);
      days := days + [names[Weekday(NextDay(target))]];
      target := NextDay(target);
      i := i + 1;
    }
    OrdinalBounds(target);
    assert NamesAfter(names, Weekday(today), count)[..i] == NamesAfter(names, Weekday(today), count);
    return Ok(days);
  }

  /** `generate_days_list(today)`: the weekday names of the five dates after `today`.
      Stepping past 9999-12-31 is an OverflowError. */
  method GenerateDaysList(today: Date) returns (r: Result<seq<string>>)
    requires IsValid(today)
    ensures r.Ok? <==> Ordinal(today) + DaysAhead <= Ordinal(LastDate)
    ensures r.Err? ==> r.error == DateOverflow
    ensures r.Ok? ==> r.value == FollowingWeekdays(Weekday(today))
  {
    r := CollectNamesAhead(today, WeekdayNames, DaysAhead);
  }

  /** 2023-01-05 was a Thursday, so the five days after it run Friday to Tuesday. */
  lemma ThursdayExample()
    ensures IsValid(Date(2023, 1, 5)) && Weekday(Date(2023, 1, 5)) == 3
    ensures FollowingWeekdays(3) == ["friday", "saturday", "sunday", "monday", "tuesday"]
  {
  }

  function Sum(xs: seq<int>): int {
    if xs == [] then 0 else Sum(xs[..|xs| - 1]) + xs[|xs| - 1]
  }

  /** `statistics.mean(hs) >= 70.0` for a non-empty bucket, compared exactly. */
  predicate NeedsUmbrella(hs: seq<int>)
    requires hs != []
    ensures |hs| == 1 ==> (NeedsUmbrella(hs) <==> hs[0] >= HumidityThreshold)
  {
    assert |hs| == 1 ==> hs[..0] == [] && Sum(hs) == Sum(hs[..0]) + hs[0] == hs[0];
    Sum(hs) >= HumidityThreshold * |hs|
  }

  /** The integer comparison is the comparison of the arithmetic mean with 70. */
  lemma NeedsUmbrellaIsMeanAtLeast70(hs: seq<int>)
    requires hs != []
    ensures NeedsUmbrella(hs) <==> (Sum(hs) as real) / (|hs| as real) >= 70.0
  {
    var n := |hs| as real;
    assert (Sum(hs) as real) / n * n == Sum(hs) as real;
    if NeedsUmbrella(hs) {
      assert Sum(hs) as real >= 70.0 * n;
    } else {
      assert Sum(hs) as real < 70.0 * n;
    }
  }

  /** The threshold is inclusive: readings 80 and 60 average exactly 70 and call for an
      umbrella, while 80 and 59 fall just short. */
  lemma BoundaryBuckets()
    ensures [80, 60] != [] && NeedsUmbrella([80, 60])
    ensures [80, 59] != [] && !NeedsUmbrella([80, 59])
  {
    assert Sum([80, 60]) == 140 by { assert [80, 60][..1] == [80]; }
    assert Sum([80, 59]) == 139 by { assert [80, 59][..1] == [80]; }
  }

  /** Every day of `days` has a bucket and no bucket of them is empty. */
  predicate AllBucketsFilled(days: seq<string>, buckets: map<string, seq<int>>) {
    forall k :: 0 <= k < |days| ==> days[k] in buckets && buckets[days[k]] != []
  }

  /** The days whose bucket needs an umbrella, in the order of `days`. */
  function RainyDays(days: seq<string>, buckets: map<string, seq<int>>): (rainy: seq<string>)
    requires AllBucketsFilled(days, buckets)
    ensures |rainy| <= |days|
    ensures forall d :: d in rainy <==> d in days && NeedsUmbrella(buckets[d])
  {
    if days == [] then []
    else
      var last := days[|days| - 1];
      RainyDays(days[..|days| - 1], buckets) + (if NeedsUmbrella(buckets[last]) then [last] else [])
  }

  /** The first `n` elements of `xs`, or all of them when there are fewer. */
  function Take(xs: seq<string>, n: nat): seq<string> {
    if |xs| <= n then xs else xs[..n]
  }

  /** Appending to a list adds to its first `n` elements only while there are fewer than `n`. */
  lemma TakeAppend(xs: seq<string>, x: string, n: nat)
    ensures Take(xs + [x], n) == if |Take(xs, n)| < n then Take(xs, n) + [x] else Take(xs, n)
  {
    if |xs| > n {
      assert (xs + [x])[..n] == xs[..n];
    }
  }

  /** One step of the selection loop: the day at `i` joins the kept days when it needs an
      umbrella and fewer than three are kept. */
  lemma SelectionStep(days: seq<string>, buckets: map<string, seq<int>>, i: nat)
    requires i < |days| && AllBucketsFilled(days[..i], buckets)
    requires days[i] in buckets && buckets[days[i]] != []
    ensures AllBucketsFilled(days[..i + 1], buckets)
    ensures Take(RainyDays(days[..i + 1], buckets), MaxUmbrellaDays)
            == var kept := Take(RainyDays(days[..i], buckets), MaxUmbrellaDays);
               if NeedsUmbrella(buckets[days[i]]) && |kept| < MaxUmbrellaDays then kept + [days[i]] else kept
  {
    assert days[..i + 1][..i] == days[..i];
    var longer := days[..i + 1];
    forall k | 0 <= k < |longer| ensures longer[k] in buckets && buckets[longer[k]] != [] {
      if k < i {
        assert longer[k] == days[..i][k];
      }
    }
    var rainy := RainyDays(days[..i], buckets);
    assert RainyDays(days[..i + 1], buckets)
           == rainy + (if NeedsUmbrella(buckets[days[i]]) then [days[i]] else []);
    TakeAppend(rainy, days[i], MaxUmbrellaDays);
  }

  /** The selection loop of the script: for each of `days` in order, look up its bucket
      (a missing one is a KeyError), take its mean (an empty one is a StatisticsError)
      and keep the day if the mean reaches 70 while fewer than three are kept. The mean
      is taken before the count is looked at, so a bad bucket fails the loop even after
      three days are kept. */
  method SelectUmbrellaDays(days: seq<string>, buckets: map<string, seq<int>>) returns (r: Result<seq<string>>)
    ensures r.Ok? <==> AllBucketsFilled(days, buckets)
    ensures r.Err? ==> exists k :: 0 <= k < |days| && AllBucketsFilled(days[..k], buckets) &&
                                  (if days[k] !in buckets then r.error == MissingBucket
                                   else buckets[days[k]] == [] && r.error == EmptyBucket)
    ensures r.Ok? ==> r.value == Take(RainyDays(days, buckets), MaxUmbrellaDays)
  {
    var chosen: seq<string> := [];
    var i := 0;
    while i < |days|
      invariant 0 <= i <= |days|
      invariant AllBucketsFilled(days[..i], buckets)
      invariant chosen == Take(RainyDays(days[..i], buckets), MaxUmbrellaDays)
    {
      var day := days[i];
      if day !in buckets {
        return Err(MissingBucket);
      }
      if buckets[day] == [] {
        return Err(EmptyBucket);
      }
      SelectionStep(days, buckets, i);
      if NeedsUmbrella(buckets[day]) && |chosen| < MaxUmbrellaDays {
        chosen := chosen + [day];
      }
      i := i + 1;
    }
    assert days[..i] == days;
    return Ok(chosen);
  }

  /** What the selection keeps: at most three days, every one of them among `days` and
      needing an umbrella, and no rainy day skipped unless three were already kept. */
  lemma SelectionProperties(days: seq<string>, buckets: map<string, seq<int>>)
    requires AllBucketsFilled(days, buckets)
    ensures |Take(RainyDays(days, buckets), MaxUmbrellaDays)| <= MaxUmbrellaDays
    ensures forall d :: d in Take(RainyDays(days, buckets), MaxUmbrellaDays) ==>
              d in days && NeedsUmbrella(buckets[d])
    ensures |Take(RainyDays(days, buckets), MaxUmbrellaDays)| < MaxUmbrellaDays ==>
              forall d :: d in days && NeedsUmbrella(buckets[d]) ==> d in Take(RainyDays(days, buckets), MaxUmbrellaDays)
  {
    var rainy := RainyDays(days, buckets);
    forall d | d in Take(rainy, MaxUmbrellaDays) ensures d in rainy {
      if |rainy| > MaxUmbrellaDays {
        var k :| 0 <= k < MaxUmbrellaDays && rainy[..MaxUmbrellaDays][k] == d;
        assert rainy[k] == d;
      }
    }
  }

  /** `idx` lists, in increasing order, positions of `ys` holding the elements of `xs`:
      `xs` is an in-order subsequence of `ys`. */
  predicate Embeds(xs: seq<string>, ys: seq<string>, idx: seq<nat>) {
    |idx| == |xs|
    && (forall i, j :: 0 <= i < j < |idx| ==> idx[i] < idx[j])
    && (forall i :: 0 <= i < |idx| ==> idx[i] < |ys| && ys[idx[i]] == xs[i])
  }

  /** The rainy days keep the order they have among `days`. */
  lemma {:induction false} RainyDaysInOrder(days: seq<string>, buckets: map<string, seq<int>>) returns (idx: seq<nat>)
    requires AllBucketsFilled(days, buckets)
    ensures Embeds(RainyDays(days, buckets), days, idx)
  {
    if days == [] {
      idx := [];
    } else {
      var init := days[..|days| - 1];
      var last := days[|days| - 1];
      forall k | 0 <= k < |init| ensures init[k] in buckets && buckets[init[k]] != [] {
        assert init[k] == days[k];
      }
      var prev := RainyDaysInOrder(init, buckets);
      var before := RainyDays(init, buckets);
      forall i | 0 <= i < |prev| ensures prev[i] < |days| - 1 && days[prev[i]] == before[i] {
        assert init[prev[i]] == days[prev[i]];
      }
      if NeedsUmbrella(buckets[last]) {
        idx := prev + [|days| - 1];
        assert RainyDays(days, buckets) == before + [last];
      } else {
        idx := prev;
        assert RainyDays(days, buckets) == before;
      }
    }
  }

  /** The days the selection keeps are an in-order subsequence of `days`. */
  lemma SelectionInOrder(days: seq<string>, buckets: map<string, seq<int>>) returns (idx: seq<nat>)
    requires AllBucketsFilled(days, buckets)
    ensures Embeds(Take(RainyDays(days, buckets), MaxUmbrellaDays), days, idx)
  {
    var rainy := RainyDays(days, buckets);
    idx := RainyDaysInOrder(days, buckets);
    if |rainy| > MaxUmbrellaDays {
      idx := idx[..MaxUmbrellaDays];
    }
  }
}
