/** The sentence the script prints once the umbrella days are chosen. */
module Message {
  import opened Text

  const SeveralDaysOpening := "You should take an umbrella in these days: "
  const OneDayOpening := "You should take an umbrella only on "
  const NoUmbrellaOpening := "No umbrella needed for the next five days! "
  const DryCityClosing := " is a hot and dry city!"

  /** Each of `items` followed by `sep`: what the loop over all days but the last writes. */
  function Terminated(items: seq<string>, sep: string): string {
    if items == [] then [] else items[0] + sep + Terminated(items[1..], sep)
  }

  /** Writing one more item adds it and its separator at the end. */
  lemma {:induction false} TerminatedAppend(items: seq<string>, x: string, sep: string)
    ensures Terminated(items + [x], sep) == Terminated(items, sep) + x + sep
  {
    if items == [] {
      assert [] + [x] == [x];
      assert [x][1..] == [];
    } else {
      assert (items + [x])[1..] == items[1..] + [x];
      TerminatedAppend(items[1..], x, sep);
    }
  }

  /** Dropping the last separator of a non-empty terminated list leaves the joined list. */
  lemma {:induction false} TerminatedIsJoinPlusSep(items: seq<string>, sep: string)
    requires items != []
    ensures Terminated(items, sep) == Join(items, sep) + sep
  {
    if |items| > 1 {
      TerminatedIsJoinPlusSep(items[1..], sep);
    }
  }

  /** The sentence for the chosen `days`: none, one day (with no closing period), or a
      comma-separated list whose last two days are joined by "and". */
  function MessageText(days: seq<string>, city: string): string {
    if days == [] then NoUmbrellaOpening + city + DryCityClosing
    else if |days| == 1 then OneDayOpening + days[0]
    else SeveralDaysOpening + Join(days[..|days| - 1], ", ") + " and " + days[|days| - 1] + "."
  }

  /** The message builder of the script: write each day but the last followed by ", ",
      cut the final ", ", and finish with " and " the last day and a period; one day and
      no day get their own sentences. */
  method BuildMessage(days: seq<string>, city: string) returns (message: string)
    ensures message == MessageText(days, city)
  {
    if days != [] {
      message := SeveralDaysOpening;
      if |days| > 1 {
        var i := 0;
        while i < |days| - 1
          invariant 0 <= i <= |days| - 1
          invariant message == SeveralDaysOpening + Terminated(days[..i], ", ")
        {
          TerminatedAppend(days[..i], days[i], ", ");
          assert days[..i + 1] == days[..i] + [days[i]];
          message := message + days[i] + ", ";
          i := i + 1;
        }
        TerminatedIsJoinPlusSep(days[..i], ", ");
        message := message[..|message| - 2];
        message := message + " and " + days[|days| - 1] + ".";
      } else {
        message := OneDayOpening + days[0];
      }
    } else {
      message := NoUmbrellaOpening + city + DryCityClosing;
    }
  }

  /** Each item of a joined list occurs in it whole. */
  lemma {:induction false} JoinShowsItem(items: seq<string>, sep: string, k: nat) returns (before: string, after: string)
    requires k < |items|
    ensures Join(items, sep) == before + items[k] + after
  {
    if |items| == 1 {
      before, after := [], [];
    } else if k == 0 {
      before, after := [], sep + Join(items[1..], sep);
    } else {
      var b, a := JoinShowsItem(items[1..], sep, k - 1);
      before, after := items[0] + sep + b, a;
    }
  }

  /** Moving the brackets of a concatenation. */
  lemma Regroup(o: string, b: string, x: string, a: string, m: string, l: string, e: string)
    ensures o + (b + x + a) + m + l + e == (o + b) + x + (a + m + l + e)
  {
  }

  /** Every chosen day is named in the message. */
  lemma MessageNamesEveryDay(days: seq<string>, city: string, k: nat) returns (before: string, after: string)
    requires k < |days|
    ensures MessageText(days, city) == before + days[k] + after
  {
    if |days| == 1 {
      before, after := OneDayOpening, [];
    } else if k == |days| - 1 {
      before := SeveralDaysOpening + Join(days[..|days| - 1], ", ") + " and ";
      after := ".";
    } else {
      var b, a := JoinShowsItem(days[..|days| - 1], ", ", k);
      assert days[..|days| - 1][k] == days[k];
      before := SeveralDaysOpening + b;
      after := a + " and " + days[|days| - 1] + ".";
      Regroup(SeveralDaysOpening, b, days[k], a, " and ", days[|days| - 1], ".");
    }
  }

  /** The opening of the message tells how many days were chosen: none, one, or several. */
  lemma OpeningTellsCount(days: seq<string>, city: string)
    ensures days == [] <==> NoUmbrellaOpening <= MessageText(days, city)
    ensures |days| == 1 <==> OneDayOpening <= MessageText(days, city)
    ensures |days| >= 2 <==> SeveralDaysOpening <= MessageText(days, city)
  {
    var m := MessageText(days, city);
    assert NoUmbrellaOpening[0] == 'N' && OneDayOpening[0] == 'Y' && SeveralDaysOpening[0] == 'Y';
    assert OneDayOpening[28] == 'o' && SeveralDaysOpening[28] == 'i';
    if days == [] {
      assert m[0] == 'N';
    } else if |days| == 1 {
      assert m[0] == 'Y' && m[28] == 'o';
    } else {
      assert m[0] == 'Y' && m[28] == 'i';
    }
  }
}
