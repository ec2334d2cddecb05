/** `url_builder`: the request URL for the five-day forecast of a city. */
module Url {
  import opened Wrappers
  import opened Text

  const BaseUrl := "http://api.openweathermap.org/data/2.5/forecast?q="

  /** The city as it appears in the query: stripped only when its first or last
      character is a space, then with every whitespace run replaced by `+`. */
  function CityQuery(city: string): (q: string)
    requires city != []
    ensures NoWhitespace(q)
  {
    var trimmed := if city[0] == ' ' || city[|city| - 1] == ' ' then Strip(city) else city;
    CollapseHasNoWhitespace(trimmed);
    Collapse(trimmed)
  }

  /** The country test of `url_builder`: no space character and exactly two characters. */
  predicate IsCountryCode(country: string)
    ensures IsCountryCode(country) ==> |Lower(country)| == 2 && ' ' !in Lower(country)
  {
    ' ' !in country && |country| == 2
  }

  /** `url_builder(city, country, appid)`, reassigning `city` and `country` step by step. */
  method UrlBuilder(city: string, country: string, appid: string) returns (r: Result<string>)
    ensures city == [] ==> r == Err(CityIndexError)
    ensures city != [] && !IsCountryCode(country) ==> r == Err(CountryValueError)
    ensures city != [] && IsCountryCode(country) ==>
              r == Ok(BaseUrl + CityQuery(city) + "," + Lower(country) + "&APPID=" + appid)
  {
    if |city| == 0 {
      return Err(CityIndexError);
    }
    var c := city;
    if c[0] == ' ' || c[|c| - 1] == ' ' {
      c := Strip(c);
    }
    if ' ' in country || |country| != 2 {
      return Err(CountryValueError);
    }
    c := Collapse(c);
    var k := Lower(country);
    return Ok(BaseUrl + c + "," + k + "&APPID=" + appid);
  }

  /** A city without whitespace is sent as it is. */
  lemma CityQueryOfPlainName(city: string)
    requires city != [] && NoWhitespace(city)
    ensures CityQuery(city) == city
  {
    CollapseKeepsPlainText(city);
  }

  /** When the city begins or ends with a space, the query neither begins nor ends with a
      `+` made from whitespace: it begins and ends with the first and last characters of the stripped city. */
  lemma CityQueryOfSpacedName(city: string)
    requires city != [] && (city[0] == ' ' || city[|city| - 1] == ' ')
    requires Strip(city) != []
    ensures CityQuery(city) != []
    ensures CityQuery(city)[0] == Strip(city)[0]
    ensures CityQuery(city)[|CityQuery(city)| - 1] == Strip(city)[|Strip(city)| - 1]
  {
    var t := Strip(city);
    var l := StripIsCore(city);
    assert CityQuery(city) == Collapse(t);
    CollapseKeepsFirst(t);
    CollapseKeepsLast(t);
  }

  /** Stripping looks only for a literal space: a city that begins with a tab (and does not
      end with a space) keeps it, and the query then begins with `+`. */
  lemma CityQueryKeepsLeadingTab(city: string)
    requires city != [] && city[0] == '\t' && city[|city| - 1] != ' '
    ensures CityQuery(city) != [] && CityQuery(city)[0] == '+'
  {
    var k := LeadingWhitespace(city);
    LeadingWhitespaceSpans(city);
    assert city[..k][0] == '\t';
    assert city[..k] + city[k..] == city;
    CollapseConcat(city[..k], city[k..]);
    CollapseRun(city[..k]);
  }

  /** A two-word name padded with whitespace that begins with a space, as in
      `"  New York "`, is sent as the two words joined by one `+` (`"New+York"`). */
  lemma CityQueryOfPaddedTwoWords(pre: string, a: string, b: string, post: string)
    requires pre != [] && pre[0] == ' ' && AllWhitespace(pre) && AllWhitespace(post)
    requires a != [] && b != [] && NoWhitespace(a) && NoWhitespace(b)
    ensures CityQuery(pre + a + " " + b + post) == a + "+" + b
  {
    var core := a + " " + b;
    var city := pre + core + post;
    assert city == pre + a + " " + b + post;
    assert city[0] == pre[0];
    assert Strip(city) == core by {
      assert core[0] == a[0] && core[|core| - 1] == b[|b| - 1];
      StripReturnsCore(pre, core, post);
    }
    assert IsWhitespace(' ');
    CollapseTwoWords(a, ' ', b);
  }
}
