/**
 * url_builder of src/weather.py: the OpenWeatherMap current-weather query
 * for one city id, unit system and API key.
 */
module Weather {
  import opened Wrappers
  import opened Text
  import opened Decimal

  /** The fixed start of every query URL, up to the city id. */
  const ApiBase: string := "http://api.openweathermap.org/data/2.5/weather?id="

  /** The text between the city id and the unit. */
  const ModeUnits: string := "&mode=json&units="

  /** The text between the unit and the API key. */
  const AppIdKey: string := "&APPID="

  /** Five texts laid end to end: where each one sits in the whole. */
  lemma FiveParts(a: string, b: string, c: string, d: string, e: string)
    ensures var s := a + b + c + d + e;
      && |s| == |a| + |b| + |c| + |d| + |e|
      && s[..|a|] == a
      && s[|a|..|a| + |b|] == b
      && s[|a| + |b|..|a| + |b| + |c| + |d|] == c + d
      && s[|s| - |e|..] == e
      && s[|a|..] == b + (c + d + e)
  {
    var s := a + b + c + d + e;
    assert s == a + (b + (c + d + e));
    assert s == (a + b) + (c + d) + e;
    assert s[..|a|] == a;
    assert s[|a|..] == b + (c + d + e);
    assert (b + (c + d + e))[..|b|] == b;
    assert ((a + b) + (c + d) + e)[|a| + |b|..|a| + |b| + |c| + |d|] == c + d;
  }

  /**
   * url_builder: the base, `str(city_id)`, `&mode=json&units=` and the unit,
   * then `&APPID=` and the key. It never fails.
   */
  function UrlBuilder(cityId: int, userApi: string, unit: string): (url: string)
    ensures var id := IntToString(cityId);
      && |url| == |ApiBase| + |id| + 17 + |unit| + 7 + |userApi|
      && url[..|ApiBase|] == ApiBase
      && url[|ApiBase|..|ApiBase| + |id|] == id
      && url[|ApiBase| + |id|..|ApiBase| + |id| + 17 + |unit|] == ModeUnits + unit
      && url[|url| - 7 - |userApi|..] == AppIdKey + userApi
  {
    var id := IntToString(cityId);
    FiveParts(ApiBase, id, ModeUnits, unit, AppIdKey + userApi);
    ApiBase + id + ModeUnits + unit + (AppIdKey + userApi)
  }

  /** The text before the first `&` of `id + "&" + rest`, when `id` has none, is `id`. */
  lemma CutAtAmp(id: string, rest: string)
    requires '&' !in id
    ensures Before(id + "&" + rest, "&") == id
  {
    ContainsChar(id, '&');
    CharBorderless('&');
    PartitionJoined(id, "&", rest);
  }

  /** After a leading `a`, the text is `id`, the first character of `c`, and the rest. */
  lemma AfterLead(a: string, id: string, c: string, d: string, e: string)
    requires |c| > 0
    ensures |a| <= |a + id + c + d + e|
    ensures (a + id + c + d + e)[|a|..] == id + [c[0]] + (c[1..] + d + e)
  {
    assert c == [c[0]] + c[1..];
    assert a + id + c + d + e == a + (id + [c[0]] + (c[1..] + d + e));
  }

  /** The city id reads back from the URL: it is the text after the base up to the first `&`. */
  lemma UrlCityIdRoundTrip(cityId: int, userApi: string, unit: string)
    ensures var url := UrlBuilder(cityId, userApi, unit);
      |ApiBase| <= |url| && ParseInt(Before(url[|ApiBase|..], "&")) == Some(cityId)
  {
    var id := IntToString(cityId);
    AfterLead(ApiBase, id, ModeUnits, unit, AppIdKey + userApi);
    assert [ModeUnits[0]] == "&";
    CutAtAmp(id, ModeUnits[1..] + unit + (AppIdKey + userApi));
    IntToStringRoundTrip(cityId);
  }

  /** Different cities give different URLs. */
  lemma UrlBuilderInjective(c1: int, c2: int, userApi: string, unit: string)
    requires UrlBuilder(c1, userApi, unit) == UrlBuilder(c2, userApi, unit)
    ensures c1 == c2
  {
    UrlCityIdRoundTrip(c1, userApi, unit);
    UrlCityIdRoundTrip(c2, userApi, unit);
  }
}
