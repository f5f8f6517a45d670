/** The two small tool functions of the tools tutorial: the hard-coded
    weather backend, with the way the conversation loop calls it, and the
    addition of points. The weather answer is a structured record rather
    than its JSON text. */
module Tools {
  import opened Wrappers
  import opened Text

  /* ---------------- get_current_weather ---------------- */

  /** The "unit" entry of the answer: absent (an unknown location), or
      present with the value passed in, which may be JSON `null`. */
  datatype UnitEntry = NoUnitKey | UnitValue(value: Option<string>)

  /** The JSON object `get_current_weather` returns. */
  datatype Weather = Weather(location: string, temperature: string, unit: UnitEntry)

  /** `get_current_weather(location, unit="fahrenheit")`: the first of
      "tokyo", "san francisco", "paris" found in the lower-cased location
      decides the answer. `unit` is `None` when the caller passes Python's
      `None`. */
  function GetCurrentWeather(location: string, unit: Option<string> := Some("fahrenheit")): (r: Weather)
    ensures r.unit.UnitValue? ==> r.unit.value == unit
    ensures r.unit.NoUnitKey? ==> r.location == location && r.temperature == "unknown"
  {
    var lowered := Lower(location);
    if Contains(lowered, "tokyo") then Weather("Tokyo", "10", UnitValue(unit))
    else if Contains(lowered, "san francisco") then Weather("San Francisco", "72", UnitValue(unit))
    else if Contains(lowered, "paris") then Weather("Paris", "22", UnitValue(unit))
    else Weather(location, "unknown", NoUnitKey)
  }

  /** A city the backend knows: the lower-case text that selects it, the name
      it reports and its temperature. */
  datatype City = City(pattern: string, name: string, temperature: string)

  /** The known cities in the order they are tried. */
  const KnownCities: seq<City> := [
    City("tokyo", "Tokyo", "10"),
    City("san francisco", "San Francisco", "72"),
    City("paris", "Paris", "22")]

  /** The index of the first city, from `from` on, whose pattern occurs in `lowered`. */
  function FirstMatch(cities: seq<City>, lowered: string, from: nat): (r: Option<nat>)
    requires from <= |cities|
    ensures r.Some? ==> from <= r.value < |cities| && Contains(lowered, cities[r.value].pattern)
    ensures r.Some? ==> forall j :: from <= j < r.value ==> !Contains(lowered, cities[j].pattern)
    ensures r.None? ==> forall j :: from <= j < |cities| ==> !Contains(lowered, cities[j].pattern)
    decreases |cities| - from
  {
    if from == |cities| then None
    else if Contains(lowered, cities[from].pattern) then Some(from)
    else FirstMatch(cities, lowered, from + 1)
  }

  /** The answer for a location, read off the table of known cities. */
  function WeatherFromTable(location: string, unit: Option<string>): Weather {
    match FirstMatch(KnownCities, Lower(location), 0)
    case Some(i) => Weather(KnownCities[i].name, KnownCities[i].temperature, UnitValue(unit))
    case None => Weather(location, "unknown", NoUnitKey)
  }

  /** The chain of tests in `get_current_weather` is the first match over the
      table: earlier cities win. */
  lemma WeatherIsFirstMatch(location: string, unit: Option<string>)
    ensures GetCurrentWeather(location, unit) == WeatherFromTable(location, unit)
  {
    var lowered := Lower(location);
    var m := FirstMatch(KnownCities, lowered, 0);
    if m.Some? {
      assert m.value == 0 || m.value == 1 || m.value == 2;
    }
  }

  /** A known city is reported under its own name, with the caller's unit;
      the unit defaults to "fahrenheit". */
  lemma KnownCityReported(location: string, unit: Option<string>, i: nat)
    requires i < |KnownCities| && Contains(Lower(location), KnownCities[i].pattern)
    requires forall j :: 0 <= j < i ==> !Contains(Lower(location), KnownCities[j].pattern)
    ensures GetCurrentWeather(location, unit) ==
      Weather(KnownCities[i].name, KnownCities[i].temperature, UnitValue(unit))
    ensures GetCurrentWeather(location).unit == UnitValue(Some("fahrenheit"))
  {
    WeatherIsFirstMatch(location, unit);
    WeatherIsFirstMatch(location, Some("fahrenheit"));
  }

  /** Tokyo is tried first: any location mentioning it, in any letter case,
      is answered as Tokyo, whatever else it mentions. */
  lemma TokyoWins(location: string, unit: Option<string>)
    requires Contains(Lower(location), "tokyo")
    ensures GetCurrentWeather(location, unit) == Weather("Tokyo", "10", UnitValue(unit))
  {
  }

  /** A location mentioning no known city is echoed verbatim, with an unknown
      temperature and no "unit" key. */
  lemma UnknownLocationEchoed(location: string, unit: Option<string>)
    requires forall j :: 0 <= j < |KnownCities| ==> !Contains(Lower(location), KnownCities[j].pattern)
    ensures GetCurrentWeather(location, unit) == Weather(location, "unknown", NoUnitKey)
  {
    assert !Contains(Lower(location), KnownCities[0].pattern);
    assert !Contains(Lower(location), KnownCities[1].pattern);
    assert !Contains(Lower(location), KnownCities[2].pattern);
  }

  /** Matching ignores letter case: two locations equal up to case get the
      same answer, unless neither names a known city (then each is echoed). */
  lemma WeatherIgnoresCase(a: string, b: string, unit: Option<string>)
    requires Lower(a) == Lower(b)
    ensures GetCurrentWeather(a, unit).unit.UnitValue? <==> GetCurrentWeather(b, unit).unit.UnitValue?
    ensures GetCurrentWeather(a, unit).unit.UnitValue? ==> GetCurrentWeather(a, unit) == GetCurrentWeather(b, unit)
  {
  }

  /** Why a tool call fails. */
  datatype ToolError =
    | LocationMissing  // `None.lower()` raises AttributeError

  /** The call the conversation loop makes for one tool call: both arguments
      are read with `dict.get`, so a missing one is passed as `None`. The
      arguments are the decoded JSON object, with string values as the
      schema declares. */
  function RunToolCall(args: map<string, string>): (r: Result<Weather, ToolError>)
    ensures r.Failure? <==> "location" !in args
    ensures r.Success? && r.value.unit.UnitValue? ==>
      r.value.unit.value == (if "unit" in args then Some(args["unit"]) else None)
    ensures r.Success? && r.value.unit.NoUnitKey? ==> r.value.location == args["location"]
  {
    if "location" !in args then Failure(LocationMissing)
    else
      var unit := if "unit" in args then Some(args["unit"]) else None;
      Success(GetCurrentWeather(args["location"], unit))
  }

  /** Through the conversation loop the "fahrenheit" default is never used:
      a known city asked about without a unit is answered with a `null` unit. */
  lemma ToolCallWithoutUnit(location: string)
    requires Contains(Lower(location), "tokyo")
    ensures RunToolCall(map["location" := location]) == Success(Weather("Tokyo", "10", UnitValue(None)))
    ensures GetCurrentWeather(location) == Weather("Tokyo", "10", UnitValue(Some("fahrenheit")))
  {
    var args := map["location" := location];
    assert "unit" !in args;
  }

  /* ---------------- add_points ---------------- */

  /** The `Point` dataclass; Python integers are unbounded. */
  datatype Point = Point(x: int, y: int)

  /** `add_points(p1, p2)`: the componentwise sum. */
  function AddPoints(p1: Point, p2: Point): Point {
    Point(p1.x + p2.x, p1.y + p2.y)
  }
}
