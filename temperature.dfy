/**
  The Celsius-to-Fahrenheit conversion and the open-meteo response guard that
  logic.js and logic_1.js share word for word.
 */
module Temperature {

  import opened Wrappers

  /** celsiusToFahrenheit: `(celsius * 9/5) + 32`, exact on reals. */
  function CelsiusToFahrenheit(celsius: real): real
  {
    celsius * 9.0 / 5.0 + 32.0
  }

  /** The inverse conversion; the scripts do not use it, it pins the forward one down. */
  function FahrenheitToCelsius(fahrenheit: real): real
  {
    (fahrenheit - 32.0) * 5.0 / 9.0
  }

  /** The two conversions undo each other, so no reading is lost or merged. */
  lemma ConversionRoundTrip(celsius: real, fahrenheit: real)
    ensures FahrenheitToCelsius(CelsiusToFahrenheit(celsius)) == celsius
    ensures CelsiusToFahrenheit(FahrenheitToCelsius(fahrenheit)) == fahrenheit
  {
  }

  lemma ConversionStrictlyIncreasing(a: real, b: real)
    requires a < b
    ensures CelsiusToFahrenheit(a) < CelsiusToFahrenheit(b)
  {
  }

  lemma ConversionLandmarks()
    ensures CelsiusToFahrenheit(0.0) == 32.0
    ensures CelsiusToFahrenheit(100.0) == 212.0
    ensures CelsiusToFahrenheit(-40.0) == -40.0
  {
  }

  /** -40 is the one temperature that reads the same on both scales. */
  lemma MinusFortyIsTheOnlyFixedPoint(c: real)
    ensures CelsiusToFahrenheit(c) == c <==> c == -40.0
  {
  }

  /** `temperaturesInCelsius.map(celsiusToFahrenheit)`. */
  function ToFahrenheit(celsius: seq<real>): (fahrenheit: seq<real>)
    ensures |fahrenheit| == |celsius|
    ensures forall i :: 0 <= i < |celsius| ==> fahrenheit[i] == CelsiusToFahrenheit(celsius[i])
  {
    if celsius == [] then [] else [CelsiusToFahrenheit(celsius[0])] + ToFahrenheit(celsius[1..])
  }

  function ToCelsius(fahrenheit: seq<real>): (celsius: seq<real>)
    ensures |celsius| == |fahrenheit|
    ensures forall i :: 0 <= i < |fahrenheit| ==> celsius[i] == FahrenheitToCelsius(fahrenheit[i])
  {
    if fahrenheit == [] then [] else [FahrenheitToCelsius(fahrenheit[0])] + ToCelsius(fahrenheit[1..])
  }

  /** The mapped array loses nothing: converting back gives the readings the API sent. */
  lemma {:induction false} ToFahrenheitRoundTrip(celsius: seq<real>)
    ensures ToCelsius(ToFahrenheit(celsius)) == celsius
  {
    var back := ToCelsius(ToFahrenheit(celsius));
    assert |back| == |celsius|;
    forall i | 0 <= i < |celsius| ensures back[i] == celsius[i] {
      ConversionRoundTrip(celsius[i], 0.0);
    }
  }

  /**
    The `daily` object of an open-meteo climate response. A field that is not
    a JSON array (missing, null, or any other value) is None.
   */
  datatype Daily = Daily(time: Option<seq<string>>, temperatureMax: Option<seq<real>>)

  /** The parsed response body; a missing or null `daily` is None. */
  datatype ClimateResponse = ClimateResponse(daily: Option<Daily>)

  /**
    The guard `data && data.daily && Array.isArray(data.daily.time) &&
    Array.isArray(data.daily.temperature_2m_max)` and the array it releases.
   */
  function DailyMaxima(data: Option<ClimateResponse>): (celsius: Option<seq<real>>)
    ensures celsius.Some? <==>
              && data.Some? && data.value.daily.Some?
              && data.value.daily.value.time.Some?
              && data.value.daily.value.temperatureMax.Some?
    ensures celsius.Some? ==> celsius.value == data.value.daily.value.temperatureMax.value
  {
    match data
    case None => None
    case Some(response) =>
      match response.daily
      case None => None
      case Some(daily) =>
        if daily.time.Some? && daily.temperatureMax.Some? then daily.temperatureMax else None
  }

  /** The city and date range a climate request is made for. */
  datatype ClimateQuery = ClimateQuery(city: string, startDate: string, endDate: string)
}
