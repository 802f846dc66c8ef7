/**
  logic_1.js: the climate page with only a city field. The date range is fixed
  to the year 2023 and the map shows a marker whose popup holds the first
  day's maximum, with no heat layer.
 */
module LogicOne {

  import opened Wrappers
  import opened Temperature

  const StartDate: string := "2023-01-01"
  const EndDate: string := "2023-12-31"

  /** What one response leaves on the map. */
  datatype Display =
    | StructureNotFound
      // the guard failed: only the console message
    | PopupFailed
      // the marker is added, then `temperaturesInFahrenheit[0].toFixed` throws on an empty array
    | Marker(firstDayMax: real, fahrenheit: seq<real>)
      // the popup shows the first entry of the converted readings

  /** The success callback of fetchClimateData. */
  function ShowClimateData(data: Option<ClimateResponse>): (shown: Display)
    ensures shown.StructureNotFound? <==> DailyMaxima(data).None?
    ensures shown.PopupFailed? <==> DailyMaxima(data) == Some([])
    ensures shown.Marker? ==>
              var celsius := DailyMaxima(data).value;
              && celsius != []
              && shown.firstDayMax == CelsiusToFahrenheit(celsius[0])
              && ToCelsius(shown.fahrenheit) == celsius
  {
    match DailyMaxima(data)
    case None => StructureNotFound
    case Some(celsius) =>
      var fahrenheit := ToFahrenheit(celsius);
      ToFahrenheitRoundTrip(celsius);
      if fahrenheit == [] then PopupFailed else Marker(fahrenheit[0], fahrenheit)
  }

  /** The change handler: a non-empty city name starts a lookup for the whole of 2023. */
  function OnCitySearch(city: string): (query: Option<ClimateQuery>)
    ensures query.Some? <==> city != []
    ensures query.Some? ==> query.value == ClimateQuery(city, StartDate, EndDate)
  {
    if city != [] then Some(ClimateQuery(city, StartDate, EndDate)) else None
  }
}
