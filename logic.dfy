/**
  logic.js: the climate page with a city field and a date range. A response
  that passes the guard is converted to Fahrenheit, the first day's maximum
  goes into the marker's popup, and every day's maximum becomes a heat point
  at the city's coordinates.
 */
module Logic {

  import opened Wrappers
  import opened Temperature
  import opened HeatMap

  /** `temperaturesInFahrenheit.map((temp, index) => [lat, lng, temp])`. */
  function HeatArray(lat: real, lng: real, fahrenheit: seq<real>): (heat: seq<HeatPoint>)
    ensures |heat| == |fahrenheit|
    ensures forall i :: 0 <= i < |heat| ==> heat[i] == HeatPoint(lat, lng, fahrenheit[i])
  {
    if fahrenheit == [] then [] else [HeatPoint(lat, lng, fahrenheit[0])] + HeatArray(lat, lng, fahrenheit[1..])
  }

  /** The intensities of a heat layer, in order. */
  function Intensities(heat: seq<HeatPoint>): (intensities: seq<real>)
    ensures |intensities| == |heat|
    ensures forall i :: 0 <= i < |heat| ==> intensities[i] == heat[i].intensity
  {
    if heat == [] then [] else [heat[0].intensity] + Intensities(heat[1..])
  }

  /** The heat layer carries the temperatures unchanged, one point per day. */
  lemma {:induction false} HeatArrayKeepsTemperatures(lat: real, lng: real, fahrenheit: seq<real>)
    ensures Intensities(HeatArray(lat, lng, fahrenheit)) == fahrenheit
  {
    var heat := HeatArray(lat, lng, fahrenheit);
    forall i | 0 <= i < |fahrenheit| ensures Intensities(heat)[i] == fahrenheit[i] {
    }
  }

  /** What one response leaves on the map. */
  datatype Display =
    | StructureNotFound
      // the guard failed: only the console message
    | PopupFailed
      // the marker is added, then `temperaturesInFahrenheit[0].toFixed` throws on an empty array
    | Shown(firstDayMax: real, heat: seq<HeatPoint>)
      // the popup shows the first day's maximum; the heat layer has one point per day

  /** The success callback of fetchClimateData. */
  function ShowClimateData(data: Option<ClimateResponse>, lat: real, lng: real): (shown: Display)
    ensures shown.StructureNotFound? <==> DailyMaxima(data).None?
    ensures shown.PopupFailed? <==> DailyMaxima(data) == Some([])
    ensures shown.Shown? ==>
              var celsius := DailyMaxima(data).value;
              && celsius != []
              && shown.firstDayMax == CelsiusToFahrenheit(celsius[0])
              && |shown.heat| == |celsius|
              && forall i :: 0 <= i < |celsius| ==> shown.heat[i] == HeatPoint(lat, lng, CelsiusToFahrenheit(celsius[i]))
  {
    match DailyMaxima(data)
    case None => StructureNotFound
    case Some(celsius) =>
      var fahrenheit := ToFahrenheit(celsius);
      if fahrenheit == [] then PopupFailed
      else Shown(fahrenheit[0], HeatArray(lat, lng, fahrenheit))
  }

  /** The heat points of a shown response give back the Celsius readings the API sent. */
  lemma ShownHeatRecoversReadings(data: Option<ClimateResponse>, lat: real, lng: real)
    requires ShowClimateData(data, lat, lng).Shown?
    ensures ToCelsius(Intensities(ShowClimateData(data, lat, lng).heat)) == DailyMaxima(data).value
  {
    var celsius := DailyMaxima(data).value;
    HeatArrayKeepsTemperatures(lat, lng, ToFahrenheit(celsius));
    ToFahrenheitRoundTrip(celsius);
  }

  /** The click handler: a lookup starts only when city, start date and end date are all filled in. */
  function OnFetchClick(city: string, startDate: string, endDate: string): (query: Option<ClimateQuery>)
    ensures query.Some? <==> city != [] && startDate != [] && endDate != []
    ensures query.Some? ==> query.value.city == city && query.value.startDate == startDate && query.value.endDate == endDate
  {
    if city != [] && startDate != [] && endDate != [] then Some(ClimateQuery(city, startDate, endDate)) else None
  }
}
