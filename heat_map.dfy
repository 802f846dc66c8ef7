/** The `[lat, lng, intensity]` triples handed to the heat-map layer. */
module HeatMap {

  datatype HeatPoint = HeatPoint(lat: real, lng: real, intensity: real)
}
