/** The distance between the volunteer and a case. The great-circle formula
    itself (floating-point trigonometry, rounded to 0.1 km) is a parameter:
    only its null guard is modelled. */
module Geo {
  import opened Wrappers

  /** The haversine distance in km between (lat1, lng1) and (lat2, lng2). */
  type Metric = (real, real, real, real) -> real

  /** `distanceKm`: unknown exactly when one of the four coordinates is
      missing; otherwise the metric's value. */
  function DistanceKm(haversine: Metric, aLat: Option<real>, aLng: Option<real>,
                      bLat: Option<real>, bLng: Option<real>): (r: Option<real>)
    ensures r.None? <==> aLat.None? || aLng.None? || bLat.None? || bLng.None?
    ensures r.Some? ==> r.value == haversine(aLat.value, aLng.value, bLat.value, bLng.value)
  {
    if aLat.None? || aLng.None? || bLat.None? || bLng.None? then None
    else Some(haversine(aLat.value, aLng.value, bLat.value, bLng.value))
  }
}
