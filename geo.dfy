/** Coordinates in the shape the `geolib` library takes, and the distance it computes. */
module Geo {

  /** `{latitude, longitude}`. JavaScript numbers are modelled as reals. */
  datatype LatLng = LatLng(latitude: real, longitude: real)

  /** `geolib.getDistance`: whole metres between two points. The library is not part of
      this model, so every operation that measures a distance takes it as a parameter and
      no property of it is used (not even symmetry or a zero distance to itself). */
  type GetDistance = (LatLng, LatLng) -> nat
}
