/**
 * The parts of the routing service's GeoJSON answer that the route logic reads:
 * `features[0].geometry.coordinates` and `features[0].properties.summary.distance`.
 * A key path that is absent (so that the Python lookup raises) is `None`.
 */
module GeoJson {
  import opened Wrappers

  /** The printed form of one coordinate number. Python's `str` of a number never holds a double quote. */
  type Printed = s: string | '"' !in s witness ""

  /** A GeoJSON position: its components in GeoJSON order, longitude first, then latitude. */
  datatype Position = Position(components: seq<Printed>)

  /** One feature of the answer: its geometry's coordinates and its summary's distance in metres. */
  datatype Feature = Feature(coordinates: Option<seq<Position>>, distance: Option<real>)

  /** A whole answer; `features` is `None` when the object has no `features` list. */
  datatype Document = Document(features: Option<seq<Feature>>)

  /** `doc['features'][0]`, or `None` where that lookup raises. */
  function FirstFeature(doc: Document): (r: Option<Feature>)
    ensures r.Some? <==> doc.features.Some? && |doc.features.value| > 0
    ensures r.Some? ==> r.value == doc.features.value[0]
  {
    match doc.features
    case None => None
    case Some(fs) => if |fs| == 0 then None else Some(fs[0])
  }

  /** `doc['features'][0]['geometry']['coordinates']`, or `None` where that lookup raises. */
  function FirstCoordinates(doc: Document): Option<seq<Position>>
  {
    match FirstFeature(doc)
    case None => None
    case Some(f) => f.coordinates
  }
}
