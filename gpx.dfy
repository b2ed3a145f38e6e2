/**
 * `convert_geojson_to_gpx`: a GPX 1.1 document (Topografix schema) with one `trkpt` per
 * coordinate of the first feature, latitude and longitude swapped out of GeoJSON's
 * longitude-first order.
 */
module Gpx {
  import opened Wrappers
  import opened GeoJson

  /** The track name used when the caller gives none. */
  const DefaultName := "DRouted Trip"

  /** Everything before the track points: the XML declaration, `<metadata>` and `<trk>` both named `name`. */
  function Header(name: string): string
  {
    "<?xml version=\"1.0\" encoding=\"UTF-8\"?>\n"
    + "<gpx version=\"1.1\" creator=\"DRouted\" xmlns=\"http://www.topografix.com/GPX/1/1\">\n"
    + "  <metadata>\n    <name>" + name + "</name>\n  </metadata>\n"
    + "  <trk>\n    <name>" + name + "</name>\n    <trkseg>"
  }

  const Footer := "\n    </trkseg>\n  </trk>\n</gpx>"

  const PointOpen := "\n      <trkpt lat=\""
  const PointMiddle := "\" lon=\""
  const PointClose := "\"></trkpt>"

  /** One track point line. */
  function TrackPoint(lat: Printed, lon: Printed): string
  {
    PointOpen + lat + PointMiddle + lon + PointClose
  }

  /** Every GeoJSON position unpacks as `lon, lat`: it has exactly two components. */
  predicate AllPairs(coords: seq<Position>)
  {
    forall k :: 0 <= k < |coords| ==> |coords[k].components| == 2
  }

  /** The track point of a two-component position, latitude first. */
  function PointOf(p: Position): string
    requires |p.components| == 2
  {
    TrackPoint(p.components[1], p.components[0])
  }

  /** The track points of `coords`, in order. */
  function Points(coords: seq<Position>): string
    requires AllPairs(coords)
  {
    if coords == [] then [] else PointOf(coords[0]) + Points(coords[1..])
  }

  lemma {:induction false} PointsAppend(a: seq<Position>, b: seq<Position>)
    requires AllPairs(a)
    requires AllPairs(b)
    ensures Points(a + b) == Points(a) + Points(b)
  {
    if a == [] {
      assert a + b == b;
    } else {
      assert (a + b)[0] == a[0];
      assert (a + b)[1..] == a[1..] + b;
      PointsAppend(a[1..], b);
    }
  }

  /**
   * `convert_geojson_to_gpx`: `None` when the first feature's coordinates cannot be looked up or
   * some position does not unpack into two values; otherwise header, points, footer.
   */
  method ConvertGeoJsonToGpx(routeData: Document, name: string) returns (gpx: Option<string>)
    ensures gpx.Some? <==> (FirstCoordinates(routeData).Some? && AllPairs(FirstCoordinates(routeData).value))
    ensures gpx.Some? ==> gpx.value == Header(name) + Points(FirstCoordinates(routeData).value) + Footer
    ensures gpx.Some? ==> (&& |Header(name)| + |Footer| <= |gpx.value|
      && ReadPoints(gpx.value[|Header(name)|..|gpx.value| - |Footer|]) == Some(Swapped(FirstCoordinates(routeData).value)))
  {
    var found := FirstCoordinates(routeData);
    if found.None? {
      return None;
    }
    var coords := found.value;
    var gpxPoints := "";
    for i := 0 to |coords|
      invariant AllPairs(coords[..i])
      invariant gpxPoints == Points(coords[..i])
    {
      if |coords[i].components| != 2 {
        return None;
      }
      PointsAppend(coords[..i], [coords[i]]);
      assert coords[..i + 1] == coords[..i] + [coords[i]];
      gpxPoints := gpxPoints + PointOf(coords[i]);
    }
    assert coords[..|coords|] == coords;
    gpx := Some(Header(name) + gpxPoints + Footer);
    assert gpx.value[|Header(name)|..|gpx.value| - |Footer|] == gpxPoints;
    PointsRoundTrip(coords);
  }

  /** `convert_geojson_to_gpx(route_data)` called without a name: the track is named `DefaultName`. */
  method ConvertWithDefaultName(routeData: Document) returns (gpx: Option<string>)
    ensures gpx.Some? <==> (FirstCoordinates(routeData).Some? && AllPairs(FirstCoordinates(routeData).value))
    ensures gpx.Some? ==> gpx.value == Header(DefaultName) + Points(FirstCoordinates(routeData).value) + Footer
    ensures gpx.Some? ==> (&& |Header(DefaultName)| + |Footer| <= |gpx.value|
      && ReadPoints(gpx.value[|Header(DefaultName)|..|gpx.value| - |Footer|]) == Some(Swapped(FirstCoordinates(routeData).value)))
  {
    gpx := ConvertGeoJsonToGpx(routeData, DefaultName);
  }

  /** The leading part of `s` up to its first double quote. */
  function UntilQuote(s: string): (r: string)
    ensures r <= s && '"' !in r
    ensures |r| < |s| ==> s[|r|] == '"'
  {
    if s == [] || s[0] == '"' then [] else [s[0]] + UntilQuote(s[1..])
  }

  /** Reads track points back as (latitude, longitude) texts; `None` on anything else. */
  function ReadPoints(s: string): Option<seq<(string, string)>>
    decreases |s|
  {
    if s == [] then Some([])
    else if !(PointOpen <= s) then None
    else
      var afterOpen := s[|PointOpen|..];
      var lat := UntilQuote(afterOpen);
      var afterLat := afterOpen[|lat|..];
      if !(PointMiddle <= afterLat) then None
      else
        var afterMiddle := afterLat[|PointMiddle|..];
        var lon := UntilQuote(afterMiddle);
        var afterLon := afterMiddle[|lon|..];
        if !(PointClose <= afterLon) then None
        else match ReadPoints(afterLon[|PointClose|..])
          case None => None
          case Some(rest) => Some([(lat, lon)] + rest)
  }

  /** A text without a double quote is read back whole, up to the quote that follows it. */
  lemma {:induction false} UntilQuoteOf(t: string, rest: string)
    requires '"' !in t && rest != [] && rest[0] == '"'
    ensures UntilQuote(t + rest) == t
  {
    if t != [] {
      assert (t + rest)[1..] == t[1..] + rest;
      UntilQuoteOf(t[1..], rest);
    } else {
      assert t + rest == rest;
    }
  }

  lemma DropPrefix(a: string, b: string)
    ensures a <= a + b && (a + b)[|a|..] == b
  {
  }

  /** A track point followed by more text reads back as its two values followed by that text's. */
  lemma ReadTrackPoint(lat: Printed, lon: Printed, more: string)
    ensures ReadPoints(TrackPoint(lat, lon) + more) ==
      match ReadPoints(more)
      case None => None
      case Some(rest) => Some([(lat, lon)] + rest)
  {
    var afterLon := PointClose + more;
    var afterMiddle := lon + afterLon;
    var afterLat := PointMiddle + afterMiddle;
    var afterOpen := lat + afterLat;
    var s := PointOpen + afterOpen;
    assert s == TrackPoint(lat, lon) + more;
    DropPrefix(PointOpen, afterOpen);
    UntilQuoteOf(lat, afterLat);
    DropPrefix(lat, afterLat);
    DropPrefix(PointMiddle, afterMiddle);
    UntilQuoteOf(lon, afterLon);
    DropPrefix(lon, afterLon);
    DropPrefix(PointClose, more);
  }

  /** The latitude/longitude pairs GPX should carry: each GeoJSON `[lon, lat]` swapped. */
  function Swapped(coords: seq<Position>): (r: seq<(string, string)>)
    requires AllPairs(coords)
    ensures |r| == |coords|
    ensures forall k :: 0 <= k < |coords| ==> r[k] == (coords[k].components[1], coords[k].components[0])
  {
    if coords == [] then [] else [(coords[0].components[1], coords[0].components[0])] + Swapped(coords[1..])
  }

  /** Reading the track points back gives every coordinate, in input order, latitude first. */
  lemma {:induction false} PointsRoundTrip(coords: seq<Position>)
    requires AllPairs(coords)
    ensures ReadPoints(Points(coords)) == Some(Swapped(coords))
  {
    if coords != [] {
      PointsRoundTrip(coords[1..]);
      ReadTrackPoint(coords[0].components[1], coords[0].components[0], Points(coords[1..]));
    }
  }
}
