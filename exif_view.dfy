/**
 * The one computation of the viewer's window: turning the selected image's
 * geo data into a Google Maps link. Degrees, minutes and seconds become a
 * decimal coordinate; the hemisphere reference fields are not read.
 *
 * Arithmetic is exact over `real`. The conversion of a coordinate to text
 * (Python's `str` of a float) is a parameter, `text`.
 */
module View {
  import opened Wrappers
  import opened Metadata

  const LATITUDE: Key := Name("GPSLatitude")
  const LONGITUDE: Key := Name("GPSLongitude")

  const MAPS_PREFIX: string := "https://www.google.it/maps?q="
  const ANCHOR_OPEN: string := "<a href=\""
  const ANCHOR_CLOSE: string := "\">Apri posizione in Google Maps</a>"

  /** A value indexable as a (degrees, minutes, seconds) triple of numbers. */
  predicate IsDms(v: Value)
  {
    v.Tuple? && |v.items| >= 3 && v.items[0].Number? && v.items[1].Number? && v.items[2].Number?
  }

  /** The geo data holds a latitude and a longitude triple. */
  predicate HasCoordinates(geo: TagMap)
  {
    LATITUDE in geo && LONGITUDE in geo && IsDms(geo[LATITUDE]) && IsDms(geo[LONGITUDE])
  }

  /** `d + m / 60 + s / 3600`. */
  function Decimal(d: real, m: real, s: real): (r: real)
    ensures r * 3600.0 == d * 3600.0 + m * 60.0 + s
  {
    d + m / 60.0 + s / 3600.0
  }

  /** The decimal value of a triple. */
  function DmsToDecimal(v: Value): (r: real)
    requires IsDms(v)
    ensures r * 3600.0 == v.items[0].x * 3600.0 + v.items[1].x * 60.0 + v.items[2].x
  {
    Decimal(v.items[0].x, v.items[1].x, v.items[2].x)
  }

  /** Latitude and longitude, each from its own triple. */
  function Coordinates(geo: TagMap): (latLon: (real, real))
    requires HasCoordinates(geo)
    ensures latLon.0 * 3600.0 ==
      geo[LATITUDE].items[0].x * 3600.0 + geo[LATITUDE].items[1].x * 60.0 + geo[LATITUDE].items[2].x
    ensures latLon.1 * 3600.0 ==
      geo[LONGITUDE].items[0].x * 3600.0 + geo[LONGITUDE].items[1].x * 60.0 + geo[LONGITUDE].items[2].x
  {
    (DmsToDecimal(geo[LATITUDE]), DmsToDecimal(geo[LONGITUDE]))
  }

  /** The map address for two coordinate texts. */
  function MapsUrl(latText: string, lonText: string): (url: string)
    ensures |url| == |MAPS_PREFIX| + |latText| + 1 + |lonText|
    ensures url[..|MAPS_PREFIX|] == MAPS_PREFIX
    ensures url[|MAPS_PREFIX|..|MAPS_PREFIX| + |latText|] == latText
    ensures url[|MAPS_PREFIX| + |latText|] == ','
    ensures url[|MAPS_PREFIX| + |latText| + 1..] == lonText
  {
    MAPS_PREFIX + latText + "," + lonText
  }

  /** The label text: empty without geo data, otherwise an anchor on the map address. */
  function GeoLink(geo: Option<TagMap>, text: real -> string): (link: string)
    requires geo.Some? ==> HasCoordinates(geo.value)
    ensures link == "" <==> geo.None?
    ensures geo.Some? ==> (link == ANCHOR_OPEN + MAPS_PREFIX + text(Coordinates(geo.value).0) + ","
                                   + text(Coordinates(geo.value).1) + ANCHOR_CLOSE)
  {
    if geo.None? then ""
    else
      var (lat, lon) := Coordinates(geo.value);
      ANCHOR_OPEN + MapsUrl(text(lat), text(lon)) + ANCHOR_CLOSE
  }

  /** Splits at the first occurrence of `c`. */
  function SplitAt(s: string, c: char): (parts: Option<(string, string)>)
    ensures parts.None? <==> c !in s
    ensures parts.Some? ==> s == parts.value.0 + [c] + parts.value.1 && c !in parts.value.0
  {
    if s == [] then None
    else if s[0] == c then Some(([], s[1..]))
    else
      match SplitAt(s[1..], c)
      case None => None
      case Some((a, b)) => Some(([s[0]] + a, b))
  }

  /** Reads the two coordinate texts back out of a label. */
  function ParseLink(link: string): Option<(string, string)>
  {
    var head := ANCHOR_OPEN + MAPS_PREFIX;
    if |link| >= |head| + |ANCHOR_CLOSE|
       && link[..|head|] == head
       && link[|link| - |ANCHOR_CLOSE|..] == ANCHOR_CLOSE
    then SplitAt(link[|head|..|link| - |ANCHOR_CLOSE|], ',')
    else None
  }

  /** The first split of a joined string is the join: a text without `c` is recovered. */
  lemma SplitAtJoin(a: string, c: char, b: string)
    requires c !in a
    ensures SplitAt(a + [c] + b, c) == Some((a, b))
  {
    var s := a + [c] + b;
    var (a', b') := SplitAt(s, c).value;
    assert s[|a|] == c && s[|a'|] == c;
    assert forall j :: 0 <= j < |a| ==> s[j] == a[j];
    assert forall j :: 0 <= j < |a'| ==> s[j] == a'[j];
    assert a' == s[..|a|] == a;
    assert b' == s[|a| + 1..] == b;
  }

  /** Without geo data the label is empty, and with it the label is not. */
  lemma GeoLinkEmpty(geo: Option<TagMap>, text: real -> string)
    requires geo.Some? ==> HasCoordinates(geo.value)
    ensures GeoLink(geo, text) == "" <==> geo.None?
  {
  }

  /** The label carries the two coordinate texts, which can be read back out of it. */
  lemma GeoLinkRoundTrip(geo: TagMap, text: real -> string)
    requires HasCoordinates(geo)
    requires ',' !in text(Coordinates(geo).0)
    ensures ParseLink(GeoLink(Some(geo), text)) == Some((text(Coordinates(geo).0), text(Coordinates(geo).1)))
  {
    var (lat, lon) := Coordinates(geo);
    var link := GeoLink(Some(geo), text);
    var head := ANCHOR_OPEN + MAPS_PREFIX;
    var middle := text(lat) + [','] + text(lon);
    assert link == head + middle + ANCHOR_CLOSE;
    assert link[..|head|] == head;
    assert link[|link| - |ANCHOR_CLOSE|..] == ANCHOR_CLOSE;
    assert link[|head|..|link| - |ANCHOR_CLOSE|] == middle;
    SplitAtJoin(text(lat), ',', text(lon));
  }

  /**
   * The hemisphere is ignored: non-negative triples give non-negative
   * coordinates whatever the reference fields say.
   */
  lemma CoordinatesNonNegative(geo: TagMap)
    requires HasCoordinates(geo)
    requires forall j :: 0 <= j < 3 ==> geo[LATITUDE].items[j].x >= 0.0 && geo[LONGITUDE].items[j].x >= 0.0
    ensures Coordinates(geo).0 >= 0.0 && Coordinates(geo).1 >= 0.0
  {
  }

  /** Only the latitude and longitude triples are read: changing any other entry changes nothing. */
  lemma CoordinatesReadOnlyTriples(geo: TagMap, k: Key, v: Value)
    requires HasCoordinates(geo)
    requires k != LATITUDE && k != LONGITUDE
    ensures HasCoordinates(geo[k := v])
    ensures Coordinates(geo[k := v]) == Coordinates(geo)
  {
  }

  /** Latitude and longitude are computed independently: changing one triple leaves the other coordinate. */
  lemma CoordinatesIndependent(geo: TagMap, v: Value)
    requires HasCoordinates(geo) && IsDms(v)
    ensures Coordinates(geo[LATITUDE := v]).1 == Coordinates(geo).1
    ensures Coordinates(geo[LONGITUDE := v]).0 == Coordinates(geo).0
    ensures Coordinates(geo[LATITUDE := v]).0 == DmsToDecimal(v)
    ensures Coordinates(geo[LONGITUDE := v]).1 == DmsToDecimal(v)
  {
  }

  /** Whole degrees with minutes and seconds below 60 give a decimal in [d, d + 1). */
  lemma DecimalWithinDegree(d: real, m: real, s: real)
    requires 0.0 <= m <= 59.0 && 0.0 <= s < 60.0
    ensures d <= Decimal(d, m, s) < d + 1.0
  {
  }

  /** 41 degrees 54 minutes 9 seconds is 41.9025. */
  lemma DecimalExample()
    ensures Decimal(41.0, 54.0, 9.0) == 41.9025
  {
  }
}
