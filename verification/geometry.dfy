/** The geometry hint detector: spatial columns recognised by header name. */
module Geometry {
  import opened Wrappers
  import opened Text

  /** The `geometry` and `srid` metadata values; `None` means the key is
      left out. */
  datatype Hint = Hint(geometry: Option<string>, srid: Option<string>)

  /** The spatial reference of a latitude/longitude pair. */
  const Wgs84: string := "EPSG:4326"

  predicate IsGeometryName(h: string) {
    Lower(h) == "geometry"
  }

  predicate IsLatName(h: string) {
    Lower(h) == "lat" || Lower(h) == "latitude"
  }

  predicate IsLonName(h: string) {
    Lower(h) == "lon" || Lower(h) == "lng" || Lower(h) == "longitude"
  }

  /** The lowest index whose entry passes the test. */
  function FirstWhere(hs: seq<string>, test: string -> bool): (r: Option<nat>)
    ensures r.Some? ==> r.value < |hs| && test(hs[r.value])
    ensures r.Some? ==> forall k :: 0 <= k < r.value ==> !test(hs[k])
    ensures r.None? ==> forall k :: 0 <= k < |hs| ==> !test(hs[k])
  {
    if hs == [] then None
    else if test(hs[0]) then Some(0)
    else
      match FirstWhere(hs[1..], test)
      case None => None
      case Some(i) => Some(i + 1)
  }

  /** The highest index whose entry passes the test. */
  function LastWhere(hs: seq<string>, test: string -> bool): (r: Option<nat>)
    ensures r.Some? ==> r.value < |hs| && test(hs[r.value])
    ensures r.Some? ==> forall k :: r.value < k < |hs| ==> !test(hs[k])
    ensures r.None? ==> forall k :: 0 <= k < |hs| ==> !test(hs[k])
  {
    if hs == [] then None
    else if test(hs[|hs| - 1]) then Some(|hs| - 1)
    else LastWhere(hs[..|hs| - 1], test)
  }

  /** The hint for a header: a `geometry` column first; else the last
      latitude and the last longitude column with the WGS 84 reference;
      else nothing. Names are matched in lower case and written as given. */
  function GeometryHint(header: seq<string>): Hint
  {
    match FirstWhere(header, IsGeometryName)
    case Some(g) => Hint(Some("column:" + header[g]), None)
    case None =>
      var lat, lon := LastWhere(header, IsLatName), LastWhere(header, IsLonName);
      if lat.Some? && lon.Some? then
        Hint(Some("column:" + header[lat.value] + "," + header[lon.value]), Some(Wgs84))
      else Hint(None, None)
  }

  /** `detect_geometry_hint`: a membership test, then one pass that keeps
      the last latitude and longitude index seen. */
  method DetectGeometryHint(header: seq<string>) returns (hint: Hint)
    ensures hint == GeometryHint(header)
  {
    var lower := seq(|header|, i requires 0 <= i < |header| => Lower(header[i]));
    if "geometry" in lower {
      var idx := FirstWhere(header, IsGeometryName).value;
      return Hint(Some("column:" + header[idx]), None);
    }
    forall k | 0 <= k < |header|
      ensures !IsGeometryName(header[k])
    {
      assert lower[k] == Lower(header[k]) && lower[k] in lower;
    }
    var latIdx: Option<nat> := None;
    var lonIdx: Option<nat> := None;
    for i := 0 to |lower|
      invariant latIdx == LastWhere(header[..i], IsLatName)
      invariant lonIdx == LastWhere(header[..i], IsLonName)
    {
      var h := lower[i];
      assert header[..i + 1][..i] == header[..i];
      if h == "lat" || h == "latitude" {
        latIdx := Some(i);
      }
      if h == "lon" || h == "lng" || h == "longitude" {
        lonIdx := Some(i);
      }
    }
    assert header[..|header|] == header;
    if latIdx.Some? && lonIdx.Some? {
      return Hint(Some("column:" + header[latIdx.value] + "," + header[lonIdx.value]), Some(Wgs84));
    }
    return Hint(None, None);
  }

  /** A column named "geometry" in any case wins, the first one if several;
      no spatial reference is given. */
  lemma GeometryColumnWins(header: seq<string>, g: nat)
    requires g < |header| && IsGeometryName(header[g])
    requires forall k :: 0 <= k < g ==> !IsGeometryName(header[k])
    ensures GeometryHint(header) == Hint(Some("column:" + header[g]), None)
  {
    var r := FirstWhere(header, IsGeometryName);
    assert r.Some?;
    assert r.value == g by {
      if r.value < g {
      } else if r.value > g {
      }
    }
  }

  /** Without a geometry column, a latitude and a longitude column give the
      pair of the last of each, in the header's own spelling, with WGS 84. */
  lemma LatLonPair(header: seq<string>, lat: nat, lon: nat)
    requires forall k :: 0 <= k < |header| ==> !IsGeometryName(header[k])
    requires lat < |header| && IsLatName(header[lat])
    requires forall k :: lat < k < |header| ==> !IsLatName(header[k])
    requires lon < |header| && IsLonName(header[lon])
    requires forall k :: lon < k < |header| ==> !IsLonName(header[k])
    ensures GeometryHint(header) == Hint(Some("column:" + header[lat] + "," + header[lon]), Some(Wgs84))
  {
    var a, o := LastWhere(header, IsLatName), LastWhere(header, IsLonName);
    assert a.Some? && o.Some?;
    assert a.value == lat by {
      if a.value < lat {
      } else if a.value > lat {
      }
    }
    assert o.value == lon by {
      if o.value < lon {
      } else if o.value > lon {
      }
    }
  }

  /** Without a geometry column and without both a latitude and a longitude
      column, there is no hint. */
  lemma NoHint(header: seq<string>)
    requires forall k :: 0 <= k < |header| ==> !IsGeometryName(header[k])
    requires (forall k :: 0 <= k < |header| ==> !IsLatName(header[k])) ||
             (forall k :: 0 <= k < |header| ==> !IsLonName(header[k]))
    ensures GeometryHint(header) == Hint(None, None)
  {
    var a, o := LastWhere(header, IsLatName), LastWhere(header, IsLonName);
    assert a.None? || o.None?;
  }
}
