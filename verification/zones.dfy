/**
 * Table zones and the zone lookup of the analyzer: the configuration is an
 * ordered list of named polygons (the order of the JSON object), and a point
 * belongs to the first table, in that order, whose polygon contains it.
 */
module Zones {
  import opened Options
  import opened Geometry

  datatype Roi = Roi(name: string, polygon: Polygon)

  /** The table names of a configuration: the keys of the loaded JSON object. */
  function RoiNames(rois: seq<Roi>): set<string> {
    set i | 0 <= i < |rois| :: rois[i].name
  }

  /**
   * The table whose zone holds the point: the first one in configuration
   * order whose containment test is >= 0, or None when no zone holds it.
   */
  function CheckRoi(rois: seq<Roi>, point: Point): (r: Option<string>)
    ensures r.None? <==> forall i :: 0 <= i < |rois| ==> !Contains(rois[i].polygon, point)
    ensures r.Some? ==> exists i :: 0 <= i < |rois| && FirstMatch(rois, point, i) && rois[i].name == r.value
  {
    if |rois| == 0 then None
    else if Contains(rois[0].polygon, point) then
      assert FirstMatch(rois, point, 0);
      Some(rois[0].name)
    else
      var r := CheckRoi(rois[1..], point);
      assert forall i :: 1 <= i < |rois| ==> rois[i] == rois[1..][i - 1];
      if r.Some? then
        var i :| 0 <= i < |rois| - 1 && FirstMatch(rois[1..], point, i) && rois[1..][i].name == r.value;
        assert FirstMatch(rois, point, i + 1);
        r
      else r
  }

  /** Zone i holds the point and no earlier zone does. */
  predicate FirstMatch(rois: seq<Roi>, point: Point, i: nat)
    requires i < |rois|
  {
    Contains(rois[i].polygon, point) && forall j :: 0 <= j < i ==> !Contains(rois[j].polygon, point)
  }

  /** The answer is always one of the configured table names. */
  lemma CheckRoiNamesTable(rois: seq<Roi>, point: Point)
    ensures CheckRoi(rois, point).Some? ==> CheckRoi(rois, point).value in RoiNames(rois)
  {
    var r := CheckRoi(rois, point);
    if r.Some? {
      var i :| 0 <= i < |rois| && FirstMatch(rois, point, i) && rois[i].name == r.value;
      assert rois[i].name in RoiNames(rois);
    }
  }

  /** A corner of the first zone is always reported as that zone. */
  lemma CornerOfFirstZone(rois: seq<Roi>, k: nat)
    requires |rois| > 0 && k < |rois[0].polygon|
    ensures CheckRoi(rois, rois[0].polygon[k]) == Some(rois[0].name)
  {
    assert Contains(rois[0].polygon, rois[0].polygon[k]);
  }
}
