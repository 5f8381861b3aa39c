/** The heatmap's batch geocode (`createHeatmap`): every address is
    geocoded at once, a failure becomes `null` through `.catch(() => null)`,
    `Promise.all` waits for every one of them, and the nulls are filtered
    out before the points reach the heat layer. */
module Heat {
  import opened Wrappers
  import opened Geo
  import opened Collections

  /** `coordsList.filter(coord => coord !== null)`. */
  function ValidCoords(list: seq<Option<Coord>>): (r: seq<Coord>)
    ensures |r| <= |list|
  {
    if list == [] then []
    else (if list[0].Some? then [list[0].value] else []) + ValidCoords(list[1..])
  }

  /** The number of nulls in `list`. */
  function NullCount(list: seq<Option<Coord>>): nat {
    if list == [] then 0 else (if list[0].None? then 1 else 0) + NullCount(list[1..])
  }

  /** The filter distributes over concatenation, so the surviving points keep
      the order they had in the input, whatever order the geocodes settled in. */
  lemma {:induction false} ValidCoordsAppend(a: seq<Option<Coord>>, b: seq<Option<Coord>>)
    ensures ValidCoords(a + b) == ValidCoords(a) + ValidCoords(b)
  {
    if a == [] {
      EmptyAppend(b);
    } else {
      TailOfAppend(a, b);
      ValidCoordsAppend(a[1..], b);
      AppendAssoc(if a[0].Some? then [a[0].value] else [], ValidCoords(a[1..]), ValidCoords(b));
    }
  }

  /** Exactly the non-null entries survive: one point per success, so the
      output is never longer than the input, and a point is kept if and only
      if it was a geocoding result. */
  lemma {:induction false} ValidCoordsCount(list: seq<Option<Coord>>)
    ensures |ValidCoords(list)| + NullCount(list) == |list|
    ensures forall c :: c in ValidCoords(list) <==> Some(c) in list
  {
    if list != [] {
      ValidCoordsCount(list[1..]);
      assert list == [list[0]] + list[1..];
    }
  }

  /** How each geocode promise settles once `.catch(() => null)` is attached:
      `requestLocations.map(...)`, one entry per address. */
  function NullIfRejected(outcomes: seq<GeoOutcome>): seq<Option<Coord>> {
    seq(|outcomes|, k requires 0 <= k < |outcomes| =>
      if outcomes[k].Resolved? then Some(outcomes[k].at) else None)
  }

  /** The number of geocodes that resolved. */
  function ResolvedCount(outcomes: seq<GeoOutcome>): nat {
    if outcomes == [] then 0
    else (if outcomes[0].Resolved? then 1 else 0) + ResolvedCount(outcomes[1..])
  }

  /** The points `Promise.all` hands on: none while any geocode is still
      pending, otherwise the filtered results. */
  function HeatPoints(outcomes: seq<GeoOutcome>): (r: Option<seq<Coord>>)
    ensures r.None? <==> exists k | 0 <= k < |outcomes| :: outcomes[k].Pending?
    ensures r.Some? ==> |r.value| <= |outcomes|
  {
    if forall k | 0 <= k < |outcomes| :: !outcomes[k].Pending? then Some(ValidCoords(NullIfRejected(outcomes)))
    else None
  }

  lemma NullIfRejectedCons(outcomes: seq<GeoOutcome>)
    requires outcomes != []
    ensures NullIfRejected(outcomes)
         == [if outcomes[0].Resolved? then Some(outcomes[0].at) else None] + NullIfRejected(outcomes[1..])
  {
    var r, tail := NullIfRejected(outcomes), NullIfRejected(outcomes[1..]);
    var head := if outcomes[0].Resolved? then Some(outcomes[0].at) else None;
    assert forall k | 1 <= k < |r| :: r[k] == tail[k - 1];
    assert r == [head] + tail;
  }

  lemma NullIfRejectedAppend(a: seq<GeoOutcome>, b: seq<GeoOutcome>)
    ensures NullIfRejected(a + b) == NullIfRejected(a) + NullIfRejected(b)
  {
    var r, ra, rb := NullIfRejected(a + b), NullIfRejected(a), NullIfRejected(b);
    assert forall k | 0 <= k < |a| :: r[k] == ra[k];
    assert forall k | |a| <= k < |r| :: r[k] == rb[k - |a|];
    assert r == ra + rb;
  }

  /** One point per resolved geocode and none for a rejected one: once
      nothing is pending the layer receives exactly as many points as
      geocodes resolved, and a coordinate is among them exactly when some
      geocode resolved to it. */
  lemma {:induction false} HeatPointsContents(outcomes: seq<GeoOutcome>)
    requires HeatPoints(outcomes).Some?
    ensures |HeatPoints(outcomes).value| == ResolvedCount(outcomes)
    ensures forall c :: c in HeatPoints(outcomes).value <==> Resolved(c) in outcomes
  {
    var nulls := NullIfRejected(outcomes);
    ValidCoordsCount(nulls);
    forall c ensures Some(c) in nulls <==> Resolved(c) in outcomes {
      if Some(c) in nulls {
        var k :| 0 <= k < |nulls| && nulls[k] == Some(c);
        assert outcomes[k] == Resolved(c);
      }
      if Resolved(c) in outcomes {
        var k :| 0 <= k < |outcomes| && outcomes[k] == Resolved(c);
        assert nulls[k] == Some(c);
      }
    }
    if outcomes != [] {
      var tail := outcomes[1..];
      assert HeatPoints(tail).Some? by {
        forall k | 0 <= k < |tail| ensures !tail[k].Pending? {
          assert tail[k] == outcomes[k + 1];
        }
      }
      HeatPointsContents(tail);
      NullIfRejectedCons(outcomes);
      ValidCoordsCons(nulls[0], NullIfRejected(tail));
    }
  }

  /** Geocoding two batches together shows the points of the first batch
      followed by those of the second: the order of the addresses is kept. */
  lemma HeatPointsAppend(a: seq<GeoOutcome>, b: seq<GeoOutcome>)
    requires HeatPoints(a).Some? && HeatPoints(b).Some?
    ensures HeatPoints(a + b) == Some(HeatPoints(a).value + HeatPoints(b).value)
  {
    assert forall k | 0 <= k < |a + b| :: !(a + b)[k].Pending? by {
      forall k | 0 <= k < |a + b| ensures !(a + b)[k].Pending? {
        if k < |a| { assert (a + b)[k] == a[k]; } else { assert (a + b)[k] == b[k - |a|]; }
      }
    }
    NullIfRejectedAppend(a, b);
    ValidCoordsAppend(NullIfRejected(a), NullIfRejected(b));
  }

  /** Example: five addresses of which two fail leave three points, in order. */
  lemma TwoOfFiveFail(a: Coord, b: Coord, c: Coord)
    ensures HeatPoints([Resolved(a), Rejected, Resolved(b), Rejected, Resolved(c)]) == Some([a, b, c])
  {
    var outcomes := [Resolved(a), Rejected, Resolved(b), Rejected, Resolved(c)];
    assert forall k | 0 <= k < |outcomes| :: !outcomes[k].Pending?;
    var l5 := [Some(c)];
    var l4 := [None] + l5;
    var l3 := [Some(b)] + l4;
    var l2 := [None] + l3;
    var l1 := [Some(a)] + l2;
    assert NullIfRejected(outcomes) == l1;
    ValidCoordsCons(Some(c), []);
    assert [Some(c)] + [] == l5 && [c] + [] == [c];
    ValidCoordsCons(None, l5);
    assert ValidCoords(l4) == [c];
    ValidCoordsCons(Some(b), l4);
    assert ValidCoords(l3) == [b, c];
    ValidCoordsCons(None, l3);
    assert ValidCoords(l2) == [b, c];
    ValidCoordsCons(Some(a), l2);
    assert ValidCoords(l1) == [a, b, c];
  }

  lemma ValidCoordsCons(x: Option<Coord>, rest: seq<Option<Coord>>)
    ensures ValidCoords([x] + rest) == (if x.Some? then [x.value] else []) + ValidCoords(rest)
  {
    TailOfAppend([x], rest);
  }

  /** The density layer: an identity and its current point set. */
  datatype HeatLayer = HeatLayer(id: nat, points: seq<Coord>)

  datatype ScriptError = ReferenceError(name: string)

  /** The names the script declares at top level: its three variables
      (lines 2-4) and its functions. `heatmapLayer` is not among them. */
  const ScriptGlobals: set<string> := {
    "map", "plottedObjects", "geocodingQueue",
    "checkAuth", "openTab", "initMap", "addRowToTable", "updateMapWithAddress",
    "loadSavedDrivers", "parseAndPlotCSV", "processNextGeocodePair", "geocodeAddress",
    "uploadCSV", "initHeatmap", "parseCSVForHeatmap", "createHeatmap",
    "fetchAssignments", "login"
  }

  /** The name `createHeatmap` reads its layer from. */
  const HeatLayerName: string := "heatmapLayer"

  /** The end of `createHeatmap` as written, run where the names in
      `globals` are declared: `heatmapLayer` is read before anything assigns
      it. Where no such name is declared the read throws a ReferenceError and
      the promise callback ends there, so no layer is created or updated;
      where it is declared and holds `layer`, the refresh goes through. */
  function ShowHeatAsWritten(globals: set<string>, layer: Option<HeatLayer>, points: seq<Coord>, freshId: nat)
    : (r: Result<Option<HeatLayer>, ScriptError>)
    ensures r.Err? <==> HeatLayerName !in globals
    ensures r.Err? ==> r.error == ReferenceError(HeatLayerName)
    ensures r.Ok? ==> r.value.Some? && r.value.value.points == points
  {
    if HeatLayerName in globals then Ok(Some(ShowHeat(layer, points, freshId)))
    else Err(ReferenceError(HeatLayerName))
  }

  /** The evidently intended create-once, replace-after refresh, with
      `heatmapLayer` declared as an initially empty variable: the first
      refresh creates a layer, later ones replace its points. */
  function ShowHeat(layer: Option<HeatLayer>, points: seq<Coord>, freshId: nat): (r: HeatLayer)
    ensures r.points == points
    ensures layer.Some? ==> r.id == layer.value.id
    ensures layer.None? ==> r.id == freshId
  {
    match layer
    case None => HeatLayer(freshId, points)
    case Some(l) => l.(points := points)
  }

  /** The discrepancy: whatever the points, the code as written shows no heat
      layer, while the intended refresh shows exactly those points. */
  lemma HeatLayerNeverShown(points: seq<Coord>, freshId: nat)
    ensures ShowHeatAsWritten(ScriptGlobals, None, points, freshId) == Err(ReferenceError(HeatLayerName))
    ensures ShowHeat(None, points, freshId) == HeatLayer(freshId, points)
  {
  }

  /** Repeated refreshes keep one layer and show only the latest points:
      no stale layer accumulates across uploads. */
  lemma RefreshKeepsOneLayer(layer: Option<HeatLayer>, first: seq<Coord>, second: seq<Coord>, id1: nat, id2: nat)
    ensures var l1 := ShowHeat(layer, first, id1);
      ShowHeat(Some(l1), second, id2) == HeatLayer(l1.id, second)
  {
  }
}
