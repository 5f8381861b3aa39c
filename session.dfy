/** The script's global state and the operations that change it: the map,
    `geocodingQueue`, `plottedObjects`, the per-row `marker` properties, the
    map's `geoObjects` collection, the heat layer, and the outside calls
    and alerts they give rise to. */
module Session {
  import opened Wrappers
  import opened Text
  import opened Geo
  import opened Jobs
  import opened Pipeline
  import opened Heat
  import opened Collections

  /** What a map object draws. */
  datatype Shape = Polyline(from: Coord, to: Coord) | Placemark(at: Coord)

  /** A map object; `id` tells apart objects created at different times. */
  datatype Overlay = Overlay(id: nat, shape: Shape)

  /** How a `ymaps.route(...)` promise settles. */
  datatype RouteOutcome = Routed(lengthMeters: real, seconds: real) | RouteRejected

  function Elements(s: seq<Overlay>): set<Overlay> {
    set o | o in s
  }

  /** The marker `row` owns in `markers`, as a set of zero or one objects. */
  function MarkerOf(markers: map<nat, Overlay>, row: nat): set<Overlay> {
    if row in markers then {markers[row]} else {}
  }

  /** One geocode call per address, in order. */
  function GeocodeEach(addresses: seq<string>): seq<Call> {
    seq(|addresses|, k requires 0 <= k < |addresses| => Geocode(addresses[k]))
  }

  /** The heatmap geocodes exactly the collected addresses, each once and in
      list order. */
  lemma {:induction false} GeocodeEachGeocoded(addresses: seq<string>)
    ensures Geocoded(GeocodeEach(addresses)) == addresses
  {
    if addresses != [] {
      var calls, rest := GeocodeEach(addresses), GeocodeEach(addresses[1..]);
      assert forall k | 0 <= k < |rest| :: calls[1..][k] == rest[k];
      assert calls[1..] == rest;
      GeocodeEachGeocoded(addresses[1..]);
      assert calls[0] == Geocode(addresses[0]);
      assert addresses == [addresses[0]] + addresses[1..];
    }
  }

  /** How each address's geocode settles. */
  function Outcomes(addresses: seq<string>, resolve: string -> GeoOutcome): seq<GeoOutcome> {
    seq(|addresses|, k requires 0 <= k < |addresses| => resolve(addresses[k]))
  }

  /** Ownership: everything on the map belongs to the batch bucket or to
      exactly one roster row, never to both, and nothing on the map is owned
      by no one; every object and the heat layer carry an identity below
      `nextId`; nothing is drawn before the map exists. */
  ghost predicate Owned(scene: set<Overlay>, plotted: seq<Overlay>, markers: map<nat, Overlay>,
                        nextId: nat, mapReady: bool, heatLayer: Option<HeatLayer>)
  {
    && scene == Elements(plotted) + markers.Values
    && Elements(plotted) !! markers.Values
    && (forall o | o in scene :: o.id < nextId)
    && (forall i, j | 0 <= i < j < |plotted| :: plotted[i] != plotted[j])
    && (forall r1, r2 | r1 in markers && r2 in markers && r1 != r2 :: markers[r1] != markers[r2])
    && (scene != {} ==> mapReady)
    && (heatLayer.Some? ==> heatLayer.value.id < nextId)
  }

  /** Adding a route's line and end placemark, with the next two identities,
      to the bucket and the map keeps ownership; neither was on the map. */
  lemma OwnedAddRoute(scene: set<Overlay>, plotted: seq<Overlay>, markers: map<nat, Overlay>,
                      nextId: nat, mapReady: bool, heatLayer: Option<HeatLayer>, from: Coord, to: Coord)
    requires Owned(scene, plotted, markers, nextId, mapReady, heatLayer) && mapReady
    ensures var line, pin := Overlay(nextId, Polyline(from, to)), Overlay(nextId + 1, Placemark(to));
      line !in scene && pin !in scene
      && Owned(scene + {line, pin}, plotted + [line, pin], markers, nextId + 2, mapReady, heatLayer)
  {
    var line, pin := Overlay(nextId, Polyline(from, to)), Overlay(nextId + 1, Placemark(to));
    var after := plotted + [line, pin];
    assert Elements(after) == Elements(plotted) + {line, pin};
    forall i, j | 0 <= i < j < |after| ensures after[i] != after[j] {
      if j >= |plotted| {
        assert after[j] == line || after[j] == pin;
        if i < |plotted| {
          assert after[i] in scene;
        }
      }
    }
  }

  /** Taking row `row`'s marker off the map keeps ownership, and the
      marker is then on the map no more. */
  lemma OwnedRemoveMarker(scene: set<Overlay>, plotted: seq<Overlay>, markers: map<nat, Overlay>,
                          nextId: nat, mapReady: bool, heatLayer: Option<HeatLayer>, row: nat)
    requires Owned(scene, plotted, markers, nextId, mapReady, heatLayer)
    requires row in markers
    ensures (markers - {row}).Values == markers.Values - {markers[row]}
    ensures Owned(scene - {markers[row]}, plotted, markers - {row}, nextId, mapReady, heatLayer)
  {
    var gone, rest := markers[row], markers - {row};
    forall o ensures o in rest.Values <==> o in markers.Values && o != gone {
      if o in markers.Values && o != gone {
        var r :| r in markers && markers[r] == o;
        assert r in rest;
      }
    }
  }

  /** Drawing a fresh placemark as the marker of a row that has none keeps
      ownership; the new object was not on the map before. */
  lemma OwnedAddMarker(scene: set<Overlay>, plotted: seq<Overlay>, markers: map<nat, Overlay>,
                       nextId: nat, mapReady: bool, heatLayer: Option<HeatLayer>, row: nat, at: Coord)
    requires Owned(scene, plotted, markers, nextId, mapReady, heatLayer)
    requires row !in markers && mapReady
    ensures var pin := Overlay(nextId, Placemark(at));
      pin !in scene
      && markers[row := pin].Values == markers.Values + {pin}
      && Owned(scene + {pin}, plotted, markers[row := pin], nextId + 1, mapReady, heatLayer)
  {
    var pin := Overlay(nextId, Placemark(at));
    var after := markers[row := pin];
    forall o ensures o in after.Values <==> o in markers.Values || o == pin {
      if o in markers.Values {
        var r :| r in markers && markers[r] == o;
        assert r != row && after[r] == o;
      }
      if o == pin {
        assert after[row] == o;
      }
      if o in after.Values {
        var r :| r in after && after[r] == o;
        if r != row {
          assert markers[r] == o;
        }
      }
    }
  }

  /** `table.innerHTML = ""` in `loadSavedDrivers` as written: every roster
      row, and with it its `marker` property, is discarded, while nothing takes
      the markers off the map. The result is the new scene and row markers. */
  function ClearTableAsWritten(scene: set<Overlay>, markers: map<nat, Overlay>): (r: (set<Overlay>, map<nat, Overlay>))
    ensures r.1 == map[] && markers.Values * scene <= r.0
  {
    (scene, map[])
  }

  /** The discrepancy: after the table is cleared as written, a marker that
      was on the map stays there, owned neither by a row nor by the bucket,
      so ownership is lost. */
  lemma ReloadOrphansMarkers(scene: set<Overlay>, plotted: seq<Overlay>, markers: map<nat, Overlay>,
                             nextId: nat, mapReady: bool, heatLayer: Option<HeatLayer>, row: nat)
    requires Owned(scene, plotted, markers, nextId, mapReady, heatLayer)
    requires row in markers
    ensures var after := ClearTableAsWritten(scene, markers);
      markers[row] in after.0 && markers[row] !in Elements(plotted) + after.1.Values
      && !Owned(after.0, plotted, after.1, nextId, mapReady, heatLayer)
  {
    var m := markers[row];
    assert m in markers.Values;
    assert m in scene;
    assert m !in Elements(plotted);
    var after := ClearTableAsWritten(scene, markers);
    assert after.1.Values == {};
  }

  /** Taking every row marker off the map before the rows are discarded
      keeps ownership, and leaves exactly the bucket on the map. */
  lemma OwnedClearMarkers(scene: set<Overlay>, plotted: seq<Overlay>, markers: map<nat, Overlay>,
                          nextId: nat, mapReady: bool, heatLayer: Option<HeatLayer>)
    requires Owned(scene, plotted, markers, nextId, mapReady, heatLayer)
    ensures scene - markers.Values == Elements(plotted)
    ensures Owned(scene - markers.Values, plotted, map[], nextId, mapReady, heatLayer)
  {
    var empty: map<nat, Overlay> := map[];
    assert empty.Values == {};
  }

  /** The controls of a roster row whose change handler is
      `updateMapWithAddress(this)`: four text inputs and two selects. */
  datatype RosterControl = Plate | Name | Phone | Address | Shift | Status

  /** The address `updateMapWithAddress` geocodes as written when `control`
      changes to `value`: the handler takes the changed control itself as the
      address input, so whichever control changed, its trimmed value is
      suffixed, unless it is blank. */
  function OnChangeAddressAsWritten(control: RosterControl, value: string): (r: Option<string>)
    ensures r.Some? <==> Trim(value) != []
  {
    if Trim(value) == [] then None else Some(Geocodable(Trim(value)))
  }

  /** The evidently intended handler: only a change of the address input
      moves the row's marker; every other control leaves it alone. */
  function OnChangeAddress(control: RosterControl, value: string): (r: Option<string>)
    ensures r.Some? <==> control == Address && Trim(value) != []
    ensures control == Address ==> r == OnChangeAddressAsWritten(control, value)
  {
    if control == Address then OnChangeAddressAsWritten(control, value) else None
  }

  /** The discrepancy: as written, switching a row's shift to "Evening"
      geocodes "Evening" with the locality suffix and so moves the row's
      marker there; the intended handler geocodes nothing. */
  lemma ShiftChangeGeocodesShift()
    ensures OnChangeAddressAsWritten(Shift, "Evening") == Some(Geocodable("Evening"))
    ensures OnChangeAddress(Shift, "Evening") == None
  {
    var v := "Evening";
    assert !IsSpace(v[0]) && !IsSpace(v[|v| - 1]);
    assert Trim(v) == v;
  }

  /** Showing heat points, on the existing layer or on a new one that takes
      the next identity, keeps ownership. */
  lemma OwnedShowHeat(scene: set<Overlay>, plotted: seq<Overlay>, markers: map<nat, Overlay>,
                      nextId: nat, mapReady: bool, heatLayer: Option<HeatLayer>, points: seq<Coord>)
    requires Owned(scene, plotted, markers, nextId, mapReady, heatLayer)
    ensures Owned(scene, plotted, markers, nextId + 1, mapReady, Some(ShowHeat(heatLayer, points, nextId)))
  {
  }

  class MapSession {
    /** Whether `map` has been created. */
    var mapReady: bool
    /** `geocodingQueue`. */
    var queue: seq<QueueItem>
    /** `plottedObjects`: the batch bucket of route overlays. */
    var plotted: seq<Overlay>
    /** `map.geoObjects`: what is on the map. */
    var scene: set<Overlay>
    /** `row.marker` of every roster row that has one. */
    var markers: map<nat, Overlay>
    /** Route requests issued by the drain whose callbacks have not run. */
    var inFlight: seq<RouteTask>
    /** Every outside call made, in order. */
    var calls: seq<Call>
    /** Every alert shown, in order. */
    var notices: seq<Notice>
    /** The heat layer, once one exists. */
    var heatLayer: Option<HeatLayer>
    /** The identity the next created map object receives. */
    var nextId: nat
    /** Route requests issued since the bucket was last cleared, together with
        those still in flight at that moment: each can add two objects. */
    ghost var routeBudget: nat

    /** The map objects are owned as `Owned` says. */
    ghost predicate Owns()
      reads this`scene, this`plotted, this`markers, this`nextId, this`mapReady, this`heatLayer
    {
      Owned(scene, plotted, markers, nextId, mapReady, heatLayer)
    }

    /** The object invariant: ownership holds, and the bucket never holds
        more than two objects per route request it could have come from. */
    ghost predicate Valid()
      reads this`scene, this`plotted, this`markers, this`nextId, this`mapReady, this`heatLayer
      reads this`inFlight, this`routeBudget
    {
      && Owns()
      && |plotted| + 2 * |inFlight| <= 2 * routeBudget
    }

    /** The state when the page loads. */
    constructor ()
      ensures Valid()
      ensures !mapReady && queue == [] && plotted == [] && scene == {} && markers == map[]
      ensures inFlight == [] && calls == [] && notices == [] && heatLayer == None && routeBudget == 0
    {
      mapReady, queue, plotted, scene, markers := false, [], [], {}, map[];
      inFlight, calls, notices, heatLayer, nextId := [], [], [], None, 0;
      routeBudget := 0;
    }

    /** Opening the map tab creates the map once. */
    method InitMap()
      requires Valid()
      modifies this`mapReady
      ensures Valid() && mapReady
    {
      if !mapReady {
        mapReady := true;
      }
    }

    /** The dashboard tab's `loadSavedDrivers`, with the table clear
        corrected: every row's marker leaves the map before the rows are
        discarded, and the roster is fetched again. The rows it rebuilds
        start without a marker; each one's delayed address update is a later
        `UpdateRowMarker`. */
    method LoadSavedDrivers()
      requires Valid()
      modifies this`scene, this`markers, this`calls
      ensures Valid()
      ensures markers == map[] && scene == old(scene) - old(markers).Values && scene == Elements(plotted)
      ensures calls == old(calls) + [FetchTrucks]
    {
      OwnedClearMarkers(scene, plotted, markers, nextId, mapReady, heatLayer);
      scene := scene - markers.Values;
      markers := map[];
      calls := calls + [FetchTrucks];
    }

    /** The loop of `parseAndPlotCSV`: one queue item per data row (index 1
        onwards) that reaches both columns, appended in file order. */
    method EnqueueRows(rows: seq<string>, c: Columns, drivers: seq<Driver>)
      requires c.request != c.workshop
      requires |rows| >= 1
      modifies this`queue
      ensures queue == old(queue) + JobItems(rows[1..], c, drivers)
    {
      ghost var q0 := queue;
      for i := 1 to |rows|
        invariant queue == q0 + JobItems(rows[1..i], c, drivers)
      {
        var cells := Split(rows[i], ',');
        SliceSnoc(rows, 1, i);
        JobItemsSnoc(rows[1..i], rows[i], c, drivers);
        if |cells| > Max(c.request, c.workshop) {
          var item := QueueItem(HomeAddress(drivers, cells[1]), Trim(cells[c.request]), Trim(cells[c.workshop]));
          assert RowItem(rows[i], c, drivers) == Some(item);
          SnocAssoc(q0, JobItems(rows[1..i], c, drivers), item);
          queue := queue + [item];
        } else {
          assert RowItem(rows[i], c, drivers) == None;
        }
      }
      SliceToEnd(rows, 1);
    }

    /** `processNextGeocodePair`, run until the queue is empty or a geocode
        never settles; reaching the empty queue raises the completion alert.
        Route requests are left in flight for `SettleRoute`. */
    method Drain(resolve: string -> GeoOutcome)
      requires Valid()
      modifies this`queue, this`calls, this`inFlight, this`notices, this`routeBudget
      ensures Valid()
      ensures var t := Run(old(queue), resolve);
        t.dequeued <= |old(queue)| && queue == old(queue)[t.dequeued..]
        && calls == old(calls) + t.calls
        && inFlight == old(inFlight) + t.launched && routeBudget == old(routeBudget) + |t.launched|
        && notices == old(notices) + (if t.finished then [AllJobsPlotted] else [])
    {
      var finished := DrainQueue(resolve);
      if finished {
        notices := notices + [AllJobsPlotted];
      } else {
        AppendEmpty(notices);
      }
    }

    /** The recursion of `processNextGeocodePair` as a loop: items are
        shifted off one at a time until the queue is empty (`finished`) or
        an item's geocodes never settle. */
    method DrainQueue(resolve: string -> GeoOutcome) returns (finished: bool)
      requires Valid()
      modifies this`queue, this`calls, this`inFlight, this`routeBudget
      ensures Valid()
      ensures var t := Run(old(queue), resolve);
        t.dequeued <= |old(queue)| && queue == old(queue)[t.dequeued..]
        && calls == old(calls) + t.calls
        && inFlight == old(inFlight) + t.launched && routeBudget == old(routeBudget) + |t.launched|
        && finished == t.finished
    {
      ghost var items, log0, flight0, budget0 := queue, calls, inFlight, routeBudget;
      ghost var done := Trace(0, [], [], true);
      var stalled := false;
      while queue != [] && !stalled
        invariant Valid()
        invariant done.dequeued <= |items| && queue == items[done.dequeued..]
        invariant calls == log0 + done.calls
        invariant inFlight == flight0 + done.launched && routeBudget == budget0 + |done.launched|
        invariant stalled == !done.finished
        invariant stalled ==> Run(items, resolve) == done
        invariant !stalled ==> Run(items, resolve) == Then(done, Run(queue, resolve))
        decreases |queue|
      {
        ghost var step := Step(queue[0], resolve);
        StepShiftsOne(queue[0], resolve);
        ThenAssoc(done, step, Run(queue[1..], resolve));
        DropNext(items, done.dequeued);
        AppendAssoc(log0, done.calls, step.calls);
        AppendAssoc(flight0, done.launched, step.launched);
        var more := ProcessNext(resolve);
        stalled := !more;
        done := Then(done, step);
      }
      if !stalled {
        ThenDone(done, resolve);
        assert Run(items, resolve) == done.(finished := true);
      }
      finished := !stalled;
    }

    /** One call of `processNextGeocodePair` on a non-empty queue: the head
        is shifted off and its three addresses geocoded; if all three
        resolve, the two legs are requested; `more` says whether the drain
        goes on to the next item. */
    method ProcessNext(resolve: string -> GeoOutcome) returns (more: bool)
      requires Valid() && queue != []
      modifies this`queue, this`calls, this`inFlight, this`routeBudget
      ensures Valid()
      ensures var s := Step(old(queue)[0], resolve);
        queue == old(queue)[1..] && calls == old(calls) + s.calls
        && inFlight == old(inFlight) + s.launched && more == s.finished
        && routeBudget == old(routeBudget) + |s.launched|
    {
      var item := queue[0];
      queue := queue[1..];
      match Settle(item, resolve) {
        case Located(h, j, w) =>
          AppendAssoc(calls, GeocodeCalls(item), [Route(h, j), Route(j, w)]);
          calls := calls + GeocodeCalls(item) + [Route(h, j), Route(j, w)];
          inFlight := inFlight + [RouteTask(h, j, HomeToJob), RouteTask(j, w, JobToWorkshop)];
          routeBudget := routeBudget + 2;
          more := true;
        case Failed =>
          calls := calls + GeocodeCalls(item);
          more := true;
        case Stalled =>
          calls := calls + GeocodeCalls(item);
          more := false;
      }
    }

    /** `parseAndPlotCSV`: an upload without both columns only raises an
        alert and leaves the queue as it was; otherwise the queue is reset,
        the roster is fetched (`roster` is its answer, `None` when the fetch
        fails), the rows are enqueued and the drain starts. */
    method Upload(text: string, roster: Option<seq<Driver>>, resolve: string -> GeoOutcome)
      requires Valid()
      modifies this`queue, this`calls, this`inFlight, this`notices, this`routeBudget
      ensures Valid()
      ensures RouteColumns(text).Err? ==>
        queue == old(queue) && calls == old(calls) && inFlight == old(inFlight)
        && notices == old(notices) + [MissingRouteColumns] && routeBudget == old(routeBudget)
      ensures RouteColumns(text).Ok? && roster.None? ==>
        queue == [] && calls == old(calls) + [FetchTrucks] && inFlight == old(inFlight) && notices == old(notices)
        && routeBudget == old(routeBudget)
      ensures RouteColumns(text).Ok? && roster.Some? ==>
        var items := JobItems(SplitLines(text)[1..], RouteColumns(text).value, roster.value);
        var t := Run(items, resolve);
        t.dequeued <= |items| && queue == items[t.dequeued..]
        && calls == old(calls) + [FetchTrucks] + t.calls
        && inFlight == old(inFlight) + t.launched && routeBudget == old(routeBudget) + |t.launched|
        && notices == old(notices) + (if t.finished then [AllJobsPlotted] else [])
    {
      var columns := RouteColumns(text);
      if columns.Err? {
        notices := notices + [columns.error];
        return;
      }
      queue := [];
      calls := calls + [FetchTrucks];
      if roster.Some? {
        EmptyAppend(JobItems(SplitLines(text)[1..], columns.value, roster.value));
        OnRoster(SplitLines(text), columns.value, roster.value, resolve);
      }
    }

    /** The callback `parseAndPlotCSV` hands the fetched roster to: the rows
        are enqueued after whatever the queue holds and the drain starts. */
    method OnRoster(rows: seq<string>, c: Columns, drivers: seq<Driver>, resolve: string -> GeoOutcome)
      requires Valid() && c.request != c.workshop && |rows| >= 1
      modifies this`queue, this`calls, this`inFlight, this`notices, this`routeBudget
      ensures Valid()
      ensures var items := old(queue) + JobItems(rows[1..], c, drivers);
        var t := Run(items, resolve);
        t.dequeued <= |items| && queue == items[t.dequeued..]
        && calls == old(calls) + t.calls
        && inFlight == old(inFlight) + t.launched && routeBudget == old(routeBudget) + |t.launched|
        && notices == old(notices) + (if t.finished then [AllJobsPlotted] else [])
    {
      EnqueueRows(rows, c, drivers);
      Drain(resolve);
    }

    /** A route callback: task `k` of those in flight settles. A computed
        route draws a line from start to end and a placemark at the end, and
        records both in the bucket; without a map the callback throws before
        adding anything; a rejected route adds nothing. */
    method SettleRoute(k: nat, outcome: RouteOutcome)
      requires Valid()
      requires k < |inFlight|
      modifies this`inFlight, this`scene, this`plotted, this`nextId
      ensures Valid()
      ensures inFlight == old(inFlight[..k] + inFlight[k + 1..])
      ensures var t := old(inFlight[k]);
        var line, pin := Overlay(old(nextId), Polyline(t.from, t.to)), Overlay(old(nextId) + 1, Placemark(t.to));
        if outcome.Routed? && mapReady then
          line !in old(scene) && pin !in old(scene)
          && plotted == old(plotted) + [line, pin] && scene == old(scene) + {line, pin}
        else
          plotted == old(plotted) && scene == old(scene)
      ensures nextId == old(nextId) + (if outcome.Routed? && mapReady then 2 else 0)
    {
      var task := inFlight[k];
      inFlight := inFlight[..k] + inFlight[k + 1..];
      if outcome.Routed? && mapReady {
        OwnedAddRoute(scene, plotted, markers, nextId, mapReady, heatLayer, task.from, task.to);
        var line := Overlay(nextId, Polyline(task.from, task.to));
        var pin := Overlay(nextId + 1, Placemark(task.to));
        nextId := nextId + 2;
        scene := scene + {line, pin};
        plotted := plotted + [line, pin];
      }
    }

    /** `updateMapWithAddress` for roster row `row` whose `control` changed
        to `value`: with no map, or when the change names no address, nothing
        happens; otherwise the suffixed address goes to `PlaceRowMarker`. */
    method UpdateRowMarker(row: nat, control: RosterControl, value: string, resolve: string -> GeoOutcome)
      requires Valid()
      modifies this`scene, this`markers, this`calls, this`nextId
      ensures Valid()
      ensures !mapReady || OnChangeAddress(control, value).None? ==>
        scene == old(scene) && markers == old(markers) && calls == old(calls) && nextId == old(nextId)
      ensures mapReady && OnChangeAddress(control, value).Some? ==>
        var full := OnChangeAddress(control, value).value;
        var gone := old(scene) - MarkerOf(old(markers), row);
        calls == old(calls) + [Geocode(full)]
        && MarkerOf(old(markers), row) !! scene
        && (if resolve(full).Resolved? then
              var pin := Overlay(old(nextId), Placemark(resolve(full).at));
              pin !in old(scene) && markers == old(markers)[row := pin] && scene == gone + {pin}
            else
              markers == old(markers) - {row} && scene == gone)
        && nextId == old(nextId) + (if resolve(full).Resolved? then 1 else 0)
    {
      var address := OnChangeAddress(control, value);
      if !mapReady || address.None? {
        return;
      }
      PlaceRowMarker(row, address.value, resolve);
    }

    /** The rest of `updateMapWithAddress`, once the map exists and the
        value is not blank: the row's old marker leaves the map first, then
        `full` is geocoded, and on success one new marker is drawn and
        becomes the row's marker. */
    method PlaceRowMarker(row: nat, full: string, resolve: string -> GeoOutcome)
      requires Valid() && mapReady
      modifies this`scene, this`markers, this`calls, this`nextId
      ensures Valid()
      ensures var gone := old(scene) - MarkerOf(old(markers), row);
        calls == old(calls) + [Geocode(full)]
        && MarkerOf(old(markers), row) !! scene
        && (if resolve(full).Resolved? then
              var pin := Overlay(old(nextId), Placemark(resolve(full).at));
              pin !in old(scene) && markers == old(markers)[row := pin] && scene == gone + {pin}
            else
              markers == old(markers) - {row} && scene == gone)
      ensures nextId == old(nextId) + (if resolve(full).Resolved? then 1 else 0)
    {
      ghost var markers0, scene0 := markers, scene;
      if row in markers {
        OwnedRemoveMarker(scene, plotted, markers, nextId, mapReady, heatLayer, row);
        scene := scene - {markers[row]};
        markers := markers - {row};
      } else {
        RemoveAbsent(markers, row);
      }
      assert scene == scene0 - MarkerOf(markers0, row) && markers == markers0 - {row};
      calls := calls + [Geocode(full)];
      match resolve(full)
      case Resolved(at) =>
        OwnedAddMarker(scene, plotted, markers, nextId, mapReady, heatLayer, row, at);
        RemoveThenSet(markers0, row, Overlay(nextId, Placemark(at)));
        var pin := Overlay(nextId, Placemark(at));
        nextId := nextId + 1;
        scene := scene + {pin};
        markers := markers[row := pin];
      case Rejected =>
      case Pending =>
    }

    /** The first two lines of `initHeatmap`: every object in the bucket is
        removed from the map, then the bucket is emptied. */
    method ClearPlotted()
      requires Valid()
      modifies this`scene, this`plotted, this`routeBudget
      ensures Valid()
      ensures scene == old(scene) - Elements(old(plotted)) && scene == markers.Values
      ensures plotted == [] && routeBudget == |inFlight|
    {
      var i := 0;
      while i < |plotted|
        invariant 0 <= i <= |plotted| && plotted == old(plotted)
        invariant scene == old(scene) - Elements(plotted[..i])
      {
        assert plotted[..i + 1] == plotted[..i] + [plotted[i]];
        scene := scene - {plotted[i]};
        i := i + 1;
      }
      assert plotted[..i] == plotted;
      plotted := [];
      routeBudget := |inFlight|;
    }

    /** Opening the heatmap tab (`initHeatmap`, `parseCSVForHeatmap`): the
        bucket is cleared; without an uploaded file, or with one lacking
        `request_location`, an alert is raised; otherwise the collected
        addresses go to `CreateHeatmap`. */
    method OpenHeatmap(file: Option<string>, resolve: string -> GeoOutcome)
      requires Valid()
      modifies this`scene, this`plotted, this`routeBudget, this`calls, this`notices, this`heatLayer, this`nextId
      ensures Valid()
      ensures plotted == [] && scene == markers.Values && routeBudget == |inFlight|
      ensures file.None? ==>
        notices == old(notices) + [NoFileUploaded] && calls == old(calls) && heatLayer == old(heatLayer)
      ensures file.Some? && HeatColumn(file.value).Err? ==>
        notices == old(notices) + [MissingRequestColumn] && calls == old(calls) && heatLayer == old(heatLayer)
      ensures file.Some? && HeatColumn(file.value).Ok? ==>
        var addresses := HeatAddresses(SplitLines(file.value)[1..], HeatColumn(file.value).value);
        notices == old(notices) && calls == old(calls) + GeocodeEach(addresses)
        && heatLayer == match HeatPoints(Outcomes(addresses, resolve))
                        case None => old(heatLayer)
                        case Some(points) => Some(ShowHeat(old(heatLayer), points, old(nextId)))
      ensures nextId == old(nextId) + (if file.Some? && HeatColumn(file.value).Ok?
                                          && HeatPoints(Outcomes(HeatAddresses(SplitLines(file.value)[1..], HeatColumn(file.value).value), resolve)).Some?
                                       then 1 else 0)
    {
      ClearPlotted();
      if file.None? {
        notices := notices + [NoFileUploaded];
        return;
      }
      var collected := CollectHeatAddresses(file.value);
      match collected
      case Err(e) =>
        notices := notices + [e];
      case Ok(addresses) =>
        CreateHeatmap(addresses, resolve);
    }

    /** `createHeatmap`: every address is geocoded at once and, once all
        have settled, the surviving points are shown on the heat layer; while
        any geocode is pending nothing is shown. */
    method CreateHeatmap(addresses: seq<string>, resolve: string -> GeoOutcome)
      requires Valid()
      modifies this`calls, this`heatLayer, this`nextId
      ensures Valid()
      ensures calls == old(calls) + GeocodeEach(addresses)
      ensures heatLayer == match HeatPoints(Outcomes(addresses, resolve))
                           case None => old(heatLayer)
                           case Some(points) => Some(ShowHeat(old(heatLayer), points, old(nextId)))
      ensures nextId == old(nextId) + (if HeatPoints(Outcomes(addresses, resolve)).Some? then 1 else 0)
    {
      calls := calls + GeocodeEach(addresses);
      match HeatPoints(Outcomes(addresses, resolve))
      case None =>
      case Some(points) =>
        OwnedShowHeat(scene, plotted, markers, nextId, mapReady, heatLayer, points);
        heatLayer := Some(ShowHeat(heatLayer, points, nextId));
        nextId := nextId + 1;
    }
  }
}
