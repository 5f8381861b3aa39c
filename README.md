# Fleet dispatch map: a Dafny model of the browser script's core

The fleet dashboard's browser script (`frontend/script.js`) turns an uploaded
CSV of service jobs into routes on a Yandex map. It also keeps one marker per
roster row and draws a heatmap of request locations. This project models the
script's deterministic core and proves properties of it:

- **Parsing the route upload** (`parseAndPlotCSV`). The text is split into
  lines on `/\r\n|\n/`. The header's `request_location` and
  `workshop_location` columns are located. Every data row that reaches both
  columns becomes one queue item: a home address, a trimmed request address
  and a trimmed workshop address. The home address is the roster address of
  the first driver whose name equals the row's second cell, and otherwise
  that cell itself.
- **The sequential drain** (`processNextGeocodePair`). The head item is
  shifted off and its three suffixed addresses are geocoded under
  `Promise.all`. A rejection skips the item. Three coordinates launch two
  route requests and move on without waiting for them. A geocode that never
  settles stops the drain. An empty queue raises the completion alert.
- **Overlay bookkeeping**:
  - every computed route, once the map exists, adds a line and a placemark
    to the map and to the shared batch bucket `plottedObjects`;
  - opening the heatmap tab removes every bucket object from the map before
    emptying the bucket;
  - changing a roster row's address replaces that row's single marker. As
    written, the shift and status selects use the same handler, so changing
    either one geocodes the selected option and moves the marker (third
    finding below).
- **The heatmap path** (`parseCSVForHeatmap`, `createHeatmap`). One suffixed
  address is collected per row. All addresses are geocoded at once, with
  failures turned into `null`. The nulls are filtered out before the points
  reach the heat layer.

Modules:

| module | file | what it holds |
|---|---|---|
| `Wrappers` | `wrappers.dfy` | `Option`, `Result` |
| `Collections` | `collections.dfy` | generic facts about sequences and maps |
| `Text` | `text.dfy` | JavaScript's `split`, `trim`, `indexOf` and the line-break split |
| `Geo` | `geo.dfy` | the `", Istanbul, Turkey"` suffix, coordinates, how a geocode settles |
| `Jobs` | `jobs.dfy` | header checks, driver lookup, rows to queue items, heatmap addresses |
| `Pipeline` | `pipeline.dfy` | the drain as a specification function `Run`, with lemmas about it |
| `Heat` | `heat.dfy` | the null filter and the heat layer refresh |
| `Session` | `session.dfy` | class `MapSession`: the script's global state and the methods that change it |

Outside services are parameters:

- the geocoder is a function `resolve` from address to outcome;
- the roster fetch is an `Option` (its answer, or `None` when it fails);
- every settling route callback is one call of `SettleRoute`.

## Model

| member | source | states |
|---|---|---|
| `Text.Trim` | frontend/script.js:162-163 | The result starts and ends with non-whitespace. It is the infix of the input after its leading whitespace, and everything cut off on either side is whitespace. |
| `Text.IndexOf` | frontend/script.js:143-144 | The result is -1 exactly when the name is absent. Otherwise it is a position holding the name with no earlier occurrence. |
| `Text.Split` | frontend/script.js:157 | A split always yields at least one piece, and no piece contains the separator. |
| `Text.JoinSplit` | frontend/script.js:157 | Joining the pieces with the separator gives back the original line, so splitting loses no text. |
| `Text.SplitJoin` | frontend/script.js:157 | Pieces free of the separator survive a join followed by a split unchanged. |
| `Text.SplitLines` | frontend/script.js:141 | Splitting at each CR LF or LF yields at least one line, and no line contains a line feed. |
| `Text.SplitLinesIsSplitOnLF` | frontend/script.js:141 | The regex split equals turning every CR LF into LF and then splitting on LF. |
| `Text.LinesWithoutCR` | frontend/script.js:141 | Text without CR splits on LF alone, and the lines join back to the text. |
| `Jobs.DriverIndex` | frontend/script.js:160 | The lookup yields the first roster entry whose name equals the cell, or -1 exactly when no entry has that name. |
| `Jobs.FindDriver` | frontend/script.js:160 | `drivers.find` gives nothing exactly when no roster entry has the name. Otherwise it gives an entry with that name, and no earlier entry has it. |
| `Jobs.HomeAddress` | frontend/script.js:160-161 | The home address is the address of the first exactly matching driver. The raw cell is the fallback when no driver matches. |
| `Jobs.Header` | frontend/script.js:142 | The header cells are at least one, and they join back to the first line of the upload. |
| `Jobs.RouteColumns` | frontend/script.js:141-149 | The header check fails exactly when either column name is missing, and then raises the route alert. Otherwise it yields the first position of each name; the two positions differ. |
| `Jobs.RowItem` | frontend/script.js:157-170 | A row yields an item exactly when it has more cells than the larger column index. The item's request and workshop addresses are trimmed. |
| `Jobs.JobItemsSnoc` | frontend/script.js:156-171 | One more line appends its item to the queue items, or leaves them unchanged when the line is too short. |
| `Jobs.JobItems` | frontend/script.js:156-171 | The items the upload loop pushes: at most one item per data line. |
| `Jobs.JobItemsPrefix` | frontend/script.js:156-171 | The items of the first lines are a prefix of the items of all lines. |
| `Jobs.JobItemOfRow` | frontend/script.js:156-171 | Every long enough row's item is in the queue, placed after the items of the rows before it (file order). |
| `Jobs.JobItemSource` | frontend/script.js:156-171 | Every queued item is the item of some data line, so nothing else is queued. |
| `Jobs.BlankLineSkipped` | frontend/script.js:157-158 | A blank line, such as the one after a final newline, queues nothing. |
| `Jobs.HeatColumn` | frontend/script.js:302-309 | The heatmap header check fails exactly when `request_location` is missing, raising its own alert. Otherwise it yields the column's first position, as `RouteColumns` does. |
| `Jobs.HeatAddressSuffixed` | frontend/script.js:314-318 | Every collected heatmap address is a trimmed cell followed by the locality suffix. |
| `Jobs.HeatAddress` | frontend/script.js:314-318 | A line yields an address exactly when it reaches the `request_location` column. |
| `Jobs.HeatAddresses` | frontend/script.js:311-319 | The heatmap list has at most one address per data line. |
| `Jobs.HeatAddressesShape` | frontend/script.js:311-319 | Every address in the heatmap list is a trimmed cell followed by the suffix. |
| `Jobs.FirstColumnKeepsEveryLine` | frontend/script.js:313-319 | With `request_location` as the first column, every line yields an address. |
| `Jobs.BlankLineGeocodesSuffix` | frontend/script.js:313-319 | With `request_location` first, a trailing blank line adds the bare suffix `", Istanbul, Turkey"` to the geocoding list. |
| `Jobs.HeatAddressesSnoc` | frontend/script.js:313-319 | One more line appends its address, or nothing when it does not reach the column. |
| `Jobs.CollectHeatAddresses` | frontend/script.js:301-321 | The loop returns the error exactly when the column is missing, and otherwise exactly the specified address list for the data lines. |
| `Pipeline.Settle` | frontend/script.js:186-256 | An item is located exactly when all three geocodes resolve. It fails exactly when any one is rejected, and waits otherwise. |
| `Pipeline.Step` | frontend/script.js:184-256 | One invocation's first three calls are the item's three geocodes. Every later call is a route call, one per route request. It requests routes only when it goes on to the next item. |
| `Pipeline.Run` | frontend/script.js:178-257 | The drain never shifts more items than the queue holds. It shifts all of them when it reaches the completion alert, and requests at most two routes per shifted item. |
| `Pipeline.StepGeocodes` | frontend/script.js:186-190 | One step geocodes exactly the home, request and workshop addresses, suffixed and in that order. |
| `Pipeline.RunDequeues` | frontend/script.js:178-257 | The drain consumes the queue from the head. It reaches the completion alert exactly when no item stalls, and then has shifted every item. Otherwise it stops right after the first stalled item. |
| `Pipeline.RunGeocodesInOrder` | frontend/script.js:184-190 | The geocoded addresses are exactly the three addresses of each shifted item, in queue order. |
| `Pipeline.RunLaunchesTwoPerLocated` | frontend/script.js:190-252 | Exactly two route requests are issued per item whose three geocodes resolve, and none for any other item. |
| `Pipeline.FailedItemIsSkipped` | frontend/script.js:253-256 | A rejected geocode drops only its item: its three geocode calls are made, no route is requested, and the drain continues as if started at the next item. |
| `Heat.ValidCoords` | frontend/script.js:332 | The filter never lengthens the list. |
| `Heat.ValidCoordsAppend` | frontend/script.js:331-332 | The null filter distributes over concatenation, so the surviving points keep the input order. |
| `Heat.ValidCoordsCount` | frontend/script.js:332 | Points kept plus nulls dropped equal the input length. A point is kept exactly when it was a geocoding result. |
| `Heat.HeatPoints` | frontend/script.js:325-332 | `Promise.all` hands on nothing exactly when some geocode is still pending. Otherwise it hands on at most one point per address. |
| `Heat.HeatPointsContents` | frontend/script.js:325-332 | Once nothing is pending, the layer receives exactly one point per resolved geocode. A coordinate is among the points exactly when some geocode resolved to it. |
| `Heat.HeatPointsAppend` | frontend/script.js:325-332 | The points of two batches geocoded together are the first batch's points followed by the second's, so address order is kept. |
| `Heat.TwoOfFiveFail` | frontend/script.js:325-332 | Five addresses of which two fail leave the other three points, in order. |
| `Heat.ShowHeatAsWritten` | frontend/script.js:334-343 | As written, the refresh throws a ReferenceError exactly when `heatmapLayer` is not among the declared names. Where it is declared, the refresh shows exactly the given points. |
| `Heat.ShowHeat` | frontend/script.js:334-343 | The intended refresh shows exactly the given points. It keeps an existing layer's identity and creates a layer only when none exists. |
| `Heat.HeatLayerNeverShown` | frontend/script.js:334-343 | With the names the script declares (its variables at lines 2-4 and its functions), the refresh fails for every point list. The intended refresh would show exactly those points. |
| `Heat.RefreshKeepsOneLayer` | frontend/script.js:334-343 | A second refresh reuses the first layer and shows only the latest points. |
| `Session.OwnedAddRoute` | frontend/script.js:205-249 | Drawing a route's line and end placemark adds two objects new to the map and keeps the ownership invariant. |
| `Session.OwnedRemoveMarker` | frontend/script.js:96-99 | Removing a row's marker takes exactly that object out of the marker set and keeps the ownership invariant. |
| `Session.OwnedAddMarker` | frontend/script.js:116-117 | A fresh marker for a row without one adds exactly that object, which is new to the map, and keeps the ownership invariant. |
| `Session.GeocodeEachGeocoded` | frontend/script.js:325-329 | The heatmap geocodes exactly the collected addresses, each once and in list order. |
| `Session.OnChangeAddressAsWritten` | frontend/script.js:58-90 | As written, a change of any of the row's controls geocodes its trimmed value with the suffix, unless the value is blank. Which control changed plays no part. |
| `Session.OnChangeAddress` | frontend/script.js:79-90 | The intended handler geocodes something exactly when the address input changed to a non-blank value, and then the same address as the script. |
| `Session.ShiftChangeGeocodesShift` | frontend/script.js:58-90 | As written, switching a row's shift to "Evening" geocodes "Evening" with the suffix. The intended handler geocodes nothing. |
| `Session.ClearTableAsWritten` | frontend/script.js:128 | As written, clearing the table discards every row marker, while every marker that was on the map stays there. |
| `Session.ReloadOrphansMarkers` | frontend/script.js:126-128 | After the table is cleared as written, a row's marker stays on the map and is owned by no row and not by the bucket, so ownership is lost. |
| `Session.OwnedClearMarkers` | frontend/script.js:126-128 | Taking every row marker off the map before discarding the rows leaves exactly the bucket on the map and keeps ownership. |
| `Session.MapSession.constructor` | frontend/script.js:2-4 | The page starts with no map, an empty queue and an empty bucket, nothing drawn, no route budget, and the invariant established. |
| `Session.MapSession.InitMap` | frontend/script.js:29-36 | Opening the map tab leaves a map in place and keeps the invariant. |
| `Session.MapSession.LoadSavedDrivers` | frontend/script.js:126-137 | The corrected dashboard reload takes every row marker off the map, leaves only the bucket drawn and fetches the roster again. |
| `Session.MapSession.EnqueueRows` | frontend/script.js:156-171 | The upload loop appends exactly the specified items of the data rows, in file order, to the queue. |
| `Session.MapSession.Drain` | frontend/script.js:178-257 | The drain leaves the queue, call log, in-flight routes and alerts exactly as the specification `Run` says. It raises the route budget by the routes requested and keeps the invariant. |
| `Session.MapSession.DrainQueue` | frontend/script.js:178-256 | The recursion as a loop leaves the queue, call log, in-flight routes and route budget as `Run` says, and reports whether the empty queue was reached. |
| `Session.MapSession.ProcessNext` | frontend/script.js:184-256 | One invocation changes the state exactly as `Step` on the head item says and reports whether the drain recurses. |
| `Session.MapSession.Upload` | frontend/script.js:140-175 | Three cases. A header without both columns raises the alert and changes nothing else. A failed roster fetch leaves an empty queue. Otherwise the upload's own items are drained as `Run` specifies. |
| `Session.MapSession.OnRoster` | frontend/script.js:155-174 | The roster callback queues the rows after the current queue and drains the whole queue as `Run` specifies. |
| `Session.MapSession.SettleRoute` | frontend/script.js:193-250 | A computed route adds two new objects to both the map and the bucket, using two fresh identities. Without a map, or when routing fails, nothing is drawn. The invariant holds either way. |
| `Session.MapSession.UpdateRowMarker` | frontend/script.js:79-95 | Without a map, or when the change is not a non-blank address, nothing changes. Otherwise the behaviour is that of `PlaceRowMarker`. |
| `Session.MapSession.PlaceRowMarker` | frontend/script.js:94-122 | The row's old marker leaves the map before the suffixed address is geocoded. On success exactly one new marker is drawn and owned by the row, using one fresh identity; otherwise the row has no marker. |
| `Session.MapSession.ClearPlotted` | frontend/script.js:281-283 | Every bucket object leaves the map before the bucket is emptied, so the map then holds only row markers. The route budget drops to the routes still in flight. |
| `Session.MapSession.OpenHeatmap` | frontend/script.js:281-321 | The bucket is always cleared, and the route budget drops to the routes still in flight. A missing file or column raises its alert without geocoding. Otherwise every collected address is geocoded and the heat layer shows the surviving points. |
| `Session.MapSession.CreateHeatmap` | frontend/script.js:324-346 | Every address is geocoded once, in order. The layer shows the filtered points once no geocode is pending, and is unchanged while one is. A fresh identity is used only when points are shown. |

The class invariant `Session.MapSession.Valid` holds before and after every
method. It states that:

- every object on the map belongs either to the batch bucket or to exactly
  one roster row, never to both;
- no object on the map is unowned, and nothing is drawn before the map
  exists;
- the bucket never holds more than two objects per route request that could
  have filled it. The route budget counts those requests: it starts at 0,
  grows by two per located item in `ProcessNext`, `DrainQueue`, `Drain`,
  `OnRoster` and `Upload`, and is reset by `ClearPlotted` to the requests
  still in flight.
  Since the last clear, the bucket therefore holds at most four objects per
  located item, plus two per request that was in flight at that clear.

## Left out

- The DOM and the rest of the user interface are not modelled:
  - tab switching and the login check;
  - the roster table's rows and cells (`addRowToTable`) and the balloon HTML;
  - the assignments view (`fetchAssignments`).
- The network is not modelled: geocoding, routing and the trucks endpoint
  are parameters. The geocoder is a function, so the same address always
  settles the same way within one operation.
- Time is not modelled. The roster callback runs as soon as the upload
  returns. Route callbacks are kept in flight and settled one at a time, in
  any order, by `SettleRoute`, but only between the other operations, not
  inside a drain. `setTimeout` in `addRowToTable` is not modelled.
- `Session.MapSession.Drain` and `Session.MapSession.Upload` promise the
  completion alert exactly once only for uploads that do not overlap. Each
  drain runs to its end, or to a geocode that never settles, before any
  other operation. In the script, `geocodingQueue` is one global array. A
  second upload while an earlier drain still awaits its `Promise.all`
  resets the queue (line 151) and starts a second chain (line 173). The
  earlier chain's callback (line 252 or 255) then shifts from the new
  queue. That chain can raise "All jobs plotted" before the roster callback
  has queued the new rows, and the second chain raises the alert again.
- Two overlapping geocodes for the same roster row are not modelled. One
  call of `UpdateRowMarker` is one whole edit, so the race is out of scope.
- Distances, travel times and their formatting (`toFixed`, `Math.round`),
  `setBounds` and the heat layer's display options have no effect on the
  modelled state. They are left out.
- Strings are sequences of code points; JavaScript strings are UTF-16 code
  units. This makes no difference to trimming, splitting on ASCII separators
  or string comparison.
- The script clears the batch bucket only when the heatmap tab opens (lines
  281-283), not before a route upload, so a second route upload adds to the
  bucket.
- `Jobs.FirstColumnKeepsEveryLine` states only the number of addresses.
  Which address each line yields is stated per line by
  `Jobs.HeatAddressesSnoc` and `Jobs.BlankLineGeocodesSuffix`.
- `Session.MapSession.OpenHeatmap` and `Session.MapSession.CreateHeatmap`
  model the corrected refresh `Heat.ShowHeat`. As written, the script throws
  at line 334 and never sets a heat layer (first finding below).
- `Session.MapSession.LoadSavedDrivers` models the corrected table clear.
  As written, each reload of the dashboard (lines 126-128) leaves the old
  row markers on the map and owned by nobody (second finding below). The
  invariant of one marker per row holds in the script only within one table
  load.
- `Session.MapSession.UpdateRowMarker` models the corrected change
  handler `Session.OnChangeAddress`. As written, a change of the shift or
  status select also moves the row's marker (third finding below).
- `index.html` is not part of this model. The first finding assumes no page
  element has the id `heatmapLayer`. Such an element would make the read
  succeed, and the following `setPoints` call would throw instead.

## Findings

| source | as written | input that shows it | evidently intended | confidence | as-written member | corrected member |
|---|---|---|---|---|---|---|
| frontend/script.js:334 | `createHeatmap` reads `heatmapLayer`, which is declared and assigned nowhere in the script. The read throws a ReferenceError inside the `Promise.all` callback, so no heat layer is ever created or updated. | Opening the heatmap tab with any uploaded CSV that has a `request_location` column, once every geocode has settled. | A script-level `heatmapLayer` that is initially empty: the first refresh creates the layer and later refreshes replace its points. | high, not executed | `Heat.ShowHeatAsWritten` (with `Heat.HeatLayerNeverShown`) | `Heat.ShowHeat` |
| frontend/script.js:128 | `loadSavedDrivers` empties the roster table with `table.innerHTML = ""`. Every row's `marker` goes with its row, but nothing removes the markers from `map.geoObjects`. The rebuilt rows start with `marker = null` (line 40), and their delayed address update (lines 71-76) draws a new marker for each of them, so every reload leaves one more copy of each marker on the map. | The map is open and one roster row has a marker; the user opens the dashboard tab again. | Each row's marker is removed from the map before the table is emptied, as `updateMapWithAddress` does for a single row (lines 96-99). | medium, not executed | `Session.ClearTableAsWritten` (with `Session.ReloadOrphansMarkers`) | `Session.MapSession.LoadSavedDrivers` (with `Session.OwnedClearMarkers`) |
| frontend/script.js:85 | The shift and status selects call `updateMapWithAddress(this)` (line 58), and the handler takes the changed control as the address input (line 85). A change of either select therefore removes the row's marker and geocodes the selected option with the locality suffix (lines 90-117). | The map is open and a row has a marker; the user switches its shift to "Evening". The row's marker is replaced by one at the geocode of "Evening, Istanbul, Turkey", or removed if that fails. | Only a change of the address input moves the row's marker; the other controls leave it alone. | medium, not executed | `Session.OnChangeAddressAsWritten` (with `Session.ShiftChangeGeocodesShift`) | `Session.OnChangeAddress` (used by `Session.MapSession.UpdateRowMarker`) |
