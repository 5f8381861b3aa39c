/** Turning uploaded CSV text into work: the route upload's header check,
    the driver lookup and one queue item per usable row (`parseAndPlotCSV`),
    and the heatmap upload's list of geocodable addresses
    (`parseCSVForHeatmap`). */
module Jobs {
  import opened Wrappers
  import opened Text
  import opened Geo
  import opened Collections

  /** One roster tuple `[plate, name, phone, address, shift, status]` as
      returned by the trucks endpoint. */
  datatype Driver = Driver(plate: string, name: string, phone: string,
                           address: string, shift: string, status: string)

  /** One entry of the geocoding queue: raw, unresolved addresses. */
  datatype QueueItem = QueueItem(home: string, request: string, workshop: string)

  /** The alerts the upload and drain paths show. */
  datatype Notice = MissingRouteColumns | MissingRequestColumn | NoFileUploaded | AllJobsPlotted

  /** Header positions of `request_location` and `workshop_location`. */
  datatype Columns = Columns(request: nat, workshop: nat)

  function Max(a: nat, b: nat): nat {
    if a < b then b else a
  }

  /** Position of the first roster entry named `name`, or -1. */
  function DriverIndex(drivers: seq<Driver>, name: string): (r: int)
    ensures -1 <= r < |drivers|
    ensures r == -1 <==> forall k | 0 <= k < |drivers| :: drivers[k].name != name
    ensures r >= 0 ==> drivers[r].name == name && forall j | 0 <= j < r :: drivers[j].name != name
  {
    if drivers == [] then -1
    else if drivers[0].name == name then 0
    else
      var k := DriverIndex(drivers[1..], name);
      if k == -1 then -1 else k + 1
  }

  /** `drivers.find(d => d[1] === name)`: the first roster entry with that
      name, or none when no entry has it. */
  function FindDriver(drivers: seq<Driver>, name: string): (r: Option<Driver>)
    ensures r.None? <==> forall k | 0 <= k < |drivers| :: drivers[k].name != name
    ensures r.Some? ==> exists k | 0 <= k < |drivers| :: drivers[k] == r.value && r.value.name == name
                                  && forall j | 0 <= j < k :: drivers[j].name != name
  {
    var k := DriverIndex(drivers, name);
    if k == -1 then None else Some(drivers[k])
  }

  /** The home address of a job row: the address of the first roster entry
      whose name equals the untrimmed driver cell exactly, and otherwise the
      cell itself. */
  function HomeAddress(drivers: seq<Driver>, cell: string): (r: string)
    ensures (forall k | 0 <= k < |drivers| :: drivers[k].name != cell) ==> r == cell
    ensures forall k | 0 <= k < |drivers| && drivers[k].name == cell
                       && (forall j | 0 <= j < k :: drivers[j].name != cell) :: r == drivers[k].address
  {
    match FindDriver(drivers, cell)
    case Some(d) => d.address
    case None => cell
  }

  /** The header row of an upload, split on commas: the cells of the first
      line, which join back to that line. */
  function Header(text: string): (r: seq<string>)
    ensures |r| >= 1 && Join(r, ',') == SplitLines(text)[0]
  {
    JoinSplit(SplitLines(text)[0], ',');
    Split(SplitLines(text)[0], ',')
  }

  /** The route upload's header check: both columns must be present. */
  function RouteColumns(text: string): (r: Result<Columns, Notice>)
    ensures r.Err? <==> "request_location" !in Header(text) || "workshop_location" !in Header(text)
    ensures r.Err? ==> r.error == MissingRouteColumns
    ensures r.Ok? ==>
      var h, c := Header(text), r.value;
      c.request != c.workshop && c.request < |h| && c.workshop < |h|
      && h[c.request] == "request_location" && "request_location" !in h[..c.request]
      && h[c.workshop] == "workshop_location" && "workshop_location" !in h[..c.workshop]
  {
    var h := Header(text);
    var ri := IndexOf(h, "request_location");
    var wi := IndexOf(h, "workshop_location");
    if ri == -1 || wi == -1 then Err(MissingRouteColumns) else Ok(Columns(ri, wi))
  }

  /** The queue item one data line yields, if it has enough cells. Column 1
      exists whenever the line is long enough, because the two header
      positions differ and so their maximum is at least 1. */
  function RowItem(line: string, c: Columns, drivers: seq<Driver>): (r: Option<QueueItem>)
    requires c.request != c.workshop
    ensures r.Some? <==> |Split(line, ',')| > Max(c.request, c.workshop)
    ensures r.Some? ==> Trimmed(r.value.request) && Trimmed(r.value.workshop)
  {
    var cells := Split(line, ',');
    if |cells| <= Max(c.request, c.workshop) then None
    else Some(QueueItem(HomeAddress(drivers, cells[1]), Trim(cells[c.request]), Trim(cells[c.workshop])))
  }

  /** The items the upload loop pushes for `lines`, in order. */
  function JobItems(lines: seq<string>, c: Columns, drivers: seq<Driver>): (r: seq<QueueItem>)
    requires c.request != c.workshop
    ensures |r| <= |lines|
  {
    if lines == [] then []
    else
      var init := JobItems(lines[..|lines| - 1], c, drivers);
      match RowItem(lines[|lines| - 1], c, drivers)
      case None => init
      case Some(item) => init + [item]
  }

  lemma JobItemsSnoc(before: seq<string>, line: string, c: Columns, drivers: seq<Driver>)
    requires c.request != c.workshop
    ensures RowItem(line, c, drivers).None? ==> JobItems(before + [line], c, drivers) == JobItems(before, c, drivers)
    ensures RowItem(line, c, drivers).Some? ==>
      JobItems(before + [line], c, drivers) == JobItems(before, c, drivers) + [RowItem(line, c, drivers).value]
  {
    var lines := before + [line];
    PrefixOfSnoc(before, line);
    assert lines[|lines| - 1] == line;
  }

  /** The items of the first `m` lines come first, in the same order. */
  lemma {:induction false} JobItemsPrefix(lines: seq<string>, m: nat, c: Columns, drivers: seq<Driver>)
    requires c.request != c.workshop
    requires m <= |lines|
    ensures JobItems(lines[..m], c, drivers) <= JobItems(lines, c, drivers)
  {
    if m < |lines| {
      var init := lines[..|lines| - 1];
      JobItemsPrefix(init, m, c, drivers);
      assert init[..m] == lines[..m];
    } else {
      assert lines[..m] == lines;
    }
  }

  /** Every line with enough cells yields its item, at the position given by
      the number of items before it: file order is kept. */
  lemma JobItemOfRow(lines: seq<string>, j: nat, c: Columns, drivers: seq<Driver>)
    requires c.request != c.workshop
    requires j < |lines| && RowItem(lines[j], c, drivers).Some?
    ensures var n := |JobItems(lines[..j], c, drivers)|;
      n < |JobItems(lines, c, drivers)|
      && JobItems(lines, c, drivers)[n] == RowItem(lines[j], c, drivers).value
  {
    PrefixSnoc(lines, j);
    JobItemsSnoc(lines[..j], lines[j], c, drivers);
    JobItemsPrefix(lines, j + 1, c, drivers);
    SnocPrefixAt(JobItems(lines[..j], c, drivers), RowItem(lines[j], c, drivers).value, JobItems(lines, c, drivers));
  }

  /** Every queued item is the item of some data line: the queue holds
      nothing but this upload's rows. The line is returned as `j`. */
  lemma {:induction false} JobItemSource(lines: seq<string>, k: nat, c: Columns, drivers: seq<Driver>)
    returns (j: nat)
    requires c.request != c.workshop
    requires k < |JobItems(lines, c, drivers)|
    ensures j < |lines| && RowItem(lines[j], c, drivers) == Some(JobItems(lines, c, drivers)[k])
  {
    var init := lines[..|lines| - 1];
    var initItems := JobItems(init, c, drivers);
    var last := lines[|lines| - 1];
    if k < |initItems| {
      assert JobItems(lines, c, drivers)[k] == initItems[k];
      j := JobItemSource(init, k, c, drivers);
      assert lines[j] == init[j];
    } else {
      j := |lines| - 1;
    }
  }

  /** A blank line, such as the one after a final newline, yields nothing. */
  lemma BlankLineSkipped(c: Columns, drivers: seq<Driver>)
    requires c.request != c.workshop
    ensures RowItem("", c, drivers) == None
  {
  }

  /** The heatmap upload's header check: only `request_location` is needed. */
  function HeatColumn(text: string): (r: Result<nat, Notice>)
    ensures r.Err? <==> "request_location" !in Header(text)
    ensures r.Err? ==> r.error == MissingRequestColumn
    ensures r.Ok? ==> r.value < |Header(text)| && Header(text)[r.value] == "request_location"
                      && "request_location" !in Header(text)[..r.value]
  {
    var i := IndexOf(Header(text), "request_location");
    if i == -1 then Err(MissingRequestColumn) else Ok(i)
  }

  /** The geocodable address one data line yields for the heatmap. */
  function HeatAddress(line: string, ri: nat): (r: Option<string>)
    ensures r.Some? <==> |Split(line, ',')| > ri
  {
    var cells := Split(line, ',');
    if |cells| <= ri then None else Some(Geocodable(Trim(cells[ri])))
  }

  /** The addresses the heatmap loop collects for `lines`, in order. */
  function HeatAddresses(lines: seq<string>, ri: nat): (r: seq<string>)
    ensures |r| <= |lines|
  {
    if lines == [] then []
    else
      var init := HeatAddresses(lines[..|lines| - 1], ri);
      match HeatAddress(lines[|lines| - 1], ri)
      case None => init
      case Some(a) => init + [a]
  }

  /** A heatmap address is a trimmed cell followed by the locality suffix. */
  predicate Suffixed(a: string) {
    |a| >= |Suffix| && a[|a| - |Suffix|..] == Suffix && Trimmed(a[..|a| - |Suffix|])
  }

  lemma HeatAddressSuffixed(line: string, ri: nat)
    requires HeatAddress(line, ri).Some?
    ensures Suffixed(HeatAddress(line, ri).value)
  {
    var t := Trim(Split(line, ',')[ri]);
    assert HeatAddress(line, ri).value == t + Suffix;
    assert (t + Suffix)[..|t|] == t;
    assert (t + Suffix)[|t|..] == Suffix;
  }

  /** Every collected address is a trimmed cell followed by the locality
      suffix. */
  lemma {:induction false} HeatAddressesShape(lines: seq<string>, ri: nat)
    ensures forall k | 0 <= k < |HeatAddresses(lines, ri)| :: Suffixed(HeatAddresses(lines, ri)[k])
  {
    if lines != [] {
      var init := lines[..|lines| - 1];
      HeatAddressesShape(init, ri);
      var line := lines[|lines| - 1];
      if HeatAddress(line, ri).Some? {
        HeatAddressSuffixed(line, ri);
        assert HeatAddresses(lines, ri) == HeatAddresses(init, ri) + [HeatAddress(line, ri).value];
      } else {
        assert HeatAddresses(lines, ri) == HeatAddresses(init, ri);
      }
    }
  }

  /** With `request_location` as the first column every line, blank ones
      included, yields an address: a split always has a first cell. */
  lemma {:induction false} FirstColumnKeepsEveryLine(lines: seq<string>)
    ensures |HeatAddresses(lines, 0)| == |lines|
  {
    if lines != [] {
      FirstColumnKeepsEveryLine(lines[..|lines| - 1]);
      assert HeatAddress(lines[|lines| - 1], 0).Some?;
    }
  }

  /** A blank line, such as the one after a final newline, still yields an
      address when `request_location` is the first column: the bare locality
      suffix is geocoded. */
  lemma BlankLineGeocodesSuffix(before: seq<string>)
    ensures HeatAddresses(before + [""], 0) == HeatAddresses(before, 0) + [Suffix]
  {
    assert Split("", ',') == [""];
    assert Trim("") == "";
    assert Geocodable("") == Suffix;
    HeatAddressesSnoc(before, "", 0);
  }

  lemma HeatAddressesSnoc(before: seq<string>, line: string, ri: nat)
    ensures HeatAddress(line, ri).None? ==> HeatAddresses(before + [line], ri) == HeatAddresses(before, ri)
    ensures HeatAddress(line, ri).Some? ==>
      HeatAddresses(before + [line], ri) == HeatAddresses(before, ri) + [HeatAddress(line, ri).value]
  {
    var lines := before + [line];
    PrefixOfSnoc(before, line);
    assert lines[|lines| - 1] == line;
  }

  /** `parseCSVForHeatmap` up to its hand-over to `createHeatmap`: the
      header check, then one address per line that reaches the column. */
  method CollectHeatAddresses(text: string) returns (r: Result<seq<string>, Notice>)
    ensures r.Err? <==> "request_location" !in Header(text)
    ensures r.Err? ==> r.error == MissingRequestColumn
    ensures r.Ok? ==>
      HeatColumn(text).Ok? && r.value == HeatAddresses(SplitLines(text)[1..], HeatColumn(text).value)
  {
    var rows := SplitLines(text);
    var headers := Split(rows[0], ',');
    var ri := IndexOf(headers, "request_location");
    if ri == -1 {
      return Err(MissingRequestColumn);
    }
    assert headers == Header(text);
    var found := [];
    for i := 1 to |rows|
      invariant found == HeatAddresses(rows[1..i], ri)
    {
      var cells := Split(rows[i], ',');
      HeatAddressesSnoc(rows[1..i], rows[i], ri);
      SliceSnoc(rows, 1, i);
      if |cells| > ri {
        var address := Trim(cells[ri]) + Suffix;
        assert HeatAddress(rows[i], ri) == Some(address);
        found := found + [address];
      } else {
        assert HeatAddress(rows[i], ri) == None;
      }
    }
    SliceToEnd(rows, 1);
    return Ok(found);
  }
}
