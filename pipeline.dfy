/** The sequential route drain (`processNextGeocodePair`) as a specification:
    what one invocation does to a queue, given how each geocode settles.

    Per item the head is shifted off the queue, its three addresses are
    geocoded together and `Promise.all` decides: a rejection of any of the
    three drops the item and recurses from the `catch`; three coordinates
    launch two independent route requests and recurse at once, without
    waiting for the routes; a geocode that never settles leaves the drain
    waiting for ever. An empty queue raises the completion alert. */
module Pipeline {
  import opened Geo
  import opened Jobs
  import opened Collections

  /** The two legs drawn per item. */
  datatype Leg = HomeToJob | JobToWorkshop

  /** A route request that has been issued and whose callback has not run. */
  datatype RouteTask = RouteTask(from: Coord, to: Coord, leg: Leg)

  /** Calls made to the outside world, in the order they are issued. */
  datatype Call = FetchTrucks | Geocode(address: string) | Route(from: Coord, to: Coord)

  /** How `Promise.all` over the three geocodes of one item settles. */
  datatype Settled = Located(home: Coord, job: Coord, workshop: Coord) | Failed | Stalled

  /** The three geocode requests of one item, in the order they are issued. */
  function GeocodeCalls(item: QueueItem): seq<Call> {
    [Geocode(Geocodable(item.home)), Geocode(Geocodable(item.request)), Geocode(Geocodable(item.workshop))]
  }

  /** `Promise.all` over the three geocodes of `item`, all or nothing: the
      item is located only when all three addresses resolve, and it fails as
      soon as any one of them is rejected, whatever the others do; otherwise
      it waits. */
  function Settle(item: QueueItem, resolve: string -> GeoOutcome): (r: Settled)
    ensures var h, j, w := resolve(Geocodable(item.home)), resolve(Geocodable(item.request)),
                           resolve(Geocodable(item.workshop));
      && (r.Located? <==> h.Resolved? && j.Resolved? && w.Resolved?)
      && (r.Failed? <==> h.Rejected? || j.Rejected? || w.Rejected?)
      && (r.Stalled? <==> !h.Rejected? && !j.Rejected? && !w.Rejected? && (h.Pending? || j.Pending? || w.Pending?))
      && (r.Located? ==> r == Located(h.at, j.at, w.at))
  {
    var h, j, w := resolve(Geocodable(item.home)), resolve(Geocodable(item.request)), resolve(Geocodable(item.workshop));
    if h.Rejected? || j.Rejected? || w.Rejected? then Failed
    else if h.Pending? || j.Pending? || w.Pending? then Stalled
    else Located(h.at, j.at, w.at)
  }

  /** What a stretch of the drain did: how many items it shifted off, the
      calls it made, the route requests it left in flight, and whether it
      reached the empty queue (and so raised the completion alert). */
  datatype Trace = Trace(dequeued: nat, calls: seq<Call>, launched: seq<RouteTask>, finished: bool)

  /** One stretch followed by the next. */
  function Then(a: Trace, b: Trace): Trace {
    Trace(a.dequeued + b.dequeued, a.calls + b.calls, a.launched + b.launched, b.finished)
  }

  /** One call of `processNextGeocodePair` on a non-empty queue, without the
      recursion it ends in; `finished` says whether it recurses. */
  function Step(item: QueueItem, resolve: string -> GeoOutcome): (s: Trace)
    ensures |s.calls| == 3 + |s.launched|
    ensures s.calls[..3] == GeocodeCalls(item)
    ensures forall k | 3 <= k < |s.calls| :: s.calls[k].Route?
    ensures s.launched != [] ==> s.finished
  {
    match Settle(item, resolve)
    case Located(h, j, w) =>
      Trace(1, GeocodeCalls(item) + [Route(h, j), Route(j, w)],
            [RouteTask(h, j, HomeToJob), RouteTask(j, w, JobToWorkshop)], true)
    case Failed => Trace(1, GeocodeCalls(item), [], true)
    case Stalled => Trace(1, GeocodeCalls(item), [], false)
  }

  lemma StepShiftsOne(item: QueueItem, resolve: string -> GeoOutcome)
    ensures Step(item, resolve).dequeued == 1
  {
  }

  /** The whole drain started on `items`. */
  function Run(items: seq<QueueItem>, resolve: string -> GeoOutcome): (t: Trace)
    ensures t.dequeued <= |items|
    ensures t.finished ==> t.dequeued == |items|
    ensures |t.launched| <= 2 * t.dequeued
    decreases |items|
  {
    if items == [] then Trace(0, [], [], true)
    else
      var s := Step(items[0], resolve);
      if s.finished then Then(s, Run(items[1..], resolve)) else s
  }

  lemma ThenAssoc(a: Trace, b: Trace, c: Trace)
    ensures Then(Then(a, b), c) == Then(a, Then(b, c))
  {
    AppendAssoc(a.calls, b.calls, c.calls);
    AppendAssoc(a.launched, b.launched, c.launched);
  }

  lemma ThenDone(a: Trace, resolve: string -> GeoOutcome)
    ensures Then(a, Run([], resolve)) == a.(finished := true)
  {
    AppendEmpty(a.calls);
    AppendEmpty(a.launched);
  }

  /** The addresses of the geocode calls among `calls`, in order. */
  function Geocoded(calls: seq<Call>): seq<string> {
    if calls == [] then []
    else (if calls[0].Geocode? then [calls[0].address] else []) + Geocoded(calls[1..])
  }

  /** The three suffixed addresses of each item, item after item. */
  function Addresses(items: seq<QueueItem>): seq<string> {
    if items == [] then []
    else [Geocodable(items[0].home), Geocodable(items[0].request), Geocodable(items[0].workshop)]
         + Addresses(items[1..])
  }

  /** The number of items whose three geocodes all resolve. */
  function LocatedCount(items: seq<QueueItem>, resolve: string -> GeoOutcome): nat {
    if items == [] then 0
    else (if Settle(items[0], resolve).Located? then 1 else 0) + LocatedCount(items[1..], resolve)
  }

  lemma {:induction false} GeocodedAppend(a: seq<Call>, b: seq<Call>)
    ensures Geocoded(a + b) == Geocoded(a) + Geocoded(b)
  {
    if a == [] {
      EmptyAppend(b);
    } else {
      TailOfAppend(a, b);
      GeocodedAppend(a[1..], b);
      AppendAssoc(if a[0].Geocode? then [a[0].address] else [], Geocoded(a[1..]), Geocoded(b));
    }
  }

  /** One step geocodes exactly the item's three suffixed addresses. */
  lemma StepGeocodes(item: QueueItem, resolve: string -> GeoOutcome)
    ensures Geocoded(Step(item, resolve).calls)
         == [Geocodable(item.home), Geocodable(item.request), Geocodable(item.workshop)]
  {
    var g := GeocodeCalls(item);
    assert g[1..][1..][1..] == [];
    assert Geocoded(g[1..][1..]) == [Geocodable(item.workshop)];
    assert Geocoded(g) == [Geocodable(item.home), Geocodable(item.request), Geocodable(item.workshop)];
    var s := Step(item, resolve);
    if s.calls != g {
      var routes := s.calls[3..];
      assert s.calls == g + routes;
      assert routes[1..][1..] == [];
      assert Geocoded(routes) == [];
      GeocodedAppend(g, routes);
    }
  }

  /** The drain shifts items strictly from the head; it runs to the end of
      the queue (and then raises the completion alert) exactly when no item
      stalls, and otherwise stops right after the first stalled item. An
      empty queue completes at once. */
  lemma {:induction false} RunDequeues(items: seq<QueueItem>, resolve: string -> GeoOutcome)
    ensures Run(items, resolve).dequeued <= |items|
    ensures Run(items, resolve).finished <==> forall k | 0 <= k < |items| :: !Settle(items[k], resolve).Stalled?
    ensures Run(items, resolve).finished ==> Run(items, resolve).dequeued == |items|
    ensures !Run(items, resolve).finished ==>
      var n := Run(items, resolve).dequeued;
      0 < n && Settle(items[n - 1], resolve).Stalled?
      && forall k | 0 <= k < n - 1 :: !Settle(items[k], resolve).Stalled?
  {
    if items != [] {
      RunDequeues(items[1..], resolve);
      if !Settle(items[0], resolve).Stalled? {
        forall k | 1 <= k < |items| ensures items[k] == items[1..][k - 1] { }
      }
    }
  }

  /** Every item that is shifted off is geocoded exactly once, its three
      addresses in the order home, request, workshop, each with the suffix,
      and the items in queue order. */
  lemma {:induction false} RunGeocodesInOrder(items: seq<QueueItem>, resolve: string -> GeoOutcome)
    ensures Run(items, resolve).dequeued <= |items|
    ensures Geocoded(Run(items, resolve).calls) == Addresses(items[..Run(items, resolve).dequeued])
  {
    RunDequeues(items, resolve);
    if items != [] {
      var item, rest := items[0], items[1..];
      var s := Step(item, resolve);
      var n := Run(items, resolve).dequeued;
      StepGeocodes(item, resolve);
      if s.finished {
        RunGeocodesInOrder(rest, resolve);
        GeocodedAppend(s.calls, Run(rest, resolve).calls);
        TakeTail(items, n);
      } else {
        TakeTail(items, n);
      }
    }
  }

  /** Exactly two route requests are left in flight per item whose three
      geocodes all resolve; an item with a failed or stalled geocode
      requests no route at all. */
  lemma {:induction false} RunLaunchesTwoPerLocated(items: seq<QueueItem>, resolve: string -> GeoOutcome)
    ensures Run(items, resolve).dequeued <= |items|
    ensures |Run(items, resolve).launched| == 2 * LocatedCount(items[..Run(items, resolve).dequeued], resolve)
  {
    RunDequeues(items, resolve);
    if items != [] {
      var n := Run(items, resolve).dequeued;
      if Step(items[0], resolve).finished {
        RunLaunchesTwoPerLocated(items[1..], resolve);
        TakeTail(items, n);
      } else {
        TakeTail(items, n);
      }
    }
  }

  /** A rejected geocode anywhere in an item drops just that item: it makes
      its three geocode calls, requests no route, and the drain carries on
      with the next item exactly as if it had started there. */
  lemma FailedItemIsSkipped(item: QueueItem, rest: seq<QueueItem>, resolve: string -> GeoOutcome)
    requires resolve(Geocodable(item.request)).Rejected?
          || resolve(Geocodable(item.home)).Rejected? || resolve(Geocodable(item.workshop)).Rejected?
    ensures Run([item] + rest, resolve) == Then(Trace(1, GeocodeCalls(item), [], true), Run(rest, resolve))
  {
    TailOfAppend([item], rest);
  }
}
