/** The cached tables and the state-changing handlers of the stop resource
    (main.py:78-250). The two tables are maps keyed by their primary keys,
    each with the scan order in which a query without `ORDER BY` returns its
    rows; fetches from the transport data source arrive as parameters. */
module Store {
  import opened Seqs
  import opened Records
  import opened Reconcile
  import opened Detail
  import opened Patch
  import Guide
  import Operators

  /** The outcome of the stop search: a transport failure, or the fetched
      locations with the response's date. */
  datatype StopFetch = StopFetchFailed | StopsFetched(batch: seq<FetchedStop>, ts: string)

  /** The outcome of the departure board request for one stop. */
  datatype DepartureFetch = DepartureFetchFailed | DeparturesFetched(batch: seq<FetchedDeparture>, ts: string)

  datatype PutReply = StopsCreated(entries: seq<CreatedEntry>) | StopsRefreshed | PutUnavailable
  {
    function Code(): int
    {
      match this
      case StopsCreated(_) => 201
      case StopsRefreshed => 200
      case PutUnavailable => 503
    }
  }

  datatype InfoReply = UnknownStop | InvalidQuery | InfoUnavailable | NoDeparture | StopInfo(view: StopView)
  {
    function Code(): int
    {
      match this
      case UnknownStop => 400
      case InvalidQuery => 400
      case InfoUnavailable => 503
      case NoDeparture => 404
      case StopInfo(_) => 200
    }
  }

  datatype DeleteReply = DeleteNotFound(stopId: string) | Deleted(stopId: string)
  {
    function Code(): int
    {
      if DeleteNotFound? then 404 else 200
    }
  }

  /** A patch that renames the stop onto a stored id fails at commit. */
  datatype PatchReply = PatchNotFound | PatchConflict | PatchedStop(stopId: string, lastUpdated: string, selfHref: string)
  {
    function Code(): int
    {
      match this
      case PatchNotFound => 400
      case PatchConflict => 500
      case PatchedStop(_, _, _) => 200
    }
  }

  class RecordStore {
    /** The host name the self links embed. */
    const host: string
    var stops: map<string, Stop>
    var stopOrder: seq<string>
    var departures: map<string, Departure>
    var departureOrder: seq<string>

    /** Rows are stored under their own keys; each scan order lists every
        key of its table once. */
    ghost predicate Valid()
      reads this
    {
      && StopsKeyed(stops) && ScanOrder(stopOrder, stops.Keys)
      && DeparturesKeyed(departures) && ScanOrder(departureOrder, departures.Keys)
    }

    /** Both tables start empty. */
    constructor (host: string)
      ensures Valid()
      ensures this.host == host
      ensures stops == map[] && stopOrder == [] && departures == map[] && departureOrder == []
    {
      this.host := host;
      stops := map[];
      stopOrder := [];
      departures := map[];
      departureOrder := [];
    }

    /** PUT /stops (main.py:80-128): every fetched location is created or
        refreshed in fetch order; the reply lists the created stops only when
        none of the fetched ids was already stored. */
    method PutStops(fetch: StopFetch) returns (reply: PutReply)
      requires Valid()
      modifies this
      ensures Valid()
      ensures departures == old(departures) && departureOrder == old(departureOrder)
      ensures fetch.StopFetchFailed? ==> reply == PutUnavailable && stops == old(stops) && stopOrder == old(stopOrder)
      ensures fetch.StopsFetched? ==>
        var r := Upsert(UpsertState(old(stops), old(stopOrder), [], false), fetch.batch, fetch.ts, host);
        && stops == r.stops && stopOrder == r.order
        && reply == (if r.existed then StopsRefreshed else StopsCreated(r.created))
      ensures fetch.StopsFetched? ==>
        && (reply.StopsCreated? <==> NewAndDistinct(old(stops), fetch.batch))
        && (reply.StopsCreated? ==> reply.entries == Entries(fetch.batch, fetch.ts, host))
    {
      if fetch.StopFetchFailed? {
        return PutUnavailable;
      }
      var batch, ts := fetch.batch, fetch.ts;
      ghost var s0 := UpsertState(stops, stopOrder, [], false);
      var created: seq<CreatedEntry> := [];
      var existed := false;
      for i := 0 to |batch|
        invariant UpsertState(stops, stopOrder, created, existed) == Upsert(s0, batch[..i], ts, host)
        invariant departures == old(departures) && departureOrder == old(departureOrder)
      {
        var f := batch[i];
        if f.id in stops {
          existed := true;
          stops := stops[f.id := Refresh(stops[f.id], f, ts)];
        } else {
          stops := stops[f.id := Fresh(f, ts, host)];
          stopOrder := stopOrder + [f.id];
          created := created + [CreatedEntry(f.id, ts, SelfLink(host, f.id))];
        }
        assert batch[..i + 1][..i] == batch[..i];
      }
      assert batch[..|batch|] == batch;
      UpsertKeepsTable(s0, batch, ts, host);
      UpsertReport(s0, batch, ts, host);
      reply := if existed then StopsRefreshed else StopsCreated(created);
    }

    /** The departure loop of main.py:164-174: each fetched departure whose
        trip is not stored and whose platform is truthy is inserted. */
    method StoreDepartures(batch: seq<FetchedDeparture>, ts: string)
      requires Valid()
      modifies this
      ensures Valid()
      ensures stops == old(stops) && stopOrder == old(stopOrder)
      ensures DepartureTable(departures, departureOrder)
        == InsertAll(DepartureTable(old(departures), old(departureOrder)), batch, ts)
    {
      ghost var t0 := DepartureTable(departures, departureOrder);
      for i := 0 to |batch|
        invariant DepartureTable(departures, departureOrder) == InsertAll(t0, batch[..i], ts)
        invariant stops == old(stops) && stopOrder == old(stopOrder)
      {
        var f := batch[i];
        if f.tripId !in departures && Truthy(f.platform) {
          departures := departures[f.tripId := ToDeparture(f, ts)];
          departureOrder := departureOrder + [f.tripId];
        }
        assert batch[..i + 1][..i] == batch[..i];
      }
      assert batch[..|batch|] == batch;
      InsertKeepsTable(t0, batch, ts);
    }

    /** GET /stops/{id} (main.py:133-199). An unknown id is rejected first,
        then an invalid `include`, then a failed fetch; otherwise the fetched
        departures are stored, an empty departure table gives 404, and the
        view is built from the stop and the first departure row. */
    method GetStopInfo(stopId: string, arg: Option<string>, fetch: DepartureFetch) returns (reply: InfoReply)
      requires Valid()
      modifies this
      ensures Valid()
      ensures stops == old(stops) && stopOrder == old(stopOrder)
      ensures stopId !in stops ==> reply == UnknownStop
      ensures stopId in stops && ParseInclude(arg).None? ==> reply == InvalidQuery
      ensures stopId in stops && ParseInclude(arg).Some? && fetch.DepartureFetchFailed? ==> reply == InfoUnavailable
      ensures !fetch.DeparturesFetched? || stopId !in stops || ParseInclude(arg).None? ==>
        departures == old(departures) && departureOrder == old(departureOrder)
      ensures fetch.DeparturesFetched? && stopId in stops && ParseInclude(arg).Some? ==>
        && DepartureTable(departures, departureOrder)
             == InsertAll(DepartureTable(old(departures), old(departureOrder)), fetch.batch, fetch.ts)
        && (departureOrder == [] ==> reply == NoDeparture)
        && (departureOrder != [] ==>
              reply == StopInfo(DetailView(stops, stopOrder, departures[departureOrder[0]], stopId, ParseInclude(arg).value)))
      ensures reply.StopInfo? ==> reply.view.stopId == stopId
    {
      if stopId !in stops {
        return UnknownStop;
      }
      var fields := ParseInclude(arg);
      if fields.None? {
        return InvalidQuery;
      }
      if fetch.DepartureFetchFailed? {
        return InfoUnavailable;
      }
      StoreDepartures(fetch.batch, fetch.ts);
      if departureOrder == [] {
        return NoDeparture;
      }
      var first := departures[departureOrder[0]];
      reply := StopInfo(DetailView(stops, stopOrder, first, stopId, fields.value));
    }

    /** DELETE /stops/{id} (main.py:201-218): the stop row goes; departures
        recorded for it stay. */
    method DeleteStop(stopId: string) returns (reply: DeleteReply)
      requires Valid()
      modifies this
      ensures Valid()
      ensures departures == old(departures) && departureOrder == old(departureOrder)
      ensures stopId !in old(stops) ==>
        reply == DeleteNotFound(stopId) && stops == old(stops) && stopOrder == old(stopOrder)
      ensures stopId in old(stops) ==>
        reply == Deleted(stopId) && stops == old(stops) - {stopId} && stopOrder == Without(old(stopOrder), stopId)
      ensures stopId !in stops
    {
      if stopId !in stops {
        return DeleteNotFound(stopId);
      }
      WithoutDistinct(stopOrder, stopId);
      stops := stops - {stopId};
      stopOrder := Without(stopOrder, stopId);
      reply := Deleted(stopId);
    }

    /** PATCH /stops/{id} (main.py:226-250): the body's keys are assigned in
        order, `last_updated` becomes `now`, and a changed `stop_id` moves the
        row to its new key, in place in the scan order. */
    method PatchStop(stopId: string, body: seq<(string, string)>, now: string) returns (reply: PatchReply)
      requires Valid()
      modifies this
      ensures Valid()
      ensures departures == old(departures) && departureOrder == old(departureOrder)
      ensures stopId !in old(stops) ==> reply == PatchNotFound && stops == old(stops) && stopOrder == old(stopOrder)
      ensures stopId in old(stops) ==>
        var p := Patched(old(stops)[stopId], body, now);
        if p.stopId != stopId && p.stopId in old(stops) then
          reply == PatchConflict && stops == old(stops) && stopOrder == old(stopOrder)
        else
          && stops == (old(stops) - {stopId})[p.stopId := p]
          && stopOrder == Replace(old(stopOrder), stopId, p.stopId)
          && reply == PatchedStop(p.stopId, now, p.links)
    {
      if stopId !in stops {
        return PatchNotFound;
      }
      var p := Patched(stops[stopId], body, now);
      PatchedColumns(stops[stopId], body, now);
      if p.stopId != stopId && p.stopId in stops {
        return PatchConflict;
      }
      ReplaceScanOrder(stopOrder, stops.Keys, stopId, p.stopId);
      assert ((stops - {stopId})[p.stopId := p]).Keys == stops.Keys - {stopId} + {p.stopId};
      stops := (stops - {stopId})[p.stopId := p];
      stopOrder := Replace(stopOrder, stopId, p.stopId);
      reply := PatchedStop(p.stopId, now, p.links);
    }

    /** GET /guide (main.py:276-318) over the stored ids in scan order; the
        400 for fewer than two stops is the stop count's. */
    method TourismGuide(route: (string, string) -> Guide.RouteReply, describe: string -> string,
                        render: Guide.TopResult -> string)
      returns (reply: Guide.GuideReply, tried: seq<(string, string)>)
      requires Valid()
      ensures Guide.SearchOutcome(stopOrder, route, describe, render, reply, tried)
      ensures reply.TooFewStops? <==> |stops| < 2
    {
      ScanOrderCard(stopOrder, stops.Keys);
      reply, tried := Guide.GuideSearch(stopOrder, route, describe, render);
    }

    /** GET /operator-profiles/{id} (main.py:254-272): the operators are
        taken from the whole departure table in scan order. */
    method OperatorProfiles(stopId: string, describe: string -> string) returns (reply: Operators.OperatorReply)
      requires Valid()
      ensures Operators.ProfilesOutcome(stopId, stops, OperatorColumn(departures, departureOrder), describe, reply)
    {
      reply := Operators.OperatorInfo(stopId, stops, OperatorColumn(departures, departureOrder), describe);
    }
  }

  /** The operator column of the departure table in scan order, the input
      of the distinct-operator query of main.py:258. */
  function OperatorColumn(departures: map<string, Departure>, order: seq<string>): (ops: seq<string>)
    requires forall k :: k in order ==> k in departures
    ensures |ops| == |order|
    ensures forall i :: 0 <= i < |order| ==> ops[i] == departures[order[i]].operator
    ensures forall x :: x in ops <==> exists k :: k in order && departures[k].operator == x
  {
    if order == [] then []
    else
      var rest := OperatorColumn(departures, order[1..]);
      assert forall k :: k in order <==> k == order[0] || k in order[1..];
      [departures[order[0]].operator] + rest
  }
}
