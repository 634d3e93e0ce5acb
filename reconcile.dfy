/** Reconciliation of freshly fetched records with the cached tables
    (main.py:96-128 for stops, main.py:164-174 for departures), stated as
    folds over the fetched batch. The store's methods run these folds one
    record at a time; the lemmas here say what a whole batch does. */
module Reconcile {
  import opened Seqs
  import opened Records

  // ---------------------------------------------------------------------
  // Stops: upsert
  // ---------------------------------------------------------------------

  /** What the upsert reports for a stop it created. */
  datatype CreatedEntry = CreatedEntry(stopId: string, lastUpdated: string, selfHref: string)

  /** The stop table and its scan order while an upsert runs, the entries
      created so far and whether some fetched id was already stored. */
  datatype UpsertState = UpsertState(
    stops: map<string, Stop>,
    order: seq<string>,
    created: seq<CreatedEntry>,
    existed: bool)

  /** The row created for a stop seen for the first time. */
  function Fresh(f: FetchedStop, ts: string, host: string): Stop
  {
    Stop(f.id, f.name, f.latitude, f.longitude, ts, SelfLink(host, f.id))
  }

  /** A stored row refreshed from a fetched stop: the link is kept. */
  function Refresh(s: Stop, f: FetchedStop, ts: string): Stop
  {
    s.(name := f.name, latitude := f.latitude, longitude := f.longitude, lastUpdated := ts)
  }

  /** One iteration of the upsert loop. */
  function UpsertStep(s: UpsertState, f: FetchedStop, ts: string, host: string): UpsertState
  {
    if f.id in s.stops then
      s.(stops := s.stops[f.id := Refresh(s.stops[f.id], f, ts)], existed := true)
    else
      s.(stops := s.stops[f.id := Fresh(f, ts, host)],
         order := s.order + [f.id],
         created := s.created + [CreatedEntry(f.id, ts, SelfLink(host, f.id))])
  }

  /** The upsert loop over a whole batch, in batch order. */
  function Upsert(s: UpsertState, batch: seq<FetchedStop>, ts: string, host: string): UpsertState
    decreases |batch|
  {
    if batch == [] then s
    else
      var n := |batch| - 1;
      UpsertStep(Upsert(s, batch[..n], ts, host), batch[n], ts, host)
  }

  function Ids(batch: seq<FetchedStop>): set<string>
  {
    set f | f in batch :: f.id
  }

  predicate DistinctIds(batch: seq<FetchedStop>)
  {
    forall i, j :: 0 <= i < j < |batch| ==> batch[i].id != batch[j].id
  }

  /** Position of the last fetched stop with the given id. */
  function LastIndex(batch: seq<FetchedStop>, id: string): (i: nat)
    requires id in Ids(batch)
    ensures i < |batch| && batch[i].id == id
    ensures forall j :: i < j < |batch| ==> batch[j].id != id
  {
    var n := |batch| - 1;
    if batch[n].id == id then n
    else
      assert id in Ids(batch[..n]) by {
        var f :| f in batch && f.id == id;
        assert f != batch[n];
      }
      LastIndex(batch[..n], id)
  }

  /** The entries a batch of all-new, distinct stops reports. */
  function Entries(batch: seq<FetchedStop>, ts: string, host: string): (es: seq<CreatedEntry>)
    ensures |es| == |batch|
    ensures forall i :: 0 <= i < |batch| ==> es[i] == CreatedEntry(batch[i].id, ts, SelfLink(host, batch[i].id))
  {
    if batch == [] then []
    else
      var n := |batch| - 1;
      Entries(batch[..n], ts, host) + [CreatedEntry(batch[n].id, ts, SelfLink(host, batch[n].id))]
  }

  lemma IdsSnoc(batch: seq<FetchedStop>)
    requires batch != []
    ensures Ids(batch) == Ids(batch[..|batch| - 1]) + {batch[|batch| - 1].id}
  {
    var n := |batch| - 1;
    assert batch == batch[..n] + [batch[n]];
  }

  /** After the upsert, every fetched id is stored with the name and
      coordinates of its last occurrence in the batch and the batch
      timestamp; a stop that was already stored keeps its link, a new one
      gets the link template; stops outside the batch are unchanged. */
  lemma {:induction false} UpsertContents(s: UpsertState, batch: seq<FetchedStop>, ts: string, host: string)
    ensures var r := Upsert(s, batch, ts, host);
      && r.stops.Keys == s.stops.Keys + Ids(batch)
      && (forall k :: k in s.stops && k !in Ids(batch) ==> r.stops[k] == s.stops[k])
      && (forall k :: k in Ids(batch) ==>
            r.stops[k] == if k in s.stops then Refresh(s.stops[k], batch[LastIndex(batch, k)], ts)
                          else Fresh(batch[LastIndex(batch, k)], ts, host))
    decreases |batch|
  {
    if batch != [] {
      var n := |batch| - 1;
      var b, f := batch[..n], batch[n];
      UpsertContents(s, b, ts, host);
      IdsSnoc(batch);
      var r := Upsert(s, batch, ts, host);
      forall k | k in Ids(batch)
        ensures r.stops[k] == if k in s.stops then Refresh(s.stops[k], batch[LastIndex(batch, k)], ts)
                              else Fresh(batch[LastIndex(batch, k)], ts, host)
      {
        if k != f.id {
          assert k in Ids(b);
          assert LastIndex(batch, k) == LastIndex(b, k);
        }
      }
    }
  }

  /** The ids of the fetched stops that `keys` does not hold, in batch order,
      repeats included. */
  function NewIds(keys: set<string>, batch: seq<FetchedStop>): (ids: seq<string>)
    ensures forall x :: x in ids <==> x in Ids(batch) && x !in keys
    decreases |batch|
  {
    if batch == [] then []
    else
      var n := |batch| - 1;
      IdsSnoc(batch);
      NewIds(keys, batch[..n]) + (if batch[n].id in keys then [] else [batch[n].id])
  }

  /** The upsert appends the ids new to the table to the scan order, each
      once, in the order of their first occurrence in the batch. */
  lemma {:induction false} UpsertOrder(s: UpsertState, batch: seq<FetchedStop>, ts: string, host: string)
    ensures Upsert(s, batch, ts, host).order == s.order + Dedup(NewIds(s.stops.Keys, batch))
    decreases |batch|
  {
    if batch != [] {
      var n := |batch| - 1;
      var b, f := batch[..n], batch[n];
      var keys := s.stops.Keys;
      UpsertOrder(s, b, ts, host);
      UpsertKeys(s, b, ts, host);
      var r' := Upsert(s, b, ts, host);
      assert Upsert(s, batch, ts, host) == UpsertStep(r', f, ts, host);
      var old_ids := NewIds(keys, b);
      if f.id in keys {
        assert NewIds(keys, batch) == old_ids + [];
        assert old_ids + [] == old_ids;
      } else {
        assert NewIds(keys, batch) == old_ids + [f.id];
        DedupSnoc(old_ids, f.id);
        assert f.id in old_ids <==> f.id in r'.stops;
      }
    }
  }

  /** The stored ids after the upsert. */
  lemma {:induction false} UpsertKeys(s: UpsertState, batch: seq<FetchedStop>, ts: string, host: string)
    ensures Upsert(s, batch, ts, host).stops.Keys == s.stops.Keys + Ids(batch)
    decreases |batch|
  {
    if batch != [] {
      UpsertKeys(s, batch[..|batch| - 1], ts, host);
      IdsSnoc(batch);
    }
  }

  /** The upsert keeps the table keyed by stop id and its scan order
      duplicate-free and complete; existing rows keep their scan position
      and the new ids follow in the order they first occur in the batch. */
  lemma UpsertKeepsTable(s: UpsertState, batch: seq<FetchedStop>, ts: string, host: string)
    requires StopsKeyed(s.stops) && ScanOrder(s.order, s.stops.Keys)
    ensures var r := Upsert(s, batch, ts, host);
      && StopsKeyed(r.stops) && ScanOrder(r.order, r.stops.Keys)
      && r.order == s.order + Dedup(NewIds(s.stops.Keys, batch))
  {
    UpsertKeys(s, batch, ts, host);
    UpsertOrder(s, batch, ts, host);
    UpsertKeyed(s, batch, ts, host);
    ScanOrderAppend(s.order, s.stops.Keys, Ids(batch), Dedup(NewIds(s.stops.Keys, batch)));
  }

  /** Position of the first fetched stop with id `x`. */
  function FirstFetch(batch: seq<FetchedStop>, x: string): (i: nat)
    requires x in Ids(batch)
    ensures i < |batch| && batch[i].id == x
    ensures forall j :: 0 <= j < i ==> batch[j].id != x
  {
    if batch[0].id == x then 0
    else
      var k :| 0 <= k < |batch| && batch[k].id == x;
      assert batch[1..][k - 1] == batch[k];
      1 + FirstFetch(batch[1..], x)
  }

  lemma FirstFetchPrefix(batch: seq<FetchedStop>, n: nat, x: string)
    requires n <= |batch| && x in Ids(batch[..n])
    ensures FirstFetch(batch, x) == FirstFetch(batch[..n], x)
  {
    var a, b := FirstFetch(batch, x), FirstFetch(batch[..n], x);
    assert batch[b].id == x;
    assert a <= b;
    assert batch[..n][a].id == x;
  }

  /** Two new ids in the order `NewIds` lists them first occur in the batch
      in that order. */
  lemma {:induction false} NewIdsInFetchOrder(keys: set<string>, batch: seq<FetchedStop>, a: string, b: string)
    requires a in NewIds(keys, batch) && b in NewIds(keys, batch)
    requires FirstIndex(NewIds(keys, batch), a) < FirstIndex(NewIds(keys, batch), b)
    ensures FirstFetch(batch, a) < FirstFetch(batch, b)
    decreases |batch|
  {
    if batch != [] {
      var n := |batch| - 1;
      var p := batch[..n];
      var ids, ids' := NewIds(keys, p), NewIds(keys, batch);
      assert ids'[..|ids|] == ids;
      var ia, ib := FirstIndex(ids', a), FirstIndex(ids', b);
      if b in ids {
        FirstIndexPrefix(ids', |ids|, b);
        assert ids[ia] == a;
        FirstIndexPrefix(ids', |ids|, a);
        NewIdsInFetchOrder(keys, p, a, b);
        FirstFetchPrefix(batch, n, a);
        FirstFetchPrefix(batch, n, b);
      } else {
        assert b == batch[n].id && b !in keys;
        forall k | 0 <= k < n
          ensures batch[k].id != b
        {
          assert batch[k] in p;
        }
        assert ids'[|ids|] == b;
        assert ids[ia] == a;
        FirstFetchPrefix(batch, n, a);
      }
    }
  }

  /** The de-duplicated new ids are new to the table and in the order in
      which they first occur in the batch. */
  lemma NewIdsDedupOrder(keys: set<string>, batch: seq<FetchedStop>)
    ensures var d := Dedup(NewIds(keys, batch));
      && (forall x :: x in d ==> x in Ids(batch) && x !in keys)
      && forall i, j :: 0 <= i < j < |d| ==> FirstFetch(batch, d[i]) < FirstFetch(batch, d[j])
  {
    var d := Dedup(NewIds(keys, batch));
    forall i, j | 0 <= i < j < |d|
      ensures FirstFetch(batch, d[i]) < FirstFetch(batch, d[j])
    {
      NewIdsInFetchOrder(keys, batch, d[i], d[j]);
    }
  }

  /** The ids the upsert appends to the scan order are new to the table and
      follow the order in which they first occur in the batch. */
  lemma UpsertAppendsInFetchOrder(s: UpsertState, batch: seq<FetchedStop>, ts: string, host: string)
    ensures var r := Upsert(s, batch, ts, host);
      && |s.order| <= |r.order| && r.order[..|s.order|] == s.order
      && var added := r.order[|s.order|..];
      && (forall x :: x in added ==> x in Ids(batch) && x !in s.stops)
      && forall i, j :: 0 <= i < j < |added| ==> FirstFetch(batch, added[i]) < FirstFetch(batch, added[j])
  {
    UpsertOrder(s, batch, ts, host);
    NewIdsDedupOrder(s.stops.Keys, batch);
    var r := Upsert(s, batch, ts, host);
    assert r.order[|s.order|..] == Dedup(NewIds(s.stops.Keys, batch));
  }

  /** Every stop stays stored under its own id. */
  lemma {:induction false} UpsertKeyed(s: UpsertState, batch: seq<FetchedStop>, ts: string, host: string)
    requires StopsKeyed(s.stops)
    ensures StopsKeyed(Upsert(s, batch, ts, host).stops)
    decreases |batch|
  {
    if batch != [] {
      UpsertKeyed(s, batch[..|batch| - 1], ts, host);
    }
  }

  /** The upsert reports no existing id exactly when no fetched id was stored
      before and no id repeats within the batch; then every fetched stop is
      reported as created, in batch order. */
  lemma {:induction false} UpsertReport(s: UpsertState, batch: seq<FetchedStop>, ts: string, host: string)
    requires !s.existed
    ensures var r := Upsert(s, batch, ts, host);
      && (!r.existed <==> NewAndDistinct(s.stops, batch))
      && (!r.existed ==> r.created == s.created + Entries(batch, ts, host))
    decreases |batch|
  {
    if batch != [] {
      var n := |batch| - 1;
      var b, f := batch[..n], batch[n];
      UpsertReport(s, b, ts, host);
      UpsertContents(s, b, ts, host);
      NewAndDistinctSnoc(s.stops, batch);
      var r' := Upsert(s, b, ts, host);
      assert f.id in r'.stops <==> f.id in s.stops || f.id in Ids(b);
      assert Upsert(s, batch, ts, host) == UpsertStep(r', f, ts, host);
      assert Entries(batch, ts, host) == Entries(b, ts, host) + [CreatedEntry(f.id, ts, SelfLink(host, f.id))];
    } else {
      assert NewAndDistinct(s.stops, batch);
    }
  }

  /** No fetched id is stored in `stops` and none repeats. */
  predicate NewAndDistinct(stops: map<string, Stop>, batch: seq<FetchedStop>)
  {
    (forall i :: 0 <= i < |batch| ==> batch[i].id !in stops) && DistinctIds(batch)
  }

  lemma NewAndDistinctSnoc(stops: map<string, Stop>, batch: seq<FetchedStop>)
    requires batch != []
    ensures var n := |batch| - 1;
      NewAndDistinct(stops, batch) <==>
        NewAndDistinct(stops, batch[..n]) && batch[n].id !in stops && batch[n].id !in Ids(batch[..n])
  {
    var n := |batch| - 1;
    var b := batch[..n];
    if batch[n].id in Ids(b) {
      var g :| g in b && g.id == batch[n].id;
      var j :| 0 <= j < n && b[j] == g;
      assert batch[j].id == batch[n].id;
    }
  }

  /** A batch whose ids are all stored changes no scan position, creates
      nothing and reports an existing id as soon as it is not empty. */
  lemma {:induction false} UpsertAllStored(s: UpsertState, batch: seq<FetchedStop>, ts: string, host: string)
    requires Ids(batch) <= s.stops.Keys
    ensures var r := Upsert(s, batch, ts, host);
      r.order == s.order && r.created == s.created && r.existed == (s.existed || batch != [])
    decreases |batch|
  {
    if batch != [] {
      var n := |batch| - 1;
      IdsSnoc(batch);
      UpsertAllStored(s, batch[..n], ts, host);
      UpsertContents(s, batch[..n], ts, host);
    }
  }

  /** Upserting the same batch twice gives the same table as once, and the
      second run creates nothing. */
  lemma UpsertIdempotent(s: UpsertState, batch: seq<FetchedStop>, ts: string, host: string)
    ensures var r := Upsert(s, batch, ts, host);
      var r2 := Upsert(r.(created := [], existed := false), batch, ts, host);
      r2.stops == r.stops && r2.order == r.order && r2.created == [] && (r2.existed <==> batch != [])
  {
    var r := Upsert(s, batch, ts, host);
    var s1 := r.(created := [], existed := false);
    UpsertContents(s, batch, ts, host);
    UpsertContents(s1, batch, ts, host);
    UpsertAllStored(s1, batch, ts, host);
    var r2 := Upsert(s1, batch, ts, host);
    assert r2.stops.Keys == r.stops.Keys;
    forall k | k in r.stops
      ensures r2.stops[k] == r.stops[k]
    {
    }
  }

  // ---------------------------------------------------------------------
  // Departures: insert if absent
  // ---------------------------------------------------------------------

  /** The departure table and its scan order. */
  datatype DepartureTable = DepartureTable(departures: map<string, Departure>, order: seq<string>)

  function ToDeparture(f: FetchedDeparture, ts: string): Departure
    requires Truthy(f.platform)
  {
    Departure(f.tripId, f.stopId, f.platform.value, f.direction, f.operatorName, ts)
  }

  /** The loop's guard: the trip is unseen and the platform is truthy. */
  predicate Admits(t: DepartureTable, f: FetchedDeparture)
  {
    f.tripId !in t.departures && Truthy(f.platform)
  }

  function InsertStep(t: DepartureTable, f: FetchedDeparture, ts: string): DepartureTable
  {
    if Admits(t, f) then DepartureTable(t.departures[f.tripId := ToDeparture(f, ts)], t.order + [f.tripId])
    else t
  }

  /** The insert loop over a whole batch, in batch order. */
  function InsertAll(t: DepartureTable, batch: seq<FetchedDeparture>, ts: string): DepartureTable
    decreases |batch|
  {
    if batch == [] then t
    else
      var n := |batch| - 1;
      InsertStep(InsertAll(t, batch[..n], ts), batch[n], ts)
  }

  /** Trip ids of the fetched departures that carry a platform. */
  function Eligible(batch: seq<FetchedDeparture>): set<string>
  {
    set f | f in batch && Truthy(f.platform) :: f.tripId
  }

  /** `batch[i]` carries a platform and no earlier departure of the batch with the same trip does. */
  predicate FirstEligible(batch: seq<FetchedDeparture>, i: int)
    requires 0 <= i < |batch|
  {
    Truthy(batch[i].platform)
    && forall j :: 0 <= j < i ==> !(batch[j].tripId == batch[i].tripId && Truthy(batch[j].platform))
  }

  lemma EligibleSnoc(batch: seq<FetchedDeparture>)
    requires batch != []
    ensures var n := |batch| - 1;
      Eligible(batch) == Eligible(batch[..n]) + (if Truthy(batch[n].platform) then {batch[n].tripId} else {})
  {
    var n := |batch| - 1;
    assert batch == batch[..n] + [batch[n]];
  }

  /** Insert-only: stored departures are never modified; the new keys are the
      trips of the batch that carry a platform; a new trip is stored from its
      first platform-bearing occurrence, with the batch timestamp. */
  lemma InsertContents(t: DepartureTable, batch: seq<FetchedDeparture>, ts: string)
    ensures var r := InsertAll(t, batch, ts);
      && r.departures.Keys == t.departures.Keys + Eligible(batch)
      && (forall k :: k in t.departures ==> r.departures[k] == t.departures[k])
      && (forall i :: 0 <= i < |batch| && FirstEligible(batch, i) && batch[i].tripId !in t.departures ==>
            r.departures[batch[i].tripId] == ToDeparture(batch[i], ts))
  {
    InsertKeys(t, batch, ts);
    forall i | 0 <= i < |batch| && FirstEligible(batch, i) && batch[i].tripId !in t.departures
      ensures InsertAll(t, batch, ts).departures[batch[i].tripId] == ToDeparture(batch[i], ts)
    {
      InsertFirst(t, batch, ts, i);
    }
  }

  /** The keys after the insert, and the stored rows left as they were. */
  lemma {:induction false} InsertKeys(t: DepartureTable, batch: seq<FetchedDeparture>, ts: string)
    ensures var r := InsertAll(t, batch, ts);
      && r.departures.Keys == t.departures.Keys + Eligible(batch)
      && (forall k :: k in t.departures ==> r.departures[k] == t.departures[k])
    decreases |batch|
  {
    if batch != [] {
      InsertKeys(t, batch[..|batch| - 1], ts);
      EligibleSnoc(batch);
    }
  }

  /** A trip new to the table is stored from its first platform-bearing occurrence. */
  lemma {:induction false} InsertFirst(t: DepartureTable, batch: seq<FetchedDeparture>, ts: string, i: nat)
    requires i < |batch| && FirstEligible(batch, i) && batch[i].tripId !in t.departures
    ensures var r := InsertAll(t, batch, ts);
      batch[i].tripId in r.departures && r.departures[batch[i].tripId] == ToDeparture(batch[i], ts)
    decreases |batch|
  {
    var n := |batch| - 1;
    var b := batch[..n];
    var id := batch[i].tripId;
    InsertKeys(t, b, ts);
    var prefix := InsertAll(t, b, ts);
    if i < n {
      assert FirstEligible(b, i) && b[i] == batch[i];
      InsertFirst(t, b, ts, i);
      if batch[n].tripId == id {
        assert !Admits(prefix, batch[n]);
      }
    } else {
      assert id !in Eligible(b);
      assert Admits(prefix, batch[n]);
    }
  }

  /** The trip ids of the fetched departures that carry a platform and that
      `keys` does not hold, in batch order, repeats included. */
  function NewTrips(keys: set<string>, batch: seq<FetchedDeparture>): (ids: seq<string>)
    ensures forall x :: x in ids <==> x in Eligible(batch) && x !in keys
    decreases |batch|
  {
    if batch == [] then []
    else
      var n := |batch| - 1;
      EligibleSnoc(batch);
      NewTrips(keys, batch[..n])
      + (if Truthy(batch[n].platform) && batch[n].tripId !in keys then [batch[n].tripId] else [])
  }

  /** The insert appends the new trips to the scan order, each once, in the
      order of their first platform-bearing occurrence in the batch. */
  lemma {:induction false} InsertOrder(t: DepartureTable, batch: seq<FetchedDeparture>, ts: string)
    ensures InsertAll(t, batch, ts).order == t.order + Dedup(NewTrips(t.departures.Keys, batch))
    decreases |batch|
  {
    if batch != [] {
      var n := |batch| - 1;
      var b, f := batch[..n], batch[n];
      var keys := t.departures.Keys;
      InsertOrder(t, b, ts);
      InsertTripKeys(t, b, ts);
      var r' := InsertAll(t, b, ts);
      assert InsertAll(t, batch, ts) == InsertStep(r', f, ts);
      var old_ids := NewTrips(keys, b);
      if Truthy(f.platform) && f.tripId !in keys {
        assert NewTrips(keys, batch) == old_ids + [f.tripId];
        DedupSnoc(old_ids, f.tripId);
        assert f.tripId in old_ids <==> f.tripId in r'.departures;
      } else {
        assert NewTrips(keys, batch) == old_ids + [];
        assert old_ids + [] == old_ids;
        assert !Admits(r', f);
      }
    }
  }

  /** The stored trips after the insert. */
  lemma {:induction false} InsertTripKeys(t: DepartureTable, batch: seq<FetchedDeparture>, ts: string)
    ensures InsertAll(t, batch, ts).departures.Keys == t.departures.Keys + Eligible(batch)
    decreases |batch|
  {
    if batch != [] {
      InsertTripKeys(t, batch[..|batch| - 1], ts);
      EligibleSnoc(batch);
    }
  }

  /** The insert keeps the table keyed by trip id and its scan order complete
      and duplicate-free; stored rows keep their scan positions and the new
      trips follow in the order they first occur with a platform. */
  lemma InsertKeepsTable(t: DepartureTable, batch: seq<FetchedDeparture>, ts: string)
    requires DeparturesKeyed(t.departures) && ScanOrder(t.order, t.departures.Keys)
    ensures var r := InsertAll(t, batch, ts);
      && DeparturesKeyed(r.departures) && ScanOrder(r.order, r.departures.Keys)
      && r.order == t.order + Dedup(NewTrips(t.departures.Keys, batch))
  {
    InsertTripKeys(t, batch, ts);
    InsertOrder(t, batch, ts);
    InsertKeyed(t, batch, ts);
    ScanOrderAppend(t.order, t.departures.Keys, Eligible(batch), Dedup(NewTrips(t.departures.Keys, batch)));
  }

  /** Position of the first fetched departure of trip `x` that carries a
      platform. */
  function FirstPlatformFetch(batch: seq<FetchedDeparture>, x: string): (i: nat)
    requires x in Eligible(batch)
    ensures i < |batch| && batch[i].tripId == x && FirstEligible(batch, i)
  {
    if batch[0].tripId == x && Truthy(batch[0].platform) then 0
    else
      var k :| 0 <= k < |batch| && batch[k].tripId == x && Truthy(batch[k].platform);
      assert batch[1..][k - 1] == batch[k];
      1 + FirstPlatformFetch(batch[1..], x)
  }

  lemma FirstPlatformFetchPrefix(batch: seq<FetchedDeparture>, n: nat, x: string)
    requires n <= |batch| && x in Eligible(batch[..n])
    ensures FirstPlatformFetch(batch, x) == FirstPlatformFetch(batch[..n], x)
  {
    var a, b := FirstPlatformFetch(batch, x), FirstPlatformFetch(batch[..n], x);
    assert batch[b].tripId == x && Truthy(batch[b].platform);
    assert a <= b;
    assert batch[..n][a].tripId == x && Truthy(batch[..n][a].platform);
  }

  /** Two new trips in the order `NewTrips` lists them first occur with a
      platform in the batch in that order. */
  lemma {:induction false} NewTripsInFetchOrder(keys: set<string>, batch: seq<FetchedDeparture>, a: string, b: string)
    requires a in NewTrips(keys, batch) && b in NewTrips(keys, batch)
    requires FirstIndex(NewTrips(keys, batch), a) < FirstIndex(NewTrips(keys, batch), b)
    ensures FirstPlatformFetch(batch, a) < FirstPlatformFetch(batch, b)
    decreases |batch|
  {
    if batch != [] {
      var n := |batch| - 1;
      var p := batch[..n];
      var ids, ids' := NewTrips(keys, p), NewTrips(keys, batch);
      assert ids'[..|ids|] == ids;
      var ia, ib := FirstIndex(ids', a), FirstIndex(ids', b);
      if b in ids {
        FirstIndexPrefix(ids', |ids|, b);
        assert ids[ia] == a;
        FirstIndexPrefix(ids', |ids|, a);
        NewTripsInFetchOrder(keys, p, a, b);
        FirstPlatformFetchPrefix(batch, n, a);
        FirstPlatformFetchPrefix(batch, n, b);
      } else {
        assert b == batch[n].tripId && b !in keys;
        forall k | 0 <= k < n
          ensures !(batch[k].tripId == b && Truthy(batch[k].platform))
        {
          assert batch[k] in p;
        }
        assert ids'[|ids|] == b;
        assert ids[ia] == a;
        FirstPlatformFetchPrefix(batch, n, a);
      }
    }
  }

  /** The de-duplicated new trips are new to the table and in the order in
      which they first occur with a platform. */
  lemma NewTripsDedupOrder(keys: set<string>, batch: seq<FetchedDeparture>)
    ensures var d := Dedup(NewTrips(keys, batch));
      && (forall x :: x in d ==> x in Eligible(batch) && x !in keys)
      && forall i, j :: 0 <= i < j < |d| ==> FirstPlatformFetch(batch, d[i]) < FirstPlatformFetch(batch, d[j])
  {
    var d := Dedup(NewTrips(keys, batch));
    forall i, j | 0 <= i < j < |d|
      ensures FirstPlatformFetch(batch, d[i]) < FirstPlatformFetch(batch, d[j])
    {
      NewTripsInFetchOrder(keys, batch, d[i], d[j]);
    }
  }

  /** The trips the insert appends to the scan order are new to the table and
      follow the order in which they first occur with a platform. */
  lemma InsertAppendsInFetchOrder(t: DepartureTable, batch: seq<FetchedDeparture>, ts: string)
    ensures var r := InsertAll(t, batch, ts);
      && |t.order| <= |r.order| && r.order[..|t.order|] == t.order
      && var added := r.order[|t.order|..];
      && (forall x :: x in added ==> x in Eligible(batch) && x !in t.departures)
      && forall i, j :: 0 <= i < j < |added| ==>
           FirstPlatformFetch(batch, added[i]) < FirstPlatformFetch(batch, added[j])
  {
    InsertOrder(t, batch, ts);
    NewTripsDedupOrder(t.departures.Keys, batch);
    var r := InsertAll(t, batch, ts);
    assert r.order[|t.order|..] == Dedup(NewTrips(t.departures.Keys, batch));
  }

  /** Every departure stays stored under its own trip id. */
  lemma {:induction false} InsertKeyed(t: DepartureTable, batch: seq<FetchedDeparture>, ts: string)
    requires DeparturesKeyed(t.departures)
    ensures DeparturesKeyed(InsertAll(t, batch, ts).departures)
    decreases |batch|
  {
    if batch != [] {
      InsertKeyed(t, batch[..|batch| - 1], ts);
    }
  }

  /** Starting from an empty table, the first row after the insert is the
      first fetched departure that carries a platform, and the table stays
      empty exactly when none does. */
  lemma FirstRowOfEmptyTable(batch: seq<FetchedDeparture>, ts: string, i: nat)
    requires i < |batch| && Truthy(batch[i].platform)
    requires forall j :: 0 <= j < i ==> !Truthy(batch[j].platform)
    ensures var r := InsertAll(DepartureTable(map[], []), batch, ts);
      && r.order != [] && r.order[0] == batch[i].tripId
      && batch[i].tripId in r.departures && r.departures[batch[i].tripId] == ToDeparture(batch[i], ts)
  {
    var t := DepartureTable(map[], []);
    assert t.departures.Keys == {};
    var ids := NewTrips({}, batch);
    InsertOrder(t, batch, ts);
    var r := InsertAll(t, batch, ts);
    assert r.order == Dedup(ids);
    NewTripsHead(batch, i);
    DedupHead(ids);
    assert FirstEligible(batch, i);
    InsertFirst(t, batch, ts, i);
  }

  /** A batch without a platform-bearing departure inserts nothing. */
  lemma NoPlatformNoRow(t: DepartureTable, batch: seq<FetchedDeparture>, ts: string)
    requires forall j :: 0 <= j < |batch| ==> !Truthy(batch[j].platform)
    ensures InsertAll(t, batch, ts) == t
  {
    assert Eligible(batch) == {};
    InsertAllStored(t, batch, ts);
  }

  /** The first new trip of a fresh table is the first platform-bearing one. */
  lemma {:induction false} NewTripsHead(batch: seq<FetchedDeparture>, i: nat)
    requires i < |batch| && Truthy(batch[i].platform)
    requires forall j :: 0 <= j < i ==> !Truthy(batch[j].platform)
    ensures NewTrips({}, batch) != [] && NewTrips({}, batch)[0] == batch[i].tripId
    decreases |batch|
  {
    var n := |batch| - 1;
    if i < n {
      NewTripsHead(batch[..n], i);
    } else {
      NoPlatformNoTrips(batch[..n]);
    }
  }

  lemma {:induction false} NoPlatformNoTrips(batch: seq<FetchedDeparture>)
    requires forall j :: 0 <= j < |batch| ==> !Truthy(batch[j].platform)
    ensures NewTrips({}, batch) == []
    decreases |batch|
  {
    if batch != [] {
      NoPlatformNoTrips(batch[..|batch| - 1]);
    }
  }

  /** A batch whose platform-bearing trips are all stored changes nothing. */
  lemma {:induction false} InsertAllStored(t: DepartureTable, batch: seq<FetchedDeparture>, ts: string)
    requires Eligible(batch) <= t.departures.Keys
    ensures InsertAll(t, batch, ts) == t
    decreases |batch|
  {
    if batch != [] {
      EligibleSnoc(batch);
      InsertAllStored(t, batch[..|batch| - 1], ts);
    }
  }

  /** Re-running the insert with the same batch changes nothing. */
  lemma InsertIdempotent(t: DepartureTable, batch: seq<FetchedDeparture>, ts: string)
    ensures var r := InsertAll(t, batch, ts); InsertAll(r, batch, ts) == r
  {
    InsertContents(t, batch, ts);
    InsertAllStored(InsertAll(t, batch, ts), batch, ts);
  }

  /** Insert-only: a fetched departure of a stored trip is ignored whatever
      platform it carries, so changing that platform changes nothing. */
  lemma {:induction false} StoredTripIgnored(t: DepartureTable, batch: seq<FetchedDeparture>, ts: string, i: nat, p: Option<string>)
    requires i < |batch| && batch[i].tripId in t.departures
    ensures InsertAll(t, batch[i := batch[i].(platform := p)], ts) == InsertAll(t, batch, ts)
    decreases |batch|
  {
    var n := |batch| - 1;
    var altered := batch[i := batch[i].(platform := p)];
    var prefix := InsertAll(t, batch[..n], ts);
    if i == n {
      assert altered[..n] == batch[..n];
      assert batch[n].tripId in prefix.departures by {
        InsertContents(t, batch[..n], ts);
      }
      assert InsertStep(prefix, altered[n], ts) == prefix;
      assert InsertStep(prefix, batch[n], ts) == prefix;
    } else {
      assert altered[..n] == batch[..n][i := batch[i].(platform := p)];
      assert altered[n] == batch[n];
      StoredTripIgnored(t, batch[..n], ts, i, p);
    }
  }

  /** A stop fetched into an empty store is created; fetched again under a
      new name it is refreshed: nothing is created and the new name is stored. */
  lemma RefetchScenario(lat: string, lon: string, ts1: string, ts2: string, host: string)
    ensures var r1 := Upsert(UpsertState(map[], [], [], false), [FetchedStop("100", "Plaza", lat, lon)], ts1, host);
      && r1.created == [CreatedEntry("100", ts1, SelfLink(host, "100"))] && !r1.existed
      && var r2 := Upsert(r1.(created := [], existed := false), [FetchedStop("100", "Plaza2", lat, lon)], ts2, host);
         r2.created == [] && r2.existed && r2.stops["100"].name == "Plaza2" && r2.order == ["100"]
  {
    var b1 := [FetchedStop("100", "Plaza", lat, lon)];
    assert b1[..0] == [];
    var b2 := [FetchedStop("100", "Plaza2", lat, lon)];
    assert b2[..0] == [];
  }
}
