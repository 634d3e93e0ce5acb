/** The stop detail view (main.py:133-199): validation of the `include`
    argument and assembly of the returned record from the stop, the first
    row of the departure table and the neighbour links. */
module Detail {
  import opened Seqs
  import opened Text
  import opened Records
  import opened Neighbours

  /** The stop columns that `include` may name. */
  datatype Field = Name | Latitude | Longitude

  function FieldName(f: Field): string
  {
    match f
    case Name => "name"
    case Latitude => "latitude"
    case Longitude => "longitude"
  }

  function Names(fs: seq<Field>): (ns: seq<string>)
    ensures |ns| == |fs| && forall i :: 0 <= i < |fs| ==> ns[i] == FieldName(fs[i])
  {
    seq(|fs|, i requires 0 <= i < |fs| => FieldName(fs[i]))
  }

  /** The field a part of `include` names, if any. */
  function ParseField(s: string): (r: Option<Field>)
    ensures r.Some? <==> (s == "name" || s == "latitude" || s == "longitude")
    ensures r.Some? ==> FieldName(r.value) == s
  {
    if s == "name" then Some(Name)
    else if s == "latitude" then Some(Latitude)
    else if s == "longitude" then Some(Longitude)
    else None
  }

  lemma ParseFieldName(f: Field)
    ensures ParseField(FieldName(f)) == Some(f)
  {
  }

  /** The columns shown when `include` is missing or empty. */
  const DefaultFields: seq<Field> := [Name, Latitude, Longitude]

  /** Every part names a column. */
  predicate AllFields(parts: seq<string>)
  {
    forall i :: 0 <= i < |parts| ==> ParseField(parts[i]).Some?
  }

  /** Every part must name a column; one part that does not rejects the list. */
  function ParseFields(parts: seq<string>): (r: Option<seq<Field>>)
    ensures r.Some? <==> AllFields(parts)
    ensures r.Some? ==> Names(r.value) == parts
  {
    if parts == [] then Some([])
    else
      var head := ParseField(parts[0]);
      var tail := ParseFields(parts[1..]);
      if head.None? || tail.None? then None
      else
        assert parts == [parts[0]] + parts[1..];
        Some([head.value] + tail.value)
  }

  /** main.py:140-148. A missing or empty `include` selects the three
      columns. Otherwise the whole argument is stripped and then split on
      ',', and every part must name a column: a space after a comma is kept
      in the part that follows it, so "name, latitude" is rejected. */
  function ParseInclude(arg: Option<string>): (r: Option<seq<Field>>)
    ensures arg.None? || arg == Some("") ==> r == Some(DefaultFields)
    ensures arg.Some? && arg.value != "" ==>
      var parts := Split(Strip(arg.value), ',');
      && (r.Some? <==> AllFields(parts))
      && (r.Some? ==> Names(r.value) == parts)
  {
    if arg.None? || arg.value == "" then Some(DefaultFields)
    else
      var parts := Split(Strip(arg.value), ',');
      ParseFields(parts)
  }

  /** A comma-separated list of column names, with any whitespace around
      the whole list, is read back as that list. */
  lemma IncludeRoundTrip(fs: seq<Field>, p: string, q: string)
    requires |fs| > 0
    requires AllSpace(p) && AllSpace(q)
    ensures ParseInclude(Some(p + Join(Names(fs), ',') + q)) == Some(fs)
  {
    var ns := Names(fs);
    var s := Join(ns, ',');
    forall i | 0 <= i < |ns|
      ensures ns[i] == "name" || ns[i] == "latitude" || ns[i] == "longitude"
      ensures ParseField(ns[i]) == Some(fs[i])
    {
      assert ns[i] == FieldName(fs[i]);
      ParseFieldName(fs[i]);
    }
    JoinEnds(ns);
    StripPadded(p, s, q);
    SplitJoin(ns, ',');
    assert AllFields(ns);
    var r := ParseFields(ns);
    forall i | 0 <= i < |fs|
      ensures r.value[i] == fs[i]
    {
      FieldNameInjective(r.value[i], fs[i]);
    }
    assert r.value == fs;
  }

  /** A join of column names is not empty, starts and ends with a letter and
      has no comma inside a part. */
  lemma {:induction false} JoinEnds(ns: seq<string>)
    requires |ns| > 0
    requires forall i :: 0 <= i < |ns| ==> ns[i] == "name" || ns[i] == "latitude" || ns[i] == "longitude"
    ensures var s := Join(ns, ',');
      |s| > 0 && !IsSpace(s[0]) && !IsSpace(s[|s| - 1]) && forall k :: 0 <= k < |ns| ==> ',' !in ns[k]
  {
    if |ns| > 1 {
      JoinEnds(ns[1..]);
      var t := Join(ns[1..], ',');
      assert Join(ns, ',')[|Join(ns, ',')| - 1] == t[|t| - 1];
    }
  }

  /** Two columns separated by a comma and a space are rejected: the space
      stays at the front of the second part. */
  lemma IncludeSpaceAfterComma(f: Field, g: Field)
    ensures ParseInclude(Some(FieldName(f) + ", " + FieldName(g))) == None
  {
    var a, n := FieldName(f), FieldName(g);
    CommaSpaceParts(a, n);
    var b := " " + n;
    assert b[0] == ' ' && |b| == |n| + 1;
    assert ParseField(b).None?;
    assert !AllFields([a, b]) by {
      assert [a, b][1] == b;
    }
    assert (FieldName(f) + ", " + FieldName(g)) != "";
  }

  lemma CommaSpaceParts(a: string, n: string)
    requires a == "name" || a == "latitude" || a == "longitude"
    requires n == "name" || n == "latitude" || n == "longitude"
    ensures Split(Strip(a + ", " + n), ',') == [a, " " + n]
  {
    var b := " " + n;
    var s := a + ", " + n;
    assert s == Join([a, b], ',') by {
      assert [a, b][1..] == [b];
      assert ", " == [','] + " ";
    }
    assert ',' !in a && ',' !in b;
    SplitJoin([a, b], ',');
    assert !IsSpace(s[0]) && !IsSpace(s[|s| - 1]) by {
      assert s[0] == a[0] && s[|s| - 1] == n[|n| - 1];
    }
    StripPadded("", s, "");
    assert "" + s + "" == s;
  }

  /** A blank argument is not missing: it strips to one empty part, which
      names no column. */
  lemma IncludeBlank(s: string)
    requires s != [] && AllSpace(s)
    ensures ParseInclude(Some(s)) == None
  {
    StripPadded(s, "", "");
    assert s + "" + "" == s;
    assert Split("", ',') == [""];
  }

  function FieldValue(s: Stop, f: Field): string
  {
    match f
    case Name => s.name
    case Latitude => s.latitude
    case Longitude => s.longitude
  }

  /** The record main.py:185-198 returns: its keys are stop_id,
      last_updated, the selected columns, next_departure and _links. */
  datatype StopView = StopView(
    stopId: string,
    lastUpdated: string,
    fields: seq<(string, string)>,
    nextDeparture: string,
    links: Links)

  function ViewKeys(v: StopView): seq<string>
  {
    ["stop_id", "last_updated"] + seq(|v.fields|, i requires 0 <= i < |v.fields| => v.fields[i].0)
    + ["next_departure", "_links"]
  }

  lemma FieldNameInjective(f: Field, g: Field)
    requires FieldName(f) == FieldName(g)
    ensures f == g
  {
    ParseFieldName(f);
    ParseFieldName(g);
  }

  /** The selected columns with the stop's values, one entry per column at
      its first position in `fs` (repeated names are one dictionary key). */
  function Columns(stop: Stop, fs: seq<Field>): (cols: seq<(string, string)>)
    ensures |cols| == |Dedup(fs)|
    ensures forall i :: 0 <= i < |cols| ==> cols[i].0 == FieldName(Dedup(fs)[i])
    ensures forall i, j :: 0 <= i < j < |cols| ==> cols[i].0 != cols[j].0
    ensures forall f :: f in fs <==> (FieldName(f), FieldValue(stop, f)) in cols
  {
    var d := Dedup(fs);
    var cols := seq(|d|, i requires 0 <= i < |d| => (FieldName(d[i]), FieldValue(stop, d[i])));
    assert forall i, j :: 0 <= i < j < |d| ==> FieldName(d[i]) != FieldName(d[j]) by {
      forall i, j | 0 <= i < j < |d| ensures FieldName(d[i]) != FieldName(d[j]) {
        if FieldName(d[i]) == FieldName(d[j]) {
          FieldNameInjective(d[i], d[j]);
        }
      }
    }
    assert forall f :: f in fs <==> (FieldName(f), FieldValue(stop, f)) in cols by {
      forall f ensures f in fs <==> (FieldName(f), FieldValue(stop, f)) in cols {
        if (FieldName(f), FieldValue(stop, f)) in cols {
          var i :| 0 <= i < |cols| && cols[i] == (FieldName(f), FieldValue(stop, f));
          FieldNameInjective(f, d[i]);
        }
        if f in fs {
          var i :| 0 <= i < |d| && d[i] == f;
          assert cols[i] == (FieldName(f), FieldValue(stop, f));
        }
      }
    }
    cols
  }

  /** The detail record. Its `last_updated` and `next_departure` come from
      `first`, the first row of the whole departure table, whichever stop
      that row belongs to (main.py:180, 187, 191). */
  function DetailView(stops: map<string, Stop>, keys: seq<string>, first: Departure, id: string, fs: seq<Field>)
    : (v: StopView)
    requires id in stops
    requires forall k :: k in keys ==> k in stops
    ensures v.stopId == stops[id].stopId
    ensures v.lastUpdated == first.lastUpdated && v.nextDeparture == first.platform
    ensures ViewKeys(v) == ["stop_id", "last_updated"] + Names(Dedup(fs)) + ["next_departure", "_links"]
    ensures v.fields == Columns(stops[id], fs)
    ensures v.links == LinksOf(stops, keys, id)
  {
    var cols := Columns(stops[id], fs);
    var v := StopView(stops[id].stopId, first.lastUpdated, cols, first.platform, LinksOf(stops, keys, id));
    assert seq(|cols|, i requires 0 <= i < |cols| => cols[i].0) == Names(Dedup(fs));
    v
  }
}
