/** Neighbour resolution of the stop detail view (main.py:181-183, 192-198):
    the previous and next stop are chosen purely by the key order of the
    stop table, and their stored links are added to the view's links. */
module Neighbours {
  import opened Text
  import opened Records

  /** The greatest key of `keys` strictly below `id`: the first row of the
      descending range query of main.py:182. */
  function Prev(keys: seq<string>, id: string): (r: Option<string>)
    ensures r.Some? ==> r.value in keys && Less(r.value, id)
    ensures r.Some? ==> forall k :: k in keys && Less(k, id) ==> LessEq(k, r.value)
    ensures r.None? <==> forall k :: k in keys ==> !Less(k, id)
    decreases |keys|
  {
    if keys == [] then None
    else
      var rest := Prev(keys[1..], id);
      if !Less(keys[0], id) then rest
      else if rest.Some? && Less(keys[0], rest.value) then rest
      else if rest.Some? then
        NotLess(rest.value, keys[0]);
        BoundAbove(keys[1..], id, rest.value, keys[0]);
        Some(keys[0])
      else Some(keys[0])
  }

  /** The smallest key of `keys` strictly above `id`: what the ascending
      range query of main.py:183 returns when it is answered in key order. */
  function Next(keys: seq<string>, id: string): (r: Option<string>)
    ensures r.Some? ==> r.value in keys && Less(id, r.value)
    ensures r.Some? ==> forall k :: k in keys && Less(id, k) ==> LessEq(r.value, k)
    ensures r.None? <==> forall k :: k in keys ==> !Less(id, k)
    decreases |keys|
  {
    if keys == [] then None
    else
      var rest := Next(keys[1..], id);
      if !Less(id, keys[0]) then rest
      else if rest.Some? && Less(rest.value, keys[0]) then rest
      else if rest.Some? then
        NotLess(keys[0], rest.value);
        BoundBelow(keys[1..], id, rest.value, keys[0]);
        Some(keys[0])
      else Some(keys[0])
  }

  /** Moving an upper bound of the keys below `id` up keeps it an upper bound. */
  lemma BoundAbove(keys: seq<string>, id: string, lo: string, hi: string)
    requires forall k :: k in keys && Less(k, id) ==> LessEq(k, lo)
    requires LessEq(lo, hi)
    ensures forall k :: k in keys && Less(k, id) ==> LessEq(k, hi)
  {
    forall k | k in keys && Less(k, id)
      ensures LessEq(k, hi)
    {
      if Less(k, lo) && Less(lo, hi) {
        LessTransitive(k, lo, hi);
      }
    }
  }

  /** Moving a lower bound of the keys above `id` down keeps it a lower bound. */
  lemma BoundBelow(keys: seq<string>, id: string, hi: string, lo: string)
    requires forall k :: k in keys && Less(id, k) ==> LessEq(hi, k)
    requires LessEq(lo, hi)
    ensures forall k :: k in keys && Less(id, k) ==> LessEq(lo, k)
  {
    forall k | k in keys && Less(id, k)
      ensures LessEq(lo, k)
    {
      if Less(lo, hi) && Less(hi, k) {
        LessTransitive(lo, hi, k);
      }
    }
  }

  /** main.py:183 as written: without `order_by` the query only promises some
      greater key; scanning the table in its scan order gives the first one. */
  function NextAsWritten(keys: seq<string>, id: string): (r: Option<string>)
    ensures r.Some? ==> r.value in keys && Less(id, r.value)
    ensures r.Some? ==> exists i :: 0 <= i < |keys| && keys[i] == r.value && forall j :: 0 <= j < i ==> !Less(id, keys[j])
    ensures r.None? <==> forall k :: k in keys ==> !Less(id, k)
    decreases |keys|
  {
    if keys == [] then None
    else if Less(id, keys[0]) then Some(keys[0])
    else NextAsWritten(keys[1..], id)
  }

  predicate Sorted(keys: seq<string>)
  {
    forall i, j :: 0 <= i < j < |keys| ==> Less(keys[i], keys[j])
  }

  /** When the scan runs in key order, the query as written finds the
      smallest greater key. */
  lemma {:induction false} NextAsWrittenSorted(keys: seq<string>, id: string)
    requires Sorted(keys)
    ensures NextAsWritten(keys, id) == Next(keys, id)
    decreases |keys|
  {
    if keys != [] {
      assert Sorted(keys[1..]);
      NextAsWrittenSorted(keys[1..], id);
      var rest := Next(keys[1..], id);
      if Less(id, keys[0]) && rest.Some? {
        var j :| 0 <= j < |keys[1..]| && keys[1..][j] == rest.value;
        assert Less(keys[0], keys[1 + j]);
        LessAsymmetric(keys[0], rest.value);
      }
    }
  }

  /** In scan order ["C3", "B2"], the query as written answers "C3" for the
      stop after "A1", although "B2" is the next key. */
  lemma NextAsWrittenNotSmallest()
    ensures NextAsWritten(["C3", "B2"], "A1") == Some("C3")
    ensures Next(["C3", "B2"], "A1") == Some("B2")
  {
    assert Less("A1", "C3") && Less("A1", "B2") && Less("B2", "C3");
    assert ["C3", "B2"][1..] == ["B2"];
  }

  /** The neighbour examples: keys A1, B2, C3 and a table holding only Z9. */
  lemma NeighbourExamples()
    ensures Prev(["A1", "B2", "C3"], "B2") == Some("A1")
    ensures Next(["A1", "B2", "C3"], "B2") == Some("C3")
    ensures Prev(["A1", "B2", "C3"], "A1") == None
    ensures Prev(["Z9"], "Z9") == None && Next(["Z9"], "Z9") == None
  {
    var keys := ["A1", "B2", "C3"];
    assert Less("A1", "B2") && Less("B2", "C3");
    LessIrreflexive("A1");
    LessIrreflexive("B2");
    LessIrreflexive("Z9");
    LessAsymmetric("A1", "B2");
    LessAsymmetric("B2", "C3");
    LessTransitive("A1", "B2", "C3");
    LessAsymmetric("A1", "C3");
    assert keys[1..] == ["B2", "C3"] && keys[1..][1..] == ["C3"];
  }

  /** The `_links` of the detail view: the stop's own link, then the next
      and the previous stop's links when those stops exist. */
  datatype Links = Links(self: string, next: Option<string>, prev: Option<string>)

  function LinksOf(stops: map<string, Stop>, keys: seq<string>, id: string): (r: Links)
    requires id in stops
    requires forall k :: k in keys ==> k in stops
    ensures r.self == stops[id].links
    ensures r.prev.Some? <==> exists k :: k in keys && Less(k, id)
    ensures r.next.Some? <==> exists k :: k in keys && Less(id, k)
    ensures r.prev.Some? ==>
      exists k :: (k in keys && Less(k, id) && r.prev.value == stops[k].links
                   && forall k' :: k' in keys && Less(k', id) ==> LessEq(k', k))
    ensures r.next.Some? ==>
      exists k :: (k in keys && Less(id, k) && r.next.value == stops[k].links
                   && forall k' :: k' in keys && Less(id, k') ==> LessEq(k, k'))
  {
    var p := Prev(keys, id);
    var n := Next(keys, id);
    Links(stops[id].links,
          if n.Some? then Some(stops[n.value].links) else None,
          if p.Some? then Some(stops[p.value].links) else None)
  }
}
