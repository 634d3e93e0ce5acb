/** The record update of the stop patch (main.py:236-239): every key of the
    request body is assigned to the stop row in body order, then
    `last_updated` is overwritten with the current time. */
module Patch {
  import opened Records

  /** What a body key names on the stop row: one of its six columns, or any
      other attribute, which is set on the Python object only and never
      reaches the table. */
  datatype Attr = StopIdAttr | NameAttr | LatitudeAttr | LongitudeAttr | LastUpdatedAttr | LinksAttr | OtherAttr

  predicate IsColumn(a: Attr)
  {
    !a.OtherAttr?
  }

  function AttrOf(key: string): Attr
  {
    if key == "stop_id" then StopIdAttr
    else if key == "name" then NameAttr
    else if key == "latitude" then LatitudeAttr
    else if key == "longitude" then LongitudeAttr
    else if key == "last_updated" then LastUpdatedAttr
    else if key == "_links" then LinksAttr
    else OtherAttr
  }

  /** The value of a column of the row. */
  function Get(s: Stop, a: Attr): string
    requires IsColumn(a)
  {
    match a
    case StopIdAttr => s.stopId
    case NameAttr => s.name
    case LatitudeAttr => s.latitude
    case LongitudeAttr => s.longitude
    case LastUpdatedAttr => s.lastUpdated
    case LinksAttr => s.links
  }

  /** `setattr(row, key, value)`. */
  function SetAttr(s: Stop, key: string, value: string): (r: Stop)
    ensures IsColumn(AttrOf(key)) ==> Get(r, AttrOf(key)) == value
    ensures forall a :: IsColumn(a) && a != AttrOf(key) ==> Get(r, a) == Get(s, a)
  {
    match AttrOf(key)
    case StopIdAttr => s.(stopId := value)
    case NameAttr => s.(name := value)
    case LatitudeAttr => s.(latitude := value)
    case LongitudeAttr => s.(longitude := value)
    case LastUpdatedAttr => s.(lastUpdated := value)
    case LinksAttr => s.(links := value)
    case OtherAttr => s
  }

  /** The assignment loop over the body, in body order. */
  function ApplyBody(s: Stop, body: seq<(string, string)>): Stop
    decreases |body|
  {
    if body == [] then s
    else
      var n := |body| - 1;
      SetAttr(ApplyBody(s, body[..n]), body[n].0, body[n].1)
  }

  /** The row after the patch: the body applied, then `last_updated := now`. */
  function Patched(s: Stop, body: seq<(string, string)>, now: string): Stop
  {
    ApplyBody(s, body).(lastUpdated := now)
  }

  /** The value of the last body entry whose key names `a`, if any. */
  function LastValue(body: seq<(string, string)>, a: Attr): Option<string>
    decreases |body|
  {
    if body == [] then None
    else
      var n := |body| - 1;
      if AttrOf(body[n].0) == a then Some(body[n].1) else LastValue(body[..n], a)
  }

  /** After the assignment loop each column holds the value of the last body
      entry that names it, or its old value when no entry does. */
  lemma {:induction false} ApplyBodyColumns(s: Stop, body: seq<(string, string)>)
    ensures forall a :: IsColumn(a) ==>
      Get(ApplyBody(s, body), a) == (if LastValue(body, a).Some? then LastValue(body, a).value else Get(s, a))
    decreases |body|
  {
    if body != [] {
      ApplyBodyColumns(s, body[..|body| - 1]);
    }
  }

  /** The patched row: `last_updated` is the current time whatever the body
      says, and every other column holds the body's last value for it or
      its old value. */
  lemma PatchedColumns(s: Stop, body: seq<(string, string)>, now: string)
    ensures Patched(s, body, now).lastUpdated == now
    ensures forall a :: IsColumn(a) && a != LastUpdatedAttr ==>
      Get(Patched(s, body, now), a) == (if LastValue(body, a).Some? then LastValue(body, a).value else Get(s, a))
  {
    ApplyBodyColumns(s, body);
    forall a | IsColumn(a) && a != LastUpdatedAttr
      ensures Get(Patched(s, body, now), a) == Get(ApplyBody(s, body), a)
    {
    }
  }
}
