/** The operator profiles endpoint (main.py:254-272): the stop id check, the
    choice of at most five distinct operators and one generated profile per
    operator. The text generator is a parameter. */
module Operators {
  import opened Seqs
  import opened Text
  import opened Records

  /** The `limit(5)` of main.py:258. */
  const ProfileLimit: nat := 5

  /** main.py:256: the id is all digits, exactly seven characters long and stored. */
  predicate ValidStopId(id: string, stops: map<string, Stop>)
  {
    IsDigits(id) && |id| == 7 && id in stops
  }

  /** `SELECT DISTINCT operator ... LIMIT 5` over the operator column of the
      whole departure table, given in scan order. */
  function TargetOperators(operators: seq<string>): (r: seq<string>)
    ensures |r| <= ProfileLimit && Distinct(r)
    ensures forall x :: x in r ==> x in operators
    ensures |r| < ProfileLimit ==> forall x :: x in operators ==> x in r
  {
    var d := Dedup(operators);
    if |d| <= ProfileLimit then d
    else
      assert forall i, j :: 0 <= i < j < ProfileLimit ==> d[..ProfileLimit][i] != d[..ProfileLimit][j];
      d[..ProfileLimit]
  }

  /** The prompt sent to the text generator for one operator. */
  function Prompt(op: string): string
  {
    "Tell me something about " + op + " in around 100 words"
  }

  datatype Profile = Profile(operatorName: string, information: string)

  /** One element of the returned list; each holds a single profile. */
  datatype ProfileEntry = ProfileEntry(stopId: string, profiles: seq<Profile>)

  datatype OperatorReply = BadStopId | Profiles(entries: seq<ProfileEntry>)
  {
    function Code(): int
    {
      if BadStopId? then 400 else 200
    }
  }

  /** What the handler promises: 400 exactly for an invalid stop id, and
      otherwise one entry per target operator, in order, each holding the
      generated profile of that operator. */
  predicate ProfilesOutcome(
    stopId: string,
    stops: map<string, Stop>,
    operators: seq<string>,
    describe: string -> string,
    reply: OperatorReply)
  {
    && (reply.BadStopId? <==> !ValidStopId(stopId, stops))
    && (reply.Profiles? ==>
          var ts := TargetOperators(operators);
          && |reply.entries| == |ts|
          && forall i :: 0 <= i < |ts| ==>
               reply.entries[i] == ProfileEntry(stopId, [Profile(ts[i], describe(Prompt(ts[i])))]))
  }

  /** The handler. `operators` is the operator column of every stored
      departure in scan order, not only of the requested stop's. */
  method OperatorInfo(stopId: string, stops: map<string, Stop>, operators: seq<string>, describe: string -> string)
    returns (reply: OperatorReply)
    ensures ProfilesOutcome(stopId, stops, operators, describe, reply)
  {
    if !IsDigits(stopId) || |stopId| != 7 || stopId !in stops {
      return BadStopId;
    }
    var targets := TargetOperators(operators);
    var entries: seq<ProfileEntry> := [];
    for i := 0 to |targets|
      invariant |entries| == i
      invariant forall k :: 0 <= k < i ==>
        entries[k] == ProfileEntry(stopId, [Profile(targets[k], describe(Prompt(targets[k])))])
    {
      var info := describe(Prompt(targets[i]));
      entries := entries + [ProfileEntry(stopId, [Profile(targets[i], info)])];
    }
    reply := Profiles(entries);
  }

  /** An accepted request lists at most five operators, none twice, each an
      operator of some stored departure; fewer than five only when the table
      has no other operator. */
  lemma ProfilesBounded(entries: seq<ProfileEntry>, stopId: string, operators: seq<string>, describe: string -> string)
    requires var ts := TargetOperators(operators);
      |entries| == |ts|
      && forall i :: 0 <= i < |ts| ==> entries[i] == ProfileEntry(stopId, [Profile(ts[i], describe(Prompt(ts[i])))])
    ensures |entries| <= ProfileLimit
    ensures forall i, j :: 0 <= i < j < |entries| ==>
      entries[i].profiles[0].operatorName != entries[j].profiles[0].operatorName
    ensures forall i :: 0 <= i < |entries| ==> entries[i].profiles[0].operatorName in operators
    ensures |entries| < ProfileLimit ==>
      forall x :: x in operators ==> exists i :: 0 <= i < |entries| && entries[i].profiles[0].operatorName == x
  {
    var ts := TargetOperators(operators);
    if |entries| < ProfileLimit {
      forall x | x in operators
        ensures exists i :: 0 <= i < |entries| && entries[i].profiles[0].operatorName == x
      {
        var i :| 0 <= i < |ts| && ts[i] == x;
        assert entries[i].profiles[0].operatorName == x;
      }
    }
  }
}
