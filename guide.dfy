/** The tourism guide search (main.py:276-318): every unordered pair of
    stored stop ids is tried in index order against the route source, and
    the search stops at the first answer that is not empty: 503 on a
    transport failure, 500 when that answer has no first journey or leg,
    otherwise a five-line `key: value` artifact. The route source, the text generator and the
    rendering of the top result's dictionary are parameters. */
module Guide {
  import opened Text

  /** One leg of a journey, with the fields the artifact uses. */
  datatype Leg = Leg(
    origin: string,
    destination: string,
    product: string,
    lineName: string,
    departurePlatform: string,
    direction: string,
    departure: string,
    arrival: string)

  datatype Journey = Journey(legs: seq<Leg>)

  /** One call of the route source for a pair: a transport failure, a falsy
      (empty) answer, or a truthy answer carrying its `journeys` list. */
  datatype RouteReply = RouteFailure | RouteEmpty | RouteFound(journeys: seq<Journey>)

  /** The "Top result" dictionary of main.py:302-308. */
  datatype TopResult = TopResult(
    transportationType: string,
    transportationName: string,
    platform: string,
    departureTime: string,
    arrivalTime: string)

  datatype GuideReply =
    | TooFewStops          // fewer than two stored stops
    | SourceUnavailable    // a route call failed
    | MalformedRoute       // a truthy answer without a first journey or first leg
    | Artifact(lines: seq<string>)
    | NoRoute              // every pair answered empty
  {
    function Code(): int
    {
      match this
      case TooFewStops => 400
      case SourceUnavailable => 503
      case MalformedRoute => 500
      case Artifact(_) => 200
      case NoRoute => 404
    }
  }

  // ---------------------------------------------------------------------
  // Pair enumeration
  // ---------------------------------------------------------------------

  /** The pairs the inner loop forms for index `i`: `(keys[i], keys[j])` for `j > i`. */
  function Row(keys: seq<string>, i: nat): (r: seq<(string, string)>)
    requires i < |keys|
    ensures |r| == |keys| - i - 1
    ensures forall m :: 0 <= m < |r| ==> r[m] == (keys[i], keys[i + 1 + m])
  {
    seq(|keys| - i - 1, m requires 0 <= m < |keys| - i - 1 => (keys[i], keys[i + 1 + m]))
  }

  /** The pairs of the first `i` outer iterations, in loop order. */
  function PairsBefore(keys: seq<string>, i: nat): seq<(string, string)>
    requires i <= |keys|
  {
    if i == 0 then [] else PairsBefore(keys, i - 1) + Row(keys, i - 1)
  }

  /** All pairs `(keys[i], keys[j])` with `i < j`, in lexicographic index order. */
  function Pairs(keys: seq<string>): seq<(string, string)>
  {
    PairsBefore(keys, |keys|)
  }

  /** Where the pair of indices `i < j` stands in the enumeration. */
  function PairIndex(keys: seq<string>, i: nat, j: nat): nat
    requires i < j < |keys|
  {
    |PairsBefore(keys, i)| + (j - i - 1)
  }

  /** The first `i` rows are the first `2|rows| = i(2n - i - 1)` pairs. */
  lemma {:induction false} PairsBeforeCount(keys: seq<string>, i: nat)
    requires i <= |keys|
    ensures 2 * |PairsBefore(keys, i)| == i * (2 * |keys| - i - 1)
  {
    if i > 0 {
      PairsBeforeCount(keys, i - 1);
      var n := |keys|;
      calc {
        2 * |PairsBefore(keys, i)|;
        2 * |PairsBefore(keys, i - 1)| + 2 * (n - i);
        (i - 1) * (2 * n - i) + 2 * (n - i);
        { assert (i - 1) * (2 * n - i) == i * (2 * n - i) - (2 * n - i); }
        i * (2 * n - i) - (2 * n - i) + 2 * n - 2 * i;
        i * (2 * n - i) - i;
        { assert i * (2 * n - i) - i == i * (2 * n - i - 1); }
        i * (2 * n - i - 1);
      }
    }
  }

  /** n stops give n(n-1)/2 pairs. */
  lemma PairsCount(keys: seq<string>)
    ensures 2 * |Pairs(keys)| == |keys| * (|keys| - 1)
  {
    PairsBeforeCount(keys, |keys|);
  }

  /** Earlier outer iterations enumerate a prefix of later ones. */
  lemma {:induction false} PairsBeforePrefix(keys: seq<string>, a: nat, b: nat)
    requires a <= b <= |keys|
    ensures |PairsBefore(keys, a)| <= |PairsBefore(keys, b)|
    ensures PairsBefore(keys, a) == PairsBefore(keys, b)[..|PairsBefore(keys, a)|]
    decreases b - a
  {
    if a < b {
      PairsBeforePrefix(keys, a, b - 1);
      var p, q := PairsBefore(keys, a), PairsBefore(keys, b - 1);
      assert PairsBefore(keys, b)[..|q|] == q;
      assert PairsBefore(keys, b)[..|p|] == q[..|p|];
    }
  }

  /** A part of row `i` after the earlier rows is a prefix of the enumeration. */
  lemma PartialRowPrefix(keys: seq<string>, i: nat, m: nat)
    requires i < |keys| && m <= |keys| - i - 1
    ensures var t := PairsBefore(keys, i) + Row(keys, i)[..m];
      |t| <= |Pairs(keys)| && t == Pairs(keys)[..|t|]
  {
    PairsBeforePrefix(keys, i + 1, |keys|);
    var t := PairsBefore(keys, i) + Row(keys, i)[..m];
    var whole := PairsBefore(keys, i + 1);
    assert t == whole[..|t|];
  }

  /** The pair of indices `i < j` is tried at position `PairIndex(keys, i, j)`. */
  lemma PairPosition(keys: seq<string>, i: nat, j: nat)
    requires i < j < |keys|
    ensures PairIndex(keys, i, j) < |Pairs(keys)|
    ensures Pairs(keys)[PairIndex(keys, i, j)] == (keys[i], keys[j])
  {
    PartialRowPrefix(keys, i, j - i);
    var t := PairsBefore(keys, i) + Row(keys, i)[..j - i];
    assert t[PairIndex(keys, i, j)] == Row(keys, i)[j - i - 1];
  }

  /** Pairs are tried in lexicographic order of their indices. */
  lemma PairOrder(keys: seq<string>, i: nat, j: nat, i': nat, j': nat)
    requires i < j < |keys| && i' < j' < |keys|
    requires i < i' || (i == i' && j < j')
    ensures PairIndex(keys, i, j) < PairIndex(keys, i', j')
  {
    if i < i' {
      PairsBeforePrefix(keys, i + 1, i');
    }
  }

  // ---------------------------------------------------------------------
  // The artifact
  // ---------------------------------------------------------------------

  function PlatformText(leg: Leg): string
  {
    "Departure from platform " + leg.departurePlatform + " towards " + leg.direction
  }

  function TopOf(leg: Leg): TopResult
  {
    TopResult(leg.product, leg.lineName, PlatformText(leg), leg.departure, leg.arrival)
  }

  /** The prompt sent to the text generator for the destination. */
  function DescriptionPrompt(destination: string): string
  {
    "Give me an overview of " + destination + " in around 50 words as a tourism guide"
  }

  /** The artifact's keys, in the order its lines are written. */
  const ArtifactKeys: seq<string> := ["From", "To", "Result", "Top result", "Description_to_Destination"]

  /** One line of the artifact. Values are written as they are: a value
      holding a newline spreads over several lines of the file. */
  function Line(key: string, value: string): string
  {
    key + ": " + value + "\n"
  }

  /** The values written for a truthy answer; the first leg of the first
      journey supplies all of them but the journey count. */
  function ArtifactValues(journeys: seq<Journey>, describe: string -> string, render: TopResult -> string)
    : (vs: seq<string>)
    requires |journeys| > 0 && |journeys[0].legs| > 0
    ensures |vs| == 5
  {
    var leg := journeys[0].legs[0];
    [leg.origin, leg.destination, NatToString(|journeys|), render(TopOf(leg)),
     describe(DescriptionPrompt(leg.destination))]
  }

  /** The artifact: exactly five lines, one per key of `ArtifactKeys`, in that order. */
  function ArtifactLines(journeys: seq<Journey>, describe: string -> string, render: TopResult -> string)
    : (lines: seq<string>)
    requires |journeys| > 0 && |journeys[0].legs| > 0
    ensures |lines| == |ArtifactKeys|
    ensures forall i :: 0 <= i < |lines| ==>
      lines[i] == Line(ArtifactKeys[i], ArtifactValues(journeys, describe, render)[i])
  {
    var vs := ArtifactValues(journeys, describe, render);
    seq(5, i requires 0 <= i < 5 => Line(ArtifactKeys[i], vs[i]))
  }

  /** Position of the first `c` in `s`, or `|s|` when there is none. */
  function IndexOf(s: string, c: char): (i: nat)
    ensures i <= |s| && c !in s[..i]
    ensures i < |s| ==> s[i] == c
  {
    if |s| == 0 then 0
    else if s[0] == c then 0
    else
      var j := IndexOf(s[1..], c);
      assert s[..1 + j] == [s[0]] + s[1..][..j];
      1 + j
  }

  /** Reads one artifact line back: the key before the first ':', the value
      after ": " and before the final newline. */
  function ParseLine(line: string): (string, string)
  {
    var i := IndexOf(line, ':');
    if i + 3 <= |line| then (line[..i], line[i + 2..|line| - 1]) else (line[..i], "")
  }

  /** A line whose key has no ':' reads back as its key and value. */
  lemma ParseLineOfLine(key: string, value: string)
    requires ':' !in key
    ensures ParseLine(Line(key, value)) == (key, value)
  {
    var line := Line(key, value);
    assert line[|key|] == ':';
    assert line[..|key|] == key;
    assert IndexOf(line, ':') == |key|;
    assert line[|key| + 2..|line| - 1] == value;
  }

  /** Reading the artifact back gives its five keys and values, and the
      "Result" value is the number of journeys. */
  lemma ArtifactRoundTrip(journeys: seq<Journey>, describe: string -> string, render: TopResult -> string)
    requires |journeys| > 0 && |journeys[0].legs| > 0
    ensures var lines := ArtifactLines(journeys, describe, render);
      forall i :: 0 <= i < |lines| ==> ParseLine(lines[i]) == (ArtifactKeys[i], ArtifactValues(journeys, describe, render)[i])
    ensures var v := ParseLine(ArtifactLines(journeys, describe, render)[2]).1;
      (forall k :: 0 <= k < |v| ==> IsDigitChar(v[k])) && ParseNat(v) == |journeys|
  {
    var vs := ArtifactValues(journeys, describe, render);
    forall i | 0 <= i < 5
      ensures ParseLine(Line(ArtifactKeys[i], vs[i])) == (ArtifactKeys[i], vs[i])
    {
      assert ':' !in ArtifactKeys[i];
      ParseLineOfLine(ArtifactKeys[i], vs[i]);
    }
    ParseNatToString(|journeys|);
  }

  /** What the artifact says: `From` and `To` are the first leg's origin and
      destination, `Top result` is the rendered dictionary of that leg with
      its platform sentence, and the description is the generator's answer
      to the overview prompt for the destination. */
  lemma ArtifactContents(journeys: seq<Journey>, describe: string -> string, render: TopResult -> string)
    requires |journeys| > 0 && |journeys[0].legs| > 0
    ensures var lines, leg := ArtifactLines(journeys, describe, render), journeys[0].legs[0];
      && ParseLine(lines[0]) == ("From", leg.origin)
      && ParseLine(lines[1]) == ("To", leg.destination)
      && ParseLine(lines[3]) == ("Top result", render(TopResult(leg.product, leg.lineName,
           "Departure from platform " + leg.departurePlatform + " towards " + leg.direction,
           leg.departure, leg.arrival)))
      && ParseLine(lines[4]) == ("Description_to_Destination",
           describe("Give me an overview of " + leg.destination + " in around 50 words as a tourism guide"))
  {
    ArtifactRoundTrip(journeys, describe, render);
  }

  // ---------------------------------------------------------------------
  // The search
  // ---------------------------------------------------------------------

  /** What the handler returns for the first answer that is not empty. */
  function Answer(r: RouteReply, describe: string -> string, render: TopResult -> string): GuideReply
    requires !r.RouteEmpty?
  {
    match r
    case RouteFailure => SourceUnavailable
    case RouteFound(js) =>
      if |js| == 0 || |js[0].legs| == 0 then MalformedRoute
      else Artifact(ArtifactLines(js, describe, render))
  }

  /** Every pair tried so far answered empty. */
  ghost predicate AllEmpty(tried: seq<(string, string)>, route: (string, string) -> RouteReply)
  {
    forall k :: 0 <= k < |tried| ==> route(tried[k].0, tried[k].1).RouteEmpty?
  }

  /** What the search promises: fewer than two ids give 400 without a call;
      otherwise the calls made, in order, are a prefix of the pair
      enumeration, every call but the last answered empty, 404 comes only
      after every pair answered empty, and any other reply is made from the
      last call's answer. */
  ghost predicate SearchOutcome(
    keys: seq<string>,
    route: (string, string) -> RouteReply,
    describe: string -> string,
    render: TopResult -> string,
    reply: GuideReply,
    tried: seq<(string, string)>)
  {
    if |keys| < 2 then reply == TooFewStops && tried == []
    else
      && |tried| <= |Pairs(keys)| && tried == Pairs(keys)[..|tried|]
      && (forall k :: 0 <= k < |tried| - 1 ==> route(tried[k].0, tried[k].1).RouteEmpty?)
      && (reply.NoRoute? ==> tried == Pairs(keys) && AllEmpty(tried, route))
      && (!reply.NoRoute? ==>
            && |tried| > 0
            && var last := tried[|tried| - 1];
            && !route(last.0, last.1).RouteEmpty?
            && reply == Answer(route(last.0, last.1), describe, render))
  }

  /** The handler, over the stored ids `keys` in scan order; `tried` records
      the route calls made, in call order. */
  method GuideSearch(
    keys: seq<string>,
    route: (string, string) -> RouteReply,
    describe: string -> string,
    render: TopResult -> string)
    returns (reply: GuideReply, tried: seq<(string, string)>)
    ensures SearchOutcome(keys, route, describe, render, reply, tried)
  {
    if |keys| < 2 {
      return TooFewStops, [];
    }
    tried := [];
    var n := |keys|;
    for i := 0 to n
      invariant tried == PairsBefore(keys, i)
      invariant AllEmpty(tried, route)
    {
      for j := i + 1 to n
        invariant tried == PairsBefore(keys, i) + Row(keys, i)[..j - i - 1]
        invariant AllEmpty(tried, route)
      {
        var r := route(keys[i], keys[j]);
        tried := tried + [(keys[i], keys[j])];
        assert tried == PairsBefore(keys, i) + Row(keys, i)[..j - i];
        if !r.RouteEmpty? {
          PartialRowPrefix(keys, i, j - i);
          reply := Answer(r, describe, render);
          return;
        }
      }
      assert Row(keys, i)[..n - i - 1] == Row(keys, i);
    }
    reply := NoRoute;
  }

  /** With a route source that always answers empty, a search over n >= 2
      ids reports no route after exactly n(n-1)/2 calls. */
  lemma ExhaustedSearch(
    keys: seq<string>,
    route: (string, string) -> RouteReply,
    describe: string -> string,
    render: TopResult -> string,
    reply: GuideReply,
    tried: seq<(string, string)>)
    requires SearchOutcome(keys, route, describe, render, reply, tried)
    requires |keys| >= 2
    requires forall a, b :: route(a, b).RouteEmpty?
    ensures reply == NoRoute
    ensures 2 * |tried| == |keys| * (|keys| - 1)
  {
    PairsCount(keys);
  }

  /** The first pair whose answer is not empty decides the reply: when the
      pair at position `m` is the first such pair, exactly the pairs up to
      it are tried and the reply is made from its answer. */
  lemma FirstAnswerDecides(
    keys: seq<string>,
    route: (string, string) -> RouteReply,
    describe: string -> string,
    render: TopResult -> string,
    reply: GuideReply,
    tried: seq<(string, string)>,
    m: nat)
    requires SearchOutcome(keys, route, describe, render, reply, tried)
    requires |keys| >= 2 && m < |Pairs(keys)|
    requires !route(Pairs(keys)[m].0, Pairs(keys)[m].1).RouteEmpty?
    requires forall k :: 0 <= k < m ==> route(Pairs(keys)[k].0, Pairs(keys)[k].1).RouteEmpty?
    ensures tried == Pairs(keys)[..m + 1]
    ensures reply == Answer(route(Pairs(keys)[m].0, Pairs(keys)[m].1), describe, render)
  {
  }

  /** The enumeration example: for ids S1, S2, S3 the pairs are tried as
      (S1, S2), (S1, S3), (S2, S3). */
  lemma PairsExample()
    ensures Pairs(["S1", "S2", "S3"]) == [("S1", "S2"), ("S1", "S3"), ("S2", "S3")]
  {
    var keys := ["S1", "S2", "S3"];
    assert Row(keys, 0) == [("S1", "S2"), ("S1", "S3")];
    assert Row(keys, 1) == [("S2", "S3")];
    assert Row(keys, 2) == [];
    assert PairsBefore(keys, 1) == [("S1", "S2"), ("S1", "S3")];
    assert PairsBefore(keys, 2) == [("S1", "S2"), ("S1", "S3"), ("S2", "S3")];
  }
}
