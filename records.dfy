/** The two persisted entities of the service (a stop and a departure), the
    payloads fetched for them from the transport data source, and the fixed
    link template of a stop. */
module Records {
  import opened Text

  datatype Option<T> = None | Some(value: T)

  /** The port the service listens on; links to stops embed it. */
  const Port: nat := 8888

  /** A row of the stop table; `links` is the stored self link. */
  datatype Stop = Stop(
    stopId: string,
    name: string,
    latitude: string,
    longitude: string,
    lastUpdated: string,
    links: string)

  /** A row of the departure table. */
  datatype Departure = Departure(
    tripId: string,
    stopId: string,
    platform: string,
    direction: string,
    operator: string,
    lastUpdated: string)

  /** One location returned by the stop search: its id, name and coordinates. */
  datatype FetchedStop = FetchedStop(id: string, name: string, latitude: string, longitude: string)

  /** One departure returned for a stop; the source may send no platform. */
  datatype FetchedDeparture = FetchedDeparture(
    tripId: string,
    stopId: string,
    platform: Option<string>,
    direction: string,
    operatorName: string)

  /** Python truthiness of the platform value: present and not empty. */
  predicate Truthy(platform: Option<string>)
  {
    platform.Some? && platform.value != ""
  }

  function LinkPrefix(host: string): string
  {
    "http://" + host + ":" + NatToString(Port) + "/stops/"
  }

  /** The self link of a stop, `http://{host}:{port}/stops/{id}`. */
  function SelfLink(host: string, id: string): (link: string)
    ensures |link| == |LinkPrefix(host)| + |id|
    ensures link[..|LinkPrefix(host)|] == LinkPrefix(host)
    ensures link[|LinkPrefix(host)|..] == id
  {
    LinkPrefix(host) + id
  }

  /** Two stops of one host never share a self link. */
  lemma SelfLinkInjective(host: string, a: string, b: string)
    requires SelfLink(host, a) == SelfLink(host, b)
    ensures a == b
  {
    assert a == SelfLink(host, a)[|LinkPrefix(host)|..];
  }

  /** Every stop is stored under its own id. */
  ghost predicate StopsKeyed(stops: map<string, Stop>)
  {
    forall k :: k in stops ==> stops[k].stopId == k
  }

  /** Every departure is stored under its own trip id. */
  ghost predicate DeparturesKeyed(departures: map<string, Departure>)
  {
    forall k :: k in departures ==> departures[k].tripId == k
  }
}
