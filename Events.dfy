/**
 * createEvent / createEvents: the block events sent to the Umbrella
 * Enforcement API, one per domain, all stamped with the run's timestamp.
 */
module Events {
  import opened Wrappers

  const DeviceId: string := "ba6a59f4-e692-4724-ba36-c28132c761df"
  const DeviceVersion: string := "1.0"
  const ProtocolVersion: string := "1.0"
  const ProviderName: string := "Steven Black Hosts"
  const UrlScheme: string := "http://"

  /** The dictionary createEvent returns, with its eight keys as fields. */
  datatype Event = Event(
    alertTime: string,
    deviceId: string,
    deviceVersion: string,
    dstDomain: string,
    dstUrl: string,
    eventTime: string,
    protocolVersion: string,
    providerName: string)

  /** The domain an `http://` URL points at. */
  function UrlDomain(url: string): (r: Option<string>)
    ensures r.Some? ==> url == UrlScheme + r.value
  {
    if |url| >= |UrlScheme| && url[..|UrlScheme|] == UrlScheme then Some(url[|UrlScheme|..]) else None
  }

  /** An event that blocks dn, stamped with time, from this provider. */
  predicate BlocksDomain(e: Event, dn: string, time: string) {
    e.dstDomain == dn && UrlDomain(e.dstUrl) == Some(dn) &&
    e.alertTime == time && e.eventTime == time &&
    e.deviceId == DeviceId && e.deviceVersion == DeviceVersion &&
    e.protocolVersion == ProtocolVersion && e.providerName == ProviderName
  }

  function CreateEvent(dn: string, time: string): (e: Event)
    ensures BlocksDomain(e, dn, time)
  {
    var url := UrlScheme + dn;
    assert url[..|UrlScheme|] == UrlScheme;
    Event(
      alertTime := time,
      deviceId := DeviceId,
      deviceVersion := DeviceVersion,
      dstDomain := dn,
      dstUrl := url,
      eventTime := time,
      protocolVersion := ProtocolVersion,
      providerName := ProviderName)
  }

  /** BlocksDomain pins the event down: CreateEvent is the only event that blocks dn at time. */
  lemma BlocksDomainUnique(e: Event, dn: string, time: string)
    requires BlocksDomain(e, dn, time)
    ensures e == CreateEvent(dn, time)
  {
  }

  /** Two events of one run are equal exactly when their domains are. */
  lemma CreateEventInjective(a: string, b: string, time: string)
    ensures CreateEvent(a, time) == CreateEvent(b, time) <==> a == b
  {
  }

  /** createEvents: one event per domain, in the order of the domains. */
  method CreateEvents(domains: seq<string>, time: string) returns (events: seq<Event>)
    ensures |events| == |domains|
    ensures forall i :: 0 <= i < |domains| ==> BlocksDomain(events[i], domains[i], time)
  {
    events := [];
    for i := 0 to |domains|
      invariant |events| == i
      invariant forall k :: 0 <= k < i ==> events[k] == CreateEvent(domains[k], time)
    {
      events := events + [CreateEvent(domains[i], time)];
    }
  }

  /** Events of pairwise-distinct domains are pairwise distinct. */
  lemma DistinctDomainsDistinctEvents(domains: seq<string>, events: seq<Event>, time: string)
    requires |events| == |domains|
    requires forall i :: 0 <= i < |domains| ==> BlocksDomain(events[i], domains[i], time)
    ensures forall i, j :: 0 <= i < j < |events| ==> (events[i] == events[j] <==> domains[i] == domains[j])
  {
    forall i, j | 0 <= i < j < |events|
      ensures events[i] == events[j] <==> domains[i] == domains[j]
    {
      BlocksDomainUnique(events[i], domains[i], time);
      BlocksDomainUnique(events[j], domains[j], time);
      CreateEventInjective(domains[i], domains[j], time);
    }
  }
}
