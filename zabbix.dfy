/** The data-holding part of the package: metrics, the default settings of a
    sender and the normalisation of collector addresses (zabbix.go). */
module Zabbix {

  /** time.Duration counts nanoseconds. */
  const Second: int := 1_000_000_000

  const DefaultConnectTimeout: int := 5 * Second
  const DefaultWriteTimeout: int := 5 * Second
  const DefaultReadTimeout: int := 15 * Second
  const DefaultMaxRedirects: int := 3
  const DefaultUpdateHost: bool := false

  /** The port a collector address gets when it names none. */
  const DefaultPort: string := "10051"

  /** A time.Time as the package reads it: Unix() seconds and Nanosecond(). */
  datatype Time = Time(unix: int, nanosecond: int)

  /** One data point. Clock and ns are 0 when no timestamp was given, which the
      JSON encoding then omits; active selects "agent data" over "sender data". */
  datatype Metric = Metric(host: string, key: string, value: string, clock: int, ns: int, active: bool)

  /** NewMetric: the optional timestamp is Go's variadic t, of which only the
      first element is read. */
  function NewMetric(host: string, key: string, value: string, agentActive: bool, t: seq<Time>): (m: Metric)
    ensures m.host == host && m.key == key && m.value == value
    ensures m.active == agentActive
    ensures |t| == 0 ==> m.clock == 0 && m.ns == 0
    ensures |t| > 0 ==> m.clock == t[0].unix && m.ns == t[0].nanosecond
  {
    var m := Metric(host, key, value, 0, 0, agentActive);
    if |t| > 0 then m.(clock := t[0].unix, ns := t[0].nanosecond) else m
  }

  /** normalizeHost: an address without a port gets the default one; an
      address that already has a "host:port" form is kept as it is. */
  function NormalizeHost(host: string): (r: string)
    ensures ':' in r
    ensures ':' in host ==> r == host
    ensures ':' !in host ==> r == host + ":" + DefaultPort
  {
    if ':' in host then host else host + ":" + DefaultPort
  }

  /** Normalising is idempotent: a normalised address is left alone. */
  lemma NormalizeHostIdempotent(host: string)
    ensures NormalizeHost(NormalizeHost(host)) == NormalizeHost(host)
  {
  }

  /** The three cases the package's tests check. */
  lemma NormalizeHostExamples()
    ensures NormalizeHost("zabbix-proxy") == "zabbix-proxy:10051"
    ensures NormalizeHost("zabbix-proxy:10051") == "zabbix-proxy:10051"
    ensures NormalizeHost("zabbix-proxy1:10051") == "zabbix-proxy1:10051"
    ensures NormalizeHost("zabbix-proxy2") == "zabbix-proxy2:10051"
  {
    assert "zabbix-proxy:10051"[12] == ':';
    assert "zabbix-proxy1:10051"[13] == ':';
  }

  /** The loop of NewSenderHosts: every address normalised, in order. */
  method NormalizeHosts(hosts: seq<string>) returns (norm: seq<string>)
    ensures |norm| == |hosts|
    ensures forall k :: 0 <= k < |hosts| ==> norm[k] == NormalizeHost(hosts[k])
  {
    norm := [];
    var k := 0;
    while k < |hosts|
      invariant 0 <= k <= |hosts|
      invariant |norm| == k
      invariant forall j :: 0 <= j < k ==> norm[j] == NormalizeHost(hosts[j])
    {
      norm := norm + [NormalizeHost(hosts[k])];
      k := k + 1;
    }
  }
}
