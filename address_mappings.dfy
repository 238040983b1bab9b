/**
  The address mappings a server registers at the Directory Service
  (HeartbeatThread.registerAddressMappings): which endpoints it advertises
  under its UUID, the URI each one carries, and the version stamp that lets
  the directory accept the update.

  The interface enumeration of NetUtils.getReachableEndpoints and the
  directory's reply are parameters.
 */
module AddressMappings {
  import opened Wrappers
  import opened JavaText

  const SchemePbrpc: string := "pbrpc"
  const SchemePbrpcs: string := "pbrpcs"
  const SchemePbrpcg: string := "pbrpcg"
  const SchemePbrpcu: string := "pbrpcu"

  const MatchAnyNetwork: string := "*"
  const MappingTtlS: int := 3600

  /** One mapping of the `DIR.AddressMapping` message. */
  datatype AddressMapping = AddressMapping(
    uuid: string,
    version: int,
    protocol: string,
    address: string,
    port: int,
    matchNetwork: string,
    ttlS: int,
    uri: string)

  /** The settings of the service configuration the mappings depend on.
      `listenAddress` is the host name of the configured listen address,
      None when no listen address is configured. */
  datatype ServiceConfig = ServiceConfig(
    hostName: string,
    listenAddress: Option<string>,
    port: int,
    usingSsl: bool,
    gridSslMode: bool)

  /** The protocol scheme: plain, SSL in GRID mode, or SSL. */
  function SchemeFor(usingSsl: bool, gridSslMode: bool): (scheme: string)
    ensures scheme == SchemePbrpc <==> !usingSsl
    ensures scheme == SchemePbrpcg <==> usingSsl && gridSslMode
    ensures scheme == SchemePbrpcs <==> usingSsl && !gridSslMode
    ensures scheme != SchemePbrpcu && ':' !in scheme
  {
    if !usingSsl then SchemePbrpc
    else if gridSslMode then SchemePbrpcg
    else SchemePbrpcs
  }

  // ---------------------------------------------------------------------
  // URIs

  function MappingUri(scheme: string, host: string, port: int): string {
    scheme + "://" + host + ":" + IntToString(port)
  }

  function FirstIndexOf(s: string, c: char): (r: Option<nat>)
    ensures r.Some? ==> r.value < |s| && s[r.value] == c && c !in s[..r.value]
    ensures r.None? ==> c !in s
  {
    if s == [] then None
    else if s[0] == c then Some(0)
    else
      match FirstIndexOf(s[1..], c)
      case None => None
      case Some(i) => assert s[..i + 1] == [s[0]] + s[1..][..i]; Some(i + 1)
  }

  function LastIndexOf(s: string, c: char): (r: Option<nat>)
    ensures r.Some? ==> r.value < |s| && s[r.value] == c && c !in s[r.value + 1..]
    ensures r.None? ==> c !in s
  {
    if s == [] then None
    else if s[|s| - 1] == c then Some(|s| - 1)
    else
      match LastIndexOf(s[..|s| - 1], c)
      case None => None
      case Some(i) => assert s[i + 1..] == s[..|s| - 1][i + 1..] + [s[|s| - 1]]; Some(i)
  }

  datatype UriParts = UriParts(scheme: string, host: string, port: int)

  /** Reads a mapping URI back: the scheme ends at the first ':', which
      must be followed by "//"; the rest is read by ParseHostPort. */
  function ParseUri(uri: string): Option<UriParts> {
    match FirstIndexOf(uri, ':')
    case None => None
    case Some(i) =>
      if i + 3 > |uri| || uri[i..i + 3] != "://" then None
      else
        match ParseHostPort(uri[i + 3..])
        case None => None
        case Some(hp) => Some(UriParts(uri[..i], hp.0, hp.1))
  }

  /** The port follows the last ':' and must read as a Java int. */
  function ParseHostPort(s: string): Option<(string, int)> {
    match LastIndexOf(s, ':')
    case None => None
    case Some(j) =>
      match ParseInt(s[j + 1..])
      case None => None
      case Some(port) => Some((s[..j], port))
  }

  lemma FirstIndexOfAt(a: string, c: char, b: string)
    requires c !in a
    ensures FirstIndexOf(a + [c] + b, c) == Some(|a|)
  {
    var s := a + [c] + b;
    var r := FirstIndexOf(s, c);
    assert s[|a|] == c;
    assert s[..|a|] == a;
  }

  lemma LastIndexOfAt(a: string, c: char, b: string)
    requires c !in b
    ensures LastIndexOf(a + [c] + b, c) == Some(|a|)
  {
    var s := a + [c] + b;
    assert s[|a|] == c;
    assert s[|a| + 1..] == b;
  }

  /** The URI of a mapping gives back its scheme, host and port, whatever
      the host (an IPv6 literal with colons included). */
  lemma UriRoundTrip(scheme: string, host: string, port: int)
    requires ':' !in scheme && InInt(port)
    ensures ParseUri(MappingUri(scheme, host, port)) == Some(UriParts(scheme, host, port))
  {
    var uri := MappingUri(scheme, host, port);
    var rest := host + [':'] + IntToString(port);
    var i := |scheme|;
    assert FirstIndexOf(uri, ':') == Some(i) by {
      UriSplit(scheme, host, port);
      FirstIndexOfAt(scheme, ':', "//" + rest);
    }
    assert i + 3 <= |uri| && uri[i..i + 3] == "://" && uri[..i] == scheme && uri[i + 3..] == rest by {
      UriSplit(scheme, host, port);
    }
    PortRoundTrip(host, port);
    ParseUriSplits(uri, i, (host, port));
  }

  lemma UriSplit(scheme: string, host: string, port: int)
    ensures MappingUri(scheme, host, port) == scheme + [':'] + ("//" + (host + [':'] + IntToString(port)))
  {
    assert MappingUri(scheme, host, port) == scheme + "://" + host + ":" + IntToString(port);
  }

  lemma ParseUriSplits(uri: string, i: nat, hp: (string, int))
    requires FirstIndexOf(uri, ':') == Some(i) && i + 3 <= |uri| && uri[i..i + 3] == "://"
    requires ParseHostPort(uri[i + 3..]) == Some(hp)
    ensures ParseUri(uri) == Some(UriParts(uri[..i], hp.0, hp.1))
  {
  }

  lemma PortRoundTrip(host: string, port: int)
    requires InInt(port)
    ensures ParseHostPort(host + [':'] + IntToString(port)) == Some((host, port))
  {
    var digits := IntToString(port);
    var rest := host + [':'] + digits;
    assert ':' !in digits;
    LastIndexOfAt(host, ':', digits);
    assert rest[..|host|] == host;
    assert rest[|host| + 1..] == digits;
    ParseIntOfIntToString(port);
  }

  // ---------------------------------------------------------------------
  // Endpoints

  /** Removes one leading '/', as a host name taken from an InetAddress may
      carry. */
  function StripLeadingSlash(host: string): (r: string)
    ensures StartsWith(host, "/") ==> host == "/" + r
    ensures !StartsWith(host, "/") ==> r == host
  {
    if StartsWith(host, "/") then host[1..] else host
  }

  /** The configured host name overrides the listen address. */
  predicate HasExplicitHost(config: ServiceConfig) {
    config.hostName != "" || config.listenAddress.Some?
  }

  function ExplicitHost(config: ServiceConfig): string
    requires HasExplicitHost(config)
  {
    StripLeadingSlash(if config.hostName == "" then config.listenAddress.value else config.hostName)
  }

  /** A fresh mapping of `uuid` to `scheme://host:port`, version 0. */
  function NewMapping(uuid: string, scheme: string, host: string, port: int): AddressMapping {
    AddressMapping(uuid, 0, scheme, host, port, MatchAnyNetwork, MappingTtlS, MappingUri(scheme, host, port))
  }

  /** The mappings for an explicitly configured host: `proto`, then the UDP
      scheme when UDP endpoints are advertised. */
  function ExplicitEndpoints(uuid: string, proto: string, host: string, port: int, advertiseUdp: bool): seq<AddressMapping> {
    [NewMapping(uuid, proto, host, port)] + (if advertiseUdp then [NewMapping(uuid, SchemePbrpcu, host, port)] else [])
  }

  /** Every endpoint put under `uuid`, nothing else changed. */
  function WithUuid(endpoints: seq<AddressMapping>, uuid: string): (r: seq<AddressMapping>)
    ensures |r| == |endpoints|
    ensures forall i :: 0 <= i < |r| ==> r[i] == endpoints[i].(uuid := uuid)
  {
    seq(|endpoints|, i requires 0 <= i < |endpoints| => endpoints[i].(uuid := uuid))
  }

  /** The endpoints to register, before the version stamp: the reachable
      endpoints when neither a host name nor a listen address is configured,
      otherwise the mappings for the explicit host. */
  function Endpoints(uuid: string, proto: string, config: ServiceConfig, advertiseUdp: bool,
                     reachable: seq<AddressMapping>, reachableUdp: seq<AddressMapping>): seq<AddressMapping>
  {
    if HasExplicitHost(config) then ExplicitEndpoints(uuid, proto, ExplicitHost(config), config.port, advertiseUdp)
    else WithUuid(reachable + (if advertiseUdp then reachableUdp else []), uuid)
  }

  /** The host name advertised afterwards. */
  function AdvertisedHost(config: ServiceConfig, reachable: seq<AddressMapping>, previous: Option<string>): Option<string> {
    if HasExplicitHost(config) then Some(ExplicitHost(config))
    else if |reachable| > 0 then Some(reachable[0].address)
    else previous
  }

  /** The version of the directory's current mappings, 0 if it has none. */
  function DirVersion(dirMappings: seq<AddressMapping>): int {
    if |dirMappings| > 0 then dirMappings[0].version else 0
  }

  /** Only the first endpoint carries the directory's version. */
  function StampVersion(endpoints: seq<AddressMapping>, version: int): (r: seq<AddressMapping>)
    ensures |r| == |endpoints|
    ensures |r| > 0 ==> r[0] == endpoints[0].(version := version)
    ensures forall i :: 0 < i < |r| ==> r[i] == endpoints[i]
  {
    if |endpoints| > 0 then endpoints[0 := endpoints[0].(version := version)] else endpoints
  }

  /** Puts every endpoint under `uuid` (the loop over the reachable endpoints). */
  method AssignUuid(endpoints: seq<AddressMapping>, uuid: string) returns (r: seq<AddressMapping>)
    ensures r == WithUuid(endpoints, uuid)
  {
    r := endpoints;
    var i := 0;
    while i < |r|
      invariant 0 <= i <= |r| == |endpoints|
      invariant forall j :: 0 <= j < i ==> r[j] == endpoints[j].(uuid := uuid)
      invariant forall j :: i <= j < |r| ==> r[j] == endpoints[j]
    {
      r := r[i := r[i].(uuid := uuid)];
      i := i + 1;
    }
  }

  /** `m` maps `uuid` to `host:port` for any network for 3600 s, under the
      URI of its own scheme, host and port (which reads back by UriRoundTrip). */
  predicate MapsTo(m: AddressMapping, uuid: string, host: string, port: int) {
    && m.uuid == uuid && m.address == host && m.port == port
    && m.matchNetwork == MatchAnyNetwork && m.ttlS == MappingTtlS
    && m.uri == MappingUri(m.protocol, host, port)
  }

  /** With an explicit host, the registered mappings are the `proto`
      mapping stamped with the directory's version and, when UDP endpoints
      are advertised, a `pbrpcu` mapping with version 0, each mapping the
      UUID to the host and the configured port. */
  lemma ExplicitMappingsRegistered(uuid: string, proto: string, config: ServiceConfig, advertiseUdp: bool,
                                   reachable: seq<AddressMapping>, reachableUdp: seq<AddressMapping>,
                                   dirMappings: seq<AddressMapping>)
    requires HasExplicitHost(config)
    ensures var ams := StampVersion(Endpoints(uuid, proto, config, advertiseUdp, reachable, reachableUdp), DirVersion(dirMappings));
      && |ams| == (if advertiseUdp then 2 else 1)
      && MapsTo(ams[0], uuid, ExplicitHost(config), config.port)
      && ams[0].protocol == proto && ams[0].version == DirVersion(dirMappings)
      && (advertiseUdp ==>
            && MapsTo(ams[1], uuid, ExplicitHost(config), config.port)
            && ams[1].protocol == SchemePbrpcu && ams[1].version == 0)
  {
    var host := ExplicitHost(config);
    var eps := ExplicitEndpoints(uuid, proto, host, config.port, advertiseUdp);
    assert Endpoints(uuid, proto, config, advertiseUdp, reachable, reachableUdp) == eps;
  }

  /** Without an explicit host, the reachable endpoints (then the reachable
      UDP endpoints when advertised) are registered in order under the
      service's UUID, only the first one re-versioned. */
  lemma ReachableMappingsRegistered(uuid: string, proto: string, config: ServiceConfig, advertiseUdp: bool,
                                    reachable: seq<AddressMapping>, reachableUdp: seq<AddressMapping>,
                                    dirMappings: seq<AddressMapping>)
    requires !HasExplicitHost(config)
    ensures var ams := StampVersion(Endpoints(uuid, proto, config, advertiseUdp, reachable, reachableUdp), DirVersion(dirMappings));
      var all := reachable + (if advertiseUdp then reachableUdp else []);
      && |ams| == |all|
      && (forall i :: 0 <= i < |ams| ==> ams[i].uuid == uuid && ams[i].uri == all[i].uri && ams[i].protocol == all[i].protocol)
      && (forall i :: 0 < i < |ams| ==> ams[i] == all[i].(uuid := uuid))
      && (|ams| > 0 ==> ams[0] == all[0].(uuid := uuid, version := DirVersion(dirMappings)))
  {
  }

  /** The advertised host name follows the explicit host or, without one,
      the first reachable `proto` endpoint, which is the first mapping
      registered. With neither it stays as it was, even when reachable UDP
      endpoints are registered. */
  lemma AdvertisedHostIsFirstAddress(uuid: string, proto: string, config: ServiceConfig, advertiseUdp: bool,
                                     reachable: seq<AddressMapping>, reachableUdp: seq<AddressMapping>,
                                     dirMappings: seq<AddressMapping>, previous: Option<string>)
    ensures var ams := StampVersion(Endpoints(uuid, proto, config, advertiseUdp, reachable, reachableUdp), DirVersion(dirMappings));
      && (HasExplicitHost(config) || |reachable| > 0 ==> AdvertisedHost(config, reachable, previous) == Some(ams[0].address))
      && (!HasExplicitHost(config) && |reachable| == 0 ==>
            && AdvertisedHost(config, reachable, previous) == previous
            && |ams| == (if advertiseUdp then |reachableUdp| else 0))
  {
    var all := reachable + (if advertiseUdp then reachableUdp else []);
    if !HasExplicitHost(config) && |reachable| > 0 {
      assert all[0] == reachable[0];
    }
  }
}
