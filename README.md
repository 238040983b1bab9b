# XtreemFS heartbeat registration, modelled in Dafny

An XtreemFS server (DIR, MRC or OSD) runs a heartbeat thread. The thread
keeps the server's entries at the Directory Service (DIR) up to date, and
this project models the part of it that decides what those entries
contain:

- **Service registration.** For every service the server registers, the
  thread looks up the record the DIR already holds under the same UUID. It
  then builds the new record:
  - the version is the stored one, or 0;
  - the stored `static.` attributes come first, with a default
    `static.status` of `0` (available) when the stored record has none;
  - the dynamic data follows. For a volume registered again, this is the
    stored replica list (`mrc`, `mrc2`, …), then the registering MRC under
    the next vacant key if it is not listed yet, then the registration's
    other entries. For every other service it is the registration's data
    unchanged.
- **Address mappings.** The thread registers the mappings of its UUID to
  network endpoints, and only the first mapping carries the DIR's current
  version. The endpoints are either the reachable interfaces, or the
  configured host name or listen address (without a leading `/`). The
  second form gives a `proto://host:port` mapping and, optionally, a UDP
  one.
- **Scheme selection.** The protocol scheme is chosen once, in the
  constructor, from the SSL settings.

Modules:

- `Wrappers`: `Option` and `Result`.
- `JavaText`: the Java library behaviour the code relies on. This covers
  `Integer.parseInt`, `Integer.toString` and 32-bit `int` wrap-around.
- `ServiceRegistration`: the record merge of `registerServices`. It has
  specification functions (`StaticAttrs`, `MaxMrcNo`, `VolumeData`,
  `DynamicData`, `IsMergedRecord`) and the methods that build the record
  step by step, each proved against them.
- `AddressMappings`: the mappings, their URIs and the version stamp.
- `Heartbeat`: the class `HeartbeatThread`. It holds the scheme chosen by
  the constructor and the advertised host name that
  `RegisterAddressMappings` updates.

Calls to the DIR and to `NetUtils` become parameters:

- the replies to the lookups by UUID are a sequence, one per registered service, in order. A later reply may already hold a record registered earlier in the same round;
- the DIR's current address mappings are a sequence;
- the reachable endpoints are sequences.

The scheme strings `pbrpc`, `pbrpcs`, `pbrpcg` and `pbrpcu` come from
`Schemes.java`, and the status value `0` comes from `DIR.proto`. Neither
file is part of this model, so these constants are taken as the XtreemFS
sources define them.

Exceptions in the volume branch become `MergeError` values:

- `BadMrcSuffix`: a replica key whose suffix `Integer.parseInt` rejects
  (a `NumberFormatException`);
- `MissingMrcUuid`: a volume registration without an `mrc` entry. The
  source asserts that this cannot happen. With Java assertions disabled, as
  they are by default, the code reaches `setValue(null)` and throws a
  `NullPointerException` after the replica scan, so the model reports this
  error only when the scan succeeds.

## Model

| member | source | states |
|---|---|---|
| JavaText.Wrap32 | java/servers/src/org/xtreemfs/common/HeartbeatThread.java:371 | the result of Java `int` addition is in `int` range and is the exact sum whenever that is in range |
| JavaText.Wrap32Congruent | java/servers/src/org/xtreemfs/common/HeartbeatThread.java:371 | the wrapped result differs from the exact sum by a multiple of 2^32, which with its `int` range fixes it completely |
| JavaText.Wrap32Overflow | java/servers/src/org/xtreemfs/common/HeartbeatThread.java:371 | adding 1 fails to increase an `int` exactly at 2147483647, which wraps to -2147483648 |
| JavaText.IntToString | java/servers/src/org/xtreemfs/common/HeartbeatThread.java:320 | `Integer.toString` gives a nonempty string of digits with a leading `-` exactly for negative numbers |
| JavaText.ParseInt | java/servers/src/org/xtreemfs/common/HeartbeatThread.java:362 | `Integer.parseInt` yields only `int` values, and only for a string starting with a sign or a digit |
| JavaText.ParseIntValue | java/servers/src/org/xtreemfs/common/HeartbeatThread.java:362 | what parses is an optional `+` or `-` followed by at least one digit, and the result is their signed decimal value |
| JavaText.ParseIntAccepts | java/servers/src/org/xtreemfs/common/HeartbeatThread.java:362 | conversely, every optional sign followed by digits whose value is an `int` parses, to that value |
| JavaText.ParseIntOfIntToString | java/servers/src/org/xtreemfs/common/HeartbeatThread.java:362 | `Integer.parseInt` reads back every `Integer.toString` of an `int` |
| JavaText.IntToStringInjective | java/servers/src/org/xtreemfs/common/HeartbeatThread.java:371 | different `int`s give different replica key suffixes |
| ServiceRegistration.FilterMembership | java/servers/src/org/xtreemfs/common/HeartbeatThread.java:352-354 | an entry is kept by a key test exactly when it is in the input and passes the test |
| ServiceRegistration.StaticAttrsKeys | java/servers/src/org/xtreemfs/common/HeartbeatThread.java:308-316 | the collected static attributes are exactly the stored keys starting with `static.`, each with a stored value |
| ServiceRegistration.StaticAttrsLastValue | java/servers/src/org/xtreemfs/common/HeartbeatThread.java:312-315 | a later stored entry for the same key overwrites an earlier one |
| ServiceRegistration.WithStatus | java/servers/src/org/xtreemfs/common/HeartbeatThread.java:318-320 | `static.status` is defaulted to `0` only when absent; every other attribute is unchanged |
| ServiceRegistration.CollectStaticAttrs | java/servers/src/org/xtreemfs/common/HeartbeatThread.java:308-316 | the loop over the stored entry collects exactly `StaticAttrs` of its data |
| ServiceRegistration.ListStaticAttrs | java/servers/src/org/xtreemfs/common/HeartbeatThread.java:325-328 | the map's entries are emitted each exactly once, keys distinct, in an unspecified order |
| ServiceRegistration.FindMrcIsFirst | java/servers/src/org/xtreemfs/common/HeartbeatThread.java:340-346 | the MRC UUID found is the value of the first `mrc` entry of the registration |
| ServiceRegistration.FindMrcNone | java/servers/src/org/xtreemfs/common/HeartbeatThread.java:340-346 | no MRC UUID is found exactly when the registration has no `mrc` entry |
| ServiceRegistration.FindMrcUuid | java/servers/src/org/xtreemfs/common/HeartbeatThread.java:340-346 | the loop that breaks at the first `mrc` entry computes `FindMrc` |
| ServiceRegistration.MaxMrcNoIsMaximum | java/servers/src/org/xtreemfs/common/HeartbeatThread.java:350-367 | the scan yields an `int` ≥ 1 that bounds every replica number and is 1 or one of them |
| ServiceRegistration.MaxMrcNoFailure | java/servers/src/org/xtreemfs/common/HeartbeatThread.java:361-362 | the scan fails exactly when some numbered replica key has a suffix `parseInt` rejects, and names such a key |
| ServiceRegistration.MaxMrcNoPrefixFailure | java/servers/src/org/xtreemfs/common/HeartbeatThread.java:352-367 | the first rejected key ends the scan: a failure on a prefix is the failure on the whole |
| ServiceRegistration.ScanStoredReplicas | java/servers/src/org/xtreemfs/common/HeartbeatThread.java:350-367 | the loop over the stored entry yields its `mrc*` entries in order, whether the MRC is among them, and `MaxMrcNo`, or the scan's error |
| ServiceRegistration.AppendOtherEntries | java/servers/src/org/xtreemfs/common/HeartbeatThread.java:374-376 | the registration's entries not starting with `mrc` are appended in order |
| ServiceRegistration.MergeVolumeData | java/servers/src/org/xtreemfs/common/HeartbeatThread.java:335-378 | the volume branch computes `VolumeData`, errors included |
| ServiceRegistration.VolumeDataEntries | java/servers/src/org/xtreemfs/common/HeartbeatThread.java:352-376 | the volume data holds exactly the stored `mrc*` entries, the registration's other entries and the added replica |
| ServiceRegistration.VolumeDataListedReplica | java/servers/src/org/xtreemfs/common/HeartbeatThread.java:358-371 | an MRC already listed adds no entry |
| ServiceRegistration.VolumeDataAddsReplica | java/servers/src/org/xtreemfs/common/HeartbeatThread.java:350-376 | an unlisted MRC is added once, under `mrc<k>` with k ≥ 2 above every replica number, and that key is vacant |
| ServiceRegistration.MrcKeyShape | java/servers/src/org/xtreemfs/common/HeartbeatThread.java:361-371 | a key equals `"mrc" + n` only if it is a numbered replica key whose suffix parses to n |
| ServiceRegistration.MaxMrcNoAppendKey | java/servers/src/org/xtreemfs/common/HeartbeatThread.java:361-371 | appending the key `"mrc" + n` raises the scan result to at most n |
| ServiceRegistration.VolumeDataOnlyReplicas | java/servers/src/org/xtreemfs/common/HeartbeatThread.java:352-376 | for a volume of replica entries alone and a bare registration, the new data is the old plus one wrapped-number key |
| ServiceRegistration.ReplicaListExtended | java/servers/src/org/xtreemfs/common/HeartbeatThread.java:352-371 | a key numbered no higher than the maximum leaves the maximum unchanged |
| ServiceRegistration.WrappedReplicaKey | java/servers/src/org/xtreemfs/common/HeartbeatThread.java:350-371 | only after replica number 2147483647 does the next number wrap, and the next MRC then gets the key `mrc-2147483648` |
| ServiceRegistration.WrappedKeyLiteral | java/servers/src/org/xtreemfs/common/HeartbeatThread.java:371 | the successor that wraps is that of 2147483647, and its key is the string `mrc-2147483648` |
| ServiceRegistration.WrappedReplicaKeyRepeats | java/servers/src/org/xtreemfs/common/HeartbeatThread.java:350-371 | the MRC after that gets the same key again: two replicas share one key |
| ServiceRegistration.MergeRegistration | java/servers/src/org/xtreemfs/common/HeartbeatThread.java:305-384 | the record is the registration with the stored version, a listing of the static attributes, then `DynamicData`; it fails exactly when `DynamicData` does |
| ServiceRegistration.RegisterServices | java/servers/src/org/xtreemfs/common/HeartbeatThread.java:298-397 | records are sent in registration order, each merged with the reply to its own lookup; the first error stops the loop and names that registration's error |
| ServiceRegistration.MergedKeepsStaticAttr | java/servers/src/org/xtreemfs/common/HeartbeatThread.java:308-328 | each stored `static.` attribute reaches the record with the value of its last occurrence |
| ServiceRegistration.MergedDefaultsStatus | java/servers/src/org/xtreemfs/common/HeartbeatThread.java:318-328 | without a stored `static.status` the record carries `static.status` = `0` |
| ServiceRegistration.MergedStaticsOrigin | java/servers/src/org/xtreemfs/common/HeartbeatThread.java:308-328 | the leading attributes have distinct `static.` keys and are the default status or stored entries |
| ServiceRegistration.MergedOtherServiceData | java/servers/src/org/xtreemfs/common/HeartbeatThread.java:322-382 | outside the volume case the registration's data follows the static attributes unchanged, with the stored version and the registration's UUID |
| AddressMappings.SchemeFor | java/servers/src/org/xtreemfs/common/HeartbeatThread.java:134-142 | `pbrpc` exactly without SSL, `pbrpcg` exactly with SSL in GRID mode, `pbrpcs` exactly with plain SSL; never the UDP scheme, never a `:` |
| AddressMappings.UriRoundTrip | java/servers/src/org/xtreemfs/common/HeartbeatThread.java:460-462 | the URI `proto://host:port` reads back as its scheme, host and port, for any host, IPv6 literals included, by the reader `ParseUri` (scheme up to the first `:`, port after the last one) |
| AddressMappings.PortRoundTrip | java/servers/src/org/xtreemfs/common/HeartbeatThread.java:462 | the port after the last `:` reads back as the configured port |
| AddressMappings.StripLeadingSlash | java/servers/src/org/xtreemfs/common/HeartbeatThread.java:445-448 | one leading `/` is removed, and nothing else changes |
| AddressMappings.WithUuid | java/servers/src/org/xtreemfs/common/HeartbeatThread.java:436-438 | every endpoint is put under the service's UUID, and nothing else about it changes |
| AddressMappings.AssignUuid | java/servers/src/org/xtreemfs/common/HeartbeatThread.java:436-438 | the loop over the endpoints computes `WithUuid` |
| AddressMappings.StampVersion | java/servers/src/org/xtreemfs/common/HeartbeatThread.java:498-508 | only the first mapping takes the DIR's version; the others are unchanged |
| AddressMappings.ExplicitMappingsRegistered | java/servers/src/org/xtreemfs/common/HeartbeatThread.java:440-486 | with a configured host, the mappings are `proto` with the DIR's version, then `pbrpcu` with version 0 when UDP is advertised, each for the host and port, any network, 3600 s |
| AddressMappings.ReachableMappingsRegistered | java/servers/src/org/xtreemfs/common/HeartbeatThread.java:425-438 | without one, the reachable endpoints, then the UDP ones when advertised, are registered in order under the UUID, only the first re-versioned |
| AddressMappings.AdvertisedHostIsFirstAddress | java/servers/src/org/xtreemfs/common/HeartbeatThread.java:427-475 | the advertised host is the explicit host or else the first reachable `proto` endpoint, which is the first mapping registered; with neither it stays as it was, even when reachable UDP endpoints are registered |
| Heartbeat.HeartbeatThread.constructor | java/servers/src/org/xtreemfs/common/HeartbeatThread.java:118-142 | the thread's scheme is `SchemeFor` of its SSL settings, and nothing is advertised yet |
| Heartbeat.HeartbeatThread.RegisterAddressMappings | java/servers/src/org/xtreemfs/common/HeartbeatThread.java:421-516 | the mappings sent are the endpoints stamped with the DIR's version, and the advertised host name is updated as `AdvertisedHost` says |

## Left out

- The RPC calls to the DIR are left out: the lookups, `xtreemfs_service_register`, `xtreemfs_address_mappings_get` and `_set`. Their replies are parameters and their requests are the results. Retries and `numRetries` are left out too.
- The thread's run loop, its pause and resume, `shutdown`, its update interval and the signal handler for address renewal are left out: they concern scheduling and concurrency, not data.
- `setServiceConfiguration` is left out. It forwards the configuration to the DIR and builds no data.
- `lastHeartbeat`, `TimeSync` and logging are left out, because they cover time and output only.
- The `InetAddress.getByName` check is left out. It only logs a warning and never changes the mappings.
- `NetUtils.getReachableEndpoints` is not part of this model. Its results are parameters.
- The host name of the configured listen address (`getHostName()` of an `InetAddress`, which may do a reverse lookup) is not computed: it is the parameter `listenAddress` of `ServiceConfig`.
- `Schemes.java` and `DIR.proto` are not part of this model. Their constants are used with the values XtreemFS defines.
- The iteration order of the `HashMap` of static attributes is left unspecified: `ListStaticAttrs` may emit the entries in any order.
- `ServiceRegistration.ListStaticAttrs`: promises a listing in some order, not the `HashMap` order, because that order depends on hash codes outside the model.
- `JavaText.ParseInt`: accepts only ASCII digits. `Integer.parseInt` also accepts other Unicode decimal digits, which Dafny strings would need a Unicode table to model.
- `ServiceRegistration.VolumeDataAddsReplica`: the vacancy of the new key is proved only for a largest replica number below 2147483647. At that number the Java `int` addition wraps, and `WrappedReplicaKeyRepeats` shows a key repeated.
- With Java assertions enabled (`-ea`), a volume registration without `mrc` fails at the assertion instead. The model follows the default of assertions disabled (`MissingMrcUuid`).
- `FilebasedBenchmark.java` and `yield.h` are not part of this model, because they hold no heartbeat logic.
