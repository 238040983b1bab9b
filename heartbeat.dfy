/**
  The heartbeat thread's own state: the protocol scheme it picks once, in
  its constructor, and the host name it advertises, which every
  registration of the address mappings updates.
 */
module Heartbeat {
  import opened Wrappers
  import opened AddressMappings

  class HeartbeatThread {
    const uuid: string
    const config: ServiceConfig
    const advertiseUdpEndpoints: bool
    /** The scheme of the service's own endpoint. */
    const proto: string
    /** The host name last advertised, None before the first registration. */
    var advertisedHostName: Option<string>

    constructor (uuid: string, config: ServiceConfig, advertiseUdpEndpoints: bool)
      ensures this.uuid == uuid && this.config == config && this.advertiseUdpEndpoints == advertiseUdpEndpoints
      ensures proto == SchemeFor(config.usingSsl, config.gridSslMode)
      ensures advertisedHostName == None
    {
      this.uuid := uuid;
      this.config := config;
      this.advertiseUdpEndpoints := advertiseUdpEndpoints;
      if !config.usingSsl {
        proto := SchemePbrpc;
      } else if config.gridSslMode {
        proto := SchemePbrpcg;
      } else {
        proto := SchemePbrpcs;
      }
      advertisedHostName := None;
    }

    /** Builds the mappings to register. `reachable` and `reachableUdp`
        are the endpoints found on the local interfaces for `proto` and for
        the UDP scheme; `dirMappings` is the directory's current set. */
    method RegisterAddressMappings(reachable: seq<AddressMapping>, reachableUdp: seq<AddressMapping>,
                                   dirMappings: seq<AddressMapping>)
      returns (ams: seq<AddressMapping>)
      modifies this
      ensures ams == StampVersion(Endpoints(uuid, proto, config, advertiseUdpEndpoints, reachable, reachableUdp),
                                  DirVersion(dirMappings))
      ensures advertisedHostName == AdvertisedHost(config, reachable, old(advertisedHostName))
    {
      var endpoints: seq<AddressMapping>;
      if config.hostName == "" && config.listenAddress.None? {
        endpoints := reachable;
        if |endpoints| > 0 {
          advertisedHostName := Some(endpoints[0].address);
        }
        if advertiseUdpEndpoints {
          endpoints := endpoints + reachableUdp;
        }
        endpoints := AssignUuid(endpoints, uuid);
      } else {
        var host := if config.hostName == "" then config.listenAddress.value else config.hostName;
        if |host| > 0 && host[0] == '/' {
          host := host[1..];
        }
        endpoints := [NewMapping(uuid, proto, host, config.port)];
        advertisedHostName := Some(host);
        if advertiseUdpEndpoints {
          endpoints := endpoints + [NewMapping(uuid, SchemePbrpcu, host, config.port)];
        }
      }
      var version := 0;
      if |dirMappings| > 0 {
        version := dirMappings[0].version;
      }
      if |endpoints| > 0 {
        endpoints := endpoints[0 := endpoints[0].(version := version)];
      }
      ams := endpoints;
    }
  }
}
