/** The configuration records the emitter reads, as they stand after deserialisation.
    Every string is opaque: the emitter copies it without looking inside. */
module ConfigModel {

  /** A fixed MAC-to-IP binding, emitted as one `dhcp-host` directive. */
  datatype StaticLease = StaticLease(mac: string, ip: string)

  /** Global settings: where the generated file goes and the daemon's DNS port
      (an unsigned machine word in the source; only ever printed, never computed with). */
  datatype DhcpConfig = DhcpConfig(conf: string, port: nat)

  /** One network interface served by the daemon, with its leases in input order. */
  datatype Interface = Interface(
    name: string,
    bindInterfaces: bool,
    dhcpRange: string,
    staticLeases: seq<StaticLease>)

  /** The whole input document; the order of `interfaces` is significant. */
  datatype Config = Config(dhcpConfig: DhcpConfig, interfaces: seq<Interface>)

  /** Neither value of the lease contains `ch`. */
  predicate LeaseAvoids(lease: StaticLease, ch: char)
  {
    ch !in lease.mac && ch !in lease.ip
  }

  /** No value that the emitter copies out of this interface contains `ch`. */
  predicate InterfaceAvoids(iface: Interface, ch: char)
  {
    ch !in iface.name && ch !in iface.dhcpRange &&
    forall k :: 0 <= k < |iface.staticLeases| ==> LeaseAvoids(iface.staticLeases[k], ch)
  }

  /** No value that the emitter copies out of the configuration contains `ch`.
      (`conf` is a path that is never written into the file, so it is not constrained.) */
  predicate ValuesAvoid(c: Config, ch: char)
  {
    forall k :: 0 <= k < |c.interfaces| ==> InterfaceAvoids(c.interfaces[k], ch)
  }
}
