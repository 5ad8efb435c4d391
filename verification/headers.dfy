/**
  Wire constants of the headers the XDP classifiers walk: Ethernet (IEEE 802.3),
  the 802.1Q tag, IPv4 (RFC 791 section 3.1), UDP (RFC 768) and the DNS header
  (RFC 1035 section 4.1.1), as laid out by the Linux `ethhdr`, `iphdr` and `udphdr`
  structures and the filter's own `vlan_hdr` and `dns_hdr`.
*/
module Headers {
  import opened Bytes
  import opened Optional

  /** XDP program return codes used by the filters. */
  datatype Action = XdpPass | XdpDrop

  /** What one run of an XDP program produces: its return code and the record, if any,
      handed to `bpf_perf_event_output`. */
  datatype Verdict<R> = Verdict(action: Action, record: Option<R>)

  /** `struct ethhdr`: h_dest[6], h_source[6], h_proto. */
  const EthHeaderLen: nat := 14
  const EthDestOff: nat := 0
  const EthSourceOff: nat := 6
  const EthProtoOff: nat := 12
  const MacLen: nat := 6

  const EthPIp: u16 := 0x0800
  const EthP8021Q: u16 := 0x8100

  /** `struct vlan_hdr`: h_vlan_TCI, h_vlan_encapsulated_proto. */
  const VlanHeaderLen: nat := 4
  const TagTciOff: nat := 0
  const TagProtoOff: nat := 2

  /** `struct iphdr` without options. */
  const IpHeaderLen: nat := 20
  const IpIdentOff: nat := 4
  const IpProtocolOff: nat := 9
  const IpSaddrOff: nat := 12
  const IpDaddrOff: nat := 16
  const IpProtoUdp: byte := 17

  /** `struct udphdr`: source, dest, len, check. */
  const UdpHeaderLen: nat := 8
  const UdpSourceOff: nat := 0
  const UdpDestOff: nat := 2

  /** `struct dns_hdr`: transaction_id, flags and four counts. */
  const DnsHeaderLen: nat := 12
  const DnsIdOff: nat := 0
  const DnsFlagsOff: nat := 2

  const DnsPort: u16 := 53

  /** The IPv4 header length field in 32-bit words: the low four bits of the header's
      first byte under either bitfield order of `struct iphdr`. It is not validated. */
  function Ihl(b: byte): (words: nat)
    ensures words < 16
  {
    b % 16
  }

  /** Where the UDP header starts when the IPv4 header starts at `ip`: `ihl * 4` bytes
      further on. */
  function UdpAt(pkt: seq<byte>, ip: nat): nat
    requires ip < |pkt|
  {
    ip + Ihl(pkt[ip]) * 4
  }

  /** The ethertype bytes are 81 00 (802.1Q). */
  predicate IsVlanTagged(pkt: seq<byte>)
    requires |pkt| >= EthHeaderLen
  {
    pkt[12] == 0x81 && pkt[13] == 0x00
  }

  /** The ethertype bytes are 08 00 (IPv4). */
  predicate IsIpv4Type(pkt: seq<byte>)
    requires |pkt| >= EthHeaderLen
  {
    pkt[12] == 0x08 && pkt[13] == 0x00
  }

  /** The network-order bytes of the constants the filters compare against. */
  lemma WireConstants()
    ensures Bytes16(EthPIp) == [0x08, 0x00]
    ensures Bytes16(EthP8021Q) == [0x81, 0x00]
    ensures Bytes16(DnsPort) == [0x00, 0x35]
  {
  }

  /** Read back, the port bytes 00 35 are port 53. */
  lemma DnsPortBytes(hi: byte, lo: byte)
    requires hi == 0x00 && lo == 0x35
    ensures Word16(hi, lo) == DnsPort
  {
  }
}
