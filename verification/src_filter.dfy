/**
  The XDP classifier of the basic variant (`xdp_filter` in eBPF/src/eBPF/filter.c).
  It never drops anything: it only reports the IPv4 source address of UDP datagrams
  to port 53 on untagged frames, as a 4-byte `packet_info`.
*/
module SrcFilter {
  import opened Bytes
  import opened Optional
  import opened Headers
  import opened Layout

  const PassedQuietly: Verdict<BasicInfo> := Verdict(XdpPass, None)

  function Classify(host: Endian, pkt: seq<byte>): (r: Verdict<BasicInfo>)
    ensures r.action == XdpPass
    ensures |pkt| < EthHeaderLen + IpHeaderLen ==> r.record == None
  {
    if |pkt| < EthHeaderLen then PassedQuietly
    // No 802.1Q handling: a tagged frame fails this test.
    else if Load16(host, pkt, EthProtoOff) != FromBe16(host, EthPIp) then PassedQuietly
    else
      var ip := EthHeaderLen;
      if |pkt| < ip + IpHeaderLen then PassedQuietly
      else if pkt[ip + IpProtocolOff] != IpProtoUdp then PassedQuietly
      else
        var udp := UdpAt(pkt, ip);
        if |pkt| < udp + UdpHeaderLen then PassedQuietly
        else if Load16(host, pkt, udp + UdpDestOff) == FromBe16(host, DnsPort) then
          Verdict(XdpPass, Some(BasicInfo(Load32(host, pkt, ip + IpSaddrOff))))
        else PassedQuietly
  }

  /** The frames whose source address is reported, stated on their bytes. */
  predicate Reports(pkt: seq<byte>)
  {
    && |pkt| >= EthHeaderLen + IpHeaderLen
    && IsIpv4Type(pkt)
    && pkt[EthHeaderLen + 9] == 17
    && var udp := UdpAt(pkt, EthHeaderLen);
    && |pkt| >= udp + 8
    && pkt[udp + 2] == 0x00 && pkt[udp + 3] == 0x35
  }

  /** A record is emitted exactly for IPv4/UDP frames to port 53 whose headers fit. */
  lemma {:induction false} EmitsIffReports(host: Endian, pkt: seq<byte>)
    ensures Classify(host, pkt).record.Some? <==> Reports(pkt)
  {
    WireConstants();
    if |pkt| >= EthHeaderLen {
      LoadEqualsHtons(host, pkt, EthProtoOff, EthPIp);
      if |pkt| >= EthHeaderLen + IpHeaderLen {
        var udp := UdpAt(pkt, EthHeaderLen);
        if |pkt| >= udp + 8 {
          LoadEqualsHtons(host, pkt, udp + UdpDestOff, DnsPort);
        }
      }
    }
  }

  /** An 802.1Q-tagged frame never produces a record. */
  lemma TaggedFrameNotReported(host: Endian, pkt: seq<byte>)
    requires |pkt| >= EthHeaderLen && IsVlanTagged(pkt)
    ensures Classify(host, pkt).record == None
  {
    EmitsIffReports(host, pkt);
  }

  /** A protocol other than UDP produces no record. */
  lemma NotUdpNotReported(host: Endian, pkt: seq<byte>)
    requires |pkt| >= EthHeaderLen + IpHeaderLen && pkt[EthHeaderLen + 9] != 17
    ensures Classify(host, pkt).record == None
  {
    EmitsIffReports(host, pkt);
  }

  /** The record's memory image is the IPv4 source address exactly as it sits in the
      frame (network order), wherever `ihl` places the UDP header. */
  lemma RecordIsSourceAddress(host: Endian, pkt: seq<byte>)
    requires Reports(pkt)
    ensures Classify(host, pkt).record.Some?
    ensures BasicImage(host, Classify(host, pkt).record.value) == pkt[26..30]
  {
    EmitsIffReports(host, pkt);
    StoreLoad32(host, pkt, EthHeaderLen + IpSaddrOff);
  }
}
