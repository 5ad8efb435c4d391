/**
  The XDP classifier of the full capture variant (`xdp_filter` in
  packet_capture/src/eBPF/filter.c). It walks Ethernet, an optional 802.1Q tag, IPv4,
  UDP and the DNS header of the frame `pkt` (the bytes `data .. data_end`) and emits
  one `packet_info` record for each frame it passes. It passes exactly the UDP
  datagrams to port 53 whose headers fit, with at least one byte after the DNS header,
  and whose DNS flags word, read in host order, has its top bit clear (`Admits`). That
  is not "DNS queries only": on a little-endian host the bit tested is RA, not QR, so
  a response can pass; after an 802.1Q tag the encapsulated protocol is never checked,
  so any tagged payload is parsed as IPv4; and nothing beyond the header length and
  that one bit is asked of the DNS message.

  Every header read below is a Dafny sequence access, so its well-formedness is
  exactly the bounds check the eBPF verifier demands: each read is guarded by the
  preceding `> data_end` test.
*/
module DnsFilter {
  import opened Bytes
  import opened Optional
  import opened Headers
  import opened Layout

  const Dropped: Verdict<PacketInfo> := Verdict(XdpDrop, None)

  /** The filter's entry point: the return code and the record sent to userspace. */
  function Classify(host: Endian, pkt: seq<byte>): (r: Verdict<PacketInfo>)
    ensures r.record.Some? <==> r.action == XdpPass
    ensures r.record.Some? ==> r.record.value.Valid()
    ensures |pkt| < EthHeaderLen ==> r == Dropped
  {
    if |pkt| < EthHeaderLen then Dropped
    else
      var ethProto := Load16(host, pkt, EthProtoOff);
      if ethProto == FromBe16(host, EthP8021Q) then
        var vlan := EthHeaderLen;
        if |pkt| < vlan + VlanHeaderLen then Dropped
        else
          // `eth_proto` takes the encapsulated protocol but is never tested again.
          var vlanTci := Load16(host, pkt, vlan + TagTciOff);
          var vlanProto := Load16(host, pkt, vlan + TagProtoOff);
          ClassifyIp(host, pkt, vlan + VlanHeaderLen, vlanTci, vlanProto)
      else if ethProto == FromBe16(host, EthPIp) then
        ClassifyIp(host, pkt, EthHeaderLen, 0, EthPIp)
      else Dropped
  }

  /** The rest of the walk, from the IPv4 header at `ip` on. `vlanTci` and `vlanProto`
      are the values the record will carry: the raw tag fields, or 0 and the host-order
      constant `ETH_P_IP` for an untagged frame. */
  function ClassifyIp(host: Endian, pkt: seq<byte>, ip: nat, vlanTci: u16, vlanProto: u16): (r: Verdict<PacketInfo>)
    requires EthHeaderLen <= ip <= |pkt|
    ensures r.record.Some? <==> r.action == XdpPass
    ensures r.record.Some? ==> r.record.value.Valid()
    ensures |pkt| < ip + IpHeaderLen ==> r == Dropped
    ensures r.action == XdpPass ==>
      && ip < |pkt| && UdpAt(pkt, ip) + UdpHeaderLen + DnsHeaderLen < |pkt|
      && r.record == Some(Record(host, pkt, ip, UdpAt(pkt, ip), vlanTci, vlanProto))
  {
    if |pkt| < ip + IpHeaderLen then Dropped
    else if pkt[ip + IpProtocolOff] != IpProtoUdp then Dropped
    else
      var udp := UdpAt(pkt, ip);
      if |pkt| < udp + UdpHeaderLen then Dropped
      else
        var dns := udp + UdpHeaderLen;
        if |pkt| < dns + DnsHeaderLen then Dropped
        // `qr_bit = dns_flags >> 15` on the flags word read natively.
        else if Load16(host, pkt, dns + DnsFlagsOff) / 0x8000 != 0 then Dropped
        // At least one byte of question must follow the DNS header.
        else if |pkt| < dns + DnsHeaderLen + 1 then Dropped
        else if Load16(host, pkt, udp + UdpDestOff) == FromBe16(host, DnsPort) then
          Verdict(XdpPass, Some(Record(host, pkt, ip, udp, vlanTci, vlanProto)))
        else Dropped
  }

  /** The `packet_info` the filter fills in for a frame whose IPv4 header starts at
      `ip` and whose UDP header starts at `udp`; `dns_query` is left zeroed. */
  function Record(host: Endian, pkt: seq<byte>, ip: nat, udp: nat, vlanTci: u16, vlanProto: u16): (info: PacketInfo)
    requires EthHeaderLen <= ip && ip + IpHeaderLen <= |pkt|
    requires udp + UdpHeaderLen + DnsHeaderLen <= |pkt|
    ensures info.Valid()
  {
    PacketInfo(
      srcMac := pkt[EthSourceOff..EthSourceOff + MacLen],
      dstMac := pkt[EthDestOff..EthDestOff + MacLen],
      vlanTci := vlanTci,
      vlanProto := vlanProto,
      ipId := Load16(host, pkt, ip + IpIdentOff),
      srcIp := Load32(host, pkt, ip + IpSaddrOff),
      dstIp := Load32(host, pkt, ip + IpDaddrOff),
      srcPort := Load16(host, pkt, udp + UdpSourceOff),
      dstPort := Load16(host, pkt, udp + UdpDestOff),
      dnsTrId := Load16(host, pkt, udp + UdpHeaderLen + DnsIdOff),
      dnsQuery := Zeros(DnsQueryLen))
  }

  // ---------------------------------------------------------------------------
  // The frame, described byte by byte
  // ---------------------------------------------------------------------------

  /** Where the IPv4 header starts: after the tag, if there is one. */
  function IpStart(pkt: seq<byte>): nat
    requires |pkt| >= EthHeaderLen
  {
    if IsVlanTagged(pkt) then 18 else 14
  }

  /** Where the UDP header starts: `ihl * 4` bytes into the IPv4 header. */
  function UdpStart(pkt: seq<byte>): nat
    requires |pkt| >= EthHeaderLen && IpStart(pkt) < |pkt|
  {
    UdpAt(pkt, IpStart(pkt))
  }

  /** The top bit of the DNS flags word as a native u16 read sees it: bit 7 of the
      second flags byte on a little-endian host, bit 7 of the first on a big-endian one. */
  predicate FlagsTopBitSet(host: Endian, pkt: seq<byte>, dns: nat)
    requires dns + 4 <= |pkt|
  {
    if host == LittleEndian then pkt[dns + 3] >= 0x80 else pkt[dns + 2] >= 0x80
  }

  /** The conditions on the bytes from the IPv4 header at `ip` on: the IPv4 header
      fits and carries UDP, the UDP header, the 12-byte DNS header and one further
      byte fit, the flags' top bit (as a native read sees it) is clear, and the
      destination port bytes are 00 35. */
  predicate AdmitsFrom(host: Endian, pkt: seq<byte>, ip: nat)
  {
    && |pkt| >= ip + IpHeaderLen
    && pkt[ip + 9] == 17
    && var udp := UdpAt(pkt, ip);
    && |pkt| >= udp + 8 + 12 + 1
    && !FlagsTopBitSet(host, pkt, udp + 8)
    && pkt[udp + 2] == 0x00 && pkt[udp + 3] == 0x35
  }

  /** The frames the filter passes, stated as conditions on their bytes. */
  predicate Admits(host: Endian, pkt: seq<byte>)
  {
    && |pkt| >= EthHeaderLen
    && (IsVlanTagged(pkt) || IsIpv4Type(pkt))
    && AdmitsFrom(host, pkt, IpStart(pkt))
  }

  /** What an admitted frame's UDP header holds, stated at `UdpStart`. */
  lemma AdmittedUdp(host: Endian, pkt: seq<byte>)
    requires Admits(host, pkt)
    ensures EthHeaderLen <= IpStart(pkt) && IpStart(pkt) + IpHeaderLen <= |pkt|
    ensures UdpStart(pkt) + 8 + 12 + 1 <= |pkt|
    ensures pkt[UdpStart(pkt) + 2] == 0x00 && pkt[UdpStart(pkt) + 3] == 0x35
    ensures !FlagsTopBitSet(host, pkt, UdpStart(pkt) + 8)
  {
  }

  /** The top-bit test on a native flags read is a test of one byte's top bit. */
  lemma FlagsShift(host: Endian, pkt: seq<byte>, dns: nat)
    requires dns + 4 <= |pkt|
    ensures Load16(host, pkt, dns + 2) / 0x8000 != 0 <==> FlagsTopBitSet(host, pkt, dns)
  {
  }

  /** The native ethertype comparisons against `htons` constants are byte comparisons. */
  lemma EtherTypeTests(host: Endian, pkt: seq<byte>)
    requires |pkt| >= EthHeaderLen
    ensures Load16(host, pkt, EthProtoOff) == FromBe16(host, EthP8021Q) <==> IsVlanTagged(pkt)
    ensures Load16(host, pkt, EthProtoOff) == FromBe16(host, EthPIp) <==> IsIpv4Type(pkt)
  {
    WireConstants();
    LoadEqualsHtons(host, pkt, EthProtoOff, EthP8021Q);
    LoadEqualsHtons(host, pkt, EthProtoOff, EthPIp);
  }

  lemma PortTest(host: Endian, pkt: seq<byte>, udp: nat)
    requires udp + 4 <= |pkt|
    ensures Load16(host, pkt, udp + UdpDestOff) == FromBe16(host, DnsPort) <==> pkt[udp + 2] == 0x00 && pkt[udp + 3] == 0x35
  {
    WireConstants();
    LoadEqualsHtons(host, pkt, udp + UdpDestOff, DnsPort);
  }

  /** From the IPv4 header on, the walk passes exactly the frames `AdmitsFrom`
      describes, with the record built from the headers where `ihl` places them. */
  lemma ClassifyIpIff(host: Endian, pkt: seq<byte>, ip: nat, vlanTci: u16, vlanProto: u16)
    requires EthHeaderLen <= ip <= |pkt|
    ensures ClassifyIp(host, pkt, ip, vlanTci, vlanProto).action == XdpPass <==> AdmitsFrom(host, pkt, ip)
    ensures !AdmitsFrom(host, pkt, ip) ==> ClassifyIp(host, pkt, ip, vlanTci, vlanProto) == Dropped
    ensures AdmitsFrom(host, pkt, ip) ==>
      ClassifyIp(host, pkt, ip, vlanTci, vlanProto)
        == Verdict(XdpPass, Some(Record(host, pkt, ip, UdpAt(pkt, ip), vlanTci, vlanProto)))
  {
    if |pkt| >= ip + IpHeaderLen && pkt[ip + 9] == 17 {
      var udp := UdpAt(pkt, ip);
      if |pkt| >= udp + 8 + 12 {
        FlagsShift(host, pkt, udp + 8);
        PortTest(host, pkt, udp);
      }
    }
  }

  /** The filter passes a frame (and then emits its record) exactly when the frame is
      admitted; every other path drops it and emits nothing. */
  lemma {:induction false} PassIffAdmits(host: Endian, pkt: seq<byte>)
    ensures Classify(host, pkt).action == XdpPass <==> Admits(host, pkt)
    ensures Classify(host, pkt).action == XdpDrop <==> Classify(host, pkt) == Dropped
  {
    if |pkt| >= EthHeaderLen {
      EtherTypeTests(host, pkt);
      if IsVlanTagged(pkt) {
        if |pkt| >= EthHeaderLen + VlanHeaderLen {
          ClassifyIpIff(host, pkt, 18, Load16(host, pkt, 14), Load16(host, pkt, 16));
        }
      } else if IsIpv4Type(pkt) {
        ClassifyIpIff(host, pkt, 14, 0, EthPIp);
      }
    }
  }

  /** An ethertype other than 802.1Q or IPv4 is dropped. */
  lemma UnknownEtherTypeDropped(host: Endian, pkt: seq<byte>)
    requires |pkt| >= EthHeaderLen && !IsVlanTagged(pkt) && !IsIpv4Type(pkt)
    ensures Classify(host, pkt) == Dropped
  {
    EtherTypeTests(host, pkt);
  }

  /** A tagged frame too short for the 4-byte tag is dropped. */
  lemma ShortVlanDropped(host: Endian, pkt: seq<byte>)
    requires |pkt| >= EthHeaderLen && IsVlanTagged(pkt) && |pkt| < EthHeaderLen + VlanHeaderLen
    ensures Classify(host, pkt) == Dropped
  {
    EtherTypeTests(host, pkt);
  }

  /** After an 802.1Q tag the walk continues as IPv4 whatever the encapsulated protocol
      says: rewriting those two bytes never changes the verdict. */
  lemma {:induction false} InnerProtocolIgnored(host: Endian, pkt: seq<byte>, p0: byte, p1: byte)
    requires |pkt| >= EthHeaderLen + VlanHeaderLen && IsVlanTagged(pkt)
    ensures Classify(host, pkt[16 := p0][17 := p1]).action == Classify(host, pkt).action
  {
    var q := pkt[16 := p0][17 := p1];
    assert IsVlanTagged(q);
    EtherTypeTests(host, pkt);
    EtherTypeTests(host, q);
    ClassifyIpIff(host, pkt, 18, Load16(host, pkt, 14), Load16(host, pkt, 16));
    ClassifyIpIff(host, q, 18, Load16(host, q, 14), Load16(host, q, 16));
    SameFrom(host, pkt, q, 18);
  }

  /** `AdmitsFrom` reads nothing before `ip`. */
  lemma SameFrom(host: Endian, pkt: seq<byte>, q: seq<byte>, ip: nat)
    requires |pkt| == |q| && ip <= |pkt|
    requires forall k :: ip <= k < |pkt| ==> q[k] == pkt[k]
    ensures AdmitsFrom(host, q, ip) == AdmitsFrom(host, pkt, ip)
  {
  }

  /** A frame whose IPv4 header does not fit, or whose protocol is not UDP, is dropped. */
  lemma NotUdpDropped(host: Endian, pkt: seq<byte>)
    requires |pkt| >= EthHeaderLen && (IsVlanTagged(pkt) || IsIpv4Type(pkt))
    requires |pkt| < IpStart(pkt) + IpHeaderLen || pkt[IpStart(pkt) + 9] != 17
    ensures Classify(host, pkt) == Dropped
  {
    PassIffAdmits(host, pkt);
  }

  /** The UDP header, the DNS header and one byte after it must all fit. */
  lemma ShortDnsDropped(host: Endian, pkt: seq<byte>)
    requires |pkt| >= EthHeaderLen && (IsVlanTagged(pkt) || IsIpv4Type(pkt))
    requires |pkt| >= IpStart(pkt) + IpHeaderLen
    requires |pkt| < UdpStart(pkt) + 8 + 12 + 1
    ensures Classify(host, pkt) == Dropped
  {
    PassIffAdmits(host, pkt);
  }

  /** On a little-endian host the "QR bit" test looks at bit 7 of the second flags
      byte (RA), so a response with flags 0x81 0x00 is let through while a query with
      flags 0x01 0x80 is dropped. */
  lemma {:induction false} FlagsQuirkLittleEndian(pkt: seq<byte>)
    requires |pkt| >= EthHeaderLen && (IsVlanTagged(pkt) || IsIpv4Type(pkt))
    requires |pkt| >= IpStart(pkt) + IpHeaderLen && pkt[IpStart(pkt) + 9] == 17
    requires |pkt| >= UdpStart(pkt) + 8 + 12 + 1
    requires pkt[UdpStart(pkt) + 2] == 0x00 && pkt[UdpStart(pkt) + 3] == 0x35
    ensures pkt[UdpStart(pkt) + 10] == 0x81 && pkt[UdpStart(pkt) + 11] == 0x00 ==>
              Classify(LittleEndian, pkt).action == XdpPass
    ensures pkt[UdpStart(pkt) + 10] == 0x01 && pkt[UdpStart(pkt) + 11] == 0x80 ==>
              Classify(LittleEndian, pkt).action == XdpDrop
  {
    var udp := UdpStart(pkt);
    PassIffAdmits(LittleEndian, pkt);
    if pkt[udp + 10] == 0x81 && pkt[udp + 11] == 0x00 {
      assert !FlagsTopBitSet(LittleEndian, pkt, udp + 8);
      assert Admits(LittleEndian, pkt);
    }
    if pkt[udp + 10] == 0x01 && pkt[udp + 11] == 0x80 {
      assert FlagsTopBitSet(LittleEndian, pkt, udp + 8);
      assert !Admits(LittleEndian, pkt);
    }
  }

  /** The `vlan_tci` the record carries: the raw tag field, or 0 when untagged. */
  function RecordTci(host: Endian, pkt: seq<byte>): u16
    requires |pkt| >= EthHeaderLen + VlanHeaderLen
  {
    if IsVlanTagged(pkt) then Load16(host, pkt, EthHeaderLen + TagTciOff) else 0
  }

  /** The `vlan_proto` the record carries: the raw encapsulated-protocol field, or the
      host-order constant `ETH_P_IP` when untagged. */
  function RecordProto(host: Endian, pkt: seq<byte>): u16
    requires |pkt| >= EthHeaderLen + VlanHeaderLen
  {
    if IsVlanTagged(pkt) then Load16(host, pkt, EthHeaderLen + TagProtoOff) else EthPIp
  }

  /** The record the filter emits for an admitted frame. */
  function AdmittedRecord(host: Endian, pkt: seq<byte>): (info: PacketInfo)
    requires Admits(host, pkt)
    ensures info.Valid()
  {
    Record(host, pkt, IpStart(pkt), UdpStart(pkt), RecordTci(host, pkt), RecordProto(host, pkt))
  }

  /** An admitted frame is passed with its record: the VLAN fields are the raw tag
      fields when tagged and 0 / `ETH_P_IP` otherwise, the rest is read from the
      IPv4, UDP and DNS headers where `ihl` places them. */
  lemma EmittedInfo(host: Endian, pkt: seq<byte>)
    requires Admits(host, pkt)
    ensures Classify(host, pkt) == Verdict(XdpPass, Some(AdmittedRecord(host, pkt)))
  {
    EtherTypeTests(host, pkt);
    if IsVlanTagged(pkt) {
      var tci, proto := Load16(host, pkt, 14), Load16(host, pkt, 16);
      assert Classify(host, pkt) == ClassifyIp(host, pkt, 18, tci, proto);
      ClassifyIpIff(host, pkt, 18, tci, proto);
    } else {
      assert Classify(host, pkt) == ClassifyIp(host, pkt, 14, 0, EthPIp);
      ClassifyIpIff(host, pkt, 14, 0, EthPIp);
    }
  }

  /** What the record holds, byte for byte: the MACs copied with the source first, and
      the IP id and both addresses in network order. */
  lemma RecordAddresses(host: Endian, pkt: seq<byte>, ip: nat, udp: nat, vlanTci: u16, vlanProto: u16)
    requires EthHeaderLen <= ip && ip + IpHeaderLen <= |pkt|
    requires udp + UdpHeaderLen + DnsHeaderLen <= |pkt|
    ensures var b := FullImage(host, Record(host, pkt, ip, udp, vlanTci, vlanProto));
      && b[0..6] == pkt[6..12]
      && b[6..12] == pkt[0..6]
      && b[16..18] == pkt[ip + 4..ip + 6]
      && b[20..24] == pkt[ip + 12..ip + 16]
      && b[24..28] == pkt[ip + 16..ip + 20]
  {
    var info := Record(host, pkt, ip, udp, vlanTci, vlanProto);
    ImageMacs(host, info);
    ImageTag(host, info);
    ImageAddresses(host, info);
    StoreLoad16(host, pkt, ip + 4);
    StoreLoad32(host, pkt, ip + 12);
    StoreLoad32(host, pkt, ip + 16);
  }

  /** The VLAN fields of the emitted record: the raw tag bytes for a tagged frame, and
      0 with the host-order constant 0x0800 otherwise. */
  lemma RecordTag(host: Endian, pkt: seq<byte>)
    requires Admits(host, pkt)
    ensures var info := AdmittedRecord(host, pkt);
      var b := FullImage(host, info);
      && (IsVlanTagged(pkt) ==> b[12..14] == pkt[14..16] && b[14..16] == pkt[16..18])
      && (!IsVlanTagged(pkt) ==> info.vlanTci == 0 && info.vlanProto == 0x0800)
  {
    ImageTag(host, AdmittedRecord(host, pkt));
    if IsVlanTagged(pkt) {
      StoreLoad16(host, pkt, 14);
      StoreLoad16(host, pkt, 16);
    }
  }

  /** The UDP part of the record: both ports and the DNS transaction id in network
      order, and an all-zero `dns_query`. */
  lemma RecordUdp(host: Endian, pkt: seq<byte>, ip: nat, udp: nat, vlanTci: u16, vlanProto: u16)
    requires EthHeaderLen <= ip && ip + IpHeaderLen <= |pkt|
    requires udp + UdpHeaderLen + DnsHeaderLen <= |pkt|
    ensures var b := FullImage(host, Record(host, pkt, ip, udp, vlanTci, vlanProto));
      && b[28..30] == pkt[udp..udp + 2]
      && b[30..32] == pkt[udp + 2..udp + 4]
      && b[32..34] == pkt[udp + 8..udp + 10]
      && b[34..84] == Zeros(50)
  {
    ImageUdp(host, Record(host, pkt, ip, udp, vlanTci, vlanProto));
    StoreLoad16(host, pkt, udp);
    StoreLoad16(host, pkt, udp + 2);
    StoreLoad16(host, pkt, udp + 8);
  }
}
