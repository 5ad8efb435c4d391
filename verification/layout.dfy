/**
  The record layout both sides agree on only by convention: the C `struct packet_info`
  written by the kernel filters and the `#[repr(C)]` Rust `PacketInfo` read back in
  userspace. Offsets are those of the C/Rust natural alignment rules.

  | field     | bytes |
  |-----------|-------|
  | src_mac   | 0-5   |
  | dst_mac   | 6-11  |
  | vlan_tci  | 12-13 |
  | vlan_proto| 14-15 |
  | ip_id     | 16-17 |
  | (padding) | 18-19 |
  | src_ip    | 20-23 |
  | dst_ip    | 24-27 |
  | src_port  | 28-29 |
  | dst_port  | 30-31 |
  | dns_tr_id | 32-33 |
  | dns_query | 34-83 (C only) |
*/
module Layout {
  import opened Bytes

  const SrcMacOff: nat := 0
  const DstMacOff: nat := 6
  const VlanTciOff: nat := 12
  const VlanProtoOff: nat := 14
  const IpIdOff: nat := 16
  const SrcIpOff: nat := 20
  const DstIpOff: nat := 24
  const SrcPortOff: nat := 28
  const DstPortOff: nat := 30
  const DnsTrIdOff: nat := 32
  const DnsQueryOff: nat := 34
  const DnsQueryLen: nat := 50

  /** `sizeof(struct packet_info)` on the C side. */
  const FullInfoSize: nat := 84
  /** `size_of::<PacketInfo>()` on the Rust side: `dns_query` is absent there, and the
      34 bytes of fields are rounded up to the 4-byte alignment of the `u32` fields. */
  const RustInfoSize: nat := 36
  /** Both sides of the basic variant hold a single `u32 src_ip`. */
  const BasicInfoSize: nat := 4

  /** The C `struct packet_info` of the full variant, as the values its fields hold. */
  datatype PacketInfo = PacketInfo(
    srcMac: seq<byte>,
    dstMac: seq<byte>,
    vlanTci: u16,
    vlanProto: u16,
    ipId: u16,
    srcIp: u32,
    dstIp: u32,
    srcPort: u16,
    dstPort: u16,
    dnsTrId: u16,
    dnsQuery: seq<byte>)
  {
    predicate Valid() {
      |srcMac| == 6 && |dstMac| == 6 && |dnsQuery| == DnsQueryLen
    }
  }

  /** The C `struct packet_info` of the basic variant. */
  datatype BasicInfo = BasicInfo(srcIp: u32)

  function Zeros(n: nat): (z: seq<byte>)
    ensures |z| == n
    ensures forall i :: 0 <= i < n ==> z[i] == 0
  {
    seq(n, _ => 0)
  }

  /** The bytes `bpf_perf_event_output` copies out of a full `packet_info`: its fields
      laid out one after the other. Where each field lands is stated by `ImageMacs`,
      `ImageTag`, `ImageAddresses` and `ImageUdp`. */
  function FullImage(host: Endian, info: PacketInfo): (b: seq<byte>)
    requires info.Valid()
    ensures |b| == FullInfoSize
  {
    var ps := FieldImages(host, info);
    FieldOffsets(ps);
    ConcatLength(ps);
    Concat(ps)
  }

  /** The memory image of each field, in declaration order. The two bytes between
      `ip_id` and `src_ip` are padding, zero because the filter zero-initialises the
      record. */
  function FieldImages(host: Endian, info: PacketInfo): (ps: seq<seq<byte>>)
    requires info.Valid()
    ensures |ps| == 12
    ensures |ps[0]| == 6 && |ps[1]| == 6 && |ps[2]| == 2 && |ps[3]| == 2 && |ps[4]| == 2 && |ps[5]| == 2
    ensures |ps[6]| == 4 && |ps[7]| == 4 && |ps[8]| == 2 && |ps[9]| == 2 && |ps[10]| == 2 && |ps[11]| == DnsQueryLen
  {
    [info.srcMac, info.dstMac,
     Store16(host, info.vlanTci), Store16(host, info.vlanProto), Store16(host, info.ipId),
     Zeros(2),
     Store32(host, info.srcIp), Store32(host, info.dstIp),
     Store16(host, info.srcPort), Store16(host, info.dstPort), Store16(host, info.dnsTrId),
     info.dnsQuery]
  }

  /** The MACs occupy bytes 0-11, source first. */
  lemma ImageMacs(host: Endian, info: PacketInfo)
    requires info.Valid()
    ensures var b := FullImage(host, info);
      && b[SrcMacOff..SrcMacOff + 6] == info.srcMac
      && b[DstMacOff..DstMacOff + 6] == info.dstMac
  {
    var ps := FieldImages(host, info);
    FieldOffsets(ps);
    ConcatSlice(ps, 0);
    ConcatSlice(ps, 1);
  }

  /** The VLAN fields and the IP id are native stores at bytes 12-17; 18-19 are zero. */
  lemma ImageTag(host: Endian, info: PacketInfo)
    requires info.Valid()
    ensures var b := FullImage(host, info);
      && b[VlanTciOff..VlanTciOff + 2] == Store16(host, info.vlanTci)
      && b[VlanProtoOff..VlanProtoOff + 2] == Store16(host, info.vlanProto)
      && b[IpIdOff..IpIdOff + 2] == Store16(host, info.ipId)
      && b[18..20] == [0, 0]
  {
    var ps := FieldImages(host, info);
    FieldOffsets(ps);
    ConcatSlice(ps, 2);
    ConcatSlice(ps, 3);
    ConcatSlice(ps, 4);
    ConcatSlice(ps, 5);
  }

  /** The IPv4 addresses are native stores at bytes 20-27, 4-byte aligned. */
  lemma ImageAddresses(host: Endian, info: PacketInfo)
    requires info.Valid()
    ensures var b := FullImage(host, info);
      && b[SrcIpOff..SrcIpOff + 4] == Store32(host, info.srcIp)
      && b[DstIpOff..DstIpOff + 4] == Store32(host, info.dstIp)
  {
    var ps := FieldImages(host, info);
    FieldOffsets(ps);
    ConcatSlice(ps, 6);
    ConcatSlice(ps, 7);
  }

  /** The ports and the DNS id are native stores at bytes 28-33, and `dns_query` fills
      the remaining 50 bytes. */
  lemma ImageUdp(host: Endian, info: PacketInfo)
    requires info.Valid()
    ensures var b := FullImage(host, info);
      && b[SrcPortOff..SrcPortOff + 2] == Store16(host, info.srcPort)
      && b[DstPortOff..DstPortOff + 2] == Store16(host, info.dstPort)
      && b[DnsTrIdOff..DnsTrIdOff + 2] == Store16(host, info.dnsTrId)
      && b[DnsQueryOff..FullInfoSize] == info.dnsQuery
  {
    var ps := FieldImages(host, info);
    FieldOffsets(ps);
    ConcatSlice(ps, 8);
    ConcatSlice(ps, 9);
    ConcatSlice(ps, 10);
    ConcatSlice(ps, 11);
  }

  /** The fields laid out one after the other. */
  function Concat(ps: seq<seq<byte>>): seq<byte>
  {
    if |ps| == 0 then [] else ps[0] + Concat(ps[1..])
  }

  /** Where field `k` starts: the total length of the fields before it. */
  function Offset(ps: seq<seq<byte>>, k: nat): nat
    requires k <= |ps|
  {
    if k == 0 then 0 else Offset(ps, k - 1) + |ps[k - 1]|
  }

  lemma {:induction false} OffsetShift(ps: seq<seq<byte>>, k: nat)
    requires 1 <= k <= |ps|
    ensures Offset(ps, k) == |ps[0]| + Offset(ps[1..], k - 1)
  {
    if k > 1 {
      OffsetShift(ps, k - 1);
    }
  }

  lemma {:induction false} ConcatLength(ps: seq<seq<byte>>)
    ensures |Concat(ps)| == Offset(ps, |ps|)
  {
    if |ps| > 0 {
      ConcatLength(ps[1..]);
      OffsetShift(ps, |ps|);
    }
  }

  /** Field `k` sits at its offset in the laid-out bytes. */
  lemma {:induction false} ConcatSlice(ps: seq<seq<byte>>, k: nat)
    requires k < |ps|
    ensures Offset(ps, k) + |ps[k]| <= |Concat(ps)|
    ensures Concat(ps)[Offset(ps, k)..Offset(ps, k) + |ps[k]|] == ps[k]
  {
    ConcatLength(ps);
    var rest := Concat(ps[1..]);
    assert Concat(ps) == ps[0] + rest;
    if k == 0 {
      assert (ps[0] + rest)[..|ps[0]|] == ps[0];
    } else {
      ConcatSlice(ps[1..], k - 1);
      OffsetShift(ps, k);
      AppendSlice(ps[0], rest, Offset(ps[1..], k - 1), |ps[k]|);
    }
  }

  /** A slice of the right-hand operand, seen through the concatenation. */
  lemma AppendSlice(a: seq<byte>, b: seq<byte>, o: nat, n: nat)
    requires o + n <= |b|
    ensures (a + b)[|a| + o..|a| + o + n] == b[o..o + n]
  {
  }

  /** The offsets of the twelve fields of the full record. */
  lemma FieldOffsets(ps: seq<seq<byte>>)
    requires |ps| == 12
    requires |ps[0]| == 6 && |ps[1]| == 6 && |ps[2]| == 2 && |ps[3]| == 2 && |ps[4]| == 2 && |ps[5]| == 2
    requires |ps[6]| == 4 && |ps[7]| == 4 && |ps[8]| == 2 && |ps[9]| == 2 && |ps[10]| == 2 && |ps[11]| == DnsQueryLen
    ensures Offset(ps, 0) == SrcMacOff && Offset(ps, 1) == DstMacOff
    ensures Offset(ps, 2) == VlanTciOff && Offset(ps, 3) == VlanProtoOff && Offset(ps, 4) == IpIdOff
    ensures Offset(ps, 5) == 18 && Offset(ps, 6) == SrcIpOff && Offset(ps, 7) == DstIpOff
    ensures Offset(ps, 8) == SrcPortOff && Offset(ps, 9) == DstPortOff && Offset(ps, 10) == DnsTrIdOff
    ensures Offset(ps, 11) == DnsQueryOff && Offset(ps, 12) == FullInfoSize
  {
    assert Offset(ps, 1) == 6;
    assert Offset(ps, 2) == 12;
    assert Offset(ps, 3) == 14;
    assert Offset(ps, 4) == 16;
    assert Offset(ps, 5) == 18;
    assert Offset(ps, 6) == 20;
    assert Offset(ps, 7) == 24;
    assert Offset(ps, 8) == 28;
    assert Offset(ps, 9) == 30;
    assert Offset(ps, 10) == 32;
    assert Offset(ps, 11) == 34;
  }

  /** The bytes copied out of a basic `packet_info`. */
  function BasicImage(host: Endian, info: BasicInfo): (b: seq<byte>)
    ensures |b| == BasicInfoSize
    ensures Load32(host, b, 0) == info.srcIp
  {
    Store32(host, info.srcIp)
  }

  /** Reading any field of the image back at its offset with a native load gives the
      value the C side stored: the layout is the same on both sides of the boundary. */
  lemma {:induction false} FullImageFields(host: Endian, info: PacketInfo)
    requires info.Valid()
    ensures var b := FullImage(host, info);
      && Load16(host, b, VlanTciOff) == info.vlanTci
      && Load16(host, b, VlanProtoOff) == info.vlanProto
      && Load16(host, b, IpIdOff) == info.ipId
      && Load32(host, b, SrcIpOff) == info.srcIp
      && Load32(host, b, DstIpOff) == info.dstIp
      && Load16(host, b, SrcPortOff) == info.srcPort
      && Load16(host, b, DstPortOff) == info.dstPort
      && Load16(host, b, DnsTrIdOff) == info.dnsTrId
  {
    var b := FullImage(host, info);
    ImageTag(host, info);
    ImageAddresses(host, info);
    ImageUdp(host, info);
    LoadSlice16(host, b, VlanTciOff);
    LoadSlice16(host, b, VlanProtoOff);
    LoadSlice16(host, b, IpIdOff);
    LoadSlice32(host, b, SrcIpOff);
    LoadSlice32(host, b, DstIpOff);
    LoadSlice16(host, b, SrcPortOff);
    LoadSlice16(host, b, DstPortOff);
    LoadSlice16(host, b, DnsTrIdOff);
  }

  /** A native load depends only on the bytes it covers. */
  lemma LoadSlice16(host: Endian, s: seq<byte>, off: nat)
    requires off + 2 <= |s|
    ensures Load16(host, s, off) == Load16(host, s[off..off + 2], 0)
  {
  }

  lemma LoadSlice32(host: Endian, s: seq<byte>, off: nat)
    requires off + 4 <= |s|
    ensures Load32(host, s, off) == Load32(host, s[off..off + 4], 0)
  {
    assert s[off..off + 4][0..4] == s[off..off + 4];
  }
}
