/**
  The userspace record decoders: the per-buffer body of the `read_events` loop in
  packet_capture/src/main.rs (full variant) and eBPF/src/main.rs (basic variant).
  Where the Rust code casts the buffer to `&PacketInfo`, the model reads each field
  at its fixed `repr(C)` offset with a native load.
*/
module Decode {
  import opened Bytes
  import opened Optional
  import opened Layout
  import opened Render

  /** The values the full decoder logs for one record. */
  datatype CaptureEvent = CaptureEvent(
    srcMac: string,
    dstMac: string,
    vlanId: u16,
    vlanProto: u16,
    ipId: u16,
    srcIp: Ipv4Addr,
    dstIp: Ipv4Addr,
    srcPort: u16,
    dstPort: u16,
    dnsTrId: u16)

  /** `vlan_tci & 0x0FFF`: the 12 low-order bits, dropping priority and DEI. */
  function VlanId(tci: u16): (id: u16)
    ensures id < 0x1000
    ensures (tci - id) % 0x1000 == 0
  {
    tci % 0x1000
  }

  lemma VlanIdExample()
    ensures VlanId(0x1064) == 100
    ensures VlanId(0xF064) == 100
    ensures VlanId(0x0064) == 100
    ensures VlanId(0x6400) == 1024
  {
  }

  /** One buffer of the full variant. A buffer shorter than `size_of::<PacketInfo>()`
      yields nothing at all, not even a diagnostic. */
  function DecodeCapture(host: Endian, buf: seq<byte>): (r: Option<CaptureEvent>)
    ensures r.Some? <==> |buf| >= RustInfoSize
    ensures r.Some? ==>
      && ParseMac(r.value.srcMac) == Some(buf[0..6])
      && ParseMac(r.value.dstMac) == Some(buf[6..12])
      && r.value.vlanId < 0x1000
      && r.value.srcIp.octets == buf[20..24]
      && r.value.dstIp.octets == buf[24..28]
      && r.value.srcPort == Word16(buf[28], buf[29])
      && r.value.dstPort == Word16(buf[30], buf[31])
      && r.value.dnsTrId == Word16(buf[32], buf[33])
    // vlan_proto and ip_id are shown as read, without `from_be`.
    ensures r.Some? && host == LittleEndian ==>
      && r.value.vlanProto == Word16(buf[15], buf[14])
      && r.value.ipId == Word16(buf[17], buf[16])
  {
    if |buf| < RustInfoSize then None
    else
      FromBeLoad32(host, buf, SrcIpOff);
      FromBeLoad32(host, buf, DstIpOff);
      FromBeLoad16(host, buf, SrcPortOff);
      FromBeLoad16(host, buf, DstPortOff);
      FromBeLoad16(host, buf, DnsTrIdOff);
      Some(CaptureEvent(
        srcMac := MacString(buf[SrcMacOff..SrcMacOff + 6]),
        dstMac := MacString(buf[DstMacOff..DstMacOff + 6]),
        vlanId := VlanId(Load16(host, buf, VlanTciOff)),
        vlanProto := Load16(host, buf, VlanProtoOff),
        ipId := Load16(host, buf, IpIdOff),
        srcIp := Ipv4FromU32(FromBe32(host, Load32(host, buf, SrcIpOff))),
        dstIp := Ipv4FromU32(FromBe32(host, Load32(host, buf, DstIpOff))),
        srcPort := FromBe16(host, Load16(host, buf, SrcPortOff)),
        dstPort := FromBe16(host, Load16(host, buf, DstPortOff)),
        dnsTrId := FromBe16(host, Load16(host, buf, DnsTrIdOff))))
  }

  /** Only the first 36 bytes are read: whatever follows (the C side's `dns_query`,
      or anything else) never changes the event. */
  lemma {:induction false} CaptureReadsPrefix(host: Endian, buf: seq<byte>, other: seq<byte>)
    requires |buf| >= RustInfoSize && |other| >= RustInfoSize
    requires buf[..RustInfoSize] == other[..RustInfoSize]
    ensures DecodeCapture(host, buf) == DecodeCapture(host, other)
  {
    forall i | 0 <= i < RustInfoSize
      ensures buf[i] == other[i]
    {
      assert buf[i] == buf[..RustInfoSize][i];
    }
    assert buf[0..6] == other[0..6];
    assert buf[6..12] == other[6..12];
  }

  /** The three fields the full decoder shows without `from_be`, as native reads. */
  lemma CaptureNativeFields(host: Endian, buf: seq<byte>)
    requires |buf| >= RustInfoSize
    ensures DecodeCapture(host, buf).Some?
    ensures DecodeCapture(host, buf).value.vlanId == VlanId(Load16(host, buf, VlanTciOff))
    ensures DecodeCapture(host, buf).value.vlanProto == Load16(host, buf, VlanProtoOff)
    ensures DecodeCapture(host, buf).value.ipId == Load16(host, buf, IpIdOff)
  {
  }

  /** What the basic decoder reports for one buffer. */
  datatype BasicReport =
    | Received(src: Ipv4Addr)
    | TooSmall(actual: nat, expected: nat)

  /** One buffer of the basic variant: the source address, or a warning carrying the
      buffer's length and the 4 bytes expected. */
  function DecodeBasic(host: Endian, buf: seq<byte>): (r: BasicReport)
    ensures r.TooSmall? <==> |buf| < BasicInfoSize
    ensures r.TooSmall? ==> r.actual == |buf| && r.expected == BasicInfoSize
    ensures r.Received? ==> r.src.octets == buf[0..4]
  {
    if |buf| >= BasicInfoSize then
      FromBeLoad32(host, buf, 0);
      Received(Ipv4FromU32(FromBe32(host, Load32(host, buf, 0))))
    else
      TooSmall(|buf|, BasicInfoSize)
  }

  /** Only bytes 0-3 influence the report. */
  lemma {:induction false} BasicReadsPrefix(host: Endian, buf: seq<byte>, other: seq<byte>)
    requires |buf| >= BasicInfoSize && |other| >= BasicInfoSize
    requires buf[..BasicInfoSize] == other[..BasicInfoSize]
    ensures DecodeBasic(host, buf) == DecodeBasic(host, other)
  {
    assert buf[0..4] == buf[..BasicInfoSize];
    assert other[0..4] == other[..BasicInfoSize];
  }

  /** The bytes C0 A8 00 01 are displayed as `192.168.0.1`. */
  lemma BasicExample(host: Endian)
    ensures DecodeBasic(host, [0xC0, 0xA8, 0x00, 0x01]).Received?
    ensures Dotted(DecodeBasic(host, [0xC0, 0xA8, 0x00, 0x01]).src) == "192.168.0.1"
  {
    DecimalExample();
  }
}
