/**
  The kernel/userspace boundary: the record an XDP filter writes is read back by the
  matching `read_events` decoder from the same bytes. These lemmas say what the logged
  values are in terms of the original frame.
*/
module RoundTrip {
  import opened Bytes
  import opened Optional
  import opened Headers
  import opened Layout
  import opened Render
  import opened Decode
  import opened Consumer
  import DnsFilter
  import SrcFilter

  /** The image of any record the filter can build decodes to the frame's addresses:
      MACs with the source taken from the Ethernet source field, and the IPv4
      addresses octet for octet. */
  lemma RecordAddressesDecoded(host: Endian, pkt: seq<byte>, ip: nat, udp: nat, vlanTci: u16, vlanProto: u16)
    requires EthHeaderLen <= ip && ip + IpHeaderLen <= |pkt|
    requires udp + UdpHeaderLen + DnsHeaderLen <= |pkt|
    ensures var e := DecodeCapture(host, FullImage(host, DnsFilter.Record(host, pkt, ip, udp, vlanTci, vlanProto)));
      && e.Some?
      && ParseMac(e.value.srcMac) == Some(pkt[6..12])
      && ParseMac(e.value.dstMac) == Some(pkt[0..6])
      && e.value.srcIp.octets == pkt[ip + 12..ip + 16]
      && e.value.dstIp.octets == pkt[ip + 16..ip + 20]
  {
    DnsFilter.RecordAddresses(host, pkt, ip, udp, vlanTci, vlanProto);
  }

  /** ... and to the frame's ports and DNS transaction id, as their wire values. */
  lemma RecordPortsDecoded(host: Endian, pkt: seq<byte>, ip: nat, udp: nat, vlanTci: u16, vlanProto: u16)
    requires EthHeaderLen <= ip && ip + IpHeaderLen <= |pkt|
    requires udp + UdpHeaderLen + DnsHeaderLen <= |pkt|
    ensures var e := DecodeCapture(host, FullImage(host, DnsFilter.Record(host, pkt, ip, udp, vlanTci, vlanProto)));
      && e.Some?
      && e.value.srcPort == Word16(pkt[udp], pkt[udp + 1])
      && e.value.dstPort == Word16(pkt[udp + 2], pkt[udp + 3])
      && e.value.dnsTrId == Word16(pkt[udp + 8], pkt[udp + 9])
  {
    var b := FullImage(host, DnsFilter.Record(host, pkt, ip, udp, vlanTci, vlanProto));
    DnsFilter.RecordUdp(host, pkt, ip, udp, vlanTci, vlanProto);
    PairOf(b, 28, pkt[udp..udp + 2]);
    PairOf(b, 30, pkt[udp + 2..udp + 4]);
    PairOf(b, 32, pkt[udp + 8..udp + 10]);
    PairOf(pkt, udp, pkt[udp..udp + 2]);
    PairOf(pkt, udp + 2, pkt[udp + 2..udp + 4]);
    PairOf(pkt, udp + 8, pkt[udp + 8..udp + 10]);
  }

  lemma PairOf(b: seq<byte>, i: nat, pair: seq<byte>)
    requires i + 2 <= |b| && b[i..i + 2] == pair
    ensures |pair| == 2 && b[i] == pair[0] && b[i + 1] == pair[1]
  {
    assert b[i] == b[i..i + 2][0];
  }

  /** The decoder reads back the native fields exactly as the filter stored them: the
      two sides agree on the offsets of the shared `repr(C)` layout. */
  lemma NativeFieldsReadBack(host: Endian, info: PacketInfo)
    requires info.Valid()
    ensures var e := DecodeCapture(host, FullImage(host, info));
      && e.Some?
      && e.value.vlanId == VlanId(info.vlanTci)
      && e.value.vlanProto == info.vlanProto
      && e.value.ipId == info.ipId
  {
    var b := FullImage(host, info);
    FullImageFields(host, info);
    CaptureNativeFields(host, b);
  }

  /** What the full decoder logs for the record of an admitted frame; by
      `DnsFilter.EmittedInfo` this is the record the filter sends for the frame. */
  function Logged(host: Endian, pkt: seq<byte>): Option<CaptureEvent>
    requires DnsFilter.Admits(host, pkt)
  {
    DecodeCapture(host, FullImage(host, DnsFilter.AdmittedRecord(host, pkt)))
  }

  /** The addresses logged for a passed frame are the frame's own. */
  lemma CaptureAddresses(host: Endian, pkt: seq<byte>)
    requires DnsFilter.Admits(host, pkt)
    ensures var e := Logged(host, pkt);
      var ip := DnsFilter.IpStart(pkt);
      && e.Some?
      && ParseMac(e.value.srcMac) == Some(pkt[6..12])
      && ParseMac(e.value.dstMac) == Some(pkt[0..6])
      && e.value.srcIp.octets == pkt[ip + 12..ip + 16]
      && e.value.dstIp.octets == pkt[ip + 16..ip + 20]
  {
    RecordAddressesDecoded(host, pkt, DnsFilter.IpStart(pkt), DnsFilter.UdpStart(pkt),
      DnsFilter.RecordTci(host, pkt), DnsFilter.RecordProto(host, pkt));
  }

  /** The ports and DNS id logged for a passed frame are its wire values; the
      destination port is 53. */
  lemma CapturePorts(host: Endian, pkt: seq<byte>)
    requires DnsFilter.Admits(host, pkt)
    ensures var e := Logged(host, pkt);
      var udp := DnsFilter.UdpStart(pkt);
      && e.Some?
      && e.value.srcPort == Word16(pkt[udp], pkt[udp + 1])
      && e.value.dstPort == DnsPort
      && e.value.dnsTrId == Word16(pkt[udp + 8], pkt[udp + 9])
  {
    DnsFilter.AdmittedUdp(host, pkt);
    var udp := DnsFilter.UdpStart(pkt);
    RecordPortsDecoded(host, pkt, DnsFilter.IpStart(pkt), udp,
      DnsFilter.RecordTci(host, pkt), DnsFilter.RecordProto(host, pkt));
    DnsPortBytes(pkt[udp + 2], pkt[udp + 3]);
  }

  /** The VLAN fields and IP id logged for a passed frame are native reads of the
      wire bytes; an untagged frame shows VLAN 0 and protocol 0x0800 on any host. */
  lemma CaptureNative(host: Endian, pkt: seq<byte>)
    requires DnsFilter.Admits(host, pkt)
    ensures var e := Logged(host, pkt);
      var tagged := IsVlanTagged(pkt);
      && e.Some?
      && e.value.ipId == Load16(host, pkt, DnsFilter.IpStart(pkt) + 4)
      && e.value.vlanId == VlanId(if tagged then Load16(host, pkt, 14) else 0)
      && e.value.vlanProto == (if tagged then Load16(host, pkt, 16) else 0x0800)
  {
    NativeFieldsReadBack(host, DnsFilter.AdmittedRecord(host, pkt));
  }

  /** The event logged for a frame the full filter passes. The filter sends the
      record; the decoder shows MACs, addresses, ports and the DNS id as they are on
      the wire, and the VLAN fields and IP id as native reads of the wire bytes. */
  lemma CaptureRoundTrip(host: Endian, pkt: seq<byte>)
    requires DnsFilter.Admits(host, pkt)
    ensures DnsFilter.Classify(host, pkt) == Verdict(XdpPass, Some(DnsFilter.AdmittedRecord(host, pkt)))
    ensures var e := Logged(host, pkt);
      var ip := DnsFilter.IpStart(pkt);
      var udp := DnsFilter.UdpStart(pkt);
      var tagged := IsVlanTagged(pkt);
      && e.Some?
      && ParseMac(e.value.srcMac) == Some(pkt[6..12])
      && ParseMac(e.value.dstMac) == Some(pkt[0..6])
      && e.value.srcIp.octets == pkt[ip + 12..ip + 16]
      && e.value.dstIp.octets == pkt[ip + 16..ip + 20]
      && e.value.srcPort == Word16(pkt[udp], pkt[udp + 1])
      && e.value.dstPort == DnsPort
      && e.value.dnsTrId == Word16(pkt[udp + 8], pkt[udp + 9])
      && e.value.ipId == Load16(host, pkt, ip + 4)
      && e.value.vlanId == VlanId(if tagged then Load16(host, pkt, 14) else 0)
      && e.value.vlanProto == (if tagged then Load16(host, pkt, 16) else 0x0800)
  {
    DnsFilter.EmittedInfo(host, pkt);
    CaptureAddresses(host, pkt);
    CapturePorts(host, pkt);
    CaptureNative(host, pkt);
  }

  /** The full decoder shows the 12 low bits of the tag control field as read natively:
      on a little-endian host the tag bytes 00 64 (VLAN 100) are shown as VLAN 1024. */
  lemma VlanIdByteOrder(host: Endian, pkt: seq<byte>)
    requires DnsFilter.Admits(host, pkt) && IsVlanTagged(pkt)
    requires pkt[14] == 0x00 && pkt[15] == 0x64
    ensures Logged(host, pkt).Some?
    ensures Logged(host, pkt).value.vlanId == (if host == LittleEndian then 1024 else 100)
  {
    CaptureNative(host, pkt);
    assert Load16(host, pkt, 14) == (if host == LittleEndian then 0x6400 else 0x0064);
    VlanIdExample();
  }

  /** On a little-endian host the shown protocol differs between tagged and untagged
      IPv4 frames: the untagged path stores the host-order constant 0x0800, the tagged
      path the raw field, which a native read shows as 8. */
  lemma VlanProtoByteOrder(pkt: seq<byte>, untagged: seq<byte>)
    requires DnsFilter.Admits(LittleEndian, pkt) && IsVlanTagged(pkt)
    requires pkt[16] == 0x08 && pkt[17] == 0x00
    requires DnsFilter.Admits(LittleEndian, untagged) && !IsVlanTagged(untagged)
    ensures Logged(LittleEndian, pkt).Some? && Logged(LittleEndian, pkt).value.vlanProto == 8
    ensures Logged(LittleEndian, untagged).Some? && Logged(LittleEndian, untagged).value.vlanProto == 0x0800
  {
    CaptureNative(LittleEndian, pkt);
    CaptureNative(LittleEndian, untagged);
  }

  /** The basic variant: the address the logger prints is the frame's IPv4 source
      address, octet for octet, whatever the host byte order. */
  lemma SourceRoundTrip(host: Endian, pkt: seq<byte>)
    requires SrcFilter.Reports(pkt)
    ensures SrcFilter.Classify(host, pkt).record.Some?
    ensures DecodeBasic(host, BasicImage(host, SrcFilter.Classify(host, pkt).record.value))
         == Received(Ipv4Addr(pkt[26..30]))
  {
    SrcFilter.RecordIsSourceAddress(host, pkt);
  }

  // ---------------------------------------------------------------------------
  // From a stream of frames to the log
  // ---------------------------------------------------------------------------

  /** The frames the full filter passes, in arrival order. */
  function Passed(host: Endian, pkts: seq<seq<byte>>): (p: seq<seq<byte>>)
    ensures forall j :: 0 <= j < |p| ==> DnsFilter.Admits(host, p[j])
  {
    if |pkts| == 0 then []
    else
      var last := pkts[|pkts| - 1];
      Passed(host, pkts[..|pkts| - 1]) + (if DnsFilter.Admits(host, last) then [last] else [])
  }

  /** The records the filter emits for the frames, as the bytes userspace receives. */
  function Delivered(host: Endian, pkts: seq<seq<byte>>): seq<seq<byte>>
  {
    if |pkts| == 0 then []
    else
      var v := DnsFilter.Classify(host, pkts[|pkts| - 1]);
      Delivered(host, pkts[..|pkts| - 1]) + (if v.record.Some? then [FullImage(host, v.record.value)] else [])
  }

  /** A log entry that shows the frame: a capture whose every field is the one
      `CaptureRoundTrip` derives from the frame's bytes. */
  predicate ShowsFrame(host: Endian, entry: LogEntry, frame: seq<byte>)
  {
    && |frame| >= EthHeaderLen
    && var ip := DnsFilter.IpStart(frame);
    && ip + IpHeaderLen <= |frame|
    && var udp := DnsFilter.UdpStart(frame);
    && udp + UdpHeaderLen + 2 <= |frame|
    && entry.Capture?
    && var e := entry.event;
    && ParseMac(e.srcMac) == Some(frame[6..12])
    && ParseMac(e.dstMac) == Some(frame[0..6])
    && e.srcIp.octets == frame[ip + 12..ip + 16]
    && e.dstIp.octets == frame[ip + 16..ip + 20]
    && e.srcPort == Word16(frame[udp], frame[udp + 1])
    && e.dstPort == DnsPort
    && e.dnsTrId == Word16(frame[udp + 8], frame[udp + 9])
    && e.ipId == Load16(host, frame, ip + 4)
    && e.vlanId == VlanId(if IsVlanTagged(frame) then Load16(host, frame, 14) else 0)
    && e.vlanProto == (if IsVlanTagged(frame) then Load16(host, frame, 16) else 0x0800)
  }

  /** The entry the decoder logs for one passed frame shows that frame. */
  lemma PassedFrameShown(host: Endian, frame: seq<byte>)
    requires DnsFilter.Admits(host, frame)
    ensures Logged(host, frame).Some?
    ensures ShowsFrame(host, Capture(Logged(host, frame).value), frame)
  {
    DnsFilter.AdmittedUdp(host, frame);
    CaptureAddresses(host, frame);
    CapturePorts(host, frame);
    CaptureNative(host, frame);
  }

  /** Entry `j` of `log` shows frame `j` of `frames`, one entry per frame. */
  predicate ShowsAll(host: Endian, log: seq<LogEntry>, frames: seq<seq<byte>>)
  {
    |log| == |frames| && forall j :: 0 <= j < |frames| ==> ShowsFrame(host, log[j], frames[j])
  }

  /** The log of the delivered records shows the passed frames, one entry each, in
      arrival order. */
  predicate LoggedInOrder(host: Endian, pkts: seq<seq<byte>>)
  {
    ShowsAll(host, DecodeAll(Full, host, Delivered(host, pkts)), Passed(host, pkts))
  }

  /** Appending one shown frame to a log that shows its frames in order. */
  lemma ShowsAppend(host: Endian, log: seq<LogEntry>, frames: seq<seq<byte>>, entries: seq<LogEntry>, frame: seq<byte>)
    requires ShowsAll(host, log, frames)
    requires |entries| == 1 && ShowsFrame(host, entries[0], frame)
    ensures ShowsAll(host, log + entries, frames + [frame])
  {
    forall j | 0 <= j < |frames| + 1
      ensures ShowsFrame(host, (log + entries)[j], (frames + [frame])[j])
    {
      if j < |frames| {
        assert (log + entries)[j] == log[j] && (frames + [frame])[j] == frames[j];
      } else {
        assert (log + entries)[j] == entries[0] && (frames + [frame])[j] == frame;
      }
    }
  }

  /** The images of the records delivered for `init` followed by `last`: one more
      image when the filter admits `last`. */
  lemma DeliveredStepPassed(host: Endian, pkts: seq<seq<byte>>)
    requires |pkts| > 0 && DnsFilter.Admits(host, pkts[|pkts| - 1])
    ensures Delivered(host, pkts)
      == Delivered(host, pkts[..|pkts| - 1]) + [FullImage(host, DnsFilter.AdmittedRecord(host, pkts[|pkts| - 1]))]
    ensures Passed(host, pkts) == Passed(host, pkts[..|pkts| - 1]) + [pkts[|pkts| - 1]]
  {
    DnsFilter.EmittedInfo(host, pkts[|pkts| - 1]);
  }

  /** Decoding one more passed frame's record extends a log that shows its frames. */
  lemma DecodeOneMore(host: Endian, imgs: seq<seq<byte>>, frames: seq<seq<byte>>, frame: seq<byte>)
    requires ShowsAll(host, DecodeAll(Full, host, imgs), frames)
    requires DnsFilter.Admits(host, frame)
    ensures ShowsAll(host, DecodeAll(Full, host, imgs + [FullImage(host, DnsFilter.AdmittedRecord(host, frame))]), frames + [frame])
  {
    var img := FullImage(host, DnsFilter.AdmittedRecord(host, frame));
    PassedFrameShown(host, frame);
    DecodeAllSnoc(Full, host, imgs, img);
    var entries := [Capture(Logged(host, frame).value)];
    assert DecodeBuffer(Full, host, img) == entries;
    ShowsAppend(host, DecodeAll(Full, host, imgs), frames, entries, frame);
  }

  lemma LoggedStepPassed(host: Endian, pkts: seq<seq<byte>>)
    requires |pkts| > 0 && DnsFilter.Admits(host, pkts[|pkts| - 1])
    requires LoggedInOrder(host, pkts[..|pkts| - 1])
    ensures LoggedInOrder(host, pkts)
  {
    var init, last := pkts[..|pkts| - 1], pkts[|pkts| - 1];
    DeliveredStepPassed(host, pkts);
    DecodeOneMore(host, Delivered(host, init), Passed(host, init), last);
  }

  lemma LoggedStepDropped(host: Endian, pkts: seq<seq<byte>>)
    requires |pkts| > 0 && !DnsFilter.Admits(host, pkts[|pkts| - 1])
    requires LoggedInOrder(host, pkts[..|pkts| - 1])
    ensures LoggedInOrder(host, pkts)
  {
    var init, last := pkts[..|pkts| - 1], pkts[|pkts| - 1];
    DnsFilter.PassIffAdmits(host, last);
    assert Delivered(host, pkts) == Delivered(host, init);
    assert Passed(host, pkts) == Passed(host, init);
  }

  /** Every frame the filter passes is logged exactly once, in arrival order, with
      every field shown as `CaptureRoundTrip` states it; dropped frames leave no entry. */
  lemma {:induction false} EveryPassedFrameLogged(host: Endian, pkts: seq<seq<byte>>)
    ensures LoggedInOrder(host, pkts)
  {
    if |pkts| > 0 {
      EveryPassedFrameLogged(host, pkts[..|pkts| - 1]);
      if DnsFilter.Admits(host, pkts[|pkts| - 1]) {
        LoggedStepPassed(host, pkts);
      } else {
        LoggedStepDropped(host, pkts);
      }
    }
  }
}
