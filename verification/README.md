# DNS query capture over XDP: filters, record layout and decoders

This project models the byte-level contract between two XDP programs and the Rust
programs that read what they emit.

- **Full capture variant.** The C `xdp_filter` in `packet_capture/src/eBPF/filter.c`
  walks the headers in order: Ethernet, an optional 802.1Q tag, IPv4, UDP, the DNS header.
  - It drops every frame except UDP datagrams to port 53 whose headers fit, that carry
    at least one byte after the DNS header, and whose DNS flags word, read in host
    order, has its top bit clear.
  - That is not "DNS queries only". On a little-endian host the bit tested is RA, not
    QR, so a response can pass. After an 802.1Q tag the encapsulated protocol is never
    checked, so a tagged IPv6 frame is parsed as IPv4. Nothing else about the DNS
    message is validated.
  - For each frame it passes, it emits an 84-byte `struct packet_info`.
  - The `read_events` loop in `packet_capture/src/main.rs` reads the first 36 bytes of
    each buffer at fixed `repr(C)` offsets. It converts addresses, ports and the DNS id
    with `from_be`, masks the VLAN id, and renders the MACs and dotted addresses.
- **Basic variant.** The `xdp_filter` in `eBPF/src/eBPF/filter.c` never drops a frame.
  - For untagged IPv4/UDP frames to port 53 it emits the 4-byte source address.
  - `eBPF/src/main.rs` prints that address, or warns that the buffer is too small.

## How the model is built

- The host byte order is a parameter `Endian`. Every native load or store of a `u16` or
  `u32` takes it as an argument, so host-dependent behaviour shows up in the contracts.
- A classifier is a pure function from the frame bytes (`data .. data_end`) to a
  `Verdict`. A verdict is the XDP return code plus the record, if any, handed to
  `bpf_perf_event_output`.
- Every header read is a sequence access. Its well-formedness is therefore the bounds
  check that the kernel verifier demands of the C code.
- The record is a datatype of field values. `Layout.FullImage` and `Layout.BasicImage`
  give the bytes userspace receives.
- The decoders are pure functions of one buffer.
- `Consumer` models the loop over a finite sequence of `read_events` outcomes, each of
  which is an error or `(read, lost, buffers)`.
- `RoundTrip` connects the two halves: what is logged for a passed frame, in terms of
  that frame's own bytes.

Modules:

| file | module | contents |
|---|---|---|
| `optional.dfy` | `Optional` | the `Option` type for "no record", "no event", "does not parse" |
| `bytes.dfy` | `Bytes` | native loads and stores, `from_be`, big-endian words |
| `headers.dfy` | `Headers` | header offsets and constants, the verdict type |
| `layout.dfy` | `Layout` | both `packet_info` layouts and their memory images |
| `dns_filter.dfy` | `DnsFilter` | the full classifier |
| `src_filter.dfy` | `SrcFilter` | the basic classifier |
| `render.dfy` | `Render` | `{:02x}` MAC rendering, `Ipv4Addr` and its `Display` |
| `decode.dfy` | `Decode` | the per-buffer decoders |
| `consumer.dfy` | `Consumer` | the `read_events` loop |
| `roundtrip.dfy` | `RoundTrip` | filter-to-log properties |

## Model

| member | source | states |
|---|---|---|
| DnsFilter.Classify | packet_capture/src/eBPF/filter.c:57-60 | A record is sent exactly when the verdict is XDP_PASS, and any record sent is well formed. A frame shorter than the Ethernet header is dropped with no record. |
| DnsFilter.PassIffAdmits | packet_capture/src/eBPF/filter.c:52-163 | The filter passes a frame exactly when its bytes satisfy all of: ethertype 81 00 or 08 00; the tag (if any), IPv4, UDP and DNS headers and one query byte fit; protocol 17; flags top bit clear as a native read sees it; destination port bytes 00 35. Every other frame is dropped with no record. |
| DnsFilter.ClassifyIp | packet_capture/src/eBPF/filter.c:84-161 | The walk from the IPv4 header on sends a record exactly when it passes, and drops a frame whose IPv4 header does not fit. When it passes, the UDP header, the DNS header and one byte after it fit, and the record is the one built with the UDP header `ihl*4` bytes into the IPv4 header and the VLAN values handed in. |
| DnsFilter.Record | packet_capture/src/eBPF/filter.c:137-154 | Any record the filter builds is well formed: two 6-byte MACs and a 50-byte `dns_query`. Its bytes are stated by the RecordAddresses, RecordTag and RecordUdp rows. |
| DnsFilter.ClassifyIpIff | packet_capture/src/eBPF/filter.c:84-161 | From the IPv4 header on, the walk passes exactly the frames `AdmitsFrom` describes and otherwise drops with no record. When it passes, the record is built with the UDP header at `ip + ihl*4`. |
| DnsFilter.EtherTypeTests | packet_capture/src/eBPF/filter.c:69-82 | The native `h_proto` comparisons against `htons(ETH_P_8021Q)` and `htons(ETH_P_IP)` hold exactly for the bytes 81 00 and 08 00, on either host byte order. |
| DnsFilter.UnknownEtherTypeDropped | packet_capture/src/eBPF/filter.c:78-82 | A frame whose ethertype is neither 802.1Q nor IPv4 is dropped with no record. |
| DnsFilter.ShortVlanDropped | packet_capture/src/eBPF/filter.c:69-73 | A tagged frame too short for the 4-byte tag is dropped. |
| DnsFilter.InnerProtocolIgnored | packet_capture/src/eBPF/filter.c:74-77 | After a tag the encapsulated protocol is never tested: rewriting those two bytes never changes the verdict. |
| DnsFilter.NotUdpDropped | packet_capture/src/eBPF/filter.c:85-93 | A frame whose IPv4 header does not fit, or whose protocol byte is not 17, is dropped. |
| DnsFilter.ShortDnsDropped | packet_capture/src/eBPF/filter.c:96-115 | A frame is dropped if any of these does not fit: the UDP header at `ihl*4`, the DNS header, one byte after it. |
| DnsFilter.FlagsShift | packet_capture/src/eBPF/filter.c:106-108 | `dns_flags >> 15` on the natively read flags word tests bit 7 of the second flags byte on a little-endian host and of the first on a big-endian one. |
| DnsFilter.FlagsQuirkLittleEndian | packet_capture/src/eBPF/filter.c:106-110 | On a little-endian host a response with flags 81 00 is passed and a query with flags 01 80 is dropped. |
| DnsFilter.PortTest | packet_capture/src/eBPF/filter.c:136 | The native comparison with `htons(53)` holds exactly for the port bytes 00 35. |
| DnsFilter.EmittedInfo | packet_capture/src/eBPF/filter.c:136-160 | An admitted frame is passed with exactly one record, built from the frame's headers with the VLAN fields chosen by whether the frame is tagged. |
| DnsFilter.RecordAddresses | packet_capture/src/eBPF/filter.c:137-149 | In the record's bytes the source MAC is frame bytes 6-11 and the destination MAC is bytes 0-5. The IP id and both addresses are copies of the IPv4 header bytes in network order. |
| DnsFilter.RecordTag | packet_capture/src/eBPF/filter.c:62-75 | A tagged frame's record carries the raw tag bytes. An untagged frame's record carries `vlan_tci` 0 and `vlan_proto` as the host-order value 0x0800. |
| DnsFilter.RecordUdp | packet_capture/src/eBPF/filter.c:151-154 | In the record's bytes both ports and the DNS transaction id are copies of the frame's bytes. The 50 `dns_query` bytes are zero. |
| Headers.WireConstants | packet_capture/src/eBPF/filter.c:69-78 | The network-order bytes of `ETH_P_IP`, `ETH_P_8021Q` and port 53 are 08 00, 81 00 and 00 35. |
| Headers.DnsPortBytes | packet_capture/src/main.rs:125 | The port bytes 00 35, read back with `from_be`, are port 53. |
| SrcFilter.Classify | eBPF/src/eBPF/filter.c:27-71 | Every path returns XDP_PASS. A frame too short for the Ethernet and IPv4 headers yields no record. |
| SrcFilter.EmitsIffReports | eBPF/src/eBPF/filter.c:33-69 | A record is emitted exactly when all of these hold: the ethertype bytes are 08 00; the IPv4 header fits and carries protocol 17; the UDP header fits at `ihl*4`; its destination port bytes are 00 35. |
| SrcFilter.TaggedFrameNotReported | eBPF/src/eBPF/filter.c:38-40 | An 802.1Q-tagged frame never yields a record. |
| SrcFilter.NotUdpNotReported | eBPF/src/eBPF/filter.c:49-51 | A protocol other than UDP yields no record. |
| SrcFilter.RecordIsSourceAddress | eBPF/src/eBPF/filter.c:61-62 | The record's 4 bytes are the frame's IPv4 source address bytes 26-29 as they sit on the wire. |
| Layout.FullImage | packet_capture/src/eBPF/filter.c:19-31 | The record `bpf_perf_event_output` copies out is 84 bytes. |
| Layout.ImageMacs | packet_capture/src/eBPF/filter.c:20-21 | The source MAC occupies bytes 0-5 and the destination MAC bytes 6-11. |
| Layout.ImageTag | packet_capture/src/eBPF/filter.c:22-24 | `vlan_tci`, `vlan_proto` and `ip_id` are native stores at bytes 12, 14 and 16. The padding bytes 18-19 are zero. |
| Layout.ImageAddresses | packet_capture/src/eBPF/filter.c:25-26 | The 4-byte-aligned addresses are native stores at bytes 20-23 and 24-27. |
| Layout.ImageUdp | packet_capture/src/eBPF/filter.c:27-30 | The ports and the DNS id are native stores at bytes 28, 30 and 32, and `dns_query` fills bytes 34-83. |
| Layout.FullImageFields | packet_capture/src/main.rs:17-31 | Reading each field of the Rust struct at its offset gives back the value the C side stored. |
| Layout.BasicImage | eBPF/src/eBPF/filter.c:18-20 | The basic record is 4 bytes, and a native read of them gives `src_ip`. |
| Bytes.StoreLoad16 | packet_capture/src/eBPF/filter.c:146-154 | Copying a 16-bit header field into the record by a native load and store keeps its wire bytes. |
| Bytes.StoreLoad32 | packet_capture/src/eBPF/filter.c:148-149 | Copying a 32-bit address into the record keeps its wire bytes. |
| Bytes.FromBeLoad16 | packet_capture/src/main.rs:124-127 | A native read followed by `u16::from_be` yields the big-endian value of the two bytes on any host. |
| Bytes.FromBeLoad32 | packet_capture/src/main.rs:121-122 | A native read followed by `u32::from_be` yields a value whose big-endian bytes are the stored bytes. |
| Bytes.LoadEqualsHtons | eBPF/src/eBPF/filter.c:38 | A native u16 equals `htons(c)` exactly when the stored bytes are `c`'s network-order bytes. |
| Bytes.Bytes16Word16 | packet_capture/src/main.rs:124 | Splitting the value of two bytes gives back those bytes. |
| Bytes.Bytes32Word32 | packet_capture/src/main.rs:121 | Splitting the value of four bytes gives back those bytes. |
| Render.HexByte | packet_capture/src/main.rs:107 | `{:02x}` of a byte is two characters that parse back to the byte. |
| Render.HexJoinRoundTrip | packet_capture/src/main.rs:107-113 | Octets rendered as two-digit hex joined by `:` parse back to the same octets. |
| Render.HexJoinOctet | packet_capture/src/main.rs:107-109 | Octet i of the rendering is at characters 3i and 3i+1. |
| Render.HexJoinColon | packet_capture/src/main.rs:107 | A colon follows every octet but the last. |
| Render.MacString | packet_capture/src/main.rs:107-113 | A rendered MAC is 17 characters and parses back to its six bytes. |
| Render.Ipv4FromU32 | packet_capture/src/main.rs:121-122 | `Ipv4Addr::from(u32)` has four octets whose big-endian value is the u32. |
| Render.Decimal | packet_capture/src/main.rs:129-131 | An octet is displayed as a non-empty string of decimal digits with no leading zero, at most three of them below 1000. |
| Render.Dotted | packet_capture/src/main.rs:129-131 | An address is displayed in 7 to 15 characters. DottedRoundTrip is its inverse. |
| Render.DecimalValue | packet_capture/src/main.rs:129-131 | The digits displayed denote the number. |
| Render.DottedRoundTrip | eBPF/src/main.rs:95-96 | Displaying an address and parsing the dotted quad gives back the same four octets. |
| Render.DottedExample | eBPF/src/main.rs:95-96 | The address from the value 0xC0A80001 is displayed as `192.168.0.1`. |
| Decode.VlanId | packet_capture/src/main.rs:117 | `vlan_tci & 0x0FFF` is below 4096 and differs from `vlan_tci` by a multiple of 4096. |
| Decode.VlanIdExample | packet_capture/src/main.rs:117 | The raw values 0x1064, 0xF064 and 0x0064 give 100, and 0x6400 gives 1024. |
| Decode.DecodeCapture | packet_capture/src/main.rs:104-133 | An event exists exactly when the buffer has at least 36 bytes. When it does, the event has these fields: the MACs parse back to bytes 0-5 and 6-11; the VLAN id is below 4096; the address octets are bytes 20-23 and 24-27; the ports and DNS id are the big-endian values of bytes 28-33. On a little-endian host `vlan_proto` and `ip_id` are the byte-swapped reads. |
| Decode.CaptureReadsPrefix | packet_capture/src/main.rs:104-105 | Only the first 36 bytes affect the event. |
| Decode.CaptureNativeFields | packet_capture/src/main.rs:115-119 | The VLAN id, `vlan_proto` and `ip_id` are native reads without `from_be`. |
| Decode.DecodeBasic | eBPF/src/main.rs:93-100 | A buffer under 4 bytes gives a warning with its length and the expected 4. Otherwise the address octets are buffer bytes 0-3. |
| Decode.BasicReadsPrefix | eBPF/src/main.rs:93-95 | Only bytes 0-3 affect the report. |
| Decode.BasicExample | eBPF/src/main.rs:95-96 | The bytes C0 A8 00 01 are shown as `192.168.0.1` on any host. |
| Consumer.AllDecoded | packet_capture/src/main.rs:101-104 | Decoding a run of buffers logs only decoded entries, never an error or a loss warning. |
| Consumer.DecodeBuffer | packet_capture/src/main.rs:102-134 | A filled buffer yields one entry, except that the full variant skips a buffer shorter than 36 bytes. |
| Consumer.DecodeAll | eBPF/src/main.rs:90-101 | No contract of its own: the entries of the buffers in index order. AllDecoded, BasicOneEntryPerBuffer, FullCapturesLongBuffers and DecodeAllAppend state what they are. |
| Consumer.DecodeBatch | packet_capture/src/main.rs:101-135 | The `for i in 0..events.read` loop logs only decoded entries. In the basic variant entry i is buffer i's report, one per buffer. In the full variant the entries are the captures of the buffers of at least 36 bytes, in order. |
| Consumer.Iteration | eBPF/src/main.rs:78-101 | A failed read logs its error and nothing else. A loss count above 0 puts its warning before anything decoded. |
| Consumer.ConsumeBatch | packet_capture/src/main.rs:89-135 | A failed read logs exactly one error. A loss count above 0 logs its warning first. The warnings add up to the read's loss count. Leaving out errors and warnings, the entries are the decoding of the filled buffers 0 to read-1. |
| Consumer.Run | packet_capture/src/main.rs:88-136 | No contract of its own: the passes' entries one after the other. RunAppend, ReadErrorContinues, DecodedInDeliveryOrder and LossesAllWarned state what the log holds. |
| Consumer.Consume | packet_capture/src/main.rs:88-136 | Over the whole run the loss warnings add up to the losses reported, and, leaving out errors and warnings, the log is the decoding of every filled buffer in delivery order. |
| Consumer.BasicOneEntryPerBuffer | eBPF/src/main.rs:90-101 | In the basic variant each filled buffer yields exactly one entry, an address or a too-small warning, in index order. |
| Consumer.LongEnough | packet_capture/src/main.rs:104 | The buffers kept are all at least 36 bytes long. |
| Consumer.FullCapturesLongBuffers | packet_capture/src/main.rs:101-134 | In the full variant the entries are exactly one capture per buffer of at least 36 bytes, in order. Shorter buffers vanish silently. |
| Consumer.DecodeAllAppend | packet_capture/src/main.rs:101 | Decoding two runs of buffers one after the other logs the two logs one after the other. |
| Consumer.RunAppend | packet_capture/src/main.rs:88 | The loop over two runs of outcomes logs the two logs one after the other. |
| Consumer.ReadErrorContinues | eBPF/src/main.rs:78-84 | A failed read logs one error, decodes nothing, and the loop carries on unchanged. |
| Consumer.DecodedInDeliveryOrder | packet_capture/src/main.rs:88-101 | Ignoring errors and loss warnings, the log is the decoding of all filled buffers in delivery order. |
| Consumer.LossesAllWarned | eBPF/src/main.rs:86-88 | The loss warnings add up to the total loss count reported. |
| Consumer.LostIteration | eBPF/src/main.rs:86-88 | One loop pass warns about exactly the losses its read reported, and a failed read warns about none. |
| Consumer.StaleBuffersIgnored | eBPF/src/main.rs:90-91 | Buffers past `events.read` never influence the log. |
| RoundTrip.RecordAddressesDecoded | packet_capture/src/main.rs:107-122 | For any record the filter can build, the decoded MACs are the frame's, and the address octets are the frame's IPv4 address bytes. |
| RoundTrip.RecordPortsDecoded | packet_capture/src/main.rs:124-127 | For any record the filter can build, the decoded ports and DNS id are the wire values of the frame's bytes. |
| RoundTrip.NativeFieldsReadBack | packet_capture/src/main.rs:115-119 | The decoder reads back the native fields the filter stored, with the VLAN id masked. |
| RoundTrip.CaptureAddresses | packet_capture/src/main.rs:107-122 | For a passed frame, the logged source MAC is frame bytes 6-11 and the logged destination MAC is bytes 0-5. The logged addresses are the IPv4 header's address bytes. |
| RoundTrip.CapturePorts | packet_capture/src/main.rs:124-127 | For a passed frame the logged ports and DNS id are the frame's wire values, and the destination port is 53. |
| RoundTrip.CaptureNative | packet_capture/src/main.rs:115-119 | For a passed frame the VLAN id, `vlan_proto` and IP id logged are native reads of the frame's bytes. An untagged frame shows VLAN 0 and 0x0800. |
| RoundTrip.CaptureRoundTrip | packet_capture/src/eBPF/filter.c:136-160 | The filter passes an admitted frame with its record, and the logged event shows every field of the frame as stated in the three rows above. |
| RoundTrip.VlanIdByteOrder | packet_capture/src/main.rs:115-117 | Tag bytes 00 64 (VLAN 100) are shown as VLAN 1024 on a little-endian host and as 100 on a big-endian one. |
| RoundTrip.VlanProtoByteOrder | packet_capture/src/eBPF/filter.c:66-75 | On a little-endian host a tagged IPv4 frame shows `vlan_proto` 8 while an untagged one shows 0x0800. |
| RoundTrip.SourceRoundTrip | eBPF/src/main.rs:93-96 | The address the basic program prints is the frame's IPv4 source address bytes, in order. |
| RoundTrip.Passed | packet_capture/src/eBPF/filter.c:136-162 | Every frame kept is one the filter admits. |
| RoundTrip.PassedFrameShown | packet_capture/src/main.rs:104-133 | The record of a passed frame decodes to an event that shows the frame. That is every field as the CaptureRoundTrip row states it: MACs, addresses, ports, DNS id, IP id, VLAN id and `vlan_proto`. |
| RoundTrip.EveryPassedFrameLogged | packet_capture/src/main.rs:101-134 | Over a sequence of frames, the delivered records give one log entry per passed frame, in arrival order, each showing every field of its frame as in the row above. |

## Left out

- Loading and attaching the programs, and the perf map itself, are left out as calls into aya and the kernel. This covers `Ebpf::load`, `attach`, `take_map`, `AsyncPerfEventArray`, `online_cpus` and `EbpfLogger`. A read is modelled as an error or as `(read, lost, buffers)`.
- The per-CPU tasks, Ctrl-C handling and the shutdown sleep are left out as concurrency and I/O. The model handles one CPU's buffer with a finite sequence of reads.
- `bpf_perf_event_output` is modelled as "the record is sent". Its failure status and `bpf_printk` are external.
- The log format strings and `env_logger` are left out. The log is a sequence of `LogEntry` values carrying the data each line prints.
- DNS name decoding is left out because neither side performs it: the C label walk is commented out and the Rust struct stops before `dns_query`.
- `packet_capture/build.rs` (a build script), `udss/` (declarations only) and the `Opt` command-line parsing are not part of this model.
- The host byte order is a parameter, and both halves run on the same host.
- `read_events` never reports more filled buffers than it was handed. This is aya's guarantee, not something the loop checks, and `&buffers[i]` would panic without it. The model takes it as the `ReadOutcome.Valid` precondition of the loop.
- The padding bytes 18-19 of the full record are zero, as they are in the zero-initialised `info = {}`.
- Decode.VlanId: `& 0x0FFF` on a u16 is written as the remainder modulo 0x1000, which is the same value.
- Consumer.Consume: the endless `loop` is modelled over a finite sequence of read outcomes.
