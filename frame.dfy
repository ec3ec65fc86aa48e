/** The frame builder: the four setters that stamp an Ethernet header, an IPv4
    header, a UDP header and the payload into the data region of a packet buffer
    (`set_eth_hdr`, `set_ipv4_hdr`, `set_udp_hdr`, `insert_data_udp`).
    The data region is modelled as the byte array that `rte_pktmbuf_mtod`
    points at, offset 0 being the first byte of the frame. */
module Frame {
  import opened Bytes
  import opened Checksum
  import opened Memory

  // Layout of the frame: sizeof(rte_ether_hdr), sizeof(rte_ipv4_hdr),
  // sizeof(rte_udp_hdr) and the fixed payload size.
  const EtherHdrLen: nat := 14
  const Ipv4HdrLen: nat := 20
  const UdpHdrLen: nat := 8
  const PayloadLen: nat := 172
  const Ipv4Offset: nat := EtherHdrLen
  const UdpOffset: nat := EtherHdrLen + Ipv4HdrLen
  const PayloadOffset: nat := EtherHdrLen + Ipv4HdrLen + UdpHdrLen
  const FrameLen: nat := EtherHdrLen + Ipv4HdrLen + UdpHdrLen + PayloadLen

  // Field values the setters write.
  const DstMac: seq<byte> := [0xDE, 0xAD, 0xBE, 0xEF, 0xAB, 0x12]
  const SrcMac: seq<byte> := [0x12, 0x45, 0xAB, 0xCD, 0x78, 0x21]
  const EtherTypeIpv4: u16 := 0x0800        // RTE_ETHER_TYPE_IPV4
  const Ipv4TotalLength: u16 := 200
  const FragmentOffsetHost: u16 := 0x0040   // stored without rte_cpu_to_be_16
  const TimeToLive: byte := 64
  const ProtoUdp: byte := 17
  const SrcIp: seq<byte> := [1, 2, 3, 4]
  const DstIp: seq<byte> := [4, 3, 2, 1]
  const SrcPort: u16 := 10000
  const DstPort: u16 := 5000
  const UdpLength: u16 := 180
  const SampleText: string := "This is a sample data generated by a DPDK application ..."

  /** The bytes of `sample_data`: the ASCII text and its terminating NUL
      (`sizeof(sample_data)` counts the NUL). */
  function SampleData(): (r: seq<byte>)
    ensures |r| == |SampleText| + 1 && r[|SampleText|] == 0
    ensures forall i :: 0 <= i < |SampleText| ==> r[i] == (SampleText[i] as int) % 0x100
  {
    AsciiBytes(SampleText) + [0]
  }

  /** A `char` array as bytes: each character keeps its low eight bits. */
  function AsciiBytes(s: string): (r: seq<byte>)
    ensures |r| == |s| && forall i :: 0 <= i < |s| ==> r[i] == (s[i] as int) % 0x100
  {
    seq(|s|, i requires 0 <= i < |s| => (s[i] as int) % 0x100)
  }

  // ---------------------------------------------------------------------------
  // The bytes each setter leaves in its region, as they go on the wire

  /** Destination address, source address, ethertype in network order. */
  const EthHeader: seq<byte> := DstMac + SrcMac + BeBytes16(EtherTypeIpv4)

  /** The first ten bytes of the IPv4 header as `set_ipv4_hdr` stores them:
      version 4 and ihl 5, type of service 0, total length 200 in network
      order, identification 0, the fragment field 0x0040 in host order, time
      to live 64 and protocol 17. */
  const Ipv4FixedFields: seq<byte> := [0x45, 0, 0, 0xC8, 0, 0, 0x40, 0, 64, 17]

  /** The IPv4 header with its checksum field still zero. */
  const Ipv4HeaderZeroed: seq<byte> := Ipv4FixedFields + [0, 0] + SrcIp + DstIp

  /** The IPv4 header with the RFC 1071 checksum in word 5. */
  const Ipv4Header: seq<byte> := PutWord(Ipv4HeaderZeroed, 5, InternetChecksum(Ipv4HeaderZeroed))

  const UdpHeader: seq<byte> :=
    BeBytes16(SrcPort) + BeBytes16(DstPort) + BeBytes16(UdpLength) + [0, 0]

  /** 172 bytes: the sample data, then zeros. */
  const Payload: seq<byte> := SampleData() + seq(PayloadLen - |SampleData()|, _ => 0)

  /** The complete frame the loop hands to the device. */
  const FrameImage: seq<byte> := EthHeader + Ipv4Header + UdpHeader + Payload

  // ---------------------------------------------------------------------------
  // The setters. Each writes its header at `at`, the address its caller
  // passes, and touches no byte outside [at, at + header size).

  /** `set_eth_hdr`: ethertype, then source address, then destination address. */
  method SetEthHdr(data: array<byte>, at: nat)
    requires at + EtherHdrLen <= data.Length
    modifies data
    ensures data[..] == Splice(old(data[..]), at, EthHeader)
  {
    ghost var s0 := data[..];
    CpuToBe16Stores(EtherTypeIpv4);
    Store16(data, at + 12, CpuToBe16(EtherTypeIpv4));
    Memcpy(data, at + 6, SrcMac);
    SpliceJoinBack(s0, at + 6, SrcMac, BeBytes16(EtherTypeIpv4));
    Memcpy(data, at, DstMac);
    SpliceJoinBack(s0, at, DstMac, SrcMac + BeBytes16(EtherTypeIpv4));
    assert DstMac + (SrcMac + BeBytes16(EtherTypeIpv4)) == EthHeader;
  }

  /** The zeroed header is the fixed fields, the zero checksum field and the addresses. */
  lemma Ipv4HeaderZeroedBytes()
    ensures Ipv4HeaderZeroed == Ipv4FixedFields + ([0, 0] + (SrcIp + DstIp))
  {
  }

  /** The field stores of `set_ipv4_hdr` before the addresses: version, ihl,
      type of service, total length, identification, fragment field, time to
      live and protocol. */
  method SetIpv4FixedFields(data: array<byte>, at: nat)
    requires at + Ipv4HdrLen <= data.Length
    modifies data
    ensures data[..] == Splice(old(data[..]), at, Ipv4FixedFields)
  {
    ghost var s0 := data[..];
    // version and ihl share the first byte; on a little-endian host the
    // bit-field ihl is its low nibble and version its high nibble.
    var versionSet := 4 * 0x10 + data[at] % 0x10;
    Store8(data, at, versionSet);
    SpliceAt(s0, at, [versionSet], at);
    Store8(data, at, (data[at] / 0x10) * 0x10 + 5);
    ghost var s1 := data[..];
    Store8(data, at + 1, 0);                                        // type_of_service
    ghost var s2 := data[..];
    Store16(data, at + 2, CpuToBe16(Ipv4TotalLength));
    ghost var s3 := data[..];
    Store16(data, at + 4, 0);                                       // packet_id
    ghost var s4 := data[..];
    Store16(data, at + 6, FragmentOffsetHost);
    ghost var s5 := data[..];
    Store8(data, at + 8, TimeToLive);
    ghost var s6 := data[..];
    Store8(data, at + 9, ProtoUdp);
    FixedFieldsWritten(s0, versionSet, s1, s2, s3, s4, s5, s6, data[..], at);
  }

  /** The bytes the three 16-bit stores of `SetIpv4FixedFields` leave in memory. */
  lemma Ipv4StoredWords()
    ensures LeBytes16(CpuToBe16(Ipv4TotalLength)) == [0, 0xC8]
    ensures LeBytes16(0) == [0, 0]
    ensures LeBytes16(FragmentOffsetHost) == [0x40, 0]
  {
    CpuToBe16Stores(Ipv4TotalLength);
  }

  /** The stores of `SetIpv4FixedFields`, one per field, together write `Ipv4FixedFields`. */
  lemma FixedFieldsWritten(s0: seq<byte>, v: byte, s1: seq<byte>, s2: seq<byte>, s3: seq<byte>,
                           s4: seq<byte>, s5: seq<byte>, s6: seq<byte>, s7: seq<byte>, at: nat)
    requires at + Ipv4HdrLen <= |s0|
    requires v / 0x10 == 4
    requires s1 == Splice(Splice(s0, at, [v]), at, [(v / 0x10) * 0x10 + 5])
    requires s2 == Splice(s1, at + 1, [0])
    requires s3 == Splice(s2, at + 2, LeBytes16(CpuToBe16(Ipv4TotalLength)))
    requires s4 == Splice(s3, at + 4, LeBytes16(0))
    requires s5 == Splice(s4, at + 6, LeBytes16(FragmentOffsetHost))
    requires s6 == Splice(s5, at + 8, [TimeToLive])
    requires s7 == Splice(s6, at + 9, [ProtoUdp])
    ensures s7 == Splice(s0, at, Ipv4FixedFields)
  {
    SpliceInside(s0, at, [v], 0, [0x45]);
    assert Splice([v], 0, [0x45]) == [0x45];
    assert s1 == Splice(s0, at, [0x45]);
    SpliceJoin(s0, at, [0x45], [0]);
    assert s2 == Splice(s0, at, [0x45, 0]);
    Ipv4StoredWords();
    SpliceJoin(s0, at, [0x45, 0], [0, 0xC8]);
    assert s3 == Splice(s0, at, [0x45, 0, 0, 0xC8]);
    SpliceJoin(s0, at, [0x45, 0, 0, 0xC8], [0, 0]);
    assert s4 == Splice(s0, at, [0x45, 0, 0, 0xC8, 0, 0]);
    SpliceJoin(s0, at, [0x45, 0, 0, 0xC8, 0, 0], [0x40, 0]);
    assert s5 == Splice(s0, at, [0x45, 0, 0, 0xC8, 0, 0, 0x40, 0]);
    SpliceJoin(s0, at, [0x45, 0, 0, 0xC8, 0, 0, 0x40, 0], [64]);
    assert s6 == Splice(s0, at, [0x45, 0, 0, 0xC8, 0, 0, 0x40, 0, 64]);
    SpliceJoin(s0, at, [0x45, 0, 0, 0xC8, 0, 0, 0x40, 0, 64], [17]);
    assert s7 == Splice(s0, at, [0x45, 0, 0, 0xC8, 0, 0, 0x40, 0, 64, 17]);
  }

  /** The address copies and the zeroed checksum field, after the fixed
      fields, leave the header with its checksum field zeroed. */
  lemma ZeroedHeaderWritten(s0: seq<byte>, s1: seq<byte>, s2: seq<byte>, s3: seq<byte>,
                            s4: seq<byte>, at: nat)
    requires at + Ipv4HdrLen <= |s0|
    requires s1 == Splice(s0, at, Ipv4FixedFields)
    requires s2 == Splice(s1, at + 12, SrcIp)
    requires s3 == Splice(s2, at + 16, DstIp)
    requires s4 == Splice(s3, at + 10, LeBytes16(0))
    ensures s4 == Splice(s0, at, Ipv4HeaderZeroed)
    ensures s4[at..at + Ipv4HdrLen] == Ipv4HeaderZeroed
  {
    SpliceJoin(s1, at + 12, SrcIp, DstIp);
    SpliceJoinBack(s1, at + 10, [0, 0], SrcIp + DstIp);
    SpliceJoin(s0, at, Ipv4FixedFields, [0, 0] + (SrcIp + DstIp));
    Ipv4HeaderZeroedBytes();
    SpliceRange(s0, at, Ipv4HeaderZeroed);
  }

  /** Storing the host-order checksum of the zeroed header in its checksum
      field completes the header. */
  lemma ChecksumWritten(s0: seq<byte>, s4: seq<byte>, s5: seq<byte>, at: nat, c: u16)
    requires at + Ipv4HdrLen <= |s0|
    requires s4 == Splice(s0, at, Ipv4HeaderZeroed)
    requires c == HostChecksum(Ipv4HeaderZeroed)
    requires s5 == Splice(s4, at + 10, LeBytes16(c))
    ensures s5 == Splice(s0, at, Ipv4Header)
  {
    HostChecksumWire(Ipv4HeaderZeroed);
    SpliceInside(s0, at, Ipv4HeaderZeroed, 10, LeBytes16(c));
  }

  /** `set_ipv4_hdr`: every field, then the checksum field zeroed, then the
      checksum computed over the 20-byte header stored last. */
  method SetIpv4Hdr(data: array<byte>, at: nat)
    requires at + Ipv4HdrLen <= data.Length
    modifies data
    ensures data[..] == Splice(old(data[..]), at, Ipv4Header)
  {
    ghost var s0 := data[..];
    SetIpv4FixedFields(data, at);
    ghost var s1 := data[..];
    Memcpy(data, at + 12, SrcIp);
    ghost var s2 := data[..];
    Memcpy(data, at + 16, DstIp);
    ghost var s3 := data[..];
    Store16(data, at + 10, 0);                     // hdr_checksum = 0
    ZeroedHeaderWritten(s0, s1, s2, s3, data[..], at);
    assert data[at..at + Ipv4HdrLen] == data[..][at..at + Ipv4HdrLen];
    var cksum := HostChecksum(data[at..at + Ipv4HdrLen]);
    ghost var s4 := data[..];
    Store16(data, at + 10, cksum);
    ChecksumWritten(s0, s4, data[..], at, cksum);
  }

  /** `set_udp_hdr`: destination port, source port, length, zero checksum. */
  method SetUdpHdr(data: array<byte>, at: nat)
    requires at + UdpHdrLen <= data.Length
    modifies data
    ensures data[..] == Splice(old(data[..]), at, UdpHeader)
  {
    ghost var s0 := data[..];
    CpuToBe16Stores(DstPort);
    CpuToBe16Stores(SrcPort);
    CpuToBe16Stores(UdpLength);
    Store16(data, at + 2, CpuToBe16(DstPort));
    Store16(data, at, CpuToBe16(SrcPort));
    SpliceJoinBack(s0, at, BeBytes16(SrcPort), BeBytes16(DstPort));
    Store16(data, at + 4, CpuToBe16(UdpLength));
    SpliceJoin(s0, at, BeBytes16(SrcPort) + BeBytes16(DstPort), BeBytes16(UdpLength));
    Store16(data, at + 6, 0);                      // dgram_cksum
    SpliceJoin(s0, at, BeBytes16(SrcPort) + BeBytes16(DstPort) + BeBytes16(UdpLength), [0, 0]);
  }

  /** A packet buffer (`rte_mbuf`): its data region and its two length fields. */
  class Mbuf {
    const data: array<byte>
    var dataLen: nat
    var pktLen: nat

    constructor (capacity: nat)
      ensures fresh(data) && data.Length == capacity
      ensures dataLen == 0 && pktLen == 0
    {
      data := new byte[capacity];
      dataLen, pktLen := 0, 0;
    }
  }

  /** `insert_data_udp`: zero the 172-byte payload region, copy the sample
      data (NUL included) to its start, and set both length fields of the
      buffer to the frame size. */
  method InsertDataUdp(packet: Mbuf, at: nat)
    requires at + PayloadLen <= packet.data.Length
    modifies packet, packet.data
    ensures packet.data[..] == Splice(old(packet.data[..]), at, Payload)
    ensures packet.dataLen == packet.pktLen == FrameLen
  {
    ghost var s0 := packet.data[..];
    Memset(packet.data, at, 0, PayloadLen);
    Memcpy(packet.data, at, SampleData());
    SpliceInside(s0, at, seq(PayloadLen, _ => 0), 0, SampleData());
    assert Splice(seq(PayloadLen, _ => 0), 0, SampleData()) == Payload;
    packet.pktLen := EtherHdrLen + Ipv4HdrLen + UdpHdrLen + PayloadLen;
    packet.dataLen := packet.pktLen;
  }

  /** The body of the transmit loop before `send_packet`: the four setters
      at the offsets of their regions in the frame. The first `FrameLen`
      bytes of the buffer become the frame and nothing beyond them changes. */
  method BuildFrame(packet: Mbuf)
    requires FrameLen <= packet.data.Length
    modifies packet, packet.data
    ensures packet.data[..] == Splice(old(packet.data[..]), 0, FrameImage)
    ensures packet.dataLen == packet.pktLen == FrameLen
    ensures packet.data[..packet.dataLen] == FrameImage
  {
    ghost var s0 := packet.data[..];
    SetEthHdr(packet.data, 0);
    SetIpv4Hdr(packet.data, Ipv4Offset);
    SpliceJoin(s0, 0, EthHeader, Ipv4Header);
    SetUdpHdr(packet.data, UdpOffset);
    SpliceJoin(s0, 0, EthHeader + Ipv4Header, UdpHeader);
    InsertDataUdp(packet, PayloadOffset);
    SpliceJoin(s0, 0, EthHeader + Ipv4Header + UdpHeader, Payload);
    SpliceRange(s0, 0, FrameImage);
    assert packet.data[..packet.dataLen] == packet.data[..][0..FrameLen];
  }

  // ---------------------------------------------------------------------------
  // What the frame carries on the wire

  /** Version and header length share byte 0 of the IPv4 header, version in the high nibble. */
  function Ipv4Version(h: seq<byte>): nat requires |h| >= 1 { h[0] / 0x10 }
  function Ipv4Ihl(h: seq<byte>): nat requires |h| >= 1 { h[0] % 0x10 }
  /** The 16-bit network-order field at byte offset `i`. */
  function Field16(h: seq<byte>, i: nat): u16 requires i + 2 <= |h| { Be16(h[i], h[i + 1]) }

  /** The Ethernet header: destination, source, ethertype IPv4 in network order. */
  lemma EthHeaderLayout()
    ensures |EthHeader| == EtherHdrLen
    ensures EthHeader[0..6] == [0xDE, 0xAD, 0xBE, 0xEF, 0xAB, 0x12]
    ensures EthHeader[6..12] == [0x12, 0x45, 0xAB, 0xCD, 0x78, 0x21]
    ensures EthHeader[12..14] == [0x08, 0x00] && Field16(EthHeader, 12) == EtherTypeIpv4
  {
  }

  /** The IPv4 header fields as a receiver reads them. */
  lemma Ipv4HeaderLayout()
    ensures |Ipv4Header| == Ipv4HdrLen
    ensures Ipv4Version(Ipv4Header) == 4 && Ipv4Ihl(Ipv4Header) * 4 == Ipv4HdrLen
    ensures Ipv4Header[1] == 0                                  // type of service
    ensures Field16(Ipv4Header, 2) == 200                       // total length
    ensures Field16(Ipv4Header, 4) == 0                         // identification
    ensures Ipv4Header[8] == 64 && Ipv4Header[9] == 17          // time to live, UDP
    ensures Ipv4Header[12..16] == [1, 2, 3, 4] && Ipv4Header[16..20] == [4, 3, 2, 1]
  {
  }

  /** The fragment field stored in host order as 0x0040 reads on the wire as
      0x4000: the don't-fragment flag set, more-fragments clear, offset 0. */
  lemma FragmentField()
    ensures Ipv4Header[6..8] == [0x40, 0x00]
    ensures var w := Field16(Ipv4Header, 6);
      (w / 0x4000) % 2 == 1 && (w / 0x2000) % 2 == 0 && w % 0x2000 == 0
  {
  }

  /** The stored checksum is the RFC 1071 checksum of the header with the
      checksum field zeroed, and the completed header verifies: its checksum,
      field included, is 0. */
  lemma Ipv4HeaderChecksum()
    ensures Ipv4Header[..10] == Ipv4HeaderZeroed[..10] && Ipv4Header[12..] == Ipv4HeaderZeroed[12..]
    ensures Ipv4HeaderZeroed[10..12] == [0, 0]
    ensures Field16(Ipv4Header, 10) == InternetChecksum(Ipv4HeaderZeroed)
    ensures InternetChecksum(Ipv4Header) == 0
  {
    BeBytes16RoundTrip(InternetChecksum(Ipv4HeaderZeroed));
    CompletedHeaderVerifies(Ipv4HeaderZeroed, 5);
  }

  /** The header words the checksum runs over, checksum field zeroed. */
  const Ipv4Words: seq<u16> := [0x4500, 0x00C8, 0, 0x4000, 0x4011, 0, 0x0102, 0x0304, 0x0403, 0x0201]

  /** Read in network order, the zeroed header is these ten words. */
  lemma Ipv4ZeroedWords()
    ensures BeWords(Ipv4HeaderZeroed) == Ipv4Words
  {
    Ipv4HeaderZeroedBytes();
  }

  /** The words add up to 0xCFE3, which needs no end-around carry. */
  lemma Ipv4WordsTotal()
    ensures Total(Ipv4Words) == 0xCFE3
  {
    var ws := Ipv4Words;
    TotalPrefix(ws, 0);
    TotalPrefix(ws, 1);
    TotalPrefix(ws, 2);
    TotalPrefix(ws, 3);
    TotalPrefix(ws, 4);
    TotalPrefix(ws, 5);
    TotalPrefix(ws, 6);
    TotalPrefix(ws, 7);
    TotalPrefix(ws, 8);
    TotalPrefix(ws, 9);
    assert ws[..10] == ws;
  }

  /** For these fields the checksum is 0x301C. */
  lemma Ipv4ChecksumValue()
    ensures InternetChecksum(Ipv4HeaderZeroed) == 0x301C
    ensures Ipv4Header[10..12] == [0x30, 0x1C]
  {
    Ipv4ZeroedWords();
    Ipv4WordsTotal();
    OnesSumIsFold(Ipv4Words);
  }

  /** The UDP header: ports 10000 and 5000, length 180, checksum 0 (no checksum, RFC 768). */
  lemma UdpHeaderLayout()
    ensures |UdpHeader| == UdpHdrLen
    ensures Field16(UdpHeader, 0) == 10000 && Field16(UdpHeader, 2) == 5000
    ensures Field16(UdpHeader, 4) == 180
    ensures UdpHeader[6..8] == [0, 0]
  {
  }

  /** The payload: the 58 bytes of the sample data, NUL included, then zeros
      up to 172 bytes. */
  lemma PayloadLayout()
    ensures |Payload| == PayloadLen && |SampleData()| == 58
    ensures Payload[..58] == SampleData()
    ensures forall i :: 58 <= i < PayloadLen ==> Payload[i] == 0
  {
  }

  /** Four strings laid end to end each sit at the offset of the ones before it. */
  lemma Concat4Slices(a: seq<byte>, b: seq<byte>, c: seq<byte>, d: seq<byte>)
    ensures var s := a + b + c + d;
      && s[..|a|] == a && s[|a|..|a| + |b|] == b
      && s[|a| + |b|..|a| + |b| + |c|] == c && s[|a| + |b| + |c|..] == d
  {
    var s := a + b + c + d;
    assert s == a + (b + (c + d));
    assert s[|a|..] == b + (c + d);
    assert s[|a| + |b|..] == c + d;
  }

  /** The four regions tile the 214-byte frame, and the lengths the headers
      declare agree with it: 14 plus the IPv4 total length, and 14 + 20 plus
      the UDP length, are the frame length. */
  lemma FrameLayout()
    ensures |FrameImage| == FrameLen == 214
    ensures FrameImage[..Ipv4Offset] == EthHeader
    ensures FrameImage[Ipv4Offset..UdpOffset] == Ipv4Header
    ensures FrameImage[UdpOffset..PayloadOffset] == UdpHeader
    ensures FrameImage[PayloadOffset..] == Payload
    ensures Field16(Ipv4Header, 2) == Ipv4HdrLen + UdpHdrLen + PayloadLen
    ensures Field16(UdpHeader, 4) == UdpHdrLen + PayloadLen
    ensures EtherHdrLen + Field16(Ipv4Header, 2) == FrameLen
    ensures EtherHdrLen + Ipv4HdrLen + Field16(UdpHeader, 4) == FrameLen
  {
    EthHeaderLayout();
    Ipv4HeaderLayout();
    UdpHeaderLayout();
    PayloadLayout();
    Concat4Slices(EthHeader, Ipv4Header, UdpHeader, Payload);
  }
}
