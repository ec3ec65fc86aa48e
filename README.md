# A DPDK transmitter that sends one UDP frame per iteration

This project models the transmit side of a small DPDK application. A single
lcore repeats the following until its exit indicator is set:

1. take a packet buffer (`rte_mbuf`) from a mempool;
2. stamp a 214-byte Ethernet/IPv4/UDP frame into the buffer's data region:
   - a 14-byte Ethernet header;
   - a 20-byte IPv4 header, whose RFC 1071 checksum is stored last;
   - an 8-byte UDP header with a zero checksum, meaning "no checksum" under RFC 768;
   - a 172-byte payload carrying a fixed sample text;
3. offer the frame to transmit queue 0 of the first port;
4. count the frames the device accepts in a `uint64_t`. A frame the device
   refuses is freed back to the pool.

The model has five modules:

- `Bytes`: octets, 16-bit words and the byte order of the host. The host
  is fixed to be little-endian, so `rte_cpu_to_be_16` swaps the two bytes
  and a `uint16_t` store puts the low byte first.
- `Memory`: the data region as a byte array and the four ways the
  setters write it (`uint8_t` store, `uint16_t` store, `memcpy`, `memset`).
  Each is a method whose new array contents are `Splice(old contents,
  offset, bytes)`, so every write is proved to touch only its own range.
- `Checksum`: the Internet checksum of RFC 1071, section 3.1 of RFC 791.
  - The one's-complement sum is a recursive function, proved equal to the
    plain sum folded modulo 0xFFFF.
  - It is proved independent of byte order (RFC 1071 section 2(B)).
  - A header completed with its own checksum re-sums to a checksum of 0.
- `Frame`: `set_eth_hdr`, `set_ipv4_hdr`, `set_udp_hdr` and
  `insert_data_udp` as imperative methods on the buffer's byte array, and
  `BuildFrame`, which runs them at offsets 0, 14, 34 and 42. The bytes
  each setter leaves are constants (`EthHeader`, `Ipv4Header`,
  `UdpHeader`, `Payload`, together `FrameImage`), and lemmas state what a
  receiver reads from them.
- `Transmit`: a `Transmitter` class.
  - Fields: the mempool (`pool`, the free buffers) and
    `transmittedPacketCount`.
  - Ghost fields: who holds each other buffer (`app`, the application
    between acquisition and hand-off, or `device`, once it has accepted the
    buffer) and `wire`, the frames accepted so far.
  - Methods: `rte_mempool_get`, `rte_pktmbuf_free`, `rte_eth_tx_burst`,
    `send_packet` and the loop of `main`.
  - `PoolCreate` makes the mempool (`rte_pktmbuf_pool_create`) and `App`
    runs the loop on the 1023-buffer pool of `main`.
  - `Valid()` says every buffer is in exactly one of pool, application and
    device, and the counter is the number of accepted frames modulo 2^64.

Which free buffer `Acquire` returns, and whether the device accepts a
frame, are the environment's choice. The pool runs out only once every
buffer is the device's:

- `Acquire` picks any free buffer and fails exactly when none is free;
- `TxBurst` returns 0 or 1 without further constraint;
- the exit indicator is the number `signalAt` of loop-head tests that find
  it clear, so it is read only at the loop head.

The source file does not compile as it stands. The model follows its evident
intent:

- `send_packet` indexes `port_ids`, which is a scalar there (lines 70-71). The
  model sends on the first port.
- `transmitted_packet_count` is a local of `main` (line 177) but is updated
  in `send_packet` (line 76). It is a field of the transmitter.
- `insert_data_udp` sets the lengths of a `packet` it cannot see (line 95).
  It takes the buffer.
- The queue set-up uses an undeclared `i` (lines 166-167). This is outside
  the model.

The counter is a `uint64_t` in the code, so the model adds modulo 2^64.
An unbounded count would only increase; the two agree below 2^64 frames.

## Model

| member | source | states |
|---|---|---|
| Bytes.CpuToBe16Stores | 2-sending-a-packet-from-nic/main.cpp:39 | storing `rte_cpu_to_be_16(v)` as a `uint16_t` on the little-endian host puts the network-order bytes of `v` in memory |
| Memory.Store8 | 2-sending-a-packet-from-nic/main.cpp:53 | a `uint8_t` field store changes that one byte of the region and no other |
| Memory.Store16 | 2-sending-a-packet-from-nic/main.cpp:55 | a `uint16_t` field store writes the value low byte first at the field and changes no other byte |
| Memory.Memcpy | 2-sending-a-packet-from-nic/main.cpp:42 | `memcpy` writes the source bytes from the destination offset and changes nothing else |
| Memory.Memset | 2-sending-a-packet-from-nic/main.cpp:89 | `memset` writes `n` copies of the value from the offset and changes nothing else |
| Frame.SetEthHdr | 2-sending-a-packet-from-nic/main.cpp:38-47 | after `set_eth_hdr` at offset `at` the 14 bytes there are the Ethernet header image and every other byte of the region is unchanged |
| Frame.EthHeaderLayout | 2-sending-a-packet-from-nic/main.cpp:39-45 | the Ethernet header is 14 bytes: destination DE:AD:BE:EF:AB:12, source 12:45:AB:CD:78:21, ethertype bytes 0x08,0x00, read as 0x0800 (IPv4) |
| Frame.SetIpv4FixedFields | 2-sending-a-packet-from-nic/main.cpp:51-58 | the stores from version through protocol write exactly the ten bytes 45 00 00 C8 00 00 40 00 40 11 (the two bit-fields share byte 0) and nothing else |
| Frame.SetIpv4Hdr | 2-sending-a-packet-from-nic/main.cpp:49-68 | after `set_ipv4_hdr` at `at` the 20 bytes there are the IPv4 header image, its checksum computed over the header with the checksum field zeroed and stored last; nothing outside the 20 bytes changes |
| Frame.Ipv4HeaderLayout | 2-sending-a-packet-from-nic/main.cpp:51-64 | the IPv4 header is 20 bytes: version 4, IHL 5 (5 × 4 = 20 bytes), TOS 0, total length 200, identification 0, TTL 64, protocol 17, source 1.2.3.4, destination 4.3.2.1 |
| Frame.FragmentField | 2-sending-a-packet-from-nic/main.cpp:56 | the host-order store of 0x0040 puts 0x40,0x00 on the wire: don't-fragment set, more-fragments clear, offset 0 |
| Frame.Ipv4HeaderChecksum | 2-sending-a-packet-from-nic/main.cpp:66-67 | the header differs from the zeroed header only in the checksum field, which holds the RFC 1071 checksum of the zeroed header; the completed header's own checksum is 0 |
| Frame.Ipv4ChecksumValue | 2-sending-a-packet-from-nic/main.cpp:66-67 | for these fields the checksum is 0x301C and the wire bytes of the checksum field are 0x30,0x1C |
| Checksum.OnesSumIsFold | 2-sending-a-packet-from-nic/main.cpp:67 | adding words with end-around carry gives the plain sum folded into [1, 0xFFFF], or 0 for the sum 0 |
| Checksum.SwapOnesSum | 2-sending-a-packet-from-nic/main.cpp:67 | byte-swapping every word byte-swaps the one's-complement sum (RFC 1071 section 2(B)) |
| Checksum.HostChecksum | 2-sending-a-packet-from-nic/main.cpp:67 | `rte_ipv4_cksum` on the little-endian host: 0xFFFF minus the one's-complement sum of the header's 16-bit words as the host loads them; with its two bytes swapped it is the network-order RFC 1071 checksum of the header |
| Checksum.HostChecksumWire | 2-sending-a-packet-from-nic/main.cpp:67 | the checksum computed over host-order words and stored in host order puts the same bytes in memory as the network-order RFC 1071 checksum stored big-endian |
| Checksum.CompletedHeaderVerifies | 2-sending-a-packet-from-nic/main.cpp:66-67 | a header whose zeroed checksum word is replaced by its checksum has checksum 0, so a receiver's check passes |
| Frame.SetUdpHdr | 2-sending-a-packet-from-nic/main.cpp:81-86 | after `set_udp_hdr` at `at` the 8 bytes there are the UDP header image and nothing else changes |
| Frame.UdpHeaderLayout | 2-sending-a-packet-from-nic/main.cpp:81-86 | the UDP header is 8 bytes: source port 10000, destination port 5000, length 180, checksum bytes 0,0 |
| Frame.SampleData | 2-sending-a-packet-from-nic/main.cpp:90-91 | `sizeof(sample_data)` bytes: one per character of the text, then the terminating NUL |
| Frame.InsertDataUdp | 2-sending-a-packet-from-nic/main.cpp:88-96 | the 172 bytes at `at` become the payload image and nothing else changes, and then `data_len` = `pkt_len` = 214 |
| Frame.PayloadLayout | 2-sending-a-packet-from-nic/main.cpp:88-91 | the payload is 172 bytes: the 58 bytes of the sample text with its NUL, then zeros |
| Frame.FrameLayout | 2-sending-a-packet-from-nic/main.cpp:94-95 | the four images tile the 214-byte frame at offsets 0, 14, 34, 42, and 14 + IPv4 total length = 14 + 20 + UDP length = 214 |
| Frame.BuildFrame | 2-sending-a-packet-from-nic/main.cpp:190-205 | the four setters at their offsets make the first 214 bytes of the buffer the frame image, leave every byte beyond them unchanged, and set both lengths to 214 |
| Transmit.Transmitter.constructor | 2-sending-a-packet-from-nic/main.cpp:143 | a new mempool has every buffer free; the application and device hold none, the counter is 0 and the wire is empty |
| Transmit.PoolCreate | 2-sending-a-packet-from-nic/main.cpp:143 | `rte_pktmbuf_pool_create` makes exactly `n` new buffers, pairwise distinct and each with a new data region of its own of 2048 bytes, all of them free |
| Transmit.App | 2-sending-a-packet-from-nic/main.cpp:143-211 | with the 1023-buffer pool and the counter starting at 0 (line 177): at exit every buffer is free or the device's, the pool holds 1023 minus one buffer per accepted frame, the wire is one frame image per accepted frame, and the counter is their number modulo 2^64; every buffer the device holds still has both length fields (`data_len`, `pkt_len`) at 214 and the frame image in its first 214 bytes, untouched since the hand-off |
| Transmit.Transmitter.Acquire | 2-sending-a-packet-from-nic/main.cpp:182-188 | `rte_mempool_get` fails exactly when the pool is empty, and then changes nothing; otherwise it moves one free buffer from the pool to the application |
| Transmit.Transmitter.TxBurst | 2-sending-a-packet-from-nic/main.cpp:71 | the device accepts 0 or 1 buffers; an accepted buffer becomes the device's and its first `data_len` bytes go on the wire; a refused one stays with the application |
| Transmit.Transmitter.Free | 2-sending-a-packet-from-nic/main.cpp:74 | `rte_pktmbuf_free` returns a buffer the application holds, and not free, to the pool, which grows by one |
| Transmit.Transmitter.SendPacket | 2-sending-a-packet-from-nic/main.cpp:70-79 | when refused, the buffer returns to the pool exactly once and counter and wire are unchanged; when accepted, the counter rises by 1 modulo 2^64, the device holds the buffer and its frame is on the wire; either way the application no longer holds it |
| Transmit.Transmitter.BuildAndSend | 2-sending-a-packet-from-nic/main.cpp:190-208 | the buffer is fully built before the hand-off, so a sent frame is the frame image; only that buffer's data region is written; afterwards both its length fields are 214 and it holds the frame image, whether or not it was accepted; outcomes as for `SendPacket` |
| Transmit.Transmitter.Step | 2-sending-a-packet-from-nic/main.cpp:182-208 | one iteration: exhausted exactly when the pool was empty; the application holds no buffer afterwards; a sent buffer moves from pool to device holding the frame image, with both length fields 214, and that image goes on the wire; no buffer the device held is touched, neither its length fields nor its data |
| Transmit.Transmitter.Advance | 2-sending-a-packet-from-nic/main.cpp:180-211 | one iteration keeps the loop's account of what it has sent (pool, device, wire and counter against the state before the loop) |
| Transmit.Transmitter.Loop | 2-sending-a-packet-from-nic/main.cpp:180-211 | the loop runs one iteration per loop-head test that finds the exit indicator clear and keeps that account throughout; every buffer it has handed to the device still holds the frame image, and both its length fields are 214 |
| Transmit.Transmitter.Run | 2-sending-a-packet-from-nic/main.cpp:180-211 | at exit the application holds nothing; the pool has lost exactly one buffer per sent iteration, and those buffers are now the device's; the wire carries one frame image per sent iteration; the counter has risen by their number modulo 2^64; buffers the device held before are untouched, their length fields and their data alike; the buffers handed over during the run still hold the frame image, and both their length fields are 214 |
| Transmit.CountSentBound | 2-sending-a-packet-from-nic/main.cpp:180-211 | no more frames are sent than iterations run, and exactly as many only when no iteration was exhausted or refused |

## Left out

- Signal handling (lines 31-36, 100-105) is asynchronous. The exit indicator is the input `signalAt`, the number of loop-head reads before the handler has set it.
- EAL initialisation, port enumeration, port and queue configuration and start (lines 109-173, apart from line 143) are not modelled. They are DPDK runtime and driver calls.
- Transmit.PoolCreate: the pool name, the per-lcore cache size of 512, the private area size and the socket (line 143) are not modelled. They do not affect which buffers the loop can take. Creation failure (a NULL pool, unchecked by the code) is not modelled.
- The `sleep_for` pacing and backoff (lines 186, 210) are left out: timing has no meaning in the model.
- Console output (lines 73, 77, 184 and the messages of `main`) is output only and is left out.
- `rte_eth_tx_burst`, `rte_mempool_get` and `rte_pktmbuf_free` are modelled by their contracts only. Their internals are DPDK code that is not part of this model.
- The internals of `rte_ipv4_cksum` are not shown. `Checksum.HostChecksum` specifies it as the RFC 1071 checksum over the 20-byte header, read as host-order words.
- `rte_pktmbuf_mtod` headroom arithmetic is left out. The data region is a byte array whose offset 0 is the first byte of the frame: the 2048-byte data room after the 128-byte headroom of an `RTE_MBUF_DEFAULT_BUF_SIZE` buffer. The loop itself needs only that each region holds 214 bytes.
- The driver returning transmitted buffers to the pool after completion is not modelled. It happens inside the device layer, so buffers the device accepted stay the device's.
- Transmit.Transmitter.Acquire: which free buffer comes back is left open. The order of the mempool's per-lcore cache is not modelled.
- Transmit.Transmitter.BuildAndSend: buffers are required to have data regions of their own (`BuffersFit`), as distinct mbufs of one mempool do. The model does not cover aliasing between buffers.
