# PacketOps packet builders in Dafny

This project models the packet-composition core of PacketOps. It covers:

- the Internet checksum of `tools.py`;
- the IPv4 header builder `IPGenerator`;
- the TCP segment builder `TCPGenerator`, which owns an IP layer;
- the ICMP message builder `ICMPGenerator`, which owns an IP layer;
- the echo-request sender `Ping`.

Each builder is a Dafny class with the source's attributes as mutable fields. Its `Pack` method performs the source's steps in the same order and is proved equal to a pure function of the old fields: `IPPack`, `TCPPack`, `ICMPPack` or `PingPack`. That function returns the new fields and the result. The properties of the packet layout, the checksum, the counters and repeated packing are lemmas about these functions. The checksum is also modelled as a method with the two loops of `chksum`, proved equal to the function `Checksum`.

Modules, one per source file:

- `Bits` and `Bytes`: Python's `<<`, `>>` and `|` on unbounded non-negative ints; `int.from_bytes(…, 'big')`; the `struct` codes `B`, `H`, `I`/`L` in network order.
- `InternetChecksum`: `tools.py`.
- `Constants`: the enumerations of `constants.py`.
- `IP`, `TCP`, `ICMP`: `ip_generator.py`, `tcp_generator.py` and `icmp_generator.py`.

Conventions:

- A field is a Python int with no bound, modelled as a `nat`.
- A `struct.pack` that rejects a value is `Failure(FieldOutOfRange)`.
- The TCP options exception is `Failure(OptionsNotSupported)`.
- A failed `pack` keeps the field changes made before the failing step. For example, a `TCPGenerator.pack` refused for its options leaves `tcp_hdr_chksum` zeroed (`TCPPackRefusesOptions`).

Where the code departs from RFC 791, RFC 793 or RFC 1071, or from what its own comments suggest, the model follows the code:

- **Odd-length checksum input.** `chksum` peels bytes off the low end of the input's big-endian value. Its 16-bit words are therefore aligned from the end, and an odd-length input is padded with a zero byte in front, not behind (`ChecksumOddLeadingPad`). For even lengths the result equals the RFC 1071 checksum (`ChecksumMatchesRfc1071`).
- **IP header checksum.** `IPGenerator.pack` checksums the header with the old id, then emits it with the advanced id. The emitted header therefore checksums to 0xFFFE, not 0 (`EmittedChecksum`).
- **Over-wide sub-byte fields.** The comments give the IP header length, ECN and fragment offset 4, 2 and 13 bits, but `pack` only rejects what overflows a whole `struct` code. A header length of 16..255 is OR-ed into the version nibble, an ECN of 4..255 into the DSCP bits, and a fragment offset of 0x2000..0xFFFF into the flag bits; larger values make `struct.pack` fail (`SerializeBleeds`).
- **Ping sequence number.** `Ping.pack` adds 1 to the whole 32-bit option word, not only to its low half. A carry out of the sequence number enters the identifier, and the pack fails once the word exceeds 32 bits (`PingNthPacket`).

## Model

| member | source | states |
|---|---|---|
| `InternetChecksum.CarryAroundAdd` | tools.py:8-14 | the result is congruent to `a + b` modulo 0xFFFF, is zero only for `a + b == 0`, and stays within 16 bits for 16-bit operands |
| `InternetChecksum.Checksum` | tools.py:18-42 | the result of `chksum` is in 0..0xFFFF |
| `InternetChecksum.LowBytes` | tools.py:22-29 | definition: the bytes the `while` loop appends, least significant first; properties in `SplitBytes` and `LowBytesTotal` |
| `InternetChecksum.PadEven` | tools.py:31-33 | definition: one zero byte appended to an odd-length list; properties in `LowBytesTotal` and `ChecksumOddLeadingPad` |
| `InternetChecksum.SumPairs` | tools.py:35-39 | definition: the `for` loop's end-around-carry sum of little-endian byte pairs; properties in `FoldWords` and `SumPairsResidue` |
| `InternetChecksum.Complement16` | tools.py:41-42 | definition: `~s & 0xffff`; properties in `ChecksumOfValue` and `ChecksumSelfVerifies` |
| `InternetChecksum.OnesResidueMod` | tools.py:35-42 | the one's-complement representative the sum folds to is `n mod 0xFFFF`, with 0xFFFF standing for a non-zero multiple of 0xFFFF |
| `InternetChecksum.SplitBytes` | tools.py:20-29 | the `while` loop produces the bytes of the input's value, least significant first (`LowBytes`) |
| `InternetChecksum.Chksum` | tools.py:18-42 | the steps of `chksum` (split, pad, fold, complement) compute `Checksum(header)` |
| `InternetChecksum.FoldWords` | tools.py:35-39 | the `for` loop computes `SumPairs(0, words)`, and the running sum stays within 16 bits |
| `InternetChecksum.SumPairsResidue` | tools.py:35-39 | folding words with end-around carry gives the one's-complement residue of their plain sum |
| `InternetChecksum.LowBytesTotal` | tools.py:25-33 | the padded byte pairs of a value sum to that value modulo 0xFFFF, and to 0 only for the value 0 |
| `InternetChecksum.ChecksumOfValue` | tools.py:20-42 | closed form: the checksum is `0xFFFF - OnesResidue(Value(data))`, so it depends only on the big-endian value |
| `InternetChecksum.ChecksumAllZero` | tools.py:20-42 | an empty or all-zero input checksums to 0xFFFF |
| `InternetChecksum.ChecksumLeadingZero` | tools.py:20 | prepending a zero byte never changes the checksum |
| `InternetChecksum.ChecksumSelfVerifies` | tools.py:35-42 | writing the checksum into a zeroed 16-bit field followed by an even number of bytes makes the buffer checksum to 0 |
| `InternetChecksum.IncrementWordResidue` | tools.py:35-39 | raising a word by one modulo 0xFFFF raises the buffer's residue by one when an even number of bytes follows it |
| `InternetChecksum.ChecksumAfterIncrement` | tools.py:35-42 | a buffer checksummed, then given a word one larger modulo 0xFFFF, checksums to 0xFFFE |
| `InternetChecksum.ChecksumMatchesRfc1071` | tools.py:20-42 | for even-length input the result equals the RFC 1071 checksum of words taken from byte 0 |
| `InternetChecksum.ChecksumOddLeadingPad` | tools.py:25-38 | for odd-length input the result equals the RFC 1071 checksum of the input with a zero byte in front |
| `InternetChecksum.Rfc1071Example` | tools.py:18-42 | the example of section 3 of RFC 1071 (00 01 f2 03 f4 f5 f6 f7) checksums to 0x220D |
| `InternetChecksum.OddPaddingExample` | tools.py:32-38 | the one-byte input 01 checksums to 0xFFFE, where RFC 1071 gives 0xFEFF |
| `Bits.Shl` | ip_generator.py:107-109 | definition: `a << k` as `a * 2^k`; properties in `PackedBytes` and `SerializeBleeds` |
| `Bits.Shr` | ip_generator.py:109 | definition: `a >> k` as `k` halvings; properties in `PackedBytes` and `FlagsFragBleeds` |
| `Bits.Or` | ip_generator.py:107-109 | definition: Python's `\|` on non-negative ints, bit by bit; properties in `OrDisjoint`, `OrBelow` and `OrShift4` |
| `Bytes.Value` | tools.py:20 | definition: `int.from_bytes(data, 'big')`; properties in `ChecksumOfValue` and `ChecksumLeadingZero` |
| `Bytes.U16` | ip_generator.py:113-116 | the `struct` code `H` in network order: two bytes whose big-endian value is the argument |
| `Bytes.U32` | ip_generator.py:113-116 | the `struct` code `L`/`I` in network order: four bytes whose big-endian value is the argument |
| `Constants.IPProtocol.Value` | constants.py:15-27 | each protocol number fits the protocol byte |
| `Constants.ICMPType.Value` | constants.py:29-39 | each ICMP type number fits the type byte |
| `IP.Defaults` | ip_generator.py:66-78 | definition: the field values `__init__` sets; properties in `DefaultHeader` |
| `IP.VersionIhl` | ip_generator.py:107 | definition: `b0 = (version << 4) \| hdrLen`; properties in `PackedBytes` and `VersionIhlBleeds` |
| `IP.DscpEcn` | ip_generator.py:108 | definition: `b1 = (dscp << 2) \| ecn`; properties in `PackedBytes` and `DscpEcnBleeds` |
| `IP.FlagsFragHigh` | ip_generator.py:109 | definition: `b6 = (flag << 5) \| (fragOffset >> 8)`; properties in `PackedBytes` and `FlagsFragBleeds` |
| `IP.FragLow` | ip_generator.py:110 | definition: `b7 = fragOffset & 0xff`; properties in `PackedBytes` and `FlagsFragBleeds` |
| `IP.PackHeader` | ip_generator.py:113-116 | definition: `struct.pack('!BBHHBBBBHLL', …)`; properties in `PackHeaderLayout` |
| `IP.Serialize` | ip_generator.py:107-116 | definition: the byte combination then the pack; properties in `SerializeSucceeds`, `SerializeRoundTrip` and `SerializeBleeds` |
| `IP.Prepared` | ip_generator.py:101-104 | definition: the fields after the total length is set and the checksum zeroed; properties in `IPPackSucceeds` and `IPPackState` |
| `IP.IPPack` | ip_generator.py:99-130 | definition: `pack(n)` on the old fields, giving new fields and the result; properties in `IPPackState`, `IPPackOutput`, `EmittedChecksum` and `IPRepack` |
| `IP.PackHeaderLayout` | ip_generator.py:113-116 | `struct.pack('!BBHHBBBBHLL', …)` gives 20 bytes with each value at its RFC 791 offset |
| `IP.NextId` | ip_generator.py:121-124 | the advanced id is at least 1, is `id + 1` or 1, and stays within 16 bits |
| `IP.SerializeSucceeds` | ip_generator.py:107-116 | serialisation succeeds exactly when the fields satisfy `FieldsFit`, i.e. every OR-ed byte fits |
| `IP.PackedBytes` | ip_generator.py:107-110 | with in-width fields, bytes 0, 1 and 6 are the positional sums `version*16+hdrLen`, `dscp*4+ecn` and `flag*32+fragOffset/256` |
| `IP.SerializeRoundTrip` | ip_generator.py:107-116 | fields within their RFC 791 widths serialise, and reading the bit ranges back recovers every field |
| `IP.VersionIhlBleeds` | ip_generator.py:107 | byte 0 is unchanged if the header length's bits above 4 are OR-ed into the version and the header length is cut to 4 bits |
| `IP.DscpEcnBleeds` | ip_generator.py:108 | byte 1 is unchanged if the ECN's bits above 2 are OR-ed into the DSCP and the ECN is cut to 2 bits |
| `IP.FlagsFragBleeds` | ip_generator.py:109-110 | bytes 6 and 7 are unchanged if the fragment offset's bits above 13 are OR-ed into the flags and the offset is cut to 13 bits |
| `IP.Bled` | ip_generator.py:107-110 | definition: the fields as the header bytes actually carry them, each over-wide field cut to its width and its excess OR-ed into its neighbour; properties in `SerializeBleeds` |
| `IP.SerializeBleeds` | ip_generator.py:107-116 | for every field set `struct.pack` accepts, the header is that of `Bled(f)`, which is within the RFC 791 widths, and reading the header back gives exactly `Bled(f)` |
| `IP.OverwideFieldsBleed` | ip_generator.py:108-109 | two instances of `SerializeBleeds`: ECN 4 serialises like DSCP 1, and fragment offset 0x2000 like flags 3 |
| `IP.SerializeSplice` | ip_generator.py:113-130 | field sets differing only in id and checksum serialise to headers differing only in bytes 4-5 and 10-11 |
| `IP.SerializedWords` | ip_generator.py:113-116 | a serialised header is 20 bytes, with the id in bytes 4-5 and the checksum in bytes 10-11 |
| `IP.IPPackSucceeds` | ip_generator.py:99-137 | `pack(n)` succeeds exactly when the fields, with the new total length and a zero checksum, fit their codes |
| `IP.IPPackLength` | ip_generator.py:127-130 | a returned header is 20 bytes |
| `IP.IPPackState` | ip_generator.py:99-130 | `pack` changes only total length, checksum and id; the total length becomes `hdrLen*4 + n`; on success the id advances into 1..0xFFFF, on failure it is unchanged |
| `IP.IPPackOutput` | ip_generator.py:99-130 | the returned header: bytes 0-1 and 6-9 from the fields, total length in bytes 2-3, the advanced id in bytes 4-5, and in bytes 10-11 the checksum of the first serialisation (old id, zero checksum) |
| `IP.EmittedChecksum` | ip_generator.py:113-130 | the written checksum verifies the old-id header (checksum 0), but the emitted header checksums to 0xFFFE |
| `IP.DefaultHeader` | ip_generator.py:66-130 | a fresh generator given any source and destination addresses packs exactly when `20 + n` fits 16 bits and both addresses fit 32 bits, giving 0x45, 0, total length `20 + n`, id 2, 0x40, 0, TTL 255, the protocol number and the two addresses in bytes 12-19 |
| `IP.IPRepack` | ip_generator.py:99-130 | packing again without changes succeeds, and the header differs only in bytes 4-5 and 10-11 |
| `IP.IPGenerator.constructor` | ip_generator.py:57-78 | the fields take the defaults of `__init__` for the given protocol |
| `IP.IPGenerator.SetSrcIp` | ip_generator.py:82-83 | only the source address changes |
| `IP.IPGenerator.SetDstIp` | ip_generator.py:85-86 | only the destination address changes |
| `IP.IPGenerator.Pack` | ip_generator.py:99-130 | the new fields and the result are those of `IPPack` on the old fields |
| `TCP.TCPDefaults` | tcp_generator.py:56-80 | definition: the field values `__init__` sets, with the initial sequence number and payload given; properties in `FreshSegmentFields` and `DefaultSegment` |
| `TCP.OffsetNs` | tcp_generator.py:118 | definition: `(hdrLength << 4) \| ns`; properties in `OffsetNsBits` |
| `TCP.ShiftIn` | tcp_generator.py:121-127 | definition: `(b << 1) \| flag`; properties in `ShiftInBit` |
| `TCP.FlagsByte` | tcp_generator.py:120-127 | definition: the eight flags shifted in from CWR to FIN; properties in `FlagsByteBits` |
| `TCP.PackPseudo` | tcp_generator.py:130-132 | definition: `struct.pack('!IIBBH', …)`; properties in `PackPseudoLayout` |
| `TCP.PackSegmentHeader` | tcp_generator.py:135-138 | definition: `struct.pack('!HHIIBBHHH', …)`; properties in `PackSegmentHeaderLayout` |
| `TCP.SerializeSegment` | tcp_generator.py:135-138 | definition: the header pack of `pack` from the fields, used at tcp_generator.py:135-138 and again at 143-146; properties in `SegmentSplice` and `SerializeIgnoresReserved` |
| `TCP.Pseudo` | tcp_generator.py:130-132 | definition: the pseudo-header from the IP layer's addresses and protocol and `tcp_hdr_length * 4 + len(payload)`; properties in `TCPPackOutput` and `TCPSelfVerifies` |
| `TCP.BuildSegmentWith` | tcp_generator.py:129-146 | definition: the header steps with the checksum function as a parameter, which `BuildSegment` instantiates with `chksum`; properties in `SameSegment` |
| `TCP.BuildSegment` | tcp_generator.py:117-146 | definition: the header steps of `pack` after the options check; properties in `BuildSegmentOutput`, `SegmentSelfVerifies` and `SameSegment` |
| `TCP.TCPPack` | tcp_generator.py:108-151 | definition: `pack()` on the old TCP and IP fields, giving the new fields and the result; properties in `TCPPackOutput`, `TCPSelfVerifies` and `TCPRepack` |
| `TCP.PackPseudoLayout` | tcp_generator.py:130-132 | the pseudo-header is 12 bytes: source, destination, a zero byte, the protocol, the segment length |
| `TCP.PackSegmentHeaderLayout` | tcp_generator.py:135-138 | `struct.pack('!HHIIBBHHH', …)` gives 20 bytes with each value at its RFC 793 offset |
| `TCP.ShiftInBit` | tcp_generator.py:120-127 | `(b << 1) \| flag` appends a one-bit flag as the new lowest bit |
| `TCP.FlagsByteBits` | tcp_generator.py:120-127 | with one-bit flags, byte 13 holds CWR, ECE, URG, ACK, PSH, RST, SYN, FIN from most to least significant bit |
| `TCP.OffsetNsBits` | tcp_generator.py:118 | for a 4-bit NS, byte 12 is `hdrLength*16 + ns`, the data offset in the high nibble and NS in the low one; for a one-bit NS the reserved bits between are zero |
| `TCP.SegmentSplice` | tcp_generator.py:135-146 | field sets differing only in the checksum serialise to headers differing only in bytes 16-17 |
| `TCP.TCPPackRefusesOptions` | tcp_generator.py:111-114 | non-zero options fail with the checksum zeroed and the IP layer untouched |
| `TCP.BuildSegmentOutput` | tcp_generator.py:129-146 | the checksum is that of pseudo-header, zero-checksum header and payload; the header is the first one with that checksum in bytes 16-17 |
| `TCP.TCPPackOutput` | tcp_generator.py:108-151 | a successful pack returns the IP header for `20 + len(payload)`, the TCP header (ports, sequence, ack, bytes 12-13, window, checksum, urgent pointer), then the payload; it describes the pseudo-header; only the TCP checksum field changes |
| `TCP.ReservedIgnored` | tcp_generator.py:118-151 | `tcp_reserved` changes neither the returned bytes nor the IP layer's new fields |
| `TCP.SameSegment` | tcp_generator.py:118-146 | the header steps give the same header and payload whatever `tcp_reserved` is, for any checksum function |
| `TCP.SerializeIgnoresReserved` | tcp_generator.py:118-138 | the serialised header does not depend on `tcp_reserved` |
| `TCP.SegmentSelfVerifies` | tcp_generator.py:135-146 | for an even-length payload, pseudo-header plus emitted header plus payload checksums to 0 |
| `TCP.TCPSelfVerifies` | tcp_generator.py:129-151 | for an even-length payload, the pseudo-header followed by the emitted segment checksums to 0 |
| `TCP.TCPPackSucceeded` | tcp_generator.py:148-151 | when the header steps and the IP layer succeed, the result is IP header, TCP header, payload |
| `TCP.RepackSameSegment` | tcp_generator.py:108-151 | a successful pack had no options and successful sub-steps; it keeps the payload, the IP addresses and the protocol |
| `TCP.TCPRepack` | tcp_generator.py:108-151 | packing again without changes succeeds and leaves the TCP fields as they were; the sequence number is not advanced |
| `TCP.TCPRepackBytes` | tcp_generator.py:108-151 | two consecutive packs differ only in IP bytes 4-5 and 10-11 |
| `TCP.FreshSegmentFields` | tcp_generator.py:56-83 | unfolding of the defaults: a fresh generator has data offset 5, no flags, window 65535, no options, IP header length 5 and protocol 6 |
| `TCP.DefaultSegmentSucceeds` | tcp_generator.py:108-151 | a fresh generator, with whatever ports and addresses were set, packs exactly when both ports fit 16 bits, both addresses fit 32 bits and `40 + len(payload)` fits 16 bits |
| `TCP.DefaultSegment` | tcp_generator.py:56-151 | a fresh generator with 16-bit ports, 32-bit addresses and `40 + len(payload)` within 16 bits packs, and its packet has protocol 6, total length `40 + len(payload)`, its initial sequence number, byte 0x50, no flags and window 65535 |
| `TCP.TCPGenerator.constructor` | tcp_generator.py:47-83 | the defaults of `__init__` with the given initial sequence number; a fresh IP layer for protocol 6 |
| `TCP.TCPGenerator.SetSrcPort` | tcp_generator.py:87-88 | only the source port changes; the IP layer is untouched |
| `TCP.TCPGenerator.SetDstPort` | tcp_generator.py:90-91 | only the destination port changes; the IP layer is untouched |
| `TCP.TCPGenerator.Pack` | tcp_generator.py:108-151 | the new TCP fields, the new IP fields and the result are those of `TCPPack` |
| `TCP.TCPGenerator.BuildHeader` | tcp_generator.py:117-146 | the flag packing, pseudo-header, checksum and second header give the fields and header of `BuildSegment` |
| `ICMP.ICMPDefaults` | icmp_generator.py:66-71 | definition: the field values `__init__` sets for the type, payload and code; properties in `DefaultMessage` |
| `ICMP.SerializeMessage` | icmp_generator.py:89-90 | definition: the 8-byte header pack from the fields, used at icmp_generator.py:89-90 and again at 94-95 before the payload is appended; properties in `MessageSplice` and `PackICMPHeaderLayout` |
| `ICMP.PackICMPHeader` | icmp_generator.py:89-90 | definition: `struct.pack('!BBHI', …)`; properties in `PackICMPHeaderLayout` |
| `ICMP.ICMPPack` | icmp_generator.py:85-99 | definition: `pack()` on the old ICMP and IP fields, giving the new fields and the result; properties in `ICMPPackOutput`, `ICMPSelfVerifies` and `ICMPRepack` |
| `ICMP.PingPayload` | icmp_generator.py:118-120 | definition: the message with a space appended when its length is odd; properties in `PingPayloadEven` |
| `ICMP.PingDefaults` | icmp_generator.py:118-127 | definition: the ICMP fields `Ping.__init__` leaves; properties in `PingNthPacket` |
| `ICMP.PingPack` | icmp_generator.py:129-133 | definition: add one to the option word, then `ICMPPack`; properties in `PingPackFrame` and `PingPackOutput` |
| `ICMP.PingRun` | icmp_generator.py:129-133 | definition: `n` successive `Ping.pack` calls; properties in `PingRunCounter` and `PingNthPacket` |
| `ICMP.PackICMPHeaderLayout` | icmp_generator.py:89-90 | `struct.pack('!BBHI', …)` succeeds exactly when each value fits, giving 8 bytes: type, code, checksum, option word |
| `ICMP.MessageSplice` | icmp_generator.py:89-95 | the two header packs differ only in bytes 2-3 |
| `ICMP.ICMPPackFrame` | icmp_generator.py:85-95 | `pack` changes no ICMP field except the checksum; a rejected header leaves the IP layer untouched |
| `ICMP.ICMPPackSucceeds` | icmp_generator.py:85-99 | `pack` succeeds exactly when type, code and option fit and the IP layer accepts `8 + len(payload)` |
| `ICMP.ICMPPackSucceeded` | icmp_generator.py:94-99 | when the header pack and the IP layer succeed, the result is the IP header, then the header with the checksum spliced in, then the payload |
| `ICMP.ICMPPackNeeds` | icmp_generator.py:85-99 | a successful pack had a successful header pack and IP pack for `8 + len(payload)` |
| `ICMP.ICMPPackOutput` | icmp_generator.py:85-99 | the packet is `28 + len(payload)` bytes: IP header, type, code, checksum of the zero-checksum message, option word, payload; only the checksum changes, and the IP layer is packed for `8 + len(payload)` |
| `ICMP.ICMPPacketIPHeader` | icmp_generator.py:97-99 | the packet's IP header carries the IP layer's protocol and total length `hdrLen*4 + 8 + len(payload)` |
| `ICMP.ICMPSelfVerifies` | icmp_generator.py:87-95 | for an even-length payload the emitted message checksums to 0 |
| `ICMP.MessageSelfVerifies` | icmp_generator.py:87-95 | an 8-byte header with its checksum written in, plus an even-length payload, checksums to 0 |
| `ICMP.ICMPRepack` | icmp_generator.py:85-99 | packing again without changes succeeds, keeps the ICMP fields, and differs only in IP bytes 4-5 and 10-11 |
| `ICMP.DefaultMessage` | icmp_generator.py:54-99 | a fresh generator, with whatever code and addresses it was given, packs exactly when the code fits 8 bits, both addresses fit 32 bits and `28 + len(payload)` fits 16 bits; the packet then has protocol 1 and total length `28 + len(payload)` |
| `ICMP.PingPayloadEven` | icmp_generator.py:118-120 | the payload is the message, extended to even length by at most one space; an even message is unchanged |
| `ICMP.DefaultPingMessage` | icmp_generator.py:118 | definition: the default argument `b'ABCDEFGHIJKLMNOPQRSTUVWXYZ'`; properties in `DefaultPingPayload` |
| `ICMP.DefaultPingPayload` | icmp_generator.py:118-120 | the default message `A`..`Z` is 26 bytes and is sent unpadded |
| `ICMP.PingRunCounter` | icmp_generator.py:129-133 | after `n` packs the option word has grown by exactly `n`, and only it and the checksum have changed |
| `ICMP.PingNthPacket` | icmp_generator.py:118-133 | the n-th packet of a Ping is type 8, code 0, option word `(id << 16) + n`, whose halves are `id + n / 0x10000` and `n % 0x10000`; the message checksums to 0; the pack fails once the word exceeds 32 bits |
| `ICMP.PingPackFrame` | icmp_generator.py:129-133 | one `Ping.pack` changes the ICMP fields only by adding one to the option word and rewriting the checksum |
| `ICMP.PingPackOutput` | icmp_generator.py:129-133 | one `Ping.pack` adds one to the option word and emits it in bytes 4-7 of the message, which checksums to 0 |
| `ICMP.OptionHalves` | icmp_generator.py:127-131 | a word holding `(id << 16) + n` has upper half `id + n / 0x10000` and lower half `n % 0x10000` |
| `ICMP.ICMPGenerator.constructor` | icmp_generator.py:54-74 | the fields `__init__` sets for the type, payload and code; a fresh IP layer for protocol 1 |
| `ICMP.ICMPGenerator.Pack` | icmp_generator.py:85-99 | the new ICMP fields, the new IP fields and the result are those of `ICMPPack` |
| `ICMP.Ping.constructor` | icmp_generator.py:118-127 | an echo request, code 0, the padded message, option word `id << 16`; IP protocol 1 |
| `ICMP.Ping.Pack` | icmp_generator.py:129-133 | the new fields and the result are those of `PingPack`: add one to the option word, then `ICMPGenerator.pack` |

## Left out

- `raw_socket.py` is not part of this model. It only opens privileged raw sockets and sends and receives bytes.
- `print_key_val` in `tools.py` is not part of this model. It only formats console output.
- The `traceback.print_exc()`, `print` and `exit()` calls in the failure paths of `IPGenerator.pack` and `TCPGenerator.pack` are not modelled. A failure is a `Failure` result carrying the field values at that point, not process termination. The uncaught `struct.error` of `ICMPGenerator.pack` is modelled the same way.
- `IP.IPGenerator.SetSrcIp` and `IP.IPGenerator.SetDstIp` take the address as a 32-bit integer. The dotted-quad parsing that `ipaddress.IPv4Address` performs is library code.
- `TCP.TCPGenerator.constructor` takes the random initial sequence number as a parameter below 0xFFFFFFFF, the range of `int(random.random() * 0x1ffffffff % 0xffffffff)`. The random draw itself is left out.
- `ICMP.Ping.constructor` takes the random identifier as a parameter below 0xFFFF, the range of `random.randrange(0xffff)`. The random draw itself is left out.
- The `type(...)` checks of the constructors are carried by the Dafny types: `IPProtocol`, `ICMPType`, and `seq<Byte>` for `bytes`. Their exceptions are not modelled.
- Negative field values, which Python would accept until `struct.pack` rejects them, are not modelled: fields are `nat`.
- `TCP.TCPGenerator.BuildHeader` is the middle of `TCPGenerator.pack`, split out as a method of its own. `Pack` calls it between the options check and the IP pack.
- `TCP.OffsetNsBits` states the positional sum only for an NS below 16. A wider NS is OR-ed into the data offset nibble, as `Or` models it, and is covered only by the serialisation functions.
- `TCP.FlagsByteBits` states the bit layout only for one-bit flags. Wider flag values OR into their neighbours, as `Or` models them, and are covered only by the serialisation functions.
- The self-verification lemmas `TCP.TCPSelfVerifies`, `TCP.SegmentSelfVerifies`, `ICMP.ICMPSelfVerifies` and `ICMP.MessageSelfVerifies` require an even-length payload. For an odd length, the front-aligned padding of `chksum` puts the checksum field on an odd boundary of the words it sums, and the emitted checksum does not verify in general.
- `TCPGenerator` and `ICMPGenerator` inherit from `IPGenerator`, and `Ping` inherits from `ICMPGenerator`. The model uses composition instead: `TCP.TCPGenerator` and `ICMP.ICMPGenerator` own an `IP.IPGenerator` in the constant field `ip`, and `ICMP.Ping` owns an `ICMP.ICMPGenerator` in `icmp`. The `tcp_`, `icmp_` and `ip_` attributes never share a name, so one Python object splits into these parts without loss. `super().pack(...)` becomes a call on the owned object.
