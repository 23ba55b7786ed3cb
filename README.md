# Raw DNS query packet builder

This project models the packet serialiser of `c2.c`. The serialiser builds one raw IPv4 datagram that carries a DNS query for an `A` record. Its parts are:

- a 12-byte DNS header;
- the hostname, encoded as length-prefixed labels (the QNAME);
- QTYPE A and QCLASS IN;
- an 8-byte UDP header;
- a 20-byte IPv4 header.

Both checksums are the Internet checksum of RFC 1071. The IP checksum covers the 20 header bytes. The UDP checksum covers the pseudo-header, the UDP header and the payload.

The model has four modules:

- `Bytes`: unsigned integer types, and big-endian 16- and 32-bit fields with their readers. It also holds `PutU16`, `PutU32` and `CopyBytes`, the array stores that stand in for the C struct overlays and for `memcpy`.
- `Checksum`: the reference definition of the Internet checksum, and the `checksum` loop as a method proved against it. It also proves the verification law and the byte-order independence lemma.
- `DnsMessage`: the DNS half of `encodeFullPacket`, as imperative methods over a 512-byte array. Each method is proved to produce `QueryMessage(q)`. Beside the encoder there is a reader for the messages it writes (`DecodeQuery`), with round-trip lemmas in both directions.
- `PacketAssembler`: the IPv4, UDP and pseudo-header layouts, and `EncodeFullPacket` as a method over a 1024-byte array, proved to produce `PacketBytes`. There is also a receiver's view of a packet (`ParsePacket`), with lemmas showing that the packet passes both checksums and carries the query.

Multi-byte fields are written in network byte order. The source computes its checksum over host-order 16-bit words on a little-endian machine and stores the result in host order. `Checksum.HostOrderChecksum` proves that the host-order result is the byte swap of the big-endian one. So when every field in the checksummed bytes is in network order, the two checksum bytes that reach the packet are the same either way. That holds for the UDP checksum on a little-endian host. It does not hold in general for the IP checksum on a little-endian host, because `tot_len` is stored in host order (see `PacketAssembler.EncodeFullPacket` under "## Left out"). On a big-endian host the words are read in network order, but an odd last byte is still added unshifted, so the UDP checksum differs whenever the hostname has odd length (see "## Findings"). Source and destination addresses are given as 32-bit values, which is what `inet_pton` stores.

## Model

| member | source | states |
|---|---|---|
| Checksum.Checksum | c2.c:59-69 | For a buffer of at most 1024 bytes, the 32-bit accumulation, the two folds and the complement give the RFC 1071 checksum of the first `len` bytes. An odd last byte is padded with a zero. |
| Checksum.Complement | c2.c:66-68 | The two folds followed by `~sum` truncated to 16 bits give 0xFFFF minus the fully folded sum. |
| Checksum.NoOverflow | c2.c:60-65 | For inputs of at most 1024 bytes, the unbounded word sum stays below 2^32, so the `uint32_t` accumulator never wraps. |
| Checksum.WordsSumBound | c2.c:61-64 | After n words the accumulator holds at most n * 0xFFFF. |
| Checksum.TwoFoldsSuffice | c2.c:66-67 | For every 32-bit sum, the low 16 bits after the two folds equal the end-around-carry fold carried to completion. |
| Checksum.FoldCongruent | c2.c:66-67 | Folding keeps the value modulo 0xFFFF, and only 0 folds to 0. |
| Checksum.SumUpdate | c2.c:140 | Overwriting the word at an even offset changes the sum by the difference between the new word and the old one. |
| Checksum.ChecksumVerifies | c2.c:140 | If the checksum of a region is stored in a zeroed, even-aligned field of that region, the checksum of the region becomes 0 (the verification law of RFC 1071). |
| Checksum.ComplementFolds | c2.c:68 | Adding the complement of the folded sum to the sum gives a value that folds to 0xFFFF. |
| Checksum.HostOrderChecksum | c2.c:62 | The checksum computed over little-endian host-order words is the byte swap of the big-endian checksum. |
| Checksum.HostFoldIsSwap | c2.c:62-65 | The folded host-order sum is the byte swap of the folded big-endian sum. |
| Checksum.HostWordsSumBound | c2.c:61-64 | On a little-endian host, after n words the accumulator holds at most n * 0xFFFF. |
| Checksum.HostNoOverflow | c2.c:59-69 | On a little-endian host, for inputs of at most 1024 bytes, the `uint32_t` accumulator never wraps, and the two folds and the 16-bit complement give `HostChecksum`. |
| Checksum.BigEndianHostNoOverflow | c2.c:59-69 | On a big-endian host, for inputs of at most 1024 bytes, the `uint32_t` accumulator never wraps, and the two folds and the 16-bit complement give `BigEndianHostChecksum`. |
| Checksum.OddByteUnshifted | c2.c:65 | On a big-endian host, an input of odd length whose last byte is not zero gets a checksum different from the RFC 1071 checksum. For inputs of at most 1024 bytes, `BigEndianHostNoOverflow` makes this the source's 32-bit result. |
| Checksum.HostWordsSumShift | c2.c:62 | 0x100 times the big-endian word sum equals the host-order word sum plus a multiple of 0xFFFF. |
| Checksum.SwapCongruent | c2.c:62 | Swapping the bytes of a word multiplies it by 0x100 modulo 0xFFFF, and keeps it non-zero. |
| DnsMessage.FindSpec | c2.c:94 | `find('.')` reports the first '.' and nothing before it is a '.'. It reports none exactly when there is no '.'. |
| DnsMessage.FindFirst | c2.c:94 | The first '.' is the one `find` reports. |
| DnsMessage.EmitHeader | c2.c:79-90 | The 12 header bytes are written at offset 0 and the rest of the buffer is unchanged. The bytes are the identifier in network order, flags 0x0100, QDCOUNT 1, and ANCOUNT, NSCOUNT and ARCOUNT 0. |
| DnsMessage.EmitLabel | c2.c:95-98 | Writes the 8-bit length byte and then the label bytes at the cursor, and changes nothing else. |
| DnsMessage.EmitName | c2.c:92-104 | The dot-splitting loop and the last label write exactly `EncodeLabels(Labels(h))`, which is `|h| + 1` bytes, and change nothing else. |
| DnsMessage.NameStep | c2.c:94-99 | One turn of the loop: the encoding of the remaining hostname is the first label's encoding followed by the encoding of what comes after the '.'. |
| DnsMessage.NameLast | c2.c:101-104 | With no '.' left, the remaining hostname is written as a single label. |
| DnsMessage.EmitQuestionEnd | c2.c:105-109 | Writes the zero terminator, QTYPE 1 and QCLASS 1 in network order, and changes nothing else. |
| DnsMessage.EncodeQuery | c2.c:76-110 | `dnsLen` is the hostname length plus 18. The first `dnsLen` bytes of the buffer are the query message, and the bytes after them are unchanged. |
| DnsMessage.AssembleMessage | c2.c:79-109 | A header, the encoded labels and the question's end, in sequence, form the query message. |
| DnsMessage.QueryMessageLength | c2.c:110 | The message is `|hostname| + 18` bytes long and the QNAME is `|hostname| + 2` bytes long. |
| DnsMessage.EncodedLength | c2.c:94-104 | The encoded labels are one byte longer than the hostname they were split from. |
| DnsMessage.JoinLabels | c2.c:94-104 | Splitting at every '.' loses nothing: joining the labels with '.' gives back the hostname. |
| DnsMessage.LabelsDotFree | c2.c:94-99 | No label produced by the split contains a '.'. |
| DnsMessage.LabelsJoin | c2.c:94-104 | Splitting the '.'-join of dot-free labels gives back those labels. |
| DnsMessage.EncodeLabelsAppend | c2.c:94-104 | Encoding a concatenation of label lists is the concatenation of their encodings. |
| DnsMessage.HeaderFields | c2.c:79-90 | The header is 12 bytes and parses as a standard query with the given identifier, RD set, one question and no other records. |
| DnsMessage.HeaderOfParse | c2.c:79-90 | A header that parses as such a query is exactly the header the encoder writes for its identifier. |
| DnsMessage.DecodeEncodeLabels | c2.c:94-105 | Reading back valid labels followed by the zero byte recovers the labels and the number of bytes used, whatever comes after. |
| DnsMessage.EncodeDecodeLabels | c2.c:94-105 | Whatever the label reader accepts is the encoding of the labels it returns, and every label is 1 to 63 bytes. |
| DnsMessage.DecodeQueryMessage | c2.c:76-110 | Round trip: the message for an `A` query whose hostname has labels of 1 to 63 bytes reads back as that query. |
| DnsMessage.QueryMessageOfDecode | c2.c:76-110 | Converse round trip: every message the reader accepts is the encoder's message for the query it returns, and that query's hostname is valid. |
| PacketAssembler.WriteIpHeader | c2.c:113-125 | The field stores through `iph` leave the 20-byte IPv4 header of `h` at offset 0, and the bytes after it are unchanged. |
| PacketAssembler.IpHeaderLayout | c2.c:113-124 | The 20 header bytes, one by one: version and IHL in the first byte, then each field in network order. |
| PacketAssembler.WriteUdpHeader | c2.c:128-133 | The stores through `udph` leave the 8-byte UDP header at the offset, and the bytes around it are unchanged. |
| PacketAssembler.WritePseudoHeader | c2.c:142-155 | The 12-byte pseudo-header is written at the start of the checksum buffer: source, destination, a zero byte, protocol 17, UDP length. The rest of the buffer is unchanged. |
| PacketAssembler.WriteDatagram | c2.c:112-137 | After the header stores and the `memcpy`, `pos` is `28 + dnsLen`. The packet then starts with the IP header, the UDP header and the DNS message, and the rest is unchanged. |
| PacketAssembler.UdpChecksum | c2.c:142-157 | The UDP checksum is the Internet checksum of the pseudo-header followed by the UDP header and payload. |
| PacketAssembler.StoreChecksums | c2.c:140-157 | The IP checksum is taken over the first 20 bytes and stored at offset 10. The UDP checksum is taken over the pseudo-header and bytes 20 to `pos`, and stored at offset 26. No other byte changes. |
| PacketAssembler.EncodeFullPacket | c2.c:72-160 | Returns a fresh 1024-byte packet and its size, which is the hostname length plus 46. The first `size` bytes are `PacketBytes`: the IPv4 and UDP headers with both checksums filled in, followed by the DNS query message. All bytes after them are zero. |
| PacketAssembler.DatagramOfChecks | c2.c:140-157 | Storing the two checksums, computed over the packet laid out with zero checksums, gives the datagram with both checks filled in. |
| PacketAssembler.StoreChecks | c2.c:140-157 | Storing the checksums at offsets 10-11 and 26-27 is the same as building the headers with those check fields. |
| PacketAssembler.IpHeaderRoundTrip | c2.c:113-124 | Reading the IPv4 header back gives the fields that were written. |
| PacketAssembler.IpHeaderOfParse | c2.c:113-124 | Any 20 bytes are the layout of the header read from them. |
| PacketAssembler.UdpHeaderOfParse | c2.c:128-132 | Any 8 bytes are the layout of the UDP header read from them. |
| PacketAssembler.IpChecksumVerifies | c2.c:140 | The checksum of the packet's IP header, with its check stored, is 0. |
| PacketAssembler.UdpChecksumVerifies | c2.c:142-157 | The checksum of the pseudo-header, the UDP header with its check stored, and the payload is 0. |
| PacketAssembler.UdpCheckOnBigEndianHost | c2.c:156 | On a big-endian host, for every query whose hostname has odd length and for every address and port pair, the source's UDP checksum differs from `UdpCheck`. |
| PacketAssembler.DatagramDelivered | c2.c:112-157 | A receiver that checks version, IHL, total length, protocol, both checksums and the UDP length accepts the datagram. It delivers the payload with the addresses and ports the datagram was built with. |
| PacketAssembler.PacketCarriesQuery | c2.c:72-160 | For an `A` query with a valid hostname, the receiver accepts the packet, the addresses and ports match, and the delivered payload reads back as the query. |
| PacketAssembler.PacketFields | c2.c:113-137 | The packet's header fields read back as follows: version 4, IHL 5, TOS 0, total length equal to the packet size, id 54321, no fragmentation, TTL 255 and protocol 17. The addresses and ports are the given ones, the UDP length is the size minus 20, and the DNS message starts at byte 28. |
| Bytes.U32OfRead | c2.c:123-124 | Any four bytes are the network-order layout of the 32-bit value read from them. |
| Bytes.CopyBytes | c2.c:136 | `memcpy` between two distinct buffers: the destination range equals the source range, and the rest of the destination is unchanged. |

## Left out

- `sendRawPacket`, `main`, `loadFromFile`, `randomString`, `pickRandom`, the prompts and `stoi`: these are socket, file, console and random-number I/O around the serialiser. `physics.cpp` is not part of this model.
- The `packet_size` estimate in `main` is not modelled. `EncodeFullPacket` returns the final `pos` as `size` instead, and states that every byte after it is zero.
- `inet_pton` is not modelled. Addresses are parameters, given as the 32-bit value the call stores. A string that fails to parse leaves the field at 0, which corresponds to passing 0.
- The RFC 768 rule that a computed UDP checksum of 0 is sent as 0xFFFF is not applied, because the source does not apply it. `ParsePacket` therefore skips the UDP check when the field is 0.
- Checksum.Checksum: the contract is exact only for `len <= 1024`, the size of the buffers the builder passes. Beyond that the 32-bit wrap is written out but not related to the reference sum.
- Checksum.Checksum: the method reads words in network order and pads an odd last byte into the high byte, as RFC 1071 does. The source reads words in host order and adds an odd last byte unshifted (c2.c:65).
  - On a little-endian host that computation is `HostChecksum`. `HostNoOverflow` ties it to the source's 32-bit arithmetic, and `HostOrderChecksum` proves it stores the same two bytes.
  - On a big-endian host that computation is `BigEndianHostChecksum`. `BigEndianHostNoOverflow` ties it to the source's 32-bit arithmetic for inputs of at most 1024 bytes. It differs from the method's result for every odd-length input whose last byte is not zero (`OddByteUnshifted`; see "## Findings").
- PacketAssembler.WriteIpHeader: `tot_len` is written in network order. The source assigns it without `htons` (c2.c:117), so on a little-endian host bytes 2-3 of the header are swapped relative to the model.
- PacketAssembler.EncodeFullPacket: the stated layout `PacketBytes` is the RFC 1071 packet. On a big-endian host it is the source's packet only for hostnames of even length. For odd ones the source adds the last byte unshifted (c2.c:65), so bytes 26-27 differ from `UdpCheck` (`UdpCheckOnBigEndianHost`). On a little-endian host the source's packet differs in up to four bytes, and in none when the two bytes of `tot_len` are equal (257 or 514). Bytes 2-3 hold `tot_len` byte-swapped. Bytes 10-11 hold the IP checksum over that byte-swapped header, which then differs from `IpCheck`. Every other byte, including the UDP checksum, is the same. `PacketFields`, `DatagramDelivered` and `PacketCarriesQuery` describe the same big-endian layout. The Linux raw-socket layer rewrites both the total length and the IP checksum when `IP_HDRINCL` is set, but the kernel is not part of this model.
- DnsMessage.EncodeQuery: requires `|hostname| + 18 <= 512`. The source writes into a fixed 512-byte buffer without a bound check, so a longer hostname would write past it.
- DnsMessage.EmitLabel: labels longer than 255 bytes get a length byte truncated to 8 bits, as `static_cast<uint8_t>` does. The encoder does not reject labels that are empty or longer than 63 bytes. Only the round-trip lemmas require valid labels.
- The query's `type` string is not encoded: the source always writes QTYPE A, so it never reads the field. `DecodeQuery` returns `"A"`.
- Flags are written as 0x01 0x00, which sets RD (recursion desired); `HeaderFields` states it.
- The pseudo-header is written field by field into the checksum buffer rather than through a C struct copy. The struct has no padding, so the 12 bytes are the same.

## Findings

| source | as written | input that shows it | evidently intended | confidence | as-written member | corrected member |
|---|---|---|---|---|---|---|
| c2.c:65 | An odd last byte is added as it is, as the low-order value of the sum. This follows the sample routine of section 4.1 of RFC 1071, which has the same statement and so pads correctly only when words are read in little-endian host order. | On a big-endian host, any hostname of odd length, such as the 21-byte names `main` builds (c2.c:244-245). The UDP checksum input is then `|hostname| + 38` bytes long and ends in QCLASS's byte 0x01, so the stored UDP checksum differs. | Pad the last byte with a zero on its right on every host, as the odd-count sum `[A,B] +' ... +' [Z,0]` of section 1 of RFC 1071 and the zero-octet padding of RFC 768 state. | not executed; medium (on little-endian hosts the code is correct) | Checksum.OddByteUnshifted | Checksum.Checksum |
