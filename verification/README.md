# Verified model of RustPCAPrune

RustPCAPrune (crate `pcap-slim`) rewrites libpcap files record by record. It parses each Ethernet frame, decides whether
the TCP or UDP payload is encrypted, cuts such a payload to its first 24 bytes, repairs lengths and checksums, and
streams the result into a temp file that replaces the original under a marker protocol. This Dafny project models
those layers and proves what they keep.

| file | models |
|---|---|
| `Bytes.dfy` | bytes, machine-word ranges, the byte vector that is edited in place |
| `Checksum.dfy` | one's-complement sums (RFC 1071), the pseudo-headers of RFC 9293, RFC 768 and RFC 8200 |
| `Parse.dfy` | tag stack, IPv4 with options, IPv6 extension chain, TCP, UDP, the fast path, the source-route walk |
| `ParseExactly.dfy` | which transport header a frame carries, by its bytes alone, and that the parser finds exactly that |
| `PacketPrinter.dfy` | structured packets, their bytes, and parsing as the inverse of printing |
| `Policy.dfy` | the keep-or-truncate decision |
| `Truncate.dfy` | the in-place edit, as methods on a byte vector tied to one function, `Edited` |
| `Fidelity.dfy`, `Reparse.dfy` | what a truncated frame still says: footprint, lengths, checksums, a second parse |
| `Receiver.dfy` | what a receiver adds up over a truncated frame, in the words of the RFCs |
| `Packet.dfy`, `LengthWrap.dfy`, `ShortHeader.dfy` | one frame from bytes to bytes, idempotence, and frames at the limits of what a cut keeps |
| `Fragments.dfy`, `Handshakes.dfy` | whole fragments and TLS handshake packets, against the rules that leave them alone |
| `PcapFormat.dfy` | the container: decoding, encoding and their inverse laws, for both byte orders |
| `PcapIo.dfy` | the slim, analyze and count loops, the write batch, and the laws of slimming a file |
| `TmpNames.dfy` | which names are listed and which temp name each uses |
| `Coord.dfy` | the replacement protocol as a step system: workers, their sources, crashes, clean-up |
| `CoordFs.dfy`, `CoordDir.dfy` | one worker's pass as a method under faults, and passes over a whole directory as one run |
| `TmpCollision.dfy` | two workers with one temp file, and exactly when every run is safe |
| `Limit.dfy` | the I/O token bucket over real time, its batching front, and all workers on it together |
| `Metered.dfy` | a slimming pass under an I/O limit: what it charges, when it ends, when it never does |

How the pieces connect:

- Loops and in-place edits are methods. Each is proved equal to a function (`TagWalk`, `ChainWalk`, `FirstRoute`, `Edited`,
  `SlimFile`, `CountFile`, `After`), and the lemmas are about that function.
- What the formats fix is also said apart from the model's own functions and constants, in the numbers of the RFCs and of libpcap:
  `ParseExactly`, `PacketPrinter` and `Receiver` for frames, `HeaderExactly` and `RecordByBytes` for captures, `SelectedExactly` and
  `TmpNameExactly` for names, `RefillExactly` and `WaitExactly` for the bucket.
- `Layout` is the general parser alone. The method `ParseFrame` contains the fast path and is proved equal to it.
- `SlimFile` is decode, map every frame, encode. The slim and analyze loops are proved equal to it.
- The stream loops record what they charge in a `Meter`; `PassCharges` says from the records alone what a slimming pass charges,
  and `Metered.MeteredSlim` makes those calls on the token bucket.
- `Coord.CrashSafety` speaks about every run of the step system; `CoordFs.SlimFileInPlace` returns, as a ghost, the run it
  performed, and `CoordDir.SlimAll` joins such runs into one over all workers, to which `CrashSafety` is applied.

Where the code and its documentation or comments disagree, the model follows the code:

- A frame that ends fewer than 8 bytes behind an IPv4 ethertype makes the fragment check read out of range and the packet
  step panics (`Panicked`), where the documentation keeps such frames. `PanicsExactly` is the exact condition.
- TLS handshake records are said to be preserved; with port 22 on either side the SSH rule still truncates them
  (`HandshakeKeptExactly`, `PrintedHandshake`, `HandshakeWitness`).
- Fragments are to be left alone. IPv4 fragments are; the Fragment header of IPv6 is stepped over, so an IPv6 fragment is
  truncated whenever the bytes behind its chain look encrypted, even when they are data from the middle of a datagram
  (`FragmentKeptExactly`, `PrintedFragment`, `LaterFragmentOverwritten`).
- IHL values below 5 are accepted. Idempotence, footprint and repaired lengths hold for them too. A second parse finds the
  same headers for IHL 3 and 4 and for IHL 1 with TCP; never for IHL 1 with UDP, nor for a truncated frame with IHL 0; and
  for IHL 2 only if the new header checksum happens to equal the destination port it overwrites (`ReparseFidelity`).
  The IPv4 header verifies from IHL 3 up. The transport checksum lies inside the addresses it covers for UDP with IHL 2 or 3
  and for TCP with IHL 0, and then verifies only if the words it covers add up to zero modulo 65535; `CoveredWords` gives
  them in terms of the frame before the cut (`ChecksumsValid`, `TransportSumWitness`).
- The first 24 payload bytes are to be kept. For UDP with IHL 0 the IPv4 checksum is stored in two of them
  (`ReparsedPayload`, `PayloadOverwrittenWitness`).
- The IPv6 payload length is not reduced by the extension chain, so padding can be taken for payload, and the new length
  can exceed 16 bits. `ReparseFidelity` has the exact condition, `LengthWrapWitness` a frame beyond it.
- Two listed captures are meant to use different temp files; `.pcap` and `.pcap.pcap` do not (`TmpNamesCollideExactly`), and
  then one can end up with the other's packets (`SharedTmpSwaps`). `OneRunSafeExactly` is the exact condition for one run.
- Two workers on one file are said to be harmless. They share a temp file, and one that creates it anew while the other is
  about to rename it leaves the capture empty (`SharedTmpEmpties`). `SafeExactly` and `ListedSafeExactly` say when a source is safe.
- A batch larger than the burst is never granted by the token bucket, so the acquire loop then never ends (`IoBucket.Acquire`);
  with a limit below 0.131072 MB/s this happens to every batch (`SlowRateStalls`, `SlowRateWitness`), and wherever the burst is
  below a nearly full 512 KiB write batch it happens to every capture with more output than that (`PassStalls`,
  `StallWitness` at 0.2 MB/s).

## Model

| member | source | states |
|---|---|---|
| Checksum.Fold | src/checksum.rs:17-20 | the carry-folding loop ends and leaves the canonical residue modulo 65535, zero only for zero |
| Checksum.ChecksumSum | src/checksum.rs:7-21 | the loop computes the residue of the padded word sum and never overflows u32 on slices up to 131074 bytes |
| Checksum.NoOverflowExactly | src/checksum.rs:8-16 | the u32 accumulator is safe for every slice of a length exactly up to 131074 bytes |
| Checksum.Finish | src/checksum.rs:23-28 | folds any u32 and complements its residue |
| Checksum.InternetChecksum | src/checksum.rs:30-32 | the complement of the folded word sum |
| Checksum.FillPseudoV4 | src/checksum.rs:40-46 | the array filled field by field is the RFC 9293 pseudo-header |
| Checksum.TransportChecksumIpv4 | src/checksum.rs:39-74 | two separately folded parts give the checksum of pseudo-header and segment as one byte string, odd segments included |
| Checksum.TransportChecksumIpv6 | src/checksum.rs:54-84 | five separately folded parts give the checksum of the 40-byte RFC 8200 pseudo-header and segment as one byte string |
| Checksum.ComplementVerifies | src/checksum.rs:86-93 | adding the complement makes any sum fold to 0xffff, also when zero is sent as 0xffff |
| Checksum.InsertVerifies | src/checksum.rs:34-37 | writing the checksum into a zeroed field at an even offset makes the whole byte string verify |
| Checksum.WordSumWeighs | src/checksum.rs:8-16 | a byte at an even offset adds 256 times itself to the word sum, one at an odd offset itself, also in slices of odd length |
| Checksum.PseudoV6Fields | src/checksum.rs:54-63 | the IPv6 pseudo-header is two addresses, a four-byte length, three zeros and the protocol |
| Checksum.PseudoV4Fields | src/checksum.rs:39-46 | the IPv4 pseudo-header is two addresses, a zero, the protocol and a two-byte length |
| Receiver.Ipv6Accepted | src/truncate.rs:121-169 | in every truncated IPv6 frame addresses, segment size, 6 or 17 and the segment add up to all ones; a UDP sum is never zero, a TCP sum never 0xffff |
| Receiver.Ipv4Accepted | src/truncate.rs:113-169 | the same for IPv4 with IHL of at least 5 and the final destination of its source route, and its header adds up to all ones |
| Parse.L2EthertypeAndL3Start | src/parse.rs:125-143 | the tag loop ends and returns the inner ethertype and L3 offset of the recursive tag walk |
| Parse.ParseIpv6 | src/parse.rs:311-380 | the extension-chain loop ends and agrees with the recursive chain walk |
| Parse.FastPathRefinesGeneral | src/parse.rs:146-213 | whatever the fast path accepts, the general path parses identically |
| Parse.ParseFrame | src/parse.rs:216-249 | with the fast path in front, every frame is parsed as the general path alone would |
| ParseExactly.HeaderFoundExactly | src/parse.rs:216-420 | a transport header is found exactly if the frame carries it: by tags, ethertype bytes, IP header, extension headers and the header's own bytes |
| ParseExactly.EthertypeDecides | src/parse.rs:216-249 | behind any tags 08 00 is IPv4, 86 dd is IPv6, and any other pair ends the search |
| ParseExactly.Ipv4Exactly | src/parse.rs:251-300 | version, IHL, length and protocol 6 or 17 decide which header an IPv4 packet carries |
| ParseExactly.Ipv6Exactly | src/parse.rs:311-380 | an IPv6 packet carries the header at the end of a run of 0, 43, 44, 51 and 60 headers of the sizes the RFCs give |
| ParseExactly.ChainStep | src/parse.rs:337-371 | one step of the extension walk for every next-header value |
| ParseExactly.OtherKindsEnd | src/parse.rs:345-371 | every other next-header value, 50 and 59 among them, gives no transport header |
| ParseExactly.FastPathExactly | src/parse.rs:146-213 | the frames the fast path takes over, by their bytes |
| ParseExactly.PayloadExactly | src/parse.rs:49-80 | the payload ends with the IP packet or the captured bytes, and for IPv6 where the length points from the transport header on |
| Parse.LayoutWellPlaced | src/parse.rs:251-420 | every offset a parse returns lies in the frame and fits the others |
| Parse.Ipv4PseudoDst | src/parse.rs:83-122 | the option loop ends in bounds and returns the address of the first source route met |
| Parse.OptionRunExists | src/parse.rs:93-120 | every option area has a run of complete options, of a kind other than zero and a length of at least two, ending at the first offset that holds none |
| Parse.SourceRouteWalk | src/parse.rs:83-122 | along any such run the first option number 3 or 9 of length 7 or more decides by its last four bytes, else the header destination |
| PacketPrinter.ParsingInvertsPrinting | src/parse.rs:49-420 | parsing a printed packet recovers exact offsets, ports and payload for any tags, IPv4 options, extension chain, TCP options and trailer, with the exact excess when a chain and a trailer meet |
| PacketPrinter.TagsFound | src/parse.rs:125-143 | any number of printed 0x8100 tags is walked to the ethertype behind them |
| PacketPrinter.ChainFound | src/parse.rs:337-371 | any printed chain of Hop-by-Hop, Routing, Fragment, AH and Destination headers is walked to the transport header behind it |
| PacketPrinter.TransportFound | src/parse.rs:382-420 | a printed TCP or UDP header is found with its ports and length |
| Policy.DecisionTree | src/policy.rs:26-79 | the decision is Truncate exactly for TCP and UDP packets with more than 24 payload bytes that the documented tree calls encrypted, IPv4 fragments excepted and IPv6 fragments not |
| Fragments.FragmentKeptExactly | src/policy.rs:27-33 | a fragment is left alone exactly when it is IPv4 or does not look encrypted |
| Fragments.PrintedFragment | src/parse.rs:350-359 | any printed IPv6 packet with a Fragment header on its chain is a fragment and is truncated exactly when the bytes behind the chain look encrypted, at every fragment offset |
| Fragments.LaterFragmentOverwritten | src/parse.rs:350-359 | data of a fragment with nonzero offset, behind any tags and chain, is read as a transport header; the frame is truncated exactly when that shows encryption, and then data bytes are overwritten and all but 24 behind the supposed header dropped |
| Fragments.DataReadAsUdp | src/parse.rs:404-420 | any data of eight bytes or more is such a UDP header and payload |
| Fragments.DataReadAsTcp | src/parse.rs:382-402 | any data whose byte 12 names a fitting header length is such a TCP header and payload |
| Fragments.FragmentWitness | pcap-slim-algorithm.md:242-244 | such a frame, with the bytes before and after |
| Policy.HandshakeKeptExactly | pcap-slim-algorithm.md:37-53 | a handshake record is kept exactly when neither port is 22, on any ports |
| Handshakes.PrintedHandshake | src/policy.rs:46-68 | a handshake record in a printed TCP packet behind any tags, options or chain is cut exactly when a port is 22 |
| Handshakes.HandshakeWitness | src/policy.rs:62-66 | such a packet between ports 443 and 22 |
| Policy.ShortPayloadKept | src/policy.rs:46-70 | at most 24 bytes behind the headers always mean Keep |
| Truncate.UpdateIpv4HeaderChecksum | src/truncate.rs:113-119 | zero, sum and store in place gives `SetIpv4Sum` |
| Truncate.UpdateTcpChecksum | src/truncate.rs:121-143 | the in-place TCP repair gives `SetTransportSum`, over the pseudo-header read from the patched buffer |
| Truncate.UpdateUdpChecksum | src/truncate.rs:145-169 | the in-place UDP repair gives `SetTransportSum`, with zero sent as 0xffff |
| Truncate.ApplyTruncateFields | src/truncate.rs:9-61 | the buffer is cut and patched to `Edited` exactly when more than 24 payload bytes are announced and captured, else untouched |
| Truncate.ApplyTruncateOnParsed | src/truncate.rs:64-78 | on a parsed frame the edit happens exactly when the payload is longer than 24 bytes; the late length check never refuses |
| Fidelity.EditFootprint | src/truncate.rs:25-60 | for every IHL, only IP length, IPv4 checksum, UDP length and transport checksum bytes differ from the original prefix |
| Fidelity.LengthsRepaired | src/truncate.rs:31-41 | the new IP length field names the real size, for every IHL |
| Fidelity.UdpLengthRepaired | src/truncate.rs:46-49 | the new UDP length names the real segment size |
| Fidelity.ChecksumsValid | src/truncate.rs:113-169 | exactly when a receiver accepts both checksums of a truncated frame, for every IHL and for IPv6, by the frame before the cut |
| Fidelity.HeaderSumValid | src/truncate.rs:113-119 | the IPv4 header verifies exactly from IHL 3 up, or for IHL 2 if its words sum to all ones without a checksum |
| Fidelity.TransportSumValid | src/truncate.rs:121-169 | the segment with the pseudo-header the code sums verifies, zero sent as 0xffff included, exactly unless the checksum lies inside the addresses and the words it covers are no multiple of 65535 |
| Fidelity.CoveredFromFrame | src/truncate.rs:121-169 | there the covered words are a sum of words of the frame before the cut, for UDP with IHL 2 and 3 and TCP with IHL 0 |
| Fidelity.PseudoHeaderKept | src/truncate.rs:132-165 | source-route destination included, the pseudo-header is the same before and after the cut, exactly unless the transport fields lie in the addresses and did not already complement the covered words |
| Reparse.ChainWalkDetermined | src/parse.rs:337-371 | on frames with the same chain the walk finds the same header if it ends before the given end, and nothing otherwise |
| Reparse.ReparseFidelity | src/truncate.rs:25-58 | parsing the output gives identical offsets and ports exactly when the IPv6 payload length fits its field or the IPv4 header is long enough not to be overwritten, with the exact condition for each IHL |
| Reparse.ZeroLengthHeaderLost | src/parse.rs:271-290 | with IHL 0 and more than 24 payload bytes the second parse never finds the same ports |
| Reparse.ReparsedPayload | src/truncate.rs:25-58 | the length fields are the real sizes and the payload is the first 24 bytes of the old one, exactly unless an IHL of 0 puts the IPv4 checksum into it |
| Reparse.OrdinaryLengthFits | src/parse.rs:64-78 | the length fits for IPv4, without extension headers, and with nothing captured behind the IP payload |
| Reparse.SecondDecisionKeeps | src/policy.rs:26-43 | on every truncated frame the second decision is defined and is Keep |
| Packet.ProcessPacket | src/packet.rs:15-31 | parse, decide and in-place edit together equal the function `Process` |
| Packet.DecisionAndEffectCoincide | src/packet.rs:20-29 | the output is truncated exactly when decided so, and then has length payload start plus 24, below the input's |
| Packet.PanicsExactly | src/policy.rs:27-33 | the packet step panics exactly on frames with an IPv4 ethertype and fewer than 8 bytes behind the L3 offset |
| Packet.PanicWitness | src/policy.rs:27-33 | a 14-byte frame on which it does |
| Packet.NoIpKept | src/policy.rs:27-37 | a frame without an IP ethertype is kept |
| Packet.ProcessIdempotent | src/packet.rs:15-31 | a truncated frame is kept on a second pass, for every IHL and chain, fast path or not |
| Packet.OutFrameIdempotent | src/packet.rs:15-31 | the replacement of a frame is its own replacement and never longer |
| Packet.TruncationFaithful | src/truncate.rs:9-61 | footprint, the exact conditions for both checksums and for an identical second parse, for every truncated frame |
| ShortHeader.ShortHeaderLosesTransport | src/parse.rs:271-290 | with IHL 1 no truncated UDP frame parses as UDP again |
| ShortHeader.ShortHeaderWitness | src/parse.rs:271-290 | such a frame exists |
| ShortHeader.HeaderSumWitness | src/truncate.rs:113-119 | a truncated frame whose IPv4 header does not verify |
| ShortHeader.TransportSumWitness | src/truncate.rs:145-169 | a truncated UDP frame with IHL 3 whose checksum does not verify |
| ShortHeader.PayloadOverwrittenWitness | src/truncate.rs:113-119 | a truncated UDP frame with IHL 0 that does not keep the first 24 payload bytes |
| LengthWrap.LengthWrapWitness | src/truncate.rs:32-35 | a truncated frame whose new IPv6 payload length does not fit 16 bits |
| PcapFormat.MagicExactly | src/pcap_io.rs:404-420 | exactly two byte patterns are accepted, and the second reading of the magic never decides |
| PcapFormat.HeaderExactly | src/pcap_io.rs:130-145 | for every file: under 24 bytes, pcapng, each of the two byte orders, or an unknown magic, by its first four bytes |
| PcapFormat.ReadsNumber | src/pcap_io.rs:44-50 | four bytes are read as the number they stand for in the byte order of the file |
| PcapFormat.WritesNumber | src/pcap_io.rs:52-59 | a number is written as the four bytes that stand for it |
| PcapFormat.RecordByBytes | src/pcap_io.rs:238-251 | bytes 0, 4, 8 and 12 of a record begin seconds, microseconds, captured and original length, the body follows at 16 |
| PcapFormat.ReadWritten | src/pcap_io.rs:44-60 | a written u32 reads back, in both byte orders |
| PcapFormat.WrittenRead | src/pcap_io.rs:44-60 | four read bytes are written back unchanged, in both byte orders |
| PcapFormat.ScanEncoded | src/pcap_io.rs:237-251 | scanning encoded records gives them back; a cut-off record header is dropped |
| PcapFormat.DecodeEncoded | src/pcap_io.rs:130-145 | decoding an encoded capture gives it back with header and byte order |
| PcapFormat.EncodeDecoded | src/pcap_io.rs:237-251 | a readable file is the encoding of its capture and less than one record header |
| PcapIo.WriteBatch.WriteRecord | src/pcap_io.rs:175-183 | written bytes followed by the buffer grow by exactly the record, and the buffer stays within the cap or one record |
| PcapIo.WriteBatch.Flush | src/pcap_io.rs:185-194 | everything buffered reaches the writer in order, and exactly that is charged |
| PcapIo.SkipPacketBody | src/pcap_io.rs:197-205 | stepping in buffer-sized pieces succeeds exactly when the whole body is there |
| PcapIo.ReadRecord | src/pcap_io.rs:238-251 | end of stream, cut-off body and complete record are told apart, and a complete one is the next record |
| PcapIo.SlimOne | src/pcap_io.rs:254-273 | one record is replaced by its slimmed form with the same timestamps and original length |
| PcapIo.SlimRecords | src/pcap_io.rs:237-278 | the loop consumes exactly the records before it stops and writes the encoding of what replaces them |
| PcapIo.SlimPcapToWriter | src/pcap_io.rs:218-281 | the stream pass equals decode, map, encode in bytes, statistics, error and panic, and makes exactly the charges that the records call for, in order |
| PcapIo.SlimPcap | src/pcap_io.rs:293-308 | the destination holds the slimmed file, the statistics its size, and every byte read and written is charged once |
| PcapIo.AnalyzePcap | src/pcap_io.rs:355-402 | without writing, the same outcome and statistics as slimming, output size included; every byte read is charged once |
| PcapIo.CountPackets | src/pcap_io.rs:318-345 | counting by skipping gives the number of records a decoder reads, with the same errors; every byte read is charged once |
| PcapIo.SlimHomomorphism | src/pcap_io.rs:218-281 | the output decodes to the same header, byte order and records, each frame replaced by its packet result |
| PcapIo.SlimmedByBytes | src/pcap_io.rs:254-273 | a record of the output keeps bytes 0 to 8 and 12 to 16 of its header, and bytes 8 to 12 are the new length |
| PcapIo.HeaderRefusals | src/pcap_io.rs:130-145 | slimming and counting refuse the same files for the same reasons, by their length and first four bytes, and else follow the byte order of the magic |
| PcapIo.SlimOutcome | src/pcap_io.rs:237-281 | slimming ends by a panic exactly if a record read makes the packet step panic, else with an error exactly if a record body is cut short |
| PcapIo.StatsExactly | src/pcap_io.rs:254-264 | the statistics are the number of records, of frames cut and kept, and the sizes of both files |
| PcapIo.BatchBoundary | src/pcap_io.rs:175-183 | two records of together 524288 bytes are written as one batch, of one byte more as two |
| PcapIo.SlimIdempotent | src/pcap_io.rs:237-278 | slimming a slim file reproduces it byte for byte and truncates nothing |
| PcapIo.ReadersAgree | src/pcap_io.rs:318-402 | slimming succeeds exactly when counting does and no frame panics; output and input count alike; the output is never larger |
| TmpNames.TmpNameApart | src/coord.rs:171 | a temp name is never its own source and never listed |
| TmpNames.TmpNamesCollideExactly | src/coord.rs:171 | two listed names share a temp name exactly when they are `.pcap` and `.pcap.pcap` |
| TmpNames.TmpNameExactly | src/coord.rs:171 | the extension of a name, if it has one, gives way to pcap.tmp |
| TmpNames.ListedExactly | src/coord.rs:214-216 | the listed names are those that end in .pcap |
| Coord.ListPendingPcaps | src/coord.rs:196-230 | exactly the unmarked, old enough `.pcap` files are selected, oldest first, with equal times in directory order |
| Coord.SelectedExactly | src/coord.rs:207-227 | a capture is selected exactly if it is an unmarked file named .pcap, last changed no later than a given cutoff |
| Coord.CutoffMonotone | src/coord.rs:217-223 | an earlier cutoff selects a part, and without one every unmarked capture is selected |
| Coord.SortByAge | src/coord.rs:228 | the order is by modification time and stable |
| Coord.ListedTmps | src/main.rs:214-222 | no temp file is listed, and a worker on a listed file owns its temp file exactly unless another has the same file or the colliding one |
| Coord.OthersUntouched | src/main.rs:214-222 | a step of one worker leaves every other source, temp file, marker and worker alone |
| Coord.StepKeepsSource | src/coord.rs:162-190 | every step of any worker, a crash, or a clean-up at any time keeps a source whose temp file one worker owns safe |
| Coord.CrashSafety | src/coord.rs:162-190 | over every run with any interleaving, failure, crash, clean-up and rerun, each source whose temp file one worker owns holds its original or slimmed bytes, a marker implies the slimmed ones, and an unslimmable capture is neither changed nor marked |
| Coord.MarkedStays | pcap-slim-algorithm.md:124-127 | once marked, a source keeps its marker and its bytes in every run |
| TmpCollision.SharedTmpSwaps | src/coord.rs:171-186 | with a shared temp file a run replaces one source by the slimmed bytes of the other, for any two captures with equal counts |
| TmpCollision.SharedTmpUnsafe | src/coord.rs:171-186 | concrete captures for which that run leaves a source neither original nor slimmed |
| TmpCollision.SharedTmpEmpties | pcap-slim-algorithm.md:151-169 | with a shared temp file, of two sources or of one, a run replaces a source by an empty file |
| TmpCollision.SharedTmpLoses | pcap-slim-algorithm.md:151-169 | a concrete capture that is lost so |
| TmpCollision.SafeExactly | src/coord.rs:162-190 | a source is safe in every run exactly when no other worker uses its temp file |
| TmpCollision.ListedSafeExactly | src/coord.rs:171-190 | a listed source is safe in every run exactly when no other worker slims it and none is on the file it collides with |
| TmpCollision.OneRunSafeExactly | src/main.rs:214-222 | with one worker for each file all listed sources are safe in every run exactly when `.pcap` and `.pcap.pcap` are not both listed |
| Coord.VerifyNeverRefuses | src/coord.rs:83-97 | counting turns down a faithfully written temp file exactly when that was cleaned up |
| Coord.RecoveryCompletes | pcap-slim-algorithm.md:138-142 | from any safe state one undisturbed pass ends with the slimmed bytes, a marker and no temp file |
| Coord.PacketCountKept | src/coord.rs:82-97 | even if temp files are corrupted before they are counted, every source keeps its packet count |
| CoordFs.WriteTmp | src/coord.rs:171-179 | the temp file holds the slimmed capture, or the pass is abandoned with the source unchanged |
| CoordFs.VerifyTmpPacketCount | src/coord.rs:83-97 | succeeds exactly when the temp file counts to the expected number |
| CoordFs.ReplaceSource | src/coord.rs:186-187 | after rename and marker the source holds the counted bytes; each failure leaves the stated state |
| CoordFs.SlimFileInPlace | src/coord.rs:162-190 | under any faults one pass is a run of the protocol, and its result and directory are as stated |
| CoordDir.LiftRun | src/main.rs:214-222 | a run of one worker is a run of all workers while the others are idle |
| CoordDir.SlimAll | src/main.rs:214-222 | passes over the listed files, each under its own faults, are one run of the protocol, and crash safety holds of every source |
| Limit.RateBound | src/limit.rs:72-96 | in any window of any run at most one burst plus rate times its length is granted, and tokens stay between zero and the burst |
| Limit.RunConserves | src/limit.rs:72-96 | what was granted and what is left never exceed what was there and what accrued |
| Limit.SleepHelps | src/limit.rs:92-94 | a sleep covers a deficit of at most one second's tokens and takes that much off a larger one |
| Limit.WaitExactly | src/limit.rs:92-94 | a sleep is asked for exactly as long as the deficit, or one second's tokens, take to accrue |
| Limit.RefillComposes | src/limit.rs:72-78 | refilling twice is refilling once: no time is lost or counted twice |
| Limit.RefillExactly | src/limit.rs:72-78 | the rate accrues for all the time elapsed, until the burst is full |
| Limit.GrantedExactly | src/limit.rs:85-91 | an attempt is granted exactly if the need fits the burst and what was left with all that has accrued |
| Limit.RunConservesExactly | src/limit.rs:72-96 | over any run in which the bucket was never full, granted and left are exactly what was there and what accrued |
| Limit.IoBucket.Refill | src/limit.rs:72-78 | refilling in place is the refill of the bucket value |
| Limit.IoBucket.Acquire | src/limit.rs:80-96 | the loop is a run of the bucket, grants by its third attempt what fits the burst, never more than the burst, and sleeps for exactly what is missing after each refusal |
| Limit.TooLargeNeverGranted | src/limit.rs:85-95 | over any run of attempts a need above the burst is never granted |
| Limit.SlowRateStalls | src/limit.rs:50-58 | below 0.131072 MB/s no batch is ever granted, so the loop charging the first one does not end |
| Limit.SlowRateWitness | src/limit.rs:50-58 | a limit of 0.1 MB/s never grants its first 262144-byte batch |
| Limit.ResourceLimits.AcquireIo | src/limit.rs:211-224 | accounted bytes equal granted, pending and saturated ones, less than 256 KiB stay pending and nothing after a batch, and the attempts lie in order between call and return |
| Limit.ResourceLimits.FlushIo | src/limit.rs:227-236 | afterwards nothing is pending and every accounted byte was granted or saturated away; the attempts lie in order between call and return |
| Limit.CallsJoin | src/limit.rs:209-236 | one more call after others extends their run in order and adds its grants |
| Limit.FrontRateBound | src/limit.rs:209-236 | over any stretch of calls in order at most one burst plus rate times the stretch is granted |
| Limit.Serve | src/limit.rs:209-236 | any requests let in one after another make such calls in order, grants, pending and accounted bytes add up, and all are served exactly when every batch they make fits the burst |
| Limit.SaturatesExactly | src/limit.rs:216 | pending bytes add up below the largest u64 and stay at it above |
| Limit.SmallRequestsFit | src/limit.rs:80-96 | every batch fits a burst that has room for the largest request on an almost full batch |
| Limit.LargeRequestStalls | src/limit.rs:80-96 | one request that is a batch above the burst stops everything behind it |
| Metered.MeteredSlim | src/pcap_io.rs:218-308 | a pass and its flush are served exactly when every batch of its charges fits the burst, and then the bucket has granted what was pending before and exactly the bytes read and written |
| Metered.PassFits | src/pcap_io.rs:175-194 | a burst with room for the larger of a write batch and a record on an almost full 256 KiB serves every capture with frames of that size |
| Metered.BatchWritten | src/pcap_io.rs:175-194 | output beyond the batch cap leaves the batch at least once, and then nearly full |
| Metered.PassStalls | src/pcap_io.rs:175-194 | below a nearly full write batch no capture with more output than one batch is ever finished |
| Metered.StallWitness | src/pcap_io.rs:175-194 | a capture of 400 frames that is never finished at 0.2 MB/s |

## Left out

- Limit.IoBucket.Acquire: the source loops without end; the model follows it for any given number of attempts, so a need above the burst shows as not granted by any of them.
- Coord.ListPendingPcaps: modification times are known and do not change while the directory is listed.
- Metered.MeteredSlim: the limiter calls are made after the pass in their order, not between its reads and writes; the time the pass itself takes is the pause before a call.
- Limit.Serve: the order in which a mutex admits waiting workers is arbitrary; a worker that the bucket never serves ends the run.
- CoordFs.SlimFileInPlace: does not model the concurrent growth of a source by another program while it is read.
- Checksum.TransportChecksumIpv4: leaves out the debug assertion on 64-byte segments; the true bound after a cut is 84 bytes.
- Read errors other than a premature end of file inside the stream loops; in the protocol they are the arbitrary failures of a worker.
- Coord.Acts: writing goes by name. A worker whose temp file another one has renamed onto a source in the meantime would go on writing into that source; only workers that share a temp file can get there.
- Power loss between rename and the disk: rename is atomic and durable in the model.
- The u64 packet and byte counters are unbounded; `ReadersAgree` bounds the packets of a file by its size.
- The CPU governor, load average, resource usage and floating-point rounding: foreign calls and heuristics; the bucket uses exact reals.
- Memory-mapped against buffered reading, buffer capacities and `set_len`: the same bytes either way.
- Marker ownership and modes, marker directory creation, modification times beyond the age filter, the 300-second threshold of the temp clean-up (any time is allowed).
- Command line, logging, reports and exit codes.
- pcapng beyond its rejection, link types other than Ethernet, parity with Scapy.
- `apply_truncate`, `process_frame` and the test helpers: duplicates of modelled code or test support.
