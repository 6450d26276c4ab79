# AFI920 driver: verified model of the receive path

This project models, in Dafny, how the AFI920 ROS 2 driver turns bytes from the sensor into published
detections, and proves what that path guarantees.

- `Bytes`, `Records`, `Words`: bytes, pack and unpack helpers, fixed-size records, machine words. A byte is a
  natural below 256 and a 64-bit register a natural below 2^64; `^` is `Words.WordXor`, and shifts and masks are
  division and remainder by powers of two.
- `Gf2`, `Crc64`, `Polynomial`, `E2e`: CRC-64/XZ as a bit loop, as a shift register and as polynomial division; the
  AUTOSAR E2E Profile 7 header and its checks.
- `Someip`, `Reassembler`, `Overlay`, `DiagReassembler`: SOME/IP and SOME/IP-TP headers, the reassembler with its
  reused buffer, and the diagnostic tool's reassembler that it refines.
- `Framing`, `TcpStream`, `TcpRuns`: length-prefixed framing, the TCP client over a scripted socket, and whole runs
  with drops and reconnects.
- `CommonHeader`, `Rdi`, `Shii`, `Spi`: the wire parsers against encoders written from the packing helpers.
- `Floats`, `PointCloud`, `ConfigLock`: filtering and the two outputs of a frame, and the lock that keeps them
  consistent. A wire float is its 32-bit pattern, compared by its exact value with NaN unordered.
- `LossCounter`, `RdiNode`, `RdiRuns`, `SideStreams`, `Pipeline`: the node, from datagram to published frame, and the
  thread that feeds it.

What the specification functions decide is also stated without them, in the lemmas whose names end in `Exactly` or
`Layout` and some others: off the bytes as numbers (`Bytes.LeNumber`, `Bytes.BeNumber`), with the constants of the
wire written out, and on real numbers for the filter.

`dafny verify dfyconfig.toml` checks all of it.

## What the proofs say about the code

- The comments of the reassembler promise a reset on a session change and a fresh start after 100 ms. The code keeps
  the buffer in both cases and completes on every non-empty final segment, so neither has any effect on what is
  delivered (`Overlay.SessionsAndClockAreInert`). A message that is not covered by its own segments shows bytes of
  older messages (`DiagReassembler.StaleByteShows`); exactly when it does not is `Overlay.IndependentIffCovered`.
- The diagnostic tool and the client extract different messages from two kinds of streams and no others
  (`Framing.FramersAgreeExactly`). The tool waits for 16 bytes where the client waits for 8, so it misses a last frame
  with fewer than 16 bytes from its start to the end of the stream (`Framing.ShortTailShows`). And it has no buffer
  limit, so it goes on where the client drops the connection at a frame larger than its buffer
  (`Framing.OversizeShows`).
- The lost-packet count is the number of packets missing exactly when no packet was delivered twice, the first one
  delivered has the least counter and the last one the greatest (`LossCounter.LossExactIffInPlace`, for runs short
  enough not to wrap; `LossCounter.LossExactIff` for all). A duplicate (`LossCounter.DuplicateShows`) or a last packet
  that comes late (`LossCounter.LatePacketShows`) takes one off, below zero if need be. In every case the count is
  `last - first + 1` minus the deliveries, modulo 2^32 (`LossCounter.LossConserved`).
- The checksum catches every change within 64 consecutive covered bits, every change of its own field, and every change
  of an odd number of bits anywhere (`E2e.OddChangeCaught`). For changes that touch the field and the covered bytes
  alike no burst guarantee is proved; which of them go unseen is `E2e.AlteredValidIffMultiple`.
- Driver and diagnostic tool reassemble every sequence of segments alike exactly when every final segment has data and
  the driver's leftover bytes are zero in the gaps of each completed message (`DiagReassembler.RunsAgreeIff`). A final
  segment without data completes a message for the tool and not for the driver (`DiagReassembler.EmptyFinalShows`).

## Model

| member | source | states |
|---|---|---|
| `Crc64.Update` | src/afi920_driver/src/e2e.cpp:43-58 | The nested byte and bit loops leave the register that absorbing the bytes one after another gives |
| `Crc64.AbsorbComposes` | src/afi920_driver/src/e2e.cpp:43-58 | Updating with two strings in turn is updating with their concatenation |
| `Crc64.AbsorbIsFeed` | src/afi920_driver/src/e2e.cpp:51-57 | The byte loop is a 64-bit shift register fed the message bits, least significant bit of each byte first |
| `Gf2.FeedIsRemainder` | src/afi920_driver/src/e2e.cpp:51-57 | A shift register's state is the long-division remainder of message times x^64 plus start value times x^n |
| `Gf2.DivisionExact` | src/afi920_driver/src/e2e.cpp:51-57 | Quotient and remainder of the long division reconstruct the dividend over GF(2) |
| `Gf2.DivisionUnique` | src/afi920_driver/src/e2e.cpp:51-57 | No other quotient and remainder do |
| `Polynomial.GeneratorIsEcma182` | src/afi920_driver/src/e2e.cpp:45 | The reflected constant of the loop is the polynomial 42F0E1EBA9EA3693 of ECMA-182, coefficient for coefficient |
| `Crc64.ConstantTerm` | src/afi920_driver/src/e2e.cpp:45 | The polynomial has a constant term, so a bit step can be undone |
| `Crc64.CrcIsRemainder` | src/afi920_driver/src/e2e.cpp:60-63 | The checksum is the complement of the remainder of the initialised message polynomial, and the only string that is |
| `Crc64.MessageBit` | src/afi920_driver/src/e2e.cpp:51-57 | Bit 8 k + j of a message is bit j of byte k |
| `Crc64.PolynomialBit` | src/afi920_driver/src/e2e.cpp:60-63 | The polynomial divided is the message's bits with 64 zeros behind, the first 64 of all these inverted |
| `Crc64.CrcBit` | src/afi920_driver/src/e2e.cpp:60-63 | Each checksum bit is the inverse of a bit of the remainder, the highest power in the lowest bit |
| `Crc64.BurstDetected` | src/afi920_driver/src/e2e.cpp:43-63 | Two messages of equal length that differ, and only inside 64 consecutive bits at any alignment, have different checksums |
| `Crc64.ByteBurstDetected` | src/afi920_driver/src/e2e.cpp:43-63 | The same for any window of 8 consecutive bytes |
| `Crc64.UnseenIffMultiple` | src/afi920_driver/src/e2e.cpp:43-63 | Exactly which changes go unseen: those whose difference polynomial times x^64 is a multiple of the generator |
| `Crc64.AbsorbLinear` | src/afi920_driver/src/e2e.cpp:43-58 | The register is linear over xor in start value and data together |
| `E2e.Validate` | src/afi920_driver/src/e2e.cpp:65-73 | Too short, checksum mismatch or ok, with the header read in every case but the first; the checksum covers all bytes from offset 8 |
| `E2e.Consume` | src/afi920_driver/src/afi920_node.cpp:288-350 | Dropped when too short, on a checksum mismatch if validating and strict at the first reading, or on a length or data id mismatch if strict at the second; otherwise the bytes behind the header |
| `E2e.HeaderLayout` | src/afi920_driver/src/e2e.cpp:30-41 | Checksum, length, counter and data id are the big-endian numbers of bytes 0-7, 8-11, 12-15 and 16-19 |
| `E2e.AcceptedExactly` | src/afi920_driver/src/afi920_node.cpp:288-350 | For every payload and all flags, off its bytes: accepted exactly when it has 20 bytes, the checksum matches if validating and strict, and length and data id match if strict at the second reading; then with the bytes from 20 on |
| `E2e.LenientAccepts` | src/afi920_driver/src/afi920_node.cpp:330-349 | With both strict readings off every payload of 20 bytes or more is accepted, validating or not |
| `E2e.UnvalidatedIgnoresChecksum` | src/afi920_driver/src/afi920_node.cpp:299-308 | Without validation payloads that differ in the checksum field only are both accepted or both dropped |
| `E2e.ReadingsInBetween` | src/afi920_driver/src/afi920_node.cpp:335-342 | A change of the strict flag between its two readings gives the verdict of before or of after, never a third |
| `E2e.ProtectAccepted` | src/afi920_driver/include/afi920_driver/someip/e2e.hpp:16-28 | A payload protected by a sender validates and yields the ISO payload that went in, under all flags |
| `E2e.StrictIsARestriction` | src/afi920_driver/src/afi920_node.cpp:330-342 | With all flags on, accepted exactly when checksum, length and data id match; stricter flags change no accepted payload |
| `E2e.CoveredBurstCaught` | src/afi920_driver/src/e2e.cpp:65-73 | Altering an accepted payload within 64 consecutive covered bits is reported as a checksum mismatch |
| `E2e.ChecksumFieldCaught` | src/afi920_driver/src/e2e.cpp:65-73 | So is altering only the checksum field |
| `E2e.AlteredValidIffMultiple` | src/afi920_driver/src/e2e.cpp:65-73 | Exactly which alterations of an accepted payload, anywhere in it, still validate: those that add a multiple of the generator to its codeword |
| `E2e.OddChangeCaught` | src/afi920_driver/src/e2e.cpp:65-73 | Altering an odd number of bits of an accepted payload, in field and covered bytes alike, is reported as a checksum mismatch |
| `Crc64.Be64Bits` | src/afi920_driver/src/e2e.cpp:8-18 | The 64-bit field is read big-endian: its bits in the register are those of its bytes from the last to the first |
| `Bytes.Be64IsNumber` | src/afi920_driver/src/e2e.cpp:8-18 | A 64-bit big-endian reading is the number its bytes write to base 256, the most significant first |
| `Bytes.Be32IsNumber` | src/afi920_driver/include/afi920_driver/parsers/endian_util.hpp:23-28 | So is a 32-bit one |
| `Bytes.Le16IsNumber` | src/afi920_driver/include/afi920_driver/parsers/endian_util.hpp:32-34 | A 16-bit little-endian reading is the number its bytes write, the least significant first |
| `Bytes.Le32IsNumber` | src/afi920_driver/include/afi920_driver/parsers/endian_util.hpp:36-41 | So is a 32-bit one |
| `Bytes.Le64IsNumber` | src/afi920_driver/include/afi920_driver/parsers/endian_util.hpp:43-52 | So is a 64-bit one |
| `Bytes.Be64RoundTrip` | src/afi920_driver/src/e2e.cpp:8-18 | A 64-bit value packed big-endian anywhere in a buffer is read back |
| `Bytes.Be32RoundTrip` | src/afi920_driver/include/afi920_driver/parsers/endian_util.hpp:23-28 | A 32-bit value packed big-endian anywhere in a buffer is read back |
| `Bytes.Le16RoundTrip` | src/afi920_driver/include/afi920_driver/parsers/endian_util.hpp:32-34 | A 16-bit value packed little-endian anywhere in a buffer is read back |
| `Bytes.Le32RoundTrip` | src/afi920_driver/include/afi920_driver/parsers/endian_util.hpp:36-41 | A 32-bit value packed little-endian anywhere in a buffer is read back |
| `Bytes.Le64RoundTrip` | src/afi920_driver/include/afi920_driver/parsers/endian_util.hpp:43-52 | A 64-bit value packed little-endian anywhere in a buffer is read back |
| `Someip.HeaderRoundTrip` | src/afi920_driver/src/someip_parser.cpp:10-28 | Every header field comes back from its own bytes, whatever follows the header |
| `Someip.TpHeaderRoundTrip` | src/afi920_driver/src/someip_parser.cpp:32-36 | Any 16-byte-aligned 32-bit offset and the more flag come back |
| `Someip.HeaderLayout` | src/afi920_driver/src/someip_parser.cpp:10-28 | Where every header field lies, as a number; 16 bytes are enough |
| `Someip.TpHeaderLayout` | src/afi920_driver/src/someip_parser.cpp:32-36 | The offset is the TP word less its lowest four bits, and the lowest of those the more flag |
| `Someip.ValidExactly` | src/afi920_driver/src/someip_parser.cpp:40-50 | Valid is service 0x6000 with type 2 below the upper three bits; the lowest of those is the TP flag |
| `Reassembler.SomeipTpReassembler.Feed` | src/afi920_driver/src/someip_parser.cpp:55-94 | The whole new state and the verdict: complete exactly for a non-empty final segment |
| `Reassembler.JoinsOrBegins` | src/afi920_driver/src/someip_parser.cpp:60-91 | A segment joins the message in progress exactly when the session matches and it began at most 100 ms ago, else begins one; a final segment ends it either way |
| `Overlay.BufferIsOverlay` | src/afi920_driver/src/someip_parser.cpp:77-82 | After any history each buffer byte is that of the most recent segment covering it, or 0 if none ever did |
| `Overlay.CompletionExposes` | src/afi920_driver/src/someip_parser.cpp:84-91 | A completing feed exposes exactly the bytes up to its own end, each from its last writer |
| `Overlay.SessionsAndClockAreInert` | src/afi920_driver/src/someip_parser.cpp:60-75 | Session ids, timeouts, clock readings and resets never change what is delivered |
| `Overlay.DeliversPayload` | src/afi920_driver/src/someip_parser.cpp:77-91 | Feeding a message's segments delivers, at the last, what they write over the buffer up to its end |
| `Overlay.IndependentIffCovered` | src/afi920_driver/src/someip_parser.cpp:77-91 | What a message's last segment delivers is independent of the earlier buffer exactly when its segments cover it |
| `Overlay.DeliveredBytes` | src/afi920_driver/src/someip_parser.cpp:77-91 | Byte by byte what is delivered: in a gap the leftover byte of the earlier buffer, or 0 beyond it |
| `Overlay.InOrderCompletes` | src/afi920_driver/src/someip_parser.cpp:77-91 | A message fed in consecutive parts of any sizes completes at the last one only, with exactly its bytes |
| `DiagReassembler.TpReasm.Feed` | tools/rdi_diag.py:70-85 | The whole new value, the payload if final, and the segment count of the message |
| `DiagReassembler.FeedExactly` | tools/rdi_diag.py:70-85 | Byte by byte what one feed keeps or gives, and that a segment of another session is fed as to a new tool |
| `DiagReassembler.CountIsOfMessage` | tools/rdi_diag.py:79-85 | The count is the number of segments of the message so far |
| `DiagReassembler.DriverRefinesTool` | tools/rdi_diag.py:64-90 | On every sequence whose final segments have data and complete covered messages, driver and tool complete at the same feeds with the same payloads |
| `DiagReassembler.RunsAgree` | src/afi920_driver/src/someip_parser.cpp:55-94 | The same from any driver state, under any clock and resets |
| `DiagReassembler.RunsAgreeIff` | tools/rdi_diag.py:64-90 | On every run whatever, from any driver state, both deliver the same at every feed exactly when final segments have data and the driver's leftover bytes are zero in the gaps of each completed message |
| `DiagReassembler.EmptyFinalShows` | tools/rdi_diag.py:81-85 | A final segment without data, for which the tool delivers an empty payload and the driver nothing |
| `DiagReassembler.GapsAgreeIffZero` | tools/rdi_diag.py:76-78 | On a run that feeds one message with gaps, from any driver state, clock and resets, both deliver the same exactly when the driver's leftover bytes in the gaps are zero |
| `DiagReassembler.StaleByteShows` | src/afi920_driver/src/someip_parser.cpp:77-91 | A run of three feeds, from new, in which the driver delivers a byte of the older message where the tool delivers 0 |
| `Framing.FramesOfFlat` | src/afi920_driver/src/tcp_stream_client.cpp:148-177 | Well-formed frames laid end to end are split back into themselves, then whatever the rest yields |
| `Framing.FramesAreSlices` | src/afi920_driver/src/tcp_stream_client.cpp:148-177 | The split yields well-formed consecutive slices, and what is left holds no further frame |
| `Framing.NextExactly` | src/afi920_driver/src/tcp_stream_client.cpp:148-177 | A frame is 8 bytes and as many as the big-endian number in bytes 4-7 says, if whole and within the buffer |
| `Framing.ToolNextExactly` | tools/rdi_diag.py:292-300 | The same for the tool, which needs 16 bytes to look and has no buffer limit |
| `Framing.RunTool` | tools/rdi_diag.py:279-300 | The accumulate-and-slice loop cuts the same packets for any chunking of the stream |
| `Framing.ToolAgrees` | tools/rdi_diag.py:292-300 | On streams whose frames have Length at least 8 and fit the buffer, tool and driver extract the same messages |
| `Framing.ToolCutsAll` | tools/rdi_diag.py:292-300 | On every stream the tool cuts the client's frames, all but a short last one, and goes on behind the frame the client stops at |
| `Framing.FramersAgreeExactly` | tools/rdi_diag.py:292-300 | Tool and client extract the same messages exactly when the stream has no short tail and the client does not stop at an oversize frame |
| `Framing.ToolMissesOnlyShortTail` | tools/rdi_diag.py:292-300 | Where every frame fits the buffer, exactly when it has no short tail; what the tool has not cut it still holds |
| `Framing.ShortTailShows` | tools/rdi_diag.py:292-300 | A stream whose only frame the client returns and the tool does not |
| `Framing.OversizeShows` | src/afi920_driver/src/tcp_stream_client.cpp:161-166 | A stream whose only frame the tool returns and the client, with a smaller buffer, does not |
| `TcpStream.TcpStreamClient.Connect` | src/afi920_driver/src/tcp_stream_client.cpp:46-141 | State effects of success and failure; success restores the minimum delay |
| `TcpStream.TcpStreamClient.TryReconnect` | src/afi920_driver/src/tcp_stream_client.cpp:271-298 | Sleeps the current delay once, connects, and doubles the delay up to the cap on failure; nothing at all once closed |
| `TcpStream.TcpStreamClient.RecvExact` | src/afi920_driver/src/tcp_stream_client.cpp:201-224 | Succeeds exactly when the connection still has n bytes, and then reads exactly those, through any cuts and EINTR |
| `TcpStream.TcpStreamClient.Receive` | src/afi920_driver/src/tcp_stream_client.cpp:143-178 | The next frame of the stream in the buffer, or a drop on an oversize or cut-off frame, or a reconnect |
| `TcpStream.TcpStreamClient.Close` | src/afi920_driver/src/tcp_stream_client.cpp:180-195 | No longer open nor running; the network is untouched |
| `TcpStream.ReceiveExactly` | src/afi920_driver/src/tcp_stream_client.cpp:143-178 | One Receive, case by case: frame, drop, reconnect with the delay at 1000, failed attempt with the delay doubled up to 30000, or nothing once closed |
| `TcpStream.ConnectExactly` | src/afi920_driver/src/tcp_stream_client.cpp:46-141 | One Connect, case by case; a refusal leaves the delay alone |
| `TcpRuns.NothingLostOrInvented` | src/afi920_driver/src/tcp_stream_client.cpp:143-178 | After any number of calls, messages returned plus messages owed is what was owed at the start |
| `TcpRuns.EnoughCallsDeliver` | src/afi920_driver/src/tcp_stream_client.cpp:143-178 | Enough calls return every frame of every connection, in order |
| `TcpRuns.CutsDoNotMatter` | src/afi920_driver/src/tcp_stream_client.cpp:201-224 | Any cutting into recv results with any EINTRs presents the same stream |
| `TcpRuns.FramesArrive` | src/afi920_driver/src/tcp_stream_client.cpp:143-178 | A connection carrying whole frames yields exactly those frames |
| `TcpRuns.DelayIsBackoff` | src/afi920_driver/src/tcp_stream_client.cpp:271-298 | At every point of every run of Connect, Receive and Close calls the delay is min(1000 * 2^k, 30000) for k failed reconnects since an attempt succeeded, within [1000, 30000] |
| `TcpRuns.ClosedStaysClosed` | src/afi920_driver/src/tcp_stream_client.cpp:180-195 | Once closed no run of Receive and Close calls reconnects, returns a message or changes anything |
| `TcpRuns.ClosedNeverReconnects` | src/afi920_driver/src/tcp_stream_client.cpp:271-272 | Once closed a run of any calls makes one connection attempt for each Connect call and no other |
| `CommonHeader.CommonRoundTrip` | src/afi920_driver/src/rdi_parser.cpp:23-34 | The 24-byte common header comes back field by field |
| `CommonHeader.CommonLayout` | src/afi920_driver/src/rdi_parser.cpp:23-34 | Where every field of the common header lies, as a number |
| `Rdi.Parse` | src/afi920_driver/src/rdi_parser.cpp:14-74 | Both clamps, the resize and the loop together yield min(declared, 4096, whole records present) detections, record i as entry i |
| `Rdi.RecordRoundTrip` | src/afi920_driver/src/rdi_parser.cpp:76-104 | A written detection record is read back field by field |
| `Rdi.RecordLayout` | src/afi920_driver/src/rdi_parser.cpp:76-104 | Where every field of a 51-byte record lies, as a number |
| `Rdi.ParsedExactly` | src/afi920_driver/src/rdi_parser.cpp:14-65 | For every payload, off its bytes: nothing below 36 bytes, else every header field and min(declared, 4096, whole records present) detections |
| `Rdi.DetectionsExactly` | src/afi920_driver/src/rdi_parser.cpp:65-69 | Detection i is read from the 51 bytes at 36 + 51 i |
| `Rdi.LegacyIsZero` | src/afi920_driver/src/rdi_parser.cpp:42-51 | Ambiguity domains and detection members that the wire no longer carries are zero |
| `Rdi.ParseOfEncode` | src/afi920_driver/src/rdi_parser.cpp:14-104 | Parsing what a sender wrote, for any declared count and a broken record behind, gives those detections and zeroed legacy fields |
| `Rdi.PrefixLosesOnlyTail` | src/afi920_driver/src/rdi_parser.cpp:54-63 | Parsing a shortened payload yields a prefix of the detections and the same header |
| `Shii.Parse` | src/afi920_driver/src/shi_parser.cpp:14-90 | The capped message of the decoded payload, or failure exactly when it does not decode |
| `Shii.DecodedExactly` | src/afi920_driver/src/shi_parser.cpp:14-90 | A payload decodes to a message exactly when every array of it lies, with its count, where the counts before put it |
| `Shii.MessageExactly` | src/afi920_driver/src/shi_parser.cpp:38-87 | What is kept of each array: its first 11, 4 or 3 bytes, their count and zeros |
| `Shii.DecodesEncoded` | src/afi920_driver/src/shi_parser.cpp:14-90 | Whatever a sender writes is decoded in full, unchanged by trailing bytes |
| `Shii.AcceptsOnlyEncoded` | src/afi920_driver/src/shi_parser.cpp:38-87 | A payload that decodes is what a sender of that message writes, and more behind |
| `Shii.ParsesExactlyEncoded` | src/afi920_driver/src/shi_parser.cpp:14-90 | Parsing succeeds exactly when some sender's message is a prefix, and that message is unique |
| `Shii.ParallelSlots` | src/afi920_driver/src/shi_parser.cpp:61-69 | Parallel arrays are cut to one shared count and stay aligned, zero beyond it |
| `Spi.Parse` | src/afi920_driver/src/spi_parser.cpp:16-120 | The capped message of the decoded payload, or failure exactly when it does not decode |
| `Spi.DecodedExactly` | src/afi920_driver/src/spi_parser.cpp:62-117 | A payload decodes to a message exactly when each section of it, of 17, 9 and 16 byte records, lies where the counts before put it |
| `Spi.PoseLayout` | src/afi920_driver/src/spi_parser.cpp:47-60 | Where every member of the pose lies, as a number |
| `Spi.FovLayout` | src/afi920_driver/src/spi_parser.cpp:70-79 | Where every member of a field-of-view segment lies |
| `Spi.ObjectLayout` | src/afi920_driver/src/spi_parser.cpp:90-97 | Where every member of an object type lies |
| `Spi.TargetLayout` | src/afi920_driver/src/spi_parser.cpp:108-116 | Where every member of a reference target lies |
| `Spi.DecodesEncoded` | src/afi920_driver/src/spi_parser.cpp:62-117 | Any counts up to 255 decode in full, and a section behind a capped one is still read correctly |
| `Spi.ParsesExactlyEncoded` | src/afi920_driver/src/spi_parser.cpp:16-120 | Parsing succeeds exactly for 57 fixed bytes followed by whole sections, ending at a boundary or after the third |
| `Spi.CappedRoundTrip` | src/afi920_driver/src/spi_parser.cpp:62-117 | Each section arrives as its own first 16 entries with zeros behind |
| `PointCloud.PointCloudBuilder.CountPassing` | src/afi920_driver/src/pointcloud_builder.cpp:105-109 | The first pass counts exactly the detections that pass; which they are is RejectedExactly |
| `PointCloud.PointCloudBuilder.FillPoints` | src/afi920_driver/src/pointcloud_builder.cpp:140-186 | The second pass stays inside the cloud, ends exactly at its end and fills it with the kept detections in order |
| `PointCloud.PointCloudBuilder.Build` | src/afi920_driver/src/pointcloud_builder.cpp:84-189 | The cloud is the kept detections of the frame, in order, under the configured frame id; member by member it is OutputsExactly |
| `PointCloud.PointCloudBuilder.BuildDetectionArray` | src/afi920_driver/src/pointcloud_builder.cpp:193-296 | The array is the kept detections of the frame, in order; member by member it is OutputsExactly |
| `PointCloud.RejectedExactly` | src/afi920_driver/src/pointcloud_builder.cpp:73-80 | Each detection by itself is dropped exactly by these four comparisons, for all bounds and readings, NaN and infinities included |
| `PointCloud.KeptExactly` | src/afi920_driver/src/pointcloud_builder.cpp:73-80 | On numbers, exactly the detections with range, signal-to-noise ratio and existence probability within their bounds are kept |
| `PointCloud.RangeOutside` | src/afi920_driver/src/pointcloud_builder.cpp:75-76 | A range outside [min_range, max_range] alone drops a detection |
| `PointCloud.SnrBelow` | src/afi920_driver/src/pointcloud_builder.cpp:77 | A signal-to-noise ratio below its bound alone drops a detection |
| `PointCloud.ExistenceBelow` | src/afi920_driver/src/pointcloud_builder.cpp:78 | An existence probability below its bound alone drops a detection |
| `PointCloud.OutputsExactly` | src/afi920_driver/src/pointcloud_builder.cpp:84-296 | Both outputs element by element: of the detections below both count and storage size, in order, those kept by themselves, each placed from its range, azimuth and elevation, under the configured frame id and with the header of the frame |
| `PointCloud.PointMembers` | src/afi920_driver/src/pointcloud_builder.cpp:140-181 | Where each member of a point comes from |
| `PointCloud.CloudMatchesArray` | src/afi920_driver/src/pointcloud_builder.cpp:84-296 | Cloud point i and array entry i report the same detection, member by member |
| `PointCloud.KeptIsFiltered` | src/afi920_driver/src/pointcloud_builder.cpp:140-142 | The kept detections are a subsequence of the frame and all pass |
| `PointCloud.KeptIsLargest` | src/afi920_driver/src/pointcloud_builder.cpp:140-142 | Every passing subsequence of the frame is a subsequence of them |
| `PointCloud.TighteningGivesSubsequence` | src/afi920_driver/src/pointcloud_builder.cpp:73-80 | Tightening any bound yields a subsequence of the earlier output |
| `Floats.PatternsOrderValues` | src/afi920_driver/include/afi920_driver/parsers/endian_util.hpp:54-59 | Bit patterns of non-negative finite floats order like the numbers they are read as |
| `Floats.Binary32` | src/afi920_driver/include/afi920_driver/parsers/endian_util.hpp:54-59 | The value of a pattern is that of binary32 in IEEE 754, section 3.4: sign, exponent biased by 127, fraction, subnormals, infinities, NaN |
| `Floats.LessExactly` | src/afi920_driver/src/pointcloud_builder.cpp:75-78 | Less orders numbers between the infinities and decides nothing about NaN |
| `LossCounter.LossConserved` | src/afi920_driver/src/afi920_node.cpp:352-371 | total + lost is last - first + 1 modulo 2^32 through wrap-around, duplicates and reordering; lost is exactly that minus the deliveries |
| `LossCounter.OrderBlind` | src/afi920_driver/src/afi920_node.cpp:352-371 | The order of deliveries between the first and the last does not change the statistics |
| `LossCounter.LostIsMissingLessDisorder` | src/afi920_driver/src/afi920_node.cpp:352-371 | On every run lost is the number of counters missing, less how late the last delivery is, how early the first was and the repeats, modulo 2^32 |
| `LossCounter.LossExactIff` | src/afi920_driver/src/afi920_node.cpp:352-371 | On every run lost is the number missing exactly when that number fits and the disorder is a multiple of 2^32 |
| `LossCounter.LossExactIffInPlace` | src/afi920_driver/src/afi920_node.cpp:352-371 | On runs too short to wrap, in any order, exactly when no counter repeats, the first is the least and the last the greatest |
| `LossCounter.LossExactIffNoRepeats` | src/afi920_driver/src/afi920_node.cpp:352-371 | Where the first counter is the least and the last the greatest, for spans below 2^32, exactly when no counter repeats |
| `LossCounter.AdvancingLossIsExact` | src/afi920_driver/src/afi920_node.cpp:352-371 | While counters advance and span less than 2^32, lost is the number of counters missing |
| `LossCounter.DuplicateUncounts` | src/afi920_driver/src/afi920_node.cpp:356-360 | A duplicate of the last delivery takes one off lost, or wraps it below zero |
| `LossCounter.DuplicateShows` | src/afi920_driver/src/afi920_node.cpp:356-360 | A packet delivered twice, nothing missing, and 2^32 - 1 reported lost |
| `LossCounter.LatePacketShows` | src/afi920_driver/src/afi920_node.cpp:356-360 | The last packet late, nothing missing and nothing repeated, and 2^32 - 1 reported lost |
| `RdiNode.Afi920Node.DeliverRdiFrame` | src/afi920_driver/src/afi920_node.cpp:352-374 | Statistics advance by this counter, and one log entry is added: this frame, its cloud under the builder's configuration, and its array exactly when detections are to be published |
| `RdiNode.Afi920Node.OnRdiFrame` | src/afi920_driver/src/afi920_node.cpp:541-560 | One new log entry: the frame, its cloud, and its array exactly when detections are to be published |
| `RdiNode.ShownIsAdded` | src/afi920_driver/src/afi920_node.cpp:541-560 | What frames add to the log: one entry each, in order, with the cloud and, exactly when wanted, an array that matches it member by member |
| `RdiNode.Afi920Node.ProcessRdiDatagram` | src/afi920_driver/src/afi920_node.cpp:376-490 | The whole step from datagram to state and published frame; the reassembler is settled again afterwards |
| `RdiNode.KindByBytes` | src/afi920_driver/src/afi920_node.cpp:376-423 | What a datagram is, off its bytes: dropped for its size, service, event or type, or a whole payload, or a segment with its offset, more flag, session and data |
| `RdiNode.OthersIgnored` | src/afi920_driver/src/afi920_node.cpp:394-403 | A datagram of any other service, event or message type changes nothing and yields nothing |
| `RdiNode.ShortIgnored` | src/afi920_driver/src/afi920_node.cpp:381-420 | Nor does one too short for its headers |
| `RdiNode.FrameExactly` | src/afi920_driver/src/afi920_node.cpp:440-480 | Which payloads yield a frame, off their bytes and flags, and that it is what the bytes from 20 on parse to |
| `RdiNode.NumberedExactly` | src/afi920_driver/src/afi920_node.cpp:467-480 | The frame number counts what passes E2E, the statistics what parses |
| `RdiNode.StepSettles` | src/afi920_driver/src/afi920_node.cpp:376-490 | Sizes are 0 and an idle reassembler has session 0 between datagrams; what is no TP segment leaves it untouched |
| `RdiRuns.RunsSettle` | src/afi920_driver/src/afi920_node.cpp:376-490 | The same over every run, with a buffer that never shrinks and spans every segment fed |
| `RdiRuns.BufferAfterRun` | src/afi920_driver/src/afi920_node.cpp:418-454 | Over any run the buffer is its old content overlaid with every segment fed |
| `RdiRuns.TransportTransparent` | src/afi920_driver/src/afi920_node.cpp:376-490 | A covered payload in segments of any order, overlap, session and timing, among other datagrams and under changing flags, is delivered like one non-TP datagram |
| `RdiRuns.OutputsAreOfPayloads` | src/afi920_driver/src/afi920_node.cpp:376-490 | Over any run each datagram delivers what the payload it completes yields under the flags then: its own bytes, or the reassembled ones, whatever clocks and counters |
| `RdiRuns.ShownAreOfPayloads` | src/afi920_driver/src/afi920_node.cpp:376-490 | Where the payloads completed over a run yield their frames under any flags, the frames shown are exactly those, in order |
| `RdiRuns.SegmentedIsWhole` | src/afi920_driver/src/afi920_node.cpp:376-490 | A message cut into segments at any multiples of 16 bytes delivers nothing before the last of them and there what its payload yields |
| `RdiRuns.SegmentedFrameDelivered` | src/afi920_driver/src/afi920_node.cpp:376-490 | A protected frame sent in segments is delivered once, as it was written |
| `RdiRuns.StrictRunIsRestriction` | src/afi920_driver/src/afi920_node.cpp:330-342 | On every run, with flags that change from datagram to datagram and between readings, stricter ones deliver, datagram by datagram, nothing or the same, and the reassembler evolves identically |
| `RdiRuns.StrictFramesAreGenuine` | src/afi920_driver/src/afi920_node.cpp:299-342 | In any run a datagram processed with all flags on delivers a frame only if the payload it completes has matching checksum, length and data id, and then exactly the frame that payload parses to |
| `RdiRuns.ClockIsInert` | src/afi920_driver/src/someip_parser.cpp:65-75 | Clock readings decide no frame, number or statistic |
| `RdiRuns.StatsAreOfDelivered` | src/afi920_driver/src/afi920_node.cpp:472-480 | The statistics are those of the counters of exactly the frames delivered |
| `RdiRuns.StepNumbers` | src/afi920_driver/src/afi920_node.cpp:467-471 | At any datagram the frame number goes up by one exactly if a payload gets through E2E |
| `SideStreams.ProcessShiDatagram` | src/afi920_driver/src/afi920_node.cpp:492-509 | Header, event, E2E and parse checks in turn, then the message |
| `SideStreams.ProcessSpiDatagram` | src/afi920_driver/src/afi920_node.cpp:511-529 | Header, event, E2E and parse checks in turn, then the message |
| `SideStreams.PayloadExactly` | src/afi920_driver/src/afi920_node.cpp:492-529 | Exactly a notification of service 0x6000 and the wanted event has a payload, the bytes from 16 on |
| `SideStreams.ShiExactly` | src/afi920_driver/src/afi920_node.cpp:492-509 | Which datagrams deliver which SHII message: service, event 0x8003, type, E2E with data id 0x60008003 and format in one condition |
| `SideStreams.SpiExactly` | src/afi920_driver/src/afi920_node.cpp:511-529 | The same for SPI, with event 0x8004 and data id 0x60008004 |
| `SideStreams.ShiEndToEnd` | src/afi920_driver/src/afi920_node.cpp:492-509 | A protected SHII message in a notification is delivered with its arrays capped |
| `SideStreams.SpiEndToEnd` | src/afi920_driver/src/afi920_node.cpp:511-529 | A protected SPI message in a notification is delivered with its sections capped |
| `ConfigLock.Collect` | src/afi920_driver/src/afi920_node.cpp:783-810 | The collected values are the old ones with the changes of the callback applied in turn (AppliedStep, LastWins); the flag tells whether any is a filter or frame id |
| `ConfigLock.AppliedStep` | src/afi920_driver/src/afi920_node.cpp:788-803 | One more change sets its own parameter to its value and leaves the four others alone |
| `ConfigLock.LastWins` | src/afi920_driver/src/afi920_node.cpp:788-803 | Each parameter ends with the value of the last change that names it, whatever came before |
| `ConfigLock.UnnamedStays` | src/afi920_driver/src/afi920_node.cpp:788-803 | And keeps its value if no change names it |
| `ConfigLock.TouchesExactly` | src/afi920_driver/src/afi920_node.cpp:788-810 | It counts as a change as soon as one of the five parameters is named |
| `ConfigLock.ChangeParameters` | src/afi920_driver/src/afi920_node.cpp:783-828 | A callback leaves the fields of the node and the configuration of the builder equal, each parameter at the last value given for it (LastWins) |
| `ConfigLock.StepKeeps` | src/afi920_driver/src/afi920_node.cpp:546-552 | Every step of either thread keeps the lock discipline and what each thread has built or half written |
| `ConfigLock.EveryInterleaving` | src/afi920_driver/src/afi920_node.cpp:812-828 | Over every interleaving each frame's cloud and array come from the one configuration installed last before the frame took the lock, never going back; no update is lost; the builder has the node's fields when the lock is free |
| `ConfigLock.UpdatesTakeEffect` | src/afi920_driver/src/afi920_node.cpp:541-552 | At any moment, frames published so far show only updates installed so far and stay as they are, and every frame that takes the lock later shows all of them |
| `ConfigLock.CallbackInstalls` | src/afi920_driver/src/afi920_node.cpp:810-828 | A callback that finds the lock free installs its changes in the fields and the builder and frees the lock |
| `ConfigLock.FramePublishes` | src/afi920_driver/src/afi920_node.cpp:541-560 | A frame that finds the lock free is published with cloud and array of the builder's configuration |
| `ConfigLock.HolderFinishes` | src/afi920_driver/src/afi920_node.cpp:541-552 | From any state of any run the lock can be given back: its holder waits for nobody |
| `Pipeline.RdiThread` | src/afi920_driver/src/afi920_node.cpp:231-252 | The thread processes exactly the messages the client returns, in order; behind the old log it adds one entry for each frame they yield: its cloud and, exactly when detections are to be published, a matching array |
| `Pipeline.RoundExactly` | src/afi920_driver/src/afi920_node.cpp:236-250 | One round: a whole frame at the head of an open connection is processed under the flags and clock read for it; without one the node does nothing |
| `Pipeline.StreamsDecide` | src/afi920_driver/src/afi920_node.cpp:231-252 | Under the same flags what is shown and counted depends on the frames owed alone, not on cuts, retries, refusals or the clock |
| `Pipeline.CutsAndRefusalsDoNotMatter` | src/afi920_driver/src/tcp_stream_client.cpp:143-298 | Clients on networks with the same streams, refused attempts aside, publish the same frames |
| `Pipeline.SendingsShown` | src/afi920_driver/src/afi920_node.cpp:231-252 | Links that owe the datagrams of any list of protected frames, each whole or in segments, show exactly those frames, in order |
| `Pipeline.FramesPublished` | src/afi920_driver/src/afi920_node.cpp:231-252 | A TCP connection carrying such a list through any cuts and interruptions, under any flags, shows exactly its frames, in order |
| `Pipeline.SentAt` | src/afi920_driver/src/afi920_node.cpp:231-252 | Entry i of the frames sent is the head and records of sending i |
| `Pipeline.SensorToPublication` | src/afi920_driver/src/afi920_node.cpp:231-252 | From sensor to publication: behind the old log the thread adds, for each frame sent, in order, that frame, its cloud and, exactly when detections are to be published, an array that matches it member by member |

## Left out

- TcpStream.TcpStreamClient.Receive: the narrowing of the returned size to int is not modelled; it matters only for buffers of 2 GiB and more.
- RdiNode.Afi920Node.ProcessRdiDatagram: the receive timestamp of a frame and the diagnostic counter and log lines are not modelled.
- PointCloud.PointCloudBuilder.Build: Cartesian coordinates are an arbitrary function of range, azimuth and elevation; IEEE rounding and trigonometry are not modelled, nor is the message stamp.
- ConfigLock.EveryInterleaving: the marker's unlocked read of frame_id after publishing and the SHII and SPI threads' locked reads of it are not modelled.
- Null pointer arguments: a sequence is never null.
- Real sockets, select, setsockopt, Windows branches and the UDP receiver: the network is a script of recv and connect outcomes, and a script that has run out means end of file or refusal.
- Races between Close and a Receive or Connect in flight: the client is modelled sequentially.
- Memory exhaustion by large TP offsets and allocator behaviour.
- The frame limit of the diagnostic tool, its filtering by service and event, and everything it prints.
- The configuration client, publishers, quality of service, markers, TF broadcast, launch files and parameter declaration.
- Counter-gap checks of the SHII and SPI streams, which only log.
- The message mapping of SHII and SPI into ROS messages.
