# Verification model of the AFI920 radar SDK

A Dafny model of the protocol stack of the AFI920 SDK and proofs about it. The
SDK receives radar detections over SOME/IP, talks to the radar's Config API, and
updates its firmware; it exists twice, in C++ (`src/`) and in Python
(`python/src/afi_sdk/`). `dafny verify dfyconfig.toml` checks the project.

Code that updates state in place is a class or a method with loops, proved
against a specification on values; what the source promises is proved about that
specification. Where a specification names a rule (a limit, an error code, a byte
order, a field offset), a lemma or the method's own contract also states it
written out, in numbers and bytes. The two implementations are modelled separately and proved to
agree, or the exact inputs on which they differ are given.

## The parts

* **SOME/IP-TP reassembly** (`SomeipTp`, `Ranges`, `Someip`, `TpRoundTrip`,
  `SomeipTpPython`). The specification is a *log*: the segments used since the
  last reset. The C++ class keeps a byte buffer that no reset clears and a merged
  interval list, and does what the log says on every call. Because the log only
  ever holds segments fed since the reset, no byte left in the buffer from before
  it is delivered. The Python class keeps one log per session.
* **E2E protection** (`Crc`, `Bits`, `E2e`). CRC-64/XZ and CRC-32 are defined
  one bit at a time; the table and nibble forms are proved equal to that, and the
  burst detection strength follows from linearity and injectivity of one step.
* **Receive path** (`RdiSender`, `RdiReceiver`, `RdiLoss`, `RdiEndToEnd`,
  `RdiFrames`, `StreamFraming`). The UDP sender, the datagram pipeline, slot-loss
  accounting over 32-bit wraparound, what each callback is handed by the bytes of
  the frame, and TCP framing.
* **Parsers** (`Records`, `IsoHeader`, `Shii`, `Spi`, `Rdi`, `Layouts`). A
  count-driven serialiser for each payload, and the C++ and Python parsers proved
  to accept exactly its outputs; `Layouts` says which byte strings those are and
  at which offset each field stands. 32- and 64-bit fields are raw words.
* **Config API client** (`ConfigLink`, `ConfigExchange`, `ConfigClient`,
  `ConfigClientPython`). `ConfigLink` is the environment: a FIFO connection to a
  sensor that answers each request at most once and in order, late, cut short or
  not at all, with one frame no longer than it declares. An *obliging* connection
  answers each request in time, whole and matching; on one the clients succeed.
* **Firmware update** (`Radar`, `UpdateLog`, `FirmwareUpdate`, `UpdateWitness`). `Radar` is the
  environment, the scripted radar of `test/test_python_firmware.py` with every
  scripted number turned into a free choice. `UpdateLog` says what a run must and
  must not do; `FirmwareUpdate` is the sequence itself; `UpdateWitness` holds two
  concrete runs.

## What the proofs found

* A frame built by `e2e_write_header` is rejected with CRC checking on exactly
  when the CRC-32 of its body is zero, because a zero CRC field is never a pass.
  The empty body is such a body (`E2e.BuiltFrameVerdict`, `E2e.EmptyBodyIsRejected`).
* C++ reads an expected Data ID of 0 as "do not check", Python compares with 0.
  The two verdicts differ on exactly the frames this affects (`E2e.VerdictsAgree`).
* The Python Config API client accepts a probe answer shorter than an E2E header
  as a v1.1.0 answer, where C++ reports a protocol error
  (`ConfigExchange.ProbesAgree`); and its `connect` arms
  the reconnect only once the TCP connection is open, where C++ arms it at once.
  Both are modelled as written.
* The docstring of `firmware.py` says that one slot switch is sent, after every
  commit reached idle. The code also sends one between components whenever it does
  not *see* the origin face, so an unanswered GetBootInfo is enough: on a radar
  that keeps its marker, a switch is requested before all four images are in place
  exactly when a GetBootInfo between the first START and the last commit went
  unanswered. The run can then end with a half-written face active
  (`FirmwareUpdate.Sdk.Update`, `FirmwareUpdate.LostBootInfoStrands`,
  `UpdateWitness.StrandedRun`), but never with the old firmware overwritten. In
  all other runs the active face is at every moment the untouched old firmware or
  the complete new one.
* A GetMode answered with success and no data makes `enter_mode` return OK without
  the radar being in the mode, so `update` sends START to a radar that is not in
  the programming mode and refuses it. This is the only way
  (`FirmwareUpdate.Sdk.Update`, `UpdateWitness.MisledRun`). An answer without the
  mode field makes `enter_mode` skip DIAGNOSTIC (`FirmwareUpdate.Sdk.EnterMode`).

## Model

| member | source | states |
|---|---|---|
| Bytes.OneWordBothWays | src/util/endian_util.h:18-51 | 12 34 56 78 is 0x12345678 big-endian and 0x78563412 little-endian |
| Bytes.FieldsRead | src/util/endian_util.h:31-51 | little-endian fields of 2, 4 and 8 bytes at any offset, in powers of 256 |
| Ranges.AddRange | src/protocol/someip_tp.cpp:86-100 | the intervals stay sorted, non-empty and strictly separated, and cover exactly the old bytes and the new range |
| Ranges.SeparatedUnique | src/protocol/someip_tp.cpp:86-100 | the interval list is determined by the set of bytes it covers, so C++ and Python keep the same list |
| Ranges.FullyCoveredIff | src/protocol/someip_tp.cpp:102-106 | one interval from 0 to the final size means that every byte has been written, and conversely |
| SomeipTp.Reassembler.Feed | src/protocol/someip_tp.cpp:10-84 | a non-empty segment is dropped with everything held exactly when it is over the segment limit, has more to come and is not a multiple of 16 bytes, ends beyond the payload limit, or contradicts the final size; otherwise it joins what is held of its session; true exactly when the message is whole, and then the buffer starts with it |
| SomeipTp.StepWrittenOut | src/protocol/someip_tp.cpp:15-73 | the same for the specification: the size, alignment and limit tests and the two size contradictions in numbers, in both directions |
| SomeipTp.Reassembler.Reset | src/protocol/someip_tp.cpp:108-117 | forgets the log and keeps the buffer bytes |
| SomeipTp.Reassembler.IsFullyCovered | src/protocol/someip_tp.cpp:102-106 | decides whether every byte up to a known final size was written since the reset |
| SomeipTp.Reassembler.Write | src/protocol/someip_tp.cpp:52-59 | buffer and intervals describe the log extended by the segment |
| SomeipTp.Reassembler.SettleSize | src/protocol/someip_tp.cpp:61-73 | the final size is settled, or a conflict with an earlier final segment or later byte resets |
| SomeipTp.Reassembler.Accept | src/protocol/someip_tp.cpp:50-84 | what Feed does once the segment has passed the checks that do not need the buffer |
| SomeipTp.Reassembler.Finish | src/protocol/someip_tp.cpp:75-83 | completes exactly when the log is whole |
| SomeipTp.DeliveredMessage | src/protocol/someip_tp.cpp:10-84 | for every sequence of calls: a delivered payload consists of the latest bytes of a run of consecutive calls, all of one session, none from before the last reset, none over the segment limit, all but a final one multiples of 16 bytes, ending at a final segment, within the payload limit |
| SomeipTp.RunIsSuffix | src/protocol/someip_tp.cpp:10-117 | the segments in use are always exactly the non-empty ones of the last calls |
| SomeipTp.RunConsistent | src/protocol/someip_tp.cpp:15-43 | in every run the used segments have one session, legal sizes, ends within the limits and at most one final size |
| SomeipTp.ByteAtIsLatest | src/protocol/someip_tp.cpp:57-59 | where segments overlap the byte kept is that of the latest one |
| SomeipTp.StepSeen | src/protocol/someip_tp.cpp:61-73 | the two tests on the interval list find exactly the conflicts between segments |
| SomeipTp.RangeCountBound | src/protocol/someip_tp.cpp:86-100 | with 16-aligned offsets, n intervals satisfy 32(n-1)+1 <= the payload limit |
| Someip.HeaderRoundTrip | src/protocol/someip.cpp:8-26 | decoding an encoded SOME/IP header, with anything after it, gives it back |
| Someip.TpWordRoundTrip | src/protocol/someip.cpp:28-34 | the sender's TP word decodes to its offset and more-flag, and is valid |
| Someip.HeaderWrittenOut | src/protocol/someip.cpp:8-26 | which byte of a datagram is in which header field, big-endian |
| Someip.TpWordWrittenOut | src/protocol/someip.cpp:28-34 | the offset is the word without its low nibble, the more-flag its lowest bit, and the three bits between must be zero |
| TpRoundTrip.RoundTrip | tools/rdi_udp_sender.py:160-191 | segments of a payload in any order with any repeats: no call returns true before every distinct segment has appeared, that call does, and delivers the payload |
| TpRoundTrip.WholeIffAllSent | tools/rdi_udp_sender.py:160-191 | a set of segments completes the payload exactly when none is missing |
| TpRoundTrip.WholeIff | src/protocol/someip_tp.cpp:75-81 | slices of a payload that complete a message reassemble to that payload |
| SomeipTpPython.Reassembler.Feed | python/src/afi_sdk/streams.py:200-253 | one step of the table specification, and what the session alone would return; a segment that is oversized, unaligned, out of range, with a bad TP word or contradicting the final size drops its session, and any other is kept or completes the message |
| SomeipTpPython.SoloWrittenOut | python/src/afi_sdk/streams.py:207-253 | those conditions in numbers for one session, in both directions; a call without a 4-byte TP header or without payload does nothing |
| SomeipTpPython.EvictionWrittenOut | python/src/afi_sdk/streams.py:216-224 | only a segment within the limits that opens a session in a full table evicts, and the session opened longest ago goes; the others keep content and order |
| SomeipTpPython.Reassembler.Reset | python/src/afi_sdk/streams.py:183-189 | drops that session's assembly and no other, or every assembly if no session is named |
| SomeipTpPython.Reassembler.Extend | python/src/afi_sdk/streams.py:225-253 | the assembly after the segment, or its delivery or conflict |
| SomeipTpPython.Reassembler.Complete | python/src/afi_sdk/streams.py:247-253 | delivers exactly when the session's log is whole, and then its message |
| SomeipTpPython.AgreesWithCpp | python/src/afi_sdk/streams.py:200-253 | on one session with valid TP headers each call does and returns what C++ Feed does |
| SomeipTpPython.RunsAgree | python/src/afi_sdk/streams.py:200-253 | the same over every run of one session |
| SomeipTpPython.OthersUntouched | python/src/afi_sdk/streams.py:200-224 | a call changes no other session, except that a new session meeting a full table evicts the oldest |
| SomeipTpPython.OwnSession | python/src/afi_sdk/streams.py:200-253 | what happens to the fed session does not depend on the others |
| SomeipTpPython.NeverEvictedIsAlone | python/src/afi_sdk/streams.py:183-253 | over every run, a session that is never evicted keeps, and is returned call by call, what it would be if it had been fed alone |
| SomeipTpPython.RunKeepsGood | python/src/afi_sdk/streams.py:171-198 | the table never exceeds its size and lists each open session once |
| Crc.TableStep | src/protocol/e2e.cpp:13-35 | one table step equals eight bit steps of the reflected polynomial |
| Crc.MakeTable | src/protocol/e2e.cpp:11-25 | entry n of the table is the register after eight bit steps from n |
| Crc.ComputeCrc64 | src/protocol/e2e.cpp:29-36 | the table-driven CRC-64 equals the bit-serial CRC-64/XZ on every byte string |
| Crc.NibbleStep | third_party/afi920_interface/src/c/bts_iso23150_e2e.h:101-117 | one nibble-table step equals four bit steps |
| Crc.UpdateCrc32 | third_party/afi920_interface/src/c/bts_iso23150_e2e.h:97-119 | the nibble-driven update continues the bit-serial CRC-32 from any previous value |
| Crc.ComputeCrc32 | third_party/afi920_interface/src/c/bts_iso23150_e2e.h:122-125 | the one-shot form equals the bit-serial CRC-32 |
| Crc.Crc32Chains | third_party/afi920_interface/src/c/bts_iso23150_e2e.h:97-119 | continuing from the CRC of a prefix gives the CRC of the whole |
| Crc.DetectsBurst | src/protocol/e2e.cpp:29-36 | any CRC of this kind whose polynomial has its top bit set distinguishes two inputs that differ only inside a window no wider than its register |
| Crc.Crc64DetectsBurst | src/protocol/e2e.cpp:29-36 | CRC-64 detects every change inside 8 consecutive bytes |
| Crc.Crc32DetectsBurst | third_party/afi920_interface/src/c/bts_iso23150_e2e.h:97-125 | CRC-32 detects every change inside 4 consecutive bytes |
| Crc.CheckValues | python/src/afi_sdk/streams.py:40-86 | the check values 995DC9BBDF1939FA and CBF43926 of "123456789" |
| E2e.CheckNumbers | python/src/afi_sdk/streams.py:40-86 | the same as numbers over bytes, as the header carries them |
| E2e.Validate | src/protocol/e2e.cpp:50-85 | fills the header unless the frame is too short, and answers the decision tree: length, Data ID, zero CRC, then the CRC of the generation |
| E2e.VerdictWrittenOut | src/protocol/e2e.cpp:62-85 | each status, and no other, by the header fields: too short, wrong length, wrong Data ID, both CRC words zero, CRC mismatch of the generation |
| E2e.HeaderWrittenOut | src/protocol/e2e.cpp:50-60 | which byte is in which header field; the generation is v1.1.0 exactly when the first four bytes are zero |
| E2e.ProtectWrittenOut | src/protocol/e2e.cpp:87-91 | the twenty bytes in front of a body: zero, its CRC-32, its length, the counter, the Data ID |
| E2e.ParseEncode | src/protocol/e2e.cpp:50-60 | a written header parses back to its fields |
| E2e.EncodeParse | src/protocol/e2e.cpp:50-60 | the parsed fields determine the 20 header bytes |
| E2e.WriteHeader | src/protocol/e2e.cpp:87-91 | writes 20 bytes, which in front of the body form the protected frame, and nothing else |
| E2e.BuiltFrameVerdict | src/protocol/e2e.cpp:62-91 | a built frame validates, except that with CRC checking on it is rejected exactly when the CRC-32 of its body is zero |
| E2e.EmptyBodyIsRejected | src/protocol/e2e.cpp:74-75 | the empty body is an instance of that exception |
| E2e.LegacyBurstDetected | src/protocol/e2e.cpp:76-81 | a valid v1.0.x frame never validates after a change inside 8 consecutive bytes at or after offset 8 |
| E2e.BodyBurstDetected | src/protocol/e2e.cpp:83-84 | a valid v1.1.0 frame never validates after a change inside 4 consecutive body bytes |
| E2e.CounterIsUnprotected | src/protocol/e2e.cpp:62-85 | the verdict on a v1.1.0 frame does not depend on its counter |
| E2e.VerdictsAgree | python/src/afi_sdk/streams.py:105-159 | C++ and Python accept the same frames, except where Python is asked for Data ID 0 and C++ would accept any id |
| E2e.ResponseOkIff | python/src/afi_sdk/someip.py:409-423 | the Python response check accepts exactly the v1.1.0 frames that C++ validates |
| RdiLoss.Statistics | src/afi_sdk.cpp:562-579 | over every run the totals are the number of frames and the sum of the forward gaps, mod 2^32; repeats and steps back add no loss |
| RdiLoss.TrackWrittenOut | src/afi_sdk.cpp:562-579 | a counter 2 to 2^31-1 ahead, across the wrap or not, adds the slots skipped; the next one, a repeat, or one 1 to 2^31 behind adds none |
| RdiLoss.RestartRebases | src/afi_sdk.cpp:569-574 | after a step back or repeat the loss is that of the two parts on their own |
| RdiLoss.GapsOfSlots | src/afi_sdk.cpp:572-576 | the gaps computed from wrapped counters are the slots really skipped |
| RdiLoss.Conservation | src/afi_sdk.cpp:562-579 | first slot + total + lost = last slot + 1 mod 2^32 for every run advancing by 1 to 2^31-1 |
| RdiSender.SendFrame | tools/rdi_udp_sender.py:142-191 | sends the protected payload as one datagram, or as its segments in order |
| RdiFrames.SentWrittenOut | tools/rdi_udp_sender.py:131-191 | every datagram by its bytes: envelope, at most 1392 payload bytes, byte offset, more-flag, session |
| RdiReceiver.SegmentArrives | tools/rdi_udp_sender.py:131-181 | a segment datagram passes the receiver's envelope check and decodes to that segment |
| RdiReceiver.PlainArrives | tools/rdi_udp_sender.py:131-158 | an unsegmented datagram arrives as its payload |
| RdiFrames.ClassifyWrittenOut | src/afi_sdk.cpp:35-56 | which datagrams are dropped, which reset the reassembler, and what is read from the others, by service, method, length, versions, type, return code and TP word bytes |
| RdiReceiver.Receiver.ProcessRdiDatagram | src/afi_sdk.cpp:581-656 | one step of the datagram specification for every datagram, valid or not |
| RdiReceiver.Receiver.ConsumeE2eHeader | src/afi_sdk.cpp:495-533 | one step of the statistics and the decision whether the frame goes on; what that decision is for strict mode is the next five rows |
| RdiFrames.StrictDrops | src/afi_sdk.cpp:512-525 | in strict mode a frame that fails its check adds one to the failures and changes nothing else: no callback, loss or sequence number |
| RdiFrames.StrictEndToEnd | src/afi_sdk.cpp:581-622 | the same at the end of the wire, for its datagrams in any order |
| RdiFrames.StrictKeepsPassing | src/afi_sdk.cpp:507-525 | a frame that passes is handled the same in both modes |
| RdiFrames.KeptFrame | src/afi_sdk.cpp:507-655 | a frame that is kept: a failed one adds one failure and does not move the loss baseline when checked, a passing one sets the generation |
| RdiFrames.ShortIsNothing | src/afi_sdk.cpp:502-505 | a payload shorter than 20 bytes has no effect at all |
| RdiFrames.WireCallback | src/afi_sdk.cpp:535-560 | the wire callback happens for every kept frame, failed or not, with the payload, timestamp, counters, check result and generation read from their bytes |
| RdiFrames.LossCallback | src/afi_sdk.cpp:562-579 | the loss callback happens exactly for a counted frame 2 to 2^31-1 slots ahead, with the new total first and the new loss second |
| RdiFrames.TypedCallback | src/afi_sdk.cpp:640-652 | the typed callback happens exactly for a parsing body, with that message, the next sequence number, the counter and the check result |
| RdiReceiver.Receiver.TrackRdiLoss | src/afi_sdk.cpp:562-579 | one step of the loss specification, with 32-bit wraparound, and the loss callback for every gap with the statistics after it |
| RdiReceiver.Receiver.DeliverWirePayload | src/afi_sdk.cpp:535-560 | one callback with the complete payload and the fields read from it, if a wire callback is registered |
| RdiReceiver.Receiver.DecodeTyped | src/afi_sdk.cpp:640-652 | one sequence number per payload when a typed callback is set, and the typed frames of the specification |
| RdiReceiver.TypedWhenParsed | src/afi_sdk.cpp:641-652 | the typed callback happens exactly when the payload parses, with that message |
| RdiEndToEnd.EndToEnd | src/afi_sdk.cpp:581-656 | a payload sent whole or in segments, received in any order with the last missing one last, is handled as that payload once, and the reassembler is left reset |
| RdiEndToEnd.PermutationCompletes | tools/rdi_udp_sender.py:160-191 | every permutation of the segments is such an order |
| RdiEndToEnd.OneWireCallback | src/afi_sdk.cpp:535-656 | with strict mode off and a wire callback registered: exactly one wire callback with identical bytes, valid exactly when validation is on and the frame passes |
| RdiEndToEnd.MessageToCallback | src/afi_sdk.cpp:535-656 | from a detection message at the sender to all three callbacks: same message and bytes, the sensor's timestamp and message counter, the counter sent, valid unless the CRC-32 of the body is zero, and the loss it reveals |
| RdiEndToEnd.LossOfRun | src/afi_sdk.cpp:636-638 | the loss statistics of a run are those of its counted frames; with validation on, failed frames change neither |
| StreamFraming.TcpStreamClient.RecvExact | src/transport/tcp_stream_client.cpp:223-241 | exactly the next n bytes whatever the pieces; on a reliable socket it fails only when fewer are left |
| StreamFraming.TcpStreamClient.Receive | src/transport/tcp_stream_client.cpp:171-212 | on an open stream the next frame, or the stream closes; on a closed one a reconnect attempt and no frame |
| StreamFraming.TcpStreamClient.TryReconnect | src/transport/tcp_stream_client.cpp:274-293 | one attempt unless stopping; open exactly on success; the delay is that of the failures since the last success |
| StreamFraming.TcpStreamClient.Open | src/transport/tcp_stream_client.cpp:38-132 | a fresh socket and the shortest delay, or no socket at all |
| StreamFraming.TcpStreamClient.Close | src/transport/tcp_stream_client.cpp:214-221 | no socket, and no further attempts |
| StreamFraming.BackoffValues | src/transport/tcp_stream_client.cpp:290-291 | the delay doubles from 1 s and stays at 30 s from the fifth failure on |
| StreamFraming.TcpStreamClient.ReceiveLoop | src/afi_sdk.cpp:436-451 | any list of frames within the limit, in any pieces, comes out frame by frame in order |
| StreamFraming.TcpStreamClient.ReceiveMessages | src/afi_sdk.cpp:436-451 | a stream of serialised SOME/IP messages comes out as exactly those messages |
| StreamFraming.MessageIsFrame | src/transport/tcp_stream_client.cpp:184-197 | a SOME/IP message whose Length field counts its payload and 8 bytes is a frame |
| StreamFraming.NextWrittenOut | src/transport/tcp_stream_client.cpp:180-212 | the next frame is 8 bytes more than the big-endian word at offset 4; it is refused exactly above the limit or 2^31-1 |
| StreamFraming.TakeFlattened | src/transport/tcp_stream_client.cpp:171-212 | splitting a concatenation of frames gives the frames back, whatever follows |
| Records.WordsBack | src/protocol/rdi_parser.cpp:15-101 | re-encoding the decoded words of a field list gives its bytes |
| IsoHeader.DecodeEncode | src/protocol/shi_parser.cpp:23-34 | the common interface header decodes to what was encoded |
| IsoHeader.EncodeDecode | src/protocol/shi_parser.cpp:23-34 | and its 24 bytes are determined by the decoded fields |
| Layouts.HeaderLayout | src/protocol/shi_parser.cpp:23-34 | where each field of the common header stands, multi-byte fields little-endian |
| Shii.ParseCpp | src/protocol/shi_parser.cpp:14-111 | accepts exactly the serialised well-formed messages and returns that message, never reading out of bounds |
| Layouts.ShiiAccepts | src/protocol/shi_parser.cpp:16-106 | which byte strings are accepted: the three counts at most 11, 4 and 3, and exactly the length they describe |
| Layouts.ShiiLayout | src/protocol/shi_parser.cpp:36-103 | where each field and array of a message stands |
| Shii.ParsePython | python/src/afi_sdk/streams.py:345-404 | the same for the Python parser |
| Shii.ParsersAgree | src/protocol/shi_parser.cpp:14-111 | hence both accept the same payloads with the same field values |
| Shii.SerialiseDecode | src/protocol/shi_parser.cpp:14-111 | serialising what was parsed gives the payload back |
| Shii.SerialiseInjective | src/protocol/shi_parser.cpp:14-111 | no two messages share a payload |
| Spi.ParseCpp | src/protocol/spi_parser.cpp:13-128 | accepts exactly the serialised well-formed messages and returns that message, never reading out of bounds |
| Layouts.SpiAccepts | src/protocol/spi_parser.cpp:15-125 | which byte strings are accepted: three counts of at most 16, and exactly the length they describe |
| Layouts.SpiLayout | src/protocol/spi_parser.cpp:26-53 | where the header, the coordinate system, the pose and the counts stand |
| Layouts.FovLayout | src/protocol/spi_parser.cpp:64-71 | where each field of field-of-view segment i stands |
| Layouts.ObjectLayout | src/protocol/spi_parser.cpp:90-95 | the same for object type i |
| Layouts.TargetLayout | src/protocol/spi_parser.cpp:114-120 | the same for reference target i |
| Spi.ReadFov | src/protocol/spi_parser.cpp:64-71 | the field-of-view list at the moving offset, and the offset right after it |
| Spi.ReadObjects | src/protocol/spi_parser.cpp:90-95 | the same for the object list |
| Spi.ReadTargets | src/protocol/spi_parser.cpp:114-120 | the same for the reference-target list |
| Spi.ParsePython | python/src/afi_sdk/streams.py:418-485 | the same for the Python parser |
| Spi.ParsersAgree | src/protocol/spi_parser.cpp:13-128 | hence both accept the same payloads with the same field values |
| Spi.SerialisedIsFramed | src/protocol/spi_parser.cpp:51-125 | every serialised message has its three counts where the moving offset finds them |
| Spi.SerialiseInjective | src/protocol/spi_parser.cpp:13-128 | no two messages share a payload |
| Rdi.ParseCpp | src/protocol/rdi_parser.cpp:15-101 | accepts exactly the serialised messages of at most the allowed detections; the Python frame check accepts the same payloads and its detection reader returns the same detections |
| Layouts.RdiAccepts | src/protocol/rdi_parser.cpp:19-60 | which byte strings are accepted: at least 36 bytes, a count of at most 8192, and 36 + 51 per detection |
| Layouts.RdiLayout | src/protocol/rdi_parser.cpp:27-50 | where each field of the fixed part stands |
| Layouts.DetectionLayout | src/protocol/rdi_parser.cpp:74-101 | where each field of detection i stands |
| Rdi.ParseIsUnique | src/protocol/rdi_parser.cpp:15-101 | at most one result meets the promise of the parser |
| Rdi.SerialisedIsFramed | src/protocol/rdi_parser.cpp:15-60 | every serialised message is accepted, with its detection count at offset 34 |
| Rdi.SerialiseInjective | src/protocol/rdi_parser.cpp:15-101 | no two messages share a payload |
| ConfigLink.ExchangeContinues | src/transport/tcp_client.cpp:169-290 | whatever the sensor does while one request is open, only bytes of its own answer can arrive |
| ConfigLink.ExchangeEnds | src/transport/tcp_client.cpp:215-290 | an answer received in full leaves nothing outstanding |
| ConfigExchange.RequestWrittenOut | src/transport/tcp_client.cpp:169-205 | the 36 bytes in front of a request body, by number: service, method, length, client, session, versions, type, and the E2E header |
| ConfigExchange.MethodOfRequest | src/transport/tcp_client.cpp:169-205 | the frame written for a request carries that method |
| ConfigExchange.MismatchIff | src/transport/tcp_client.cpp:219-245 | a header is refused exactly for a wrong service, method, client, session, version or type, or a length below 9 (probe) or 28 or above 4194312 |
| ConfigExchange.GoodMatches | src/transport/tcp_client.cpp:219-245 | a whole, matching answer is not refused |
| ConfigExchange.ProbesAgree | python/src/afi_sdk/someip.py:268-281 | the clients conclude the same generation from a probe answer, except exactly from one that is neither JSON nor as long as an E2E header |
| ConfigExchange.RecvExact | src/transport/tcp_client.cpp:292-309 | the next n bytes of the open answer, a timeout, or the end of the connection |
| ConfigExchange.RoundTrip | src/transport/tcp_client.cpp:204-262 | success means that header and body are the sensor's answer to this request and the connection is idle again; after a full header a protocol error exactly when it mismatches; an incomplete header is a timeout or a lost connection; on an obliging connection always success |
| ConfigClient.TcpClient.Connect | src/transport/tcp_client.cpp:32-40 | always arms the reconnect; success means that the sensor's generation is known, and open only for v1.1.0; on an obliging network it always succeeds; no v1.0.x sensor has been sent anything but probes |
| ConfigClient.TcpClient.ConnectLocked | src/transport/tcp_client.cpp:42-95 | a fresh connection that is probed before anything else |
| ConfigClient.TcpClient.ProbeLocked | src/transport/tcp_client.cpp:104-126 | asks 0x0010 with `{}` and decides by the body of the complete answer as the C++ rule says; success means that the generation found is the sensor's own; a v1.0.x connection is closed |
| ConfigClient.TcpClient.Disconnect | src/transport/tcp_client.cpp:128-142 | closes, disarms the reconnect, sends nothing |
| ConfigClient.TcpClient.PrepareRequest | src/transport/tcp_client.cpp:174-199 | the next session id, never zero, the next counter mod 2^32, and the frame; keeps the log free of non-probe frames to unconfirmed sensors |
| ConfigClient.TcpClient.SendRequest | src/transport/tcp_client.cpp:144-167 | kTcpOk only with the sensor's answer to this very request and its E2E verdict, and always on an obliging network unless the sensor is a v1.0.x one or the client is not connected; after a v1.0.x answer nothing is sent; more than 16384 bytes are refused unsent; no v1.0.x sensor has been sent anything but probes; every transport failure leaves no open connection |
| ConfigClient.TcpClient.ExchangeLocked | src/transport/tcp_client.cpp:169-290 | one request and its own answer on an idle connection, left idle; any failure closes it; a mismatching header is a protocol error; an obliging connection gives the answer |
| ConfigClientPython.Client.Connect | python/src/afi_sdk/someip.py:233-255 | the same machine, obliging networks included, except that the reconnect is armed exactly when the TCP connection comes up |
| ConfigClientPython.Client.Probe | python/src/afi_sdk/someip.py:257-281 | asks 0x0010 with `{}` and decides by the body of the complete answer as the Python rule says; the generation found is the sensor's own |
| ConfigClientPython.Client.Close | python/src/afi_sdk/someip.py:283-294 | closes, disarms the reconnect, sends nothing |
| ConfigClientPython.Client.Request | python/src/afi_sdk/someip.py:312-353 | an answer only to this very request, and always on an obliging network with a v1.1.0 sensor; nothing is sent after a v1.0.x answer |
| ConfigClientPython.Client.Exchange | python/src/afi_sdk/someip.py:355-394 | one request and its own answer on an idle connection; any failure drops it |
| Radar.AfterChunk | test/test_python_firmware.py:132-146 | after an accepted prefix of the chunk at offset sent, the radar holds image[:total reported], if it reports truthfully |
| Radar.AfterCommit | test/test_python_firmware.py:98-112 | an accepted COMMIT of an exact image can only lead to that image in its slot or to the error state |
| Radar.TransferIsConfined | test/test_python_firmware.py:54-158 | requests of one transfer change neither the mode nor any slot of another component |
| Radar.StaysSound | test/test_python_firmware.py:29-158 | what holds of the radar's state, session and pending work after every request |
| UpdateLog.StaysOriginSafe | python/src/afi_sdk/firmware.py:206-251 | on a marker-keeping radar no allowed request changes an image of the old firmware, whatever answers are lost |
| UpdateLog.StaysGuarded | python/src/afi_sdk/firmware.py:206-251 | nor, as long as no early switch is sent, does one leave an active face other than the untouched old firmware or the whole new one |
| UpdateLog.StaysClean | python/src/afi_sdk/firmware.py:184-264 | the invariant of a run: COMMIT only for an exact image, reboot only when idle, the old firmware untouched, and no early switch unless a GetBootInfo went unanswered |
| UpdateLog.OtherFaceOnly | python/src/afi_sdk/firmware.py:217-251 | while a face is active only the other one is written |
| UpdateLog.WrittenMore | python/src/afi_sdk/firmware.py:226-244 | a further component leaves those already on the face intact |
| FirmwareUpdate.Sdk.GetMode | python/src/afi_sdk/_sdk.py:365-368 | a mode that is named is the radar's mode; the answer may be an error, empty, or without the field |
| FirmwareUpdate.Sdk.SetMode | python/src/afi_sdk/_sdk.py:370-380 | NORMAL is refused as INVALID_PARAM without sending; otherwise one request, whose answer gives the code; OK means that the radar is in the mode; an undisturbed radar refuses with SESSION_REQUIRED or ACCESS_DENIED as documented |
| FirmwareUpdate.Sdk.EnterMode | python/src/afi_sdk/_sdk.py:382-405 | from NORMAL to PROGRAMMING it asks for DIAGNOSTIC first and goes on only if that succeeded; the code is that of the last answer, or ACCESS_DENIED for a way back; OK means that the radar is in the target mode, except after a GetMode answer that names no mode |
| FirmwareUpdate.WalkWrittenOut | python/src/afi_sdk/_sdk.py:394-405 | the requests of that walk, case by case, and when the second is left out |
| FirmwareUpdate.CodesWrittenOut | python/src/afi_sdk/_sdk.py:147-165 | the code of a lost connection, a timeout, a protocol error and each return code, in numbers; every other return code is a sensor error |
| FirmwareUpdate.Sdk.ActiveFace | python/src/afi_sdk/firmware.py:179-181 | the radar's active face, or nothing; changes nothing |
| FirmwareUpdate.Sdk.WaitIdle | python/src/afi_sdk/firmware.py:100-123 | succeeds exactly when the last answer named the idle state; only status requests are sent, and only pending work has gone on |
| FirmwareUpdate.Sdk.SendChunks | python/src/afi_sdk/firmware.py:146-165 | at every loop head the radar holds image[:sent]; each chunk is the part of the image from there on, of the agreed size or what is left; ends after at most 201 requests per byte whenever totals never decrease; it fails only on a refused or lost chunk, a total beyond the image, or 201 chunks in a row without progress |
| FirmwareUpdate.Sdk.CommitImage | python/src/afi_sdk/firmware.py:167-172 | COMMIT is sent only with the exact image; success means idle with the image in its slot |
| FirmwareUpdate.Sdk.UploadComponent | python/src/afi_sdk/firmware.py:126-172 | in any access mode; START names size and CRC-32 of the image and is answered only in the programming mode; chunks are of the radar's limit or 4096; success: the image is in the slot START named; failure: exactly one ABORT, sent last, if START was answered, and none otherwise |
| FirmwareUpdate.Sdk.Switch | python/src/afi_sdk/firmware.py:267-277 | success means idle and confirmed on the wanted face, which was the other one; writes no slot |
| FirmwareUpdate.Sdk.PutBack | python/src/afi_sdk/firmware.py:237-244 | success means that the radar is on the origin face again |
| FirmwareUpdate.Sdk.UpdateComponent | python/src/afi_sdk/firmware.py:226-244 | one more image on the target face, and the marker back on the origin while components remain |
| FirmwareUpdate.Sdk.TurnOver | python/src/afi_sdk/firmware.py:246-251 | success means idle on the target face, with every slot as it was |
| FirmwareUpdate.Sdk.RebootRadar | python/src/afi_sdk/firmware.py:253-262 | sent once, only while idle; active face and slots stay; accepted exactly when the answer is neither a refusal nor a protocol error, so also when the connection was lost or timed out |
| FirmwareUpdate.Sdk.UpdateFirmware | python/src/afi_sdk/firmware.py:217-251 | success: all four images on the face that was not active, and that face active and idle; one slot switch at most on a marker-keeping radar, four on any |
| FirmwareUpdate.Sdk.Update | python/src/afi_sdk/firmware.py:184-264 | success means byte-exact images on the active target face for every pattern of losses, partial chunks and marker moves; every START is sent in the programming mode unless GetMode was answered empty, and then none is; one reboot at most, only when idle, and after it the run is ok exactly when its answer was neither a refusal nor a protocol error; only the last reported step of a failed run failed; a bad set sends nothing; on a marker-keeping radar at most one slot switch is sent, no run touches the old firmware, the radar stays bootable in every run without an unanswered GetBootInfo, and an early switch is sent exactly in the others; and an obliging radar that starts idle is always updated |
| FirmwareUpdate.LostBootInfoStrands | python/src/afi_sdk/firmware.py:240-241 | wherever the new firmware is incomplete, one lost GetBootInfo answer and the switch that follows leave an unbootable mix active |
| UpdateWitness.StrandedRun | python/src/afi_sdk/firmware.py:237-244 | a whole run of a marker-keeping radar that ends so |
| UpdateWitness.MisledRun | python/src/afi_sdk/_sdk.py:394-405 | a run in which an empty GetMode answer lets START be sent in the normal mode, where it is refused |

## Left out

- Sockets, select, keep-alive, clocks and sleeps: receive and send are nondeterministic steps, a deadline is a number of polls of at least one.
- Threads and mutexes: each receiver owns its state and the Config API client is serialised by one lock.
- Null pointers as arguments and allocation failure.
- JSON: requests and answers are byte strings, a v1.0.x answer is recognised by its first byte, as the code does; the getters and setters that copy JSON fields would only add easy members.
- The meaning of floating-point fields: they are raw 32-bit words.
- The payload values that `build_rdi_payload` draws at random: a sender here may send any well-formed message.
- The datagram wrappers of the SHII and SPI streams, which repeat the RDI pipeline without segments and loss, discovery, CSII, logging and the progress callbacks.
- The other `Receive` of the TCP stream client, into a fixed buffer, and the Windows branches.
- A static cache of the CRC table: the table is an argument with a proved content. The Python CRC-64 is the same table algorithm and has no second member.
- Getters that only return a field.
- ConfigClient.TcpClient.SendRequest: JSON decoding of the body and the log line of a failed E2E check are not modelled; as in the code the check does not reject the answer.
- FirmwareUpdate.Sdk.SendChunks: a radar whose reported total goes down is outside the environment, because the code then follows it down; a missing total and a total above the truth are covered.
- FirmwareUpdate.Sdk.SendChunk: the host's own refusal of a request body over 16384 bytes counts as a request that was not delivered.
- FirmwareUpdate.Sdk.UpdateComponent: a START answer without target_slot is not modelled; the code then reports the component as failed.
- FirmwareUpdate.Sdk.UploadComponent: that a transferring session is dropped after silence is a choice the radar has before each request; the ten seconds are not modelled.
- FirmwareUpdate.Sdk.Update: requests take effect at once or not at all; one that the host gave up on and that arrives later is not modelled. Error texts are not modelled, only which step failed.
- `verify`, `wait_for_restart`, `radar_uptime` and `hashes_match`: short checks after the restart that would only add easy members.
- Examples, samples, live tests and build files.
