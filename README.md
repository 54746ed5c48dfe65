# mpegts-streamer in Dafny

A model of the part of mpegts-streamer that sits between a 188-byte MPEG transport stream
buffer and a packet handed to a sink. It covers:

- the transport packet decoder (`MTSPacket.parsePacket`, PCR/OPCR and `PCR.getValue`,
  ISO/IEC 13818-1 sections 2.4.3.2, 2.4.3.4-2.4.3.5 and 2.4.2.2) and `NIOUtils.skip`;
- the dirty-tracking packet base `PacketSupport`;
- the PAT section body parser `PATSection.parse` (section 2.4.4.3);
- the splice fixing shared by `ContinuityFixer` and both `MultiMTSSource` classes: continuity
  counters (section 2.4.3.3), the 33-bit PES PTS (sections 2.4.3.6-2.4.3.7) and the PCR,
  rewritten across a source boundary;
- the packet sources: the closed-flag base `AbstractMTSSource`, `LoopingMTSSource`, the
  resynchronising scan of `AbstractByteChannelMTSSource`, and the two `MultiMTSSource`
  sequencers;
- the PCR pacing loop of `Streamer.stream`.

Decoders are functions over byte sequences (`byte` is an integer in 0..255) with explicit
offsets instead of a ByteBuffer cursor. Stateful classes are Dafny classes whose methods are
proved against specification functions:

- `SpliceState` (the ten per-PID maps) computes what `Splice.Fix` and `Splice.Switch` specify;
- `MultiMtsSource.NextPacket` computes what `SourceSequence.Next` specifies;
- `Streamer.Stream` computes what `Streamer.Run` specifies.

The properties of the source's behaviour are lemmas about those functions. Java's truncating
`%` and the 32-bit `int` arithmetic of the PTS decoding are written out.

The three copies of the fixing code differ in two ways, captured by a `Policy`:

- the gap added to PTS and PCR: 9000 and 2,700,000 ticks in `ContinuityFixer`, 0 in both
  sequencers;
- whether a PID missing from the previous source defaults to 0 or is unboxed as null. The
  older `org.taktik.mpegts.MultiMTSSource` unboxes it and throws a NullPointerException.

Behaviours of the source that are proved as they are, not corrected:

- the fixed continuity counter can go negative (Java `%`);
- a PTS of 2^31 or more is written correctly but decoded as its low 32 bits read as a signed int (negative for 2^31..2^32-1, 32-bit shifts);
- `addSources` of both builders appends the argument to itself and leaves the builder unchanged;
- `LoopingMTSSource` stores `fixContinuity` and never reads it.

## Model

| member | source | states |
|---|---|---|
| NioUtils.SkipAmount | src/main/java/org/taktik/ioutils/NIOUtils.java:17 | the amount skipped is the smaller of what remains and what was asked for |
| NioUtils.Skip | src/main/java/org/taktik/ioutils/NIOUtils.java:16-19 | returns min(remaining, count) and moves the position by exactly that; a count of at least what remains leaves the position at the limit; a negative count moves it back by that much |
| MtsPacket.SignedByte | src/main/java/org/taktik/mpegts/MTSPacket.java:187-190 | the splice countdown octet read as a Java byte: in -128..127 and congruent to the octet modulo 256 |
| MtsPacket.PcrOfValue | src/main/java/org/taktik/mpegts/sources/ContinuityFixer.java:138 | PCR.setValue: getValue afterwards returns the value set; a non-negative value gets a non-negative base and an extension in 0..299 |
| MtsPacket.DecodePcr | src/main/java/org/taktik/mpegts/MTSPacket.java:162-169 | a 6-byte PCR field decodes to a base below 2^33 and an extension below 512, with a non-negative value |
| MtsPacket.PcrRoundTrip | src/main/java/org/taktik/mpegts/MTSPacket.java:166-169 | decoding a PCR field encoded from a base and an extension (reserved bits set) gives them back: the reserved bits are ignored |
| MtsPacket.PcrValueRoundTrip | src/main/java/org/taktik/mpegts/MTSPacket.java:46-48 | a clock value below 2^33 * 300 survives setValue, encoding, decoding and getValue |
| MtsPacket.Pcr.Value | src/main/java/org/taktik/mpegts/MTSPacket.java:46-48 | for a non-negative base and an extension below 300, the value is non-negative and divides back into the base (quotient by 300) and the extension (remainder) |
| MtsPacket.ParseAdaptationField | src/main/java/org/taktik/mpegts/MTSPacket.java:126-196 | succeeds exactly when the buffer holds the optional fields the flags call for, in the order PCR, OPCR, splice countdown; PCR/OPCR present exactly when flagged, the PCR decoded from bytes 6..11; the payload starts at 5 + adaptation_field_length, capped at the buffer's end |
| MtsPacket.ParsePacket | src/main/java/org/taktik/mpegts/MTSPacket.java:88-203 | fails with the checkArgument error exactly when byte 0 is not 0x47; succeeds exactly when it is and the bytes read fit; a parsed packet has a 13-bit PID, a counter in 0..15, an unshifted scrambling control in {0, 0x40, 0x80, 0xC0}, an adaptation field exactly when flagged, a splice countdown of 0 without its flag, the buffer as its packet bytes, and the payload at offset 4 without an adaptation field |
| MtsPacket.HeaderRoundTrip | src/main/java/org/taktik/mpegts/MTSPacket.java:92-123 | parsing a header built from TEI, PUSI, priority, PID, scrambling, payload flag and counter returns each of them, with the payload at offset 4 |
| MtsPacket.AdaptationPcrRoundTrip | src/main/java/org/taktik/mpegts/MTSPacket.java:159-170 | a PCR written at offset 6 behind a PCR-flagged adaptation field is the PCR returned, and its value is base * 300 + extension |
| PacketSupport.PacketSupport.Empty | src/main/java/org/taktik/mpegts/PacketSupport.java:10-12 | the no-argument constructor leaves the packet clean, with no buffer and neither hook called |
| PacketSupport.PacketSupport.FromBuffer | src/main/java/org/taktik/mpegts/PacketSupport.java:14-20 | the buffer constructor calls parse once, leaves the buffer rewound to 0 with contents and limit unchanged, and the packet clean |
| PacketSupport.PacketSupport.Parse | src/main/java/org/taktik/mpegts/PacketSupport.java:31 | the subclass's parse hook: each call is counted |
| PacketSupport.PacketSupport.Write | src/main/java/org/taktik/mpegts/PacketSupport.java:32 | the subclass's write hook: each call is counted, and it serializes the packet's image into the buffer in place, keeping position and limit |
| PacketSupport.PacketSupport.GetBuffer | src/main/java/org/taktik/mpegts/PacketSupport.java:22-29 | write runs exactly when dirty; afterwards the packet is clean and the same buffer object is returned, rewound if it was written; a dirty packet without a buffer throws on the rewind and stays dirty; the buffer holds the packet's image after a write and its old contents otherwise |
| PacketSupport.PacketSupport.MarkDirty | src/main/java/org/taktik/mpegts/PacketSupport.java:34-36 | sets the dirty flag and changes nothing else |
| PacketSupport.GetBufferTwice | src/main/java/org/taktik/mpegts/PacketSupport.java:22-29 | two getBuffer calls with no markDirty between them write at most once and return the same buffer, which then holds the packet's image if it was dirty; a dirty packet without a buffer throws a NullPointerException on both calls, is written twice and stays dirty |
| PatSection.Entry | src/main/java/org/taktik/mpegts/PATSection.java:38-40 | an entry is an unsigned 16-bit program number and the low 13 bits of the next word |
| PatSection.Parse | src/main/java/org/taktik/mpegts/PATSection.java:29-48 | null exactly when the header parse is null; otherwise the network PIDs are those of the program-0 entries in order, and the program map maps each other number to its PID, over the entries read while more than four bytes remain |
| PatSection.PatSection.GetNetworkPids | src/main/java/org/taktik/mpegts/PATSection.java:21-23 | returns the network PID list of the section |
| PatSection.PatSection.GetPrograms | src/main/java/org/taktik/mpegts/PATSection.java:25-27 | returns the program map of the section |
| PatSection.EntryPositions | src/main/java/org/taktik/mpegts/PATSection.java:37-40 | entry k is read at offset 4k and ends before the limit, so no read underflows; with a body of whole 4-byte groups the trailing four bytes (the CRC) are never read as an entry |
| PatSection.EntryCount | src/main/java/org/taktik/mpegts/PATSection.java:37 | the number of entries read is (length - 1) / 4 when more than four bytes remain, and 0 otherwise |
| PatSection.MisalignedBodyReadsCrc | src/main/java/org/taktik/mpegts/PATSection.java:37 | with a body that is not a whole number of 4-byte groups, the last entry read overlaps the trailing four bytes |
| PatSection.ProgramsWellFormed | src/main/java/org/taktik/mpegts/PATSection.java:41-44 | program number 0 is never a key of the program map, and every PMT PID is below 8192 |
| PatSection.LastEntryWins | src/main/java/org/taktik/mpegts/PATSection.java:44 | a repeated non-zero program number maps to the PID of its last entry |
| PatSection.ProgramKeys | src/main/java/org/taktik/mpegts/PATSection.java:41-44 | a number is a key of the program map exactly when it is non-zero and some entry carries it |
| PatSection.NetworkPidsAppend | src/main/java/org/taktik/mpegts/PATSection.java:41-42 | the network PID list keeps order and duplicates: the list of a concatenation is the concatenation of the lists |
| Splice.JavaRem16 | src/main/java/org/taktik/mpegts/sources/ContinuityFixer.java:73 | Java's `% 16`: the result lies in -15..15, has the dividend's sign and is congruent to it modulo 16 |
| Splice.Word | src/main/java/org/taktik/mpegts/sources/ContinuityFixer.java:98 | a 16-bit word read from two octets lies in 0..65535 |
| Splice.JavaPts | src/main/java/org/taktik/mpegts/sources/ContinuityFixer.java:101 | the PTS as decoded with 32-bit int shifts lies in the signed 32-bit range |
| Splice.ProbePts | src/main/java/org/taktik/mpegts/sources/ContinuityFixer.java:95-101 | a PTS is found exactly when the payload starts 00 00 01 and bit 0x80 of the word at offset 6 is set, and its value is the 32-bit decoding; reading past a short payload throws, which cannot happen with 14 bytes or more |
| Splice.WritePts | src/main/java/org/taktik/mpegts/sources/ContinuityFixer.java:112-114 | the rewrite keeps the payload's length and every byte outside offsets 9..13 |
| Splice.WritePtsRoundTrip33 | src/main/java/org/taktik/mpegts/sources/ContinuityFixer.java:112-114 | the rewritten bytes decode, by section 2.4.3.7, to the written value modulo 2^33 |
| Splice.WritePtsRoundTrip | src/main/java/org/taktik/mpegts/sources/ContinuityFixer.java:101-114 | a PTS in 0..2^31-1 written by fixPTS is read back exactly by the source's own decoding |
| Splice.JavaPtsIsSignedLow32 | src/main/java/org/taktik/mpegts/sources/ContinuityFixer.java:101 | the source's decoding is the low 32 bits of the 33-bit PTS, read as a signed int |
| Splice.PtsAboveTwo31ReadsBackNegative | src/main/java/org/taktik/mpegts/sources/ContinuityFixer.java:101-116 | a PTS of 2^31 is written correctly but read back by the source as -2^31 |
| Splice.NoteFirst | src/main/java/org/taktik/mpegts/sources/ContinuityFixer.java:59-71 | the packet is recorded under its PID and the PID marked as seen; in a later source the PID's first packet gets its counter offset; only a strict lookup of an absent previous packet fails, and only in a later source |
| Splice.StepCounter | src/main/java/org/taktik/mpegts/sources/ContinuityFixer.java:59-74 | keeps the invariant that every PID seen since the switch has an offset; the recorded counter is the emitted one; the first source's counter is unchanged; nothing but the counter tables changes |
| Splice.FixCounter | src/main/java/org/taktik/mpegts/sources/ContinuityFixer.java:59-74 | only the packet's counter changes, the table records the new counter, the invariant is kept, and a failure is a NullPointerException in a later source |
| Splice.FixPts | src/main/java/org/taktik/mpegts/sources/ContinuityFixer.java:94-123 | only the packet bytes change, keeping their length, and only the PTS tables change; IndexOutOfBoundsException exactly when the payload starts 00 00 01 with the PTS flag set but is too short; a packet without a PTS passes unchanged with the tables untouched |
| Splice.RewritePcr | src/main/java/org/taktik/mpegts/sources/ContinuityFixer.java:125-139 | the new PCR is the previous source's last PCR on the PID (0 if absent) plus the distance from this source's first PCR plus the gap; it fails exactly under strict lookups of an absent PID, leaving the packet as it was |
| Splice.FixPcr | src/main/java/org/taktik/mpegts/sources/ContinuityFixer.java:79-92 | only the adaptation field and the PCR tables change, and the packet carries a PCR afterwards exactly when it did before |
| Splice.Fix | src/main/java/org/taktik/mpegts/sources/ContinuityFixer.java:58-77 | keeps the offset invariant, and keeps the PID, the payload flag, the payload offset and the packet length |
| Splice.Switch | src/main/java/org/taktik/mpegts/sources/ContinuityFixer.java:40-54 | the running and current-source maps are empty afterwards, and the offset invariant holds for the next source |
| Splice.FirstSourceUnchanged | src/main/java/org/taktik/mpegts/sources/ContinuityFixer.java:72-128 | in the first source the packet leaves exactly as it came, and no lookup fails |
| Splice.TablesRecordEmitted | src/main/java/org/taktik/mpegts/sources/ContinuityFixer.java:60-89 | the tables hold the counter and PCR of the packet as emitted, since the maps store the packet object that is rewritten |
| Splice.SpliceContinuity | src/main/java/org/taktik/mpegts/sources/ContinuityFixer.java:61-74 | the first packet of a PID in a later source gets the previous source's last counter plus one if it carries payload, modulo 16, and exactly that value when the previous counter was in 0..15 |
| Splice.LaterPacketsKeepOffset | src/main/java/org/taktik/mpegts/sources/ContinuityFixer.java:72-74 | later packets of the PID are shifted by the offset fixed at its first packet, with Java's remainder |
| Splice.WrapOffset | src/main/java/org/taktik/mpegts/sources/ContinuityFixer.java:65-69 | right after a switch, a first packet with counter 15 whose PID ended the previous source at 0 gets the offset -14 recorded for its PID |
| Splice.NegativeCounterAfterWrap | src/main/java/org/taktik/mpegts/sources/ContinuityFixer.java:65-73 | a source ending at counter 0 followed by one that starts at 15 and wraps to 0 emits -14 for the wrapped packet |
| Splice.StrictLookupFails | src/main/java/org/taktik/mpegts/MultiMTSSource.java:84 | in the older sequencer, the first packet of a PID the previous source did not carry throws a NullPointerException |
| Splice.TolerantFixNeverNull | src/main/java/org/taktik/mpegts/sources/ContinuityFixer.java:58-123 | with defaulting lookups and the invariant kept, fixing never dereferences null, and it succeeds exactly unless a PES payload is too short to read its PTS |
| Splice.SplicePcr | src/main/java/org/taktik/mpegts/sources/ContinuityFixer.java:129-138 | the first PCR of a PID in a later source is placed the gap after the previous source's last PCR on that PID (0 if none) |
| Splice.PcrKeepsDistance | src/main/java/org/taktik/mpegts/sources/ContinuityFixer.java:133-138 | later PCRs of the PID keep their distance from this source's first PCR |
| Splice.SplicePts | src/main/java/org/taktik/mpegts/sources/ContinuityFixer.java:105-119 | the first PTS of a PID in a later source is written the gap after the previous source's last PTS on that PID (0 if none) and recorded as the PID's latest PTS |
| Splice.FixPtsFirstSource | src/main/java/org/taktik/mpegts/sources/ContinuityFixer.java:94-120 | in the first source a packet with a PTS leaves unchanged, its decoded PTS becomes the latest PTS of the PID, and the PID's first PTS is kept or set to it |
| Splice.FixPtsLaterSource | src/main/java/org/taktik/mpegts/sources/ContinuityFixer.java:101-120 | in a later source the PTS is re-based to the previous source's last PTS on the PID (0 if absent) plus the distance from this source's first PTS plus the gap; that value is recorded as the latest PTS and written into the packet modulo 2^33 |
| Splice.PtsKeepsDistance | src/main/java/org/taktik/mpegts/sources/ContinuityFixer.java:102-117 | once a PID's first PTS in the source is known, every later PTS of the PID is written at the same distance from the re-based start |
| Splice.PtsRecordsEmitted | src/main/java/org/taktik/mpegts/sources/ContinuityFixer.java:94-123 | the latest PTS recorded for the PID is the one the emitted packet carries: its 33-bit value in a later source, its decoded value in the first |
| Splice.NewPidKeepsCounter | src/main/java/org/taktik/mpegts/sources/ContinuityFixer.java:59-74 | with defaulting lookups, the first packet of a PID absent from the previous source right after a switch raises no NullPointerException and gets its own counter plus one if it carries a payload, under Java's remainder |
| SpliceState.SpliceState.constructor | src/main/java/org/taktik/mpegts/sources/ContinuityFixer.java:25-36 | all maps start empty |
| SpliceState.SpliceState.NoteFirst | src/main/java/org/taktik/mpegts/sources/ContinuityFixer.java:59-71 | the map updates compute Splice.NoteFirst |
| SpliceState.SpliceState.FixCounter | src/main/java/org/taktik/mpegts/sources/ContinuityFixer.java:59-74 | the map updates and the rewritten counter compute Splice.FixCounter |
| SpliceState.SpliceState.FixPts | src/main/java/org/taktik/mpegts/sources/ContinuityFixer.java:94-123 | the map updates and the rewritten bytes compute Splice.FixPts |
| SpliceState.SpliceState.FixPcr | src/main/java/org/taktik/mpegts/sources/ContinuityFixer.java:79-92 | the map updates and the rewritten PCR compute Splice.FixPcr |
| SpliceState.SpliceState.RewritePcr | src/main/java/org/taktik/mpegts/sources/ContinuityFixer.java:125-139 | computes Splice.RewritePcr without touching the maps |
| SpliceState.SpliceState.Fix | src/main/java/org/taktik/mpegts/sources/ContinuityFixer.java:58-77 | counter, PTS and PCR steps in order, stopping at an exception, compute Splice.Fix |
| SpliceState.SpliceState.SwitchSource | src/main/java/org/taktik/mpegts/sources/ContinuityFixer.java:40-54 | the clears and copies compute Splice.Switch |
| ContinuityFixer.ContinuityFixer.constructor | src/main/java/org/taktik/mpegts/sources/ContinuityFixer.java:25-38 | starts in the first source with all maps empty |
| ContinuityFixer.ContinuityFixer.NextSource | src/main/java/org/taktik/mpegts/sources/ContinuityFixer.java:40-56 | the maps are switched and the fixer is past its first source from then on |
| ContinuityFixer.ContinuityFixer.FixContinuity | src/main/java/org/taktik/mpegts/sources/ContinuityFixer.java:58-77 | computes Splice.Fix with the 100 ms gap; never throws a NullPointerException; throws exactly when a PES payload is too short for its PTS; leaves first-source packets unchanged |
| SourceSequence.Next | src/main/java/org/taktik/mpegts/sources/MultiMTSSource.java:58-92 | one nextPacket never moves back to an earlier source, and leaves an exhausted one; it returns null exactly when it has run past the last source, and otherwise stands inside a source just after the packet it returned |
| SourceSequence.NextConsumesHead | src/main/java/org/taktik/mpegts/sources/MultiMTSSource.java:57-93 | nextPacket returns null exactly when no source has packets left, and otherwise consumes exactly the next packet of the concatenated sources |
| SourceSequence.NextReturnsHead | src/main/java/org/taktik/mpegts/sources/MultiMTSSource.java:62-67 | the packet returned is the next packet of the concatenated sources, unchanged without fixing, and with the same PID when fixed |
| SourceSequence.EndIsSticky | src/main/java/org/taktik/mpegts/sources/MultiMTSSource.java:59-61 | once nextPacket has returned null, every later call returns null and changes nothing |
| SourceSequence.TolerantNextNeverNull | src/main/java/org/taktik/mpegts/sources/MultiMTSSource.java:95-168 | with tables switched at every source change, the offset invariant is kept from call to call and nextPacket never fails on an absent map entry |
| MultiSource.MultiMtsSource.constructor | src/main/java/org/taktik/mpegts/sources/MultiMTSSource.java:32-51 | starts at the first source with empty tables |
| MultiSource.MultiMtsSource.Create | src/main/java/org/taktik/mpegts/sources/MultiMTSSource.java:33 | construction fails exactly when the list of sources is empty |
| MultiSource.MultiMtsSource.NextPacket | src/main/java/org/taktik/mpegts/sources/MultiMTSSource.java:57-72 | computes SourceSequence.Next, switching the tables at every exhausted source, and never throws a NullPointerException |
| MultiSource.MultiMtsSource.SwitchSource | src/main/java/org/taktik/mpegts/sources/MultiMTSSource.java:74-93 | the tables are switched when fixing, and the next source becomes current |
| MultiSource.MultiMtsSource.FixContinuity | src/main/java/org/taktik/mpegts/sources/MultiMTSSource.java:95-168 | computes Splice.Fix without a gap, rewriting from the second source on, keeps the offset invariant and never throws a NullPointerException |
| MultiSource.NextUnfixed | src/main/java/org/taktik/mpegts/sources/MultiMTSSource.java:57-72 | without fixing, nextPacket returns null exactly when no source holds a packet, otherwise it returns the next packet of the concatenated sources and consumes it |
| MultiSource.DrainUnfixed | src/main/java/org/taktik/mpegts/sources/MultiMTSSource.java:57-72 | without fixing, reading until null yields the remaining packets of all sources, in order and unchanged |
| MultiSource.MultiMtsSourceBuilder.constructor | src/main/java/org/taktik/mpegts/sources/MultiMTSSource.java:175-176 | no sources, no fixing |
| MultiSource.MultiMtsSourceBuilder.AddSource | src/main/java/org/taktik/mpegts/sources/MultiMTSSource.java:178-181 | appends the source to the list |
| MultiSource.MultiMtsSourceBuilder.AddSources | src/main/java/org/taktik/mpegts/sources/MultiMTSSource.java:183-186 | the collection is appended to itself and the builder's list is unchanged |
| MultiSource.MultiMtsSourceBuilder.SetSources | src/main/java/org/taktik/mpegts/sources/MultiMTSSource.java:188-196 | replaces the list |
| MultiSource.MultiMtsSourceBuilder.SetFixContinuity | src/main/java/org/taktik/mpegts/sources/MultiMTSSource.java:198-201 | sets the flag |
| MultiSource.MultiMtsSourceBuilder.Build | src/main/java/org/taktik/mpegts/sources/MultiMTSSource.java:203-205 | fails exactly on an empty list; otherwise a fresh sequencer over the list at its first source |
| LegacyMultiSource.MultiMtsSource.constructor | src/main/java/org/taktik/mpegts/MultiMTSSource.java:29-32 | any list, the empty one included, starting at index 0 with empty tables |
| LegacyMultiSource.MultiMtsSource.SwitchSource | src/main/java/org/taktik/mpegts/MultiMTSSource.java:38-55 | switches the tables only when fixing |
| LegacyMultiSource.MultiMtsSource.NextPacket | src/main/java/org/taktik/mpegts/MultiMTSSource.java:57-76 | computes SourceSequence.Next with strict lookups, switching the tables only when another source follows |
| LegacyMultiSource.NewPidInLaterSourceFails | src/main/java/org/taktik/mpegts/MultiMTSSource.java:83-84 | a later source starting on a PID that the previous source did not carry makes nextPacket throw a NullPointerException |
| LegacyMultiSource.MultiMtsSourceBuilder.constructor | src/main/java/org/taktik/mpegts/MultiMTSSource.java:150-151 | no sources, no fixing |
| LegacyMultiSource.MultiMtsSourceBuilder.AddSource | src/main/java/org/taktik/mpegts/MultiMTSSource.java:153-156 | appends the source to the list |
| LegacyMultiSource.MultiMtsSourceBuilder.AddSources | src/main/java/org/taktik/mpegts/MultiMTSSource.java:158-161 | the collection is appended to itself and the builder's list is unchanged |
| LegacyMultiSource.MultiMtsSourceBuilder.SetSources | src/main/java/org/taktik/mpegts/MultiMTSSource.java:163-171 | replaces the list |
| LegacyMultiSource.MultiMtsSourceBuilder.SetFixContinuity | src/main/java/org/taktik/mpegts/MultiMTSSource.java:173-176 | sets the flag |
| LegacyMultiSource.MultiMtsSourceBuilder.Build | src/main/java/org/taktik/mpegts/MultiMTSSource.java:178-180 | a fresh sequencer over any list, at index 0 |
| Sources.PacketSource.constructor | src/main/java/org/taktik/mpegts/sources/AbstractMTSSource.java:6 | a new source is open, at the start of its first pass |
| Sources.PacketSource.NextPacketInternal | src/main/java/org/taktik/mpegts/sources/AbstractMTSSource.java:29 | the pass's next packet, or null once the pass is over |
| Sources.PacketSource.NextPacket | src/main/java/org/taktik/mpegts/sources/AbstractMTSSource.java:8-14 | a closed source throws IllegalStateException without reading; an open one returns what nextPacketInternal returns |
| Sources.PacketSource.CloseInternal | src/main/java/org/taktik/mpegts/sources/AbstractMTSSource.java:30 | each call is counted, and it throws when the underlying close does |
| Sources.PacketSource.Close | src/main/java/org/taktik/mpegts/sources/AbstractMTSSource.java:16-23 | closeInternal runs on every call and the source ends closed even when it throws; the exception is passed on |
| Sources.PacketSource.Finalize | src/main/java/org/taktik/mpegts/sources/AbstractMTSSource.java:33-37 | closes the source only when it is still open |
| Sources.PacketSource.Reset | src/main/java/org/taktik/mpegts/sources/LoopingMTSSource.java:27 | the next pass starts from the first packet; each reset is counted |
| LoopingSource.LoopingMtsSource.constructor | src/main/java/org/taktik/mpegts/sources/LoopingMTSSource.java:14-19 | stores the source, the flag and the limit; the first loop is loop 1 |
| LoopingSource.LoopingMtsSource.NextPacketInternal | src/main/java/org/taktik/mpegts/sources/LoopingMTSSource.java:21-32 | a packet of the pass is returned unchanged with the loop number untouched; at the end of a pass the loop number goes up, and the source is reset and read again exactly when there is no limit or the new loop is within it, otherwise null is returned |
| LoopingSource.LoopingMtsSource.NextPacket | src/main/java/org/taktik/mpegts/sources/AbstractMTSSource.java:8-14 | a closed looping source throws without reading; an open one behaves as nextPacketInternal |
| LoopingSource.LoopingMtsSource.Close | src/main/java/org/taktik/mpegts/sources/LoopingMTSSource.java:34-37 | closes the wrapped source, and the looping source ends closed |
| LoopingSource.DrainLimited | src/main/java/org/taktik/mpegts/sources/LoopingMTSSource.java:21-32 | with a limit of k loops over a source yielding n >= 1 packets per pass, reading until null yields the pass k times, k * n packets, with k - 1 resets |
| LoopingSource.LoopingMtsSourceBuilder.constructor | src/main/java/org/taktik/mpegts/sources/LoopingMTSSource.java:43-48 | no source, no fixing, no limit |
| LoopingSource.LoopingMtsSourceBuilder.SetSource | src/main/java/org/taktik/mpegts/sources/LoopingMTSSource.java:56-59 | sets the source only |
| LoopingSource.LoopingMtsSourceBuilder.SetFixContinuity | src/main/java/org/taktik/mpegts/sources/LoopingMTSSource.java:61-64 | sets the flag only |
| LoopingSource.LoopingMtsSourceBuilder.SetMaxLoops | src/main/java/org/taktik/mpegts/sources/LoopingMTSSource.java:66-69 | sets the limit only |
| LoopingSource.LoopingMtsSourceBuilder.Build | src/main/java/org/taktik/mpegts/sources/LoopingMTSSource.java:50-54 | fails with a NullPointerException exactly when no source is set, with an IllegalArgumentException exactly when a limit of 0 or less is set, and otherwise builds a fresh looping source at loop 1 |
| ByteChannelSource.CandidateParses | src/main/java/org/taktik/mpegts/sources/AbstractByteChannelMTSSource.java:101-109 | a 188-byte candidate starting with 0x47 always parses, to a packet over exactly those bytes |
| ByteChannelSource.ByteChannelMtsSource.constructor | src/main/java/org/taktik/mpegts/sources/AbstractByteChannelMTSSource.java:22-25 | the first buffer holds the channel's first bytes and the scan starts at offset 0 |
| ByteChannelSource.ByteChannelMtsSource.FillBuffer | src/main/java/org/taktik/mpegts/sources/AbstractByteChannelMTSSource.java:27-31 | a fresh buffer holds the next min(188000, left) channel bytes, flipped, with the position at the old read offset |
| ByteChannelSource.ByteChannelMtsSource.LastBuffer | src/main/java/org/taktik/mpegts/sources/AbstractByteChannelMTSSource.java:33-35 | a buffer whose limit is below its capacity is the last one: the channel has been read to its end |
| ByteChannelSource.ByteChannelMtsSource.Refill | src/main/java/org/taktik/mpegts/sources/AbstractByteChannelMTSSource.java:77-80 | a fresh buffer holds the carried bytes and then as many channel bytes as fit or remain; the count read is returned and the position is after them |
| ByteChannelSource.ByteChannelMtsSource.Flip | src/main/java/org/taktik/mpegts/sources/AbstractByteChannelMTSSource.java:30 | the limit comes down to the position and the position goes back to 0 |
| ByteChannelSource.ByteChannelMtsSource.TakeCandidate | src/main/java/org/taktik/mpegts/sources/AbstractByteChannelMTSSource.java:64-73 | at a marker with a packet's worth left, the 188 bytes there are taken and the position advances by exactly 188 when exactly 188 remain or a marker follows them; otherwise the position advances by one; a taken candidate is the channel's bytes at that offset |
| ByteChannelSource.ByteChannelMtsSource.CarryOver | src/main/java/org/taktik/mpegts/sources/AbstractByteChannelMTSSource.java:74-83 | fewer than 188 leftover bytes of a buffer that is not the last are moved to the front of a fresh buffer read on from the channel, at the same channel offset; reading nothing means the channel's end, with fewer than 188 bytes left after the offset |
| ByteChannelSource.ByteChannelMtsSource.NextBuffer | src/main/java/org/taktik/mpegts/sources/AbstractByteChannelMTSSource.java:48-52 | an exhausted buffer that is not the last is replaced by a fresh read; nothing is read exactly when the channel is at its end |
| ByteChannelSource.ByteChannelMtsSource.EnsureRemaining | src/main/java/org/taktik/mpegts/sources/AbstractByteChannelMTSSource.java:44-53 | with nothing left to scan, the last buffer means null and the channel read to its end exactly at the offset, and any other is replaced by a fresh read; otherwise a byte at the same channel offset is ready, and one always is while channel bytes remain |
| ByteChannelSource.ByteChannelMtsSource.SkipByte | src/main/java/org/taktik/mpegts/sources/AbstractByteChannelMTSSource.java:56-58 | a byte other than 0x47 is skipped by moving one position on; no packet was framed there |
| ByteChannelSource.ByteChannelMtsSource.SeekMarker | src/main/java/org/taktik/mpegts/sources/AbstractByteChannelMTSSource.java:43-60 | bytes other than 0x47 are skipped one at a time until a marker is at the position, or the channel is read to its end; a marker at the start offset is found where it is; no packet is framed at any offset skipped, so the marker found is the first framed position, and when nothing is found no packet is framed from the start offset to the channel's end |
| ByteChannelSource.ByteChannelMtsSource.SeekStep | src/main/java/org/taktik/mpegts/sources/AbstractByteChannelMTSSource.java:44-58 | one turn of the marker search: the end, a marker at the position, or one byte skipped with the offset one further and no packet framed at the old offset |
| ByteChannelSource.ByteChannelMtsSource.ParseAtMarker | src/main/java/org/taktik/mpegts/sources/AbstractByteChannelMTSSource.java:62-109 | at a marker: the end, a packet of the 188 channel bytes at the marker with the offset 188 further, or a dropped candidate with the offset one further and no packet framed at the marker; a framed packet is always returned |
| ByteChannelSource.ByteChannelMtsSource.FrameAtMarker | src/main/java/org/taktik/mpegts/sources/AbstractByteChannelMTSSource.java:64-99 | a candidate taken is the 188 channel bytes at the marker, followed by a marker or by the end of what was read, and the offset advances by 188; a packet framed there is always taken; fewer than 188 bytes in the last buffer mean the end, with fewer than 188 channel bytes left after the marker; a candidate dropped advances the offset by one |
| ByteChannelSource.ByteChannelMtsSource.ScanOnce | src/main/java/org/taktik/mpegts/sources/AbstractByteChannelMTSSource.java:40-109 | one turn of the scan: the end, a packet whose bytes are the 188 channel bytes before the new offset and start with 0x47, or another turn, always moving forward; no packet is framed at any offset passed over before the packet, the retry point or the channel's end |
| ByteChannelSource.ByteChannelMtsSource.NextPacketInternal | src/main/java/org/taktik/mpegts/sources/AbstractByteChannelMTSSource.java:37-111 | a packet returned is the 188 channel bytes just before the new offset, starting with 0x47 and followed by 0x47 or by the end of what was read, past the old offset; null only once the channel is read to its end; a packet framed at the offset is returned with nothing skipped; no packet is framed between the old offset and the returned one, so it is the first framed packet, and null means no packet is framed from the old offset to the channel's end |
| ByteChannelSource.ByteChannelMtsSource.NextPacket | src/main/java/org/taktik/mpegts/sources/AbstractMTSSource.java:8-14 | a closed byte-channel source throws without reading; an open one returns what the scan returns: the first framed packet from the old offset, or null when none is framed from there to the channel's end |
| ByteChannelSource.ByteChannelMtsSource.Close | src/main/java/org/taktik/mpegts/sources/AbstractByteChannelMTSSource.java:113-116 | closes the channel, and the source ends closed even when that throws |
| ByteChannelSource.AlignedFramed | src/main/java/org/taktik/mpegts/sources/AbstractByteChannelMTSSource.java:65-66 | in a channel of whole packets each starting with 0x47, every packet boundary before the end frames a packet |
| ByteChannelSource.DrainAligned | src/main/java/org/taktik/mpegts/sources/AbstractByteChannelMTSSource.java:37-111 | reading such a channel until null yields its packets one after another, with nothing skipped or left over |
| Streamer.PacingPcr | src/main/java/org/taktik/mpegts/Streamer.java:70-75 | a packet paces the stream exactly when it carries a PCR with the discontinuity indicator clear, and by that PCR's value |
| Streamer.Restarted | src/main/java/org/taktik/mpegts/Streamer.java:34-43 | the reset at the top of the loop clears the flag, and an unflagged state with a last PCR passes unchanged |
| Streamer.Step | src/main/java/org/taktik/mpegts/Streamer.java:34-137 | one iteration never computes a sleep above 100 ms and counts one more packet since the last reset |
| Streamer.Slept | src/main/java/org/taktik/mpegts/Streamer.java:127-130 | only a positive sleep is slept, so a negative computed value sleeps nothing |
| Streamer.Run | src/main/java/org/taktik/mpegts/Streamer.java:32-138 | one sleep per packet, each in 0..100 ms |
| Streamer.OnlyPcrsPace | src/main/java/org/taktik/mpegts/Streamer.java:70-124 | a packet without a pacing PCR sleeps nothing and leaves the PCR state as the top of the loop left it |
| Streamer.FirstPcrOnlyRecords | src/main/java/org/taktik/mpegts/Streamer.java:81-91 | the first pacing PCR after the start or a reset sleeps nothing and becomes both the first and the last PCR, at the current time |
| Streamer.SleepFollowsPcrDistance | src/main/java/org/taktik/mpegts/Streamer.java:91-115 | a PCR above the last one sleeps the PCR distance in nanoseconds (divided by 27 first) less the time elapsed, unless that exceeds 100 ms, which sleeps nothing and flags a reset; the last PCR becomes this one at the current time plus the sleep |
| Streamer.ResetWhen | src/main/java/org/taktik/mpegts/Streamer.java:91-106 | a reset is flagged exactly when a pacing PCR follows a recorded one and does not increase or asks for more than 100 ms; a flagged reset sleeps nothing |
| Streamer.SleepNeedsIncreasingPcr | src/main/java/org/taktik/mpegts/Streamer.java:90-111 | a non-zero sleep comes only from a pacing PCR above a recorded one |
| Streamer.NoPcrNoSleep | src/main/java/org/taktik/mpegts/Streamer.java:46-130 | a stream without pacing PCRs is sent without sleeping |
| Streamer.Sink.Send | src/main/java/org/taktik/mpegts/Streamer.java:135 | the sink records the packet after those sent before |
| Streamer.Streamer.constructor | src/main/java/org/taktik/mpegts/Streamer.java:9-12 | stores the source and the sink |
| Streamer.Streamer.Stream | src/main/java/org/taktik/mpegts/Streamer.java:14-141 | every packet of the source is sent exactly once, in order, until the source returns null, with the sleeps of Streamer.Run; a closed source throws before anything is sent |
| Streamer.PacePacket | src/main/java/org/taktik/mpegts/Streamer.java:34-137 | the loop body's updates of its local variables compute Streamer.Step |
| Streamer.StreamerBuilder.constructor | src/main/java/org/taktik/mpegts/Streamer.java:147-149 | neither a sink nor a source is set |
| Streamer.StreamerBuilder.SetSink | src/main/java/org/taktik/mpegts/Streamer.java:151-154 | sets the sink only |
| Streamer.StreamerBuilder.SetSource | src/main/java/org/taktik/mpegts/Streamer.java:156-159 | sets the source only |
| Streamer.StreamerBuilder.Build | src/main/java/org/taktik/mpegts/Streamer.java:161-165 | fails with a NullPointerException exactly when the sink or the source is missing, and otherwise builds a streamer over them |

## Left out

- Packets are values. The fixers return the rewritten packet instead of changing the MTSPacket, its PCR object and its payload buffer in place. The per-PID maps keep what is read back from the stored packet objects: the final continuity counter and the final PCR value.
- `firstPacketsOfCurrentSource` is a set of PIDs, since only `containsKey` is used on it.
- The `pcrPackets.values()` loop of nextSource/switchSource is written as one map assignment. Each stored packet sits under its own PID.
- Java `long`/`int` overflow is not modelled for the PCR and PTS sums, `currentLoop` or the pacing counters. Integers are unbounded apart from the 32-bit PTS decoding and Java's `%`.
- `PCR.setValue` and the `MTSPacket(ByteBuffer)` constructor are not part of this model. `PcrOfValue` gives setValue the contract that getValue returns the value set. The byte-buffer constructor is `ParsePacket`, which always succeeds on a 188-byte candidate starting with 0x47; the drop of a candidate that fails to parse is kept in the scan.
- `PSISection.parse` is not part of this model: its outcome (null, or where the header ends) is an input of `PatSection.Parse`. `PatSection.Parse` reads the bytes up to the buffer's limit.
- `MTSPacket.readPacket`, `NIOUtils.read` and channel I/O: the byte channel is the finite sequence of bytes it delivers before its end. `NIOUtils.read` reads until the buffer is full or the channel ends, which is `ByteChannelSource.ByteChannelMtsSource.Refill`. An exception from the channel's read is not modelled.
- The resettable sources (file, seekable channel, byte source and input stream readers) are one class over the finite sequence of packets a pass yields. Exceptions thrown by a wrapped source's nextPacket are left out.
- In the sequencers, each wrapped source is its sequence of packets. Their closed flags and the sequencers' own close are not modelled.
- `Sources.PacketSource.CloseInternal` and the closing of a byte channel: whether the close throws is a fixed flag of the source.
- The `MTSSource` interface and the factory classes: each concrete source is modelled as its own class, and the streamer is modelled over the resettable packet source.
- Streamer.Streamer.Stream: the streamer reads a resettable packet source; a sequencer, looping or byte-channel source behind it is not modelled.
- `System.nanoTime` is an input (`clock[i]` while the i-th packet is handled) and `Thread.sleep` an output (the durations returned). Threads, logging, `System.out` and the `skipped` counter are left out.
- `averageSleep` is never set to a value, and `sleepNanosOrig` and `pcrPid` are never used, so they are left out of the pacing state.
- Sinks, `UDPTransport`, `ByteChannelSink`, `UdpStreamer` and `StreamerTest`: network and file I/O. The sink is a recorder of the packets sent.
- `PacketSupport`: `parse` and `write` belong to subclasses. `parse` is a counted hook; `write` is counted and its in-place serialization is given as the image the subclass writes into the buffer, with position and limit kept.
- ByteChannelSource.ByteChannelMtsSource.NextPacketInternal: the statements that no packet is framed at an offset passed over are made from a state whose buffer is flipped for reading, which holds after the constructor and after every call that returns a packet.
- `MultiSource.MultiMtsSourceBuilder.AddSources` and `LegacyMultiSource.MultiMtsSourceBuilder.AddSources`: the mutation of the caller's collection is modelled as the collection returned.
