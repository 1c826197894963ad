# A model of the oxidelta delta codec

oxidelta turns a target into a VCDIFF delta (RFC 3284) against a source and back. It is a small
compiler: a match engine describes each target window by ADD, COPY and RUN instructions, the
instructions are packed into DATA, INST and ADDR sections through a stateful address cache and a
256-entry code table, the sections are framed and concatenated, and a decoder machine replays them.
This project models that pipeline in Dafny and proves that every stage keeps the meaning of what it
is given.

The meaning of a window is `Instructions.Replay`, a plain fold over operations that appends bytes to
the output. It is shown equal to the superstring semantics of section 3 of RFC 3284 and, for
instructions that describe a given target, equivalent to a statement about slices (`Explains`, with
`Accepted` for the decoder's boundary test). `Sections.Parse` and `Sections.Bind` say which operations
three section byte strings stand for. The encoder is proved against these functions as an inverse, the
decoder as an implementation. The match engine is proved against `MatchEngines.Search`, a search that
keeps the full history of positions, scans the source linearly and computes every checksum and run
length afresh.

Main results:

- `Engine.EncodeWithOptions`: for every source, target, level, window size and choice of hash
  functions, the stream decodes to exactly the target if no window exceeds the decoder's limit of
  2^24 bytes, and is rejected otherwise. Its bytes are the file header and, for each window, the packed
  form of what the plain search finds.
- `Encoder.WindowEncoder.FinishSections` with `Streams.AssembledDecodes`: any sequence of add, copy and
  run calls comes back as that sequence, through the pending slot, double opcodes, explicit sizes,
  address modes and framing.
- `MatchEngines.MatchEngine.FindMatches`: circular chains, bucket tables, rolled checksums and the run
  counter find exactly what the plain search finds, and what is found partitions and explains the target.
- `Pipeline.OptimizeExact`: the optimiser keeps the meaning of an instruction list if and only if
  adjacent RUNs repeat the same byte, and keeps it acceptable to the decoder if and only if no COPY
  continues its neighbour exactly at the end of the source.
- `DeltaEncoders.DeltaEncoder.Finish`: the streaming encoder's output decodes to what was fed to it if
  and only if every window is within the limit and, above level 0, satisfies those two conditions.
  However the input is split into calls, the bytes written are the same: they are a function of the
  options, the source and the data (`DeltaEncoders.EncodePieces`).

The streaming encoder promises a round trip for all inputs and does not keep that promise above level
0. The comment at src/compress/pipeline.rs:86-88 takes for granted that adjacent RUNs have the same
byte; the match engine does not establish it. `Failures.TwoRunsLost` and `Failures.CopiesLost`
give two families of inputs that do not come back, one for each way the optimiser fails;
`Pipeline.RunsMerged` and `Pipeline.CopiesJoined` show the two failures in the optimiser alone. The model follows the code.

Files follow the repository: `Varint`, `Addressing`, `CodeTable`, `Headers`, `Encoder`, `Decoder`,
`Inspector` and `Streams` for src/vcdiff, `Rolling`, `Tables`, `Matching`, `Overlap` and `MatchEngine`
for src/hash, `Pipeline` and `DeltaEncoder` for src/compress, `Emission` and `Engine` for src/engine.rs.
`Windowing` cuts a target for both drivers. `Base`, `Arithmetic`, `Instructions` and `Sections` hold what the
others share, `WireFormat` exact bytes, `Failures` the inputs that are lost.

Conventions: bytes are numbers below 256; addresses and positions are natural numbers; a writer is the
byte string written so far, a reader the byte string still to be read; an error is a constructor
without its message text. The hash functions, bucket maps and table sizes are parameters, so every
result holds for any choice of them. Where 16- and 32-bit wrap-around matters (the rolling checksum) it
is written out.

## Model

| member | source | states |
|---|---|---|
| Varint.EncodeU64 | src/vcdiff/varint.rs:29-41 | The filled end of the ten-byte buffer is the base-128 form of the number. |
| Varint.EncodeValue | src/vcdiff/varint.rs:29-41 | The form has the number as its value, continuation bits on all bytes but the last. |
| Varint.ReadInteger | src/vcdiff/varint.rs:77-104 | The reading loop, with its overflow test before each shift, returns the value of the first terminated group string if it fits the width, and tells overflow from missing bytes otherwise. |
| Varint.ReadEncode | src/vcdiff/varint.rs:77-89 | Reading an encoded number followed by anything gives the number and its exact length. |
| Varint.ReadPrefix | src/vcdiff/varint.rs:77-89 | A successful read does not depend on the bytes behind it. |
| Varint.ReadAcceptsIffFits | src/vcdiff/varint.rs:77-104 | A terminated group string is accepted if and only if its value fits, leading zero groups included, and then gives that value and length. |
| Varint.EncodeShortest | src/vcdiff/varint.rs:29-41 | No group string with the same value is shorter than the encoding. |
| Varint.EncodeMonotone | src/vcdiff/varint.rs:29-41 | A larger number never has a shorter encoding. |
| Varint.SizeofExact | src/vcdiff/varint.rs:171-182 | The bit-count formulas for both widths equal the length of the encoding, at most ten and five bytes. |
| Addressing.AddressCache.constructor | src/vcdiff/address_cache.rs:45-53 | A new cache of any sizes whose modes fit a byte is the all-zero cache. |
| Addressing.AddressCache.Init | src/vcdiff/address_cache.rs:57-61 | Resetting gives the all-zero cache of the same sizes. |
| Addressing.AddressCache.Update | src/vcdiff/address_cache.rs:95-104 | In-place update of both arrays and the slot counter is the update of section 5.1 of RFC 3284 on values. |
| Addressing.AfterHolds | src/vcdiff/address_cache.rs:95-104 | After any run of addresses the slot counter is their number modulo the NEAR size, NEAR holds the last of them, number k in slot k modulo the size, and each SAME slot holds the latest address that falls into it; everything else is 0. |
| Addressing.RunHolds | src/vcdiff/address_cache.rs:95-243 | The same for the cache that any run of encoded addresses leads to. |
| Addressing.ModeMeaning | src/vcdiff/address_cache.rs:197-230 | Mode 0 is the number read, mode 1 the position minus it, mode 2 + i NEAR slot i plus it, each only if it lies before the position, whatever follows. |
| Addressing.SameMeaning | src/vcdiff/address_cache.rs:197-243 | A SAME mode and a byte name the slot of that group, in one byte. |
| Addressing.BestOffsetFirst | src/vcdiff/address_cache.rs:119-152 | Of SELF, HERE and NEAR the first mode whose offset fits one byte is used; if there is none, the first with the least offset. |
| Addressing.AddressCache.Choose | src/vcdiff/address_cache.rs:119-176 | The form chosen decodes to the address and none of the SELF, HERE, NEAR and SAME forms available is shorter, despite the early exits; it is a function of cache, address and position. |
| Addressing.AddressCache.Encode | src/vcdiff/address_cache.rs:119-176 | The form written decodes to the address in the state before, no available form is shorter, and the state moves on by that address. |
| Addressing.AddressCache.EmitNonSame | src/vcdiff/address_cache.rs:178-184 | Keeps the mode and writes the offset as a varint of at most ten bytes. |
| Addressing.AddressCache.DecodeAddress | src/vcdiff/address_cache.rs:197-243 | Returns the decoded address, bytes consumed and updated cache, or fails and leaves the cache alone; an address at or behind `here` fails. |
| Addressing.LeastOffsetShortest | src/vcdiff/address_cache.rs:119-176 | If an address is not in the SAME cache, the least offset among SELF, HERE and NEAR gives a shortest form. |
| Addressing.DecodePrefix | src/vcdiff/address_cache.rs:197-243 | Bytes behind an address do not change how it decodes. |
| Addressing.Lockstep | src/vcdiff/address_cache.rs:95-243 | For any cache sizes and any run of forms, decoding gives back every address, consumes exactly the bytes written and ends in the same cache state. |
| Addressing.EncodeRun | src/vcdiff/address_cache.rs:119-176 | Encoding any addresses one after the other gives such a run. |
| Addressing.InLockstep | src/vcdiff/address_cache.rs:95-243 | Two cache objects in the same state: whatever one encodes, the other decodes from exactly the bytes written, and both end in the same state. |
| CodeTable.BuildDefaultCodeTable | src/vcdiff/code_table.rs:37-152 | The nested loops fill all 256 entries with the closed form of the table in section 5.6 of RFC 3284. |
| CodeTable.TableLines | src/vcdiff/code_table.rs:37-152 | Where each line of the table in section 5.6 of RFC 3284 stands, for every size and mode, except the ADD and COPY pairs. |
| CodeTable.AddCopyEntry | src/vcdiff/code_table.rs:37-152 | Where the ADD and COPY pairs stand. |
| CodeTable.EntryShape | src/vcdiff/code_table.rs:37-152 | Every opcode begins with a real instruction; both halves of a double opcode have an implicit size. |
| CodeTable.SingleOpcode | src/vcdiff/code_table.rs:192-252 | The single opcode chosen is an opcode for that instruction, and leaves the size explicit only if no opcode has it built in. |
| CodeTable.DoubleOpcode | src/vcdiff/code_table.rs:192-252 | A double opcode is offered if and only if the table has an entry for exactly that pair, and it is that entry. |
| Instructions.ReplayIsSuper | src/vcdiff/decoder.rs:300-418 | Replaying over separate source and output equals copying byte by byte in the superstring of section 3 of RFC 3284, and succeeds exactly if that does and no COPY crosses the boundary. |
| Instructions.ReplayAppend | src/vcdiff/decoder.rs:195-295 | Replaying a concatenation is replaying the parts in turn. |
| Instructions.ExplainsIffReplays | src/vcdiff/decoder.rs:300-418 | Instructions replay to the target if and only if they partition it, every COPY and RUN equals the stretch it stands for, and no COPY crosses the boundary. |
| Sections.ExecuteHalf | src/vcdiff/decoder.rs:300-418 | Interleaved execution of one half instruction agrees with parsing everything, then binding literals, then replaying. |
| Sections.ParseExtend | src/vcdiff/encoder.rs:176-208 | Appending to the INST and ADDR sections appends to the instructions they stand for. |
| Sections.BindExtend | src/vcdiff/encoder.rs:109-163 | Appending to DATA together with instructions appends the operations. |
| Encoder.WindowEncoder.constructor | src/vcdiff/encoder.rs:63-75 | A new encoder has accepted no operation. |
| Encoder.WindowEncoder.Add | src/vcdiff/encoder.rs:109-120 | The sections now stand for one more literal; empty data changes nothing. |
| Encoder.WindowEncoder.WriteAddress | src/vcdiff/encoder.rs:127-142 | The bytes added to ADDR read back as the address in the mode returned, and earlier instructions read back as before. |
| Encoder.WindowEncoder.Copy | src/vcdiff/encoder.rs:127-142 | The sections now stand for one more copy from that address, whatever mode was chosen; length zero changes nothing. |
| Encoder.WindowEncoder.Run | src/vcdiff/encoder.rs:152-163 | The sections now stand for one more run; length zero changes nothing. |
| Encoder.WindowEncoder.EmitInstruction | src/vcdiff/encoder.rs:214-230 | Written opcodes plus the pending one parse to all instructions so far; if the table has an opcode for the pending instruction and the new one, INST grows by exactly that byte and nothing is pending, otherwise the new one is pending. |
| Encoder.QueuePairs | src/vcdiff/encoder.rs:214-230 | The same about the bytes as a function of the operations. |
| Encoder.SectionsTight | src/vcdiff/encoder.rs:176-236 | In finished sections two neighbouring opcodes that stand for one instruction each are never a pair the table has an opcode for. |
| Encoder.WindowEncoder.FlushPending | src/vcdiff/encoder.rs:232-236 | Writing the pending instruction changes nothing about what the sections stand for. |
| Encoder.WindowEncoder.EmitOpcodeSingle | src/vcdiff/encoder.rs:240-246 | Appends the opcode and, only where its table size is zero, the size. |
| Encoder.WindowEncoder.EmitOpcodeDouble | src/vcdiff/encoder.rs:249-252 | One byte stands for the pending instruction and the new one. |
| Encoder.WindowEncoder.FinishSections | src/vcdiff/encoder.rs:176-208 | The three sections parse, with nothing left over, to exactly the operations accepted, the checksum is that of the target data, and every byte is determined by the operations. |
| Encoder.AssembleRead | src/vcdiff/encoder.rs:277-307 | Reading an assembled window gives its header and leaves the reader exactly at the sections; a window over the hard limit is rejected. |
| Encoder.AssembleEncLen | src/vcdiff/encoder.rs:277-307 | The delta encoding length counts exactly the bytes behind it. |
| Headers.FileHeaderRoundTrip | src/vcdiff/header.rs:83-171 | Decoding an encoded file header gives it back and leaves the rest, with any secondary id and application header. |
| Headers.FileHeaderAccepted | src/vcdiff/header.rs:109-171 | Whatever is accepted has the magic bytes, flags below 8, no custom code table, and its optional fields exactly as flagged. |
| Headers.WindowHeaderRoundTrip | src/vcdiff/header.rs:240-389 | Decoding an encoded window header gives it back and leaves the rest if the target is within 2^24 bytes, and fails otherwise. |
| Headers.WindowHeaderAccepted | src/vcdiff/header.rs:292-389 | Whatever is accepted has flags below 8, not both segment flags, the computed encoding length, and a target of at most 2^24 bytes. |
| Headers.BigEndianIs | src/vcdiff/header.rs:240-263 | The checksum is written most significant byte first. |
| Headers.EncLenExact | src/vcdiff/header.rs:272-286 | The computed length is the number of bytes from the field behind it to the end of the sections. |
| Checksum.ComputeAdler32 | src/vcdiff/decoder.rs:598-608 | The loop computes the two running sums of Adler-32. |
| Checksum.SumsAre | src/vcdiff/decoder.rs:598-608 | The sums are one plus the total of the bytes, and that added up over all prefixes, modulo 65521. |
| Decoder.SelfCopy | src/vcdiff/decoder.rs:393-411 | The split into bulk copy and overlapping copy equals copying byte by byte. |
| Decoder.SourceCopy | src/vcdiff/decoder.rs:375-392 | Gives the source stretch, or fails if it is not all there. |
| Decoder.ExecuteHalfInstruction | src/vcdiff/decoder.rs:300-418 | For arbitrary sections and cursors, one half instruction moves the machine as the reference says, fails exactly when it does, and keeps all cursors in bounds and earlier output unchanged. |
| Decoder.NextOpcode | src/vcdiff/decoder.rs:226-275 | What remains to be decoded is the same before and after an opcode, which always advances. |
| Decoder.DecodeSections | src/vcdiff/decoder.rs:276-295 | A window that decodes has exactly the announced number of bytes. |
| Decoder.DecodesIff | src/vcdiff/decoder.rs:195-295 | Sections decode to some bytes if and only if their instructions replay to them, they have the announced length and, when verified, the announced checksum. |
| Decoder.DecodeWindowWithCache | src/vcdiff/decoder.rs:195-295 | For arbitrary sections the machine terminates, never changes what was in the output, and appends exactly what the three-pass reference gives or fails with its error; on success it has executed exactly the parsed instructions. |
| Inspector.InstructionIterator.ResolveHalf | src/vcdiff/decoder.rs:644-683 | Yields the instruction the parse has at this place and moves every cursor as the parse does. |
| Inspector.InstructionIterator.Next | src/vcdiff/decoder.rs:689-717 | Yields the next instruction of the parse, an error exactly if the parse fails from here on, nothing exactly at its end. |
| Inspector.Collect | src/vcdiff/decoder.rs:616-718 | Exhausting the iterator gives the whole parsed list, without error exactly if the sections parse. |
| Inspector.ParsedReplays | src/vcdiff/decoder.rs:226-275 | For a window that decodes, the parsed instructions add up to the announced length, and bound to the data they replay to the decoded bytes. |
| Inspector.InspectDecoded | src/vcdiff/decoder.rs:616-718 | When the machine decodes a window, the iterator yields without error exactly the instructions the machine executed, with their addresses and modes, and these replay to what the machine appended. |
| Streams.StreamDecoder.DecodeWindow | src/vcdiff/decoder.rs:477-552 | Consumes one window and appends its bytes, tells the end of the stream, or fails; earlier output is kept. |
| Streams.WindowAccepted | src/vcdiff/decoder.rs:477-552 | Whatever decodes as a window has a consistent header that announces neither a target segment nor compressed sections, and gives bytes of the announced length and checksum. |
| Streams.StreamDecoder.DecodeAll | src/vcdiff/decoder.rs:555-562 | Decoding into one growing buffer appends the concatenation of the windows decoded separately. |
| Streams.DecodeMemory | src/vcdiff/decoder.rs:579-585 | Decodes a delta in memory, with checksum verification. |
| Streams.DeltaDecoder.DecodeWindowTo | src/compress/decoder.rs:67-88 | Writes exactly the next window and counts its bytes. |
| Streams.DeltaDecoder.DecodeTo | src/compress/decoder.rs:54-61 | Decoding window by window into a fresh buffer writes the same bytes as one growing buffer and returns the number of all bytes decoded so far. |
| Streams.EncodedSections | src/vcdiff/decoder.rs:195-295 | Sections that stand for some operations decode to what those operations replay to, subject to the size and checksum tests. |
| Streams.AssembledDecodes | src/vcdiff/decoder.rs:477-552 | An assembled window in front of any further bytes decodes to what its operations replay to and leaves the rest. |
| Streams.WindowsDecode | src/vcdiff/decoder.rs:555-562 | Any number of windows in a row decode to their results in a row, or to the first error. |
| Streams.StreamDecodes | src/vcdiff/decoder.rs:446-468 | The same behind a file header. |
| Streams.StreamEncoder.WriteRawWindow | src/vcdiff/encoder.rs:358-364 | Appends the window; the file header is written once, in front of the first. |
| Streams.StreamEncoder.Finish | src/vcdiff/encoder.rs:373-379 | The output is what was there, one file header and all windows, even if there are none. |
| Rolling.ForwardMatch | src/hash/rolling.rs:270-359 | The length of the longest common prefix, up to any limit. |
| Rolling.SuffixLength | src/hash/rolling.rs:534-561 | The length of the longest common suffix. |
| Rolling.BackwardMatch | src/hash/rolling.rs:474-476 | The same for both strings cut off at any limit or at the shorter length. |
| Rolling.FindRunLength | src/hash/rolling.rs:663-728 | The length of the longest run of the byte at the front, up to any limit. |
| Rolling.CompRun | src/hash/rolling.rs:243-256 | The length and byte of the run that ends the look-ahead. |
| Rolling.ComputeChecksum | src/hash/rolling.rs:130-139 | The accumulating loop gives the two weighted sums, each modulo 2^16. |
| Rolling.ChecksumHalves | src/hash/rolling.rs:130-139 | The upper half is the sum of all prefix sums, the lower half the plain sum. |
| Rolling.RollExact | src/hash/rolling.rs:143-156 | For any width and any byte hash, the rolled checksum equals a fresh one, through 32-bit wrap-around and 16-bit masking. |
| Tables.SmallTable.Reset | src/hash/table.rs:57-62 | Forgets every position. |
| Tables.SmallTable.Lookup | src/hash/table.rs:67-76 | The latest position inserted in the bucket. |
| Tables.LatestIff | src/hash/table.rs:67-76 | A lookup gives p if and only if p is in the bucket and nothing later is. |
| Tables.LinksSnoc | src/hash/table.rs:82-97 | Writing the old head of the bucket into the slot of the new position keeps every chain slot the predecessor of the latest position in it, overwritten or not. |
| Tables.SmallTable.Insert | src/hash/table.rs:82-97 | The bucket array and the circular chain array represent the history with the position added; a position that does not fit 32 bits is ignored. |
| Tables.SmallTable.ChainBack | src/hash/table.rs:104-124 | A step through the circular array gives what the full history gives: overwritten slots never show. |
| Tables.ChainPrevIff | src/hash/table.rs:104-124 | The step gives p if and only if p is the latest earlier position of the bucket and is not further behind than the array reaches. |
| Tables.LargeTable.Lookup | src/hash/table.rs:175-184 | The position stored in the bucket, if any. |
| Tables.LargeTable.Insert | src/hash/table.rs:189-193 | Overwrites exactly that bucket. |
| Tables.IndexSource | src/hash/matching.rs:178-199 | Filling the table from the back leaves in every bucket what a scan of the indexed positions from the front finds, and what was there before if it finds nothing. |
| Tables.ScanSourceLeast | src/hash/matching.rs:188-199 | That scan gives p if and only if p is the smallest indexed position whose checksum falls into the bucket. |
| Matching.Profiles | src/hash/config.rs:54-121 | The five profiles and the levels they belong to. |
| Matching.ConfigMonotone | src/hash/config.rs:54-121 | A higher level never indexes less of the source, walks shorter chains or waits less. |
| Matching.RunTakenIff | src/hash/matching.rs:368-400 | A run is taken exactly at its start, if it has eight bytes and is not shorter than what is waited for, and then in full. |
| Matching.SourceCandidateIff | src/hash/matching.rs:403-415 | The source position tried is the least indexed one in the bucket of the checksum at this position. |
| Matching.ExtendGenuine | src/hash/matching.rs:626-661 | A source match stretched forward and backward has the bytes it claims. |
| Matching.ExtendMaximal | src/hash/matching.rs:626-661 | There is a match exactly if four bytes agree, and it cannot be stretched further in either direction. |
| Matching.SourceTakenIff | src/hash/matching.rs:403-454 | It is taken exactly if its forward part is not shorter than what is waited for; matches it covers backward are dropped. |
| Matching.EraseExact | src/hash/matching.rs:418-432 | Exactly the matches at the end that start at or behind its start are dropped. |
| Matching.ChainComplete | src/hash/matching.rs:561-597 | A walk begins at the head, strictly descends, and misses no position of the bucket within reach unless it has met the allowed number of later ones. |
| Matching.CandidatesComplete | src/hash/matching.rs:538-597 | Every remembered position of the bucket within reach is compared, unless the allowed number of later ones is. |
| Matching.SmallMatchLongest | src/hash/matching.rs:538-619 | A self-match is not shorter than what any such position offers, unless it is long enough, reaches the end, or the walk was used up, which takes fewer positions while waiting. |
| Matching.PickFirst | src/hash/matching.rs:561-597 | The walk ends at the first candidate that is long enough or reaches the end, and of equally long ones the first is kept. |
| Matching.WorthwhileIff | src/hash/matching.rs:599-612 | Exactly matches below four bytes, of four bytes from 2^14 back and of five bytes from 2^21 back are rejected. |
| Matching.SelfTakenIff | src/hash/matching.rs:457-486 | A self-match is taken exactly if it is not shorter than what is waited for. |
| Matching.PickIsCandidate | src/hash/matching.rs:538-619 | The self-match chosen is on the chain and as long as the bytes agree. |
| Matching.PickLongest | src/hash/matching.rs:538-619 | No candidate is longer, unless the walk stopped at one long enough or reaching the end. |
| Matching.SmallMatchGenuine | src/hash/matching.rs:538-619 | A self-match starts before its position and has the bytes it claims. |
| Matching.Step | src/hash/matching.rs:350-527 | Every step of the scan advances and remembers only earlier positions. |
| Matching.WaitsIff | src/hash/matching.rs:825-827 | The scan waits for something better exactly if the match is shorter than the profile's limit and two bytes are left behind it. |
| Matching.StepJumps | src/hash/matching.rs:368-486 | What is not waited for is jumped over, and the bar and the run detection start afresh; only the position of a self-match is remembered. |
| Matching.StepWaiting | src/hash/matching.rs:489-527 | While waiting the scan moves on by one byte, and only something at least as long will do. |
| Matching.StepIdle | src/hash/matching.rs:489-527 | When nothing is found the scan moves on by one byte, the bar sinks by one down to four, and the position is remembered. |
| Matching.ScanGoesOn | src/hash/matching.rs:350-362 | The scan ends exactly when fewer than four bytes are left. |
| Matching.InitialMatchIs | src/hash/matching.rs:278-311 | The first probe takes exactly what the target and the source have in common, from four bytes on. |
| Matching.NextSrcPosIs | src/hash/matching.rs:283-299 | The next window looks behind a target that was found as a whole, and else where this one did. |
| Matching.StepSound | src/hash/matching.rs:368-527 | On every path through the loop, with run, source match, erasure, self-match and lazy waiting, all recorded matches stay genuine. |
| Matching.SearchSound | src/hash/matching.rs:283-527 | Every match recorded by a whole scan is in bounds and has the bytes it claims, a self-copy from strictly before. |
| Overlap.ResolveDisjoint | src/hash/matching.rs:746-764 | Whatever the order and overlap of the matches, the stack is sorted, free of overlap and made of given matches. |
| Overlap.PlaceExact | src/hash/matching.rs:746-764 | A match is placed if and only if everything on the stack that reaches into it is shorter, and pushes out only what reached into it and was shorter. |
| Overlap.LongestKept | src/hash/matching.rs:746-764 | A match longer than all others is always kept. |
| Overlap.NothingSkipped | src/hash/matching.rs:766-813 | The later test for overlap never fires: every match on the stack becomes an instruction. |
| Overlap.ResolveGood | src/hash/matching.rs:738-815 | For any genuine matches the instructions partition the target, explain it and pass the boundary test. |
| Overlap.BuildStack | src/hash/matching.rs:746-764 | The pushing and popping loop builds that stack. |
| Overlap.MatchesToInstructions | src/hash/matching.rs:738-815 | The loops give the instructions of the resolved stack with literals in the gaps. |
| MatchEngines.SearchGood | src/hash/matching.rs:234-531 | What the plain search gives partitions and explains the target and passes the boundary test. |
| MatchEngines.PrefixCopied | src/hash/matching.rs:278-311 | A window that stands in the source where the search looks first is one COPY, on every level and for all hash functions. |
| MatchEngines.MatchEngine.constructor | src/hash/matching.rs:126-171 | A new engine has empty tables and no remembered source position. |
| MatchEngines.MatchEngine.IndexSource | src/hash/matching.rs:178-199 | The engine's table answers for that source. |
| MatchEngines.MatchEngine.Slide | src/hash/matching.rs:489-527 | Run counter and checksums moved on by one byte are what they would be if computed afresh. |
| MatchEngines.MatchEngine.TryRun | src/hash/matching.rs:368-400 | The counter finds the run the plain probe finds. |
| MatchEngines.MatchEngine.ExtendSourceMatch | src/hash/matching.rs:626-661 | The slice kernels stretch the match as the plain search does. |
| MatchEngines.MatchEngine.TryLarge | src/hash/matching.rs:403-454 | The table lookup leads to the source match, erasure and jump the plain probe leads to. |
| MatchEngines.MatchEngine.SearchSmall | src/hash/matching.rs:538-619 | Walking the circular chain gives the self-match chosen from the full history. |
| MatchEngines.MatchEngine.TrySmall | src/hash/matching.rs:457-486 | The self-match probe agrees with the plain one and inserts the position. |
| MatchEngines.MatchEngine.ScanTarget | src/hash/matching.rs:350-527 | The loop terminates and records exactly the matches of the plain scan. |
| MatchEngines.MatchEngine.FindMatches | src/hash/matching.rs:234-531 | The instructions are those of the plain search, for the remembered source position too, and they partition and explain the target. |
| Pipeline.MergedFits | src/compress/pipeline.rs:60-95 | Two fitting neighbours merge into a fitting instruction, except RUNs of different bytes, which never do. |
| Pipeline.CoalesceExplains | src/compress/pipeline.rs:17-57 | After merging, the list explains the target if and only if adjacent RUNs repeat the same byte. |
| Pipeline.CoalesceAccepted | src/compress/pipeline.rs:60-95 | After merging, no COPY crosses the boundary if and only if none continued its neighbour exactly there. |
| Pipeline.CoalesceAll | src/compress/pipeline.rs:17-57 | The loop over a growing list computes the merged list. |
| Pipeline.CoalesceSeparated | src/compress/pipeline.rs:17-95 | In the merged list no ADD follows an ADD, no RUN a RUN, and no COPY continues its neighbour in the same mode. |
| Pipeline.SplitCanonical | src/compress/pipeline.rs:126-173 | The segments partition the data, every RUN is a maximal run of at least eight bytes, no ADD contains eight equal bytes in a row, and no two ADDs are adjacent. |
| Pipeline.CanonicalUnique | src/compress/pipeline.rs:126-173 | There is only one such division. |
| Pipeline.SplitAddWithRuns | src/compress/pipeline.rs:126-173 | The loop appends that division. |
| Pipeline.SplitAddRuns | src/compress/pipeline.rs:101-123 | Every ADD is replaced by the division of its own stretch of the target. |
| Pipeline.OptimizeExact | src/compress/pipeline.rs:17-123 | Optimising keeps all lengths; the result explains the target if and only if adjacent RUNs agreed, and passes the boundary test if and only if no COPY pair met at the source end. |
| Pipeline.OptimizedApart | src/compress/pipeline.rs:17-123 | In the optimised list no ADD follows an ADD. |
| Pipeline.OptimizedShortAdds | src/compress/pipeline.rs:101-173 | In the optimised list no ADD covers eight equal bytes in a row. |
| Pipeline.Optimize | src/compress/pipeline.rs:17-57 | The two passes compute the optimised list. |
| Pipeline.RunsMerged | src/compress/pipeline.rs:85-91 | Ten bytes of one kind and ten of another: two correct RUNs become one wrong RUN. |
| Pipeline.CopiesJoined | src/compress/pipeline.rs:67-83 | A copy to the end of the source and one from the start of the target become a COPY the decoder rejects, for every source. |
| Emission.EmitInstructions | src/engine.rs:125-152 | The encoder has accepted exactly the instructions, each with its own bytes of the target. |
| Emission.EncodeWindow | src/compress/encoder.rs:246-281 | The window written decodes, with or without verification, to the outcome of replaying the instructions, its bytes are determined by them, and it announces the whole source, the target's length and, exactly if asked for, its checksum. |
| Emission.WindowExact | src/vcdiff/decoder.rs:195-418 | A window decodes to its target if and only if it is within the limit, the instructions explain the target and none crosses the boundary. |
| Emission.EncodeEmpty | src/engine.rs:95-101 | The window of an empty target decodes to nothing, whatever the source. |
| Engine.FindForWindow | src/engine.rs:107-121 | A new engine, with or without source, gives exactly what the plain search finds from the start of the source, which partitions and explains the window. |
| Engine.PrefixFound | src/engine.rs:107-121 | A window the source begins with is found as exactly one COPY, on every level and with any tables. |
| Engine.EncodeOne | src/engine.rs:65-93 | The bytes of a window are those of what is found, with or without checksum as asked. |
| Engine.EncodeWithOptions | src/engine.rs:51-105 | Appends the file header and the bytes of what is found for each window, with tables chosen by its length; the stream decodes to exactly the target if no window is over the decoder's limit, and to an error otherwise. |
| Engine.RoundTrip | src/engine.rs:46-164 | Encoding, then decoding with verification, gives the target back for every window size from 1 to 2^24. |
| Windowing.CutAppend | src/compress/encoder.rs:159-191 | Data that comes in two pieces is cut into the windows it would be cut into in one. |
| Windowing.WindowsConcat | src/compress/encoder.rs:159-211 | The windows together are the data, none is empty, and all but the last are full. |
| Windowing.WindowAt | src/compress/encoder.rs:159-211 | Window i is the stretch of the data from i times the window size on. |
| DeltaEncoders.PlanEmittable | src/compress/encoder.rs:224-300 | Whatever was found and merged can be written: lengths add up and no COPY looks ahead. |
| DeltaEncoders.PlanExact | src/compress/encoder.rs:224-300 | A window decodes to itself if and only if it is within the limit and, above level 0, what was found can be merged safely. |
| DeltaEncoders.StreamExact | src/compress/encoder.rs:224-300 | The stream decodes to the windows in a row if and only if every window is safe. |
| DeltaEncoders.ClosedExact | src/compress/encoder.rs:196-211 | The same for the windows of some data, with one empty window if there are none. |
| DeltaEncoders.DeltaEncoder.constructor | src/compress/encoder.rs:119-153 | A new encoder has been fed nothing; above level 0 its engine has indexed the source. |
| DeltaEncoders.DeltaEncoder.PlanWindow | src/compress/encoder.rs:303-312 | The reused engine finds, for the windows seen so far, what the plan for this window says. |
| DeltaEncoders.DeltaEncoder.EncodeWindow | src/compress/encoder.rs:224-300 | Adds one window to those written; all of them decode as planned. |
| DeltaEncoders.DeltaEncoder.FillBuffer | src/compress/encoder.rs:163-177 | Completes a begun window first, and loses or repeats no byte. |
| DeltaEncoders.DeltaEncoder.WriteTarget | src/compress/encoder.rs:159-191 | The windows written are the full windows of everything fed so far, the buffer has the rest and is shorter than a window. |
| DeltaEncoders.DeltaEncoder.FlushBuffer | src/compress/encoder.rs:196-201 | After it the windows written are all windows of what was fed. |
| DeltaEncoders.DeltaEncoder.Finish | src/compress/encoder.rs:196-211 | Counts the windows of what was fed; the bytes written are a function of options, source and what was fed, and decode to what was fed if and only if every window is safe. |
| DeltaEncoders.EncodePieces | src/compress/encoder.rs:159-211 | Any way of splitting a target into calls gives the same bytes. |
| DeltaEncoders.CappedWindows | src/compress/encoder.rs:322-326 | Cutting the window size down for a short target leaves the windows as they are. |
| DeltaEncoders.EncodeAll | src/compress/encoder.rs:316-331 | The same as finishing, for a whole target; the window size cut down for a short target may change the tables, the windows stay the same. |
| Failures.TwoRunsFound | src/hash/matching.rs:368-394 | Without a source, two long runs of different bytes are found as two adjacent RUNs, on every level and for all hash functions. |
| Failures.TwoRunsLost | src/compress/pipeline.rs:85-91 | What the streaming encoder writes for such a target never decodes to it, on any level above 0, with or without verification. |
| Failures.SandwichFound | src/hash/matching.rs:283-527 | On level 1, for some bytes, a nine-byte source and the bytes again, the engine finds literals, a copy of the source and a copy that starts where the source ends. |
| Failures.CopiesLost | src/compress/pipeline.rs:67-83 | What the streaming encoder writes for such a target never decodes to it, because the two copies are merged across the end of the source. |
| WireFormat.HeaderImage | src/vcdiff/header.rs:240-286 | A short window header field by field. |
| WireFormat.LiteralImage | src/vcdiff/encoder.rs:109-307 | The window of a literal of up to 17 bytes, byte by byte, with and without checksum. |
| WireFormat.CopyImage | src/vcdiff/encoder.rs:127-307 | The window of a target equal to a source of 4 to 18 bytes, byte by byte, with and without checksum. |
| WireFormat.LevelZero | src/compress/encoder.rs:234-241 | On level 0 everything is one literal. |
| WireFormat.PlainStream | src/compress/encoder.rs:159-300 | The whole stream of the streaming encoder for such a literal on level 0, from the first magic byte on. |
| WireFormat.SameStream | src/engine.rs:51-105 | The whole stream of the one-call encoder for a target equal to such a source, on every level and with any tables. |
| WireFormat.PrefixPlanned | src/compress/encoder.rs:224-312 | For a target the source begins with, the streaming encoder writes one COPY per window, each from where the one before ended, on every level above 0 and for all hash functions. |

## Left out

- Sums of addresses and lengths are not wrapped at 64 bits; a source length is at most that of a slice.
- Secondary compression (src/compress/secondary.rs): a window with a compressed section is reported as unsupported, and the encoder never compresses.
- The SIMD kernels, CPU dispatch, eight-byte steps, prefetching and unchecked indexing of src/hash: the scalar meaning is modelled.
- Sources that are not one slice (src/hash/matching.rs:201-228, 663-723) and source readers with partial reads.
- encode_all_parallel: the same per-window steps on several threads.
- The command line, files and SHA-256 (src/cli.rs, src/io.rs).
- The values of the byte hash table and the sizing of hash tables: no property depends on them.
- Error message texts, capacity hints and byte counters that nothing reads.
- Application header and secondary id of the stream encoder: only the header format is modelled, not the setters.
- VCD_TARGET windows and custom code tables: modelled as rejected, as in the decoder.
- The default code table is built once and then shared in the source; the model uses its closed form, which BuildDefaultCodeTable proves equal.
- The optional SIMD implementation of Adler-32: the loop that replaces it is modelled.
- Addressing.AddressCache.constructor: requires that every mode number fits one byte; with larger caches the source cuts mode numbers to a byte.
- Encoder.WindowEncoder.Add: requires data shorter than 2^32 bytes; the source cuts longer lengths to 32 bits.
- Tables.SmallTable.Insert: requires positions to increase between resets, as its only caller guarantees; `pos & mask` is the remainder by the size, equal for the power-of-two sizes used.
- MatchEngines.MatchEngine.SearchSmall: the test that ends a walk at a position not before the current one is left out; the walk is proved to meet only earlier positions.
- MatchEngines.MatchEngine.FindMatches: requires the window to be shorter than 2^32 bytes, beyond which lengths are truncated to 32 bits in the source.
- MatchEngines.MatchEngine.IndexSource: an engine indexes one source, as in every caller.
- Engine.EncodeWithOptions: requires a window size above zero; with zero the source never advances.
- DeltaEncoders.DeltaEncoder.constructor: requires a window size from 1 to 2^32 - 1, for the same two reasons.
