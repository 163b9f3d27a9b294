# Keydrop verification model

A Dafny model of the Keydrop wire format and of the state its two ends keep, with proofs about whole runs.

The imperative code is modelled as imperative code: the adaptive dictionary, the stream optimizer, the schema runtime,
the packet reader and encoder, the WebSocket adapter and SHA-1 are classes whose methods update their fields, and the
codec loops advance cursors, fill buffers and set bits in arrays. Every such method is proved to compute a function of
its inputs and of the old state (`Runtime.Node` for the runtime, `StreamOptimizer.Stream` for the stream,
`Dictionary.Dict` for the dictionary), and the theorems are about those functions. `Session.Exchange` and
`WebSocketMachine.ReceiveMessage` carry two of them back to the objects.

How the files build on each other:

- `Wire`, `Bits`: little-endian integers, bits of a byte, packed bitmaps.
- `Schema`, `Registry`, `Dictionary`: schemas, payloads and layouts; the registry; the FIFO string dictionary.
- `Core`, `Codec`, `GeneralCodec`: byte writer and reader; the grammar `FieldSpan`/`Span` of a packet body, encoding and
  decoding; the encode and decode loops. The grammar is defined once and every walker is proved against it.
- `RuntimeOptimizer`, `Omission`, `Corruption`, `Verdicts`, `Synchronizer`, `Recovery`, `FastCodec`: zero omission and
  when it pays, the structural check and why it turns packets away, the measuring walkers and packet recovery, the
  specialized codec.
- `Crc`, `CrcValues`: the bitwise CRC-32 (section 8 of RFC 1952) on bit-vectors, the envelope, and the checksum's values.
- `Delta`, `DeltaCodec`, `StreamOptimizer`, `StreamMachine`, `Emissions`: delta packets, the emission decision, batches,
  and which form a record takes at what cost.
- `Layout`, `Damage`: every kind of packet byte by byte; packets that are cut or have something after them.
- `Runtime`, `RuntimeMachine`, `Outcomes`: sending, receiving, streaming, and what every status means.
- `Delivery`: one packet, encoded or built as a delta, and what the other end makes of it.
- `Fidelity`, `Signs`, `Resending`, `Session`: runs of records over an in-order channel: when every record is delivered,
  when as exactly the payload sent, and the runs that lose something.
- `Control`: resets of the dictionary between records, delivered and missed.
- `Epoch`, `EpochRuns`, `SenderEpochs`: a full packet and the deltas after it; channels that drop, repeat and reorder; what
  a sender emits.
- `Batch`, `BatchMessages`, `Resync`: conservation of packets and of messages under batching; an unframed stream.
- `WebSocket`, `WebSocketFrames`, `WebSocketMachine`: frames, their bytes, and reassembly (RFC 6455).
- `Sha1`, `Sha1Digests`: the streaming hash (RFC 3174) and digests worked out round by round.
- `Json`, `Numerals`, `JsonGrammar`, `JsonText`: the flat JSON printer and parser, digits and numerals, and the grammar of
  the texts the parser accepts.

Modelling decisions that matter when reading a contract:

- A `byte` is an integer from 0 to 255; widths, truncation and wrap-around are written out (`Cast`, `% 65536`, `NextSeq`).
- A float is its bit pattern. The stream compares floats with the C++ `==`, so equality of values is modelled with
  NaN unequal to itself and the two zeros equal (`Delta.ValueEq`). Because of the latter neither a delta nor a packet
  sent again transmits a change from +0 to -0. The run theorems promise the payload up to zero signs, and
  `Signs.ExactRun` says of a whole run exactly when every payload arrives as it was sent; `Signs.NegativeZeroLost` is a
  run in which one does not.
- An exception is a result: a reader that would throw returns None. Nothing in `receive_stream` catches an exception of
  `expand_delta`, which is the status `Threw`.
- Whether the change ratio is at most the threshold is a boolean argument of the decision, so the theorems hold for every
  threshold. The ratio itself is `DeltaCodec.ChangeRatio`, as an exact quotient.
- A field bitmap shorter than the schema needs makes the original read past the packet in `expand_delta`; the model reads
  those bits as clear. An empty packet inside a CRC envelope makes it read the first byte of nothing; the model reports
  `DecodeFailed`. No theorem depends on either.
- What the code demands of its callers appears as `Delivery.Ready`: the low byte of a message id is none of
  F9, FA, FB, FC, since `receive_stream` dispatches on it; the third byte of a plain packet is not 0xFD where an
  optimizer would look for it; strings have at most 65534 bytes and blobs at most 65535 (`Schema.Carried`); a schema has
  at most 2040 fields. Configuration is fixed during a run.
- A packet that is sent again was encoded with an earlier dictionary. `Fidelity.Kept` is the ghost record of which one, and
  `Fidelity.Binds` says that each reference in it still names its string; both can be computed from the sender alone.
- Validation precedes registration in the runtime, so a name registered under another id, or an id under another name, is
  an invalid schema, and the registry's own duplicate-id answer is never given (`Registry.Registry.RegisterOutcomes`).
- The socket is a list of non-empty chunks, cut in any way.

## Model

| member | source | states |
|---|---|---|
| `Wire.LERoundTrip` | src/core/encoder.cpp:9-42 | a written little-endian integer reads back exactly, and a negative one as its two's complement |
| `Wire.LEValue` | src/core/encoder.cpp:9-42 | byte i of a written integer, negative or not, is the integer divided by 256 to the i, modulo 256 |
| `Core.Encoder.WriteInt` | src/core/encoder.cpp:9-42 | each width appends exactly its little-endian bytes |
| `Core.Encoder.WriteCounted` | src/core/encoder.cpp:58-67 | appends the 16-bit count, then the bytes |
| `Core.PacketReader.ReadUnsigned` | src/core/packet_reader.cpp:15-78 | reads exactly when enough bytes remain, advances by the width, and moves nothing when it would throw |
| `Core.PacketReader.ReadWord` | src/core/packet_reader.cpp:27-40 | reads a 16-bit word exactly when two bytes remain |
| `Core.PacketReader.ReadBytes` | src/core/packet_reader.cpp:130-141 | returns the next bytes, or throws without moving |
| `Core.PacketReader.Skip` | src/core/packet_reader.cpp:143-151 | moves on when enough bytes remain, otherwise throws without moving |
| `Bits.PackMeaning` | src/schema/runtime_optimizer.cpp:17-29 | among packed flags bit k reads true exactly for a true flag k, padding bits included |
| `Bits.PackValue` | src/schema/runtime_optimizer.cpp:17-29 | in arithmetic: byte j of packed flags is the sum of the powers of two of its true flags, flag 8j least, and byte k / 8 divided by the power k % 8 of two is odd exactly for a true flag k |
| `Bits.FlagsValue` | src/schema/stream_optimizer.cpp:43-47 | unpacking reads flag k as whether byte k / 8 divided by the power k % 8 of two is odd |
| `Schema.MapNamedToOrdered` | src/schema/field_mapper.cpp:50-102 | for any list of fields: accepts exactly the payloads with all of its names at its types and no more members than fields, lists the values in schema order, and its errors mean a missing name or an extra one |
| `Schema.MapOrderedToNamed` | src/schema/field_mapper.cpp:104-135 | for any list of fields: accepts exactly a list of the right length and types and names it |
| `Schema.NamedOfOrdered` | src/schema/field_mapper.cpp:50-135 | listing a payload in schema order and naming the list gives the payload back |
| `Schema.OrderedOfNamed` | src/schema/field_mapper.cpp:50-135 | naming a list and listing the result in schema order gives the list back |
| `Schema.BuildPacketLayout` | src/schema/packet_layout.cpp:28-76 | the accumulated layout is, field by field, offset, size and limits of the schema's fields, with the minimum size and the fixed-only flag |
| `Verdicts.LayoutOffsets` | src/schema/packet_layout.cpp:28-76 | in every packet whose fields up to k fit, field k starts at or after its layout offset, and exactly there unless the offset is dynamic, which it is exactly after a string or byte array |
| `Verdicts.MinimumIsLeast` | src/schema/packet_layout.cpp:28-76 | the minimum size of the layout is the least size of a packet the check accepts: none is shorter and one has it |
| `Registry.Registry.RegisterKeeps` | src/schema/schema_registry.cpp:5-50 | registration keeps names and ids in one-to-one correspondence and the new schema is found by both |
| `Registry.Registry.RegisterOutcomes` | src/schema/schema_runtime.cpp:441-450 | exactly which schemas are registered and which are duplicates; a duplicate id is never reported as such |
| `Schema.ValidatePayloadValues` | src/schema/schema_validator.cpp:114-173 | accepts exactly the values of the declared types within their length limits |
| `Dictionary.Dict.CreateOrGetKeeps` | src/schema/adaptive_dictionary.cpp:29-52 | an insertion keeps the index invariant, always succeeds, binds string and id both ways, changes nothing on a hit and drops only the oldest entry on a miss in a full dictionary |
| `Dictionary.Dict.ShrinkKeeps` | src/schema/adaptive_dictionary.cpp:10-22 | configuring a smaller limit keeps the invariant and exactly the newest entries |
| `Dictionary.Dict.ShrinkKeepsValues` | src/schema/adaptive_dictionary.cpp:10-22 | an entry that survives keeps its string |
| `Dictionary.RunKeeps` | src/schema/adaptive_dictionary.cpp:10-141 | over every run of configure, insert and reset the maps stay inverse, the order is the live ids consecutive modulo 65536, the size keeps the limit and "full" is never returned |
| `Dictionary.IssuedInOrder` | src/schema/adaptive_dictionary.cpp:29-52 | from an empty dictionary any number of different strings get the ids 1, 2 and so on modulo 65536, none finds the dictionary full, and it ends with exactly the newest ones, as many as the limit allows |
| `Dictionary.Dict.ResetForgets` | src/schema/adaptive_dictionary.cpp:111-117 | after a reset no string and no id is known, the configuration is kept and the next string gets id 1 |
| `Dictionary.Dict.UpdateKeepsInverse` | src/schema/adaptive_dictionary.cpp:74-86 | renaming an entry keeps the maps inverse if and only if no other entry has the new string |
| `Dictionary.AdaptiveDictionary.CreateOrGet` | src/schema/adaptive_dictionary.cpp:29-52 | the object's new maps, order and next id, and its result, are those of the specification |
| `Dictionary.AdaptiveDictionary.Configure` | src/schema/adaptive_dictionary.cpp:10-22 | wherever the eviction loop ends, also on maps and order that disagree, it ends with what evicting the oldest entries down to the limit leaves |
| `Dictionary.AdaptiveDictionary.Update` | src/schema/adaptive_dictionary.cpp:74-86 | rebinds a live id in both maps, or changes nothing |
| `Dictionary.AdaptiveDictionary.Evict` | src/schema/adaptive_dictionary.cpp:88-109 | removes the id from both maps and from the order, or changes nothing |
| `Codec.Lockstep` | src/schema/schema_runtime.cpp:68-166 | a receiver whose dictionary equals the sender's decodes an encoded packet to the values, consumes exactly its bytes and ends with the sender's dictionary, across hits, misses, evictions and id wrap-around |
| `Codec.LockstepOnPlain` | src/schema/schema_runtime.cpp:68-166 | the same when the encoded packet is thrown away and the receiver decodes the plain packet of the same values |
| `Codec.LateLockstep` | src/schema/schema_runtime.cpp:68-166 | a packet decoded with another dictionary than it was encoded with reads back in full, and teaches what a fresh one would, if every reference in it is still bound; otherwise it does not decode or a string comes out wrong |
| `Codec.SpannedDecodes` | src/schema/schema_runtime.cpp:798-849 | a body of the grammar never runs out while decoding and leaves no byte; only an unknown reference stops it |
| `Codec.OverLimitOnlyByReference` | src/schema/schema_runtime.cpp:798-849 | a decoded value over its length limit came from a dictionary reference |
| `GeneralCodec.EncodeOrdered` | src/schema/schema_runtime.cpp:382-410 | the encode loop writes the message id and every field and updates the dictionary as specified |
| `GeneralCodec.EncodeString` | src/schema/schema_runtime.cpp:145-166 | writes a reference for a known string, otherwise stores it and writes it in full |
| `GeneralCodec.ReadField` | src/schema/schema_runtime.cpp:28-94 | reads one field as specified, a reference miss and a short packet told apart |
| `GeneralCodec.DecodeOrdered` | src/schema/schema_runtime.cpp:811-832 | the decode loop yields the specified values, ending, dictionary and unread bytes |
| `Layout.NumberTypes` | src/schema/schema_types.cpp:56-87 | size and range of every number type, in numbers |
| `Layout.PacketHead` | src/schema/schema_runtime.cpp:382-388 | a plain packet begins with the low and the high byte of its id |
| `Layout.EncodedValueAt` | src/schema/schema_runtime.cpp:96-166 | where value k of a packet starts and what its bytes are: a number by its value modulo powers of 256; a string or byte array as length and content; the four bytes of a reference exactly when the dictionary is on and holds the string at that point |
| `RuntimeOptimizer.ZeroOmissionRestores` | src/schema/runtime_optimizer.cpp:45-243 | every well-formed plain packet is accepted; an applied result is strictly shorter by the reported bytes and restores to the packet byte for byte, references included |
| `Omission.OmissionExactly` | src/schema/runtime_optimizer.cpp:45-144 | over the values a packet carries: the optimized form would take 4 bytes, the bitmap and the body without the zero numbers; it is applied exactly when that is less than the packet, and then is id, marker, bitmap size, bitmap and the values that are not zero |
| `Omission.OmittedBits` | src/schema/runtime_optimizer.cpp:79-137 | bit k of its bitmap, in arithmetic, is set exactly when value k is the number 0 |
| `RuntimeOptimizer.OptimizePacket` | src/schema/runtime_optimizer.cpp:45-144 | the loop over bitmap array and body computes the specified packet, in every accept, refuse and not-worthwhile case |
| `RuntimeOptimizer.CheckAllZero` | src/schema/runtime_optimizer.cpp:31-41 | decides whether every byte of the range is zero |
| `RuntimeOptimizer.MarkBit` | src/schema/runtime_optimizer.cpp:24-29 | adds the power i % 8 of two to byte i / 8 of the bitmap array when it is not there yet, in arithmetic, and changes no other byte |
| `RuntimeOptimizer.DeoptimizePacket` | src/schema/runtime_optimizer.cpp:146-243 | the restoring loop computes the specified packet and refuses exactly the malformed ones |
| `Damage.DamagedOptimized` | src/schema/runtime_optimizer.cpp:146-243 | an optimized packet that restores does so only as a whole: cut behind its marker, or with anything after it, it does not |
| `Damage.WrongBitmap` | src/schema/runtime_optimizer.cpp:158-169 | a bitmap that is not just long enough for the fields is refused |
| `Corruption.CheckIsGrammar` | src/reliability/corruption_detector.cpp:235-374 | the structural check, its fixed-size shortcut included, accepts exactly the packets of the grammar |
| `Corruption.CheckKeydropPacket` | src/reliability/corruption_detector.cpp:235-374 | the walk over the layout returns the specified verdict, error kind and offset |
| `Verdicts.CutIsTruncated` | src/reliability/corruption_detector.cpp:235-374 | a well-formed packet cut anywhere is rejected as too short or truncated, at the offset where it breaks off |
| `Verdicts.TrailingBytes` | src/reliability/corruption_detector.cpp:364-371 | anything after a well-formed packet is rejected at the end of the packet |
| `Verdicts.OverLimitRejected` | src/reliability/corruption_detector.cpp:315-350 | a string or byte array over its limit is rejected as an invalid length at its start |
| `Verdicts.HeadRejected` | src/reliability/corruption_detector.cpp:240-260 | fewer than two bytes, or another id, are rejected as such |
| `Crc.Crc32Range` | src/reliability/corruption_detector.cpp:37-55 | the nested bit loop computes the CRC-32 register recurrence |
| `CrcValues.CheckValue` | src/reliability/corruption_detector.cpp:37-55 | the checksum of the nine digits 1 to 9 is 0xCBF43926 |
| `CrcValues.NothingSums` | src/reliability/corruption_detector.cpp:37-55 | the checksum of no bytes is 0 |
| `CrcValues.Residue` | src/reliability/corruption_detector.cpp:37-55 | for every message, the checksum of the message followed by its own checksum is 0x2144DF1C |
| `CrcValues.LeadingZero` | src/reliability/corruption_detector.cpp:37-55 | for every message, a zero byte in front changes the checksum |
| `Crc.StepsLinear` | src/reliability/corruption_detector.cpp:45-52 | the bit steps are linear over exclusive or |
| `Crc.BurstDetected` | src/reliability/corruption_detector.cpp:37-55 | two messages that differ, and only inside some four consecutive bytes, have different checksums |
| `Crc.UnwrapOfWrap` | src/schema/schema_runtime.cpp:998-1084 | opening an envelope gives back what was enclosed |
| `Layout.EnvelopeForm` | src/schema/schema_runtime.cpp:998-1017 | an envelope is 0xF9, the four bytes of the checksum with the lowest first, and the packet; the checksum of the packet and those bytes is the residue |
| `Outcomes.EnvelopeOutcome` | src/schema/schema_runtime.cpp:1061-1084 | an envelope is received as what follows its five bytes when they hold the checksum of it, and otherwise is corrupt and changes nothing |
| `Crc.DamagedPacketRefused` | src/schema/schema_runtime.cpp:1061-1084 | an envelope whose content is damaged inside four consecutive bytes does not open |
| `Runtime.DamagedEnvelopeRefused` | src/schema/schema_runtime.cpp:1046-1084 | receiving such an envelope reports corruption, delivers nothing and changes no state |
| `Runtime.CheckedDecodes` | src/schema/schema_runtime.cpp:764-858 | once the check accepts, decoding succeeds or a reference is unknown or a string from a reference is over its limit |
| `Outcomes.MalformedRefused` | src/schema/schema_runtime.cpp:774-803 | a packet whose plain form is not in the grammar is corrupt, one that does not restore fails to decode, and neither teaches the dictionary anything |
| `Outcomes.FailureStillTeaches` | src/schema/schema_runtime.cpp:805-858 | a packet of the grammar teaches the strings decoded before the point where it stops, also when the reception fails |
| `Outcomes.PlainForm` | src/schema/schema_runtime.cpp:773-788 | the marker is looked for only with the optimizer on |
| `Outcomes.ReceiveUnknown` | src/schema/schema_runtime.cpp:621-654 | too small exactly below two bytes, unknown exactly for an id of no registered schema, and then nothing changes |
| `Outcomes.ReceiveKeeps` | src/schema/schema_runtime.cpp:621-654 | a reception changes nothing but the dictionary, and a failure yields no payload |
| `Runtime.EnvelopeTransparent` | src/schema/schema_runtime.cpp:1061-1084 | an intact envelope, or none, makes no difference to what is received |
| `Delta.TaggedReadsBack` | src/schema/stream_optimizer.cpp:75-205 | the tagged difference or raw value inverts for every pair of 16- or 32-bit values in range |
| `Delta.FieldReadsBack` | src/schema/stream_optimizer.cpp:75-271 | every changed field of every type reads back as the current value |
| `Delta.DeltaRoundTrip` | src/schema/stream_optimizer.cpp:310-642 | a delta expanded against a matching base and sequence merges to the changed fields over the base, and its full packet is the plain encoding of the merge |
| `Delta.DeltaOverBase` | src/schema/stream_optimizer.cpp:310-642 | over whatever payload the receiver holds, a delta with the expected number expands to that payload with its differences added and its new values put in |
| `Delta.RebasedRightly` | src/schema/stream_optimizer.cpp:544-642 | that is the sender's payload, up to zero signs, if and only if the payload held has the unchanged values and the previous value of every field that travels as a difference |
| `Delta.MergeIsCurrent` | src/schema/stream_optimizer.cpp:544-642 | that merge is the current payload up to the sign of float zeros, and itself sendable |
| `Layout.DeltaPacketForm` | src/schema/stream_optimizer.cpp:310-362 | every byte of a delta: marker, id, sequence number, bitmap size, bit k set exactly for a changed field, and the changed fields one after the other, unchanged ones taking no byte |
| `Layout.DeltaFieldForm` | src/schema/stream_optimizer.cpp:75-127 | a changed number of 16 or 32 bits travels as the tag of the smallest width that holds the difference and the difference, or tag 3 and the value; every other change as the new value |
| `Damage.DamagedDelta` | src/schema/stream_optimizer.cpp:544-642 | a delta that would be taken is refused when it is cut in its header or bitmap or has anything after it, and makes a read throw when it is cut in its fields |
| `Damage.UnknownTag` | src/schema/stream_optimizer.cpp:129-205 | a tag over 3, or tag 2 on a 16-bit number, is refused, and no other |
| `DeltaCodec.BuildDeltaPacket` | src/schema/stream_optimizer.cpp:310-362 | bitmap array and field loop build the specified packet, or fail where a changed field is absent on one side |
| `DeltaCodec.WriteNumericDelta` | src/schema/stream_optimizer.cpp:75-127 | writes the smallest tag that holds the difference, or the value itself |
| `DeltaCodec.ReadNumericDelta` | src/schema/stream_optimizer.cpp:129-205 | applies the sign-extended difference or takes the raw value, and refuses other tags |
| `DeltaCodec.ExpandDeltaPacket` | src/schema/stream_optimizer.cpp:544-642 | the reader loop refuses, throws or expands as specified, with the specified full packet and merged payload |
| `DeltaCodec.ComparePayloads` | src/schema/stream_optimizer.cpp:657-689 | the comparison loop decides equality of payloads with the stream's equality of values |
| `DeltaCodec.FieldChanged` | src/schema/stream_optimizer.cpp:691-709 | comparing one-field payloads decides whether the field changed |
| `DeltaCodec.ChangeRatio` | src/schema/stream_optimizer.cpp:711-730 | the ratio times the number of values is the number of values that have changed or are new; zero exactly when none is, and for an empty payload |
| `Emissions.RatioIsBitmap` | src/schema/stream_optimizer.cpp:711-730 | for payloads of a schema that is the number of bits set in the delta's bitmap |
| `Emissions.EqualSingles` | src/schema/stream_optimizer.cpp:657-689 | two single floats, taken apart into sign, exponent and fraction, compare equal exactly when neither is a NaN and they are identical or two zeros |
| `Emissions.EqualDoubles` | src/schema/stream_optimizer.cpp:657-689 | so do two double floats |
| `Emissions.NaNNeverRepeats` | src/schema/stream_optimizer.cpp:657-689 | a payload with a NaN in it is never taken for a repeat, not even of itself |
| `StreamOptimizer.BatchRoundTrip` | src/schema/stream_optimizer.cpp:499-542 | a batch of at most 255 packets below 64 KiB expands to those packets in order |
| `Layout.BatchForm` | src/schema/stream_optimizer.cpp:732-745 | a batch is 0xFC, the count, and every packet behind its length, low byte first |
| `Damage.DamagedBatch` | src/schema/stream_optimizer.cpp:499-542 | a batch that is cut anywhere or has anything after it is malformed |
| `Emissions.FlushInOrder` | src/schema/stream_optimizer.cpp:487-497 | a flush emits one batch that expands to the queue in order and empties it |
| `StreamOptimizer.KeyframeBound` | src/schema/stream_optimizer.cpp:390-475 | between two keyframes of a schema lie fewer changed-payload deltas than the interval |
| `StreamMachine.Optimizer.OptimizeOutgoing` | src/schema/stream_optimizer.cpp:364-476 | maps, counters, queue and emission after a record are those of the specified decision |
| `Emissions.DeltaModeForm` | src/schema/stream_optimizer.cpp:414-467 | delta mode, no repeat: a record leaves as its delta exactly when its schema is not due for a keyframe, updates are on, enough samples were seen, the change is low, and the delta is strictly shorter than the packet; otherwise in full, a keyframe exactly when due; with the numbers and counts that leaves |
| `Emissions.DeltaModeRepeat` | src/schema/stream_optimizer.cpp:390-404 | delta mode, a repeat: it leaves as a delta of whatever length, or in full where none can be built |
| `Emissions.PlainModeForm` | src/schema/stream_optimizer.cpp:405-460 | without delta packets: the kept packet again exactly for a repeat, held for a batch exactly when batching is on and the record is sparing, the batch in order of arrival as soon as it is long enough, everything else in full at once |
| `Emissions.AnyModeForm` | src/schema/stream_optimizer.cpp:371-476 | a disabled optimizer lets every record through, and in any mode every record is counted and kept |
| `Emissions.NeverLonger` | src/schema/stream_optimizer.cpp:425-442 | in delta mode a record that is no repeat never takes more bytes than its packet |
| `Emissions.RunCost` | src/schema/stream_optimizer.cpp:364-476 | over every run in delta mode the bytes emitted are at most those of the packets, a repeat counted as the longer of its packet and an empty delta |
| `Emissions.RepeatSize` | src/schema/stream_optimizer.cpp:310-362 | the delta of a repeat is six bytes and the bitmap |
| `StreamMachine.Optimizer.Configure` | src/schema/stream_optimizer.cpp:280-291 | raises a zero batch size or keyframe interval to one |
| `Emissions.NormalForm` | src/schema/stream_optimizer.cpp:280-291 | that is the larger of one and what was asked for, and nothing else changes |
| `StreamMachine.Optimizer.ResetDeltaState` | src/schema/stream_optimizer.cpp:478-485 | clears the delta state of both halves and keeps the queue |
| `Outcomes.AfterDeltaReset` | src/schema/stream_optimizer.cpp:478-485 | after it the next record of every schema leaves in full as a keyframe, every delta is refused, and what waits for a batch still waits |
| `StreamMachine.Optimizer.RecordDecoded` | src/schema/stream_optimizer.cpp:644-648 | stores the payload and expects sequence 0 |
| `StreamMachine.Optimizer.RecordDecodedDelta` | src/schema/stream_optimizer.cpp:650-655 | stores the payload and advances the expected sequence modulo 65536 |
| `StreamMachine.Optimizer.FlushBatched` | src/schema/stream_optimizer.cpp:487-497 | emits the queue as one batch and empties it, or does nothing |
| `StreamMachine.BuildBatchPacket` | src/schema/stream_optimizer.cpp:732-745 | the loop writes count and length-prefixed packets |
| `StreamMachine.ExpandPackets` | src/schema/stream_optimizer.cpp:499-542 | the loop splits a batch exactly, refuses a malformed one and passes a plain packet through |
| `RuntimeMachine.SchemaRuntime.Send` | src/schema/schema_runtime.cpp:452-511 | state, status and packet of a send are those of the specified runtime |
| `Outcomes.SendRefused` | src/schema/schema_runtime.cpp:365-511 | which of an unknown schema, a payload that does not fit and a value over its limit a send answers with, in that order and exactly when; then nothing changes and nothing is written |
| `Outcomes.SendEncodes` | src/schema/schema_runtime.cpp:382-437 | otherwise the plain packet, or its optimized form exactly where the optimizer is on; it fails only for a schema of more than 2040 fields |
| `RuntimeMachine.SchemaRuntime.RegisterSchema` | src/schema/schema_runtime.cpp:441-450 | validates against the registered schemas, a clash of name or id being an invalid schema, then registers; the registry and the answer are those specified, and nothing else changes |
| `RuntimeMachine.SchemaRuntime.Encode` | src/schema/schema_runtime.cpp:365-437 | validates, encodes and, when enabled, omits zeros as specified |
| `RuntimeMachine.SchemaRuntime.FlushStream` | src/schema/schema_runtime.cpp:1022-1044 | emits the queued batch, in an envelope when enabled |
| `RuntimeMachine.SchemaRuntime.SendStream` | src/schema/schema_runtime.cpp:975-1020 | state, status and emission of a stream send are those of the specified runtime |
| `Outcomes.StreamSend` | src/schema/schema_runtime.cpp:975-1020 | a failed send leaves the stream as it was and emits nothing; otherwise the stream's packet is emitted, in an envelope exactly when envelopes are on |
| `RuntimeMachine.SchemaRuntime.ReceiveWithSchema` | src/schema/schema_runtime.cpp:764-858 | restore, check, decode, validate and map, with the dictionary changed as specified also when a later step fails |
| `RuntimeMachine.SchemaRuntime.Receive` | src/schema/schema_runtime.cpp:621-654 | finds the schema by the id of the packet and receives with it |
| `RuntimeMachine.SchemaRuntime.ReceiveStream` | src/schema/schema_runtime.cpp:1046-1156 | the dispatch on envelope, control, delta and batch packets delivers and changes state as specified |
| `Control.ControlForgets` | src/schema/schema_runtime.cpp:1087-1091 | a control packet, bare or in an intact envelope, answers Ok with no message, leaves stream and configuration alone, and leaves a dictionary in which no string and no id is known and the next string gets id 1 |
| `RuntimeMachine.SchemaRuntime.ResetDictionary` | src/schema/schema_runtime.cpp:887-890 | empties the dictionary and changes nothing else |
| `RuntimeMachine.SchemaRuntime.SendDictionaryReset` | src/schema/schema_runtime.cpp:1199-1205 | writes the two bytes of the control packet |
| `Control.ResetCouples` | src/schema/schema_runtime.cpp:1087-1091 | a sender that resets its dictionary and a receiver that takes the control packet, whatever either dictionary held, are coupled again where no kept packet refers to the old dictionary |
| `Control.RunWithResets` | src/schema/schema_runtime.cpp:975-1156 | over every run of records and resets without batching, every record is delivered once, in order, as sent up to zero signs, and every reset answered Ok, if and only if every packet sent again binds |
| `Control.FreshStart` | src/schema/schema_runtime.cpp:1087-1156 | so it is for ends whose dictionaries differ, from a reset before the first record on |
| `Control.UnreferencedBinds` | src/schema/schema_runtime.cpp:1087-1091 | a kept packet without references binds after a reset |
| `Control.ReferenceLostByReset` | src/schema/schema_runtime.cpp:1087-1091 | a kept packet whose first string goes by reference does not |
| `Control.MissedReset` | src/schema/schema_runtime.cpp:1087-1091 | when only the sender resets, a string the receiver does not know is delivered as itself the first time it is sent and, the second time, as what the receiver still holds under id 1 |
| `Outcomes.DeltaRefused` | src/schema/schema_runtime.cpp:1093-1117 | a delta of under six bytes, of no registered schema, without a base or with another number than the expected one is refused and changes nothing |
| `Outcomes.DeltaAllOrNothing` | src/schema/schema_runtime.cpp:1093-1131 | a delta delivers one message, or none and leaves the stream as it was |
| `Outcomes.FirstFailureEnds` | src/schema/schema_runtime.cpp:1139-1156 | the first packet of a batch that fails ends the reception: what came before is delivered, what follows is not read |
| `Outcomes.MalformedBatch` | src/schema/schema_runtime.cpp:1133-1137 | a batch that does not split fails to decode and changes nothing |
| `RuntimeMachine.SchemaRuntime.ReceiveRecoveredStream` | src/schema/schema_runtime.cpp:1158-1197 | recovers and decodes up to the limit as specified, and sums the bytes passed over to reach the packets decoded, also on failure |
| `Delivery.BaseDelivered` | src/schema/schema_runtime.cpp:365-437 | what a sender encodes, zero omission included, is received as the payload and leaves the dictionaries equal |
| `Delivery.LateDelivered` | src/schema/stream_optimizer.cpp:405-412 | a packet sent again is received as its payload, and moves the dictionary as a fresh one would, if and only if every reference in it is still bound |
| `Delivery.DeltaOntoBase` | src/schema/schema_runtime.cpp:1087-1131 | a delta with the expected number is delivered over whatever the receiver holds, and the rebuilt packet teaches the dictionary |
| `Delivery.DeltaDelivered` | src/schema/schema_runtime.cpp:1087-1131 | over a base equal up to zero signs it is delivered as the sender's payload up to zero signs, and teaches the dictionary what the payload would |
| `Delivery.DeltaExactlyWhen` | src/schema/stream_optimizer.cpp:657-709 | between equal bases a delta merges to exactly the payload if and only if no float field goes from one zero to the other |
| `Fidelity.OneRecord` | src/schema/schema_runtime.cpp:975-1156 | one record that leaves in whatever way, and binds if sent again, is delivered once as the specified payload, and bases, sequence numbers, kept packets and dictionaries stay coupled |
| `Fidelity.OneLost` | src/schema/stream_optimizer.cpp:405-412 | one that is sent again and does not bind is not delivered |
| `Fidelity.LosslessRun` | src/schema/schema_runtime.cpp:975-1156 | for every run of records of any schemas under every policy that does not batch, re-sending included, and every dictionary, zero-omission and CRC setting: every record is delivered once, in order, as sent up to zero signs, if and only if every packet sent again binds; the two ends then stay coupled |
| `Fidelity.NothingUnbound` | src/schema/schema_runtime.cpp:975-1156 | without re-sending, or without a dictionary, every packet binds, so every such run is delivered |
| `Signs.ExactRun` | src/schema/stream_optimizer.cpp:364-476 | from equal bases, every record of a run is delivered as exactly the payload sent if and only if every packet sent again binds and every record that leaves as a delta or is sent again keeps the zero signs of the previous record of its schema |
| `Signs.PlusRunKeepsSigns` | src/schema/stream_optimizer.cpp:657-709 | a run without negative zeros keeps all signs |
| `Signs.NegativeZeroLost` | src/schema/stream_optimizer.cpp:682-683 | sent and received in delta mode, the records +0, -0, -0 are all delivered as +0, the third although it changes nothing |
| `Resending.EvictedReferenceLost` | src/schema/stream_optimizer.cpp:405-412 | with re-sending and a dictionary of one entry, the records a x, a x, b y, a x are not all delivered: the last refers to what the third evicted |
| `Session.Exchange` | src/schema/schema_runtime.cpp:975-1156 | two runtime objects that exchange records end in the states, and deliver the messages, of the specified run: all of them if and only if every packet sent again binds, all exactly if and only if the signs are kept as well |
| `Epoch.FullArrives` | src/schema/stream_optimizer.cpp:644-648 | a full packet is taken wherever the receiver stood |
| `Epoch.NextArrives` | src/schema/stream_optimizer.cpp:576-642 | the next delta of the epoch delivers the payload the sender gave for it |
| `Epoch.OtherRejected` | src/schema/stream_optimizer.cpp:570-583 | a delta that does not carry the expected number is rejected and the receiver is unchanged |
| `Epoch.ForeignDelta` | src/schema/stream_optimizer.cpp:544-642 | a delta of any epoch of the schema, after any packet of any other, is accepted if and only if its number is the expected one modulo 65536, delivers its changes over the payload held, and that is right if and only if the payload last taken serves as its base |
| `EpochRuns.EpochSafety` | src/schema/stream_optimizer.cpp:544-655 | any number of epochs of any lengths, several of one schema included, their packets dropped, repeated, reordered and interleaved at will: as long as no delta that is not next carries the expected number, exactly full packets and next deltas are accepted and they deliver what was sent |
| `EpochRuns.SafetyExactly` | src/schema/stream_optimizer.cpp:576-583 | that condition is necessary: where it fails, a delta is accepted out of turn |
| `EpochRuns.InSeasonIsUnmistaken` | src/schema/stream_optimizer.cpp:414-422 | it holds for epochs of at most 65535 deltas whose deltas arrive while the last full packet taken of the schema is their own |
| `EpochRuns.OneEpochEach` | src/schema/stream_optimizer.cpp:414-422 | so it does for one such epoch of each of several schemas, whatever the channel does |
| `EpochRuns.LongerEpochsConfuse` | src/schema/stream_optimizer.cpp:576-583 | a fresh receiver that takes an epoch of 65536 deltas in order, every one of them rightly, then accepts its first delta again and delivers a payload that was not sent for it |
| `EpochRuns.LostFullPacketConfuses` | src/schema/stream_optimizer.cpp:576-583 | a fresh receiver that takes one full packet, misses the next and gets the first delta after it accepts the delta and delivers a payload that was never sent |
| `SenderEpochs.SenderInEpoch` | src/schema/stream_optimizer.cpp:390-467 | a record continues the epoch of its schema with the next delta or opens one with a full packet |
| `SenderEpochs.EmissionsAreEpochs` | src/schema/stream_optimizer.cpp:364-476 | over every run of records of any schemas in delta mode, what is emitted for one schema is the packets of epochs, one after the other, that hold exactly its payloads in order |
| `Epoch.Epoch.HeldIsSent` | src/schema/stream_optimizer.cpp:590-634 | what a receiver holds after packet k of an epoch is the sender's payload k up to zero signs |
| `Batch.RunConserves` | src/schema/stream_optimizer.cpp:364-542 | over every run of sends and flushes the packets expanded from what was emitted plus the queue are, as multisets, the packets sent plus the first queue, and the queue stays below the batch size |
| `Batch.SendConserves` | src/schema/stream_optimizer.cpp:390-460 | one send lets go exactly one packet and loses none: the record's own if and only if a repeat of the last payload changes no zero sign, otherwise the last one |
| `Batch.FlushConserves` | src/schema/stream_optimizer.cpp:487-497 | a flush emits exactly what was queued |
| `BatchMessages.RunDelivers` | src/schema/schema_runtime.cpp:1022-1156 | with every emission received at once nothing is refused, and the messages delivered plus those of the queue are, as multisets, the messages sent plus those of the first queue |
| `BatchMessages.FlushedRunDelivers` | src/schema/schema_runtime.cpp:1022-1156 | after a flush the messages delivered are the messages sent, in some order |
| `Synchronizer.MeasuredExactly` | src/reliability/packet_synchronizer.cpp:121-174 | an optimized body is measured to its end exactly when it restores, with nothing left, to a body of the grammar |
| `Synchronizer.CandidateAgrees` | src/reliability/packet_synchronizer.cpp:186-203 | a candidate passes restore and check exactly when it has the schema's id and is measured to its end |
| `Synchronizer.WalkerAgreement` | src/reliability/packet_synchronizer.cpp:28-203 | whatever is measured at a registered id passes the candidate check |
| `Synchronizer.SelfDelimiting` | src/reliability/packet_synchronizer.cpp:74-174 | bytes after a packet do not change where it ends |
| `Synchronizer.RecoveryTiles` | src/reliability/packet_synchronizer.cpp:207-305 | recovery tiles the stream into gaps, packets and a tail, at the right absolute offsets, with no recoverable packet starting in a gap or the tail |
| `Synchronizer.ConcatenationRecovered` | src/reliability/packet_synchronizer.cpp:270-305 | a concatenation of packets is recovered as exactly those packets with nothing skipped |
| `Recovery.MeasureVariableField` | src/reliability/packet_synchronizer.cpp:28-72 | advances the cursor by the field's span within its limit, or fails |
| `Recovery.MeasureUnoptimizedPacket` | src/reliability/packet_synchronizer.cpp:74-119 | the walk over the layout, its fixed-size shortcut included, measures what the grammar spans |
| `Recovery.MeasureOptimizedPacket` | src/reliability/packet_synchronizer.cpp:121-174 | the walk over bitmap and layout measures the optimized body |
| `Recovery.CandidateIsValid` | src/reliability/packet_synchronizer.cpp:186-203 | restores and checks the candidate as specified |
| `Recovery.RecoverNextPacket` | src/reliability/packet_synchronizer.cpp:207-268 | the search returns the packet at the first position where one starts |
| `Recovery.RecoverAllPackets` | src/reliability/packet_synchronizer.cpp:270-305 | the loop ends and returns every recovered packet with absolute offsets |
| `Resync.SentIsFrame` | src/schema/schema_runtime.cpp:365-437 | every packet a sender encodes is measured to exactly its end |
| `Resync.UnframedStreamDelivers` | src/schema/schema_runtime.cpp:1158-1197 | packets of records of any registered schemas, written back to back, are recovered and decoded in order up to any limit, and the messages are the first ones, as many as the limit allows |
| `Resync.LimitKept` | src/schema/schema_runtime.cpp:1158-1197 | for every stream and limit the messages are at most the limit, and a prefix of those without a limit |
| `Resync.SkippedAreGaps` | src/schema/schema_runtime.cpp:1158-1197 | the skipped bytes and the bytes of the packets reached add up to where the last of them ends |
| `Outcomes.SynchronizationExactly` | src/schema/schema_runtime.cpp:1158-1197 | synchronization fails exactly when no packet starts anywhere in the bytes, and then nothing changes |
| `FastCodec.OptimizedDecodeRefines` | src/schema/fast_codec.cpp:342-442 | decoding an optimized packet in place succeeds exactly when restoring and decoding it does, with the same values |
| `FastCodec.PlainIsGeneral` | src/schema/fast_codec.cpp:342-376 | the fast plain decode is the general decode with a dictionary that stores nothing |
| `FastCodec.FastEncodeIsGeneral` | src/schema/fast_codec.cpp:253-291 | fast and general encoding agree byte for byte with dictionary and omission off, and the general one accepts exactly the fast one's values within the limits |
| `FastCodec.FastOnSent` | src/schema/fast_codec.cpp:149-173 | the plain body a sender encodes decodes on the fast path exactly when the dictionary held every referenced string before it arrived |
| `FastCodec.FastOnSentPacket` | src/schema/fast_codec.cpp:293-442 | so does the packet itself, plain or with its zeros omitted, under the same condition |
| `FastCodec.BackReferenceMisses` | src/schema/fast_codec.cpp:149-173 | a packet that names a string and refers back to it decodes on the general path and misses on the fast one |
| `FastCodec.Encode` | src/schema/fast_codec.cpp:253-291 | accepts exactly matching counts and types and writes the plain packet |
| `FastCodec.ReadFast` | src/schema/fast_codec.cpp:93-187 | one field is read into a slot, borrowed by position or owned, meaning the value the general reader gives |
| `FastCodec.FillSlots` | src/schema/fast_codec.cpp:342-442 | the loop fills the caller's array with fields that mean the decoded values and touches no other slot |
| `FastCodec.DecodePlain` | src/schema/fast_codec.cpp:342-376 | fills the slots with the fast plain decode, or returns its error |
| `FastCodec.DecodeOptimized` | src/schema/fast_codec.cpp:378-442 | fills the slots with the in-place decode of an optimized packet, or returns its error |
| `FastCodec.Decode` | src/schema/fast_codec.cpp:293-340 | the code for every input, in order of the checks: too few slots, too short, a batch, another id, the error of the body; it succeeds exactly on a packet of the schema that decodes |
| `WebSocket.FrameReadsBack` | src/transport/websocket_adapter.cpp:252-343 | parsing inverts encoding for all three length encodings, masked or not, whatever follows |
| `WebSocketFrames.FrameForm` | src/transport/websocket_adapter.cpp:297-343 | every byte of a frame by position: flag and opcode, mask bit and length field, length in network byte order, key, and payload byte i combined with key byte i % 4 |
| `WebSocketFrames.TextExamples` | src/transport/websocket_adapter.cpp:252-343 | the text frames of section 5.7 of RFC 6455, byte for byte, and what they are received as |
| `WebSocketFrames.OtherExamples` | src/transport/websocket_adapter.cpp:252-343 | its control and binary frames |
| `WebSocketFrames.ShortestWidth` | src/transport/websocket_adapter.cpp:302-320 | what is sent takes the shortest length encoding that holds it |
| `WebSocketFrames.ReservedBits` | src/transport/websocket_adapter.cpp:252-295 | the reserved bits of a frame make no difference |
| `WebSocketFrames.KeysOfClient` | src/transport/websocket_adapter.cpp:322-337 | a client masks with the next state of its generator, low byte first; a server does not mask |
| `WebSocket.MaskTwice` | src/transport/websocket_adapter.cpp:535-541 | masking with the same key twice is the identity |
| `WebSocketFrames.XorValue` | src/transport/websocket_adapter.cpp:535-541 | masking a byte adds the bits in which byte and key differ, in arithmetic |
| `WebSocket.Reassembles` | src/transport/websocket_adapter.cpp:504-603 | any legal fragmentation with any control frames in between is delivered as the message, every ping answered, the following bytes left alone |
| `WebSocketFrames.FrameEffect` | src/transport/websocket_adapter.cpp:533-601 | what one frame of every opcode does in every state: the outcome, the message under reassembly, the reply and the bytes left |
| `WebSocketFrames.OverLimitFails` | src/transport/websocket_adapter.cpp:252-295 | a frame that announces more than the limit is not read: receiving fails |
| `WebSocket.DeliverKeepsLimit` | src/transport/websocket_adapter.cpp:565-599 | the message under reassembly and a delivered one never exceed the limit |
| `WebSocket.SentArrives` | src/transport/websocket_adapter.cpp:297-343 | a message sent as one frame is received whole by the other side |
| `WebSocketMachine.WebSocketAdapter.ReadExact` | src/transport/websocket_adapter.cpp:193-218 | yields the next bytes of the stream however it is cut into chunks, or fails when there are too few |
| `WebSocketMachine.WebSocketAdapter.ReadUntilDoubleCrlf` | src/transport/websocket_adapter.cpp:220-250 | returns what precedes the first blank line, leaves what follows, and fails only when no blank line ends within the limit |
| `WebSocketMachine.WebSocketAdapter.ReadFrameHeader` | src/transport/websocket_adapter.cpp:252-295 | reads the header as specified and leaves the payload |
| `WebSocketMachine.WebSocketAdapter.Handle` | src/transport/websocket_adapter.cpp:533-601 | one frame changes the assembly, answers and ends the loop as specified |
| `WebSocketMachine.WebSocketAdapter.SendFrame` | src/transport/websocket_adapter.cpp:297-343 | sends the specified frame and advances the mask generator |
| `WebSocketMachine.WebSocketAdapter.Receive` | src/transport/websocket_adapter.cpp:504-603 | outcome, assembly, answers and remaining bytes are those of the specified delivery |
| `WebSocketMachine.ReceiveMessage` | src/transport/websocket_adapter.cpp:193-603 | a message in any fragments and any chunks is received whole by the object |
| `Sha1.Sha1.Update` | src/transport/websocket_adapter.cpp:51-67 | absorbs any bytes, compressing exactly the blocks that fill up |
| `Sha1.Sha1.Finalize` | src/transport/websocket_adapter.cpp:69-91 | pads, ends its zero-fill loop, and returns the digest of the whole padded message |
| `Sha1.ProcessBlock` | src/transport/websocket_adapter.cpp:22-49 | the schedule array and the 80 rounds compute the compression function |
| `Sha1.HashPieces` | src/transport/websocket_adapter.cpp:51-123 | any split of a message over updates gives the digest of the message |
| `Sha1Digests.AbcDigest` | src/transport/websocket_adapter.cpp:22-91 | the digest of abc, the first example of section 7.3 of RFC 3174 |
| `Sha1Digests.LongDigest` | src/transport/websocket_adapter.cpp:22-91 | the digest of its 56-byte message, which takes two blocks |
| `Sha1Digests.DigestBytes` | src/transport/websocket_adapter.cpp:84-90 | the twenty bytes of a digest are its words, high byte first |
| `Json.TextRoundTrip` | src/schema/schema_config.cpp:47-51 | printing and parsing give the object back, in any member order, if and only if no string begins with 0x |
| `JsonGrammar.ParsesExactly` | src/schema/schema_config.cpp:47-50 | the parser accepts exactly the texts of an explicit grammar, as what it says they mean: whitespace in every place where it may be, escapes, later members replacing earlier ones, anything after an empty object and only whitespace after another |
| `JsonGrammar.TokenKinds` | src/schema/schema_config.cpp:47-50 | a bare token with a point or an exponent mark is a decimal, any other an integer |
| `JsonGrammar.HexPairs` | src/schema/schema_config.cpp:47-50 | a string that begins with 0x means bytes exactly when the rest is pairs of hexadecimal digits, the high one first |
| `Numerals.NumeralRead` | src/schema/schema_config.cpp:47-50 | an integer is read as sign and positional value of its digits, exactly when that fits in 64 bits; what follows the digits is ignored |
| `Numerals.NoNumeral` | src/schema/schema_config.cpp:47-50 | without a digit there is no number |
| `Numerals.HexDigits` | src/schema/schema_config.cpp:18 | which characters the hexadecimal digits are and what each is worth, in lower and upper case |
| `Numerals.DigitsArePositional` | src/schema/schema_config.cpp:47-50 | the value of digits is the sum of each times the power of ten of its place |
| `Numerals.PrintedDigits` | src/schema/schema_config.cpp:49-51 | digit k from the right of a printed number is the number divided by the power k of ten, modulo ten, without leading zeros |
| `Numerals.EscapedPieces` | src/schema/schema_config.cpp:18 | quotes and backslashes are escaped, and nothing else |
| `Numerals.HexAt` | src/schema/schema_config.cpp:18 | byte i of a printed byte array is its two hexadecimal digits |
| `Json.EscapeReadsBack` | src/schema/schema_config.cpp:18 | an escaped string is read back up to its closing quote |
| `Json.ValueReadsBack` | src/schema/schema_config.cpp:49-51 | a printed integer, string or byte array before a separator is read back as itself, except that a string beginning with 0x is read as bytes |
| `JsonText.FormatJsonObject` | src/schema/schema_config.cpp:51 | the printed text lists the object's members in some order |
| `JsonText.PrintedRoundTrip` | src/schema/schema_config.cpp:47-51 | a printed object parses to itself if and only if none of its strings begins with 0x |
| `JsonText.ParseJsonObject` | src/schema/schema_config.cpp:47-50 | the index-moving parser computes the specified result on every text |

## Left out

- Sockets, timeouts, reconnection, addresses, the TCP and UDP adapters and the HTTP text of the handshake: input and output. The socket is a list of chunks.
- The adaptive profiler, named profiles and the change-ratio threshold: policy, replaced by an arbitrary choice per record.
- `DeltaCodec.ChangeRatio`: does not round the quotient to single precision, because the comparison with the threshold is left to the policy.
- Buffer and payload pools, leases and cached schema pointers: no effect on meaning.
- `receive_ordered`, `receive_as`, `send_ordered`, `send_json` and `receive_json`: the same loops behind other signatures.
- `encode_named_payload` and the contract-based `check_packet`: a mapping followed by the plain encoding, and a second detector with caller-supplied rules that the stream does not use.
- Update in place of the schema registry: it is a value in a field of the runtime, replaced on registration.
- `RuntimeMachine.SchemaRuntime.ReceiveWithSchema`: the layout is computed at each call, where the original looks up the one computed at registration.
- YAML loading, fingerprints, generated examples and markdown: text processing without a stated property.
- base64 and the accept key: a fixed transformation of a digest.
- The transport scheduler and UDP sequence statistics: single-function invariants.
- JSON decimals: the default stream precision does not round-trip. The parser takes the reading of a decimal as an argument; the printer is modelled for the other three kinds.
- `JsonText.FormatJsonObject`: does not print decimals, for that reason.
- Lossless runs with batching while the dictionary is in use: a queued packet is decoded with a later dictionary than it was encoded with, as a packet sent again is. `Codec.LateLockstep` says when it decodes; `Batch.RunConserves` and `BatchMessages.RunDelivers` cover batching with the dictionary off.
- `Epoch.ForeignDelta`: the mix of two payloads may begin with the byte 0xFD where an optimizer looks for its marker, and is then not decoded as a plain packet; the lemma is about the others. `EpochRuns.SafetyExactly` is stated with the optimizer off for that reason, `EpochRuns.EpochSafety` for every setting.
- `Dictionary.AdaptiveDictionary.Configure`: requires that evicting the oldest entries reaches the limit. On maps that an earlier eviction or rename left out of step with the order it may not, and the original then loops for ever.
- Order of delivery under batching: `Batch.RunConserves` speaks of multisets, since an emission may overtake the queue.
- `DeltaCodec.ExpandDeltaPacket`: bits of a bitmap shorter than the schema needs read as clear, where the original reads past the packet.
- `RuntimeMachine.SchemaRuntime.ReceiveStream`: an empty packet inside a CRC envelope is reported as a failed decode, where the original reads past it.
- `WebSocketMachine.WebSocketAdapter.ReadExact`: a chunk may be longer than what was asked for, which is more than the socket does.
- Messages and error texts of results: only their codes are modelled.
