# Conduit in Dafny

Conduit is a binary-protocol runtime with a code generator. This project models its hard core and proves what
the runtime and the generated code promise.

* **Bit I/O** (`Bits`, `Endian`, `Decimal`, `Wire`, `BitWriter`, `BitReader`, `Scripts`): the writer's aligned and
  unaligned paths and the reader's partial-byte loop refine a plain sequence of bits. Any mixed script of
  writes is read back item by item. BCD, two's complement and sign-magnitude have exact acceptance conditions.
* **Stream framing** (`StreamFramer`, `FramingLaws`, `FramingScan`, `Passthrough`): the offset buffer refines one that holds only
  unread bytes. Frames and residue do not depend on how a stream is chunked. Frames come back end to end.
* **Generated codecs** (`FrameCodec`, `FrameDecode`, `SyncPattern`, `Bitmap`, `Extension`): total-length frames with a back-patched
  length and an array payload, presence bitmaps (FSPEC), FX blocks and FX-terminated arrays. Message and field
  codecs are parameters with an inverse.
* **Schema analysis** (`Protocol`, `CycleDetector`, `WireSizer`, `SizeTable`, `Layout`, `Literals`, `ChoiceCases`, `ChoiceCoding`): cycle
  detection, wire sizes with 64-bit wrap-around, case overlap, and what the emitted discriminator checks then
  guarantee.
* **Transceiver** (`PeerIds`, `PeerTable`, `BoundedQueue`, `Dispatch`, `DispatchLaws`, `Locking`, `LockingLaws`, `TransceiverLocks`):
  the peer table as a class, dispatch and shutdown as a step system, and locking as threads that run lock and
  queue programs in any interleaving.

`dafny verify dfyconfig.toml` checks the project.

## Where the code falls short of a property

The members named state the exact condition under which the property holds.

* A BCD write of 0 bits accepts any value; it is read back only if it is 0 (`Wire.BcdReadBack`).
* Patching a partially filled last byte can set bits past the write position, so the
  zero-tail invariant survives exactly when those bits are cleared (`BitWriting.BitWriter.Patch`).
* A negative zero read as signed BCD or sign-magnitude does not re-encode (`Wire.BcdSignedReencode`,
  `Wire.SignMagnitudeReencode`).
* The back-patched length is the size modulo 2^width (`FrameDecode.LengthRule`).
* The sync pattern takes its byte counts from type names and skips what is not a literal. It starts every frame
  exactly when it starts the leading constants (`SyncPattern.SyncPrefixIff`, `SyncPattern.NarrowSync`).
* Literals are parsed in base 10 or 16 by the analyzer and pasted into C++, where a leading zero means octal, a minus
  before a large hexadecimal literal wraps, and a constant takes the type of its variable. The readings agree exactly
  as `Literals.ReadAlikeIff` and `ChoiceCoding.FaithfulIff` say. Where they differ, a choice that passes the overlap
  check can be ambiguous, a send-only case can take a received one's discriminator, and a sync pattern can match no
  frame (`ChoiceCoding.OctalCases`, `ChoiceCoding.OctalShadow`, `SyncPattern.OctalSync`,
  `SyncPattern.LeadingConstantsFitIff`, `Literals.WrappedMinus`, `Literals.NarrowedConstant`).
* A length below header plus footer makes the payload size wrap around, and the bound test wraps with it; the window
  lies inside the buffer exactly when the length covers both (`FrameDecode.PayloadInsideIff`,
  `FrameDecode.StrayWindow`, `BitReading.PassedIsInsideIff`).
* An extended little-endian bitmap longer than the schema is reversed past its array; the condition is in
  `Bitmap.OverlongIff`, an input in `Bitmap.OverlongBitmap`.
* A type with a negative length has two different sizes (`SizeTable.TypeSizeIsBytesIff`).
* An extended presence bitmap in little-endian order loses fields beyond the first octet
  (`Bitmap.ExtendedLittleEndian`, `Bitmap.LostField`).
* An empty FX-terminated array cannot be told from what follows (`Extension.ArrayRoundTripIffNonEmpty`).
* Case values are compared after a cast to the switch type, but checked for overlap before it
  (`ChoiceCoding.LabelsClashIff`, `ChoiceCoding.TruncatedCases`, `ChoiceCoding.TruncatedRanges`).
* A range written "0..n" also matches negative discriminators in the decoder, and a send-only range that merely
  overlaps a received case is not skipped there (`ChoiceCoding.ReceivedCaseDecodesIff`, `ChoiceCoding.NegativeTaken`).
* Peer ids stay unique up to 255 live peers, and not with 256 (`PeerIds.FreshWithinBound`, `PeerIds.BoundIsSharp`).

## Model

| member | source | states |
|---|---|---|
| BitWriting.BitWriter.WriteBit | conduit/src/io/bit_writer.cpp:19-32 | appends one bit; the buffer keeps "size is the bit count rounded up, unused tail bits are zero" |
| BitWriting.BitWriter.WriteBits | conduit/src/io/bit_writer.cpp:34-97 | appends exactly the low count bits, most significant first, on the aligned and the unaligned path alike; more than 64 bits only records an error |
| BitWriting.BitWriter.WriteAligned | conduit/src/io/bit_writer.cpp:45-62 | the byte-aligned fast path appends the same bits as the general specification |
| BitWriting.BitWriter.WriteUnaligned | conduit/src/io/bit_writer.cpp:64-96 | filling the partial byte, whole bytes and the leftover append the same bits |
| BitWriting.BitWriter.WriteSignedBits | conduit/src/io/bit_writer.cpp:99-102 | appends the low count bits of the two's complement of the value |
| BitWriting.BitWriter.WriteBcd | conduit/src/io/bit_writer.cpp:108-133 | appends the packed decimal digits or records the error the specification names |
| BitWriting.BitWriter.WriteBcdSigned | conduit/src/io/bit_writer.cpp:135-167 | appends sign bit and digits of the magnitude, or records an error |
| BitWriting.BitWriter.WriteSignMagnitude | conduit/src/io/bit_writer.cpp:169-188 | appends sign bit and magnitude, or records an error |
| BitWriting.BitWriter.WriteU8 | conduit/src/io/bit_writer.cpp:194-199 | pads to a byte, appends the byte |
| BitWriting.BitWriter.WriteU16 | conduit/src/io/bit_writer.cpp:201-212 | pads to a byte, appends two bytes in the given order |
| BitWriting.BitWriter.WriteU32 | conduit/src/io/bit_writer.cpp:214-229 | pads to a byte, appends four bytes in the given order |
| BitWriting.BitWriter.WriteU64 | conduit/src/io/bit_writer.cpp:231-254 | pads to a byte, appends eight bytes in the given order |
| BitWriting.BitWriter.WriteBytes | conduit/src/io/bit_writer.cpp:289-295 | pads to a byte, appends the bytes |
| BitWriting.BitWriter.AlignToByte | conduit/src/io/bit_writer.cpp:314-321 | appends zero bits up to the next byte |
| BitWriting.BitWriter.AlignTo | conduit/src/io/bit_writer.cpp:323-334 | appends zero bits up to the boundary |
| BitWriting.BitWriter.Patch | conduit/src/io/bit_writer.cpp:336-380 | overwrites bytes already written and nothing else; fails when out of range or after an error; the zero-tail invariant survives exactly when a partial last byte is not reached or its tail is cleared |
| BitWriting.BitWriter.Finish | conduit/src/io/bit_writer.cpp:386-397 | returns the bytes whose bits are everything appended, zero padded, or the first error |
| BitWriting.BitWriter.Clear | conduit/src/io/bit_writer.cpp:399-403 | back to an empty valid writer |
| BitReading.BitReader.ReadBits | conduit/src/io/bit_reader.cpp:14-43 | returns the number spelled by the next bits and moves past them; underrun and width errors leave the position |
| BitReading.BitReader.ReadSignedBits | conduit/src/io/bit_reader.cpp:45-61 | sign extension of the bits read |
| BitReading.BitReader.ReadBcd | conduit/src/io/bit_reader.cpp:67-94 | decimal value of the nibbles, or the error for a nibble above 9 |
| BitReading.BitReader.ReadBcdSigned | conduit/src/io/bit_reader.cpp:96-130 | sign bit and decimal magnitude |
| BitReading.BitReader.ReadSignMagnitude | conduit/src/io/bit_reader.cpp:132-144 | sign bit and binary magnitude |
| BitReading.BitReader.ReadUint | conduit/src/io/bit_reader.cpp:150-191 | byte-aligned unsigned integers of one, two, four or eight bytes in either order |
| BitReading.BitReader.CombineBytes | conduit/include/conduit/io/endian.hpp:64-115 | the shift-and-or combination of bytes is their value in the given order |
| BitReading.BitReader.ReadBytes | conduit/src/io/bit_reader.cpp:241-250 | the next bytes after alignment |
| BitReading.BitReader.SubReader | conduit/src/io/bit_reader.cpp:261-270 | three outcomes of the size_t bound test: refused, a reader over exactly the next bytes, or a window outside the data |
| BitReading.PassedIsInsideIff | conduit/src/io/bit_reader.cpp:261-270 | a window that passes the test lies inside the data exactly when position plus count does not wrap |
| BitReading.BitReader.SkipBits | conduit/src/io/bit_reader.cpp:294-301 | moves the position or reports underrun |
| BitReading.BitReader.AlignTo | conduit/src/io/bit_reader.cpp:310-320 | moves to the boundary, clamped at the end of data |
| BitReading.BitReader.RemainingBits | conduit/src/io/bit_reader.cpp:281-284 | bits between position and end |
| Bits.BitsOfOr | conduit/src/io/bit_writer.cpp:34-97 | the bits of a bitwise or are the disjunction of the bits |
| Endian.BigBytesBits | conduit/src/io/bit_writer.cpp:231-254 | big-endian bytes of a number hold the same bits as the bit writer would append |
| Endian.UintRoundTrip | conduit/include/conduit/io/endian.hpp:64-115 | reading bytes written in either order gives the value modulo 2^width |
| Decimal.BcdUnpackPacked | conduit/src/io/bit_reader.cpp:67-94 | unpacking the packed digits of a number below 10^k gives it back |
| Decimal.BcdPackUnpacked | conduit/src/io/bit_writer.cpp:108-133 | packing the digits read gives the same nibbles back |
| Decimal.TwosComplement | conduit/src/io/bit_reader.cpp:45-61 | sign extension of the low bits is the value exactly when it is in signed range |
| Decimal.BcdDigits | conduit/src/io/bit_writer.cpp:108-133 | nibble i of a packed number is its i-th decimal digit |
| Decimal.BcdRefusedIff | conduit/src/io/bit_reader.cpp:67-94 | unpacking refuses exactly what has a nibble above nine |
| Wire.ReadErrors | conduit/src/io/bit_reader.cpp:14-144 | which error a read reports: exactly for widths the format has not, for too few bits, for a nibble above nine |
| Wire.SignedDecimalErrors | conduit/src/io/bit_reader.cpp:96-130 | the same for signed decimal reads |
| Wire.WriteErrors | conduit/src/io/bit_writer.cpp:34-188 | which error a write records: exactly for widths the format has not and for values that do not fit |
| Wire.BitsReadBack | conduit/src/io/bit_reader.cpp:14-43 | reading what was written gives the value modulo 2^count at every position |
| Wire.SignedReadBack | conduit/src/io/bit_reader.cpp:45-61 | a signed value is read back exactly when it is in range |
| Wire.BcdReadBack | conduit/src/io/bit_reader.cpp:67-94 | the exact condition under which the writer accepts, any value in 0 bits included; what it accepts is read back exactly when it is below 10^digits |
| Wire.BcdReencode | conduit/src/io/bit_reader.cpp:67-94 | every BCD field that reads successfully is below 2^64 and re-encodes to the same bits |
| Wire.BcdSignedReadBack | conduit/src/io/bit_writer.cpp:135-167 | accepted exactly when the magnitude is below 10^digits, then read back |
| Wire.BcdSignedReencode | conduit/src/io/bit_reader.cpp:96-130 | re-encodes to the same bits exactly when it is not a negative zero |
| Wire.SignMagnitudeReadBack | conduit/src/io/bit_writer.cpp:169-188 | accepted exactly when the magnitude fits, then read back |
| Wire.SignMagnitudeReencode | conduit/src/io/bit_reader.cpp:132-144 | re-encodes to the same bits exactly when it is not a negative zero |
| Scripts.Encode | conduit/src/io/bit_writer.cpp:34-397 | running any list of writes and alignments yields exactly the concatenated codes, or the first error |
| Scripts.Decode | conduit/src/io/bit_reader.cpp:14-320 | running the matching list of reads computes the specified values and end position |
| Scripts.ItemReadBack | conduit/src/io/bit_reader.cpp:14-320 | each kind of item is read back at its own bit position, whatever surrounds it |
| Scripts.ExpectedIsOriginal | conduit/src/io/bit_writer.cpp:34-188 | what is read back is the original value exactly when it fits its width |
| Scripts.ScriptReadBack | conduit/src/io/bit_reader.cpp:14-320 | a whole script is read back from any position with anything after it |
| BitWriting.AlignGap | conduit/src/io/bit_writer.cpp:323-334 | the gap ends at a multiple of the boundary and is the least that does |
| Scripts.AlignedAlike | conduit/src/io/bit_reader.cpp:310-320 | the reader aligns to the boundary the writer aligned to, but never past the end |
| Scripts.RoundTrip | conduit/src/io/bit_writer.cpp:34-397 | every mixed script that encodes is read back item by item and ends at the written bit position |
| Scripts.EncodeThenDecode | conduit/src/io/bit_writer.cpp:34-397 | the writer and reader classes run one after the other return the script's values |
| Framing.StreamFramer.PushData | conduit/src/transceiver/stream_framer.cpp:16-145 | fails exactly when unread plus new bytes exceed the cap (and then empties the buffer); otherwise yields the frames of the unread suffix plus the data and keeps their residue; buffer size stays within the cap |
| Framing.StreamFramer.TakeFrames | conduit/src/transceiver/stream_framer.cpp:49-135 | the offset loop cuts exactly the frames of a buffer that holds only unread bytes |
| Framing.StreamFramer.Round | conduit/src/transceiver/stream_framer.cpp:49-135 | one loop round: sync search, skipped bytes, header inspection |
| Framing.StreamFramer.Header | conduit/src/transceiver/stream_framer.cpp:70-135 | length extraction: wait, corrupt length skip, or frame |
| Framing.StreamFramer.Compact | conduit/src/transceiver/stream_framer.cpp:137-142 | compaction does not change the unread bytes |
| Framing.StreamFramer.Reset | conduit/src/transceiver/stream_framer.cpp:147-150 | no unread bytes left |
| FramingLaws.StepStable | conduit/src/transceiver/stream_framer.cpp:49-135 | a skip or frame decided on a buffer is decided the same way with more bytes behind it; a wait loses nothing |
| FramingLaws.KeptStep | conduit/src/transceiver/stream_framer.cpp:55-62 | keeping only the last sync-size-minus-one bytes never loses a sync pattern split across chunks |
| FramingLaws.CutInTwo | conduit/src/transceiver/stream_framer.cpp:49-135 | cutting a stream in two pieces gives the same frames and residue as cutting it whole |
| FramingLaws.ChunkingIndependence | conduit/src/transceiver/stream_framer.cpp:16-145 | for every session, cap, stream and chunking without overflow: frames and residue are those of the whole stream |
| FramingLaws.Feed | conduit/src/transceiver/stream_framer.cpp:16-145 | the framer class fed chunk by chunk computes that run |
| FramingLaws.FramesAreSlices | conduit/src/transceiver/stream_framer.cpp:49-135 | frames are disjoint slices of the stream in order, every frame is acceptable, and skipped bytes plus frames plus residue are the stream |
| FramingScan.ScanDecides | conduit/src/transceiver/stream_framer.cpp:43-134 | over positions: any scan that tries the first sync pattern, goes on behind the pattern of a rejected header (one byte without a pattern) and behind an accepted frame, gives exactly the framer's frames and unread bytes |
| FramingScan.FramesByScan | conduit/src/transceiver/stream_framer.cpp:43-134 | every stream has such a scan, so no frame is passed over |
| FramingScan.ResyncedFrames | conduit/src/transceiver/stream_framer.cpp:78-115 | well-formed frames come back from behind garbage with any number of false sync patterns that carry rejected lengths |
| FramingLaws.AcceptedIsWellFormed | conduit/src/transceiver/stream_framer.cpp:75-134 | an emitted frame is well formed (sync prefix, own length, within bounds) when the sync pattern fits in the header |
| FramingLaws.FramesComeBack | conduit/src/transceiver/stream_framer.cpp:49-135 | well-formed frames come back in order through garbage that contains no sync pattern |
| FramingLaws.EndToEnd | conduit/src/transceiver/stream_framer.cpp:16-145 | well-formed frames sent back to back in any chunks come back as exactly that list with empty residue |
| FramingLaws.ByteWiseNeverOverflows | conduit/src/transceiver/stream_framer.cpp:18-32 | with header and sync within the cap, single bytes never overflow |
| FramingLaws.ByteWiseSafeIffRoomy | conduit/src/transceiver/stream_framer.cpp:18-32 | that condition is exact: otherwise some stream overflows |
| Passthrough.SwapBytes | conduit/src/cabi/conduit_cabi.cpp:937-944 | the swap loop reverses the bytes of the value |
| Passthrough.ExtractPassthrough | conduit/src/cabi/conduit_cabi.cpp:921-948 | computes the passthrough length rule |
| Passthrough.ExtractGenerated | conduit/bgen/src/codegen/cpp_session.cpp:404-441 | computes the generated length rule |
| Passthrough.LengthReadersAgree | conduit/src/cabi/conduit_cabi.cpp:921-948 | for every header, byte-aligned offset, width 8, 16, 32 or 64 and byte order both length readers agree |
| Passthrough.PassthroughByBits | conduit/src/cabi/conduit_cabi.cpp:921-946 | length fields of any width at any bit: most significant bit first, bytes turned round in little-endian order |
| Passthrough.PassthroughZero | conduit/src/cabi/conduit_cabi.cpp:921-948 | a header too short for the rule, or a field of no or more than 64 bits, has length zero |
| Passthrough.EncodeBatch | conduit/src/cabi/conduit_cabi.cpp:890-911 | concatenates raw payloads; refuses an empty batch or a payload of another type |
| Passthrough.SendAndReceive | conduit/src/cabi/conduit_cabi.cpp:890-948 | batch encoder and framer together: any chunking that does not overflow returns the payloads in order |
| FrameCodec.WriteFields | conduit/bgen/src/codegen/cpp_structs.cpp:86-122 | writes the fields with a zero length placeholder and reports where it is |
| FrameCodec.PatchFields | conduit/bgen/src/codegen/cpp_structs.cpp:143-168 | overwriting the placeholder turns the fields into the fields with that length |
| FrameCodec.Encode | conduit/bgen/src/codegen/cpp_structs.cpp:300-359 | appends exactly the frame bytes with the total size in the length field, after whatever the writer held |
| FrameDecode.ReadFields | conduit/bgen/src/codegen/cpp_structs.cpp:363-411 | reads the fields the specification takes from those bytes |
| FrameDecode.ReadBodies | conduit/bgen/src/codegen/cpp_structs.cpp:412-502 | the array payload loop over the bounded sub-reader; terminates because each body uses a byte |
| FrameDecode.Decode | conduit/bgen/src/codegen/cpp_structs.cpp:363-585 | decodes what the specification takes and consumes the length found in the header; returns nothing exactly where the emitted code would go on with a window outside its buffer |
| FrameDecode.PayloadInsideIff | conduit/bgen/src/codegen/cpp_structs.cpp:440-452 | with less than 2^63 bytes: a payload window that passes the test lies inside the buffer exactly when the length covers header and footer |
| FrameDecode.StrayWindow | conduit/bgen/src/codegen/cpp_structs.cpp:440-452 | header of four bytes, footer of two, length four: the length rule accepts it and the window leads outside |
| FrameDecode.EncodeThenDecode | conduit/bgen/src/codegen/cpp_structs.cpp:300-585 | writer, encoder, reader and decoder run in a row return the frame |
| FrameDecode.BodiesReadBack | conduit/bgen/src/codegen/cpp_structs.cpp:412-502 | the loop returns the same message bodies in order |
| FrameDecode.FreeFieldsKept | conduit/bgen/src/codegen/cpp_structs.cpp:86-122 | fields other than length and constants come back unchanged |
| FrameDecode.FrameRoundTrip | conduit/bgen/src/codegen/cpp_structs.cpp:300-585 | decode after encode returns header, bodies and footer, anywhere in a buffer |
| FrameDecode.LengthRule | conduit/bgen/src/codegen/cpp_session.cpp:404-441 | the session reads the encoded size modulo 2^width, so it is the size exactly when the size fits |
| FrameDecode.LeadIsPrefix | conduit/bgen/src/codegen/cpp_structs.cpp:110-113 | the bytes of the leading constant fields start every header |
| SyncPattern.SyncPrefixIff | conduit/bgen/src/analyzer/session_analyzer.cpp:102-110 | the sync bytes start every header exactly when they start the bytes of its leading constants |
| SyncPattern.LeadingConstantsFitIff | conduit/bgen/src/analyzer/session_analyzer.cpp:289-324 | when constants lead, all were parsed, and each looked-up width is the field width: that holds exactly when every parsed value is the one written |
| SyncPattern.ConstantAgreesIff | conduit/bgen/src/codegen/cpp_structs.cpp:109-113 | parsed and written value of a constraint agree exactly when the analyzer's and the compiler's reading of its text do, modulo the field width |
| SyncPattern.PlainConstantAgrees | conduit/bgen/src/codegen/cpp_structs.cpp:109-113 | they do for every literal without an effective leading zero |
| SyncPattern.OctalSync | conduit/bgen/src/analyzer/session_analyzer.cpp:289-302 | a one-byte constant written 010: the pattern is 0A and every frame starts with 08 |
| SyncPattern.NarrowSync | conduit/bgen/src/analyzer/session_analyzer.cpp:307-312 | a 16-bit constant EB90 whose type name gives no width: the pattern is 90 and no frame starts with it |
| FrameDecode.HeadersAreFrames | conduit/bgen/src/codegen/cpp_session.cpp:404-441 | without a length field the frames are exactly the headers: sync pattern in front and the size of one |
| FrameDecode.EncodedIsWellFormed | conduit/bgen/src/codegen/cpp_structs.cpp:300-359 | encoded frames whose sync bytes fit satisfy what the framer needs |
| FrameDecode.FramesEndToEnd | conduit/bgen/src/codegen/cpp_structs.cpp:300-585 | encoded frames, sent in any chunks that do not overflow, are framed and decoded back in order |
| Bitmap.FspecUnique | conduit/bgen/src/codegen/cpp_structs.cpp:1806-1857 | presence octets are determined by the set of present fields |
| Bitmap.PresenceOctets | conduit/bgen/src/codegen/cpp_structs.cpp:1806-1832 | the emitted loops build those octets |
| Bitmap.LastPresent | conduit/bgen/src/codegen/cpp_structs.cpp:1806-1832 | the last octet holding a present field |
| Bitmap.Encode | conduit/bgen/src/codegen/cpp_structs.cpp:1806-1857 | appends the bitmap and the present values in wire order; wire octet k shows logical octet k, in little-endian order the k-th from the end |
| Bitmap.ReadFspec | conduit/bgen/src/codegen/cpp_structs.cpp:1861-1900 | reads octets until the extension bit is clear, or the fixed number |
| Bitmap.Decode | conduit/bgen/src/codegen/cpp_structs.cpp:1861-1923 | decodes what the specification takes |
| Bitmap.LengthRecovered | conduit/bgen/src/codegen/cpp_structs.cpp:1861-1900 | the decoder finds the number of octets written: extended big-endian, or fixed in either order |
| Bitmap.SeenIsPresent | conduit/bgen/src/codegen/cpp_structs.cpp:1861-1923 | the presence set read is the presence set written |
| Bitmap.ValuesReadBack | conduit/bgen/src/codegen/cpp_structs.cpp:2042-2060 | values come back under the right fields |
| Bitmap.MessageRoundTrip | conduit/bgen/src/codegen/cpp_structs.cpp:1806-1923 | decode after encode recovers the presence set and every value |
| Bitmap.EncodeThenDecode | conduit/bgen/src/codegen/cpp_structs.cpp:1806-1923 | writer, encoder, reader and decoder run in a row return the message |
| Bitmap.OverlongIff | conduit/bgen/src/codegen/cpp_structs.cpp:1870-1892 | an extended bitmap has no more octets than the schema exactly when one of the schema's octets ends it |
| Bitmap.OverlongBitmap | conduit/bgen/src/codegen/cpp_structs.cpp:1870-1892 | an input with three octets for a schema of one |
| Bitmap.FewestOctets | conduit/bgen/src/codegen/cpp_structs.cpp:1806-1857 | no shorter run of octets shows the same presence set |
| Bitmap.ExtendedLittleEndian | conduit/bgen/src/codegen/cpp_structs.cpp:1830-1832 | the extended form in little-endian order keeps the presence set exactly when one octet suffices |
| Bitmap.LostField | conduit/bgen/src/codegen/cpp_structs.cpp:1830-1832 | a two-field schema whose second field is always lost |
| Extension.BlockReadBack | conduit/bgen/src/codegen/cpp_structs_decode.cpp:1670-1687 | a block is read back up to zero filling of absent fields in written extents |
| Extension.ExtentReadBack | conduit/bgen/src/codegen/cpp_structs_decode.cpp:1689-1871 | an extent with its nested block is read back |
| Extension.PrefixFree | conduit/bgen/src/codegen/cpp_structs_encode.cpp:756-775 | no encoding of a shape is a proper prefix of another |
| Extension.BitsDecideContent | conduit/bgen/src/codegen/cpp_structs_encode.cpp:777-967 | two contents have equal bits exactly when they are equal after zero filling |
| Extension.PlaceRestored | conduit/bgen/src/codegen/cpp_structs_decode.cpp:1670-1871 | place by place: a field set anywhere in a block comes back modulo its width, an unset one as zero where its extent was written and unset elsewhere |
| Extension.HasValueIff | conduit/bgen/src/codegen/cpp_structs_encode.cpp:946-967 | an extent is written exactly when some field in it or below it is set |
| Extension.BlockOnWire | conduit/bgen/src/codegen/cpp_structs_encode.cpp:756-944 | on the wire: one clear bit, or a set bit, each child in order with its value, and a clear bit unless a nested block is among them |
| Extension.WriteBlock | conduit/bgen/src/codegen/cpp_structs_encode.cpp:756-775 | the emitted writer appends the block's bits |
| Extension.WriteExtent | conduit/bgen/src/codegen/cpp_structs_encode.cpp:777-944 | the emitted writer appends the extent's bits |
| Extension.ReadBlock | conduit/bgen/src/codegen/cpp_structs_decode.cpp:1670-1687 | the emitted reader takes a block of the shape |
| Extension.ReadExtent | conduit/bgen/src/codegen/cpp_structs_decode.cpp:1689-1871 | the emitted reader takes an extent of the shape |
| Extension.EncodeThenDecode | conduit/bgen/src/codegen/cpp_structs_encode.cpp:756-775 | writer, block encoder, reader and block decoder in a row give every set value back at its place |
| Extension.ArrayReadBack | conduit/bgen/src/codegen/cpp_structs_decode.cpp:1249-1280 | non-empty FX-terminated arrays are read back |
| Extension.ArrayRoundTripIffNonEmpty | conduit/bgen/src/codegen/cpp_structs_encode.cpp:527-546 | the array round trip holds exactly for non-empty arrays |
| Extension.ArrayOnWire | conduit/bgen/src/codegen/cpp_structs_encode.cpp:527-546 | on the wire: each element followed by a bit that says whether another one comes |
| Extension.ArrayPrefixFree | conduit/bgen/src/codegen/cpp_structs_encode.cpp:527-546 | no encoding of a non-empty array is a proper prefix of another |
| Extension.WriteArray | conduit/bgen/src/codegen/cpp_structs_encode.cpp:527-546 | the emitted loop appends the array's bits |
| Extension.ReadArray | conduit/bgen/src/codegen/cpp_structs_decode.cpp:1249-1280 | the emitted loop takes an array |
| Extension.ArrayEncodeThenDecode | conduit/bgen/src/codegen/cpp_structs_encode.cpp:527-546 | writer, array loop, reader and array loop in a row give the elements back, cut to their width, exactly when there is one |
| CycleDetector.Edges | conduit/bgen/src/analyzer/validator.cpp:2251-2287 | the references collected are exactly the structs and messages whose fields lie in place at some path: list, struct, FX block, any case or otherwise, never an array |
| CycleDetector.Detector.Visit | conduit/bgen/src/analyzer/validator.cpp:2208-2249 | the search keeps: stack is a path, finished nodes are finished once and, without errors, in topological order; it terminates |
| CycleDetector.Detector.DetectCycles | conduit/bgen/src/analyzer/validator.cpp:2191-2206 | reports an error if and only if the reference graph has a cycle; every struct and message is finished exactly once; every error is a reference on a cycle |
| CycleDetector.BackEdge | conduit/bgen/src/analyzer/validator.cpp:2237-2242 | a reference into the stack closes a cycle |
| CycleDetector.NoCycle | conduit/bgen/src/analyzer/validator.cpp:2191-2249 | a topological finishing order of all nodes rules every cycle out |
| CycleDetector.PathFalls | conduit/bgen/src/analyzer/validator.cpp:2252-2285 | positions in a topological order fall along every path of references |
| WireSizer.SizerIsPlainSum | conduit/bgen/src/analyzer/wire_sizer.cpp:91-315 | on every schema, cyclic or not, the visiting-set recursion equals the plain recursive bit sum |
| Layout.SizeIsLayoutSum | conduit/bgen/src/analyzer/wire_sizer.cpp:90-315 | with no negative count a list has a size exactly when it has a layout, and the size is the sum of the leaf widths of the layout |
| Layout.StructBytesIff | conduit/bgen/src/analyzer/wire_sizer.cpp:83-88 | a struct's table entry is that sum in whole bytes exactly when it leaves size_t room to round; none for bitmaps and without a layout |
| Layout.MessageBytesIff | conduit/bgen/src/analyzer/wire_sizer.cpp:45-49 | the same for messages |
| WireSizer.SizedIsPlain | conduit/bgen/src/analyzer/wire_sizer.cpp:153-182 | a size found under a visiting set is a plain sum of bounded depth |
| WireSizer.PlainIsSized | conduit/bgen/src/analyzer/wire_sizer.cpp:201-246 | a plain sum is never lost to the visiting set, diamonds included |
| WireSizer.KnownIff | conduit/bgen/src/analyzer/wire_sizer.cpp:91-138 | a list has a size exactly when nothing in it varies and every reference has one |
| WireSizer.DynamicIff | conduit/bgen/src/analyzer/wire_sizer.cpp:91-315 | a size is unknown exactly when following references meets something that varies or a cycle |
| SizeTable.Sizer.ChildrenBits | conduit/bgen/src/analyzer/wire_sizer.cpp:91-138 | the summing loop computes that sum modulo 2^64 and restores the visiting set |
| SizeTable.Sizer.ReferenceBits | conduit/bgen/src/analyzer/wire_sizer.cpp:201-246 | inserting into and erasing from the visiting set around a reference |
| SizeTable.Sizer.FieldSizeBits | conduit/bgen/src/analyzer/wire_sizer.cpp:147-250 | field sizes modulo 2^64 |
| SizeTable.Sizer.ArraySizeBits | conduit/bgen/src/analyzer/wire_sizer.cpp:253-315 | fixed arrays: count times element size modulo 2^64 |
| SizeTable.Sizer.Pass | conduit/bgen/src/analyzer/wire_sizer.cpp:27-35 | one sweep completes the table; a sweep over a complete table changes nothing |
| SizeTable.Sizer.SizeStructs | conduit/bgen/src/analyzer/wire_sizer.cpp:24-36 | the fixed-point loop makes at most two passes |
| SizeTable.Sizer.Compute | conduit/bgen/src/analyzer/wire_sizer.cpp:16-51 | every type, struct and message gets its size, dynamic ones included, and nothing else is listed |
| SizeTable.BytesExactIff | conduit/bgen/src/analyzer/wire_sizer.cpp:140-144 | the byte size is exact if and only if the bit sum fits 64 bits with room for rounding |
| SizeTable.TypeSizeIsBytesIff | conduit/bgen/src/analyzer/wire_sizer.cpp:54-81 | a type's own size agrees with what it contributes to a struct exactly when an octet count can be counted in bits |
| Literals.ReadAlikeIff | conduit/bgen/src/analyzer/parse_utils.hpp:14-30 | on every text both accept, the analyzer's number is the value of the same text as a C++ expression exactly when no digit counts between a leading zero and the last one, and no minus wraps an unsigned hexadecimal literal |
| Literals.CompilesIff | conduit/bgen/src/analyzer/parse_utils.hpp:14-30 | a text the analyzer accepts compiles exactly when it has at most one minus sign and no 8 or 9 after a leading zero |
| Literals.SyncReadAlikeIff | conduit/bgen/src/analyzer/session_analyzer.cpp:289-305 | the same condition for the parser of sync patterns |
| Literals.PrintedParses | conduit/bgen/src/analyzer/parse_utils.hpp:14-30 | the analyzer reads back every number printed in decimal, negated, or in hexadecimal of either case |
| Literals.OctalCompiles | conduit/bgen/src/codegen/cpp_structs_encode.cpp:681-690 | the compiler reads back every number printed in octal behind a zero |
| Literals.OctalTen | conduit/bgen/src/analyzer/parse_utils.hpp:25-29 | 010 is ten to the analyzer and eight to the compiler |
| Literals.WrappedMinus | conduit/bgen/src/analyzer/parse_utils.hpp:21-29 | -0x80000000 is negative to the analyzer and positive to the compiler |
| Literals.NarrowedConstant | conduit/bgen/src/codegen/cpp_constants.cpp:29-47 | a constant of -1 whose type name is unknown is emitted as 2^32 - 1 |
| ChoiceCases.CheckCaseOverlap | conduit/bgen/src/analyzer/validator.cpp:1680-1764 | silent if and only if every label is well formed and no two resolvable cases of a lane share a value |
| ChoiceCases.Collect | conduit/bgen/src/analyzer/validator.cpp:1684-1739 | the ranges collected are those of the resolvable cases; complaints arise exactly for malformed labels |
| ChoiceCases.RangePassesIff | conduit/bgen/src/analyzer/validator.cpp:1697-1736 | a range passes exactly when the first separator splits it into two bounds, each a number or a constant, in order if both resolve |
| ChoiceCases.SameValuePassesIff | conduit/bgen/src/analyzer/validator.cpp:1741-1764 | one number in two cases passes exactly when one is only sent and the other only received |
| ChoiceCases.CheckLane | conduit/bgen/src/analyzer/validator.cpp:1744-1753 | sorting and comparing neighbours is silent if and only if all pairs are disjoint |
| ChoiceCases.NeighboursSuffice | conduit/bgen/src/analyzer/validator.cpp:1744-1753 | in a list sorted by lower bound, disjoint neighbours and disjoint pairs are the same |
| ChoiceCases.LanesDecide | conduit/bgen/src/analyzer/validator.cpp:1755-1763 | the two lanes together decide every pair that may meet |
| ChoiceCoding.LabelsClashIff | conduit/bgen/src/codegen/cpp_structs_encode.cpp:664-697 | any two labels share an accepted discriminator exactly when their bounds after the cast span meeting intervals |
| ChoiceCoding.UnambiguousIff | conduit/bgen/src/codegen/cpp_structs_encode.cpp:664-697 | a discriminator is accepted for one case of a lane only, exactly when no two cast spans of the lane meet |
| ChoiceCoding.CheckedIsUnambiguous | conduit/bgen/src/analyzer/validator.cpp:1680-1764 | the overlap check gives that when every bound is representable in the switch type and its text means the same to check and compiler |
| ChoiceCoding.FaithfulIff | conduit/bgen/src/codegen/cpp_structs_decode.cpp:1544-1551 | check and emitted code agree on a bound exactly when it is a literal read alike, or a constant whose variable keeps its value |
| ChoiceCoding.LabelAlikeIff | conduit/bgen/src/analyzer/validator.cpp:1684-1739 | a label means the same to both exactly when that holds for each of its texts |
| ChoiceCoding.ValuesClashIff | conduit/bgen/src/codegen/cpp_structs_encode.cpp:670-682 | for two value labels the condition is agreement modulo 2^bits |
| ChoiceCoding.TruncatedCases | conduit/bgen/src/codegen/cpp_structs_encode.cpp:670-682 | cases 5 and 261 pass the check and clash on an 8-bit switch |
| ChoiceCoding.TruncatedRanges | conduit/bgen/src/codegen/cpp_structs_encode.cpp:683-688 | ranges 0..10 and 256..260 pass the check and clash on an 8-bit switch |
| ChoiceCoding.OctalCases | conduit/bgen/src/codegen/cpp_structs_encode.cpp:670-682 | cases 8 and 010 pass the check, fit the switch type, and are both accepted for 8 |
| ChoiceCoding.OctalShadow | conduit/bgen/src/codegen/cpp_structs_decode.cpp:1570-1574 | a send-only 8 before a received 010 is not skipped and takes its discriminator |
| ChoiceCoding.EmittedBranches | conduit/bgen/src/codegen/cpp_structs_decode.cpp:1553-1577 | the two loops of the emitter give a branch to exactly the cases that are not skipped |
| ChoiceCoding.TwinGivesWay | conduit/bgen/src/codegen/cpp_structs_decode.cpp:1541-1577 | a send-only case never takes a discriminator when a received case has the same number or range |
| ChoiceCoding.OthersPicked | conduit/bgen/src/codegen/cpp_structs_decode.cpp:1541-1625 | every other case takes what it accepts and no earlier test takes |
| ChoiceCoding.ReceivedCaseDecodesIff | conduit/bgen/src/codegen/cpp_structs_decode.cpp:1541-1625 | for every choice and switch type: all discriminators accepted for a received case decode to it exactly when no earlier branch meets its cast span |
| ChoiceCoding.CheckedShadowsIff | conduit/bgen/src/codegen/cpp_structs_decode.cpp:1541-1625 | in a checked choice whose bounds are representable and read alike only send-only cases and ranges written "0.." can shadow, and exactly when |
| ChoiceCoding.OtherwiseDecodesIff | conduit/bgen/src/codegen/cpp_structs_encode.cpp:699-740 | a discriminator of the otherwise branch decodes there exactly when no branch for a range written "0.." takes it |
| ChoiceCoding.NonNegativeOtherwise | conduit/bgen/src/codegen/cpp_structs_encode.cpp:699-740 | one that is not negative always does |
| ChoiceCoding.NegativeTaken | conduit/bgen/src/codegen/cpp_structs_decode.cpp:1603-1604 | signed switch, cases "0..5" and "-1": -1 is encoded as the second and decoded as the first |
| PeerIds.GoodIdIff | conduit/src/transceiver/transceiver.cpp:1054-1074 | the id handed out is nonzero and unused exactly when one of the next 257 counter values is |
| PeerIds.FreshWithinBound | conduit/src/transceiver/transceiver.cpp:1054-1074 | with at most 255 ids in use it always is, wherever the counter stands, across the 32-bit wrap |
| PeerIds.BoundIsSharp | conduit/src/transceiver/transceiver.cpp:1054-1074 | with 256 ids in use an id can be handed out twice |
| PeerIds.ReservedIdEscapes | conduit/src/transceiver/transceiver.cpp:1054-1074 | with 256 ids in use the reserved id 0 can be handed out |
| PeerTable.Table.NextPeerId | conduit/src/transceiver/transceiver.cpp:1054-1074 | the loop computes that allocation |
| PeerTable.Table.AddPeer | conduit/src/transceiver/transceiver.cpp:191-236 | refusals and their codes; otherwise one new static peer under the allocated id; the map stays an exact index exactly when that id is free, as it is below 256 peers |
| PeerTable.Table.AddMultiPeer | conduit/src/transceiver/transceiver.cpp:238-276 | registers a multi-peer transport and changes no peer |
| PeerTable.Table.SingleConnected | conduit/src/transceiver/transceiver.cpp:833-845 | returns the existing peer of the transport and changes only its endpoint |
| PeerTable.Table.ClientConnected | conduit/src/transceiver/transceiver.cpp:847-889 | a client gets the allocated id, its own context and the next child name; the map stays an exact index exactly when that id is free, as it is below 256 peers |
| PeerTable.Table.Disconnected | conduit/src/transceiver/transceiver.cpp:891-919 | removes the peer from list and map exactly when it is not static, with exactly one name that leads to it; static peers always stay |
| PeerTable.Table.Perform | conduit/src/transceiver/transceiver.cpp:833-919 | one call of any kind: whether a peer enters or leaves, and that its id was free or live |
| PeerTable.Table.Replay | conduit/src/transceiver/transceiver.cpp:191-276 | any list of adds, connects and disconnects with at most 255 live peers before each: ids are free when handed out, nonzero and distinct, the map is exact, static peers stay |
| PeerTable.ChildNamesDiffer | conduit/src/transceiver/transceiver.cpp:871-871 | the children of one transport get different names |
| PeerTable.IndexRemove | conduit/src/transceiver/transceiver.cpp:915-916 | erasing from list and map keeps the map an exact index |
| BoundedQueue.PushLaw | conduit/include/conduit/queue/bounded_queue.hpp:123-156 | refused only by a closed or full queue, evicted only the oldest of a full one, otherwise appended |
| BoundedQueue.Queue.TryEnter | conduit/include/conduit/queue/bounded_queue.hpp:123-156 | the ring buffer refines a bounded sequence: accepted, refused or oldest evicted by policy |
| BoundedQueue.Queue.Pop | conduit/include/conduit/queue/bounded_queue.hpp:217-237 | oldest element first; nothing exactly from a closed and drained queue |
| DispatchLaws.Conservation | conduit/src/transceiver/transceiver.cpp:767-818 | in every reachable state received = pending + queued + in flight + dispatched + handler errors + unhandled + dropped + evicted |
| DispatchLaws.ConservedStep | conduit/src/transceiver/transceiver.cpp:986-1027 | every step keeps every single message in exactly one place |
| DispatchLaws.DrainedAfterStop | conduit/src/transceiver/transceiver.cpp:438-483 | when transports have stopped and all workers have exited nothing is pending, queued or in flight |
| DispatchLaws.TakenInOrder | conduit/src/transceiver/transceiver.cpp:808-818 | with any number of workers each peer's messages are taken in decode order, all of them under the blocking policy |
| DispatchLaws.FinishedInOrder | conduit/src/transceiver/transceiver.cpp:986-1027 | with one worker each peer's finished messages are a subsequence of its decode order |
| DispatchLaws.BooksKept | conduit/src/transceiver/transceiver.cpp:1014-1028 | in every run the messages received are those decoded, and each counter counts exactly the handler calls that ended its way |
| DispatchLaws.LossOnlyWhenFull | conduit/include/conduit/queue/bounded_queue.hpp:123-156 | in every run a message is refused or evicted only when it finds the queue full |
| DispatchLaws.LossByPolicy | conduit/include/conduit/queue/bounded_queue.hpp:123-156 | blocking loses nothing, evicting refuses nothing, refusing evicts nothing |
| DispatchLaws.DrainShrinks | conduit/src/transceiver/transceiver.cpp:438-483 | after close every step that changes anything brings the workers closer to exit |
| DispatchLaws.DrainMoves | conduit/src/transceiver/transceiver.cpp:986-1048 | until all workers have exited one of them can step |
| LockingLaws.DeadlockFree | conduit/src/transceiver/transceiver.cpp:540-1048 | in every reachable state a thread that is not quiet makes a step that changes the state, or all are done or at an empty open queue with no lock held |
| LockingLaws.NoCircularWait | conduit/src/transceiver/transceiver.cpp:540-1048 | no reachable state has a circular wait over locks, waiting writers, the full queue and joins |
| LockingLaws.BlockedWaits | conduit/src/transceiver/transceiver.cpp:540-1048 | a thread with code left that cannot step waits for some thread in that sense |
| LockingLaws.NeverStuck | conduit/src/transceiver/transceiver.cpp:540-1048 | in every reachable state every thread that is not quiet can step after finitely many steps of the others alone |
| LockingLaws.ReceiverNeverStuck | conduit/src/transceiver/transceiver.cpp:808-818 | before a full blocking queue every worker gets on, and the receiver's push is let through, by finitely many steps of the others |
| LockingLaws.Settle | conduit/src/transceiver/transceiver.cpp:540-1048 | from every state that keeps the invariant the threads can finish |
| LockingLaws.SettlingEnds | conduit/src/transceiver/transceiver.cpp:540-1048 | however the threads are scheduled, steps that bring in no new code come to an end within a stated bound |
| LockingLaws.RaceFree | conduit/src/transceiver/transceiver.cpp:671-831 | in every reachable state no thread is about to touch data that another is about to write |
| LockingLaws.JoinReturns | conduit/src/transceiver/transceiver.cpp:454-458 | the wait for the transports ends with every receiver at rest, and none runs again |
| LockingLaws.StopReturns | conduit/src/transceiver/transceiver.cpp:460-484 | the wait for the workers ends with all of them gone and the queue drained |
| LockingLaws.PushesAsQueue | conduit/include/conduit/queue/bounded_queue.hpp:123-156 | a push waits and changes the size exactly as the dispatch queue does under its policy |
| LockingLaws.MutualExclusion | conduit/src/transceiver/transceiver.cpp:540-980 | no lock is held exclusively by one thread and at all by another |
| Locking.InvStep | conduit/src/transceiver/transceiver.cpp:540-1048 | every step keeps the lock order and the rule that nothing is held at a push, pop, call or join |
| Locking.StepShrinks | conduit/src/transceiver/transceiver.cpp:540-1048 | every step that brings in no new code lowers the work left |
| Locking.LockedMoves | conduit/src/transceiver/transceiver.cpp:540-980 | whenever a lock is held, a holder of the highest rank in use leads to a step that changes the state |
| Locking.BlockedPushMoves | conduit/src/transceiver/transceiver.cpp:808-818 | a push blocked on a full queue leaves a worker, or whoever it waits for, able to step |
| TransceiverLocks.ReceiveFollows | conduit/src/transceiver/transceiver.cpp:671-831 | receive: peers lock then context lock, both released before errors, logging and pushes; one push per decoded message; table, session and log touched under their locks; pause under the shared peers lock |
| TransceiverLocks.SendsFollow | conduit/src/transceiver/transceiver.cpp:540-665 | any sends made from a handler or callback follow the same discipline and send with no lock held |
| TransceiverLocks.ConnectFollows | conduit/src/transceiver/transceiver.cpp:833-889 | connect: the table is written, under the exclusive lock; every callback runs after it |
| TransceiverLocks.DisconnectFollows | conduit/src/transceiver/transceiver.cpp:891-942 | disconnect: likewise; the handlers of dynamic peers alone are removed, under their lock |
| TransceiverLocks.StateFollows | conduit/src/transceiver/transceiver.cpp:944-980 | state change: session reset under both locks, callbacks with none |
| TransceiverLocks.RoundFollows | conduit/src/transceiver/transceiver.cpp:986-1048 | worker round after a pop: the handler table is read under its lock, all handlers and error callbacks run with no lock held; resume under the shared peers lock |
| TransceiverLocks.StopFollows | conduit/src/transceiver/transceiver.cpp:438-483 | stop: joins transports and workers with no lock held, the transports first exactly when running |

## Left out

- BitWriting.BitWriter.WriteSignMagnitude: widths above 64 bits are excluded; the source then shifts a 64-bit word by its width or more, which has no defined result.
- BitReading.BitReader.ReadBytes: a count whose `size_t` sum with the position wraps is treated as too long; `BitReading.PassedIsInsideIff` says which counts those are.
- BitWriting.BitWriter.Patch: an offset whose `size_t` sum with the length wraps is treated as out of range; the source's test then passes.
- Literals.ReadAlikeIff: assumes a 32-bit `int` and a 64-bit `long long`; a second minus sign before 2^63, whose negation overflows in the source, gives 2^63.
- Bitmap.Decode: an extended little-endian bitmap with more octets than the schema has is excluded; the emitted code then reverses past its array.
- DispatchLaws.TakenInOrder: assumes that a transport delivers each peer's data from one thread.
- DispatchLaws.LossByPolicy: leaves out a second `stop` beside the first, which closes the queue before the transports have stopped, so that a blocking queue can refuse.
- LockingLaws.DeadlockFree: handlers and callbacks may send any number of times, and are assumed not to call `stop`; transport `pause` and `resume`, called under the shared peers lock, and session factories, called under the exclusive one, are assumed neither to wait nor to call back beyond a lock of their own.
- LockingLaws.RaceFree: covers the data the modelled operations touch under the table, context, callback, handler and log locks; atomics and statistics are not modelled as data.
- Layout.SizeIsLayoutSum: says nothing about negative counts, lengths and reserved widths, which have no layout; `SizeTable` still computes with them as the source does.
- LockingLaws.NeverStuck: the steps of the others that let a thread through are steps in which handlers, callbacks and sends return without using the transceiver again.
- Floating-point, string and packed-character fields, scaling, and capacity overflow of the writer's buffer.
- Frames with payload-only lengths, length modifiers, count fields, reserved or odd-width header items, and message bodies that are not whole bytes.
- FX children other than fixed-width integers, reserved bits and nested blocks; byte-aligned multi-byte little-endian FX fields.
- Labels that name enumerators in the discriminator checks, and dotted or outer-scope switch expressions.
- Back-pressure (pausing and resuming transports), the shutdown timeout, message logging contents and statistics other than the message counters.
- The name table's contents beyond what the operations state: after a 32-bit wrap a multi-peer transport's own id may equal a client's id.
- The remaining validator rules, JSON generation, name utilities, the handler registry's lookup order, JNI bridge, C ABI wrappers, CLI and benchmarks: string work, plumbing or one-branch checks.
