# node-dns in Dafny

A model of the core of `node-dns`, a small DNS client for Node.js:

- the growable byte writer and bounds-checked reader (`buffer.js`);
- the DNS wire codec (`packet.js`, `record.js`): compressed names, questions,
  resource records of the registered classes (A, NS, CNAME, SOA, and opaque
  payloads for every other type), and the 12-byte header with its flag word;
- the IPv4 and IPv6 text parsers (`ip.js`);
- the request lifecycle of the client (`client.js`): id stamping, option
  defaults, retries on timeout, and matching responses to pending requests.

The codec is specified twice, and the two are tied together:

- Pure functions on byte sequences state what the source computes:
  - `NameCodec.EncodeName` / `NameCodec.DecodeName`;
  - `Message.EncodePacket` / `Message.DecodePacket`, and the per-question and
    per-record encoders and decoders.
- Imperative classes do what the source does step by step:
  - `Buffer.BufferWriter` is an array with a length and the source's capacity
    rule;
  - `Buffer.BufferReader` is an array with a cursor;
  - `DnsCursor.DnsWriter` adds the compression table, a map from names to
    offsets;
  - `DnsCursor.DnsReader` is the name-reading cursor.
- Each method is proved to append exactly what the pure encoder gives, or to
  read exactly what the pure decoder gives.

The central property is the message round trip `MessageLaws.PacketRoundTrip`:
`fromBuffer(toBuffer(p))` gives back `p`, with negative TTLs read as 0. It
holds for every packet whose names are well formed, whose payloads are in
the form their class reads back, and whose encoding is at most 16384 bytes,
so that every compression offset fits in 14 bits. It rests on the name
round trip `NameCodec.NameRoundTrip`, which holds for every state of the
compression table that is sound for the bytes already written.

Behaviour modelled as written, including the quirks:

- **Writer capacity.** `_ensureCapacity(diff)` compares the capacity with
  `diff` rather than with `_length + diff`. A fixed-width write past the
  initial 256 bytes therefore throws instead of growing the buffer.
  - `Buffer.WriteFits` states exactly when a write succeeds.
  - `PacketIO.ToBuffer` guarantees success only for messages of at most
    256 bytes.
- **Empty names.** `writeName("")` writes two zero bytes: the length byte 0
  of an empty label, then the terminator (`NameCodec.EmptyNameBytes`).
- **Decoding.** The reader ignores the three Z bits of the flag word and
  anything after the last record.
- **A records.** The address is written with `parseInt` of each part. A part
  that is not a number becomes a 0 byte; a number outside 0..255 throws.
- **IPv4 parsing.** The parser rejects 255 in any position.
- **IPv6 parsing.** A middle `::` whose halves already hold eight or more
  groups throws. The group-count guard at that point names a variable that
  does not exist, so the source fails with a ReferenceError; the model
  treats this as a failure like the others.
- **Client ids.** The client's id counter never wraps. Once an id no longer
  fits in 16 bits, sending fails.

Every throw in the source is a failure value in the model: `Option` for the
pure functions, a `false` result or `None` for the methods.

## Model

| member | source | states |
|---|---|---|
| JsBits.JsOrDisjoint | src/packet.js:198-205 | a bitwise or of operands in disjoint bit ranges, with a sum below 2^31, is their sum |
| JsBits.ToInt32 | src/packet.js:199-205 | the result is a signed 32-bit integer, and a value already in 0..2^31-1 is kept |
| JsBits.JsOr | src/packet.js:199-205 | the result of the or operator is a signed 32-bit integer; JsOrDisjoint states it is the sum on disjoint non-negative fields |
| JsBits.JsShl | src/packet.js:200 | the result of `a << n` is a signed 32-bit integer, and equals a times 2^n when that stays below 2^31 |
| Bytes.FromBE16 | src/buffer.js:76-81 | the value read from two bytes is an unsigned 16-bit number |
| Bytes.FromBE32 | src/buffer.js:90-95 | the value read from four bytes is an unsigned 32-bit number |
| Bytes.FromInt32BE | src/buffer.js:83-88 | the value read from four bytes is a signed 32-bit number |
| Bytes.BE16RoundTrip | src/buffer.js:21-26 | every 16-bit value written big-endian reads back as itself |
| Bytes.BE32RoundTrip | src/buffer.js:35-40 | every unsigned 32-bit value written big-endian reads back as itself |
| Bytes.Int32RoundTrip | src/buffer.js:28-33 | every signed 32-bit value written in two's complement reads back as itself |
| Buffer.WriteFits | src/buffer.js:7-12 | a write of n bytes at the current length succeeds iff it fits in the capacity, or the capacity is below n (the only case that grows the buffer) |
| Buffer.BytesAt | src/buffer.js:97-102 | reading n bytes succeeds iff they are inside the buffer, and then gives exactly the bytes at the cursor |
| Buffer.ReadBackU16 | src/buffer.js:76-81 | `readUInt16BE` where `writeUInt16BE(v)` wrote returns v, whatever surrounds it |
| Buffer.ReadBackU32 | src/buffer.js:90-95 | `readUInt32BE` where `writeUInt32BE(v)` wrote returns v |
| Buffer.ReadBackI32 | src/buffer.js:83-88 | `readInt32BE` where `writeInt32BE(v)` wrote returns v |
| Buffer.ReadBackBytes | src/buffer.js:97-102 | reading as many bytes as `writeBuffer(x)` wrote, where it wrote them, returns x |
| Buffer.U16Holds | src/buffer.js:76-81 | a 16-bit value held at an offset of a message reads back there |
| Buffer.U32Holds | src/buffer.js:90-95 | an unsigned 32-bit value held at an offset reads back there |
| Buffer.I32Holds | src/buffer.js:83-88 | a signed 32-bit value held at an offset reads back there |
| Buffer.BufferWriter.constructor | src/buffer.js:2-5 | a new writer holds 256 zero bytes and length 0, whatever capacity is asked for |
| Buffer.BufferWriter.EnsureCapacity | src/buffer.js:7-12 | grows only when the capacity is below diff, to max(length + diff, 2 × capacity), keeping the old bytes and padding with zeros |
| Buffer.BufferWriter.WriteUInt8 | src/buffer.js:14-19 | succeeds iff the value is in 0..255 and one byte fits; then the byte is appended and nothing else changes; on failure nothing changes |
| Buffer.BufferWriter.WriteFixed | src/buffer.js:14-40 | the shared fixed-width write: succeeds iff the bytes fit in the current capacity, never grows it; then they are appended at `length`; on failure nothing changes |
| Buffer.BufferWriter.WriteUInt16BE | src/buffer.js:21-26 | succeeds iff the value is a 16-bit number and two bytes fit; then its big-endian bytes are appended |
| Buffer.BufferWriter.WriteInt32BE | src/buffer.js:28-33 | succeeds iff the value is a signed 32-bit number and four bytes fit; then its two's-complement bytes are appended |
| Buffer.BufferWriter.WriteUInt32BE | src/buffer.js:35-40 | succeeds iff the value is an unsigned 32-bit number and four bytes fit; then its big-endian bytes are appended |
| Buffer.BufferWriter.WriteBuffer | src/buffer.js:42-47 | succeeds exactly as `WriteFits` says, after growing as `_ensureCapacity` does; then the data is appended |
| Buffer.BufferWriter.Store | src/buffer.js:44 | the bytes at offset `length` become `data`, the bytes before and after are kept, and the buffer stays the same object |
| Buffer.BufferWriter.GetBuffer | src/buffer.js:54-56 | the first `length` bytes, clamped to the buffer's end |
| Buffer.BufferReader.constructor | src/buffer.js:60-63 | the reader starts at offset 0 of the given buffer |
| Buffer.BufferReader.ReadUInt8 | src/buffer.js:69-74 | returns the byte at the cursor and advances by 1, or fails past the end without moving |
| Buffer.BufferReader.ReadUInt16BE | src/buffer.js:76-81 | returns the big-endian 16-bit value at the cursor and advances by 2, or fails without moving |
| Buffer.BufferReader.ReadInt32BE | src/buffer.js:83-88 | returns the signed 32-bit value at the cursor and advances by 4, or fails without moving |
| Buffer.BufferReader.ReadUInt32BE | src/buffer.js:90-95 | returns the unsigned 32-bit value at the cursor and advances by 4, or fails without moving |
| Buffer.BufferReader.ReadBuffer | src/buffer.js:97-102 | returns exactly the n bytes at the cursor and advances by n, or fails without moving |
| Strings.Find | src/ip.js:37 | the first index where a pattern occurs, or None iff it occurs nowhere |
| Strings.SplitOn | src/ip.js:37 | `split('::')`: at least one piece, the pieces joined with the separator give the text back, and exactly one piece iff the separator does not occur |
| Strings.Split | src/ip.js:3 | `split('.')`: at least one piece, joined back they give the text, and no piece contains the separator |
| Strings.SplitJoin | src/record.js:11 | splitting a join of separator-free parts gives the parts back |
| Strings.IndexOf | src/packet.js:45 | `indexOf` of a character: -1, or an index holding that character |
| Strings.IndexOfFirst | src/packet.js:45 | the character does not occur before the index `indexOf` returns, nor anywhere when it returns -1 |
| Strings.IndexOfSplit | src/packet.js:45 | in a part free of the character, followed by it, `indexOf` finds the one after the part |
| Strings.LastIndexOf | src/ip.js:45 | `lastIndexOf` of a character: -1 or an index holding it, with no occurrence after it |
| Strings.Numeral | src/ip.js:47 | `toString(base)`: at least one digit, all digits of the base, no leading zero |
| Strings.TrimStart | src/ip.js:12 | `parseInt` skips leading white space: the result starts with a non-space, and a text without leading space is unchanged |
| Strings.ParseDecimal | src/ip.js:12-16 | `parseInt`, with radix 10 or none, reads back every canonical decimal numeral |
| Strings.ParseIntDecimal | src/ip.js:12 | no contract of its own; ParseDecimal states that it reads back every canonical decimal numeral |
| Strings.ParseIntAuto | src/record.js:14 | no contract of its own; ParseDecimal states it for decimal numerals, and Message.SegmentByte states the byte stored for its result |
| Strings.NumeralRoundTrip | src/ip.js:16 | a numeral written by `toString(base)` reads back as its number |
| NameCodec.NameParts | src/packet.js:8-31 | the labels `readName` collects at an offset; a successful read ends after the offset, inside the data |
| NameCodec.PointerTarget | src/packet.js:19 | the offset named by a compression pointer is below 2^14 |
| NameCodec.PointerWord | src/packet.js:43 | no contract of its own; PointerWordBits and PointerBytes state it |
| NameCodec.PointerWordBits | src/packet.js:43 | `offset OR 0xC000` has low 16 bits 0xC000 plus the low 14 bits of the offset, and an offset below 16384 gives exactly 0xC000 plus the offset |
| NameCodec.DecodeName | src/packet.js:8-31 | `readName` succeeds iff its label walk does; the name is the labels joined with dots |
| NameCodec.NameTerminators | src/packet.js:11-29 | a zero length byte ends the name; a length byte with top bits 01 or 10 is an error |
| NameCodec.PointerStep | src/packet.js:16-26 | a pointer reads the name at its target after the labels so far, and leaves the cursor just after its two bytes |
| NameCodec.NamePartsExtend | src/packet.js:8-31 | appending bytes to a message does not change a successful name read |
| NameCodec.NamePartsMoreFuel | src/packet.js:19-23 | a larger pointer-nesting budget does not change a successful name read |
| NameCodec.LabelEndDot | src/packet.js:45-46 | the first label ends at a dot exactly when `indexOf('.')` finds one, at that index |
| NameCodec.EncodeName | src/packet.js:41-59 | `writeName` emits at least two bytes and never removes a table entry |
| NameCodec.EmptyNameBytes | src/packet.js:46-49 | `writeName("")` emits the two bytes 0, 0 when the empty name is not in the table |
| NameCodec.KnownNameIsPointer | src/packet.js:42-43 | a name already in the table is written as the two bytes of the offset with its top two bits set, and leaves the table as it was |
| NameCodec.RecordedSuffixes | src/packet.js:51-55 | a dotted name not in the table is recorded at its first length byte; a single label or a known name adds nothing; earlier entries are kept |
| NameCodec.PointerBytes | src/packet.js:43 | the two bytes of an offset with its top two bits set name that offset again when read as a pointer |
| NameCodec.PointerDecodes | src/packet.js:16-26 | a pointer to where a name decodes reads back as that name, with the cursor two bytes on |
| NameCodec.KnownNameDecodes | src/packet.js:42-43 | a name written as a pointer into a sound table reads back as that name |
| NameCodec.SingleLabelDecodes | src/packet.js:46-49 | a single label not in the table reads back as itself, terminator included |
| NameCodec.UndottedKeepsTable | src/packet.js:42-49 | a known name or a single label leaves the table unchanged |
| NameCodec.DottedCase | src/packet.js:50-56 | a dotted name not in the table is its length byte, first label, and the rest written one label further on, then recorded |
| NameCodec.NameRoundTrip | src/packet.js:41-59 | with a table sound for the bytes before it, a well-formed name written by `writeName` reads back by `readName` as itself, whatever follows, and the new table is sound |
| NameCodec.NameDecodes | src/packet.js:8-31 | the decoding half of the name round trip |
| NameCodec.NameTable | src/packet.js:51-55 | the table half of the name round trip: every entry still decodes to its key |
| NameCodec.NameAt | src/packet.js:8-31 | inside one message, `readName` with the message length as budget finds a name where `writeName` put it |
| DnsCursor.DnsWriter.constructor | src/packet.js:35-39 | a new name writer: 256 zero bytes, nothing written, an empty table |
| DnsCursor.DnsWriter.WriteLabel | src/packet.js:47-48 | appends the length byte and the label; fails when the length does not fit in a byte, succeeds whenever the bytes fit |
| DnsCursor.DnsWriter.WriteName | src/packet.js:41-59 | appends exactly the bytes `EncodeName` gives and leaves its table; fails when it does, succeeds whenever those bytes fit |
| DnsCursor.DnsWriter.WriteDotted | src/packet.js:50-56 | the dotted branch: label, recursive write, then the table entry, as `EncodeName` says |
| DnsCursor.DnsReader.constructor | src/packet.js:4-6 | the name reader starts at offset 0 of the buffer |
| DnsCursor.DnsReader.ReadName | src/packet.js:8-31 | returns the name `DecodeName` gives and moves the cursor where it says, or fails where it fails |
| DnsCursor.DnsReader.ReadPointer | src/packet.js:16-26 | reads the second pointer byte, the name at the target, and restores the cursor to after the pointer |
| DnsCursor.LabelStep | src/packet.js:13-15 | a label's bytes come first, then whatever the name after it decodes to |
| Message.RegistryContents | src/record.js:110-115 | types 1, 2, 5 and 6 map to A, NS, CNAME and SOA, and every other type to the opaque class |
| Message.Registry | src/record.js:110-115 | no contract of its own; RegistryContents states which type codes select A, NS, CNAME and SOA and that every other code is unregistered |
| Message.DecodeFlags | src/packet.js:158-165 | the opcode and response code read from a flag word are 4-bit values |
| Message.FlagsWord | src/packet.js:198-205 | no contract of its own; FlagsWordValue gives it as the sum of the shifted fields, and FlagsRoundTrip shows DecodeFlags reads them back |
| Message.FlagsWordValue | src/packet.js:198-205 | with 4-bit opcode and response code the or-ed flag word is the sum of the fields at their bit positions |
| Message.HeadValue | src/packet.js:199-200 | QR or-ed with `opcode << 11` is the 5-bit field at bit 11 |
| Message.MiddleValue | src/packet.js:201-202 | AA and TC or-ed in extend it to bit 9 |
| Message.TailValue | src/packet.js:203-205 | RD, RA and the response code or-ed in complete the word |
| Message.FlagsRoundTrip | src/packet.js:198-205 | the flag word is a 16-bit value with zero Z bits that the reader at lines 158-165 decodes to the same flags |
| Message.ZBitsIgnored | src/packet.js:158-165 | setting any Z bit decodes to the same flags |
| Message.SegmentByte | src/record.js:14 | `writeUInt8(parseInt(seg))`: the value in 0..255, a failure for any other number, 0 for NaN |
| Message.SegmentBytes | src/record.js:13-15 | all segments succeed iff each does, and the bytes are theirs in order |
| Message.AddressBytes | src/record.js:10-16 | an A payload is four bytes, and the address fails unless it splits into four parts |
| Message.Decimals | src/record.js:26 | each byte becomes its canonical decimal numeral |
| Message.AddressRoundTrip | src/record.js:18-27 | the address decoded from four bytes encodes back to those bytes |
| Message.DottedQuad | src/record.js:26 | no contract of its own; Decimals and AddressRoundTrip state that it joins the canonical decimals with dots and that the address bytes read back from it |
| Message.EncodeQuestion | src/packet.js:69-74 | a question encodes only if its name encodes and type and class are 16-bit values |
| Message.EncodeRData | src/packet.js:109-111 | the payload of the record's class; an A payload is four bytes |
| Message.SOANumbers | src/record.js:87-91 | the five SOA numbers take 20 bytes |
| Message.FixedFields | src/packet.js:96-100 | type, class, TTL and the length slot take 10 bytes |
| Message.EncodeRecord | src/packet.js:93-107 | no contract of its own; RecordAt shows the record decodes back to itself with a clamped TTL, RawPayloadWritten that it ends in the length field and payload, and PacketIO.RecordWritten that the writer produces these bytes |
| Message.EncodeRecordData | src/packet.js:99-107 | no contract of its own; the part of EncodeRecord after the name, which RecordAt and PacketIO.WriteRecordData state |
| Message.EncodeHeader | src/packet.js:196-211 | the header is 12 bytes |
| Message.EncodePacket | src/packet.js:194-233 | a serialized message is at least the 12-byte header |
| Message.EncodeQuestions | src/packet.js:213-215 | no contract of its own; QuestionsAt shows the section decodes back to the questions, and PacketIO.QuestionsSnoc and QuestionsPrefix relate it to the writer loop |
| Message.EncodeRecords | src/packet.js:217-225 | no contract of its own; RecordsAt shows a section decodes back to its records with clamped TTLs, and PacketIO.RecordsSnoc and RecordsPrefix relate it to the writer loops |
| Message.DecodeQuestion | src/packet.js:76-82 | a question read ends after its start, inside the data |
| Message.DecodeRData | src/packet.js:113-115 | a payload read consumes exactly rdlength bytes and has the registered class; an A payload of length other than 4 fails; an unregistered type keeps the bytes |
| Message.DecodeRecord | src/packet.js:117-133 | the TTL read is never negative, the payload class is the registered one, and the read ends inside the data |
| Message.DecodeRecordFields | src/packet.js:119-131 | the same for the fields after the name |
| Message.DecodeQuestions | src/packet.js:171-173 | a question section read holds exactly the count questions |
| Message.DecodeRecords | src/packet.js:175-185 | a record section read holds exactly the count records |
| Message.DecodePacket | src/packet.js:154-187 | a decoded message had at least 12 bytes, and each section holds as many entries as its header count says |
| MessageLaws.Clamped | src/packet.js:127-128 | a negative TTL becomes 0 and nothing else changes; a non-negative one keeps the record |
| MessageLaws.ClampedAll | src/packet.js:175-185 | a section is clamped record by record |
| MessageLaws.QuestionAt | src/packet.js:76-82 | an encoded question reads back as itself, and the table stays sound |
| MessageLaws.RDataAt | src/packet.js:113-115 | an encoded payload reads back with its own length as rdlength |
| MessageLaws.BytesDataAt | src/record.js:18-27 | an opaque payload and the four address bytes read back |
| MessageLaws.RawRecordVerbatim | src/packet.js:109-115 | a record of an unregistered type keeps its payload as read; written again, it ends in the same length field and the same payload bytes |
| MessageLaws.RawPayloadWritten | src/packet.js:93-111 | any record with an opaque payload whose name can be written is written ending in the 16-bit payload length and the payload bytes |
| MessageLaws.NameDataAt | src/record.js:41-47 | the name of an NS or CNAME payload reads back and ends exactly at rdlength |
| MessageLaws.SOAAt | src/record.js:94-106 | an SOA payload reads back: two names, then the five numbers, ending exactly at rdlength |
| MessageLaws.SOAFields | src/record.js:98-102 | the five SOA numbers read back from where they were written |
| MessageLaws.RecordAt | src/packet.js:117-133 | an encoded record reads back, with a negative TTL as 0 |
| MessageLaws.RecordFields | src/packet.js:119-130 | type, class, TTL and length read back from after the name |
| MessageLaws.QuestionsAt | src/packet.js:171-173 | an encoded question section reads back in order |
| MessageLaws.RecordsAt | src/packet.js:175-185 | an encoded record section reads back in order, negative TTLs as 0 |
| MessageLaws.HeaderAt | src/packet.js:157-169 | the id, flag word and four counts read back from the header bytes |
| MessageLaws.PacketParts | src/packet.js:194-226 | a serialized message is the header and the four sections, each encoded where the last ends, with one table |
| MessageLaws.SectionsAt | src/packet.js:170-185 | the four sections read back one after another, with one table from offset 0 |
| MessageLaws.PacketRoundTrip | src/packet.js:189-233 | `fromBuffer(toBuffer(p))` is p with negative TTLs as 0, for well-formed packets of at most 16384 bytes |
| PacketIO.QuestionsSnoc | src/packet.js:213-215 | one more question is encoded where the section so far ends, with its table |
| PacketIO.RecordsSnoc | src/packet.js:217-225 | one more record is encoded where the section so far ends, with its table |
| PacketIO.QuestionsPrefix | src/packet.js:213-215 | every prefix of an encodable question section encodes, no longer than the whole |
| PacketIO.RecordsPrefix | src/packet.js:217-225 | every prefix of an encodable record section encodes, no longer than the whole |
| PacketIO.Backpatched | src/packet.js:102-106 | the length written back over the reserved slot, with the payload after it, is length and payload appended at the slot |
| PacketIO.WriteAddress | src/record.js:10-16 | appends exactly `AddressBytes` of the address, fails when it fails, succeeds whenever the four bytes fit |
| PacketIO.WriteSegment | src/record.js:14 | appends the byte `SegmentByte` gives, fails when it fails, succeeds whenever the byte fits |
| PacketIO.WriteSOA | src/record.js:83-92 | appends exactly the SOA payload `EncodeRData` gives, with its table |
| PacketIO.WriteSOANumbers | src/record.js:87-91 | appends the serial unsigned and the other four signed; succeeds iff they are in range and fit |
| PacketIO.WriteRData | src/packet.js:109-111 | appends exactly the payload `EncodeRData` gives for the record's class, and succeeds whenever it fits |
| PacketIO.WriteQuestion | src/packet.js:69-74 | appends exactly `EncodeQuestion` of the question, and succeeds whenever it fits |
| PacketIO.WriteRecordHead | src/packet.js:96-98 | appends type, class and TTL; succeeds iff they are in range and fit |
| PacketIO.RecordWritten | src/packet.js:93-107 | a name followed by the rest of the record is the record appended |
| PacketIO.WriteSized | src/packet.js:99-106 | reserves two bytes, appends the payload, writes its length back: length and payload appended |
| PacketIO.PatchLength | src/packet.js:102-106 | writing the payload length into the reserved slot succeeds iff it is a 16-bit value, and gives length and payload appended |
| PacketIO.Skip | src/packet.js:99-100 | `_length += 2` moves the writer without changing a byte |
| PacketIO.WriteLengthAt | src/packet.js:104-106 | the 16-bit length written at the slot, the length restored; on failure the length stays at the slot |
| PacketIO.WriteRecordData | src/packet.js:96-106 | appends the fixed fields and the sized payload, as `EncodeRecordData` says |
| PacketIO.WriteRecord | src/packet.js:93-107 | appends exactly `EncodeRecord` of the record and its table, and succeeds whenever it fits |
| PacketIO.WriteCounts | src/packet.js:206-211 | the four counts appended; succeeds iff each is a 16-bit value and eight bytes fit |
| PacketIO.FlagsOf | src/packet.js:198-205 | the flag word built by or-ing one field at a time is `FlagsWord`, and decodes back to the flags when opcode and response code fit 4 bits |
| PacketIO.WriteHeader | src/packet.js:195-211 | succeeds iff `EncodeHeader` does and 12 bytes fit, and then appends exactly those bytes |
| PacketIO.WriteQuestions | src/packet.js:213-215 | the loop appends exactly the encoded question section, with its table; succeeds whenever it fits |
| PacketIO.WriteRecords | src/packet.js:217-225 | the loop appends exactly the encoded record section, with its table; succeeds whenever it fits |
| PacketIO.PacketWritten | src/packet.js:194-226 | the header and the four sections written one after another make up `EncodePacket` |
| PacketIO.ToBuffer | src/packet.js:229-233 | what `toBuffer` returns is the message's encoding; a message encoding to at most 256 bytes is always written |
| PacketRead.ReadQuestion | src/packet.js:76-82 | returns the question `DecodeQuestion` gives and moves the cursor where it ends, or fails where it fails |
| PacketRead.ReadAddress | src/record.js:18-27 | fails unless rdlength is 4, then returns the four octets joined with dots, as `DecodeRData` says |
| PacketRead.ReadNameData | src/record.js:41-47 | an NS or CNAME name that must end exactly rdlength bytes on, as `DecodeRData` says |
| PacketRead.ReadSOANumbers | src/record.js:98-102 | the serial unsigned and four signed numbers, read in order |
| PacketRead.ReadSOA | src/record.js:94-106 | two names and five numbers ending exactly rdlength bytes on, as `DecodeRData` says |
| PacketRead.ReadRData | src/packet.js:113-115 | the payload of the registered class, or rdlength raw bytes, as `DecodeRData` says |
| PacketRead.ReadRecord | src/packet.js:117-133 | returns the record `DecodeRecord` gives, negative TTL as 0, or fails where it fails |
| PacketRead.ReadRecordFields | src/packet.js:119-131 | type, class, TTL, length and payload after the name, as `DecodeRecordFields` says |
| PacketRead.ReadQuestions | src/packet.js:171-173 | the question loop returns exactly `DecodeQuestions` |
| PacketRead.ReadRecords | src/packet.js:175-185 | the record loop returns exactly `DecodeRecords` |
| PacketRead.FromBuffer | src/packet.js:189-192 | `fromBuffer` returns exactly `DecodePacket` of the bytes |
| IpText.OctetValue | src/ip.js:12-16 | an accepted part is below 255 and is the canonical numeral of its value |
| IpText.OctetValueExact | src/ip.js:12-16 | every canonical numeral below 255 is accepted as its value |
| IpText.Octets | src/ip.js:10-19 | accepted parts give one value per part, each the part's value |
| IpText.OctetsFail | src/ip.js:10-19 | one rejected part rejects the address |
| IpText.OctetsAll | src/ip.js:10-19 | parts that are all accepted are accepted together |
| IpText.Ipv4Bits | src/ip.js:2-22 | the result is four values below 255, and fails unless the text has four parts |
| IpText.CheckOctet | src/ip.js:12-16 | the three checks on one part give `OctetValue` |
| IpText.Ipv4TextToBits | src/ip.js:2-22 | the loop returns exactly `Ipv4Bits` |
| IpText.Ipv4Accepts | src/ip.js:2-22 | accepted iff there are four parts that are canonical numerals below 255; each part is then its value's numeral |
| IpText.Ipv4RoundTrip | src/ip.js:2-22 | the dotted-decimal text of four numbers below 255 parses back to them |
| IpText.Ipv4RejectsLarge | src/ip.js:13 | a part that is the numeral of 255 or more rejects the address |
| IpText.GroupValue | src/ip.js:28-29 | an accepted group is one to four hexadecimal digits |
| IpText.GroupRoundTrip | src/ip.js:28-29 | the hexadecimal text of a 16-bit group reads back as that group |
| IpText.GroupValues | src/ip.js:27-33 | accepted iff every part is a group, giving each part's value |
| IpText.ParseTextParts | src/ip.js:26-34 | accepted iff every colon-separated part is a group; one value per part |
| IpText.PartsRoundTrip | src/ip.js:26-34 | groups written in hexadecimal and joined with colons read back as themselves |
| IpText.ElisionSplit | src/ip.js:37 | a text with one `::` between halves free of it splits into those two halves |
| IpText.ShiftOr | src/ip.js:47-48 | x shifted left by 8 and or-ed with y, for numbers below 255 is the group x × 256 + y |
| IpText.Ipv4GroupsValue | src/ip.js:47-49 | the dotted tail is rewritten to the groups o0 × 256 + o1 and o2 × 256 + o3 in hexadecimal |
| IpText.Ipv4Groups | src/ip.js:47-49 | no contract of its own; Ipv4GroupsValue states the two groups are the byte pairs read as 16-bit numbers |
| IpText.Ipv6Bits | src/ip.js:36-79 | a parsed address has eight groups; more than one `::` fails |
| IpText.AllGroups | src/ip.js:53-57 | without an elision the result has exactly eight groups |
| IpText.Elided | src/ip.js:59-78 | with an elision the result is padded with zeros to eight groups |
| IpText.Ipv6Plain | src/ip.js:53-57 | groups joined with colons parse back as themselves iff there are eight |
| IpText.Ipv6Elided | src/ip.js:59-78 | `a::b` gives a, then zeros, then b, padded to eight; it fails when a and b already hold eight or more |
| IpText.Ipv6Unspecified | src/ip.js:60-61 | `::` alone is eight zeros |
| IpText.Ipv4TailRewrite | src/ip.js:42-50 | a dotted tail after the last colon is replaced by its two hexadecimal groups |
| IpText.WithIpv4Tail | src/ip.js:44-50 | no contract of its own; Ipv4TailRewrite and TailAt state that a valid IPv4 tail is replaced by its two hex groups, and TailCases that a text without a dot is kept and an invalid dotted tail fails |
| IpText.TailAt | src/ip.js:44-50 | a dotted text whose tail after the last colon is an IPv4 address has that tail replaced by the address's two groups |
| IpText.TailCases | src/ip.js:44-50 | a text without a dot is left as it is; a dotted tail after the last colon that is not an IPv4 address makes the rewrite fail, where `IPv4.textToBits` throws |
| IpText.Ipv6WithIpv4 | src/ip.js:42-57 | six groups followed by a dotted IPv4 address give those six groups and the address's two halves |
| Client.Resolve | src/client.js:102-104 | falsy retry, timeout and server become 1, 2000 and the client's server; truthy ones are kept; retry and timeout are never 0 |
| Client.OrNumber | src/client.js:102-103 | no contract of its own; Resolve and ZeroRetryIsOne state that a missing or zero number takes the default |
| Client.OrText | src/client.js:104 | no contract of its own; Resolve states that a missing or empty server takes the client's server |
| Client.ZeroRetryIsOne | src/client.js:102 | a retry of 0 becomes 1, since 0 is falsy; with Request.OnTimeout's `retry + 1` sends, such a query is sent twice |
| Client.WideIdFails | src/client.js:99 | once the stamped id reaches 2^16 the packet has no encoding |
| Client.Request.constructor | src/client.js:8-19 | a new request holds the id, encoded packet, client and options, with the full retry budget and no timer |
| Client.Request.Track | src/client.js:21-26 | registers the request under its id, arms the timer and sends once; the client stays valid |
| Client.Request.Send | src/client.js:28-35 | one more datagram is sent and nothing else changes |
| Client.Request.Settle | src/client.js:32-48 | a promise settles once: a pending request takes the new outcome, a settled one keeps the outcome it has; retry count, timer and sends are unchanged |
| Client.Request.RemoveSelf | src/client.js:56-60 | clears the timer and deletes the id from the table, keeping the other entries |
| Client.Request.OnSendError | src/client.js:29-33 | a send error removes the request and rejects it with that error, if still pending |
| Client.Request.OnPacket | src/client.js:37-41 | removes the request and resolves it with the response, if still pending |
| Client.Request.OnTimeout | src/client.js:43-54 | with retries left, spends one, resends and re-arms; otherwise removes the request and rejects with ETIMEDOUT after retry + 1 trials; sends plus retries left stay retry + 1 |
| Client.DnsClient.constructor | src/client.js:64-75 | ids start at 0, the table is empty, and the server is the configured one or else the system's first |
| Client.DnsClient.Send | src/client.js:98-110 | stamps the packet with the next id, increments the counter, and registers a request holding the encoding and the defaulted options; nothing is registered when the packet does not encode |
| Client.DnsClient.OnMessage | src/client.js:84-93 | a datagram that does not decode, is not a response, or has an unknown id changes nothing; otherwise that request is resolved and leaves the table, keeping its retry count and sends, while every other pending request is unchanged |

## Left out

- Sockets, timers, `ref`/`unref` and `close` (`src/client.js:112-114`) are left out. The environment calls `OnTimeout`, `OnSendError` and `OnMessage` as events, and a ghost counter records sends instead of real datagrams.
- The socket `error` handler (`src/client.js:76-82`) is left out. It iterates over an object with `for...of`, which throws, so it has no well-defined behaviour to model.
- `defer.js` is not part of this model; a promise is an `Outcome` that settles once. `type.js` is not part of this model either: it is constants only and is not used by the core.
- The `family` option and socket creation (`src/client.js:65-72`) are left out, because they only select the socket type.
- Client.DnsClient.Send: JavaScript mutates the caller's packet and options objects in place. The model returns the stamped packet instead. It also encodes the packet before creating the request, because `new DNSRequest` calls `toBuffer` before anything else.
- Client.DnsClient.Send: inherits the `ToBuffer` gap above. A message whose encoding the source truncates to 256 bytes is still sent there, while the model registers no request for it; success is promised only for encodings of at most 256 bytes.
- Client.DnsClient.Send: an options argument that is not an object throws a TypeError (`src/client.js:101`). The model has no such value, so this error is not modelled.
- Buffer.BufferWriter.WriteBuffer: Node's `Buffer.copy` truncates a copy that runs past the end of the buffer. The model treats that write as a failure instead.
- Strings, labels and names are sequences of byte-sized characters. `writeString` and `readString` encode UTF-8, so the model agrees with the source only on ASCII text.
- NameCodec.NameParts: the source has no bound on pointer nesting, and a pointer loop recurses until the JavaScript stack overflows. The model passes a nesting budget, the message length at top level, and fails once it runs out. No lemma shows that this budget is enough, so a None from the top-level call is not proved to come from a pointer loop rather than from the budget.
- PacketIO.ToBuffer: success is promised only for messages of at most 256 bytes, and the method does not follow the source past that point. The writer's capacity check compares with the write size alone, so a longer message may throw in the source; and a payload copy that runs past the end is truncated by `Buffer.copy` without an error, so the source can return 256 bytes whose last record has a length field larger than the payload it carries (for example one answer with an empty name and a 240-byte payload of an unregistered type). The model's `WriteBuffer` fails on such a copy, so `ToBuffer` returns None there.
- PacketIO.WriteQuestions: requires the writer's length to be within its buffer. The source reaches a section loop with its length past the buffer only after a truncating payload copy (see PacketIO.ToBuffer). There an empty section does nothing, and a non-empty one throws a RangeError at its first write, since every name begins with `writeUInt8` or `writeUInt16BE`. The model's `ToBuffer` has already failed at `WriteBuffer` and never calls this method in that state.
- PacketIO.WriteRecords: requires the writer's length to be within its buffer. The source reaches a section loop with its length past the buffer only after a truncating payload copy (see PacketIO.ToBuffer). There an empty section does nothing, and a non-empty one throws a RangeError at its first write, since every name begins with `writeUInt8` or `writeUInt16BE`. The model's `ToBuffer` has already failed at `WriteBuffer` and never calls this method in that state.
- MessageLaws.PacketRoundTrip: proved only for messages of at most 16384 bytes with well-formed names and canonical payloads. Beyond 16384 bytes a compression offset does not fit the 14 bits of a pointer.
- IpText.OctetValue: JavaScript's `parseInt` gives NaN for a part that is not a number. NaN passes the range check, and its `toString()` is `NaN`, so the source accepts the part `NaN` (and returns NaN). The model rejects every non-numeric part.
- IpText.GroupValue: the source tests the unanchored pattern `[A-Za-z0-9]{1,4}` and then calls `parseInt(part, 16)`. It therefore accepts parts such as `12345` or `g`, giving values above 16 bits or NaN. The model accepts exactly one to four hexadecimal digits.
- IpText.Elided: the source pads IPv6 groups with `unshift`/`push` on an array. The model computes the padded sequence as a value.
