# rdns: the wire codec and the state machines around it, in Dafny

This project models the DNS wire codec of `rdns-core` and proves what it is for:
that a compressor which may fail, rewind and switch data structures in the middle
of a message still only writes what its own decoder reads back. Above that sit
whole messages, the two ways a reply reaches the wire, padding of finished
octets, and RDATA storage. Around it stand the self-contained parts of the
repository: names as text and as a tree, DNSSEC canonical order, type bitmaps,
text codecs, RRSIG times, connection slots and the readiness latch.

How it is laid out:

- `Octets`, `Names`, `DName`: octets, names, labels, and the pointer-following decoder
  beside a reference meaning of a compressed name that has no cap and no running target.
- `Compression`, `CompressionSoundness`, `CompressionRuns`, `IndexAgreement`, `HopCap`,
  `StaleTables`, `FoldedHash`, `NameCompressor`: the suffix table as a value, what every run keeps,
  scan against index, the exact hop bound, and the class with its arena, table and index.
- `SvcParams`, `Records`, `NormalForm`, `Accessors`, `RdataRoundTrip`: typed RDATA and its
  stored normal form.
- `Codes`, `Messages`, `MessageReader`, `WireLayout`, `RecordTypes`, `ParsedSections`, `ParsePrefix`,
  `MessageRoundTrip`, `Reparse`: reading and writing, the places and numbers of the wire format
  written out, and the round trips.
- `Emission`, `Serializer`, `MessageWriter`, `SizeBound`, `Replies`, `WriterRefinement`,
  `ReplyHeaders`, `ResponseWriter`, `EdnsOptions`, `ParseAlike`, `Padding`, `UnsettledRdata`: what each field is
  written as, the methods that write it into a buffer, the size bound, the streaming writer and
  its refinement, the OPT, and how messages that differ only in their OPT read.
- `NameTree`, `Presentation`, `CanonicalOrder`, `TypeBitmap`, `TextCodecs`, `DnssecTime`,
  `Slots`, `Readiness`: the parts that stand alone.

Conventions. What the source does in a loop or in place is a method or a class here,
proved equal to a function; the theorems are about the functions. A name is its wire
octets, and two names are the same when they are equal with ASCII case folded. Of an
error only the category is kept, with the one the writers branch on, a full output
buffer, kept apart from other truncation. Lemmas named `...Exact` and `...Iff` state both
directions.

Where the code and its comments disagree, the code is modelled:

- `rdns-core/src/compression.rs:25` says the table never holds a suffix twice. After a hash
  collision it can, since the index no longer finds the newer entry
  (`IndexAgreement.RecordedOnce`, `IndexAgreement.RecordedTwice`).
- The decoder caps pointer hops at 50 and the compressor has no cap
  (`HopCap.FiftyLabelsIsExact`).
- `rdns-present/src/denial_wire.rs:68` assumes no label holds a zero octet, which names allow
  (`CanonicalOrder.KeyIsOrder`, `CanonicalOrder.ZeroOctetCollides`).
- `rdns-core/src/name.rs:119` takes the dot of a final escape `\.` for a separator
  (`Presentation.OriginAppendedIff`).
- `rdns-core/src/record_data.rs:105` asks that names be uncompressed; `new` checks only that
  the RDATA parses, which a pointer into the RDATA itself does
  (`UnsettledRdata.PointerIntoOptMisleads`).
- `rdns-core/src/message.rs:461` floors the truncated reply's buffer so that it always fits;
  the result can be longer than the limit (`WriterRefinement.OverLimitIff`).

## Model

| member | source | states |
|---|---|---|
| `Names.FromWireSlice` | rdns-core/src/name.rs:373-403 | octets are accepted exactly when they are whole labels of 1 to 63 octets, then the root octet last, 255 octets at most |
| `Names.SuffixIsName` | rdns-core/src/name.rs:439-446 | what follows a label boundary of a name is a name, with that many labels fewer |
| `Names.FoldKeepsShape` | rdns-core/src/name.rs:512-524 | names equal up to ASCII case have the same label boundaries |
| `Octets.FoldIff` | rdns-core/src/name.rs:512-524 | octets fold alike exactly when they are as long and at each place equal, or the two cases of one letter: 32 apart, the lower in 65 to 90 |
| `NameTree.NameIff` | rdns-core/src/name.rs:373-403 | a name is labels of 1 to 63 octets, each after its length, then a zero octet, 255 octets at most |
| `DName.ReadLabel` | rdns-core/src/dname.rs:86-146 | a label never reads past the data; text labels are 1 to 63 octets, pointers 14 bits |
| `DName.TryFromBytes` | rdns-core/src/dname.rs:239-258 | the loop finds where a name ends and how, and its first error, for every octet string |
| `DName.UnpackIsExpand` | rdns-core/src/dname.rs:278-342 | following pointers under the cap and the backwards rule gives the octets of the capless reference expansion, and fails exactly when that is undefined, too deep or too long |
| `DName.DecodeNameExact` | rdns-core/src/dname.rs:278-362 | the decoder is total: it succeeds exactly when every segment parses, targets are in range and strictly decrease, hops are at most 50 and the name is at most 255 octets; it then gives those octets, and they are a name |
| `DName.CollectLabels` | rdns-core/src/dname.rs:163-188 | the labels pushed for a segment are the segment's octets |
| `DName.UnpackInternal` | rdns-core/src/dname.rs:278-342 | the recursion that grows the list of labels gives the octets, or the error, of the functional decoder |
| `DName.DecodePlainIsDecode` | rdns-core/src/dname.rs:414-432 | reading a name with no message agrees with reading it against any message |
| `DName.DecodeStoredName` | rdns-core/src/dname.rs:194-199 | a name stored in any octets reads back as itself and stops at its end |
| `FoldedHashing.ComputeFoldedHash` | rdns-core/src/folded_hash.rs:22-29 | the loop computes the folded 64-bit FNV hash, with wrapping multiplication |
| `FoldedHashing.FoldEqualHashEqual` | rdns-core/src/folded_hash.rs:22-29 | names equal up to ASCII case hash alike |
| `FoldedHashing.KnownHashes` | rdns-core/src/folded_hash.rs:22-29 | the published 64-bit FNV-1a values of the empty string and of `a` |
| `Compression.WriteNameCoherent` | rdns-core/src/compression.rs:174-200 | every write keeps the table either small and unindexed or with each hash mapped to its earliest entry |
| `Compression.WriteNameTargets` | rdns-core/src/compression.rs:123-141 | a write only appends entries, and every entry is within a 14-bit pointer |
| `Compression.LongestMatch` | rdns-core/src/compression.rs:106-115 | the matched suffix is the longest in the table: none before it is there, and with no match none is |
| `Compression.SuffixRecorded` | rdns-core/src/compression.rs:117-141 | every suffix written out at an offset of at most 0x3fff is recorded, at that offset |
| `CompressionSoundness.WriteNameSound` | rdns-core/src/compression.rs:91-150 | if every table entry is spelled in the buffer at its offset, so is every entry after `write_name`; what was written spells the name, through strictly decreasing targets and no more hops than the name has labels |
| `CompressionRuns.StepKeeps` | rdns-core/src/compression.rs:62-150 | the invariant that ties each table entry to octets already in the buffer survives writes, failed writes, other fields, rewinds and clears |
| `CompressionRuns.RunInv` | rdns-core/src/compression.rs:62-150 | the invariant holds after every run of those operations |
| `CompressionRuns.SpellsDecodes` | rdns-core/src/dname.rs:278-362 | a spelled name of at most 50 hops decodes to that name up to case, and ends where it ends |
| `CompressionRuns.RunDecodes` | rdns-core/src/compression.rs:72-150 | after any run, decoding at each surviving name's start gives that name up to ASCII case when it has at most 50 labels, and never takes more hops than it has labels |
| `CompressionRuns.WriteNameOctets` | rdns-core/src/compression.rs:144-149 | a written name takes at least one octet and no more than its stored form |
| `CompressionRuns.RewindCoherent` | rdns-core/src/compression.rs:72-81 | a rewound table is coherent again |
| `HopCap.FiftyLabelsIsExact` | rdns-core/src/dname.rs:286-294 | for every depth n up to 127 there is a run whose n-label name needs n hops: it decodes if and only if n is at most 50, so the writer can write a 51-label name the decoder refuses |
| `HopCap.NestedIsARun` | rdns-core/src/compression.rs:91-150 | that witness is reached by `write_name` calls alone |
| `IndexAgreement.LookupFoundIsScan` | rdns-core/src/compression.rs:157-170 | an indexed lookup only ever answers an offset whose suffix is the needle up to case, and then it is the scan's answer |
| `IndexAgreement.AgreeIffNoCollision` | rdns-core/src/compression.rs:157-200 | index and scan agree on every needle if and only if no two different recorded suffixes share a hash |
| `IndexAgreement.StepIsScan` | rdns-core/src/compression.rs:72-200 | with nothing hidden by a collision, every write, failed write, rewind and clear does to octets, log and entries what it does without an index |
| `IndexAgreement.RunIsScan` | rdns-core/src/compression.rs:72-200 | a whole run of writes, failed writes, other fields, rewinds and clears in which no indexed table holds a collision is matched by a compressor that only ever scans, and every scanning run of those steps ends with its octets, log and entries |
| `IndexAgreement.RecordedOnce` | rdns-core/src/compression.rs:24-26 | in every such run no suffix is recorded twice |
| `IndexAgreement.RecordedTwice` | rdns-core/src/compression.rs:24-26 | after a collision one is: the suffix the index does not hold is recorded again when it is next written |
| `StaleTables.ReadsAsMatched` | rdns-core/src/compression.rs:106-149 | whatever the table holds, a name it gives a match for reads as its labels up to the match and then as what stands at the matched offset, as far as the caps allow: as itself if and only if the matched suffix stands there, up to case |
| `StaleTables.FailedRecordIsLostName` | rdns-core/src/response.rs:327-355 | a record whose RDATA holds no name where one must be fails, and leaves in the table what a name that found no room leaves |
| `StaleTables.PushingOnMisleads` | rdns-core/src/response.rs:171-203 | an input where pushing on after a failed record makes a finished reply of 512 octets name the wrong owner: a record of `a.` fails, `b.` and `a.` follow, and both are read as `b.` |
| `StaleTables.RewindingIntoANameMisleads` | rdns-core/src/compression.rs:72-81 | an input where rewinding into the middle of a name makes a name read as another |
| `NameCompressors.WriteBytes` | rdns-core/src/dname.rs:43-54 | octets land in place and nothing else changes, or the buffer is too small and nothing before the position changes |
| `NameCompressors.NameCompressor.constructor` | rdns-core/src/compression.rs:52-54 | a new compressor holds nothing |
| `NameCompressors.NameCompressor.Clear` | rdns-core/src/compression.rs:62-66 | clearing forgets everything |
| `NameCompressors.NameCompressor.Lookup` | rdns-core/src/compression.rs:157-170 | the loop over the arena, or the indexed comparison, is the lookup of the abstract table |
| `NameCompressors.NameCompressor.Note` | rdns-core/src/compression.rs:192-200 | indexing keeps whichever entry is already there |
| `NameCompressors.NameCompressor.IndexFrom` | rdns-core/src/compression.rs:174-189 | the whole table is indexed when it outgrows the scan, later entries as they come |
| `NameCompressors.NameCompressor.FindSuffix` | rdns-core/src/compression.rs:106-115 | the first ancestor the table holds, longest first |
| `NameCompressors.NameCompressor.RecordFresh` | rdns-core/src/compression.rs:117-141 | exactly the literally written suffixes are recorded, where they land |
| `NameCompressors.NameCompressor.WriteName` | rdns-core/src/compression.rs:91-150 | arena, table, index and buffer after `write_name` are those of the functional form, whether or not the octets fit |
| `NameCompressors.NameCompressor.WriteRdata` | rdns-core/src/compression.rs:207-247 | names in NS, CNAME, PTR, SOA and MX are compressed and all else is copied; on an error nothing before the position changes, and the table holds every name the code came to |
| `NameCompressors.PartitionPoint` | rdns-core/src/compression.rs:73-74 | the binary search finds the first suffix at or past the position |
| `NameCompressors.NameCompressor.Rewind` | rdns-core/src/compression.rs:72-81 | exactly the suffixes before the position remain, in the table and in the index |
| `SvcParams.DecodeSvcParams` | rdns-core/src/record.rs:137-171 | the loop answers a list exactly when its keys strictly increase and the octets are what it encodes to |
| `SvcParams.EncodeSvcParams` | rdns-core/src/record.rs:174-195 | the loop over the sorted list gives the octets or the error of the functional encoder |
| `SvcParams.EncodeParamsExact` | rdns-core/src/record.rs:174-195 | encoding succeeds exactly on distinct keys and values that fit, in any order given, and what comes out decodes to the same parameters sorted by key |
| `SvcParams.DecodeIffEncode` | rdns-core/src/record.rs:137-195 | octets decode to a list exactly when its keys strictly increase and it encodes to those octets: every list has one wire form and one reading |
| `SvcParams.DecodeIffWire` | rdns-core/src/record.rs:137-171 | octets decode to a list exactly when its keys strictly increase, its values fit, and the octets are key, length and value of each, two octets a number, the high one first |
| `NormalForm.DecodeCanonical` | rdns-core/src/record.rs:200-422 | whatever decodes is a well-formed typed record of the same type |
| `NormalForm.EncodeDecode` | rdns-core/src/record.rs:437-611 | every well-formed typed record encodes, and decodes back to itself against any message |
| `NormalForm.StorageIsNormalForm` | rdns-core/src/record_data.rs:67-89 | if RDATA decodes, storing succeeds under the same type, the stored octets parse with no message to the same typed record, and storing them again changes nothing |
| `RecordTypes.NameIsMeant` | rdns-core/src/dname.rs:278-362 | a name in RDATA is what the reference expansion gives, within 50 pointers and 255 octets, or an error |
| `RecordTypes.DecodedTypes` | rdns-core/src/record.rs:200-422 | non-empty RDATA is left undecoded exactly when its type is none of 1, 2, 5, 6, 12, 15, 16, 28, 39, 43, 46, 47, 48, 50, 59, 60, 64, 65; empty RDATA always is |
| `RecordTypes.AddressAndHost` | rdns-core/src/record.rs:211-293 | type 1 is four octets and 28 sixteen; 2, 5, 12 and 39 are the one name that stands there |
| `RecordTypes.MxAndSoa` | rdns-core/src/record.rs:223-272 | type 15 is a number and a name; 6 is two names and five numbers of four octets |
| `RecordTypes.TxtIff` | rdns-core/src/record.rs:273-289 | type 16 reads as given strings exactly when the RDATA is those, each after its length |
| `RecordTypes.DigestAndKey` | rdns-core/src/record.rs:294-372 | the fields of types 43 and 59, and of 48 and 60, at their offsets |
| `RecordTypes.SignatureAndNext` | rdns-core/src/record.rs:314-352 | the fields of type 46, expiration before inception, and of 47 |
| `RecordTypes.HashedAndService` | rdns-core/src/record.rs:255-422 | the fields of type 50, and of 64 and 65 |
| `RecordTypes.CopiedTypes` | rdns-core/src/compression.rs:207-247 | RDATA of every type but 2, 5, 6, 12 and 15 goes out as it stands |
| `RecordTypes.OneNameTypes` | rdns-core/src/compression.rs:215-243 | for 2, 5 and 12 the name goes out compressed, for 15 the name after its two octets |
| `RecordTypes.SoaNames` | rdns-core/src/compression.rs:221-235 | for 6 both names go out compressed and the rest as it stands |
| `Accessors.SkipUncompressedName` | rdns-core/src/dname.rs:439-453 | the loop answers what follows the name, or nothing |
| `Accessors.SkipPlainIsSegment` | rdns-core/src/dname.rs:439-453 | it succeeds exactly on whole labels ending in the root octet |
| `Accessors.SoaFieldsIff` | rdns-core/src/record_data.rs:188-234 | on any RDATA that parses, SERIAL and MINIMUM read by offset are those of the full parse exactly when both names stand in it without a pointer, and are nothing otherwise |
| `Accessors.SoaFieldsAgree` | rdns-core/src/record_data.rs:188-234 | so they agree with the parse on every stored record |
| `Accessors.FixedFieldsAgree` | rdns-core/src/record_data.rs:202-219 | TYPE COVERED, iterations and salt read by offset are those of the full parse, and nothing from any other record |
| `Messages.WireRcode` | rdns-core/src/response.rs:257-276 | an RCODE is accepted exactly when its number fits twelve bits, or four without an OPT; any other is malformed |
| `Messages.RecordTable` | rdns-core/src/response.rs:327-355 | the table `write_rr` leaves, defined for failures too, is the written record's when it succeeds |
| `Reparse.SentRcodes` | rdns-core/src/response.rs:257-276 | of the 65536 code numbers, those below 4096 with an OPT and below 16 without are sent as themselves |
| `MessageReader.ReadQueries` | rdns-core/src/message.rs:137-142 | the question loop is the recursive parser, error for error |
| `MessageReader.ReadRecords` | rdns-core/src/message.rs:144-156 | the record loops are the recursive parser |
| `MessageReader.ReadAdditionals` | rdns-core/src/message.rs:158-181 | the loop takes the OPT out as it goes and refuses a second one |
| `MessageReader.NoSecondOpt` | rdns-core/src/message.rs:168-174 | after one OPT an accepted section holds no other |
| `MessageReader.ReadMessage` | rdns-core/src/message.rs:114-203 | the loops together are the functional parser, on every octet string |
| `MessageReader.ReadStrings` | rdns-core/src/record.rs:273-289 | the TXT loop splits RDATA into its strings, or fails on a short one |
| `WireLayout.HeaderFields` | rdns-core/src/message.rs:114-203 | identifier, opcode and each flag of an accepted message, by octet and bit |
| `WireLayout.QueryFields` | rdns-core/src/message.rs:88-110 | name, type and class of a question entry, by octet |
| `WireLayout.RecordFields` | rdns-core/src/record.rs:643-697 | owner, type, class, TTL and RDATA of a record, by octet; a TTL with its top bit set is zero |
| `WireLayout.OptFields` | rdns-core/src/record.rs:718-736 | payload size, extended RCODE, version, DO and options of the OPT, by octet and bit |
| `WireLayout.OpCodes` | rdns-core/src/codes.rs:28-52 | which opcode numbers have which name |
| `WireLayout.Classes` | rdns-core/src/codes.rs:73-108 | which class numbers have which name |
| `WireLayout.ResponseCodes` | rdns-core/src/codes.rs:438-490 | which RCODE numbers have which name |
| `ParsedSections.AdditionalsExact` | rdns-core/src/message.rs:158-181 | the additional section is accepted exactly when every item of it reads and at most one is an OPT, wherever it stands; the other items are its records, in order, and none is lost |
| `ParsedSections.ItemKind` | rdns-core/src/record.rs:718-736 | an item is the OPT exactly when its TYPE is 41, and otherwise the record that stands there |
| `ParsedSections.ItemsFollow` | rdns-core/src/message.rs:158-181 | each item is read where the one before it ended |
| `ParsedSections.SectionsCounted` | rdns-core/src/message.rs:114-203 | an accepted message holds as many entries in each section as its header counts, the OPT among the additional records, and the RCODE is the four header bits and the eight of the OPT |
| `RdataRoundTrip.NameComesBack` | rdns-core/src/compression.rs:91-150 | a name of at most 50 labels written at the end of a sound buffer decodes from there up to case, whatever follows |
| `MessageRoundTrip.RdataBack` | rdns-core/src/compression.rs:207-247 | RDATA written with compression normalises back to the stored record up to the case of its names |
| `MessageRoundTrip.RecordBack` | rdns-core/src/response.rs:327-355 | a written record reads back with the same owner, class, TTL and RDATA, and ends where it ended |
| `MessageRoundTrip.OptBack` | rdns-core/src/response.rs:361-384 | the OPT reads back as itself with its flags word |
| `MessageRoundTrip.AdditionalsBack` | rdns-core/src/record.rs:710-736 | the additional section and its OPT read back apart |
| `MessageRoundTrip.HeaderBack` | rdns-core/src/response.rs:285-307 | identifier, flags, low RCODE bits and the four counts read back |
| `MessageRoundTrip.RcodeBack` | rdns-core/src/message.rs:183-185 | the twelve RCODE bits are put together again from header and OPT |
| `MessageRoundTrip.RoundTrip` | rdns-core/src/message.rs:114-302 | whenever serializing succeeds, parsing gives the same header, twelve-bit RCODE, question, sections and OPT: names up to case, and RDATA octet for octet but for the names in NS, CNAME, PTR, SOA and MX |
| `Reparse.ParsedIsSendable` | rdns-core/src/message.rs:114-203 | a parsed message meets every condition of the round trip but one, and that one exactly when its compressed names have at most 50 labels |
| `Reparse.ReparsedSame` | rdns-core/src/message.rs:114-302 | parse, serialize, parse gives the same message again |
| `Reparse.ParsedWritesIff` | rdns-core/src/message.rs:244-302 | a parsed message serializes in `wire_size_bound` octets exactly when no NS, CNAME, PTR, SOA or MX record has empty RDATA and no other stored RDATA is over 65535 octets |
| `Reparse.EmptyHostNotWritten` | rdns-core/src/compression.rs:215-220 | an NS record with empty RDATA is stored and cannot be written |
| `ParsePrefix.NameExtends` | rdns-core/src/dname.rs:278-362 | a name that decodes against a message decodes the same against any longer one |
| `ParsePrefix.MessageExtends` | rdns-core/src/message.rs:114-203 | octets after a whole message change nothing of how it reads |
| `Reparse.ClassBack` | rdns-core/src/codes.rs:73-108 | a class number converts to a class and back unchanged |
| `Reparse.OpBack` | rdns-core/src/codes.rs:28-52 | an opcode keeps its four bits both ways |
| `Reparse.CodeBack` | rdns-core/src/codes.rs:438-490 | an RCODE number converts to a code and back unchanged |
| `Serializer.WriteQuery` | rdns-core/src/response.rs:310-319 | the octets of one question entry, or the buffer error |
| `Serializer.WriteRecord` | rdns-core/src/response.rs:327-355 | owner, fixed fields and RDATA, with the RDLENGTH hole filled by the compressed length; the table afterwards is given on every outcome |
| `Serializer.WriteOpt` | rdns-core/src/response.rs:361-384 | the OPT's octets, with its errors in the order the code meets them |
| `Serializer.WriteHeader` | rdns-core/src/response.rs:285-307 | the twelve header octets |
| `Serializer.WriteQueries` | rdns-core/src/message.rs:282-284 | the question section entry by entry is the section in one go |
| `Serializer.WriteRecords` | rdns-core/src/message.rs:285-297 | a section record by record is the section in one go |
| `Serializer.RecordExtends` | rdns-core/src/response.rs:327-355 | a record adds table entries only at or past where it was written |
| `MessageWriter.WriteBody` | rdns-core/src/message.rs:282-302 | question, sections and OPT in order |
| `MessageWriter.ToBytesWith` | rdns-core/src/message.rs:244-302 | the buffer holds exactly the message's octets, or the first error is returned |
| `MessageWriter.ToBytesWithinBuf` | rdns-core/src/message.rs:403-471 | the two passes and the truncated retry, with their buffer sizes, are the functional form |
| `SizeBound.ComputeWireSizeBound` | rdns-core/src/message.rs:352-373 | the loops sum the stored sizes |
| `SizeBound.BoundHolds` | rdns-core/src/message.rs:352-373 | a buffer of `wire_size_bound` octets never runs out, and no more than that is written |
| `WriterRefinement.BoundReached` | rdns-core/src/message.rs:352-373 | a message with nothing to compress takes exactly that many octets |
| `SizeBound.MoreRoomSame` | rdns-core/src/message.rs:411-433 | unless the buffer was too small, a larger one gives the same octets or error |
| `WriterRefinement.WithinExact` | rdns-core/src/message.rs:403-471 | the grow-and-rewrite branch is unreachable; the outcome is that of a buffer of the limit, else the truncated form, which is never refused for room |
| `WriterRefinement.TruncatedFits` | rdns-core/src/message.rs:451-471 | the truncated form is the header with TC set and no records counted, the question and the OPT, whatever buffer it is written into |
| `WriterRefinement.PushAllIsEmit` | rdns-core/src/response.rs:171-203 | pushing records one by one is writing them in one go until the room runs out, then the empty truncated reply |
| `WriterRefinement.FinishDropped` | rdns-core/src/response.rs:219-248 | a writer that dropped its records finishes as the truncated reply |
| `WriterRefinement.FinishWhole` | rdns-core/src/response.rs:219-248 | a writer that kept them finishes as the whole reply, or as the truncated one when the OPT no longer fits |
| `WriterRefinement.WriterRefines` | rdns-core/src/response.rs:87-248 | for a limit of 512 to 65535 with header, question and OPT fitting, the streaming writer leaves exactly the octets of `to_bytes_within` for the same reply, fitting or truncated, and fails just when that fails |
| `WriterRefinement.TooManyRecords` | rdns-core/src/response.rs:171-248 | with a section over 65535 records the serializer always refuses; the writer sends the truncated reply exactly when room runs out before a record fails to encode, and otherwise reports that failure |
| `WriterRefinement.RecordsLong` | rdns-core/src/response.rs:327-355 | a record takes at least eleven octets |
| `WriterRefinement.PlainRecordsDiffer` | rdns-core/src/response.rs:171-248 | with copied RDATA throughout, the writer always sends that reply |
| `WriterRefinement.ManyAddressesDiffer` | rdns-core/src/response.rs:171-248 | such an input: 65536 address records |
| `WriterRefinement.OverLimitIff` | rdns-core/src/message.rs:451-471 | a serialized reply is over its limit exactly when header, question and OPT alone are |
| `ReplyHeaders.WriterSays` | rdns-core/src/response.rs:115-248 | on the octets of any reply the writer sends: QR set, identifier, opcode, RD and CD of the request, AA as decided, RA and AD clear, the low RCODE bits; TC set with only question and OPT counted, or clear with every record counted |
| `ReplyHeaders.WithinSays` | rdns-core/src/message.rs:211-229 | the same of `to_bytes_within` on the built reply; and TC is set exactly when the whole reply has no room in the limit |
| `ReplyHeaders.BytesSay` | rdns-core/src/response.rs:285-307 | every header bit and count of a serialized message, on its octets |
| `ResponseWriters.Start` | rdns-core/src/response.rs:87-136 | the compressor cleared, the question written, QR set, identifier, opcode, RD and CD taken from the request and every other flag clear |
| `ResponseWriters.ResponseWriter.Truncate` | rdns-core/src/response.rs:210-215 | position, counts and compressor go back to the end of the question |
| `ResponseWriters.ResponseWriter.Push` | rdns-core/src/response.rs:171-203 | one record more, or the empty truncated reply, or an error with nothing appended and the names the record came to left in the table |
| `ResponseWriters.ResponseWriter.Finish` | rdns-core/src/response.rs:219-248 | the OPT with any extended error, then the header over its placeholder: the octets of the functional form |
| `ResponseWriters.ReasonSent` | rdns-core/src/response.rs:219-226 | with an OPT the reason goes out as option 15 after the others; without one it is dropped |
| `ResponseWriters.WriteReply` | rdns-core/src/response.rs:87-248 | a whole reply through the object is the functional writer's, and so is what `to_bytes_within` gives for the same reply; its octets say what a reply must |
| `EdnsOptions.WalkIffEncode` | rdns-core/src/edns.rs:215-230 | a list reads as given options exactly when it is what they encode to |
| `EdnsOptions.OptionLayout` | rdns-core/src/edns.rs:127-137 | an option is its code, its length and its data, two octets a number, the high one first |
| `EdnsOptions.AppendedReads` | rdns-core/src/edns.rs:236-243 | an option appended reads as that option after all the others |
| `EdnsOptions.ReadOptions` | rdns-core/src/edns.rs:247-257 | the walk collects the options or fails on a short one |
| `EdnsOptions.HasOption` | rdns-core/src/edns.rs:260-264 | whether a well-formed list holds the code; a malformed one is an error |
| `Padding.SkipNameLoop` | rdns-core/src/response.rs:634-644 | the loop is the recursive skip |
| `Padding.SkipIsSegment` | rdns-core/src/response.rs:634-644 | `skip_name` succeeds exactly when the name parser does, and stops where it stops, on every octet string |
| `Padding.FindLastOpt` | rdns-core/src/response.rs:605-631 | the two loops find the RDLENGTH the walk finds |
| `Padding.LastOptFound` | rdns-core/src/response.rs:605-631 | on whatever the serializer wrote, the walk finds the OPT exactly where it is, and finds one without an OPT only if the last record is typed and owned as one |
| `Padding.OptIsLast` | rdns-core/src/response.rs:605-631 | on any octets, what the walk finds is an additional record with a zero octet for owner and type 41, whose RDATA ends where the message does |
| `Padding.BlocksLeast` | rdns-core/src/response.rs:553 | the target before limiting is the least multiple of 468 that holds four more octets |
| `Padding.PadTargetExact` | rdns-core/src/response.rs:551-555 | the target is the least multiple of 468 that holds the reply and an empty option, or the limit if that is less: `payload` for a reply within it, `frame` for one past it |
| `Padding.PaddedOctets` | rdns-core/src/response.rs:556-571 | the padded octets: RDLENGTH raised, then option 12, its length, and zeros |
| `Padding.AppendedIsSerialized` | rdns-core/src/response.rs:579-596 | appending an option to finished octets gives the octets the serializer gives for the message with that option |
| `Padding.PaddedIsSerialized` | rdns-core/src/response.rs:547-571 | `pad_reply` changes nothing exactly when an option does not fit the limit or the RDATA length; otherwise the result has the target length and is the serialized message with one all-zero Padding option more |
| `ParseAlike.DecodesByExpand` | rdns-core/src/dname.rs:278-362 | a name whose pointers lead back decodes to its expansion, unless that takes over 50 hops or 255 octets |
| `ParseAlike.WrittenAlike` | rdns-core/src/compression.rs:91-150 | a name of any length written at the end of a sound buffer decodes alike in all messages that begin with it, or in none |
| `ParseAlike.RdataAlike` | rdns-core/src/compression.rs:207-247 | written RDATA is stored alike from all such messages, or from none |
| `ParseAlike.RecordAlike` | rdns-core/src/response.rs:327-355 | a written record parses alike in all such messages and ends where it ended |
| `ParseAlike.CopiedAlike` | rdns-core/src/record_data.rs:67-89 | RDATA that is copied and whose name holds no pointer is stored alike from every message |
| `ParseAlike.StoredSettled` | rdns-core/src/record_data.rs:67-89 | all RDATA that `from_wire` stores is such |
| `Padding.WithOptionParses` | rdns-core/src/response.rs:579-596 | two serializations that differ in one option parse identically but for that option, or neither parses |
| `Padding.PaddedReads` | rdns-core/src/response.rs:547-571 | whatever its TTLs and however long its names, a padded reply parses exactly as the reply did but for one all-zero Padding option at the end of its OPT, and fails to parse exactly when the reply does; what can be sent parses as what was meant |
| `UnsettledRdata.PointerIntoOptMisleads` | rdns-core/src/record_data.rs:107-114 | an input where padding makes a reply unreadable: RDATA accepted by `RecordData::new` with a pointer in it, which in the message reads on into the OPT's RDLENGTH |
| `Padding.PaddedWithoutOptIff` | rdns-core/src/response.rs:547-571 | with no OPT the reply is padded exactly when its last additional record is typed and owned as one and the same limits allow; otherwise it is left alone |
| `Padding.PadInPlace` | rdns-core/src/response.rs:547-571 | the edits in order are the functional form |
| `NameTree.LabelsBack` | rdns-core/src/name.rs:416-428 | the labels of the octets of any good labels are those labels |
| `NameTree.WireBack` | rdns-core/src/name.rs:416-428 | a name is the octets of its labels |
| `NameTree.SameIffLabels` | rdns-core/src/name.rs:594-598 | names are equal exactly when their octets, and so their labels one by one, are the same up to the case of letters |
| `NameTree.Ancestor` | rdns-core/src/name.rs:461-468 | the nth ancestor has the labels after the first n |
| `NameTree.Suffix` | rdns-core/src/name.rs:453-458 | the last n labels, or the whole name |
| `NameTree.AtOrUnder` | rdns-core/src/name.rs:475-484 | the walk over ancestors as it runs |
| `NameTree.UnderIffSuffix` | rdns-core/src/name.rs:475-484 | `is_at_or_under` holds exactly when the other name's labels are the last of this one's, up to the case of letters |
| `NameTree.DnameExact` | rdns-core/src/name.rs:706-721 | only names strictly below the owner are redirected; their leading octets are kept and the target's appended, and the answer is too long exactly when that exceeds 255 octets |
| `Presentation.PresentationWireIn` | rdns-core/src/name.rs:190-237 | the loop over the buffer, with its reserved length octets, gives the functional reader's octets or error |
| `Presentation.AcceptedIsName` | rdns-core/src/name.rs:190-237 | every text that is accepted spells a name |
| `Presentation.ReadExact` | rdns-core/src/name.rs:190-303 | a text is accepted exactly when, dots separating and escapes standing for their octets, it cuts into labels of 1 to 63 octets that make at most 255, and gives that name; nothing and `.` are the root |
| `Presentation.OctetBack` | rdns-core/src/name.rs:277-303 | an escape reads as the octet it was printed for |
| `Presentation.Print` | rdns-core/src/name.rs:550-560 | the loops print the functional text |
| `Presentation.PrintedReads` | rdns-core/src/name.rs:550-589 | printing then reading any name restores its exact octets |
| `Presentation.PrintedIsSafe` | rdns-core/src/name.rs:550-589 | printed text is all visible octets; `" $ ( ) ; @` in it follow a backslash, and what no backslash covers is the plain octets of the labels with one dot after each |
| `Presentation.AbsolutizedIsName` | rdns-core/src/name.rs:107-129 | whatever is accepted against an origin is a name |
| `Presentation.TrimExact` | rdns-core/src/name.rs:112 | trimming takes ASCII white space off both ends and nothing else |
| `Presentation.OriginItself` | rdns-core/src/name.rs:113-118 | nothing and `@` are the origin; what does not read is refused |
| `Presentation.PrintedAbsolute` | rdns-core/src/name.rs:107-129 | printed text means the same name under every origin |
| `Presentation.LastOctetTells` | rdns-core/src/name.rs:190-237 | text that reads ends in a dot octet exactly when its last token is a separator or the two-octet escape of a dot |
| `Presentation.OriginAppendedIff` | rdns-core/src/name.rs:107-129 | text with a final separator is absolute; any other text that reads has the origin put after it if and only if it does not end in the escape of a dot |
| `Presentation.EscapedDotLosesOrigin` | rdns-core/src/name.rs:118-129 | two texts for one name, one given the origin and one not |
| `Presentation.RelativeIff` | rdns-core/src/name.rs:118-129 | of names as the printer spells them, less the final separator, those are given the origin whose last label does not end in a dot octet |
| `CanonicalOrder.Reversed` | rdns-present/src/denial_wire.rs:93-95 | the labels right to left, folded |
| `CanonicalOrder.CanonicalSortKey` | rdns-present/src/denial_wire.rs:69-76 | the loop builds the key |
| `CanonicalOrder.LessIffLabels` | rdns-present/src/denial_wire.rs:58-114 | a name comes before another exactly when their reversed folded labels agree up to one where it has run out, or where its label is the start of the other or has the smaller number at the first octet that differs; keys, octet by octet, likewise |
| `CanonicalOrder.KeyIsOrder` | rdns-present/src/denial_wire.rs:58-76 | sort keys compare as the labels cut at their zero octets do, for all names; so they order names rightly if and only if cutting does not change how the labels compare, and are equal exactly when the cut labels are; without zero octets nothing is cut |
| `CanonicalOrder.SplitKeepsKey` | rdns-present/src/denial_wire.rs:69-76 | cutting labels at their zero octets does not change the key |
| `CanonicalOrder.EqualIffSame` | rdns-present/src/denial_wire.rs:58-76 | names compare equal exactly when they are the same up to case, and without zero octets so do keys |
| `CanonicalOrder.AncestorsFirst` | rdns-present/src/denial_wire.rs:58-76 | every name sorts before everything beneath it, by order and by key |
| `CanonicalOrder.ZeroOctetCollides` | rdns-present/src/denial_wire.rs:66-68 | for any two parts the one-label name with a zero octet between them and the two-label name share a key, though they differ |
| `TypeBitmap.BitmapHasType` | rdns-present/src/denial_wire.rs:135-154 | the loop over windows stops at damage or at the window |
| `TypeBitmap.BuildTypeBitmap` | rdns-present/src/denial_wire.rs:157-184 | the loops enter, sort and encode windows as the functional form does |
| `TypeBitmap.BitmapTypesExact` | rdns-present/src/denial_wire.rs:196-223 | the loops list what was read to the end or up to the damage |
| `TypeBitmap.ReadOctet` | rdns-present/src/denial_wire.rs:209-217 | `leading_zeros` lists an octet's bits in ascending order |
| `TypeBitmap.BitWeights` | rdns-present/src/denial_wire.rs:135-154 | the bits of an octet have the weights 128, 64, ..., 1 in that order |
| `TypeBitmap.OneType` | rdns-present/src/denial_wire.rs:157-184 | the octets of the bitmap of one type |
| `TypeBitmap.BuiltReads` | rdns-present/src/denial_wire.rs:135-223 | a bitmap built from any list reads back as its types, ascending and without repeats, and testing a type is membership in the list |
| `TypeBitmap.EveryBitmap` | rdns-present/src/denial_wire.rs:196-223 | any octets are windows of 1 to 32 octets up to their end, or up to where one is cut short, empty or too long |
| `TypeBitmap.ReadsWindows` | rdns-present/src/denial_wire.rs:135-223 | of those, testing looks at the first window of the type's number and listing at all; a listing is whole exactly when nothing is left over |
| `TypeBitmap.RebuiltAgrees` | rdns-present/src/denial_wire.rs:135-223 | on octets their own types rebuild, testing and listing agree |
| `TextCodecs.EncodedBits` | rdns-present/src/denial_wire.rs:257-267 | the characters carry the data's bits and fewer than eight zeros more |
| `TextCodecs.Base32Back` | rdns-present/src/denial_wire.rs:257-294 | base32hex decoding undoes encoding for every octet string, in either alphabet |
| `TextCodecs.Base32Digits` | rdns-present/src/denial_wire.rs:222-294 | the 32 digits, and which characters read as which |
| `TextCodecs.DecodeBase32` | rdns-present/src/denial_wire.rs:270-294 | the 64-bit accumulator gives the octets of the characters' bits |
| `TextCodecs.StringBack` | rdns-core/src/codecs.rs:82-147 | decoding undoes escaping for every octet string |
| `TextCodecs.EscapedIsSafe` | rdns-core/src/codecs.rs:131-147 | escaped text is all printable octets, and what no backslash covers is the octets that were so already, but `"` and the backslash |
| `TextCodecs.DecodeStringExact` | rdns-core/src/codecs.rs:82-123 | a string reads exactly when its escapes are whole and at most 255, and is what they and its other octets stand for |
| `TextCodecs.CharStringDecode` | rdns-core/src/codecs.rs:82-123 | the loop decodes escapes as the functional form does |
| `TextCodecs.CharStringEscaped` | rdns-core/src/codecs.rs:131-147 | the loop escapes octet by octet |
| `TextCodecs.HexBack` | rdns-core/src/codecs.rs:15-63 | hex decoding undoes encoding for every octet string |
| `TextCodecs.HexDigits` | rdns-core/src/codecs.rs:15-63 | the sixteen digits, and which characters read as which |
| `TextCodecs.HexPlaces` | rdns-core/src/codecs.rs:15-30 | two digits an octet, the high nibble first |
| `TextCodecs.HexIff` | rdns-core/src/codecs.rs:36-63 | text reads as given octets exactly when, white space aside, it is two digits for each, the high nibble first |
| `TextCodecs.BlanksIgnored` | rdns-core/src/codecs.rs:36-63 | whitespace anywhere, inside a pair of digits too, changes nothing |
| `TextCodecs.DecodeHex` | rdns-core/src/codecs.rs:36-63 | the loop with its waiting nibble is the functional decoder |
| `DnssecTime.WholeYear` | rdns-present/src/dnssec_time.rs:12-28 | the months of any year sum to its days |
| `DnssecTime.CivilBack` | rdns-present/src/dnssec_time.rs:71-131 | dates and instants are one to one across leap years and month ends |
| `DnssecTime.EpochByFormula` | rdns-present/src/dnssec_time.rs:12-88 | the instant of a date is that of the closed Gregorian day-number formula, leap years included |
| `DnssecTime.IsTimeIff` | rdns-present/src/dnssec_time.rs:12-71 | a time is a month of twelve, a day before the first of the next month by that formula, and a clock below 24:60:60, from 1970 on |
| `DnssecTime.FieldsAre` | rdns-present/src/dnssec_time.rs:47-52 | which of the fourteen digits are which field |
| `DnssecTime.ParseExact` | rdns-present/src/dnssec_time.rs:34-88 | fourteen digits with a year above 0000 parse exactly when they are such a time below 2^32, and to that instant |
| `DnssecTime.BareIff` | rdns-present/src/dnssec_time.rs:34-37 | a bare epoch is decimal digits below 2^32, with or without a plus sign |
| `DnssecTime.ParseFormatted` | rdns-present/src/dnssec_time.rs:34-131 | parsing the formatted form gives back every 32-bit instant |
| `DnssecTime.FormatParsed` | rdns-present/src/dnssec_time.rs:34-131 | formatting what the date branch accepts gives back the same fourteen digits |
| `DnssecTime.NotBare` | rdns-present/src/dnssec_time.rs:35-37 | fourteen digits with a year above 0000 are never taken for a bare epoch |
| `DnssecTime.ParseDnssecTime` | rdns-present/src/dnssec_time.rs:34-88 | the loops sum the days of the functional form |
| `DnssecTime.FormatDnssecTime` | rdns-present/src/dnssec_time.rs:96-131 | the year and month loops find the date of the functional form |
| `Slots.StepKeeps` | rdns-transport/src/slots.rs:72-193 | taking, opening and each separate step of drop keep the accounts right |
| `Slots.EveryRun` | rdns-transport/src/slots.rs:72-193 | in every interleaving live slots stay within the ceiling, each source's entry is its live counted connections within its share and exists exactly while there are some, the table is no larger than the ceiling, and the gauge is the open connections |
| `Slots.AdmittedIff` | rdns-transport/src/slots.rs:123-141 | a connection is admitted exactly when exempt, unlimited or below its source's share; a refusal changes nothing; a slot can be taken exactly below the ceiling |
| `Slots.SecondOpenBreaks` | rdns-transport/src/slots.rs:123-141 | opening a slot twice would break the accounts |
| `Slots.Listener.constructor` | rdns-transport/src/slots.rs:53-69 | every permit free, no source counted |
| `Slots.Listener.TryTake` | rdns-transport/src/slots.rs:72-99 | one permit becomes one slot, if there is one |
| `Slots.Listener.OpenConnection` | rdns-transport/src/slots.rs:123-141 | one pass under the lock, admitted or refused |
| `Slots.Listener.ReleaseFromTable` | rdns-transport/src/slots.rs:169-178 | the source counted down, its entry removed with the last |
| `Slots.Listener.CloseOnGauge` | rdns-transport/src/slots.rs:179-181 | the gauge counted down if the slot was open |
| `Slots.Listener.ReleasePermit` | rdns-transport/src/slots.rs:182 | the permit returned |
| `Readiness.RegisteredOnce` | rdns-transport/src/readiness.rs:65-75 | each zone is waited for once, whatever the case and repetition it was named with |
| `Readiness.WaitingFor` | rdns-transport/src/readiness.rs:60-81 | the nested loops register the functional list |
| `Readiness.EveryRun` | rdns-transport/src/readiness.rs:89-121 | in every interleaving the counter is the names not arrived plus the calls between the compare-exchange and the decrement, never below zero, and zero exactly when nothing is pending or half done |
| `Readiness.ReadyStays` | rdns-transport/src/readiness.rs:89-110 | ready is permanent |
| `Readiness.ReadyIffAllReported` | rdns-transport/src/readiness.rs:60-110 | ready exactly when every zone named has been reported, in any case, and every counting report has finished |
| `Readiness.Latch.constructor` | rdns-transport/src/readiness.rs:60-81 | nothing arrived, everything outstanding |
| `Readiness.Latch.FlagArrival` | rdns-transport/src/readiness.rs:89-102 | the find and the compare-exchange: who wins, and the flag set |
| `Readiness.Latch.CountOff` | rdns-transport/src/readiness.rs:103 | the decrement, with a count of at least one to take it from |
| `Readiness.Latch.IsReady` | rdns-transport/src/readiness.rs:108-110 | ready means every flag is set |
| `Readiness.UnarrivedInOrder` | rdns-transport/src/readiness.rs:114-121 | each name not arrived is listed once, in order of registration, and nothing else |
| `Readiness.Latch.Pending` | rdns-transport/src/readiness.rs:114-121 | what is missing in registration order, nothing once ready |

## Left out

- Error payloads: the texts and the need and have figures of `WireError`; only its category is modelled.
- Integer widths of the compressor's ranges: arena positions are unbounded here, where the source casts them to 32 bits, so an arena past 4 GiB is not modelled.
- ResponseWriters.WriteReply: takes limits up to 65535, as `ResponseWriters.Start` does.
- ResponseWriters.Start: takes limits up to 65535, what every caller passes; beyond that the 16-bit section counts could overflow.
- MessageRoundTrip.RoundTrip: asks for names of at most 50 labels, TTLs below 2^31, RDATA as `from_wire` stores it, no OPT among the additionals and codes as their constructors give them; `Reparse.ParsedIsSendable` shows that parsed messages lack at most the first.
- CompressionRuns.RunDecodes: runs rewind only to positions no name straddles and stop at a failed write until they rewind or start over; `StaleTables` has the inputs where the property fails without that.
- Padding.PaddedReads: asks that no DNAME, NSEC, RRSIG, SVCB or HTTPS record hold a pointer in its RDATA, which no RDATA stored by `from_wire` does (`ParseAlike.StoredSettled`); `UnsettledRdata.PointerIntoOptMisleads` has the input where the property fails without that.
- Padding.WithOptionParses: the same replies.
- CompressionRuns.RunInv: the same runs.
- CompressionRuns.StepKeeps: the same steps.
- Slots.EveryRun: atomics are sequentially consistent steps; memory ordering, the `full` flag, log lines and poisoned locks are not modelled, and each slot is opened once.
- Readiness.EveryRun: sequentially consistent steps; `pending` reads its flags in one step here, where the source reads them one at a time.
- Presentation.PrintedAbsolute: trimming is of ASCII white space; `str::trim` also drops other Unicode white space, which printed text never has.
- ParsedRecord::encode_into is a value here; that it appends to its caller's vector, and leaves what it appended on an error, is not modelled.
- Replies, messages and padding on a `Vec`: a growing or shrinking vector is a fresh array or a sequence here.
- DnssecTime.ParseDnssecTime: text is its octets, so a character outside ASCII is just octets that are no digits.
- `NameArena` and `RdataArena`: appending octets and reading ranges back.
- Sockets, TLS, QUIC, HTTP, metrics, logging, configuration, zone storage, signing, the resolver and the control socket.
- SVCB and HTTPS presentation text, base64, and IP address text.
- EDNS policy: version and payload negotiation, NSID, cookies and mirroring are each one branch.
- TSIG signing, which appends to finished octets.
