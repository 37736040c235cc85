# A verified model of the codecrafters git client in Go

This project models the byte-level core of a small git client written in Go:

- the pack format a clone receives: the pack header, the per-record type and size header, the REF_DELTA base id, and the record loop over an abstract zlib decompressor;
- the delta interpreter that rebuilds an object from its base;
- the loose-object format (`<type> <decimal length>\0<content>`), its header split, and the `.git/objects/xx/yyyy…` path of an object id;
- the two-pass `WriteObjects` that stores a clone's objects and then resolves its REF_DELTA objects against the store;
- tree objects: the sorted serialiser `GitTrees.WriteTo` and the parser `ParseTreeObjectBody`;
- the wire helpers: `GetRefList`, `generateRefDiscoveryRequest`, `readPktLine`, `validateHeader` and `createRefDiscovery`;
- the small tables: the object kinds of both packages, `modeFromGit`, `GetIntFromBigIndian` and the sticky-error `errWriter`.

Bytes are `byte = x: int | 0 <= x < 256`, and Go strings are byte sequences.

Code that runs a loop in Go is a method. Each method is proved equal to a specification function, and the lemmas state the source's promises about that function. Examples:

- `packObjectSize` becomes `CloneHelper.PackObjectSize`, proved equal to `DecodeObjectHeader`.
- `applyDelta` becomes `CloneDelta.ApplyDelta`, proved equal to `ApplyDeltaSpec`.
- `WriteObjects` becomes `CloneWrite.ObjectStore.WriteObjects`, proved equal to `WriteAll`.

The object directory is a class with a map from path to object file. The SHA-1 of the store is a function it is given.

Where Go panics (a slice out of range, an explicit `panic`), the model returns a typed error instead. Each error datatype names the panic it stands for.

Modules:

- `Wrappers`: `Result`, `Option` and `Outcome`.
- `GoLib`: the Go library functions the code calls: `bytes.Split`, `bytes.IndexByte`, `strconv.ParseInt`/`Atoi`, `fmt`'s `%d`, `hex.EncodeToString`, `filepath.Join` and string `<`.
- `CloneObjects`, `CloneHelper`, `CloneDelta`, `ClonePack`, `CloneRefs` and `CloneWrite`: the package `cmd/clone`.
- `CommonFile`: `cmd/common/file.go`.
- `MygitInternals`, `MygitPackFile`, `MygitClone`, `MygitUtils` and `MygitMain`: the package `cmd/mygit`.

## Model

| member | source | states |
|---|---|---|
| CloneObjects.KindCodes | cmd/clone/objects.go:7-15 | The kind codes are INVALID=0, COMMIT=1, TREE=2, BLOB=3, TAG=4, OFS_DELTA=6, REF_DELTA=7. A value is a named kind exactly when it is in 1..7 and is not 5. |
| CloneObjects.TypeFromName | cmd/clone/objects.go:36-55 | `StringToObjectType` gives `OBJ_INVALID` or one of the six named kinds, never 5 or a value above 7. |
| CloneObjects.NameRoundTrip | cmd/clone/objects.go:17-55 | `StringToObjectType(k.String()) == k` for each of the six named kinds. |
| CloneObjects.TypeFromNameOnlyNames | cmd/clone/objects.go:36-55 | Every string that is not one of the six names reads as `OBJ_INVALID`. A string that reads as a named kind is exactly that kind's name. |
| CloneObjects.NamesDistinct | cmd/clone/objects.go:17-30 | "tree", "blob", "commit", "tag", "ofsdelta" and "refdelta" are pairwise different. |
| CloneObjects.UnnamedNameIsDistinct | cmd/clone/objects.go:31-32 | The `invalid(<n>))` name of an unnamed value never equals a named kind's name. |
| CloneHelper.BigEndianRoundTrip | cmd/clone/helper.go:13-15 | `readBigEndian` and the split of a 32-bit word into four big-endian bytes are inverse to each other, in both directions. |
| CloneHelper.HeaderType | cmd/clone/helper.go:25-29 | The kind in bits 6..4 of the first byte is `OBJ_INVALID` or a named kind. The unassigned 5 reads as `OBJ_INVALID`. |
| CloneHelper.WrapAdd | cmd/clone/helper.go:47-48 | Adding the next size group to a `uint64` that wraps modulo 2^64 tracks the unbounded sum modulo 2^64. |
| CloneHelper.PackObjectSize | cmd/clone/helper.go:21-54 | The loop over the size groups returns exactly `DecodeObjectHeader(content)`, error cases included. |
| CloneHelper.ContinuationSizeMeaning | cmd/clone/helper.go:39-53 | The continuation loop succeeds exactly when a byte with bit 7 clear comes before the end and before the shift reaches 64. It then stops one past that byte and sums the 7-bit groups. |
| CloneHelper.DecodeObjectHeaderMeaning | cmd/clone/helper.go:21-54 | The header fails exactly when the content is empty or none of its first ten bytes has bit 7 clear; empty content gives the "no content" error. On success it reads 1..10 bytes ending at the first byte with bit 7 clear. The kind is `(b0 >> 4) & 7` with 5 as INVALID, and the size is `(b0 & 0x0F) + Σ (b_k & 0x7F)·2^(4+7(k−1))` modulo 2^64. |
| CloneHelper.SingleByteHeader | cmd/clone/helper.go:30-37 | With bit 7 of the first byte clear, the result is `(b0 & 0x0F, kind, 1)`. |
| CloneHelper.EncodeDecodeObjectHeader | cmd/clone/helper.go:21-54 | Round trip: a header written for a kind and a size below 2^64 reads back as that size and kind (5 as INVALID) and its own length, whatever follows it. |
| CloneHelper.EncodeDecodeLong | cmd/clone/helper.go:39-53 | The same round trip for sizes of 16 or more, which need continuation bytes. |
| CloneHelper.HeaderVectorsOneByte | cmd/clone/helper_test.go:10-123 | The test vectors hold: [] fails, [0x0a]→(10,INVALID,1) and [0x00]→(0,INVALID,1). So do [0x62]→(2,OFS_DELTA,1) and [0x27]→(7,TREE,1). |
| CloneHelper.HeaderVectorsTwoBytes | cmd/clone/helper_test.go:35-100 | [0x8a,0x42]→(1066,INVALID,2) and [0x96,0x0a]→(166,COMMIT,2). So do the mygit vectors [0xA3,0x15]→(339,TREE,2) and [0xAC,0x7F]→(2044,TREE,2). |
| CloneHelper.HeaderVectorsThreeBytes | cmd/mygit/clone_test.go:56-95 | [0x82,0x81,0x03]→(6162,INVALID,3) and [0xE1,0x81,0x02]→(4113,OFS_DELTA,3). |
| CloneDelta.ReadVarInt | cmd/clone/clone.go:214-237 | The `readVarInt` loop returns exactly `VarIntFrom(data, offset, 0)`, errors included. |
| CloneDelta.VarIntStep | cmd/clone/clone.go:216-234 | One turn of the loop: a byte with bit 7 clear ends the value. A set bit 7 goes on with the shift 7 higher, or fails once the shift reaches 63. |
| CloneDelta.VarIntMeaning | cmd/clone/clone.go:214-237 | A decoded varint spans at most nine bytes. It ends one past the first byte with bit 7 clear, and its value is Σ (b_k & 0x7F)·2^(7k). |
| CloneDelta.VarIntRoundTrip | cmd/clone/clone.go:214-237 | Round trip: the 7-bit group encoding of a value reads back as the value and the offset after it, whatever surrounds it. |
| CloneDelta.OperandMissing | cmd/clone/clone.go:325-327 | A set selector bit with no instruction byte left fails with "truncated while reading … byte i+1". |
| CloneDelta.RunCommand | cmd/clone/clone.go:263-366 | Each instruction that succeeds moves the cursor forward and stays within the instructions, so the loop ends. |
| CloneDelta.ReadCopyOffset | cmd/clone/clone.go:312-330 | The offset loop over bits 0x01..0x08 returns exactly `CopyOffset`. |
| CloneDelta.ReadCopySize | cmd/clone/clone.go:338-359 | The size loop over bits 0x10..0x40 returns exactly `CopySize`. The first byte read replaces the default 0x10000, and later bytes are ORed in. |
| CloneDelta.ApplyCommand | cmd/clone/clone.go:264-366 | One turn of the `applyDelta` loop returns exactly `RunCommand`: the bytes appended and the next offset, or the error. |
| CloneDelta.ApplyDelta | cmd/clone/clone.go:240-378 | `applyDelta` returns exactly `ApplyDeltaSpec(base, instr)`, each error case included, and so does the `make` panic for an announced result size above 2^48. |
| CloneDelta.OversizedResultPanics | cmd/clone/clone.go:256-261 | An announced result size above 2^48, the largest capacity `make` accepts on 64-bit Linux, stops `applyDelta` with the "makeslice: cap out of range" panic before any instruction runs. |
| CloneDelta.RunOneOp | cmd/clone/clone.go:279-366 | An insert or copy instruction written as git writes it produces its reference output: the literal, or `base[offset:offset+size]`. |
| CloneDelta.RunCopy | cmd/clone/clone.go:311-366 | A copy written as git writes it appends `base[offset:offset+size]`, for offsets below 2^32 and sizes 1..2^24−1. Its command selects only the non-zero offset and size bytes, which follow low byte first, and size 0x10000 is written with no size byte. |
| CloneDelta.OperandOfNonZero | cmd/clone/clone.go:321-359 | Operand bytes read under selector bits that pick exactly the non-zero bytes of a value give that value, and the loop consumes exactly those bytes. |
| CloneDelta.CommandSelects | cmd/clone/clone.go:311-345 | A copy command as git writes it has bit 7 set. Its bits 0..3 select exactly the non-zero offset bytes, and its bits 4..6 exactly the non-zero bytes of the size, with no size bit for 0x10000. |
| CloneDelta.RunEncodedOps | cmd/clone/clone.go:263-367 | Encoded instructions run as the in-order concatenation of their literals and base slices. |
| CloneDelta.ApplyDeltaSucceeds | cmd/clone/clone.go:240-378 | `applyDelta` succeeds when both sizes read back, the first equals the base's length, and the instructions produce a result of the second size, which is at most 2^48. |
| CloneDelta.ApplyEncodedDelta | cmd/clone/clone.go:240-378 | Round trip: a delta encoded as git writes it (both sizes as varints, each copy with only its non-zero operand bytes) rebuilds exactly the reference result from its base, for results of at most 2^48 bytes. |
| CloneDelta.DefaultCopyAndInsert | cmd/clone/clone.go:279-313 | A copy command without operand bytes copies 0x10000 bytes from offset 0, or fails as out of bounds. An insert command 0x00 fails as unsupported. |
| CloneDelta.ExplicitZeroSize | cmd/clone/clone.go:338-352 | A copy command that selects one size byte holding 0 copies nothing: the default 0x10000 applies only when no size bit is set. |
| CloneDelta.ResultHasAnnouncedSize | cmd/clone/clone.go:243-261 | On success the first varint equals the base's length, the second is at most 2^48, and the result has the length of the second varint. |
| ClonePack.PackHeaderMeaning | cmd/clone/clone.go:139-164 | The header reads exactly when it is complete, signed `PACK` (after an optional `0008NAK\n`) and of version 2 or 3. It ends at 12, or at 20 behind the NAK line, and its fields are the big-endian words after the signature. |
| ClonePack.HeaderAtMeaning | cmd/clone/clone.go:145-163 | From the signature on, the header reads exactly when 12 bytes are there, signed `PACK`, with version 2 or 3. It gives the offset after it, the version and the count. |
| ClonePack.PackHeaderRoundTrip | cmd/clone/clone.go:139-164 | Round trip: a header written with or without the NAK line reads back as its version and count, whatever follows it. |
| ClonePack.ReadPackObject | cmd/clone/clone.go:169-206 | One turn of the record loop returns exactly `ReadObject` at the current offset. |
| ClonePack.ReadPackObjectBody | cmd/clone/clone.go:177-206 | The switch on the kind, the REF_DELTA base id, the decompression and the offset check return exactly `ReadAfterHeader`. |
| ClonePack.ReadNextRecord | cmd/clone/clone.go:169-207 | One turn of the record loop keeps "records read so far, then the records from here on, make up the whole result", or ends with the whole result's error. |
| ClonePack.ReadPackFileBody | cmd/clone/clone.go:166-209 | The record loop returns exactly `ReadObjects(content, 0, 0, numOfObj)`. |
| ClonePack.ReadPackFile | cmd/clone/clone.go:124-135 | `ReadPackFile` returns exactly `PackFile`: the header, then the records of the rest. |
| ClonePack.ReadObjectWellFormed | cmd/clone/clone.go:177-196 | A record read has a kind with a case in the switch and `Size == len(Content)`. A REF_DELTA record has a 40-digit lowercase hex base; every other record has an empty base. |
| ClonePack.ReadObjectsMeaning | cmd/clone/clone.go:166-209 | A successful body read gives exactly the requested number of records, each well formed. |
| ClonePack.PackFileMeaning | cmd/clone/clone.go:124-135 | A pack that reads gives as many records as its header announces, all well formed. |
| ClonePack.ReadObjectRejects | cmd/clone/clone.go:177-186 | A record of kind 0 or 5 stops the read as unimplemented. A REF_DELTA header without 20 more bytes stops it too. |
| ClonePack.ReadEncodedObject | cmd/clone/clone.go:169-206 | A record written as header, raw base id and self-delimiting zlib stream reads back as the expected object and takes exactly its own bytes. |
| ClonePack.EncodedObjects | cmd/clone/clone.go:166-209 | Written records, whatever follows them, read back as the expected objects in order. |
| ClonePack.PackRoundTrip | cmd/clone/clone.go:124-209 | Round trip: a whole written pack reads back as the expected objects. |
| CloneRefs.RefsFrom | cmd/clone/clone.go:53-75 | The ref loop never reports "too few lines". It gives at most one ref per line, and every hash has 40 bytes. |
| CloneRefs.GetRefList | cmd/clone/clone.go:46-77 | The loop of `GetRefList` returns exactly `RefList(input)`. |
| CloneRefs.ParseRefLineMeaning | cmd/clone/clone.go:57-74 | A line holds a ref exactly when it is long enough for the 4-byte length (8 on the first line), the 40-byte hash and a space. The hash is those 40 bytes, and the name runs from the space to the first NUL. |
| CloneRefs.RefListTooFewLines | cmd/clone/clone.go:47-50 | The "invalid length" error is returned exactly when the input has no LF. |
| CloneRefs.RefsStopAtFlush | cmd/clone/clone.go:54-56 | Nothing after a "0000" line is read. |
| CloneRefs.AdvertisementRoundTrip | cmd/clone/clone.go:46-77 | Round trip: a ref advertisement (service line, flush, first ref with capabilities, other refs, flush) reads back as the advertised refs, in order. |
| CloneRefs.FirstRefLine | cmd/clone/clone.go:57-74 | The first ref line, behind the flush packet, reads back as its ref, with the name ending at the NUL before the capabilities. |
| CloneRefs.MoreRefsRead | cmd/clone/clone.go:53-75 | The other ref lines read back as their refs up to the final flush packet. |
| CloneRefs.GenerateRefDiscoveryRequest | cmd/clone/clone.go:108-122 | The append loop returns exactly `DiscoveryRequest(refs)`: one want line per ref, in order, then `00000009done\n`. |
| CloneRefs.DiscoveryRequestLayout | cmd/clone/clone.go:108-122 | With 40-byte hashes the request is 50·n+13 bytes. Bytes 50k..50k+50 are the want line of ref k, and the done lines come last. |
| CloneRefs.WantLineFields | cmd/clone/clone.go:117 | A want line is 0x32 bytes: "0032", "want ", the hash, then LF. |
| CloneWrite.StoreSingle | cmd/clone/clone.go:405-416 | Storing one object fails exactly when its hash does not have 40 characters, and it never removes a file. |
| CloneWrite.Deltas | cmd/clone/clone.go:380-393 | The deltas collected in pass 1 are exactly the REF_DELTA objects: each collected object is a REF_DELTA of the input, and each REF_DELTA of the input is collected. |
| CloneWrite.ObjectStore.constructor | cmd/clone/clone.go:380-381 | A new store holds no file and hashes with the given function. |
| CloneWrite.ObjectStore.WriteSingleObject | cmd/clone/clone.go:405-416 | On success the store becomes `StoreSingle` of the old store. On failure the store is unchanged and the error is `StoreSingle`'s. |
| CloneWrite.ObjectStore.WriteDeltaObject | cmd/clone/clone.go:418-445 | On success the store becomes `StoreDelta` of the old store. On failure the store is unchanged and the error is `StoreDelta`'s. |
| CloneWrite.ObjectStore.WriteObjects | cmd/clone/clone.go:380-403 | The new store and the result are exactly `WriteAll` of the old store: pass 1 over the non-REF_DELTA objects, then, if it succeeded, pass 2 over the REF_DELTA objects. |
| CloneWrite.TypeNameSeparators | cmd/clone/objects.go:17-34 | No kind name holds a space or a NUL, so every name survives the loose-object header. |
| CloneWrite.ReadPathIsWritePath | cmd/clone/clone.go:410-419 | The base lookup in "." fails exactly for ids whose length is not 40. Otherwise it names the file `writeSingleObject` creates under "". |
| CloneWrite.StoreSingleReadsBack | cmd/clone/clone.go:405-416 | Round trip: a stored object's file is under the path of its hash and splits back into its content and its kind's name. No other file changes. |
| CloneWrite.StoreDeltaReadsBack | cmd/clone/clone.go:418-445 | A resolved delta found its base under `obj.base`, the base split into content and a known kind name, and the delta applied. The result is stored under the base's kind and reads back as that result. |
| CloneWrite.InvalidBaseTypeAborts | cmd/clone/clone.go:434-437 | A base whose type name `StringToObjectType` does not know aborts with "invalid base type", and nothing is written. |
| CloneWrite.StoreSingleKeepsAddressed | cmd/clone/clone.go:405-416 | Storing one object keeps every file under the path of its own hash. |
| CloneWrite.StoreDeltaKeepsAddressed | cmd/clone/clone.go:418-445 | Resolving one delta keeps every file under the path of its own hash and removes no file. |
| CloneWrite.FirstPassGrows | cmd/clone/clone.go:383-393 | Pass 1 never removes a file. |
| CloneWrite.FirstPassKeepsAddressed | cmd/clone/clone.go:383-393 | Pass 1 keeps every file under the path of its own hash. |
| CloneWrite.FirstPassWrites | cmd/clone/clone.go:383-393 | When pass 1 succeeds, every object that is not a REF_DELTA, OFS_DELTA included, has a file under the path of its hash. |
| CloneWrite.FirstPassFailure | cmd/clone/clone.go:383-393 | A failing pass 1 fails at an object that is not a REF_DELTA, whose store failed with the reported cause. |
| CloneWrite.SecondPassKeeps | cmd/clone/clone.go:395-400 | Pass 2 never removes a file and keeps every file under the path of its own hash. |
| CloneWrite.WriteAllKeeps | cmd/clone/clone.go:380-403 | `WriteObjects` never removes a file and keeps the store content-addressed. When it succeeds, every non-REF_DELTA object is stored. |
| CommonFile.NumOfDigits | cmd/common/file.go:49-56 | `numOfDigits(0) == 0`. For a > 0 the count c satisfies 10^(c−1) ≤ a < 10^c, and c is the length of a's decimal form. The copies at cmd/mygit/internals.go:187-194 and cmd/mygit/main.go:200-207 are the same loop. |
| CommonFile.FormatGitObjectContent | cmd/common/file.go:31-47 | The object starts with the type and a space and ends with the content. Its length is the capacity Go reserves, except for empty content, which is one byte longer. The copy at cmd/mygit/internals.go:169-185 builds the same bytes. |
| CommonFile.ReadObjectFile | cmd/common/file.go:117-134 | The counting loop and the header split return exactly `SplitObject(content)`. The copy at cmd/mygit/internals.go:65-82 is the same loop and split. |
| CommonFile.SplitObjectMeaning | cmd/common/file.go:122-133 | The split succeeds exactly when there is a NUL and the bytes before the first NUL hold exactly one space. The type is then the bytes before that space, and the content everything after the NUL. |
| CommonFile.SplitFormatted | cmd/common/file.go:117-134 | Round trip: splitting a formatted object gives back its content and type, whenever the type holds no space and no NUL. |
| CommonFile.ObjectPathsAgree | cmd/common/file.go:83-113 | `CreateEmptyObjectFile` and `GetFileFromHash` reject every hash whose length is not 40. Otherwise both name `baseDir/.git/objects/hash[0:2]/hash[2:]`. |
| CommonFile.ObjectsDirOfDot | cmd/common/file.go:87-104 | `filepath.Join` gives ".git/objects" from both "." and "". |
| MygitInternals.SortByName | cmd/mygit/internals.go:38-41 | The sort leaves the entries in ascending name order and is a permutation of them. |
| MygitInternals.WriteTo | cmd/mygit/internals.go:37-61 | `WriteTo` sorts the receiver in place by name. It writes mode, space, name, NUL and SHA for each entry in that order, and returns n = Σ (len(GitMode) + len(Name) + 22). |
| MygitInternals.ParseTreeObjectBody | cmd/mygit/internals.go:199-242 | The parser loop returns exactly `ParseTree(content)`. |
| MygitInternals.ParseRejects | cmd/mygit/internals.go:210-226 | A name holding a space makes the parse fail. A NUL followed by fewer than 20 bytes fails with "unexpected end of content". |
| MygitInternals.AtoiRejectsSpace | cmd/mygit/internals.go:211-214 | A mode field that holds a space is not an integer. |
| MygitInternals.ParseSerialized | cmd/mygit/internals.go:199-242 | Round trip: serialised entries with decimal modes and names without space or NUL parse back to their names and SHAs in order, with the mode left empty. |
| MygitInternals.ParseWritten | cmd/mygit/internals.go:37-61 | Parsing what `WriteTo` wrote gives the entries' names and SHAs in the written (sorted) order. |
| MygitInternals.CreateEmptyObjectFile | cmd/mygit/internals.go:140-150 | It fails exactly when the sha's length is not 40 or `os.Mkdir` fails with anything but "exists". Otherwise it creates `./.git/objects/sha[0:2]/sha[2:]`. |
| MygitPackFile.ConvertToObjectType | cmd/mygit/packFile.go:17-22 | The result is a named kind, `OBJ_INVALID` or the unassigned 5. Values above 7 become `OBJ_INVALID`, and every value up to 7 is kept. |
| MygitPackFile.ConvertAgreesWithHeader | cmd/mygit/packFile.go:16-22 | On the type bits of a pack object header, `convertToObjectType` agrees with cmd/clone's header decoding except on 5, which it keeps where cmd/clone reads `OBJ_INVALID`. |
| MygitPackFile.ToGitTypeNames | cmd/mygit/packFile.go:24-41 | A kind has a non-empty name exactly when it is one of the six named kinds, and the six names are pairwise different. |
| MygitPackFile.AgreesWithClone | cmd/mygit/packFile.go:6-14 | The mygit codes equal the cmd/clone codes, and each named kind has the same name in both packages. |
| MygitPackFile.ConvertKeepsFive | cmd/mygit/packFile.go:17-41 | 5 passes the conversion and has no name. |
| MygitClone.ReadPktLineMeaning | cmd/mygit/clone.go:37-63 | A line of 4 bytes or fewer fails. The result is a flush exactly when the length field parses as 0. Data is returned only when the field equals the line's length, as line[4:] without one trailing LF and size = length − 4. |
| MygitClone.ReadFramed | cmd/mygit/clone.go:37-63 | Round trip: a pkt-line framed with its hex length and an LF reads back as its payload. |
| MygitClone.BareFlushRejected | cmd/mygit/clone.go:38-49 | As written, the bare flush packet "0000" is rejected as too short before the flush check. |
| MygitClone.CorrectedReadsFlush | cmd/mygit/clone.go:34-49 | The corrected reader takes "0000" as a flush packet and agrees with `readPktLine` on every line of another length. |
| MygitClone.ValidateHeaderMeaning | cmd/mygit/clone.go:113-141 | The header is accepted exactly when it starts with four lowercase hex digits and '#' and the length is 29 or 30. The bytes after the first five must be " service=git-upload-pack", followed by one LF at length 30. |
| MygitClone.ServiceHeaderAccepted | cmd/mygit/clone.go:133-140 | The service line with its LF is accepted, whatever follows. |
| MygitClone.ServiceHeaderWithoutLF | cmd/mygit/clone.go:133-140 | The service line without an LF is accepted too. |
| MygitClone.CreateRefDiscovery | cmd/mygit/clone.go:169-193 | The request is built exactly when both ids hold a run of 40 lowercase hex digits. A bad want is reported first. The body is "0032 "+want+"\n0032 "+have+"\n0000". |
| MygitClone.UnanchoredIdAccepted | cmd/mygit/clone.go:21 | The id check accepts any string that contains 40 hex digits somewhere. |
| MygitClone.ShortIdRejected | cmd/mygit/clone.go:21 | A string shorter than 40 bytes is rejected. |
| MygitClone.AsWrittenLineRejected | cmd/mygit/clone.go:176-190 | A request line as written is 46 bytes but declares 0x32, so `readPktLine` rejects it with a length mismatch. |
| MygitClone.CorrectedRequestReads | cmd/mygit/clone.go:176-182 | With "want "/"have " each line is exactly the declared 50 bytes and reads back as keyword and id. The request ends with a flush packet. |
| MygitUtils.ErrWriter.constructor | cmd/mygit/utils.go:14-17 | A new writer has written nothing and keeps no error. |
| MygitUtils.ErrWriter.Write | cmd/mygit/utils.go:21-30 | The new output and error are `Step` of the old ones. Once an error is kept, a write changes nothing. |
| MygitUtils.StepsSticky | cmd/mygit/utils.go:20-24 | Once an error is kept, no later write reaches the wrapped writer and the error stays. |
| MygitUtils.StepsKeepWriterErrors | cmd/mygit/utils.go:25-29 | From a clean writer, no error is kept exactly when the wrapped writer never returned one, and then the output is every byte it took. |
| MygitUtils.ShortWriteForgotten | cmd/mygit/utils.go:26-29 | As written, a short write without a writer error leaves no error. |
| MygitUtils.CorrectedStepsComplete | cmd/mygit/utils.go:19-30 | With the correction, no error is kept exactly when every buffer was written whole without an error, and then the output is all the buffers. |
| MygitUtils.CorrectedSticky | cmd/mygit/utils.go:20-24 | The corrected writer keeps its first error too. |
| MygitUtils.GetFileFromHashPathMeaning | cmd/mygit/utils.go:35-40 | Every hash whose length is not 40 is rejected. Otherwise the path is `.git/objects/hash[0:2]/hash[2:]`, the file cmd/common's `GetFileFromHash` finds from ".". |
| MygitUtils.CreatedFileIsOpened | cmd/mygit/internals.go:140-149 | The file the cmd/mygit `CreateEmptyObjectFile` creates is "./" followed by the path `GetFileFromHash` opens for the same sha. |
| MygitUtils.GetIntFromBigIndian | cmd/mygit/utils.go:52-54 | It equals `readBigEndian` of cmd/clone on every 4-byte input and is below 2^32. |
| MygitUtils.ModeFromGit | cmd/mygit/utils.go:80-91 | The mode is 0644, 0755 or ModeDir\|0755. |
| MygitUtils.ModeRoundTrip | cmd/mygit/utils.go:80-91 | "100644", "100755" and "40000" read as 0644, 0755 and ModeDir\|0755, the modes git writes them for. Every other string reads as 0644. |
| MygitUtils.MkdirModeDirDenies | cmd/mygit/internals.go:145 | `fs.FileMode(os.ModeDir)` has no permission bits, so under any umask the new fan-out directory denies a non-root owner the `os.Create` that follows. The copy at cmd/mygit/main.go:175 passes the same mode. |
| MygitUtils.MkdirModePermAllows | cmd/common/file.go:88 | With `os.ModePerm`, any umask that leaves the owner's write and search bits alone lets the owner create the object file. |
| MygitMain.CreateContentWithInfo | cmd/mygit/main.go:182-198 | The appends build exactly cmd/common's `FormatGitObjectContent(typ, content)`. |
| MygitMain.CreateEmptyObjectFile | cmd/mygit/main.go:170-180 | It fails exactly when the sha's length is not 40 or `os.Mkdir` does not create the directory, an existing directory included. |
| MygitMain.CreateEmptyObjectFilePath | cmd/mygit/main.go:174-179 | The file is `./.git/objects/sha[0:2]/sha[2:]`, the one the cmd/mygit/internals.go copy creates. |
| MygitMain.ExistingDirectoryRejected | cmd/mygit/main.go:175-178 | As written, an existing fan-out directory makes `createEmptyObjectFile` fail. The internals.go copy succeeds there. |

## Left out

- Network I/O is not modelled: `GitSmartProtocolGetRefs`, `RefDiscovery`, `getPacketFile`, `discoverRef` and the close handling of `validatePacketFile`.
- zlib is a foreign library. `findAndDecompress` is a table from input to (decompressed, used) given to the pack reader. Nothing is assumed about `used` beyond the offset check the reader makes.
- `ReadCompressed`, `WriteCompactContent`, `createObjectFile` and the `readObjectFile` of cmd/mygit/main.go are left out. `ReadObjectFile` is modelled after its decompression step.
- SHA-1 and its hex encoding are a function the store is given (`common.CalculateEncodedSHA`). Its error path, which needs a failing hash, is not modelled. `CalculateSHA`, `getRawSHA` and `calculateSHA` are not part of this model.
- The file system is a map from path to uncompressed object file:
  - `os.MkdirAll` and `os.Create` become a map update, which overwrites an existing file, as `os.Create` truncates it.
  - `os.Open` fails only for a missing file; its other errors are not modelled.
  - Write errors of `WriteCompactContent`, which `writeSingleObject` returns, are not modelled.
  - The `os.Mkdir` result of the two `CreateEmptyObjectFile` copies in cmd/mygit is a parameter.
- The `dir` argument of `WriteObjects` is not modelled, because the source never uses it.
- `filepath.Join` is modelled as: drop empty and "." segments, then join with "/". Its full `Clean` (for "..", doubled or trailing slashes) is not.
- `WriteTree`, `bufferToFile`, `renderTree`, `initCMD`, `main` and the rest of cmd/mygit/commands.go are directory walking, argument parsing and printing. They are not part of this model.
- `WriteCommitContent` and `getAuthorCommiterString` depend on the clock and are not part of this model.
- The test functions of cmd/mygit/clone_test.go that call functions not in the source are not modelled. Its header vectors are proved about `packObjectSize` (CloneHelper.HeaderVectorsThreeBytes).
- `validateHeader` reads from a byte sequence instead of an `io.Reader`. A short read (`io.ReadAtLeast` failing) is a typed error.
- Panics become typed errors, each named after the panic:
  - `GetRefList`: slicing a short line (`ShortLine`) and the missing-space panic (`MissingSpace`).
  - `readPackFileHeader`: slicing past the end (`HeaderTruncated`).
  - `readPackFileBody`: the default case (`Unimplemented`) and a short REF_DELTA base (`BaseTruncated`).
  - `ReadObjectFile`: no NUL (`MissingNul`).
  - `validateHeader`: `make` with a negative length (`NegativeLength`) and indexing an empty buffer (`EmptyHeader`).
  - `applyDelta`: `make` with a capacity above 2^48 (`ResultCapOutOfRange`).
- MygitInternals.SortByName: `sort.Slice` is not stable and its algorithm is not specified. The model sorts by selection, so entries with equal names may end in a different order than Go leaves them; the contract (sorted, a permutation) is what `sort.Slice` promises.
- MygitInternals.WriteTo: the writer is an in-memory buffer, so the early returns on a writer error are not modelled.
- MygitUtils.ErrWriter.Write: the wrapped writer is assumed to keep the `io.Writer` contract `n <= len(buf)`. A writer reporting more bytes than it was given is not modelled.
- MygitUtils.GetIntFromBigIndian and CloneHelper.ReadBigEndian are written as sums instead of shifts and ORs, which is the same value because the shifted bytes do not overlap.
- CloneDelta.ApplyDelta: Go's `int` is 64 bits wide and the model's integers are unbounded. No arithmetic wraps, because every copy operand is below 2^32 and both varints are below 2^63.
- CloneDelta.ApplyDelta: a result size at or below 2^48 that exceeds the available memory makes `make` fail with a fatal out-of-memory error. That is not modelled. The 2^48 limit itself is the one of 64-bit Linux.
- MygitInternals.CreateEmptyObjectFile and MygitMain.CreateEmptyObjectFile: the outcome of `os.Create` is not modelled; success returns the path. The permission bits that decide it are under "Findings".

## Findings

| source | as written | input that shows it | evidently intended | confidence | as-written member | corrected member |
|---|---|---|---|---|---|---|
| cmd/mygit/clone.go:38-49 | `readPktLine` rejects every line of 4 bytes or fewer before checking for the flush packet. | "0000" fails with an invalid length. | The flush packet "0000", which the doc comment says it checks for, is accepted. | high, not executed | MygitClone.BareFlushRejected | MygitClone.CorrectedReadsFlush |
| cmd/mygit/clone.go:184-187 | `createRefDiscovery` writes "0032 " before each id, without "want"/"have". | Any 40-digit want: the line is 46 bytes, declares 50, and the program's own `readPktLine` rejects it. | "0032want <id>\n" and "0032have <id>\n", as the comment above it says: 50-byte pkt-lines. | high, not executed | MygitClone.AsWrittenLineRejected | MygitClone.CorrectedRequestReads |
| cmd/mygit/utils.go:26-29 | The short-write error set at line 27 is overwritten by the writer's error at line 29. | A 1-byte buffer that the writer takes 0 bytes of, with no error, leaves no error. | A short write is kept as an error. | low (only a writer breaking the `io.Writer` contract shows it), not executed | MygitUtils.ShortWriteForgotten | MygitUtils.CorrectedStepsComplete |
| cmd/mygit/main.go:175-178 | `createEmptyObjectFile` fails on any `os.Mkdir` error, "already exists" included. | Two objects whose ids share the first two characters: the second fails. | An existing fan-out directory is tolerated, as the cmd/mygit/internals.go copy does. | medium, not executed | MygitMain.ExistingDirectoryRejected | MygitMain.CreateEmptyObjectFilePath |
| cmd/mygit/packFile.go:16-22 | `convertToObjectType` keeps 5, though its comment promises a valid object type or 0 for invalid. | 5, the type bits of header byte 0x50. | 5 becomes `OBJ_INVALID`, as cmd/clone's header decoding does. | medium, not executed | MygitPackFile.ConvertKeepsFive | CloneHelper.HeaderType |
| cmd/mygit/internals.go:145 | Both cmd/mygit copies of `CreateEmptyObjectFile` (also cmd/mygit/main.go:175) make the fan-out directory with `fs.FileMode(os.ModeDir)`, whose permission bits are 0. | Any sha whose directory does not exist yet, run by a user other than root: `os.Create` in the new directory is denied. | The directory is made with `os.ModePerm` under the umask, as cmd/common/file.go:88 does. | medium, not executed | MygitUtils.MkdirModeDirDenies | MygitUtils.MkdirModePermAllows |
