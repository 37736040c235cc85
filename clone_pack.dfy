/**
 * Reading a pack file (cmd/clone/clone.go, `ReadPackFile` and its two
 * halves): the 12-byte header, optionally behind the `0008NAK\n` line of the
 * upload-pack reply, then `NumOfObjects` records of an object header, a
 * 20-byte base id for a REF_DELTA record, and a zlib stream.
 *
 * zlib is not part of this model: the decompressor is a table `inflate`,
 * passed as a parameter, from the bytes at the start of a stream to the
 * decompressed bytes and the number of input bytes the stream used, as
 * `findAndDecompress` reports them; bytes outside the table are a stream it
 * cannot read. A Go slice past the end of its input, which panics, is an
 * error value here.
 */
module ClonePack {
  import opened Wrappers
  import opened GoLib
  import opened CloneObjects
  import opened CloneHelper

  /** The decompressor `findAndDecompress` wraps, as a table: for each input
      that starts with a stream it can read, the decompressed bytes and the
      number of input bytes it used. */
  type Inflate = imap<bytes, (bytes, nat)>

  /** `findAndDecompress` on the bytes from the start of a stream on. */
  function FindAndDecompress(inflate: Inflate, input: bytes): Option<(bytes, nat)> {
    if input in inflate then Some(inflate[input]) else None
  }

  datatype PackHeader = PackHeader(version: nat, numOfObjects: nat)

  datatype PackError =
    | HeaderTruncated(at: nat)                         // a header slice past the end (a panic in Go)
    | NotAPack(at: nat)                                // "first 4 bytes must be PACK"
    | BadVersion(version: nat)                         // "invalid pack file version"
    | ObjectSize(index: nat, cause: SizeError)         // "reading the size of %d object"
    | Unimplemented(index: nat, kind: GitObjectType)   // the panic for a kind without a case
    | BaseTruncated(index: nat)                        // the REF_DELTA base slice past the end (a panic)
    | Decompress(index: nat)                           // "decompressing object %d"
    | OffsetPastEnd(offset: nat, length: nat, index: nat)  // "offset %d exceeded content length %d"

  /** `0008NAK\n`, the line upload-pack sends before the pack. */
  const Nak: bytes := [0x30, 0x30, 0x30, 0x38, 0x4E, 0x41, 0x4B, 0x0A]

  /** `PACK`, the pack signature. */
  const PackMagic: bytes := [0x50, 0x41, 0x43, 0x4B]

  // -----------------------------------------------------------------------
  // readPackFileHeader

  /** `readPackFileHeader(content)`: skips a leading NAK line, checks the
      signature and the version (2 or 3), reads the object count, and gives
      the offset after the header. */
  function ReadPackFileHeader(content: bytes): Result<(nat, PackHeader), PackError> {
    if |content| < 8 then Failure(HeaderTruncated(0))
    else ReadHeaderAt(content, if content[..8] == Nak then 8 else 0)
  }

  /** The rest of `readPackFileHeader`, once the offset of the signature is
      known. */
  function ReadHeaderAt(content: bytes, offset: nat): Result<(nat, PackHeader), PackError> {
    if offset + 4 > |content| then Failure(HeaderTruncated(offset))
    else if content[offset..offset + 4] != PackMagic then Failure(NotAPack(offset))
    else if offset + 8 > |content| then Failure(HeaderTruncated(offset + 4))
    else
      var version := ReadBigEndian(content[offset + 4..offset + 8]);
      if version != 2 && version != 3 then Failure(BadVersion(version))
      else if offset + 12 > |content| then Failure(HeaderTruncated(offset + 8))
      else Success((offset + 12, PackHeader(version, ReadBigEndian(content[offset + 8..offset + 12]))))
  }

  /** The header is read exactly when it is all there, signed and of version
      2 or 3: it ends at 12, or at 20 behind a NAK line, and its fields are
      the big-endian words after the signature. */
  lemma PackHeaderMeaning(content: bytes)
    ensures ReadPackFileHeader(content).Success? <==>
              var start := if |content| >= 8 && content[..8] == Nak then 8 else 0;
              && |content| >= 8 && start + 12 <= |content|
              && content[start..start + 4] == PackMagic
              && ReadBigEndian(content[start + 4..start + 8]) in {2, 3}
    ensures ReadPackFileHeader(content).Success? ==>
              var (offset, h) := ReadPackFileHeader(content).value;
              && (offset == 20 <==> content[..8] == Nak)
              && (offset == 12 || offset == 20) && offset <= |content|
              && content[offset - 12..offset - 8] == PackMagic
              && h.version == ReadBigEndian(content[offset - 8..offset - 4])
              && h.numOfObjects == ReadBigEndian(content[offset - 4..offset])
  {
    if |content| >= 8 {
      HeaderAtMeaning(content, if content[..8] == Nak then 8 else 0);
    }
  }

  lemma HeaderAtMeaning(content: bytes, start: nat)
    ensures ReadHeaderAt(content, start).Success? <==>
              && start + 12 <= |content|
              && content[start..start + 4] == PackMagic
              && ReadBigEndian(content[start + 4..start + 8]) in {2, 3}
    ensures ReadHeaderAt(content, start).Success? ==>
              ReadHeaderAt(content, start).value
              == (start + 12, PackHeader(ReadBigEndian(content[start + 4..start + 8]),
                                         ReadBigEndian(content[start + 8..start + 12])))
  {
  }

  /** The header a server writes: an optional NAK line, the signature, the
      version and the object count as 32-bit big-endian words. */
  function EncodePackHeader(nak: bool, version: nat, count: nat): (r: bytes)
    requires version < 0x1_0000_0000 && count < 0x1_0000_0000
  {
    (if nak then Nak else []) + PackMagic + BigEndianBytes(version) + BigEndianBytes(count)
  }

  /** Round trip: reading an encoded header gives back its version and count,
      whatever follows it. */
  lemma PackHeaderRoundTrip(nak: bool, version: nat, count: nat, rest: bytes)
    requires version == 2 || version == 3
    requires count < 0x1_0000_0000
    ensures ReadPackFileHeader(EncodePackHeader(nak, version, count) + rest)
         == Success((if nak then 20 else 12, PackHeader(version, count)))
  {
    var content := EncodePackHeader(nak, version, count) + rest;
    var start := if nak then 8 else 0;
    BigEndianRoundTrip(version, BigEndianBytes(version));
    BigEndianRoundTrip(count, BigEndianBytes(count));
    assert content[start..start + 4] == PackMagic;
    assert content[start + 4..start + 8] == BigEndianBytes(version);
    assert content[start + 8..start + 12] == BigEndianBytes(count);
    if nak {
      assert content[..8] == Nak;
    } else {
      assert content[0] != Nak[0];
    }
  }

  // -----------------------------------------------------------------------
  // readPackFileBody

  /** Record `i`, read from `tail`, the bytes of the body from `offset` on:
      its header, then what follows it. Gives the record and the number of
      bytes it takes. */
  function ReadObject(tail: bytes, offset: nat, i: nat, inflate: Inflate): (r: Result<(GitObject, nat), PackError>)
    ensures r.Success? ==> 0 < r.value.1 <= |tail|
  {
    match DecodeObjectHeader(tail)
    case Failure(e) => Failure(ObjectSize(i, e))
    case Success(h) =>
      assert 1 <= h.bytesRead <= |tail| by {
        DecodeObjectHeaderMeaning(tail);
      }
      ReadAfterHeader(tail, h.bytesRead, h.objType, offset, i, inflate)
  }

  /** The part of a record after its `p` header bytes: the base id of a
      REF_DELTA record, then the zlib stream. `offset` only appears in the
      error that reports an offset past the end. */
  function ReadAfterHeader(tail: bytes, p: nat, objType: GitObjectType, offset: nat, i: nat, inflate: Inflate)
    : (r: Result<(GitObject, nat), PackError>)
    requires p <= |tail|
    ensures r.Success? ==> p <= r.value.1 <= |tail|
  {
    if !IsNamed(objType) then Failure(Unimplemented(i, objType))
    else if objType == RefDelta && p + 20 > |tail| then Failure(BaseTruncated(i))
    else
      var base := if objType == RefDelta then HexEncode(tail[p..p + 20]) else [];
      var q := if objType == RefDelta then p + 20 else p;
      match FindAndDecompress(inflate, tail[q..])
      case None => Failure(Decompress(i))
      case Some((data, used)) =>
        if q + used > |tail| then Failure(OffsetPastEnd(offset + q + used, offset + |tail|, i))
        else Success((GitObject(objType, |data|, data, base), q + used))
  }

  /** `objs` in front of a successful result. */
  function PrependObjects(objs: seq<GitObject>, r: Result<seq<GitObject>, PackError>): Result<seq<GitObject>, PackError> {
    match r
    case Failure(e) => Failure(e)
    case Success(tail) => Success(objs + tail)
  }

  /** Records `i` to `n - 1`, read from `tail`, the bytes from `offset` on. */
  function ReadObjects(tail: bytes, offset: nat, i: nat, n: nat, inflate: Inflate): Result<seq<GitObject>, PackError>
    decreases n - i, 1
  {
    if i >= n then Success([]) else ReadRecords(tail, offset, i, n, inflate)
  }

  function ReadRecords(tail: bytes, offset: nat, i: nat, n: nat, inflate: Inflate): Result<seq<GitObject>, PackError>
    requires i < n
    decreases n - i, 0
  {
    match ReadObject(tail, offset, i, inflate)
    case Failure(e) => Failure(e)
    case Success((obj, used)) => PrependObjects([obj], ReadObjects(tail[used..], offset + used, i + 1, n, inflate))
  }

  /** One turn of the loop of `readPackFileBody`: the record at `offset`,
      and the number of bytes it takes. */
  method ReadPackObject(content: bytes, offset: nat, i: nat, inflate: Inflate) returns (r: Result<(GitObject, nat), PackError>)
    requires offset <= |content|
    ensures r == ReadObject(content[offset..], offset, i, inflate)
  {
    var header := PackObjectSize(content[offset..]);
    if header.Failure? {
      return Failure(ObjectSize(i, header.error));
    }
    DecodeObjectHeaderMeaning(content[offset..]);
    r := ReadPackObjectBody(content, offset, offset + header.value.bytesRead, header.value.objType, i, inflate);
  }

  /** The rest of the turn, from `next`, just past the header: the switch on
      the kind, the decompression, and the offset check. */
  method ReadPackObjectBody(content: bytes, offset: nat, next: nat, objType: GitObjectType, i: nat, inflate: Inflate)
    returns (r: Result<(GitObject, nat), PackError>)
    requires offset <= next <= |content|
    ensures r == ReadAfterHeader(content[offset..], next - offset, objType, offset, i, inflate)
  {
    ghost var tail := content[offset..];
    var next := next;
    var base: bytes := [];
    if objType == Tag || objType == Blob || objType == Commit || objType == Tree {
    } else if objType == RefDelta {
      if next + 20 > |content| {
        return Failure(BaseTruncated(i));
      }
      base := HexEncode(content[next..next + 20]);
      assert content[next..next + 20] == tail[next - offset..next - offset + 20];
      next := next + 20;
    } else if objType == OfsDelta {
    } else {
      return Failure(Unimplemented(i, objType));
    }
    assert content[next..] == tail[next - offset..];
    var unpacked := FindAndDecompress(inflate, content[next..]);
    if unpacked.None? {
      return Failure(Decompress(i));
    }
    var (decompressed, used) := unpacked.value;
    next := next + used;
    if next > |content| {
      return Failure(OffsetPastEnd(next, |content|, i));
    }
    return Success((GitObject(objType, |decompressed|, decompressed, base), next - offset));
  }

  /** `readPackFileBody(content, numOfObj)`: fills a slice of `numOfObj`
      records in order, moving the offset past each. */
  method ReadPackFileBody(content: bytes, numOfObj: nat, inflate: Inflate) returns (r: Result<seq<GitObject>, PackError>)
    ensures r == ReadObjects(content, 0, 0, numOfObj, inflate)
  {
    var offset: nat := 0;
    var objects := new GitObject[numOfObj](_ => GitObject(Invalid, 0, [], []));
    ghost var whole := ReadObjects(content, 0, 0, numOfObj, inflate);
    PrependNoObjects(whole);
    assert content[0..] == content;
    for i := 0 to numOfObj
      invariant offset <= |content|
      invariant Progress(content, offset, i, numOfObj, inflate, objects[..i], whole)
    {
      ghost var done := objects[..i];
      var record := ReadNextRecord(content, offset, i, numOfObj, inflate, done, whole);
      if record.Failure? {
        return Failure(record.error);
      }
      var (obj, used) := record.value;
      objects[i] := obj;
      assert objects[..i + 1] == done + [obj];
      offset := offset + used;
    }
    assert objects[..numOfObj] == objects[..] == objects[..] + [];
    return Success(objects[..]);
  }

  /** The records read so far, `done`, followed by those read from `offset`
      on, make up `whole`. */
  ghost predicate Progress(content: bytes, offset: nat, i: nat, n: nat, inflate: Inflate,
                           done: seq<GitObject>, whole: Result<seq<GitObject>, PackError>)
    requires offset <= |content|
  {
    PrependObjects(done, ReadObjects(content[offset..], offset, i, n, inflate)) == whole
  }

  /** The loop body of `readPackFileBody` for record `i`: the records read
      so far, `done`, followed by those from `offset` on make up the whole
      result; after the record, the same holds one record further on. */
  method ReadNextRecord(content: bytes, offset: nat, i: nat, n: nat, inflate: Inflate,
                        ghost done: seq<GitObject>, ghost whole: Result<seq<GitObject>, PackError>)
    returns (r: Result<(GitObject, nat), PackError>)
    requires offset <= |content| && i < n
    requires Progress(content, offset, i, n, inflate, done, whole)
    ensures r.Failure? ==> whole == Failure(r.error)
    ensures r.Success? ==>
              && offset + r.value.1 <= |content|
              && Progress(content, offset + r.value.1, i + 1, n, inflate, done + [r.value.0], whole)
  {
    r := ReadPackObject(content, offset, i, inflate);
    if r.Failure? {
      StopAtFailure(content[offset..], offset, i, n, inflate, done, whole);
    } else {
      ReadNextObject(content, offset, r.value.1, i, n, inflate, done, r.value.0, whole);
    }
  }

  /** A record that fails to read ends the run with its error. */
  lemma StopAtFailure(tail: bytes, offset: nat, i: nat, n: nat, inflate: Inflate,
                      done: seq<GitObject>, whole: Result<seq<GitObject>, PackError>)
    requires i < n && ReadObject(tail, offset, i, inflate).Failure?
    requires PrependObjects(done, ReadObjects(tail, offset, i, n, inflate)) == whole
    ensures whole == Failure(ReadObject(tail, offset, i, inflate).error)
  {
  }

  /** Reading record `i` moves the loop's split point past it. */
  lemma ReadNextObject(content: bytes, offset: nat, used: nat, i: nat, n: nat, inflate: Inflate,
                       done: seq<GitObject>, obj: GitObject, whole: Result<seq<GitObject>, PackError>)
    requires offset <= |content| && i < n
    requires ReadObject(content[offset..], offset, i, inflate) == Success((obj, used))
    requires PrependObjects(done, ReadObjects(content[offset..], offset, i, n, inflate)) == whole
    ensures offset + used <= |content|
    ensures PrependObjects(done + [obj], ReadObjects(content[offset + used..], offset + used, i + 1, n, inflate)) == whole
  {
    assert content[offset..][used..] == content[offset + used..];
    PrependObjectsTwice(done, [obj], ReadObjects(content[offset + used..], offset + used, i + 1, n, inflate));
  }

  lemma PrependNoObjects(r: Result<seq<GitObject>, PackError>)
    ensures PrependObjects([], r) == r
  {
    match r
    case Failure(_) =>
    case Success(tail) =>
      assert [] + tail == tail;
  }

  lemma PrependObjectsTwice(x: seq<GitObject>, y: seq<GitObject>, r: Result<seq<GitObject>, PackError>)
    ensures PrependObjects(x, PrependObjects(y, r)) == PrependObjects(x + y, r)
  {
    match r
    case Failure(_) =>
    case Success(tail) =>
      assert x + (y + tail) == x + y + tail;
  }

  // -----------------------------------------------------------------------
  // ReadPackFile

  /** What `ReadPackFile(content)` returns: the header, then the records of
      the rest. */
  function PackFile(content: bytes, inflate: Inflate): Result<seq<GitObject>, PackError> {
    match ReadPackFileHeader(content)
    case Failure(e) => Failure(e)
    case Success((offset, header)) =>
      ReadObjects(content[offset..], 0, 0, header.numOfObjects, inflate)
  }

  /** `ReadPackFile(content)`. */
  method ReadPackFile(content: bytes, inflate: Inflate) returns (r: Result<seq<GitObject>, PackError>)
    ensures r == PackFile(content, inflate)
  {
    var header := ReadPackFileHeader(content);
    if header.Failure? {
      return Failure(header.error);
    }
    var (offset, packHeader) := header.value;
    r := ReadPackFileBody(content[offset..], packHeader.numOfObjects, inflate);
  }

  // -----------------------------------------------------------------------
  // What the records hold

  /** A record as `readPackFileBody` leaves it: a kind that has a case in its
      switch, the size of the decompressed content, and a base id of 40
      lowercase hex digits exactly for a REF_DELTA record. */
  predicate WellFormedRecord(obj: GitObject) {
    && IsNamed(obj.objectType)
    && obj.size == |obj.content|
    && (obj.objectType == RefDelta ==> |obj.base| == 40 && forall k :: 0 <= k < 40 ==> IsLowerHex(obj.base[k]))
    && (obj.objectType != RefDelta ==> obj.base == [])
  }

  lemma ReadObjectWellFormed(tail: bytes, offset: nat, i: nat, inflate: Inflate)
    ensures ReadObject(tail, offset, i, inflate).Success? ==> WellFormedRecord(ReadObject(tail, offset, i, inflate).value.0)
  {
  }

  /** A successful read gives as many records as the count asks for, each
      well formed. */
  lemma {:induction false} ReadObjectsMeaning(tail: bytes, offset: nat, i: nat, n: nat, inflate: Inflate)
    ensures ReadObjects(tail, offset, i, n, inflate).Success? ==>
              var objs := ReadObjects(tail, offset, i, n, inflate).value;
              && |objs| == (if i >= n then 0 else n - i)
              && forall k :: 0 <= k < |objs| ==> WellFormedRecord(objs[k])
    decreases n - i
  {
    if i < n {
      ReadObjectWellFormed(tail, offset, i, inflate);
      match ReadObject(tail, offset, i, inflate)
      case Failure(_) =>
      case Success((obj, used)) =>
        ReadObjectsMeaning(tail[used..], offset + used, i + 1, n, inflate);
    }
  }

  /** A pack that reads gives exactly the number of records its header
      announces, all well formed. */
  lemma PackFileMeaning(content: bytes, inflate: Inflate)
    ensures PackFile(content, inflate).Success? ==>
              && ReadPackFileHeader(content).Success?
              && |PackFile(content, inflate).value| == ReadPackFileHeader(content).value.1.numOfObjects
              && forall k :: 0 <= k < |PackFile(content, inflate).value| ==> WellFormedRecord(PackFile(content, inflate).value[k])
  {
    if ReadPackFileHeader(content).Success? {
      var (offset, header) := ReadPackFileHeader(content).value;
      ReadObjectsMeaning(content[offset..], 0, 0, header.numOfObjects, inflate);
    }
  }

  /** A header whose kind has no case in the switch (0, or 5, which reads as
      0) stops the read; so does a REF_DELTA header without 20 bytes after it. */
  lemma ReadObjectRejects(tail: bytes, offset: nat, i: nat, inflate: Inflate)
    requires DecodeObjectHeader(tail).Success?
    ensures var h := DecodeObjectHeader(tail).value;
            && (h.objType == Invalid ==> ReadObject(tail, offset, i, inflate) == Failure(Unimplemented(i, Invalid)))
            && (h.objType == RefDelta && h.bytesRead + 20 > |tail| ==>
                  ReadObject(tail, offset, i, inflate) == Failure(BaseTruncated(i)))
  {
  }

  // -----------------------------------------------------------------------
  // The inverse: writing records

  /** A kind a pack header can hold: three bits. */
  type PackKind = t: GitObjectType | t < 8

  /** A record as a server writes it: its kind, the raw 20-byte base id of a
      REF_DELTA record (empty otherwise), its compressed bytes and the bytes
      they decompress to. */
  datatype PackEntry = PackEntry(kind: PackKind, rawBase: bytes, deflated: bytes, data: bytes)

  /** `inflate` reads `deflated` back as `data` whatever follows it, and
      reports that it used exactly `deflated`: a zlib stream ends itself. */
  ghost predicate SelfDelimiting(inflate: Inflate, deflated: bytes, data: bytes) {
    forall rest: bytes {:trigger deflated + rest} :: FindAndDecompress(inflate, deflated + rest) == Some((data, |deflated|))
  }

  /** An entry the reader accepts: a named kind, a base id exactly for
      REF_DELTA, a size below 2^64, and a self-delimiting stream. */
  ghost predicate Writable(e: PackEntry, inflate: Inflate) {
    && IsNamed(e.kind)
    && (if e.kind == RefDelta then |e.rawBase| == 20 else e.rawBase == [])
    && |e.data| < Mod64
    && SelfDelimiting(inflate, e.deflated, e.data)
  }

  ghost predicate AllWritable(es: seq<PackEntry>, inflate: Inflate) {
    forall k :: 0 <= k < |es| ==> Writable(es[k], inflate)
  }

  /** A record as written: header, raw base id, compressed bytes. */
  function EncodeEntry(e: PackEntry): bytes {
    EncodeObjectHeader(e.kind, |e.data|) + e.rawBase + e.deflated
  }

  function EncodeAll(es: seq<PackEntry>): (r: seq<bytes>)
    ensures |r| == |es| && forall k :: 0 <= k < |es| ==> r[k] == EncodeEntry(es[k])
  {
    seq(|es|, k requires 0 <= k < |es| => EncodeEntry(es[k]))
  }

  /** The chunks one after another. */
  function Concat(chunks: seq<bytes>): bytes {
    if chunks == [] then [] else chunks[0] + Concat(chunks[1..])
  }

  /** A run of written records. */
  function EncodeEntries(es: seq<PackEntry>): bytes {
    Concat(EncodeAll(es))
  }

  /** The record the reader should produce for an entry. */
  function Expected(e: PackEntry): GitObject {
    GitObject(e.kind, |e.data|, e.data, if e.kind == RefDelta then HexEncode(e.rawBase) else [])
  }

  function ExpectedAll(es: seq<PackEntry>): (r: seq<GitObject>)
    ensures |r| == |es| && forall k :: 0 <= k < |es| ==> r[k] == Expected(es[k])
  {
    seq(|es|, k requires 0 <= k < |es| => Expected(es[k]))
  }

  /** One written entry reads back as the expected record and takes exactly
      the bytes of the entry. */
  lemma ReadEncodedObject(tail: bytes, offset: nat, i: nat, e: PackEntry, rest: bytes, inflate: Inflate)
    requires Writable(e, inflate)
    requires tail == EncodeEntry(e) + rest
    ensures ReadObject(tail, offset, i, inflate) == Success((Expected(e), |EncodeEntry(e)|))
  {
    var header := EncodeObjectHeader(e.kind, |e.data|);
    var hl := |header|;
    var q := hl + |e.rawBase|;
    ConcatAssoc(header + e.rawBase, e.deflated, rest);
    ConcatAssoc(header, e.rawBase, e.deflated + rest);
    assert DecodeObjectHeader(tail) == Success(ObjectHeader(|e.data|, e.kind, hl)) by {
      EncodeDecodeObjectHeader(e.kind, |e.data|, e.rawBase + (e.deflated + rest));
    }
    assert tail[hl..q] == e.rawBase && tail[q..] == e.deflated + rest by {
      SplitAt(tail, 0, header + e.rawBase, e.deflated + rest);
      SplitAt(tail, 0, header, e.rawBase + (e.deflated + rest));
      SplitAt(tail, hl, e.rawBase, e.deflated + rest);
    }
    assert FindAndDecompress(inflate, tail[q..]) == Some((e.data, |e.deflated|));
  }

  /** Any bytes that start with `chunk` read as the record `obj`, which
      takes all of `chunk`, wherever the record sits. */
  ghost predicate ReadsAs(chunk: bytes, obj: GitObject, inflate: Inflate) {
    forall t: bytes, offset: nat, i: nat {:trigger ReadObject(t, offset, i, inflate)} ::
      |chunk| <= |t| && t[..|chunk|] == chunk ==> ReadObject(t, offset, i, inflate) == Success((obj, |chunk|))
  }

  lemma EntryReadsAs(e: PackEntry, inflate: Inflate)
    requires Writable(e, inflate)
    ensures ReadsAs(EncodeEntry(e), Expected(e), inflate)
  {
    var c := EncodeEntry(e);
    forall t: bytes, offset: nat, i: nat | |c| <= |t| && t[..|c|] == c
      ensures ReadObject(t, offset, i, inflate) == Success((Expected(e), |c|))
    {
      assert t == c + t[|c|..];
      ReadEncodedObject(t, offset, i, e, t[|c|..], inflate);
    }
  }

  /** `tail` starts with the chunks, one after another. */
  ghost predicate StartsWith(tail: bytes, chunks: seq<bytes>)
    decreases |chunks|
  {
    chunks == [] ||
    (|chunks[0]| <= |tail| && tail[..|chunks[0]|] == chunks[0] && StartsWith(tail[|chunks[0]|..], chunks[1..]))
  }

  lemma {:induction false} ConcatStartsWith(chunks: seq<bytes>, rest: bytes)
    ensures StartsWith(Concat(chunks) + rest, chunks)
    decreases |chunks|
  {
    if chunks != [] {
      var tail := Concat(chunks) + rest;
      var after := Concat(chunks[1..]) + rest;
      ConcatAssoc(chunks[0], Concat(chunks[1..]), rest);
      SplitAt(tail, 0, chunks[0], after);
      assert tail[..|chunks[0]|] == chunks[0];
      ConcatStartsWith(chunks[1..], rest);
    }
  }

  /** Each chunk reads as the record beside it. */
  ghost predicate AllReadAs(chunks: seq<bytes>, objs: seq<GitObject>, inflate: Inflate)
    requires |chunks| == |objs|
    decreases |chunks|
  {
    chunks == [] || (ReadsAs(chunks[0], objs[0], inflate) && AllReadAs(chunks[1..], objs[1..], inflate))
  }

  /** Bytes that start with a chunk read as its record. */
  lemma FirstRecord(tail: bytes, offset: nat, i: nat, chunk: bytes, obj: GitObject, inflate: Inflate)
    requires ReadsAs(chunk, obj, inflate) && |chunk| <= |tail| && tail[..|chunk|] == chunk
    ensures ReadObject(tail, offset, i, inflate) == Success((obj, |chunk|))
  {
  }

  /** Chunks that each read as their record read, one after another, as all
      the records. */
  lemma {:induction false} ChunksRead(tail: bytes, offset: nat, i: nat, n: nat, chunks: seq<bytes>, objs: seq<GitObject>,
                                      inflate: Inflate)
    requires |chunks| == |objs| && n == i + |chunks|
    requires AllReadAs(chunks, objs, inflate) && StartsWith(tail, chunks)
    ensures ReadObjects(tail, offset, i, n, inflate) == Success(objs)
    decreases |chunks|
  {
    if chunks != [] {
      var used := |chunks[0]|;
      var after := tail[used..];
      FirstRecord(tail, offset, i, chunks[0], objs[0], inflate);
      ChunksRead(after, offset + used, i + 1, n, chunks[1..], objs[1..], inflate);
      ReadObjectsStep(tail, offset, i, n, inflate, objs[0], used, after, objs[1..]);
      assert [objs[0]] + objs[1..] == objs;
    }
  }

  /** Every written entry reads as its expected record. */
  lemma {:induction false} EntriesReadAs(es: seq<PackEntry>, inflate: Inflate)
    requires AllWritable(es, inflate)
    ensures AllReadAs(EncodeAll(es), ExpectedAll(es), inflate)
    decreases |es|
  {
    if es != [] {
      EntryReadsAs(es[0], inflate);
      assert EncodeAll(es)[1..] == EncodeAll(es[1..]);
      assert ExpectedAll(es)[1..] == ExpectedAll(es[1..]);
      EntriesReadAs(es[1..], inflate);
    }
  }

  /** Reading a run of records is reading the first, then the rest. */
  lemma ReadObjectsStep(tail: bytes, offset: nat, i: nat, n: nat, inflate: Inflate,
                        obj: GitObject, used: nat, after: bytes, objs: seq<GitObject>)
    requires i < n && used <= |tail| && tail[used..] == after
    requires ReadObject(tail, offset, i, inflate) == Success((obj, used))
    requires ReadObjects(after, offset + used, i + 1, n, inflate) == Success(objs)
    ensures ReadObjects(tail, offset, i, n, inflate) == Success([obj] + objs)
  {
  }

  /** Written entries, whatever follows them, read back as the expected
      records. */
  lemma EncodedObjects(tail: bytes, es: seq<PackEntry>, rest: bytes, inflate: Inflate)
    requires AllWritable(es, inflate) && tail == EncodeEntries(es) + rest
    ensures ReadObjects(tail, 0, 0, |es|, inflate) == Success(ExpectedAll(es))
  {
    EntriesReadAs(es, inflate);
    ConcatStartsWith(EncodeAll(es), rest);
    ChunksRead(tail, 0, 0, |es|, EncodeAll(es), ExpectedAll(es), inflate);
  }

  /** A whole written pack reads back as the expected records. */
  lemma PackRoundTrip(nak: bool, version: nat, es: seq<PackEntry>, trailer: bytes, inflate: Inflate)
    requires version == 2 || version == 3
    requires |es| < 0x1_0000_0000
    requires AllWritable(es, inflate)
    ensures PackFile(EncodePackHeader(nak, version, |es|) + EncodeEntries(es) + trailer, inflate)
         == Success(ExpectedAll(es))
  {
    var header := EncodePackHeader(nak, version, |es|);
    var body := EncodeEntries(es) + trailer;
    ConcatAssoc(header, EncodeEntries(es), trailer);
    PackHeaderRoundTrip(nak, version, |es|, body);
    SuffixAfter(header, body);
    EncodedObjects(body, es, trailer, inflate);
  }
}
