/**
 * The loose-object format of cmd/common/file.go: the header
 * `type SP decimal-length NUL` in front of the content, the split of a
 * decompressed object back into type and content, and the path an object id
 * is stored under. The same three routines are repeated verbatim in
 * cmd/mygit/internals.go and cmd/mygit/main.go; this module is the one
 * definition of each. zlib compression and the file system are not part of
 * this model: an object file is its uncompressed bytes.
 */
module CommonFile {
  import opened Wrappers
  import opened GoLib

  // -----------------------------------------------------------------------
  // numOfDigits

  /** `numOfDigits(a)`: divides by ten until nothing is left, counting the
      steps; zero has no digits. */
  method NumOfDigits(a: nat) returns (count: nat)
    ensures a == 0 ==> count == 0
    ensures a > 0 ==> count >= 1 && Pow10(count - 1) <= a < Pow10(count) && count == |Decimal(a)|
  {
    count := 0;
    var x := a;
    while x != 0
      invariant count + DigitCount(x) == DigitCount(a)
      decreases x
    {
      x := x / 10;
      count := count + 1;
    }
    if a > 0 {
      DigitCountMeaning(a);
    }
  }

  // -----------------------------------------------------------------------
  // FormatGitObjectContent

  /** The header of a loose object: type, space, decimal length, NUL. */
  function ObjectHeader(typ: bytes, length: nat): bytes {
    typ + [SP] + Decimal(length) + [NUL]
  }

  /** `FormatGitObjectContent(typ, content)`: the header, then the content.
      Its length is the capacity the Go code reserves, except for empty
      content, whose length "0" has one digit more than `numOfDigits(0)`. */
  function FormatGitObjectContent(typ: bytes, content: bytes): (r: bytes)
    ensures |content| > 0 ==> |r| == |typ| + 1 + DigitCount(|content|) + 1 + |content|
    ensures |content| == 0 ==> |r| == |typ| + 1 + DigitCount(|content|) + 2
    ensures r[..|typ|] == typ && r[|typ|] == SP
    ensures r[|r| - |content|..] == content
  {
    assert |content| > 0 ==> |Decimal(|content|)| == DigitCount(|content|) by {
      if |content| > 0 {
        DigitCountMeaning(|content|);
      }
    }
    ObjectHeader(typ, |content|) + content
  }

  // -----------------------------------------------------------------------
  // The header split of ReadObjectFile

  datatype ObjectError =
    | MissingObjectType  // "couldn't find the object type"
    | MissingNul         // the Go code slices past the end and panics

  /** What `ReadObjectFile` returns for an already decompressed object:
      the content after the first NUL and the header field before the first
      space. The bytes before the NUL must hold exactly one space. When
      there is no NUL at all the Go slice `content[zeroPos+1:]` is out of
      range; here that is the error `MissingNul`. */
  function SplitObject(content: bytes): Result<(bytes, bytes), ObjectError> {
    var zeroPos := IndexOf(content, NUL);
    var parts := Split(content[..zeroPos], SP);
    if |parts| != 2 then Failure(MissingObjectType)
    else if zeroPos == |content| then Failure(MissingNul)
    else Success((content[zeroPos + 1..], parts[0]))
  }

  /** `ReadObjectFile` after decompression: the counting loop for the first
      NUL, then the split of the header. */
  method ReadObjectFile(content: bytes) returns (r: Result<(bytes, bytes), ObjectError>)
    ensures r == SplitObject(content)
  {
    var zeroPos := 0;
    while zeroPos < |content| && content[zeroPos] != NUL
      invariant zeroPos <= |content|
      invariant forall k :: 0 <= k < zeroPos ==> content[k] != NUL
    {
      zeroPos := zeroPos + 1;
    }
    IndexOfIsFirst(content, NUL, zeroPos);
    var parts := Split(content[..zeroPos], SP);
    if |parts| != 2 {
      return Failure(MissingObjectType);
    }
    if zeroPos == |content| {
      return Failure(MissingNul);
    }
    return Success((content[zeroPos + 1..], parts[0]));
  }

  /** The first position holding `d` is `IndexOf`. */
  lemma IndexOfIsFirst(s: bytes, d: byte, i: nat)
    requires i <= |s| && (i < |s| ==> s[i] == d)
    requires forall k :: 0 <= k < i ==> s[k] != d
    ensures IndexOf(s, d) == i
  {
    var j := IndexOf(s, d);
    assert j >= i by {
      assert j < |s| ==> s[j] == d;
    }
  }

  /** When the split succeeds or fails: it needs a NUL, and exactly one space
      before the first NUL. On success the type is the bytes before that
      space and the content is everything after the NUL. */
  lemma SplitObjectMeaning(content: bytes)
    ensures var z := IndexOf(content, NUL);
            SplitObject(content).Success? <==> (z < |content| && multiset(content[..z])[SP] == 1)
    ensures SplitObject(content).Success? ==>
              var z := IndexOf(content, NUL);
              var s := IndexOf(content, SP);
              && s < z
              && SplitObject(content).value == (content[z + 1..], content[..s])
  {
    var z := IndexOf(content, NUL);
    SplitObjectSucceeds(content, z);
    if SplitObject(content).Success? {
      SplitObjectFields(content, z);
    }
  }

  /** The split succeeds when the header before the first NUL has one space. */
  lemma SplitObjectSucceeds(content: bytes, z: nat)
    requires z == IndexOf(content, NUL)
    ensures SplitObject(content).Success? <==> (z < |content| && multiset(content[..z])[SP] == 1)
  {
    SplitLength(content[..z], SP);
  }

  /** On success the type field ends at the first space of the object. */
  lemma SplitObjectFields(content: bytes, z: nat)
    requires z == IndexOf(content, NUL) && SplitObject(content).Success?
    requires multiset(content[..z])[SP] == 1
    ensures IndexOf(content, SP) < z
    ensures SplitObject(content).value == (content[z + 1..], content[..IndexOf(content, SP)])
  {
    var header := content[..z];
    var s := IndexOf(header, SP);
    assert s < |header| by {
      if s == |header| {
        IndexOfAbsentConverse(header, SP);
      }
    }
    PrefixIndexOf(content, z, SP);
    assert header[..s] == content[..s];
  }

  /** No occurrence found means none is there. */
  lemma IndexOfAbsentConverse(s: bytes, d: byte)
    requires IndexOf(s, d) == |s|
    ensures multiset(s)[d] == 0
  {
    NoOccurrence(s, d);
  }

  /** An occurrence inside a prefix is the first occurrence of the whole. */
  lemma PrefixIndexOf(s: bytes, z: nat, d: byte)
    requires z <= |s| && IndexOf(s[..z], d) < z
    ensures IndexOf(s, d) == IndexOf(s[..z], d)
  {
    var i := IndexOf(s[..z], d);
    assert s[i] == s[..z][i];
    forall k | 0 <= k < i
      ensures s[k] != d
    {
      assert s[k] == s[..z][k];
    }
    IndexOfIsFirst(s, d, i);
  }

  /** Round trip: splitting a formatted object gives back its content and its
      type, whenever the type holds no space and no NUL. */
  lemma SplitFormatted(typ: bytes, content: bytes)
    requires SP !in typ && NUL !in typ
    ensures SplitObject(FormatGitObjectContent(typ, content)) == Success((content, typ))
  {
    var dec := Decimal(|content|);
    var full := FormatGitObjectContent(typ, content);
    var header := typ + [SP] + dec;
    DecimalHasNoSeparators(|content|);
    assert NUL !in header;
    assert full == header + [NUL] + content;
    IndexOfPrefix(header, NUL, content);
    assert full[..|header|] == header;
    assert full[|header| + 1..] == content;
    var parts := [typ, dec];
    assert JoinWith(parts, SP) == header by {
      assert JoinWith(parts[1..], SP) == dec;
    }
    SplitJoin(parts, SP);
  }

  // -----------------------------------------------------------------------
  // Object paths: CreateEmptyObjectFile and GetFileFromHash

  datatype PathError =
    | InvalidShaLength(length: nat)  // "invalid length of sha object"
    | InvalidObjectHash(hash: bytes) // "invalid object hash"

  /** `baseDir/.git/objects`, as `filepath.Join` writes it. */
  function ObjectsDir(baseDir: bytes): bytes {
    Join([baseDir, Str(".git"), Str("objects")])
  }

  /** The file `CreateEmptyObjectFile(baseDir, hash)` creates: it joins the
      fan-out directory first, then the file name inside it. */
  function CreateEmptyObjectFilePath(baseDir: bytes, hash: bytes): Result<bytes, PathError> {
    if |hash| != 40 then Failure(InvalidShaLength(|hash|))
    else
      var dir := Join([baseDir, Str(".git"), Str("objects"), hash[..2]]);
      Success(Join([dir, hash[2..]]))
  }

  /** The file `GetFileFromHash(baseDir, hash)` opens: one join of all parts. */
  function GetFileFromHashPath(baseDir: bytes, hash: bytes): Result<bytes, PathError> {
    if |hash| != 40 then Failure(InvalidObjectHash(hash))
    else Success(Join([baseDir, Str(".git"), Str("objects"), hash[..2], hash[2..]]))
  }

  /** Both functions reject every hash whose length is not 40, and otherwise
      name the same file, `baseDir/.git/objects/hash[0:2]/hash[2:]`. */
  lemma ObjectPathsAgree(baseDir: bytes, hash: bytes)
    ensures CreateEmptyObjectFilePath(baseDir, hash).Failure? <==> |hash| != 40
    ensures GetFileFromHashPath(baseDir, hash).Failure? <==> |hash| != 40
    ensures |hash| == 40 ==>
              && CreateEmptyObjectFilePath(baseDir, hash)
                 == Success(ObjectsDir(baseDir) + [SLASH] + hash[..2] + [SLASH] + hash[2..])
              && GetFileFromHashPath(baseDir, hash) == CreateEmptyObjectFilePath(baseDir, hash)
  {
    if |hash| == 40 {
      var segs := [baseDir, Str(".git"), Str("objects")];
      var h2, rest := hash[..2], hash[2..];
      GitKept(baseDir);
      JoinAppend(segs, h2);
      assert segs + [h2] == [baseDir, Str(".git"), Str("objects"), h2];
      var dir := Join(segs + [h2]);
      KeptWithGit(segs + [h2], baseDir);
      JoinAppend(segs + [h2], rest);
      assert segs + [h2] + [rest] == [baseDir, Str(".git"), Str("objects"), h2, rest];
      JoinTwo(dir, rest);
    }
  }

  /** `filepath.Join(".", ".git", "objects")` and `filepath.Join("", ".git",
      "objects")` are both ".git/objects". */
  lemma ObjectsDirOfDot()
    ensures ObjectsDir(Str(".")) == Str(".git/objects")
    ensures ObjectsDir([]) == Str(".git/objects")
  {
    var dot := [Str("."), Str(".git"), Str("objects")];
    var none := [[], Str(".git"), Str("objects")];
    assert dot[..2] == [Str("."), Str(".git")] && dot[..1] == [Str(".")];
    assert none[..2] == [[], Str(".git")] && none[..1] == [[]];
    assert Kept(dot[..1]) == [] && Kept(none[..1]) == [];
    assert Kept(dot) == [Str(".git"), Str("objects")];
    assert Kept(none) == [Str(".git"), Str("objects")];
    assert JoinWith([Str(".git"), Str("objects")], SLASH) == Str(".git") + [SLASH] + Str("objects");
  }

  /** ".git" survives `Kept`. */
  lemma GitKept(baseDir: bytes)
    ensures Kept([baseDir, Str(".git"), Str("objects")]) != []
  {
    var segs := [baseDir, Str(".git"), Str("objects")];
    assert !Dropped(Str("objects"));
    assert segs[..2] + [segs[2]] == segs;
  }

  lemma KeptWithGit(segs: seq<bytes>, baseDir: bytes)
    requires |segs| == 4 && segs[..3] == [baseDir, Str(".git"), Str("objects")] && !Dropped(segs[3])
    ensures Kept(segs) != []
  {
  }

  /** Joining two segments that are kept puts one slash between them. */
  lemma JoinTwo(a: bytes, b: bytes)
    requires |a| >= 2 && |b| >= 2
    ensures Join([a, b]) == a + [SLASH] + b
  {
    assert !Dropped(a) && !Dropped(b);
    assert [a, b][..1] == [a];
    assert [a][..0] == [];
    assert Kept([a]) == [a];
    assert Kept([a, b]) == [a, b];
    assert [a, b][1..] == [b];
    assert JoinWith([a, b], SLASH) == a + [SLASH] + JoinWith([b], SLASH);
  }
}
