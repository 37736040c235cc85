/**
 * Storing the objects of a cloned pack (cmd/clone/clone.go, `WriteObjects`,
 * `writeSingleObject`, `writeDeltaObject`). The object directory is a map
 * from file path to the uncompressed bytes of the object file, and the hex
 * SHA-1 of a byte string is a function the store is given: zlib, the hash
 * itself and the file system are not part of this model.
 */
module CloneWrite {
  import opened Wrappers
  import opened GoLib
  import opened CloneObjects
  import opened CommonFile
  import CloneDelta

  /** Why storing one object failed. */
  datatype StepError =
    | PathFailed(path: PathError)           // the id has the wrong length
    | NoSuchObject(hash: bytes)             // "no such object": the base is not stored
    | ReadFailed(read: ObjectError)         // "read base object"
    | DeltaFailed(delta: CloneDelta.DeltaError) // "apply delta"
    | InvalidBaseType(name: bytes)          // "invalid base type"

  /** Why `WriteObjects` failed: the pass, the index within it, the cause. */
  datatype WriteError =
    | Pass1(index: nat, cause: StepError)
    | Pass2(index: nat, cause: StepError)

  /** The state of the object directory after a run, and its result. */
  datatype Run = Run(files: map<bytes, bytes>, outcome: Outcome<WriteError>)

  /** The object file of `obj`: its kind's name as the header type. */
  function ObjectFile(obj: GitObject): bytes {
    FormatGitObjectContent(TypeName(obj.objectType), obj.content)
  }

  /** Where an object file is stored: `writeSingleObject` passes the empty
      base directory to `CreateEmptyObjectFile`. */
  function WritePath(hash: bytes): Result<bytes, PathError> {
    CreateEmptyObjectFilePath([], hash)
  }

  /** Where `writeDeltaObject` looks for a base: the directory ".". */
  function ReadPath(hash: bytes): Result<bytes, PathError> {
    GetFileFromHashPath(Str("."), hash)
  }

  /** Every file is stored under the path of its own hash. */
  ghost predicate Addressed(files: map<bytes, bytes>, sha: bytes -> bytes) {
    forall p :: p in files ==> WritePath(sha(files[p])) == Success(p)
  }

  // -----------------------------------------------------------------------
  // One object

  /** `writeSingleObject`: the object file stored under the path of its hash. */
  function StoreSingle(files: map<bytes, bytes>, sha: bytes -> bytes, obj: GitObject): (r: Result<map<bytes, bytes>, StepError>)
    ensures r.Failure? <==> |sha(ObjectFile(obj))| != 40
    ensures r.Success? ==> files.Keys <= r.value.Keys
  {
    var full := ObjectFile(obj);
    match WritePath(sha(full))
    case Failure(e) => Failure(PathFailed(e))
    case Success(path) => Success(files[path := full])
  }

  /** `writeDeltaObject`: find and split the base, apply the delta, and store
      the result under the base's kind. */
  function StoreDelta(files: map<bytes, bytes>, sha: bytes -> bytes, obj: GitObject): Result<map<bytes, bytes>, StepError> {
    match ReadPath(obj.base)
    case Failure(e) => Failure(PathFailed(e))
    case Success(path) =>
      if path !in files then Failure(NoSuchObject(obj.base))
      else match SplitObject(files[path])
        case Failure(e) => Failure(ReadFailed(e))
        case Success((baseContent, baseType)) =>
          match CloneDelta.ApplyDeltaSpec(baseContent, obj.content)
          case Failure(e) => Failure(DeltaFailed(e))
          case Success(resolved) =>
            var objType := TypeFromName(baseType);
            if objType == Invalid then Failure(InvalidBaseType(baseType))
            else StoreSingle(files, sha, GitObject(objType, 0, resolved, []))
  }

  // -----------------------------------------------------------------------
  // The two passes

  /** The REF_DELTA objects of `objs`, in order. */
  function Deltas(objs: seq<GitObject>): (r: seq<GitObject>)
    ensures |r| <= |objs|
    ensures forall k :: 0 <= k < |r| ==> r[k].objectType == RefDelta && r[k] in objs
    ensures forall k :: 0 <= k < |objs| && objs[k].objectType == RefDelta ==> objs[k] in r
  {
    if objs == [] then []
    else
      var last := objs[|objs| - 1];
      var init := objs[..|objs| - 1];
      assert forall k :: 0 <= k < |init| ==> init[k] == objs[k];
      Deltas(init) + (if last.objectType == RefDelta then [last] else [])
  }

  /** Pass 1 from object `i` on: every object that is not a REF_DELTA is
      stored, in order; the first failure ends the run. */
  function FirstPass(files: map<bytes, bytes>, sha: bytes -> bytes, objs: seq<GitObject>, i: nat): Run
    decreases |objs| - i
  {
    if i >= |objs| then Run(files, Pass)
    else if objs[i].objectType == RefDelta then FirstPass(files, sha, objs, i + 1)
    else match StoreSingle(files, sha, objs[i])
      case Failure(e) => Run(files, Fail(Pass1(i, e)))
      case Success(next) => FirstPass(next, sha, objs, i + 1)
  }

  /** Pass 2 from delta `i` on: each REF_DELTA is resolved against the store. */
  function SecondPass(files: map<bytes, bytes>, sha: bytes -> bytes, deltas: seq<GitObject>, i: nat): Run
    decreases |deltas| - i
  {
    if i >= |deltas| then Run(files, Pass)
    else match StoreDelta(files, sha, deltas[i])
      case Failure(e) => Run(files, Fail(Pass2(i, e)))
      case Success(next) => SecondPass(next, sha, deltas, i + 1)
  }

  /** `WriteObjects(dir, objects)`: pass 1, then, if it succeeded, pass 2
      over the REF_DELTA objects. */
  function WriteAll(files: map<bytes, bytes>, sha: bytes -> bytes, objs: seq<GitObject>): Run {
    var first := FirstPass(files, sha, objs, 0);
    if first.outcome.Fail? then first else SecondPass(first.files, sha, Deltas(objs), 0)
  }

  // -----------------------------------------------------------------------
  // The store

  /** The object directory of a clone. */
  class ObjectStore {
    /** Path to uncompressed object file. */
    var files: map<bytes, bytes>
    /** The hex SHA-1 of a byte string (`common.CalculateEncodedSHA`). */
    const sha: bytes -> bytes

    constructor (sha: bytes -> bytes)
      ensures this.sha == sha && files == map[]
    {
      this.sha := sha;
      files := map[];
    }

    /** `writeSingleObject(dir, obj)`. */
    method WriteSingleObject(obj: GitObject) returns (err: Outcome<StepError>)
      modifies this
      ensures StoreSingle(old(files), sha, obj).Success? ==> err == Pass && files == StoreSingle(old(files), sha, obj).value
      ensures StoreSingle(old(files), sha, obj).Failure? ==> err == Fail(StoreSingle(old(files), sha, obj).error) && files == old(files)
    {
      var fullContent := FormatGitObjectContent(TypeName(obj.objectType), obj.content);
      var hash := sha(fullContent);
      var file := WritePath(hash);
      if file.Failure? {
        return Fail(PathFailed(file.error));
      }
      files := files[file.value := fullContent];
      return Pass;
    }

    /** `writeDeltaObject(dir, obj)`. */
    method WriteDeltaObject(obj: GitObject) returns (err: Outcome<StepError>)
      modifies this
      ensures StoreDelta(old(files), sha, obj).Success? ==> err == Pass && files == StoreDelta(old(files), sha, obj).value
      ensures StoreDelta(old(files), sha, obj).Failure? ==> err == Fail(StoreDelta(old(files), sha, obj).error) && files == old(files)
    {
      var file := ReadPath(obj.base);
      if file.Failure? {
        return Fail(PathFailed(file.error));
      }
      if file.value !in files {
        return Fail(NoSuchObject(obj.base));
      }
      var read := ReadObjectFile(files[file.value]);
      if read.Failure? {
        return Fail(ReadFailed(read.error));
      }
      var (baseContent, baseTypeStr) := read.value;
      var resolved := CloneDelta.ApplyDelta(baseContent, obj.content);
      if resolved.Failure? {
        return Fail(DeltaFailed(resolved.error));
      }
      var objType := TypeFromName(baseTypeStr);
      if objType == Invalid {
        return Fail(InvalidBaseType(baseTypeStr));
      }
      err := WriteSingleObject(GitObject(objType, 0, resolved.value, []));
    }

    /** `WriteObjects(dir, objects)`: pass 1 stores the objects that are not
        REF_DELTA and collects the others; pass 2 resolves those. */
    method WriteObjects(objects: seq<GitObject>) returns (err: Outcome<WriteError>)
      modifies this
      ensures Run(files, err) == WriteAll(old(files), sha, objects)
    {
      ghost var first := FirstPass(files, sha, objects, 0);
      var deltas: seq<GitObject> := [];
      for i := 0 to |objects|
        invariant FirstPass(files, sha, objects, i) == first
        invariant deltas == Deltas(objects[..i])
      {
        assert objects[..i + 1][..i] == objects[..i];
        if objects[i].objectType == RefDelta {
          deltas := deltas + [objects[i]];
          continue;
        }
        var e := WriteSingleObject(objects[i]);
        if e.Fail? {
          return Fail(Pass1(i, e.error));
        }
      }
      assert objects[..|objects|] == objects;
      ghost var second := SecondPass(files, sha, deltas, 0);
      for i := 0 to |deltas|
        invariant SecondPass(files, sha, deltas, i) == second
      {
        var e := WriteDeltaObject(deltas[i]);
        if e.Fail? {
          return Fail(Pass2(i, e.error));
        }
      }
      return Pass;
    }
  }

  // -----------------------------------------------------------------------
  // Properties

  /** The kind names hold no space and no NUL, so they survive the header. */
  lemma TypeNameSeparators(o: GitObjectType)
    ensures SP !in TypeName(o) && NUL !in TypeName(o)
  {
    if o == Tree {
      StrAboveSpace("tree");
    } else if o == Blob {
      StrAboveSpace("blob");
    } else if o == Commit {
      StrAboveSpace("commit");
    } else if o == Tag {
      StrAboveSpace("tag");
    } else if o == OfsDelta {
      StrAboveSpace("ofsdelta");
    } else if o == RefDelta {
      StrAboveSpace("refdelta");
    } else {
      DecimalHasNoSeparators(o);
      StrAboveSpace("invalid(");
      StrAboveSpace("))");
      assert TypeName(o) == Str("invalid(") + Decimal(o) + Str("))");
    }
  }

  /** A literal of characters above the space holds no space and no NUL. */
  lemma StrAboveSpace(s: string)
    requires forall k :: 0 <= k < |s| ==> ' ' < s[k] < 128 as char
    ensures SP !in Str(s) && NUL !in Str(s)
  {
    var r := Str(s);
    assert forall k :: 0 <= k < |r| ==> r[k] == s[k] as int;
  }

  /** A base is looked up where it was written: "." and "" name the same
      directory, so both paths are `.git/objects/hash[0:2]/hash[2:]`. */
  lemma ReadPathIsWritePath(hash: bytes)
    ensures ReadPath(hash).Failure? <==> |hash| != 40
    ensures |hash| == 40 ==> ReadPath(hash) == WritePath(hash)
  {
    ObjectPathsAgree([], hash);
    ObjectPathsAgree(Str("."), hash);
    ObjectsDirOfDot();
  }

  /** Round trip: an object just stored is found under the path of its hash,
      and its file splits back into its content and its kind's name (so an
      OFS_DELTA is stored raw, as "ofsdelta"). No other file changes. */
  lemma StoreSingleReadsBack(files: map<bytes, bytes>, sha: bytes -> bytes, obj: GitObject)
    requires StoreSingle(files, sha, obj).Success?
    ensures var f := StoreSingle(files, sha, obj).value;
            var p := WritePath(sha(ObjectFile(obj))).value;
            && WritePath(sha(ObjectFile(obj))).Success?
            && p in f
            && SplitObject(f[p]) == Success((obj.content, TypeName(obj.objectType)))
            && forall q :: q in files && q != p ==> q in f && f[q] == files[q]
  {
    TypeNameSeparators(obj.objectType);
    SplitFormatted(TypeName(obj.objectType), obj.content);
  }

  /** A resolved delta: its base was stored under the path of `obj.base`,
      the base's file split into content and a kind name that
      `StringToObjectType` knows, the delta applied to that content, and the
      result is stored under the base's kind, reading back as the result. */
  lemma StoreDeltaReadsBack(files: map<bytes, bytes>, sha: bytes -> bytes, obj: GitObject)
    requires StoreDelta(files, sha, obj).Success?
    ensures var p := ReadPath(obj.base).value;
            && |obj.base| == 40 && p in files
            && SplitObject(files[p]).Success?
            && var (baseContent, baseType) := SplitObject(files[p]).value;
               && CloneDelta.ApplyDeltaSpec(baseContent, obj.content).Success?
               && var resolved := CloneDelta.ApplyDeltaSpec(baseContent, obj.content).value;
                  && IsNamed(TypeFromName(baseType))
                  && var q := WritePath(sha(FormatGitObjectContent(baseType, resolved))).value;
                     var f := StoreDelta(files, sha, obj).value;
                     && q in f && SplitObject(f[q]) == Success((resolved, baseType))
  {
    ReadPathIsWritePath(obj.base);
    var p := ReadPath(obj.base).value;
    var (baseContent, baseType) := SplitObject(files[p]).value;
    var resolved := CloneDelta.ApplyDeltaSpec(baseContent, obj.content).value;
    var t := TypeFromName(baseType);
    TypeFromNameOnlyNames(baseType);
    StoreSingleReadsBack(files, sha, GitObject(t, 0, resolved, []));
  }

  /** A base whose type name `StringToObjectType` does not know aborts the
      delta, and nothing is written. */
  lemma InvalidBaseTypeAborts(files: map<bytes, bytes>, sha: bytes -> bytes, obj: GitObject)
    requires ReadPath(obj.base).Success? && ReadPath(obj.base).value in files
    requires var file := files[ReadPath(obj.base).value];
             && SplitObject(file).Success?
             && CloneDelta.ApplyDeltaSpec(SplitObject(file).value.0, obj.content).Success?
    requires forall o: GitObjectType :: IsNamed(o) ==> SplitObject(files[ReadPath(obj.base).value]).value.1 != TypeName(o)
    ensures StoreDelta(files, sha, obj) == Failure(InvalidBaseType(SplitObject(files[ReadPath(obj.base).value]).value.1))
  {
    TypeFromNameOnlyNames(SplitObject(files[ReadPath(obj.base).value]).value.1);
  }

  /** Storing one object keeps the store content-addressed. */
  lemma StoreSingleKeepsAddressed(files: map<bytes, bytes>, sha: bytes -> bytes, obj: GitObject)
    requires Addressed(files, sha) && StoreSingle(files, sha, obj).Success?
    ensures Addressed(StoreSingle(files, sha, obj).value, sha)
  {
  }

  lemma StoreDeltaKeepsAddressed(files: map<bytes, bytes>, sha: bytes -> bytes, obj: GitObject)
    requires Addressed(files, sha) && StoreDelta(files, sha, obj).Success?
    ensures Addressed(StoreDelta(files, sha, obj).value, sha)
    ensures files.Keys <= StoreDelta(files, sha, obj).value.Keys
  {
    var p := ReadPath(obj.base).value;
    var (baseContent, baseType) := SplitObject(files[p]).value;
    var resolved := CloneDelta.ApplyDeltaSpec(baseContent, obj.content).value;
    StoreSingleKeepsAddressed(files, sha, GitObject(TypeFromName(baseType), 0, resolved, []));
  }

  /** Pass 1 only adds files. */
  lemma {:induction false} FirstPassGrows(files: map<bytes, bytes>, sha: bytes -> bytes, objs: seq<GitObject>, i: nat)
    ensures files.Keys <= FirstPass(files, sha, objs, i).files.Keys
    decreases |objs| - i
  {
    if i < |objs| {
      if objs[i].objectType == RefDelta {
        FirstPassGrows(files, sha, objs, i + 1);
      } else {
        var step := StoreSingle(files, sha, objs[i]);
        if step.Success? {
          FirstPassGrows(step.value, sha, objs, i + 1);
        }
      }
    }
  }

  /** Pass 1 keeps the store content-addressed. */
  lemma {:induction false} FirstPassKeepsAddressed(files: map<bytes, bytes>, sha: bytes -> bytes, objs: seq<GitObject>, i: nat)
    requires Addressed(files, sha)
    ensures Addressed(FirstPass(files, sha, objs, i).files, sha)
    decreases |objs| - i
  {
    if i < |objs| {
      if objs[i].objectType == RefDelta {
        FirstPassKeepsAddressed(files, sha, objs, i + 1);
      } else {
        var step := StoreSingle(files, sha, objs[i]);
        if step.Success? {
          StoreSingleKeepsAddressed(files, sha, objs[i]);
          FirstPassKeepsAddressed(step.value, sha, objs, i + 1);
        }
      }
    }
  }

  /** `obj` has a file under the path of its hash. */
  ghost predicate Stored(files: map<bytes, bytes>, sha: bytes -> bytes, obj: GitObject) {
    WritePath(sha(ObjectFile(obj))).Success? && WritePath(sha(ObjectFile(obj))).value in files
  }

  lemma StoredStays(files: map<bytes, bytes>, later: map<bytes, bytes>, sha: bytes -> bytes, obj: GitObject)
    requires Stored(files, sha, obj) && files.Keys <= later.Keys
    ensures Stored(later, sha, obj)
  {
  }

  /** When pass 1 succeeds, every object from `i` on that is not a
      REF_DELTA (OFS_DELTA included) has a file under the path of its hash. */
  lemma {:induction false} FirstPassWrites(files: map<bytes, bytes>, sha: bytes -> bytes, objs: seq<GitObject>, i: nat)
    ensures var r := FirstPass(files, sha, objs, i);
            r.outcome.Pass? ==>
              forall k :: i <= k < |objs| && objs[k].objectType != RefDelta ==> Stored(r.files, sha, objs[k])
    decreases |objs| - i
  {
    if i < |objs| {
      if objs[i].objectType == RefDelta {
        FirstPassWrites(files, sha, objs, i + 1);
      } else {
        var step := StoreSingle(files, sha, objs[i]);
        if step.Success? {
          var r := FirstPass(step.value, sha, objs, i + 1);
          assert FirstPass(files, sha, objs, i) == r;
          StoreSingleReadsBack(files, sha, objs[i]);
          assert Stored(step.value, sha, objs[i]);
          FirstPassGrows(step.value, sha, objs, i + 1);
          StoredStays(step.value, r.files, sha, objs[i]);
          FirstPassWrites(step.value, sha, objs, i + 1);
        }
      }
    }
  }

  /** Pass 2 only adds files and keeps the store content-addressed. */
  lemma {:induction false} SecondPassKeeps(files: map<bytes, bytes>, sha: bytes -> bytes, deltas: seq<GitObject>, i: nat)
    requires Addressed(files, sha)
    ensures var r := SecondPass(files, sha, deltas, i);
            Addressed(r.files, sha) && files.Keys <= r.files.Keys
    decreases |deltas| - i
  {
    if i < |deltas| && StoreDelta(files, sha, deltas[i]).Success? {
      StoreDeltaKeepsAddressed(files, sha, deltas[i]);
      SecondPassKeeps(StoreDelta(files, sha, deltas[i]).value, sha, deltas, i + 1);
    }
  }

  /** `WriteObjects` never removes a file and keeps the store
      content-addressed; when it succeeds, every object that is not a
      REF_DELTA is in the store. */
  lemma WriteAllKeeps(files: map<bytes, bytes>, sha: bytes -> bytes, objs: seq<GitObject>)
    requires Addressed(files, sha)
    ensures var r := WriteAll(files, sha, objs);
            && Addressed(r.files, sha) && files.Keys <= r.files.Keys
            && (r.outcome.Pass? ==>
                  forall k :: 0 <= k < |objs| && objs[k].objectType != RefDelta ==>
                    Stored(r.files, sha, objs[k]))
  {
    var first := FirstPass(files, sha, objs, 0);
    FirstPassGrows(files, sha, objs, 0);
    FirstPassKeepsAddressed(files, sha, objs, 0);
    FirstPassWrites(files, sha, objs, 0);
    if first.outcome.Pass? {
      SecondPassKeeps(first.files, sha, Deltas(objs), 0);
    }
  }

  /** The first failure of pass 1 is at an object that is not a REF_DELTA,
      whose store failed; pass 2 never runs then. */
  lemma {:induction false} FirstPassFailure(files: map<bytes, bytes>, sha: bytes -> bytes, objs: seq<GitObject>, i: nat)
    requires FirstPass(files, sha, objs, i).outcome.Fail?
    ensures var r := FirstPass(files, sha, objs, i);
            && r.outcome.error.Pass1?
            && var j := r.outcome.error.index;
               && i <= j < |objs| && objs[j].objectType != RefDelta
               && StoreSingle(r.files, sha, objs[j]) == Failure(r.outcome.error.cause)
    decreases |objs| - i
  {
    if i < |objs| {
      if objs[i].objectType == RefDelta {
        FirstPassFailure(files, sha, objs, i + 1);
      } else {
        var step := StoreSingle(files, sha, objs[i]);
        if step.Success? {
          FirstPassFailure(step.value, sha, objs, i + 1);
        }
      }
    }
  }
}
