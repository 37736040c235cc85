/**
 * The object helpers of cmd/mygit/main.go, used by `hash-object -w`:
 * `createContentWithInfo`, a third copy of the loose-object format, and
 * `createEmptyObjectFile`, which makes the fan-out directory with
 * `os.Mkdir`. The result of `os.Mkdir` is a parameter; the file system is
 * not part of this model.
 */
module MygitMain {
  import opened Wrappers
  import opened GoLib
  import CommonFile
  import MygitInternals

  /** `createContentWithInfo(typ, content)`: appends the type, a space, the
      decimal length, a NUL and the content. It builds the same bytes as
      `FormatGitObjectContent` of cmd/common/file.go. */
  method CreateContentWithInfo(typ: bytes, content: bytes) returns (result: bytes)
    ensures result == CommonFile.FormatGitObjectContent(typ, content)
  {
    result := [];
    result := result + typ;
    result := result + [SP];
    result := result + Decimal(|content|);
    result := result + [NUL];
    result := result + content;
  }

  /** `createEmptyObjectFile(sha)`: rejects a sha whose length is not 40,
      then makes `./.git/objects/sha[0:2]` with `os.Mkdir`, failing on any
      error, even when the directory already exists, and creates
      `./.git/objects/sha[0:2]/sha[2:]`. */
  function CreateEmptyObjectFile(sha: bytes, mkdir: MygitInternals.MkdirOutcome): (r: Result<bytes, MygitInternals.CreateError>)
    ensures r.Failure? <==> |sha| != 40 || mkdir != MygitInternals.Created
  {
    if |sha| != 40 then Failure(MygitInternals.InvalidShaLength(|sha|))
    else if mkdir != MygitInternals.Created then Failure(MygitInternals.MkdirError)
    else Success(Str("./.git/objects/") + sha[..2] + Str("/") + sha[2..])
  }

  /** The path is the one the cmd/mygit/internals.go copy creates, and that
      copy also tolerates an existing directory: it is the corrected form. */
  lemma CreateEmptyObjectFilePath(sha: bytes)
    requires |sha| == 40
    ensures CreateEmptyObjectFile(sha, MygitInternals.Created)
            == Success(Str("./.git/objects/") + sha[..2] + [SLASH] + sha[2..])
    ensures CreateEmptyObjectFile(sha, MygitInternals.Created)
            == MygitInternals.CreateEmptyObjectFile(sha, MygitInternals.AlreadyExists)
  {
    assert Str("/") == [SLASH];
  }

  /** As written, a second object whose id shares the first two characters
      with one already stored finds its directory there and fails. */
  lemma ExistingDirectoryRejected(sha: bytes)
    requires |sha| == 40
    ensures CreateEmptyObjectFile(sha, MygitInternals.AlreadyExists) == Failure(MygitInternals.MkdirError)
    ensures MygitInternals.CreateEmptyObjectFile(sha, MygitInternals.AlreadyExists).Success?
  {
  }
}
