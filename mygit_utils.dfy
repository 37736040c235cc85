/**
 * The helpers of cmd/mygit/utils.go: the sticky-error writer `errWriter`,
 * the object path of `GetFileFromHash`, `GetIntFromBigIndian` and
 * `modeFromGit`. The writer the `errWriter` wraps is outside the model: what
 * its `Write` returns is a parameter of each call.
 */
module MygitUtils {
  import opened Wrappers
  import opened GoLib
  import CloneHelper
  import CommonFile
  import MygitInternals

  // -----------------------------------------------------------------------
  // errWriter

  /** The error an `errWriter` keeps. */
  datatype WriteFailure =
    | WriterError(msg: bytes)          // the error of the wrapped writer
    | ShortWrite(want: nat, wrote: nat) // "to be written: %d, wrote %d"

  /** What one call of the wrapped writer's `Write` returned: the count of
      bytes it took, at most the length of the buffer as `io.Writer`
      promises, and its error. */
  datatype Call = Call(buf: bytes, n: nat, werr: Option<bytes>)

  predicate InRange(c: Call) {
    c.n <= |c.buf|
  }

  /** The bytes the wrapped writer has taken and the kept error. */
  datatype WriterState = WriterState(out: bytes, err: Option<WriteFailure>)

  /** The wrapped writer's error, as the `errWriter` keeps it. */
  function KeptError(werr: Option<bytes>): Option<WriteFailure> {
    if werr.Some? then Some(WriterError(werr.value)) else None
  }

  /** One `write`: nothing once an error is kept; otherwise the writer takes
      its bytes and its error replaces the kept one. */
  function Step(s: WriterState, c: Call): WriterState
    requires InRange(c)
  {
    if s.err.Some? then s else WriterState(s.out + c.buf[..c.n], KeptError(c.werr))
  }

  /** A sequence of writes. */
  function Steps(s: WriterState, cs: seq<Call>): WriterState
    requires forall k :: 0 <= k < |cs| ==> InRange(cs[k])
    decreases |cs|
  {
    if cs == [] then s else Steps(Step(s, cs[0]), cs[1..])
  }

  /** `errWriter`. */
  class ErrWriter {
    /** What the wrapped writer has taken. */
    var out: bytes
    var err: Option<WriteFailure>

    constructor ()
      ensures out == [] && err == None
    {
      out := [];
      err := None;
    }

    /** `ew.write(buf)`, the wrapped writer answering `(n, werr)`. */
    method Write(buf: bytes, n: nat, werr: Option<bytes>)
      requires n <= |buf|
      modifies this
      ensures WriterState(out, err) == Step(old(WriterState(out, err)), Call(buf, n, werr))
      ensures old(err).Some? ==> out == old(out) && err == old(err)
    {
      if err.Some? {
        return;
      }
      out := out + buf[..n];
      if |buf| != n {
        err := Some(ShortWrite(|buf|, n));
      }
      err := KeptError(werr);
    }
  }

  /** Once an error is kept, no later write reaches the wrapped writer and
      the error stays. */
  lemma {:induction false} StepsSticky(s: WriterState, cs: seq<Call>)
    requires s.err.Some?
    requires forall k :: 0 <= k < |cs| ==> InRange(cs[k])
    ensures Steps(s, cs) == s
    decreases |cs|
  {
    if cs != [] {
      StepsSticky(Step(s, cs[0]), cs[1..]);
    }
  }

  /** The bytes each call took, in order. */
  function Taken(cs: seq<Call>): bytes
    requires forall k :: 0 <= k < |cs| ==> InRange(cs[k])
    decreases |cs|
  {
    if cs == [] then []
    else
      assert InRange(cs[0]);
      cs[0].buf[..cs[0].n] + Taken(cs[1..])
  }

  /** From a clean writer, no error is kept exactly when the wrapped writer
      never returned one, and then the output is everything it took. */
  lemma {:induction false} StepsKeepWriterErrors(out: bytes, cs: seq<Call>)
    requires forall k :: 0 <= k < |cs| ==> InRange(cs[k])
    ensures Steps(WriterState(out, None), cs).err.None? <==> forall k :: 0 <= k < |cs| ==> cs[k].werr.None?
    ensures Steps(WriterState(out, None), cs).err.None? ==> Steps(WriterState(out, None), cs).out == out + Taken(cs)
    decreases |cs|
  {
    if cs != [] {
      var next := Step(WriterState(out, None), cs[0]);
      if cs[0].werr.Some? {
        StepsSticky(next, cs[1..]);
      } else {
        StepsKeepWriterErrors(out + cs[0].buf[..cs[0].n], cs[1..]);
        assert forall k :: 1 <= k < |cs| ==> cs[k] == cs[1..][k - 1];
      }
    }
  }

  /** As written, a short write with no error from the wrapped writer
      leaves no error: the short-write error is overwritten at once. */
  lemma ShortWriteForgotten()
    ensures Step(WriterState([], None), Call([1], 0, None)) == WriterState([], None)
  {
  }

  /** `write` as its comment intends it: a short write is an error too. */
  function StepCorrected(s: WriterState, c: Call): WriterState
    requires InRange(c)
  {
    if s.err.Some? then s
    else if c.werr.Some? then WriterState(s.out + c.buf[..c.n], KeptError(c.werr))
    else if c.n != |c.buf| then WriterState(s.out + c.buf[..c.n], Some(ShortWrite(|c.buf|, c.n)))
    else WriterState(s.out + c.buf, None)
  }

  function StepsCorrected(s: WriterState, cs: seq<Call>): WriterState
    requires forall k :: 0 <= k < |cs| ==> InRange(cs[k])
    decreases |cs|
  {
    if cs == [] then s else StepsCorrected(StepCorrected(s, cs[0]), cs[1..])
  }

  /** The buffers of the calls, in order. */
  function Buffers(cs: seq<Call>): bytes
    decreases |cs|
  {
    if cs == [] then [] else cs[0].buf + Buffers(cs[1..])
  }

  /** With the correction, no error is kept exactly when every buffer was
      written whole without an error, and then the output holds every buffer. */
  lemma {:induction false} CorrectedStepsComplete(out: bytes, cs: seq<Call>)
    requires forall k :: 0 <= k < |cs| ==> InRange(cs[k])
    ensures StepsCorrected(WriterState(out, None), cs).err.None?
            <==> forall k :: 0 <= k < |cs| ==> cs[k].werr.None? && cs[k].n == |cs[k].buf|
    ensures StepsCorrected(WriterState(out, None), cs).err.None? ==>
              StepsCorrected(WriterState(out, None), cs).out == out + Buffers(cs)
    decreases |cs|
  {
    if cs != [] {
      var next := StepCorrected(WriterState(out, None), cs[0]);
      if next.err.Some? {
        CorrectedSticky(next, cs[1..]);
      } else {
        CorrectedStepsComplete(out + cs[0].buf, cs[1..]);
        assert forall k :: 1 <= k < |cs| ==> cs[k] == cs[1..][k - 1];
      }
    }
  }

  lemma {:induction false} CorrectedSticky(s: WriterState, cs: seq<Call>)
    requires s.err.Some?
    requires forall k :: 0 <= k < |cs| ==> InRange(cs[k])
    ensures StepsCorrected(s, cs) == s
    decreases |cs|
  {
    if cs != [] {
      CorrectedSticky(StepCorrected(s, cs[0]), cs[1..]);
    }
  }

  // -----------------------------------------------------------------------
  // GetFileFromHash

  /** The file `GetFileFromHash(objHash)` opens: `.git/objects` joined with
      the first two characters and the rest. */
  function GetFileFromHashPath(objHash: bytes): Result<bytes, CommonFile.PathError> {
    if |objHash| != 40 then Failure(CommonFile.InvalidObjectHash(objHash))
    else Success(Join([Str(".git/objects"), objHash[..2], objHash[2..]]))
  }

  /** It rejects every hash whose length is not 40, and otherwise names
      `.git/objects/hash[0:2]/hash[2:]`, the file the cmd/common version
      finds from the directory ".". */
  lemma GetFileFromHashPathMeaning(objHash: bytes)
    ensures GetFileFromHashPath(objHash).Failure? <==> |objHash| != 40
    ensures |objHash| == 40 ==>
              && GetFileFromHashPath(objHash) == Success(Str(".git/objects") + [SLASH] + objHash[..2] + [SLASH] + objHash[2..])
              && GetFileFromHashPath(objHash) == CommonFile.GetFileFromHashPath(Str("."), objHash)
  {
    if |objHash| == 40 {
      var a, h2, rest := Str(".git/objects"), objHash[..2], objHash[2..];
      var segs := [a, h2, rest];
      var none: seq<bytes> := [];
      assert segs[..2] == [a, h2] && segs[..2][..1] == [a] && [a][..0] == none;
      assert Kept([a]) == [a];
      assert Kept(segs) == segs;
      assert JoinWith(segs, SLASH) == a + [SLASH] + JoinWith([h2, rest], SLASH);
      assert segs[1..] == [h2, rest] && [h2, rest][1..] == [rest];
      assert JoinWith([h2, rest], SLASH) == h2 + [SLASH] + rest;
      assert Join(segs) == JoinWith(segs, SLASH);
      assert Join(segs) == a + [SLASH] + h2 + [SLASH] + rest;
      CommonFile.ObjectPathsAgree(Str("."), objHash);
      CommonFile.ObjectsDirOfDot();
    }
  }

  /** The file both cmd/mygit copies of `CreateEmptyObjectFile` create,
      relative to ".", is the one `GetFileFromHash` opens for the same sha. */
  lemma CreatedFileIsOpened(sha: bytes, mkdir: MygitInternals.MkdirOutcome)
    ensures MygitInternals.CreateEmptyObjectFile(sha, mkdir).Success? ==>
              && GetFileFromHashPath(sha).Success?
              && MygitInternals.CreateEmptyObjectFile(sha, mkdir).value == Str("./") + GetFileFromHashPath(sha).value
  {
    if MygitInternals.CreateEmptyObjectFile(sha, mkdir).Success? {
      GetFileFromHashPathMeaning(sha);
      assert Str("./.git/objects/") == Str("./") + Str(".git/objects") + [SLASH];
    }
  }

  // -----------------------------------------------------------------------
  // Permissions of the fan-out directory

  /** `os.ModePerm`, the permission bits 0777. */
  const ModePerm: nat := 511

  /** A directory made with `mode` under `umask` lets its (non-root) owner
      create files in it: the owner's write and search bits are set in the
      mode and not masked out. */
  predicate OwnerMayCreate(mode: nat, umask: nat) {
    var owner := mode % 512 / 64;
    var masked := umask % 512 / 64;
    owner % 2 == 1 && owner / 2 % 2 == 1 && masked % 2 == 0 && masked / 2 % 2 == 0
  }

  /** Both cmd/mygit copies of `CreateEmptyObjectFile` pass
      `fs.FileMode(os.ModeDir)` to `os.Mkdir`: its permission bits are all
      zero, so under any umask the new fan-out directory denies its owner
      the `os.Create` that follows. */
  lemma MkdirModeDirDenies(umask: nat)
    ensures ModeDir % 512 == 0
    ensures !OwnerMayCreate(ModeDir, umask)
  {
  }

  /** cmd/common's copy passes `os.ModePerm`: under any umask that leaves the
      owner's write and search bits alone, the owner may create the file. */
  lemma MkdirModePermAllows(umask: nat)
    requires umask % 512 / 64 % 4 == 0
    ensures OwnerMayCreate(ModePerm, umask)
  {
    var masked := umask % 512 / 64;
    assert masked % 2 == 0 && masked / 2 % 2 == 0 by {
      assert masked == 4 * (masked / 4) + masked % 4;
    }
  }

  // -----------------------------------------------------------------------
  // GetIntFromBigIndian

  /** `GetIntFromBigIndian(b)`: the bytes shifted by 24, 16, 8 and 0 into a
      uint32; the shifted bytes do not overlap, so the OR is their sum.
      It is `readBigEndian` of cmd/clone/helper.go. */
  function GetIntFromBigIndian(b: bytes): (r: nat)
    requires |b| == 4
    ensures r == CloneHelper.ReadBigEndian(b)
    ensures r < 0x1_0000_0000
  {
    b[0] as nat * 0x100_0000 + b[1] as nat * 0x1_0000 + b[2] as nat * 0x100 + b[3]
  }

  // -----------------------------------------------------------------------
  // modeFromGit

  /** `os.ModeDir`, the top bit of a 32-bit `os.FileMode`. */
  const ModeDir: nat := 0x8000_0000
  /** The permissions 0644 and 0755. */
  const Perm644: nat := 420
  const Perm755: nat := 493

  /** `modeFromGit(gitMode)`. */
  function ModeFromGit(gitMode: bytes): (r: nat)
    ensures r == Perm644 || r == Perm755 || r == ModeDir + Perm755
  {
    if gitMode == Str("100644") then Perm644
    else if gitMode == Str("100755") then Perm755
    else if gitMode == Str("40000") then ModeDir + Perm755
    else Perm644
  }

  /** The tree modes git writes for a file, an executable and a directory. */
  function GitModeOf(mode: nat): bytes {
    if mode == Perm755 then Str("100755")
    else if mode == ModeDir + Perm755 then Str("40000")
    else Str("100644")
  }

  /** The three modes read back from what git writes for them, and every
      other string reads as a plain file. */
  lemma ModeRoundTrip(mode: nat, s: bytes)
    requires mode == Perm644 || mode == Perm755 || mode == ModeDir + Perm755
    ensures ModeFromGit(GitModeOf(mode)) == mode
    ensures s != Str("100644") && s != Str("100755") && s != Str("40000") ==> ModeFromGit(s) == Perm644
  {
    assert Str("100644")[4] != Str("100755")[4];
    assert |Str("40000")| != |Str("100644")|;
  }
}
