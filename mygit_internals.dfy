/**
 * Tree objects of the `mygit` command (cmd/mygit/internals.go): the
 * serialiser `GitTrees.WriteTo`, which sorts the entries by name in place
 * and writes `mode SP name NUL sha` for each, and the parser
 * `ParseTreeObjectBody`. The file's copies of `FormatGitObjectContent`,
 * `numOfDigits` and the `ReadObjectFile` split are those of CommonFile;
 * its `CreateEmptyObjectFile` is the length and path check below.
 */
module MygitInternals {
  import opened Wrappers
  import opened GoLib

  /** A raw SHA-1: Go's `[20]byte`. */
  type RawSha = s: bytes | |s| == 20 witness seq(20, _ => 0)

  /** `GitTree`: `mode` is the `os.FileMode`, `gitMode` git's spelling of it. */
  datatype GitTree = GitTree(mode: nat, gitMode: bytes, name: bytes, sha: RawSha)

  // -----------------------------------------------------------------------
  // Sorting by name

  /** `a` may come before `b`: `b.Name < a.Name` does not hold. */
  predicate NameLeq(a: GitTree, b: GitTree) {
    !LexLess(b.name, a.name)
  }

  predicate SortedByName(s: seq<GitTree>) {
    forall j, k :: 0 <= j < k < |s| ==> NameLeq(s[j], s[k])
  }

  /** `sort.Slice(t, func(i, j) { t[i].Name < t[j].Name })`: the entries in
      ascending name order, a permutation of what was there. Entries with
      equal names may come in any order, as with `sort.Slice`, which is not
      stable. */
  method SortByName(t: array<GitTree>)
    modifies t
    ensures SortedByName(t[..])
    ensures multiset(t[..]) == multiset(old(t[..]))
  {
    var i := 0;
    while i < t.Length
      invariant 0 <= i <= t.Length
      invariant multiset(t[..]) == multiset(old(t[..]))
      invariant SortedPrefix(t[..], i)
    {
      var m := MinByName(t, i);
      ghost var before := t[..];
      t[i], t[m] := t[m], t[i];
      SwapKeepsOrder(before, i, m, t[..]);
      i := i + 1;
    }
  }

  /** The first `i` entries are in order and none of the rest precedes them. */
  predicate SortedPrefix(s: seq<GitTree>, i: nat) {
    && i <= |s|
    && (forall j, k :: 0 <= j < k < i ==> NameLeq(s[j], s[k]))
    && (forall j, k :: 0 <= j < i <= k < |s| ==> NameLeq(s[j], s[k]))
  }

  /** Swapping a least remaining entry to position `i` extends the sorted prefix. */
  lemma SwapKeepsOrder(s: seq<GitTree>, i: nat, m: nat, s': seq<GitTree>)
    requires i <= m < |s| && SortedPrefix(s, i)
    requires forall q :: i <= q < |s| ==> NameLeq(s[m], s[q])
    requires s' == s[i := s[m]][m := s[i]]
    ensures SortedPrefix(s', i + 1)
  {
    forall j, k | 0 <= j < k < i + 1
      ensures NameLeq(s'[j], s'[k])
    {
      if k == i {
        assert s'[j] == s[j];
      }
    }
    forall j, k | 0 <= j < i + 1 <= k < |s'|
      ensures NameLeq(s'[j], s'[k])
    {
      if j == i {
        assert s'[k] == s[k] || s'[k] == s[i];
      } else {
        assert s'[k] == s[k] || s'[k] == s[i];
      }
    }
  }

  /** The index of an entry of `t[from..]` that no other entry there precedes. */
  method MinByName(t: array<GitTree>, from: nat) returns (m: nat)
    requires from < t.Length
    ensures from <= m < t.Length
    ensures forall q :: from <= q < t.Length ==> NameLeq(t[m], t[q])
  {
    m := from;
    LexLessIrreflexive(t[m].name);
    var k := from + 1;
    while k < t.Length
      invariant from <= m < k <= t.Length
      invariant forall q :: from <= q < k ==> NameLeq(t[m], t[q])
    {
      if LexLess(t[k].name, t[m].name) {
        forall q | from <= q < k
          ensures NameLeq(t[k], t[q])
        {
          if LexLess(t[q].name, t[k].name) {
            LexLessTransitive(t[q].name, t[k].name, t[m].name);
          }
        }
        LexLessIrreflexive(t[k].name);
        m := k;
      }
      k := k + 1;
    }
  }

  // -----------------------------------------------------------------------
  // WriteTo

  /** One entry as `WriteTo` writes it: `Fprintf("%s %s")`, a NUL, the SHA. */
  function EntryBytes(e: GitTree): bytes {
    e.gitMode + [SP] + e.name + [NUL] + e.sha
  }

  /** The serialised entries, in the order given. */
  function Serialize(es: seq<GitTree>): bytes {
    if es == [] then [] else EntryBytes(es[0]) + Serialize(es[1..])
  }

  /** What each entry adds to `n`: mode, space, name, NUL and 20 bytes of SHA. */
  function EntrySizes(es: seq<GitTree>): nat {
    if es == [] then 0 else |es[0].gitMode| + |es[0].name| + 22 + EntrySizes(es[1..])
  }

  lemma {:induction false} SerializeSnoc(es: seq<GitTree>, e: GitTree)
    ensures Serialize(es + [e]) == Serialize(es) + EntryBytes(e)
    ensures EntrySizes(es + [e]) == EntrySizes(es) + |EntryBytes(e)|
  {
    if es == [] {
      assert [e][1..] == [];
    } else {
      assert (es + [e])[1..] == es[1..] + [e];
      SerializeSnoc(es[1..], e);
    }
  }

  /** `GitTrees.WriteTo` into an in-memory writer: sorts the receiver in place,
      writes every entry in that order and returns the count of bytes
      written, which is the sum of the entries' sizes. */
  method WriteTo(t: array<GitTree>) returns (written: bytes, n: nat)
    modifies t
    ensures SortedByName(t[..]) && multiset(t[..]) == multiset(old(t[..]))
    ensures written == Serialize(t[..])
    ensures n == |written| == EntrySizes(t[..])
  {
    SortByName(t);
    ghost var sorted := t[..];
    written, n := [], 0;
    var i := 0;
    while i < t.Length
      invariant 0 <= i <= t.Length && t[..] == sorted
      invariant written == Serialize(sorted[..i])
      invariant n == |written| == EntrySizes(sorted[..i])
    {
      var entry := t[i];
      ghost var before := written;
      var header := entry.gitMode + [SP] + entry.name;
      written := written + header;
      n := n + |header|;
      written := written + [NUL];
      n := n + 1;
      written := written + entry.sha;
      n := n + |entry.sha|;
      assert written == before + EntryBytes(entry);
      assert sorted[..i + 1] == sorted[..i] + [entry];
      SerializeSnoc(sorted[..i], entry);
      i := i + 1;
    }
    assert sorted[..t.Length] == sorted;
  }

  // -----------------------------------------------------------------------
  // ParseTreeObjectBody

  datatype TreeError =
    | BadMode(field: bytes)  // strconv.Atoi's error for the bytes before a space
    | ShaTruncated(at: nat)  // "unexpected end of content while reading SHA"

  /** The entry the parser appends: its `curr` is created afresh for every
      byte, so the mode read at the space is lost and `Mode`/`GitMode` stay
      zero. */
  function ParsedEntry(name: bytes, sha: RawSha): GitTree {
    GitTree(0, [], name, sha)
  }

  function PrependTrees(x: seq<GitTree>, r: Result<seq<GitTree>, TreeError>): Result<seq<GitTree>, TreeError> {
    match r
    case Failure(e) => Failure(e)
    case Success(y) => Success(x + y)
  }

  /** The parser from byte `i` on, with the two cursors of the Go loop: every
      space ends a mode field starting at `beforeSpace` and starts a name;
      every NUL ends the name started at `beforeName`, and the SHA follows. */
  function ParseFrom(content: bytes, i: nat, beforeSpace: nat, beforeName: nat): Result<seq<GitTree>, TreeError>
    requires beforeSpace <= i && beforeName <= i
    decreases |content| - i
  {
    if i >= |content| then Success([])
    else if content[i] == SP then
      if Atoi(content[beforeSpace..i]).None? then Failure(BadMode(content[beforeSpace..i]))
      else ParseFrom(content, i + 1, beforeSpace, i + 1)
    else if content[i] == NUL then
      if i + 1 + 20 > |content| then Failure(ShaTruncated(i))
      else PrependTrees([ParsedEntry(content[beforeName..i], content[i + 1..i + 21])],
                        ParseFrom(content, i + 21, i + 21, beforeName))
    else ParseFrom(content, i + 1, beforeSpace, beforeName)
  }

  function ParseTree(content: bytes): Result<seq<GitTree>, TreeError> {
    ParseFrom(content, 0, 0, 0)
  }

  /** `ParseTreeObjectBody(content)`. */
  method ParseTreeObjectBody(content: bytes) returns (r: Result<seq<GitTree>, TreeError>)
    ensures r == ParseTree(content)
  {
    var result: seq<GitTree> := [];
    var beforeSpace, beforeName := 0, 0;
    var i := 0;
    PrependNone(ParseTree(content));
    while i < |content|
      invariant beforeSpace <= i <= |content| && beforeName <= i
      invariant PrependTrees(result, ParseFrom(content, i, beforeSpace, beforeName)) == ParseTree(content)
      decreases |content| - i
    {
      ghost var was := ParseFrom(content, i, beforeSpace, beforeName);
      if content[i] == SP {
        var fileMode := content[beforeSpace..i];
        var mode := Atoi(fileMode);
        if mode.None? {
          return Failure(BadMode(fileMode));
        }
        beforeName := i + 1;
      }
      if content[i] == NUL {
        var name := content[beforeName..i];
        if i + 1 + 20 > |content| {
          return Failure(ShaTruncated(i));
        }
        var sha: RawSha := content[i + 1..i + 1 + 20];
        beforeSpace := i + 21;
        PrependTwice(result, [ParsedEntry(name, sha)], ParseFrom(content, i + 21, i + 21, beforeName));
        result := result + [ParsedEntry(name, sha)];
        i := i + 20;
      }
      i := i + 1;
    }
    assert result + [] == result;
    return Success(result);
  }

  lemma PrependNone(r: Result<seq<GitTree>, TreeError>)
    ensures PrependTrees([], r) == r
  {
    match r
    case Failure(_) =>
    case Success(y) =>
      assert [] + y == y;
  }

  lemma PrependTwice(x: seq<GitTree>, y: seq<GitTree>, r: Result<seq<GitTree>, TreeError>)
    ensures PrependTrees(x, PrependTrees(y, r)) == PrependTrees(x + y, r)
  {
    match r
    case Failure(_) =>
    case Success(z) =>
      assert x + (y + z) == x + y + z;
  }

  // -----------------------------------------------------------------------
  // Meaning of the parser

  /** An entry `WriteTo` can write and the parser reads back: a mode of one
      to eighteen decimal digits (git's modes are six or fewer, and
      `strconv.Atoi` accepts every such field), a name without space or NUL. */
  predicate Parsable(e: GitTree) {
    0 < |e.gitMode| <= 18 && DigitRun(e.gitMode) && SP !in e.name && NUL !in e.name
  }

  /** What the parser gives for well-formed entries: their names and SHAs. */
  function NamesAndShas(es: seq<GitTree>): (r: seq<GitTree>)
    ensures |r| == |es|
  {
    if es == [] then [] else [ParsedEntry(es[0].name, es[0].sha)] + NamesAndShas(es[1..])
  }

  /** Bytes that are neither space nor NUL move the parser on and change nothing. */
  lemma {:induction false} SkipPlain(content: bytes, i: nat, k: nat, bs: nat, bn: nat)
    requires bs <= i <= k <= |content| && bn <= i
    requires forall j :: i <= j < k ==> content[j] != SP && content[j] != NUL
    ensures ParseFrom(content, i, bs, bn) == ParseFrom(content, k, bs, bn)
    decreases k - i
  {
    if i < k {
      SkipPlain(content, i + 1, k, bs, bn);
    }
  }

  /** The bytes of one entry at `pos`. */
  lemma EntryLayout(content: bytes, pos: nat, e: GitTree, rest: bytes)
    requires pos <= |content| && content[pos..] == EntryBytes(e) + rest
    ensures var m := |e.gitMode|;
            var z := pos + m + 1 + |e.name|;
            && z + 21 <= |content|
            && content[pos..pos + m] == e.gitMode
            && content[pos + m] == SP
            && content[pos + m + 1..z] == e.name
            && content[z] == NUL
            && content[z + 1..z + 21] == e.sha
            && content[z + 21..] == rest
  {
    var m := |e.gitMode|;
    var z := pos + m + 1 + |e.name|;
    var c := content[pos..];
    assert content[pos..pos + m] == c[..m];
    assert content[pos + m] == c[m];
    assert content[pos + m + 1..z] == c[m + 1..m + 1 + |e.name|];
    assert content[z] == c[z - pos];
    assert content[z + 1..z + 21] == c[z - pos + 1..z - pos + 21];
    assert content[z + 21..] == c[z - pos + 21..];
  }

  /** Every entry of `es` is `Parsable`, stated one entry at a time. */
  predicate AllParsable(es: seq<GitTree>) {
    es == [] || (Parsable(es[0]) && AllParsable(es[1..]))
  }

  lemma {:induction false} AllParsableFromEach(es: seq<GitTree>)
    requires forall k :: 0 <= k < |es| ==> Parsable(es[k])
    ensures AllParsable(es)
    decreases |es|
  {
    if es != [] {
      assert Parsable(es[0]);
      forall k | 0 <= k < |es| - 1
        ensures Parsable(es[1..][k])
      {
        assert es[1..][k] == es[k + 1];
      }
      AllParsableFromEach(es[1..]);
    }
  }

  /** Round trip: parsing serialised well-formed entries gives their names
      and SHAs, in the same order, with the mode fields left empty. */
  lemma {:induction false} ParseSerialized(content: bytes, pos: nat, bn: nat, es: seq<GitTree>)
    requires bn <= pos <= |content| && content[pos..] == Serialize(es)
    requires AllParsable(es)
    ensures ParseFrom(content, pos, pos, bn) == Success(NamesAndShas(es))
    decreases |es|
  {
    if es == [] {
      ParseAtEnd(content, pos, bn);
    } else {
      var e := es[0];
      var z := pos + |e.gitMode| + 1 + |e.name|;
      var x := ParsedEntry(e.name, e.sha);
      var tail := ParseFrom(content, z + 21, z + 21, pos + |e.gitMode| + 1);
      assert ParseFrom(content, pos, pos, bn) == PrependTrees([x], tail) && tail == Success(NamesAndShas(es[1..])) by {
        ParseFirst(content, pos, bn, es);
        ParseSerialized(content, z + 21, pos + |e.gitMode| + 1, es[1..]);
      }
      PrependOne(x, tail, NamesAndShas(es[1..]));
    }
  }

  /** The first of several serialised entries. */
  lemma ParseFirst(content: bytes, pos: nat, bn: nat, es: seq<GitTree>)
    requires es != [] && bn <= pos <= |content| && content[pos..] == Serialize(es)
    requires AllParsable(es)
    ensures var e := es[0];
            var z := pos + |e.gitMode| + 1 + |e.name|;
            && z + 21 <= |content| && content[z + 21..] == Serialize(es[1..])
            && AllParsable(es[1..])
            && ParseFrom(content, pos, pos, bn)
               == PrependTrees([ParsedEntry(e.name, e.sha)], ParseFrom(content, z + 21, z + 21, pos + |e.gitMode| + 1))
  {
    ParseOneEntry(content, pos, bn, es[0], Serialize(es[1..]));
  }

  lemma ParseAtEnd(content: bytes, pos: nat, bn: nat)
    requires bn <= pos == |content|
    ensures ParseFrom(content, pos, pos, bn) == Success([])
  {
  }

  lemma PrependOne(x: GitTree, tail: Result<seq<GitTree>, TreeError>, t: seq<GitTree>)
    requires tail == Success(t)
    ensures PrependTrees([x], tail) == Success([x] + t)
  {
  }

  /** One well-formed entry at `pos`: the parser appends its name and SHA
      and goes on after its SHA. */
  lemma ParseOneEntry(content: bytes, pos: nat, bn: nat, e: GitTree, rest: bytes)
    requires bn <= pos <= |content| && content[pos..] == EntryBytes(e) + rest
    requires Parsable(e)
    ensures var m := |e.gitMode|;
            var z := pos + m + 1 + |e.name|;
            && z + 21 <= |content| && content[z + 21..] == rest
            && ParseFrom(content, pos, pos, bn)
               == PrependTrees([ParsedEntry(e.name, e.sha)], ParseFrom(content, z + 21, z + 21, pos + m + 1))
  {
    var m := |e.gitMode|;
    var z := pos + m + 1 + |e.name|;
    EntryLayout(content, pos, e, rest);
    AtoiAcceptsDigitRun(e.gitMode);
    AtoiAcceptsNoSeparators(e.gitMode);
    EntrySteps(content, pos, bn, m, z, e.gitMode, e.name, e.sha);
  }

  /** The parser's steps through one entry whose mode ends at `pos + m` and
      whose name ends at `z`. */
  lemma EntrySteps(content: bytes, pos: nat, bn: nat, m: nat, z: nat, mode: bytes, name: bytes, sha: RawSha)
    requires bn <= pos && pos + m < z && z + 21 <= |content|
    requires content[pos..pos + m] == mode && Atoi(mode).Some?
    requires content[pos + m + 1..z] == name && content[z + 1..z + 21] == sha
    requires content[pos + m] == SP && content[z] == NUL
    requires SP !in mode && NUL !in mode && SP !in name && NUL !in name
    ensures ParseFrom(content, pos, pos, bn)
         == PrependTrees([ParsedEntry(name, sha)], ParseFrom(content, z + 21, z + 21, pos + m + 1))
  {
    PlainRun(content, pos, pos + m, mode);
    PlainRun(content, pos + m + 1, z, name);
    calc {
      ParseFrom(content, pos, pos, bn);
    == { SkipPlain(content, pos, pos + m, pos, bn); }
      ParseFrom(content, pos + m, pos, bn);
    == { SpaceStep(content, pos + m, pos, bn); }
      ParseFrom(content, pos + m + 1, pos, pos + m + 1);
    == { SkipPlain(content, pos + m + 1, z, pos, pos + m + 1); }
      ParseFrom(content, z, pos, pos + m + 1);
    == { NulStep(content, z, pos, pos + m + 1); }
      PrependTrees([ParsedEntry(name, sha)], ParseFrom(content, z + 21, z + 21, pos + m + 1));
    }
  }

  /** A run of bytes copied from a field without space or NUL. */
  lemma PlainRun(content: bytes, i: nat, k: nat, field: bytes)
    requires i <= k <= |content| && content[i..k] == field
    requires SP !in field && NUL !in field
    ensures forall j :: i <= j < k ==> content[j] != SP && content[j] != NUL
  {
    forall j | i <= j < k
      ensures content[j] != SP && content[j] != NUL
    {
      assert content[j] == field[j - i];
    }
  }

  /** A space after a mode that `strconv.Atoi` accepts starts the name. */
  lemma SpaceStep(content: bytes, i: nat, bs: nat, bn: nat)
    requires bs <= i < |content| && bn <= i && content[i] == SP
    requires Atoi(content[bs..i]).Some?
    ensures ParseFrom(content, i, bs, bn) == ParseFrom(content, i + 1, bs, i + 1)
  {
  }

  /** A NUL followed by 20 bytes ends an entry. */
  lemma NulStep(content: bytes, i: nat, bs: nat, bn: nat)
    requires bs <= i && bn <= i && i + 21 <= |content| && content[i] == NUL
    ensures ParseFrom(content, i, bs, bn)
         == PrependTrees([ParsedEntry(content[bn..i], content[i + 1..i + 21])], ParseFrom(content, i + 21, i + 21, bn))
  {
  }

  /** Parsing what `WriteTo` wrote gives the sorted entries' names and SHAs. */
  lemma ParseWritten(es: seq<GitTree>)
    requires forall k :: 0 <= k < |es| ==> Parsable(es[k])
    ensures ParseTree(Serialize(es)) == Success(NamesAndShas(es))
  {
    AllParsableFromEach(es);
    ParseSerialized(Serialize(es), 0, 0, es);
  }

  /** A first entry whose name holds a space fails on the mode check, since
      the bytes from the entry's start to the second space are no integer;
      a NUL followed by fewer than 20 bytes fails on the SHA. */
  lemma ParseRejects(mode: bytes, name: bytes, rest: bytes)
    requires Atoi(mode).Some? && NUL !in name
    ensures SP in name ==> ParseTree(mode + [SP] + name + [NUL] + rest).Failure?
    ensures SP !in name && |rest| < 20 ==>
              ParseTree(mode + [SP] + name + [NUL] + rest) == Failure(ShaTruncated(|mode| + 1 + |name|))
  {
    var content := mode + [SP] + name + [NUL] + rest;
    var m := |mode|;
    AtoiAcceptsNoSeparators(mode);
    forall j | 0 <= j < m
      ensures content[j] != SP && content[j] != NUL
    {
      assert content[j] == mode[j];
    }
    SkipPlain(content, 0, m, 0, 0);
    assert content[..m] == mode;
    var s := IndexOf(name, SP);
    forall j | m + 1 <= j < m + 1 + s
      ensures content[j] != SP && content[j] != NUL
    {
      assert content[j] == name[j - m - 1];
    }
    SkipPlain(content, m + 1, m + 1 + s, 0, m + 1);
    if s < |name| {
      var field := content[..m + 1 + s];
      assert content[m + 1 + s] == SP;
      assert field[m] == SP;
      AtoiRejectsSpace(field, m);
    } else {
      assert content[m + 1 + s] == NUL;
    }
  }

  /** `strconv.Atoi` rejects any string holding a space. */
  lemma AtoiRejectsSpace(s: bytes, k: nat)
    requires k < |s| && s[k] == SP
    ensures Atoi(s).None?
  {
    assert s[k] in s;
    if Atoi(s).Some? {
      AtoiAcceptsNoSeparators(s);
    }
  }

  // -----------------------------------------------------------------------
  // CreateEmptyObjectFile

  /** The outcome of `os.Mkdir` on the fan-out directory; the model does not
      touch a file system, so the caller supplies it. */
  datatype MkdirOutcome = Created | AlreadyExists | MkdirFailed

  datatype CreateError =
    | InvalidShaLength(length: nat)  // "invalid length of sha object"
    | MkdirError                     // any `os.Mkdir` error other than "exists"

  /** `CreateEmptyObjectFile(sha)` of cmd/mygit/internals.go: rejects a sha whose
      length is not 40, tolerates an existing directory, and creates
      `./.git/objects/sha[0:2]/sha[2:]`. */
  function CreateEmptyObjectFile(sha: bytes, mkdir: MkdirOutcome): (r: Result<bytes, CreateError>)
    ensures r.Failure? <==> |sha| != 40 || mkdir == MkdirFailed
    ensures r.Success? ==> r.value == Str("./.git/objects/") + sha[..2] + [SLASH] + sha[2..]
  {
    if |sha| != 40 then Failure(InvalidShaLength(|sha|))
    else if mkdir == MkdirFailed then Failure(MkdirError)
    else Success(Str("./.git/objects/") + sha[..2] + Str("/") + sha[2..])
  }
}
