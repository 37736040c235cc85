/**
 * The two ends of ref negotiation in cmd/clone/clone.go: `GetRefList`, which
 * reads the refs out of the advertisement of the smart HTTP protocol, and
 * `generateRefDiscoveryRequest`, which writes the `want` lines of the
 * request. The HTTP requests around them are not part of this model.
 */
module CloneRefs {
  import opened Wrappers
  import opened GoLib

  /** `GitRef`: an object id in hex and the name of the ref. */
  datatype GitRef = GitRef(hash: bytes, name: bytes)

  datatype RefError =
    | TooFewLines               // "invalid length for ref list"
    | ShortLine(lineNum: nat)   // a slice of the line past its end (a panic in Go)
    | MissingSpace(lineNum: nat) // the panic when no space follows the hash

  /** The flush packet that ends the list. */
  const Flush: bytes := Str("0000")

  // -----------------------------------------------------------------------
  // GetRefList

  /** One line of the list, `lineNum` counting from the line after the
      service line: a 4-byte length (8 bytes, a flush packet first, on line
      0), the 40-byte hash, a space, and the name up to the first NUL. */
  function ParseRefLine(line: bytes, lineNum: nat): Result<GitRef, RefError> {
    var skip := if lineNum == 0 then 8 else 4;
    if |line| < skip + 40 then Failure(ShortLine(lineNum))
    else if |line| == skip + 40 then Failure(ShortLine(lineNum))
    else if line[skip + 40] != SP then Failure(MissingSpace(lineNum))
    else Success(GitRef(line[skip..skip + 40], Split(line[skip + 41..], NUL)[0]))
  }

  /** `xs` in front of a successful result. */
  function PrependRefs(xs: seq<GitRef>, r: Result<seq<GitRef>, RefError>): Result<seq<GitRef>, RefError> {
    match r
    case Failure(e) => Failure(e)
    case Success(ys) => Success(xs + ys)
  }

  /** The refs of `lines`, the first of which is line `lineNum`, up to the
      first flush line. */
  function RefsFrom(lines: seq<bytes>, lineNum: nat): (r: Result<seq<GitRef>, RefError>)
    ensures r.Failure? ==> !r.error.TooFewLines?
    ensures r.Success? ==> |r.value| <= |lines| && forall k :: 0 <= k < |r.value| ==> |r.value[k].hash| == 40
    decreases |lines|
  {
    if lines == [] || lines[0] == Flush then Success([])
    else match ParseRefLine(lines[0], lineNum)
      case Failure(e) => Failure(e)
      case Success(ref) => PrependRefs([ref], RefsFrom(lines[1..], lineNum + 1))
  }

  /** What `GetRefList(input)` returns: the lines after the first. */
  function RefList(input: bytes): Result<seq<GitRef>, RefError> {
    var refParts := Split(input, LF);
    if |refParts| < 2 then Failure(TooFewLines) else RefsFrom(refParts[1..], 0)
  }

  /** `GetRefList(input)`: the loop over the lines after the first. */
  method GetRefList(input: bytes) returns (r: Result<seq<GitRef>, RefError>)
    ensures r == RefList(input)
  {
    var refParts := Split(input, LF);
    if |refParts| < 2 {
      return Failure(TooFewLines);
    }
    var lines := refParts[1..];
    var refList: seq<GitRef> := [];
    var lineNum := 0;
    assert lines[0..] == lines;
    PrependNoRefs(RefsFrom(lines, 0));
    while lineNum < |lines|
      invariant lineNum <= |lines|
      invariant PrependRefs(refList, RefsFrom(lines[lineNum..], lineNum)) == RefList(input)
    {
      var line := lines[lineNum];
      ghost var original := line;
      assert lines[lineNum..][0] == line && lines[lineNum..][1..] == lines[lineNum + 1..];
      if line == Flush {
        break;
      }
      if lineNum == 0 {
        if |line| < 4 {
          return Failure(ShortLine(lineNum));
        }
        line := line[4..];
      }
      if |line| < 4 {
        return Failure(ShortLine(lineNum));
      }
      line := line[4..];
      if |line| < 40 {
        return Failure(ShortLine(lineNum));
      }
      var hashBytes := line[..40];
      line := line[40..];
      if |line| == 0 {
        return Failure(ShortLine(lineNum));
      }
      if line[0] != SP {
        return Failure(MissingSpace(lineNum));
      }
      line := line[1..];
      var nameBytes := Split(line, NUL)[0];
      assert ParseRefLine(original, lineNum) == Success(GitRef(hashBytes, nameBytes)) by {
        var skip := if lineNum == 0 then 8 else 4;
        assert hashBytes == original[skip..skip + 40];
        assert line == original[skip + 41..];
      }
      PrependRefsTwice(refList, [GitRef(hashBytes, nameBytes)], RefsFrom(lines[lineNum + 1..], lineNum + 1));
      refList := refList + [GitRef(hashBytes, nameBytes)];
      lineNum := lineNum + 1;
    }
    assert RefsFrom(lines[lineNum..], lineNum) == Success([]);
    assert refList + [] == refList;
    return Success(refList);
  }

  lemma PrependNoRefs(r: Result<seq<GitRef>, RefError>)
    ensures PrependRefs([], r) == r
  {
    match r
    case Failure(_) =>
    case Success(ys) =>
      assert [] + ys == ys;
  }

  lemma PrependRefsTwice(xs: seq<GitRef>, ys: seq<GitRef>, r: Result<seq<GitRef>, RefError>)
    ensures PrependRefs(xs, PrependRefs(ys, r)) == PrependRefs(xs + ys, r)
  {
    match r
    case Failure(_) =>
    case Success(zs) =>
      assert xs + (ys + zs) == xs + ys + zs;
  }

  // -----------------------------------------------------------------------
  // What the list holds

  /** A line holds a ref exactly when it is long enough for the length, the
      hash and one more byte, and that byte is a space; the hash is the 40
      bytes after the length and the name runs from after the space to the
      first NUL, so it holds no NUL. */
  lemma ParseRefLineMeaning(line: bytes, lineNum: nat)
    ensures var skip := if lineNum == 0 then 8 else 4;
            ParseRefLine(line, lineNum).Success? <==> (|line| > skip + 40 && line[skip + 40] == SP)
    ensures ParseRefLine(line, lineNum).Success? ==>
              var skip := if lineNum == 0 then 8 else 4;
              var ref := ParseRefLine(line, lineNum).value;
              var rest := line[skip + 41..];
              && ref.hash == line[skip..skip + 40]
              && ref.name == rest[..IndexOf(rest, NUL)]
              && NUL !in ref.name
  {
    if ParseRefLine(line, lineNum).Success? {
      var skip := if lineNum == 0 then 8 else 4;
      var rest := line[skip + 41..];
      NoOccurrence(rest[..IndexOf(rest, NUL)], NUL);
    }
  }

  /** Only an input without a line break has too few lines. */
  lemma RefListTooFewLines(input: bytes)
    ensures RefList(input) == Failure(TooFewLines) <==> LF !in input
  {
    SplitLength(input, LF);
    if LF in input {
      assert multiset(input)[LF] > 0;
    } else {
      assert multiset(input)[LF] == 0;
    }
  }

  /** Nothing after a flush line is read. */
  lemma {:induction false} RefsStopAtFlush(lines: seq<bytes>, more: seq<bytes>, lineNum: nat)
    ensures RefsFrom(lines + [Flush] + more, lineNum) == RefsFrom(lines + [Flush], lineNum)
    decreases |lines|
  {
    if lines == [] {
      assert ([] + [Flush] + more)[0] == Flush && ([] + [Flush])[0] == Flush;
    } else {
      assert (lines + [Flush] + more)[0] == lines[0] && (lines + [Flush])[0] == lines[0];
      assert (lines + [Flush] + more)[1..] == lines[1..] + [Flush] + more;
      assert (lines + [Flush])[1..] == lines[1..] + [Flush];
      RefsStopAtFlush(lines[1..], more, lineNum + 1);
    }
  }

  // -----------------------------------------------------------------------
  // The inverse: the advertisement a server writes

  /** Four lowercase hex digits, the length field of a pkt-line. */
  function Hex4(n: nat): (r: bytes)
    requires n < 0x1_0000
    ensures |r| == 4 && LF !in r
  {
    [HexDigit(n / 0x1000), HexDigit(n / 0x100 % 16), HexDigit(n / 16 % 16), HexDigit(n % 16)]
  }

  /** A pkt-line without its final LF: the length counts the four length
      bytes, the payload and the LF. */
  function PktLine(payload: bytes): (r: bytes)
    requires |payload| + 5 < 0x1_0000
    ensures |r| == |payload| + 4
  {
    Hex4(|payload| + 5) + payload
  }

  /** A ref a server can advertise: a 40-byte id, and a name the reader
      can find its end of. */
  predicate Advertisable(ref: GitRef) {
    && |ref.hash| == 40 && LF !in ref.hash
    && LF !in ref.name && NUL !in ref.name
    && |ref.name| < 0xF000
  }

  function RefPayload(ref: GitRef): (r: bytes)
    ensures |r| == |ref.hash| + 1 + |ref.name|
  {
    ref.hash + [SP] + ref.name
  }

  /** The lines after the first ref: one pkt-line per ref. */
  function MoreRefLines(refs: seq<GitRef>): (r: seq<bytes>)
    requires forall k :: 0 <= k < |refs| ==> Advertisable(refs[k])
    ensures |r| == |refs|
  {
    if refs == [] then []
    else
      assert Advertisable(refs[0]);
      [PktLine(RefPayload(refs[0]))] + MoreRefLines(refs[1..])
  }

  /** The lines after the service line: a flush packet, then the first ref
      with its capabilities after a NUL, the other refs, and a flush packet.
      Without refs, just the flush packet. */
  function AdvertLines(refs: seq<GitRef>, caps: bytes): seq<bytes>
    requires forall k :: 0 <= k < |refs| ==> Advertisable(refs[k])
    requires |caps| < 0x100
  {
    if refs == [] then [Flush]
    else
      assert Advertisable(refs[0]);
      [Flush + PktLine(RefPayload(refs[0]) + [NUL] + caps)] + MoreRefLines(refs[1..]) + [Flush]
  }

  /** The whole advertisement. */
  function Advertisement(service: bytes, refs: seq<GitRef>, caps: bytes): bytes
    requires forall k :: 0 <= k < |refs| ==> Advertisable(refs[k])
    requires |caps| < 0x100 && |service| < 0x100
  {
    JoinWith([PktLine(service)] + AdvertLines(refs, caps), LF)
  }

  /** Round trip: the refs of an advertisement are the refs advertised, in
      order, with their names, whatever the capabilities. */
  lemma AdvertisementRoundTrip(service: bytes, refs: seq<GitRef>, caps: bytes)
    requires forall k :: 0 <= k < |refs| ==> Advertisable(refs[k])
    requires |caps| < 0x100 && |service| < 0x100
    requires LF !in service && LF !in caps
    ensures RefList(Advertisement(service, refs, caps)) == Success(refs)
  {
    SplitAdvertisement(service, refs, caps);
    var parts := [PktLine(service)] + AdvertLines(refs, caps);
    assert parts[1..] == AdvertLines(refs, caps);
    AdvertLinesRead(refs, caps);
  }

  /** The advertisement splits at LF into the service line and the lines
      after it, none of which holds an LF. */
  lemma SplitAdvertisement(service: bytes, refs: seq<GitRef>, caps: bytes)
    requires forall k :: 0 <= k < |refs| ==> Advertisable(refs[k])
    requires |caps| < 0x100 && |service| < 0x100
    requires LF !in service && LF !in caps
    ensures Split(Advertisement(service, refs, caps), LF) == [PktLine(service)] + AdvertLines(refs, caps)
  {
    var parts := [PktLine(service)] + AdvertLines(refs, caps);
    AdvertLinesNoLF(refs, caps);
    assert forall k :: 0 <= k < |parts| ==> LF !in parts[k] by {
      assert PktLine(service) == Hex4(|service| + 5) + service;
    }
    SplitJoin(parts, LF);
  }

  /** The lines after the service line read back as the refs. */
  lemma AdvertLinesRead(refs: seq<GitRef>, caps: bytes)
    requires forall k :: 0 <= k < |refs| ==> Advertisable(refs[k])
    requires |caps| < 0x100
    ensures RefsFrom(AdvertLines(refs, caps), 0) == Success(refs)
  {
    var lines := AdvertLines(refs, caps);
    if refs != [] {
      FirstRefLine(refs[0], caps);
      assert lines[1..] == MoreRefLines(refs[1..]) + [Flush];
      MoreRefsRead(refs[1..], 1);
      assert [refs[0]] + refs[1..] == refs;
    }
  }

  lemma AdvertLinesNoLF(refs: seq<GitRef>, caps: bytes)
    requires forall k :: 0 <= k < |refs| ==> Advertisable(refs[k])
    requires |caps| < 0x100 && LF !in caps
    ensures forall k :: 0 <= k < |AdvertLines(refs, caps)| ==> LF !in AdvertLines(refs, caps)[k]
  {
    if refs != [] {
      MoreRefLinesNoLF(refs[1..]);
    }
  }

  lemma {:induction false} MoreRefLinesNoLF(refs: seq<GitRef>)
    requires forall k :: 0 <= k < |refs| ==> Advertisable(refs[k])
    ensures forall k :: 0 <= k < |refs| ==> LF !in MoreRefLines(refs)[k]
    decreases |refs|
  {
    if refs != [] {
      MoreRefLinesNoLF(refs[1..]);
      assert MoreRefLines(refs)[1..] == MoreRefLines(refs[1..]);
    }
  }

  /** The first ref line reads back, skipping the flush packet and the
      length, and stopping the name at the NUL before the capabilities. */
  lemma FirstRefLine(ref: GitRef, caps: bytes)
    requires Advertisable(ref) && |caps| < 0x100
    ensures ParseRefLine(Flush + PktLine(RefPayload(ref) + [NUL] + caps), 0) == Success(ref)
  {
    var line := Flush + PktLine(RefPayload(ref) + [NUL] + caps);
    var len := Hex4(|RefPayload(ref) + [NUL] + caps| + 5);
    assert line == Flush + len + ref.hash + [SP] + (ref.name + [NUL] + caps);
    assert line[8..48] == ref.hash;
    assert line[48] == SP;
    assert line[49..] == ref.name + [NUL] + caps;
    IndexOfPrefix(ref.name, NUL, caps);
    assert (ref.name + [NUL] + caps)[..|ref.name|] == ref.name;
  }

  /** The other ref lines read back, up to the final flush packet. */
  lemma {:induction false} MoreRefsRead(refs: seq<GitRef>, lineNum: nat)
    requires forall k :: 0 <= k < |refs| ==> Advertisable(refs[k])
    requires lineNum >= 1
    ensures RefsFrom(MoreRefLines(refs) + [Flush], lineNum) == Success(refs)
    decreases |refs|
  {
    var lines := MoreRefLines(refs) + [Flush];
    if refs == [] {
      assert lines == [Flush];
    } else {
      var line := PktLine(RefPayload(refs[0]));
      assert lines[0] == line;
      assert line == Hex4(|RefPayload(refs[0])| + 5) + refs[0].hash + [SP] + refs[0].name;
      assert line[4..44] == refs[0].hash;
      assert line[44] == SP;
      assert line[45..] == refs[0].name;
      IndexOfAbsent(refs[0].name, NUL);
      assert refs[0].name[..|refs[0].name|] == refs[0].name;
      assert line != Flush by {
        assert |line| != |Flush|;
      }
      assert lines[1..] == MoreRefLines(refs[1..]) + [Flush];
      MoreRefsRead(refs[1..], lineNum + 1);
      assert [refs[0]] + refs[1..] == refs;
    }
  }

  // -----------------------------------------------------------------------
  // generateRefDiscoveryRequest

  /** `0032want <hash>\n`. */
  function WantLine(ref: GitRef): bytes {
    Str("0032want ") + ref.hash + [LF]
  }

  /** The want lines of the refs, in order. */
  function WantLines(refs: seq<GitRef>): bytes {
    if refs == [] then [] else WantLine(refs[0]) + WantLines(refs[1..])
  }

  /** The flush packet and the `done` line that end the request. */
  const DoneLines: bytes := Str("00000009done\n")

  /** What `generateRefDiscoveryRequest(refs)` returns. */
  function DiscoveryRequest(refs: seq<GitRef>): bytes {
    WantLines(refs) + DoneLines
  }

  /** `generateRefDiscoveryRequest(refs)`: appends one want line per ref,
      then the done lines. */
  method GenerateRefDiscoveryRequest(refs: seq<GitRef>) returns (request: bytes)
    ensures request == DiscoveryRequest(refs)
  {
    request := [];
    for i := 0 to |refs|
      invariant request + WantLines(refs[i..]) == WantLines(refs)
    {
      assert refs[i..][0] == refs[i] && refs[i..][1..] == refs[i + 1..];
      var current := Str("0032want ") + refs[i].hash + [LF];
      request := request + current;
    }
    assert refs[|refs|..] == [];
    request := request + DoneLines;
  }

  /** With 40-byte ids every want line is 50 bytes, the 0x32 its length field
      declares, so the request is 50n + 13 bytes: line `k` holds the `k`-th
      id at bytes 50k + 9 to 50k + 49, and the done lines come last. */
  lemma {:induction false} DiscoveryRequestLayout(refs: seq<GitRef>)
    requires forall k :: 0 <= k < |refs| ==> |refs[k].hash| == 40
    ensures |DiscoveryRequest(refs)| == 50 * |refs| + 13
    ensures forall k :: 0 <= k < |refs| ==> DiscoveryRequest(refs)[50 * k..50 * k + 50] == WantLine(refs[k])
    ensures DiscoveryRequest(refs)[50 * |refs|..] == DoneLines
    decreases |refs|
  {
    var r := DiscoveryRequest(refs);
    if refs == [] {
      assert r == DoneLines;
    } else {
      DiscoveryRequestLayout(refs[1..]);
      var tail := DiscoveryRequest(refs[1..]);
      assert r == WantLine(refs[0]) + tail;
      assert |WantLine(refs[0])| == 50;
      forall k | 0 <= k < |refs|
        ensures r[50 * k..50 * k + 50] == WantLine(refs[k])
      {
        if k == 0 {
          assert r[..50] == WantLine(refs[0]);
        } else {
          assert r[50 * k..50 * k + 50] == tail[50 * (k - 1)..50 * (k - 1) + 50];
        }
      }
      assert r[50 * |refs|..] == tail[50 * |refs[1..]|..];
    }
  }

  /** Each want line holds `want`, a space and the id between its length
      field and its LF. */
  lemma WantLineFields(ref: GitRef)
    requires |ref.hash| == 40
    ensures var w := WantLine(ref);
            && |w| == 0x32 && w[..4] == Str("0032") && w[4..9] == Str("want ")
            && w[9..49] == ref.hash && w[49] == LF
  {
  }
}
