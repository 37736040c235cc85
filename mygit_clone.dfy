/**
 * The pkt-line helpers of cmd/mygit/clone.go: `readPktLine`, which checks
 * one framed line; `validateHeader`, which checks the service line that
 * opens a smart HTTP ref advertisement (read here from a byte sequence
 * instead of an `io.Reader`); and `createRefDiscovery`, which writes the
 * upload-pack request. The HTTP requests around them are not part of this
 * model.
 */
module MygitClone {
  import opened Wrappers
  import opened GoLib
  import CloneRefs

  // -----------------------------------------------------------------------
  // readPktLine

  datatype PktError =
    | InvalidLength(length: nat)                 // errInvalidPacketLineLength
    | BadLengthField                             // "read packet length"
    | SizeFour                                   // "got packet size of 4"
    | LengthMismatch(declared: int, actual: nat) // "mismatch in expected packet length"

  /** A line that was read: the flush packet, or the content with its size. */
  datatype Pkt = FlushPkt | Data(content: bytes, size: int)

  /** `readPktLine(line)`: the first four bytes are the length in hex
      (`strconv.ParseInt`, so a sign or upper-case digits are accepted) and
      must equal the length of the whole line; the content is the rest,
      without one trailing LF, and the size is the declared length less
      four. A declared length of zero is the flush packet, but only on a
      line longer than four bytes. */
  function ReadPktLine(line: bytes): Result<Pkt, PktError> {
    if |line| <= 4 then Failure(InvalidLength(|line|))
    else match ParseInt(line[..4], 16)
      case None => Failure(BadLengthField)
      case Some(pktLength) =>
        if pktLength == 0 then Success(FlushPkt)
        else if pktLength == 4 then Failure(SizeFour)
        else if |line| != pktLength then Failure(LengthMismatch(pktLength, |line|))
        else
          var trimmed := if line[|line| - 1] == LF then line[..|line| - 1] else line;
          Success(Data(trimmed[4..], pktLength - 4))
  }

  /** `readPktLine` as its comment intends it: the four bytes of a flush
      packet are the flush packet. Every other line reads as before. */
  function ReadPktLineCorrected(line: bytes): Result<Pkt, PktError> {
    if |line| == 4 && ParseInt(line, 16) == Some(0) then Success(FlushPkt)
    else ReadPktLine(line)
  }

  /** A framed line: the hex length of the whole line, the payload, an LF. */
  function Frame(payload: bytes): (r: bytes)
    requires |payload| + 5 < 0x1_0000
    ensures |r| == |payload| + 5
  {
    CloneRefs.PktLine(payload) + [LF]
  }

  /** What a successful read means: a line of the declared length, longer
      than four bytes, read as its bytes after the length field without one
      final LF; a flush packet has a length field of value zero. */
  lemma ReadPktLineMeaning(line: bytes)
    ensures |line| <= 4 ==> ReadPktLine(line) == Failure(InvalidLength(|line|))
    ensures ReadPktLine(line) == Success(FlushPkt) <==> |line| > 4 && ParseInt(line[..4], 16) == Some(0)
    ensures ReadPktLine(line).Success? && ReadPktLine(line).value.Data? ==>
              var d := ReadPktLine(line).value;
              && ParseInt(line[..4], 16) == Some(|line|)
              && d.size == |line| - 4
              && (if line[|line| - 1] == LF then d.content == line[4..|line| - 1] else d.content == line[4..])
  {
  }

  /** The lowercase digit of `d` is a hex digit of value `d`. */
  lemma HexDigitValue(d: nat)
    requires d < 16
    ensures IsLowerHex(HexDigit(d)) && DigitValue(HexDigit(d)) == d
  {
  }

  /** A four-digit hex length reads back as its value. */
  lemma Hex4Parses(n: nat)
    requires n < 0x1_0000
    ensures ParseInt(CloneRefs.Hex4(n), 16) == Some(n)
  {
    var h := CloneRefs.Hex4(n);
    var a, b, c, d := n / 0x1000, n / 0x100 % 16, n / 16 % 16, n % 16;
    HexDigitValue(a);
    HexDigitValue(b);
    HexDigitValue(c);
    HexDigitValue(d);
    assert h == [HexDigit(a), HexDigit(b), HexDigit(c), HexDigit(d)];
    FourDigitsValue(h);
    HexPlaces(n);
  }

  /** The value of four digits, most significant first. */
  lemma FourDigitsValue(h: bytes)
    requires |h| == 4 && AllDigits(h, 16)
    ensures DigitsValue(h, 16)
            == ((DigitValue(h[0]) * 16 + DigitValue(h[1])) * 16 + DigitValue(h[2])) * 16 + DigitValue(h[3])
  {
    var p1, p2, p3 := h[..1], h[..2], h[..3];
    assert p1[..0] == [] && p2[..1] == p1 && p3[..2] == p2;
    var v1 := DigitsValue(p1, 16);
    var v2 := DigitsValue(p2, 16);
    var v3 := DigitsValue(p3, 16);
    assert p1[0] == h[0] && p2[1] == h[1] && p3[2] == h[2];
    assert DigitsValue(p1[..0], 16) == 0;
    assert v1 == DigitValue(h[0]);
    assert v2 == v1 * 16 + DigitValue(h[1]);
    assert v3 == v2 * 16 + DigitValue(h[2]);
    assert DigitsValue(h, 16) == v3 * 16 + DigitValue(h[3]);
  }

  /** A number below 0x10000 from its four hex places. */
  lemma HexPlaces(n: nat)
    requires n < 0x1_0000
    ensures n == ((n / 0x1000 * 16 + n / 0x100 % 16) * 16 + n / 16 % 16) * 16 + n % 16
  {
    assert n / 0x100 == n / 0x1000 * 16 + n / 0x100 % 16;
    assert n / 16 == n / 0x100 * 16 + n / 16 % 16;
  }

  /** Round trip: a framed payload reads back as the payload, its size
      counting the LF. */
  lemma ReadFramed(payload: bytes)
    requires |payload| + 5 < 0x1_0000
    ensures ReadPktLine(Frame(payload)) == Success(Data(payload, |payload| + 1))
  {
    var line := Frame(payload);
    var h := CloneRefs.Hex4(|payload| + 5);
    assert line == h + payload + [LF];
    assert line[..4] == h;
    Hex4Parses(|payload| + 5);
    assert line[..|line| - 1][4..] == payload;
  }

  /** The correction reads the bare flush packet, and agrees with
      `readPktLine` on every line that is not four bytes long. */
  lemma CorrectedReadsFlush(line: bytes)
    ensures ReadPktLineCorrected(Str("0000")) == Success(FlushPkt)
    ensures |line| != 4 ==> ReadPktLineCorrected(line) == ReadPktLine(line)
    ensures ReadPktLineCorrected(line) == Success(FlushPkt) <==> |line| >= 4 && ParseInt(line[..4], 16) == Some(0)
  {
    assert Str("0000") == CloneRefs.Hex4(0);
    Hex4Parses(0);
    if |line| == 4 {
      assert line[..4] == line;
    }
  }

  /** As written, the flush packet on its own is not a pkt-line. */
  lemma BareFlushRejected()
    ensures ReadPktLine(Str("0000")) == Failure(InvalidLength(4))
  {
  }

  // -----------------------------------------------------------------------
  // validateHeader

  datatype HeaderError =
    | ShortHeader          // fewer than five bytes: "invalid packet header"
    | NoLengthHeader       // the first five bytes do not match `^[0-9a-f]{4}#`
    | BadHeaderLength      // "parse the header length"
    | NegativeLength(n: int) // `make` with a negative length panics
    | ShortBody            // "read header"
    | EmptyHeader          // `buf[len(buf)-1]` on an empty buffer panics
    | WrongService(got: bytes) // "packet header expectation failed"

  /** The service line after the length and `#`. */
  const ServiceLine: bytes := Str(" service=git-upload-pack")

  /** `packetLengthHeaderRegex` on the first five bytes: four lowercase hex
      digits and `#`. */
  predicate LengthHeader(buf: bytes) {
    |buf| >= 5 && IsLowerHex(buf[0]) && IsLowerHex(buf[1]) && IsLowerHex(buf[2]) && IsLowerHex(buf[3])
    && buf[4] == 35
  }

  /** `validateHeader(body)`: reads five bytes, then `headerLength - 5` more,
      and compares them, without one trailing LF, with the service line. */
  function ValidateHeader(body: bytes): Outcome<HeaderError> {
    if |body| < 5 then Fail(ShortHeader)
    else if !LengthHeader(body[..5]) then Fail(NoLengthHeader)
    else match ParseInt(body[..4], 16)
      case None => Fail(BadHeaderLength)
      case Some(headerLength) =>
        if headerLength < 5 then Fail(NegativeLength(headerLength - 5))
        else if |body| < headerLength then Fail(ShortBody)
        else
          var buf := body[5..headerLength];
          if |buf| == 0 then Fail(EmptyHeader)
          else
            var got := if buf[|buf| - 1] == LF then buf[..|buf| - 1] else buf;
            if got != ServiceLine then Fail(WrongService(got)) else Pass
  }

  /** The header is accepted exactly when its length field says 29 and the
      service line follows, or says 30 and the service line and an LF follow. */
  lemma ValidateHeaderMeaning(body: bytes)
    ensures ValidateHeader(body) == Pass <==>
              && |body| >= 5 && LengthHeader(body[..5])
              && ParseInt(body[..4], 16).Some?
              && var n := ParseInt(body[..4], 16).value;
                 || (n == 29 && |body| >= 29 && body[5..29] == ServiceLine)
                 || (n == 30 && |body| >= 30 && body[5..30] == ServiceLine + [LF])
  {
    assert |ServiceLine| == 24;
    assert ServiceLine[23] != LF;
    if ValidateHeader(body) == Pass {
      var n := ParseInt(body[..4], 16).value;
      var buf := body[5..n];
      if buf[|buf| - 1] == LF {
        assert buf == buf[..|buf| - 1] + [LF];
      }
    }
    if |body| >= 30 && body[5..30] == ServiceLine + [LF] {
      assert body[5..30][..24] == ServiceLine;
    }
  }

  /** The header git sends, with its LF, is accepted whatever follows it. */
  lemma ServiceHeaderAccepted(rest: bytes)
    ensures ValidateHeader(CloneRefs.Hex4(30) + [35] + ServiceLine + [LF] + rest) == Pass
  {
    var body := CloneRefs.Hex4(30) + [35] + ServiceLine + [LF] + rest;
    Hex4Parses(30);
    assert body[..4] == CloneRefs.Hex4(30);
    assert body[5..30] == ServiceLine + [LF];
    ValidateHeaderMeaning(body);
  }

  /** Without the optional LF the length field says 29, and the header is
      accepted too. */
  lemma ServiceHeaderWithoutLF(rest: bytes)
    ensures ValidateHeader(CloneRefs.Hex4(29) + [35] + ServiceLine + rest) == Pass
  {
    var body := CloneRefs.Hex4(29) + [35] + ServiceLine + rest;
    Hex4Parses(29);
    assert body[..4] == CloneRefs.Hex4(29);
    assert body[5..29] == ServiceLine;
    ValidateHeaderMeaning(body);
  }

  // -----------------------------------------------------------------------
  // createRefDiscovery

  datatype DiscoveryError =
    | InvalidWant(want: bytes) // "invalid object id in the want"
    | InvalidHave(have: bytes) // "invalid object id in the have"

  /** Forty lowercase hex digits start at `i`. */
  predicate HexRunAt(s: bytes, i: nat) {
    i + 40 <= |s| && forall k :: i <= k < i + 40 ==> IsLowerHex(s[k])
  }

  /** `objectIDRegex.MatchString(s)`: the pattern is not anchored, so forty
      hex digits anywhere in `s` match. */
  predicate ContainsObjectId(s: bytes) {
    exists i :: 0 <= i <= |s| - 40 && HexRunAt(s, i)
  }

  /** A request line as written: the length field and a space, the id, LF. */
  function AsWrittenLine(id: bytes): bytes {
    Str("0032 ") + id + [LF]
  }

  /** The request `createRefDiscovery` writes. */
  function RefDiscoveryBody(want: bytes, have: bytes): bytes {
    AsWrittenLine(want) + AsWrittenLine(have) + Str("0000")
  }

  /** `createRefDiscovery(want, have)`: checks both ids, then appends the
      pieces of the request to a builder. */
  method CreateRefDiscovery(want: bytes, have: bytes) returns (r: Result<bytes, DiscoveryError>)
    ensures r.Success? <==> ContainsObjectId(want) && ContainsObjectId(have)
    ensures !ContainsObjectId(want) ==> r == Failure(InvalidWant(want))
    ensures ContainsObjectId(want) && !ContainsObjectId(have) ==> r == Failure(InvalidHave(have))
    ensures r.Success? ==> r.value == RefDiscoveryBody(want, have)
    ensures r.Success? ==> |r.value| == |want| + |have| + 16
  {
    if !ContainsObjectId(want) {
      return Failure(InvalidWant(want));
    }
    if !ContainsObjectId(have) {
      return Failure(InvalidHave(have));
    }
    var b: bytes := [];
    b := b + Str("0032 ");
    b := b + want;
    b := b + [LF];
    b := b + Str("0032 ");
    b := b + have;
    b := b + [LF];
    b := b + Str("0000");
    return Success(b);
  }

  /** Any id with forty hex digits somewhere is accepted, so a longer
      string passes the check. */
  lemma UnanchoredIdAccepted(pre: bytes, id: bytes, post: bytes)
    requires |id| == 40 && forall k :: 0 <= k < 40 ==> IsLowerHex(id[k])
    ensures ContainsObjectId(pre + id + post)
  {
    var s := pre + id + post;
    assert forall k :: |pre| <= k < |pre| + 40 ==> s[k] == id[k - |pre|];
    assert HexRunAt(s, |pre|);
  }

  /** A string shorter than forty bytes is rejected. */
  lemma ShortIdRejected(s: bytes)
    requires |s| < 40
    ensures !ContainsObjectId(s)
  {
  }

  /** As written, a request line for a forty-digit id is 46 bytes long but
      declares 0x32 = 50, so `readPktLine` of the same program rejects it. */
  lemma AsWrittenLineRejected(id: bytes)
    requires |id| == 40
    ensures |AsWrittenLine(id)| == 46
    ensures ReadPktLine(AsWrittenLine(id)) == Failure(LengthMismatch(50, 46))
  {
    var line := AsWrittenLine(id);
    assert line[..4] == CloneRefs.Hex4(50);
    Hex4Parses(50);
  }

  /** A request line with its keyword, `0032want <id>\n`. */
  function RequestLine(keyword: bytes, id: bytes): bytes {
    Str("0032") + keyword + id + [LF]
  }

  /** The request as the comment in `createRefDiscovery` describes it. */
  function RefDiscoveryCorrected(want: bytes, have: bytes): bytes {
    RequestLine(Str("want "), want) + RequestLine(Str("have "), have) + Str("0000")
  }

  /** With forty-digit ids each corrected line is a pkt-line of exactly the
      declared 50 bytes, reading back as the keyword and the id, and the
      request ends with a flush packet. */
  lemma CorrectedRequestReads(want: bytes, have: bytes)
    requires |want| == 40 && |have| == 40
    ensures var w, h := RequestLine(Str("want "), want), RequestLine(Str("have "), have);
            && |w| == 50 && |h| == 50
            && RefDiscoveryCorrected(want, have) == w + h + Str("0000")
            && ReadPktLine(w) == Success(Data(Str("want ") + want, 46))
            && ReadPktLine(h) == Success(Data(Str("have ") + have, 46))
            && ReadPktLineCorrected(Str("0000")) == Success(FlushPkt)
  {
    CorrectedLineReads(Str("want "), want);
    CorrectedLineReads(Str("have "), have);
    CorrectedReadsFlush([]);
  }

  lemma CorrectedLineReads(keyword: bytes, id: bytes)
    requires |keyword| == 5 && |id| == 40
    ensures |RequestLine(keyword, id)| == 50
    ensures ReadPktLine(RequestLine(keyword, id)) == Success(Data(keyword + id, 46))
  {
    var payload := keyword + id;
    assert RequestLine(keyword, id) == CloneRefs.Hex4(50) + payload + [LF];
    ReadFramed(payload);
  }
}
