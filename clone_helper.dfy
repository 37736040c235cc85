/**
 * Integer decoding of the pack format (cmd/clone/helper.go): the 4-byte
 * big-endian words of the pack header, and the per-object header that packs
 * a 3-bit kind and a variable-length size, as git's pack-format
 * documentation (gitformat-pack) describes it.
 */
module CloneHelper {
  import opened Wrappers
  import opened GoLib
  import opened CloneObjects

  // -----------------------------------------------------------------------
  // readBigEndian

  /** `readBigEndian`: the word `b[0] b[1] b[2] b[3]`, most significant byte first.
      The Go code ORs the bytes shifted by 24, 16, 8 and 0 into a uint32; the
      shifted bytes do not overlap, so the OR is their sum. */
  function ReadBigEndian(b: bytes): (r: nat)
    requires |b| == 4
    ensures r < 0x1_0000_0000
  {
    ((b[0] as nat * 0x100 + b[1]) * 0x100 + b[2]) * 0x100 + b[3]
  }

  /** The four bytes of a 32-bit word, most significant first. */
  function BigEndianBytes(n: nat): (r: bytes)
    requires n < 0x1_0000_0000
    ensures |r| == 4
  {
    var q1 := n / 0x100;
    var q2 := q1 / 0x100;
    [q2 / 0x100, q2 % 0x100, q1 % 0x100, n % 0x100]
  }

  lemma DivMod256(x: nat, y: nat)
    requires y < 0x100
    ensures (x * 0x100 + y) / 0x100 == x && (x * 0x100 + y) % 0x100 == y
  {
  }

  /** `readBigEndian` and the big-endian split are inverse to each other. */
  lemma BigEndianRoundTrip(n: nat, b: bytes)
    requires n < 0x1_0000_0000 && |b| == 4
    ensures ReadBigEndian(BigEndianBytes(n)) == n
    ensures BigEndianBytes(ReadBigEndian(b)) == b
  {
    var x2 := b[0] as nat * 0x100 + b[1];
    var x1 := x2 * 0x100 + b[2];
    DivMod256(x1, b[3]);
    DivMod256(x2, b[2]);
    DivMod256(b[0], b[1]);
  }

  // -----------------------------------------------------------------------
  // packObjectSize

  datatype ObjectHeader = ObjectHeader(length: nat, objType: GitObjectType, bytesRead: nat)

  datatype SizeError =
    | NoContent      // "invalid size: no content"
    | UnexpectedEnd  // "unexpected end of content"

  /** Go's uint64 arithmetic wraps modulo 2^64. */
  const Mod64: nat := 0x1_0000_0000_0000_0000

  /** Bits 6..4 of the first header byte; the unassigned value 5 reads as `Invalid`. */
  function HeaderType(b: byte): (r: GitObjectType)
    ensures r == Invalid || IsNamed(r)
  {
    var t := b / 16 % 8;
    if t == 5 then Invalid else t
  }

  /** The size groups that follow the first header byte, starting at index `i`
      when `k` of them have been read (so the next one is shifted by 4 + 7k).
      Gives the groups' value (least significant first, 7 bits each) and the
      index after the last group. */
  function ContinuationSize(content: bytes, i: nat, k: nat): Result<(nat, nat), SizeError>
    decreases |content| - i
  {
    if i >= |content| || 4 + 7 * k >= 64 then Failure(UnexpectedEnd)
    else if content[i] < 128 then Success((content[i] % 128, i + 1))
    else match ContinuationSize(content, i + 1, k + 1)
      case Failure(e) => Failure(e)
      case Success((v, n)) => Success((content[i] % 128 + 128 * v, n))
  }

  /** What `packObjectSize` returns for `content`. */
  function DecodeObjectHeader(content: bytes): Result<ObjectHeader, SizeError> {
    if |content| == 0 then Failure(NoContent)
    else if content[0] < 128 then Success(ObjectHeader(content[0] % 16, HeaderType(content[0]), 1))
    else match ContinuationSize(content, 1, 0)
      case Failure(e) => Failure(e)
      case Success((v, n)) => Success(ObjectHeader((content[0] % 16 + 16 * v) % Mod64, HeaderType(content[0]), n))
  }

  /** The last turn of the Go loop: the size group at `i` has bit 7 clear. */
  lemma HeaderLast(content: bytes, i: nat, total: nat, shift: nat)
    requires 1 <= i < |content| && shift == 4 + 7 * (i - 1) < 64 && content[i] < 128
    ensures Lift(total, Pow2(shift), ContinuationSize(content, i, i - 1))
            == Success((total + content[i] % 128 * Pow2(shift), i + 1))
  {
  }

  /** A turn of the Go loop that goes on: the size group at `i` has bit 7 set. */
  lemma HeaderMore(content: bytes, i: nat, total: nat, shift: nat)
    requires 1 <= i < |content| && shift == 4 + 7 * (i - 1) < 64 && content[i] >= 128
    ensures Lift(total, Pow2(shift), ContinuationSize(content, i, i - 1))
            == Lift(total + content[i] % 128 * Pow2(shift), Pow2(shift + 7), ContinuationSize(content, i + 1, i))
  {
    Pow2Add(shift, 7);
    assert Pow2(7) == 128;
    LiftCompose(total, Pow2(shift), content[i] % 128, 128, ContinuationSize(content, i + 1, i));
  }

  /** Adding modulo 2^64 tracks the unbounded sum: gives the new sum. */
  lemma WrapAdd(length: nat, total: nat, x: nat, wrapped: nat) returns (total': nat)
    requires length == total % Mod64 && wrapped == x % Mod64
    ensures total' == total + x && (length + wrapped) % Mod64 == total' % Mod64
  {
    total' := total + x;
  }

  /** `packObjectSize`, step by step as the Go loop runs it. */
  method PackObjectSize(content: bytes) returns (r: Result<ObjectHeader, SizeError>)
    ensures r == DecodeObjectHeader(content)
  {
    if |content| == 0 {
      return Failure(NoContent);
    }
    var bytesRead := 0;
    var b := content[bytesRead];
    var objType: GitObjectType := b / 16 % 8;
    if objType > 7 || objType == 5 {
      objType := Invalid;
    }
    var sizeFromFirstByte := b % 16;
    var length := sizeFromFirstByte;
    bytesRead := bytesRead + 1;

    var more := b / 128 == 1;
    if !more {
      return Success(ObjectHeader(sizeFromFirstByte, objType, 1));
    }

    var bitShift := 4;
    ghost var total: nat := sizeFromFirstByte;  // `length` before wrap-around
    ghost var whole := Lift(b % 16, 16, ContinuationSize(content, 1, 0));
    assert Pow2(4) == 16;
    while more
      invariant 1 <= bytesRead <= |content|
      invariant bitShift == 4 + 7 * (bytesRead - 1)
      invariant length == total % Mod64
      invariant more ==> Lift(total, Pow2(bitShift), ContinuationSize(content, bytesRead, bytesRead - 1)) == whole
      invariant !more ==> Success((total, bytesRead)) == whole
      decreases |content| - bytesRead
    {
      if bytesRead >= |content| || bitShift >= 64 {
        return Failure(UnexpectedEnd);
      }
      var c := content[bytesRead];
      var additionalLength := c % 128 * Pow2(bitShift) % Mod64;
      if c >= 128 {
        HeaderMore(content, bytesRead, total, bitShift);
      } else {
        HeaderLast(content, bytesRead, total, bitShift);
      }
      total := WrapAdd(length, total, c % 128 * Pow2(bitShift), additionalLength);
      length := (length + additionalLength) % Mod64;
      more := c / 128 == 1;
      bytesRead := bytesRead + 1;
      bitShift := bitShift + 7;
    }
    return Success(ObjectHeader(length, objType, bytesRead));
  }

  // -----------------------------------------------------------------------
  // Meaning of the header decoding

  /** Little-endian value of 7-bit groups: sum of (s[k] & 0x7F) * 128^k. */
  function Groups7(s: bytes): nat {
    if s == [] then 0 else s[0] % 128 + 128 * Groups7(s[1..])
  }

  /** Every byte before `n` has its continuation bit set; byte `n - 1` does not. */
  predicate Terminates(s: bytes, n: nat) {
    1 <= n <= |s| && s[n - 1] < 128 && forall t :: 0 <= t < n - 1 ==> s[t] >= 128
  }

  lemma {:induction false} ContinuationSizeMeaning(content: bytes, i: nat)
    requires 1 <= i
    ensures ContinuationSize(content, i, i - 1).Success? <==>
              exists t :: i <= t < |content| && t < 10 && content[t] < 128
    ensures ContinuationSize(content, i, i - 1).Success? ==>
              var (v, n) := ContinuationSize(content, i, i - 1).value;
              && i < n <= |content| && n <= 10 && content[n - 1] < 128
              && (forall t :: i <= t < n - 1 ==> content[t] >= 128)
              && v == Groups7(content[i..n])
    decreases |content| - i
  {
    if i >= |content| || 4 + 7 * (i - 1) >= 64 {
    } else if content[i] < 128 {
      assert content[i..i + 1] == [content[i]];
      assert Groups7(content[i..i + 1]) == content[i] % 128 + 128 * Groups7([]);
    } else {
      ContinuationSizeMeaning(content, i + 1);
      if ContinuationSize(content, i + 1, i).Success? {
        var (v, n) := ContinuationSize(content, i + 1, i).value;
        assert content[i..n][1..] == content[i + 1..n];
      }
    }
  }

  /** `packObjectSize` in closed form. It fails exactly when the input is empty or no
      byte among the first ten ends the size; otherwise it reads up to and including
      the first byte with bit 7 clear, takes the kind from bits 6..4 of the first byte,
      and the size is that byte's low 4 bits plus the 7-bit groups of the following
      bytes shifted by 4, 11, 18, ..., modulo 2^64. */
  lemma DecodeObjectHeaderMeaning(content: bytes)
    ensures DecodeObjectHeader(content).Failure? <==>
              (|content| == 0 || forall t :: 0 <= t < |content| && t < 10 ==> content[t] >= 128)
    ensures |content| == 0 ==> DecodeObjectHeader(content) == Failure(NoContent)
    ensures DecodeObjectHeader(content).Success? ==>
              var h := DecodeObjectHeader(content).value;
              && 1 <= h.bytesRead <= |content| && h.bytesRead <= 10
              && Terminates(content, h.bytesRead)
              && h.objType == HeaderType(content[0])
              && h.length == (content[0] % 16 + 16 * Groups7(content[1..h.bytesRead])) % Mod64
  {
    if |content| > 0 && content[0] >= 128 {
      ContinuationSizeMeaning(content, 1);
    } else if |content| > 0 {
      assert Groups7(content[1..1]) == 0;
    }
  }

  /** With bit 7 of the first byte clear, one byte is read and it holds the whole size. */
  lemma SingleByteHeader(content: bytes)
    requires |content| > 0 && content[0] < 128
    ensures DecodeObjectHeader(content) == Success(ObjectHeader(content[0] % 16, HeaderType(content[0]), 1))
  {
  }

  // -----------------------------------------------------------------------
  // The inverse: encoding a header

  /** 7-bit groups, least significant first, bit 7 set on all but the last. */
  function EncodeGroups(n: nat): (r: bytes)
    ensures |r| >= 1
  {
    if n < 128 then [n] else [n % 128 + 128] + EncodeGroups(n / 128)
  }

  /** The header `packObjectSize` expects for kind `t` and size `size`. */
  function EncodeObjectHeader(t: GitObjectType, size: nat): (r: bytes)
    requires t < 8
  {
    if size < 16 then [16 * t + size]
    else [128 + 16 * t + size % 16] + EncodeGroups(size / 16)
  }

  function Pow128(g: nat): (r: nat)
    ensures r >= 1
  {
    if g == 0 then 1 else 128 * Pow128(g - 1)
  }

  /** `g` groups cover every value below 128^g. */
  lemma {:induction false} EncodeGroupsLength(n: nat, g: nat)
    requires n < Pow128(g) && g >= 1
    ensures |EncodeGroups(n)| <= g
  {
    if n >= 128 {
      assert g >= 2;
      EncodeGroupsLength(n / 128, g - 1);
    }
  }

  lemma {:induction false} ContinuationSizeOfGroups(pre: bytes, n: nat, k: nat, post: bytes)
    requires |pre| >= 1 && |EncodeGroups(n)| + k <= 9
    ensures ContinuationSize(pre + EncodeGroups(n) + post, |pre|, k) == Success((n, |pre| + |EncodeGroups(n)|))
    decreases n
  {
    var e := EncodeGroups(n);
    var s := pre + e + post;
    assert s[|pre|] == e[0];
    if n >= 128 {
      var pre' := pre + [e[0]];
      assert s == pre' + EncodeGroups(n / 128) + post;
      ContinuationSizeOfGroups(pre', n / 128, k + 1, post);
    }
  }

  /** Decoding an encoded header gives back the size, the kind (5 reading as
      `Invalid`) and the header's length, whatever follows it. */
  lemma EncodeDecodeObjectHeader(t: GitObjectType, size: nat, rest: bytes)
    requires t < 8 && size < Mod64
    ensures DecodeObjectHeader(EncodeObjectHeader(t, size) + rest)
         == Success(ObjectHeader(size, if t == 5 then Invalid else t, |EncodeObjectHeader(t, size)|))
  {
    var h := EncodeObjectHeader(t, size);
    if size < 16 {
      FirstHeaderByte(t, size, 0);
      assert (h + rest)[0] == 16 * t + size;
    } else {
      EncodeDecodeLong(t, size, rest);
    }
  }

  /** The first header byte keeps the kind in bits 6..4 and the low size bits in 3..0. */
  lemma FirstHeaderByte(t: nat, low: nat, more: nat)
    requires t < 8 && low < 16 && (more == 0 || more == 128)
    ensures (more + 16 * t + low) / 16 % 8 == t && (more + 16 * t + low) % 16 == low
  {
    assert more + 16 * t + low == 16 * (more / 16 + t) + low;
  }

  /** A size of 16 or more: a first byte with the continuation bit, then the groups. */
  lemma EncodeDecodeLong(t: GitObjectType, size: nat, rest: bytes)
    requires t < 8 && 16 <= size < Mod64
    ensures DecodeObjectHeader(EncodeObjectHeader(t, size) + rest)
         == Success(ObjectHeader(size, if t == 5 then Invalid else t, |EncodeObjectHeader(t, size)|))
  {
    var h := EncodeObjectHeader(t, size);
    var b0: byte := 128 + 16 * t + size % 16;
    FirstHeaderByte(t, size % 16, 128);
    assert size / 16 < Pow128(9) by {
      Pow128Of9();
    }
    EncodeGroupsLength(size / 16, 9);
    var first: bytes := [b0];
    assert h + rest == first + EncodeGroups(size / 16) + rest;
    ContinuationSizeOfGroups(first, size / 16, 0, rest);
    assert (h + rest)[0] == b0;
    assert size % 16 + 16 * (size / 16) == size;
  }

  lemma Pow128Of9()
    ensures Pow128(9) == 0x8000_0000_0000_0000
  {
    assert Pow128(4) == 0x1000_0000;
  }

  // -----------------------------------------------------------------------
  // Vectors from cmd/clone/helper_test.go and cmd/mygit/clone_test.go

  lemma HeaderVectorsOneByte()
    ensures DecodeObjectHeader([]) == Failure(NoContent)
    ensures DecodeObjectHeader([0x0a]) == Success(ObjectHeader(10, Invalid, 1))
    ensures DecodeObjectHeader([0x00]) == Success(ObjectHeader(0, Invalid, 1))
    ensures DecodeObjectHeader([0x62]) == Success(ObjectHeader(2, OfsDelta, 1))
    ensures DecodeObjectHeader([0x27]) == Success(ObjectHeader(7, Tree, 1))
  {
  }

  lemma HeaderVectorsTwoBytes()
    ensures DecodeObjectHeader([0x8a, 0x42]) == Success(ObjectHeader(1066, Invalid, 2))
    ensures DecodeObjectHeader([0x96, 0x0a]) == Success(ObjectHeader(166, Commit, 2))
    ensures DecodeObjectHeader([0xA3, 0x15]) == Success(ObjectHeader(339, Tree, 2))
    ensures DecodeObjectHeader([0xAC, 0x7F]) == Success(ObjectHeader(2044, Tree, 2))
  {
    assert ContinuationSize([0x8a, 0x42], 1, 0) == Success((0x42, 2));
    assert ContinuationSize([0x96, 0x0a], 1, 0) == Success((0x0a, 2));
    assert ContinuationSize([0xA3, 0x15], 1, 0) == Success((0x15, 2));
    assert ContinuationSize([0xAC, 0x7F], 1, 0) == Success((0x7F, 2));
  }

  lemma HeaderVectorsThreeBytes()
    ensures DecodeObjectHeader([0x82, 0x81, 0x03]) == Success(ObjectHeader(6162, Invalid, 3))
    ensures DecodeObjectHeader([0xE1, 0x81, 0x02]) == Success(ObjectHeader(4113, OfsDelta, 3))
  {
    assert ContinuationSize([0x82, 0x81, 0x03], 2, 1) == Success((3, 3));
    assert ContinuationSize([0xE1, 0x81, 0x02], 2, 1) == Success((2, 3));
  }
}
