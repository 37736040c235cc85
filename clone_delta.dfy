/**
 * The delta interpreter of cmd/clone/clone.go: `readVarInt` and
 * `applyDelta`, which rebuilds an object from its base and a git delta
 * stream (the delta format of gitformat-pack: two size varints, then
 * insert and copy instructions).
 */
module CloneDelta {
  import opened Wrappers
  import opened GoLib
  import opened CloneHelper

  // -----------------------------------------------------------------------
  // readVarInt

  datatype VarIntError =
    | VarIntTruncated  // "unexpected end of data while reading variable-length integer"
    | VarIntTooLarge   // "variable-length integer too large or malformed"

  /** The varint starting at `offset`, when `k` of its bytes come before it:
      its value and the index after it. The shift reaches 63 after the ninth
      byte, so a ninth byte that asks for more is an error. */
  function VarIntFrom(data: bytes, offset: nat, k: nat): Result<(nat, nat), VarIntError>
    decreases |data| - offset
  {
    if offset >= |data| then Failure(VarIntTruncated)
    else if data[offset] < 128 then Success((data[offset] % 128, offset + 1))
    else if 7 * (k + 1) >= 63 then Failure(VarIntTooLarge)
    else match VarIntFrom(data, offset + 1, k + 1)
      case Failure(e) => Failure(e)
      case Success((v, n)) => Success((data[offset] % 128 + 128 * v, n))
  }

  /** `readVarInt(data, offset)`: the varint at `offset` and the offset after it. */
  method ReadVarInt(data: bytes, offset: nat) returns (r: Result<(nat, nat), VarIntError>)
    ensures r == VarIntFrom(data, offset, 0)
  {
    var result: nat, shift: nat := 0, 0;
    var pos := offset;
    ghost var whole := VarIntFrom(data, offset, 0);
    while true
      invariant pos >= offset && shift == 7 * (pos - offset) && shift < 63
      invariant Lift(result, Pow2(shift), VarIntFrom(data, pos, pos - offset)) == whole
      decreases |data| - pos
    {
      if pos >= |data| {
        return Failure(VarIntTruncated);
      }
      var b := data[pos];
      VarIntStep(data, offset, pos, result, shift);
      pos := pos + 1;
      // the group lands above every bit set so far, so Go's `|=` adds it
      result := result + b % 128 * Pow2(shift);
      if b < 128 {
        break;
      }
      shift := shift + 7;
      if shift >= 63 {
        return Failure(VarIntTooLarge);
      }
    }
    return Success((result, pos));
  }

  /** One turn of the `readVarInt` loop, reading the byte at `pos`. */
  lemma VarIntStep(data: bytes, offset: nat, pos: nat, result: nat, shift: nat)
    requires offset <= pos < |data| && shift == 7 * (pos - offset) < 63
    ensures data[pos] < 128 ==>
              Lift(result, Pow2(shift), VarIntFrom(data, pos, pos - offset))
              == Success((result + data[pos] % 128 * Pow2(shift), pos + 1))
    ensures data[pos] >= 128 && shift + 7 >= 63 ==>
              Lift(result, Pow2(shift), VarIntFrom(data, pos, pos - offset)) == Failure(VarIntTooLarge)
    ensures data[pos] >= 128 && shift + 7 < 63 ==>
              Lift(result, Pow2(shift), VarIntFrom(data, pos, pos - offset))
              == Lift(result + data[pos] % 128 * Pow2(shift), Pow2(shift + 7), VarIntFrom(data, pos + 1, pos + 1 - offset))
  {
    if data[pos] >= 128 && shift + 7 < 63 {
      Pow2Add(shift, 7);
      assert Pow2(7) == 128;
      LiftCompose(result, Pow2(shift), data[pos] % 128, 128, VarIntFrom(data, pos + 1, pos + 1 - offset));
    }
  }

  /** A decoded varint spans at most nine bytes, ends at the first byte with
      bit 7 clear, and its value is the bytes' 7-bit groups. */
  lemma {:induction false} VarIntMeaning(data: bytes, offset: nat, k: nat)
    requires k <= 8
    ensures VarIntFrom(data, offset, k).Success? ==>
              var (v, n) := VarIntFrom(data, offset, k).value;
              && offset < n <= |data| && n - offset + k <= 9 && data[n - 1] < 128
              && (forall t :: offset <= t < n - 1 ==> data[t] >= 128)
              && v == Groups7(data[offset..n]) && v < Pow128(n - offset)
    decreases |data| - offset
  {
    if offset >= |data| || data[offset] < 128 {
      if offset < |data| {
        assert data[offset..offset + 1] == [data[offset]];
        assert Groups7(data[offset..offset + 1]) == data[offset] % 128 + 128 * Groups7([]);
      }
    } else if 7 * (k + 1) < 63 {
      VarIntMeaning(data, offset + 1, k + 1);
      if VarIntFrom(data, offset + 1, k + 1).Success? {
        var (v, n) := VarIntFrom(data, offset + 1, k + 1).value;
        assert data[offset..n][1..] == data[offset + 1..n];
      }
    }
  }

  /** Reading back the 7-bit group encoding of a value below 2^63 gives the
      value and the offset after it, whatever surrounds it. */
  lemma {:induction false} VarIntRoundTrip(pre: bytes, n: nat, k: nat, post: bytes)
    requires |EncodeGroups(n)| + k <= 9
    ensures VarIntFrom(pre + EncodeGroups(n) + post, |pre|, k) == Success((n, |pre| + |EncodeGroups(n)|))
    decreases n
  {
    var e := EncodeGroups(n);
    var s := pre + e + post;
    assert s[|pre|] == e[0];
    if n >= 128 {
      var pre' := pre + [e[0]];
      assert s == pre' + EncodeGroups(n / 128) + post;
      VarIntRoundTrip(pre', n / 128, k + 1, post);
    }
  }

  // -----------------------------------------------------------------------
  // applyDelta: the specification

  datatype DeltaError =
    | BaseSizeUnreadable(cause: VarIntError)
    | BaseSizeMismatch(expected: nat, actual: nat)
    | ResultSizeUnreadable(cause: VarIntError)
    | UnsupportedLiteralLength           // command byte 0x00
    | LiteralTruncated(length: nat, at: nat)
    | OffsetTruncated(byteNumber: nat)   // 1-based number of the missing offset byte
    | SizeTruncated(byteNumber: nat)     // 1-based number of the missing size byte
    | CopyOutOfBounds(offset: nat, size: nat, baseLength: nat)
    | ResultSizeMismatch(expected: nat, actual: nat)
    | ResultCapOutOfRange(size: nat)     // the panic of `make([]byte, 0, size)`: "makeslice: cap out of range"

  /** The largest capacity `make` accepts for a byte slice on 64-bit Linux
      (the runtime's `maxAlloc`, 2^48); a larger one panics. */
  const MaxAlloc: nat := 0x1_0000_0000_0000

  /** Bit `k` of a command byte: Go's `commandByte & (1 << k) != 0`. */
  predicate BitSet(cmd: byte, k: nat) {
    if k == 0 then cmd % 2 == 1 else BitSet(cmd / 2, k - 1)
  }

  function Pow256(i: nat): (r: nat)
    ensures r >= 1
  {
    if i == 0 then 1 else 256 * Pow256(i - 1)
  }

  /** Byte `b` as byte `i` of a little-endian number: Go's `int(b) << (8 * i)`. */
  function Scaled(b: byte, i: nat): nat {
    b * Pow256(i)
  }

  function OperandError(isSize: bool, i: nat): DeltaError {
    if isSize then SizeTruncated(i + 1) else OffsetTruncated(i + 1)
  }

  /** The operand bytes a copy command selects with its bits `first + i` ..
      `first + count - 1`: each selected bit takes the next instruction byte
      as byte `i` of the little-endian operand. Gives the operand's part from
      byte `i` on and the position after the bytes read. The second
      component of the measure only keeps calls with a literal `count` from
      being expanded in full wherever they appear. */
  function OperandFrom(instr: bytes, pos: nat, cmd: byte, first: nat, count: nat, i: nat, isSize: bool)
    : (r: Result<(nat, nat), DeltaError>)
    requires pos <= |instr|
    ensures r.Success? ==> pos <= r.value.1 <= |instr|
    decreases count - i, |instr| - pos
  {
    if i >= count then Success((0, pos))
    else if !BitSet(cmd, first + i) then OperandFrom(instr, pos, cmd, first, count, i + 1, isSize)
    else if pos >= |instr| then Failure(OperandError(isSize, i))
    else match OperandFrom(instr, pos + 1, cmd, first, count, i + 1, isSize)
      case Failure(e) => Failure(e)
      case Success((v, n)) => Success((Scaled(instr[pos], i) + v, n))
  }

  /** One turn of an operand loop whose bit `first + i` is clear: nothing is read. */
  lemma OperandSkip(instr: bytes, p: nat, cmd: byte, first: nat, count: nat, i: nat, isSize: bool)
    requires i < count && p <= |instr| && !BitSet(cmd, first + i)
    ensures OperandFrom(instr, p, cmd, first, count, i, isSize) == OperandFrom(instr, p, cmd, first, count, i + 1, isSize)
  {
  }

  /** A set bit with no byte left to read. */
  lemma OperandMissing(instr: bytes, p: nat, cmd: byte, first: nat, count: nat, i: nat, isSize: bool, acc: nat)
    requires i < count && p == |instr| && BitSet(cmd, first + i)
    ensures Lift(acc, 1, OperandFrom(instr, p, cmd, first, count, i, isSize)) == Failure(OperandError(isSize, i))
  {
  }

  /** A set bit takes the next byte as byte `i` of the operand. */
  lemma OperandTake(instr: bytes, p: nat, cmd: byte, first: nat, count: nat, i: nat, isSize: bool, acc: nat)
    requires i < count && p < |instr| && BitSet(cmd, first + i)
    ensures Lift(acc, 1, OperandFrom(instr, p, cmd, first, count, i, isSize))
            == Lift(acc + Scaled(instr[p], i), 1, OperandFrom(instr, p + 1, cmd, first, count, i + 1, isSize))
  {
    match OperandFrom(instr, p + 1, cmd, first, count, i + 1, isSize)
    case Failure(_) =>
    case Success((v, n)) =>
  }

  /** None of the bits `first` .. `first + i - 1` is set. */
  predicate NoBitSet(cmd: byte, first: nat, i: nat) {
    i == 0 || (NoBitSet(cmd, first, i - 1) && !BitSet(cmd, first + i - 1))
  }

  /** A copy's offset: bits 0..3 select up to four bytes. */
  function CopyOffset(instr: bytes, pos: nat, cmd: byte): (r: Result<(nat, nat), DeltaError>)
    requires pos <= |instr|
    ensures r.Success? ==> pos <= r.value.1 <= |instr|
  {
    OperandFrom(instr, pos, cmd, 0, 4, 0, false)
  }

  /** A copy's size: bits 4..6 select up to three bytes; with none of them
      set the size is 0x10000. */
  function CopySize(instr: bytes, pos: nat, cmd: byte): (r: Result<(nat, nat), DeltaError>)
    requires pos <= |instr|
    ensures r.Success? ==> pos <= r.value.1 <= |instr|
  {
    match OperandFrom(instr, pos, cmd, 4, 3, 0, true)
    case Failure(e) => Failure(e)
    case Success((v, n)) =>
      Success((if !BitSet(cmd, 4) && !BitSet(cmd, 5) && !BitSet(cmd, 6) then 0x10000 else v, n))
  }

  /** `x` in front of a successful result. */
  function Prepend(x: bytes, r: Result<bytes, DeltaError>): Result<bytes, DeltaError> {
    match r
    case Failure(e) => Failure(e)
    case Success(y) => Success(x + y)
  }

  lemma PrependNothing(r: Result<bytes, DeltaError>)
    ensures Prepend([], r) == r
  {
    match r
    case Failure(_) =>
    case Success(z) =>
      assert [] + z == z;
  }

  lemma PrependPrepend(x: bytes, y: bytes, r: Result<bytes, DeltaError>)
    ensures Prepend(x, Prepend(y, r)) == Prepend(x + y, r)
  {
    match r
    case Failure(_) =>
    case Success(z) =>
      assert x + (y + z) == x + y + z;
  }

  /** The one instruction at `pos` (`pos < |instr|`): the bytes it appends
      and the position of the next instruction. */
  function RunCommand(base: bytes, instr: bytes, pos: nat): (r: Result<(bytes, nat), DeltaError>)
    requires pos < |instr|
    ensures r.Success? ==> pos < r.value.1 <= |instr|
  {
    var cmd := instr[pos];
    var p := pos + 1;
    if cmd < 128 then
      var length := cmd % 128;
      if length == 0 then Failure(UnsupportedLiteralLength)
      else if p + length > |instr| then Failure(LiteralTruncated(length, pos))
      else Success((instr[p..p + length], p + length))
    else match CopyOffset(instr, p, cmd)
      case Failure(e) => Failure(e)
      case Success((offset, p1)) =>
        match CopySize(instr, p1, cmd)
        case Failure(e) => Failure(e)
        case Success((size, p2)) =>
          if offset + size > |base| then Failure(CopyOutOfBounds(offset, size, |base|))
          else Success((base[offset..offset + size], p2))
  }

  /** The instructions from `pos` to the end, run against `base`. */
  function RunDelta(base: bytes, instr: bytes, pos: nat): Result<bytes, DeltaError>
    decreases |instr| - pos
  {
    if pos >= |instr| then Success([])
    else match RunCommand(base, instr, pos)
      case Failure(e) => Failure(e)
      case Success((out, next)) => Prepend(out, RunDelta(base, instr, next))
  }

  /** What `applyDelta(base, instr)` returns. */
  function ApplyDeltaSpec(base: bytes, instr: bytes): Result<bytes, DeltaError> {
    match VarIntFrom(instr, 0, 0)
    case Failure(e) => Failure(BaseSizeUnreadable(e))
    case Success((baseSize, p0)) =>
      if baseSize != |base| then Failure(BaseSizeMismatch(baseSize, |base|))
      else match VarIntFrom(instr, p0, 0)
        case Failure(e) => Failure(ResultSizeUnreadable(e))
        case Success((size, p1)) =>
          if size > MaxAlloc then Failure(ResultCapOutOfRange(size))
          else match RunDelta(base, instr, p1)
            case Failure(e) => Failure(e)
            case Success(out) =>
              if |out| != size then Failure(ResultSizeMismatch(size, |out|)) else Success(out)
  }

  // -----------------------------------------------------------------------
  // applyDelta: the Go code

  /** The offset loop over the bits 0x01, 0x02, 0x04, 0x08. */
  method ReadCopyOffset(instr: bytes, pos: nat, cmd: byte) returns (r: Result<(nat, nat), DeltaError>)
    requires pos <= |instr|
    ensures r == CopyOffset(instr, pos, cmd)
  {
    var offset: nat := 0;
    var p := pos;
    var i := 0;
    ghost var whole := CopyOffset(instr, pos, cmd);
    while i < 4
      invariant 0 <= i <= 4 && pos <= p <= |instr|
      invariant Lift(offset, 1, OperandFrom(instr, p, cmd, 0, 4, i, false)) == whole
    {
      if BitSet(cmd, i) {
        if p >= |instr| {
          OperandMissing(instr, p, cmd, 0, 4, i, false, offset);
          return Failure(OffsetTruncated(i + 1));
        }
        OperandTake(instr, p, cmd, 0, 4, i, false, offset);
        offset := offset + Scaled(instr[p], i);
        p := p + 1;
      } else {
        OperandSkip(instr, p, cmd, 0, 4, i, false);
      }
      i := i + 1;
    }
    return Success((offset, p));
  }

  /** The size loop over the bits 0x10, 0x20, 0x40: the first byte read
      replaces the default 0x10000, later ones are added in. */
  method ReadCopySize(instr: bytes, pos: nat, cmd: byte) returns (r: Result<(nat, nat), DeltaError>)
    requires pos <= |instr|
    ensures r == CopySize(instr, pos, cmd)
  {
    var size: nat := 0x10000;
    var sizeBytesRead := 0;
    var p := pos;
    var i := 0;
    ghost var whole := OperandFrom(instr, pos, cmd, 4, 3, 0, true);
    while i < 3
      invariant 0 <= i <= 3 && pos <= p <= |instr|
      invariant sizeBytesRead == 0 <==> NoBitSet(cmd, 4, i)
      invariant sizeBytesRead == 0 ==> size == 0x10000
      invariant Lift(if sizeBytesRead == 0 then 0 else size, 1, OperandFrom(instr, p, cmd, 4, 3, i, true)) == whole
    {
      if BitSet(cmd, 4 + i) {
        if p >= |instr| {
          OperandMissing(instr, p, cmd, 4, 3, i, true, if sizeBytesRead == 0 then 0 else size);
          return Failure(SizeTruncated(i + 1));
        }
        OperandTake(instr, p, cmd, 4, 3, i, true, if sizeBytesRead == 0 then 0 else size);
        if i == 0 || sizeBytesRead == 0 {
          size := Scaled(instr[p], i);
        } else {
          size := size + Scaled(instr[p], i);
        }
        p := p + 1;
        sizeBytesRead := sizeBytesRead + 1;
      } else {
        OperandSkip(instr, p, cmd, 4, 3, i, true);
      }
      i := i + 1;
    }
    assert NoBitSet(cmd, 4, 1) <==> !BitSet(cmd, 4);
    assert NoBitSet(cmd, 4, 3) <==> NoBitSet(cmd, 4, 1) && !BitSet(cmd, 5) && !BitSet(cmd, 6);
    return Success((size, p));
  }

  /** One turn of the `applyDelta` loop: the instruction at `deltaOffset`,
      giving the bytes it appends and the offset after it. */
  method ApplyCommand(base: bytes, instr: bytes, deltaOffset: nat) returns (r: Result<(bytes, nat), DeltaError>)
    requires deltaOffset < |instr|
    ensures r == RunCommand(base, instr, deltaOffset)
  {
    var commandByte := instr[deltaOffset];
    var p := deltaOffset + 1;
    if commandByte < 128 {
      var length := commandByte % 128;
      if length == 0 {
        return Failure(UnsupportedLiteralLength);
      }
      if p + length > |instr| {
        return Failure(LiteralTruncated(length, p - 1));
      }
      return Success((instr[p..p + length], p + length));
    }
    var offsetRead := ReadCopyOffset(instr, p, commandByte);
    if offsetRead.Failure? {
      return Failure(offsetRead.error);
    }
    var offset := offsetRead.value.0;
    var sizeRead := ReadCopySize(instr, offsetRead.value.1, commandByte);
    if sizeRead.Failure? {
      return Failure(sizeRead.error);
    }
    var size := sizeRead.value.0;
    if offset + size > |base| {
      return Failure(CopyOutOfBounds(offset, size, |base|));
    }
    return Success((base[offset..offset + size], sizeRead.value.1));
  }

  /** `applyDelta(baseContent, deltaInstructions)`. */
  method ApplyDelta(base: bytes, instr: bytes) returns (r: Result<bytes, DeltaError>)
    ensures r == ApplyDeltaSpec(base, instr)
  {
    var header := ReadVarInt(instr, 0);
    if header.Failure? {
      return Failure(BaseSizeUnreadable(header.error));
    }
    var (baseSizeFromDelta, deltaOffset) := header.value;
    if baseSizeFromDelta != |base| {
      return Failure(BaseSizeMismatch(baseSizeFromDelta, |base|));
    }
    var sizeHeader := ReadVarInt(instr, deltaOffset);
    if sizeHeader.Failure? {
      return Failure(ResultSizeUnreadable(sizeHeader.error));
    }
    var size;
    size, deltaOffset := sizeHeader.value.0, sizeHeader.value.1;
    if size > MaxAlloc {
      return Failure(ResultCapOutOfRange(size));
    }
    VarIntMeaning(instr, 0, 0);
    VarIntMeaning(instr, header.value.1, 0);
    ghost var start := deltaOffset;

    var result: bytes := [];
    PrependNothing(RunDelta(base, instr, start));
    while deltaOffset < |instr|
      invariant deltaOffset <= |instr|
      invariant Prepend(result, RunDelta(base, instr, deltaOffset)) == RunDelta(base, instr, start)
      decreases |instr| - deltaOffset
    {
      var step := ApplyCommand(base, instr, deltaOffset);
      RunDeltaStepOrFail(base, instr, deltaOffset);
      if step.Failure? {
        return Failure(step.error);
      }
      var (chunk, next) := step.value;
      PrependPrepend(result, chunk, RunDelta(base, instr, next));
      result := result + chunk;
      deltaOffset := next;
    }

    assert result + [] == result;
    if |result| != size {
      return Failure(ResultSizeMismatch(size, |result|));
    }
    return Success(result);
  }

  // -----------------------------------------------------------------------
  // The inverse: instructions that build a known result

  /** A delta instruction as the format describes it. */
  datatype DeltaOp = Insert(data: bytes) | Copy(offset: nat, size: nat)

  /** An instruction the encoder below can write: an insert of 1..127 bytes,
      or a copy of a non-empty base range with a 32-bit offset and a 24-bit
      size. */
  predicate Encodable(base: bytes, op: DeltaOp) {
    match op
    case Insert(data) => 1 <= |data| <= 127
    case Copy(offset, size) => offset < 0x1_0000_0000 && 1 <= size < 0x100_0000 && offset + size <= |base|
  }

  /** Every instruction of the list is encodable. */
  predicate AllEncodable(base: bytes, ops: seq<DeltaOp>) {
    ops == [] || (Encodable(base, ops[0]) && AllEncodable(base, ops[1..]))
  }

  /** Reference semantics of one instruction: its bytes, or the base range it names. */
  function OpOutput(base: bytes, op: DeltaOp): bytes
    requires Encodable(base, op)
  {
    match op
    case Insert(data) => data
    case Copy(offset, size) => base[offset..offset + size]
  }

  /** Reference semantics: the bytes the instructions produce. */
  function Execute(base: bytes, ops: seq<DeltaOp>): bytes
    requires AllEncodable(base, ops)
  {
    if ops == [] then []
    else OpOutput(base, ops[0]) + Execute(base, ops[1..])
  }

  /** The selector bits of the `n` low bytes of `v`: bit `k` is set when
      byte `k` of `v` is not zero. */
  function SelectorBits(v: nat, n: nat): (r: nat)
    ensures r < Pow2(n)
  {
    if n == 0 then 0 else (if v % 256 != 0 then 1 else 0) + 2 * SelectorBits(v / 256, n - 1)
  }

  /** The bytes among the `n` low bytes of `v` that are not zero, low byte
      first: git writes a copy's operands this way, leaving out zero bytes. */
  function NonZeroBytes(v: nat, n: nat): bytes {
    if n == 0 then []
    else if v % 256 == 0 then NonZeroBytes(v / 256, n - 1)
    else [v % 256] + NonZeroBytes(v / 256, n - 1)
  }

  /** A copy's size as written: 0x10000 is written with no size byte at all. */
  function SizeField(size: nat): nat {
    if size == 0x10000 then 0 else size
  }

  /** The command byte of a copy: bit 7, and one bit for each offset or size
      byte that is written. */
  function CopyCommand(offset: nat, size: nat): byte {
    assert Pow2(4) == 16 && Pow2(3) == 8;
    0x80 + SelectorBits(offset, 4) + 16 * SelectorBits(SizeField(size), 3)
  }

  /** One instruction, as git writes it: an insert is its length then its
      bytes; a copy is its command byte, the offset bytes that are not zero,
      then the size bytes that are not zero (none for 0x10000). */
  function EncodeOp(op: DeltaOp): bytes
    requires op.Insert? ==> 1 <= |op.data| <= 127
  {
    match op
    case Insert(data) => [|data|] + data
    case Copy(offset, size) =>
      [CopyCommand(offset, size)] + NonZeroBytes(offset, 4) + NonZeroBytes(SizeField(size), 3)
  }

  function EncodeOps(base: bytes, ops: seq<DeltaOp>): bytes
    requires AllEncodable(base, ops)
  {
    if ops == [] then [] else EncodeOp(ops[0]) + EncodeOps(base, ops[1..])
  }

  /** A whole delta: base size, result size, instructions. */
  function EncodeDelta(base: bytes, ops: seq<DeltaOp>): bytes
    requires AllEncodable(base, ops)
  {
    EncodeGroups(|base|) + EncodeGroups(|Execute(base, ops)|) + EncodeOps(base, ops)
  }

  /** Bits `b` .. `b + n - 1` of `cmd` are set exactly for the bytes among the
      `n` low bytes of `v` that are not zero. */
  predicate SelectsNonZero(cmd: byte, b: nat, v: nat, n: nat)
    decreases n
  {
    n == 0 || ((BitSet(cmd, b) <==> v % 256 != 0) && SelectsNonZero(cmd, b + 1, v / 256, n - 1))
  }

  /** Bits of `x + 2^m * y`: those below `m` are the bits of `x`, and bit
      `m + k` is bit `k` of `y`. */
  lemma {:induction false} ShiftBits(x: nat, y: nat, m: nat, k: nat)
    requires x < 256 && y < 256 && x < Pow2(m) && x + Pow2(m) * y < 256
    ensures k < m ==> BitSet(x + Pow2(m) * y, k) == BitSet(x, k)
    ensures BitSet(x + Pow2(m) * y, m + k) == BitSet(y, k)
    decreases m
  {
    if m > 0 {
      var c := x + Pow2(m) * y;
      var y2 := Pow2(m - 1) * y;
      assert Pow2(m) * y == 2 * y2;
      assert c % 2 == x % 2 && c / 2 == x / 2 + y2;
      ShiftBits(x / 2, y, m - 1, k);
      if 0 < k < m {
        ShiftBits(x / 2, y, m - 1, k - 1);
      }
    }
  }

  /** Bit `b + 1` of `c` is bit `b` of `c / 2`, so selecting from bit `b + 1`
      of `c` is selecting from bit `b` of `c / 2`. */
  lemma {:induction false} SelectsShift(c: byte, b: nat, v: nat, n: nat)
    ensures SelectsNonZero(c, b + 1, v, n) == SelectsNonZero(c / 2, b, v, n)
    decreases n
  {
    if n > 0 {
      SelectsShift(c, b + 1, v / 256, n - 1);
    }
  }

  /** The selector bits of `v` select the bytes of `v` that are not zero. */
  lemma {:induction false} SelectorSelects(v: nat, n: nat)
    requires SelectorBits(v, n) < 256
    ensures SelectsNonZero(SelectorBits(v, n), 0, v, n)
    decreases n
  {
    if n > 0 {
      var s := SelectorBits(v, n);
      SelectorSelects(v / 256, n - 1);
      SelectsShift(s, 0, v / 256, n - 1);
      assert s / 2 == SelectorBits(v / 256, n - 1);
    }
  }

  /** Bits `b` .. `b + n - 1` below `m` of `x + 2^m * y` are those of `x`. */
  lemma {:induction false} SelectsLow(x: nat, y: nat, m: nat, b: nat, v: nat, n: nat)
    requires x < 256 && y < 256 && x < Pow2(m) && x + Pow2(m) * y < 256 && b + n <= m
    ensures SelectsNonZero(x + Pow2(m) * y, b, v, n) == SelectsNonZero(x, b, v, n)
    decreases n
  {
    if n > 0 {
      ShiftBits(x, y, m, b);
      SelectsLow(x, y, m, b + 1, v / 256, n - 1);
    }
  }

  /** Bits `m + b` .. of `x + 2^m * y` are bits `b` .. of `y`. */
  lemma {:induction false} SelectsHigh(x: nat, y: nat, m: nat, b: nat, v: nat, n: nat)
    requires x < 256 && y < 256 && x < Pow2(m) && x + Pow2(m) * y < 256
    ensures SelectsNonZero(x + Pow2(m) * y, m + b, v, n) == SelectsNonZero(y, b, v, n)
    decreases n
  {
    if n > 0 {
      ShiftBits(x, y, m, b);
      SelectsHigh(x, y, m, b + 1, v / 256, n - 1);
    }
  }

  /** A copy's command byte is a copy command, and it selects exactly the
      operand bytes that are written. */
  lemma CommandSelects(offset: nat, size: nat)
    ensures CopyCommand(offset, size) >= 128
    ensures SelectsNonZero(CopyCommand(offset, size), 0, offset, 4)
    ensures SelectsNonZero(CopyCommand(offset, size), 4, SizeField(size), 3)
  {
    var a, b := SelectorBits(offset, 4), SelectorBits(SizeField(size), 3);
    assert Pow2(4) == 16 && Pow2(3) == 8;
    assert CopyCommand(offset, size) == a + Pow2(4) * (b + Pow2(3) * 1);
    SelectorSelects(offset, 4);
    SelectorSelects(SizeField(size), 3);
    SelectsLow(a, b + 8, 4, 0, offset, 4);
    SelectsHigh(a, b + 8, 4, 0, SizeField(size), 3);
    SelectsLow(b, 1, 3, 0, SizeField(size), 3);
  }

  /** The first byte of `v` in front of the rest of its written bytes. */
  lemma NonZeroCons(instr: bytes, pos: nat, v: nat, m: nat)
    requires 0 < m && v < Pow256(m)
    requires WrittenAt(instr, pos, NonZeroBytes(v, m))
    ensures v / 256 < Pow256(m - 1)
    ensures v % 256 == 0 ==> NonZeroBytes(v, m) == NonZeroBytes(v / 256, m - 1)
    ensures v % 256 != 0 ==>
              && NonZeroBytes(v, m) == [v % 256] + NonZeroBytes(v / 256, m - 1)
              && pos < |instr| && instr[pos] == v % 256
              && WrittenAt(instr, pos + 1, NonZeroBytes(v / 256, m - 1))
  {
    var e := NonZeroBytes(v, m);
    if v % 256 != 0 {
      assert instr[pos] == e[0];
      assert instr[pos + 1..pos + |e|] == e[1..];
    }
  }

  /** A clear bit for a zero byte: the operand from byte `i` on is the one from `i + 1` on. */
  lemma SkipZeroByte(instr: bytes, pos: nat, cmd: byte, first: nat, count: nat, i: nat, isSize: bool, v: nat, n: nat)
    requires i < count && pos <= |instr| && !BitSet(cmd, first + i) && v % 256 == 0
    requires OperandFrom(instr, pos, cmd, first, count, i + 1, isSize) == Success((v / 256 * Pow256(i + 1), n))
    ensures OperandFrom(instr, pos, cmd, first, count, i, isSize) == Success((v * Pow256(i), n))
  {
    ByteSplit(v, i);
  }

  /** A set bit for the low byte of `v`, in front of the operand read from the rest of `v`. */
  lemma TakeByte(instr: bytes, pos: nat, cmd: byte, first: nat, count: nat, i: nat, isSize: bool, v: nat, n: nat)
    requires i < count && pos < |instr| && BitSet(cmd, first + i) && instr[pos] == v % 256
    requires OperandFrom(instr, pos + 1, cmd, first, count, i + 1, isSize) == Success((v / 256 * Pow256(i + 1), n))
    ensures OperandFrom(instr, pos, cmd, first, count, i, isSize) == Success((v * Pow256(i), n))
  {
    ByteSplit(v, i);
  }

  /** Reading an operand whose selector bits pick exactly the written bytes
      of `v`: the operand is `v`, and the bytes read are the written ones. */
  lemma {:induction false} OperandOfNonZero(instr: bytes, pos: nat, cmd: byte, first: nat, count: nat, i: nat, v: nat, isSize: bool)
    requires i <= count && v < Pow256(count - i)
    requires SelectsNonZero(cmd, first + i, v, count - i)
    requires WrittenAt(instr, pos, NonZeroBytes(v, count - i))
    ensures OperandFrom(instr, pos, cmd, first, count, i, isSize)
            == Success((v * Pow256(i), pos + |NonZeroBytes(v, count - i)|))
    decreases count - i
  {
    if i < count {
      var m := count - i;
      var rest := NonZeroBytes(v / 256, m - 1);
      NonZeroCons(instr, pos, v, m);
      if v % 256 == 0 {
        OperandOfNonZero(instr, pos, cmd, first, count, i + 1, v / 256, isSize);
        SkipZeroByte(instr, pos, cmd, first, count, i, isSize, v, pos + |rest|);
      } else {
        OperandOfNonZero(instr, pos + 1, cmd, first, count, i + 1, v / 256, isSize);
        TakeByte(instr, pos, cmd, first, count, i, isSize, v, pos + 1 + |rest|);
      }
    }
  }

  /** The size operand as written reads back as the size: 0x10000 from no
      size bit, any other size from the bytes it selects. */
  lemma SizeFromField(instr: bytes, p: nat, cmd: byte, size: nat, n: nat)
    requires 1 <= size < 0x100_0000 && p <= |instr|
    requires SelectsNonZero(cmd, 4, SizeField(size), 3)
    requires OperandFrom(instr, p, cmd, 4, 3, 0, true) == Success((SizeField(size), n))
    ensures CopySize(instr, p, cmd) == Success((size, n))
  {
    var v := SizeField(size);
    assert SelectsNonZero(cmd, 5, v / 256, 2);
    assert SelectsNonZero(cmd, 6, v / 256 / 256, 1);
    if v != 0 {
      assert v / 256 / 256 < 256;
      assert v % 256 != 0 || v / 256 % 256 != 0 || v / 256 / 256 % 256 != 0;
    }
  }

  /** `e` is written in `instr` from `pos` on. */
  predicate WrittenAt(instr: bytes, pos: nat, e: bytes) {
    pos + |e| <= |instr| && instr[pos..pos + |e|] == e
  }

  /** The parts of a copy instruction. */
  lemma CopyParts(instr: bytes, pos: nat, cmd: byte, ob: bytes, sb: bytes)
    requires WrittenAt(instr, pos, [cmd] + ob + sb)
    ensures pos < |instr| && instr[pos] == cmd
    ensures WrittenAt(instr, pos + 1, ob) && WrittenAt(instr, pos + 1 + |ob|, sb)
  {
    var e: bytes := [cmd] + ob + sb;
    var end := pos + 1 + |ob| + |sb|;
    assert instr[pos] == e[0];
    assert e[1..1 + |ob|] == ob && e[1 + |ob|..|e|] == sb;
    SliceOfSlice(instr, pos, end, 1, 1 + |ob|);
    SliceOfSlice(instr, pos, end, 1 + |ob|, |e|);
  }

  /** The low byte of `v` at byte `i` and the rest of `v` from byte `i + 1` on make `v` at byte `i`. */
  lemma ByteSplit(v: nat, i: nat)
    ensures Scaled(v % 256, i) + v / 256 * Pow256(i + 1) == v * Pow256(i)
  {
    var P := Pow256(i);
    assert Pow256(i + 1) == 256 * P;
    assert v / 256 * (256 * P) == (256 * (v / 256)) * P;
    assert v % 256 * P + (256 * (v / 256)) * P == (v % 256 + 256 * (v / 256)) * P;
  }

  /** The encoded instruction at `pos` runs as its reference semantics. */
  lemma RunOneOp(base: bytes, instr: bytes, pos: nat, op: DeltaOp)
    requires Encodable(base, op)
    requires WrittenAt(instr, pos, EncodeOp(op))
    ensures pos < |instr|
    ensures RunCommand(base, instr, pos) == Success((OpOutput(base, op), pos + |EncodeOp(op)|))
  {
    var e := EncodeOp(op);
    assert instr[pos] == e[0];
    match op
    case Insert(data) =>
      SliceOfSlice(instr, pos, pos + |e|, 1, |e|);
      assert e[1..] == data;
      RunInsert(base, instr, pos, data);
    case Copy(offset, size) =>
      RunCopy(base, instr, pos, offset, size);
  }

  /** `RunDelta` fails where the instruction at `pos` fails, and otherwise
      runs it, then the rest. */
  lemma RunDeltaStepOrFail(base: bytes, instr: bytes, pos: nat)
    requires pos < |instr|
    ensures RunCommand(base, instr, pos).Failure? ==>
              RunDelta(base, instr, pos) == Failure(RunCommand(base, instr, pos).error)
    ensures RunCommand(base, instr, pos).Success? ==>
              RunDelta(base, instr, pos)
              == Prepend(RunCommand(base, instr, pos).value.0, RunDelta(base, instr, RunCommand(base, instr, pos).value.1))
  {
  }

  /** `RunDelta` runs the instruction at `pos`, then the rest. */
  lemma RunDeltaStep(base: bytes, instr: bytes, pos: nat)
    requires pos < |instr| && RunCommand(base, instr, pos).Success?
    ensures RunDelta(base, instr, pos)
         == Prepend(RunCommand(base, instr, pos).value.0, RunDelta(base, instr, RunCommand(base, instr, pos).value.1))
  {
  }

  lemma RunInsert(base: bytes, instr: bytes, pos: nat, data: bytes)
    requires 1 <= |data| <= 127 && pos + 1 + |data| <= |instr|
    requires instr[pos] == |data| && instr[pos + 1..pos + 1 + |data|] == data
    ensures RunCommand(base, instr, pos) == Success((data, pos + 1 + |data|))
  {
  }

  /** A copy as git writes it appends the base range it names. */
  lemma RunCopy(base: bytes, instr: bytes, pos: nat, offset: nat, size: nat)
    requires Encodable(base, Copy(offset, size))
    requires WrittenAt(instr, pos, EncodeOp(Copy(offset, size)))
    ensures RunCommand(base, instr, pos)
            == Success((base[offset..offset + size], pos + |EncodeOp(Copy(offset, size))|))
  {
    var cmd, ob, sb := CopyCommand(offset, size), NonZeroBytes(offset, 4), NonZeroBytes(SizeField(size), 3);
    assert EncodeOp(Copy(offset, size)) == [cmd] + ob + sb;
    CommandSelects(offset, size);
    RunCopyParts(base, instr, pos, offset, size, cmd, ob, sb);
  }

  /** `RunCopy` on the command byte and the two operand strings, named. */
  lemma RunCopyParts(base: bytes, instr: bytes, pos: nat, offset: nat, size: nat, cmd: byte, ob: bytes, sb: bytes)
    requires offset < 0x1_0000_0000 && 1 <= size < 0x100_0000 && offset + size <= |base|
    requires cmd >= 128 && SelectsNonZero(cmd, 0, offset, 4) && SelectsNonZero(cmd, 4, SizeField(size), 3)
    requires ob == NonZeroBytes(offset, 4) && sb == NonZeroBytes(SizeField(size), 3)
    requires WrittenAt(instr, pos, [cmd] + ob + sb)
    ensures RunCommand(base, instr, pos) == Success((base[offset..offset + size], pos + 1 + |ob| + |sb|))
  {
    CopyParts(instr, pos, cmd, ob, sb);
    OffsetRead(instr, pos + 1, cmd, offset);
    SizeRead(instr, pos + 1 + |ob|, cmd, size);
    RunCopyCommand(base, instr, pos, offset, size, pos + 1 + |ob|, pos + 1 + |ob| + |sb|);
  }

  /** The offset bytes as written read back as the offset. */
  lemma OffsetRead(instr: bytes, p: nat, cmd: byte, offset: nat)
    requires offset < 0x1_0000_0000 && SelectsNonZero(cmd, 0, offset, 4)
    requires WrittenAt(instr, p, NonZeroBytes(offset, 4))
    ensures CopyOffset(instr, p, cmd) == Success((offset, p + |NonZeroBytes(offset, 4)|))
  {
    assert Pow256(4) == 0x1_0000_0000;
    OperandOfNonZero(instr, p, cmd, 0, 4, 0, offset, false);
  }

  /** The size bytes as written read back as the size. */
  lemma SizeRead(instr: bytes, p: nat, cmd: byte, size: nat)
    requires 1 <= size < 0x100_0000 && SelectsNonZero(cmd, 4, SizeField(size), 3)
    requires WrittenAt(instr, p, NonZeroBytes(SizeField(size), 3))
    ensures CopySize(instr, p, cmd) == Success((size, p + |NonZeroBytes(SizeField(size), 3)|))
  {
    assert Pow256(3) == 0x100_0000;
    OperandOfNonZero(instr, p, cmd, 4, 3, 0, SizeField(size), true);
    SizeFromField(instr, p, cmd, size, p + |NonZeroBytes(SizeField(size), 3)|);
  }

  /** A copy command whose operands read back. */
  lemma RunCopyCommand(base: bytes, instr: bytes, pos: nat, offset: nat, size: nat, p1: nat, p2: nat)
    requires pos < |instr| && instr[pos] >= 128 && offset + size <= |base|
    requires CopyOffset(instr, pos + 1, instr[pos]) == Success((offset, p1))
    requires p1 <= |instr| && CopySize(instr, p1, instr[pos]) == Success((size, p2))
    ensures RunCommand(base, instr, pos) == Success((base[offset..offset + size], p2))
  {
  }

  /** Running encoded instructions produces their reference result. */
  lemma {:induction false} RunEncodedOps(base: bytes, instr: bytes, pos: nat, ops: seq<DeltaOp>)
    requires AllEncodable(base, ops)
    requires pos <= |instr| && instr[pos..] == EncodeOps(base, ops)
    ensures RunDelta(base, instr, pos) == Success(Execute(base, ops))
    decreases |ops|
  {
    if ops == [] {
      assert |instr[pos..]| == 0;
    } else {
      var next := EncodedStep(base, instr, pos, ops);
      RunEncodedOps(base, instr, next, ops[1..]);
    }
  }

  /** The first encoded instruction of a list runs as its reference
      semantics and leaves `next` at the encoding of the rest. */
  lemma EncodedStep(base: bytes, instr: bytes, pos: nat, ops: seq<DeltaOp>) returns (next: nat)
    requires ops != [] && AllEncodable(base, ops)
    requires pos <= |instr| && instr[pos..] == EncodeOps(base, ops)
    ensures AllEncodable(base, ops[1..]) && next <= |instr| && instr[next..] == EncodeOps(base, ops[1..])
    ensures |ops[1..]| < |ops|
    ensures Execute(base, ops) == OpOutput(base, ops[0]) + Execute(base, ops[1..])
    ensures RunDelta(base, instr, next).Success? ==>
              RunDelta(base, instr, pos) == Success(OpOutput(base, ops[0]) + RunDelta(base, instr, next).value)
  {
    ConsFacts(base, ops);
    EncodedHead(base, instr, pos, ops);
    next := pos + |EncodeOp(ops[0])|;
    HeadRuns(base, instr, pos, ops[0], next);
  }

  /** The first instruction of an encoded list is written at `pos`, and the rest follows it. */
  lemma EncodedHead(base: bytes, instr: bytes, pos: nat, ops: seq<DeltaOp>)
    requires ops != [] && AllEncodable(base, ops)
    requires pos <= |instr| && instr[pos..] == EncodeOps(base, ops)
    ensures Encodable(base, ops[0]) && AllEncodable(base, ops[1..])
    ensures WrittenAt(instr, pos, EncodeOp(ops[0]))
    ensures instr[pos + |EncodeOp(ops[0])|..] == EncodeOps(base, ops[1..])
  {
    ConsFacts(base, ops);
    SplitAt(instr, pos, EncodeOp(ops[0]), EncodeOps(base, ops[1..]));
  }

  /** An encoded instruction at `pos` in front of instructions that succeed from `next`. */
  lemma HeadRuns(base: bytes, instr: bytes, pos: nat, op: DeltaOp, next: nat)
    requires Encodable(base, op) && WrittenAt(instr, pos, EncodeOp(op)) && next == pos + |EncodeOp(op)|
    ensures RunDelta(base, instr, next).Success? ==>
              RunDelta(base, instr, pos) == Success(OpOutput(base, op) + RunDelta(base, instr, next).value)
  {
    RunOneOp(base, instr, pos, op);
    if RunDelta(base, instr, next).Success? {
      ConsRun(base, instr, pos, OpOutput(base, op), next, RunDelta(base, instr, next).value);
    }
  }

  /** The first instruction of a list and the list after it. */
  lemma ConsFacts(base: bytes, ops: seq<DeltaOp>)
    requires ops != [] && AllEncodable(base, ops)
    ensures Encodable(base, ops[0]) && AllEncodable(base, ops[1..])
    ensures EncodeOps(base, ops) == EncodeOp(ops[0]) + EncodeOps(base, ops[1..])
    ensures Execute(base, ops) == OpOutput(base, ops[0]) + Execute(base, ops[1..])
  {
  }

  /** An instruction at `pos` that appends `out` in front of instructions that produce `tail`. */
  lemma ConsRun(base: bytes, instr: bytes, pos: nat, out: bytes, next: nat, tail: bytes)
    requires pos < |instr| && RunCommand(base, instr, pos) == Success((out, next))
    requires RunDelta(base, instr, next) == Success(tail)
    ensures RunDelta(base, instr, pos) == Success(out + tail)
  {
    RunDeltaStep(base, instr, pos);
  }

  /** `applyDelta` succeeds when both sizes read back and the instructions
      produce a result of the announced size. */
  lemma ApplyDeltaSucceeds(base: bytes, instr: bytes, p0: nat, p1: nat, out: bytes)
    requires VarIntFrom(instr, 0, 0) == Success((|base|, p0))
    requires VarIntFrom(instr, p0, 0) == Success((|out|, p1))
    requires |out| <= MaxAlloc && RunDelta(base, instr, p1) == Success(out)
    ensures ApplyDeltaSpec(base, instr) == Success(out)
  {
  }

  /** `applyDelta` rebuilds exactly the reference result from an encoded delta. */
  lemma ApplyEncodedDelta(base: bytes, ops: seq<DeltaOp>)
    requires AllEncodable(base, ops)
    requires |base| < Pow128(9) && |Execute(base, ops)| <= MaxAlloc
    ensures ApplyDeltaSpec(base, EncodeDelta(base, ops)) == Success(Execute(base, ops))
  {
    Pow128Of9();
    var out := Execute(base, ops);
    var g1 := EncodeGroups(|base|);
    var g2 := EncodeGroups(|out|);
    var body := EncodeOps(base, ops);
    var instr := EncodeDelta(base, ops);
    var p0, p1 := |g1|, |g1 + g2|;
    SizesReadBack(|base|, |out|, instr, g1, g2, body);
    SuffixAfter(g1 + g2, body);
    RunEncodedOps(base, instr, p1, ops);
    ApplyDeltaSucceeds(base, instr, p0, p1, out);
  }

  /** The two sizes at the start of a delta read back. */
  lemma SizesReadBack(n1: nat, n2: nat, instr: bytes, g1: bytes, g2: bytes, body: bytes)
    requires n1 < Pow128(9) && n2 < Pow128(9)
    requires g1 == EncodeGroups(n1) && g2 == EncodeGroups(n2) && instr == g1 + g2 + body
    ensures VarIntFrom(instr, 0, 0) == Success((n1, |g1|))
    ensures VarIntFrom(instr, |g1|, 0) == Success((n2, |g1 + g2|))
  {
    ConcatAssoc(g1, g2, body);
    VarIntAtStart(n1, g2 + body, instr);
    VarIntAt(g1, n2, body, instr);
  }

  /** A value below 128^9 encoded at `|pre|` reads back. */
  lemma VarIntAt(pre: bytes, n: nat, post: bytes, instr: bytes)
    requires n < Pow128(9) && instr == pre + EncodeGroups(n) + post
    ensures VarIntFrom(instr, |pre|, 0) == Success((n, |pre| + |EncodeGroups(n)|))
  {
    EncodeGroupsLength(n, 9);
    VarIntRoundTrip(pre, n, 0, post);
  }

  /** A value below 128^9 encoded at the start reads back. */
  lemma VarIntAtStart(n: nat, post: bytes, instr: bytes)
    requires n < Pow128(9) && instr == EncodeGroups(n) + post
    ensures VarIntFrom(instr, 0, 0) == Success((n, |EncodeGroups(n)|))
  {
    assert instr == [] + EncodeGroups(n) + post;
    VarIntAt([], n, post, instr);
  }

  // -----------------------------------------------------------------------
  // Single cases

  /** A copy command without operand bytes copies 0x10000 bytes from offset 0,
      and an insert command's low seven bits are its length. */
  lemma DefaultCopyAndInsert(base: bytes, instr: bytes, pos: nat)
    requires pos < |instr|
    ensures instr[pos] == 0x80 ==>
              RunDelta(base, instr, pos)
              == (if 0x10000 > |base| then Failure(CopyOutOfBounds(0, 0x10000, |base|))
                  else Prepend(base[..0x10000], RunDelta(base, instr, pos + 1)))
    ensures instr[pos] == 0 ==> RunDelta(base, instr, pos) == Failure(UnsupportedLiteralLength)
  {
    if instr[pos] == 0x80 {
      assert !BitSet(0x80, 0) && !BitSet(0x80, 1) && !BitSet(0x80, 2) && !BitSet(0x80, 3);
      assert !BitSet(0x80, 4) && !BitSet(0x80, 5) && !BitSet(0x80, 6);
      var p := pos + 1;
      OperandSkip(instr, p, 0x80, 0, 4, 3, false);
      OperandSkip(instr, p, 0x80, 0, 4, 2, false);
      OperandSkip(instr, p, 0x80, 0, 4, 1, false);
      OperandSkip(instr, p, 0x80, 0, 4, 0, false);
      OperandSkip(instr, p, 0x80, 4, 3, 2, true);
      OperandSkip(instr, p, 0x80, 4, 3, 1, true);
      OperandSkip(instr, p, 0x80, 4, 3, 0, true);
    }
  }

  /** A copy command that selects one size byte holding zero copies nothing:
      the default 0x10000 only applies when no size bit is set. */
  lemma ExplicitZeroSize(base: bytes, instr: bytes, pos: nat)
    requires pos + 1 < |instr| && instr[pos] == 0x90 && instr[pos + 1] == 0
    ensures RunCommand(base, instr, pos) == Success(([], pos + 2))
  {
    assert !BitSet(0x90, 0) && !BitSet(0x90, 1) && !BitSet(0x90, 2) && !BitSet(0x90, 3);
    assert BitSet(0x90, 4) && !BitSet(0x90, 5) && !BitSet(0x90, 6);
    var p := pos + 1;
    OperandSkip(instr, p, 0x90, 0, 4, 3, false);
    OperandSkip(instr, p, 0x90, 0, 4, 2, false);
    OperandSkip(instr, p, 0x90, 0, 4, 1, false);
    OperandSkip(instr, p, 0x90, 0, 4, 0, false);
    OperandSkip(instr, p + 1, 0x90, 4, 3, 2, true);
    OperandSkip(instr, p + 1, 0x90, 4, 3, 1, true);
    assert OperandFrom(instr, p + 1, 0x90, 4, 3, 1, true) == Success((0, p + 1));
    assert CopySize(instr, p, 0x90) == Success((0, p + 1));
  }

  /** The result always has the length the delta's second varint announces. */
  lemma ResultHasAnnouncedSize(base: bytes, instr: bytes)
    requires ApplyDeltaSpec(base, instr).Success?
    ensures VarIntFrom(instr, 0, 0).Success?
    ensures VarIntFrom(instr, VarIntFrom(instr, 0, 0).value.1, 0).Success?
    ensures |ApplyDeltaSpec(base, instr).value| == VarIntFrom(instr, VarIntFrom(instr, 0, 0).value.1, 0).value.0
    ensures VarIntFrom(instr, 0, 0).value.0 == |base|
    ensures VarIntFrom(instr, VarIntFrom(instr, 0, 0).value.1, 0).value.0 <= MaxAlloc
  {
  }

  /** A result size above the allocation limit stops `applyDelta` before any
      instruction runs, whatever the instructions are. */
  lemma OversizedResultPanics(base: bytes, instr: bytes, p0: nat, size: nat, p1: nat)
    requires VarIntFrom(instr, 0, 0) == Success((|base|, p0))
    requires VarIntFrom(instr, p0, 0) == Success((size, p1)) && size > MaxAlloc
    ensures ApplyDeltaSpec(base, instr) == Failure(ResultCapOutOfRange(size))
  {
  }
}
