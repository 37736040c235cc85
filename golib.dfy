/**
 * The pieces of Go's standard library the core relies on, written out over
 * byte sequences: `bytes.IndexByte`, `bytes.Split`, `fmt.Sprintf("%d")`,
 * `hex.EncodeToString`, `strconv.Atoi`, `strconv.ParseInt`, string `<`, and
 * the part of `filepath.Join` the object paths exercise.
 *
 * Go strings are immutable byte sequences, so both `string` and `[]byte`
 * become `bytes` here; `Str` turns a Dafny literal into its bytes.
 */
module GoLib {
  import opened Wrappers

  type byte = x: int | 0 <= x < 256
  type bytes = seq<byte>

  const SP: byte := 32
  const NUL: byte := 0
  const LF: byte := 10
  const SLASH: byte := 47

  /** The bytes of an ASCII literal. */
  function Str(s: string): (r: bytes)
    ensures |r| == |s|
  {
    seq(|s|, i requires 0 <= i < |s| => (s[i] as int % 256) as byte)
  }

  function Pow2(n: nat): (r: nat)
    ensures r >= 1
  {
    if n == 0 then 1 else 2 * Pow2(n - 1)
  }

  lemma {:induction false} Pow2Add(a: nat, b: nat)
    ensures Pow2(a + b) == Pow2(a) * Pow2(b)
  {
    if a > 0 {
      Pow2Add(a - 1, b);
      assert Pow2(a + b) == 2 * Pow2(a - 1 + b);
    }
  }

  lemma Pow2Monotone(a: nat, b: nat)
    requires a <= b
    ensures Pow2(a) <= Pow2(b)
  {
    if a < b {
      Pow2Monotone(a, b - 1);
    }
  }

  /** The running sum of a little-endian decode: `a + m * v` applied to a
      successful `(v, next)` value. */
  function Lift<E>(a: nat, m: nat, r: Result<(nat, nat), E>): Result<(nat, nat), E> {
    match r
    case Failure(e) => Failure(e)
    case Success((v, n)) => Success((a + m * v, n))
  }

  lemma LiftCompose<E>(a: nat, m: nat, b: nat, m2: nat, r: Result<(nat, nat), E>)
    ensures Lift(a, m, Lift(b, m2, r)) == Lift(a + m * b, m * m2, r)
  {
    match r
    case Failure(_) =>
    case Success((v, n)) =>
      assert m * (b + m2 * v) == m * b + (m * m2) * v by {
        assert m * (m2 * v) == (m * m2) * v;
      }
  }

  /** Concatenation is associative. */
  lemma ConcatAssoc<T>(a: seq<T>, b: seq<T>, c: seq<T>)
    ensures a + b + c == a + (b + c)
  {
  }

  /** A suffix that starts with `a + b` splits into `a` and `b`. */
  lemma SplitAt<T>(s: seq<T>, pos: nat, a: seq<T>, b: seq<T>)
    requires pos <= |s| && s[pos..] == a + b
    ensures pos + |a| <= |s| && s[pos..pos + |a|] == a && s[pos + |a|..] == b
  {
    assert s[pos..pos + |a|] == s[pos..][..|a|];
    assert s[pos + |a|..] == s[pos..][|a|..];
  }

  lemma SuffixAfter<T>(a: seq<T>, b: seq<T>)
    ensures (a + b)[|a|..] == b
  {
  }

  /** A slice of a slice is a slice of the original. */
  lemma SliceOfSlice<T>(s: seq<T>, i: nat, j: nat, a: nat, b: nat)
    requires i <= j <= |s| && a <= b <= j - i
    ensures s[i..j][a..b] == s[i + a..i + b]
  {
    forall k | 0 <= k < b - a
      ensures s[i..j][a..b][k] == s[i + a..i + b][k]
    {
      assert s[i..j][a..b][k] == s[i..j][a + k] == s[i + a + k];
    }
  }

  // ---------------------------------------------------------------------
  // bytes.IndexByte and bytes.Split

  /** Index of the first `d` in `s`, or `|s|` when there is none. */
  function IndexOf(s: bytes, d: byte): (r: nat)
    ensures r <= |s|
    ensures r < |s| ==> s[r] == d
    ensures forall k :: 0 <= k < r ==> s[k] != d
  {
    if |s| == 0 then 0
    else if s[0] == d then 0
    else 1 + IndexOf(s[1..], d)
  }

  /** `bytes.Split(s, [d])`: the fields between occurrences of `d`; always at least one. */
  function Split(s: bytes, d: byte): (r: seq<bytes>)
    ensures |r| >= 1
    ensures r[0] == s[..IndexOf(s, d)]
    decreases |s|
  {
    var i := IndexOf(s, d);
    if i == |s| then [s] else [s[..i]] + Split(s[i + 1..], d)
  }

  /** The fields of `Split` joined back with the separator give the input. */
  function JoinWith(parts: seq<bytes>, d: byte): bytes
    requires |parts| >= 1
  {
    if |parts| == 1 then parts[0] else parts[0] + [d] + JoinWith(parts[1..], d)
  }

  lemma {:induction false} SplitCount(s: bytes, d: byte)
    ensures |Split(s, d)| == multiset(s)[d] + 1
    ensures JoinWith(Split(s, d), d) == s
    decreases |s|
  {
    var i := IndexOf(s, d);
    NoOccurrence(s[..i], d);
    if i < |s| {
      SplitCount(s[i + 1..], d);
      MultisetAround(s, i);
    } else {
      assert s[..i] == s;
    }
  }

  lemma MultisetAround(s: bytes, i: nat)
    requires i < |s|
    ensures multiset(s) == multiset(s[..i]) + multiset{s[i]} + multiset(s[i + 1..])
    ensures s == s[..i] + [s[i]] + s[i + 1..]
  {
    assert s == s[..i] + [s[i]] + s[i + 1..];
    assert multiset(s[..i] + [s[i]] + s[i + 1..]) == multiset(s[..i] + [s[i]]) + multiset(s[i + 1..]);
  }

  /** No field of `Split` contains the separator. */
  lemma {:induction false} SplitFieldsSeparatorFree(s: bytes, d: byte)
    ensures forall k :: 0 <= k < |Split(s, d)| ==> d !in Split(s, d)[k]
    decreases |s|
  {
    var i := IndexOf(s, d);
    NoOccurrence(s[..i], d);
    if i < |s| {
      SplitFieldsSeparatorFree(s[i + 1..], d);
    }
  }

  /** `Split` gives one field more than there are separators. */
  lemma SplitLength(s: bytes, d: byte)
    ensures |Split(s, d)| == multiset(s)[d] + 1
  {
    SplitCount(s, d);
  }

  lemma NoOccurrence(s: bytes, d: byte)
    requires forall k :: 0 <= k < |s| ==> s[k] != d
    ensures multiset(s)[d] == 0
    ensures d !in s
  {
    assert d !in s;
  }

  /** Split inverts JoinWith when no part contains the separator. */
  lemma {:induction false} SplitJoin(parts: seq<bytes>, d: byte)
    requires |parts| >= 1
    requires forall k :: 0 <= k < |parts| ==> d !in parts[k]
    ensures Split(JoinWith(parts, d), d) == parts
    decreases |parts|
  {
    if |parts| == 1 {
      IndexOfAbsent(parts[0], d);
      assert parts[0][..|parts[0]|] == parts[0];
    } else {
      SplitJoin(parts[1..], d);
      SplitCons(parts[0], d, JoinWith(parts[1..], d));
      assert parts == [parts[0]] + parts[1..];
    }
  }

  /** A field free of the separator, then the separator, then the rest. */
  lemma SplitCons(a: bytes, d: byte, b: bytes)
    requires d !in a
    ensures Split(a + [d] + b, d) == [a] + Split(b, d)
  {
    var s := a + [d] + b;
    IndexOfPrefix(a, d, b);
    assert s[..|a|] == a;
    assert s[|a| + 1..] == b;
  }

  lemma {:induction false} IndexOfAbsent(s: bytes, d: byte)
    requires d !in s
    ensures IndexOf(s, d) == |s|
  {
    if |s| > 0 {
      assert s[0] in s;
      assert d !in s[1..] by { assert forall x :: x in s[1..] ==> x in s; }
      IndexOfAbsent(s[1..], d);
    }
  }

  /** In `a + [d] + b` with no `d` in `a`, the first `d` is the one after `a`. */
  lemma {:induction false} IndexOfPrefix(a: bytes, d: byte, b: bytes)
    requires d !in a
    ensures IndexOf(a + [d] + b, d) == |a|
  {
    if |a| > 0 {
      assert a[0] in a;
      assert d !in a[1..] by { assert forall x :: x in a[1..] ==> x in a; }
      assert (a + [d] + b)[1..] == a[1..] + [d] + b;
      IndexOfPrefix(a[1..], d, b);
    }
  }

  // ---------------------------------------------------------------------
  // Decimal formatting: fmt.Sprintf("%d", n) for n >= 0

  function DigitByte(d: nat): (r: byte)
    requires d < 10
  {
    48 + d
  }

  predicate IsDecimalDigit(b: byte) {
    48 <= b <= 57
  }

  function Decimal(n: nat): (r: bytes)
    ensures |r| >= 1
    ensures forall k :: 0 <= k < |r| ==> IsDecimalDigit(r[k])
  {
    if n < 10 then [DigitByte(n)] else Decimal(n / 10) + [DigitByte(n % 10)]
  }

  /** Digits of `n` in base 10, counting none for zero (`numOfDigits`' meaning). */
  function DigitCount(n: nat): nat {
    if n == 0 then 0 else 1 + DigitCount(n / 10)
  }

  function Pow10(k: nat): (r: nat)
    ensures r >= 1
  {
    if k == 0 then 1 else 10 * Pow10(k - 1)
  }

  /** `DigitCount(n)` is the unique `d` with `10^(d-1) <= n < 10^d`, and it is
      the length of `n`'s decimal form for every positive `n`. */
  lemma {:induction false} DigitCountMeaning(n: nat)
    requires n > 0
    ensures Pow10(DigitCount(n) - 1) <= n < Pow10(DigitCount(n))
    ensures |Decimal(n)| == DigitCount(n)
  {
    if n >= 10 {
      DigitCountMeaning(n / 10);
    }
  }

  lemma DecimalHasNoSeparators(n: nat)
    ensures SP !in Decimal(n) && NUL !in Decimal(n) && LF !in Decimal(n)
  {
    var r := Decimal(n);
    assert forall k :: 0 <= k < |r| ==> r[k] != SP && r[k] != NUL && r[k] != LF;
  }

  // ---------------------------------------------------------------------
  // hex.EncodeToString

  function HexDigit(d: nat): (r: byte)
    requires d < 16
  {
    if d < 10 then 48 + d else 87 + d
  }

  predicate IsLowerHex(b: byte) {
    (48 <= b <= 57) || (97 <= b <= 102)
  }

  function HexEncode(b: bytes): (r: bytes)
    ensures |r| == 2 * |b|
    ensures forall k :: 0 <= k < |r| ==> IsLowerHex(r[k])
  {
    if b == [] then [] else [HexDigit(b[0] / 16), HexDigit(b[0] % 16)] + HexEncode(b[1..])
  }

  // ---------------------------------------------------------------------
  // strconv.ParseInt and strconv.Atoi

  /** The value `strconv` gives a digit: 0-9, then letters either case from 10. */
  function DigitValue(c: byte): (r: nat)
    ensures r < 36 || r == 99
  {
    if 48 <= c <= 57 then c - 48
    else if 65 <= c <= 90 then c - 55
    else if 97 <= c <= 122 then c - 87
    else 99
  }

  predicate AllDigits(s: bytes, base: nat) {
    forall k :: 0 <= k < |s| ==> DigitValue(s[k]) < base
  }

  /** Value of a digit string, most significant first. */
  function DigitsValue(s: bytes, base: nat): nat
    requires AllDigits(s, base)
  {
    if s == [] then 0 else DigitsValue(s[..|s| - 1], base) * base + DigitValue(s[|s| - 1])
  }

  const MaxInt64: int := 0x7FFF_FFFF_FFFF_FFFF

  /** `strconv.ParseInt(s, base, 64)` for base 10 or 16: an optional sign, one or
      more digits of the base, a value within int64. Every error (syntax or
      range) is `None`: the callers only test whether there was one. */
  function ParseInt(s: bytes, base: nat): (r: Option<int>)
    requires base == 10 || base == 16
  {
    if |s| == 0 then None
    else
      var neg := s[0] == 45;
      var digits := if s[0] == 43 || s[0] == 45 then s[1..] else s;
      if |digits| == 0 || !AllDigits(digits, base) then None
      else
        var v := DigitsValue(digits, base);
        var magnitude: int := v;
        var signed := if neg then -magnitude else magnitude;
        if signed < -MaxInt64 - 1 || signed > MaxInt64 then None else Some(signed)
  }

  /** `strconv.Atoi`: base-10 `ParseInt` on a 64-bit platform. */
  function Atoi(s: bytes): Option<int> {
    ParseInt(s, 10)
  }

  /** A run of decimal digits, stated digit by digit from the last. */
  predicate DigitRun(s: bytes) {
    s == [] || (DigitRun(s[..|s| - 1]) && IsDecimalDigit(s[|s| - 1]))
  }

  lemma {:induction false} DigitRunValue(s: bytes)
    requires DigitRun(s)
    ensures AllDigits(s, 10) && DigitsValue(s, 10) < Pow10(|s|)
  {
    if s != [] {
      var init := s[..|s| - 1];
      DigitRunValue(init);
      assert forall k :: 0 <= k < |init| ==> s[k] == init[k];
      var v := DigitsValue(init, 10);
      assert v + 1 <= Pow10(|init|);
      assert v * 10 + 10 <= Pow10(|init|) * 10;
    }
  }

  lemma {:induction false} Pow10Monotone(j: nat, k: nat)
    requires j <= k
    ensures Pow10(j) <= Pow10(k)
    decreases k
  {
    if j < k {
      Pow10Monotone(j, k - 1);
    }
  }

  lemma Pow10Of18()
    ensures Pow10(18) == 1_000_000_000_000_000_000
  {
    assert Pow10(1) == 10;
    assert Pow10(2) == 100;
    assert Pow10(3) == 1000;
    assert Pow10(4) == 10000;
    assert Pow10(5) == 100000;
    assert Pow10(6) == 1000000;
    assert Pow10(7) == 10000000;
    assert Pow10(8) == 100000000;
    assert Pow10(9) == 1000000000;
    assert Pow10(10) == 10000000000;
    assert Pow10(11) == 100000000000;
    assert Pow10(12) == 1000000000000;
    assert Pow10(13) == 10000000000000;
    assert Pow10(14) == 100000000000000;
    assert Pow10(15) == 1000000000000000;
    assert Pow10(16) == 10000000000000000;
    assert Pow10(17) == 100000000000000000;
    assert Pow10(18) == 1000000000000000000;
  }

  /** `strconv.Atoi` accepts from one to eighteen decimal digits. */
  lemma AtoiAcceptsDigitRun(s: bytes)
    requires 0 < |s| <= 18 && DigitRun(s)
    ensures Atoi(s).Some?
  {
    DigitRunValue(s);
    Pow10Monotone(|s|, 18);
    Pow10Of18();
    assert DigitValue(s[0]) < 10;
  }

  /** Whenever Atoi accepts a string, it holds no space and no NUL byte. */
  lemma AtoiAcceptsNoSeparators(s: bytes)
    requires Atoi(s).Some?
    ensures SP !in s && NUL !in s
  {
    var digits := if s[0] == 43 || s[0] == 45 then s[1..] else s;
    forall k | 0 <= k < |s|
      ensures s[k] != SP && s[k] != NUL
    {
      if s[0] == 43 || s[0] == 45 {
        if k > 0 {
          assert s[k] == digits[k - 1];
          assert DigitValue(digits[k - 1]) < 10;
        }
      } else {
        assert DigitValue(digits[k]) < 10;
      }
    }
  }

  // ---------------------------------------------------------------------
  // Go's string ordering `<`: byte-wise, a proper prefix first.

  predicate LexLess(a: bytes, b: bytes)
    decreases |a|
  {
    if |a| == 0 then |b| > 0
    else if |b| == 0 then false
    else if a[0] != b[0] then a[0] < b[0]
    else LexLess(a[1..], b[1..])
  }

  lemma {:induction false} LexLessIrreflexive(a: bytes)
    ensures !LexLess(a, a)
    decreases |a|
  {
    if |a| > 0 {
      LexLessIrreflexive(a[1..]);
    }
  }

  lemma {:induction false} LexLessAsymmetric(a: bytes, b: bytes)
    requires LexLess(a, b)
    ensures !LexLess(b, a)
    decreases |a|
  {
    if |a| > 0 && |b| > 0 && a[0] == b[0] {
      LexLessAsymmetric(a[1..], b[1..]);
    }
  }

  lemma {:induction false} LexLessTransitive(a: bytes, b: bytes, c: bytes)
    requires LexLess(a, b) && LexLess(b, c)
    ensures LexLess(a, c)
    decreases |a|
  {
    if |a| > 0 && a[0] == b[0] && b[0] == c[0] {
      LexLessTransitive(a[1..], b[1..], c[1..]);
    }
  }

  lemma {:induction false} LexLessTotal(a: bytes, b: bytes)
    requires a != b
    ensures LexLess(a, b) || LexLess(b, a)
    decreases |a|
  {
    if |a| > 0 && |b| > 0 && a[0] == b[0] {
      assert a == [a[0]] + a[1..] && b == [b[0]] + b[1..];
      LexLessTotal(a[1..], b[1..]);
    }
  }

  // ---------------------------------------------------------------------
  // filepath.Join, for segments that need no cleaning beyond dropping the
  // empty and "." segments (no "..", no embedded or trailing separators).

  predicate Dropped(seg: bytes) {
    seg == [] || seg == [46]
  }

  function Kept(segs: seq<bytes>): (r: seq<bytes>)
    ensures forall k :: 0 <= k < |r| ==> !Dropped(r[k])
  {
    if segs == [] then []
    else if Dropped(segs[|segs| - 1]) then Kept(segs[..|segs| - 1])
    else Kept(segs[..|segs| - 1]) + [segs[|segs| - 1]]
  }

  function Join(segs: seq<bytes>): bytes {
    var kept := Kept(segs);
    if kept == [] then (if [46] in segs then [46] else [])
    else JoinWith(kept, SLASH)
  }

  /** Adding a segment that is kept appends "/" and the segment. */
  lemma JoinAppend(segs: seq<bytes>, last: bytes)
    requires Kept(segs) != [] && !Dropped(last)
    ensures Join(segs + [last]) == Join(segs) + [SLASH] + last
  {
    assert (segs + [last])[..|segs|] == segs;
    JoinWithSnoc(Kept(segs), last, SLASH);
  }

  lemma {:induction false} JoinWithSnoc(parts: seq<bytes>, last: bytes, d: byte)
    requires |parts| >= 1
    ensures JoinWith(parts + [last], d) == JoinWith(parts, d) + [d] + last
    decreases |parts|
  {
    if |parts| == 1 {
    } else {
      assert (parts + [last])[1..] == parts[1..] + [last];
      JoinWithSnoc(parts[1..], last, d);
    }
  }
}
