/**
 * Bytes and runes as the PBM reader sees them, Go's `unicode.IsSpace` on
 * them, decimal digits, and the two conversions the Go runtime performs for
 * the program: `fmt`'s `%d` and `string([]rune)`.
 */
module Bytes {

  /** A byte of the input or output stream. */
  type Byte = b: int | 0 <= b < 256

  /**
   * A rune as `GetNextByteAsRune` returns it: `rune(b)` of a byte, or 0 once
   * the reader has failed. Its values are therefore those of a byte.
   */
  type Rune = Byte

  /** A Go `string`: the sequence of its bytes. */
  type String = seq<Byte>

  const NUL: Byte := 0
  const LF: Byte := 10     // '\n'
  const CR: Byte := 13     // '\r'
  const SPACE: Byte := 32  // ' '
  const HASH: Byte := 35   // '#'
  const MINUS: Byte := 45  // '-'
  const ZERO: Byte := 48   // '0'
  const ONE: Byte := 49    // '1'
  const NINE: Byte := 57   // '9'
  const LETTER_P: Byte := 80  // 'P'

  /**
   * `unicode.IsSpace` restricted to runes below 256: '\t', '\n', '\v', '\f',
   * '\r', ' ', U+0085 (NEL) and U+00A0 (NBSP).
   */
  predicate IsSpace(c: Rune) {
    9 <= c <= 13 || c == SPACE || c == 0x85 || c == 0xA0
  }

  /** `c >= '0' && c <= '9'`. */
  predicate IsDigit(c: Rune) {
    ZERO <= c <= NINE
  }

  predicate AllDigits(ds: seq<Byte>) {
    forall k :: 0 <= k < |ds| ==> IsDigit(ds[k])
  }

  /** The left fold `num = num*10 + int(c-'0')` over `ds`, starting from `acc`. */
  function FoldDigits(acc: nat, ds: seq<Byte>): nat
    requires AllDigits(ds)
    decreases |ds|
  {
    if ds == [] then acc else FoldDigits(acc * 10 + (ds[0] - ZERO), ds[1..])
  }

  /** Folding a concatenation folds the second part from the first part's value. */
  lemma {:induction false} FoldDigitsAppend(acc: nat, a: seq<Byte>, b: seq<Byte>)
    requires AllDigits(a) && AllDigits(b)
    ensures AllDigits(a + b)
    ensures FoldDigits(acc, a + b) == FoldDigits(FoldDigits(acc, a), b)
    decreases |a|
  {
    if a == [] {
      assert a + b == b;
    } else {
      assert (a + b)[1..] == a[1..] + b;
      FoldDigitsAppend(acc * 10 + (a[0] - ZERO), a[1..], b);
    }
  }

  /** `%d` of a non-negative integer: its shortest decimal digits. */
  function Decimal(n: nat): (ds: String)
    ensures |ds| > 0 && AllDigits(ds)
    ensures ds[0] != ZERO || n == 0
  {
    if n < 10 then [ZERO + n] else Decimal(n / 10) + [ZERO + n % 10]
  }

  /** Reading back the digits `%d` prints gives the number printed. */
  lemma {:induction false} FoldDecimal(n: nat)
    ensures FoldDigits(0, Decimal(n)) == n
  {
    if n >= 10 {
      FoldDecimal(n / 10);
      FoldDigitsAppend(0, Decimal(n / 10), [ZERO + n % 10]);
    }
  }

  /** `%d` of any Go `int`. */
  function IntText(n: int): (s: String)
    ensures n >= 0 ==> s == Decimal(n)
    ensures n < 0 ==> |s| > 1 && s[0] == MINUS && s[1..] == Decimal(-n)
  {
    if n < 0 then [MINUS] + Decimal(-n) else Decimal(n)
  }

  /**
   * The UTF-8 encoding of one rune below 256: the rune itself when it is
   * ASCII, otherwise a lead byte 0xC2 or 0xC3 carrying its top two bits and
   * a continuation byte carrying its low six.
   */
  function RuneToUtf8(r: Rune): (s: seq<Byte>)
    ensures r < 0x80 ==> s == [r]
    ensures r >= 0x80 ==> |s| == 2 && 0xC2 <= s[0] <= 0xC3 && 0x80 <= s[1] <= 0xBF
    ensures r >= 0x80 ==> (s[0] - 0xC0) * 64 + (s[1] - 0x80) == r
  {
    if r < 0x80 then [r] else [0xC0 + r / 64, 0x80 + r % 64]
  }

  predicate IsAscii(s: seq<Byte>) {
    forall k :: 0 <= k < |s| ==> s[k] < 0x80
  }

  /**
   * Go's `string([]rune)`: each rune is written in UTF-8, so a rune from
   * 0x80 to 0xFF becomes two bytes.
   */
  function RunesToString(rs: seq<Rune>): (s: String)
    ensures IsAscii(rs) ==> s == rs
    ensures |s| >= |rs|
    ensures |s| == |rs| ==> IsAscii(rs)
    ensures LF !in rs && CR !in rs ==> LF !in s && CR !in s
    decreases |rs|
  {
    if rs == [] then []
    else
      var init, last := rs[..|rs| - 1], rs[|rs| - 1];
      assert rs == init + [last];
      assert IsAscii(rs) ==> IsAscii(init) && last < 0x80;
      RunesToString(init) + RuneToUtf8(last)
  }
}
