/**
 * The pixel section as the decoder consumes it: a stream of '0' and '1'
 * tokens separated by whitespace, how many of them the decoding loop
 * reads, and the grid it builds from them.
 */
module Pixels {
  import opened Bytes
  import opened Image

  /** What reading `n` pixel tokens from a byte stream gives. */
  datatype Scanned =
    | Got(bits: seq<Byte>)   // the pixel values, in order
    | Exhausted              // the input ended first (the reader's error is io.EOF)
    | BadPixel               // a byte that is neither whitespace nor '0'/'1'

  predicate IsBits(s: seq<Byte>) {
    forall k :: 0 <= k < |s| ==> s[k] <= 1
  }

  /** Prefixes the tokens of an outcome with `ts`. */
  function Join(ts: seq<Byte>, r: Scanned): Scanned {
    match r
    case Got(us) => Got(ts + us)
    case _ => r
  }

  /**
   * The next `n` pixel tokens of `s`: whitespace is skipped, '0' and '1'
   * give 0 and 1, anything else stops the read.
   */
  function Tokens(s: seq<Byte>, n: nat): (r: Scanned)
    ensures r.Got? ==> |r.bits| == n && IsBits(r.bits)
    ensures r.Exhausted? ==> n > 0
    decreases |s|
  {
    if n == 0 then Got([])
    else if s == [] then Exhausted
    else if IsSpace(s[0]) then Tokens(s[1..], n)
    else if s[0] == ZERO || s[0] == ONE then Join([s[0] - ZERO], Tokens(s[1..], n - 1))
    else BadPixel
  }

  /**
   * How many bytes of `s` reading `n` pixel tokens consumes: up to and
   * including the n-th token, up to and including the byte that stops the
   * read, or all of `s` when it runs out first.
   */
  function Consumed(s: seq<Byte>, n: nat): (k: nat)
    ensures k <= |s|
    ensures Tokens(s, n).Exhausted? ==> k == |s|
    ensures Tokens(s, n).BadPixel? ==> 0 < k && !IsSpace(s[k - 1]) && s[k - 1] != ZERO && s[k - 1] != ONE
    ensures Tokens(s, n).Got? && n > 0 ==> 0 < k && (s[k - 1] == ZERO || s[k - 1] == ONE)
    decreases |s|
  {
    if n == 0 || s == [] then 0
    else if IsSpace(s[0]) then 1 + Consumed(s[1..], n)
    else if s[0] == ZERO || s[0] == ONE then 1 + Consumed(s[1..], n - 1)
    else 1
  }

  /**
   * How many pixels the loop `for col, row := 0, 0; col*row <
   * (Width-1)*(Height-1);` reads: one short of the image when both sides
   * are at least 2, none otherwise.
   */
  function PixelCount(width: int, height: int): nat {
    if width >= 2 && height >= 2 then width * height - 1 else 0
  }

  /** All rows joined, first row first. */
  function Concat(g: Grid): (s: seq<Byte>)
    decreases |g|
  {
    if g == [] then [] else g[0] + Concat(g[1..])
  }

  lemma {:induction false} ConcatSnoc(g: Grid, row: seq<Byte>)
    ensures Concat(g + [row]) == Concat(g) + row
    decreases |g|
  {
    if g == [] {
      assert g + [row] == [row];
    } else {
      assert (g + [row])[1..] == g[1..] + [row];
      ConcatSnoc(g[1..], row);
    }
  }

  predicate RowsOfWidth(g: Grid, w: int) {
    forall r :: 0 <= r < |g| ==> |g[r]| == w
  }

  lemma {:induction false} ConcatLength(g: Grid, w: nat)
    requires RowsOfWidth(g, w)
    ensures |Concat(g)| == |g| * w
    decreases |g|
  {
    if g != [] {
      ConcatLength(g[1..], w);
    }
  }

  /** `s` cut into `h` rows of `w` bytes. */
  function Rows(s: seq<Byte>, w: nat, h: nat): (g: Grid)
    requires |s| == w * h
    ensures |g| == h && RowsOfWidth(g, w) && Concat(g) == s
    decreases h
  {
    if h == 0 then []
    else
      assert |s[w..]| == w * (h - 1);
      [s[..w]] + Rows(s[w..], w, h - 1)
  }

  /** Cutting rows of equal width back out of their concatenation gives the rows. */
  lemma {:induction false} RowsOfConcat(g: Grid, w: nat)
    requires RowsOfWidth(g, w)
    ensures |Concat(g)| == w * |g| && Rows(Concat(g), w, |g|) == g
    decreases |g|
  {
    ConcatLength(g, w);
    if g != [] {
      RowsOfConcat(g[1..], w);
      assert Concat(g)[..w] == g[0];
      assert Concat(g)[w..] == Concat(g[1..]);
    }
  }

  /** Row-major indexing: cell (r, c) of rows of width `w` is byte `r*w + c` of their concatenation. */
  lemma {:induction false} ConcatCell(g: Grid, w: nat, r: nat, c: nat)
    requires RowsOfWidth(g, w) && r < |g| && c < w
    ensures r * w + c < |Concat(g)| && Concat(g)[r * w + c] == g[r][c]
    decreases r
  {
    if r > 0 {
      ConcatCell(g[1..], w, r - 1, c);
      MulSucc(r, w);
    }
  }

  /** Row-major indexing: cell (r, c) of the rows of `s` is `s[r*w + c]`. */
  lemma RowsCell(s: seq<Byte>, w: nat, h: nat, r: nat, c: nat)
    requires |s| == w * h && r < h && c < w
    ensures r * w + c < |s| && Rows(s, w, h)[r][c] == s[r * w + c]
  {
    ConcatCell(Rows(s, w, h), w, r, c);
  }

  // Solver hint: peeling one row off a product, stated once so callers need no nonlinear step.
  lemma MulSucc(a: nat, b: nat)
    requires a > 0
    ensures a * b == b + (a - 1) * b
  {
  }

  /** `n` nil rows. */
  function NilRows(n: nat): (g: Grid)
    ensures |g| == n && forall r :: 0 <= r < n ==> g[r] == []
  {
    seq(n, _ => [])
  }

  /**
   * The bitmap the decoding loop leaves, given the tokens it read: every
   * token in row-major order and a 0 for the cell it never reads; or, when
   * it reads nothing, a first row of zeros and nil rows below it.
   */
  function Fill(ts: seq<Byte>, width: nat, height: nat): (g: Grid)
    requires height > 0 && |ts| == PixelCount(width, height)
    ensures |g| == height && |g[0]| == width
    ensures width >= 2 && height >= 2 ==> RowsOfWidth(g, width) && Concat(g) == ts + [0]
    ensures !(width >= 2 && height >= 2) ==>
      g[0] == Zeros(width) && forall r :: 1 <= r < height ==> g[r] == []
  {
    if width >= 2 && height >= 2 then Rows(ts + [0], width, height)
    else [Zeros(width)] + NilRows(height - 1)
  }

  lemma {:induction false} MulLe(a: int, b: int, k: nat)
    requires 0 <= a <= b
    ensures a * k <= b * k
    decreases k
  {
    if k > 0 {
      MulLe(a, b, k - 1);
      assert a * k == a * (k - 1) + a && b * k == b * (k - 1) + b;
    }
  }

  // Solver hint: multiplication by a positive factor keeps a strict order.
  lemma MulLt(a: int, b: int, k: nat)
    requires 0 <= a < b && k >= 1
    ensures a * k < b * k
  {
    MulLe(a, b, k - 1);
    assert a * k == a * (k - 1) + a && b * k == b * (k - 1) + b;
  }

  /**
   * Cell (r, c) of a full decoded bitmap holds the token numbered
   * `r*width + c`, and the bottom-right cell is 0.
   */
  lemma FillCell(ts: seq<Byte>, width: nat, height: nat, r: nat, c: nat)
    requires width >= 2 && height >= 2 && |ts| == PixelCount(width, height)
    requires r < height && c < width
    ensures r * width + c <= |ts|
    ensures r * width + c == |ts| <==> r == height - 1 && c == width - 1
    ensures Fill(ts, width, height)[r][c] == if r * width + c == |ts| then 0 else ts[r * width + c]
  {
    var s := ts + [0];
    Guard(width, height, r, c);
    RowsCell(s, width, height, r, c);
    assert Fill(ts, width, height) == Rows(s, width, height);
  }

  /**
   * The loop guard `col*row < (width-1)*(height-1)`, at the row-major
   * position (row, col), holds exactly while fewer than `PixelCount` pixels
   * have been read.
   */
  lemma Guard(width: int, height: int, row: int, col: int)
    requires width >= 2 && height >= 2 && 0 <= row < height && 0 <= col < width
    ensures col * row < (width - 1) * (height - 1) <==> row * width + col < PixelCount(width, height)
    ensures row * width + col <= PixelCount(width, height)
    ensures row * width + col == PixelCount(width, height) <==> row == height - 1 && col == width - 1
  {
    var last := (height - 1) * width + (width - 1);
    assert last == width * height - 1;
    if row < height - 1 {
      MulLe(col, width - 1, row);
      assert col * row <= (width - 1) * row;
      MulLt(row, height - 1, width - 1);
      assert row * (width - 1) < (height - 1) * (width - 1);
      MulLe(row, height - 2, width);
      assert row * width + col < last;
    } else {
      assert row * width == (height - 1) * width;
      if col < width - 1 {
        MulLt(col, width - 1, height - 1);
        assert col * row < (width - 1) * (height - 1);
      }
    }
  }

  /** With a side below 2 the guard is false before the first read. */
  lemma NoPixelsRead(width: int, height: int)
    requires width >= 0 && height >= 1 && !(width >= 2 && height >= 2)
    ensures !(0 * 0 < (width - 1) * (height - 1)) && PixelCount(width, height) == 0
  {
    if width == 0 {
      assert (width - 1) * (height - 1) == -(height - 1);
    }
  }
}
