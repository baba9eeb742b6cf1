/**
 * Decoding a PBM (P1) file into a `Pbm` and encoding a `Pbm` back to text:
 * `Decode` and `Encode` of pkg/pbm.go, `DecodePBM` and `Save` of
 * pkg/pbm/pbm.go.
 */
module Codec {
  import opened Wrappers
  import opened Bytes
  import opened Header
  import opened Image
  import opened Reader
  import opened Pixels

  /** The errors a decode returns. */
  datatype DecodeError =
    | ReaderError(e: ReadError)   // the reader's sticky error
    | InvalidHeader               // "invalid header"
    | FailedToParse               // "failed to parse PBM data"

  /** What a decode does with an input. */
  datatype Decoding =
    | Decoded(config: Config, bitmap: Grid)
    | DecodeFailed(error: DecodeError)
    | Hangs     // the header's comment loop never ends
    | Panics    // a header height of 0: `bitmap[0]` is out of range

  /**
   * Decoding `data`. With `headerErrorsSticky` (pkg/pbm.go) a header fault
   * is the reader's error; without it (pkg/pbm/pbm.go) the fault is lost
   * and the error is io.EOF or "invalid header".
   */
  function DecodeSpec(data: seq<Byte>, headerErrorsSticky: bool): (r: Decoding)
    ensures r.Decoded? ==>
      r.config.height == |r.bitmap| > 0 && r.config.width == |r.bitmap[0]| &&
      forall k :: 0 <= k < |r.bitmap| ==> IsBits(r.bitmap[k])
  {
    match ReadHeader(data, 0)
    case Diverges => Hangs
    case TagRejected(_, exhausted) =>
      DecodeFailed(if exhausted then ReaderError(EOF) else InvalidHeader)
    case Failed(f, _, exhausted) =>
      DecodeFailed(
        if headerErrorsSticky then ReaderError(HeaderError(f))
        else if exhausted then ReaderError(EOF)
        else InvalidHeader)
    case Parsed(w, h, cs, next) =>
      if h == 0 then Panics
      else
        match Tokens(data[next..], PixelCount(w, h))
        case Got(ts) =>
          var g := Fill(ts, w, h);
          assert forall k :: 0 <= k < |g| ==> IsBits(g[k]) by {
            if w >= 2 && h >= 2 {
              forall k | 0 <= k < |g| ensures IsBits(g[k]) {
                forall c | 0 <= c < |g[k]| ensures g[k][c] <= 1 {
                  FillCell(ts, w, h, k, c);
                }
              }
            }
          }
          Decoded(Config(w, h, Strings(cs)), g)
        case Exhausted => DecodeFailed(ReaderError(EOF))
        case BadPixel => DecodeFailed(FailedToParse)
  }

  /**
   * The bitmap while the pixel loop runs: the complete rows `done`, then
   * the current row holding `cur` followed by zeros, then nil rows.
   */
  ghost predicate Partial(bitmap: Grid, done: Grid, cur: seq<Byte>, width: nat, height: nat) {
    |bitmap| == height && |done| < height && RowsOfWidth(done, width) && |cur| <= width &&
    (forall r :: 0 <= r < |done| ==> bitmap[r] == done[r]) &&
    bitmap[|done|] == cur + Zeros(width - |cur|) &&
    (forall r :: |done| < r < height ==> bitmap[r] == [])
  }

  lemma PartialStore(bitmap: Grid, done: Grid, cur: seq<Byte>, width: nat, height: nat, d: Byte, line: seq<Byte>)
    requires Partial(bitmap, done, cur, width, height) && |cur| < width
    requires line == bitmap[|done|][|cur| := d]
    ensures Partial(bitmap[|done| := line], done, cur + [d], width, height)
  {
    assert line == (cur + [d]) + Zeros(width - |cur| - 1);
  }

  lemma PartialNextRow(bitmap: Grid, done: Grid, cur: seq<Byte>, width: nat, height: nat)
    requires Partial(bitmap, done, cur, width, height) && |cur| == width && |done| < height - 1
    ensures Partial(bitmap[|done| + 1 := Zeros(width)], done + [cur], [], width, height)
  {
    assert cur + Zeros(0) == cur;
  }

  lemma PartialComplete(bitmap: Grid, done: Grid, cur: seq<Byte>, width: nat, height: nat)
    requires Partial(bitmap, done, cur, width, height)
    requires |done| == height - 1 && |cur| == width - 1
    ensures bitmap == done + [cur + [0]]
  {
    assert Zeros(1) == [0];
  }

  lemma PartialFill(bitmap: Grid, done: Grid, cur: seq<Byte>, ts: seq<Byte>, width: nat, height: nat)
    requires width >= 2 && height >= 2 && Partial(bitmap, done, cur, width, height)
    requires |done| == height - 1 && |cur| == width - 1
    requires ts == Concat(done) + cur && |ts| == PixelCount(width, height)
    ensures bitmap == Fill(ts, width, height)
  {
    PartialComplete(bitmap, done, cur, width, height);
    var g := done + [cur + [0]];
    ConcatSnoc(done, cur + [0]);
    assert Concat(g) == ts + [0];
    RowsOfConcat(g, width);
  }

  /**
   * When the loop guard fails, every pixel the loop reads has been read and
   * the bitmap is `Fill` of them.
   */
  lemma LoopExit(bitmap: Grid, done: Grid, cur: seq<Byte>, ts: seq<Byte>, width: nat, height: nat)
    requires height > 0 && Partial(bitmap, done, cur, width, height) && ts == Concat(done) + cur
    requires width >= 2 && height >= 2 ==> |done| < height && |cur| < width
    requires !(width >= 2 && height >= 2) ==> done == [] && cur == [] && PixelCount(width, height) == 0
    requires !(|cur| * |done| < (width - 1) * (height - 1))
    ensures |ts| == PixelCount(width, height) && bitmap == Fill(ts, width, height)
  {
    if width >= 2 && height >= 2 {
      ConcatLength(done, width);
      Guard(width, height, |done|, |cur|);
      PartialFill(bitmap, done, cur, ts, width, height);
    } else {
      assert [] + Zeros(width) == Zeros(width);
      assert bitmap[0] == Zeros(width);
      assert bitmap == [Zeros(width)] + NilRows(height - 1);
    }
  }

  /**
   * Reading from `start`, the first `n` tokens are `ts`, already read,
   * followed by the tokens still to read from `p`; the bytes consumed are
   * those up to `p`, then those the rest of the read consumes.
   */
  ghost predicate PixelsPending(data: seq<Byte>, start: nat, n: nat, ts: seq<Byte>, p: nat) {
    start <= p <= |data| && |ts| <= n && Tokens(data[start..], n) == Join(ts, Tokens(data[p..], n - |ts|)) &&
    start + Consumed(data[start..], n) == p + Consumed(data[p..], n - |ts|)
  }

  /** The input ends before all tokens are read. */
  lemma EndStep(data: seq<Byte>, start: nat, n: nat, ts: seq<Byte>)
    requires PixelsPending(data, start, n, ts, |data|) && |ts| < n
    ensures Tokens(data[start..], n) == Exhausted && start + Consumed(data[start..], n) == |data|
  {
    assert data[|data|..] == [];
  }

  /** A byte that is neither whitespace nor '0'/'1' stops the read, and is the last byte consumed. */
  lemma BadStep(data: seq<Byte>, start: nat, n: nat, ts: seq<Byte>, p: nat)
    requires PixelsPending(data, start, n, ts, p) && p < |data| && |ts| < n
    requires !IsSpace(data[p]) && data[p] != ZERO && data[p] != ONE
    ensures Tokens(data[start..], n) == BadPixel && start + Consumed(data[start..], n) == p + 1
  {
    assert data[p..][0] == data[p];
  }

  /** Once `n` tokens are read, they are the outcome, and nothing more is consumed. */
  lemma DoneStep(data: seq<Byte>, start: nat, n: nat, ts: seq<Byte>, p: nat)
    requires PixelsPending(data, start, n, ts, p) && |ts| == n
    ensures Tokens(data[start..], n) == Got(ts) && start + Consumed(data[start..], n) == p
  {
    assert ts + [] == ts;
  }

  /** A whitespace byte is skipped: the tokens still to read come after it. */
  lemma SpaceStep(data: seq<Byte>, start: nat, n: nat, ts: seq<Byte>, p: nat, q: nat)
    requires PixelsPending(data, start, n, ts, p) && p < |data| && q == p + 1 && IsSpace(data[p]) && |ts| < n
    ensures PixelsPending(data, start, n, ts, q)
  {
    assert data[p..][1..] == data[q..];
  }

  /** A '0' or '1' byte is the next token. */
  lemma PixelStep(data: seq<Byte>, start: nat, n: nat, ts: seq<Byte>, p: nat, q: nat, v: Byte)
    requires PixelsPending(data, start, n, ts, p) && p < |data| && q == p + 1 && data[p] == ZERO + v && v <= 1 && |ts| < n
    ensures PixelsPending(data, start, n, ts + [v], q)
  {
    var k := n - |ts|;
    assert data[p..][1..] == data[q..];
    assert Tokens(data[p..], k) == Join([v], Tokens(data[q..], k - 1));
    match Tokens(data[q..], k - 1) {
      case Got(us) => assert ts + ([v] + us) == (ts + [v]) + us;
      case _ =>
    }
  }

  /**
   * The `'0'`/`'1'` case of the pixel loop: the value is stored at (row,
   * col), and the position moves to the next cell in row-major order,
   * allocating the next row when a row that is not the last is complete.
   */
  method StorePixel(bitmap0: Grid, row0: nat, col0: nat, v: Byte, width: nat, height: nat,
                    ghost done0: Grid, ghost cur0: seq<Byte>)
    returns (bitmap: Grid, row: nat, col: nat, ghost done: Grid, ghost cur: seq<Byte>)
    requires Partial(bitmap0, done0, cur0, width, height) && row0 == |done0| && col0 == |cur0|
    requires col0 < width && !(row0 == height - 1 && col0 == width - 1)
    ensures Partial(bitmap, done, cur, width, height) && row == |done| && col == |cur|
    ensures Concat(done) + cur == Concat(done0) + cur0 + [v]
    ensures col < width
  {
    var line: seq<Byte> := bitmap0[row0][col0 := v];
    PartialStore(bitmap0, done0, cur0, width, height, v, line);
    bitmap, row := bitmap0[row0 := line], row0;
    var c: int := col0;
    done, cur := done0, cur0 + [v];
    if c == width - 1 && row < height - 1 {
      PartialNextRow(bitmap, done, cur, width, height);
      ConcatSnoc(done, cur);
      assert Concat(done + [cur]) + [] == Concat(done0) + cur0 + [v];
      done := done + [cur];
      cur := [];
      row := row + 1;
      bitmap := bitmap[row := Zeros(width)];
      c := -1;
    }
    col := c + 1;
  }

  /**
   * The pixel loop of Decode and DecodePBM: whitespace is skipped, each
   * '0' or '1' is stored at (row, col) and moves to the next cell in
   * row-major order, allocating the next row when a row is complete.
   */
  method ReadBitmap(pr: PbmReader, width: nat, height: nat) returns (bitmap: Grid, ok: bool)
    requires pr.Valid() && pr.err == None && height > 0
    modifies pr
    ensures pr.Valid()
    ensures ok <==> Tokens(pr.data[old(pr.pos)..], PixelCount(width, height)).Got?
    ensures ok ==> bitmap == Fill(Tokens(pr.data[old(pr.pos)..], PixelCount(width, height)).bits, width, height)
    ensures Tokens(pr.data[old(pr.pos)..], PixelCount(width, height)).Exhausted? ==> pr.err == Some(EOF)
    ensures Tokens(pr.data[old(pr.pos)..], PixelCount(width, height)).BadPixel? ==> pr.err == None
    ensures ok ==> pr.err == None
    ensures pr.pos == old(pr.pos) + Consumed(pr.data[old(pr.pos)..], PixelCount(width, height))
  {
    bitmap := NilRows(height);
    bitmap := bitmap[0 := Zeros(width)];
    var col, row := 0, 0;
    ghost var n := PixelCount(width, height);
    ghost var start := pr.pos;
    ghost var full := width >= 2 && height >= 2;
    ghost var done: Grid := [];
    ghost var cur: seq<Byte> := [];
    ghost var ts: seq<Byte> := [];
    if !full {
      NoPixelsRead(width, height);
    }
    while col * row < (width - 1) * (height - 1)
      invariant pr.Valid() && pr.err == None
      invariant !full ==> row == 0 && col == 0 && ts == [] && n == 0
      invariant !full ==> !(col * row < (width - 1) * (height - 1))
      invariant full ==> 0 <= row < height && 0 <= col < width
      invariant Partial(bitmap, done, cur, width, height) && row == |done| && col == |cur|
      invariant ts == Concat(done) + cur
      invariant PixelsPending(pr.data, start, n, ts, pr.pos)
      decreases n - |ts|, |pr.data| - pr.pos
    {
      ConcatLength(done, width);
      Guard(width, height, row, col);
      ghost var before := pr.pos;
      var ch := pr.GetNextByteAsRune();
      if pr.err.Some? {
        EndStep(pr.data, start, n, ts);
        return bitmap, false;
      } else if IsSpace(ch) {
        SpaceStep(pr.data, start, n, ts, before, pr.pos);
      } else if ch == ZERO || ch == ONE {
        var v: Byte := ch - ZERO;
        PixelStep(pr.data, start, n, ts, before, pr.pos, v);
        bitmap, row, col, done, cur := StorePixel(bitmap, row, col, v, width, height, done, cur);
        ts := ts + [v];
      } else {
        BadStep(pr.data, start, n, ts, before);
        return bitmap, false;
      }
    }
    LoopExit(bitmap, done, cur, ts, width, height);
    DoneStep(pr.data, start, n, ts, pr.pos);
    ok := true;
  }

  /**
   * The part of Decode and DecodePBM after a successful header read: the
   * pixel loop, then `errorFunc` on failure: the reader's error, or "failed
   * to parse PBM data" when it has none.
   */
  method DecodeBitmap(pr: PbmReader, header: Config) returns (p: Pbm?, e: Option<DecodeError>)
    requires pr.Valid() && pr.err == None && header.width >= 0 && header.height > 0
    modifies pr
    ensures var r := Tokens(pr.data[old(pr.pos)..], PixelCount(header.width, header.height));
      (r.Got? ==>
        e == None && p != null && fresh(p) &&
        p.config == Some(header) && p.bitMap == Some(Fill(r.bits, header.width, header.height))) &&
      (r.Exhausted? ==> p == null && e == Some(ReaderError(EOF))) &&
      (r.BadPixel? ==> p == null && e == Some(FailedToParse))
  {
    var bitmap, ok := ReadBitmap(pr, header.width, header.height);
    if !ok {
      return null, Some(if pr.err.Some? then ReaderError(pr.err.value) else FailedToParse);
    }
    p := new Pbm(header, bitmap);
    e := None;
  }

  /** Decode of pkg/pbm.go. */
  method Decode(data: seq<Byte>) returns (p: Pbm?, e: Option<DecodeError>)
    requires !DecodeSpec(data, true).Hangs? && !DecodeSpec(data, true).Panics?
    ensures DecodeSpec(data, true).Decoded? ==>
      e == None && p != null && fresh(p) &&
      p.config == Some(DecodeSpec(data, true).config) && p.bitMap == Some(DecodeSpec(data, true).bitmap)
    ensures DecodeSpec(data, true).DecodeFailed? ==> p == null && e == Some(DecodeSpec(data, true).error)
  {
    var pr := new PbmReader(data);
    var header, ok := pr.GetConfig();
    if !ok {
      return null, Some(if pr.err.Some? then ReaderError(pr.err.value) else InvalidHeader);
    }
    p, e := DecodeBitmap(pr, header);
  }

  /** DecodePBM of pkg/pbm/pbm.go. */
  method DecodePBM(data: seq<Byte>) returns (p: Pbm?, e: Option<DecodeError>)
    requires !DecodeSpec(data, false).Hangs? && !DecodeSpec(data, false).Panics?
    ensures DecodeSpec(data, false).Decoded? ==>
      e == None && p != null && fresh(p) &&
      p.config == Some(DecodeSpec(data, false).config) && p.bitMap == Some(DecodeSpec(data, false).bitmap)
    ensures DecodeSpec(data, false).DecodeFailed? ==> p == null && e == Some(DecodeSpec(data, false).error)
  {
    var pr := new PbmReader(data);
    var header, ok := pr.GetHeader();
    if !ok {
      return null, Some(if pr.err.Some? then ReaderError(pr.err.value) else InvalidHeader);
    }
    p, e := DecodeBitmap(pr, header);
  }

  /** `strings.Replace(s, from, to, -1)` for one-byte strings. */
  function Replace(s: String, from: Byte, to: Byte): (r: String)
    ensures |r| == |s|
    ensures forall k :: 0 <= k < |s| ==> r[k] == if s[k] == from then to else s[k]
    decreases |s|
  {
    if s == [] then [] else [if s[0] == from then to else s[0]] + Replace(s[1..], from, to)
  }

  /** The comment as Encode writes it: its line breaks become spaces. */
  function OneLine(c: String): (r: String)
    ensures |r| == |c| && NoBreaks(r)
    ensures NoBreaks(c) ==> r == c
  {
    Replace(Replace(c, LF, SPACE), CR, SPACE)
  }

  /** The texts of `xs` one after the other. */
  function FlatMap<T>(xs: seq<T>, f: T -> String): String
    decreases |xs|
  {
    if xs == [] then [] else f(xs[0]) + FlatMap(xs[1..], f)
  }

  lemma {:induction false} FlatMapSnoc<T>(xs: seq<T>, x: T, f: T -> String)
    ensures FlatMap(xs + [x], f) == FlatMap(xs, f) + f(x)
    decreases |xs|
  {
    if xs == [] {
      assert xs + [x] == [x];
    } else {
      assert (xs + [x])[1..] == xs[1..] + [x];
      FlatMapSnoc(xs[1..], x, f);
    }
  }

  /** Appending the text of the next element keeps `out` the text of the prefix written so far. */
  lemma FlatMapStep<T>(out0: String, out: String, xs: seq<T>, i: nat, f: T -> String)
    requires i < |xs| && out == out0 + FlatMap(xs[..i], f)
    ensures out + f(xs[i]) == out0 + FlatMap(xs[..i + 1], f)
  {
    FlatMapSnoc(xs[..i], xs[i], f);
    assert xs[..i + 1] == xs[..i] + [xs[i]];
  }

  /** `# %s\n` of a comment. */
  function CommentLine(c: String): String {
    [HASH, SPACE] + OneLine(c) + [LF]
  }

  /** `%d ` of a pixel. */
  function PixelText(b: Byte): String {
    Decimal(b) + [SPACE]
  }

  /** A row: its pixels, then `\n`. */
  function RowLine(row: seq<Byte>): String {
    FlatMap(row, PixelText) + [LF]
  }

  /** "P1", the comment lines and the `%d %d` line of width and height. */
  function HeaderText(config: Config): String {
    [LETTER_P, ONE, LF] + FlatMap(config.comments, CommentLine) +
    IntText(config.width) + [SPACE] + IntText(config.height) + [LF]
  }

  /** Everything Encode and Save hand to the writer. */
  function EncodeText(config: Config, bitmap: Grid): String {
    HeaderText(config) + FlatMap(bitmap, RowLine)
  }

  /** The comment loop of Encode and Save, appending to `out0`. */
  method WriteComments(out0: String, comments: seq<String>) returns (out: String)
    ensures out == out0 + FlatMap(comments, CommentLine)
  {
    out := out0;
    var i := 0;
    while i < |comments|
      invariant 0 <= i <= |comments|
      invariant out == out0 + FlatMap(comments[..i], CommentLine)
    {
      var c := comments[i];
      c := Replace(c, LF, SPACE);
      c := Replace(c, CR, SPACE);
      var line := [HASH, SPACE] + c + [LF];
      assert line == CommentLine(comments[i]);
      FlatMapStep(out0, out, comments, i, CommentLine);
      out := out + line;
      i := i + 1;
    }
    assert comments[..i] == comments;
  }

  /** The inner loop of Encode and Save over one row, then its `\n`. */
  method WriteRow(out0: String, row: seq<Byte>) returns (out: String)
    ensures out == out0 + RowLine(row)
  {
    out := out0;
    var j := 0;
    while j < |row|
      invariant 0 <= j <= |row|
      invariant out == out0 + FlatMap(row[..j], PixelText)
    {
      var text := Decimal(row[j]) + [SPACE];
      FlatMapStep(out0, out, row, j, PixelText);
      out := out + text;
      j := j + 1;
    }
    assert row[..j] == row;
    out := out + [LF];
  }

  /** The writes Encode and Save perform, in order, into the buffered writer. */
  method WriteImage(config: Config, bitmap: Grid) returns (out: String)
    ensures out == EncodeText(config, bitmap)
  {
    out := WriteComments([LETTER_P, ONE, LF], config.comments);
    out := out + IntText(config.width) + [SPACE] + IntText(config.height) + [LF];
    ghost var header := out;
    var r := 0;
    while r < |bitmap|
      invariant 0 <= r <= |bitmap|
      invariant out == header + FlatMap(bitmap[..r], RowLine)
    {
      FlatMapStep(header, out, bitmap, r, RowLine);
      out := WriteRow(out, bitmap[r]);
      r := r + 1;
    }
    assert bitmap[..r] == bitmap;
  }

  /**
   * Encode of pkg/pbm.go: the missing-part errors in the order the source
   * checks them, then the text, or the flush error when `flushFails`.
   */
  method Encode(p: Pbm?, flushFails: bool) returns (r: Result<String, PbmError>)
    ensures p == null ==> r == Failure(NoImageLoaded)
    ensures p != null && p.bitMap.None? ==> r == Failure(NoBitmapLoaded)
    ensures p != null && p.bitMap.Some? && p.config.None? ==> r == Failure(NoHeaderLoaded)
    ensures p != null && p.bitMap.Some? && p.config.Some? ==>
      r == if flushFails then Failure(WriteFailed) else Success(EncodeText(p.config.value, p.bitMap.value))
  {
    if p == null {
      return Failure(NoImageLoaded);
    }
    if p.bitMap.None? {
      return Failure(NoBitmapLoaded);
    }
    if p.config.None? {
      return Failure(NoHeaderLoaded);
    }
    var out := WriteImage(p.config.value, p.bitMap.value);
    if flushFails {
      return Failure(WriteFailed);
    }
    return Success(out);
  }

  /**
   * Save of pkg/pbm/pbm.go: the same text, with no check for missing
   * parts (a nil one is dereferenced) and the flush error dropped.
   */
  method Save(p: Pbm) returns (out: String)
    requires p.config.Some? && p.bitMap.Some?
    ensures out == EncodeText(p.config.value, p.bitMap.value)
  {
    out := WriteImage(p.config.value, p.bitMap.value);
  }
}
