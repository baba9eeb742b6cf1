/**
 * What decoding the encoder's text gives back: the header the encoder
 * writes parses to its own width, height and comments; the pixel text
 * reads back as the pixels; and so a decoded image survives an
 * encode-decode cycle. The decoder as written loses the last pixel and
 * re-encodes comment bytes above 0x7F; `DecodeFixed` is the decoder with
 * both corrected, for which every image round-trips.
 */
module RoundTrip {
  import opened Bytes
  import opened Header
  import opened Image
  import opened Reader
  import opened Pixels
  import opened Codec

  /** The comments as the encoder writes them, each on one line. */
  function OneLines(cs: seq<String>): (r: seq<String>)
    ensures |r| == |cs| && forall k :: 0 <= k < |cs| ==> r[k] == OneLine(cs[k]) && NoBreaks(r[k])
    decreases |cs|
  {
    if cs == [] then [] else [OneLine(cs[0])] + OneLines(cs[1..])
  }

  lemma OneLinesKeep(cs: seq<String>)
    requires forall k :: 0 <= k < |cs| ==> NoBreaks(cs[k])
    ensures OneLines(cs) == cs
  {
  }

  /** Where the parts of a line `#`, `c`, `\n` are. */
  lemma FramedAt(data: seq<Byte>, p: nat, c: seq<Byte>)
    requires p + |c| + 2 <= |data| && data[p..p + |c| + 2] == [HASH] + c + [LF]
    ensures data[p] == HASH && data[p + 1..p + 1 + |c|] == c && data[p + 1 + |c|] == LF
  {
    var line := data[p..p + |c| + 2];
    assert data[p] == line[0];
    assert data[p + 1 + |c|] == line[|c| + 1];
    forall k | 0 <= k < |c|
      ensures data[p + 1..p + 1 + |c|][k] == c[k]
    {
      assert data[p + 1 + k] == line[1 + k];
    }
  }

  /** A comment line is '#', the comment after a space, and '\n'. */
  lemma CommentLineShape(comment: String)
    ensures CommentLine(comment) == [HASH] + ([SPACE] + OneLine(comment)) + [LF]
  {
  }

  /** The header machine ends the same way from `p` with `m` as from `q` with `m2`. */
  ghost predicate SameOutcome(data: seq<Byte>, p: nat, m: Machine, q: nat, m2: Machine) {
    p <= |data| && q <= |data| && Run(data, p, m) == Run(data, q, m2)
  }

  lemma SameOutcomeTrans(data: seq<Byte>, p: nat, m: Machine, q: nat, m1: Machine, e: nat, m2: Machine)
    requires SameOutcome(data, p, m, q, m1) && SameOutcome(data, q, m1, e, m2)
    ensures SameOutcome(data, p, m, e, m2)
  {
  }

  /**
   * A comment line `# <comment>\n` is read back as the comment with its
   * line breaks turned into spaces: the space after '#' is the one
   * whitespace byte the reader drops, and the machine is back in ReadSpace
   * afterwards.
   */
  lemma OneCommentLine(data: seq<Byte>, p: nat, m: Machine, comment: String)
    requires m.state == ReadSpace && m.cmt == []
    requires p + |CommentLine(comment)| <= |data| && data[p..p + |CommentLine(comment)|] == CommentLine(comment)
    ensures SameOutcome(data, p, m, p + |CommentLine(comment)|, AfterComments(m, [OneLine(comment)]))
  {
    var c := [SPACE] + OneLine(comment);
    CommentLineShape(comment);
    FramedAt(data, p, c);
    assert NoBreaks(c);
    SpacedComment(data, p, m, c, OneLine(comment));
  }

  /** A comment written after "# " loses that space and nothing else. */
  lemma SpacedComment(data: seq<Byte>, p: nat, m: Machine, c: String, body: String)
    requires m.state == ReadSpace && m.cmt == [] && c == [SPACE] + body && NoBreaks(c)
    requires p + |c| + 2 <= |data| && data[p] == HASH && data[p + 1..p + 1 + |c|] == c && data[p + 1 + |c|] == LF
    ensures Run(data, p, m) == Run(data, p + |c| + 2, AfterComments(m, [body]))
  {
    CommentRule(data, p, m, c);
    assert m.cmt + c == c;
    assert StripOneSpace(c) == body;
  }

  /** A slice holding `a + b` holds `a`, then `b`. */
  lemma SliceSplit(data: seq<Byte>, p: nat, a: seq<Byte>, b: seq<Byte>)
    requires p + |a + b| <= |data| && data[p..p + |a + b|] == a + b
    ensures data[p..p + |a|] == a && data[p + |a|..p + |a| + |b|] == b
  {
    assert data[p..p + |a|] == data[p..p + |a + b|][..|a|];
    assert data[p + |a|..p + |a| + |b|] == data[p..p + |a + b|][|a|..];
  }

  // Solver hint: sequence concatenation is associative, stated once for the callers' terms.
  lemma AppendAssoc<T>(a: seq<T>, b: seq<T>, c: seq<T>)
    ensures (a + b) + c == a + (b + c)
  {
  }

  /**
   * The machine after comment lines that read back as `lines`: the comments
   * gain them, and the state left before the last '#' is ReadComment.
   */
  function AfterComments(m: Machine, lines: seq<String>): Machine {
    if lines == [] then m else m.(prevState := ReadComment, comments := m.comments + lines)
  }

  /** The comment lines the encoder writes, one after the other. */
  function CommentBlock(cs: seq<String>): (s: String)
    decreases |cs|
  {
    if cs == [] then [] else CommentLine(cs[0]) + CommentBlock(cs[1..])
  }

  /** The block is what the encoder's loop over the comments appends. */
  lemma {:induction false} CommentBlockIsFlatMap(cs: seq<String>)
    ensures CommentBlock(cs) == FlatMap(cs, CommentLine)
    decreases |cs|
  {
    if cs != [] {
      CommentBlockIsFlatMap(cs[1..]);
    }
  }

  /**
   * The comment lines the encoder writes, ending at `e`, are read back as
   * the comments, in order.
   */
  lemma {:induction false} CommentLines(data: seq<Byte>, p: nat, m: Machine, cs: seq<String>, e: nat)
    requires m.state == ReadSpace && m.cmt == []
    requires e == p + |CommentBlock(cs)| && e <= |data| && data[p..e] == CommentBlock(cs)
    ensures SameOutcome(data, p, m, e, AfterComments(m, OneLines(cs)))
    decreases |cs|
  {
    if cs == [] {
      assert e == p && OneLines(cs) == [];
    } else {
      var q := FirstCommentLine(data, p, cs, e);
      OneCommentLine(data, p, m, cs[0]);
      CommentLines(data, q, AfterComments(m, [OneLine(cs[0])]), cs[1..], e);
      CommentsState(m, cs);
      SameOutcomeTrans(data, p, m, q, AfterComments(m, [OneLine(cs[0])]), e, AfterComments(m, OneLines(cs)));
    }
  }

  /** A block in `data` is its first comment line, then from `q` on the others. */
  lemma FirstCommentLine(data: seq<Byte>, p: nat, cs: seq<String>, e: nat) returns (q: nat)
    requires cs != [] && e == p + |CommentBlock(cs)| && e <= |data| && data[p..e] == CommentBlock(cs)
    ensures q == p + |CommentLine(cs[0])| && data[p..q] == CommentLine(cs[0])
    ensures q + |CommentBlock(cs[1..])| == e && data[q..e] == CommentBlock(cs[1..])
  {
    var line, more := CommentLine(cs[0]), CommentBlock(cs[1..]);
    SliceSplit(data, p, line, more);
    q := p + |line|;
  }

  /** Reading the first comment line, then the others, is reading all of them. */
  lemma CommentsState(m: Machine, cs: seq<String>)
    requires cs != []
    ensures AfterComments(AfterComments(m, [OneLine(cs[0])]), OneLines(cs[1..])) == AfterComments(m, OneLines(cs))
  {
    AppendAssoc(m.comments, [OneLine(cs[0])], OneLines(cs[1..]));
  }

  /**
   * The header the encoder writes for a configuration of non-negative size
   * parses to that width and height, its comments with line breaks turned
   * into spaces, and ends exactly where the header text ends.
   */
  lemma HeaderParses(config: Config, rest: seq<Byte>)
    requires config.width >= 0 && config.height >= 0
    ensures ReadHeader(HeaderText(config) + rest, 0) ==
      Parsed(config.width, config.height, OneLines(config.comments), |HeaderText(config)|)
  {
    var data := HeaderText(config) + rest;
    var w, h := Decimal(config.width), Decimal(config.height);
    var cl := CommentBlock(config.comments);
    CommentBlockIsFlatMap(config.comments);
    assert data == [LETTER_P, ONE, LF] + cl + w + [SPACE] + h + [LF] + rest;
    HeaderLayout(data, cl, 3 + |cl|, w, h, rest);
    HeaderTextRuns(data, config.comments, 3 + |cl|, w, h);
    FoldDecimal(config.width);
    FoldDecimal(config.height);
  }

  /** The header text laid out in `data`, its numbers from `p` on, parses as a header. */
  lemma HeaderTextRuns(data: seq<Byte>, cs: seq<String>, p: nat, w: seq<Byte>, h: seq<Byte>)
    requires p == 3 + |CommentBlock(cs)| && p <= |data|
    requires data[0] == LETTER_P && data[1] == ONE && data[2] == LF
    requires data[3..p] == CommentBlock(cs)
    requires NumberAt(data, p, w) && NumberAt(data, p + |w| + 1, h)
    ensures ReadHeader(data, 0) ==
      Parsed(FoldDigits(0, w), FoldDigits(0, h), OneLines(cs), p + |w| + |h| + 2)
  {
    TagThenComments(data, cs, p);
    var m := AfterComments(Start, OneLines(cs));
    assert m.comments == Start.comments + OneLines(cs) == OneLines(cs);
    TwoNumbers(data, p, m, w, h);
  }

  /** The tag line and the comment lines bring the machine to the numbers with the comments read. */
  lemma TagThenComments(data: seq<Byte>, cs: seq<String>, p: nat)
    requires p == 3 + |CommentBlock(cs)| && p <= |data|
    requires data[0] == LETTER_P && data[1] == ONE && data[2] == LF
    requires data[3..p] == CommentBlock(cs)
    ensures ReadHeader(data, 0) == Run(data, p, AfterComments(Start, OneLines(cs)))
  {
    assert ReadHeader(data, 0) == Run(data, 3, Start);
    CommentLines(data, 3, Start, cs, p);
  }

  /** Where the parts of a header text are: the tag line, the comment lines, the two numbers. */
  lemma HeaderLayout(data: seq<Byte>, cl: seq<Byte>, p: nat, w: seq<Byte>, h: seq<Byte>, rest: seq<Byte>)
    requires data == [LETTER_P, ONE, LF] + cl + w + [SPACE] + h + [LF] + rest && p == 3 + |cl|
    ensures |data| == p + |w| + |h| + 2 + |rest|
    ensures data[0] == LETTER_P && data[1] == ONE && data[2] == LF
    ensures data[3..p] == cl
    ensures |w| > 0 && |h| > 0 && AllDigits(w) && AllDigits(h) ==>
      NumberAt(data, p, w) && NumberAt(data, p + |w| + 1, h)
  {
  }

  lemma JoinJoin(a: seq<Byte>, b: seq<Byte>, r: Scanned)
    ensures Join(a, Join(b, r)) == Join(a + b, r)
  {
    match r {
      case Got(us) => assert a + (b + us) == (a + b) + us;
      case _ =>
    }
  }

  /** `%d ` of a pixel is its digit and a space. */
  lemma PixelTextOfBit(b: Byte)
    requires b <= 1
    ensures PixelText(b) == [ZERO + b, SPACE]
  {
    assert Decimal(b) == [ZERO + b];
  }

  /** The digit of a pixel is one token, and the space after it is skipped. */
  lemma DigitThenSpace(b: Byte, tail: seq<Byte>, n: nat)
    requires b <= 1 && n >= 2
    ensures Tokens([ZERO + b, SPACE] + tail, n) == Join([b], Tokens(tail, n - 1))
  {
    var s := [ZERO + b, SPACE] + tail;
    assert s[1..] == [SPACE] + tail;
    assert s[1..][1..] == tail;
  }

  /** The text `%d ` of each pixel reads back as the pixels. */
  lemma {:induction false} PixelTokens(row: seq<Byte>, rest: seq<Byte>, n: nat)
    requires IsBits(row)
    ensures Tokens(FlatMap(row, PixelText) + rest, n) ==
      if n <= |row| then Got(row[..n]) else Join(row, Tokens(rest, n - |row|))
    decreases |row|
  {
    if n == 0 {
      assert Got([]) == Got(row[..0]);
    } else if row == [] {
      assert FlatMap(row, PixelText) + rest == rest;
      JoinNothing(Tokens(rest, n));
    } else {
      var b := row[0];
      var tail := FlatMap(row[1..], PixelText) + rest;
      FirstPixelText(row, rest);
      PixelTokens(row[1..], rest, n - 1);
      ConsTokens(b, row[1..], tail, rest, n);
      assert [b] + row[1..] == row;
    }
  }

  // Solver hint: prefixing no tokens leaves an outcome as it is.
  lemma JoinNothing(r: Scanned)
    ensures Join([], r) == r
  {
    match r {
      case Got(us) => assert [] + us == us;
      case _ =>
    }
  }

  /** The pixel text of a row is the first pixel's `%d `, then the others'. */
  lemma FirstPixelText(row: seq<Byte>, rest: seq<Byte>)
    requires IsBits(row) && row != []
    ensures row[0] <= 1
    ensures FlatMap(row, PixelText) + rest == [ZERO + row[0], SPACE] + (FlatMap(row[1..], PixelText) + rest)
  {
    PixelTextOfBit(row[0]);
  }

  /** One more pixel's text in front: its bit joins the front of what is read. */
  lemma ConsTokens(b: Byte, more: seq<Byte>, tail: seq<Byte>, rest: seq<Byte>, n: nat)
    requires b <= 1 && n >= 1
    requires Tokens(tail, n - 1) ==
      if n - 1 <= |more| then Got(more[..n - 1]) else Join(more, Tokens(rest, n - 1 - |more|))
    ensures Tokens([ZERO + b, SPACE] + tail, n) ==
      if n <= |more| + 1 then Got(([b] + more)[..n]) else Join([b] + more, Tokens(rest, n - 1 - |more|))
  {
    var s := [ZERO + b, SPACE] + tail;
    if n == 1 {
      assert s[1..] == [SPACE] + tail;
      assert Tokens(s, 1) == Join([b], Tokens(s[1..], 0)) == Got([b] + []);
      assert [b] + [] == ([b] + more)[..1];
    } else {
      DigitThenSpace(b, tail, n);
      if n <= |more| + 1 {
        assert [b] + more[..n - 1] == ([b] + more)[..n];
      } else {
        JoinJoin([b], more, Tokens(rest, n - 1 - |more|));
      }
    }
  }

  /** A row's text, pixels then `\n`, reads back as the row. */
  lemma RowTokens(row: seq<Byte>, rest: seq<Byte>, n: nat)
    requires IsBits(row)
    ensures Tokens(RowLine(row) + rest, n) ==
      if n <= |row| then Got(row[..n]) else Join(row, Tokens(rest, n - |row|))
  {
    assert RowLine(row) + rest == FlatMap(row, PixelText) + ([LF] + rest);
    PixelTokens(row, [LF] + rest, n);
    if n > |row| {
      assert ([LF] + rest)[1..] == rest;
    }
  }

  /** The pixel text of a bitmap reads back as its pixels, row after row. */
  lemma {:induction false} GridTokens(g: Grid, rest: seq<Byte>, n: nat)
    requires IsBits(Concat(g))
    ensures Tokens(FlatMap(g, RowLine) + rest, n) ==
      if n <= |Concat(g)| then Got(Concat(g)[..n]) else Join(Concat(g), Tokens(rest, n - |Concat(g)|))
    decreases |g|
  {
    if g == [] {
      assert FlatMap(g, RowLine) + rest == rest;
      match Tokens(rest, n) {
        case Got(us) => assert [] + us == us;
        case _ =>
      }
    } else {
      var tail := Concat(g[1..]);
      assert Concat(g) == g[0] + tail;
      assert IsBits(g[0]) by {
        forall k | 0 <= k < |g[0]| ensures g[0][k] <= 1 {
          assert g[0][k] == Concat(g)[k];
        }
      }
      assert IsBits(tail) by {
        forall k | 0 <= k < |tail| ensures tail[k] <= 1 {
          assert tail[k] == Concat(g)[|g[0]| + k];
        }
      }
      var more := FlatMap(g[1..], RowLine) + rest;
      assert FlatMap(g, RowLine) + rest == RowLine(g[0]) + more;
      RowTokens(g[0], more, n);
      if n <= |g[0]| {
        assert Concat(g)[..n] == g[0][..n];
      } else {
        GridTokens(g[1..], rest, n - |g[0]|);
        if n <= |Concat(g)| {
          assert g[0] + tail[..n - |g[0]|] == Concat(g)[..n];
        } else {
          JoinJoin(g[0], tail, Tokens(rest, n - |Concat(g)|));
        }
      }
    }
  }

  /**
   * Decoding the encoder's text, as the decoder is written: the header
   * comes back with one-line comments in `string([]rune)` form, and the
   * bitmap is what the pixel loop builds from the first `PixelCount`
   * pixels written. The bitmap needs as many pixels as that loop reads.
   */
  lemma EncodeThenDecode(config: Config, bitmap: Grid, sticky: bool)
    requires config.width >= 0 && config.height >= 1
    requires IsBits(Concat(bitmap)) && |Concat(bitmap)| >= PixelCount(config.width, config.height)
    ensures DecodeSpec(EncodeText(config, bitmap), sticky) ==
      Decoded(Config(config.width, config.height, Strings(OneLines(config.comments))),
               Fill(Concat(bitmap)[..PixelCount(config.width, config.height)], config.width, config.height))
  {
    var data := EncodeText(config, bitmap);
    var pixels := FlatMap(bitmap, RowLine);
    HeaderParses(config, pixels);
    assert data[|HeaderText(config)|..] == pixels;
    GridTokens(bitmap, [], PixelCount(config.width, config.height));
    assert pixels + [] == pixels;
  }

  /** The bitmap with its bottom-right pixel set to 0. */
  function LastCleared(g: Grid, width: nat, height: nat): (r: Grid)
    requires width >= 1 && height >= 1 && |g| == height && RowsOfWidth(g, width)
    ensures |r| == height && RowsOfWidth(r, width)
    ensures forall i, j :: 0 <= i < height && 0 <= j < width ==>
      r[i][j] == if i == height - 1 && j == width - 1 then 0 else g[i][j]
  {
    var line: seq<Byte> := g[height - 1][width - 1 := 0];
    g[height - 1 := line]
  }

  /** Clearing the last pixel drops the last of the pixels in order and appends a 0. */
  lemma LastClearedConcat(g: Grid, width: nat, height: nat)
    requires width >= 1 && height >= 1 && |g| == height && RowsOfWidth(g, width)
    ensures |Concat(g)| == width * height
    ensures Concat(LastCleared(g, width, height)) == Concat(g)[..width * height - 1] + [0]
  {
    ConcatLength(g, width);
    var top := g[..height - 1];
    var cleared := LastCleared(g, width, height);
    assert g == top + [g[height - 1]];
    assert cleared == top + [cleared[height - 1]];
    ConcatSnoc(top, g[height - 1]);
    ConcatSnoc(top, cleared[height - 1]);
    ConcatLength(top, width);
    assert |Concat(top)| == (height - 1) * width == width * height - width;
    assert cleared[height - 1] == g[height - 1][..width - 1] + [0];
    assert Concat(g)[..width * height - 1] == Concat(top) + g[height - 1][..width - 1];
  }

  /**
   * As written, a bitmap of at least 2x2 pixels comes back from an
   * encode-decode cycle with its last pixel cleared: the pixel loop stops
   * one pixel short.
   */
  lemma LastPixelLost(config: Config, bitmap: Grid, sticky: bool)
    requires config.width >= 2 && config.height >= 2
    requires |bitmap| == config.height && RowsOfWidth(bitmap, config.width) && IsBits(Concat(bitmap))
    ensures DecodeSpec(EncodeText(config, bitmap), sticky).Decoded?
    ensures DecodeSpec(EncodeText(config, bitmap), sticky).bitmap ==
      LastCleared(bitmap, config.width, config.height)
  {
    LastClearedConcat(bitmap, config.width, config.height);
    EncodeThenDecode(config, bitmap, sticky);
    FillCleared(bitmap, config.width, config.height);
  }

  /** The grid the decoder fills from all pixels but the last is the image with its last pixel cleared. */
  lemma FillCleared(g: Grid, w: nat, h: nat)
    requires w >= 2 && h >= 2 && |g| == h && RowsOfWidth(g, w)
    ensures |Concat(g)| >= PixelCount(w, h)
    ensures Fill(Concat(g)[..PixelCount(w, h)], w, h) == LastCleared(g, w, h)
  {
    var n := PixelCount(w, h);
    LastClearedConcat(g, w, h);
    var cleared := LastCleared(g, w, h);
    RowsOfConcat(cleared, w);
    assert Fill(Concat(g)[..n], w, h) == Rows(Concat(g)[..n] + [0], w, h);
  }

  /** The 2x2 image of four set pixels comes back with its last pixel clear. */
  lemma AllOnes2x2LosesLastPixel(sticky: bool)
    ensures DecodeSpec(EncodeText(Config(2, 2, []), [[1, 1], [1, 1]]), sticky).Decoded?
    ensures DecodeSpec(EncodeText(Config(2, 2, []), [[1, 1], [1, 1]]), sticky).bitmap == [[1, 1], [1, 0]]
  {
    var g: Grid := [[1, 1], [1, 1]];
    assert Concat(g) == [1, 1, 1, 1] by {
      assert Concat(g[1..]) == [1, 1] by {
        assert g[1..][1..] == [];
      }
    }
    LastPixelLost(Config(2, 2, []), g, sticky);
    var line: seq<Byte> := g[1][1 := 0];
    assert line == [1, 0];
    assert LastCleared(g, 2, 2) == g[1 := line] == [[1, 1], [1, 0]];
  }

  /**
   * An image one pixel wide reads no pixel at all: its first row comes back
   * as zeros and the others as nil rows.
   */
  lemma SingleColumnReadsNothing(sticky: bool)
    ensures DecodeSpec(EncodeText(Config(1, 3, []), [[1], [1], [1]]), sticky).Decoded?
    ensures DecodeSpec(EncodeText(Config(1, 3, []), [[1], [1], [1]]), sticky).bitmap == [[0], [], []]
  {
    var g: Grid := [[1], [1], [1]];
    assert Concat(g) == [1, 1, 1] by {
      assert Concat(g[1..]) == [1, 1] by {
        assert g[1..][1..] == [[1]];
        assert Concat(g[1..][1..]) == [1] by {
          assert g[1..][1..][1..] == [];
        }
      }
    }
    EncodeThenDecode(Config(1, 3, []), g, sticky);
    assert Fill([], 1, 3) == [Zeros(1)] + NilRows(2);
    assert Zeros(1) == [0];
  }

  /** A decoded bitmap's text reads back as the pixels the decoder read. */
  lemma DecodedPixels(data: seq<Byte>, sticky: bool)
    requires DecodeSpec(data, sticky).Decoded?
    ensures var d := DecodeSpec(data, sticky);
      IsBits(Concat(d.bitmap)) &&
      |Concat(d.bitmap)| >= PixelCount(d.config.width, d.config.height) &&
      Fill(Concat(d.bitmap)[..PixelCount(d.config.width, d.config.height)], d.config.width, d.config.height)
        == d.bitmap
  {
    var d := DecodeSpec(data, sticky);
    var w, h := d.config.width, d.config.height;
    var o := ReadHeader(data, 0);
    var ts := Tokens(data[o.next..], PixelCount(o.width, o.height)).bits;
    assert d.bitmap == Fill(ts, w, h);
    if w >= 2 && h >= 2 {
      assert Concat(d.bitmap) == ts + [0];
      assert Concat(d.bitmap)[..|ts|] == ts;
    } else {
      assert d.bitmap == [Zeros(w)] + NilRows(h - 1);
      assert Concat(d.bitmap) == Zeros(w) + Concat(NilRows(h - 1));
      assert Concat(NilRows(h - 1)) == [] by {
        ConcatLength(NilRows(h - 1), 0);
      }
      assert Concat(d.bitmap)[..0] == ts;
    }
  }

  /** The comments of a decoded header hold no line break. */
  lemma DecodedCommentsOneLine(data: seq<Byte>, sticky: bool)
    requires DecodeSpec(data, sticky).Decoded?
    ensures var cs := DecodeSpec(data, sticky).config.comments;
      forall k :: 0 <= k < |cs| ==> NoBreaks(cs[k])
  {
    var o := ReadHeader(data, 0);
    assert o == Run(data, 3, Start);
    ParsedCommentsOneLine(data, 3, Start);
    var cs := Strings(o.comments);
    forall k | 0 <= k < |cs| ensures NoBreaks(cs[k]) {
      var rs := o.comments[k];
      assert forall i :: 0 <= i < |rs| ==> rs[i] != LF && rs[i] != CR;
      assert LF !in rs && CR !in rs;
      assert LF !in cs[k] && CR !in cs[k];
      assert forall i :: 0 <= i < |cs[k]| ==> cs[k][i] in cs[k];
    }
  }

  /**
   * Decoding what the encoder writes for a decoded image gives that image
   * again, as long as its comments are ASCII: whether or not all pixels
   * were read, the encoder writes back exactly the pixels the decoder
   * keeps, and the cleared last cell reads back as the 0 it holds.
   */
  lemma DecodeEncodeDecode(data: seq<Byte>, sticky: bool)
    requires DecodeSpec(data, sticky).Decoded?
    requires var cs := DecodeSpec(data, sticky).config.comments; forall k :: 0 <= k < |cs| ==> IsAscii(cs[k])
    ensures var d := DecodeSpec(data, sticky);
      DecodeSpec(EncodeText(d.config, d.bitmap), sticky) == d
  {
    var d := DecodeSpec(data, sticky);
    DecodedPixels(data, sticky);
    DecodedCommentsOneLine(data, sticky);
    EncodeThenDecode(d.config, d.bitmap, sticky);
    OneLinesKeep(d.config.comments);
    assert Strings(d.config.comments) == d.config.comments;
  }

  /**
   * As written, a comment byte above 0x7F does not survive the cycle: the
   * decoder hands the comment out UTF-8 encoded, and decoding the encoder's
   * text encodes it once more, so the comment grows.
   */
  lemma NonAsciiCommentGrows(data: seq<Byte>, sticky: bool, k: nat)
    requires DecodeSpec(data, sticky).Decoded?
    requires var cs := DecodeSpec(data, sticky).config.comments; k < |cs| && !IsAscii(cs[k])
    ensures var d := DecodeSpec(data, sticky);
      var again := DecodeSpec(EncodeText(d.config, d.bitmap), sticky);
      again.Decoded? && |again.config.comments| == |d.config.comments| &&
      |again.config.comments[k]| > |d.config.comments[k]|
  {
    var d := DecodeSpec(data, sticky);
    var cs := d.config.comments;
    DecodedPixels(data, sticky);
    DecodedCommentsOneLine(data, sticky);
    EncodeThenDecode(d.config, d.bitmap, sticky);
    var again := DecodeSpec(EncodeText(d.config, d.bitmap), sticky);
    assert again.config.comments == Strings(OneLines(cs));
    OneLinesKeep(cs);
    assert again.config.comments[k] == RunesToString(cs[k]);
  }

  /**
   * The comment byte 0xE9 (an "e" with an acute accent in Latin-1) is read
   * back as the two bytes 0xC3 0xA9, its UTF-8 form.
   */
  lemma Latin1CommentReencoded(sticky: bool)
    ensures DecodeSpec(EncodeText(Config(2, 2, [[0xE9]]), [[0, 0], [0, 0]]), sticky).Decoded?
    ensures DecodeSpec(EncodeText(Config(2, 2, [[0xE9]]), [[0, 0], [0, 0]]), sticky).config.comments ==
      [[0xC3, 0xA9]]
  {
    var g: Grid := [[0, 0], [0, 0]];
    var cs: seq<String> := [[0xE9]];
    assert Concat(g) == [0, 0, 0, 0] by {
      assert Concat(g[1..]) == [0, 0] by {
        assert g[1..][1..] == [];
      }
    }
    EncodeThenDecode(Config(2, 2, cs), g, sticky);
    Latin1Byte(cs);
  }

  lemma Latin1Byte(cs: seq<String>)
    requires cs == [[0xE9]]
    ensures Strings(OneLines(cs)) == [[0xC3, 0xA9]]
  {
    assert NoBreaks(cs[0]);
    OneLinesKeep(cs);
    var e: seq<Rune> := [0xE9];
    assert e[..0] == [];
    assert RunesToString(e) == RunesToString([]) + RuneToUtf8(0xE9) == [0xC3, 0xA9];
    var r := Strings(cs);
    assert |r| == 1 && r[0] == RunesToString(e);
  }

  /**
   * The decoder with the pixel loop reading every pixel and the comments
   * kept as the bytes they were read as.
   */
  function DecodeFixed(data: seq<Byte>): (r: Decoding)
    ensures r.Decoded? ==>
      r.config.width >= 0 && r.config.height >= 0 &&
      |r.bitmap| == r.config.height && RowsOfWidth(r.bitmap, r.config.width) && IsBits(Concat(r.bitmap))
  {
    match ReadHeader(data, 0)
    case Diverges => Hangs
    case TagRejected(_, exhausted) =>
      DecodeFailed(if exhausted then ReaderError(EOF) else InvalidHeader)
    case Failed(f, _, _) => DecodeFailed(ReaderError(HeaderError(f)))
    case Parsed(w, h, cs, next) =>
      match Tokens(data[next..], w * h)
      case Got(ts) => Decoded(Config(w, h, cs), Rows(ts, w, h))
      case Exhausted => DecodeFailed(ReaderError(EOF))
      case BadPixel => DecodeFailed(FailedToParse)
  }

  /**
   * With the decoder corrected, every bitmap of `height` rows of `width`
   * pixels with one-line comments survives an encode-decode cycle
   * unchanged, whatever its comment bytes.
   */
  lemma FixedRoundTrip(config: Config, bitmap: Grid)
    requires config.width >= 0 && config.height >= 0
    requires |bitmap| == config.height && RowsOfWidth(bitmap, config.width) && IsBits(Concat(bitmap))
    requires forall k :: 0 <= k < |config.comments| ==> NoBreaks(config.comments[k])
    ensures DecodeFixed(EncodeText(config, bitmap)) == Decoded(config, bitmap)
  {
    var data := EncodeText(config, bitmap);
    var pixels := FlatMap(bitmap, RowLine);
    HeaderParses(config, pixels);
    OneLinesKeep(config.comments);
    assert data[|HeaderText(config)|..] == pixels;
    RowsOfConcat(bitmap, config.width);
    GridTokens(bitmap, [], config.width * config.height);
    WholeSeq(pixels, Concat(bitmap), config.width * config.height);
  }

  /** Solver hint: appending nothing to `s`, or taking all of `t`, changes nothing. */
  lemma WholeSeq(s: seq<Byte>, t: seq<Byte>, n: nat)
    requires n == |t|
    ensures s + [] == s && t[..n] == t
  {
  }

  /** With the decoder corrected, decode-encode-decode is decode, for every input. */
  lemma FixedIdempotent(data: seq<Byte>)
    requires DecodeFixed(data).Decoded?
    ensures DecodeFixed(EncodeText(DecodeFixed(data).config, DecodeFixed(data).bitmap)) == DecodeFixed(data)
  {
    var d := DecodeFixed(data);
    var o := ReadHeader(data, 0);
    assert o == Run(data, 3, Start);
    ParsedCommentsOneLine(data, 3, Start);
    FixedRoundTrip(d.config, d.bitmap);
  }
}
