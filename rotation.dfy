/**
 * Rotating a bitmap: `RotateByAngle` and `resizeAndShiftImage` of
 * pkg/pbm.go, `RotateByAngle` and `emptyImageAndShift` of pkg/pbm/pbm.go.
 * The position of pixel (i, j) after rotation,
 * `(int(i*cos - j*sin), int(i*sin + j*cos))`, is floating-point arithmetic;
 * the model takes it as an integer map on positions, `CoordMap`, which
 * both passes of the source evaluate identically.
 */
module Rotation {
  import opened Wrappers
  import opened Bytes
  import opened Image

  /** (row index, column index); after rotation (xNew, yNew). */
  type Coord = (int, int)

  /** Where the rotation sends a pixel position. */
  type CoordMap = Coord -> Coord

  /** xLow, xMax, yLow, yMax of resizeAndShiftImage. */
  datatype Box = Box(xLow: int, xMax: int, yLow: int, yMax: int)

  /** The four bounds start at Go's zero value. */
  const Origin := Box(0, 0, 0, 0)

  /** The four `if`s that widen the bounds to take in (x, y). */
  function Extend(b: Box, c: Coord): Box {
    var (x, y) := c;
    Box(if x < b.xLow then x else b.xLow, if x > b.xMax then x else b.xMax,
        if y < b.yLow then y else b.yLow, if y > b.yMax then y else b.yMax)
  }

  predicate Contains(b: Box, c: Coord) {
    b.xLow <= c.0 <= b.xMax && b.yLow <= c.1 <= b.yMax
  }

  /** `b2` contains all of `b1`. */
  predicate Covers(b2: Box, b1: Box) {
    b2.xLow <= b1.xLow && b1.xMax <= b2.xMax && b2.yLow <= b1.yLow && b1.yMax <= b2.yMax
  }

  /** The bounds after the pixels (i, 0) .. (i, j-1) of row i. */
  function BoxRow(b: Box, g: Grid, m: CoordMap, i: nat, j: nat): Box
    requires i < |g| && j <= |g[i]|
    decreases j
  {
    if j == 0 then b else Extend(BoxRow(b, g, m, i, j - 1), m((i, j - 1)))
  }

  /** The bounds after the pixels of rows 0 .. i-1. */
  function BoxRows(g: Grid, m: CoordMap, i: nat): Box
    requires i <= |g|
    decreases i
  {
    if i == 0 then Origin else BoxRow(BoxRows(g, m, i - 1), g, m, i - 1, |g[i - 1]|)
  }

  /** The bounds resizeAndShiftImage computes for the whole bitmap. */
  function BoxOf(g: Grid, m: CoordMap): Box {
    BoxRows(g, m, |g|)
  }

  /** Every pixel of `g` lands inside `b`. */
  ghost predicate Encloses(b: Box, g: Grid, m: CoordMap) {
    forall i, j :: 0 <= i < |g| && 0 <= j < |g[i]| ==> Contains(b, m((i, j)))
  }

  lemma {:induction false} BoxRowGrows(b: Box, g: Grid, m: CoordMap, i: nat, j: nat)
    requires i < |g| && j <= |g[i]|
    ensures Covers(BoxRow(b, g, m, i, j), b)
    ensures forall k :: 0 <= k < j ==> Contains(BoxRow(b, g, m, i, j), m((i, k)))
    decreases j
  {
    if j > 0 {
      BoxRowGrows(b, g, m, i, j - 1);
    }
  }

  lemma {:induction false} BoxRowsGrow(g: Grid, m: CoordMap, i: nat)
    requires i <= |g|
    ensures Covers(BoxRows(g, m, i), Origin)
    ensures forall r, k :: 0 <= r < i && 0 <= k < |g[r]| ==> Contains(BoxRows(g, m, i), m((r, k)))
    decreases i
  {
    if i > 0 {
      BoxRowsGrow(g, m, i - 1);
      BoxRowGrows(BoxRows(g, m, i - 1), g, m, i - 1, |g[i - 1]|);
    }
  }

  /**
   * The bounds take in the origin and every rotated pixel, so after the
   * shift by `|xLow|`, `|yLow|` every pixel lands on the new canvas.
   */
  lemma BoxOfEncloses(g: Grid, m: CoordMap)
    ensures var b := BoxOf(g, m); b.xLow <= 0 <= b.xMax && b.yLow <= 0 <= b.yMax
    ensures Encloses(BoxOf(g, m), g, m)
  {
    BoxRowsGrow(g, m, |g|);
  }

  /** `math.Abs` on the integer bounds. */
  function Abs(x: int): nat {
    if x < 0 then -x else x
  }

  /** The canvas rows and columns for bounds `b`. */
  function CanvasRows(b: Box): int { b.xMax - b.xLow + 1 }
  function CanvasCols(b: Box): int { b.yMax - b.yLow + 1 }

  predicate IsCanvas(img: Grid, b: Box) {
    |img| == CanvasRows(b) && forall x :: 0 <= x < |img| ==> |img[x]| == CanvasCols(b)
  }

  /** The zero canvas `make([][]uint8, width+1)` of rows `make([]uint8, height+1)`. */
  function Canvas(b: Box): (img: Grid)
    requires b.xLow <= b.xMax && b.yLow <= b.yMax
    ensures IsCanvas(img, b) && forall x, y :: 0 <= x < |img| && 0 <= y < |img[x]| ==> img[x][y] == 0
  {
    seq(CanvasRows(b), _ => Zeros(CanvasCols(b)))
  }

  /**
   * resizeAndShiftImage / emptyImageAndShift: the bounds of all rotated
   * pixels, the shifts `|xLow|`, `|yLow|` and the zero canvas.
   */
  method ResizeAndShiftImage(bitmap: Grid, m: CoordMap) returns (img: Grid, shiftX: int, shiftY: int)
    ensures BoxOf(bitmap, m).xLow <= 0 <= BoxOf(bitmap, m).xMax && BoxOf(bitmap, m).yLow <= 0 <= BoxOf(bitmap, m).yMax
    ensures img == Canvas(BoxOf(bitmap, m)) && shiftX == -BoxOf(bitmap, m).xLow && shiftY == -BoxOf(bitmap, m).yLow
  {
    var b := Bounds(bitmap, m);
    BoxOfEncloses(bitmap, m);
    shiftX := Abs(b.xLow);
    var width := b.xMax + shiftX;
    shiftY := Abs(b.yLow);
    var height := b.yMax + shiftY;
    img := ZeroImage(width + 1, height + 1);
  }

  /**
   * The bounds loop: every pixel's rotated position widens the bounds, in
   * row-major order (the goroutines' updates, serialised by the mutex).
   */
  method Bounds(bitmap: Grid, m: CoordMap) returns (b: Box)
    ensures b == BoxOf(bitmap, m)
  {
    var xMax, yMax, xLow, yLow := 0, 0, 0, 0;
    var i := 0;
    while i < |bitmap|
      invariant 0 <= i <= |bitmap|
      invariant Box(xLow, xMax, yLow, yMax) == BoxRows(bitmap, m, i)
    {
      var j := 0;
      while j < |bitmap[i]|
        invariant 0 <= j <= |bitmap[i]|
        invariant Box(xLow, xMax, yLow, yMax) == BoxRow(BoxRows(bitmap, m, i), bitmap, m, i, j)
      {
        var (xNew, yNew) := m((i, j));
        if xNew > xMax {
          xMax := xNew;
        }
        if yNew > yMax {
          yMax := yNew;
        }
        if xNew < xLow {
          xLow := xNew;
        }
        if yNew < yLow {
          yLow := yNew;
        }
        j := j + 1;
      }
      i := i + 1;
    }
    b := Box(xLow, xMax, yLow, yMax);
  }

  /** `make([][]uint8, rows)`, then each row `make([]uint8, cols)`: all zeros. */
  method ZeroImage(rows: nat, cols: nat) returns (img: Grid)
    ensures |img| == rows && forall x :: 0 <= x < rows ==> img[x] == Zeros(cols)
  {
    img := seq(rows, _ => []);
    var x := 0;
    while x < |img|
      invariant 0 <= x <= |img| == rows
      invariant forall r :: 0 <= r < x ==> img[r] == Zeros(cols)
      invariant forall r :: x <= r < |img| ==> img[r] == []
    {
      img := img[x := Zeros(cols)];
      x := x + 1;
    }
  }

  /** Where pixel (i, j) is written: its rotated position shifted by `-xLow`, `-yLow`. */
  function Target(m: CoordMap, b: Box, i: int, j: int): Coord {
    (m((i, j)).0 - b.xLow, m((i, j)).1 - b.yLow)
  }

  /** `newImage[x][y] = v`. */
  function Put(img: Grid, x: int, y: int, v: Byte): (r: Grid)
    requires 0 <= x < |img| && 0 <= y < |img[x]|
    ensures |r| == |img| && forall k :: 0 <= k < |r| ==> |r[k]| == |img[k]|
  {
    var line: seq<Byte> := img[x][y := v];
    img[x := line]
  }

  /** The canvas after the writes of pixels (i, 0) .. (i, j-1). */
  function PlaceRow(img: Grid, g: Grid, m: CoordMap, b: Box, i: nat, j: nat): (r: Grid)
    requires IsCanvas(img, b) && Encloses(b, g, m) && i < |g| && j <= |g[i]|
    ensures IsCanvas(r, b)
    decreases j
  {
    if j == 0 then img
    else
      var prev := PlaceRow(img, g, m, b, i, j - 1);
      var (x, y) := Target(m, b, i, j - 1);
      assert Contains(b, m((i, j - 1)));
      Put(prev, x, y, g[i][j - 1])
  }

  /** The canvas after the writes of all pixels of rows 0 .. i-1, in row-major order. */
  function PlaceRows(img: Grid, g: Grid, m: CoordMap, b: Box, i: nat): (r: Grid)
    requires IsCanvas(img, b) && Encloses(b, g, m) && i <= |g|
    ensures IsCanvas(r, b)
    decreases i
  {
    if i == 0 then img else PlaceRow(PlaceRows(img, g, m, b, i - 1), g, m, b, i - 1, |g[i - 1]|)
  }

  /** The rotated bitmap: every pixel written at its target on the zero canvas. */
  function Rotated(g: Grid, m: CoordMap): (r: Grid)
    ensures var b := BoxOf(g, m); |r| == CanvasRows(b) >= 1 && IsCanvas(r, b) && CanvasCols(b) >= 1
  {
    BoxOfEncloses(g, m);
    var b := BoxOf(g, m);
    PlaceRows(Canvas(b), g, m, b, |g|)
  }

  /** The goroutines' writes `newImage[xNew][yNew] = bitmap[i][j]`, in row-major order. */
  method PlacePixels(bitmap: Grid, m: CoordMap, b: Box, img0: Grid, shiftX: int, shiftY: int)
    returns (img: Grid)
    requires IsCanvas(img0, b) && Encloses(b, bitmap, m)
    requires shiftX == -b.xLow && shiftY == -b.yLow
    ensures img == PlaceRows(img0, bitmap, m, b, |bitmap|)
  {
    img := img0;
    var i := 0;
    while i < |bitmap|
      invariant 0 <= i <= |bitmap|
      invariant img == PlaceRows(img0, bitmap, m, b, i)
    {
      img := PlaceRowPixels(bitmap, m, b, img, i, shiftX, shiftY);
      i := i + 1;
    }
  }

  /** The writes of the pixels of row `i`, left to right. */
  method PlaceRowPixels(bitmap: Grid, m: CoordMap, b: Box, img0: Grid, i: nat, shiftX: int, shiftY: int)
    returns (img: Grid)
    requires IsCanvas(img0, b) && Encloses(b, bitmap, m) && i < |bitmap|
    requires shiftX == -b.xLow && shiftY == -b.yLow
    ensures img == PlaceRow(img0, bitmap, m, b, i, |bitmap[i]|)
  {
    img := img0;
    var j := 0;
    while j < |bitmap[i]|
      invariant 0 <= j <= |bitmap[i]|
      invariant img == PlaceRow(img0, bitmap, m, b, i, j)
    {
      var xNew := m((i, j)).0 + shiftX;
      var yNew := m((i, j)).1 + shiftY;
      WriteNext(img0, bitmap, m, b, i, j, img, xNew, yNew);
      var line: seq<Byte> := img[xNew][yNew := bitmap[i][j]];
      img := img[xNew := line];
      j := j + 1;
    }
  }

  /** The write of pixel (i, j) lands on the canvas and is the next step of `PlaceRow`. */
  lemma WriteNext(img0: Grid, g: Grid, m: CoordMap, b: Box, i: nat, j: nat, img: Grid, x: int, y: int)
    requires IsCanvas(img0, b) && Encloses(b, g, m) && i < |g| && j < |g[i]|
    requires img == PlaceRow(img0, g, m, b, i, j)
    requires x == m((i, j)).0 - b.xLow && y == m((i, j)).1 - b.yLow
    ensures 0 <= x < |img| && 0 <= y < |img[x]|
    ensures PlaceRow(img0, g, m, b, i, j + 1) == Put(img, x, y, g[i][j])
  {
    assert Contains(b, m((i, j)));
  }

  /**
   * RotateByAngle of pkg/pbm/pbm.go, and of pkg/pbm.go past its checks:
   * the bitmap becomes the rotated one, the height its number of rows and
   * the width the length of its first row.
   */
  method RotateByAngleUnchecked(p: Pbm, m: CoordMap)
    requires p.config.Some? && p.bitMap.Some?
    modifies p
    ensures var g := Rotated(old(p.bitMap.value), m);
      p.bitMap == Some(g) && p.config == Some(old(p.config.value).(height := |g|, width := |g[0]|))
  {
    var bitmap := p.bitMap.value;
    var newImage, shiftX, shiftY := ResizeAndShiftImage(bitmap, m);
    BoxOfEncloses(bitmap, m);
    newImage := PlacePixels(bitmap, m, BoxOf(bitmap, m), newImage, shiftX, shiftY);
    p.config := Some(p.config.value.(height := |newImage|, width := |newImage[0]|));
    p.bitMap := Some(newImage);
  }

  /** RotateByAngle of pkg/pbm.go: the nil checks, then the rotation. */
  method RotateByAngle(p: Pbm?, m: CoordMap) returns (e: Option<PbmError>)
    modifies p
    ensures p == null ==> e == Some(NoImageLoaded)
    ensures p != null && old(p.bitMap).None? ==> e == Some(NoBitmapLoaded) && unchanged(p)
    ensures p != null && old(p.bitMap).Some? && old(p.config).None? ==>
      e == Some(NoHeaderLoaded) && unchanged(p)
    ensures p != null && old(p.bitMap).Some? && old(p.config).Some? ==>
      var g := Rotated(old(p.bitMap).value, m);
      e == None && p.bitMap == Some(g) && p.config == Some(old(p.config).value.(height := |g|, width := |g[0]|))
  {
    if p == null {
      return Some(NoImageLoaded);
    }
    if p.bitMap.None? {
      return Some(NoBitmapLoaded);
    }
    if p.config.None? {
      return Some(NoHeaderLoaded);
    }
    RotateByAngleUnchecked(p, m);
    e := None;
  }

  /** An empty bitmap rotates to a single zero pixel: the bounds never leave the origin. */
  lemma EmptyBitmapCanvas(m: CoordMap)
    ensures BoxOf([], m) == Origin
    ensures Rotated([], m) == [[0]]
  {
    assert Canvas(Origin) == [Zeros(1)];
    assert Zeros(1) == [0];
  }

  /** Pixel (i, j) exists in `g`. */
  predicate IsPixel(g: Grid, i: int, j: int) {
    0 <= i < |g| && 0 <= j < |g[i]|
  }

  /** Pixel (i2, j2) comes after pixel (i, j) in row-major order. */
  predicate After(i2: int, j2: int, i: int, j: int) {
    i2 > i || (i2 == i && j2 > j)
  }

  lemma {:induction false} PlaceRowUntouched(img: Grid, g: Grid, m: CoordMap, b: Box, i: nat, j: nat, x: int, y: int)
    requires IsCanvas(img, b) && Encloses(b, g, m) && i < |g| && j <= |g[i]|
    requires 0 <= x < |img| && 0 <= y < CanvasCols(b)
    requires forall k :: 0 <= k < j ==> Target(m, b, i, k) != (x, y)
    ensures PlaceRow(img, g, m, b, i, j)[x][y] == img[x][y]
    decreases j
  {
    if j > 0 {
      PlaceRowUntouched(img, g, m, b, i, j - 1, x, y);
    }
  }

  lemma {:induction false} PlaceRowsUntouched(img: Grid, g: Grid, m: CoordMap, b: Box, i: nat, x: int, y: int)
    requires IsCanvas(img, b) && Encloses(b, g, m) && i <= |g|
    requires 0 <= x < |img| && 0 <= y < CanvasCols(b)
    requires forall r, k :: 0 <= r < i && 0 <= k < |g[r]| ==> Target(m, b, r, k) != (x, y)
    ensures PlaceRows(img, g, m, b, i)[x][y] == img[x][y]
    decreases i
  {
    if i > 0 {
      PlaceRowsUntouched(img, g, m, b, i - 1, x, y);
      PlaceRowUntouched(PlaceRows(img, g, m, b, i - 1), g, m, b, i - 1, |g[i - 1]|, x, y);
    }
  }

  lemma {:induction false} PlaceRowLast(img: Grid, g: Grid, m: CoordMap, b: Box, i: nat, j: nat, k: nat)
    requires IsCanvas(img, b) && Encloses(b, g, m) && i < |g| && k < j <= |g[i]|
    requires forall k2 :: k < k2 < j ==> Target(m, b, i, k2) != Target(m, b, i, k)
    ensures Contains(b, m((i, k)))
    ensures PlaceRow(img, g, m, b, i, j)[Target(m, b, i, k).0][Target(m, b, i, k).1] == g[i][k]
    decreases j
  {
    var prev := PlaceRow(img, g, m, b, i, j - 1);
    var t, tk := Target(m, b, i, j - 1), Target(m, b, i, k);
    WriteNext(img, g, m, b, i, j - 1, prev, t.0, t.1);
    if k < j - 1 {
      PlaceRowLast(img, g, m, b, i, j - 1, k);
    }
    PutCell(prev, t.0, t.1, g[i][j - 1], tk.0, tk.1);
  }

  /** `newImage[x][y] = v` changes cell (x, y) to `v` and no other cell. */
  lemma PutCell(img: Grid, x: int, y: int, v: Byte, x2: int, y2: int)
    requires 0 <= x < |img| && 0 <= y < |img[x]| && 0 <= x2 < |img| && 0 <= y2 < |img[x2]|
    ensures Put(img, x, y, v)[x2][y2] == if x2 == x && y2 == y then v else img[x2][y2]
  {
  }

  lemma {:induction false} PlaceRowsLast(img: Grid, g: Grid, m: CoordMap, b: Box, i: nat, r: nat, k: nat)
    requires IsCanvas(img, b) && Encloses(b, g, m) && i <= |g| && r < i && k < |g[r]|
    requires forall r2, k2 :: r2 < i && IsPixel(g, r2, k2) && After(r2, k2, r, k) ==>
      Target(m, b, r2, k2) != Target(m, b, r, k)
    ensures Contains(b, m((r, k)))
    ensures PlaceRows(img, g, m, b, i)[Target(m, b, r, k).0][Target(m, b, r, k).1] == g[r][k]
    decreases i
  {
    var prev := PlaceRows(img, g, m, b, i - 1);
    if r == i - 1 {
      PlaceRowLast(prev, g, m, b, r, |g[r]|, k);
    } else {
      PlaceRowsLast(img, g, m, b, i - 1, r, k);
      var t := Target(m, b, r, k);
      PlaceRowUntouched(prev, g, m, b, i - 1, |g[i - 1]|, t.0, t.1);
    }
  }

  /** A canvas cell that no pixel is sent to stays 0. */
  lemma RotatedUntouched(g: Grid, m: CoordMap, x: int, y: int)
    requires 0 <= x < |Rotated(g, m)| && 0 <= y < |Rotated(g, m)[x]|
    requires forall i, j :: IsPixel(g, i, j) ==> Target(m, BoxOf(g, m), i, j) != (x, y)
    ensures Rotated(g, m)[x][y] == 0
  {
    BoxOfEncloses(g, m);
    var b := BoxOf(g, m);
    PlaceRowsUntouched(Canvas(b), g, m, b, |g|, x, y);
  }

  /**
   * Each cell holds the pixel written there last in row-major order: the
   * goroutines of the source write concurrently, so when two pixels share
   * a target the winner is a race the model resolves this way.
   */
  lemma RotatedLastWriter(g: Grid, m: CoordMap, i: nat, j: nat, x: int, y: int)
    requires IsPixel(g, i, j) && (x, y) == Target(m, BoxOf(g, m), i, j)
    requires forall i2, j2 :: IsPixel(g, i2, j2) && After(i2, j2, i, j) ==>
      Target(m, BoxOf(g, m), i2, j2) != (x, y)
    ensures 0 <= x < |Rotated(g, m)| && 0 <= y < |Rotated(g, m)[x]| && Rotated(g, m)[x][y] == g[i][j]
  {
    BoxOfEncloses(g, m);
    var b := BoxOf(g, m);
    PlaceRowsLast(Canvas(b), g, m, b, |g|, i, j);
  }

  /** No two pixels of `g` are sent to the same position. */
  ghost predicate InjectiveOn(g: Grid, m: CoordMap) {
    forall i, j, i2, j2 :: IsPixel(g, i, j) && IsPixel(g, i2, j2) && (i, j) != (i2, j2) ==>
      m((i, j)) != m((i2, j2))
  }

  /**
   * When no two pixels share a position, every pixel's value is found at
   * its target, whatever order the writes happen in.
   */
  lemma RotatedInjective(g: Grid, m: CoordMap, i: nat, j: nat)
    requires InjectiveOn(g, m) && IsPixel(g, i, j)
    ensures var t := Target(m, BoxOf(g, m), i, j);
      0 <= t.0 < |Rotated(g, m)| && 0 <= t.1 < |Rotated(g, m)[t.0]| && Rotated(g, m)[t.0][t.1] == g[i][j]
  {
    var t := Target(m, BoxOf(g, m), i, j);
    RotatedLastWriter(g, m, i, j, t.0, t.1);
  }

  /** A rotation by exactly a quarter turn: (i, j) goes to (-j, i). */
  function QuarterTurn(c: Coord): Coord {
    (-c.1, c.0)
  }

  /** Every row of `g` has `w` pixels. */
  predicate Rectangular(g: Grid, w: int) {
    forall i :: 0 <= i < |g| ==> |g[i]| == w
  }

  lemma {:induction false} QuarterTurnBoxRow(b: Box, g: Grid, i: nat, j: nat)
    requires i < |g| && j <= |g[i]| && b.xMax == 0 && b.yLow == 0 && b.xLow <= 0 && b.yMax >= 0
    ensures BoxRow(b, g, QuarterTurn, i, j) ==
      if j == 0 then b
      else Box(if 1 - j < b.xLow then 1 - j else b.xLow, 0, 0, if i > b.yMax then i else b.yMax)
    decreases j
  {
    if j > 0 {
      QuarterTurnBoxRow(b, g, i, j - 1);
    }
  }

  lemma {:induction false} QuarterTurnBoxRows(g: Grid, w: nat, i: nat)
    requires Rectangular(g, w) && w >= 1 && 1 <= i <= |g|
    ensures BoxRows(g, QuarterTurn, i) == Box(1 - w, 0, 0, i - 1)
    decreases i
  {
    if i == 1 {
      QuarterTurnBoxRow(Origin, g, 0, w);
    } else {
      QuarterTurnBoxRows(g, w, i - 1);
      QuarterTurnBoxRow(Box(1 - w, 0, 0, i - 2), g, i - 1, w);
    }
  }

  lemma QuarterTurnTarget(b: Box, i: int, j: int)
    ensures Target(QuarterTurn, b, i, j) == (-j - b.xLow, i - b.yLow)
  {
  }

  lemma QuarterTurnLast(g: Grid, b: Box, i: int, j: int)
    ensures forall i2, j2 :: IsPixel(g, i2, j2) && After(i2, j2, i, j) ==>
      Target(QuarterTurn, b, i2, j2) != Target(QuarterTurn, b, i, j)
  {
    forall i2, j2 | IsPixel(g, i2, j2) && After(i2, j2, i, j)
      ensures Target(QuarterTurn, b, i2, j2) != Target(QuarterTurn, b, i, j)
    {
      QuarterTurnTarget(b, i2, j2);
      QuarterTurnTarget(b, i, j);
    }
  }

  /**
   * A quarter turn of a bitmap of `h` rows of `w` pixels has `w` rows of
   * `h` pixels, and its cell (a, c) is the pixel (c, w-1-a): the first
   * column read from the bottom becomes the last row.
   */
  lemma QuarterTurnRotates(g: Grid, w: nat, a: nat, c: nat)
    requires Rectangular(g, w) && w >= 1 && |g| >= 1
    requires a < w && c < |g|
    ensures |Rotated(g, QuarterTurn)| == w
    ensures forall x :: 0 <= x < w ==> |Rotated(g, QuarterTurn)[x]| == |g|
    ensures Rotated(g, QuarterTurn)[a][c] == g[c][w - 1 - a]
  {
    QuarterTurnBoxRows(g, w, |g|);
    QuarterTurnCellAt(g, BoxOf(g, QuarterTurn), w, a, c);
  }

  /** The cell (a, c) of a quarter turn, once its bounding box is known. */
  lemma QuarterTurnCellAt(g: Grid, b: Box, w: nat, a: nat, c: nat)
    requires b == BoxOf(g, QuarterTurn) && b == Box(1 - w, 0, 0, |g| - 1)
    requires a < w && c < |g| && |g[c]| == w
    ensures 0 <= a < |Rotated(g, QuarterTurn)| && 0 <= c < |Rotated(g, QuarterTurn)[a]|
    ensures Rotated(g, QuarterTurn)[a][c] == g[c][w - 1 - a]
  {
    QuarterTurnLast(g, b, c, w - 1 - a);
    QuarterTurnTarget(b, c, w - 1 - a);
    RotatedLastWriter(g, QuarterTurn, c, w - 1 - a, a, c);
  }

  /**
   * The positions the source computes at angle pi/2 for the pixels of a
   * 2x2 bitmap. math.Cos(pi/2) is 6.123233995736757e-17 and math.Sin(pi/2)
   * is 1, so for (1, 1) the row position `1*cos - 1*sin` rounds to the
   * double just above -1, which `int` truncates to 0: the pixel lands where
   * (1, 0) lands instead of at (-1, 1). The other three agree with
   * `QuarterTurn`.
   */
  function RoundedQuarterTurn2x2(c: Coord): Coord {
    if c == (1, 1) then (0, 1) else QuarterTurn(c)
  }

  lemma RoundedBoxRow0(g: Grid)
    requires |g| == 2 && Rectangular(g, 2)
    ensures BoxRows(g, RoundedQuarterTurn2x2, 1) == Box(-1, 0, 0, 0)
  {
    var m := RoundedQuarterTurn2x2;
    assert m((0, 0)) == (0, 0) && m((0, 1)) == (-1, 0);
    assert BoxRow(Origin, g, m, 0, 1) == Origin;
    assert BoxRow(Origin, g, m, 0, 2) == Box(-1, 0, 0, 0);
  }

  lemma RoundedBoxRow1(g: Grid)
    requires |g| == 2 && Rectangular(g, 2)
    ensures BoxRow(Box(-1, 0, 0, 0), g, RoundedQuarterTurn2x2, 1, 2) == Box(-1, 0, 0, 1)
  {
    var m := RoundedQuarterTurn2x2;
    assert m((1, 0)) == (0, 1) && m((1, 1)) == (0, 1);
    assert BoxRow(Box(-1, 0, 0, 0), g, m, 1, 1) == Box(-1, 0, 0, 1);
  }

  /** The rounded positions span the same 2x2 bounds as the exact quarter turn. */
  lemma RoundedBox(g: Grid)
    requires |g| == 2 && Rectangular(g, 2)
    ensures BoxOf(g, RoundedQuarterTurn2x2) == Box(-1, 0, 0, 1)
  {
    RoundedBoxRow0(g);
    RoundedBoxRow1(g);
  }

  /** The four shifted targets of the rounded positions: (1, 0) and (1, 1) share one. */
  lemma RoundedTargets(b: Box)
    requires b == Box(-1, 0, 0, 1)
    ensures Target(RoundedQuarterTurn2x2, b, 0, 0) == (1, 0)
    ensures Target(RoundedQuarterTurn2x2, b, 0, 1) == (0, 0)
    ensures Target(RoundedQuarterTurn2x2, b, 1, 0) == (1, 1)
    ensures Target(RoundedQuarterTurn2x2, b, 1, 1) == (1, 1)
  {
    assert RoundedQuarterTurn2x2((0, 0)) == (0, 0);
    assert RoundedQuarterTurn2x2((0, 1)) == (-1, 0);
    assert RoundedQuarterTurn2x2((1, 0)) == (0, 1);
    assert RoundedQuarterTurn2x2((1, 1)) == (0, 1);
  }

  /**
   * With the positions the source computes, pixels (1, 0) and (1, 1) of a
   * 2x2 bitmap share a target and cell (0, 1) of the rotated bitmap is never
   * written, so it stays 0, where `QuarterTurnRotates` puts pixel (1, 1).
   * So rotating [[0, 0], [0, 1]] by pi/2 loses its one set pixel.
   */
  lemma RoundedQuarterTurnMisplaces(g: Grid)
    requires |g| == 2 && Rectangular(g, 2)
    ensures Target(RoundedQuarterTurn2x2, BoxOf(g, RoundedQuarterTurn2x2), 1, 0) ==
            Target(RoundedQuarterTurn2x2, BoxOf(g, RoundedQuarterTurn2x2), 1, 1)
    ensures |Rotated(g, RoundedQuarterTurn2x2)| == 2 && |Rotated(g, RoundedQuarterTurn2x2)[0]| == 2
    ensures Rotated(g, RoundedQuarterTurn2x2)[0][1] == 0
  {
    RoundedCollide(g);
    RoundedCellUnwritten(g);
  }

  /** Pixels (1, 0) and (1, 1) share a target under the rounded positions. */
  lemma RoundedCollide(g: Grid)
    requires |g| == 2 && Rectangular(g, 2)
    ensures Target(RoundedQuarterTurn2x2, BoxOf(g, RoundedQuarterTurn2x2), 1, 0) ==
            Target(RoundedQuarterTurn2x2, BoxOf(g, RoundedQuarterTurn2x2), 1, 1)
  {
    RoundedBox(g);
    RoundedTargets(BoxOf(g, RoundedQuarterTurn2x2));
  }

  /** No pixel of a 2x2 bitmap lands on cell (0, 1) under the rounded positions. */
  lemma RoundedCellUnwritten(g: Grid)
    requires |g| == 2 && Rectangular(g, 2)
    ensures |Rotated(g, RoundedQuarterTurn2x2)| == 2 && |Rotated(g, RoundedQuarterTurn2x2)[0]| == 2
    ensures Rotated(g, RoundedQuarterTurn2x2)[0][1] == 0
  {
    var m := RoundedQuarterTurn2x2;
    RoundedBox(g);
    var b := BoxOf(g, m);
    RoundedTargets(b);
    forall i, j | IsPixel(g, i, j)
      ensures Target(m, b, i, j) != (0, 1)
    {
      assert i == 0 || i == 1;
      assert j == 0 || j == 1;
    }
    RotatedUntouched(g, m, 0, 1);
  }
}
