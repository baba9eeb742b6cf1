/**
 * The decoded image: the header configuration, the pixel grid, and the
 * `PBM` object that pairs them through two pointers.
 */
module Image {
  import opened Wrappers
  import opened Bytes

  /**
   * Go's `[][]uint8`, row by row. A row the decoder never allocated (a nil
   * slice) is the empty sequence, which Go treats the same way.
   */
  type Grid = seq<seq<Byte>>

  /** `Config` in pkg/pbm.go and `PBMHeader` in pkg/reader: the same three fields. */
  datatype Config = Config(width: int, height: int, comments: seq<String>)

  /** `Config{}`, what a failing header read returns. */
  const EmptyConfig := Config(0, 0, [])

  /** The errors `Encode` and `RotateByAngle` return for a missing part. */
  datatype PbmError = NoImageLoaded | NoBitmapLoaded | NoHeaderLoaded | WriteFailed

  /** A row of `n` zero pixels: `make([]uint8, n)`. */
  function Zeros(n: nat): (row: seq<Byte>)
    ensures |row| == n && forall k :: 0 <= k < n ==> row[k] == 0
  {
    seq(n, _ => 0)
  }

  /**
   * `PBM`: the configuration pointer (`Config` in pkg/pbm.go, `Header` in
   * pkg/pbm/pbm.go) and the bitmap pointer; `None` is a nil pointer.
   */
  class Pbm {
    var config: Option<Config>
    var bitMap: Option<Grid>

    constructor (config: Config, bitMap: Grid)
      ensures this.config == Some(config) && this.bitMap == Some(bitMap)
    {
      this.config := Some(config);
      this.bitMap := Some(bitMap);
    }
  }
}
