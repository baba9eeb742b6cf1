# pbm_rotate in Dafny

A model of the core of `pbm_rotate`, a Go program that reads a plain
("P1", ASCII) PBM bitmap, rotates it by an angle and writes it back out.
The model covers the four pieces of logic the program has, each in the
live copy (`pkg/pbm.go`, `pkg/pbm_reader.go`) and in the older copy
(`pkg/pbm/pbm.go`, `pkg/reader/pbm_reader.go`):

- **Header reader** (`reader.dfy`, `header.dfy`). The class `PbmReader` has
  the input bytes, a cursor and the sticky error `err`.
  - `GetNextByteAsRune` returns 0 and consumes nothing once `err` is set.
  - `GetConfig`/`GetHeader` check the `P1` tag.
  - `ParseHeader`/`ParseHeaderReturningError` run the ReadSpace, ReadNumber
    and ReadComment state machine with nested loops, as the source does.
  - Each method is proved against `Header.Run`, a function that takes the
    machine one byte at a time. The lemmas in `header.dfy` state what the
    machine accepts: numbers are the left fold of their digits, comments
    follow their own rules, a comment inside a number continues the
    number, and the comment loop stops only on a line break.
- **Pixel decoder** (`pixels.dfy`, `codec.dfy`). `ReadBitmap` is the
  `col*row < (W-1)*(H-1)` loop, and it fills the grid.
  - It is proved to equal `Fill(Tokens(...))`: the first `PixelCount(W, H)`
    `0`/`1` tokens are laid out in row-major order.
  - `Decode` and `DecodePBM` are proved against `DecodeSpec`, including
    every error path.
- **Encoder** (`codec.dfy`). `Encode` and `Save` build the output with the
  source's loops. They are proved to produce `EncodeText`, and `Encode`
  also returns the source's nil-pointer and flush errors.
- **Rotation** (`rotation.dfy`). `ResizeAndShiftImage` computes the
  bounding box, the shifts and the zero canvas. `PlacePixels` copies each
  pixel to its shifted target, and `RotateByAngle` updates the `Pbm`
  object.
  - The rotation of a position is an arbitrary integer map, `CoordMap`.
  - Lemmas cover any such map: the bounds enclose every pixel, untouched
    cells stay 0, and the last writer wins.
  - For the exact quarter turn, the lemmas prove the rotated image's cells
    and its dimensions.
- **Round trips** (`roundtrip.dfy`). Decoding the encoder's text returns
  the header's width and height, but not quite the comments and pixels
  that were written:
  - each comment comes back as the `string([]rune)` of its one-line form,
    so a byte above 0x7F comes back as two UTF-8 bytes;
  - the pixels come back as `Fill` of only the first `PixelCount(W, H)`
    written pixels. The bottom-right pixel becomes 0, and an image with a
    side of 1 comes back as a first row of zeros with empty rows below it.
  A decoded image with ASCII comments survives decode, encode, decode.
  The corrected decoder of `RoundTrip.DecodeFixed` gives every image back
  unchanged.

## Model

| member | source | states |
|---|---|---|
| Bytes.Decimal | pkg/pbm.go:141 | `%d` of a natural number is a non-empty run of decimal digits with no leading zero unless the number is 0 |
| Bytes.FoldDigitsAppend | pkg/pbm_reader.go:106-108 | accumulating `num*10 + digit` over two runs of digits is accumulating over the second from the value of the first |
| Bytes.FoldDecimal | pkg/pbm_reader.go:106-108 | accumulating the digits `%d` prints gives back the number printed |
| Bytes.IntText | pkg/pbm.go:141 | `%d` of a negative int is '-' followed by the digits of its magnitude, of a non-negative one its digits |
| Bytes.IsSpace | pkg/pbm_reader.go:89 | `unicode.IsSpace` on runes below 256: '\t' to '\r', ' ', U+0085 and U+00A0 |
| Bytes.RuneToUtf8 | pkg/pbm_reader.go:133 | the UTF-8 encoding of one rune below 256: an ASCII rune is itself; any other is a lead byte 0xC2 or 0xC3 and a continuation byte 0x80 to 0xBF, which together give the rune back |
| Bytes.RunesToString | pkg/pbm_reader.go:133 | `string([]rune)` keeps an ASCII rune list as it is, never shortens it, lengthens it whenever a rune is above 0x7F, and adds no line break |
| Header.Run | pkg/pbm_reader.go:70-144 | the parseHeader state machine, one rune per step: ReadSpace skips whitespace, ReadNumber folds digits and completes a number on whitespace, ReadComment collects runes up to a line break and resumes `prevState`; a 0 rune is "unexpected eof" and any other rune "unexpected char" |
| Header.RunEnds | pkg/pbm_reader.go:70-144 | the state machine either parses (ending just after a whitespace byte), fails at a NUL with "unexpected eof", fails at the end of input with "unexpected eof", fails at a byte that is not whitespace, digit, '#' or NUL with "unexpected char" carrying that byte, or loops forever in a comment |
| Header.ReadHeader | pkg/pbm_reader.go:40-68 | a header is accepted only after the bytes 'P', '1' and a whitespace byte; a rejected tag consumes at most three bytes |
| Header.CommentBody | pkg/pbm_reader.go:127-129 | inside a comment every byte that is not '\n' or '\r' is appended to the comment |
| Header.CommentRule | pkg/pbm_reader.go:126-136 | a comment is the bytes after '#' up to the first line break, loses at most one leading whitespace byte, is appended after the earlier comments, and the machine resumes the state it left |
| Header.NumberContinuesAfterComment | pkg/pbm_reader.go:105-136 | digits after a comment that interrupts a number keep accumulating into that same number |
| Header.NumberDigits | pkg/pbm_reader.go:106-108 | in ReadNumber, a run of digits folds into the number as `num*10 + digit` |
| Header.NumberRun | pkg/pbm_reader.go:91-108 | from ReadSpace, a run of digits moves the machine to ReadNumber holding the left fold of the digits |
| Header.FirstNumber | pkg/pbm_reader.go:88-114 | with no number yet, digits ended by whitespace complete the first number and the machine goes back to ReadSpace right after the whitespace byte |
| Header.SecondNumber | pkg/pbm_reader.go:105-114 | with one number read, digits ended by whitespace complete the second, and the header ends right after the whitespace byte with the first as width and the second as height |
| Header.TwoNumbers | pkg/pbm_reader.go:88-114 | two runs of digits each ended by whitespace give width then height, and the header stops right after the second whitespace byte |
| Header.TerminatedCommentsStop | pkg/pbm_reader.go:126-129 | if every '#' is followed later by a line break, the machine does not loop forever |
| Header.ParsedCommentsOneLine | pkg/pbm_reader.go:126-133 | no comment a successful header returns contains '\n' or '\r' |
| Reader.PbmReader.constructor | pkg/pbm_reader.go:15-19 | a new reader is at the start of its input with no error |
| Reader.PbmReader.GetNextByteAsRune | pkg/pbm_reader.go:27-37 | with an error set it returns 0, consumes nothing and keeps the error; at the end of input it sets io.EOF and returns 0; otherwise it returns the next byte and advances by one |
| Reader.PbmReader.SkipSpace | pkg/pbm_reader.go:88-103 | the whitespace loop stops at the first other rune: a digit starts a number and '#' a comment, with the machine's outcome unchanged; a 0 is "unexpected eof" (at the end of input with io.EOF set); any other rune is "unexpected char" |
| Reader.PbmReader.ReadDigits | pkg/pbm_reader.go:105-124 | the digit loop folds digits into the number; then whitespace completes it (ending the header when it is the second), '#' starts a comment that keeps the number, a 0 is "unexpected eof" and any other rune "unexpected char", each as the machine says |
| Reader.PbmReader.ReadCommentText | pkg/pbm_reader.go:126-136 | the comment loop appends runes up to a line break, and the machine's outcome is that of ending the comment there |
| Reader.PbmReader.Scan | pkg/pbm_reader.go:84-141 | the loop over the three states returns the width, height and comments `Run` parses, or the fault it reports, with the cursor where `Run` stops |
| Reader.PbmReader.ParseHeader | pkg/pbm_reader.go:70-144 | on success the two numbers and the comments; on a fault no numbers, and the fault stored in the sticky error |
| Reader.PbmReader.ParseHeaderReturningError | pkg/reader/pbm_reader.go:73-142 | the same numbers and comments, but a fault is returned and the sticky error is only io.EOF when the input ran out, nil otherwise |
| Reader.PbmReader.ReadTag | pkg/pbm_reader.go:43-53 | the tag is accepted exactly when `ReadHeader` does not reject it, consuming three bytes; a mismatch leaves the cursor one byte past the mismatch |
| Reader.PbmReader.GetConfig | pkg/pbm_reader.go:40-68 | succeeds exactly when the header parses, returning its width, height and comments; otherwise `Config{}` with the header fault or io.EOF in the sticky error |
| Reader.PbmReader.GetHeader | pkg/reader/pbm_reader.go:43-71 | succeeds exactly when the header parses; a header fault is not stored, so the sticky error is io.EOF or nil |
| Pixels.Tokens | pkg/pbm.go:50-68 | reading `n` pixels gives `n` values each 0 or 1, or reports the end of input, or a bad byte |
| Pixels.Consumed | pkg/pbm.go:50-68 | the bytes the pixel loop consumes: up to and including the last pixel it needs, up to and including the byte that stops it, or the whole input when the input runs out first |
| Pixels.PixelCount | pkg/pbm.go:50 | how many pixels the loop reads: `W*H - 1` when both sides are at least 2, none otherwise (`Guard` ties it to the loop condition) |
| Pixels.Rows | pkg/pbm.go:59-63 | cutting `w*h` values into rows gives `h` rows of `w` whose concatenation is the values |
| Pixels.RowsOfConcat | pkg/pbm.go:59-63 | cutting the concatenation of equal-width rows gives the rows back |
| Pixels.ConcatCell | pkg/pbm.go:59-65 | in rows of equal width `w`, cell (r, c) is byte `r*w + c` of the rows joined |
| Pixels.RowsCell | pkg/pbm.go:59-65 | cell (r, c) of the rows is value number `r*w + c` |
| Pixels.NilRows | pkg/pbm.go:47 | `make([][]uint8, n)`: `n` nil rows |
| Pixels.Fill | pkg/pbm.go:47-69 | the decoded grid has `Height` rows and a first row of `Width`; for sides of at least 2 all rows have `Width` cells and hold the tokens then a final 0; otherwise a zero first row and nil rows |
| Pixels.FillCell | pkg/pbm.go:50-65 | for sides of at least 2, cell (r, c) holds token `r*W + c`, except the bottom-right cell, the only one past the tokens, which is 0 |
| Pixels.Guard | pkg/pbm.go:50 | at position (row, col) the loop condition holds exactly while fewer than `W*H - 1` pixels have been read, and the loop leaves at the bottom-right cell |
| Pixels.NoPixelsRead | pkg/pbm.go:47-50 | with a side below 2 the loop condition is false at the start, so no pixel is read |
| Codec.DecodeSpec | pkg/pbm.go:26-75 | a decoded image has `Height` rows, at least one, a first row of `Width` pixels and only 0/1 pixels |
| Codec.PartialStore | pkg/pbm.go:59 | storing a pixel at (row, col) keeps the shape of the partly filled grid: done rows, current row, then zeros and nil rows |
| Codec.PartialNextRow | pkg/pbm.go:60-64 | at the end of a row that is not the last the next row is allocated as zeros and filling moves to it |
| Codec.PartialFill | pkg/pbm.go:50-69 | when the loop ends the grid is `Fill` of the tokens read |
| Codec.SpaceStep | pkg/pbm.go:56-57 | a whitespace byte in the pixel section is skipped: the tokens still to read start after it |
| Codec.PixelStep | pkg/pbm.go:58-59 | a '0' or '1' byte is the next pixel value, and the tokens still to read start after it |
| Codec.EndStep | pkg/pbm.go:51-55 | running out of input before all pixels are read makes the read `Exhausted` |
| Codec.BadStep | pkg/pbm.go:66-67 | a byte that is neither whitespace nor '0'/'1' makes the read `BadPixel` |
| Codec.DoneStep | pkg/pbm.go:50 | once `PixelCount` pixels are read, they are the outcome of the read |
| Codec.StorePixel | pkg/pbm.go:58-65 | storing a pixel and advancing (to the next row, allocated, at the end of a row that is not the last) keeps the grid's shape and appends the pixel to the values stored in row-major order |
| Codec.LoopExit | pkg/pbm.go:50-69 | when the loop condition fails, exactly `PixelCount` pixels have been stored and the grid is `Fill` of them |
| Codec.ReadBitmap | pkg/pbm.go:47-69 | the loop succeeds exactly when `PixelCount(W, H)` pixels can be read, and then builds `Fill` of them with the sticky error nil; at the end of input the sticky error is io.EOF; on a bad byte it is nil; in every case the cursor has moved by the bytes `Consumed` counts |
| Codec.DecodeBitmap | pkg/pbm.go:39-74 | after a good header: the image, or io.EOF, or "failed to parse PBM data" |
| Codec.Decode | pkg/pbm.go:26-75 | returns exactly the image or the error `DecodeSpec` gives, with header faults reported from the sticky error |
| Codec.DecodePBM | pkg/pbm/pbm.go:21-71 | returns exactly the image or the error `DecodeSpec` gives, with header faults reported as io.EOF or "invalid header" |
| Codec.Replace | pkg/pbm.go:136-137 | `strings.Replace` of one byte by another: same length, every `from` becomes `to`, nothing else changes |
| Codec.OneLine | pkg/pbm.go:135-138 | the comment as written has the same length and no line break, and a comment without line breaks is written unchanged |
| Codec.CommentLine | pkg/pbm.go:136-139 | the line `# %s\n` of a comment whose line breaks became spaces |
| Codec.RowLine | pkg/pbm.go:144-147 | the line of a row: `%d ` for each pixel, then `\n` |
| Codec.HeaderText | pkg/pbm.go:134-142 | `P1\n`, one comment line per comment in order, then `%d %d\n` of width and height |
| Codec.EncodeText | pkg/pbm.go:134-148 | everything written before the flush: the header text, then one row line per row |
| Codec.WriteComments | pkg/pbm.go:135-139 | the comment loop appends one `# ` line per comment, in order |
| Codec.WriteRow | pkg/pbm.go:144-147 | the row loop appends `%d ` for each pixel, then `\n` |
| Codec.WriteImage | pkg/pbm.go:134-148 | the writes produce exactly the encoded text of the image |
| Codec.Encode | pkg/pbm.go:119-154 | "no image loaded", "no bitmap loaded", "no header loaded" in that order of checks, then the flush error if the flush fails, otherwise the encoded text |
| Codec.Save | pkg/pbm/pbm.go:140-159 | the same encoded text, with no checks and no error |
| Rotation.Target | pkg/pbm.go:102-103 | pixel (i, j) is written at its rotated position shifted by `-xLow` and `-yLow` |
| Rotation.Extend | pkg/pbm.go:170-181 | the four `if`s: each bound widens just enough to take in the rotated position |
| Rotation.BoxOf | pkg/pbm.go:158-188 | the bounds after every pixel, row by row, starting from Go's zero values |
| Rotation.BoxRowGrows | pkg/pbm.go:161-185 | the bounds only widen, and take in every rotated pixel of the row seen so far |
| Rotation.BoxRowsGrow | pkg/pbm.go:160-187 | the bounds contain the origin and every rotated pixel of the rows seen so far |
| Rotation.BoxOfEncloses | pkg/pbm.go:160-188 | `xLow <= 0 <= xMax`, `yLow <= 0 <= yMax`, and every rotated pixel lies within the bounds |
| Rotation.Canvas | pkg/pbm.go:193-196 | the canvas is `xMax - xLow + 1` rows of `yMax - yLow + 1` zeros |
| Rotation.ResizeAndShiftImage | pkg/pbm.go:157-198 | the bounds contain the origin, the shifts are `-xLow` and `-yLow`, and the canvas is all zeros of the bounds' size |
| Rotation.Bounds | pkg/pbm.go:160-188 | the bounds loop over all pixels, row by row, ends with the bounds of every rotated pixel and the origin |
| Rotation.ZeroImage | pkg/pbm.go:193-196 | the new image has the requested number of rows, each all zeros of the requested length |
| Rotation.Put | pkg/pbm.go:104 | writing one cell keeps every row length |
| Rotation.PlaceRow | pkg/pbm.go:99-107 | writing a row's pixels keeps the canvas shape |
| Rotation.PlaceRows | pkg/pbm.go:98-108 | writing all rows' pixels keeps the canvas shape |
| Rotation.Rotated | pkg/pbm.go:96-113 | the rotated bitmap has at least one row, and its rows and columns are the sizes of the bounds |
| Rotation.PlacePixels | pkg/pbm.go:97-109 | the placement loops write every pixel at its shifted target in row-major order, always in bounds |
| Rotation.PlaceRowPixels | pkg/pbm.go:98-107 | the inner loop writes the pixels of one row at their shifted targets, left to right |
| Rotation.WriteNext | pkg/pbm.go:99-104 | the shifted position `xNew`, `yNew` of the next pixel is a cell of the canvas, and writing it there is the next step of the row |
| Rotation.PutCell | pkg/pbm.go:104 | `newImage[xNew][yNew] = v` sets that cell to `v` and leaves every other cell as it was |
| Rotation.RotateByAngleUnchecked | pkg/pbm/pbm.go:73-96 | the bitmap becomes the rotated one, the height its row count, the width its first row's length, and the comments stay |
| Rotation.RotateByAngle | pkg/pbm.go:79-116 | the nil checks in order leave the image unchanged; otherwise the same update as the unchecked rotation |
| Rotation.EmptyBitmapCanvas | pkg/pbm.go:189-196 | an empty bitmap rotates to a single zero pixel |
| Rotation.PlaceRowUntouched | pkg/pbm.go:99-107 | writing a row changes no cell that none of its pixels targets |
| Rotation.PlaceRowsUntouched | pkg/pbm.go:98-108 | writing rows changes no cell that none of their pixels targets |
| Rotation.PlaceRowLast | pkg/pbm.go:99-107 | a pixel that no later pixel of its row overwrites is found at its target |
| Rotation.PlaceRowsLast | pkg/pbm.go:98-108 | a pixel that no later pixel in row-major order overwrites is found at its target |
| Rotation.RotatedUntouched | pkg/pbm.go:193-196 | a canvas cell that no pixel is sent to stays 0 |
| Rotation.RotatedLastWriter | pkg/pbm.go:97-109 | each cell holds the pixel written there last in row-major order |
| Rotation.RotatedInjective | pkg/pbm.go:97-109 | when no two pixels share a target, every pixel is found at its target |
| Rotation.QuarterTurnBoxRow | pkg/pbm.go:161-185 | under the exact quarter turn a row widens the bounds to `1 - j` rows up and its own index across |
| Rotation.QuarterTurnBoxRows | pkg/pbm.go:160-187 | under the exact quarter turn the bounds of an `h` by `w` bitmap are rows `1-w .. 0`, columns `0 .. h-1` |
| Rotation.QuarterTurnTarget | pkg/pbm.go:102-103 | under the exact quarter turn pixel (i, j) goes to (`-j - xLow`, `i - yLow`) |
| Rotation.QuarterTurnLast | pkg/pbm.go:102-104 | under the exact quarter turn no two pixels share a target |
| Rotation.QuarterTurnRotates | pkg/pbm_test.go:123-134 | a quarter turn of `h` rows of `w` pixels has `w` rows of `h` pixels, and its cell (a, c) is pixel (c, w-1-a) |
| Rotation.QuarterTurnCellAt | pkg/pbm.go:96-109 | with the bounds of an `h` by `w` bitmap under the exact quarter turn, cell (a, c) of the result exists and holds pixel (c, w-1-a) |
| Rotation.RoundedQuarterTurn2x2 | pkg/pbm.go:102-103 | the integer positions the float computation gives at pi/2 for a 2x2 bitmap: (1, 1) goes to (0, 1), the other pixels where the exact quarter turn sends them |
| Rotation.RoundedBox | pkg/pbm.go:168-169 | the positions computed at pi/2 give a 2x2 bitmap the bounds rows -1..0, columns 0..1 |
| Rotation.RoundedTargets | pkg/pbm.go:102-103 | at pi/2 the pixels (1, 0) and (1, 1) of a 2x2 bitmap are both written to cell (1, 1) |
| Rotation.RoundedQuarterTurnMisplaces | pkg/pbm.go:93-104 | at pi/2 pixels (1, 0) and (1, 1) of a 2x2 bitmap share a target and cell (0, 1) of the rotated bitmap stays 0, where the exact quarter turn puts pixel (1, 1) |
| Rotation.RoundedCollide | pkg/pbm.go:102-103 | at pi/2 pixels (1, 0) and (1, 1) of a 2x2 bitmap are written to the same cell |
| Rotation.RoundedCellUnwritten | pkg/pbm.go:96-109 | at pi/2 no pixel of a 2x2 bitmap is written to cell (0, 1), which stays 0 |
| RoundTrip.OneLines | pkg/pbm.go:135-138 | each comment is written with its line breaks replaced, in order |
| RoundTrip.OneCommentLine | pkg/pbm_reader.go:126-136 | a written comment line `# c\n` is read back as `c` with line breaks replaced, and the machine returns to ReadSpace |
| RoundTrip.SpacedComment | pkg/pbm_reader.go:130-132 | the space the encoder writes after '#' is the one whitespace byte the reader drops |
| RoundTrip.CommentBlockIsFlatMap | pkg/pbm.go:135-139 | the comment lines one after the other are what the encoder's loop over the comments writes |
| RoundTrip.FirstCommentLine | pkg/pbm.go:135-139 | a written block of comment lines is its first line, then the block of the others |
| RoundTrip.CommentLines | pkg/pbm.go:135-139 | all written comment lines are read back as the comments, in order |
| RoundTrip.TagThenComments | pkg/pbm.go:134-139 | the written tag line and comment lines take the machine to the numbers with the comments read |
| RoundTrip.HeaderTextRuns | pkg/pbm.go:134-141 | a tag line, comment lines, two digit runs and the line break, laid out in the input, parse to those numbers and one-line comments, ending after the line break |
| RoundTrip.HeaderParses | pkg/pbm.go:134-141 | the written header parses to the configuration's width, height and one-line comments, and ends where the header text ends |
| RoundTrip.FirstPixelText | pkg/pbm.go:144-146 | the pixel text of a row is `%d ` of its first pixel, then the text of the others |
| RoundTrip.PixelTokens | pkg/pbm.go:144-146 | the written `%d ` of 0/1 pixels reads back as those pixels |
| RoundTrip.RowTokens | pkg/pbm.go:143-147 | a written row reads back as its pixels |
| RoundTrip.GridTokens | pkg/pbm.go:143-148 | the written rows read back as the concatenated pixels, or run out after them |
| RoundTrip.EncodeThenDecode | pkg/pbm_test.go:84-112 | decoding the encoded text gives the configuration with one-line comments, and `Fill` of the first `PixelCount` written pixels |
| RoundTrip.LastCleared | pkg/pbm.go:50 | the bitmap with only its bottom-right pixel set to 0 |
| RoundTrip.LastPixelLost | pkg/pbm.go:50-65 | a bitmap of at least 2x2 comes back from encode then decode with its last pixel cleared |
| RoundTrip.FillCleared | pkg/pbm.go:50-65 | for sides of at least 2, the grid the loop fills from all pixels but the last is the image with its bottom-right pixel set to 0 |
| RoundTrip.AllOnes2x2LosesLastPixel | pkg/pbm.go:50 | the 2x2 image of four 1s comes back as `[[1, 1], [1, 0]]` |
| RoundTrip.SingleColumnReadsNothing | pkg/pbm.go:47-50 | a 1x3 image of 1s comes back as `[[0], [], []]` |
| RoundTrip.DecodedPixels | pkg/pbm.go:47-69 | the pixels of a decoded bitmap, written out, are at least as many as the loop reads, and reading them rebuilds the bitmap |
| RoundTrip.DecodedCommentsOneLine | pkg/pbm_reader.go:126-133 | decoded comments have no line breaks |
| RoundTrip.DecodeEncodeDecode | pkg/pbm_test.go:84-112 | decoding the encoding of a decoded image with ASCII comments gives that same image |
| RoundTrip.NonAsciiCommentGrows | pkg/pbm_reader.go:133 | a decoded comment byte above 0x7F makes that comment longer on every decode-encode cycle |
| RoundTrip.Latin1CommentReencoded | pkg/pbm_reader.go:128-133 | the comment byte 0xE9 is decoded as the two bytes 0xC3 0xA9 |
| RoundTrip.DecodeFixed | pkg/pbm.go:50-65 | the corrected decoder's images have `Height` rows of `Width` pixels, all 0 or 1 |
| RoundTrip.FixedRoundTrip | pkg/pbm_test.go:84-112 | with the corrected decoder every image with one-line comments comes back unchanged from encode then decode |
| RoundTrip.FixedIdempotent | pkg/pbm_test.go:84-112 | with the corrected decoder, decode then encode then decode equals decode on every input |
| Image.Zeros | pkg/pbm.go:48 | `make([]uint8, n)` is `n` zeros |
| Image.Pbm.constructor | pkg/pbm.go:71-74 | the new image points at the given configuration and bitmap |

## Left out

- Trigonometry: `math.Cos`, `math.Sin` and `int(float64(...))` are not modelled. The position of a rotated pixel is a given integer map (`CoordMap`). `RoundedQuarterTurn2x2` writes out, by hand, the values the float computation gives for a 2x2 bitmap at pi/2.
- Concurrency: the goroutines, `sync.WaitGroup` and `sync.Mutex` of both rotation passes run in the model as sequential row-major loops. When two pixels share a target, the model lets the last writer win, whereas the source has a race.
- `bufio` and `fmt` I/O:
  - the input is a byte sequence with a cursor, and reading past its end sets io.EOF;
  - the output is the produced byte string;
  - a failing `Flush` is a boolean parameter of `Encode`;
  - partial writes and reader errors other than io.EOF are not modelled.
- Reader.PbmReader.Scan, ParseHeader, GetConfig, GetHeader, Codec.Decode, Codec.DecodePBM: on an input whose comment runs to the end of the input, the source loops forever. These members require that this does not happen (`Run` reports it as `Diverges`), so the model does not cover that case.
- Codec.Decode, Codec.DecodePBM: a header height of 0 makes the source panic on `bitmap[0]`. These members require a non-zero height (`DecodeSpec` reports the panic as `Panics`), so the model does not cover that case.
- Codec.Save, Rotation.RotateByAngleUnchecked: the older copy panics on a nil `PBM`, `Header` or `BitMap` (pkg/pbm/pbm.go:74, 93, 144 and 152). These members require the configuration and the bitmap to be present, so the model does not cover those panics.
- Header.Run: Go `int` overflow while accumulating a large width or height is not modelled, because numbers are unbounded naturals.
- The `Err()` accessor is not a separate member; the model reads the `err` field directly.
- The `default: break Loop` branch and the error after the loop (pkg/pbm_reader.go:138-143) cannot be reached, because the state is always one of the three states. They are not modelled.
- Grids are values (`seq<seq<Byte>>`), so the aliasing of Go slices is not modelled. This includes the `*p.BitMap = newImage` pointer write and the `Config` pointer shared between the `Pbm` object and its caller.
- Comments hold bytes; the model does no Unicode decoding beyond `string([]rune)` of runes below 256.
- main.go (flag parsing, file handling, the degrees-to-radians conversion) is not part of this model.

## Findings

| source | as written | input that shows it | evidently intended | confidence | as-written member | corrected member |
|---|---|---|---|---|---|---|
| pkg/pbm.go:50 | the loop reads `W*H - 1` pixels when both sides are at least 2, and none when a side is 1 | "P1\n2 2\n1 1\n1 1\n" decodes to `[[1, 1], [1, 0]]`; a 1x3 image of 1s decodes to `[[0], [], []]` | every one of the `W*H` pixels is read | not executed; high | RoundTrip.LastPixelLost | RoundTrip.FixedRoundTrip |
| pkg/pbm_reader.go:133 | comment bytes are read as runes and joined with `string([]rune)`, which UTF-8-encodes bytes above 0x7F | "P1\n#\xE9\n2 2\n0 0\n0 0\n": the comment comes back as 0xC3 0xA9 and grows again on each decode-encode cycle | a comment keeps the bytes it was read as | not executed; medium | RoundTrip.NonAsciiCommentGrows | RoundTrip.FixedIdempotent |
| pkg/pbm.go:102-103 | at angle pi/2, `math.Cos` is 6.1e-17, not 0, and `int` truncation sends pixel (1, 1) of a 2x2 bitmap to where (1, 0) goes | `RotateByAngle(math.Pi/2)` on `[[0, 0], [0, 1]]` leaves cell (0, 1) at 0 | a quarter turn puts pixel (1, 1) at cell (0, 1) | not executed; medium | Rotation.RoundedQuarterTurnMisplaces | Rotation.QuarterTurnRotates |
