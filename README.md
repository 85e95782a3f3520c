# FreeRDP interleaved RLE bitmap decoder

This project models `RLEDECOMPRESS` and its two helpers `WRITEFGBGIMAGE` and
`WRITEFIRSTLINEFGBGIMAGE` from `libfreerdp/codec/include/bitmap.h`. They decode
the RLE Compressed Bitmap Stream of section 2.2.9.1.1.3.1.2.4 of MS-RDPBCGR
(interleaved RLE). The header is compiled once per colour depth.
`PIXEL_SIZE` becomes the parameter `bpp` (1, 2 or 3 bytes), and a pixel is
the sequence of its bytes.

The project has two layers:

- **Specification (`RleSpec`).** Pure functions over the source stream
  (`seq<byte>`) and the destination contents. `Step` is one iteration of the
  main loop: the first-line check, then one order. `Run` is the loop.
  `Decompress` is the whole call after the argument check. Each order is a
  reading phase (header, pixels from the stream, capacity checks) followed by
  a writing phase.
- **Implementation (`Bitmap`).** Methods over the caller's destination
  `array`. They keep the source's loops: the `UNROLL` loops, the bitmask loop
  of an FG/BG image and the main `while` loop. Each method is proved to leave
  the destination array, the return value and the cursors exactly as the
  matching `RleSpec` function says. Every write goes through `WritePixel`,
  whose precondition keeps it below `pbDestEnd`. Every read of the stream is
  a sequence index, so it lies before `pbEnd`.

The properties of the decoder are stated as lemmas about the specification
functions:

- the refusal conditions, cursors and flags each order leaves (`OrderProperties`, `ImageProperties`, `DecoderProperties`);
- the value of every pixel each order writes, including pixels that copy or XOR the row above;
- the bytes each order, the loop and the whole call may change (`RleFrames`);
- a round trip: a stream of color-image orders covering the destination decodes to exactly its pixels, and every destination of whole pixels has such a stream (`ImageStream`);
- a worked decode;
- a memory-safety finding.

Where the code and its surrounding description differ, the model follows the
code. The decoder returns TRUE as soon as the stream is exhausted, whether or
not every destination pixel was written. `EmptyStream` and `TwoRowsDecode`
show this.

## Model

| member | source | states |
|---|---|---|
| Bitmap.WritePixel | libfreerdp/codec/include/bitmap.h:56 | DESTWRITEPIXEL replaces exactly the pixel's bytes at the cursor and nothing else |
| Bitmap.WriteRun | libfreerdp/codec/include/bitmap.h:48-58 | the UNROLL loop writes the run's n pixels one by one, each computed from the destination as the earlier pixels left it, and returns the cursor n pixels on |
| Bitmap.CopyPixels | libfreerdp/codec/include/bitmap.h:368-371 | the color-image loop copies n pixels from the stream to the destination byte for byte and advances both cursors by n pixels |
| Bitmap.WriteFgBgImage | libfreerdp/codec/include/bitmap.h:31-60 | NULL and no change when cBits > 8 or cBits pixels do not fit; otherwise the cursor cBits pixels on and the destination of the masked run (above XOR fgPel for a set bit, above for a clear one) |
| Bitmap.WriteFirstLineFgBgImage | libfreerdp/codec/include/bitmap.h:66-93 | the same on the first line: fgPel for a set bit, black for a clear one |
| Bitmap.InsertFgPel | libfreerdp/codec/include/bitmap.h:163-190 | the inserted pixel is fgPel on the first line and the pixel above XOR fgPel below it |
| Bitmap.WriteInsertedRun | libfreerdp/codec/include/bitmap.h:165-199 | a background run with a pending pixel is refused when the pixel does not fit; otherwise it writes the pixel and then runLength - 1 (UINT32) background pixels |
| Bitmap.DecodeBackgroundRun | libfreerdp/codec/include/bitmap.h:155-203 | return value, destination and next state are those of the background-run order |
| Bitmap.DecodeForegroundRun | libfreerdp/codec/include/bitmap.h:213-244 | return value, destination and next state are those of the foreground-run order |
| Bitmap.DecodeDitheredRun | libfreerdp/codec/include/bitmap.h:247-267 | return value, destination and next state are those of the dithered-run order |
| Bitmap.DecodeColorRun | libfreerdp/codec/include/bitmap.h:270-284 | return value, destination and next state are those of the color-run order |
| Bitmap.WriteFullChunks | libfreerdp/codec/include/bitmap.h:305-331 | the loop over 8-pixel chunks either fails as the image fails, or leaves at most 8 pixels whose image is the rest of the whole image |
| Bitmap.WriteLastChunk | libfreerdp/codec/include/bitmap.h:334-353 | the last 1 to 8 pixels need one more bitmask byte in the stream and one chunk; nothing happens for 0 pixels |
| Bitmap.WriteFgBgChunks | libfreerdp/codec/include/bitmap.h:305-353 | the whole bitmask loop succeeds, writes and advances both cursors exactly as the image function says |
| Bitmap.DecodeFgBgImage | libfreerdp/codec/include/bitmap.h:287-355 | return value, destination and next state are those of the FG/BG-image order |
| Bitmap.DecodeColorImage | libfreerdp/codec/include/bitmap.h:358-373 | return value, destination and next state are those of the color-image order |
| Bitmap.DecodeSpecialFgBg | libfreerdp/codec/include/bitmap.h:376-417 | return value, destination and next state are those of a special FG/BG order |
| Bitmap.DecodeSpecialPixel | libfreerdp/codec/include/bitmap.h:420-441 | return value, destination and next state are those of special white or black |
| Bitmap.DecodeOrder | libfreerdp/codec/include/bitmap.h:155-447 | the switch on the order code, with fInsertFgPel cleared for every order but a background run, agrees with Dispatch; an unknown code fails |
| Bitmap.RleDecompress | libfreerdp/codec/include/bitmap.h:98-451 | FALSE with nothing written for rowDelta 0, rowDelta < width or a null buffer; otherwise the return value and the destination are those of Decompress |
| RleSpec.Fill | libfreerdp/codec/include/bitmap.h:177-284 | every UNROLL loop of a run writes its pixels one after the other inside the destination, which keeps its size; the value of each pixel is stated by RunPixels.FillPixel |
| RleSpec.FgBgChunk | libfreerdp/codec/include/bitmap.h:31-93 | WRITEFGBGIMAGE and WRITEFIRSTLINEFGBGIMAGE: a returned cursor lies between the old one and pbDestEnd and the destination keeps its size; when NULL is returned and what each pixel becomes is stated by ImageProperties.ChunkPixels |
| RleSpec.FgBgChunks | libfreerdp/codec/include/bitmap.h:305-353 | the bitmask loop of an FG/BG image keeps the destination size and a finished image leaves both cursors inside their buffers; cursors and success by ImageProperties.ImageCursors and ImageSucceeds |
| RleSpec.InsertedBackgroundRun | libfreerdp/codec/include/bitmap.h:163-199 | a background run with a pending pixel keeps the destination size, and on success consumes stream bytes, moves the destination cursor forward within pbDestEnd and keeps the line flag; its pixels by OrderProperties.InsertedRunOrder |
| RleSpec.BackgroundRun | libfreerdp/codec/include/bitmap.h:155-203 | the same bounds for a background run; refusal and pixels by OrderProperties.BackgroundRunOrder and InsertedRunOrder |
| RleSpec.ForegroundRun | libfreerdp/codec/include/bitmap.h:213-244 | the same bounds for a foreground run; refusal and pixels by OrderProperties.ForegroundRunOrder |
| RleSpec.DitheredRun | libfreerdp/codec/include/bitmap.h:247-267 | the same bounds for a dithered run; refusal and pixels by OrderProperties.DitheredRunOrder |
| RleSpec.ColorRun | libfreerdp/codec/include/bitmap.h:270-284 | the same bounds for a color run; refusal and pixels by OrderProperties.ColorRunOrder |
| RleSpec.FgBgImage | libfreerdp/codec/include/bitmap.h:287-355 | the same bounds for an FG/BG image; success, cursors and pixels by ImageProperties.FgBgImageOrder |
| RleSpec.ColorImage | libfreerdp/codec/include/bitmap.h:358-373 | the same bounds for a color image; refusal and the copied bytes by OrderProperties.ColorImageCursors and ColorImageCopies |
| RleSpec.SpecialFgBg | libfreerdp/codec/include/bitmap.h:376-417 | the same bounds for a special FG/BG order; success and pixels by ImageProperties.SpecialFgBgPixels |
| RleSpec.SpecialPixel | libfreerdp/codec/include/bitmap.h:420-441 | the same bounds for special white and black; success and pixel by OrderProperties.SpecialPixelOrder |
| RleSpec.Dispatch | libfreerdp/codec/include/bitmap.h:155-447 | the switch on the order code keeps the same bounds for every order; an unknown code fails unchanged (OrderProperties.UnknownCodeFails) |
| RleSpec.Run | libfreerdp/codec/include/bitmap.h:133-450 | the main loop keeps the size of the destination; what it may change is stated by RleFrames.RunFrame |
| RleSpec.Decompress | libfreerdp/codec/include/bitmap.h:98-451 | RLEDECOMPRESS keeps the size of the destination; FALSE for rowDelta 0 or rowDelta < width is stated by Bitmap.RleDecompress, the untouched tail by RleFrames.DecompressFrame |
| RleSpec.DecU32 | libfreerdp/codec/include/bitmap.h:171-189 | runLength - 1 wraps like a UINT32: the result is below 2^32 and one more than it is runLength modulo 2^32 |
| RleSpec.LineCheck | libfreerdp/codec/include/bitmap.h:135-143 | the first line ends once the cursor offset, as a UINT32, reaches rowDelta; that also clears the pending pixel; nothing else changes |
| RleSpec.FgBgHeader | libfreerdp/codec/include/bitmap.h:291-304 | an accepted header starts the bitmask after the code byte, and its n / 8 whole bitmask bytes are in the stream |
| RleSpec.ColorImageHeader | libfreerdp/codec/include/bitmap.h:360-366 | an accepted color image fits both in the destination and in the stream |
| RleSpec.Step | libfreerdp/codec/include/bitmap.h:133-447 | an iteration that goes on consumes stream bytes, never moves the destination cursor back, and keeps both cursors in their buffers |
| RleFrames.FillFrame | libfreerdp/codec/include/bitmap.h:48-58 | a run changes no byte outside its own pixels |
| RleFrames.ChunkFrame | libfreerdp/codec/include/bitmap.h:31-93 | each FG/BG helper changes no byte outside the cBits pixels at the cursor |
| RleFrames.ChunkLoopFrame | libfreerdp/codec/include/bitmap.h:305-353 | the bitmask loop changes no byte before its start cursor or at or beyond pbDestEnd |
| RleFrames.InsertedFrame | libfreerdp/codec/include/bitmap.h:163-199 | the inserted pixel and the rest of the run change only bytes from the cursor to where the order stops |
| RleFrames.BackgroundRunFrame | libfreerdp/codec/include/bitmap.h:155-203 | a background run changes only bytes between the cursor it starts from and the one it leaves |
| RleFrames.FgBgImageFrame | libfreerdp/codec/include/bitmap.h:287-355 | an FG/BG image changes only bytes from the cursor to pbDestEnd, and on success only up to its new cursor |
| RleFrames.ColorImageFrame | libfreerdp/codec/include/bitmap.h:358-373 | a color image changes only the bytes it copies |
| RleFrames.SpecialFgBgFrame | libfreerdp/codec/include/bitmap.h:376-417 | a special FG/BG order changes only its 8 pixels |
| RleFrames.SpecialPixelFrame | libfreerdp/codec/include/bitmap.h:420-441 | special white or black changes only its one pixel |
| RleFrames.DispatchFrame | libfreerdp/codec/include/bitmap.h:155-447 | every order changes only bytes between the cursor and pbDestEnd, and on success only up to its new cursor |
| RleFrames.RunFrame | libfreerdp/codec/include/bitmap.h:133-447 | the main loop never changes a byte before its start cursor or at or beyond pbDestEnd |
| RleFrames.DecompressFrame | libfreerdp/codec/include/bitmap.h:98-451 | RLEDECOMPRESS changes nothing at or beyond pbDestEnd = rowDelta * height |
| RunPixels.FillSplit | libfreerdp/codec/include/bitmap.h:48-58 | a run of a + b pixels is the run of a pixels followed by the run of b pixels |
| RunPixels.FillPixel | libfreerdp/codec/include/bitmap.h:48-58 | pixel k of a run is its rule evaluated on the destination as the first k pixels of the run left it |
| RunPixels.FillFinal | libfreerdp/codec/include/bitmap.h:48-58 | in the finished destination every pixel of a run obeys its rule against the final pixel above it |
| RunPixels.FillLiteral | libfreerdp/codec/include/bitmap.h:247-284 | a run that never reads the row above writes exactly its literal pixels |
| RunPixels.FillKept | libfreerdp/codec/include/bitmap.h:133-447 | a finished run keeps obeying its rules after any later orders, which write only after it |
| ImageProperties.ChunkPixels | libfreerdp/codec/include/bitmap.h:31-93 | each helper succeeds exactly when cBits <= 8 and cBits pixels fit, and then writes pixel k by bit k of the bitmask (fgPel or black on the first line, above XOR fgPel or above below it) |
| ImageProperties.ImageCursors | libfreerdp/codec/include/bitmap.h:305-353 | a finished image of n pixels has read (n + 7) / 8 bitmask bytes and moved the destination cursor n pixels on |
| ImageProperties.ImageSucceeds | libfreerdp/codec/include/bitmap.h:305-353 | an image of n pixels finishes whenever the n pixels fit before pbDestEnd and its (n + 7) / 8 bitmask bytes are in the stream |
| ImageProperties.ImagePixel | libfreerdp/codec/include/bitmap.h:305-353 | in a finished image, pixel 8c + b obeys bit b of bitmask byte c in the final destination |
| ImageProperties.FgBgHeaderFields | libfreerdp/codec/include/bitmap.h:291-304 | the header is accepted exactly when its run length is read, the set-foreground pixel is in the stream and n / 8 bitmask bytes follow; then it gives the bitmask start, n and fgPel |
| ImageProperties.FgBgImageOrder | libfreerdp/codec/include/bitmap.h:287-355 | an FG/BG image order succeeds exactly when its header is accepted, its n pixels fit before pbDestEnd and its (n + 7) / 8 bitmask bytes are in the stream; then it reads those bytes, writes n pixels each by its bit, takes the header's fgPel, keeps the line flag and clears the pending pixel |
| ImageProperties.FgBgImageSucceeds | libfreerdp/codec/include/bitmap.h:287-355 | an FG/BG image order whose header is accepted, whose pixels fit and whose bitmask bytes are all in the stream succeeds |
| ImageProperties.FgBgImageCursors | libfreerdp/codec/include/bitmap.h:287-355 | how far a finished FG/BG image order moves both cursors, and the state it leaves |
| ImageProperties.FgBgImagePixel | libfreerdp/codec/include/bitmap.h:305-353 | pixel 8c + b of a finished FG/BG image order obeys bit b of bitmask byte c |
| ImageProperties.SpecialFgBgPixels | libfreerdp/codec/include/bitmap.h:376-417 | a special FG/BG order succeeds exactly when 8 pixels fit, consumes one byte, and writes pixel k by bit k of its fixed mask and the current fgPel |
| OrderProperties.BackgroundRunOrder | libfreerdp/codec/include/bitmap.h:155-203 | with no pending pixel, a background run is refused exactly when its length cannot be read or its pixels do not fit; otherwise it writes black on the first line and the pixel above below it, and sets the pending pixel |
| OrderProperties.InsertedRunOrder | libfreerdp/codec/include/bitmap.h:163-203 | with a pending pixel, a background run writes fgPel (first line) or above XOR fgPel, then runLength - 1 (UINT32) background pixels; it is refused exactly when the length cannot be read or the pixels do not fit |
| OrderProperties.ForegroundRunOrder | libfreerdp/codec/include/bitmap.h:213-244 | refused exactly when the length or the set-foreground pixel cannot be read or the run does not fit; otherwise it loads fgPel for the set-foreground forms and writes fgPel or above XOR fgPel |
| OrderProperties.DitheredRunOrder | libfreerdp/codec/include/bitmap.h:247-267 | refused exactly when the length or either pixel cannot be read or 2 * runLength pixels do not fit; otherwise it writes A, B, A, B, ... |
| OrderProperties.ColorRunOrder | libfreerdp/codec/include/bitmap.h:270-284 | refused exactly when the length or the pixel cannot be read or the run does not fit; otherwise it writes that pixel runLength times |
| OrderProperties.ColorImageCursors | libfreerdp/codec/include/bitmap.h:358-373 | a color image is refused exactly when its length cannot be read or its pixels do not fit in both buffers; otherwise both cursors move runLength pixels |
| OrderProperties.ColorImageCopies | libfreerdp/codec/include/bitmap.h:358-373 | the bytes a color image leaves at the destination are the stream bytes it consumed |
| OrderProperties.SpecialPixelOrder | libfreerdp/codec/include/bitmap.h:420-441 | special white and black succeed exactly when one pixel fits, consume one byte and write white or black |
| OrderProperties.UnknownCodeFails | libfreerdp/codec/include/bitmap.h:443-447 | an order code of no known order fails with the destination unchanged |
| DecoderProperties.StepFlags | libfreerdp/codec/include/bitmap.h:135-208 | after an iteration a pixel is pending exactly when the order was a background run, the first-line flag is the line check's, and fgPel changed only through a set-foreground order |
| DecoderProperties.EmptyStream | libfreerdp/codec/include/bitmap.h:116-450 | an empty stream returns TRUE for a valid configuration and leaves the destination as it was |
| DecoderProperties.TwoRowsDecode | libfreerdp/codec/include/bitmap.h:98-451 | white, black, then a background run of 2 below them decode a 2 x 2 one-byte bitmap to FF 00 FF 00 |
| ImageStream.EncodeHeader | libfreerdp/codec/include/bitmap.h:358-363 | the decoder reads an encoded block's header back: code 0xF4 (MEGA_MEGA_COLOR_IMAGE) and the block's 16-bit run length, with an advance of 3 |
| ImageStream.BlockStep | libfreerdp/codec/include/bitmap.h:358-373 | one iteration over a color-image order whose pixels fit copies exactly those pixel bytes to the cursor and moves both cursors past them |
| ImageStream.BlocksLoop | libfreerdp/codec/include/bitmap.h:133-450 | by induction over the blocks: a remaining stream of color-image orders that fits the destination makes the loop return TRUE with their pixels written one after the other from the cursor |
| ImageStream.DecodeColorImages | libfreerdp/codec/include/bitmap.h:98-451 | round trip: a stream of color-image orders whose pixels fill rowDelta * height bytes decodes, for any prior destination contents, to exactly those pixels, and the call returns TRUE |
| ImageStream.Split | libfreerdp/codec/include/bitmap.h:358-373 | any buffer of k whole pixels splits, in order, into blocks of 255 pixels or of one pixel, each with a matching 16-bit run length, whose pixels concatenate back to the buffer |
| ImageStream.EveryBitmapDecodes | libfreerdp/codec/include/bitmap.h:98-451 | every destination content of whole pixels that fills rowDelta * height bytes is returned, with TRUE, by RLEDECOMPRESS of some stream, whatever the destination held before |
| Findings.AsWrittenReadInBounds | libfreerdp/codec/include/bitmap.h:181-186 | as written, the read of the pixel above before the capacity check stays in the buffer exactly when the cursor leaves room for it; always when rowDelta >= PIXEL_SIZE |
| Findings.AsWrittenOverread | libfreerdp/codec/include/bitmap.h:116-186 | a valid call with 2-byte pixels and rowDelta = width = 1 reaches a pending inserted pixel at pbDestEnd, where the early read covers a byte past the buffer |
| Findings.CorrectedInsertRead | libfreerdp/codec/include/bitmap.h:181-189 | with the capacity check first, the pixel above is read only when it lies inside the destination, and the order fails unchanged otherwise |

## Left out

- Logging (`WLog_ERR`, `WLog_VRB` under `WITH_DEBUG_CODECS`) and the `RLEEXTRA` declarations: these have no effect on the result.
- `libfreerdp/codec/interleaved.c`, which instantiates the header, is not part of this model. `ExtractCodeId`, `ExtractRunLength`, `ENSURE_CAPACITY`, `buffer_within_range`, the pixel macros, the order codes and the masks of the special FG/BG orders are written after section 2.2.9.1.1.3.1.2.4 of MS-RDPBCGR. `ENSURE_CAPACITY` is taken to count pixels of `PIXEL_SIZE` bytes.
- Pixels are byte sequences, not `UINT32` values. Copying and XOR act byte by byte, so byte order does not matter.
- Pointers are byte offsets (`nat`). Address-space wrap-around of `pbDest - rowDelta` or `pbSrc + advance` is not modelled. The `(UINT32)` cast of the cursor offset in the line check is modelled.
- The pixel above a background run's inserted pixel is read after the capacity check rather than before it. A successful order writes the same value either way. The early read is kept only as the as-written half of the finding below.
- Consecutive background runs below the first line: pixel 0 of the first of two such runs copies the pixel above; the pending foreground pixel is inserted only at the start of the second run, because `fInsertFgPel` is set after a background run (bitmap.h:201-203) and consumed by the next one (bitmap.h:163-190). The model follows the code (`OrderProperties.BackgroundRunOrder`, `OrderProperties.InsertedRunOrder`).
- OrderProperties.PlannedRun: requires rowDelta >= PIXEL_SIZE for a pattern that reads the row above, because a pixel's "above" must end before the pixel itself. The decoder only checks rowDelta >= width.
- RunPixels.FillFinal: requires rowDelta >= PIXEL_SIZE when the run reads the row above, for the same reason. FillPixel states the general case.
- RunPixels.FillKept: requires rowDelta >= PIXEL_SIZE when the run reads the row above.
- ImageProperties.ChunkPixels: requires rowDelta >= PIXEL_SIZE below the first line.
- ImageProperties.ImagePixel: requires rowDelta >= PIXEL_SIZE below the first line.
- ImageProperties.FgBgImageOrder: requires rowDelta >= PIXEL_SIZE below the first line.
- ImageProperties.FgBgImagePixel: requires rowDelta >= PIXEL_SIZE below the first line.
- ImageProperties.SpecialFgBgPixels: requires rowDelta >= PIXEL_SIZE below the first line.
- OrderProperties.BackgroundRunOrder: requires rowDelta >= PIXEL_SIZE below the first line; the cursors and the refusal condition hold without it (RleFrames, Bitmap).
- OrderProperties.InsertedRunOrder: requires rowDelta >= PIXEL_SIZE below the first line.
- OrderProperties.ForegroundRunOrder: requires rowDelta >= PIXEL_SIZE below the first line.

## Findings

| source | as written | input that shows it | evidently intended | confidence | as-written member | corrected member |
|---|---|---|---|---|---|---|
| libfreerdp/codec/include/bitmap.h:181-186 | below the first line, a background run with a pending foreground pixel reads the pixel at pbDest - rowDelta before `ENSURE_CAPACITY(pbDest, pbDestEnd, 1)`. The argument check at line 116 compares rowDelta (bytes) with width (pixels), so rowDelta may be smaller than PIXEL_SIZE. | PIXEL_SIZE 2, rowDelta 1, width 1, height 4, stream FE 01 01: after special black and a background run of 1, the cursor is at pbDestEnd = 4 with a pixel pending, and the third order reads bytes 3 and 4 of a 4-byte buffer before it returns FALSE | check the capacity before reading the pixel above (or require rowDelta >= width * PIXEL_SIZE) | not executed | Findings.AsWrittenOverread | Findings.CorrectedInsertRead |
