# chrono-photo in Dafny

A model of the image-processing core of chrono-photo. That program composes
chronophotographs: it layers a series of frames taken by a fixed camera, so
that moving objects appear once for each frame over a single background.

The core has three pieces.

- **Simple processing.** `SimpleProcessor` keeps, per pixel, the lightest or
  darkest value seen so far. It blends each new extreme into an output
  buffer, weighted by a fade factor.
- **Outlier processing, in two passes.**
  1. Time-slicing (`slicer.rs`, `time_slice.rs`) transposes the frames into
     bands of rows. Each band file holds, for every frame, that band's bytes
     as one compressed, length-prefixed record (`streams.rs`,
     `img_stream.rs`).
  2. `ChronoProcessor` (`chrono.rs`) reads each band back. It gathers the
     samples of every pixel over time and chooses the output pixel. The
     choice is the lightest or darkest sample, or the outlier z-score
     choice: a background value with the outlying samples blended in.
- **Camera-shake analysis** (`shake.rs`). It stores square windows around
  anchor points of the first frame. For every later frame it searches the
  shift that minimises the summed squared differences.

Supporting pieces are modelled as well: colour blending (`color.rs`) and the
option parsers (`options.rs`, plus the duplicates in `chrono.rs`).

## Modelling conventions

- **Modules.** One Dafny module per Rust file:

  | module | Rust file | module | Rust file |
  |---|---|---|---|
  | `Color` | `color.rs` | `ChronoStats` | statistics of `chrono.rs` |
  | `Options` | `options.rs` | `ChronoSelect` | pixel choice of `chrono.rs` |
  | `Streams` | `streams.rs` | `ChronoImage` | band and image layout of `chrono.rs` |
  | `ImgStream` | `img_stream.rs` | `Chrono` | the `ChronoProcessor` class of `chrono.rs` |
  | `Slicer` | `slicer.rs` | `Shake` | parsers and windows of `shake.rs` |
  | `TimeSlice` | `time_slice.rs` | `ShakeAnalysis` | `calc_diffs` and `analyze` of `shake.rs` |
  | `Simple` | `simple.rs` | | |

  `Common`, `Framing` and `Banding` hold shared definitions:
  - `Common`: outcomes, splitting, decimal numbers, image layouts.
  - `Framing`: the u32 length-prefixed record format.
  - `Banding`: bands of a sample buffer and offset arithmetic.
- **Classes and arrays.** Objects whose fields the source updates in place
  are classes. These are `ChronoProcessor`, the stream types and a
  `FileSystem` holding `map<string, seq<byte>>`. Buffers the source fills in
  place are arrays. Pure computations are functions and lemmas. Every method
  is proved against a specification function.
- **Outcomes.** Every operation returns `Outcome<T>`:
  - `Ok`;
  - `Err(message)`, which models a Rust `Err`;
  - `Panic(message)`, which models an `unwrap`, `expect`, slice-index or
    `unreachable!` panic.
- **Numbers.** `f32` arithmetic is modelled over `real`.
  - `.round() as u8` is floor(x + 0.5), saturating at 0 and 255.
  - Byte values are `byte` (a `0..256` newtype).
  - `u32`/`usize` bounds appear where the source checks or relies on them.
- **Parameters.** The following become parameters:
  - the square root;
  - the fade curve;
  - the random draws of the `random` background mode;
  - the compression codecs, each a `Flate` with `encode`/`decode`.
  The read-back lemmas assume the codec is lossless (`Lossless`).
- **Decoded images.** An image is a `Frame(layout, samples)`. `Opened` is
  either a decoded frame or the error message `image::open` returned.

## Model

| member | source | states |
|---|---|---|
| Color.RoundToByte | src/color.rs:13 | `.round() as u8`: within 0.5 of x inside [0, 255]; saturates at 0 below and at 255 above |
| Color.RoundBetween | src/color.rs:13 | rounding a value that lies between two bytes gives a byte between them |
| Color.BlendChannel | src/color.rs:13 | one channel `(a + (b - a) * blend).round()` lies between a and b for blend in [0, 1] |
| Color.BlendBetween | src/color.rs:13 | `a + (b - a) * blend` lies between a and b for blend in [0, 1] |
| Color.BlendU8 | src/color.rs:4-16 | length kept; blend <= 0 leaves a; blend >= 1 copies b over the prefix; entries past b unchanged; every blended entry lies between a[i] and b[i] |
| Color.BlendU8Prefix | src/color.rs:10-15 | only the first \|a\| entries of b take part in a blend |
| Color.BlendU8FullIdempotent | src/color.rs:6-9 | a full blend applied twice equals a full blend applied once |
| Color.BlendIntoU8 | src/color.rs:4-16 | the array afterwards is `BlendU8` of its old contents |
| Color.BlendF32 | src/color.rs:18-30 | the same three cases over f32 without rounding; results lie between the operands |
| Color.BlendIntoF32 | src/color.rs:18-30 | the array afterwards is `BlendF32` of its old contents |
| Color.Widen | src/color.rs:36-38 | each byte read as a float keeps its value |
| Color.BlendIntoF32U8 | src/color.rs:32-44 | the array afterwards is `BlendF32` of its old contents and the widened bytes |
| Options.ParseSelectionMode | src/options.rs:15-29 | Ok exactly for lighter, darker and outlier, and the keyword of the result is the input; never panics |
| Options.SelectionKeywordParses | src/options.rs:20-22 | every mode's keyword parses back to that mode |
| Options.NewThreshold | src/options.rs:40-47 | keeps absolute, min and max; the scale is 1/(max − min) whenever min ≠ max |
| Options.Abs | src/options.rs:48-50 | an absolute threshold with the given bounds |
| Options.Rel | src/options.rs:51-53 | a relative threshold with the given bounds |
| Options.BlendValue | src/options.rs:54-62 | 0 at or below min; 1 at or above max; linear ramp in between; always in [0, 1]; a step when max <= min |
| Options.BlendValueMonotone | src/options.rs:54-62 | the blend value never decreases with the distance |
| Options.ParseThreshold | src/options.rs:73-111 | Err exactly for an unknown keyword; a keyword without '/' panics; absolute iff abs/absolute; Ok iff the keyword is known and the one or two numbers parse; one number gives max == min; absolute bounds are scaled by 255 |
| Options.ThresholdParses | src/options.rs:73-111 | `keyword/lo` and `keyword/lo/hi` with decimal numbers parse to the threshold of those bounds, scaled by 255 when absolute |
| Options.ParseOutlierSelectionMode | src/options.rs:130-147 | Ok exactly for the six keywords, with the keyword of the result equal to the input |
| Options.OutlierKeywordParses | src/options.rs:134-141 | every outlier mode's keyword parses back to it |
| Options.ParseBackgroundMode | src/options.rs:161-176 | Ok exactly for first, random, average and median |
| Options.BackgroundKeywordParses | src/options.rs:165-170 | every background mode's keyword parses back to it |
| Common.Split | src/options.rs:77 | `split('/')`: parts joined by the separator give the input back; no part holds the separator |
| Common.SplitTwo | src/shake.rs:51-52 | `a/b` with no separator in a or b splits into exactly [a, b] |
| Common.ParseDecimal | src/slicer.rs:54-56 | a decimal number below the limit parses back to itself |
| Common.ParseRealDecimal | src/options.rs:93-96 | a number's decimal form parses back to that number as a float |
| Common.ParseZeroPadded | src/slicer.rs:176 | a `{:05}` zero-padded number reads back as itself, so file names tell bands apart |
| Common.CollectStops | src/simple.rs:127-144 | once a step fails, later steps do not change the collected outcome |
| Common.CollectOk | src/simple.rs:127-144 | the collection succeeds iff every step succeeds, and then holds their values in order |
| Common.CeilDiv | src/slicer.rs:28 | the ceiling of a / b: q * b >= a and (q - 1) * b < a |
| Framing.U32BE | src/streams.rs:104-105 | four big-endian bytes that `BE32` reads back as n |
| Framing.ReadRecord | src/streams.rs:151-165 | a record read at pos: its payload is exactly the announced number of bytes after the 4-byte length; too few bytes is end-of-stream |
| Framing.ReadOneRecord | src/streams.rs:97-165 | a record written for p reads back as p |
| Framing.ReadAllShift | src/streams.rs:151-165 | reading is unaffected by bytes before the read position |
| Framing.RecordsAppend | src/streams.rs:97-131 | writing two lists of records is writing their concatenation |
| Framing.ReadAllBack | src/streams.rs:97-184 | all records written for a list of payloads read back as that list |
| Streams.ParseCompression | src/streams.rs:21-46 | Panic iff a level is given that is not a u32; otherwise Err iff the name is not gzip, zlib or deflate; Ok carries the name and the level, default 6 |
| Streams.CompressionParses | src/streams.rs:21-46 | `name/level` parses back to the same compression |
| Streams.PixelOutputStream.Create | src/streams.rs:85-93 | creates or truncates the file at path |
| Streams.PixelOutputStream.Open | src/slicer.rs:193-196 | with append and an existing file, keeps its bytes; otherwise truncates |
| Streams.PixelOutputStream.WriteChunk | src/streams.rs:97-131 | appends one record of the compressed chunk to the file and returns the compressed length |
| Streams.PixelInputStream.constructor | src/streams.rs:142-150 | reads the file from its first byte |
| Streams.PixelInputStream.ReadChunk | src/streams.rs:151-184 | end-of-stream leaves the output unchanged; a record that does not decode panics; otherwise the decoded bytes are appended and their count returned |
| Streams.OpenInput | src/streams.rs:142-150 | no stream iff the file is missing; otherwise a stream at its first byte |
| Streams.CompressAll | src/streams.rs:97-131 | each chunk compressed with the chosen codec |
| Streams.ChunksReadBack | src/streams.rs:97-184 | with a lossless codec, the chunks written to a file decode back to the chunks in order |
| Streams.DecodeAllLossless | src/streams.rs:167-183 | decoding the records of compressed chunks gives the chunks |
| Streams.WrittenFile | src/streams.rs:97-131 | one more written chunk adds exactly its record to the file |
| Streams.ImageStream.constructor | src/streams.rs:53-58 | the stream holds the file list |
| Streams.ImageStream.Len | src/streams.rs:74-76 | the number of paths left |
| Streams.ImageStream.Next | src/streams.rs:63-70 | FIFO: yields the first path and drops it, or None when empty |
| ImgStream.PixelOutputStream.constructor | src/img_stream.rs:42-46 | creates the file empty with nothing buffered |
| ImgStream.PixelOutputStream.WriteChunk | src/img_stream.rs:50-58 | buffers one record of the gzip-compressed chunk |
| ImgStream.PixelOutputStream.Close | src/img_stream.rs:59-61 | the file holds everything written |
| ImgStream.PixelInputStream.constructor | src/img_stream.rs:68-75 | reads from the first byte |
| ImgStream.PixelInputStream.ReadChunk | src/img_stream.rs:76-95 | end-of-stream leaves the output unchanged; otherwise the decoded record is appended |
| ImgStream.GzipAll | src/img_stream.rs:50-58 | each chunk gzip-compressed |
| ImgStream.ChunksReadBack | src/img_stream.rs:50-95 | with lossless gzip, written chunks read back in order |
| ImgStream.ImageStream.constructor | src/img_stream.rs:17-22 | the stream holds the file list |
| ImgStream.ImageStream.Next | src/img_stream.rs:24-35 | FIFO: yields the first path and drops it |
| Banding.Bands | src/slicer.rs:183-204 | band i of a buffer is its i-th slice of `stride` bytes, clamped at the end |
| Banding.BandsConcat | src/slicer.rs:183-204 | bands covering the buffer concatenate back to the buffer |
| Banding.BandChunks | src/slicer.rs:197-202 | band i of each frame, in frame order |
| Slicer.CeilDivF32 | src/slicer.rs:27-31 | `(a as f32 / n as f32).ceil() as usize`: the ceiling, and usize::MAX for a positive count over 0 |
| Slicer.SliceCoverage | src/slicer.rs:25-40 | the bands times their size cover the whole `height * height_stride` frame |
| Slicer.BandStartsInside | src/slicer.rs:159-166 | for pixels and rows, every band starts inside the frame |
| Slicer.ZeroLengthOverflows | src/slicer.rs:34-39 | `rows/0` and `pixels/0` on a frame with pixels ask for usize::MAX bands, too many paths to collect |
| Slicer.CountBandPastEnd | src/slicer.rs:28-30 | as written, `count/7` on 10 samples gives bands of 2 bytes, and band 6 starts at 12, past the end |
| Slicer.CountIntended | src/slicer.rs:28-30 | the corrected band count is at most the requested count |
| Slicer.CountIntendedInside | src/slicer.rs:159-166 | with the corrected count every band starts inside the frame and the bands still cover it |
| Slicer.ParseSliceLength | src/slicer.rs:45-70 | Panic iff the number is missing or not a usize, checked before the keyword; otherwise Err iff the keyword is not rows, pixels or count; Ok carries the keyword and the number |
| Slicer.SliceLengthParses | src/slicer.rs:45-70 | `keyword/n` parses back to the same slice length |
| Slicer.BandPaths | src/slicer.rs:171-181 | one `temp-{id}-{i:05}.bin` path per band |
| Slicer.BandPathInjective | src/slicer.rs:176 | different band numbers give different paths |
| Slicer.BandPathsDistinct | src/slicer.rs:171-181 | the band paths are pairwise distinct |
| Slicer.GoodFrom | src/slicer.rs:183-204 | the first frame at or after k that has another layout or does not slice |
| Slicer.BandFiles | src/slicer.rs:183-204 | one file per band holding that band of each frame before the stop |
| Slicer.BandFileRecords | src/slicer.rs:193-202 | band file i is the records of the compressed bands i of the frames |
| Slicer.PutTwice | src/slicer.rs:193-196 | rewriting the band files replaces the first contents |
| Slicer.WriteBands | src/slicer.rs:189-204 | writes one frame: ok iff every band lies in its samples, and then each band file gains that frame's band |
| Slicer.AppendBand | src/slicer.rs:190-202 | one band: inside iff it starts within the samples, and then its file gains the band's record |
| Slicer.SlicedMeaning | src/slicer.rs:106-231 | Ok iff the band paths can be collected and every frame has the first layout and slices, with the band paths and frame count; Err("Image layout does not fit!") only for a later frame with another layout; Panic only for a capacity overflow of the band paths (slicer.rs:171-181) or a band past the end |
| Slicer.SlicedFilesHold | src/slicer.rs:183-204 | unless the run panics, the band files hold the bands of the frames before the stop and nothing else changes |
| Slicer.WriteTimeSlices | src/slicer.rs:106-231 | zero frames give Err("No images found for given pattern") with no file touched; otherwise the outcome is `Sliced`, which panics with "capacity overflow" when the band paths cannot be collected, and unless it panics the files are `SlicedFiles` |
| Slicer.SliceFrame | src/slicer.rs:125-212 | one frame of the loop: keeps the progress invariant or ends with the final outcome |
| Slicer.SlicedAll | src/slicer.rs:218-229 | after every frame the result is Ok with the band paths, layout and frame count |
| Slicer.BandFileReadBack | src/slicer.rs:193-202 | with a lossless codec, band file i decodes to band i of every frame |
| Slicer.Reassemble | src/slicer.rs:183-204 | the decoded bands of a frame, concatenated, give the frame back |
| TimeSlice.RowPaths | src/time_slice.rs:48-59 | one `temp-{r:05}.gz` path per row |
| TimeSlice.RowPathInjective | src/time_slice.rs:53 | different rows give different paths |
| TimeSlice.RowPathsDistinct | src/time_slice.rs:48-59 | the row paths are pairwise distinct |
| TimeSlice.RowFiles | src/time_slice.rs:60-70 | row file r holds row r of each frame, gzip records in frame order |
| TimeSlice.RowStep | src/time_slice.rs:60-70 | one more frame adds exactly its row record to each row file |
| TimeSlice.FitFrom | src/time_slice.rs:34-70 | the first frame at or after k whose layout differs or whose rows do not fit |
| TimeSlice.TimeSlicedMeaning | src/time_slice.rs:15-91 | as written, zero frames panic at the `unwrap`; otherwise Ok iff every frame fits, Err only for a later frame with another layout, Panic only for a short row |
| TimeSlice.TimeSlicedIntended | src/time_slice.rs:78-79 | corrected: zero frames give Err("No images found for pattern {}"); otherwise the same as written |
| TimeSlice.SlicedRowsHold | src/time_slice.rs:60-76 | unless the run panics, each row file holds that row of the frames before the stop |
| TimeSlice.OpenStreams | src/time_slice.rs:48-59 | one stream per row, each file created empty |
| TimeSlice.WriteRows | src/time_slice.rs:60-70 | ok iff every row lies in the samples, and then each stream buffers the frame's row |
| TimeSlice.CloseAll | src/time_slice.rs:74-76 | each row file receives what its stream buffered |
| TimeSlice.WriteTimeSlices | src/time_slice.rs:15-91 | the outcome is `TimeSliced` and, unless it panics, the files are `SlicedRows` |
| TimeSlice.SliceImage | src/time_slice.rs:27-72 | one frame of the loop: keeps the invariant or ends with the final outcome |
| TimeSlice.DropStreams | src/time_slice.rs:34-45 | on a layout mismatch the files are already final |
| TimeSlice.RowFileReadBack | src/time_slice.rs:60-70 | with lossless gzip, row file r decodes to row r of every frame |
| TimeSlice.Untranspose | src/time_slice.rs:60-70 | the decoded rows of a frame, concatenated, give the frame |
| ChronoStats.Sort | src/chrono.rs:355 | `sort()`: a permutation of the input in ascending order |
| ChronoStats.Insert | src/chrono.rs:355 | insertion keeps the multiset plus the new element and keeps order |
| ChronoStats.At | src/chrono.rs:501-510 | indexing yields the value iff the index is in range, else a panic |
| ChronoStats.Halfway | src/chrono.rs:474-510 | the mean of two neighbours iff both are in range |
| ChronoStats.MedianInBounds | src/chrono.rs:501-510 | as written, the median is Ok iff at least 2 values |
| ChronoStats.QuartilesInBounds | src/chrono.rs:474-498 | as written, the quartiles are Ok iff at least 5 values |
| ChronoStats.QuartilesMedian | src/chrono.rs:474-510 | the middle quartile is the median |
| ChronoStats.QuartilesOrdered | src/chrono.rs:474-498 | on sorted data q1 <= q2 <= q3, all between the minimum and the maximum |
| ChronoStats.MedianAsWrittenMisses | src/chrono.rs:501-510 | as written, the median of 0..6 is 3.5, which is not a median, and one value panics |
| ChronoStats.QuartilesAsWrittenShifted | src/chrono.rs:474-498 | as written, the quartiles of 0..6 are (2, 3.5, 6) |
| ChronoStats.MedianIntendedIsMedian | src/chrono.rs:501-510 | corrected median: at least half the values are at most it and at least half at least it |
| ChronoStats.QuartilesIntendedOrdered | src/chrono.rs:474-498 | corrected quartiles are ordered and within the data's range |
| ChronoStats.QuartilesIntendedSeven | src/chrono.rs:474-498 | corrected quartiles of 0..6 are (1, 3, 5) |
| ChronoStats.AtPositionBetween | src/chrono.rs:474-498 | a value read at a quartile position lies between its two neighbours |
| ChronoSelect.Samples | src/chrono.rs:248-256 | the gathered buffer split into n samples of ch bytes |
| ChronoSelect.SampleAt | src/chrono.rs:341-349 | sample s channel i is byte `s * ch + i` of the buffer |
| ChronoSelect.Column | src/chrono.rs:341-349 | channel i of every sample, in sample order |
| ChronoSelect.Means | src/chrono.rs:336-349 | one mean per channel |
| ChronoSelect.Centers | src/chrono.rs:351-365 | one center per channel: the median when absolute, the middle quartile otherwise |
| ChronoSelect.IqrInvs | src/chrono.rs:351-365 | one inverse interquartile range per channel |
| ChronoSelect.DistSq | src/chrono.rs:367-393 | the squared distance of a sample to the centers is non-negative |
| ChronoSelect.DistSqAgree | src/chrono.rs:367-393 | the distance depends only on the first ch centers, and on the inverse ranges only when relative |
| ChronoSelect.Dists | src/chrono.rs:367-393 | one non-negative distance per sample |
| ChronoSelect.Outliers | src/chrono.rs:385-392 | recorded outliers are samples whose distance reaches the threshold, with that distance |
| ChronoSelect.OutliersAscending | src/chrono.rs:385-387 | outliers are recorded in sample order |
| ChronoSelect.OutliersComplete | src/chrono.rs:385-387 | every sample at or above the threshold is recorded |
| ChronoSelect.MaxOutlierIsMax | src/chrono.rs:385-391 | no outlier's distance exceeds the tracked maximum, and every outlier before it is strictly smaller (the strict `>` keeps the earliest) |
| ChronoSelect.MaxOutlierRecorded | src/chrono.rs:367-393 | with no outlier the maximum stays at its start (0, 0); otherwise it is one of the recorded outliers |
| ChronoSelect.FirstOutlierZero | src/chrono.rs:368-391 | an outlier at distance 0 that `>` never records as the maximum is sample 0, so the start (0, 0) is that outlier |
| ChronoSelect.Background | src/chrono.rs:395-420 | one background byte per channel |
| ChronoSelect.OutlierMean | src/chrono.rs:425-450 | one averaged byte per channel |
| ChronoSelect.Representative | src/chrono.rs:422-461 | the chosen outlier has ch bytes |
| ChronoSelect.AverageBlendPanics | src/chrono.rs:444-449 | as written, the average blend panics iff the blend is full and the pixel has fewer than 4 channels; otherwise it equals the corrected blend |
| ChronoSelect.AverageBlendIntended | src/chrono.rs:444-449 | corrected: full blend gives the average, zero blend the background, otherwise each channel between them |
| ChronoSelect.ZScoreBlends | src/chrono.rs:324-469 | the z-score pixel is the background blended with the outlier chosen from the distances to the centers |
| ChronoSelect.Pick | src/chrono.rs:285-322 | the index of the chosen extreme is among the samples |
| ChronoSelect.PickIsExtreme | src/chrono.rs:285-322 | no sample beats the pick, and the pick strictly beats every earlier sample |
| ChronoImage.BandReadsBack | src/chrono.rs:236-240 | with a lossless codec a band file reads back to its chunks |
| ChronoImage.ReadChunksLossless | src/chrono.rs:236-240 | decoding compressed records gives the chunks |
| ChronoImage.ColumnRows | src/chrono.rs:248-256 | the pixel at a column in every row |
| ChronoImage.Gathered | src/chrono.rs:248-256 | the gathered buffer has rows * ch bytes |
| ChronoImage.GatheredSamples | src/chrono.rs:248-256 | sample r of the gathered buffer is the pixel of row r |
| ChronoImage.RowStops | src/chrono.rs:248-267 | a failing column stops the row |
| ChronoImage.GridStops | src/chrono.rs:226-268 | a failing band stops the image |
| ChronoImage.PositionIndex | src/chrono.rs:258-266 | every buffer index is one row, column and channel |
| ChronoImage.PositionOf | src/chrono.rs:258-266 | that decomposition is unique |
| ChronoImage.BlendBytes | src/chrono.rs:261-265 | the blend byte for the first three channels, 255 after |
| ChronoImage.CellAt | src/chrono.rs:258-266 | a written cell holds the chosen pixel and its blend bytes |
| ChronoImage.CellUnwritten | src/chrono.rs:218-219 | a cell outside the rows and columns written stays 0 |
| ChronoImage.ComposeColumn | src/chrono.rs:258-266 | writing one pixel keeps the image consistent with the choices |
| ChronoImage.ComposeRow | src/chrono.rs:248-267 | a full row completes the grid row |
| ChronoImage.ComposeEmpty | src/chrono.rs:218-219 | the zeroed buffers match the empty grid |
| Chrono.ParseOutlierSelectionMode | src/chrono.rs:119-135 | Ok exactly for first, last, extreme and average |
| Chrono.OutlierKeywordParses | src/chrono.rs:119-135 | each keyword parses back |
| Chrono.FlatDistinct | src/chrono.rs:344 | the channel-major store index is injective |
| Chrono.ColumnBlock | src/chrono.rs:341-352 | the stored block of channel i is that channel's column |
| Chrono.ChronoProcessor.constructor | src/chrono.rs:187-209 | keeps the settings, with zeroed sample and statistics and empty lists |
| Chrono.ChronoProcessor.PickExtreme | src/chrono.rs:285-322 | Ok iff at least 3 channels; the index is `Pick` |
| Chrono.ChronoProcessor.CalcPixelExtreme | src/chrono.rs:285-322 | panics unless there are at least 3 channels and at least 1 sample; otherwise the pixel is the lightest/darkest sample |
| Chrono.ChronoProcessor.Accumulate | src/chrono.rs:336-349 | fits iff at most 4 channels; then the means and stored columns are right |
| Chrono.ChronoProcessor.CentersOf | src/chrono.rs:351-365 | Ok iff enough samples; then centers and inverse ranges per channel |
| Chrono.ChronoProcessor.MedianOf | src/chrono.rs:351-365 | Ok iff at least 2 values |
| Chrono.ChronoProcessor.QuartilesOf | src/chrono.rs:351-365 | Ok iff at least 5 values |
| Chrono.ChronoProcessor.SortBlock | src/chrono.rs:352-353 | the sorted column |
| Chrono.ChronoProcessor.DistSqAt | src/chrono.rs:372-384 | the squared distance of one sample |
| Chrono.ChronoProcessor.Scan | src/chrono.rs:367-393 | the recorded outliers and the max outlier of the distances |
| Chrono.ChronoProcessor.Record | src/chrono.rs:385-392 | one more sample keeps the outlier list and max right |
| Chrono.ChronoProcessor.FillBackground | src/chrono.rs:395-420 | the pixel is `Background` |
| Chrono.ChronoProcessor.CopySample | src/chrono.rs:395-460 | the pixel is sample idx |
| Chrono.ChronoProcessor.AverageOutliers | src/chrono.rs:425-450 | the sample holds the outliers' mean and the distance the mean root distance |
| Chrono.ChronoProcessor.ChooseOutlier | src/chrono.rs:422-461 | the chosen sample and distance are `Representative` |
| Chrono.ChronoProcessor.BlendOutliers | src/chrono.rs:422-468 | the pixel and blend byte are `Blended` |
| Chrono.ChronoProcessor.Statistics | src/chrono.rs:336-365 | Ok iff at most 4 channels and enough samples; then means and centers |
| Chrono.ChronoProcessor.CalcPixelZScore | src/chrono.rs:324-469 | zero channels panic; otherwise the pixel and blend are `ZScore` |
| Chrono.ChronoProcessor.CalcPixel | src/chrono.rs:274-283 | the pixel is `PixelOf` for the selection mode |
| Chrono.ChronoProcessor.ReadBand | src/chrono.rs:236-240 | the band's decoded bytes or the read outcome |
| Chrono.ChronoProcessor.Gather | src/chrono.rs:248-256 | ok iff every row's pixel lies in the data; then the buffer is `Gathered` |
| Chrono.ChronoProcessor.Scatter | src/chrono.rs:258-266 | writes the pixel and its blend bytes at start; nothing else changes |
| Chrono.ChronoProcessor.Process | src/chrono.rs:211-272 | the output and blend images hold exactly the choices of every band, or the same error, or a panic |
| Chrono.ChronoProcessor.ProcessBand | src/chrono.rs:226-268 | one band: its row of choices, written into the images |
| Chrono.ChronoProcessor.ProcessRow | src/chrono.rs:241-267 | one row: its choices, written into the images |
| Chrono.ChronoProcessor.ProcessColumn | src/chrono.rs:249-266 | one pixel: its choice, written into the images |
| Shake.ParseShakeParams | src/shake.rs:50-73 | Err iff not two parts; Panic iff a part is not a u32; otherwise the two radii |
| Shake.ShakeParamsParse | src/shake.rs:50-73 | `a/b` parses back to the parameters |
| Shake.ParseShakeAnchor | src/shake.rs:87-105 | Err iff not two parts; Panic iff a part is not an i32 |
| Shake.ShakeAnchorParse | src/shake.rs:87-105 | `x/y` parses back to the anchor |
| Shake.PixelBytesAre | src/shake.rs:208-214 | inside the image, a pixel's bytes are its samples; outside, zeros |
| Shake.Window | src/shake.rs:190-218 | a window around an anchor has side 2r+1 pixels |
| Shake.WindowConcat | src/shake.rs:203-216 | the window is its rows of pixels concatenated |
| Shake.WindowsAt | src/shake.rs:190-218 | window i sits at offset i * window length |
| Shake.FillOk | src/shake.rs:190-218 | filling succeeds iff every window fits the buffer and lies in the image |
| Shake.FillWindows | src/shake.rs:190-218 | the outcome is `FillFrom`, and on Ok the windows fit the buffer |
| Shake.FillWindow | src/shake.rs:201-216 | ok iff the anchor window lies in the image; then the window is written at its base |
| Shake.FillPixel | src/shake.rs:206-214 | ok iff the pixel lies in the image; then its bytes are written |
| ShakeAnalysis.SqDiffZero | src/shake.rs:250-253 | the squared difference is 0 iff the pixels are equal |
| ShakeAnalysis.WindowCostZero | src/shake.rs:241-255 | a window's cost is 0 iff it equals the image window |
| ShakeAnalysis.Costs | src/shake.rs:238-240 | cost table of one anchor, laid out by `ox * S + oy` |
| ShakeAnalysis.TableAt | src/shake.rs:220-260 | entry `ox * S + oy` of the table is the summed cost of that shift |
| ShakeAnalysis.TableNonNegative | src/shake.rs:220-260 | every entry is non-negative |
| ShakeAnalysis.TotalZeroReappears | src/shake.rs:220-260 | a shift has total 0 iff every stored window reappears there |
| ShakeAnalysis.CalcFromOk | src/shake.rs:220-260 | the search succeeds iff every shifted window lies in the image |
| ShakeAnalysis.CalcDiffs | src/shake.rs:220-260 | outcome `CalcFrom`; on Ok the diff array is the cost table |
| ShakeAnalysis.AnchorDiffs | src/shake.rs:237-257 | ok iff the search area lies inside; then the anchor's costs are added |
| ShakeAnalysis.WindowDiff | src/shake.rs:242-255 | ok iff the window lies inside; then the sum is its cost |
| ShakeAnalysis.PixelDiff | src/shake.rs:243-254 | ok iff the pixel lies inside; then the sum is its squared difference |
| ShakeAnalysis.ArgMin | src/shake.rs:175-176 | `min_by_key`: a minimum, and the first of the minima |
| ShakeAnalysis.DecodeOf | src/shake.rs:177-178 | index `ox * S + oy` decodes to (ox - R, oy - R) when corrected, and to (oy - R, ox - R) as written |
| ShakeAnalysis.DecodeSwapExample | src/shake.rs:177-178 | with R = 1, entry 6 holds shift (1, -1) but is reported as (-1, 1) |
| ShakeAnalysis.PickMeaning | src/shake.rs:175-180 | the pick is the first minimal table entry and its decoded shift |
| ShakeAnalysis.LaterPick | src/shake.rs:164-180 | a later frame reports the shift of the first minimal total cost |
| ShakeAnalysis.StoredWindows | src/shake.rs:146-162 | the buffer holds the stored windows |
| ShakeAnalysis.Analyze | src/shake.rs:111-188 | the result is `Analysis` as written |
| ShakeAnalysis.FirstFrame | src/shake.rs:146-162 | the result and the stored windows of the first frame |
| ShakeAnalysis.LaterFrame | src/shake.rs:164-180 | the result of a later frame |
| ShakeAnalysis.AllocationPanics | src/shake.rs:146 | as written, two or more anchors panic on the first frame because the buffer holds one window |
| ShakeAnalysis.AllocationSingle | src/shake.rs:146 | with one anchor the buffer size is right |
| ShakeAnalysis.FirstCorrected | src/shake.rs:146-162 | corrected: the first frame is Ok iff every window lies inside, with shift (0, 0) and cost 0 |
| ShakeAnalysis.SameFrameZero | src/shake.rs:164-180 | corrected: a frame compared with itself reports cost 0 |
| Simple.FrameFade | src/simple.rs:149-155 | the fade of frame k: with indices counted from the first index, otherwise from the frame number; reversed order reads get(samples-1-k) |
| Simple.FramesAgree | src/simple.rs:50-56 | every frame read has the first frame's layout |
| Simple.UpdateMeaning | src/simple.rs:91-121 | no strict beat leaves the pixel; a beat sets the extreme and blends the output; fade <= 0 keeps it, fade >= 1 copies |
| Simple.PixelExtreme | src/simple.rs:96-107 | a pixel's extreme is the maximum (lighter) or minimum (darker) of every frame's weighted value and the start value, and equals one of them |
| Simple.PixelKept | src/simple.rs:91-121 | a pixel no frame beat stays 0; otherwise the first frame to reach the extreme (every earlier value strictly worse) decides the output, blended in as that frame's fade says and untouched later |
| Simple.LastStep | src/simple.rs:96-121 | the last frame changes a pixel only on a strict beat, then sets the extreme to its value and blends it in |
| Simple.KeptBeat | src/simple.rs:96-107 | a last frame that beats the extreme becomes the first to reach it |
| Simple.KeptTie | src/simple.rs:96-107 | a last frame that only ties leaves the earlier frame in place |
| Simple.FrameStepPixel | src/simple.rs:84-122 | each pixel of a frame step is that pixel updated on its own (`par_chunks_mut` zipped with the input and the extremes) |
| Simple.RunPixel | src/simple.rs:127-144 | pixel p of the buffer and its extreme after all frames are the run over p's own input pixels alone |
| Simple.FirstFailure | src/simple.rs:127-146 | the first failing frame decides the outcome |
| Simple.ResultPixels | src/simple.rs:23-147 | a successful run returns the layout and a buffer of height * height_stride bytes, each pixel its own run |
| Simple.PixelValue | src/simple.rs:92-95 | the weighted value of one pixel |
| Simple.UpdatePixel | src/simple.rs:91-121 | writes only pixel p and its extreme, as `Updated` says (see UpdateMeaning) |
| Simple.UpdateFrame | src/simple.rs:84-122 | the buffer and extremes become one frame step of the old ones (see FrameStepPixel) |
| Simple.Allocate | src/simple.rs:57-73 | a zeroed buffer and one start extreme per pixel |
| Simple.NextFrame | src/simple.rs:127-140 | the frame is `FrameAt`: an index past the files panics, an open error is returned, another layout panics |
| Simple.Accumulate | src/simple.rs:57-122 | the first frame allocates the buffers; each frame keeps the invariant that the arrays hold the run over the frames so far |
| Simple.Step | src/simple.rs:127-144 | one frame of the loop: ends with `Result` when the frame fails, otherwise the arrays hold the run over one more frame |
| Simple.Process | src/simple.rs:23-147 | the result is `Result`: the first failing frame's error or panic, the `unwrap` panic for no frame, otherwise the first layout with the per-pixel runs (see ResultPixels, FirstFailure) |
| Simple.AllFrames | src/simple.rs:127-146 | once every frame is read without failure, the result is the run over them, or the `unwrap` panic when there was none |

## Left out

- `main.rs`, `cli.rs`, `flist.rs`, `imgstream.rs`, `lib.rs` and `util/` are
  not part of this model. They cover argument parsing, file listing, the
  command line and example data.
- Image decoding and encoding (`image::open`, `save`) are left out. An
  opened image is a `Frame` or the error it returned.
- The gzip, zlib and deflate codecs are parameters. Read-back lemmas assume
  a lossless codec.
- Parallel iteration (`rayon`) is modelled as sequential. The per-pixel
  computations are independent.
- Random number generation is left out. `thread_rng` draws are parameters.
- Progress bars and `println!` output are left out.
- f32 rounding, NaN and infinity are left out. Arithmetic is exact over
  `real`, and the square root is a parameter.
- The `Fade` curve is a parameter: `get: int -> real` in Simple.FadeAt.
- The `Threshold`, `SelectionMode` and `BackgroundMode` copies in `chrono.rs`
  equal those in `options.rs` and are modelled once. The four-keyword
  `OutlierSelectionMode` of `chrono.rs` is modelled separately.
- Slicer.WriteTimeSlices: frames are taken already cropped. The crop at
  slicer.rs:138-140, which replaces each frame before its samples are
  sliced, and the index panic of `crop[img_index]` when the crop list is
  shorter than the image stream are left out.
- Slicer.WriteTimeSlices: a band count below the capacity limit that is
  still too large to allocate aborts the process in Rust. The model
  collects those paths.
- Slicer.SliceCoverage holds in exact arithmetic only. In the source the
  quotient at slicer.rs:29 and 36-38 is rounded to f32 before `ceil`: a
  4000×3000 RGB frame (36,000,000 samples) with `count/7` gets bands of
  5142857 samples, so the 7 bands cover 35,999,999 samples and the last
  sample is in no band file.
- Chrono.ChronoProcessor.Process requires at most `height` band paths and
  rows no wider than `height_stride`. The only caller passes exactly
  `height` paths for one image layout.
- Color.BlendIntoU8, Color.BlendIntoF32 and Color.BlendIntoF32U8 require
  `blend >= 1 ==> |b| <= a.len()`. This excludes the index panic of the full
  copy at color.rs:7-8.
- Streams.FileSystem never fails. The create and write `.expect` calls are
  left out (slicer.rs:194-201, time_slice.rs:54-55 and 64-69).
- Streams.PixelInputStream.ReadChunk treats a truncated record as end of
  stream. Other `read_exact` I/O errors are left out.
- Common.ParseReal reads only decimal notation, without exponents. A
  threshold written with an exponent panics in Options.ParseThreshold where
  Rust returns Ok.
- Streams.PixelOutputStream.Open: the `append` flag follows the call at
  slicer.rs:193-195. `streams.rs:85` only defines the truncating
  two-argument constructor.
- ShakeAnalysis.CalcDiffs and Shake.FillWindows: the `(2*r+1) as i32` cast,
  the i32 sums and the `as u32` coordinate casts are unbounded integers in
  the model. Their wrap-around is left out.
- Slicer.SliceBytes and Slicer.SliceCount: the usize products at
  slicer.rs:27 and 31 and the u32 products at slicer.rs:29 and 36 are
  unbounded. Their overflow and that of `total_bytes` are left out.
- Simple.Process requires each opened frame to be packed: one to four
  channels, `height_stride == width * width_stride`, and exactly
  `height * height_stride` samples. The source pairs output pixels with
  input pixels by `par_chunks(channels)` under the same assumption. The
  channel weights are read for at most four channels.
- Simple.Process: the `.expect` on images that are not 8-bit
  (simple.rs:42) is left out. Frames are 8-bit. The same holds for the
  conversions in slicer.rs:143 and shake.rs:137-143 and 154-168.
- Slicer.WriteTimeSlices and TimeSlice.WriteTimeSlices take decoded
  frames. The `img.unwrap()` panic on an image that fails to open is left
  out (slicer.rs:137, time_slice.rs:32-33).

## Findings

| source | as written | input that shows it | evidently intended | confidence | as-written member | corrected member |
|---|---|---|---|---|---|---|
| src/chrono.rs:474-510 | odd/even choices of `median` and `quartiles` are swapped | sorted 0..6: median 3.5, quartiles (2, 3.5, 6); a single sample panics | positions (n+1)/4, (n+1)/2, 3(n+1)/4: (1, 3, 5) | not executed | ChronoStats.MedianAsWrittenMisses | ChronoStats.MedianIntendedIsMedian |
| src/chrono.rs:474-498 | quartiles read one position late | sorted 0..6: (2, 3.5, 6) | (1, 3, 5) | not executed | ChronoStats.QuartilesAsWrittenShifted | ChronoStats.QuartilesIntendedSeven |
| src/slicer.rs:28-30 | `count/n` keeps n bands though bands of `ceil(total/n)` bytes need fewer | 10 samples, `count/7`: band 6 starts at byte 12 and the slice panics | as many bands as cover the frame, at most n | not executed | Slicer.CountBandPastEnd | Slicer.CountIntendedInside |
| src/shake.rs:177-178 | the shift is decoded as (k mod S, k div S) while entries are stored at `ox * S + oy` | radius 1, entry 6 holds shift (1, -1), reported as (-1, 1) | (k div S - R, k mod S - R) | not executed | ShakeAnalysis.DecodeSwapExample | ShakeAnalysis.DecodeOf |
| src/time_slice.rs:74-79 | with no images the `unwrap` at close panics before the error return | zero frames | Err("No images found for pattern {}") | not executed | TimeSlice.TimeSlicedMeaning | TimeSlice.TimeSlicedIntended |
| src/chrono.rs:444-449 | the average blends the 4-byte `sample` into a pixel of ch bytes | 3-channel image, `average` outliers with blend 1 | blend only the first ch bytes | not executed | ChronoSelect.AverageBlendPanics | ChronoSelect.AverageBlendIntended |
| src/shake.rs:146 | the window buffer holds one window while every anchor's window is stored | two anchors with the first window inside the image | `anchors.len() * window_len * ch` bytes | not executed | ShakeAnalysis.AllocationPanics | ShakeAnalysis.FirstCorrected |
