/** Time slicing with one band per image row (`time_slice.rs`): row `r` of
    every image, in image order, goes to the gzip band file `temp-{r:05}.gz`.
    The first image fixes the layout; the row streams are opened once, at the
    first image, buffer their records, and are closed after the last image. */
module TimeSlice {
  import opened Common
  import opened Framing
  import opened Banding
  import Streams
  import opened ImgStream
  import Slicer

  // ---------------------------------------------------------------------
  // Row files

  /** `temp-{row:05}.gz` in the temporary directory. */
  function RowPath(dir: string, row: nat): string
  {
    dir + "/temp-" + ZeroPadded(row, 5) + ".gz"
  }

  /** The row files, in row order. */
  function RowPaths(dir: string, height: nat): (ps: seq<string>)
    ensures |ps| == height
  {
    seq(height, r requires 0 <= r < height => RowPath(dir, r))
  }

  /** Entry `r` of `RowPaths` is the path of row file `r`. */
  lemma RowPathsAt(dir: string, height: nat, r: nat)
    requires r < height
    ensures RowPaths(dir, height)[r] == RowPath(dir, r)
  {
  }

  /** Different rows have different files. */
  lemma RowPathInjective(dir: string, a: nat, b: nat)
    requires RowPath(dir, a) == RowPath(dir, b)
    ensures a == b
  {
    var pre := dir + "/temp-";
    var x := ZeroPadded(a, 5);
    var y := ZeroPadded(b, 5);
    assert pre + x + ".gz" == pre + y + ".gz";
    assert |x| == |y|;
    assert x == (pre + x + ".gz")[|pre|..|pre| + |x|];
    assert y == (pre + y + ".gz")[|pre|..|pre| + |y|];
    ParseZeroPadded(a, 5, a + b + 1);
    ParseZeroPadded(b, 5, a + b + 1);
  }

  /** The row files of one run are different files. */
  lemma RowPathsDistinct(dir: string, height: nat)
    ensures Slicer.Distinct(RowPaths(dir, height))
  {
    var ps := RowPaths(dir, height);
    forall a, b | 0 <= a < b < height
      ensures ps[a] != ps[b]
    {
      if ps[a] == ps[b] {
        RowPathInjective(dir, a, b);
      }
    }
  }

  /** The gzip revision's streams store what the configurable streams store
      for `GZip` at the default level. */
  function GzipCodecs(gzip: Streams.Flate): Streams.Codecs
  {
    Streams.Codecs(gzip, gzip, gzip)
  }

  const GZIP_DEFAULT: Streams.Compression := Streams.GZip(Streams.DEFAULT_LEVEL)

  /** Row file `r` once the first `n` images were sliced: the record of row
      `r` of each of them, in image order. */
  function RowFile(frames: seq<Frame>, n: nat, r: nat, stride: nat, gzip: Streams.Flate): seq<byte>
    requires n <= |frames|
  {
    Slicer.BandFile(frames, n, r, stride, GzipCodecs(gzip), GZIP_DEFAULT)
  }

  /** The first `height` row files once the first `n` images were sliced. */
  function RowFiles(frames: seq<Frame>, n: nat, height: nat, stride: nat, gzip: Streams.Flate): (fs: seq<seq<byte>>)
    requires n <= |frames|
    ensures |fs| == height
  {
    Slicer.BandFiles(frames, n, height, stride, GzipCodecs(gzip), GZIP_DEFAULT)
  }

  /** Slicing image `k` appends the record of its row `r` to row file `r`. */
  lemma RowStep(frames: seq<Frame>, k: nat, height: nat, stride: nat, gzip: Streams.Flate, r: nat)
    requires k < |frames| && r < height
    ensures RowFiles(frames, k + 1, height, stride, gzip)[r]
         == RowFiles(frames, k, height, stride, gzip)[r] + Record(Gzip(gzip, Band(frames[k].samples, r, stride)))
  {
    Slicer.BandFilesAt(frames, k + 1, height, stride, GzipCodecs(gzip), GZIP_DEFAULT, r);
    Slicer.BandFilesAt(frames, k, height, stride, GzipCodecs(gzip), GZIP_DEFAULT, r);
  }

  /** Empty files, one per row. */
  function Empties(height: nat): (es: seq<seq<byte>>)
    ensures |es| == height
  {
    seq(height, _ => [])
  }

  /** Before any image, every row file is empty. */
  lemma {:induction false} NoRowsYet(frames: seq<Frame>, height: nat, stride: nat, gzip: Streams.Flate)
    ensures RowFiles(frames, 0, height, stride, gzip) == Empties(height)
  {
    if height > 0 {
      NoRowsYet(frames, height - 1, stride, gzip);
      assert Empties(height) == Empties(height - 1) + [[]];
    }
  }

  // ---------------------------------------------------------------------
  // What slicing returns and leaves

  /** An image can be sliced as the first image fixes it: it has the first
      image's layout, and every one of its `height` rows, `height_stride`
      samples each, lies inside its samples. */
  predicate RowsFit(frame: Frame, lay: Layout)
  {
    frame.layout == lay && Offset(lay.height, lay.heightStride) <= |frame.samples|
  }

  /** Where slicing from image `k` on stops: the first image whose rows do
      not fit, or the number of images. */
  function FitFrom(frames: seq<Frame>, lay: Layout, k: nat): (n: nat)
    requires k <= |frames|
    ensures k <= n <= |frames|
    ensures forall j :: k <= j < n ==> RowsFit(frames[j], lay)
    ensures n < |frames| ==> !RowsFit(frames[n], lay)
    decreases |frames| - k
  {
    if k == |frames| || !RowsFit(frames[k], lay) then k
    else FitFrom(frames, lay, k + 1)
  }

  /** Where slicing a non-empty list of images stops. */
  function RowStop(frames: seq<Frame>): (n: nat)
    requires |frames| > 0
    ensures n <= |frames|
  {
    FitFrom(frames, frames[0].layout, 0)
  }

  /** Slicing stops at the first image whose rows do not fit. */
  lemma StopsAt(frames: seq<Frame>, k: nat)
    requires 0 < |frames| && k <= |frames|
    requires forall j :: 0 <= j < k ==> RowsFit(frames[j], frames[0].layout)
    requires k < |frames| ==> !RowsFit(frames[k], frames[0].layout)
    ensures RowStop(frames) == k
  {
  }

  /** What `write_time_slices` returns. Without images the streams are
      never opened and closing them unwraps `None`; otherwise it is decided
      by the image slicing stops at: none (success), one with another
      layout (error), or one of the first layout too short for its rows
      (the slice panics). */
  function TimeSliced(frames: seq<Frame>, dir: string): Outcome<SliceResult>
  {
    if |frames| == 0 then Panic("called `Option::unwrap()` on a `None` value")
    else
      var lay := frames[0].layout;
      var n := RowStop(frames);
      if n == |frames| then Ok(SliceResult(RowPaths(dir, lay.height), lay, |frames|))
      else if frames[n].layout != lay then Err("Image layout does not fit!")
      else Panic("range end index out of range for slice")
  }

  /** Slicing without images panics. Otherwise it succeeds exactly when the
      rows of every image fit the first image's layout, and then returns
      the row files in row order, the first layout and the image count; it
      is an error only when some image has another layout than the first,
      and it panics only when some image of the first layout is shorter
      than its rows. */
  lemma TimeSlicedMeaning(frames: seq<Frame>, dir: string)
    ensures |frames| == 0 ==> TimeSliced(frames, dir).Panic?
    ensures |frames| > 0 ==>
      var lay := frames[0].layout;
      var r := TimeSliced(frames, dir);
      && (r.Ok? <==> forall j :: 0 <= j < |frames| ==> RowsFit(frames[j], lay))
      && (r.Ok? ==> r.value == SliceResult(RowPaths(dir, lay.height), lay, |frames|))
      && (r.Err? ==> r.message == "Image layout does not fit!" &&
                     exists j :: 0 < j < |frames| && frames[j].layout != lay)
      && (r.Panic? ==> exists j :: 0 <= j < |frames| && frames[j].layout == lay &&
                                   Offset(lay.height, lay.heightStride) > |frames[j].samples|)
  {
    if |frames| > 0 {
      var lay := frames[0].layout;
      var n := RowStop(frames);
      assert n < |frames| ==> !RowsFit(frames[n], lay);
    }
  }

  /** What `write_time_slices` evidently means to return: the error for no
      images, as the check after the loop says, and otherwise what it does
      return. It panics only on an image too short for its rows. */
  function TimeSlicedIntended(frames: seq<Frame>, dir: string): (r: Outcome<SliceResult>)
    ensures |frames| == 0 ==> r == Err("No images found for pattern {}")
    ensures r.Panic? ==> exists j :: 0 <= j < |frames| && frames[j].layout == frames[0].layout &&
                                     !RowsFit(frames[j], frames[0].layout)
    ensures |frames| > 0 ==> r == TimeSliced(frames, dir)
  {
    if |frames| == 0 then Err("No images found for pattern {}")
    else
      TimeSlicedMeaning(frames, dir);
      TimeSliced(frames, dir)
  }

  /** The files slicing leaves unless it panics: row file `r` holds row `r`
      of each image before the stop, and every other file is as it was. */
  ghost function SlicedRows(before: map<string, seq<byte>>, frames: seq<Frame>, dir: string,
                            gzip: Streams.Flate): map<string, seq<byte>>
    requires |frames| > 0
  {
    var lay := frames[0].layout;
    Slicer.PutFiles(before, RowPaths(dir, lay.height),
               RowFiles(frames, RowStop(frames), lay.height, lay.heightStride, gzip), lay.height)
  }

  /** What `SlicedRows` holds, file by file. */
  lemma SlicedRowsHold(before: map<string, seq<byte>>, frames: seq<Frame>, dir: string, gzip: Streams.Flate)
    requires |frames| > 0
    ensures var lay := frames[0].layout;
      var files := SlicedRows(before, frames, dir, gzip);
      && (forall r :: 0 <= r < lay.height ==>
            RowPath(dir, r) in files &&
            files[RowPath(dir, r)] == RowFile(frames, RowStop(frames), r, lay.heightStride, gzip))
      && (forall p :: p !in RowPaths(dir, lay.height) ==>
            (p in files <==> p in before) && (p in before ==> files[p] == before[p]))
  {
    var lay := frames[0].layout;
    var n := RowStop(frames);
    var paths := RowPaths(dir, lay.height);
    var contents := RowFiles(frames, n, lay.height, lay.heightStride, gzip);
    RowPathsDistinct(dir, lay.height);
    forall r | 0 <= r < lay.height
      ensures var files := Slicer.PutFiles(before, paths, contents, lay.height);
        RowPath(dir, r) in files && files[RowPath(dir, r)] == RowFile(frames, n, r, lay.heightStride, gzip)
    {
      Slicer.PutBand(before, paths, contents, lay.height, r);
      Slicer.BandFilesAt(frames, n, lay.height, lay.heightStride, GzipCodecs(gzip), GZIP_DEFAULT, r);
      RowPathsAt(dir, lay.height, r);
    }
    forall p | p !in paths
      ensures var files := Slicer.PutFiles(before, paths, contents, lay.height);
        (p in files <==> p in before) && (p in before ==> files[p] == before[p])
    {
      Slicer.PutOther(before, paths, contents, lay.height, p);
    }
  }

  // ---------------------------------------------------------------------
  // The row streams

  /** The objects of the row streams, once opened. */
  function Objects(outStreams: Option<seq<PixelOutputStream>>): set<PixelOutputStream>
  {
    if outStreams.None? then {} else set j | 0 <= j < |outStreams.value| :: outStreams.value[j]
  }

  /** The row streams are open on `paths` of `fs`, whose files they created
      empty, and their buffers hold `pending`. */
  ghost predicate Buffered(streams: seq<PixelOutputStream>, fs: Streams.FileSystem, paths: seq<string>,
                           gzip: Streams.Flate, pending: seq<seq<byte>>)
    reads fs, set j | 0 <= j < |streams| :: streams[j]
  {
    && |streams| == |paths| == |pending|
    && forall j :: 0 <= j < |streams| ==>
         && streams[j].fs == fs && streams[j].path == paths[j] && streams[j].gzip == gzip
         && paths[j] in fs.files && fs.files[paths[j]] == [] && streams[j].pending == pending[j]
  }

  /** Opens one stream per row, in row order, each creating its file. */
  method OpenStreams(fs: Streams.FileSystem, dir: string, height: nat, gzip: Streams.Flate)
    returns (streams: seq<PixelOutputStream>)
    modifies fs
    ensures Buffered(streams, fs, RowPaths(dir, height), gzip, Empties(height))
    ensures fs.files == Slicer.PutFiles(old(fs.files), RowPaths(dir, height), Empties(height), height)
    ensures forall j :: 0 <= j < |streams| ==> fresh(streams[j])
  {
    ghost var paths := RowPaths(dir, height);
    streams := [];
    for i := 0 to height
      invariant |streams| == i
      invariant fs.files == Slicer.PutFiles(old(fs.files), paths, Empties(height), i)
      invariant forall j :: 0 <= j < i ==>
                  && fresh(streams[j]) && streams[j].fs == fs && streams[j].path == paths[j]
                  && streams[j].gzip == gzip && paths[j] in fs.files && fs.files[paths[j]] == []
                  && streams[j].pending == []
    {
      var stream := new PixelOutputStream(fs, RowPath(dir, i), gzip);
      streams := streams + [stream];
    }
  }

  /** Writes row `r` of image `k` to stream `r`, for every stream in row
      order; false when a row ends past the samples, which panics in the
      slice. Once written, each buffer has gained its row's record. */
  method WriteRows(streams: seq<PixelOutputStream>, frames: seq<Frame>, k: nat, stride: nat,
                   ghost fs: Streams.FileSystem, ghost paths: seq<string>, ghost gzip: Streams.Flate)
    returns (ok: bool)
    requires k < |frames| && Slicer.Distinct(paths)
    requires Buffered(streams, fs, paths, gzip, RowFiles(frames, k, |paths|, stride, gzip))
    modifies set j | 0 <= j < |streams| :: streams[j]
    ensures ok <==> Offset(|paths|, stride) <= |frames[k].samples|
    ensures ok ==> Buffered(streams, fs, paths, gzip, RowFiles(frames, k + 1, |paths|, stride, gzip))
  {
    var samples := frames[k].samples;
    ghost var before := RowFiles(frames, k, |paths|, stride, gzip);
    ghost var after := RowFiles(frames, k + 1, |paths|, stride, gzip);
    for r := 0 to |streams|
      invariant Offset(r, stride) <= |samples|
      invariant forall j :: 0 <= j < r ==> streams[j].pending == after[j]
      invariant forall j :: r <= j < |streams| ==> streams[j].pending == before[j]
    {
      var start := r * stride;
      var end := (r + 1) * stride;
      OffsetProduct(r, stride);
      OffsetProduct(r + 1, stride);
      if end > |samples| {
        OffsetMono(r + 1, |paths|, stride);
        return false;
      }
      assert samples[start..end] == Band(samples, r, stride);
      RowStep(frames, k, |paths|, stride, gzip, r);
      streams[r].WriteChunk(samples[start..end]);
    }
    return true;
  }

  /** Closes every stream in row order; dropping them does the same. Each
      row file then holds what its buffer held. */
  method CloseAll(streams: seq<PixelOutputStream>, ghost fs: Streams.FileSystem, ghost paths: seq<string>,
                  ghost gzip: Streams.Flate, ghost pending: seq<seq<byte>>)
    requires Slicer.Distinct(paths) && Buffered(streams, fs, paths, gzip, pending)
    modifies fs, set j | 0 <= j < |streams| :: streams[j]
    ensures fs.files == Slicer.PutFiles(old(fs.files), paths, pending, |paths|)
  {
    for i := 0 to |streams|
      invariant fs.files == Slicer.PutFiles(old(fs.files), paths, pending, i)
      invariant forall j :: i <= j < |streams| ==>
                  paths[j] in fs.files && fs.files[paths[j]] == [] && streams[j].pending == pending[j]
    {
      assert forall j :: i < j < |streams| ==> streams[j].path != streams[i].path;
      assert streams[i].fs == fs && streams[i].Written() == pending[i];
      streams[i].Close();
    }
  }

  // ---------------------------------------------------------------------
  // `write_time_slices`

  /** The first `k` images were sliced: the layout is the first image's once
      one was seen, the row streams are open, those images' rows fit, the
      row files were created empty over `start`, and the buffers hold the
      records of the rows of those images. */
  ghost predicate Progress(fs: Streams.FileSystem, start: map<string, seq<byte>>, frames: seq<Frame>, k: nat,
                           layout: Option<Layout>, outStreams: Option<seq<PixelOutputStream>>,
                           dir: string, gzip: Streams.Flate)
    reads fs, Objects(outStreams)
    requires k <= |frames|
  {
    if k == 0 then layout == None && outStreams == None && fs.files == start
    else
      var lay := frames[0].layout;
      var paths := RowPaths(dir, lay.height);
      && layout == Some(lay) && outStreams.Some?
      && (forall j :: 0 <= j < k ==> RowsFit(frames[j], lay))
      && fs.files == Slicer.PutFiles(start, paths, Empties(lay.height), lay.height)
      && Buffered(outStreams.value, fs, paths, gzip, RowFiles(frames, k, lay.height, lay.heightStride, gzip))
  }

  /** `TimeSlicer::write_time_slices`. The first image fixes the layout and
      opens one gzip stream per row. Each image in turn has row `r`, the
      `height_stride` samples from `r * height_stride` on, appended to
      stream `r`. An image with another layout returns an error; dropping
      the streams then flushes the rows of the images before it. A row
      ending past an image's samples panics. After the last image every
      stream is closed, which unwraps the streams and so panics when there
      were no images. */
  method WriteTimeSlices(fs: Streams.FileSystem, frames: seq<Frame>, dir: string, gzip: Streams.Flate)
    returns (r: Outcome<SliceResult>)
    modifies fs
    ensures r == TimeSliced(frames, dir)
    ensures |frames| == 0 ==> fs.files == old(fs.files)
    ensures |frames| > 0 && !r.Panic? ==> fs.files == SlicedRows(old(fs.files), frames, dir, gzip)
  {
    var layout: Option<Layout> := None;
    var outStreams: Option<seq<PixelOutputStream>> := None;
    var count := 0;
    for k := 0 to |frames|
      invariant count == k
      invariant Progress(fs, old(fs.files), frames, k, layout, outStreams, dir, gzip)
      invariant outStreams.Some? ==> forall j :: 0 <= j < |outStreams.value| ==> fresh(outStreams.value[j])
    {
      var stop;
      layout, outStreams, stop := SliceImage(fs, frames, k, dir, gzip, layout, outStreams, old(fs.files));
      if stop.Some? {
        return stop.value;
      }
      count := count + 1;
    }
    if outStreams.None? {
      // `out_streams.as_mut().unwrap()` before any image opened the streams
      return Panic("called `Option::unwrap()` on a `None` value");
    }
    var lay := layout.value;
    RowPathsDistinct(dir, lay.height);
    CloseAll(outStreams.value, fs, RowPaths(dir, lay.height), gzip,
             RowFiles(frames, |frames|, lay.height, lay.heightStride, gzip));
    Finish(fs.files, old(fs.files), frames, |frames|, dir, gzip);
    // `count` is positive here: the `No images found` error is never returned
    var paths := seq(|outStreams.value|, j requires 0 <= j < |outStreams.value| => outStreams.value[j].path);
    assert paths == RowPaths(dir, lay.height);
    r := Ok(SliceResult(paths, lay, |frames|));
  }

  /** One turn of the loop over images: image `k` is checked against the
      layout, which the first image fixes and with which it opens the row
      streams, and its rows are written. `stop` is the outcome when slicing
      stops at this image. */
  method SliceImage(fs: Streams.FileSystem, frames: seq<Frame>, k: nat, dir: string, gzip: Streams.Flate,
                    layout: Option<Layout>, outStreams: Option<seq<PixelOutputStream>>,
                    ghost start: map<string, seq<byte>>)
    returns (layout': Option<Layout>, outStreams': Option<seq<PixelOutputStream>>,
             stop: Option<Outcome<SliceResult>>)
    requires k < |frames|
    requires Progress(fs, start, frames, k, layout, outStreams, dir, gzip)
    modifies fs, Objects(outStreams)
    ensures outStreams.Some? ==> outStreams' == outStreams
    ensures outStreams.None? && outStreams'.Some? ==>
              forall j :: 0 <= j < |outStreams'.value| ==> fresh(outStreams'.value[j])
    ensures stop.None? ==> Progress(fs, start, frames, k + 1, layout', outStreams', dir, gzip)
    ensures stop.Some? ==> stop.value == TimeSliced(frames, dir)
    ensures stop.Some? && !stop.value.Panic? ==> fs.files == SlicedRows(start, frames, dir, gzip)
  {
    ghost var lay0 := frames[0].layout;
    ghost var paths := RowPaths(dir, lay0.height);
    RowPathsDistinct(dir, lay0.height);
    var frame := frames[k];
    var lay: Layout;
    if layout.Some? {
      if frame.layout != layout.value {
        DropStreams(fs, frames, k, dir, gzip, layout, outStreams, start);
        StopsAt(frames, k);
        return layout, outStreams, Some(Err("Image layout does not fit!"));
      }
      lay := layout.value;
    } else {
      lay := frame.layout;
    }
    layout' := Some(lay);
    outStreams' := outStreams;
    if outStreams'.None? {
      var streams := OpenStreams(fs, dir, lay.height, gzip);
      outStreams' := Some(streams);
      NoRowsYet(frames, lay.height, lay.heightStride, gzip);
    }
    var stride := lay.heightStride;
    var ok := WriteRows(outStreams'.value, frames, k, stride, fs, paths, gzip);
    if !ok {
      StopsAt(frames, k);
      return layout', outStreams', Some(Panic("range end index out of range for slice"));
    }
    ProgressNext(fs, start, frames, k, layout', outStreams', dir, gzip);
    stop := None;
  }

  /** Returning the error for image `k`, whose layout is not the first
      image's, drops the streams, which flushes their buffers: the files
      are `SlicedRows`. */
  method DropStreams(fs: Streams.FileSystem, frames: seq<Frame>, k: nat, dir: string, gzip: Streams.Flate,
                     layout: Option<Layout>, outStreams: Option<seq<PixelOutputStream>>,
                     ghost start: map<string, seq<byte>>)
    requires 0 < k < |frames| && frames[k].layout != frames[0].layout
    requires Progress(fs, start, frames, k, layout, outStreams, dir, gzip)
    modifies fs, Objects(outStreams)
    ensures fs.files == SlicedRows(start, frames, dir, gzip)
  {
    ghost var lay := frames[0].layout;
    RowPathsDistinct(dir, lay.height);
    CloseAll(outStreams.value, fs, RowPaths(dir, lay.height), gzip,
             RowFiles(frames, k, lay.height, lay.heightStride, gzip));
    Finish(fs.files, start, frames, k, dir, gzip);
  }

  /** An image whose rows fit and were written extends the progress by one. */
  lemma ProgressNext(fs: Streams.FileSystem, start: map<string, seq<byte>>, frames: seq<Frame>, k: nat,
                     layout: Option<Layout>, outStreams: Option<seq<PixelOutputStream>>,
                     dir: string, gzip: Streams.Flate)
    requires k < |frames|
    requires var lay := frames[0].layout;
      var paths := RowPaths(dir, lay.height);
      && layout == Some(lay) && outStreams.Some?
      && (forall j :: 0 <= j < k ==> RowsFit(frames[j], lay))
      && RowsFit(frames[k], lay)
      && fs.files == Slicer.PutFiles(start, paths, Empties(lay.height), lay.height)
      && Buffered(outStreams.value, fs, paths, gzip, RowFiles(frames, k + 1, lay.height, lay.heightStride, gzip))
    ensures Progress(fs, start, frames, k + 1, layout, outStreams, dir, gzip)
  {
  }

  /** Slicing that stopped at image `k`, the first whose rows do not fit,
      after the streams were closed: the files are `SlicedRows`. */
  lemma Finish(files: map<string, seq<byte>>, start: map<string, seq<byte>>, frames: seq<Frame>, k: nat,
               dir: string, gzip: Streams.Flate)
    requires 0 < k <= |frames|
    requires forall j :: 0 <= j < k ==> RowsFit(frames[j], frames[0].layout)
    requires k < |frames| ==> !RowsFit(frames[k], frames[0].layout)
    requires var lay := frames[0].layout;
      var paths := RowPaths(dir, lay.height);
      files == Slicer.PutFiles(Slicer.PutFiles(start, paths, Empties(lay.height), lay.height),
                          paths, RowFiles(frames, k, lay.height, lay.heightStride, gzip), lay.height)
    ensures files == SlicedRows(start, frames, dir, gzip)
  {
    var lay := frames[0].layout;
    var paths := RowPaths(dir, lay.height);
    StopsAt(frames, k);
    RowPathsDistinct(dir, lay.height);
    Slicer.PutTwice(start, paths, Empties(lay.height),
                    RowFiles(frames, k, lay.height, lay.heightStride, gzip), lay.height);
  }

  // ---------------------------------------------------------------------
  // Reading the row files back

  /** Reading row file `r` back gives row `r` of every sliced image, in
      image order. */
  lemma RowFileReadBack(frames: seq<Frame>, r: nat, stride: nat, gzip: Streams.Flate)
    requires Streams.Lossless(gzip) && Fits(GzipAll(gzip, BandChunks(frames, r, stride)))
    ensures Streams.DecodeAll(RowFile(frames, |frames|, r, stride, gzip), 0, gzip) == BandChunks(frames, r, stride)
  {
    var codecs := GzipCodecs(gzip);
    assert GzipAll(gzip, BandChunks(frames, r, stride))
        == Streams.CompressAll(codecs, GZIP_DEFAULT, BandChunks(frames, r, stride));
    Slicer.BandFileReadBack(frames, r, stride, codecs, GZIP_DEFAULT);
  }

  /** The time slices transpose back: the `k`-th chunk read from each row
      file, in row order, is image `k`'s rows, its samples up to
      `height * height_stride`. */
  lemma Untranspose(frames: seq<Frame>, k: nat, height: nat, stride: nat, gzip: Streams.Flate)
    requires k < |frames| && height * stride <= |frames[k].samples|
    requires Streams.Lossless(gzip)
    requires forall r :: 0 <= r < height ==> Fits(GzipAll(gzip, BandChunks(frames, r, stride)))
    ensures forall r :: 0 <= r < height ==>
              k < |Streams.DecodeAll(RowFile(frames, |frames|, r, stride, gzip), 0, gzip)|
    ensures Concat(seq(height, r requires 0 <= r < height =>
                         Streams.DecodeAll(RowFile(frames, |frames|, r, stride, gzip), 0, gzip)[k]))
         == frames[k].samples[..height * stride]
  {
    forall r | 0 <= r < height
      ensures Streams.DecodeAll(RowFile(frames, |frames|, r, stride, gzip), 0, gzip) == BandChunks(frames, r, stride)
    {
      RowFileReadBack(frames, r, stride, gzip);
    }
    var read := seq(height, r requires 0 <= r < height =>
                      Streams.DecodeAll(RowFile(frames, |frames|, r, stride, gzip), 0, gzip)[k]);
    assert read == Bands(frames[k].samples, stride, height);
    BandsPrefix(frames[k].samples, stride, height);
    OffsetProduct(height, stride);
  }
}
