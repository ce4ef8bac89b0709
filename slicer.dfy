/** Time slicing: every frame is cut into bands of consecutive samples, and
    band `i` of frame `k` becomes the `k`-th chunk of band file `i`, so that
    each band file holds one region of the scene through time. The band
    size is set by a `SliceLength` applied to the first frame's layout. */
module Slicer {
  import opened Common
  import opened Framing
  import opened Streams
  import opened Banding

  // ---------------------------------------------------------------------
  // SliceLength

  /** Bands of `n` rows, of `n` pixels, or `n` bands per frame. */
  datatype SliceLength = Rows(n: nat) | Pixels(n: nat) | Count(n: nat)

  /** One past the largest `usize`. */
  const USIZE_LIMIT: nat := USIZE_MAX + 1

  /** `(a as f32 / n as f32).ceil() as usize`, without f32 rounding: the
      ceiling of the quotient; for `n == 0`, `0/0` is NaN, which the cast
      turns into 0, and any other quotient is infinite, which it saturates. */
  function CeilDivF32(a: nat, n: nat): (q: nat)
    ensures n > 0 ==> q * n >= a && (q == 0 || (q - 1) * n < a)
    ensures n == 0 ==> q == (if a == 0 then 0 else USIZE_MAX)
  {
    if n == 0 then (if a == 0 then 0 else USIZE_MAX) else CeilDiv(a, n)
  }

  /** `SliceLength::bytes`: the number of samples per band. */
  function SliceBytes(sl: SliceLength, lay: Layout): nat
  {
    match sl
    case Pixels(n) => n * lay.widthStride
    case Count(n) => CeilDivF32(lay.heightStride * lay.height, n)
    case Rows(n) => n * lay.heightStride
  }

  /** `SliceLength::count`: the number of bands. */
  function SliceCount(sl: SliceLength, lay: Layout): nat
  {
    match sl
    case Pixels(n) => CeilDivF32(lay.height * lay.width, n)
    case Count(n) => n
    case Rows(n) => CeilDivF32(lay.height, n)
  }

  /** The bands cover the frame: their count times their size is at least
      the number of samples of a `height` by `height_stride` frame, for rows
      and counts, and for pixels when a row is exactly its pixels. */
  lemma SliceCoverage(sl: SliceLength, lay: Layout)
    requires sl.n > 0
    requires sl.Pixels? ==> lay.heightStride == lay.width * lay.widthStride
    ensures SliceCount(sl, lay) * SliceBytes(sl, lay) >= lay.height * lay.heightStride
  {
    var q := SliceCount(sl, lay);
    match sl
    case Rows(n) =>
      CoverScaled(lay.height, q, n, lay.heightStride);
    case Pixels(n) =>
      CoverScaled(lay.height * lay.width, q, n, lay.widthStride);
      MulAssoc(lay.height, lay.width, lay.widthStride);
    case Count(n) =>
      assert q * SliceBytes(sl, lay) == SliceBytes(sl, lay) * n;
  }

  /** `q` groups of `n` that cover `a` units still cover them when every unit
      is `w` samples wide. */
  lemma CoverScaled(a: nat, q: nat, n: nat, w: nat)
    requires q * n >= a
    ensures q * (n * w) >= a * w
  {
    MulMono(a, q * n, w);
    MulAssoc(q, n, w);
  }

  /** With rows or pixels, every band starts within a frame of `height` rows
      of `height_stride` samples, so no band's slice can panic. */
  lemma BandStartsInside(sl: SliceLength, lay: Layout, i: nat)
    requires !sl.Count? && sl.n > 0 && i < SliceCount(sl, lay)
    requires sl.Pixels? ==> lay.heightStride == lay.width * lay.widthStride
    ensures i * SliceBytes(sl, lay) <= lay.height * lay.heightStride
  {
    var q := SliceCount(sl, lay);
    match sl
    case Rows(n) =>
      StartScaled(lay.height, q, n, i, lay.heightStride);
    case Pixels(n) =>
      StartScaled(lay.height * lay.width, q, n, i, lay.widthStride);
      MulAssoc(lay.height, lay.width, lay.widthStride);
  }

  /** Group `i` of the `q` groups of `n` that `a` units need starts inside
      them, also when every unit is `w` samples wide. */
  lemma StartScaled(a: nat, q: nat, n: nat, i: nat, w: nat)
    requires i < q && (q - 1) * n < a
    ensures i * (n * w) <= a * w
  {
    MulMono(i, q - 1, n);
    MulMono(i * n, a, w);
    MulAssoc(i, n, w);
  }

  /** The largest allocation a `Vec` may ask for: `isize::MAX` bytes. */
  const ISIZE_MAX: nat := 0x7FFF_FFFF_FFFF_FFFF

  /** The size of one `(usize, PathBuf)` entry of the band list on a 64-bit target. */
  const PATH_ENTRY_BYTES: nat := 32

  /** Collecting the `count` band paths reserves room for all of them at
      once; a list longer than `isize::MAX` bytes panics with "capacity
      overflow" before any band is written. */
  predicate PathsOverflow(count: nat)
  {
    count * PATH_ENTRY_BYTES > ISIZE_MAX
  }

  /** `rows/0` and `pixels/0` on a frame with pixels ask for `usize::MAX`
      bands, so collecting their paths panics. */
  lemma ZeroLengthOverflows(sl: SliceLength, lay: Layout)
    requires !sl.Count? && sl.n == 0
    requires sl.Rows? ==> lay.height > 0
    requires sl.Pixels? ==> lay.height * lay.width > 0
    ensures SliceCount(sl, lay) == USIZE_MAX && PathsOverflow(SliceCount(sl, lay))
  {
  }

  /** `count/7` on a frame of 10 samples: bands of 2 samples, and band 6
      starts at 12, past the end of the samples. */
  lemma CountBandPastEnd()
    ensures var lay := Layout(1, 1, 10, 1, 1, 10);
      && SliceBytes(Count(7), lay) == 2 && SliceCount(Count(7), lay) == 7
      && 6 * SliceBytes(Count(7), lay) > lay.height * lay.heightStride
  {
  }

  /** A band count for `count/n` that never starts a band past the end: as
      many bands of `bytes` samples as the samples need, at most `n`. */
  function CountIntended(n: nat, lay: Layout): (c: nat)
    ensures c <= n
  {
    var bytes := SliceBytes(Count(n), lay);
    if bytes == 0 then 0 else Min(n, CeilDiv(lay.heightStride * lay.height, bytes))
  }

  /** With the corrected count every band starts inside the samples, and the
      bands still cover all of them. */
  lemma CountIntendedInside(n: nat, lay: Layout, i: nat)
    requires n > 0
    ensures i < CountIntended(n, lay) ==> i * SliceBytes(Count(n), lay) < lay.height * lay.heightStride
    ensures CountIntended(n, lay) * SliceBytes(Count(n), lay) >= lay.height * lay.heightStride
  {
    var len := lay.heightStride * lay.height;
    var bytes := SliceBytes(Count(n), lay);
    var c := CountIntended(n, lay);
    assert bytes * n >= len;
    if bytes > 0 {
      var q := CeilDiv(len, bytes);
      if i < c {
        MulMono(i, q - 1, bytes);
      }
      if c == n {
        assert n * bytes >= len;
      }
    } else {
      assert len == 0;
    }
  }

  const SliceKeywords: set<string> := {"rows", "pixels", "count"}

  function SliceKeyword(sl: SliceLength): string
  {
    match sl
    case Rows(_) => "rows"
    case Pixels(_) => "pixels"
    case Count(_) => "count"
  }

  /** `SliceLength::from_str` on `mode/number`. The number is required and
      parsed before the mode is looked at: a missing or malformed number
      panics whatever the mode; an unknown mode is an error. */
  function ParseSliceLength(s: string): (r: Outcome<SliceLength>)
    ensures var parts := Split(s, '/');
      && (r.Panic? <==> |parts| < 2 || ParseUnsigned(parts[1], USIZE_LIMIT).None?)
      && (r.Err? <==> !r.Panic? && parts[0] !in SliceKeywords)
      && (r.Ok? ==> SliceKeyword(r.value) == parts[0] && r.value.n == ParseUnsigned(parts[1], USIZE_LIMIT).value)
  {
    var parts := Split(s, '/');
    if |parts| < 2 then Panic("Unexpected format in " + s)
    else
      match ParseUnsigned(parts[1], USIZE_LIMIT)
      case None => Panic("Unable to parse slicing numeric part: " + s)
      case Some(value) =>
        if parts[0] == "rows" then Ok(Rows(value))
        else if parts[0] == "pixels" then Ok(Pixels(value))
        else if parts[0] == "count" then Ok(Count(value))
        else Err("Not a valid slicing mode: " + s + ". Must be one of (rows|pixels|count)/<number>")
  }

  /** Every slice length is read back from `mode/number`. */
  lemma SliceLengthParses(sl: SliceLength)
    requires sl.n < USIZE_LIMIT
    ensures ParseSliceLength(SliceKeyword(sl) + "/" + Decimal(sl.n)) == Ok(sl)
  {
    SplitTwo(SliceKeyword(sl), '/', Decimal(sl.n));
    ParseDecimal(sl.n, USIZE_LIMIT);
  }

  // ---------------------------------------------------------------------
  // Bands

  /** No band of the first `count` starts past the end of the buffer, so
      taking each of them as a slice does not panic. */
  predicate Sliceable(samples: seq<byte>, stride: nat, count: nat)
  {
    count == 0 || Offset(count - 1, stride) <= |samples|
  }

  /** Every one of the first `count` bands of a sliceable buffer starts inside it. */
  lemma SliceableBand(samples: seq<byte>, stride: nat, count: nat, i: nat)
    requires Sliceable(samples, stride, count) && i < count
    ensures i * stride <= |samples|
  {
    OffsetMono(i, count - 1, stride);
    OffsetProduct(i, stride);
  }

  // ---------------------------------------------------------------------
  // Band files

  /** `temp-{id}-{i:05}.bin` in the temporary directory. */
  function BandPath(dir: string, id: string, i: nat): string
  {
    dir + "/temp-" + id + "-" + ZeroPadded(i, 5) + ".bin"
  }

  function BandPaths(dir: string, id: string, count: nat): (ps: seq<string>)
    ensures |ps| == count
  {
    seq(count, i requires 0 <= i < count => BandPath(dir, id, i))
  }

  /** Entry `i` of `BandPaths` is the path of band file `i`. */
  lemma BandPathsAt(dir: string, id: string, count: nat, i: nat)
    requires i < count
    ensures BandPaths(dir, id, count)[i] == BandPath(dir, id, i)
  {
  }

  /** Different bands have different files. */
  lemma BandPathInjective(dir: string, id: string, i: nat, j: nat)
    requires BandPath(dir, id, i) == BandPath(dir, id, j)
    ensures i == j
  {
    var pre := dir + "/temp-" + id + "-";
    var a := ZeroPadded(i, 5);
    var b := ZeroPadded(j, 5);
    assert pre + a + ".bin" == pre + b + ".bin";
    assert |a| == |b|;
    assert a == (pre + a + ".bin")[|pre|..|pre| + |a|];
    assert b == (pre + b + ".bin")[|pre|..|pre| + |b|];
    ParseZeroPadded(i, 5, i + j + 1);
    ParseZeroPadded(j, 5, i + j + 1);
  }

  /** No path occurs twice. */
  predicate Distinct(paths: seq<string>)
  {
    forall a, b :: 0 <= a < b < |paths| ==> paths[a] != paths[b]
  }

  /** The band files of one slicing run are different files. */
  lemma BandPathsDistinct(dir: string, id: string, count: nat)
    ensures Distinct(BandPaths(dir, id, count))
  {
    var ps := BandPaths(dir, id, count);
    forall a, b | 0 <= a < b < count
      ensures ps[a] != ps[b]
    {
      BandPathsAt(dir, id, count, a);
      BandPathsAt(dir, id, count, b);
      if ps[a] == ps[b] {
        BandPathInjective(dir, id, a, b);
      }
    }
  }

  /** The contents of band file `i` after the first `n` frames were sliced:
      one record per frame, appended frame by frame. */
  function BandFile(frames: seq<Frame>, n: nat, i: nat, stride: nat, codecs: Codecs, c: Compression): seq<byte>
    requires n <= |frames|
  {
    if n == 0 then []
    else BandFile(frames, n - 1, i, stride, codecs, c) + Record(Compress(codecs, c, Band(frames[n - 1].samples, i, stride)))
  }

  /** Band file `i` is the framing of the compressed bands `i` of the first
      `n` frames, in frame order. */
  lemma {:induction false} BandFileRecords(frames: seq<Frame>, n: nat, i: nat, stride: nat, codecs: Codecs, c: Compression)
    requires n <= |frames|
    ensures BandFile(frames, n, i, stride, codecs, c) == Records(CompressAll(codecs, c, BandChunks(frames[..n], i, stride)))
  {
    if n > 0 {
      BandFileRecords(frames, n - 1, i, stride, codecs, c);
      assert BandChunks(frames[..n], i, stride) == BandChunks(frames[..n - 1], i, stride) + [Band(frames[n - 1].samples, i, stride)];
      WrittenFile(codecs, c, BandChunks(frames[..n - 1], i, stride), Band(frames[n - 1].samples, i, stride));
    }
  }

  /** A frame can be sliced as the first frame fixes it: it has the first
      frame's layout, and none of its `count` bands of `stride` samples
      starts past its samples. */
  predicate Good(frame: Frame, lay: Layout, stride: nat, count: nat)
  {
    frame.layout == lay && Sliceable(frame.samples, stride, count)
  }

  /** Where slicing from frame `k` on stops: the first frame that is not
      `Good`, or the number of frames. */
  function GoodFrom(frames: seq<Frame>, lay: Layout, stride: nat, count: nat, k: nat): (n: nat)
    requires k <= |frames|
    ensures k <= n <= |frames|
    ensures forall j :: k <= j < n ==> Good(frames[j], lay, stride, count)
    ensures n < |frames| ==> !Good(frames[n], lay, stride, count)
    decreases |frames| - k
  {
    if k == |frames| || !Good(frames[k], lay, stride, count) then k
    else GoodFrom(frames, lay, stride, count, k + 1)
  }

  /** The contents of the first `count` band files after the first `n` frames. */
  function BandFiles(frames: seq<Frame>, n: nat, count: nat, stride: nat, codecs: Codecs, c: Compression): (fs: seq<seq<byte>>)
    requires n <= |frames|
    ensures |fs| == count
  {
    if count == 0 then [] else BandFiles(frames, n, count - 1, stride, codecs, c) + [BandFile(frames, n, count - 1, stride, codecs, c)]
  }

  /** Entry `i` of `BandFiles` is band file `i`. */
  lemma {:induction false} BandFilesAt(frames: seq<Frame>, n: nat, count: nat, stride: nat, codecs: Codecs, c: Compression, i: nat)
    requires n <= |frames| && i < count
    ensures BandFiles(frames, n, count, stride, codecs, c)[i] == BandFile(frames, n, i, stride, codecs, c)
  {
    if i < count - 1 {
      BandFilesAt(frames, n, count - 1, stride, codecs, c, i);
    }
  }

  /** The files once the first `hi` of `paths` were set to the matching
      `contents` over `files`, whatever they held before. */
  ghost function PutFiles(files: map<string, seq<byte>>, paths: seq<string>, contents: seq<seq<byte>>, hi: nat): map<string, seq<byte>>
    requires hi <= |paths| && hi <= |contents|
  {
    if hi == 0 then files
    else PutFiles(files, paths, contents, hi - 1)[paths[hi - 1] := contents[hi - 1]]
  }

  /** `PutFiles` sets one more file for each step up of `hi`. */
  lemma PutStep(files: map<string, seq<byte>>, paths: seq<string>, contents: seq<seq<byte>>, hi: nat)
    requires hi < |paths| && hi < |contents|
    ensures PutFiles(files, paths, contents, hi + 1) == PutFiles(files, paths, contents, hi)[paths[hi] := contents[hi]]
  {
  }

  /** After `PutFiles`, each of the first `hi` paths holds its contents. */
  lemma {:induction false} PutBand(files: map<string, seq<byte>>, paths: seq<string>, contents: seq<seq<byte>>,
                                   hi: nat, i: nat)
    requires hi <= |paths| && hi <= |contents| && Distinct(paths) && i < hi
    ensures var files' := PutFiles(files, paths, contents, hi);
      paths[i] in files' && files'[paths[i]] == contents[i]
  {
    if i < hi - 1 {
      PutBand(files, paths, contents, hi - 1, i);
    }
  }

  /** `PutFiles` leaves every file that is not one of the first `hi` paths as it
      was, present or absent. */
  lemma {:induction false} PutOther(files: map<string, seq<byte>>, paths: seq<string>, contents: seq<seq<byte>>,
                                    hi: nat, p: string)
    requires hi <= |paths| && hi <= |contents|
    requires forall j :: 0 <= j < hi ==> paths[j] != p
    ensures var files' := PutFiles(files, paths, contents, hi);
      && (p in files' <==> p in files)
      && (p in files ==> files'[p] == files[p])
  {
    if hi > 0 {
      PutOther(files, paths, contents, hi - 1, p);
    }
  }

  /** Setting a file outside the first `hi` paths commutes with `PutFiles`. */
  lemma {:induction false} PutSwap(files: map<string, seq<byte>>, paths: seq<string>, contents: seq<seq<byte>>,
                                   hi: nat, p: string, v: seq<byte>)
    requires hi <= |paths| && hi <= |contents|
    requires forall j :: 0 <= j < hi ==> paths[j] != p
    ensures PutFiles(files[p := v], paths, contents, hi) == PutFiles(files, paths, contents, hi)[p := v]
  {
    if hi > 0 {
      var q := paths[hi - 1];
      var b := contents[hi - 1];
      calc {
        PutFiles(files[p := v], paths, contents, hi);
        PutFiles(files[p := v], paths, contents, hi - 1)[q := b];
        { PutSwap(files, paths, contents, hi - 1, p, v); }
        PutFiles(files, paths, contents, hi - 1)[p := v][q := b];
        { Commute(PutFiles(files, paths, contents, hi - 1), p, v, q, b); }
        PutFiles(files, paths, contents, hi - 1)[q := b][p := v];
      }
    }
  }

  /** Updates of two different keys can be made in either order. */
  lemma Commute(files: map<string, seq<byte>>, p: string, v: seq<byte>, q: string, w: seq<byte>)
    requires p != q
    ensures files[p := v][q := w] == files[q := w][p := v]
  {
  }

  /** Setting the same files twice keeps only the second contents. */
  lemma {:induction false} PutTwice(files: map<string, seq<byte>>, paths: seq<string>,
                                    first: seq<seq<byte>>, second: seq<seq<byte>>, hi: nat)
    requires hi <= |paths| && hi <= |first| && hi <= |second| && Distinct(paths)
    ensures PutFiles(PutFiles(files, paths, first, hi), paths, second, hi) == PutFiles(files, paths, second, hi)
  {
    if hi > 0 {
      var p := paths[hi - 1];
      var inner := PutFiles(files, paths, first, hi - 1);
      var v := first[hi - 1];
      var w := second[hi - 1];
      calc {
        PutFiles(PutFiles(files, paths, first, hi), paths, second, hi);
        PutFiles(inner[p := v], paths, second, hi - 1)[p := w];
        { PutSwap(inner, paths, second, hi - 1, p, v); }
        PutFiles(inner, paths, second, hi - 1)[p := v][p := w];
        { Override(PutFiles(inner, paths, second, hi - 1), p, v, w); }
        PutFiles(inner, paths, second, hi - 1)[p := w];
        { PutTwice(files, paths, first, second, hi - 1); }
        PutFiles(files, paths, second, hi - 1)[p := w];
      }
    }
  }

  /** A second update of the same key hides the first. */
  lemma Override(files: map<string, seq<byte>>, p: string, v: seq<byte>, w: seq<byte>)
    ensures files[p := v][p := w] == files[p := w]
  {
  }

  /** Appends band `i` of frame `k` to band file `i`, for every band file,
      as the parallel loop over the band files does; each file is created
      for the first frame and appended to afterwards. False when a band
      starts past the samples, which panics in the slice. Otherwise the band
      files hold the first `k + 1` frames over the files `initial` from
      before the first frame. */
  method WriteBands(fs: FileSystem, frames: seq<Frame>, k: nat, paths: seq<string>,
                    compression: Compression, codecs: Codecs, stride: nat, ghost initial: map<string, seq<byte>>)
    returns (ok: bool)
    requires k < |frames| && Distinct(paths)
    requires k == 0 ==> fs.files == initial
    requires k > 0 ==> fs.files == PutFiles(initial, paths, BandFiles(frames, k, |paths|, stride, codecs, compression), |paths|)
    modifies fs
    ensures ok <==> Sliceable(frames[k].samples, stride, |paths|)
    ensures ok ==> fs.files == PutFiles(initial, paths, BandFiles(frames, k + 1, |paths|, stride, codecs, compression), |paths|)
  {
    ghost var contents := BandFiles(frames, k + 1, |paths|, stride, codecs, compression);
    for i := 0 to |paths|
      invariant Sliceable(frames[k].samples, stride, i)
      invariant fs.files == PutFiles(old(fs.files), paths, contents, i)
    {
      var inside := AppendBand(fs, frames, k, i, paths, compression, codecs, stride, initial, old(fs.files));
      if !inside {
        NotSliceable(frames[k].samples, stride, |paths|, i);
        return false;
      }
    }
    if k > 0 {
      PutTwice(initial, paths, BandFiles(frames, k, |paths|, stride, codecs, compression), contents, |paths|);
    }
    return true;
  }

  /** A band that starts past the samples means the frame is not sliceable. */
  lemma NotSliceable(samples: seq<byte>, stride: nat, count: nat, i: nat)
    requires i < count && Offset(i, stride) > |samples|
    ensures !Sliceable(samples, stride, count)
  {
    if Sliceable(samples, stride, count) {
      OffsetMono(i, count - 1, stride);
    }
  }

  /** Appends band `i` of frame `k` to band file `i`, through a stream that
      creates the file for the first frame and appends afterwards, unless
      the band starts past the samples, where the slice panics. Once
      appended, band files `0` to `i` of frame `k` are written over the
      files `first` the frame started from. */
  method AppendBand(fs: FileSystem, frames: seq<Frame>, k: nat, i: nat, paths: seq<string>,
                    compression: Compression, codecs: Codecs, stride: nat,
                    ghost initial: map<string, seq<byte>>, ghost first: map<string, seq<byte>>)
    returns (inside: bool)
    requires k < |frames| && i < |paths| && Distinct(paths) && Sliceable(frames[k].samples, stride, i)
    requires k > 0 ==> first == PutFiles(initial, paths, BandFiles(frames, k, |paths|, stride, codecs, compression), |paths|)
    requires fs.files == PutFiles(first, paths, BandFiles(frames, k + 1, |paths|, stride, codecs, compression), i)
    modifies fs
    ensures inside <==> Offset(i, stride) <= |frames[k].samples|
    ensures inside ==> Sliceable(frames[k].samples, stride, i + 1)
    ensures inside ==> fs.files == PutFiles(first, paths, BandFiles(frames, k + 1, |paths|, stride, codecs, compression), i + 1)
  {
    var samples := frames[k].samples;
    // `(i + 1) * stride`, the end of the band before it is cut to the samples
    var start := i * stride;
    var end := Min(start + stride, |samples|);
    OffsetProduct(i, stride);
    if start > end {
      return false;
    }
    ghost var contents := BandFiles(frames, k + 1, |paths|, stride, codecs, compression);
    if k > 0 {
      BandBefore(initial, paths, frames, k, i, stride, codecs, compression);
    }
    assert samples[start..end] == Band(samples, i, stride);
    var stream := new PixelOutputStream.Open(fs, paths[i], compression, codecs, k > 0);
    var _ := stream.WriteChunk(samples[start..end]);
    BandFilesAt(frames, k + 1, |paths|, stride, codecs, compression, i);
    PutStep(first, paths, contents, i);
    return true;
  }

  /** While frame `k` is appended band by band, a band file not yet reached
      still holds the bands of the frames before `k`. */
  lemma BandBefore(initial: map<string, seq<byte>>, paths: seq<string>, frames: seq<Frame>, k: nat, i: nat,
                   stride: nat, codecs: Codecs, c: Compression)
    requires k < |frames| && i < |paths| && Distinct(paths)
    ensures var files := PutFiles(PutFiles(initial, paths, BandFiles(frames, k, |paths|, stride, codecs, c), |paths|),
                             paths, BandFiles(frames, k + 1, |paths|, stride, codecs, c), i);
      paths[i] in files && files[paths[i]] == BandFile(frames, k, i, stride, codecs, c)
  {
    var before := BandFiles(frames, k, |paths|, stride, codecs, c);
    PutOther(PutFiles(initial, paths, before, |paths|), paths, BandFiles(frames, k + 1, |paths|, stride, codecs, c), i, paths[i]);
    PutBand(initial, paths, before, |paths|, i);
    BandFilesAt(frames, k, |paths|, stride, codecs, c, i);
  }

  /** Where slicing a non-empty list of frames stops: the first frame that
      is not `Good` for the first frame's layout and the band size and count
      it gives, or the number of frames. */
  function SliceStop(frames: seq<Frame>, sl: SliceLength): (n: nat)
    requires |frames| > 0
    ensures n <= |frames|
  {
    var lay := frames[0].layout;
    GoodFrom(frames, lay, SliceBytes(sl, lay), SliceCount(sl, lay), 0)
  }

  /** What slicing a non-empty list of frames returns: a panic when the
      band paths cannot be collected, and otherwise decided by the frame
      slicing stops at. */
  function Sliced(frames: seq<Frame>, sl: SliceLength, dir: string, id: string): Outcome<SliceResult>
    requires |frames| > 0
  {
    var lay := frames[0].layout;
    var n := SliceStop(frames, sl);
    if PathsOverflow(SliceCount(sl, lay)) then Panic("capacity overflow")
    else if n == |frames| then Ok(SliceResult(BandPaths(dir, id, SliceCount(sl, lay)), lay, |frames|))
    else if frames[n].layout != lay then Err("Image layout does not fit!")
    else Panic("slice index starts past the end of the samples")
  }

  /** Slicing succeeds exactly when the band paths can be collected and
      every frame is `Good`, and then returns the band paths in band order,
      the first layout and the frame count. It is an error only when some
      frame has another layout than the first, and it panics only when the
      band paths overflow or some frame of the first layout has a band that
      starts past its samples. */
  lemma SlicedMeaning(frames: seq<Frame>, sl: SliceLength, dir: string, id: string)
    requires |frames| > 0
    ensures var lay := frames[0].layout;
      var r := Sliced(frames, sl, dir, id);
      && (r.Ok? <==> !PathsOverflow(SliceCount(sl, lay)) &&
                     forall j :: 0 <= j < |frames| ==> Good(frames[j], lay, SliceBytes(sl, lay), SliceCount(sl, lay)))
      && (r.Ok? ==> r.value == SliceResult(BandPaths(dir, id, SliceCount(sl, lay)), lay, |frames|))
      && (r.Err? ==> r.message == "Image layout does not fit!" &&
                     exists j :: 0 < j < |frames| && frames[j].layout != lay)
      && (r.Panic? ==> PathsOverflow(SliceCount(sl, lay)) ||
                       exists j :: 0 <= j < |frames| && frames[j].layout == lay &&
                                   !Sliceable(frames[j].samples, SliceBytes(sl, lay), SliceCount(sl, lay)))
  {
    var lay := frames[0].layout;
    var n := SliceStop(frames, sl);
    assert n < |frames| ==> !Good(frames[n], lay, SliceBytes(sl, lay), SliceCount(sl, lay));
  }

  /** The files slicing leaves unless it panics: band file `i` holds band `i`
      of each frame before the stop, and every other file is as it was. */
  ghost function SlicedFiles(before: map<string, seq<byte>>, frames: seq<Frame>, sl: SliceLength,
                             dir: string, id: string, codecs: Codecs, c: Compression): map<string, seq<byte>>
    requires |frames| > 0
  {
    var lay := frames[0].layout;
    var count := SliceCount(sl, lay);
    PutFiles(before, BandPaths(dir, id, count), BandFiles(frames, SliceStop(frames, sl), count, SliceBytes(sl, lay), codecs, c), count)
  }

  /** What `SlicedFiles` holds, file by file. */
  lemma SlicedFilesHold(before: map<string, seq<byte>>, frames: seq<Frame>, sl: SliceLength,
                        dir: string, id: string, codecs: Codecs, c: Compression)
    requires |frames| > 0
    ensures var lay := frames[0].layout;
      var files := SlicedFiles(before, frames, sl, dir, id, codecs, c);
      && (forall i :: 0 <= i < SliceCount(sl, lay) ==>
            BandPath(dir, id, i) in files &&
            files[BandPath(dir, id, i)] == BandFile(frames, SliceStop(frames, sl), i, SliceBytes(sl, lay), codecs, c))
      && (forall p :: p !in BandPaths(dir, id, SliceCount(sl, lay)) ==>
            (p in files <==> p in before) && (p in before ==> files[p] == before[p]))
  {
    var lay := frames[0].layout;
    var n := SliceStop(frames, sl);
    var count := SliceCount(sl, lay);
    var stride := SliceBytes(sl, lay);
    var paths := BandPaths(dir, id, count);
    var contents := BandFiles(frames, n, count, stride, codecs, c);
    BandPathsDistinct(dir, id, count);
    forall i | 0 <= i < count
      ensures var files := PutFiles(before, paths, contents, count);
        BandPath(dir, id, i) in files && files[BandPath(dir, id, i)] == BandFile(frames, n, i, stride, codecs, c)
    {
      PutBand(before, paths, contents, count, i);
      BandFilesAt(frames, n, count, stride, codecs, c, i);
      BandPathsAt(dir, id, count, i);
    }
    forall p | p !in paths
      ensures var files := PutFiles(before, paths, contents, count);
        (p in files <==> p in before) && (p in before ==> files[p] == before[p])
    {
      PutOther(before, paths, contents, count, p);
    }
  }

  /** The first `k` frames were sliced: the layout, the band size and count
      and the band paths are those of the first frame once one was seen,
      the paths did not overflow, those frames are `Good`, and the band
      files hold their bands over `start`. */
  ghost predicate Progress(files: map<string, seq<byte>>, start: map<string, seq<byte>>, frames: seq<Frame>,
                           sl: SliceLength, k: nat, layout: Option<Layout>, slicing: Option<(nat, nat)>,
                           paths: Option<seq<string>>, dir: string, id: string, codecs: Codecs, c: Compression)
    requires k <= |frames|
  {
    if k == 0 then layout == None && slicing == None && paths == None && files == start
    else
      var lay := frames[0].layout;
      var stride := SliceBytes(sl, lay);
      var count := SliceCount(sl, lay);
      && layout == Some(lay) && slicing == Some((stride, count)) && paths == Some(BandPaths(dir, id, count))
      && !PathsOverflow(count)
      && (forall j :: 0 <= j < k ==> Good(frames[j], lay, stride, count))
      && files == PutFiles(start, BandPaths(dir, id, count), BandFiles(frames, k, count, stride, codecs, c), count)
  }

  /** `TimeSlicer::write_time_slices`. The first frame fixes the layout and,
      through `sl`, the band size and count, and with them the band paths,
      whose collection panics when there are too many of them. Each frame in turn is cut into bands and band `i` is appended to band
      file `i`. A frame with another layout stops with an error, leaving the
      files of the frames before it; a band starting past a frame's samples
      panics; no frames at all is an error. The file id, drawn at random by
      the source, is a parameter. */
  method WriteTimeSlices(fs: FileSystem, frames: seq<Frame>, dir: string, id: string,
                         compression: Compression, codecs: Codecs, sl: SliceLength)
    returns (r: Outcome<SliceResult>)
    modifies fs
    ensures |frames| == 0 ==> r == Err("No images found for given pattern") && fs.files == old(fs.files)
    ensures |frames| > 0 ==> r == Sliced(frames, sl, dir, id)
    ensures |frames| > 0 && !r.Panic? ==> fs.files == SlicedFiles(old(fs.files), frames, sl, dir, id, codecs, compression)
  {
    var layout: Option<Layout> := None;
    var slicing: Option<(nat, nat)> := None;
    var paths: Option<seq<string>> := None;
    var processed := 0;
    for k := 0 to |frames|
      invariant processed == k
      invariant Progress(fs.files, old(fs.files), frames, sl, k, layout, slicing, paths, dir, id, codecs, compression)
    {
      var stop;
      layout, slicing, paths, stop := SliceFrame(fs, frames, k, dir, id, compression, codecs, sl,
                                                 layout, slicing, paths, old(fs.files));
      if stop.Some? {
        return stop.value;
      }
      processed := processed + 1;
    }
    if processed == 0 {
      return Err("No images found for given pattern");
    }
    SlicedAll(fs.files, old(fs.files), frames, sl, layout, slicing, paths, dir, id, codecs, compression);
    r := Ok(SliceResult(BandPaths(dir, id, slicing.value.1), layout.value, |frames|));
  }

  /** One turn of the loop over frames: frame `k` is checked against the
      layout, which the first frame fixes with the band size and count and
      the band paths, and its bands are appended to the band files. `stop`
      is the outcome when slicing stops at this frame. */
  method SliceFrame(fs: FileSystem, frames: seq<Frame>, k: nat, dir: string, id: string,
                    compression: Compression, codecs: Codecs, sl: SliceLength,
                    layout: Option<Layout>, slicing: Option<(nat, nat)>, paths: Option<seq<string>>,
                    ghost start: map<string, seq<byte>>)
    returns (layout': Option<Layout>, slicing': Option<(nat, nat)>, paths': Option<seq<string>>,
             stop: Option<Outcome<SliceResult>>)
    requires k < |frames|
    requires Progress(fs.files, start, frames, sl, k, layout, slicing, paths, dir, id, codecs, compression)
    modifies fs
    ensures stop.None? ==> Progress(fs.files, start, frames, sl, k + 1, layout', slicing', paths', dir, id, codecs, compression)
    ensures stop.Some? ==> stop.value == Sliced(frames, sl, dir, id)
    ensures stop.Some? && !stop.value.Panic? ==> fs.files == SlicedFiles(start, frames, sl, dir, id, codecs, compression)
  {
    ghost var lay0 := frames[0].layout;
    ghost var stride0 := SliceBytes(sl, lay0);
    ghost var count0 := SliceCount(sl, lay0);
    var frame := frames[k];
    if layout.Some? && frame.layout != layout.value {
      StopsWith(frames, sl, lay0, stride0, count0, k, dir, id, start, codecs, compression);
      return layout, slicing, paths, Some(Err("Image layout does not fit!"));
    }
    layout' := layout;
    if layout'.None? {
      layout' := Some(frame.layout);
    }
    var lay := layout'.value;
    slicing' := slicing;
    if slicing'.None? {
      slicing' := Some((SliceBytes(sl, lay), SliceCount(sl, lay)));
    }
    var stride := slicing'.value.0;
    var count := slicing'.value.1;
    paths' := paths;
    if paths'.None? {
      if PathsOverflow(count) {
        return layout', slicing', paths', Some(Panic("capacity overflow"));
      }
      paths' := Some(BandPaths(dir, id, count));
    }
    assert lay == lay0 && stride == stride0 && count == count0 && paths'.value == BandPaths(dir, id, count0);
    BandPathsDistinct(dir, id, count);
    var ok := WriteBands(fs, frames, k, paths'.value, compression, codecs, stride, start);
    if !ok {
      StopsWith(frames, sl, lay0, stride0, count0, k, dir, id, start, codecs, compression);
      return layout', slicing', paths', Some(Panic("slice index starts past the end of the samples"));
    }
    ProgressNext(fs.files, start, frames, sl, k, layout', slicing', paths', dir, id, codecs, compression);
    stop := None;
  }

  /** A `Good` frame whose bands were appended extends the progress by one. */
  lemma ProgressNext(files: map<string, seq<byte>>, start: map<string, seq<byte>>, frames: seq<Frame>,
                     sl: SliceLength, k: nat, layout: Option<Layout>, slicing: Option<(nat, nat)>,
                     paths: Option<seq<string>>, dir: string, id: string, codecs: Codecs, c: Compression)
    requires k < |frames|
    requires var lay := frames[0].layout;
      var stride := SliceBytes(sl, lay);
      var count := SliceCount(sl, lay);
      && layout == Some(lay) && slicing == Some((stride, count)) && paths == Some(BandPaths(dir, id, count))
      && !PathsOverflow(count)
      && (forall j :: 0 <= j < k ==> Good(frames[j], lay, stride, count))
      && Good(frames[k], lay, stride, count)
      && files == PutFiles(start, BandPaths(dir, id, count), BandFiles(frames, k + 1, count, stride, codecs, c), count)
    ensures Progress(files, start, frames, sl, k + 1, layout, slicing, paths, dir, id, codecs, c)
  {
  }

  /** Slicing that went through every frame returns the layout and band
      paths it kept and leaves `SlicedFiles`. */
  lemma SlicedAll(files: map<string, seq<byte>>, start: map<string, seq<byte>>, frames: seq<Frame>,
                  sl: SliceLength, layout: Option<Layout>, slicing: Option<(nat, nat)>,
                  paths: Option<seq<string>>, dir: string, id: string, codecs: Codecs, c: Compression)
    requires |frames| > 0
    requires Progress(files, start, frames, sl, |frames|, layout, slicing, paths, dir, id, codecs, c)
    ensures layout.Some? && slicing.Some?
    ensures Sliced(frames, sl, dir, id) == Ok(SliceResult(BandPaths(dir, id, slicing.value.1), layout.value, |frames|))
    ensures files == SlicedFiles(start, frames, sl, dir, id, codecs, c)
  {
    var lay := frames[0].layout;
    StopsWith(frames, sl, lay, SliceBytes(sl, lay), SliceCount(sl, lay), |frames|, dir, id, start, codecs, c);
  }

  /** Slicing that stops at frame `k`, the first that is not `Good`, returns
      `Sliced` and leaves `SlicedFiles`, given the frames before `k`. */
  lemma StopsWith(frames: seq<Frame>, sl: SliceLength, lay: Layout, stride: nat, count: nat, k: nat,
                  dir: string, id: string, before: map<string, seq<byte>>, codecs: Codecs, c: Compression)
    requires k <= |frames| && |frames| > 0 && lay == frames[0].layout
    requires stride == SliceBytes(sl, lay) && count == SliceCount(sl, lay) && !PathsOverflow(count)
    requires forall j :: 0 <= j < k ==> Good(frames[j], lay, stride, count)
    requires k < |frames| ==> !Good(frames[k], lay, stride, count)
    ensures k == |frames| ==> Sliced(frames, sl, dir, id) == Ok(SliceResult(BandPaths(dir, id, count), lay, |frames|))
    ensures k < |frames| && frames[k].layout != lay ==> Sliced(frames, sl, dir, id) == Err("Image layout does not fit!")
    ensures k < |frames| && frames[k].layout == lay ==>
              Sliced(frames, sl, dir, id) == Panic("slice index starts past the end of the samples")
    ensures SlicedFiles(before, frames, sl, dir, id, codecs, c)
         == PutFiles(before, BandPaths(dir, id, count), BandFiles(frames, k, count, stride, codecs, c), count)
  {
    StopsAt(frames, lay, stride, count, k);
    assert SliceStop(frames, sl) == k;
  }

  /** Slicing stops at the first frame that is not `Good`. */
  lemma StopsAt(frames: seq<Frame>, lay: Layout, stride: nat, count: nat, k: nat)
    requires k <= |frames|
    requires forall j :: 0 <= j < k ==> Good(frames[j], lay, stride, count)
    requires k < |frames| ==> !Good(frames[k], lay, stride, count)
    ensures GoodFrom(frames, lay, stride, count, 0) == k
  {
  }

  // ---------------------------------------------------------------------
  // Reading the band files back

  /** Reading band file `i` back with a lossless codec gives band `i` of
      every sliced frame, in frame order. */
  lemma BandFileReadBack(frames: seq<Frame>, i: nat, stride: nat, codecs: Codecs, c: Compression)
    requires Lossless(CodecOf(codecs, c))
    requires Fits(CompressAll(codecs, c, BandChunks(frames, i, stride)))
    ensures DecodeAll(BandFile(frames, |frames|, i, stride, codecs, c), 0, CodecOf(codecs, c)) == BandChunks(frames, i, stride)
  {
    var f := BandFile(frames, |frames|, i, stride, codecs, c);
    BandFileRecords(frames, |frames|, i, stride, codecs, c);
    assert frames[..|frames|] == frames;
    assert f + [] == f;
    ChunksReadBack(codecs, c, BandChunks(frames, i, stride), []);
  }

  /** The transposition is lossless: the `k`-th chunk of every band file, put
      back together in band order, is frame `k`'s samples, when the bands
      cover the frame. */
  lemma Reassemble(frames: seq<Frame>, k: nat, stride: nat, count: nat, codecs: Codecs, c: Compression)
    requires k < |frames| && count * stride >= |frames[k].samples|
    requires Lossless(CodecOf(codecs, c))
    requires forall i :: 0 <= i < count ==> Fits(CompressAll(codecs, c, BandChunks(frames, i, stride)))
    ensures forall i :: 0 <= i < count ==>
              k < |DecodeAll(BandFile(frames, |frames|, i, stride, codecs, c), 0, CodecOf(codecs, c))|
    ensures Concat(seq(count, i requires 0 <= i < count =>
                         DecodeAll(BandFile(frames, |frames|, i, stride, codecs, c), 0, CodecOf(codecs, c))[k]))
         == frames[k].samples
  {
    forall i | 0 <= i < count
      ensures DecodeAll(BandFile(frames, |frames|, i, stride, codecs, c), 0, CodecOf(codecs, c)) == BandChunks(frames, i, stride)
    {
      BandFileReadBack(frames, i, stride, codecs, c);
    }
    var read := seq(count, i requires 0 <= i < count =>
                      DecodeAll(BandFile(frames, |frames|, i, stride, codecs, c), 0, CodecOf(codecs, c))[k]);
    assert read == Bands(frames[k].samples, stride, count);
    BandsConcat(frames[k].samples, stride, count);
  }
}
