/** `ChronoProcessor`: composites one output pixel at a time from the pixels
    every frame has at that position, reading the band files row by row. */
module Chrono {
  import opened Common
  import opened Color
  import opened ChronoStats
  import opened ChronoSelect
  import opened ChronoImage
  import Options
  import Streams
  import opened Banding

  // -----------------------------------------------------------------------
  // OutlierSelectionMode

  function OutlierKeyword(m: OutlierSelectionMode): string
  {
    match m
    case First => "first"
    case Last => "last"
    case Extreme => "extreme"
    case Average => "average"
  }

  /** `OutlierSelectionMode::from_string`: the four keywords map to the four
      modes; every other string is an error. */
  function ParseOutlierSelectionMode(s: string): (r: Outcome<OutlierSelectionMode>)
    ensures !r.Panic?
    ensures r.Ok? <==> s in {"first", "last", "extreme", "average"}
    ensures r.Ok? ==> OutlierKeyword(r.value) == s
  {
    if s == "first" then Ok(First)
    else if s == "last" then Ok(Last)
    else if s == "extreme" then Ok(Extreme)
    else if s == "average" then Ok(Average)
    else Err("Not an outlier selection mode: " + s + ". Must be one of (first|last|extreme|average)")
  }

  lemma OutlierKeywordParses(m: OutlierSelectionMode)
    ensures ParseOutlierSelectionMode(OutlierKeyword(m)) == Ok(m)
  {
  }

  // -----------------------------------------------------------------------
  // Index arithmetic

  /** `pixel_data.len() / channels` counts the samples. */
  lemma SampleCount(n: nat, ch: nat)
    requires ch >= 1
    ensures Offset(n, ch) / ch == n
  {
    OffsetProduct(n, ch);
    DivModOf(n, 0, ch);
  }

  /** Where `values` keeps channel `i` of sample `s`: `i * samples + s`. */
  function Flat(i: nat, n: nat, s: nat): nat
  {
    Offset(i, n) + s
  }

  /** Channel-major positions of `ch` channels of `n` samples lie inside
      `ch * n` entries, in channel `i`'s block. */
  lemma FlatInside(i: nat, n: nat, s: nat, ch: nat)
    requires i < ch && s < n
    ensures Offset(i, n) + n == Offset(i + 1, n) <= Offset(ch, n)
    ensures Offset(i, n) <= Flat(i, n, s) < Offset(i, n) + n
  {
    OffsetMono(i + 1, ch, n);
  }

  /** A later channel's block starts after an earlier one's ends. */
  lemma FlatLater(i: nat, i': nat, n: nat, s: nat)
    requires i < i'
    ensures Offset(i, n) + n <= Flat(i', n, s)
  {
    OffsetMono(i + 1, i', n);
  }

  /** Distinct (channel, sample) pairs have distinct positions. */
  lemma FlatDistinct(i: nat, s: nat, i': nat, s': nat, n: nat)
    requires s < n && s' < n && Flat(i, n, s) == Flat(i', n, s')
    ensures i == i' && s == s'
  {
    if i < i' {
      FlatLater(i, i', n, s');
    } else if i' < i {
      FlatLater(i', i, n, s);
    }
  }

  /** The sum of a sample's first three channels, read from the buffer. */
  lemma SumOfSample(pd: seq<byte>, ch: nat, n: nat, s: nat)
    requires |pd| == Offset(n, ch) && 3 <= ch && s < n
    ensures Offset(s, ch) + 3 <= |pd|
    ensures Sum3(Samples(pd, ch, n)[s]) == pd[Offset(s, ch)] as nat + pd[Offset(s, ch) + 1] as nat + pd[Offset(s, ch) + 2] as nat
  {
    SampleAt(pd, ch, n, s, 0);
  }

  /** Bytes read channel by channel from a sample's place in the buffer are
      that sample; reading a first byte at all means there are samples. */
  lemma SampleIs(pd: seq<byte>, ch: nat, n: nat, s: nat, p: seq<byte>)
    requires |pd| == Offset(n, ch) && ch >= 1 && |p| == ch
    requires Offset(s, ch) + ch <= |pd| && forall k :: 0 <= k < ch ==> p[k] == pd[Offset(s, ch) + k]
    ensures n > 0 && (s < n ==> p == Samples(pd, ch, n)[s])
  {
    if s < n {
      SampleInside(s, n, ch);
    }
  }

  /** `values` holds channel `i` of sample `s` at `i * samples + s`. */
  ghost predicate Holds(v: seq<byte>, ss: seq<seq<byte>>, i: nat, s: nat)
  {
    s < |ss| && i < |ss[s]| && Flat(i, |ss|, s) < |v| && v[Flat(i, |ss|, s)] == ss[s][i]
  }

  /** Every channel of the first `s` samples is in place. */
  ghost predicate StoredUpTo(v: seq<byte>, ss: seq<seq<byte>>, ch: nat, s: nat)
  {
    forall i, s' :: 0 <= i < ch && 0 <= s' < s ==> Holds(v, ss, i, s')
  }

  /** `mean` holds the channel sums of the first `s` samples. */
  ghost predicate MeanSums(m: seq<real>, ss: seq<seq<byte>>, ch: nat, s: nat)
    requires Uniform(ss, ch) && s <= |ss|
  {
    && |m| == 4
    && (forall i :: 0 <= i < ch && i < 4 ==> m[i] == ColumnSum(ss[..s], i) as real)
    && (forall i :: ch <= i < 4 ==> m[i] == 0.0)
  }

  /** Storing at one (channel, sample) position keeps every other one. */
  lemma StoreKeeps(v: seq<byte>, i: nat, s: nat, p: byte, n: nat, j: nat, s': nat)
    requires s < n && s' < n && Flat(i, n, s) < |v| && Flat(j, n, s') < |v|
    requires j != i || s' != s
    ensures v[Flat(i, n, s) := p][Flat(j, n, s')] == v[Flat(j, n, s')]
  {
    if Flat(i, n, s) == Flat(j, n, s') {
      FlatDistinct(i, s, j, s', n);
    }
  }

  /** The block of channel `i` in `values` is that channel's column. */
  lemma ColumnBlock(v: seq<byte>, ss: seq<seq<byte>>, ch: nat, n: nat, i: nat)
    requires |v| == Offset(ch, n) && i < ch && |ss| == n && Uniform(ss, ch)
    requires forall s :: 0 <= s < n ==> Holds(v, ss, i, s)
    ensures Offset(i, n) + n <= |v| && v[Offset(i, n) .. Offset(i, n) + n] == Column(ss, i)
  {
    OffsetMono(i + 1, ch, n);
    var lo := Offset(i, n);
    forall s | 0 <= s < n
      ensures v[lo .. lo + n][s] == Column(ss, i)[s]
    {
      assert Holds(v, ss, i, s);
      assert v[lo .. lo + n][s] == v[Flat(i, n, s)];
    }
  }

  /** Replacing channel `i`'s block keeps the blocks of later channels. */
  lemma ReplaceKeeps(v: seq<byte>, b: seq<byte>, n: nat, i: nat, j: nat, s: nat)
    requires |b| == n && i < j && s < n && Flat(j, n, s) < |v| && Offset(i, n) + n <= |v|
    ensures (v[..Offset(i, n)] + b + v[Offset(i, n) + n..])[Flat(j, n, s)] == v[Flat(j, n, s)]
  {
    FlatLater(i, j, n, s);
  }

  /** A method's result `r` and the pixel it filled agree with the choice
      `e`; after a panic the pixel is unspecified. */
  predicate Produced(e: Outcome<PixelChoice>, r: Outcome<byte>, pixel: seq<byte>)
  {
    match e
    case Ok(c) => r == Ok(c.blend) && pixel == c.pixel
    case Err(m) => r == Err(m)
    case Panic(_) => r.Panic?
  }

  /** A method's result `r` agrees with the chunks `o` of a band file: the
      joined chunks and their number, the same error, or a panic. */
  predicate BandRead(o: Outcome<seq<seq<byte>>>, r: Outcome<(seq<byte>, nat)>)
  {
    match o
    case Ok(cs) => r == Ok((Concat(cs), |cs|))
    case Err(m) => r == Err(m)
    case Panic(_) => r.Panic?
  }

  /** A row's result `r` agrees with its choices `o`. */
  predicate RowDone<T>(o: Outcome<T>, r: Outcome<()>)
  {
    match o
    case Ok(_) => r.Ok?
    case Err(m) => r == Err(m)
    case Panic(_) => r.Panic?
  }

  /** `process`'s result `r` agrees with the choices `g` of every row: the
      output and blend images of `size` bytes holding exactly those pixels,
      the same error, or a panic. */
  ghost predicate Imaged(g: Outcome<seq<seq<PixelChoice>>>, r: Outcome<(seq<byte>, seq<byte>)>,
                         size: nat, hs: nat, ch: nat, width: nat)
  {
    match g
    case Ok(grid) =>
      && r.Ok? && |r.value.0| == size && Shaped(grid, width, ch)
      && Composed(r.value.0, r.value.1, grid, [], hs, ch, width)
    case Err(m) => r == Err(m)
    case Panic(_) => r.Panic?
  }

  // -----------------------------------------------------------------------
  // The processor

  class ChronoProcessor {
    const mode: Options.SelectionMode
    const threshold: Options.Threshold
    const background: Options.BackgroundMode
    const outlier: OutlierSelectionMode
    const compression: Streams.Compression
    const codecs: Streams.Codecs
    /** `sample: [u8; 4]`, `mean`, `median`, `iqr_inv: [f32; 4]`. */
    const sample: array<byte>
    const mean: array<real>
    const median: array<real>
    const iqrInv: array<real>
    /** The outlier scan's scratch list, one entry per sample. */
    var outlierIndices: seq<(nat, real)>
    /** The per-channel columns of samples, channel after channel. */
    var values: seq<byte>

    ghost predicate Valid()
      reads this
    {
      && sample.Length == 4 && mean.Length == 4 && median.Length == 4 && iqrInv.Length == 4
      && mean != median && mean != iqrInv && median != iqrInv
    }

    /** `ChronoProcessor::new`: zeroed scratch arrays and empty lists. */
    constructor (mode: Options.SelectionMode, threshold: Options.Threshold, bgMode: Options.BackgroundMode,
                 outlierMode: OutlierSelectionMode, compression: Streams.Compression, codecs: Streams.Codecs)
      ensures Valid()
      ensures this.mode == mode && this.threshold == threshold && background == bgMode
      ensures outlier == outlierMode && this.compression == compression && this.codecs == codecs
      ensures sample[..] == [0, 0, 0, 0] && mean[..] == median[..] == iqrInv[..] == [0.0, 0.0, 0.0, 0.0]
      ensures outlierIndices == [] && values == []
      ensures fresh(sample) && fresh(mean) && fresh(median) && fresh(iqrInv)
    {
      this.mode := mode;
      this.threshold := threshold;
      background := bgMode;
      outlier := outlierMode;
      this.compression := compression;
      this.codecs := codecs;
      sample := new byte[4](_ => 0);
      mean := new real[4](_ => 0.0);
      median := new real[4](_ => 0.0);
      iqrInv := new real[4](_ => 0.0);
      outlierIndices := [];
      values := [];
    }

    /** The scan of `calc_pixel_darker` (`lighter` false) and
        `calc_pixel_lighter` (`lighter` true): the running extreme of the sums
        of channels 0..3 starts at `u32::MAX` (`u32::MIN`) and moves on a
        strict comparison. With fewer than three channels the sum of the last
        sample reads past the buffer. */
    method PickExtreme(pd: seq<byte>, ch: nat, lighter: bool, ghost n: nat) returns (ok: bool, bestIdx: nat)
      requires ch >= 1 && |pd| == Offset(n, ch)
      ensures ok <==> ch >= 3 || n == 0
      ensures ok && n > 0 ==> bestIdx == Pick(Samples(pd, ch, n), n, lighter)
      ensures n == 0 ==> bestIdx == 0
    {
      var pixels := |pd| / ch;
      SampleCount(n, ch);
      ghost var ss := Samples(pd, ch, n);
      var best: nat := if lighter then 0 else U32_LIMIT - 1;
      bestIdx := 0;
      var idx: nat := 0;
      for pix := 0 to pixels
        invariant idx == Offset(pix, ch)
        invariant pix > 0 ==> Offset(pix - 1, ch) + 3 <= |pd|
        invariant pix == 0 ==> bestIdx == 0 && best == (if lighter then 0 else U32_LIMIT - 1)
        invariant pix > 0 && ch >= 3 ==> bestIdx == Pick(ss, pix, lighter) && best == Sum3(ss[bestIdx])
      {
        if idx + 3 > |pd| {
          assert ch < 3 by {
            SampleInside(pix, n, ch);
          }
          return false, bestIdx;
        }
        SampleInside(pix, n, ch);
        best, bestIdx := ExtremeStep(pd, ch, lighter, n, pix, idx, best, bestIdx);
        idx := idx + ch;
      }
      ok := true;
    }

    /** One turn of the scan: the sum of channels 0..3 read from `idx`
        replaces the running extreme when it is strictly beyond it. */
    method ExtremeStep(pd: seq<byte>, ch: nat, lighter: bool, ghost n: nat, pix: nat, idx: nat, best: nat, bestIdx: nat)
      returns (best': nat, bestIdx': nat)
      requires ch >= 1 && |pd| == Offset(n, ch) && pix < n && idx == Offset(pix, ch) && idx + 3 <= |pd|
      requires pix == 0 ==> bestIdx == 0 && best == (if lighter then 0 else U32_LIMIT - 1)
      requires pix > 0 && ch >= 3 ==> bestIdx == Pick(Samples(pd, ch, n), pix, lighter) && best == Sum3(Samples(pd, ch, n)[bestIdx])
      ensures ch >= 3 ==> bestIdx' == Pick(Samples(pd, ch, n), pix + 1, lighter) && best' == Sum3(Samples(pd, ch, n)[bestIdx'])
    {
      var sum: nat := pd[idx] as nat + pd[idx + 1] as nat + pd[idx + 2] as nat;
      if ch >= 3 {
        SumOfSample(pd, ch, n, pix);
      }
      best', bestIdx' := best, bestIdx;
      if (lighter && sum > best) || (!lighter && sum < best) {
        best' := sum;
        bestIdx' := pix;
      }
    }

    /** `calc_pixel_darker` and `calc_pixel_lighter`: the kept sample is
        copied into `pixel` and the blend is 0. */
    method CalcPixelExtreme(pd: seq<byte>, pixel: array<byte>, lighter: bool, ghost n: nat) returns (r: Outcome<byte>)
      requires |pd| == Offset(n, pixel.Length)
      modifies pixel
      ensures pixel.Length == 0 ==> r.Panic?
      ensures pixel.Length > 0 ==> Produced(ExtremeSum(Samples(pd, pixel.Length, n), pixel.Length, lighter), r, pixel[..])
    {
      var ch := pixel.Length;
      if ch == 0 {
        return Panic(DIV_ZERO);
      }
      var ok, bestIdx := PickExtreme(pd, ch, lighter, n);
      if !ok {
        return Panic(INDEX_PANIC);
      }
      var base := bestIdx * ch;
      OffsetProduct(bestIdx, ch);
      if n > 0 {
        SampleInside(bestIdx, n, ch);
      }
      for c := 0 to ch
        invariant c > 0 ==> base + c <= |pd|
        invariant forall k :: 0 <= k < c ==> pixel[k] == pd[base + k]
      {
        if base + c >= |pd| {
          assert n == 0;
          return Panic(INDEX_PANIC);
        }
        pixel[c] := pd[base + c];
      }
      assert forall k :: 0 <= k < ch ==> pixel[..][k] == pd[base + k];
      SampleIs(pd, ch, n, bestIdx, pixel[..]);
      ghost var ss := Samples(pd, ch, n);
      assert ExtremeSum(ss, ch, lighter) == Ok(PixelChoice(ss[bestIdx], 0));
      return Ok(0);
    }

    /** The first pass of `calc_pixel_z_score`: `mean` is reset, channel `i`
        of sample `s` is added to `mean[i]` and stored at
        `values[i * samples + s]`, and the sums are divided by the sample
        count. More than four channels index past `mean` at the first sample. */
    method Accumulate(pd: seq<byte>, ch: nat, samples: nat) returns (ok: bool)
      requires Valid() && ch >= 1 && |pd| == Offset(samples, ch) && |values| == Offset(ch, samples)
      modifies mean, this`values
      ensures Valid() && |values| == Offset(ch, samples)
      ensures ok <==> ch <= 4 || samples == 0
      ensures ok && samples > 0 ==> mean[..ch] == Means(Samples(pd, ch, samples), ch)
      ensures ok && samples > 0 ==> forall i :: ch <= i < 4 ==> mean[i] == 0.0
      ensures ok ==> StoredUpTo(values, Samples(pd, ch, samples), ch, samples)
    {
      ghost var ss := Samples(pd, ch, samples);
      for k := 0 to 4
        modifies mean
        invariant forall j :: 0 <= j < k ==> mean[j] == 0.0
      {
        mean[k] := 0.0;
      }
      assert ss[..0] == [];
      var off := 0;
      for s := 0 to samples
        invariant off == Offset(s, ch) && |values| == Offset(ch, samples)
        invariant s > 0 ==> ch <= 4
        invariant MeanSums(mean[..], ss, ch, s) && StoredUpTo(values, ss, ch, s)
      {
        ok := AccumulateSample(pd, ch, samples, s, off);
        if !ok {
          return false;
        }
        off := off + ch;
      }
      assert ss[..samples] == ss;
      if samples > 0 {
        ghost var sums := mean[..];
        for k := 0 to 4
          modifies mean
          invariant forall j :: 0 <= j < k ==> mean[j] == sums[j] / samples as real
          invariant forall j :: k <= j < 4 ==> mean[j] == sums[j]
        {
          mean[k] := mean[k] / samples as real;
        }
        forall i | 0 <= i < ch
          ensures mean[..ch][i] == Means(ss, ch)[i]
        {
          assert sums[i] == ColumnSum(ss, i) as real;
        }
      }
      return true;
    }

    /** One sample of the first pass: its channels are added to `mean` and
        stored in `values`. */
    method AccumulateSample(pd: seq<byte>, ch: nat, samples: nat, s: nat, off: nat) returns (ok: bool)
      requires Valid() && ch >= 1 && |pd| == Offset(samples, ch) && |values| == Offset(ch, samples)
      requires s < samples && off == Offset(s, ch) && (s > 0 ==> ch <= 4)
      requires MeanSums(mean[..], Samples(pd, ch, samples), ch, s)
      requires StoredUpTo(values, Samples(pd, ch, samples), ch, s)
      modifies mean, this`values
      ensures Valid() && |values| == Offset(ch, samples)
      ensures ok <==> ch <= 4
      ensures ok ==> MeanSums(mean[..], Samples(pd, ch, samples), ch, s + 1)
      ensures ok ==> StoredUpTo(values, Samples(pd, ch, samples), ch, s + 1)
    {
      ghost var ss := Samples(pd, ch, samples);
      assert ss[..s + 1][..s] == ss[..s];
      SampleInside(s, samples, ch);
      for i := 0 to ch
        invariant |values| == Offset(ch, samples) && i <= 4
        invariant forall j :: 0 <= j < i ==> mean[j] == ColumnSum(ss[..s + 1], j) as real
        invariant forall j :: i <= j < ch && j < 4 ==> mean[j] == ColumnSum(ss[..s], j) as real
        invariant forall j :: ch <= j < 4 ==> mean[j] == 0.0
        invariant StoredUpTo(values, ss, ch, s)
        invariant forall j :: 0 <= j < i ==> Holds(values, ss, j, s)
      {
        if i >= mean.Length {
          return false;
        }
        AccumulateChannel(pd, ch, samples, s, off, i, ss);
      }
      return true;
    }

    /** Channel `i` of sample `s`: its value is added to `mean[i]` and
        stored at `values[i * samples + s]`. */
    method AccumulateChannel(pd: seq<byte>, ch: nat, samples: nat, s: nat, off: nat, i: nat, ghost ss: seq<seq<byte>>)
      requires Valid() && i < ch && i < 4 && |pd| == Offset(samples, ch) && |values| == Offset(ch, samples)
      requires s < samples && off == Offset(s, ch) && ss == Samples(pd, ch, samples)
      requires forall j :: 0 <= j < i ==> mean[j] == ColumnSum(ss[..s + 1], j) as real
      requires forall j :: i <= j < ch && j < 4 ==> mean[j] == ColumnSum(ss[..s], j) as real
      requires StoredUpTo(values, ss, ch, s)
      requires forall j :: 0 <= j < i ==> Holds(values, ss, j, s)
      modifies mean, this`values
      ensures |values| == Offset(ch, samples)
      ensures forall j :: 0 <= j < i + 1 ==> mean[j] == ColumnSum(ss[..s + 1], j) as real
      ensures forall j :: i + 1 <= j < ch && j < 4 ==> mean[j] == ColumnSum(ss[..s], j) as real
      ensures forall j :: ch <= j < 4 ==> mean[j] == old(mean[j])
      ensures StoredUpTo(values, ss, ch, s)
      ensures forall j :: 0 <= j < i + 1 ==> Holds(values, ss, j, s)
    {
      assert ss[..s + 1][..s] == ss[..s];
      SampleInside(s, samples, ch);
      SampleAt(pd, ch, samples, s, i);
      var p := pd[off + i];
      mean[i] := mean[i] + p as real;
      FlatInside(i, samples, s, ch);
      ghost var before := values;
      values := values[Flat(i, samples, s) := p];
      forall j, s' | 0 <= j < ch && 0 <= s' <= s && (j != i || s' != s) && Holds(before, ss, j, s')
        ensures Holds(values, ss, j, s')
      {
        StoreKeeps(before, i, s, p, samples, j, s');
      }
    }

    /** The second pass: each channel's block of `values` is sorted in place
        and its median (absolute mode) or quartiles (relative mode) give
        `median[i]` and `iqr_inv[i]`. Too few samples index past the block. */
    method CentersOf(ch: nat, samples: nat, ghost ss: seq<seq<byte>>) returns (ok: bool)
      requires Valid() && ch >= 1 && (ch <= 4 || samples == 0)
      requires |ss| == samples && Uniform(ss, ch) && |values| == Offset(ch, samples)
      requires StoredUpTo(values, ss, ch, samples)
      modifies median, iqrInv, this`values
      ensures Valid() && |values| == Offset(ch, samples)
      ensures ok <==> samples >= MinSamples(threshold.absolute)
      ensures ok ==> ch <= 4 && median[..ch] == Centers(ss, ch, threshold.absolute)
      ensures ok && !threshold.absolute ==> iqrInv[..ch] == IqrInvs(ss, ch, false)
      ensures threshold.absolute ==> iqrInv[..] == old(iqrInv[..])
    {
      var absolute := threshold.absolute;
      for i := 0 to ch
        invariant |values| == Offset(ch, samples)
        invariant i > 0 ==> samples >= MinSamples(absolute) && ch <= 4
        invariant forall j, s :: i <= j < ch && 0 <= s < samples ==> Holds(values, ss, j, s)
        invariant forall j :: 0 <= j < i ==> median[j] == CenterOf(Column(ss, j), absolute)
        invariant !absolute ==> forall j :: 0 <= j < i ==> iqrInv[j] == IqrInvOf(Column(ss, j))
        invariant absolute ==> iqrInv[..] == old(iqrInv[..])
      {
        ok := CenterOfChannel(i, ch, samples, ss);
        if !ok {
          return false;
        }
      }
      assert samples >= MinSamples(absolute);
      return true;
    }

    /** One channel of the second pass. */
    method CenterOfChannel(i: nat, ch: nat, samples: nat, ghost ss: seq<seq<byte>>) returns (ok: bool)
      requires Valid() && i < ch && (ch <= 4 || samples == 0)
      requires |ss| == samples && Uniform(ss, ch) && |values| == Offset(ch, samples)
      requires forall j, s :: i <= j < ch && 0 <= s < samples ==> Holds(values, ss, j, s)
      modifies median, iqrInv, this`values
      ensures Valid() && |values| == Offset(ch, samples)
      ensures ok <==> samples >= MinSamples(threshold.absolute)
      ensures forall j, s :: i < j < ch && 0 <= s < samples ==> Holds(values, ss, j, s)
      ensures ok ==> i < 4 && median[i] == CenterOf(Column(ss, i), threshold.absolute)
      ensures forall j :: 0 <= j < 4 && j != i ==> median[j] == old(median[j])
      ensures ok && !threshold.absolute ==> iqrInv[i] == IqrInvOf(Column(ss, i))
      ensures forall j :: 0 <= j < 4 && (j != i || threshold.absolute) ==> iqrInv[j] == old(iqrInv[j])
    {
      var sorted := SortBlock(i, ch, samples, ss);
      ghost var col := Column(ss, i);
      assert |sorted| == samples;
      if threshold.absolute {
        ok := MedianOf(i, sorted);
        assert ok ==> CenterOf(col, true) == SortedCenter(sorted, true);
      } else {
        ok := QuartilesOf(i, sorted);
        assert ok ==> CenterOf(col, false) == SortedCenter(sorted, false);
        assert ok ==> IqrInvOf(col) == SortedIqrInv(sorted);
      }
    }

    /** Absolute mode: `median[i]` is the median of the sorted block. */
    method MedianOf(i: nat, sorted: seq<byte>) returns (ok: bool)
      requires Valid() && (i < 4 || |sorted| < 2)
      modifies median
      ensures ok <==> |sorted| >= 2
      ensures ok ==> i < 4 && median[i] == SortedCenter(sorted, true)
      ensures forall j :: 0 <= j < 4 && j != i ==> median[j] == old(median[j])
    {
      var m := Median(sorted);
      MedianInBounds(sorted);
      ok := m.Ok?;
      if ok {
        median[i] := m.value;
      }
    }

    /** Relative mode: `median[i]` is the middle quartile of the sorted
        block and `iqrInv[i]` the inverse of its spread, 1 for no spread. */
    method QuartilesOf(i: nat, sorted: seq<byte>) returns (ok: bool)
      requires Valid() && (i < 4 || |sorted| < 5)
      modifies median, iqrInv
      ensures ok <==> |sorted| >= 5
      ensures ok ==> i < 4 && median[i] == SortedCenter(sorted, false) && iqrInv[i] == SortedIqrInv(sorted)
      ensures forall j :: 0 <= j < 4 && j != i ==> median[j] == old(median[j]) && iqrInv[j] == old(iqrInv[j])
    {
      var q := Quartiles(sorted);
      QuartilesInBounds(sorted);
      ok := q.Ok?;
      if ok {
        var (q1, med, q3) := q.value;
        median[i] := med;
        var iqr := q3 - q1;
        if iqr == 0.0 {
          iqr := 1.0;
        }
        iqrInv[i] := 1.0 / iqr;
      }
    }

    /** `slice.sort_unstable()` on channel `i`'s block of `values`; the
        blocks of later channels keep their columns. */
    method SortBlock(i: nat, ch: nat, samples: nat, ghost ss: seq<seq<byte>>) returns (sorted: seq<byte>)
      requires i < ch && |ss| == samples && Uniform(ss, ch) && |values| == Offset(ch, samples)
      requires forall j, s :: i <= j < ch && 0 <= s < samples ==> Holds(values, ss, j, s)
      modifies this`values
      ensures |values| == Offset(ch, samples) && sorted == Sort(Column(ss, i))
      ensures forall j, s :: i < j < ch && 0 <= s < samples ==> Holds(values, ss, j, s)
    {
      ColumnBlock(values, ss, ch, samples, i);
      var lo := i * samples;
      OffsetProduct(i, samples);
      sorted := Sort(values[lo .. lo + samples]);
      ghost var before := values;
      values := values[..lo] + sorted + values[lo + samples..];
      forall j, s | i < j < ch && 0 <= s < samples
        ensures Holds(values, ss, j, s)
      {
        assert Holds(before, ss, j, s);
        ReplaceKeeps(before, sorted, samples, i, j, s);
      }
    }

    /** `dist_sq` of the sample at `off`: the loop over its channels. */
    method DistSqAt(pd: seq<byte>, off: nat, ch: nat) returns (d: real)
      requires Valid() && ch <= 4 && off + ch <= |pd|
      ensures d == DistSq(pd[off .. off + ch], median[..], iqrInv[..], threshold.absolute, ch)
    {
      ghost var p := pd[off .. off + ch];
      ghost var cs := median[..];
      ghost var qs := iqrInv[..];
      d := 0.0;
      for i := 0 to ch
        invariant d == DistSq(p, cs, qs, threshold.absolute, i)
      {
        var diff := median[i] - pd[off + i] as real;
        var t := if diff == 0.0 then 0.0
                 else if threshold.absolute then diff * diff
                 else (iqrInv[i] * diff) * (iqrInv[i] * diff);
        assert cs[i] == median[i] && qs[i] == iqrInv[i] && p[i] == pd[off + i];
        assert t == Term(cs[i], qs[i], p[i], threshold.absolute);
        d := d + t;
      }
    }

    /** The outlier scan: every sample whose squared distance reaches `thr`
        is appended to `outlier_indices`, and the strictly largest is tracked. */
    method Scan(pd: seq<byte>, ch: nat, samples: nat, thr: real) returns (num: nat, maxIndex: nat, maxDist: real)
      requires Valid() && 1 <= ch <= 4 && |pd| == Offset(samples, ch) && |outlierIndices| == samples
      modifies this`outlierIndices
      ensures Valid() && |outlierIndices| == samples && num <= samples
      ensures var dists := Dists(Samples(pd, ch, samples), ch, median[..], iqrInv[..], threshold.absolute);
              && outlierIndices[..num] == Outliers(dists, thr)
              && (maxIndex, maxDist) == MaxOutlier(dists, thr)
    {
      ghost var dists := Dists(Samples(pd, ch, samples), ch, median[..], iqrInv[..], threshold.absolute);
      num, maxIndex, maxDist := ScanSamples(pd, ch, samples, thr, dists);
      assert dists[..samples] == dists;
    }

    /** The loop of the outlier scan, over the distances `dists` of the samples. */
    method ScanSamples(pd: seq<byte>, ch: nat, samples: nat, thr: real, ghost dists: seq<real>)
      returns (num: nat, maxIndex: nat, maxDist: real)
      requires Valid() && 1 <= ch <= 4 && |pd| == Offset(samples, ch) && |outlierIndices| == samples
      requires dists == Dists(Samples(pd, ch, samples), ch, median[..], iqrInv[..], threshold.absolute)
      modifies this`outlierIndices
      ensures |outlierIndices| == samples && num <= samples && |dists| == samples
      ensures outlierIndices[..num] == Outliers(dists[..samples], thr)
      ensures (maxIndex, maxDist) == MaxOutlier(dists[..samples], thr)
    {
      num, maxIndex, maxDist := 0, 0, 0.0;
      var off := 0;
      for s := 0 to samples
        invariant off == Offset(s, ch) && |outlierIndices| == samples && num <= s
        invariant outlierIndices[..num] == Outliers(dists[..s], thr)
        invariant (maxIndex, maxDist) == MaxOutlier(dists[..s], thr)
      {
        var d := SampleDist(pd, ch, samples, s, off, dists);
        num, maxIndex, maxDist := Record(s, d, thr, num, maxIndex, maxDist, dists);
        off := off + ch;
      }
    }

    /** The squared distance of sample `s`, which starts at `off`. */
    method SampleDist(pd: seq<byte>, ch: nat, samples: nat, s: nat, off: nat, ghost dists: seq<real>) returns (d: real)
      requires Valid() && 1 <= ch <= 4 && |pd| == Offset(samples, ch) && s < samples && off == Offset(s, ch)
      requires dists == Dists(Samples(pd, ch, samples), ch, median[..], iqrInv[..], threshold.absolute)
      ensures s < |dists| && d == dists[s]
    {
      SampleAt(pd, ch, samples, s, 0);
      d := DistSqAt(pd, off, ch);
    }

    /** One sample of the scan: an outlier is stored at `outlier_indices[num]`
        and becomes the maximum when it is strictly further than the last one. */
    method Record(s: nat, d: real, thr: real, num: nat, maxIndex: nat, maxDist: real, ghost dists: seq<real>)
      returns (num': nat, maxIndex': nat, maxDist': real)
      requires s < |dists| && d == dists[s] && num <= s && |outlierIndices| == |dists|
      requires outlierIndices[..num] == Outliers(dists[..s], thr)
      requires (maxIndex, maxDist) == MaxOutlier(dists[..s], thr)
      modifies this`outlierIndices
      ensures num' <= s + 1 && |outlierIndices| == |dists|
      ensures outlierIndices[..num'] == Outliers(dists[..s + 1], thr)
      ensures (maxIndex', maxDist') == MaxOutlier(dists[..s + 1], thr)
    {
      assert dists[..s + 1][..s] == dists[..s];
      num', maxIndex', maxDist' := num, maxIndex, maxDist;
      if d >= thr {
        outlierIndices := outlierIndices[num := (s, d)];
        num' := num + 1;
        if d > maxDist {
          maxDist' := d;
          maxIndex' := s;
        }
      }
    }

    /** Filling the pixel with the background: the rounded channel means or
        centres, or a copy of the first or of a drawn sample
        (`gen_range(0, samples)` is `draw % samples`). */
    method FillBackground(pd: seq<byte>, pixel: array<byte>, samples: nat, draw: nat, ghost ss: seq<seq<byte>>)
      requires Valid() && 1 <= pixel.Length <= 4 && samples > 0
      requires |pd| == Offset(samples, pixel.Length) && ss == Samples(pd, pixel.Length, samples)
      modifies pixel
      ensures pixel[..] == Background(background, ss, pixel.Length, mean[..pixel.Length], median[..pixel.Length], draw)
    {
      var ch := pixel.Length;
      match background
      case AverageFrame =>
        for c := 0 to ch
          invariant forall j :: 0 <= j < c ==> pixel[j] == RoundToByte(mean[j])
        {
          pixel[c] := RoundToByte(mean[c]);
        }
      case MedianFrame =>
        for c := 0 to ch
          invariant forall j :: 0 <= j < c ==> pixel[j] == RoundToByte(median[j])
        {
          pixel[c] := RoundToByte(median[c]);
        }
      case FirstFrame =>
        CopySample(pd, pixel, samples, 0, ss);
      case RandomFrame =>
        CopySample(pd, pixel, samples, draw % samples, ss);
    }

    /** `pixel[ch] = sample[ch]` for the sample at `idx`. */
    method CopySample(pd: seq<byte>, pixel: array<byte>, samples: nat, idx: nat, ghost ss: seq<seq<byte>>)
      requires 1 <= pixel.Length && idx < samples
      requires |pd| == Offset(samples, pixel.Length) && ss == Samples(pd, pixel.Length, samples)
      modifies pixel
      ensures pixel[..] == ss[idx]
    {
      var ch := pixel.Length;
      var off := idx * ch;
      OffsetProduct(idx, ch);
      SampleInside(idx, samples, ch);
      for c := 0 to ch
        invariant forall j :: 0 <= j < c ==> pixel[j] == ss[idx][j]
      {
        SampleAt(pd, ch, samples, idx, c);
        pixel[c] := pd[off + c];
      }
    }

    /** Several outliers in `Average` mode: `self.sample[..channels]` gets
        their rounded channel means and the result is their mean distance. */
    method AverageOutliers(pd: seq<byte>, ch: nat, samples: nat, num: nat, sqrt: real -> real, ghost ss: seq<seq<byte>>)
      returns (dist: real)
      requires Valid() && 1 <= ch <= 4 && |pd| == Offset(samples, ch) && ss == Samples(pd, ch, samples)
      requires 0 < num <= |outlierIndices| && forall k :: 0 <= k < num ==> outlierIndices[k].0 < samples
      modifies mean, sample
      ensures sample[..ch] == OutlierMean(ss, ch, outlierIndices[..num])
      ensures sample[ch..] == old(sample[ch..])
      ensures dist == SqrtSum(outlierIndices[..num], sqrt) / num as real
    {
      for c := 0 to ch
        modifies mean
        invariant forall j :: 0 <= j < c ==> mean[j] == 0.0
      {
        mean[c] := 0.0;
      }
      var meanDist := 0.0;
      for k := 0 to num
        modifies mean
        invariant forall c :: 0 <= c < ch ==> mean[c] == OutlierSum(ss, ch, outlierIndices[..k], c) as real
        invariant meanDist == SqrtSum(outlierIndices[..k], sqrt)
      {
        assert outlierIndices[..k + 1][..k] == outlierIndices[..k];
        var d := outlierIndices[k].1;
        AddOutlier(pd, ch, samples, k, ss);
        meanDist := meanDist + sqrt(d);
      }
      for c := 0 to ch
        modifies sample
        invariant forall j :: 0 <= j < c ==> sample[j] == RoundToByte(mean[j] / num as real)
        invariant forall j :: c <= j < 4 ==> sample[j] == old(sample[j])
      {
        sample[c] := RoundToByte(mean[c] / num as real);
      }
      dist := meanDist / num as real;
    }

    /** Outlier `k` added to the channel sums in `mean`. */
    method AddOutlier(pd: seq<byte>, ch: nat, samples: nat, k: nat, ghost ss: seq<seq<byte>>)
      requires Valid() && 1 <= ch <= 4 && |pd| == Offset(samples, ch) && ss == Samples(pd, ch, samples)
      requires k < |outlierIndices| && forall j :: 0 <= j <= k ==> outlierIndices[j].0 < samples
      requires forall c :: 0 <= c < ch ==> mean[c] == OutlierSum(ss, ch, outlierIndices[..k], c) as real
      modifies mean
      ensures forall c :: 0 <= c < ch ==> mean[c] == OutlierSum(ss, ch, outlierIndices[..k + 1], c) as real
    {
      assert outlierIndices[..k + 1][..k] == outlierIndices[..k];
      var idx := outlierIndices[k].0;
      var off := idx * ch;
      OffsetProduct(idx, ch);
      SampleInside(idx, samples, ch);
      for c := 0 to ch
        invariant forall j :: 0 <= j < c ==> mean[j] == OutlierSum(ss, ch, outlierIndices[..k + 1], j) as real
        invariant forall j :: c <= j < ch ==> mean[j] == OutlierSum(ss, ch, outlierIndices[..k], j) as real
      {
        SampleAt(pd, ch, samples, idx, c);
        mean[c] := mean[c] + pd[off + c] as real;
      }
    }

    /** The outlier blended into the background already in `pixel`: the
        first, last or furthest outlier, the single one or the mean of
        several; blend byte 0 without outliers. A full blend of the
        four-entry averaged sample overruns a narrower pixel. */
    method BlendOutliers(pd: seq<byte>, pixel: array<byte>, samples: nat, num: nat, maxIndex: nat, maxDist: real,
                         sqrt: real -> real, ghost ss: seq<seq<byte>>) returns (r: Outcome<byte>)
      requires Valid() && pixel != sample && 1 <= pixel.Length <= 4
      requires |pd| == Offset(samples, pixel.Length) && ss == Samples(pd, pixel.Length, samples)
      requires num <= |outlierIndices| && forall k :: 0 <= k < num ==> outlierIndices[k].0 < samples
      requires num > 0 ==> maxIndex < samples
      modifies pixel, mean, sample
      ensures Produced(Blended(threshold, outlier, ss, pixel.Length, outlierIndices[..num], (maxIndex, maxDist),
                               old(pixel[..]), sqrt), r, pixel[..])
    {
      var ch := pixel.Length;
      ghost var bg := pixel[..];
      if num == 0 {
        return Ok(0);
      }
      var rep, dist := ChooseOutlier(pd, ch, samples, num, maxIndex, maxDist, sqrt, ss);
      ghost var chosen := Representative(outlier, ss, ch, outlierIndices[..num], (maxIndex, maxDist), sqrt);
      var blend := Options.BlendValue(threshold, dist);
      if blend >= 1.0 && |rep| > ch {
        return Panic(INDEX_PANIC);
      }
      BlendIntoU8(pixel, rep, blend);
      if outlier == Average && num > 1 {
        BlendU8Prefix(bg, rep, blend);
        assert AverageBlend(bg, chosen.0, blend) == Ok(pixel[..]);
      }
      r := Ok(RoundToByte(blend * 255.0));
    }

    /** The outlier to blend and its distance; several outliers in `Average`
        mode leave their mean in `self.sample` and the whole four-entry buffer
        is the colour to blend. */
    method ChooseOutlier(pd: seq<byte>, ch: nat, samples: nat, num: nat, maxIndex: nat, maxDist: real,
                         sqrt: real -> real, ghost ss: seq<seq<byte>>) returns (rep: seq<byte>, dist: real)
      requires Valid() && 1 <= ch <= 4 && |pd| == Offset(samples, ch) && ss == Samples(pd, ch, samples)
      requires 0 < num <= |outlierIndices| && forall k :: 0 <= k < num ==> outlierIndices[k].0 < samples
      requires maxIndex < samples
      modifies mean, sample
      ensures dist == Representative(outlier, ss, ch, outlierIndices[..num], (maxIndex, maxDist), sqrt).1
      ensures outlier.Average? && num > 1 ==>
                |rep| == 4 && rep[..ch] == Representative(outlier, ss, ch, outlierIndices[..num], (maxIndex, maxDist), sqrt).0
      ensures !(outlier.Average? && num > 1) ==>
                rep == Representative(outlier, ss, ch, outlierIndices[..num], (maxIndex, maxDist), sqrt).0
    {
      if outlier == Average && num > 1 {
        dist := AverageOutliers(pd, ch, samples, num, sqrt, ss);
        rep := sample[..];
      } else {
        var (idx, d) := match outlier
          case First => outlierIndices[0]
          case Last => outlierIndices[num - 1]
          case Extreme => (maxIndex, maxDist)
          case Average => outlierIndices[0];
        var off := idx * ch;
        OffsetProduct(idx, ch);
        SampleInside(idx, samples, ch);
        SampleAt(pd, ch, samples, idx, 0);
        rep := pd[off .. off + ch];
        dist := sqrt(d);
      }
    }

    /** The first two passes of `calc_pixel_z_score`: channel means, sorted
        channel columns, and each channel's centre and inverse spread. More
        than four channels index past `mean`; too few samples index past a
        sorted column. */
    method Statistics(pd: seq<byte>, ch: nat, samples: nat, ghost ss: seq<seq<byte>>) returns (ok: bool)
      requires Valid() && ch >= 1 && |pd| == Offset(samples, ch) && |values| == Offset(ch, samples)
      requires ss == Samples(pd, ch, samples)
      modifies mean, median, iqrInv, this`values
      ensures Valid() && |values| == Offset(ch, samples)
      ensures ok <==> ch <= 4 && samples >= MinSamples(threshold.absolute)
      ensures ok ==> mean[..ch] == Means(ss, ch) && median[..ch] == Centers(ss, ch, threshold.absolute)
      ensures ok && !threshold.absolute ==> iqrInv[..ch] == IqrInvs(ss, ch, false)
    {
      ok := Accumulate(pd, ch, samples);
      if ok {
        ok := CentersOf(ch, samples, ss);
      }
    }

    /** `calc_pixel_z_score`: the statistics, the outlier scan, the
        background and the blended outlier. No channels divide by zero. */
    method CalcPixelZScore(pd: seq<byte>, pixel: array<byte>, ghost n: nat, draw: nat, sqrt: real -> real)
      returns (r: Outcome<byte>)
      requires Valid() && pixel != sample && |pd| == Offset(n, pixel.Length)
      requires |outlierIndices| == n && |values| == Offset(pixel.Length, n)
      modifies pixel, sample, mean, median, iqrInv, this`outlierIndices, this`values
      ensures Valid() && |outlierIndices| == n && |values| == Offset(pixel.Length, n)
      ensures pixel.Length == 0 ==> r.Panic?
      ensures pixel.Length > 0 ==>
                Produced(ZScore(threshold, background, outlier, Samples(pd, pixel.Length, n), pixel.Length, draw, sqrt),
                         r, pixel[..])
    {
      var ch := pixel.Length;
      if ch == 0 {
        return Panic(DIV_ZERO);
      }
      var samples := |pd| / ch;
      SampleCount(n, ch);
      ghost var ss := Samples(pd, ch, samples);
      var thrSq := ThresholdSq(threshold);
      var ok := Statistics(pd, ch, samples, ss);
      if !ok {
        return Panic(INDEX_PANIC);
      }
      ghost var centers := Centers(ss, ch, threshold.absolute);
      ghost var iqrs := IqrInvs(ss, ch, threshold.absolute);
      DistsAgree(ss, ch, median[..], iqrInv[..], centers, iqrs, threshold.absolute);
      ghost var dists := Dists(ss, ch, centers, iqrs, threshold.absolute);
      var num, maxIndex, maxDist := Scan(pd, ch, samples, thrSq);
      ZScoreBlends(threshold, background, outlier, ss, ch, draw, sqrt);
      assert outlierIndices[..num] == Outliers(dists, thrSq);
      assert (maxIndex, maxDist) == MaxOutlier(dists, thrSq);
      assert forall k :: 0 <= k < num ==> outlierIndices[k].0 < samples by {
        forall k | 0 <= k < num
          ensures outlierIndices[k].0 < samples
        {
          assert outlierIndices[k] == outlierIndices[..num][k];
        }
      }
      FillBackground(pd, pixel, samples, draw, ss);
      r := BlendOutliers(pd, pixel, samples, num, maxIndex, maxDist, sqrt, ss);
    }

    /** `calc_pixel`: the selection mode's rule for one output pixel. */
    method CalcPixel(pd: seq<byte>, pixel: array<byte>, ghost n: nat, draw: nat, sqrt: real -> real)
      returns (r: Outcome<byte>)
      requires Valid() && pixel != sample && |pd| == Offset(n, pixel.Length)
      requires |outlierIndices| == n && |values| == Offset(pixel.Length, n)
      modifies pixel, sample, mean, median, iqrInv, this`outlierIndices, this`values
      ensures Valid() && |outlierIndices| == n && |values| == Offset(pixel.Length, n)
      ensures Produced(PixelOf(mode, threshold, background, outlier, pd, pixel.Length, n, draw, sqrt), r, pixel[..])
    {
      match mode
      case Darker => r := CalcPixelExtreme(pd, pixel, false, n);
      case Lighter => r := CalcPixelExtreme(pd, pixel, true, n);
      case Outlier => r := CalcPixelZScore(pd, pixel, n, draw, sqrt);
    }

    /** The settings this processor composites with. */
    function Config(): Settings
    {
      Settings(mode, threshold, background, outlier)
    }

    /** Opening a band file and reading chunks until end-of-stream: the
        bytes of every chunk and the number of chunks, which is the number
        of rows. */
    method ReadBand(fs: Streams.FileSystem, path: string) returns (r: Outcome<(seq<byte>, nat)>)
      ensures BandRead(FileChunks(fs.files, path, Streams.CodecOf(codecs, compression)), r)
    {
      var input := Streams.OpenInput(fs, path, compression, codecs);
      if input.None? {
        return Err(NOT_FOUND);
      }
      var stream := input.value;
      ghost var f := Streams.CodecOf(codecs, compression);
      ghost var got: seq<seq<byte>> := [];
      var data: seq<byte> := [];
      var numRows := 0;
      assert ReadChunks(stream.data, 0, f).Ok? ==> [] + ReadChunks(stream.data, 0, f).value == ReadChunks(stream.data, 0, f).value;
      while true
        invariant stream.Valid() && stream.data == fs.files[path]
        invariant stream.compression == compression && stream.codecs == codecs
        invariant ReadChunks(stream.data, 0, f) == Prepend(got, ReadChunks(stream.data, stream.pos, f))
        invariant data == Concat(got) && numRows == |got|
        decreases |stream.data| - stream.pos
      {
        ghost var before := stream.pos;
        var res;
        data, res := stream.ReadChunk(data);
        match res
        case EndOfStream =>
          assert ReadChunks(stream.data, before, f) == Ok([]);
          assert got + [] == got;
          break;
        case DecodePanic =>
          return Panic(UNWRAP_PANIC);
        case Got(_) =>
          ghost var d := data[|Concat(got)|..];
          assert ReadChunks(stream.data, before, f) == Prepend([d], ReadChunks(stream.data, stream.pos, f));
          PrependTwice(got, [d], ReadChunks(stream.data, stream.pos, f));
          assert (got + [d])[..|got|] == got;
          got := got + [d];
          numRows := numRows + 1;
      }
      r := Ok((data, numRows));
    }

    /** Gathering column `col` of a band: `pixel_data[row * channels + ch]`
        becomes `data[row * height_stride + col_offset + ch]`; a read past the
        end of `data` panics. */
    method Gather(data: seq<byte>, rows: nat, hs: nat, colOff: nat, ch: nat, pd: seq<byte>)
      returns (ok: bool, pd': seq<byte>)
      requires |pd| == Offset(rows, ch)
      ensures ok <==> Gatherable(|data|, rows, hs, colOff, ch)
      ensures ok ==> pd' == Gathered(data, rows, hs, colOff, ch)
    {
      pd' := pd;
      if ch == 0 {
        OffsetZero(rows);
        return true, pd';
      }
      for row := 0 to rows
        invariant |pd'| == Offset(rows, ch) && Offset(row, ch) <= |pd'| && Gatherable(|data|, row, hs, colOff, ch)
        invariant pd'[..Offset(row, ch)] == Gathered(data, row, hs, colOff, ch)
      {
        ok, pd' := GatherRow(data, rows, row, hs, colOff, ch, pd');
        if !ok {
          return;
        }
      }
      ok := true;
      assert pd'[..Offset(rows, ch)] == pd';
    }

    /** Row `row` of the gather extends the gathered pixel data by one pixel,
        or finds the row past the end of `data`. */
    method GatherRow(data: seq<byte>, rows: nat, row: nat, hs: nat, colOff: nat, ch: nat, pd: seq<byte>)
      returns (ok: bool, pd': seq<byte>)
      requires ch > 0 && row < rows && |pd| == Offset(rows, ch) && Offset(row, ch) <= |pd|
      requires pd[..Offset(row, ch)] == Gathered(data, row, hs, colOff, ch)
      ensures |pd'| == Offset(rows, ch)
      ensures ok <==> Offset(row, hs) + colOff + ch <= |data|
      ensures !ok ==> !Gatherable(|data|, rows, hs, colOff, ch)
      ensures ok ==> Offset(row + 1, ch) <= |pd'| && pd'[..Offset(row + 1, ch)] == Gathered(data, row + 1, hs, colOff, ch)
    {
      OffsetBefore(row, rows, ch);
      ok, pd' := GatherPixel(data, Offset(row, hs) + colOff, pd, Offset(row, ch), ch);
      if !ok {
        GatherRowInside(|data|, rows, hs, colOff, ch, row);
        return;
      }
      GatheredPrefixStep(pd, pd', data, row, hs, colOff, ch);
    }

    /** One row of the gather: the `ch` bytes at `src` copied to `dst`. */
    method GatherPixel(data: seq<byte>, src: nat, pd: seq<byte>, dst: nat, ch: nat) returns (ok: bool, pd': seq<byte>)
      requires dst + ch <= |pd| && ch > 0
      ensures ok <==> src + ch <= |data|
      ensures ok ==> pd' == pd[..dst] + data[src .. src + ch] + pd[dst + ch..]
      ensures ok ==> pd'[..dst + ch] == pd[..dst] + data[src .. src + ch]
      ensures |pd'| == |pd|
    {
      pd' := pd;
      for c := 0 to ch
        invariant |pd'| == |pd| && (c > 0 ==> src + c <= |data|)
        invariant forall j :: dst <= j < dst + c ==> pd'[j] == data[src + (j - dst)]
        invariant forall j :: 0 <= j < |pd| && (j < dst || dst + c <= j) ==> pd'[j] == pd[j]
      {
        if src + c >= |data| {
          return false, pd';
        }
        pd' := pd'[dst + c := data[src + c]];
      }
      ok := true;
      assert pd' == pd[..dst] + data[src .. src + ch] + pd[dst + ch..];
      assert pd'[..dst + ch] == pd[..dst] + data[src .. src + ch];
    }

    /** Scattering one pixel: `buffer[idx] = pixel[ch]`, and the blend byte
        (channels below 3) or 255 into `is_outlier[idx]`, for `idx = start + ch`. */
    method Scatter(buffer: array<byte>, isOutlier: array<byte>, pixel: array<byte>, start: nat, blend: byte)
      requires buffer != isOutlier && pixel != buffer && pixel != isOutlier
      requires start + pixel.Length <= buffer.Length == isOutlier.Length
      modifies buffer, isOutlier
      ensures buffer[..] == old(buffer[..start]) + pixel[..] + old(buffer[start + pixel.Length..])
      ensures isOutlier[..] == old(isOutlier[..start]) + BlendBytes(blend, pixel.Length) + old(isOutlier[start + pixel.Length..])
    {
      ghost var bytes := BlendBytes(blend, pixel.Length);
      for c := 0 to pixel.Length
        invariant forall j :: 0 <= j < buffer.Length ==>
                    buffer[j] == if start <= j < start + c then pixel[j - start] else old(buffer[j])
        invariant forall j :: 0 <= j < isOutlier.Length ==>
                    isOutlier[j] == if start <= j < start + c then bytes[j - start] else old(isOutlier[j])
      {
        buffer[start + c] := pixel[c];
        isOutlier[start + c] := if c < 3 then blend else 255;
      }
    }

    /** `ChronoProcessor::process`: for each band file, read its rows, then
        choose and write every pixel of the output row with the same index. The
        result is the output image and the blend image, each of
        `height * height_stride` bytes, holding exactly the choices `Grid` makes;
        or the first read error; or a panic. */
    method Process(layout: Layout, paths: seq<string>, fs: Streams.FileSystem,
                   draws: (nat, nat) -> nat, sqrt: real -> real)
      returns (r: Outcome<(seq<byte>, seq<byte>)>)
      requires Valid() && |values| == Offset(layout.widthStride, |outlierIndices|)
      requires |paths| <= layout.height && Offset(layout.width, layout.widthStride) <= layout.heightStride
      modifies sample, mean, median, iqrInv, this`outlierIndices, this`values
      ensures Imaged(Grid(Config(), fs.files, paths, Streams.CodecOf(codecs, compression), layout.heightStride,
                          layout.widthStride, layout.width, draws, sqrt),
                     r, Offset(layout.height, layout.heightStride),
                     layout.heightStride, layout.widthStride, layout.width)
    {
      var ch, hs, width := layout.widthStride, layout.heightStride, layout.width;
      ghost var f := Streams.CodecOf(codecs, compression);
      OffsetProduct(layout.height, hs);
      var buffer := new byte[layout.height * hs](_ => 0);
      var isOutlier := new byte[layout.height * hs](_ => 0);
      var pd: seq<byte> := [];
      var pixel := new byte[ch](_ => 0);
      ghost var done: seq<seq<PixelChoice>> := [];
      ComposeEmpty(buffer.Length, hs, ch, width);
      assert buffer[..] == seq(buffer.Length, _ => 0) && isOutlier[..] == seq(buffer.Length, _ => 0);
      for outRow := 0 to |paths|
        invariant Valid() && |values| == Offset(ch, |outlierIndices|)
        invariant buffer != isOutlier && pixel != buffer && pixel != isOutlier && pixel != sample
        invariant buffer != sample && isOutlier != sample && pixel.Length == ch
        invariant buffer.Length == isOutlier.Length == Offset(layout.height, hs)
        invariant Grid(Config(), fs.files, paths[..outRow], f, hs, ch, width, draws, sqrt) == Ok(done)
        invariant |done| == outRow && Shaped(done, width, ch)
        invariant Composed(buffer[..], isOutlier[..], done, [], hs, ch, width)
      {
        assert paths[..outRow + 1][..outRow] == paths[..outRow];
        OffsetMono(outRow + 1, layout.height, hs);
        var res;
        ghost var cs;
        res, pd, cs := ProcessBand(fs, paths[outRow], outRow, hs, width, buffer, isOutlier, pixel, pd, draws, sqrt, done);
        if !res.Ok? {
          r := if res.Err? then Err(res.message) else Panic(res.message);
          GridStops(Config(), fs.files, paths, outRow + 1, f, hs, ch, width, draws, sqrt);
          return;
        }
        assert Grid(Config(), fs.files, paths[..outRow + 1], f, hs, ch, width, draws, sqrt) == Ok(done + [cs]);
        ComposeRow(buffer[..], isOutlier[..], done, cs, hs, ch, width);
        done := done + [cs];
      }
      assert paths[..|paths|] == paths;
      r := Ok((buffer[..], isOutlier[..]));
    }

    /** One band file of `process`: read its rows, resize the scratch lists
        to them and fill output row `outRow`. */
    method ProcessBand(fs: Streams.FileSystem, path: string, outRow: nat, hs: nat, width: nat,
                       buffer: array<byte>, isOutlier: array<byte>, pixel: array<byte>, pd: seq<byte>,
                       draws: (nat, nat) -> nat, sqrt: real -> real, ghost done: seq<seq<PixelChoice>>)
      returns (r: Outcome<()>, pd': seq<byte>, ghost cs: seq<PixelChoice>)
      requires Valid() && |values| == Offset(pixel.Length, |outlierIndices|)
      requires buffer != isOutlier && pixel != buffer && pixel != isOutlier && pixel != sample
      requires buffer != sample && isOutlier != sample
      requires |done| == outRow && Shaped(done, width, pixel.Length) && Offset(width, pixel.Length) <= hs
      requires Offset(outRow + 1, hs) <= buffer.Length
      requires Composed(buffer[..], isOutlier[..], done, [], hs, pixel.Length, width)
      modifies buffer, isOutlier, pixel, sample, mean, median, iqrInv, this`outlierIndices, this`values
      ensures Valid() && |values| == Offset(pixel.Length, |outlierIndices|)
      ensures RowDone(BandRow(Config(), fs.files, path, Streams.CodecOf(codecs, compression), hs, pixel.Length,
                              outRow, width, draws, sqrt), r)
      ensures r.Ok? ==> BandRow(Config(), fs.files, path, Streams.CodecOf(codecs, compression), hs, pixel.Length,
                                outRow, width, draws, sqrt) == Ok(cs)
      ensures r.Ok? ==> |cs| == width && forall k :: 0 <= k < width ==> |cs[k].pixel| == pixel.Length
      ensures r.Ok? ==> Composed(buffer[..], isOutlier[..], done, cs, hs, pixel.Length, width)
    {
      var ch := pixel.Length;
      ghost var f := Streams.CodecOf(codecs, compression);
      ghost var chunks := FileChunks(fs.files, path, f);
      pd' := pd;
      var band := ReadBand(fs, path);
      if !band.Ok? {
        r := if band.Err? then Err(band.message) else Panic(band.message);
        assert !chunks.Ok? && RowDone(chunks, r);
        return r, pd', [];
      }
      var (data, rows) := band.value;
      assert chunks.Ok? && data == Concat(chunks.value) && rows == |chunks.value|;
      assert BandRow(Config(), fs.files, path, f, hs, ch, outRow, width, draws, sqrt)
          == RowChoices(Config(), data, rows, hs, ch, outRow, draws, sqrt, width);
      OffsetProduct(rows, ch);
      if |pd'| != rows * ch {
        pd' := seq(rows * ch, _ => 0);
      }
      if |outlierIndices| != rows {
        outlierIndices := seq(rows, _ => (0, 0.0));
        values := seq(rows * ch, _ => 0);
      }
      OffsetProduct(ch, rows);
      r, pd', cs := ProcessRow(data, rows, outRow, hs, width, buffer, isOutlier, pixel, pd', draws, sqrt, done);
    }

    /** One output row: every column gathered from the band's `rows` rows,
        its pixel chosen and scattered at row `row`. */
    method ProcessRow(data: seq<byte>, rows: nat, row: nat, hs: nat, width: nat,
                      buffer: array<byte>, isOutlier: array<byte>, pixel: array<byte>, pd: seq<byte>,
                      draws: (nat, nat) -> nat, sqrt: real -> real, ghost done: seq<seq<PixelChoice>>)
      returns (r: Outcome<()>, pd': seq<byte>, ghost cs: seq<PixelChoice>)
      requires Valid() && |outlierIndices| == rows && |values| == Offset(pixel.Length, rows)
      requires |pd| == Offset(rows, pixel.Length)
      requires buffer != isOutlier && pixel != buffer && pixel != isOutlier && pixel != sample
      requires buffer != sample && isOutlier != sample
      requires |done| == row && Shaped(done, width, pixel.Length) && Offset(width, pixel.Length) <= hs
      requires Offset(row + 1, hs) <= buffer.Length
      requires Composed(buffer[..], isOutlier[..], done, [], hs, pixel.Length, width)
      modifies buffer, isOutlier, pixel, sample, mean, median, iqrInv, this`outlierIndices, this`values
      ensures Valid() && |outlierIndices| == rows && |values| == Offset(pixel.Length, rows)
      ensures |pd'| == Offset(rows, pixel.Length)
      ensures RowDone(RowChoices(Config(), data, rows, hs, pixel.Length, row, draws, sqrt, width), r)
      ensures r.Ok? ==> RowChoices(Config(), data, rows, hs, pixel.Length, row, draws, sqrt, width) == Ok(cs)
      ensures r.Ok? ==> |cs| == width && forall k :: 0 <= k < width ==> |cs[k].pixel| == pixel.Length
      ensures r.Ok? ==> Composed(buffer[..], isOutlier[..], done, cs, hs, pixel.Length, width)
    {
      var ch := pixel.Length;
      pd' := pd;
      cs := [];
      for col := 0 to width
        invariant Valid() && |outlierIndices| == rows && |values| == Offset(ch, rows) && |pd'| == Offset(rows, ch)
        invariant RowChoices(Config(), data, rows, hs, ch, row, draws, sqrt, col) == Ok(cs)
        invariant |cs| == col && forall k :: 0 <= k < col ==> |cs[k].pixel| == ch
        invariant Composed(buffer[..], isOutlier[..], done, cs, hs, ch, width)
      {
        var res;
        ghost var x;
        res, pd', x := ProcessColumn(data, rows, row, col, hs, width, buffer, isOutlier, pixel, pd', draws, sqrt, done, cs);
        RowChoicesStep(Config(), data, rows, hs, ch, row, draws, sqrt, col);
        if !res.Ok? {
          RowStops(Config(), data, rows, hs, ch, row, draws, sqrt, col + 1, width);
          return res, pd', cs;
        }
        cs := cs + [x];
      }
      r := Ok(());
    }

    /** One column of an output row: the gather, `calc_pixel` and the scatter
        of the pixel and its blend byte. */
    method ProcessColumn(data: seq<byte>, rows: nat, row: nat, col: nat, hs: nat, width: nat,
                         buffer: array<byte>, isOutlier: array<byte>, pixel: array<byte>, pd: seq<byte>,
                         draws: (nat, nat) -> nat, sqrt: real -> real,
                         ghost done: seq<seq<PixelChoice>>, ghost cs: seq<PixelChoice>)
      returns (r: Outcome<()>, pd': seq<byte>, ghost x: PixelChoice)
      requires Valid() && |outlierIndices| == rows && |values| == Offset(pixel.Length, rows)
      requires |pd| == Offset(rows, pixel.Length)
      requires buffer != isOutlier && pixel != buffer && pixel != isOutlier && pixel != sample
      requires buffer != sample && isOutlier != sample
      requires |done| == row && Shaped(done, width, pixel.Length) && Offset(width, pixel.Length) <= hs
      requires Offset(row + 1, hs) <= buffer.Length
      requires col == |cs| < width && Composed(buffer[..], isOutlier[..], done, cs, hs, pixel.Length, width)
      modifies buffer, isOutlier, pixel, sample, mean, median, iqrInv, this`outlierIndices, this`values
      ensures Valid() && |outlierIndices| == rows && |values| == Offset(pixel.Length, rows)
      ensures |pd'| == Offset(rows, pixel.Length)
      ensures RowDone(ColumnChoice(Config(), data, rows, hs, pixel.Length, col, draws(row, col), sqrt), r)
      ensures r.Ok? ==> ColumnChoice(Config(), data, rows, hs, pixel.Length, col, draws(row, col), sqrt) == Ok(x)
      ensures r.Ok? ==> |x.pixel| == pixel.Length
      ensures r.Ok? ==> Composed(buffer[..], isOutlier[..], done, cs + [x], hs, pixel.Length, width)
    {
      var ch := pixel.Length;
      ghost var buf0, bl0 := buffer[..], isOutlier[..];
      x := PixelChoice([], 0);
      var ok;
      OffsetProduct(col, ch);
      ok, pd' := Gather(data, rows, hs, col * ch, ch, pd);
      if !ok {
        return Panic(INDEX_PANIC), pd, x;
      }
      ghost var e := PixelOf(mode, threshold, background, outlier, pd', ch, rows, draws(row, col), sqrt);
      assert ColumnChoice(Config(), data, rows, hs, ch, col, draws(row, col), sqrt) == e;
      var b := CalcPixel(pd', pixel, rows, draws(row, col), sqrt);
      if !b.Ok? {
        r := if b.Err? then Err(b.message) else Panic(b.message);
        return r, pd', x;
      }
      assert e.Ok? && ch > 0;
      assert buffer[..] == buf0 && isOutlier[..] == bl0;
      x := PixelChoice(pixel[..], b.value);
      assert e == Ok(x);
      var start := row * hs + col * ch;
      OffsetProduct(row, hs);
      CellRange(row, col, hs, ch, width);
      Scatter(buffer, isOutlier, pixel, start, b.value);
      ComposeColumn(buf0, bl0, buffer[..], isOutlier[..], done, cs, x, start, hs, ch, width);
      r := Ok(());
    }
  }
}
