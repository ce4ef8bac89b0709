/** What `ChronoProcessor` makes of the samples one pixel position has in
    every frame: the outlier classification, the background and outlier
    choices and the blend of the z-score mode, and the lighter/darker rules.
    `ChronoProcessor`'s methods are proved to compute these. */
module ChronoSelect {
  import opened Common
  import opened Color
  import opened ChronoStats
  import Options
  import opened Banding

  // -----------------------------------------------------------------------
  // Samples

  /** Sample `s` starts `s * ch` bytes in (`Offset(s, ch)`) and ends within
      `n` samples. */
  lemma SampleInside(s: nat, n: nat, ch: nat)
    requires s < n
    ensures Offset(s, ch) + ch <= Offset(n, ch)
  {
    OffsetBefore(s, n, ch);
  }

  /** The `ch` bytes of sample `s`. */
  function Chunk(pd: seq<byte>, ch: nat, s: nat): (p: seq<byte>)
    requires Offset(s, ch) + ch <= |pd|
    ensures |p| == ch
  {
    pd[Offset(s, ch) .. Offset(s, ch) + ch]
  }

  /** The pixel of every frame at one position: `pixel_data.chunks(channels)`
      of a buffer holding `n` whole pixels, `n * ch` bytes. */
  function Samples(pd: seq<byte>, ch: nat, n: nat): (ss: seq<seq<byte>>)
    requires |pd| == Offset(n, ch)
    ensures |ss| == n && Uniform(ss, ch)
  {
    seq(n, s requires 0 <= s < n => SampleInside(s, n, ch); Chunk(pd, ch, s))
  }

  /** Channel `i` of sample `s` is `pixel_data[s * ch + i]`. */
  lemma SampleAt(pd: seq<byte>, ch: nat, n: nat, s: nat, i: nat)
    requires |pd| == Offset(n, ch) && s < n && i < ch
    ensures Offset(s, ch) + ch <= |pd| && Samples(pd, ch, n)[s][i] == pd[Offset(s, ch) + i]
    ensures Samples(pd, ch, n)[s] == pd[Offset(s, ch) .. Offset(s, ch) + ch]
  {
    SampleInside(s, n, ch);
  }

  /** Every sample has `ch` channels. */
  predicate Uniform(ss: seq<seq<byte>>, ch: nat)
  {
    forall s :: 0 <= s < |ss| ==> |ss[s]| == ch
  }

  /** Channel `i` of every sample, in frame order. */
  function Column(ss: seq<seq<byte>>, i: nat): (col: seq<byte>)
    requires forall s :: 0 <= s < |ss| ==> i < |ss[s]|
    ensures |col| == |ss| && forall s :: 0 <= s < |ss| ==> col[s] == ss[s][i]
  {
    seq(|ss|, s requires 0 <= s < |ss| => ss[s][i])
  }

  /** The sum of channel `i` over every sample. */
  function ColumnSum(ss: seq<seq<byte>>, i: nat): nat
    requires forall s :: 0 <= s < |ss| ==> i < |ss[s]|
  {
    if |ss| == 0 then 0 else ColumnSum(ss[..|ss| - 1], i) + ss[|ss| - 1][i]
  }

  /** The per-channel mean, `mean[i] / samples`. */
  function Means(ss: seq<seq<byte>>, ch: nat): (m: seq<real>)
    requires Uniform(ss, ch) && |ss| > 0
    ensures |m| == ch
  {
    seq(ch, i requires 0 <= i < ch => ColumnSum(ss, i) as real / |ss| as real)
  }

  // -----------------------------------------------------------------------
  // Centres and distances

  /** The fewest samples the centre statistic reads inside: `median` needs
      two, `quartiles` five. */
  function MinSamples(absolute: bool): nat
  {
    if absolute then 2 else 5
  }

  /** `median[i]`: the median of the sorted column in absolute mode, the
      middle quartile in relative mode. */
  function CenterOf(col: seq<byte>, absolute: bool): real
    requires |col| >= MinSamples(absolute)
  {
    SortedCenter(Sort(col), absolute)
  }

  /** The centre statistic of an already sorted column. */
  function SortedCenter(sorted: seq<byte>, absolute: bool): real
    requires |sorted| >= MinSamples(absolute)
  {
    if absolute then
      MedianInBounds(sorted);
      Median(sorted).value
    else
      QuartilesInBounds(sorted);
      Quartiles(sorted).value.1
  }

  /** `iqr_inv[i]`: one over the inter-quartile range, or one when the range is zero. */
  function IqrInvOf(col: seq<byte>): real
    requires |col| >= 5
  {
    SortedIqrInv(Sort(col))
  }

  /** The inverse inter-quartile range of an already sorted column. */
  function SortedIqrInv(sorted: seq<byte>): real
    requires |sorted| >= 5
  {
    QuartilesInBounds(sorted);
    var q := Quartiles(sorted).value;
    var iqr := q.2 - q.0;
    1.0 / (if iqr == 0.0 then 1.0 else iqr)
  }

  /** The centre of every channel. */
  function Centers(ss: seq<seq<byte>>, ch: nat, absolute: bool): (c: seq<real>)
    requires Uniform(ss, ch) && |ss| >= MinSamples(absolute)
    ensures |c| == ch
  {
    seq(ch, i requires 0 <= i < ch => CenterOf(Column(ss, i), absolute))
  }

  /** The inverse inter-quartile range of every channel; absolute mode does
      not use it. */
  function IqrInvs(ss: seq<seq<byte>>, ch: nat, absolute: bool): (q: seq<real>)
    requires Uniform(ss, ch) && |ss| >= MinSamples(absolute)
    ensures |q| == ch
  {
    if absolute then seq(ch, _ => 1.0)
    else seq(ch, i requires 0 <= i < ch => IqrInvOf(Column(ss, i)))
  }

  /** One channel's share of the squared distance: nothing when the sample
      equals the centre, otherwise the squared difference, scaled by the
      inverse inter-quartile range in relative mode. */
  function Term(center: real, iqrInv: real, p: byte, absolute: bool): (t: real)
    ensures t >= 0.0
  {
    var diff := center - p as real;
    if diff == 0.0 then 0.0
    else if absolute then diff * diff
    else (iqrInv * diff) * (iqrInv * diff)
  }

  /** `dist_sq` of a sample over its first `k` channels. */
  function DistSq(p: seq<byte>, centers: seq<real>, iqrs: seq<real>, absolute: bool, k: nat): (d: real)
    requires k <= |p| && k <= |centers| && k <= |iqrs|
    ensures d >= 0.0
  {
    if k == 0 then 0.0
    else DistSq(p, centers, iqrs, absolute, k - 1) + Term(centers[k - 1], iqrs[k - 1], p[k - 1], absolute)
  }

  /** `dist_sq` reads only the first `k` centres, and the inverse
      inter-quartile ranges only in relative mode. */
  lemma {:induction false} DistSqAgree(p: seq<byte>, centers: seq<real>, iqrs: seq<real>,
                                       centers': seq<real>, iqrs': seq<real>, absolute: bool, k: nat)
    requires k <= |p| && k <= |centers| && k <= |iqrs| && k <= |centers'| && k <= |iqrs'|
    requires forall j :: 0 <= j < k ==> centers[j] == centers'[j]
    requires !absolute ==> forall j :: 0 <= j < k ==> iqrs[j] == iqrs'[j]
    ensures DistSq(p, centers, iqrs, absolute, k) == DistSq(p, centers', iqrs', absolute, k)
  {
    if k > 0 {
      DistSqAgree(p, centers, iqrs, centers', iqrs', absolute, k - 1);
    }
  }

  /** `dist_sq` of every sample. */
  function Dists(ss: seq<seq<byte>>, ch: nat, centers: seq<real>, iqrs: seq<real>, absolute: bool): (ds: seq<real>)
    requires Uniform(ss, ch) && |centers| >= ch && |iqrs| >= ch
    ensures |ds| == |ss| && forall s :: 0 <= s < |ss| ==> ds[s] >= 0.0
  {
    seq(|ss|, s requires 0 <= s < |ss| => DistSq(ss[s], centers, iqrs, absolute, ch))
  }

  /** The distances depend only on the first `ch` centres and, in relative
      mode, inverse inter-quartile ranges. */
  lemma DistsAgree(ss: seq<seq<byte>>, ch: nat, centers: seq<real>, iqrs: seq<real>,
                   centers': seq<real>, iqrs': seq<real>, absolute: bool)
    requires Uniform(ss, ch) && |centers| >= ch && |iqrs| >= ch && |centers'| >= ch && |iqrs'| >= ch
    requires forall j :: 0 <= j < ch ==> centers[j] == centers'[j]
    requires !absolute ==> forall j :: 0 <= j < ch ==> iqrs[j] == iqrs'[j]
    ensures Dists(ss, ch, centers, iqrs, absolute) == Dists(ss, ch, centers', iqrs', absolute)
  {
    forall s | 0 <= s < |ss|
      ensures Dists(ss, ch, centers, iqrs, absolute)[s] == Dists(ss, ch, centers', iqrs', absolute)[s]
    {
      DistSqAgree(ss[s], centers, iqrs, centers', iqrs', absolute, ch);
    }
  }

  // -----------------------------------------------------------------------
  // Outlier classification

  /** `outlier_indices[..num_outliers]`: every sample whose squared distance
      reaches `thr`, with that distance, in sample order. */
  function Outliers(dists: seq<real>, thr: real): (outs: seq<(nat, real)>)
    ensures |outs| <= |dists|
    ensures forall k :: 0 <= k < |outs| ==> outs[k].0 < |dists| && outs[k].1 == dists[outs[k].0] && outs[k].1 >= thr
  {
    if |dists| == 0 then []
    else
      var n := |dists| - 1;
      Outliers(dists[..n], thr) + (if dists[n] >= thr then [(n, dists[n])] else [])
  }

  /** `(max_index, max_dist_sq)`: starting from `(0, 0)`, each outlier whose
      distance is strictly larger than the current maximum replaces it. */
  function MaxOutlier(dists: seq<real>, thr: real): (m: (nat, real))
    ensures |dists| > 0 ==> m.0 < |dists|
  {
    if |dists| == 0 then (0, 0.0)
    else
      var n := |dists| - 1;
      var m := MaxOutlier(dists[..n], thr);
      if dists[n] >= thr && dists[n] > m.1 then (n, dists[n]) else m
  }

  /** Whether sample `j` is among the recorded outliers. */
  predicate Recorded(outs: seq<(nat, real)>, j: nat)
  {
    exists k :: 0 <= k < |outs| && outs[k].0 == j
  }

  /** The recorded outliers are in ascending sample order. */
  lemma {:induction false} OutliersAscending(dists: seq<real>, thr: real)
    ensures forall k, l :: 0 <= k < l < |Outliers(dists, thr)| ==> Outliers(dists, thr)[k].0 < Outliers(dists, thr)[l].0
  {
    if |dists| > 0 {
      var n := |dists| - 1;
      OutliersAscending(dists[..n], thr);
      var prev := Outliers(dists[..n], thr);
      var outs := Outliers(dists, thr);
      assert outs == prev + (if dists[n] >= thr then [(n, dists[n])] else []);
      forall k, l | 0 <= k < l < |outs|
        ensures outs[k].0 < outs[l].0
      {
        assert outs[k] == prev[k];
        if l < |prev| {
          assert outs[l] == prev[l];
          assert prev[k].0 < prev[l].0;
        } else {
          assert outs[l].0 == n;
          assert prev[k].0 < |dists[..n]|;
        }
      }
    }
  }

  /** Every sample at or above the threshold is recorded. */
  lemma {:induction false} OutliersComplete(dists: seq<real>, thr: real, j: nat)
    requires j < |dists| && dists[j] >= thr
    ensures Recorded(Outliers(dists, thr), j)
  {
    var n := |dists| - 1;
    var prev := Outliers(dists[..n], thr);
    var outs := Outliers(dists, thr);
    if j < n {
      OutliersComplete(dists[..n], thr, j);
      var k :| 0 <= k < |prev| && prev[k].0 == j;
      assert outs[k] == prev[k];
    } else {
      assert outs[|prev|].0 == j;
    }
  }

  /** When every sample reaches the threshold (as at a threshold of zero),
      every sample is recorded. */
  lemma {:induction false} OutliersAll(dists: seq<real>, thr: real)
    requires forall j :: 0 <= j < |dists| ==> dists[j] >= thr
    ensures |Outliers(dists, thr)| == |dists|
  {
    if |dists| > 0 {
      OutliersAll(dists[..|dists| - 1], thr);
    }
  }

  /** No recorded distance exceeds the tracked maximum, and every outlier
      before it is strictly smaller: the strict comparison keeps the
      earliest maximum. */
  lemma {:induction false} MaxOutlierIsMax(dists: seq<real>, thr: real)
    ensures forall k :: 0 <= k < |Outliers(dists, thr)| ==> Outliers(dists, thr)[k].1 <= MaxOutlier(dists, thr).1
    ensures forall k :: 0 <= k < |Outliers(dists, thr)| && Outliers(dists, thr)[k].0 < MaxOutlier(dists, thr).0 ==>
              Outliers(dists, thr)[k].1 < MaxOutlier(dists, thr).1
  {
    if |dists| > 0 {
      var n := |dists| - 1;
      MaxOutlierIsMax(dists[..n], thr);
      var prev := Outliers(dists[..n], thr);
      var pm := MaxOutlier(dists[..n], thr);
      var outs := Outliers(dists, thr);
      var m := MaxOutlier(dists, thr);
      assert outs == prev + (if dists[n] >= thr then [(n, dists[n])] else []);
      assert m.1 >= pm.1;
      forall k | 0 <= k < |outs|
        ensures outs[k].1 <= m.1
        ensures outs[k].0 < m.0 ==> outs[k].1 < m.1
      {
        if k < |prev| {
          assert outs[k] == prev[k];
          assert prev[k].1 <= pm.1;
          assert prev[k].0 < pm.0 ==> prev[k].1 < pm.1;
          if m != pm {
            assert m == (n, dists[n]) && prev[k].0 < n;
          }
        } else {
          assert outs[k] == (n, dists[n]);
          if m == pm {
            assert dists[n] <= pm.1;
            assert n > 0 ==> pm.0 < n;
          }
        }
      }
    }
  }

  /** The tracked maximum keeps its start `(0, 0)` when nothing is
      recorded; with a non-negative threshold and distances it is otherwise
      one of the recorded outliers. */
  lemma {:induction false} MaxOutlierRecorded(dists: seq<real>, thr: real)
    requires thr >= 0.0 && forall j :: 0 <= j < |dists| ==> dists[j] >= 0.0
    ensures var outs := Outliers(dists, thr);
            var m := MaxOutlier(dists, thr);
            && (|outs| == 0 ==> m == (0, 0.0))
            && (|outs| > 0 ==> exists k :: 0 <= k < |outs| && outs[k] == m)
  {
    if |dists| > 0 {
      var n := |dists| - 1;
      var prev := Outliers(dists[..n], thr);
      var pm := MaxOutlier(dists[..n], thr);
      MaxOutlierRecorded(dists[..n], thr);
      var outs := Outliers(dists, thr);
      var m := MaxOutlier(dists, thr);
      if dists[n] < thr {
        assert outs == prev;
      } else if dists[n] > pm.1 {
        assert outs[|prev|] == m;
      } else if |prev| > 0 {
        var k :| 0 <= k < |prev| && prev[k] == pm;
        assert outs[k] == m;
      } else {
        FirstOutlierZero(dists, thr);
      }
    }
  }

  /** A first outlier of distance zero at the last sample means the
      threshold is zero and every earlier sample was recorded: it is sample 0. */
  lemma FirstOutlierZero(dists: seq<real>, thr: real)
    requires |dists| > 0 && thr >= 0.0 && forall j :: 0 <= j < |dists| ==> dists[j] >= 0.0
    requires Outliers(dists[..|dists| - 1], thr) == []
    requires 0.0 >= dists[|dists| - 1] >= thr
    ensures MaxOutlier(dists, thr) == Outliers(dists, thr)[0]
  {
    var n := |dists| - 1;
    if n > 0 {
      OutliersComplete(dists[..n], thr, 0);
      assert false;
    }
  }

  // -----------------------------------------------------------------------
  // Background and outlier choice

  /** The pixel used when no outlier is found: the first frame's, a random
      frame's (`draw % n` stands for `gen_range(0, samples)`), or the rounded
      per-channel mean or median. */
  function Background(mode: Options.BackgroundMode, ss: seq<seq<byte>>, ch: nat,
                      means: seq<real>, centers: seq<real>, draw: nat): (bg: seq<byte>)
    requires Uniform(ss, ch) && |ss| > 0 && |means| == ch && |centers| == ch
    ensures |bg| == ch
  {
    match mode
    case AverageFrame => seq(ch, c requires 0 <= c < ch => RoundToByte(means[c]))
    case MedianFrame => seq(ch, c requires 0 <= c < ch => RoundToByte(centers[c]))
    case FirstFrame => ss[0]
    case RandomFrame => ss[draw % |ss|]
  }

  /** The sum of channel `c` over the recorded outliers. */
  function OutlierSum(ss: seq<seq<byte>>, ch: nat, outs: seq<(nat, real)>, c: nat): nat
    requires Uniform(ss, ch) && c < ch
    requires forall k :: 0 <= k < |outs| ==> outs[k].0 < |ss|
  {
    if |outs| == 0 then 0
    else OutlierSum(ss, ch, outs[..|outs| - 1], c) + ss[outs[|outs| - 1].0][c]
  }

  /** `mean_dist` before the division: the distances of the outliers summed. */
  function SqrtSum(outs: seq<(nat, real)>, sqrt: real -> real): real
  {
    if |outs| == 0 then 0.0 else SqrtSum(outs[..|outs| - 1], sqrt) + sqrt(outs[|outs| - 1].1)
  }

  /** The rounded per-channel mean of the outliers, `self.sample[..channels]`. */
  function OutlierMean(ss: seq<seq<byte>>, ch: nat, outs: seq<(nat, real)>): (avg: seq<byte>)
    requires Uniform(ss, ch) && |outs| > 0
    requires forall k :: 0 <= k < |outs| ==> outs[k].0 < |ss|
    ensures |avg| == ch
  {
    seq(ch, c requires 0 <= c < ch => RoundToByte(OutlierSum(ss, ch, outs, c) as real / |outs| as real))
  }

  /** The outlier to blend and its distance: the first or the last recorded
      outlier, the tracked maximum, or for `Average` the single outlier or
      the mean of all of them with their mean distance. */
  function Representative(mode: OutlierSelectionMode, ss: seq<seq<byte>>, ch: nat,
                          outs: seq<(nat, real)>, max: (nat, real), sqrt: real -> real): (r: (seq<byte>, real))
    requires Uniform(ss, ch) && |outs| > 0 && max.0 < |ss|
    requires forall k :: 0 <= k < |outs| ==> outs[k].0 < |ss|
    ensures |r.0| == ch
  {
    match mode
    case Average =>
      if |outs| == 1 then (ss[outs[0].0], sqrt(outs[0].1))
      else (OutlierMean(ss, ch, outs), SqrtSum(outs, sqrt) / |outs| as real)
    case First => (ss[outs[0].0], sqrt(outs[0].1))
    case Last => (ss[outs[|outs| - 1].0], sqrt(outs[|outs| - 1].1))
    case Extreme => (ss[max.0], sqrt(max.1))
  }

  /** `OutlierSelectionMode` as `chrono.rs` defines it: four modes. */
  datatype OutlierSelectionMode = First | Last | Extreme | Average

  /** `blend_into(pixel, &self.sample[..], blend)` for several averaged
      outliers: the sample buffer always has four entries, so a full blend
      copies four bytes and panics on a pixel with fewer channels. */
  function AverageBlend(bg: seq<byte>, avg: seq<byte>, blend: real): (r: Outcome<seq<byte>>)
    requires |avg| == |bg| <= 4
  {
    if blend >= 1.0 && |bg| < 4 then Panic(INDEX_PANIC) else Ok(BlendU8(bg, avg, blend))
  }

  /** The blend evidently intended, `&self.sample[..channels]`: the averaged
      outlier itself at full blend, for any number of channels. */
  function AverageBlendIntended(bg: seq<byte>, avg: seq<byte>, blend: real): (r: seq<byte>)
    requires |avg| == |bg|
    ensures |r| == |bg|
    ensures blend >= 1.0 ==> r == avg
    ensures blend <= 0.0 ==> r == bg
    ensures forall c :: 0 <= c < |bg| ==> Between(r[c], bg[c], avg[c])
  {
    var r := BlendU8(bg, avg, blend);
    assert blend >= 1.0 ==> r == r[..|avg|];
    r
  }

  /** As written, a full blend of several averaged outliers into an RGB (or
      narrower) pixel panics; otherwise it is the intended blend. */
  lemma AverageBlendPanics(bg: seq<byte>, avg: seq<byte>, blend: real)
    requires |avg| == |bg| <= 4
    ensures AverageBlend(bg, avg, blend).Panic? <==> blend >= 1.0 && |bg| < 4
    ensures AverageBlend(bg, avg, blend).Ok? ==> AverageBlend(bg, avg, blend).value == AverageBlendIntended(bg, avg, blend)
  {
  }

  /** The outcome of one output pixel: the pixel and its blend byte. */
  datatype PixelChoice = PixelChoice(pixel: seq<byte>, blend: byte)

  /** `threshold_sq`: the squared distance from which a sample is an outlier. */
  function ThresholdSq(t: Options.Threshold): real
  {
    t.min * t.min
  }

  /** `calc_pixel_z_score` on the samples of one position. More than four
      channels index past `mean`; too few samples index past the sorted
      column; several averaged outliers can panic at the blend. */
  function ZScore(t: Options.Threshold, bgMode: Options.BackgroundMode, mode: OutlierSelectionMode,
                  ss: seq<seq<byte>>, ch: nat, draw: nat, sqrt: real -> real): Outcome<PixelChoice>
    requires Uniform(ss, ch)
  {
    if ch > 4 || |ss| < MinSamples(t.absolute) then Panic(INDEX_PANIC)
    else
      var centers := Centers(ss, ch, t.absolute);
      var dists := Dists(ss, ch, centers, IqrInvs(ss, ch, t.absolute), t.absolute);
      var thr := ThresholdSq(t);
      var outs := Outliers(dists, thr);
      var bg := Background(bgMode, ss, ch, Means(ss, ch), centers, draw);
      Blended(t, mode, ss, ch, outs, MaxOutlier(dists, thr), bg, sqrt)
  }

  /** With few enough channels and enough samples, `calc_pixel_z_score`
      blends the outliers of the channel centres into the background. */
  lemma ZScoreBlends(t: Options.Threshold, bgMode: Options.BackgroundMode, mode: OutlierSelectionMode,
                     ss: seq<seq<byte>>, ch: nat, draw: nat, sqrt: real -> real)
    requires Uniform(ss, ch) && ch <= 4 && |ss| >= MinSamples(t.absolute)
    ensures ZScore(t, bgMode, mode, ss, ch, draw, sqrt)
         == Blended(t, mode, ss, ch,
                    Outliers(Dists(ss, ch, Centers(ss, ch, t.absolute), IqrInvs(ss, ch, t.absolute), t.absolute), ThresholdSq(t)),
                    MaxOutlier(Dists(ss, ch, Centers(ss, ch, t.absolute), IqrInvs(ss, ch, t.absolute), t.absolute), ThresholdSq(t)),
                    Background(bgMode, ss, ch, Means(ss, ch), Centers(ss, ch, t.absolute), draw), sqrt)
  {
  }

  /** The end of `calc_pixel_z_score` once the background `bg` is in the
      pixel: blend byte 0 when no sample is an outlier, otherwise the chosen
      outlier blended in by its distance and the blend factor as a byte. */
  function Blended(t: Options.Threshold, mode: OutlierSelectionMode, ss: seq<seq<byte>>, ch: nat,
                   outs: seq<(nat, real)>, max: (nat, real), bg: seq<byte>, sqrt: real -> real): Outcome<PixelChoice>
    requires Uniform(ss, ch) && |bg| == ch <= 4
    requires forall k :: 0 <= k < |outs| ==> outs[k].0 < |ss|
    requires |outs| > 0 ==> max.0 < |ss|
  {
    if |outs| == 0 then Ok(PixelChoice(bg, 0))
    else
      var (rep, dist) := Representative(mode, ss, ch, outs, max, sqrt);
      var blend := Options.BlendValue(t, dist);
      var b := RoundToByte(blend * 255.0);
      if mode.Average? && |outs| > 1 then
        match AverageBlend(bg, rep, blend)
        case Ok(p) => Ok(PixelChoice(p, b))
        case _ => Panic(INDEX_PANIC)
      else Ok(PixelChoice(BlendU8(bg, rep, blend), b))
  }

  // -----------------------------------------------------------------------
  // Lighter and darker

  /** `pixel_data[idx..idx + 3]` summed as `u32`. */
  function Sum3(p: seq<byte>): nat
    requires |p| >= 3
  {
    p[0] as nat + p[1] as nat + p[2] as nat
  }

  /** Whether sum `a` strictly beats sum `b`: larger when lighter, smaller when darker. */
  predicate Beats(a: nat, b: nat, lighter: bool)
  {
    if lighter then a > b else a < b
  }

  /** The index `calc_pixel_lighter`/`calc_pixel_darker` keeps after the
      first `k` samples: sample 0 first, then each sample whose sum strictly
      beats the kept one. */
  function Pick(ss: seq<seq<byte>>, k: nat, lighter: bool): (j: nat)
    requires 1 <= k <= |ss| && forall s :: 0 <= s < |ss| ==> |ss[s]| >= 3
    ensures j < k
  {
    if k == 1 then 0
    else
      var j := Pick(ss, k - 1, lighter);
      if Beats(Sum3(ss[k - 1]), Sum3(ss[j]), lighter) then k - 1 else j
  }

  /** No sample beats the kept one, and it beats every sample before it: it
      is the earliest lightest (darkest) sample. */
  lemma {:induction false} PickIsExtreme(ss: seq<seq<byte>>, k: nat, lighter: bool)
    requires 1 <= k <= |ss| && forall s :: 0 <= s < |ss| ==> |ss[s]| >= 3
    ensures forall s :: 0 <= s < k ==> !Beats(Sum3(ss[s]), Sum3(ss[Pick(ss, k, lighter)]), lighter)
    ensures forall s :: 0 <= s < Pick(ss, k, lighter) ==> Beats(Sum3(ss[Pick(ss, k, lighter)]), Sum3(ss[s]), lighter)
  {
    if k > 1 {
      PickIsExtreme(ss, k - 1, lighter);
    }
  }

  /** `calc_pixel_lighter`/`calc_pixel_darker`: the kept sample, blend byte 0.
      Fewer than three channels read past the last pixel, and no samples
      read past an empty buffer. */
  function ExtremeSum(ss: seq<seq<byte>>, ch: nat, lighter: bool): (r: Outcome<PixelChoice>)
    requires Uniform(ss, ch)
  {
    if ch < 3 || |ss| == 0 then Panic(INDEX_PANIC)
    else Ok(PixelChoice(ss[Pick(ss, |ss|, lighter)], 0))
  }
}
