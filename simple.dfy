/** The simple lighter/darker accumulator (`SimpleProcessor`): every output
    pixel keeps the frame whose weighted brightness is the most extreme
    seen so far, faded in by a factor that depends on the frame's place in
    the sequence. */
module Simple {
  import opened Common
  import opened Banding
  import opened Color

  // -----------------------------------------------------------------------
  // The processor

  /** `[f32; 4]`: one weight per channel. */
  type Weights = w: seq<real> | |w| == 4 witness [0.0, 0.0, 0.0, 0.0]

  /** `options::Fade`: a curve read either at the absolute frame number or
      at the distance from the last frame. The curve itself (`get`) is a
      parameter of the model. */
  datatype Fade = Fade(absolute: bool, get: int -> real)

  /** `SimpleProcessor`: channel weights, fade and direction. */
  datatype Processor = Processor(weights: Weights, fade: Fade, darker: bool)

  const LAYOUT_PANIC := "Image layout does not fit!"
  const INDEX_PANIC := "index out of bounds"
  const UNWRAP_PANIC := "called `Option::unwrap()` on a `None` value"

  /** `f32::MAX`. */
  const F32_MAX: real := 340282346638528859811704183484516925440.0

  // -----------------------------------------------------------------------
  // Frame order and fade

  /** `samples`: the number of frames processed. */
  function SampleCount(files: seq<Opened>, indices: Option<seq<nat>>): nat
  {
    match indices
    case Some(idx) => |idx|
    case None => |files|
  }

  /** `frame_offset`: the image number of the first frame. It is only read
      while a frame is processed, so an empty index list never reaches it. */
  function FrameOffset(indices: Option<seq<nat>>): int
  {
    match indices
    case Some(idx) => if |idx| > 0 then idx[0] else 0
    case None => 0
  }

  /** `fade`: the curve at `offset + frame` in absolute mode, at
      `total - frame - 1` otherwise. */
  function FadeAt(fade: Fade, frame: int, total: int, offset: int): real
  {
    if fade.absolute then fade.get(offset + frame) else fade.get(total - frame - 1)
  }

  /** The fade of frame `k` of a run. */
  function Fades(proc: Processor, files: seq<Opened>, indices: Option<seq<nat>>): nat -> real
  {
    (k: nat) => FadeAt(proc.fade, k, SampleCount(files, indices), FrameOffset(indices))
  }

  /** In absolute mode frame `k` reads the curve at its image number (the
      first index plus `k`); otherwise at its distance from the last frame,
      so the last frame reads it at 0 and the first at `samples - 1`. */
  lemma FrameFade(proc: Processor, files: seq<Opened>, indices: Option<seq<nat>>, k: nat)
    ensures proc.fade.absolute && indices.Some? && |indices.value| > 0 ==>
              Fades(proc, files, indices)(k) == proc.fade.get(indices.value[0] + k)
    ensures proc.fade.absolute && indices.None? ==> Fades(proc, files, indices)(k) == proc.fade.get(k)
    ensures !proc.fade.absolute ==>
              Fades(proc, files, indices)(k) == proc.fade.get(SampleCount(files, indices) - 1 - k)
    ensures !proc.fade.absolute && k + 1 == SampleCount(files, indices) ==>
              Fades(proc, files, indices)(k) == proc.fade.get(0)
  {
  }

  /** The file frame `k` reads: `files[indices[k]]` or `files[k]`; `None`
      when the index is out of range. */
  function Selected(files: seq<Opened>, indices: Option<seq<nat>>, k: nat): Option<Opened>
  {
    match indices
    case Some(idx) => if k < |idx| && idx[k] < |files| then Some(files[idx[k]]) else None
    case None => if k < |files| then Some(files[k]) else None
  }

  /** Frame `k` as the processing loop meets it: an index past the files
      panics, an open error is returned, a layout other than the first
      frame's panics. */
  function FrameAt(files: seq<Opened>, indices: Option<seq<nat>>, k: nat): Outcome<Frame>
    decreases k
  {
    match Selected(files, indices, k)
    case None => Panic(INDEX_PANIC)
    case Some(OpenFailed(e)) => Err(e)
    case Some(Opened(f)) =>
      if k > 0 && FrameAt(files, indices, 0).Ok? && f.layout != FrameAt(files, indices, 0).value.layout
      then Panic(LAYOUT_PANIC)
      else Ok(f)
  }

  function FrameSteps(files: seq<Opened>, indices: Option<seq<nat>>): nat -> Outcome<Frame>
  {
    (k: nat) => FrameAt(files, indices, k)
  }

  /** The frames of a run in processing order, or the first failure. */
  function Frames(files: seq<Opened>, indices: Option<seq<nat>>): Outcome<seq<Frame>>
  {
    Collect(FrameSteps(files, indices), SampleCount(files, indices))
  }

  /** The flat layout of an 8-bit image: pixels back to back within a row
      (one to four channels), rows back to back, one row per `height`. */
  predicate Packed(f: Frame)
  {
    var l := f.layout;
    1 <= l.widthStride <= 4 && l.heightStride == Offset(l.width, l.widthStride)
    && |f.samples| == Offset(l.height, l.heightStride)
  }

  /** `height * width`: the number of pixels, and of running extremes. */
  function PixelCount(l: Layout): nat
  {
    Offset(l.height, l.width)
  }

  /** A packed buffer of `height * height_stride` samples is one chunk of
      `width_stride` samples per pixel. */
  lemma {:induction false} PackedLength(h: nat, w: nat, c: nat)
    ensures Offset(h, Offset(w, c)) == Offset(Offset(h, w), c)
  {
    OffsetProduct(h, Offset(w, c));
    OffsetProduct(w, c);
    OffsetProduct(h, w);
    OffsetProduct(Offset(h, w), c);
    MulAssoc(h, w, c);
  }

  /** Every file the processor may read is a packed 8-bit image. */
  predicate AllPacked(files: seq<Opened>)
  {
    forall i :: 0 <= i < |files| && files[i].Opened? ==> Packed(files[i].frame)
  }

  /** The frames of a successful run are packed and all have the first
      frame's layout. */
  lemma {:induction false} FramesAgree(files: seq<Opened>, indices: Option<seq<nat>>)
    requires AllPacked(files)
    requires Frames(files, indices).Ok?
    ensures var fs := Frames(files, indices).value;
            |fs| == SampleCount(files, indices) &&
            forall k :: 0 <= k < |fs| ==> Packed(fs[k]) && fs[k].layout == fs[0].layout
  {
    var step := FrameSteps(files, indices);
    var n := SampleCount(files, indices);
    CollectOk(step, n);
    var fs := Frames(files, indices).value;
    forall k | 0 <= k < |fs|
      ensures Packed(fs[k]) && fs[k].layout == fs[0].layout
    {
      assert step(k).Ok? && step(0).Ok?;
      assert fs[k] == FrameAt(files, indices, k).value;
      assert fs[0] == FrameAt(files, indices, 0).value;
      match indices {
        case Some(idx) =>
          assert Selected(files, indices, k) == Some(files[idx[k]]);
        case None =>
          assert Selected(files, indices, k) == Some(files[k]);
      }
    }
  }

  // -----------------------------------------------------------------------
  // One pixel

  /** `Σ in_pix[ch] * weights[ch]` over the pixel's channels, in channel
      order. */
  function Value(pix: seq<byte>, weights: Weights): real
    requires |pix| <= 4
  {
    if |pix| == 0 then 0.0 else Value(pix[..|pix| - 1], weights) + pix[|pix| - 1] as real * weights[|pix| - 1]
  }

  /** The running extreme before the first frame: `f32::MAX` when darker
      pixels win, `f32::MIN` when lighter ones do. */
  function Start(darker: bool): real
  {
    if darker then F32_MAX else -F32_MAX
  }

  /** `v` strictly beats the extreme `e`: smaller when darker, larger
      otherwise. */
  predicate Beats(v: real, e: real, darker: bool)
  {
    if darker then v < e else v > e
  }

  /** One pixel of one frame: the output pixel and extreme afterwards. */
  function Update(out: seq<byte>, extreme: real, pix: seq<byte>, weights: Weights, darker: bool, fade: real)
    : (r: (seq<byte>, real))
    requires |pix| == |out| <= 4
    ensures |r.0| == |out|
  {
    var value := Value(pix, weights);
    if !Beats(value, extreme, darker) then (out, extreme)
    else if fade > 0.0 then
      (if fade >= 1.0 then (pix, value) else (BlendU8(out, pix, fade), value))
    else (out, value)
  }

  /** A value that does not strictly beat the extreme changes nothing (a tie
      keeps the pixel); one that does becomes the extreme and blends the
      input into the output as `blend_into_u8` does: nothing for a fade up to
      0, a copy of the input from 1 on. */
  lemma UpdateMeaning(out: seq<byte>, extreme: real, pix: seq<byte>, weights: Weights, darker: bool, fade: real)
    requires |pix| == |out| <= 4
    ensures var r := Update(out, extreme, pix, weights, darker, fade);
            !Beats(Value(pix, weights), extreme, darker) ==> r == (out, extreme)
    ensures var r := Update(out, extreme, pix, weights, darker, fade);
            Beats(Value(pix, weights), extreme, darker) ==>
              r.1 == Value(pix, weights) && r.0 == BlendU8(out, pix, fade)
    ensures var r := Update(out, extreme, pix, weights, darker, fade);
            Beats(Value(pix, weights), extreme, darker) && fade <= 0.0 ==> r.0 == out
    ensures var r := Update(out, extreme, pix, weights, darker, fade);
            Beats(Value(pix, weights), extreme, darker) && fade >= 1.0 ==> r.0 == pix
  {
  }

  /** The last step of a pixel's run, as `UpdateMeaning` reads it. */
  lemma LastStep(ins: seq<seq<byte>>, ch: nat, proc: Processor, fade: nat -> real)
    requires ch <= 4 && forall k :: 0 <= k < |ins| ==> |ins[k]| == ch
    requires |ins| > 0
    ensures var n := |ins| - 1;
            var b := PixelRun(ins[..n], ch, proc, fade);
            var r := PixelRun(ins, ch, proc, fade);
            (!Beats(Value(ins[n], proc.weights), b.1, proc.darker) ==> r == b) &&
            (Beats(Value(ins[n], proc.weights), b.1, proc.darker) ==>
               r.1 == Value(ins[n], proc.weights) && r.0 == BlendU8(b.0, ins[n], fade(n)))
  {
    var n := |ins| - 1;
    var b := PixelRun(ins[..n], ch, proc, fade);
    UpdateMeaning(b.0, b.1, ins[n], proc.weights, proc.darker, fade(n));
  }

  // -----------------------------------------------------------------------
  // One pixel across frames

  /** The output pixel and extreme after the pixels `ins` of successive
      frames, starting from a black pixel and the start extreme. */
  function PixelRun(ins: seq<seq<byte>>, ch: nat, proc: Processor, fade: nat -> real): (r: (seq<byte>, real))
    requires ch <= 4 && forall k :: 0 <= k < |ins| ==> |ins[k]| == ch
    ensures |r.0| == ch
  {
    if |ins| == 0 then (Zeros(ch), Start(proc.darker))
    else
      var before := PixelRun(ins[..|ins| - 1], ch, proc, fade);
      Update(before.0, before.1, ins[|ins| - 1], proc.weights, proc.darker, fade(|ins| - 1))
  }

  /** The extreme is the maximum (lighter) or minimum (darker) of the start
      value and every frame's value: no frame's value and not the start
      value beats it, and it is one of them. */
  lemma {:induction false} PixelExtreme(ins: seq<seq<byte>>, ch: nat, proc: Processor, fade: nat -> real)
    requires ch <= 4 && forall k :: 0 <= k < |ins| ==> |ins[k]| == ch
    ensures var e := PixelRun(ins, ch, proc, fade).1;
            (forall k :: 0 <= k < |ins| ==> !Beats(Value(ins[k], proc.weights), e, proc.darker)) &&
            !Beats(Start(proc.darker), e, proc.darker) &&
            (e == Start(proc.darker) || exists k :: 0 <= k < |ins| && e == Value(ins[k], proc.weights))
  {
    if |ins| > 0 {
      var n := |ins| - 1;
      var front := ins[..n];
      PixelExtreme(front, ch, proc, fade);
      LastStep(ins, ch, proc, fade);
      var e' := PixelRun(front, ch, proc, fade).1;
      var e := PixelRun(ins, ch, proc, fade).1;
      forall k | 0 <= k < |ins|
        ensures !Beats(Value(ins[k], proc.weights), e, proc.darker)
      {
        if k < n {
          assert ins[k] == front[k];
        }
      }
      if e != Start(proc.darker) && e != e' {
        assert e == Value(ins[n], proc.weights);
      } else if e != Start(proc.darker) {
        var k :| 0 <= k < |front| && e' == Value(front[k], proc.weights);
        assert ins[k] == front[k];
      }
    }
  }

  /** Frame `k` is the first to reach the extreme of `r`, and the output
      pixel of `r` is what frame `k` blended into the output before it. */
  predicate FirstReach(ins: seq<seq<byte>>, ch: nat, proc: Processor, fade: nat -> real, k: nat, r: (seq<byte>, real))
    requires ch <= 4 && forall k :: 0 <= k < |ins| ==> |ins[k]| == ch
  {
    k < |ins| && r.1 == Value(ins[k], proc.weights) &&
    (forall j :: 0 <= j < k ==> Beats(r.1, Value(ins[j], proc.weights), proc.darker)) &&
    r.0 == BlendU8(PixelRun(ins[..k], ch, proc, fade).0, ins[k], fade(k))
  }

  /** Ties keep the earlier frame. A pixel no frame beat is still black;
      otherwise the extreme comes from the first frame `k` that reaches it
      (every earlier value is strictly worse) and the output pixel is what
      frame `k` blended in, untouched by every later frame. */
  lemma {:induction false} PixelKept(ins: seq<seq<byte>>, ch: nat, proc: Processor, fade: nat -> real)
    requires ch <= 4 && forall k :: 0 <= k < |ins| ==> |ins[k]| == ch
    ensures var r := PixelRun(ins, ch, proc, fade);
            r.1 == Start(proc.darker) ==> r.0 == Zeros(ch)
    ensures var r := PixelRun(ins, ch, proc, fade);
            r.1 != Start(proc.darker) ==> exists k :: 0 <= k < |ins| && FirstReach(ins, ch, proc, fade, k, r)
  {
    if |ins| > 0 {
      var n := |ins| - 1;
      var front := ins[..n];
      PixelKept(front, ch, proc, fade);
      PixelExtreme(front, ch, proc, fade);
      LastStep(ins, ch, proc, fade);
      var b := PixelRun(front, ch, proc, fade);
      if Beats(Value(ins[n], proc.weights), b.1, proc.darker) {
        KeptBeat(ins, ch, proc, fade);
      } else if b.1 != Start(proc.darker) {
        var k :| 0 <= k < |front| && FirstReach(front, ch, proc, fade, k, b);
        KeptTie(ins, ch, proc, fade, k);
      }
    }
  }

  /** A last frame that beats the extreme is the first to reach the new one. */
  lemma KeptBeat(ins: seq<seq<byte>>, ch: nat, proc: Processor, fade: nat -> real)
    requires ch <= 4 && forall k :: 0 <= k < |ins| ==> |ins[k]| == ch
    requires |ins| > 0
    requires var front := ins[..|ins| - 1];
             var e := PixelRun(front, ch, proc, fade).1;
             (forall k :: 0 <= k < |front| ==> !Beats(Value(front[k], proc.weights), e, proc.darker)) &&
             !Beats(Start(proc.darker), e, proc.darker) &&
             Beats(Value(ins[|ins| - 1], proc.weights), e, proc.darker)
    ensures PixelRun(ins, ch, proc, fade).1 != Start(proc.darker)
    ensures FirstReach(ins, ch, proc, fade, |ins| - 1, PixelRun(ins, ch, proc, fade))
  {
    var n := |ins| - 1;
    var front := ins[..n];
    var r := PixelRun(ins, ch, proc, fade);
    LastStep(ins, ch, proc, fade);
    forall j | 0 <= j < n
      ensures Beats(r.1, Value(ins[j], proc.weights), proc.darker)
    {
      assert ins[j] == front[j];
    }
  }

  /** A last frame that does not beat the extreme leaves the frame that
      first reached it in place. */
  lemma KeptTie(ins: seq<seq<byte>>, ch: nat, proc: Processor, fade: nat -> real, k: nat)
    requires ch <= 4 && forall k :: 0 <= k < |ins| ==> |ins[k]| == ch
    requires |ins| > 0
    requires var front := ins[..|ins| - 1];
             var b := PixelRun(front, ch, proc, fade);
             !Beats(Value(ins[|ins| - 1], proc.weights), b.1, proc.darker) && FirstReach(front, ch, proc, fade, k, b)
    ensures FirstReach(ins, ch, proc, fade, k, PixelRun(ins, ch, proc, fade))
  {
    var n := |ins| - 1;
    var front := ins[..n];
    var r := PixelRun(ins, ch, proc, fade);
    LastStep(ins, ch, proc, fade);
    assert front[..k] == ins[..k];
    assert front[k] == ins[k];
    forall j | 0 <= j < k
      ensures Beats(r.1, Value(ins[j], proc.weights), proc.darker)
    {
      assert ins[j] == front[j];
    }
  }

  // -----------------------------------------------------------------------
  // One frame

  /** The accumulated state: the output buffer and the running extreme of
      every pixel. */
  datatype Acc = Acc(buffer: seq<byte>, extremes: seq<real>)

  /** The state of a run of `count` pixels of `ch` samples each. */
  predicate Shaped(acc: Acc, ch: nat, count: nat)
  {
    |acc.buffer| == Offset(count, ch) && |acc.extremes| == count
  }

  /** Pixel `p` of a frame: its output pixel and extreme afterwards. */
  function Updated(acc: Acc, samples: seq<byte>, ch: nat, proc: Processor, fade: real, p: nat): (r: (seq<byte>, real))
    requires ch <= 4 && |acc.buffer| == |samples| && p < |acc.extremes|
  {
    Update(Band(acc.buffer, p, ch), acc.extremes[p], Band(samples, p, ch), proc.weights, proc.darker, fade)
  }

  function NewPixels(acc: Acc, samples: seq<byte>, ch: nat, proc: Processor, fade: real): (ps: seq<seq<byte>>)
    requires ch <= 4 && |acc.buffer| == |samples|
  {
    seq(|acc.extremes|, p requires 0 <= p < |acc.extremes| => Updated(acc, samples, ch, proc, fade, p).0)
  }

  function NewExtremes(acc: Acc, samples: seq<byte>, ch: nat, proc: Processor, fade: real): (es: seq<real>)
    requires ch <= 4 && |acc.buffer| == |samples|
  {
    seq(|acc.extremes|, p requires 0 <= p < |acc.extremes| => Updated(acc, samples, ch, proc, fade, p).1)
  }

  /** The new output pixels have one chunk's length each. */
  lemma NewPixelsLength(acc: Acc, samples: seq<byte>, ch: nat, proc: Processor, fade: real)
    requires ch <= 4 && |acc.buffer| == |samples| && Shaped(acc, ch, |acc.extremes|)
    ensures forall p :: 0 <= p < |acc.extremes| ==> |NewPixels(acc, samples, ch, proc, fade)[p]| == ch
  {
    forall p | 0 <= p < |acc.extremes|
      ensures |NewPixels(acc, samples, ch, proc, fade)[p]| == ch
    {
      OffsetBefore(p, |acc.extremes|, ch);
    }
  }

  /** One frame: every pixel updated on its own, output chunks joined back
      into the buffer. */
  function FrameStep(acc: Acc, samples: seq<byte>, ch: nat, proc: Processor, fade: real): (a: Acc)
    requires ch <= 4 && |acc.buffer| == |samples| && Shaped(acc, ch, |acc.extremes|)
    ensures Shaped(a, ch, |acc.extremes|)
  {
    var ps := NewPixels(acc, samples, ch, proc, fade);
    NewPixelsLength(acc, samples, ch, proc, fade);
    ConcatLength(ps, ch);
    Acc(Concat(ps), NewExtremes(acc, samples, ch, proc, fade))
  }

  /** Pixel `p` after a frame step is pixel `p` updated on its own. */
  lemma FrameStepPixel(acc: Acc, samples: seq<byte>, ch: nat, proc: Processor, fade: real, p: nat)
    requires ch <= 4 && |acc.buffer| == |samples| && Shaped(acc, ch, |acc.extremes|) && p < |acc.extremes|
    ensures Band(FrameStep(acc, samples, ch, proc, fade).buffer, p, ch) == Updated(acc, samples, ch, proc, fade, p).0
    ensures FrameStep(acc, samples, ch, proc, fade).extremes[p] == Updated(acc, samples, ch, proc, fade, p).1
  {
    var ps := NewPixels(acc, samples, ch, proc, fade);
    NewPixelsLength(acc, samples, ch, proc, fade);
    ConcatLength(ps, ch);
    ConcatEq(Concat(ps), ps, ch);
  }

  /** Every frame of a run holds `count` chunks of `ch` samples. */
  predicate FramesFit(fs: seq<Frame>, ch: nat, count: nat)
  {
    forall k :: 0 <= k < |fs| ==> |fs[k].samples| == Offset(count, ch)
  }

  /** The state after frames `fs`: from a zero-filled buffer and the start
      extreme everywhere, one frame step per frame. */
  function Run(fs: seq<Frame>, ch: nat, count: nat, proc: Processor, fade: nat -> real): (a: Acc)
    requires ch <= 4 && FramesFit(fs, ch, count)
    ensures Shaped(a, ch, count)
  {
    if |fs| == 0 then Acc(Zeros(Offset(count, ch)), seq(count, p => Start(proc.darker)))
    else
      var n := |fs| - 1;
      FrameStep(Run(fs[..n], ch, count, proc, fade), fs[n].samples, ch, proc, fade(n))
  }

  /** Pixel `p` of every frame of a run, in frame order. */
  function Trace(fs: seq<Frame>, p: nat, ch: nat): (ins: seq<seq<byte>>)
    ensures |ins| == |fs|
  {
    seq(|fs|, k requires 0 <= k < |fs| => Band(fs[k].samples, p, ch))
  }

  /** A chunk of a zero-filled buffer is black. */
  lemma ZerosBand(count: nat, ch: nat, p: nat)
    requires p < count
    ensures Band(Zeros(Offset(count, ch)), p, ch) == Zeros(ch)
  {
    OffsetBefore(p, count, ch);
    ZerosAt(Offset(count, ch));
    ZerosAt(ch);
  }

  /** Pixels are independent: pixel `p` of the buffer and its extreme after
      a run are what that pixel alone goes through. */
  lemma {:induction false} RunPixel(fs: seq<Frame>, ch: nat, count: nat, proc: Processor, fade: nat -> real, p: nat)
    requires ch <= 4 && FramesFit(fs, ch, count) && p < count
    ensures forall k :: 0 <= k < |fs| ==> |Trace(fs, p, ch)[k]| == ch
    ensures Band(Run(fs, ch, count, proc, fade).buffer, p, ch) == PixelRun(Trace(fs, p, ch), ch, proc, fade).0
    ensures Run(fs, ch, count, proc, fade).extremes[p] == PixelRun(Trace(fs, p, ch), ch, proc, fade).1
  {
    OffsetBefore(p, count, ch);
    var tr := Trace(fs, p, ch);
    if |fs| == 0 {
      ZerosBand(count, ch, p);
    } else {
      var n := |fs| - 1;
      var front := fs[..n];
      assert FramesFit(front, ch, count);
      RunPixel(front, ch, count, proc, fade, p);
      var a := Run(front, ch, count, proc, fade);
      assert Run(fs, ch, count, proc, fade) == FrameStep(a, fs[n].samples, ch, proc, fade(n));
      FrameStepPixel(a, fs[n].samples, ch, proc, fade(n), p);
      assert tr[..n] == Trace(front, p, ch);
      var before := PixelRun(tr[..n], ch, proc, fade);
      assert before == (Band(a.buffer, p, ch), a.extremes[p]);
      assert tr[n] == Band(fs[n].samples, p, ch);
      assert PixelRun(tr, ch, proc, fade) == Update(before.0, before.1, tr[n], proc.weights, proc.darker, fade(n));
    }
  }

  // -----------------------------------------------------------------------
  // The run

  /** What `process` returns: the buffer and the first frame's layout, the
      first failure, or a panic when there is no frame at all. */
  function Result(proc: Processor, files: seq<Opened>, indices: Option<seq<nat>>): Outcome<(seq<byte>, Layout)>
    requires AllPacked(files)
  {
    match Frames(files, indices)
    case Err(e) => Err(e)
    case Panic(m) => Panic(m)
    case Ok(fs) =>
      if |fs| == 0 then Panic(UNWRAP_PANIC)
      else
        var l := fs[0].layout;
        FramesAgree(files, indices);
        PackedLength(l.height, l.width, l.widthStride);
        Ok((Run(fs, l.widthStride, PixelCount(l), proc, Fades(proc, files, indices)).buffer, l))
  }

  /** The first frame that fails decides the outcome: an index past the
      files or a layout change panics, an open error is returned. */
  lemma FirstFailure(proc: Processor, files: seq<Opened>, indices: Option<seq<nat>>, k: nat)
    requires AllPacked(files)
    requires k < SampleCount(files, indices)
    requires Collect(FrameSteps(files, indices), k).Ok? && !FrameAt(files, indices, k).Ok?
    ensures Result(proc, files, indices) ==
              (if FrameAt(files, indices, k).Err? then Err(FrameAt(files, indices, k).message)
               else Panic(FrameAt(files, indices, k).message))
    ensures Selected(files, indices, k).None? ==> Result(proc, files, indices) == Panic(INDEX_PANIC)
    ensures Selected(files, indices, k) == Some(OpenFailed(FrameAt(files, indices, k).message)) ==>
              Result(proc, files, indices) == Err(FrameAt(files, indices, k).message)
    ensures (Selected(files, indices, k).Some? && Selected(files, indices, k).value.Opened?) ==>
              Result(proc, files, indices) == Panic(LAYOUT_PANIC)
  {
    CollectStops(FrameSteps(files, indices), k + 1, SampleCount(files, indices));
  }

  /** One more frame that reads well extends the frames so far: it is
      packed and has the first frame's layout. */
  lemma FramesAgreeStep(files: seq<Opened>, indices: Option<seq<nat>>, k: nat, fs: seq<Frame>)
    requires AllPacked(files)
    requires Collect(FrameSteps(files, indices), k) == Ok(fs) && |fs| == k
    requires FrameAt(files, indices, k).Ok?
    requires k > 0 ==> FrameAt(files, indices, 0) == Ok(fs[0])
    ensures var f := FrameAt(files, indices, k).value;
            Collect(FrameSteps(files, indices), k + 1) == Ok(fs + [f]) && Packed(f) &&
            (k > 0 ==> f.layout == fs[0].layout) &&
            FrameAt(files, indices, 0) == Ok((fs + [f])[0])
  {
    assert FrameSteps(files, indices)(k) == FrameAt(files, indices, k);
    match indices {
      case Some(idx) =>
        assert Selected(files, indices, k) == Some(files[idx[k]]);
      case None =>
        assert Selected(files, indices, k) == Some(files[k]);
    }
  }

  /** A successful run returns the first frame's layout and a buffer of
      `height * height_stride` samples whose every pixel is that pixel's own
      run over the frames, faded as `fade` says. */
  lemma ResultPixels(proc: Processor, files: seq<Opened>, indices: Option<seq<nat>>, p: nat)
    requires AllPacked(files)
    requires Result(proc, files, indices).Ok?
    ensures Frames(files, indices).Ok? && |Frames(files, indices).value| > 0
    ensures var fs := Frames(files, indices).value;
            var l := fs[0].layout;
            var out := Result(proc, files, indices).value;
            out.1 == l && l.widthStride <= 4 && |out.0| == Offset(l.height, l.heightStride) &&
            (p < PixelCount(l) ==>
               (forall k :: 0 <= k < |fs| ==> |Trace(fs, p, l.widthStride)[k]| == l.widthStride) &&
               Band(out.0, p, l.widthStride) ==
                 PixelRun(Trace(fs, p, l.widthStride), l.widthStride, proc, Fades(proc, files, indices)).0)
  {
    var fs := Frames(files, indices).value;
    var l := fs[0].layout;
    FramesAgree(files, indices);
    PackedLength(l.height, l.width, l.widthStride);
    if p < PixelCount(l) {
      RunPixel(fs, l.widthStride, PixelCount(l), proc, Fades(proc, files, indices), p);
    }
  }

  // -----------------------------------------------------------------------
  // `process`

  /** The weighted value of one input pixel, channel by channel. */
  method PixelValue(pix: seq<byte>, weights: Weights) returns (value: real)
    requires |pix| <= 4
    ensures value == Value(pix, weights)
  {
    value := 0.0;
    for c := 0 to |pix|
      invariant value == Value(pix[..c], weights)
    {
      assert pix[..c + 1][..c] == pix[..c];
      value := value + pix[c] as real * weights[c];
    }
    assert pix[..|pix|] == pix;
  }

  /** `blend_into_u8` on the output chunk that starts at `at`. */
  method BlendIntoPixel(buffer: array<byte>, at: nat, pix: seq<byte>, fade: real)
    requires 0.0 < fade < 1.0 && at + |pix| <= buffer.Length
    modifies buffer
    ensures buffer[..] == old(buffer[..at]) + BlendU8(old(buffer[at .. at + |pix|]), pix, fade) + old(buffer[at + |pix|..])
  {
    ghost var before := buffer[..];
    for c := 0 to |pix|
      invariant forall k :: at <= k < at + c ==> buffer[k] == BlendChannel(before[k], pix[k - at], fade)
      invariant forall k :: 0 <= k < buffer.Length && !(at <= k < at + c) ==> buffer[k] == before[k]
    {
      buffer[at + c] := BlendChannel(buffer[at + c], pix[c], fade);
    }
    ghost var blended := BlendU8(before[at .. at + |pix|], pix, fade);
    assert buffer[..] == before[..at] + blended + before[at + |pix|..];
  }

  /** The copy of the input pixel over the output chunk that starts at `at`. */
  method CopyPixel(buffer: array<byte>, at: nat, pix: seq<byte>)
    requires at + |pix| <= buffer.Length
    modifies buffer
    ensures buffer[..] == old(buffer[..at]) + pix + old(buffer[at + |pix|..])
  {
    ghost var before := buffer[..];
    for c := 0 to |pix|
      invariant forall k :: at <= k < at + c ==> buffer[k] == pix[k - at]
      invariant forall k :: 0 <= k < buffer.Length && !(at <= k < at + c) ==> buffer[k] == before[k]
    {
      buffer[at + c] := pix[c];
    }
    assert buffer[..] == before[..at] + pix + before[at + |pix|..];
  }

  /** Pixel `p` of the loop of `UpdatePixels`, written in place after the
      first `p`. */
  method WriteNext(buffer: array<byte>, extremes: array<real>, samples: seq<byte>, ch: nat,
                   proc: Processor, fade: real, ghost acc: Acc, ghost ps: seq<seq<byte>>, ghost es: seq<real>,
                   p: nat, at: nat)
    requires 1 <= ch <= 4 && |acc.buffer| == |samples| == Offset(|acc.extremes|, ch)
    requires p < |acc.extremes| == extremes.Length && at == Offset(p, ch)
    requires ps == NewPixels(acc, samples, ch, proc, fade) && es == NewExtremes(acc, samples, ch, proc, fade)
    requires Pieces(acc, ps, es, ch)
    requires buffer[..] == Written(acc, ps, es, ch, p).buffer && extremes[..] == Written(acc, ps, es, ch, p).extremes
    modifies buffer, extremes
    ensures buffer[..] == Written(acc, ps, es, ch, p + 1).buffer && extremes[..] == Written(acc, ps, es, ch, p + 1).extremes
  {
    ghost var before := Written(acc, ps, es, ch, p);
    NextPixel(acc, samples, ch, proc, fade, p);
    assert Acc(buffer[..], extremes[..]) == before;
    UpdatePixel(buffer, extremes, p, at, ch, samples[at .. at + ch], proc, fade);
    assert Acc(buffer[..], extremes[..]) == Written(acc, ps, es, ch, p + 1);
  }

  /** One pixel of one frame, in place: the extreme at `p` and the output
      chunk at `at`. */
  method UpdatePixel(buffer: array<byte>, extremes: array<real>, p: nat, at: nat, channels: nat, pix: seq<byte>,
                     proc: Processor, fade: real)
    requires |pix| == channels <= 4 && at + channels <= buffer.Length && p < extremes.Length
    modifies buffer, extremes
    ensures Acc(buffer[..], extremes[..]) == WritePixel(Acc(old(buffer[..]), old(extremes[..])), p, at, channels, pix, proc, fade)
  {
    var value := PixelValue(pix, proc.weights);
    var isExtreme := false;
    if proc.darker {
      if value < extremes[p] {
        isExtreme := true;
      }
    } else {
      if value > extremes[p] {
        isExtreme := true;
      }
    }
    if isExtreme {
      extremes[p] := value;
      if fade > 0.0 {
        if fade >= 1.0 {
          CopyPixel(buffer, at, pix);
        } else {
          BlendIntoPixel(buffer, at, pix, fade);
        }
      }
    }
  }

  /** The per-pixel step of a frame over the output buffer and the extremes,
      pixel by pixel. */
  method UpdateFrame(buffer: array<byte>, extremes: array<real>, samples: seq<byte>, ch: nat,
                     proc: Processor, fade: real)
    requires 1 <= ch <= 4 && buffer.Length == |samples| == Offset(extremes.Length, ch)
    modifies buffer, extremes
    ensures Acc(buffer[..], extremes[..]) == FrameStep(Acc(old(buffer[..]), old(extremes[..])), samples, ch, proc, fade)
  {
    ghost var acc := Acc(buffer[..], extremes[..]);
    ghost var ps := NewPixels(acc, samples, ch, proc, fade);
    ghost var es := NewExtremes(acc, samples, ch, proc, fade);
    NewPixelsLength(acc, samples, ch, proc, fade);
    UpdatePixels(buffer, extremes, samples, ch, proc, fade);
    WrittenPrefix(acc, ps, es, ch, |es|);
    ConcatLength(ps, ch);
    assert ps[..|es|] == ps && es[..|es|] == es;
  }

  /** The loop of `UpdateFrame`: the pixels in order, each in place. */
  method UpdatePixels(buffer: array<byte>, extremes: array<real>, samples: seq<byte>, ch: nat,
                      proc: Processor, fade: real)
    requires 1 <= ch <= 4 && buffer.Length == |samples| == Offset(extremes.Length, ch)
    requires var acc := Acc(buffer[..], extremes[..]);
             Pieces(acc, NewPixels(acc, samples, ch, proc, fade), NewExtremes(acc, samples, ch, proc, fade), ch)
    modifies buffer, extremes
    ensures var acc := Acc(old(buffer[..]), old(extremes[..]));
            Acc(buffer[..], extremes[..]) ==
              Written(acc, NewPixels(acc, samples, ch, proc, fade), NewExtremes(acc, samples, ch, proc, fade), ch, extremes.Length)
  {
    ghost var acc := Acc(buffer[..], extremes[..]);
    ghost var ps := NewPixels(acc, samples, ch, proc, fade);
    ghost var es := NewExtremes(acc, samples, ch, proc, fade);
    var p := 0;
    var at := 0;
    while p < extremes.Length
      invariant p <= extremes.Length && at == Offset(p, ch)
      invariant buffer[..] == Written(acc, ps, es, ch, p).buffer && extremes[..] == Written(acc, ps, es, ch, p).extremes
    {
      WriteNext(buffer, extremes, samples, ch, proc, fade, acc, ps, es, p, at);
      p := p + 1;
      at := at + ch;
    }
  }

  /** Pixel `p` updated in place: the chunk at `at` and the extreme at `p`
      replaced by what `Update` makes of them, nothing else changed. */
  function WritePixel(a: Acc, p: nat, at: nat, ch: nat, pix: seq<byte>, proc: Processor, fade: real): (r: Acc)
    requires |pix| == ch <= 4 && at + ch <= |a.buffer| && p < |a.extremes|
    ensures |r.buffer| == |a.buffer| && |r.extremes| == |a.extremes|
  {
    var u := Update(a.buffer[at .. at + ch], a.extremes[p], pix, proc.weights, proc.darker, fade);
    Acc(a.buffer[..at] + u.0 + a.buffer[at + ch..], a.extremes[p := u.1])
  }

  /** `ps` and `es` hold one chunk of `ch` samples and one extreme for
      every pixel of `acc`. */
  predicate Pieces(acc: Acc, ps: seq<seq<byte>>, es: seq<real>, ch: nat)
  {
    |acc.buffer| == Offset(|acc.extremes|, ch) && |ps| == |es| == |acc.extremes| &&
    forall q :: 0 <= q < |ps| ==> |ps[q]| == ch
  }

  /** The chunk at `at` replaced by `chunk` and the extreme at `p` by `e`. */
  function Splice(a: Acc, p: nat, at: nat, chunk: seq<byte>, e: real): (r: Acc)
    requires at + |chunk| <= |a.buffer| && p < |a.extremes|
    ensures |r.buffer| == |a.buffer| && |r.extremes| == |a.extremes|
  {
    Acc(a.buffer[..at] + chunk + a.buffer[at + |chunk|..], a.extremes[p := e])
  }

  /** `v` with its first `p` entries replaced, in order, by those of `es`. */
  function Replaced<T>(v: seq<T>, es: seq<T>, p: nat): (r: seq<T>)
    requires p <= |es| == |v|
    ensures |r| == |v|
    decreases p
  {
    if p == 0 then v else Replaced(v, es, p - 1)[p - 1 := es[p - 1]]
  }

  /** After `p` replacements, the first `p` entries are those of `es` and
      the rest those of `v`. */
  lemma {:induction false} ReplacedPrefix<T>(v: seq<T>, es: seq<T>, p: nat)
    requires p <= |es| == |v|
    ensures Replaced(v, es, p) == es[..p] + v[p..]
    decreases p
  {
    if p > 0 {
      ReplacedPrefix(v, es, p - 1);
    }
  }

  /** The state after the first `p` pixels were given, in order, their
      chunk of `ps` and their extreme of `es`. */
  function Written(acc: Acc, ps: seq<seq<byte>>, es: seq<real>, ch: nat, p: nat): (a: Acc)
    requires Pieces(acc, ps, es, ch) && p <= |acc.extremes|
    ensures |a.buffer| == |acc.buffer| && |a.extremes| == |acc.extremes|
  {
    Acc(Spliced(acc.buffer, ps, ch, p), Replaced(acc.extremes, es, p))
  }

  /** After `p` pixels, the buffer is the first `p` chunks followed by the
      rest of the old buffer, and likewise for the extremes. */
  lemma WrittenPrefix(acc: Acc, ps: seq<seq<byte>>, es: seq<real>, ch: nat, p: nat)
    requires Pieces(acc, ps, es, ch) && p <= |acc.extremes|
    ensures Offset(p, ch) <= |acc.buffer|
    ensures Written(acc, ps, es, ch, p).buffer == Concat(ps[..p]) + acc.buffer[Offset(p, ch)..]
    ensures Written(acc, ps, es, ch, p).extremes == es[..p] + acc.extremes[p..]
  {
    SplicedPrefix(acc.buffer, ps, ch, p);
    ReplacedPrefix(acc.extremes, es, p);
  }

  /** Updating pixel `p` in place after the first `p` is the next write. */
  lemma NextPixel(acc: Acc, samples: seq<byte>, ch: nat, proc: Processor, fade: real, p: nat)
    requires 1 <= ch <= 4 && |acc.buffer| == |samples| == Offset(|acc.extremes|, ch) && p < |acc.extremes|
    requires Pieces(acc, NewPixels(acc, samples, ch, proc, fade), NewExtremes(acc, samples, ch, proc, fade), ch)
    ensures Offset(p, ch) + ch <= |acc.buffer|
    ensures var ps := NewPixels(acc, samples, ch, proc, fade);
            var es := NewExtremes(acc, samples, ch, proc, fade);
            var at := Offset(p, ch);
            WritePixel(Written(acc, ps, es, ch, p), p, at, ch, samples[at .. at + ch], proc, fade) ==
              Written(acc, ps, es, ch, p + 1)
  {
    var ps := NewPixels(acc, samples, ch, proc, fade);
    var es := NewExtremes(acc, samples, ch, proc, fade);
    var at := Offset(p, ch);
    OffsetBefore(p, |acc.extremes|, ch);
    WrittenPrefix(acc, ps, es, ch, p);
    var w := Written(acc, ps, es, ch, p);
    OldChunk(acc, samples, ch, proc, fade, p, w);
    assert Written(acc, ps, es, ch, p + 1) == Splice(w, p, at, ps[p], es[p]);
  }

  /** Over the first `p` new chunks and extremes, pixel `p` still has the
      frame's old chunk and extreme, so updating it writes its new ones. */
  lemma OldChunk(acc: Acc, samples: seq<byte>, ch: nat, proc: Processor, fade: real, p: nat, w: Acc)
    requires 1 <= ch <= 4 && |acc.buffer| == |samples| == Offset(|acc.extremes|, ch) && p < |acc.extremes|
    requires Pieces(acc, NewPixels(acc, samples, ch, proc, fade), NewExtremes(acc, samples, ch, proc, fade), ch)
    requires Offset(p, ch) + ch <= |acc.buffer|
    requires w.buffer == Concat(NewPixels(acc, samples, ch, proc, fade)[..p]) + acc.buffer[Offset(p, ch)..]
    requires w.extremes == NewExtremes(acc, samples, ch, proc, fade)[..p] + acc.extremes[p..]
    ensures |w.buffer| == |acc.buffer| && |w.extremes| == |acc.extremes|
    ensures var at := Offset(p, ch);
            WritePixel(w, p, at, ch, samples[at .. at + ch], proc, fade) ==
              Splice(w, p, at, NewPixels(acc, samples, ch, proc, fade)[p], NewExtremes(acc, samples, ch, proc, fade)[p])
  {
    var ps := NewPixels(acc, samples, ch, proc, fade);
    var es := NewExtremes(acc, samples, ch, proc, fade);
    var at := Offset(p, ch);
    assert |w.buffer| == |acc.buffer| && w.buffer[at .. at + ch] == Band(acc.buffer, p, ch) by {
      ConcatSplice(ps, p, ch, acc.buffer, w.buffer);
      BandInside(acc.buffer, p, ch);
    }
    assert w.extremes[p] == acc.extremes[p];
    assert |ps[p]| == ch;
    assert (ps[p], es[p]) == Update(w.buffer[at .. at + ch], w.extremes[p], samples[at .. at + ch], proc.weights, proc.darker, fade) by {
      BandInside(samples, p, ch);
      assert ps[p] == Updated(acc, samples, ch, proc, fade, p).0;
      assert es[p] == Updated(acc, samples, ch, proc, fade, p).1;
    }
  }

  /** `vec![0; height * height_stride]` and one start extreme per pixel. */
  method Allocate(l: Layout, darker: bool) returns (buffer: array<byte>, extremes: array<real>)
    ensures fresh(buffer) && fresh(extremes)
    ensures buffer[..] == Zeros(Offset(l.height, l.heightStride))
    ensures extremes[..] == seq(PixelCount(l), p => Start(darker))
  {
    buffer := new byte[Offset(l.height, l.heightStride)](_ => 0);
    extremes := new real[PixelCount(l)](_ => Start(darker));
    ZerosAt(buffer.Length);
  }

  /** The arrays `buffer` and `extremes` hold, once the first frame set the
      layout, the state after the frames `fs`. */
  ghost predicate Accumulated(fs: seq<Frame>, layout: Option<Layout>, buffer: Option<array<byte>>,
                              extremes: Option<array<real>>, proc: Processor, fade: nat -> real)
    reads if buffer.Some? then {buffer.value} else {}
    reads if extremes.Some? then {extremes.value} else {}
  {
    (layout.None? <==> |fs| == 0) &&
    (layout.Some? ==>
       var l := layout.value;
       buffer.Some? && extremes.Some? && l == fs[0].layout && Packed(fs[0]) &&
       FramesFit(fs, l.widthStride, PixelCount(l)) &&
       Acc(buffer.value[..], extremes.value[..]) == Run(fs, l.widthStride, PixelCount(l), proc, fade))
  }

  /** A run with one more frame is one more frame step. */
  lemma RunAppend(fs: seq<Frame>, f: Frame, ch: nat, count: nat, proc: Processor, fade: nat -> real)
    requires ch <= 4 && FramesFit(fs + [f], ch, count)
    ensures FramesFit(fs, ch, count)
    ensures Run(fs + [f], ch, count, proc, fade) == FrameStep(Run(fs, ch, count, proc, fade), f.samples, ch, proc, fade(|fs|))
  {
    assert (fs + [f])[..|fs|] == fs;
    assert forall k :: 0 <= k < |fs| ==> fs[k] == (fs + [f])[k];
  }

  /** `files[index]` or `files[i]`, `image::open(path)?` and the layout
      check of frame `k`. */
  method NextFrame(files: seq<Opened>, indices: Option<seq<nat>>, k: nat, layout: Option<Layout>)
    returns (r: Outcome<Frame>)
    requires k < SampleCount(files, indices)
    requires k == 0 <==> layout.None?
    requires layout.Some? ==> FrameAt(files, indices, 0).Ok? && layout.value == FrameAt(files, indices, 0).value.layout
    ensures r == FrameAt(files, indices, k)
  {
    var chosen: Opened;
    match indices {
      case Some(idx) =>
        if idx[k] >= |files| {
          return Panic(INDEX_PANIC);
        }
        chosen := files[idx[k]];
      case None =>
        chosen := files[k];
    }
    match chosen {
      case OpenFailed(e) =>
        return Err(e);
      case Opened(f) =>
        if layout.Some? && f.layout != layout.value {
          return Panic(LAYOUT_PANIC);
        }
        return Ok(f);
    }
  }

  /** The body of `fun` after the frame is read: the first frame sets the
      layout and allocates the buffers, then every pixel is updated. */
  method Accumulate(proc: Processor, f: Frame, k: nat, samples: nat, frameOffset: int,
                    layout: Option<Layout>, buffer: Option<array<byte>>, extremes: Option<array<real>>,
                    ghost fs: seq<Frame>, ghost fade: nat -> real)
    returns (layout': Option<Layout>, buffer': Option<array<byte>>, extremes': Option<array<real>>)
    requires |fs| == k && Packed(f) && fade(k) == FadeAt(proc.fade, k, samples, frameOffset)
    requires Accumulated(fs, layout, buffer, extremes, proc, fade)
    requires layout.Some? ==> f.layout == layout.value
    modifies if buffer.Some? then {buffer.value} else {}
    modifies if extremes.Some? then {extremes.value} else {}
    ensures Accumulated(fs + [f], layout', buffer', extremes', proc, fade)
    ensures layout.Some? ==> layout' == layout && buffer' == buffer && extremes' == extremes
    ensures layout.None? ==> layout' == Some(f.layout) && fresh(buffer'.value) && fresh(extremes'.value)
  {
    layout', buffer', extremes' := layout, buffer, extremes;
    if layout.None? {
      layout' := Some(f.layout);
      var b, e := Allocate(f.layout, proc.darker);
      buffer', extremes' := Some(b), Some(e);
    }
    var l := layout'.value;
    var ch := l.widthStride;
    PackedLength(l.height, l.width, ch);
    assert FramesFit(fs + [f], ch, PixelCount(l)) by {
      assert forall j :: 0 <= j < |fs| ==> (fs + [f])[j] == fs[j];
    }
    RunAppend(fs, f, ch, PixelCount(l), proc, fade);
    UpdateFrame(buffer'.value, extremes'.value, f.samples, ch, proc, FadeAt(proc.fade, k, samples, frameOffset));
  }

  /** One turn of the loop over the frames: frame `k` is read and, unless
      that fails, folded into the arrays. `stop` is the outcome when the
      run ends at this frame. */
  method Step(proc: Processor, files: seq<Opened>, indices: Option<seq<nat>>, k: nat, samples: nat,
              frameOffset: int, layout: Option<Layout>, buffer: Option<array<byte>>,
              extremes: Option<array<real>>, ghost fs: seq<Frame>)
    returns (stop: Option<Outcome<(seq<byte>, Layout)>>, layout': Option<Layout>,
             buffer': Option<array<byte>>, extremes': Option<array<real>>, ghost fs': seq<Frame>)
    requires AllPacked(files) && samples == SampleCount(files, indices) && frameOffset == FrameOffset(indices)
    requires k < samples && |fs| == k && Collect(FrameSteps(files, indices), k) == Ok(fs)
    requires Accumulated(fs, layout, buffer, extremes, proc, Fades(proc, files, indices))
    requires layout.Some? ==> FrameAt(files, indices, 0) == Ok(fs[0])
    modifies if buffer.Some? then {buffer.value} else {}
    modifies if extremes.Some? then {extremes.value} else {}
    ensures stop.Some? ==> stop.value == Result(proc, files, indices)
    ensures stop.None? ==>
              && |fs'| == k + 1 && Collect(FrameSteps(files, indices), k + 1) == Ok(fs')
              && Accumulated(fs', layout', buffer', extremes', proc, Fades(proc, files, indices))
              && (layout'.Some? ==> FrameAt(files, indices, 0) == Ok(fs'[0]))
    ensures buffer'.Some? ==> buffer' == buffer || fresh(buffer'.value)
    ensures extremes'.Some? ==> extremes' == extremes || fresh(extremes'.value)
  {
    layout', buffer', extremes', fs' := layout, buffer, extremes, fs;
    var r := NextFrame(files, indices, k, layout);
    if !r.Ok? {
      FirstFailure(proc, files, indices, k);
      return Some(if r.Err? then Err(r.message) else Panic(r.message)), layout', buffer', extremes', fs';
    }
    FramesAgreeStep(files, indices, k, fs);
    layout', buffer', extremes' := Accumulate(proc, r.value, k, samples, frameOffset, layout, buffer, extremes,
                                              fs, Fades(proc, files, indices));
    fs' := fs + [r.value];
    stop := None;
  }

  /** `SimpleProcessor::process`: the frames in order, each checked against
      the first frame's layout and folded into the buffer pixel by pixel. */
  method Process(proc: Processor, files: seq<Opened>, indices: Option<seq<nat>>)
    returns (res: Outcome<(seq<byte>, Layout)>)
    requires AllPacked(files)
    ensures res == Result(proc, files, indices)
  {
    var samples := SampleCount(files, indices);
    var frameOffset := FrameOffset(indices);
    var layout: Option<Layout> := None;
    var buffer: Option<array<byte>> := None;
    var extremes: Option<array<real>> := None;
    ghost var step := FrameSteps(files, indices);
    ghost var fades := Fades(proc, files, indices);
    ghost var fs: seq<Frame> := [];
    var k := 0;
    while k < samples
      invariant k <= samples && |fs| == k
      invariant Collect(step, k) == Ok(fs)
      invariant Accumulated(fs, layout, buffer, extremes, proc, fades)
      invariant layout.Some? ==> FrameAt(files, indices, 0) == Ok(fs[0])
      invariant buffer.Some? ==> fresh(buffer.value)
      invariant extremes.Some? ==> fresh(extremes.value)
    {
      var stop;
      stop, layout, buffer, extremes, fs := Step(proc, files, indices, k, samples, frameOffset, layout, buffer, extremes, fs);
      if stop.Some? {
        return stop.value;
      }
      k := k + 1;
    }
    AllFrames(proc, files, indices, fs);
    if layout.None? {
      return Panic(UNWRAP_PANIC);
    }
    res := Ok((buffer.value[..], layout.value));
  }

  /** Once every frame is read, the outcome is the run over them, or the
      `unwrap` panic when there was none. */
  lemma AllFrames(proc: Processor, files: seq<Opened>, indices: Option<seq<nat>>, fs: seq<Frame>)
    requires AllPacked(files)
    requires Collect(FrameSteps(files, indices), SampleCount(files, indices)) == Ok(fs)
    ensures |fs| == 0 ==> Result(proc, files, indices) == Panic(UNWRAP_PANIC)
    ensures |fs| > 0 ==>
              var l := fs[0].layout;
              Packed(fs[0]) && l.widthStride <= 4 && FramesFit(fs, l.widthStride, PixelCount(l)) &&
              Result(proc, files, indices) ==
                Ok((Run(fs, l.widthStride, PixelCount(l), proc, Fades(proc, files, indices)).buffer, l))
  {
    FramesAgree(files, indices);
    if |fs| > 0 {
      var l := fs[0].layout;
      PackedLength(l.height, l.width, l.widthStride);
    }
  }
}
