/** The configuration value types of the compositor: the pixel selection
    mode, the outlier threshold with its blend ramp, and the outlier and
    background selection modes, each with the keyword parser the command
    line uses. */
module Options {
  import opened Common

  // ---------------------------------------------------------------------
  // SelectionMode

  datatype SelectionMode = Outlier | Lighter | Darker

  /** The keyword that names each selection mode. */
  function SelectionKeyword(m: SelectionMode): string
  {
    match m
    case Outlier => "outlier"
    case Lighter => "lighter"
    case Darker => "darker"
  }

  /** `SelectionMode::from_str`: exactly the three keywords are accepted, each
      giving the mode it names; every other string is an error, none panics. */
  function ParseSelectionMode(s: string): (r: Outcome<SelectionMode>)
    ensures !r.Panic?
    ensures r.Ok? <==> s in {"lighter", "darker", "outlier"}
    ensures r.Ok? ==> SelectionKeyword(r.value) == s
  {
    if s == "lighter" then Ok(Lighter)
    else if s == "darker" then Ok(Darker)
    else if s == "outlier" then Ok(Outlier)
    else Err("Not a pixel selection mode: " + s + ". Must be one of (lighter|darker|outlier)")
  }

  lemma SelectionKeywordParses(m: SelectionMode)
    ensures ParseSelectionMode(SelectionKeyword(m)) == Ok(m)
  {
  }

  // ---------------------------------------------------------------------
  // Threshold

  /** The outlier threshold: a sample is an outlier from distance `min` on and
      is fully blended from distance `max` on; `scale` is the reciprocal of
      the ramp width `max - min`. Absolute thresholds are in sample units
      (0..255), relative ones in inter-quartile ranges. */
  datatype Threshold = Threshold(absolute: bool, min: real, max: real, scale: real)
  {
    /** `scale` is the reciprocal of the ramp width whenever there is a ramp. */
    predicate Consistent()
    {
      min != max ==> scale * (max - min) == 1.0
    }
  }

  /** `Threshold::new`. With `max == min` f32 division gives an infinite
      scale; the model stores 0 there, a value `BlendValue` never reads. */
  function NewThreshold(absolute: bool, min: real, max: real): (t: Threshold)
    ensures t.absolute == absolute && t.min == min && t.max == max
    ensures t.Consistent()
  {
    Threshold(absolute, min, max, if max == min then 0.0 else 1.0 / (max - min))
  }

  /** `Threshold::abs`: an absolute threshold. */
  function Abs(min: real, max: real): (t: Threshold)
    ensures t.absolute && t.min == min && t.max == max && t.Consistent()
  {
    NewThreshold(true, min, max)
  }

  /** `Threshold::rel`: a relative threshold. */
  function Rel(min: real, max: real): (t: Threshold)
    ensures !t.absolute && t.min == min && t.max == max && t.Consistent()
  {
    NewThreshold(false, min, max)
  }

  /** `Threshold::blend_value`: how strongly an outlier at distance `dist` is
      blended over the background. Nothing up to `min`, everything from `max`
      on, linear in between; a threshold without a ramp (`max <= min`) is a
      step at `min`, so its scale is never used. */
  function BlendValue(t: Threshold, dist: real): (b: real)
    ensures dist <= t.min ==> b == 0.0
    ensures t.min < dist && t.max <= dist ==> b == 1.0
    ensures t.Consistent() && t.min < dist < t.max ==> b == (dist - t.min) / (t.max - t.min)
    ensures t.Consistent() ==> 0.0 <= b <= 1.0
    ensures t.max <= t.min ==> b == (if dist <= t.min then 0.0 else 1.0)
  {
    if dist <= t.min then 0.0
    else if dist >= t.max then 1.0
    else
      RampValue(dist - t.min, t.max - t.min, t.scale);
      (dist - t.min) * t.scale
  }

  /** Inside the ramp, multiplying by the stored scale divides by its width. */
  lemma RampValue(x: real, w: real, scale: real)
    ensures 0.0 < x < w && scale == 1.0 / w ==> x * scale == x / w && 0.0 <= x * scale <= 1.0
  {
  }

  /** A farther outlier is never blended less. */
  lemma BlendValueMonotone(t: Threshold, d1: real, d2: real)
    requires t.Consistent() && d1 <= d2
    ensures BlendValue(t, d1) <= BlendValue(t, d2)
  {
    if t.min < d1 && d2 < t.max {
      var w := t.max - t.min;
      assert (d1 - t.min) / w <= (d2 - t.min) / w by {
        assert (d2 - t.min) / w - (d1 - t.min) / w == (d2 - d1) / w;
      }
    }
  }

  /** The keywords that select absolute or relative thresholds. */
  const ThresholdKeywords: set<string> := {"absolute", "abs", "relative", "rel"}

  /** Absolute thresholds are given as fractions of the sample range and
      scaled by 255; relative ones are kept as they are. */
  function Scaled(absolute: bool, x: real): real
  {
    if absolute then x * 255.0 else x
  }

  /** `Threshold::from_str` on `mode/min[/max]`. An unknown mode is an error;
      a known mode without a lower threshold, or a threshold that is not a
      number, panics; a missing upper threshold equals the lower one. */
  function ParseThreshold(s: string): (r: Outcome<Threshold>)
    ensures r.Err? <==> Split(s, '/')[0] !in ThresholdKeywords
    ensures r.Ok? ==> (r.value.absolute <==> Split(s, '/')[0] in {"absolute", "abs"})
    ensures r.Ok? ==> r.value.Consistent()
    ensures Split(s, '/')[0] in ThresholdKeywords && '/' !in s ==> r.Panic?
    ensures var parts := Split(s, '/');
              r.Ok? <==> parts[0] in ThresholdKeywords && |parts| >= 2 && ParseReal(parts[1]).Some? &&
                         (|parts| >= 3 ==> ParseReal(parts[2]).Some?)
    ensures r.Ok? ==>
              |Split(s, '/')| >= 2 && ParseReal(Split(s, '/')[1]).Some? &&
              r.value.min == Scaled(r.value.absolute, ParseReal(Split(s, '/')[1]).value)
    ensures r.Ok? && |Split(s, '/')| == 2 ==> r.value.max == r.value.min
    ensures r.Ok? && |Split(s, '/')| >= 3 ==>
              ParseReal(Split(s, '/')[2]).Some? &&
              r.value.max == Scaled(r.value.absolute, ParseReal(Split(s, '/')[2]).value)
  {
    var parts := Split(s, '/');
    var mode := parts[0];
    if mode !in ThresholdKeywords then
      Err("Not a pixel outlier detection mode: " + s
          + ". Must be one of (abs[olute]/<threshold>|rel[ative]/<threshold>)")
    else
      var absolute := mode in {"absolute", "abs"};
      if |parts| < 2 then Panic("Unexpected format in " + s)
      else
        match ParseReal(parts[1])
        case None => Panic("Unable to parse lower threshold for outlier detection: " + s)
        case Some(lower) =>
          if |parts| >= 3 && ParseReal(parts[2]).None? then
            Panic("Unable to parse upper threshold for outlier detection: " + parts[2])
          else
            var upper := if |parts| >= 3 then ParseReal(parts[2]).value else lower;
            Ok(NewThreshold(absolute, Scaled(absolute, lower), Scaled(absolute, upper)))
  }

  /** A keyword followed by one or two decimal numbers parses to the
      threshold they give: with one number the upper bound equals the lower. */
  lemma ThresholdParses(keyword: string, lo: nat, hi: nat)
    requires keyword in ThresholdKeywords
    ensures var absolute := keyword in {"absolute", "abs"};
      && ParseThreshold(keyword + "/" + Decimal(lo))
         == Ok(NewThreshold(absolute, Scaled(absolute, lo as real), Scaled(absolute, lo as real)))
      && ParseThreshold(keyword + "/" + Decimal(lo) + "/" + Decimal(hi))
         == Ok(NewThreshold(absolute, Scaled(absolute, lo as real), Scaled(absolute, hi as real)))
  {
    KeywordSplits(keyword, lo, hi);
    ParseRealDecimal(lo);
    ParseRealDecimal(hi);
    ThresholdOfParts(keyword + "/" + Decimal(lo), lo as real, lo as real);
    ThresholdOfParts(keyword + "/" + Decimal(lo) + "/" + Decimal(hi), lo as real, hi as real);
  }

  /** The fields of a keyword and its numbers. */
  lemma KeywordSplits(keyword: string, lo: nat, hi: nat)
    requires keyword in ThresholdKeywords
    ensures Split(keyword + "/" + Decimal(lo), '/') == [keyword, Decimal(lo)]
    ensures Split(keyword + "/" + Decimal(lo) + "/" + Decimal(hi), '/') == [keyword, Decimal(lo), Decimal(hi)]
  {
    KeywordHasNoSeparator(keyword);
    var a, b := Decimal(lo), Decimal(hi);
    DigitsHaveNoSeparator(a, '/');
    DigitsHaveNoSeparator(b, '/');
    assert "/" == ['/'];
    SplitTwo(keyword, '/', a);
    SplitThree(keyword, a, b, '/');
  }

  lemma KeywordHasNoSeparator(keyword: string)
    requires keyword in ThresholdKeywords
    ensures '/' !in keyword
  {
    assert keyword == "absolute" || keyword == "abs" || keyword == "relative" || keyword == "rel";
  }

  /** A known keyword with readable bounds gives the threshold of those bounds. */
  lemma ThresholdOfParts(s: string, lo: real, hi: real)
    requires var parts := Split(s, '/');
      && parts[0] in ThresholdKeywords && |parts| >= 2 && ParseReal(parts[1]) == Some(lo)
      && (|parts| >= 3 ==> ParseReal(parts[2]) == Some(hi)) && (|parts| == 2 ==> hi == lo)
    ensures var absolute := Split(s, '/')[0] in {"absolute", "abs"};
      ParseThreshold(s) == Ok(NewThreshold(absolute, Scaled(absolute, lo), Scaled(absolute, hi)))
  {
  }

  // ---------------------------------------------------------------------
  // OutlierSelectionMode

  datatype OutlierSelectionMode = First | Last | Extreme | Average | AllForward | AllBackward

  function OutlierKeyword(m: OutlierSelectionMode): string
  {
    match m
    case First => "first"
    case Last => "last"
    case Extreme => "extreme"
    case Average => "average"
    case AllForward => "forward"
    case AllBackward => "backward"
  }

  /** `OutlierSelectionMode::from_str`: the six keywords map to the six modes;
      every other string is an error. */
  function ParseOutlierSelectionMode(s: string): (r: Outcome<OutlierSelectionMode>)
    ensures !r.Panic?
    ensures r.Ok? <==> s in {"first", "last", "extreme", "average", "forward", "backward"}
    ensures r.Ok? ==> OutlierKeyword(r.value) == s
  {
    if s == "first" then Ok(First)
    else if s == "last" then Ok(Last)
    else if s == "extreme" then Ok(Extreme)
    else if s == "average" then Ok(Average)
    else if s == "forward" then Ok(AllForward)
    else if s == "backward" then Ok(AllBackward)
    else Err("Not an outlier selection mode: " + s
             + ". Must be one of (first|last|extreme|average|forward|backward)")
  }

  lemma OutlierKeywordParses(m: OutlierSelectionMode)
    ensures ParseOutlierSelectionMode(OutlierKeyword(m)) == Ok(m)
  {
  }

  // ---------------------------------------------------------------------
  // BackgroundMode

  datatype BackgroundMode = FirstFrame | RandomFrame | AverageFrame | MedianFrame

  function BackgroundKeyword(m: BackgroundMode): string
  {
    match m
    case FirstFrame => "first"
    case RandomFrame => "random"
    case AverageFrame => "average"
    case MedianFrame => "median"
  }

  /** `BackgroundMode::from_str`: the four keywords map to the four modes;
      every other string is an error. */
  function ParseBackgroundMode(s: string): (r: Outcome<BackgroundMode>)
    ensures !r.Panic?
    ensures r.Ok? <==> s in {"first", "random", "average", "median"}
    ensures r.Ok? ==> BackgroundKeyword(r.value) == s
  {
    if s == "first" then Ok(FirstFrame)
    else if s == "random" then Ok(RandomFrame)
    else if s == "average" then Ok(AverageFrame)
    else if s == "median" then Ok(MedianFrame)
    else Err("Not a background pixel selection mode: " + s
             + ". Must be one of (first|random|average|median)")
  }

  lemma BackgroundKeywordParses(m: BackgroundMode)
    ensures ParseBackgroundMode(BackgroundKeyword(m)) == Ok(m)
  {
  }
}
