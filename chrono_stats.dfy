/** The order statistics `ChronoProcessor` takes of one sorted channel
    column: `median` and `quartiles` as the code computes them, and the
    position rule they evidently intend. */
module ChronoStats {
  import opened Common

  /** Ascending order, as `sort_unstable` leaves a slice. */
  predicate Ascending(s: seq<byte>)
  {
    forall i, j :: 0 <= i < j < |s| ==> s[i] <= s[j]
  }

  /** Inserting one value into an ascending list. */
  function Insert(x: byte, s: seq<byte>): (r: seq<byte>)
    ensures |r| == |s| + 1 && multiset(r) == multiset(s) + multiset{x}
    ensures r[0] == x || (|s| > 0 && r[0] == s[0])
    ensures Ascending(s) ==> Ascending(r)
  {
    if s == [] || x <= s[0] then
      assert Ascending(s) ==> Ascending([x] + s) by {
        if Ascending(s) {
          AscendingCons(x, s);
        }
      }
      [x] + s
    else
      assert s == [s[0]] + s[1..];
      var rest := Insert(x, s[1..]);
      assert Ascending(s) ==> Ascending([s[0]] + rest) by {
        if Ascending(s) {
          AscendingCons(s[0], rest);
        }
      }
      [s[0]] + rest
  }

  /** A value no larger than the head of an ascending list extends it. */
  lemma AscendingCons(h: byte, t: seq<byte>)
    requires Ascending(t) && (|t| > 0 ==> h <= t[0])
    ensures Ascending([h] + t)
  {
  }

  /** `sort_unstable` on a byte slice: the same values, ascending. */
  function Sort(s: seq<byte>): (r: seq<byte>)
    ensures |r| == |s| && multiset(r) == multiset(s) && Ascending(r)
  {
    if s == [] then []
    else
      assert s == [s[0]] + s[1..];
      Insert(s[0], Sort(s[1..]))
  }

  const INDEX_PANIC := "index out of bounds"

  /** `data[i] as f32`; an index past the end panics. */
  function At(data: seq<byte>, i: nat): (r: Outcome<real>)
    ensures r.Ok? <==> i < |data|
    ensures r.Ok? ==> r.value == data[i] as real
  {
    if i < |data| then Ok(data[i] as real) else Panic(INDEX_PANIC)
  }

  /** `0.5 * (data[i] as f32 + data[i + 1] as f32)`; an index past the end panics. */
  function Halfway(data: seq<byte>, i: nat): (r: Outcome<real>)
    ensures r.Ok? <==> i + 1 < |data|
    ensures r.Ok? ==> r.value == (data[i] as real + data[i + 1] as real) / 2.0
  {
    if i + 1 < |data| then Ok(0.5 * (data[i] as real + data[i + 1] as real)) else Panic(INDEX_PANIC)
  }

  /** One statistic as the code reads it: the element at `i` when the
      position is `whole`, otherwise halfway from `i` to the next element. */
  function Read(data: seq<byte>, whole: bool, i: nat): (r: Outcome<real>)
    ensures r.Ok? <==> (if whole then i < |data| else i + 1 < |data|)
  {
    if whole then At(data, i) else Halfway(data, i)
  }

  /** Whether `median` reads a single element: for an even length. */
  function MedWhole(len: nat): bool { len % 2 == 0 }
  /** The index `median` reads: `(len + 1) / 2`, or `len / 2` and the next. */
  function MedIndex(len: nat): nat { if MedWhole(len) then (len + 1) / 2 else len / 2 }
  /** Whether Q1 is a single element: when `(len + 1) % 4 == 0`. */
  function Q1Whole(len: nat): bool { (len + 1) % 4 == 0 }
  /** The index Q1 reads: `(len + 1) / 4`, or `len / 4` and the next. */
  function Q1Index(len: nat): nat { if Q1Whole(len) then (len + 1) / 4 else len / 4 }
  /** Whether Q3 is a single element: when `3 (len + 1) % 4 == 0`. */
  function Q3Whole(len: nat): bool { (3 * (len + 1)) % 4 == 0 }
  /** The index Q3 reads: `3 (len + 1) / 4`, or `3 len / 4` and the next. */
  function Q3Index(len: nat): nat { if Q3Whole(len) then (3 * (len + 1)) / 4 else (3 * len) / 4 }

  /** `median`: for an even length the element at `(len + 1) / 2`, for an
      odd length halfway between the elements at `len / 2` and `len / 2 + 1`. */
  function Median(data: seq<byte>): Outcome<real>
  {
    Read(data, MedWhole(|data|), MedIndex(|data|))
  }

  /** `quartiles`: `(Q1, median, Q3)`, each the element at `(len + 1) * q`
      when that is a whole number and otherwise halfway between the elements
      at `len * q` and the one after; any index past the end panics. */
  function Quartiles(data: seq<byte>): Outcome<(real, real, real)>
  {
    var len := |data|;
    ReadThree(data, Q1Whole(len), Q1Index(len), MedWhole(len), MedIndex(len), Q3Whole(len), Q3Index(len))
  }

  /** Three statistics read in turn; any read past the end panics. */
  function ReadThree(data: seq<byte>, w1: bool, i1: nat, wm: bool, im: nat, w3: bool, i3: nat): Outcome<(real, real, real)>
  {
    var med := Read(data, wm, im);
    var q1 := Read(data, w1, i1);
    var q3 := Read(data, w3, i3);
    if med.Ok? && q1.Ok? && q3.Ok? then Ok((q1.value, med.value, q3.value))
    else Panic(INDEX_PANIC)
  }

  /** `median` reads inside the slice exactly when it has at least two
      elements: a single sample reads `data[1]`. */
  lemma MedianInBounds(data: seq<byte>)
    ensures Median(data).Ok? <==> |data| >= 2
  {
  }

  /** `quartiles` reads inside the slice exactly when it has at least five
      elements: three read `data[3]`, four read `data[4]`. */
  lemma QuartilesInBounds(data: seq<byte>)
    ensures Quartiles(data).Ok? <==> |data| >= 5
  {
    var len := |data|;
    if len >= 5 {
      AsWrittenPositions(len);
    } else {
      assert len == 0 || len == 1 || len == 2 || len == 3 || len == 4;
    }
  }

  /** The middle component of `quartiles` is `median`. */
  lemma QuartilesMedian(data: seq<byte>)
    requires Quartiles(data).Ok?
    ensures Median(data).Ok? && Quartiles(data).value.1 == Median(data).value
  {
  }

  /** On ascending data the three quartiles are ordered and lie within the
      smallest and the largest sample. */
  lemma QuartilesOrdered(data: seq<byte>)
    requires Ascending(data) && |data| >= 5
    ensures Quartiles(data).Ok?
    ensures var q := Quartiles(data).value;
            data[0] as real <= q.0 <= q.1 <= q.2 <= data[|data| - 1] as real
  {
    var len := |data|;
    AsWrittenPositions(len);
    ReadThreeOrdered(data, Q1Whole(len), Q1Index(len), MedWhole(len), MedIndex(len), Q3Whole(len), Q3Index(len));
  }

  /** Reads in bounds, each ending at or before the next begins, give
      ordered values within ascending data. */
  lemma ReadThreeOrdered(data: seq<byte>, w1: bool, i1: nat, wm: bool, im: nat, w3: bool, i3: nat)
    requires Ascending(data)
    requires if w1 then i1 < |data| else i1 + 1 < |data|
    requires if wm then im < |data| else im + 1 < |data|
    requires if w3 then i3 < |data| else i3 + 1 < |data|
    requires After(i1 + 1, w1) < im + 1 && After(im + 1, wm) < i3 + 1
    ensures ReadThree(data, w1, i1, wm, im, w3, i3).Ok?
    ensures var q := ReadThree(data, w1, i1, wm, im, w3, i3).value;
            data[0] as real <= q.0 <= q.1 <= q.2 <= data[|data| - 1] as real
  {
    // each statistic is the value one position later than the index it reads
    ReadsPosition(data, w1, i1);
    ReadsPosition(data, wm, im);
    ReadsPosition(data, w3, i3);
    ThreeOrdered(data, i1 + 1, w1, im + 1, wm, i3 + 1, w3);
  }

  /** Reading at a 0-based index, or halfway from it to the next, gives the
      value at the 1-based position one further on. */
  lemma ReadsPosition(data: seq<byte>, whole: bool, i: nat)
    requires if whole then i < |data| else i + 1 < |data|
    ensures Read(data, whole, i) == Ok(AtPosition(data, i + 1, whole))
  {
  }

  /** The elements `quartiles` reads, at one position past the intended ones,
      lie inside five or more samples and in order. */
  lemma AsWrittenPositions(len: nat)
    requires len >= 5
    ensures if Q1Whole(len) then Q1Index(len) < len else Q1Index(len) + 1 < len
    ensures if MedWhole(len) then MedIndex(len) < len else MedIndex(len) + 1 < len
    ensures if Q3Whole(len) then Q3Index(len) < len else Q3Index(len) + 1 < len
    ensures After(Q1Index(len) + 1, Q1Whole(len)) < MedIndex(len) + 1
    ensures After(MedIndex(len) + 1, MedWhole(len)) < Q3Index(len) + 1
  {
  }

  // -----------------------------------------------------------------------
  // What a median means, and the position rule the code evidently intends

  /** How many samples are at most `m`. */
  function CountAtMost(s: seq<byte>, m: real): nat
  {
    if |s| == 0 then 0
    else CountAtMost(s[..|s| - 1], m) + (if s[|s| - 1] as real <= m then 1 else 0)
  }

  /** How many samples are at least `m`. */
  function CountAtLeast(s: seq<byte>, m: real): nat
  {
    if |s| == 0 then 0
    else CountAtLeast(s[..|s| - 1], m) + (if s[|s| - 1] as real >= m then 1 else 0)
  }

  /** A median: at least half of the samples are at most `m` and at least
      half are at least `m`. */
  predicate IsMedian(s: seq<byte>, m: real)
  {
    2 * CountAtMost(s, m) >= |s| && 2 * CountAtLeast(s, m) >= |s|
  }

  /** When the first `k` samples are at most `m`, at least `k` are counted. */
  lemma {:induction false} CountAtMostPrefix(s: seq<byte>, m: real, k: nat)
    requires k <= |s| && forall i :: 0 <= i < k ==> s[i] as real <= m
    ensures CountAtMost(s, m) >= k
  {
    if |s| > 0 {
      if k == |s| {
        CountAtMostPrefix(s[..|s| - 1], m, k - 1);
      } else {
        CountAtMostPrefix(s[..|s| - 1], m, k);
      }
    }
  }

  /** When the samples from `k` on are at least `m`, at least `|s| - k` are counted. */
  lemma {:induction false} CountAtLeastSuffix(s: seq<byte>, m: real, k: nat)
    requires k <= |s| && forall i :: k <= i < |s| ==> s[i] as real >= m
    ensures CountAtLeast(s, m) >= |s| - k
  {
    if |s| > k {
      CountAtLeastSuffix(s[..|s| - 1], m, k);
    }
  }

  /** When the first `k` samples are below `m`, at most `|s| - k` are at least `m`. */
  lemma {:induction false} CountAtLeastBound(s: seq<byte>, m: real, k: nat)
    requires k <= |s| && forall i :: 0 <= i < k ==> s[i] as real < m
    ensures CountAtLeast(s, m) <= |s| - k
  {
    if |s| > 0 {
      if k == |s| {
        CountAtLeastBound(s[..|s| - 1], m, k - 1);
      } else {
        CountAtLeastBound(s[..|s| - 1], m, k);
      }
    }
  }

  /** The samples `0, 1, ..., 6`. */
  const SEVEN: seq<byte> := [0, 1, 2, 3, 4, 5, 6]

  /** As written, `median` of seven ascending samples averages the fourth and
      the fifth, and the result is no median: only three of the seven samples
      reach it. A single sample panics. */
  lemma MedianAsWrittenMisses()
    ensures Ascending(SEVEN)
    ensures Median(SEVEN) == Ok(3.5) && !IsMedian(SEVEN, 3.5)
    ensures Median([7]).Panic?
  {
    CountAtLeastBound(SEVEN, 3.5, 4);
  }

  /** As written, `quartiles` of `0, 1, ..., 6` is `(2, 3.5, 6)`, where the
      quartile positions `(n + 1) / 4`, `(n + 1) / 2`, `3 (n + 1) / 4` of the
      seven samples give `(1, 3, 5)`. */
  lemma QuartilesAsWrittenShifted()
    ensures Quartiles(SEVEN) == Ok((2.0, 3.5, 6.0))
  {
  }

  /** The value at the 1-based position `p` of ascending data when the
      position is `whole`, otherwise at `p + 1/2`: halfway between the
      samples at positions `p` and `p + 1`. */
  function AtPosition(data: seq<byte>, p: nat, whole: bool): (v: real)
    requires 1 <= p && (if whole then p <= |data| else p < |data|)
  {
    if whole then data[p - 1] as real
    else 0.5 * (data[p - 1] as real + data[p] as real)
  }

  /** The 0-based index of the sample at or just after a position. */
  function After(p: nat, whole: bool): nat
    requires 1 <= p
  {
    if whole then p - 1 else p
  }

  /** The value at a position lies between the samples on either side of it. */
  lemma AtPositionBetween(data: seq<byte>, p: nat, whole: bool)
    requires 1 <= p && (if whole then p <= |data| else p < |data|)
    requires Ascending(data)
    ensures After(p, whole) < |data|
    ensures data[p - 1] as real <= AtPosition(data, p, whole) <= data[After(p, whole)] as real
  {
  }

  /** The median the code evidently intends: the sample at position
      `(n + 1) / 2`, or halfway between the two middle samples. */
  function MedianIntended(data: seq<byte>): (m: real)
    requires |data| >= 1
  {
    AtPosition(data, (|data| + 1) / 2, (|data| + 1) % 2 == 0)
  }

  /** The intended median is a median of ascending data, and lies within it. */
  lemma MedianIntendedIsMedian(data: seq<byte>)
    requires |data| >= 1 && Ascending(data)
    ensures IsMedian(data, MedianIntended(data))
    ensures data[0] as real <= MedianIntended(data) <= data[|data| - 1] as real
  {
    var len := |data|;
    var m := MedianIntended(data);
    var p, whole := (len + 1) / 2, (len + 1) % 2 == 0;
    AtPositionBetween(data, p, whole);
    var hi := After(p, whole);
    assert forall i :: 0 <= i < p ==> data[i] as real <= m by {
      forall i | 0 <= i < p ensures data[i] as real <= m {
        assert data[i] <= data[p - 1];
      }
    }
    assert forall i :: hi <= i < len ==> data[i] as real >= m by {
      forall i | hi <= i < len ensures data[i] as real >= m {
        assert data[hi] <= data[i];
      }
    }
    CountAtMostPrefix(data, m, p);
    CountAtLeastSuffix(data, m, hi);
  }

  /** The quartiles the code evidently intends: the values at positions
      `(n + 1) / 4`, `(n + 1) / 2` and `3 (n + 1) / 4`. */
  function QuartilesIntended(data: seq<byte>): (q: (real, real, real))
    requires |data| >= 3
  {
    var len := |data|;
    (AtPosition(data, (len + 1) / 4, (len + 1) % 4 == 0),
     MedianIntended(data),
     AtPosition(data, (3 * (len + 1)) / 4, (3 * (len + 1)) % 4 == 0))
  }

  /** The intended quartiles are ordered and lie within ascending data. */
  lemma QuartilesIntendedOrdered(data: seq<byte>)
    requires |data| >= 3 && Ascending(data)
    ensures var q := QuartilesIntended(data);
            data[0] as real <= q.0 <= q.1 <= q.2 <= data[|data| - 1] as real
  {
    var len := |data|;
    var p1, w1 := (len + 1) / 4, (len + 1) % 4 == 0;
    var pm, wm := (len + 1) / 2, (len + 1) % 2 == 0;
    var p3, w3 := (3 * (len + 1)) / 4, (3 * (len + 1)) % 4 == 0;
    PositionsOrdered(len);
    assert QuartilesIntended(data) == (AtPosition(data, p1, w1), AtPosition(data, pm, wm), AtPosition(data, p3, w3));
    ThreeOrdered(data, p1, w1, pm, wm, p3, w3);
  }

  /** The three quartile positions of `len` samples lie inside the data, and
      the sample after each position is at or before the next position. */
  lemma PositionsOrdered(len: nat)
    requires len >= 3
    ensures 1 <= (len + 1) / 4 && ((len + 1) % 4 == 0 || (len + 1) / 4 < len)
    ensures 1 <= (len + 1) / 2 && ((len + 1) % 2 == 0 || (len + 1) / 2 < len) && (len + 1) / 2 <= len
    ensures 1 <= (3 * (len + 1)) / 4 <= len && ((3 * (len + 1)) % 4 == 0 || (3 * (len + 1)) / 4 < len)
    ensures After((len + 1) / 4, (len + 1) % 4 == 0) < (len + 1) / 2
    ensures After((len + 1) / 2, (len + 1) % 2 == 0) < (3 * (len + 1)) / 4
  {
  }

  /** Values at three positions, each sample after one position at or before
      the next, are ordered on ascending data and lie within it. */
  lemma ThreeOrdered(data: seq<byte>, p1: nat, w1: bool, p2: nat, w2: bool, p3: nat, w3: bool)
    requires Ascending(data)
    requires 1 <= p1 && (if w1 then p1 <= |data| else p1 < |data|)
    requires 1 <= p2 && (if w2 then p2 <= |data| else p2 < |data|)
    requires 1 <= p3 && (if w3 then p3 <= |data| else p3 < |data|)
    requires After(p1, w1) < p2 && After(p2, w2) < p3
    ensures data[0] as real <= AtPosition(data, p1, w1) <= AtPosition(data, p2, w2)
    ensures AtPosition(data, p2, w2) <= AtPosition(data, p3, w3) <= data[|data| - 1] as real
  {
    AtPositionBetween(data, p1, w1);
    AtPositionBetween(data, p2, w2);
    AtPositionBetween(data, p3, w3);
    assert data[0] <= data[p1 - 1] && data[After(p1, w1)] <= data[p2 - 1];
    assert data[After(p2, w2)] <= data[p3 - 1] && data[After(p3, w3)] <= data[|data| - 1];
  }

  /** On `0, 1, ..., 6` the intended quartiles are `(1, 3, 5)`. */
  lemma QuartilesIntendedSeven()
    ensures QuartilesIntended(SEVEN) == (1.0, 3.0, 5.0)
  {
  }
}
