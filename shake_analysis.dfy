/** Camera shake analysis, second half (`shake.rs`): the table of squared
    differences between the stored anchor windows and every shifted window
    of a later frame (`calc_diffs`), the choice of its minimum, the decoding
    of that entry into an offset, and the per-frame results of `analyze`. */
module ShakeAnalysis {
  import opened Common
  import opened Banding
  import opened Shake

  // -----------------------------------------------------------------------
  // Squared differences

  /** `x.pow(2)`, as `|x|` additions of `|x|`. */
  function Sq(x: int): (s: nat)
    ensures s == 0 <==> x == 0
  {
    var m := if x < 0 then -x else x;
    Offset(m, m)
  }

  /** It is the square the source computes. */
  lemma {:induction false} SqIs(x: int)
    ensures Sq(x) == x * x
  {
    var m := if x < 0 then -x else x;
    OffsetProduct(m, m);
  }

  /** The sum of `(a[j] - b[j])²` over every position. */
  function SqDiff(a: seq<byte>, b: seq<byte>): nat
    requires |a| == |b|
  {
    SqDiffTo(a, b, |a|)
  }

  /** The sum of `(a[j] - b[j])²` over the first `n` positions. */
  function SqDiffTo(a: seq<byte>, b: seq<byte>, n: nat): nat
    requires n <= |a| && n <= |b|
  {
    if n == 0 then 0 else SqDiffTo(a, b, n - 1) + Sq(a[n - 1] as int - b[n - 1] as int)
  }

  /** The first `n` positions differ by nothing exactly when they agree. */
  lemma {:induction false} SqDiffToZero(a: seq<byte>, b: seq<byte>, n: nat)
    requires n <= |a| && n <= |b|
    ensures SqDiffTo(a, b, n) == 0 <==> forall j :: 0 <= j < n ==> a[j] == b[j]
  {
    if n > 0 {
      SqDiffToZero(a, b, n - 1);
    }
  }

  /** Two byte strings differ by nothing exactly when they are equal. */
  lemma {:induction false} SqDiffZero(a: seq<byte>, b: seq<byte>)
    requires |a| == |b|
    ensures SqDiff(a, b) == 0 <==> a == b
  {
    SqDiffToZero(a, b, |a|);
  }

  // -----------------------------------------------------------------------
  // One stored window against one window of the image

  /** A cost for each pixel `(dx, dy)` of a window. */
  type PixelCostOf = (nat, nat) -> nat

  /** Where pixel (dx, dy) of a window of side `size` starts among its
      bytes, `(dy * size + dx) * channels`. */
  function PixelStart(w: nat, size: nat, dx: nat, dy: nat): nat
  {
    Offset(dy, Offset(size, w)) + Offset(dx, w)
  }

  /** The bytes of pixel (dx, dy) of a stored window: band `dx` of its
      band `dy`. */
  function WinPixel(win: seq<byte>, w: nat, size: nat, dx: nat, dy: nat): seq<byte>
  {
    Band(Band(win, dy, Offset(size, w)), dx, w)
  }

  /** Every pixel of a window of the right length is the `w` bytes from
      where it starts. */
  lemma {:induction false} PixelBand(win: seq<byte>, w: nat, size: nat, dx: nat, dy: nat)
    requires |win| == Offset(size, Offset(size, w)) && dx < size && dy < size
    ensures PixelStart(w, size, dx, dy) + w <= |win|
    ensures WinPixel(win, w, size, dx, dy) == win[PixelStart(w, size, dx, dy) .. PixelStart(w, size, dx, dy) + w]
  {
    var rowLen := Offset(size, w);
    OffsetBefore(dy, size, rowLen);
    OffsetBefore(dx, size, w);
    var row := Band(win, dy, rowLen);
    BandInside(win, dy, rowLen);
    BandInside(row, dx, w);
    var at := Offset(dy, rowLen);
    SliceOfSlice(win, at, at + rowLen, Offset(dx, w), Offset(dx, w) + w);
  }

  /** The squared differences of the channels of each pixel of the window
      around `a` against the same pixel of the stored window `win`. */
  function PixelCosts(img: Frame, win: seq<byte>, a: (int, int), r: nat): PixelCostOf
  {
    (dx: nat, dy: nat) => PixelCost(img, win, a, r, dx, dy)
  }

  /** Pixel (dx, dy) of the stored window `win` against the same pixel of
      the window around `a`. */
  function PixelCost(img: Frame, win: seq<byte>, a: (int, int), r: nat, dx: nat, dy: nat): nat
  {
    var p := WinPixel(win, img.layout.widthStride, Side(r), dx, dy);
    if |p| == img.layout.widthStride then SqDiff(p, PixelBytes(img, a.0 - r + dx, a.1 - r + dy)) else 0
  }

  /** A pixel inside the window costs nothing exactly when the stored
      bytes are the image's. */
  lemma PixelCostZero(img: Frame, win: seq<byte>, a: (int, int), r: nat, dx: nat, dy: nat)
    requires |win| == WinLen(img, r) && dx < Side(r) && dy < Side(r)
    ensures PixelCost(img, win, a, r, dx, dy) == 0 <==>
            WinPixel(win, img.layout.widthStride, Side(r), dx, dy) == PixelBytes(img, a.0 - r + dx, a.1 - r + dy)
  {
    var w := img.layout.widthStride;
    PixelBand(win, w, Side(r), dx, dy);
    SqDiffZero(WinPixel(win, w, Side(r), dx, dy), PixelBytes(img, a.0 - r + dx, a.1 - r + dy));
  }

  /** The costs of the first `cols` pixels of row `y`. */
  function LineSum(f: PixelCostOf, y: nat, cols: nat): nat
  {
    if cols == 0 then 0 else LineSum(f, y, cols - 1) + f(cols - 1, y)
  }

  /** The costs of the first `rows` rows of `cols` pixels. */
  function GridSum(f: PixelCostOf, cols: nat, rows: nat): nat
  {
    if rows == 0 then 0 else GridSum(f, cols, rows - 1) + LineSum(f, rows - 1, cols)
  }

  /** A row costs nothing exactly when each of its pixels costs nothing. */
  lemma {:induction false} LineSumZero(f: PixelCostOf, y: nat, cols: nat)
    ensures LineSum(f, y, cols) == 0 <==> forall dx: nat :: dx < cols ==> f(dx, y) == 0
  {
    if cols > 0 {
      LineSumZero(f, y, cols - 1);
    }
  }

  /** A grid costs nothing exactly when each of its pixels costs nothing. */
  lemma {:induction false} GridSumZero(f: PixelCostOf, cols: nat, rows: nat)
    ensures GridSum(f, cols, rows) == 0 <==> forall dx: nat, dy: nat :: dx < cols && dy < rows ==> f(dx, dy) == 0
  {
    if rows > 0 {
      GridSumZero(f, cols, rows - 1);
      LineSumZero(f, rows - 1, cols);
    }
  }

  /** What the loops over `dy`, `dx` and `ch` of `calc_diffs` add up for one
      window: `(win[idx + ch] - samples[idx_image + ch])²` over every
      channel of every pixel of the window around `a`. */
  function WindowCost(img: Frame, win: seq<byte>, a: (int, int), r: nat): nat
  {
    GridSum(PixelCosts(img, win, a, r), Side(r), Side(r))
  }

  /** The pixels of the window around `a`, row by row. */
  function WindowCells(img: Frame, a: (int, int), r: nat): (cells: seq<seq<seq<byte>>>)
    ensures |cells| == Side(r)
  {
    seq(Side(r), dy requires 0 <= dy < Side(r) => RowPixels(img, a.0 - r, a.1 - r + dy, Side(r)))
  }

  /** Each row of the window around `a` is the join of its pixels. */
  lemma {:induction false} WindowCellsRows(img: Frame, a: (int, int), r: nat)
    ensures forall k :: 0 <= k < Side(r) ==>
              |WindowCells(img, a, r)[k]| == Side(r) &&
              PatchRows(img, a.0 - r, a.1 - r, Side(r), Side(r))[k] == Concat(WindowCells(img, a, r)[k])
    ensures forall k, j :: 0 <= k < Side(r) && 0 <= j < Side(r) ==>
              WindowCells(img, a, r)[k][j] == PixelBytes(img, a.0 - r + j, a.1 - r + k)
  {
    var size := Side(r);
    forall k | 0 <= k < size
      ensures |WindowCells(img, a, r)[k]| == size
      ensures PatchRows(img, a.0 - r, a.1 - r, size, size)[k] == Concat(WindowCells(img, a, r)[k])
    {
      assert WindowCells(img, a, r)[k] == RowPixels(img, a.0 - r, a.1 - r + k, size);
      PatchRowConcat(img, a.0 - r, a.1 - r + k, size);
    }
    forall k, j | 0 <= k < size && 0 <= j < size
      ensures WindowCells(img, a, r)[k][j] == PixelBytes(img, a.0 - r + j, a.1 - r + k)
    {
      assert WindowCells(img, a, r)[k] == RowPixels(img, a.0 - r, a.1 - r + k, size);
    }
  }

  /** A stored window of the right length is the window around `a` exactly
      when each of its pixels is the image's pixel at the same place. */
  lemma {:induction false} WindowPixels(img: Frame, win: seq<byte>, a: (int, int), r: nat)
    requires |win| == WinLen(img, r)
    ensures win == Window(img, a, r) <==>
            forall dx: nat, dy: nat :: dx < Side(r) && dy < Side(r) ==>
              WinPixel(win, img.layout.widthStride, Side(r), dx, dy) == PixelBytes(img, a.0 - r + dx, a.1 - r + dy)
  {
    var size, w := Side(r), img.layout.widthStride;
    var rows := PatchRows(img, a.0 - r, a.1 - r, size, size);
    var cells := WindowCells(img, a, r);
    WindowConcat(img, a, r);
    WindowCellsRows(img, a, r);
    GridEq(win, rows, cells, size, w);
    var rowLen := Offset(size, w);
    if win == Window(img, a, r) {
      forall dx: nat, dy: nat | dx < size && dy < size
        ensures WinPixel(win, w, size, dx, dy) == PixelBytes(img, a.0 - r + dx, a.1 - r + dy)
      {
        assert Band(Band(win, dy, rowLen), dx, w) == cells[dy][dx];
      }
    }
    if forall dx: nat, dy: nat :: dx < size && dy < size ==> WinPixel(win, w, size, dx, dy) == PixelBytes(img, a.0 - r + dx, a.1 - r + dy) {
      forall k, j | 0 <= k < size && 0 <= j < size
        ensures Band(Band(win, k, rowLen), j, w) == cells[k][j]
      {
        assert WinPixel(win, w, size, j, k) == PixelBytes(img, a.0 - r + j, a.1 - r + k);
      }
      assert win == Concat(rows);
    }
  }

  /** The stored window costs nothing exactly when it is the window around
      `a`, byte for byte. */
  lemma {:induction false} WindowCostZero(img: Frame, win: seq<byte>, a: (int, int), r: nat)
    requires |win| == WinLen(img, r)
    ensures WindowCost(img, win, a, r) == 0 <==> win == Window(img, a, r)
  {
    var size, w := Side(r), img.layout.widthStride;
    var f := PixelCosts(img, win, a, r);
    GridSumZero(f, size, size);
    WindowPixels(img, win, a, r);
    forall dx: nat, dy: nat | dx < size && dy < size
      ensures f(dx, dy) == 0 <==> WinPixel(win, w, size, dx, dy) == PixelBytes(img, a.0 - r + dx, a.1 - r + dy)
    {
      PixelCostZero(img, win, a, r, dx, dy);
    }
  }

  // -----------------------------------------------------------------------
  // The table `calc_diffs` computes

  /** The search side `2 * search_radius + 1`: the table has `S * S` entries. */
  function SearchSide(searchRadius: nat): nat
  {
    Side(searchRadius)
  }

  /** Anchor `a` moved by `(ox - R, oy - R)`. */
  function Shifted(a: (int, int), ox: nat, oy: nat, searchRadius: nat): (int, int)
  {
    (a.0 + ox - searchRadius, a.1 + oy - searchRadius)
  }

  /** What each anchor `i` adds for the shift `(ox, oy)`. The table is
      built and read the same way whatever the cost is, so its laws are
      stated for any cost. */
  type CostOf = (nat, nat, nat) -> nat

  /** The first `n` entries anchor `i` adds, entry `d` holding the shift
      `(d / s, d % s)` (`Quot`, `Rem`). */
  function CostsTo(cost: CostOf, i: nat, s: nat, n: nat): (c: seq<int>)
    ensures |c| == n
  {
    if n == 0 then [] else CostsTo(cost, i, s, n - 1) + [cost(i, Quot(n - 1, s), Rem(n - 1, s))]
  }

  /** Entry `d` of the first `n` is the cost of the shift it holds. */
  lemma {:induction false} CostsToAt(cost: CostOf, i: nat, s: nat, n: nat, d: nat)
    requires d < n
    ensures CostsTo(cost, i, s, n)[d] == cost(i, Quot(d, s), Rem(d, s))
  {
    if d < n - 1 {
      CostsToAt(cost, i, s, n - 1, d);
    }
  }

  /** What anchor `i` adds over the whole `s` by `s` square. */
  function Costs(cost: CostOf, i: nat, s: nat): (c: seq<int>)
    ensures |c| == Offset(s, s)
  {
    CostsTo(cost, i, s, Offset(s, s))
  }

  /** Entry `ox * s + oy` of what anchor `i` adds is the cost of shift `(ox, oy)`. */
  lemma {:induction false} CostsAt(cost: CostOf, i: nat, s: nat, ox: nat, oy: nat)
    requires ox < s && oy < s
    ensures Offset(ox, s) + oy < Offset(s, s)
    ensures Costs(cost, i, s)[Offset(ox, s) + oy] == cost(i, ox, oy)
  {
    OffsetBefore(ox, s, s);
    QuotRemOf(ox, oy, s);
    CostsToAt(cost, i, s, Offset(s, s), Offset(ox, s) + oy);
  }

  /** `t` with `c` added to the entries `from .. from + n`. */
  function AddSpan(t: seq<int>, c: seq<int>, from: nat, n: nat): (u: seq<int>)
    requires |c| == |t|
    ensures |u| == |t|
  {
    seq(|t|, j requires 0 <= j < |t| => if from <= j < from + n then t[j] + c[j] else t[j])
  }

  /** Adding entry `from + n` extends the span by one. */
  lemma {:induction false} AddSpanStep(t: seq<int>, c: seq<int>, from: nat, n: nat)
    requires |c| == |t| && from + n < |t|
    ensures AddSpan(t, c, from, n)[from + n := t[from + n] + c[from + n]] == AddSpan(t, c, from, n + 1)
  {
  }

  /** Adding the span right after a prefix span extends the prefix. */
  lemma {:induction false} AddSpanJoin(t: seq<int>, c: seq<int>, m: nat, n: nat)
    requires |c| == |t| && m + n <= |t|
    ensures AddSpan(AddSpan(t, c, 0, m), c, m, n) == AddSpan(t, c, 0, m + n)
  {
  }

  /** The table after the first `n` anchors: what each of them adds, added
      to an all-zero table of `s * s` entries. */
  function Table(cost: CostOf, s: nat, n: nat): (t: seq<int>)
    ensures |t| == Offset(s, s)
  {
    if n == 0 then seq(Offset(s, s), _ => 0)
    else AddSpan(Table(cost, s, n - 1), Costs(cost, n - 1, s), 0, Offset(s, s))
  }

  /** The total cost of shift `(ox, oy)` over the first `n` anchors. */
  function Total(cost: CostOf, n: nat, ox: nat, oy: nat): nat
  {
    if n == 0 then 0 else Total(cost, n - 1, ox, oy) + cost(n - 1, ox, oy)
  }

  /** Entry `ox * s + oy` of the table is the total cost of shift `(ox, oy)`
      over the anchors. */
  lemma {:induction false} TableAt(cost: CostOf, s: nat, n: nat, ox: nat, oy: nat)
    requires ox < s && oy < s
    ensures Offset(ox, s) + oy < Offset(s, s)
    ensures Table(cost, s, n)[Offset(ox, s) + oy] == Total(cost, n, ox, oy)
  {
    OffsetBefore(ox, s, s);
    if n > 0 {
      TableAt(cost, s, n - 1, ox, oy);
      CostsAt(cost, n - 1, s, ox, oy);
    }
  }

  /** Every entry of the table is the total of some shift, so none is negative. */
  lemma {:induction false} TableNonNegative(cost: CostOf, s: nat, n: nat, d: nat)
    requires d < Offset(s, s)
    ensures Table(cost, s, n)[d] >= 0
  {
    QuotRemSplit(d, s);
    var ox, oy := Quot(d, s), Rem(d, s);
    if ox >= s {
      OffsetMono(s, ox, s);
    }
    TableAt(cost, s, n, ox, oy);
  }

  /** A shift costs nothing in total exactly when it costs nothing for any anchor. */
  lemma {:induction false} TotalZero(cost: CostOf, n: nat, ox: nat, oy: nat)
    ensures Total(cost, n, ox, oy) == 0 <==> forall i :: 0 <= i < n ==> cost(i, ox, oy) == 0
  {
    if n > 0 {
      TotalZero(cost, n - 1, ox, oy);
    }
  }

  /** The window `calc_diffs` stores for anchor `i`,
      `windows[i * win_len .. i * win_len + win_len]` (zeros past the end,
      where the source panics instead). */
  function WinSlice(wins: seq<byte>, i: nat, len: nat): (w: seq<byte>)
    ensures |w| == len
  {
    if Offset(i, len) + len <= |wins| then wins[Offset(i, len) .. Offset(i, len) + len] else Zeros(len)
  }

  /** How far the stored window `win` is from the window around anchor `a`
      of `img` shifted by `(ox - R, oy - R)`. */
  function AnchorCost(img: Frame, win: seq<byte>, a: (int, int), r: nat, searchRadius: nat, ox: nat, oy: nat): nat
  {
    WindowCost(img, win, Shifted(a, ox, oy, searchRadius), r)
  }

  /** The cost `calc_diffs` adds for anchor `i` and shift `(ox, oy)`: the
      squared difference between its stored window and the shifted window
      of `img`. */
  function Cost(img: Frame, anchors: seq<(int, int)>, wins: seq<byte>, r: nat, searchRadius: nat): CostOf
  {
    (i: nat, ox: nat, oy: nat) =>
      if i < |anchors| then AnchorCost(img, WinSlice(wins, i, WinLen(img, r)), anchors[i], r, searchRadius, ox, oy) else 0
  }

  /** The stored window of anchor `i` reappears in `img` at shift `(ox, oy)`. */
  predicate Reappears(img: Frame, anchors: seq<(int, int)>, wins: seq<byte>, r: nat, searchRadius: nat, i: nat, ox: nat, oy: nat)
    requires i < |anchors|
  {
    WinSlice(wins, i, WinLen(img, r)) == Window(img, Shifted(anchors[i], ox, oy, searchRadius), r)
  }

  /** An anchor costs nothing at a shift exactly when its stored window
      reappears there byte for byte. */
  lemma {:induction false} CostZero(img: Frame, anchors: seq<(int, int)>, wins: seq<byte>, r: nat, searchRadius: nat, i: nat, ox: nat, oy: nat)
    requires i < |anchors|
    ensures Cost(img, anchors, wins, r, searchRadius)(i, ox, oy) == 0 <==> Reappears(img, anchors, wins, r, searchRadius, i, ox, oy)
  {
    WindowCostZero(img, WinSlice(wins, i, WinLen(img, r)), Shifted(anchors[i], ox, oy, searchRadius), r);
  }

  /** A shift costs nothing in total exactly when every stored window
      reappears there byte for byte. */
  lemma {:induction false} TotalZeroReappears(img: Frame, anchors: seq<(int, int)>, wins: seq<byte>, r: nat, searchRadius: nat, ox: nat, oy: nat)
    ensures Total(Cost(img, anchors, wins, r, searchRadius), |anchors|, ox, oy) == 0 <==>
            forall i {:trigger Reappears(img, anchors, wins, r, searchRadius, i, ox, oy)} :: 0 <= i < |anchors| ==>
              Reappears(img, anchors, wins, r, searchRadius, i, ox, oy)
  {
    var cost := Cost(img, anchors, wins, r, searchRadius);
    TotalZero(cost, |anchors|, ox, oy);
    forall i | 0 <= i < |anchors|
      ensures cost(i, ox, oy) == 0 <==> Reappears(img, anchors, wins, r, searchRadius, i, ox, oy)
    {
      CostZero(img, anchors, wins, r, searchRadius, i, ox, oy);
    }
  }

  // -----------------------------------------------------------------------
  // Where `calc_diffs` panics

  /** Every shifted window of anchor `a` can be read: the square of side
      `S + size - 1` they cover lies inside the image. */
  predicate SearchInside(img: Frame, a: (int, int), r: nat, searchRadius: nat)
  {
    var span := SearchSide(searchRadius) + Side(r) - 1;
    BoxInside(img, a.0 - searchRadius - r, a.1 - searchRadius - r, span, span)
  }

  /** The search square is inside exactly when every shifted window is. */
  lemma {:induction false} SearchInsideMeaning(img: Frame, a: (int, int), r: nat, searchRadius: nat)
    ensures SearchInside(img, a, r, searchRadius) <==>
            forall ox: nat, oy: nat {:trigger Shifted(a, ox, oy, searchRadius)} ::
              ox < SearchSide(searchRadius) && oy < SearchSide(searchRadius) ==>
              AnchorInside(img, Shifted(a, ox, oy, searchRadius), r)
  {
    var s, size := SearchSide(searchRadius), Side(r);
    var x0, y0 := a.0 - searchRadius - r, a.1 - searchRadius - r;
    if SearchInside(img, a, r, searchRadius) {
      forall ox: nat, oy: nat | ox < s && oy < s
        ensures AnchorInside(img, Shifted(a, ox, oy, searchRadius), r)
      {
        SubBox(img, x0, y0, s + size - 1, s + size - 1, x0 + ox, y0 + oy, size, size);
      }
    } else {
      assert !AnchorInside(img, Shifted(a, 0, 0, searchRadius), r)
             || !AnchorInside(img, Shifted(a, s - 1, s - 1, searchRadius), r);
    }
  }

  /** How `calc_diffs` ends when it starts at anchor `i`: the first anchor
      whose stored window runs past the buffer panics on the slice, the
      first whose search square leaves the image panics on the coordinate;
      otherwise it completes. */
  function CalcFrom(img: Frame, anchors: seq<(int, int)>, wins: seq<byte>, r: nat, searchRadius: nat, i: nat): (res: Outcome<()>)
    ensures res.Ok? || res.Panic?
    decreases |anchors| - i
  {
    if i >= |anchors| then Ok(())
    else if Offset(i, WinLen(img, r)) + WinLen(img, r) > |wins| then Panic(SLICE_PANIC)
    else if !SearchInside(img, anchors[i], r, searchRadius) then Panic(COORDINATE_PANIC)
    else CalcFrom(img, anchors, wins, r, searchRadius, i + 1)
  }

  /** `calc_diffs` completes exactly when the remaining stored windows fit the
      buffer and their search squares lie inside the image. */
  lemma {:induction false} CalcFromOk(img: Frame, anchors: seq<(int, int)>, wins: seq<byte>, r: nat, searchRadius: nat, i: nat)
    requires i <= |anchors|
    ensures CalcFrom(img, anchors, wins, r, searchRadius, i).Ok? <==>
            (i == |anchors| || Offset(|anchors|, WinLen(img, r)) <= |wins|)
            && forall k {:trigger SearchInside(img, anchors[k], r, searchRadius)} ::
                 i <= k < |anchors| ==> SearchInside(img, anchors[k], r, searchRadius)
    decreases |anchors| - i
  {
    if i < |anchors| {
      CalcFromOk(img, anchors, wins, r, searchRadius, i + 1);
      var w := WinLen(img, r);
      assert Offset(i + 1, w) == Offset(i, w) + w;
      OffsetBefore(i, |anchors|, w);
    }
  }

  // -----------------------------------------------------------------------
  // calc_diffs

  /** `calc_diffs`: every entry zeroed, then for each anchor in turn and
      each shift `(ox, oy)` of the search square, entry `ox * S + oy` grows
      by the squared difference between the anchor's stored window and the
      shifted window of `img`. */
  method CalcDiffs(img: Frame, anchors: seq<(int, int)>, wins: seq<byte>, diff: array<int>, r: nat, searchRadius: nat)
    returns (res: Outcome<()>)
    requires diff.Length == Offset(SearchSide(searchRadius), SearchSide(searchRadius))
    modifies diff
    ensures res == CalcFrom(img, anchors, wins, r, searchRadius, 0)
    ensures res.Ok? ==> diff[..] == Table(Cost(img, anchors, wins, r, searchRadius), SearchSide(searchRadius), |anchors|)
  {
    ghost var cost := Cost(img, anchors, wins, r, searchRadius);
    var s := SearchSide(searchRadius);
    for j := 0 to diff.Length
      invariant forall k :: 0 <= k < j ==> diff[k] == 0
    {
      diff[j] := 0;
    }
    assert diff[..] == Table(cost, s, 0);
    var size := Side(r);
    var winLen := Offset(size, Offset(size, img.layout.widthStride));
    assert winLen == WinLen(img, r);
    for i := 0 to |anchors|
      invariant CalcFrom(img, anchors, wins, r, searchRadius, 0) == CalcFrom(img, anchors, wins, r, searchRadius, i)
      invariant diff[..] == Table(cost, s, i)
    {
      var from := Offset(i, winLen);
      if from + winLen > |wins| {
        return Panic(SLICE_PANIC);
      }
      var win := wins[from .. from + winLen];
      assert win == WinSlice(wins, i, WinLen(img, r));
      assert forall ox: nat, oy: nat :: cost(i, ox, oy) == AnchorCost(img, win, anchors[i], r, searchRadius, ox, oy);
      var ok := AnchorDiffs(img, win, anchors[i], r, searchRadius, diff, cost, i);
      if !ok {
        return Panic(COORDINATE_PANIC);
      }
    }
    res := Ok(());
  }

  /** The costs of anchor `i`, at `a` with stored window `win`, added to
      every entry: the loop over `ox`. */
  method AnchorDiffs(img: Frame, win: seq<byte>, a: (int, int), r: nat, searchRadius: nat, diff: array<int>,
                     ghost cost: CostOf, ghost i: nat) returns (ok: bool)
    requires |win| == WinLen(img, r) && diff.Length == Offset(SearchSide(searchRadius), SearchSide(searchRadius))
    requires forall ox: nat, oy: nat :: cost(i, ox, oy) == AnchorCost(img, win, a, r, searchRadius, ox, oy)
    modifies diff
    ensures ok <==> SearchInside(img, a, r, searchRadius)
    ensures ok ==> diff[..] == AddSpan(old(diff[..]), Costs(cost, i, SearchSide(searchRadius)), 0, diff.Length)
  {
    var s, size := SearchSide(searchRadius), Side(r);
    var x0, y0 := a.0 - searchRadius - r, a.1 - searchRadius - r;
    ghost var before := diff[..];
    ghost var costs := Costs(cost, i, s);
    for ox := 0 to s
      invariant Offset(ox, s) <= diff.Length
      invariant diff[..] == AddSpan(before, costs, 0, Offset(ox, s))
      invariant ox == 0 || BoxInside(img, x0, y0, ox + size - 1, s + size - 1)
    {
      OffsetBefore(ox, s, s);
      var rowOk := SearchRow(img, win, a, r, searchRadius, ox, diff, cost, i);
      if !rowOk {
        if SearchInside(img, a, r, searchRadius) {
          SubBox(img, x0, y0, s + size - 1, s + size - 1, x0 + ox, y0, size, s + size - 1);
        }
        return false;
      }
      AddSpanJoin(before, costs, Offset(ox, s), s);
    }
    ok := true;
  }

  /** The costs of the shifts `(ox, 0) .. (ox, S - 1)`: the loop over `oy`. */
  method SearchRow(img: Frame, win: seq<byte>, a: (int, int), r: nat, searchRadius: nat, ox: nat, diff: array<int>,
                   ghost cost: CostOf, ghost i: nat) returns (ok: bool)
    requires |win| == WinLen(img, r) && diff.Length == Offset(SearchSide(searchRadius), SearchSide(searchRadius))
    requires forall ox: nat, oy: nat :: cost(i, ox, oy) == AnchorCost(img, win, a, r, searchRadius, ox, oy)
    requires ox < SearchSide(searchRadius)
    modifies diff
    ensures ok <==> StripInside(img, a, r, searchRadius, ox, SearchSide(searchRadius))
    ensures ok ==> diff[..] == AddSpan(old(diff[..]), Costs(cost, i, SearchSide(searchRadius)), Offset(ox, SearchSide(searchRadius)), SearchSide(searchRadius))
  {
    var s := SearchSide(searchRadius);
    ghost var before := diff[..];
    OffsetBefore(ox, s, s);
    var base := Offset(ox, s);
    for oy := 0 to s
      invariant diff[..] == AddSpan(before, Costs(cost, i, s), base, oy)
      invariant StripInside(img, a, r, searchRadius, ox, oy)
    {
      var cellOk := SearchCell(img, win, a, r, searchRadius, ox, oy, diff, cost, i, before);
      if !cellOk {
        if StripInside(img, a, r, searchRadius, ox, s) {
          StripShrink(img, a, r, searchRadius, ox, s, oy);
        }
        return false;
      }
      StripGrow(img, a, r, searchRadius, ox, oy);
    }
    ok := true;
  }

  /** The cost of shift `(ox, oy)` added to its entry `ox * S + oy`: the
      body of the loop over `oy`. */
  method SearchCell(img: Frame, win: seq<byte>, a: (int, int), r: nat, searchRadius: nat, ox: nat, oy: nat,
                    diff: array<int>, ghost cost: CostOf, ghost i: nat, ghost before: seq<int>) returns (ok: bool)
    requires |win| == WinLen(img, r) && diff.Length == |before| == Offset(SearchSide(searchRadius), SearchSide(searchRadius))
    requires cost(i, ox, oy) == AnchorCost(img, win, a, r, searchRadius, ox, oy)
    requires ox < SearchSide(searchRadius) && oy < SearchSide(searchRadius)
    requires diff[..] == AddSpan(before, Costs(cost, i, SearchSide(searchRadius)), Offset(ox, SearchSide(searchRadius)), oy)
    modifies diff
    ensures ok <==> AnchorInside(img, Shifted(a, ox, oy, searchRadius), r)
    ensures ok ==> diff[..] == AddSpan(before, Costs(cost, i, SearchSide(searchRadius)), Offset(ox, SearchSide(searchRadius)), oy + 1)
  {
    var s := SearchSide(searchRadius);
    ghost var costs := Costs(cost, i, s);
    var d := Offset(ox, s) + oy;
    CostsAt(cost, i, s, ox, oy);
    AddSpanStep(before, costs, Offset(ox, s), oy);
    var sum;
    ok, sum := WindowDiff(img, win, Shifted(a, ox, oy, searchRadius), r, PixelCosts(img, win, Shifted(a, ox, oy, searchRadius), r));
    if ok {
      diff[d] := diff[d] + sum;
    }
  }

  /** The windows of anchor `a` at shifts `(ox, 0) .. (ox, n - 1)` can all be
      read: the column of the search square they cover lies inside. */
  predicate StripInside(img: Frame, a: (int, int), r: nat, searchRadius: nat, ox: nat, n: nat)
  {
    n == 0 || BoxInside(img, a.0 + ox - searchRadius - r, a.1 - searchRadius - r, Side(r), n + Side(r) - 1)
  }

  /** The strip grows by one readable window. */
  lemma {:induction false} StripGrow(img: Frame, a: (int, int), r: nat, searchRadius: nat, ox: nat, oy: nat)
    requires StripInside(img, a, r, searchRadius, ox, oy) && AnchorInside(img, Shifted(a, ox, oy, searchRadius), r)
    ensures StripInside(img, a, r, searchRadius, ox, oy + 1)
  {
  }

  /** Every window of a readable strip can be read. */
  lemma {:induction false} StripShrink(img: Frame, a: (int, int), r: nat, searchRadius: nat, ox: nat, n: nat, oy: nat)
    requires StripInside(img, a, r, searchRadius, ox, n) && oy < n
    ensures AnchorInside(img, Shifted(a, ox, oy, searchRadius), r)
  {
    var x0, y0 := a.0 + ox - searchRadius - r, a.1 - searchRadius - r;
    SubBox(img, x0, y0, Side(r), n + Side(r) - 1, x0, y0 + oy, Side(r), Side(r));
  }

  /** `sum` of the loops over `dy` and `dx`: the stored window `win`
      compared with the window around `a`, pixel by pixel (`cost` is
      `PixelCosts(img, win, a, r)`, so `sum` is `WindowCost(img, win, a, r)`). */
  method WindowDiff(img: Frame, win: seq<byte>, a: (int, int), r: nat, ghost cost: PixelCostOf) returns (ok: bool, sum: int)
    requires |win| == WinLen(img, r)
    requires forall dx: nat, dy: nat {:trigger PixelCost(img, win, a, r, dx, dy)} :: cost(dx, dy) == PixelCost(img, win, a, r, dx, dy)
    ensures ok <==> AnchorInside(img, a, r)
    ensures ok ==> sum == GridSum(cost, Side(r), Side(r))
  {
    var size := Side(r);
    var x0, y0 := a.0 - r, a.1 - r;
    sum := 0;
    for dy := 0 to size
      invariant sum == GridSum(cost, size, dy)
      invariant BoxInside(img, x0, y0, size, dy)
    {
      var rowOk, rowSum := RowDiff(img, win, a, r, dy, cost);
      if !rowOk {
        RowOutside(img, a, r, dy);
        return false, sum;
      }
      sum := sum + rowSum;
      BoxGrowDown(img, x0, y0, size, dy);
    }
    ok := true;
  }

  /** A window with a row outside the image is not inside it. */
  lemma RowOutside(img: Frame, a: (int, int), r: nat, dy: nat)
    requires dy < Side(r) && !BoxInside(img, a.0 - r, a.1 - r + dy, Side(r), 1)
    ensures !AnchorInside(img, a, r)
  {
    if AnchorInside(img, a, r) {
      SubBox(img, a.0 - r, a.1 - r, Side(r), Side(r), a.0 - r, a.1 - r + dy, Side(r), 1);
    }
  }

  /** Row `dy` of the window around `a` compared: the loop over `dx`. */
  method RowDiff(img: Frame, win: seq<byte>, a: (int, int), r: nat, dy: nat, ghost cost: PixelCostOf) returns (ok: bool, sum: int)
    requires |win| == WinLen(img, r) && dy < Side(r)
    requires forall dx: nat, dy: nat {:trigger PixelCost(img, win, a, r, dx, dy)} :: cost(dx, dy) == PixelCost(img, win, a, r, dx, dy)
    ensures ok <==> BoxInside(img, a.0 - r, a.1 - r + dy, Side(r), 1)
    ensures ok ==> sum == LineSum(cost, dy, Side(r))
  {
    var size := Side(r);
    var x0, y := a.0 - r, a.1 - r + dy;
    sum := 0;
    for dx := 0 to size
      invariant sum == LineSum(cost, dy, dx)
      invariant BoxInside(img, x0, y, dx, 1)
    {
      var pixelOk, pixelSum := PixelDiff(img, win, a, r, dx, dy);
      if !pixelOk {
        if BoxInside(img, x0, y, size, 1) {
          InBox(img, x0, y, size, 1, x0 + dx, y);
        }
        return false, sum;
      }
      sum := sum + pixelSum;
      BoxGrowRight(img, x0, y, dx);
    }
    ok := true;
  }

  /** Pixel (dx, dy) of the window around `a` compared:
      `(win[idx + ch] - samples[idx_image + ch])²` summed over the
      channels; a pixel outside the image panics. */
  method PixelDiff(img: Frame, win: seq<byte>, a: (int, int), r: nat, dx: nat, dy: nat) returns (ok: bool, sum: int)
    requires |win| == WinLen(img, r) && dx < Side(r) && dy < Side(r)
    ensures ok <==> PixelInside(img, a.0 - r + dx, a.1 - r + dy)
    ensures ok ==> sum == PixelCost(img, win, a, r, dx, dy)
  {
    var w := img.layout.widthStride;
    var xx, yy := a.0 - r + dx, a.1 - r + dy;
    var index := PixelIndex(img.layout, xx, yy);
    if index.None? || (w > 0 && index.value + w > |img.samples|) {
      return false, 0;
    }
    PixelBand(win, w, Side(r), dx, dy);
    sum := ChannelDiff(img, win, PixelStart(w, Side(r), dx, dy), xx, yy, index.value);
    ok := true;
  }

  /** The loop over `ch`: the channels of the stored pixel at `at` against
      those of the readable pixel (xx, yy), which starts at `index`. */
  method ChannelDiff(img: Frame, win: seq<byte>, at: nat, xx: int, yy: int, index: nat) returns (sum: int)
    requires at + img.layout.widthStride <= |win|
    requires PixelInside(img, xx, yy) && PixelIndex(img.layout, xx, yy) == Some(index)
    ensures sum == SqDiff(win[at .. at + img.layout.widthStride], PixelBytes(img, xx, yy))
  {
    var w := img.layout.widthStride;
    ghost var part := win[at .. at + w];
    ghost var pixel := PixelBytes(img, xx, yy);
    sum := 0;
    for c := 0 to w
      invariant sum == SqDiffTo(part, pixel, c)
    {
      ChannelsAt(img, xx, yy, w, c);
      sum := sum + Sq(win[at + c] as int - img.samples[index + c] as int);
    }
  }

  // -----------------------------------------------------------------------
  // The best entry and its offset

  /** `min_by_key` over the entries and their positions: the position of
      the smallest entry, the first one when several are smallest. */
  function ArgMin(t: seq<int>): (k: nat)
    requires |t| > 0
    ensures k < |t|
    ensures forall j :: 0 <= j < |t| ==> t[k] <= t[j]
    ensures forall j :: 0 <= j < k ==> t[k] < t[j]
    decreases |t|
  {
    if |t| == 1 then 0
    else
      var k := ArgMin(t[..|t| - 1]);
      if t[|t| - 1] < t[k] then |t| - 1 else k
  }

  /** The offset `analyze` reports for entry `k`, as written:
      `(k % S - R, k / S - R)`. */
  function DecodeAsWritten(k: nat, searchRadius: nat): (int, int)
  {
    var s := SearchSide(searchRadius);
    (Rem(k, s) - searchRadius, Quot(k, s) - searchRadius)
  }

  /** The shift entry `k` holds: entry `ox * S + oy` holds the shift
      `(ox - R, oy - R)`, so the quotient is the `x` part. */
  function DecodeShift(k: nat, searchRadius: nat): (int, int)
  {
    var s := SearchSide(searchRadius);
    (Quot(k, s) - searchRadius, Rem(k, s) - searchRadius)
  }

  /** `Rem` and `Quot` are the `%` and `/` of the source. */
  lemma {:induction false} DecodeIsDivMod(k: nat, searchRadius: nat)
    ensures DecodeAsWritten(k, searchRadius)
            == (k % SearchSide(searchRadius) - searchRadius, k / SearchSide(searchRadius) - searchRadius)
  {
    var s := SearchSide(searchRadius);
    QuotRemSplit(k, s);
    OffsetProduct(Quot(k, s), s);
    DivModOf(Quot(k, s), Rem(k, s), s);
  }

  /** Every entry of the table splits into a shift of the search square;
      both decodings stay within `[-R, R]` and are each other's mirror. */
  lemma {:induction false} DecodeBounds(k: nat, searchRadius: nat)
    requires k < Offset(SearchSide(searchRadius), SearchSide(searchRadius))
    ensures Quot(k, SearchSide(searchRadius)) < SearchSide(searchRadius)
    ensures Offset(Quot(k, SearchSide(searchRadius)), SearchSide(searchRadius)) + Rem(k, SearchSide(searchRadius)) == k
    ensures var shift := DecodeShift(k, searchRadius);
            -(searchRadius as int) <= shift.0 <= searchRadius && -(searchRadius as int) <= shift.1 <= searchRadius
            && DecodeAsWritten(k, searchRadius) == (shift.1, shift.0)
  {
    var s := SearchSide(searchRadius);
    QuotRemSplit(k, s);
    if Quot(k, s) >= s {
      OffsetMono(s, Quot(k, s), s);
    }
  }

  /** The entry of shift `(ox, oy)` decodes to that shift, and as written
      to the shift with its axes swapped. */
  lemma {:induction false} DecodeOf(ox: nat, oy: nat, searchRadius: nat)
    requires ox < SearchSide(searchRadius) && oy < SearchSide(searchRadius)
    ensures DecodeShift(Offset(ox, SearchSide(searchRadius)) + oy, searchRadius) == (ox - searchRadius, oy - searchRadius)
    ensures DecodeAsWritten(Offset(ox, SearchSide(searchRadius)) + oy, searchRadius) == (oy - searchRadius, ox - searchRadius)
  {
    QuotRemOf(ox, oy, SearchSide(searchRadius));
  }

  /** Search radius 1: the shift `(+1, -1)` is entry `2 * 3 + 0 = 6`, which
      the source reports as `(-1, +1)`. */
  lemma {:induction false} DecodeSwapExample()
    ensures Offset(2, SearchSide(1)) + 0 == 6
    ensures DecodeShift(6, 1) == (1, -1) && DecodeAsWritten(6, 1) == (-1, 1)
  {
    DecodeOf(2, 0, 1);
  }

  /** The result of a later frame taken from its table: the offset of the
      first smallest entry and that entry; `corrected` decodes the shift
      the entry holds instead of the offset as written. */
  function Pick(t: seq<int>, searchRadius: nat, corrected: bool): ((int, int), int)
    requires |t| > 0
  {
    var k := ArgMin(t);
    (if corrected then DecodeShift(k, searchRadius) else DecodeAsWritten(k, searchRadius), t[k])
  }

  /** The pick is a smallest entry, the offset decoded from the shift
      `(ox, oy)` of its cell. */
  lemma {:induction false} PickMeaning(t: seq<int>, searchRadius: nat, corrected: bool)
    requires |t| == Offset(SearchSide(searchRadius), SearchSide(searchRadius))
    ensures |t| > 0
    ensures var k := ArgMin(t);
            var ox, oy := Quot(k, SearchSide(searchRadius)), Rem(k, SearchSide(searchRadius));
            ox < SearchSide(searchRadius) && oy < SearchSide(searchRadius)
            && k == Offset(ox, SearchSide(searchRadius)) + oy
            && Pick(t, searchRadius, corrected)
               == (if corrected then (ox - searchRadius, oy - searchRadius) else (oy - searchRadius, ox - searchRadius), t[k])
            && forall j :: 0 <= j < |t| ==> t[k] <= t[j]
  {
    var s := SearchSide(searchRadius);
    var k := ArgMin(t);
    DecodeBounds(k, searchRadius);
    DecodeOf(Quot(k, s), Rem(k, s), searchRadius);
  }

  // -----------------------------------------------------------------------
  // `analyze`

  /** The length of the window buffer, allocated from the first frame:
      `window_len * ch` as written, room for one window; corrected, room
      for the window of every anchor. */
  function BufferLen(img0: Frame, anchors: seq<(int, int)>, r: nat, corrected: bool): nat
  {
    if corrected then Offset(|anchors|, WinLen(img0, r)) else WinLen(img0, r)
  }

  /** The window buffer once the first frame is done: zeros with the
      windows of all anchors written from the start. */
  function StoredWindows(img0: Frame, anchors: seq<(int, int)>, r: nat, len: nat): (w: seq<byte>)
    ensures |w| == len
  {
    if Offset(|anchors|, WinLen(img0, r)) <= len then Put(Zeros(len), 0, Windows(img0, anchors, r)) else Zeros(len)
  }

  /** The first frame: its windows are stored and its result is `((0, 0), 0)`. */
  function FirstResult(img0: Frame, anchors: seq<(int, int)>, r: nat, corrected: bool): Outcome<((int, int), int)>
  {
    var fill := FillFrom(img0, anchors, r, BufferLen(img0, anchors, r, corrected), 0);
    if fill.Ok? then Ok(((0, 0), 0)) else Panic(fill.message)
  }

  /** A later frame: its table against the stored windows, and the pick. */
  function LaterResult(img: Frame, img0: Frame, anchors: seq<(int, int)>, r: nat, searchRadius: nat, corrected: bool)
    : Outcome<((int, int), int)>
  {
    var wins := StoredWindows(img0, anchors, r, BufferLen(img0, anchors, r, corrected));
    var compared := CalcFrom(img, anchors, wins, r, searchRadius, 0);
    if compared.Ok? then Ok(Pick(Table(Cost(img, anchors, wins, r, searchRadius), SearchSide(searchRadius), |anchors|), searchRadius, corrected))
    else Panic(compared.message)
  }

  /** The result of file `k`: an open error is passed on; the first file
      stores the windows, every later one is compared against them. A step
      past the last file is never taken. */
  function FrameResult(files: seq<Opened>, anchors: seq<(int, int)>, r: nat, searchRadius: nat, corrected: bool, k: nat)
    : Outcome<((int, int), int)>
  {
    if k >= |files| then Err("no such file")
    else match files[k]
      case OpenFailed(e) => Err(e)
      case Opened(img) =>
        if k == 0 then FirstResult(img, anchors, r, corrected)
        else match files[0]
          case OpenFailed(e) => Err(e)
          case Opened(img0) => LaterResult(img, img0, anchors, r, searchRadius, corrected)
  }

  /** `analyze`: the results of the files in order, up to the first error
      or panic. */
  function Analysis(files: seq<Opened>, anchors: seq<(int, int)>, r: nat, searchRadius: nat, corrected: bool)
    : Outcome<seq<((int, int), int)>>
  {
    Collect(k => FrameResult(files, anchors, r, searchRadius, corrected, k), |files|)
  }

  /** `analyze` as written: the window buffer allocated from the first frame
      and its windows stored, then the table of every later frame computed
      into one reused `diffs` buffer and its first smallest entry pushed with
      its offset. */
  method Analyze(files: seq<Opened>, anchors: seq<(int, int)>, r: nat, searchRadius: nat)
    returns (res: Outcome<seq<((int, int), int)>>)
    ensures res == Analysis(files, anchors, r, searchRadius, false)
  {
    ghost var step := k => FrameResult(files, anchors, r, searchRadius, false, k);
    var s := SearchSide(searchRadius);
    var diffs := new int[Offset(s, s)];
    var windows: Option<array<byte>> := None;
    var result: seq<((int, int), int)> := [];
    for i := 0 to |files|
      invariant Collect(step, i) == Ok(result)
      invariant i > 0 ==> Stored(files, anchors, r, windows)
    {
      var next;
      next, windows := AnalyzeFile(files, i, anchors, r, searchRadius, windows, diffs);
      if !next.Ok? {
        res := if next.Err? then Err(next.message) else Panic(next.message);
        CollectStops(step, i + 1, |files|);
        return;
      }
      result := result + [next.value];
    }
    res := Ok(result);
  }

  /** The first file opened and the buffer holds the windows of its frame. */
  ghost predicate Stored(files: seq<Opened>, anchors: seq<(int, int)>, r: nat, windows: Option<array<byte>>)
    reads if windows.Some? then {windows.value} else {}
  {
    |files| > 0 && files[0].Opened? && windows.Some?
    && windows.value[..] == StoredWindows(files[0].frame, anchors, r, BufferLen(files[0].frame, anchors, r, false))
  }

  /** One turn of the loop over the files: open file `i`; the first one
      allocates the window buffer and stores its windows, a later one is
      compared against them. */
  method AnalyzeFile(files: seq<Opened>, i: nat, anchors: seq<(int, int)>, r: nat, searchRadius: nat,
                     windows: Option<array<byte>>, diffs: array<int>)
    returns (next: Outcome<((int, int), int)>, windows': Option<array<byte>>)
    requires i < |files| && diffs.Length == Offset(SearchSide(searchRadius), SearchSide(searchRadius))
    requires i > 0 ==> Stored(files, anchors, r, windows)
    modifies diffs
    ensures next == FrameResult(files, anchors, r, searchRadius, false, i)
    ensures next.Ok? ==> Stored(files, anchors, r, windows')
  {
    windows' := windows;
    match files[i] {
      case OpenFailed(e) =>
        next := Err(e);
      case Opened(img) =>
        if i == 0 {
          var buffer;
          buffer, next := FirstFrame(img, anchors, r);
          windows' := Some(buffer);
        } else {
          next := LaterFrame(img, files[0].frame, anchors, windows.value, diffs, r, searchRadius);
        }
    }
  }

  /** The first frame: a zeroed buffer of `window_len * ch` bytes, `ch`
      being this frame's `width_stride`, and its windows stored into it. */
  method FirstFrame(img: Frame, anchors: seq<(int, int)>, r: nat) returns (windows: array<byte>, res: Outcome<((int, int), int)>)
    ensures fresh(windows)
    ensures res == FirstResult(img, anchors, r, false)
    ensures res.Ok? ==> windows[..] == StoredWindows(img, anchors, r, BufferLen(img, anchors, r, false))
  {
    var size := Side(r);
    windows := new byte[Offset(size, Offset(size, img.layout.widthStride))](_ => 0);
    ZerosAt(windows.Length);
    assert windows[..] == Zeros(windows.Length);
    var fill := FillWindows(img, anchors, windows, r);
    if !fill.Ok? {
      return windows, Panic(fill.message);
    }
    res := Ok(((0, 0), 0));
  }

  /** A later frame: its table computed into `diffs` against the stored
      windows, then the first smallest entry and its offset as written. */
  method LaterFrame(img: Frame, ghost img0: Frame, anchors: seq<(int, int)>, windows: array<byte>, diffs: array<int>,
                    r: nat, searchRadius: nat) returns (res: Outcome<((int, int), int)>)
    requires windows[..] == StoredWindows(img0, anchors, r, BufferLen(img0, anchors, r, false))
    requires diffs.Length == Offset(SearchSide(searchRadius), SearchSide(searchRadius))
    modifies diffs
    ensures res == LaterResult(img, img0, anchors, r, searchRadius, false)
  {
    var compared := CalcDiffs(img, anchors, windows[..], diffs, r, searchRadius);
    if !compared.Ok? {
      return Panic(compared.message);
    }
    var s := SearchSide(searchRadius);
    var k := ArgMin(diffs[..]);
    DecodeIsDivMod(k, searchRadius);
    var offset := (k % s - searchRadius, k / s - searchRadius);
    res := Ok((offset, diffs[k]));
  }

  // -----------------------------------------------------------------------
  // What `analyze` reports

  /** A window is never empty when pixels have channel samples. */
  lemma {:induction false} WinLenPositive(img: Frame, r: nat)
    requires img.layout.widthStride > 0
    ensures WinLen(img, r) > 0
  {
    OffsetBefore(0, Side(r), img.layout.widthStride);
    OffsetBefore(0, Side(r), Offset(Side(r), img.layout.widthStride));
  }

  /** As written, the buffer holds one window: with two or more anchors the
      first frame panics on the slice of the second window, even when every
      window lies inside the image. */
  lemma {:induction false} AllocationPanics(img0: Frame, anchors: seq<(int, int)>, r: nat)
    requires |anchors| >= 2 && img0.layout.widthStride > 0 && AnchorInside(img0, anchors[0], r)
    ensures FirstResult(img0, anchors, r, false) == Panic(SLICE_PANIC)
  {
    var w := WinLen(img0, r);
    WinLenPositive(img0, r);
    assert Offset(1, w) == w;
    assert FillFrom(img0, anchors, r, w, 1) == Panic(SLICE_PANIC);
  }

  /** With one anchor the buffer as written is large enough: the first
      frame ends as it does with a buffer for every anchor. */
  lemma {:induction false} AllocationSingle(img0: Frame, a: (int, int), r: nat)
    ensures FirstResult(img0, [a], r, false) == FirstResult(img0, [a], r, true)
  {
    assert Offset(1, WinLen(img0, r)) == WinLen(img0, r);
  }

  /** With room for every window, the first frame completes exactly when
      every window lies inside the image, and then reports no movement. */
  lemma {:induction false} FirstCorrected(img0: Frame, anchors: seq<(int, int)>, r: nat)
    ensures FirstResult(img0, anchors, r, true).Ok? <==> AllInside(img0, anchors, r, |anchors|)
    ensures FirstResult(img0, anchors, r, true).Ok? ==> FirstResult(img0, anchors, r, true).value == ((0, 0), 0)
  {
    FillOk(img0, anchors, r, BufferLen(img0, anchors, r, true));
  }

  /** The pick from a table: a shift of the search square whose total is
      the smallest of all shifts, and that total (the shift with its axes
      swapped, as written). */
  lemma {:induction false} PickTotal(cost: CostOf, n: nat, searchRadius: nat, corrected: bool)
    ensures var s := SearchSide(searchRadius);
            var t := Table(cost, s, n);
            |t| > 0
            && (exists ox: nat, oy: nat ::
                  ox < s && oy < s
                  && Pick(t, searchRadius, corrected)
                     == (if corrected then (ox - searchRadius, oy - searchRadius) else (oy - searchRadius, ox - searchRadius),
                         Total(cost, n, ox, oy)))
            && forall ox: nat, oy: nat :: ox < s && oy < s ==> Pick(t, searchRadius, corrected).1 <= Total(cost, n, ox, oy)
  {
    var s := SearchSide(searchRadius);
    var t := Table(cost, s, n);
    PickMeaning(t, searchRadius, corrected);
    var k := ArgMin(t);
    var ox, oy := Quot(k, s), Rem(k, s);
    TableAt(cost, s, n, ox, oy);
    forall ox': nat, oy': nat | ox' < s && oy' < s
      ensures Pick(t, searchRadius, corrected).1 <= Total(cost, n, ox', oy')
    {
      TableAt(cost, s, n, ox', oy');
    }
  }

  /** A later frame that completes reports a shift of the search square
      whose total over the anchors is the smallest of all shifts, and that
      total (the shift itself with its axes swapped, as written). */
  lemma {:induction false} LaterPick(img: Frame, img0: Frame, anchors: seq<(int, int)>, r: nat, searchRadius: nat, corrected: bool)
    requires LaterResult(img, img0, anchors, r, searchRadius, corrected).Ok?
    ensures var cost := Cost(img, anchors, StoredWindows(img0, anchors, r, BufferLen(img0, anchors, r, corrected)), r, searchRadius);
            var res := LaterResult(img, img0, anchors, r, searchRadius, corrected).value;
            exists ox: nat, oy: nat ::
              ox < SearchSide(searchRadius) && oy < SearchSide(searchRadius)
              && res == (if corrected then (ox - searchRadius, oy - searchRadius) else (oy - searchRadius, ox - searchRadius),
                         Total(cost, |anchors|, ox, oy))
    ensures var cost := Cost(img, anchors, StoredWindows(img0, anchors, r, BufferLen(img0, anchors, r, corrected)), r, searchRadius);
            var res := LaterResult(img, img0, anchors, r, searchRadius, corrected).value;
            forall ox: nat, oy: nat :: ox < SearchSide(searchRadius) && oy < SearchSide(searchRadius) ==>
              res.1 <= Total(cost, |anchors|, ox, oy)
  {
    var cost := Cost(img, anchors, StoredWindows(img0, anchors, r, BufferLen(img0, anchors, r, corrected)), r, searchRadius);
    PickTotal(cost, |anchors|, searchRadius, corrected);
  }

  /** A frame compared with itself: every stored window reappears at the
      zero shift, so the smallest total reported is zero. */
  lemma {:induction false} SameFrameZero(img: Frame, anchors: seq<(int, int)>, r: nat, searchRadius: nat)
    requires AllInside(img, anchors, r, |anchors|)
    requires LaterResult(img, img, anchors, r, searchRadius, true).Ok?
    ensures LaterResult(img, img, anchors, r, searchRadius, true).value.1 == 0
  {
    var w := WinLen(img, r);
    var len := BufferLen(img, anchors, r, true);
    var wins := StoredWindows(img, anchors, r, len);
    var windows := Windows(img, anchors, r);
    PutIs(Zeros(len), 0, windows);
    assert wins == windows;
    forall i | 0 <= i < |anchors|
      ensures Reappears(img, anchors, wins, r, searchRadius, i, searchRadius, searchRadius)
    {
      WindowsAt(img, anchors, r, i);
      assert Shifted(anchors[i], searchRadius, searchRadius, searchRadius) == anchors[i];
    }
    TotalZeroReappears(img, anchors, wins, r, searchRadius, searchRadius, searchRadius);
    LaterPick(img, img, anchors, r, searchRadius, true);
  }
}
