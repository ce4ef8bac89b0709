/** Camera shake analysis (`shake.rs`): the option parsers, the copy of the
    anchor windows out of the first frame, the table of squared differences
    of every later frame shifted over the search range, and the choice and
    decoding of its minimum. */
module Shake {
  import opened Common
  import opened Banding

  // -----------------------------------------------------------------------
  // Options

  /** `ShakeParams`: the radius of the anchor windows and of the search. */
  datatype ShakeParams = ShakeParams(anchorRadius: nat, searchRadius: nat)

  /** `ShakeAnchor`: the centre of one anchor window. */
  datatype ShakeAnchor = ShakeAnchor(x: int, y: int)

  /** `ShakeParams::from_str` on `rad/search-rad`: anything but exactly two
      parts is an error; a part that is not a `u32` panics. */
  function ParseShakeParams(s: string): (r: Outcome<ShakeParams>)
    ensures var parts := Split(s, '/');
      && (r.Err? <==> |parts| != 2)
      && (r.Panic? <==> |parts| == 2 && (ParseUnsigned(parts[0], U32_LIMIT).None? || ParseUnsigned(parts[1], U32_LIMIT).None?))
      && (r.Ok? ==> Some(r.value.anchorRadius) == ParseUnsigned(parts[0], U32_LIMIT)
                    && Some(r.value.searchRadius) == ParseUnsigned(parts[1], U32_LIMIT))
  {
    var parts := Split(s, '/');
    if |parts| != 2 then Err("Unexpected format in shake parameters, expected <rad>/<search-rad>: " + s)
    else
      match (ParseUnsigned(parts[0], U32_LIMIT), ParseUnsigned(parts[1], U32_LIMIT))
      case (Some(rad), Some(searchRad)) => Ok(ShakeParams(rad, searchRad))
      case _ => Panic("Unexpected format in shake parameter: " + s)
  }

  /** Every pair of `u32` radii is read back from `rad/search-rad`. */
  lemma {:induction false} ShakeParamsParse(p: ShakeParams)
    requires p.anchorRadius < U32_LIMIT && p.searchRadius < U32_LIMIT
    ensures ParseShakeParams(Decimal(p.anchorRadius) + "/" + Decimal(p.searchRadius)) == Ok(p)
  {
    SplitTwo(Decimal(p.anchorRadius), '/', Decimal(p.searchRadius));
    ParseDecimal(p.anchorRadius, U32_LIMIT);
    ParseDecimal(p.searchRadius, U32_LIMIT);
  }

  /** `ShakeAnchor::from_str` on `x/y`: anything but exactly two parts is an
      error; a part that is not an `i32` panics. */
  function ParseShakeAnchor(s: string): (r: Outcome<ShakeAnchor>)
    ensures var parts := Split(s, '/');
      && (r.Err? <==> |parts| != 2)
      && (r.Panic? <==> |parts| == 2 && (ParseI32(parts[0]).None? || ParseI32(parts[1]).None?))
      && (r.Ok? ==> Some(r.value.x) == ParseI32(parts[0]) && Some(r.value.y) == ParseI32(parts[1]))
  {
    var parts := Split(s, '/');
    if |parts| != 2 then Err("Unexpected format in shake anchor, expected x/y: " + s)
    else
      match (ParseI32(parts[0]), ParseI32(parts[1]))
      case (Some(x), Some(y)) => Ok(ShakeAnchor(x, y))
      case _ => Panic("Unexpected format in shake anchor, expected x/y: " + s)
  }

  /** `format!("{}", n)` for a signed number. */
  function Signed(n: int): (s: string)
    ensures '/' !in s
  {
    if n < 0 then "-" + Decimal(-n) else Decimal(n)
  }

  /** Every `i32` is read back from its decimal form. */
  lemma {:induction false} ParseSigned(n: int)
    requires -(I32_LIMIT as int) <= n < I32_LIMIT as int
    ensures ParseI32(Signed(n)) == Some(n)
  {
    if n < 0 {
      ParseNegative(n);
    } else {
      ParseNonNegative(n);
    }
  }

  /** A negative `i32` is its sign and then the digits of its magnitude. */
  lemma {:induction false} ParseNegative(n: int)
    requires -(I32_LIMIT as int) <= n < 0
    ensures ParseI32(Signed(n)) == Some(n)
  {
    var s := Signed(n);
    var d := Decimal(-n);
    assert s == "-" + d;
    assert s[0] == '-' && s[1..] == d;
    DecimalValue(-n);
    assert AllDigits(s[1..]) && DigitsValue(s[1..]) == -n;
  }

  /** A non-negative `i32` is its digits, with no sign. */
  lemma {:induction false} ParseNonNegative(n: int)
    requires 0 <= n < I32_LIMIT as int
    ensures ParseI32(Signed(n)) == Some(n)
  {
    var d := Decimal(n);
    assert Signed(n) == d;
    assert IsDigit(d[0]);
    ParseDecimal(n, I32_LIMIT);
  }

  /** Every anchor with `i32` coordinates is read back from `x/y`. */
  lemma {:induction false} ShakeAnchorParse(a: ShakeAnchor)
    requires -(I32_LIMIT as int) <= a.x < I32_LIMIT as int && -(I32_LIMIT as int) <= a.y < I32_LIMIT as int
    ensures ParseShakeAnchor(Signed(a.x) + "/" + Signed(a.y)) == Ok(a)
  {
    SplitTwo(Signed(a.x), '/', Signed(a.y));
    ParseSigned(a.x);
    ParseSigned(a.y);
  }

  // -----------------------------------------------------------------------
  // Pixels and windows of an image

  /** The side of a square of radius `r`, `2 * r + 1`. */
  function Side(r: nat): (s: nat)
    ensures s >= 1
  {
    2 * r + 1
  }

  /** `layout.index(0, x as u32, y as u32)`: where pixel (x, y) starts, or
      `None` outside the image or for an image without channels. */
  function PixelIndex(l: Layout, x: int, y: int): Option<nat>
  {
    if 0 < l.channels && 0 <= x < l.width && 0 <= y < l.height then
      Some(Offset(x as nat, l.widthStride) + Offset(y as nat, l.heightStride))
    else None
  }

  /** Pixel (x, y) can be read: `index` finds it, and its `width_stride`
      channel samples lie inside the sample buffer (a pixel without channel
      samples reads nothing). */
  predicate PixelInside(img: Frame, x: int, y: int)
  {
    0 < img.layout.channels && 0 <= x < img.layout.width && 0 <= y < img.layout.height
    && (img.layout.widthStride == 0
        || Offset(x as nat, img.layout.widthStride) + Offset(y as nat, img.layout.heightStride) + img.layout.widthStride <= |img.samples|)
  }

  /** The `width_stride` samples of pixel (x, y); zeros where it cannot be read. */
  function PixelBytes(img: Frame, x: int, y: int): (p: seq<byte>)
    ensures |p| == img.layout.widthStride
  {
    Channels(img, x, y, img.layout.widthStride)
  }

  /** The first `c` channel samples of pixel (x, y). */
  function Channels(img: Frame, x: int, y: int, c: nat): (p: seq<byte>)
    ensures |p| == c
  {
    if c == 0 then [] else Channels(img, x, y, c - 1) + [Sample(img, x, y, c - 1)]
  }

  /** Channel `c` of pixel (x, y), or zero for a pixel that cannot be read. */
  function Sample(img: Frame, x: int, y: int, c: nat): byte
  {
    if PixelInside(img, x, y) && c < img.layout.widthStride then
      img.samples[Offset(x as nat, img.layout.widthStride) + Offset(y as nat, img.layout.heightStride) + c]
    else 0
  }

  /** Channel `j` of the first `c` is `Sample(j)`. */
  lemma {:induction false} ChannelsAt(img: Frame, x: int, y: int, c: nat, j: nat)
    requires j < c
    ensures Channels(img, x, y, c)[j] == Sample(img, x, y, j)
  {
    if j < c - 1 {
      ChannelsAt(img, x, y, c - 1, j);
    }
  }

  /** A pixel that can be read is its `width_stride` samples from where
      `index` puts it; one that cannot reads as zeros. */
  lemma {:induction false} PixelBytesAre(img: Frame, x: int, y: int)
    ensures PixelInside(img, x, y) && img.layout.widthStride > 0 ==>
      var i := Offset(x as nat, img.layout.widthStride) + Offset(y as nat, img.layout.heightStride);
      PixelBytes(img, x, y) == img.samples[i .. i + img.layout.widthStride]
    ensures !PixelInside(img, x, y) ==> PixelBytes(img, x, y) == Zeros(img.layout.widthStride)
  {
    var w := img.layout.widthStride;
    forall j | 0 <= j < w
      ensures PixelBytes(img, x, y)[j] == Sample(img, x, y, j)
    {
      ChannelsAt(img, x, y, w, j);
    }
    if !PixelInside(img, x, y) {
      ZerosAt(w);
    }
  }

  /** The first `cols` pixels of row `y` from column `x0` on, channel bytes in order. */
  function PatchRow(img: Frame, x0: int, y: int, cols: nat): (p: seq<byte>)
    ensures |p| == Offset(cols, img.layout.widthStride)
  {
    if cols == 0 then [] else PatchRow(img, x0, y, cols - 1) + PixelBytes(img, x0 + cols - 1, y)
  }

  /** The first `rows` rows of the `cols`-wide patch whose top left pixel is
      (x0, y0), row after row. */
  function Patch(img: Frame, x0: int, y0: int, cols: nat, rows: nat): (p: seq<byte>)
    ensures |p| == Offset(rows, Offset(cols, img.layout.widthStride))
  {
    if rows == 0 then [] else Patch(img, x0, y0, cols, rows - 1) + PatchRow(img, x0, y0 + rows - 1, cols)
  }

  /** Every pixel of the patch at (x0, y0) can be read. Inside-ness only grows
      towards the origin, so the two far corners decide it. */
  predicate BoxInside(img: Frame, x0: int, y0: int, cols: nat, rows: nat)
  {
    cols == 0 || rows == 0 || (PixelInside(img, x0, y0) && PixelInside(img, x0 + cols - 1, y0 + rows - 1))
  }

  /** Every pixel of a box that is inside the image can be read. */
  lemma {:induction false} InBox(img: Frame, x0: int, y0: int, cols: nat, rows: nat, x: int, y: int)
    requires BoxInside(img, x0, y0, cols, rows) && x0 <= x < x0 + cols && y0 <= y < y0 + rows
    ensures PixelInside(img, x, y)
  {
    OffsetMono(x as nat, (x0 + cols - 1) as nat, img.layout.widthStride);
    OffsetMono(y as nat, (y0 + rows - 1) as nat, img.layout.heightStride);
  }

  /** A box inside a box that is inside the image is inside it. */
  lemma {:induction false} SubBox(img: Frame, x0: int, y0: int, cols: nat, rows: nat, x1: int, y1: int, cols1: nat, rows1: nat)
    requires BoxInside(img, x0, y0, cols, rows) && cols1 > 0 && rows1 > 0
    requires x0 <= x1 && x1 + cols1 <= x0 + cols && y0 <= y1 && y1 + rows1 <= y0 + rows
    ensures BoxInside(img, x1, y1, cols1, rows1)
  {
    InBox(img, x0, y0, cols, rows, x1, y1);
    InBox(img, x0, y0, cols, rows, x1 + cols1 - 1, y1 + rows1 - 1);
  }

  /** The window of radius `r` around an anchor: `(2r+1)²` pixels, row after row. */
  function Window(img: Frame, a: (int, int), r: nat): (p: seq<byte>)
    ensures |p| == WinLen(img, r)
  {
    Patch(img, a.0 - r, a.1 - r, Side(r), Side(r))
  }

  /** The bytes of one window: `size * size * channels` with the frame's
      `width_stride` as the channel count. */
  function WinLen(img: Frame, r: nat): nat
  {
    Offset(Side(r), Offset(Side(r), img.layout.widthStride))
  }

  /** The window of every anchor, in anchor order. */
  function Windows(img: Frame, anchors: seq<(int, int)>, r: nat): (p: seq<byte>)
    ensures |p| == Offset(|anchors|, WinLen(img, r))
  {
    if |anchors| == 0 then []
    else Windows(img, anchors[..|anchors| - 1], r) + Window(img, anchors[|anchors| - 1], r)
  }

  /** `fill_windows` completes: the windows fit the buffer and every window
      lies inside the image. */
  predicate WindowsFit(img: Frame, anchors: seq<(int, int)>, r: nat, len: nat)
  {
    Offset(|anchors|, WinLen(img, r)) <= len && AllInside(img, anchors, r, |anchors|)
  }

  /** The windows of the first `n` anchors lie inside the image. */
  predicate AllInside(img: Frame, anchors: seq<(int, int)>, r: nat, n: nat)
    requires n <= |anchors|
  {
    forall i {:trigger AnchorInside(img, anchors[i], r)} :: 0 <= i < n ==> AnchorInside(img, anchors[i], r)
  }

  /** One more anchor whose window lies inside. */
  lemma {:induction false} AllInsideStep(img: Frame, anchors: seq<(int, int)>, r: nat, n: nat)
    requires n < |anchors| && AllInside(img, anchors, r, n) && AnchorInside(img, anchors[n], r)
    ensures AllInside(img, anchors, r, n + 1)
  {
  }

  /** Every pixel of the window around anchor `a` can be read. */
  predicate AnchorInside(img: Frame, a: (int, int), r: nat)
  {
    BoxInside(img, a.0 - r, a.1 - r, Side(r), Side(r))
  }

  // -----------------------------------------------------------------------
  // Index arithmetic

  /** `size * size * channels` is the window length. */
  lemma {:induction false} WinLenIs(size: nat, w: nat)
    ensures size * size * w == Offset(size, Offset(size, w))
  {
    OffsetProduct(size, w);
    OffsetProduct(size, Offset(size, w));
    MulAssoc(size, size, w);
  }

  /** `(dy * size + dx) * channels` is where pixel (dx, dy) of a window starts. */
  lemma {:induction false} PixelPosition(dy: nat, dx: nat, size: nat, w: nat)
    ensures (dy * size + dx) * w == Offset(dy, Offset(size, w)) + Offset(dx, w)
  {
    OffsetProduct(dx, w);
    OffsetProduct(size, w);
    OffsetProduct(dy, size * w);
    calc {
      (dy * size + dx) * w;
      dy * size * w + dx * w;
      { MulAssoc(dy, size, w); }
      dy * (size * w) + dx * w;
    }
  }

  /** `s` with `piece` written over it from `at` on. */
  function Put(s: seq<byte>, at: nat, piece: seq<byte>): (r: seq<byte>)
    requires at + |piece| <= |s|
    ensures |r| == |s|
  {
    seq(|s|, j requires 0 <= j < |s| => if at <= j < at + |piece| then piece[j - at] else s[j])
  }

  /** Only the bytes under `piece` change, and they become `piece`. */
  lemma {:induction false} PutIs(s: seq<byte>, at: nat, piece: seq<byte>)
    requires at + |piece| <= |s|
    ensures Put(s, at, piece) == s[..at] + piece + s[at + |piece|..]
  {
  }

  /** Writing `piece` right after `mid` writes `mid + piece`. */
  lemma {:induction false} PutStep(s: seq<byte>, start: nat, mid: seq<byte>, piece: seq<byte>)
    requires start + |mid| + |piece| <= |s|
    ensures Put(Put(s, start, mid), start + |mid|, piece) == Put(s, start, mid + piece)
  {
  }

  /** Writing `piece` right after what `done` wrote extends `done` by `piece`. */
  lemma {:induction false} PutAfter(now: seq<byte>, cur: seq<byte>, before: seq<byte>, start: nat, done: seq<byte>, piece: seq<byte>, at: nat)
    requires start + |done| + |piece| <= |before| && at == start + |done|
    requires cur == Put(before, start, done) && now == Put(cur, at, piece)
    ensures now == Put(before, start, done + piece)
  {
    PutStep(before, start, done, piece);
  }

  /** One more pixel of a row. */
  lemma {:induction false} PatchRowStep(img: Frame, x0: int, y: int, cols: nat)
    ensures PatchRow(img, x0, y, cols + 1) == PatchRow(img, x0, y, cols) + PixelBytes(img, x0 + cols, y)
  {
  }

  /** One more row of a patch. */
  lemma {:induction false} PatchStep(img: Frame, x0: int, y0: int, cols: nat, rows: nat)
    ensures Patch(img, x0, y0, cols, rows + 1) == Patch(img, x0, y0, cols, rows) + PatchRow(img, x0, y0 + rows, cols)
  {
  }

  /** The pixels of a patch row, one piece each. */
  function RowPixels(img: Frame, x0: int, y: int, cols: nat): (ps: seq<seq<byte>>)
    ensures |ps| == cols
  {
    seq(cols, dx requires 0 <= dx < cols => PixelBytes(img, x0 + dx, y))
  }

  /** A patch row is the join of its pixels. */
  lemma {:induction false} PatchRowConcat(img: Frame, x0: int, y: int, cols: nat)
    ensures PatchRow(img, x0, y, cols) == Concat(RowPixels(img, x0, y, cols))
  {
    if cols > 0 {
      PatchRowConcat(img, x0, y, cols - 1);
      assert RowPixels(img, x0, y, cols)[..cols - 1] == RowPixels(img, x0, y, cols - 1);
    }
  }

  /** The rows of a patch, one piece each. */
  function PatchRows(img: Frame, x0: int, y0: int, cols: nat, rows: nat): (ps: seq<seq<byte>>)
    ensures |ps| == rows
  {
    seq(rows, dy requires 0 <= dy < rows => PatchRow(img, x0, y0 + dy, cols))
  }

  /** A patch is the join of its rows. */
  lemma {:induction false} PatchConcat(img: Frame, x0: int, y0: int, cols: nat, rows: nat)
    ensures Patch(img, x0, y0, cols, rows) == Concat(PatchRows(img, x0, y0, cols, rows))
  {
    if rows > 0 {
      PatchConcat(img, x0, y0, cols, rows - 1);
      assert PatchRows(img, x0, y0, cols, rows)[..rows - 1] == PatchRows(img, x0, y0, cols, rows - 1);
    }
  }

  /** A window is the join of its rows. */
  lemma WindowConcat(img: Frame, a: (int, int), r: nat)
    ensures Window(img, a, r) == Concat(PatchRows(img, a.0 - r, a.1 - r, Side(r), Side(r)))
  {
    PatchConcat(img, a.0 - r, a.1 - r, Side(r), Side(r));
  }

  /** A row box grows by a readable pixel on its right. */
  lemma {:induction false} BoxGrowRight(img: Frame, x0: int, y: int, cols: nat)
    requires BoxInside(img, x0, y, cols, 1) && PixelInside(img, x0 + cols, y)
    ensures BoxInside(img, x0, y, cols + 1, 1)
  {
  }

  /** A box grows by an inside row below it. */
  lemma {:induction false} BoxGrowDown(img: Frame, x0: int, y0: int, cols: nat, rows: nat)
    requires cols > 0 && BoxInside(img, x0, y0, cols, rows) && BoxInside(img, x0, y0 + rows, cols, 1)
    ensures BoxInside(img, x0, y0, cols, rows + 1)
  {
  }

  // -----------------------------------------------------------------------
  // fill_windows

  /** How `fill_windows` ends when it starts at anchor `i`: the first anchor
      whose window runs past the buffer panics on the slice, the first whose
      window leaves the image panics on the coordinate; otherwise it
      completes. */
  function FillFrom(img: Frame, anchors: seq<(int, int)>, r: nat, len: nat, i: nat): (res: Outcome<()>)
    ensures res.Ok? || res.Panic?
    decreases |anchors| - i
  {
    if i >= |anchors| then Ok(())
    else if Offset(i, WinLen(img, r)) + WinLen(img, r) > len then Panic(SLICE_PANIC)
    else if !AnchorInside(img, anchors[i], r) then Panic(COORDINATE_PANIC)
    else FillFrom(img, anchors, r, len, i + 1)
  }

  /** `fill_windows` completes exactly when the remaining windows fit the
      buffer and lie inside the image. */
  lemma {:induction false} FillFromOk(img: Frame, anchors: seq<(int, int)>, r: nat, len: nat, i: nat)
    requires i <= |anchors|
    ensures FillFrom(img, anchors, r, len, i).Ok? <==>
            (i == |anchors| || Offset(|anchors|, WinLen(img, r)) <= len)
            && forall k {:trigger AnchorInside(img, anchors[k], r)} :: i <= k < |anchors| ==> AnchorInside(img, anchors[k], r)
    decreases |anchors| - i
  {
    if i < |anchors| {
      FillFromOk(img, anchors, r, len, i + 1);
      var w := WinLen(img, r);
      assert Offset(i + 1, w) == Offset(i, w) + w;
      OffsetBefore(i, |anchors|, w);
    }
  }

  /** From the first anchor on: `fill_windows` completes exactly when every
      window fits the buffer and lies inside the image. */
  lemma {:induction false} FillOk(img: Frame, anchors: seq<(int, int)>, r: nat, len: nat)
    ensures FillFrom(img, anchors, r, len, 0).Ok? <==> WindowsFit(img, anchors, r, len)
  {
    FillFromOk(img, anchors, r, len, 0);
  }

  /** `fill_windows`: the window of every anchor copied out of the first
      frame, back to back from the start of `windows`; a window past the end
      of the buffer or a pixel outside the image panics, whichever anchor
      comes first. */
  method FillWindows(img: Frame, anchors: seq<(int, int)>, windows: array<byte>, r: nat) returns (res: Outcome<()>)
    modifies windows
    ensures res == FillFrom(img, anchors, r, windows.Length, 0)
    ensures res.Ok? ==> Offset(|anchors|, WinLen(img, r)) <= windows.Length
                        && windows[..] == Put(old(windows[..]), 0, Windows(img, anchors, r))
  {
    ghost var before := windows[..];
    ghost var done: seq<byte> := [];
    var size := Side(r);
    var winLen := Offset(size, Offset(size, img.layout.widthStride));
    assert winLen == WinLen(img, r);
    for i := 0 to |anchors|
      invariant Offset(i, winLen) <= windows.Length
      invariant FillFrom(img, anchors, r, windows.Length, 0) == FillFrom(img, anchors, r, windows.Length, i)
      invariant done == Windows(img, anchors[..i], r)
      invariant windows[..] == Put(before, 0, done)
    {
      if Offset(i, winLen) + winLen > windows.Length {
        return Panic(SLICE_PANIC);
      }
      var at := Offset(i, winLen);
      ghost var cur := windows[..];
      var ok := FillWindow(img, anchors[i], r, windows, at);
      if !ok {
        return Panic(COORDINATE_PANIC);
      }
      PutAfter(windows[..], cur, before, 0, done, Window(img, anchors[i], r), at);
      WindowsStep(img, anchors, r, i);
      done := done + Window(img, anchors[i], r);
    }
    assert anchors[..|anchors|] == anchors;
    res := Ok(());
  }

  /** The windows of the first `i + 1` anchors: those of the first `i`, then anchor `i`'s. */
  lemma {:induction false} WindowsStep(img: Frame, anchors: seq<(int, int)>, r: nat, i: nat)
    requires i < |anchors|
    ensures Windows(img, anchors[..i + 1], r) == Windows(img, anchors[..i], r) + Window(img, anchors[i], r)
  {
    assert anchors[..i + 1][..i] == anchors[..i];
  }

  /** The window of each anchor, one piece per anchor. */
  function WindowList(img: Frame, anchors: seq<(int, int)>, r: nat): (ws: seq<seq<byte>>)
    ensures |ws| == |anchors|
  {
    seq(|anchors|, i requires 0 <= i < |anchors| => Window(img, anchors[i], r))
  }

  /** The windows of all anchors are their pieces joined. */
  lemma {:induction false} WindowsConcat(img: Frame, anchors: seq<(int, int)>, r: nat)
    ensures Windows(img, anchors, r) == Concat(WindowList(img, anchors, r))
    decreases |anchors|
  {
    if |anchors| > 0 {
      var n := |anchors| - 1;
      WindowsConcat(img, anchors[..n], r);
      assert WindowList(img, anchors, r)[..n] == WindowList(img, anchors[..n], r);
    }
  }

  /** Window `i` sits at `i * win_len` among the windows of all anchors. */
  lemma {:induction false} WindowsAt(img: Frame, anchors: seq<(int, int)>, r: nat, i: nat)
    requires i < |anchors|
    ensures Offset(i, WinLen(img, r)) + WinLen(img, r) <= Offset(|anchors|, WinLen(img, r))
    ensures Windows(img, anchors, r)[Offset(i, WinLen(img, r)) .. Offset(i, WinLen(img, r)) + WinLen(img, r)]
            == Window(img, anchors[i], r)
  {
    WindowsConcat(img, anchors, r);
    ConcatAt(WindowList(img, anchors, r), WinLen(img, r), i);
  }

  /** The message of a slice past the end of a buffer. */
  const SLICE_PANIC := "range end index out of range for slice"
  /** The message of a window pixel outside the image. */
  const COORDINATE_PANIC := "Image coordinate out of range"

  /** The window around anchor `a` copied to `windows[base..]`, row by row. */
  method FillWindow(img: Frame, a: (int, int), r: nat, windows: array<byte>, base: nat) returns (ok: bool)
    requires base + WinLen(img, r) <= windows.Length
    modifies windows
    ensures ok <==> AnchorInside(img, a, r)
    ensures ok ==> windows[..] == Put(old(windows[..]), base, Window(img, a, r))
  {
    ghost var before := windows[..];
    var size := Side(r);
    var x0, y0 := a.0 - r, a.1 - r;
    ghost var done: seq<byte> := [];
    var rowLen := Offset(size, img.layout.widthStride);
    for dy := 0 to size
      invariant base + Offset(dy, rowLen) <= windows.Length
      invariant done == Patch(img, x0, y0, size, dy)
      invariant windows[..] == Put(before, base, done)
      invariant BoxInside(img, x0, y0, size, dy)
    {
      OffsetBefore(dy, size, rowLen);
      var at := base + Offset(dy, rowLen);
      ghost var cur := windows[..];
      ghost var piece := PatchRow(img, x0, y0 + dy, size);
      var rowOk := FillWindowRow(img, x0, y0 + dy, size, windows, at);
      if !rowOk {
        if BoxInside(img, x0, y0, size, size) {
          SubBox(img, x0, y0, size, size, x0, y0 + dy, size, 1);
        }
        return false;
      }
      BoxGrowDown(img, x0, y0, size, dy);
      PutAfter(windows[..], cur, before, base, done, piece, at);
      PatchStep(img, x0, y0, size, dy);
      done := done + piece;
    }
    ok := true;
  }

  /** The first `cols` pixels of row `y` from column `x0` on copied to `windows[start..]`. */
  method FillWindowRow(img: Frame, x0: int, y: int, cols: nat, windows: array<byte>, start: nat) returns (ok: bool)
    requires start + Offset(cols, img.layout.widthStride) <= windows.Length
    modifies windows
    ensures ok <==> BoxInside(img, x0, y, cols, 1)
    ensures ok ==> windows[..] == Put(old(windows[..]), start, PatchRow(img, x0, y, cols))
  {
    ghost var before := windows[..];
    ghost var done: seq<byte> := [];
    var w := img.layout.widthStride;
    for dx := 0 to cols
      invariant start + Offset(dx, w) <= windows.Length
      invariant done == PatchRow(img, x0, y, dx)
      invariant windows[..] == Put(before, start, done)
      invariant BoxInside(img, x0, y, dx, 1)
    {
      OffsetBefore(dx, cols, w);
      var at := start + Offset(dx, w);
      ghost var cur := windows[..];
      ghost var piece := PixelBytes(img, x0 + dx, y);
      var pixelOk := FillPixel(img, x0 + dx, y, windows, at);
      if !pixelOk {
        if BoxInside(img, x0, y, cols, 1) {
          InBox(img, x0, y, cols, 1, x0 + dx, y);
        }
        return false;
      }
      BoxGrowRight(img, x0, y, dx);
      PutAfter(windows[..], cur, before, start, done, piece, at);
      PatchRowStep(img, x0, y, dx);
      done := done + piece;
    }
    ok := true;
  }

  /** Pixel (xx, yy) copied to `windows[at..]`; a pixel outside the image panics. */
  method FillPixel(img: Frame, xx: int, yy: int, windows: array<byte>, at: nat) returns (ok: bool)
    requires at + img.layout.widthStride <= windows.Length
    modifies windows
    ensures ok <==> PixelInside(img, xx, yy)
    ensures ok ==> windows[..] == Put(old(windows[..]), at, PixelBytes(img, xx, yy))
  {
    var w := img.layout.widthStride;
    var index := PixelIndex(img.layout, xx, yy);
    if index.None? || (w > 0 && index.value + w > |img.samples|) {
      return false;
    }
    if w > 0 {
      CopyPixel(img.samples, index.value, windows, at, w);
    } else {
      assert windows[..] == Put(windows[..], at, []);
    }
    PixelBytesAre(img, xx, yy);
    ok := true;
  }

  /** `win[idx + ch] = image.samples[idx_image + ch]` for every channel. */
  method CopyPixel(samples: seq<byte>, from: nat, windows: array<byte>, at: nat, w: nat)
    requires from + w <= |samples| && at + w <= windows.Length
    modifies windows
    ensures windows[..] == Put(old(windows[..]), at, samples[from .. from + w])
  {
    ghost var before := windows[..];
    for c := 0 to w
      invariant forall j {:trigger windows[j]} :: 0 <= j < windows.Length ==> windows[j] == if at <= j < at + c then samples[from + (j - at)] else before[j]
    {
      windows[at + c] := samples[from + c];
    }
    assert windows[..] == Put(before, at, samples[from .. from + w]);
  }
}
