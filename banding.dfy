/** Cutting a flat sample buffer into consecutive bands of a fixed stride,
    and putting the bands back together. */
module Banding {
  import opened Common

  /** Multiplying both sides of an inequality by the same factor. */
  lemma MulMono(a: nat, b: nat, c: nat)
    requires a <= b
    ensures a * c <= b * c
  {
  }

  /** Regrouping a product of three factors. */
  lemma MulAssoc(a: nat, b: nat, c: nat)
    ensures a * (b * c) == (a * b) * c
  {
  }

  /** The pieces of a list put back together in order. */
  function Concat(xs: seq<seq<byte>>): (r: seq<byte>)
  {
    if |xs| == 0 then [] else Concat(xs[..|xs| - 1]) + xs[|xs| - 1]
  }

  /** `n` zero bytes. */
  function Zeros(n: nat): (z: seq<byte>)
    ensures |z| == n
  {
    if n == 0 then [] else Zeros(n - 1) + [0]
  }

  /** Every byte of `Zeros(n)` is zero. */
  lemma {:induction false} ZerosAt(n: nat)
    ensures forall j :: 0 <= j < n ==> Zeros(n)[j] == 0
  {
    if n > 0 {
      ZerosAt(n - 1);
    }
  }

  /** Pieces of `len` bytes each join to `|xs| * len` bytes. */
  lemma {:induction false} ConcatLength(xs: seq<seq<byte>>, len: nat)
    requires forall k :: 0 <= k < |xs| ==> |xs[k]| == len
    ensures |Concat(xs)| == Offset(|xs|, len)
  {
    if |xs| > 0 {
      ConcatLength(xs[..|xs| - 1], len);
    }
  }

  /** Piece `r` of pieces of `len` bytes each sits at `r * len` in their join. */
  lemma {:induction false} ConcatAt(xs: seq<seq<byte>>, len: nat, r: nat)
    requires forall k :: 0 <= k < |xs| ==> |xs[k]| == len
    requires r < |xs|
    ensures Offset(r, len) + len <= Offset(|xs|, len) == |Concat(xs)|
    ensures Concat(xs)[Offset(r, len) .. Offset(r, len) + len] == xs[r]
    decreases |xs|
  {
    var n := |xs| - 1;
    var front := xs[..n];
    ConcatLength(xs, len);
    ConcatLength(front, len);
    OffsetBefore(r, |xs|, len);
    assert Concat(xs) == Concat(front) + xs[n];
    if r < n {
      ConcatAt(front, len, r);
      OffsetBefore(r, n, len);
      assert Concat(xs)[Offset(r, len) .. Offset(r, len) + len] == Concat(front)[Offset(r, len) .. Offset(r, len) + len];
    }
  }

  /** A byte string of `|xs|` bands of `len` bytes is the join of the pieces
      `xs` exactly when each band is the matching piece. */
  lemma {:induction false} ConcatEq(u: seq<byte>, xs: seq<seq<byte>>, len: nat)
    requires forall k :: 0 <= k < |xs| ==> |xs[k]| == len
    requires |u| == Offset(|xs|, len)
    ensures u == Concat(xs) <==> forall k :: 0 <= k < |xs| ==> Band(u, k, len) == xs[k]
  {
    if forall k :: 0 <= k < |xs| ==> Band(u, k, len) == xs[k] {
      BandsJoin(u, xs, len);
    }
    if u == Concat(xs) {
      forall k | 0 <= k < |xs|
        ensures Band(u, k, len) == xs[k]
      {
        ConcatAt(xs, len, k);
        BandInside(u, k, len);
      }
    }
  }

  /** A buffer of `|rows|` rows, each the join of `cols` cells of `len`
      samples, is the join of the rows exactly when every cell is where
      the two levels of bands put it. */
  lemma {:induction false} GridEq(u: seq<byte>, rows: seq<seq<byte>>, cells: seq<seq<seq<byte>>>, cols: nat, len: nat)
    requires |cells| == |rows|
    requires forall k :: 0 <= k < |rows| ==> |cells[k]| == cols && rows[k] == Concat(cells[k])
    requires forall k, j :: 0 <= k < |rows| && 0 <= j < cols ==> |cells[k][j]| == len
    requires |u| == Offset(|rows|, Offset(cols, len))
    ensures u == Concat(rows) <==>
            forall k, j :: 0 <= k < |rows| && 0 <= j < cols ==> Band(Band(u, k, Offset(cols, len)), j, len) == cells[k][j]
  {
    var rowLen := Offset(cols, len);
    forall k | 0 <= k < |rows|
      ensures |rows[k]| == rowLen
      ensures Band(u, k, rowLen) == rows[k] <==> forall j :: 0 <= j < cols ==> Band(Band(u, k, rowLen), j, len) == cells[k][j]
    {
      ConcatLength(cells[k], len);
      OffsetBefore(k, |rows|, rowLen);
      BandInside(u, k, rowLen);
      ConcatEq(Band(u, k, rowLen), cells[k], len);
    }
    ConcatEq(u, rows, rowLen);
  }

  /** Bands that are the pieces join up to the whole string. */
  lemma {:induction false} BandsJoin(u: seq<byte>, xs: seq<seq<byte>>, len: nat)
    requires forall k :: 0 <= k < |xs| ==> |xs[k]| == len
    requires |u| == Offset(|xs|, len)
    requires forall k :: 0 <= k < |xs| ==> Band(u, k, len) == xs[k]
    ensures u == Concat(xs)
    decreases |xs|
  {
    if |xs| > 0 {
      var n := |xs| - 1;
      var m := Offset(n, len);
      FrontBands(u, xs, len, n);
      BandsJoin(u[..m], xs[..n], len);
      BandInside(u, n, len);
      SplitLast(u, m, len);
    }
  }

  /** The bands of the first `n` pieces lie in the prefix they cover. */
  lemma {:induction false} FrontBands(u: seq<byte>, xs: seq<seq<byte>>, len: nat, n: nat)
    requires n <= |xs| && Offset(n, len) <= |u|
    requires forall k :: 0 <= k < |xs| ==> Band(u, k, len) == xs[k]
    ensures forall k :: 0 <= k < n ==> Band(u[..Offset(n, len)], k, len) == xs[..n][k]
  {
    forall k | 0 <= k < n
      ensures Band(u[..Offset(n, len)], k, len) == xs[..n][k]
    {
      OffsetBefore(k, n, len);
      BandInside(u, k, len);
      BandInside(u[..Offset(n, len)], k, len);
      SliceOfPrefix(u, Offset(n, len), Offset(k, len), Offset(k, len) + len);
    }
  }

  /** A band that fits is the plain slice. */
  lemma BandInside(u: seq<byte>, k: nat, len: nat)
    requires Offset(k, len) + len <= |u|
    ensures Band(u, k, len) == u[Offset(k, len) .. Offset(k, len) + len]
  {
  }

  /** A slice of a prefix is the same slice of the whole. */
  lemma SliceOfPrefix(u: seq<byte>, m: nat, from: nat, to: nat)
    requires from <= to <= m <= |u|
    ensures u[..m][from..to] == u[from..to]
  {
  }

  /** A slice of a slice is a slice of the whole. */
  lemma SliceOfSlice(u: seq<byte>, from: nat, to: nat, lo: nat, hi: nat)
    requires from <= to <= |u| && lo <= hi <= to - from
    ensures u[from..to][lo..hi] == u[from + lo .. from + hi]
  {
    assert forall k :: 0 <= k < hi - lo ==> u[from..to][lo..hi][k] == u[from + lo + k];
  }

  /** Writing piece `p` over the bytes after the first `p` pieces extends
      the written prefix by one piece; the bytes it replaces are still the
      original's. */
  lemma ConcatSplice(xs: seq<seq<byte>>, p: nat, len: nat, u: seq<byte>, cur: seq<byte>)
    requires p < |xs| && forall q :: 0 <= q < |xs| ==> |xs[q]| == len
    requires |u| == Offset(|xs|, len) && Offset(p, len) + len <= |u|
    requires cur == Concat(xs[..p]) + u[Offset(p, len)..]
    ensures |cur| == |u| && Offset(p + 1, len) == Offset(p, len) + len
    ensures var at := Offset(p, len);
            cur[at .. at + len] == u[at .. at + len] &&
            cur[..at] + xs[p] + cur[at + len..] == Concat(xs[..p + 1]) + u[at + len..]
  {
    var at := Offset(p, len);
    ConcatLength(xs[..p], len);
    assert xs[..p + 1][..p] == xs[..p];
    assert cur[..at] == Concat(xs[..p]);
    assert cur[at + len..] == u[at + len..];
  }

  /** `u` with its first `p` pieces of `len` bytes overwritten, in order,
      by those of `xs`. */
  function Spliced(u: seq<byte>, xs: seq<seq<byte>>, len: nat, p: nat): (r: seq<byte>)
    requires p <= |xs| && |u| == Offset(|xs|, len)
    requires forall q :: 0 <= q < |xs| ==> |xs[q]| == len
    ensures |r| == |u|
    decreases p
  {
    if p == 0 then u
    else
      var w := Spliced(u, xs, len, p - 1);
      var at := Offset(p - 1, len);
      OffsetBefore(p - 1, |xs|, len);
      w[..at] + xs[p - 1] + w[at + len..]
  }

  /** After `p` pieces, the bytes are the join of the first `p` pieces
      followed by the rest of the original. */
  lemma {:induction false} SplicedPrefix(u: seq<byte>, xs: seq<seq<byte>>, len: nat, p: nat)
    requires p <= |xs| && |u| == Offset(|xs|, len)
    requires forall q :: 0 <= q < |xs| ==> |xs[q]| == len
    ensures Offset(p, len) <= |u|
    ensures Spliced(u, xs, len, p) == Concat(xs[..p]) + u[Offset(p, len)..]
    decreases p
  {
    if p == 0 {
      assert Concat(xs[..0]) == [];
    } else {
      var w := Spliced(u, xs, len, p - 1);
      var at := Offset(p - 1, len);
      SplicedPrefix(u, xs, len, p - 1);
      OffsetBefore(p - 1, |xs|, len);
      ConcatSplice(xs, p - 1, len, u, w);
      assert Spliced(u, xs, len, p) == w[..at] + xs[p - 1] + w[at + len..];
    }
  }

  /** A string of `m + len` bytes is its first `m` and its last `len`. */
  lemma SplitLast(u: seq<byte>, m: nat, len: nat)
    requires |u| == m + len
    ensures u == u[..m] + u[m .. m + len]
  {
  }

  /** Where band `i` starts, `i * stride`, as repeated addition: each band
      starts `stride` samples after the one before it. */
  function Offset(i: nat, stride: nat): nat
  {
    if i == 0 then 0 else Offset(i - 1, stride) + stride
  }

  /** `Offset` is the product the source computes. */
  lemma {:induction false} OffsetProduct(i: nat, stride: nat)
    ensures Offset(i, stride) == i * stride
  {
    if i > 0 {
      OffsetProduct(i - 1, stride);
    }
  }

  /** No stride, no offset. */
  lemma {:induction false} OffsetZero(i: nat)
    ensures Offset(i, 0) == 0
  {
    if i > 0 {
      OffsetZero(i - 1);
    }
  }

  /** How many whole strides of `d` fit in `i` (`i / d` for `d > 0`). */
  function Quot(i: nat, d: nat): nat
    decreases i
  {
    if d == 0 || i < d then 0 else Quot(i - d, d) + 1
  }

  /** What is left of `i` after the whole strides of `d` (`i % d` for `d > 0`). */
  function Rem(i: nat, d: nat): nat
    decreases i
  {
    if d == 0 || i < d then i else Rem(i - d, d)
  }

  /** Every index splits into whole strides and a remainder below the stride. */
  lemma {:induction false} QuotRemSplit(i: nat, d: nat)
    requires d > 0
    ensures Offset(Quot(i, d), d) + Rem(i, d) == i && Rem(i, d) < d
    decreases i
  {
    if i >= d {
      QuotRemSplit(i - d, d);
    }
  }

  /** The split is unique: `q` strides and `r < d` split back into `q` and `r`. */
  lemma {:induction false} QuotRemOf(q: nat, r: nat, d: nat)
    requires r < d
    ensures Quot(Offset(q, d) + r, d) == q && Rem(Offset(q, d) + r, d) == r
    decreases q
  {
    if q > 0 {
      QuotRemOf(q - 1, r, d);
    }
  }

  /** A positive multiple is at least the multiplicand. */
  lemma MulAtLeast(k: int, d: nat)
    requires k >= 1
    ensures k * d >= d
  {
  }

  /** Euclidean division recovers quotient and remainder. */
  lemma DivModOf(q: nat, r: nat, d: nat)
    requires r < d
    ensures (q * d + r) / d == q && (q * d + r) % d == r
  {
    var x := q * d + r;
    var k := x / d - q;
    assert x == (x / d) * d + x % d;
    assert k * d == r - x % d by {
      assert (x / d) * d == (k + q) * d == k * d + q * d;
    }
    if k >= 1 {
      MulAtLeast(k, d);
    } else if k <= -1 {
      MulAtLeast(-k, d);
    }
  }

  /** Later bands start no earlier. */
  lemma {:induction false} OffsetMono(i: nat, j: nat, stride: nat)
    requires i <= j
    ensures Offset(i, stride) <= Offset(j, stride)
    decreases j
  {
    if i < j {
      OffsetMono(i, j - 1, stride);
    }
  }

  /** A band before band `j` ends no later than band `j` starts. */
  lemma OffsetBefore(i: nat, j: nat, stride: nat)
    requires i < j
    ensures Offset(i, stride) + stride <= Offset(j, stride)
  {
    OffsetMono(i + 1, j, stride);
  }

  /** Band `i` of a sample buffer: `samples[i * stride .. min((i + 1) * stride, len)]`,
      cut to the buffer. */
  function Band(samples: seq<byte>, i: nat, stride: nat): seq<byte>
  {
    var start := Offset(i, stride);
    // `(i + 1) * stride` is `start + stride`
    samples[Min(start, |samples|) .. Min(start + stride, |samples|)]
  }

  /** The first `count` bands of a sample buffer. */
  function Bands(samples: seq<byte>, stride: nat, count: nat): (bs: seq<seq<byte>>)
    ensures |bs| == count && forall i :: 0 <= i < count ==> bs[i] == Band(samples, i, stride)
  {
    seq(count, i requires 0 <= i < count => Band(samples, i, stride))
  }

  /** The first `k` bands are consecutive: together they are the samples up
      to where band `k` starts. */
  lemma {:induction false} BandsPrefix(samples: seq<byte>, stride: nat, k: nat)
    ensures Concat(Bands(samples, stride, k)) == samples[..Min(Offset(k, stride), |samples|)]
  {
    if k > 0 {
      var bs := Bands(samples, stride, k);
      BandsPrefix(samples, stride, k - 1);
      assert bs[..k - 1] == Bands(samples, stride, k - 1);
      PrefixStep(samples, Offset(k - 1, stride), stride);
      assert Concat(bs) == Concat(bs[..k - 1]) + Band(samples, k - 1, stride);
    }
  }

  /** The samples up to `start`, followed by the `width` samples from
      `start` on, both cut to the buffer, are the samples up to `start + width`. */
  lemma PrefixStep(samples: seq<byte>, start: nat, width: nat)
    ensures samples[..Min(start, |samples|)] + samples[Min(start, |samples|)..Min(start + width, |samples|)]
         == samples[..Min(start + width, |samples|)]
  {
  }

  /** Bands that cover the buffer put back together in order are the buffer:
      slicing transposes losslessly. */
  lemma BandsConcat(samples: seq<byte>, stride: nat, count: nat)
    requires count * stride >= |samples|
    ensures Concat(Bands(samples, stride, count)) == samples
  {
    BandsPrefix(samples, stride, count);
    OffsetProduct(count, stride);
    assert samples[..|samples|] == samples;
  }

  /** Band `i` of every frame, in frame order: the chunks of band file `i`. */
  function BandChunks(frames: seq<Frame>, i: nat, stride: nat): (cs: seq<seq<byte>>)
    ensures |cs| == |frames| && forall k :: 0 <= k < |frames| ==> cs[k] == Band(frames[k].samples, i, stride)
  {
    seq(|frames|, k requires 0 <= k < |frames| => Band(frames[k].samples, i, stride))
  }
}
