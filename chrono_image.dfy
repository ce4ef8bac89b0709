/** What `ChronoProcessor::process` makes of a list of band files: each file
    is read to its end, every column of its rows is gathered into the pixel
    data of one output pixel, and the chosen pixels and blend bytes are
    scattered into the output and blend images. */
module ChronoImage {
  import opened Common
  import opened Banding
  import opened Framing
  import opened ChronoStats
  import opened ChronoSelect
  import Options
  import Streams

  // -----------------------------------------------------------------------
  // The pixel

  const DIV_ZERO := "attempt to divide by zero"

  /** `calc_pixel` on the `n` samples of `ch` channels in `pd`: zero channels
      divide by zero; otherwise the selection mode's rule. */
  function PixelOf(mode: Options.SelectionMode, t: Options.Threshold, bg: Options.BackgroundMode,
                   om: OutlierSelectionMode, pd: seq<byte>, ch: nat, n: nat, draw: nat,
                   sqrt: real -> real): Outcome<PixelChoice>
    requires |pd| == Offset(n, ch)
  {
    if ch == 0 then Panic(DIV_ZERO)
    else
      match mode
      case Darker => ExtremeSum(Samples(pd, ch, n), ch, false)
      case Lighter => ExtremeSum(Samples(pd, ch, n), ch, true)
      case Outlier => ZScore(t, bg, om, Samples(pd, ch, n), ch, draw, sqrt)
  }

  // -----------------------------------------------------------------------
  // Reading a band file

  /** `File::open` of a missing band file. */
  const NOT_FOUND := "No such file or directory"
  /** `read_to_end(out).unwrap()` on a payload the codec rejects. */
  const UNWRAP_PANIC := "called `Result::unwrap()` on an `Err` value"

  /** `while let Some(_) = stream.read_chunk(&mut data)` from `pos` on: the
      decompressed chunks up to end-of-stream, or the panic of the first
      payload that does not decompress. */
  function ReadChunks(data: seq<byte>, pos: nat, f: Streams.Flate): Outcome<seq<seq<byte>>>
    requires pos <= |data|
    decreases |data| - pos
  {
    match ReadRecord(data, pos)
    case End => Ok([])
    case Next(p, next) =>
      match f.decode(p)
      case None => Panic(UNWRAP_PANIC)
      case Some(d) => Prepend([d], ReadChunks(data, next, f))
  }

  /** `done` chunks in front of what follows, when that is not a failure. */
  function Prepend(done: seq<seq<byte>>, rest: Outcome<seq<seq<byte>>>): Outcome<seq<seq<byte>>>
  {
    match rest
    case Ok(cs) => Ok(done + cs)
    case Err(m) => Err(m)
    case Panic(m) => Panic(m)
  }

  lemma PrependTwice(a: seq<seq<byte>>, b: seq<seq<byte>>, rest: Outcome<seq<seq<byte>>>)
    ensures Prepend(a, Prepend(b, rest)) == Prepend(a + b, rest)
  {
    if rest.Ok? {
      assert a + (b + rest.value) == (a + b) + rest.value;
    }
  }

  /** The chunks of one band file, or the error of opening it. */
  function FileChunks(files: map<string, seq<byte>>, path: string, f: Streams.Flate): Outcome<seq<seq<byte>>>
  {
    if path !in files then Err(NOT_FOUND) else ReadChunks(files[path], 0, f)
  }

  /** With a lossless codec, reading the records of compressed chunks gives
      the chunks back, and no payload panics. */
  lemma {:induction false} ReadChunksLossless(data: seq<byte>, pos: nat, codecs: Streams.Codecs,
                                             c: Streams.Compression, chunks: seq<seq<byte>>)
    requires pos <= |data| && Streams.Lossless(Streams.CodecOf(codecs, c))
    requires ReadAll(data, pos) == Streams.CompressAll(codecs, c, chunks)
    ensures ReadChunks(data, pos, Streams.CodecOf(codecs, c)) == Ok(chunks)
    decreases |data| - pos
  {
    var f := Streams.CodecOf(codecs, c);
    match ReadRecord(data, pos)
    case End =>
    case Next(p, next) =>
      assert p == Streams.Compress(codecs, c, chunks[0]);
      assert f.decode(p) == Some(chunks[0]);
      assert Streams.CompressAll(codecs, c, chunks)[1..] == Streams.CompressAll(codecs, c, chunks[1..]);
      ReadChunksLossless(data, next, codecs, c, chunks[1..]);
      assert [chunks[0]] + chunks[1..] == chunks;
  }

  /** A band file written chunk by chunk with a lossless codec reads back as
      those chunks, also when a truncated record trails it. */
  lemma BandReadsBack(codecs: Streams.Codecs, c: Streams.Compression, chunks: seq<seq<byte>>, tail: seq<byte>)
    requires Streams.Lossless(Streams.CodecOf(codecs, c))
    requires Fits(Streams.CompressAll(codecs, c, chunks)) && ReadRecord(tail, 0) == End
    ensures ReadChunks(Records(Streams.CompressAll(codecs, c, chunks)) + tail, 0, Streams.CodecOf(codecs, c)) == Ok(chunks)
  {
    ReadAllBack(Streams.CompressAll(codecs, c, chunks), tail);
    ReadChunksLossless(Records(Streams.CompressAll(codecs, c, chunks)) + tail, 0, codecs, c, chunks);
  }

  // -----------------------------------------------------------------------
  // Gathering one column

  /** Every read `data[row * height_stride + col_offset + ch]` of the gather
      lies inside `data`: the last one is the furthest. */
  predicate Gatherable(len: nat, rows: nat, hs: nat, colOff: nat, ch: nat)
  {
    rows == 0 || ch == 0 || Offset(rows - 1, hs) + colOff + ch <= len
  }

  /** Row `r` of a gatherable column lies inside `data`. */
  lemma GatherRowInside(len: nat, rows: nat, hs: nat, colOff: nat, ch: nat, r: nat)
    requires ch >= 1 && r < rows
    ensures Gatherable(len, rows, hs, colOff, ch) ==> Offset(r, hs) + colOff + ch <= len
  {
    OffsetMono(r, rows - 1, hs);
  }

  /** The `ch` bytes of band row `k` at the column, `data[k * height_stride +
      col_offset ..][..ch]`; zeros where the row would run past `data`, which
      `Gatherable` rules out. */
  function RowPixel(data: seq<byte>, k: nat, hs: nat, colOff: nat, ch: nat): (p: seq<byte>)
    ensures |p| == ch
  {
    var from := Offset(k, hs) + colOff;
    if from + ch <= |data| then data[from .. from + ch] else Zeros(ch)
  }

  /** The pixel of every band row at the column. */
  function ColumnRows(data: seq<byte>, rows: nat, hs: nat, colOff: nat, ch: nat): (xs: seq<seq<byte>>)
    ensures |xs| == rows && forall k :: 0 <= k < rows ==> xs[k] == RowPixel(data, k, hs, colOff, ch)
  {
    if rows == 0 then [] else ColumnRows(data, rows - 1, hs, colOff, ch) + [RowPixel(data, rows - 1, hs, colOff, ch)]
  }

  /** The pixel data of one column: row after row, the `ch` bytes at
      `row * height_stride + col_offset`; `rows` pixels of `ch` bytes. */
  function Gathered(data: seq<byte>, rows: nat, hs: nat, colOff: nat, ch: nat): (g: seq<byte>)
    ensures |g| == Offset(rows, ch)
  {
    var xs := ColumnRows(data, rows, hs, colOff, ch);
    ConcatLength(xs, ch);
    Concat(xs)
  }

  /** One more row appends that row's pixel to the pixel data. */
  lemma GatheredStep(data: seq<byte>, row: nat, hs: nat, colOff: nat, ch: nat)
    ensures Gathered(data, row + 1, hs, colOff, ch) == Gathered(data, row, hs, colOff, ch) + RowPixel(data, row, hs, colOff, ch)
  {
    var xs := ColumnRows(data, row + 1, hs, colOff, ch);
    assert xs[..row] == ColumnRows(data, row, hs, colOff, ch);
  }

  /** Copying row `row`'s pixel behind a gathered prefix extends the prefix. */
  lemma GatheredPrefixStep(prev: seq<byte>, pd: seq<byte>, data: seq<byte>, row: nat, hs: nat, colOff: nat, ch: nat)
    requires Offset(row, ch) <= |prev| && prev[..Offset(row, ch)] == Gathered(data, row, hs, colOff, ch)
    requires Offset(row, hs) + colOff + ch <= |data| && Offset(row, ch) + ch <= |pd|
    requires pd[..Offset(row, ch) + ch] == prev[..Offset(row, ch)] + data[Offset(row, hs) + colOff .. Offset(row, hs) + colOff + ch]
    ensures Offset(row + 1, ch) <= |pd| && pd[..Offset(row + 1, ch)] == Gathered(data, row + 1, hs, colOff, ch)
  {
    RowPixelInside(data, row, hs, colOff, ch);
    GatheredStep(data, row, hs, colOff, ch);
  }

  /** The bytes of column `col` of output row `row` lie inside that row. */
  lemma CellRange(row: nat, col: nat, hs: nat, ch: nat, width: nat)
    requires col < width && Offset(width, ch) <= hs
    ensures Offset(row, hs) + Offset(col, ch) + ch <= Offset(row + 1, hs)
  {
    OffsetBefore(col, width, ch);
  }

  /** Sample `r` of the gathered pixel data is row `r`'s pixel at the column. */
  lemma GatheredSamples(data: seq<byte>, rows: nat, hs: nat, colOff: nat, ch: nat, r: nat)
    requires ch >= 1 && r < rows && Gatherable(|data|, rows, hs, colOff, ch)
    ensures Offset(r, hs) + colOff + ch <= |data|
    ensures |Gathered(data, rows, hs, colOff, ch)| == Offset(rows, ch)
    ensures Samples(Gathered(data, rows, hs, colOff, ch), ch, rows)[r]
            == data[Offset(r, hs) + colOff .. Offset(r, hs) + colOff + ch]
  {
    GatherRowInside(|data|, rows, hs, colOff, ch, r);
    var xs := ColumnRows(data, rows, hs, colOff, ch);
    RowPixelInside(data, r, hs, colOff, ch);
    ConcatAt(xs, ch, r);
    SampleAt(Concat(xs), ch, rows, r, 0);
  }

  /** A row that fits reads its pixel straight from `data`. */
  lemma RowPixelInside(data: seq<byte>, k: nat, hs: nat, colOff: nat, ch: nat)
    requires Offset(k, hs) + colOff + ch <= |data|
    ensures RowPixel(data, k, hs, colOff, ch) == data[Offset(k, hs) + colOff .. Offset(k, hs) + colOff + ch]
  {
  }

  // -----------------------------------------------------------------------
  // The choices

  /** The settings `process` composites with. */
  datatype Settings = Settings(mode: Options.SelectionMode, threshold: Options.Threshold,
                               background: Options.BackgroundMode, outlier: OutlierSelectionMode)

  /** Column `col` of a band with `rows` rows: the gather panics past the end
      of `data`, otherwise `calc_pixel` decides. */
  function ColumnChoice(st: Settings, data: seq<byte>, rows: nat, hs: nat, ch: nat, col: nat,
                        draw: nat, sqrt: real -> real): Outcome<PixelChoice>
  {
    if !Gatherable(|data|, rows, hs, Offset(col, ch), ch) then Panic(INDEX_PANIC)
    else PixelOf(st.mode, st.threshold, st.background, st.outlier, Gathered(data, rows, hs, Offset(col, ch), ch),
                 ch, rows, draw, sqrt)
  }

  /** The choices for the first `k` columns of output row `row`, stopping at
      the first panic. */
  function RowChoices(st: Settings, data: seq<byte>, rows: nat, hs: nat, ch: nat, row: nat,
                      draws: (nat, nat) -> nat, sqrt: real -> real, k: nat): Outcome<seq<PixelChoice>>
  {
    Collect(col => ColumnChoice(st, data, rows, hs, ch, col, draws(row, col), sqrt), k)
  }

  /** Column `k` extends the choices of the columns before it. */
  lemma RowChoicesStep(st: Settings, data: seq<byte>, rows: nat, hs: nat, ch: nat, row: nat,
                       draws: (nat, nat) -> nat, sqrt: real -> real, k: nat)
    ensures RowChoices(st, data, rows, hs, ch, row, draws, sqrt, k + 1)
            == Append(RowChoices(st, data, rows, hs, ch, row, draws, sqrt, k),
                      ColumnChoice(st, data, rows, hs, ch, k, draws(row, k), sqrt))
  {
  }

  /** A panic stops the row: the columns after it change nothing. */
  lemma {:induction false} RowStops(st: Settings, data: seq<byte>, rows: nat, hs: nat, ch: nat, row: nat,
                                    draws: (nat, nat) -> nat, sqrt: real -> real, k: nat, width: nat)
    requires k <= width && !RowChoices(st, data, rows, hs, ch, row, draws, sqrt, k).Ok?
    ensures RowChoices(st, data, rows, hs, ch, row, draws, sqrt, width) == RowChoices(st, data, rows, hs, ch, row, draws, sqrt, k)
  {
    CollectStops(col => ColumnChoice(st, data, rows, hs, ch, col, draws(row, col), sqrt), k, width);
  }

  /** The choices of every output row, one per band file, stopping at the
      first error or panic: the file's chunks are its rows. */
  function Grid(st: Settings, fs: map<string, seq<byte>>, paths: seq<string>, f: Streams.Flate,
                hs: nat, ch: nat, width: nat, draws: (nat, nat) -> nat, sqrt: real -> real)
    : Outcome<seq<seq<PixelChoice>>>
  {
    if |paths| == 0 then Ok([])
    else
      var row := |paths| - 1;
      Append(Grid(st, fs, paths[..row], f, hs, ch, width, draws, sqrt),
             BandRow(st, fs, paths[row], f, hs, ch, row, width, draws, sqrt))
  }

  /** Output row `row`: the choices for its `width` columns from the rows of
      the band file at `path`. */
  function BandRow(st: Settings, fs: map<string, seq<byte>>, path: string, f: Streams.Flate,
                   hs: nat, ch: nat, row: nat, width: nat, draws: (nat, nat) -> nat, sqrt: real -> real)
    : Outcome<seq<PixelChoice>>
  {
    match FileChunks(fs, path, f)
    case Ok(chunks) => RowChoices(st, Concat(chunks), |chunks|, hs, ch, row, draws, sqrt, width)
    case Err(m) => Err(m)
    case Panic(m) => Panic(m)
  }

  /** A failure stops the composite: the rows after it change nothing. */
  lemma {:induction false} GridStops(st: Settings, fs: map<string, seq<byte>>, paths: seq<string>, k: nat,
                                     f: Streams.Flate, hs: nat, ch: nat, width: nat,
                                     draws: (nat, nat) -> nat, sqrt: real -> real)
    requires k <= |paths| && !Grid(st, fs, paths[..k], f, hs, ch, width, draws, sqrt).Ok?
    ensures Grid(st, fs, paths, f, hs, ch, width, draws, sqrt) == Grid(st, fs, paths[..k], f, hs, ch, width, draws, sqrt)
    decreases |paths|
  {
    if k < |paths| {
      assert paths[..|paths| - 1][..k] == paths[..k];
      GridStops(st, fs, paths[..|paths| - 1], k, f, hs, ch, width, draws, sqrt);
    } else {
      assert paths[..k] == paths;
    }
  }

  // -----------------------------------------------------------------------
  // Scattering into the output

  /** Where byte `i` of an output image lies: its row, the pixel column in
      that row and the channel. */
  function Position(i: nat, hs: nat, ch: nat): (nat, nat, nat)
    requires hs > 0 && ch > 0
  {
    (Quot(i, hs), Quot(Rem(i, hs), ch), Rem(Rem(i, hs), ch))
  }

  /** `out_row * height_stride + col * channels + ch` lies at row `out_row`,
      column `col`, channel `ch`. */
  lemma PositionOf(i: nat, row: nat, col: nat, c: nat, hs: nat, ch: nat)
    requires c < ch && Offset(col, ch) + c < hs && i == Offset(row, hs) + Offset(col, ch) + c
    ensures Position(i, hs, ch) == (row, col, c)
  {
    QuotRemOf(row, Offset(col, ch) + c, hs);
    QuotRemOf(col, c, ch);
  }

  /** Every byte is at the index its position gives. */
  lemma PositionIndex(i: nat, hs: nat, ch: nat)
    requires hs > 0 && ch > 0
    ensures Position(i, hs, ch).2 < ch && Offset(Position(i, hs, ch).1, ch) + Position(i, hs, ch).2 < hs
    ensures i == Offset(Position(i, hs, ch).0, hs) + Offset(Position(i, hs, ch).1, ch) + Position(i, hs, ch).2
  {
    QuotRemSplit(i, hs);
    QuotRemSplit(Rem(i, hs), ch);
  }

  /** The choice written so far at row `r`, column `k`: the finished rows
      `done`, then the columns `cur` of the row in progress. */
  function Written(done: seq<seq<PixelChoice>>, cur: seq<PixelChoice>, r: nat, k: nat): Option<PixelChoice>
  {
    if r < |done| && k < |done[r]| then Some(done[r][k])
    else if r == |done| && k < |cur| then Some(cur[k])
    else None
  }

  /** Byte `i` of the output image: the channel of the pixel written at its
      position, zero elsewhere (unwritten rows, the padding after `width`
      pixels of a row). */
  function CellByte(i: nat, done: seq<seq<PixelChoice>>, cur: seq<PixelChoice>, hs: nat, ch: nat, width: nat): byte
  {
    if hs == 0 || ch == 0 then 0
    else
      var p := Position(i, hs, ch);
      PixelByte(Written(done, cur, p.0, p.1), p.1, p.2, width)
  }

  /** Byte `i` of the blend image: the blend byte on the colour channels and
      255 on the others of a written pixel, zero elsewhere. */
  function CellBlend(i: nat, done: seq<seq<PixelChoice>>, cur: seq<PixelChoice>, hs: nat, ch: nat, width: nat): byte
  {
    if hs == 0 || ch == 0 then 0
    else
      var p := Position(i, hs, ch);
      PixelBlend(Written(done, cur, p.0, p.1), p.1, p.2, width)
  }

  /** Channel `c` of the pixel `w` written at column `k`, if any. */
  function PixelByte(w: Option<PixelChoice>, k: nat, c: nat, width: nat): byte
  {
    match w
    case Some(p) => if k < width && c < |p.pixel| then p.pixel[c] else 0
    case None => 0
  }

  /** The blend image's byte for channel `c` of the pixel `w` written at
      column `k`, if any. */
  function PixelBlend(w: Option<PixelChoice>, k: nat, c: nat, width: nat): byte
  {
    match w
    case Some(p) => if k < width && c < |p.pixel| then (if c < 3 then p.blend else 255) else 0
    case None => 0
  }

  /** The output and blend images hold exactly the pixels written so far. */
  ghost predicate Composed(buf: seq<byte>, bl: seq<byte>, done: seq<seq<PixelChoice>>, cur: seq<PixelChoice>,
                           hs: nat, ch: nat, width: nat)
  {
    && |buf| == |bl|
    && (forall i :: 0 <= i < |buf| ==> buf[i] == CellByte(i, done, cur, hs, ch, width))
    && (forall i :: 0 <= i < |bl| ==> bl[i] == CellBlend(i, done, cur, hs, ch, width))
  }

  /** Every row has `width` choices of `ch` channels. */
  predicate Shaped(grid: seq<seq<PixelChoice>>, width: nat, ch: nat)
  {
    forall r :: 0 <= r < |grid| ==> |grid[r]| == width && forall k :: 0 <= k < width ==> |grid[r][k].pixel| == ch
  }

  /** The blend image's bytes for one pixel. */
  function BlendBytes(b: byte, ch: nat): (bs: seq<byte>)
    ensures |bs| == ch && forall c :: 0 <= c < ch ==> bs[c] == if c < 3 then b else 255
  {
    seq(ch, c => if c < 3 then b else 255)
  }

  /** `process` writes column `col` of row `out_row` at
      `out_row * height_stride + col * channels + ch`: the pixel's channel in
      the output, the blend byte (channels below 3) or 255 in the blend image. */
  lemma CellAt(grid: seq<seq<PixelChoice>>, hs: nat, ch: nat, width: nat, row: nat, col: nat, c: nat)
    requires Shaped(grid, width, ch) && row < |grid| && col < width && c < ch && Offset(width, ch) <= hs
    ensures CellByte(Offset(row, hs) + Offset(col, ch) + c, grid, [], hs, ch, width) == grid[row][col].pixel[c]
    ensures CellBlend(Offset(row, hs) + Offset(col, ch) + c, grid, [], hs, ch, width)
         == if c < 3 then grid[row][col].blend else 255
  {
    CellPosition(row, col, c, hs, ch, width);
    assert Written(grid, [], row, col) == Some(grid[row][col]);
  }

  /** Channel `c` of column `col` of row `row` lies at its own position. */
  lemma CellPosition(row: nat, col: nat, c: nat, hs: nat, ch: nat, width: nat)
    requires col < width && c < ch && Offset(width, ch) <= hs
    ensures Position(Offset(row, hs) + Offset(col, ch) + c, hs, ch) == (row, col, c)
  {
    OffsetMono(col + 1, width, ch);
    PositionOf(Offset(row, hs) + Offset(col, ch) + c, row, col, c, hs, ch);
  }

  /** Bytes at no written pixel stay zero: outside the first `|grid|` rows,
      and in the padding after `width` pixels. */
  lemma CellUnwritten(grid: seq<seq<PixelChoice>>, hs: nat, ch: nat, width: nat, i: nat)
    requires hs > 0 && ch > 0 && Shaped(grid, width, ch)
    requires Position(i, hs, ch).0 >= |grid| || Position(i, hs, ch).1 >= width
    ensures CellByte(i, grid, [], hs, ch, width) == 0 && CellBlend(i, grid, [], hs, ch, width) == 0
  {
  }

  /** Writing the next column's pixel over its `ch` bytes extends what the
      images hold by that pixel. */
  lemma ComposeColumn(buf: seq<byte>, bl: seq<byte>, buf': seq<byte>, bl': seq<byte>,
                      done: seq<seq<PixelChoice>>, cur: seq<PixelChoice>,
                      x: PixelChoice, start: nat, hs: nat, ch: nat, width: nat)
    requires Composed(buf, bl, done, cur, hs, ch, width)
    requires ch > 0 && |cur| < width && |x.pixel| == ch && Offset(width, ch) <= hs
    requires start == Offset(|done|, hs) + Offset(|cur|, ch) && start + ch <= |buf|
    requires buf' == buf[..start] + x.pixel + buf[start + ch..]
    requires bl' == bl[..start] + BlendBytes(x.blend, ch) + bl[start + ch..]
    ensures Composed(buf', bl', done, cur + [x], hs, ch, width)
  {
    forall i | 0 <= i < |buf'|
      ensures buf'[i] == CellByte(i, done, cur + [x], hs, ch, width)
    {
      ComposeByte(buf, buf', done, cur, x, start, hs, ch, width, i);
    }
    forall i | 0 <= i < |bl'|
      ensures bl'[i] == CellBlend(i, done, cur + [x], hs, ch, width)
    {
      ComposeBlend(bl, bl', done, cur, x, start, hs, ch, width, i);
    }
  }

  /** One byte of the output image after the next column is written. */
  lemma ComposeByte(buf: seq<byte>, buf': seq<byte>, done: seq<seq<PixelChoice>>, cur: seq<PixelChoice>,
                    x: PixelChoice, start: nat, hs: nat, ch: nat, width: nat, i: nat)
    requires ch > 0 && |cur| < width && |x.pixel| == ch && Offset(width, ch) <= hs
    requires start == Offset(|done|, hs) + Offset(|cur|, ch) && start + ch <= |buf|
    requires buf' == buf[..start] + x.pixel + buf[start + ch..]
    requires i < |buf| && buf[i] == CellByte(i, done, cur, hs, ch, width)
    ensures buf'[i] == CellByte(i, done, cur + [x], hs, ch, width)
  {
    if start <= i < start + ch {
      assert buf'[i] == x.pixel[i - start];
      CellNew(i, start, done, cur, x, hs, ch, width);
    } else {
      assert buf'[i] == buf[i];
      CellKept(i, done, cur, x, hs, ch, width);
    }
  }

  /** One byte of the blend image after the next column is written. */
  lemma ComposeBlend(bl: seq<byte>, bl': seq<byte>, done: seq<seq<PixelChoice>>, cur: seq<PixelChoice>,
                     x: PixelChoice, start: nat, hs: nat, ch: nat, width: nat, i: nat)
    requires ch > 0 && |cur| < width && |x.pixel| == ch && Offset(width, ch) <= hs
    requires start == Offset(|done|, hs) + Offset(|cur|, ch) && start + ch <= |bl|
    requires bl' == bl[..start] + BlendBytes(x.blend, ch) + bl[start + ch..]
    requires i < |bl| && bl[i] == CellBlend(i, done, cur, hs, ch, width)
    ensures bl'[i] == CellBlend(i, done, cur + [x], hs, ch, width)
  {
    if start <= i < start + ch {
      assert bl'[i] == BlendBytes(x.blend, ch)[i - start];
      CellNew(i, start, done, cur, x, hs, ch, width);
    } else {
      assert bl'[i] == bl[i];
      CellKept(i, done, cur, x, hs, ch, width);
    }
  }

  /** The cells of the column being written hold its pixel and blend. */
  lemma CellNew(i: nat, start: nat, done: seq<seq<PixelChoice>>, cur: seq<PixelChoice>, x: PixelChoice,
                hs: nat, ch: nat, width: nat)
    requires start == Offset(|done|, hs) + Offset(|cur|, ch) && start <= i < start + ch
    requires |cur| < width && |x.pixel| == ch && Offset(width, ch) <= hs
    ensures CellByte(i, done, cur + [x], hs, ch, width) == x.pixel[i - start]
    ensures CellBlend(i, done, cur + [x], hs, ch, width) == BlendBytes(x.blend, ch)[i - start]
  {
    OffsetMono(|cur| + 1, width, ch);
    PositionOf(i, |done|, |cur|, i - start, hs, ch);
    assert Written(done, cur + [x], |done|, |cur|) == Some(x);
  }

  /** Cells outside the column being written keep their bytes. */
  lemma CellKept(i: nat, done: seq<seq<PixelChoice>>, cur: seq<PixelChoice>, x: PixelChoice, hs: nat, ch: nat, width: nat)
    requires ch > 0 && |cur| < width && Offset(width, ch) <= hs
    requires i < Offset(|done|, hs) + Offset(|cur|, ch) || Offset(|done|, hs) + Offset(|cur|, ch) + ch <= i
    ensures CellByte(i, done, cur + [x], hs, ch, width) == CellByte(i, done, cur, hs, ch, width)
    ensures CellBlend(i, done, cur + [x], hs, ch, width) == CellBlend(i, done, cur, hs, ch, width)
  {
    OffsetMono(|cur| + 1, width, ch);
    PositionIndex(i, hs, ch);
    var (r, k, c) := Position(i, hs, ch);
    assert !(r == |done| && k == |cur|);
    assert Written(done, cur + [x], r, k) == Written(done, cur, r, k);
  }

  /** A finished row of `width` pixels joins the finished rows. */
  lemma ComposeRow(buf: seq<byte>, bl: seq<byte>, done: seq<seq<PixelChoice>>, cur: seq<PixelChoice>,
                   hs: nat, ch: nat, width: nat)
    requires Composed(buf, bl, done, cur, hs, ch, width) && |cur| == width
    ensures Composed(buf, bl, done + [cur], [], hs, ch, width)
  {
    forall i | 0 <= i < |buf|
      ensures buf[i] == CellByte(i, done + [cur], [], hs, ch, width)
      ensures bl[i] == CellBlend(i, done + [cur], [], hs, ch, width)
    {
      if hs > 0 && ch > 0 {
        var (r, k, c) := Position(i, hs, ch);
        assert Written(done + [cur], [], r, k) == Written(done, cur, r, k) || k >= width;
      }
    }
  }

  /** Zero-filled images hold nothing yet. */
  lemma ComposeEmpty(n: nat, hs: nat, ch: nat, width: nat)
    ensures Composed(seq(n, _ => 0), seq(n, _ => 0), [], [], hs, ch, width)
  {
  }
}
