/** Band files of compressed pixel chunks, with a choice of codec, and the
    queue of input image files. A file system is a map from paths to byte
    contents; writers append framed records to it and readers walk a file's
    bytes record by record. */
module Streams {
  import opened Common
  import opened Framing

  // ---------------------------------------------------------------------
  // Compression

  /** A codec with its compression level. */
  datatype Compression = GZip(level: nat) | ZLib(level: nat) | Deflate(level: nat)

  /** flate2's default compression level. */
  const DEFAULT_LEVEL: nat := 6

  const CompressionNames: set<string> := {"gzip", "zlib", "deflate"}

  function CompressionName(c: Compression): string
  {
    match c
    case GZip(_) => "gzip"
    case ZLib(_) => "zlib"
    case Deflate(_) => "deflate"
  }

  /** `Compression::from_str` on `name[/level]`. The level is parsed before
      the name is looked at, so a level that is not a `u32` panics whatever
      the name; without a level the default is used; an unknown name is an
      error. */
  function ParseCompression(s: string): (r: Outcome<Compression>)
    ensures var parts := Split(s, '/');
      && (r.Panic? <==> |parts| >= 2 && ParseUnsigned(parts[1], U32_LIMIT).None?)
      && (r.Err? <==> !r.Panic? && parts[0] !in CompressionNames)
      && (r.Ok? ==> CompressionName(r.value) == parts[0])
      && (r.Ok? && |parts| == 1 ==> r.value.level == DEFAULT_LEVEL)
      && (r.Ok? && |parts| >= 2 ==> r.value.level == ParseUnsigned(parts[1], U32_LIMIT).value)
  {
    var parts := Split(s, '/');
    var name := parts[0];
    if |parts| >= 2 && ParseUnsigned(parts[1], U32_LIMIT).None? then
      Panic("Unable to parse compression level in " + parts[1])
    else
      var level := if |parts| >= 2 then ParseUnsigned(parts[1], U32_LIMIT).value else DEFAULT_LEVEL;
      if name == "gzip" then Ok(GZip(level))
      else if name == "zlib" then Ok(ZLib(level))
      else if name == "deflate" then Ok(Deflate(level))
      else Err("Not a compression: " + name + ". Must be one of (gzip|zlib|deflate)")
  }

  /** Every compression is read back from `name/level`. */
  lemma CompressionParses(c: Compression)
    requires c.level < U32_LIMIT
    ensures ParseCompression(CompressionName(c) + "/" + Decimal(c.level)) == Ok(c)
  {
    SplitTwo(CompressionName(c), '/', Decimal(c.level));
    ParseDecimal(c.level, U32_LIMIT);
  }

  /** A compressed format: compressing at a level, and decompressing, which
      fails on a corrupt stream. The formats themselves are not modelled. */
  datatype Flate = Flate(encode: (nat, seq<byte>) -> seq<byte>, decode: seq<byte> -> Option<seq<byte>>)

  /** Decompressing what was compressed, at any level, gives the input back. */
  ghost predicate Lossless(f: Flate)
  {
    forall level, bytes :: f.decode(f.encode(level, bytes)) == Some(bytes)
  }

  /** The gzip, zlib and raw deflate formats. */
  datatype Codecs = Codecs(gzip: Flate, zlib: Flate, deflate: Flate)

  ghost predicate AllLossless(codecs: Codecs)
  {
    Lossless(codecs.gzip) && Lossless(codecs.zlib) && Lossless(codecs.deflate)
  }

  /** The format a compression setting selects. */
  function CodecOf(codecs: Codecs, c: Compression): Flate
  {
    match c
    case GZip(_) => codecs.gzip
    case ZLib(_) => codecs.zlib
    case Deflate(_) => codecs.deflate
  }

  /** The payload `write_chunk` stores for a chunk. */
  function Compress(codecs: Codecs, c: Compression, bytes: seq<byte>): seq<byte>
  {
    CodecOf(codecs, c).encode(c.level, bytes)
  }

  // ---------------------------------------------------------------------
  // Files

  /** The files on disk, by path. */
  class FileSystem {
    var files: map<string, seq<byte>>

    constructor (files: map<string, seq<byte>>)
      ensures this.files == files
    {
      this.files := files;
    }
  }

  /** `PixelOutputStream`: appends one record per chunk to the file at `path`.
      Every write is flushed, so the file always holds every record written. */
  class PixelOutputStream {
    const fs: FileSystem
    const path: string
    const compression: Compression
    const codecs: Codecs

    ghost predicate Valid()
      reads this, fs
    {
      path in fs.files
    }

    /** `PixelOutputStream::new`: creates the file, or truncates it. */
    constructor Create(fs: FileSystem, path: string, compression: Compression, codecs: Codecs)
      modifies fs
      ensures Valid()
      ensures this.fs == fs && this.path == path
      ensures this.compression == compression && this.codecs == codecs
      ensures fs.files == old(fs.files)[path := []]
    {
      this.fs := fs;
      this.path := path;
      this.compression := compression;
      this.codecs := codecs;
      new;
      fs.files := fs.files[path := []];
    }

    /** The three-argument form the slicer calls: `append` keeps what the
        file holds (creating it empty when missing), otherwise as `Create`. */
    constructor Open(fs: FileSystem, path: string, compression: Compression, codecs: Codecs, append: bool)
      modifies fs
      ensures Valid()
      ensures this.fs == fs && this.path == path
      ensures this.compression == compression && this.codecs == codecs
      ensures append && path in old(fs.files) ==> fs.files == old(fs.files)
      ensures !(append && path in old(fs.files)) ==> fs.files == old(fs.files)[path := []]
    {
      this.fs := fs;
      this.path := path;
      this.compression := compression;
      this.codecs := codecs;
      new;
      if !(append && path in fs.files) {
        fs.files := fs.files[path := []];
      }
    }

    /** `write_chunk`: compresses the chunk, appends its length (truncated to
        `u32`) and the compressed bytes, and returns the compressed length.
        No other file changes. */
    method WriteChunk(bytes: seq<byte>) returns (n: nat)
      requires Valid()
      modifies fs
      ensures Valid()
      ensures n == |Compress(codecs, compression, bytes)|
      ensures fs.files == old(fs.files)[path := old(fs.files)[path] + Record(Compress(codecs, compression, bytes))]
    {
      var compressed := CodecOf(codecs, compression).encode(compression.level, bytes);
      var header := U32BE(|compressed| % U32_LIMIT);
      fs.files := fs.files[path := fs.files[path] + header];
      fs.files := fs.files[path := fs.files[path] + compressed];
      assert fs.files[path] == old(fs.files)[path] + Record(compressed);
      n := |compressed|;
    }
  }

  /** What one `read_chunk` call gives: the number of bytes appended, the end
      of the stream (`None`), or the panic of a failed decompression. */
  datatype ChunkRead = Got(size: nat) | EndOfStream | DecodePanic

  /** `PixelInputStream`: reads a file's records from the start. */
  class PixelInputStream {
    const data: seq<byte>
    var pos: nat
    const compression: Compression
    const codecs: Codecs

    ghost predicate Valid()
      reads this
    {
      pos <= |data|
    }

    constructor (data: seq<byte>, compression: Compression, codecs: Codecs)
      ensures Valid() && this.data == data && pos == 0
      ensures this.compression == compression && this.codecs == codecs
    {
      this.data := data;
      pos := 0;
      this.compression := compression;
      this.codecs := codecs;
    }

    /** `read_chunk`: at end of data, or inside a truncated record, the reader
        is left at the end and reports end-of-stream with `out` untouched;
        otherwise the next record's payload is decompressed and appended to
        `out`, and the count of appended bytes is returned. */
    method ReadChunk(out: seq<byte>) returns (out': seq<byte>, r: ChunkRead)
      requires Valid()
      modifies this
      ensures Valid()
      ensures old(ReadRecord(data, pos)).End? ==> r == EndOfStream && out' == out && pos == |data|
      ensures old(ReadRecord(data, pos)).Next? ==>
                var step := old(ReadRecord(data, pos));
                && pos == step.next
                && match CodecOf(codecs, compression).decode(step.payload)
                   case None => r == DecodePanic
                   case Some(d) => r == Got(|d|) && out' == out + d
    {
      var step := ReadRecord(data, pos);
      match step
      case End =>
        pos := |data|;
        out' := out;
        r := EndOfStream;
      case Next(payload, next) =>
        pos := next;
        match CodecOf(codecs, compression).decode(payload)
        case None =>
          out' := out;
          r := DecodePanic;
        case Some(d) =>
          out' := out + d;
          r := Got(|d|);
    }
  }

  /** `PixelInputStream::new`: opening a missing file is an error. */
  method OpenInput(fs: FileSystem, path: string, compression: Compression, codecs: Codecs)
    returns (r: Option<PixelInputStream>)
    ensures r.None? <==> path !in fs.files
    ensures r.Some? ==> fresh(r.value) && r.value.Valid() && r.value.data == fs.files[path] && r.value.pos == 0
    ensures r.Some? ==> r.value.compression == compression && r.value.codecs == codecs
  {
    if path in fs.files {
      var s := new PixelInputStream(fs.files[path], compression, codecs);
      r := Some(s);
    } else {
      r := None;
    }
  }

  // ---------------------------------------------------------------------
  // The round trip

  /** The payloads stored for a list of chunks. */
  function CompressAll(codecs: Codecs, c: Compression, chunks: seq<seq<byte>>): (ps: seq<seq<byte>>)
    ensures |ps| == |chunks|
    ensures forall i :: 0 <= i < |chunks| ==> ps[i] == Compress(codecs, c, chunks[i])
  {
    seq(|chunks|, i requires 0 <= i < |chunks| => Compress(codecs, c, chunks[i]))
  }

  /** What successive `read_chunk` calls return from `pos` on: the decompressed
      chunks until end-of-stream, stopping early at a chunk that fails to
      decompress. */
  function DecodeAll(data: seq<byte>, pos: nat, f: Flate): seq<seq<byte>>
    requires pos <= |data|
    decreases |data| - pos
  {
    match ReadRecord(data, pos)
    case End => []
    case Next(p, next) =>
      match f.decode(p)
      case None => []
      case Some(d) => [d] + DecodeAll(data, next, f)
  }

  /** Reading back a file written chunk by chunk with a lossless codec yields
      every chunk in order, and then end-of-stream, also when a truncated
      record trails the file. */
  lemma ChunksReadBack(codecs: Codecs, c: Compression, chunks: seq<seq<byte>>, tail: seq<byte>)
    requires Lossless(CodecOf(codecs, c))
    requires Fits(CompressAll(codecs, c, chunks)) && ReadRecord(tail, 0) == End
    ensures DecodeAll(Records(CompressAll(codecs, c, chunks)) + tail, 0, CodecOf(codecs, c)) == chunks
  {
    var ps := CompressAll(codecs, c, chunks);
    ReadAllBack(ps, tail);
    DecodeAllLossless(Records(ps) + tail, 0, codecs, c, chunks);
  }

  /** With a lossless codec, decoding every record read from `pos` undoes the
      compression of each. */
  lemma {:induction false} DecodeAllLossless(data: seq<byte>, pos: nat, codecs: Codecs, c: Compression,
                                            chunks: seq<seq<byte>>)
    requires pos <= |data| && Lossless(CodecOf(codecs, c))
    requires ReadAll(data, pos) == CompressAll(codecs, c, chunks)
    ensures DecodeAll(data, pos, CodecOf(codecs, c)) == chunks
    decreases |data| - pos
  {
    var f := CodecOf(codecs, c);
    match ReadRecord(data, pos)
    case End =>
    case Next(p, next) =>
      assert p == Compress(codecs, c, chunks[0]);
      assert f.decode(p) == Some(chunks[0]);
      assert CompressAll(codecs, c, chunks)[1..] == CompressAll(codecs, c, chunks[1..]);
      DecodeAllLossless(data, next, codecs, c, chunks[1..]);
      assert [chunks[0]] + chunks[1..] == chunks;
  }

  /** Each chunk written appends exactly one record for it: after writing a
      list of chunks to a freshly created file, the file holds the records of
      their compressed forms in order. */
  lemma WrittenFile(codecs: Codecs, c: Compression, before: seq<seq<byte>>, chunk: seq<byte>)
    ensures Records(CompressAll(codecs, c, before)) + Record(Compress(codecs, c, chunk))
         == Records(CompressAll(codecs, c, before + [chunk]))
  {
    assert CompressAll(codecs, c, before + [chunk]) == CompressAll(codecs, c, before) + [Compress(codecs, c, chunk)];
    RecordsSnoc(CompressAll(codecs, c, before), Compress(codecs, c, chunk));
  }

  // ---------------------------------------------------------------------
  // ImageStream

  /** `ImageStream`: the queue of image files still to be read. Decoding an
      image is not modelled; the stream yields the paths. */
  class ImageStream {
    var files: seq<string>

    constructor (files: seq<string>)
      ensures this.files == files
    {
      this.files := files;
    }

    /** `len`: the number of images not yet yielded. */
    function Len(): (n: nat)
      reads this
      ensures n == |files|
    {
      |files|
    }

    /** `next`: the front of the queue, removed from it; `None` once empty. */
    method Next() returns (r: Option<string>)
      modifies this
      ensures old(files) == [] ==> r == None && files == []
      ensures old(files) != [] ==> r == Some(old(files)[0]) && files == old(files)[1..]
      ensures Len() == if old(files) == [] then 0 else old(Len()) - 1
    {
      if files == [] {
        r := None;
      } else {
        r := Some(files[0]);
        files := files[1..];
      }
    }
  }
}
