/** The gzip-only revision of the band file streams. Its writer is buffered:
    records written sit in the buffer until `close` (or dropping the writer)
    flushes them, and the file plus the buffer always hold every record
    written. */
module ImgStream {
  import opened Common
  import opened Framing
  import Streams

  /** The payload stored for a chunk: gzip at the default level. */
  function Gzip(gzip: Streams.Flate, bytes: seq<byte>): seq<byte>
  {
    gzip.encode(Streams.DEFAULT_LEVEL, bytes)
  }

  /** `PixelOutputStream` over a `BufWriter`. */
  class PixelOutputStream {
    const fs: Streams.FileSystem
    const path: string
    const gzip: Streams.Flate
    /** Bytes written but not yet flushed to the file. */
    var pending: seq<byte>

    ghost predicate Valid()
      reads this, fs
    {
      path in fs.files
    }

    /** Everything written so far: the file followed by the buffer. */
    ghost function Written(): seq<byte>
      reads this, fs
      requires Valid()
    {
      fs.files[path] + pending
    }

    /** `PixelOutputStream::new`: creates the file, or truncates it. */
    constructor (fs: Streams.FileSystem, path: string, gzip: Streams.Flate)
      modifies fs
      ensures Valid() && Written() == []
      ensures this.fs == fs && this.path == path && this.gzip == gzip
      ensures fs.files == old(fs.files)[path := []]
    {
      this.fs := fs;
      this.path := path;
      this.gzip := gzip;
      pending := [];
      new;
      fs.files := fs.files[path := []];
    }

    /** `write_chunk`: appends the gzip payload's record to the buffer; it
        reaches the file at `close`. */
    method WriteChunk(bytes: seq<byte>)
      requires Valid()
      modifies this
      ensures Valid()
      ensures pending == old(pending) + Record(Gzip(gzip, bytes))
    {
      var compressed := gzip.encode(Streams.DEFAULT_LEVEL, bytes);
      pending := pending + U32BE(|compressed| % U32_LIMIT);
      pending := pending + compressed;
    }

    /** `close`: flushes the buffer, so the file holds everything written. */
    method Close()
      requires Valid()
      modifies this, fs
      ensures Valid() && pending == []
      ensures fs.files == old(fs.files)[path := old(Written())]
    {
      fs.files := fs.files[path := fs.files[path] + pending];
      pending := [];
    }
  }

  /** `PixelInputStream` over a `BufReader`. */
  class PixelInputStream {
    const data: seq<byte>
    var pos: nat
    const gzip: Streams.Flate

    ghost predicate Valid()
      reads this
    {
      pos <= |data|
    }

    constructor (data: seq<byte>, gzip: Streams.Flate)
      ensures Valid() && this.data == data && pos == 0 && this.gzip == gzip
    {
      this.data := data;
      pos := 0;
      this.gzip := gzip;
    }

    /** `read_chunk`: end-of-stream at the end of the data or inside a
        truncated record, leaving the reader at the end and `out` untouched;
        otherwise the next payload is gunzipped and appended to `out`, and the
        count of appended bytes is returned. */
    method ReadChunk(out: seq<byte>) returns (out': seq<byte>, r: Streams.ChunkRead)
      requires Valid()
      modifies this
      ensures Valid()
      ensures old(ReadRecord(data, pos)).End? ==> r == Streams.EndOfStream && out' == out && pos == |data|
      ensures old(ReadRecord(data, pos)).Next? ==>
                var step := old(ReadRecord(data, pos));
                && pos == step.next
                && match gzip.decode(step.payload)
                   case None => r == Streams.DecodePanic
                   case Some(d) => r == Streams.Got(|d|) && out' == out + d
    {
      var step := ReadRecord(data, pos);
      match step
      case End =>
        pos := |data|;
        out' := out;
        r := Streams.EndOfStream;
      case Next(payload, next) =>
        pos := next;
        match gzip.decode(payload)
        case None =>
          out' := out;
          r := Streams.DecodePanic;
        case Some(d) =>
          out' := out + d;
          r := Streams.Got(|d|);
    }
  }

  /** The payloads stored for a list of chunks. */
  function GzipAll(gzip: Streams.Flate, chunks: seq<seq<byte>>): (ps: seq<seq<byte>>)
    ensures |ps| == |chunks|
    ensures forall i :: 0 <= i < |chunks| ==> ps[i] == Gzip(gzip, chunks[i])
  {
    seq(|chunks|, i requires 0 <= i < |chunks| => Gzip(gzip, chunks[i]))
  }

  /** Chunks written one by one and flushed read back in order, then
      end-of-stream: the gzip revision stores exactly what the configurable
      stream stores for `GZip` at the default level. */
  lemma ChunksReadBack(gzip: Streams.Flate, chunks: seq<seq<byte>>)
    requires Streams.Lossless(gzip) && Fits(GzipAll(gzip, chunks))
    ensures Streams.DecodeAll(Records(GzipAll(gzip, chunks)), 0, gzip) == chunks
  {
    var codecs := Streams.Codecs(gzip, gzip, gzip);
    var c := Streams.GZip(Streams.DEFAULT_LEVEL);
    assert GzipAll(gzip, chunks) == Streams.CompressAll(codecs, c, chunks);
    assert Records(GzipAll(gzip, chunks)) + [] == Records(GzipAll(gzip, chunks));
    Streams.ChunksReadBack(codecs, c, chunks, []);
  }

  /** `ImageStream`: the queue of image files still to be read. */
  class ImageStream {
    var files: seq<string>

    constructor (files: seq<string>)
      ensures this.files == files
    {
      this.files := files;
    }

    /** `next`: the front of the queue, removed from it; `None` once empty. */
    method Next() returns (r: Option<string>)
      modifies this
      ensures old(files) == [] ==> r == None && files == []
      ensures old(files) != [] ==> r == Some(old(files)[0]) && files == old(files)[1..]
    {
      if files == [] {
        r := None;
      } else {
        r := Some(files[0]);
        files := files[1..];
      }
    }
  }
}
