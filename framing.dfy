/** The band file format shared by `streams.rs` and `img_stream.rs`: a file
    is a sequence of records, each a big-endian `u32` length followed by that
    many payload bytes. A reader stops at the first record it cannot read in
    full, so a truncated trailing record reads as end-of-stream. */
module Framing {
  import opened Common

  /** `write_u32::<BigEndian>`: four bytes, most significant first. */
  function U32BE(n: nat): (b: seq<byte>)
    requires n < U32_LIMIT
    ensures |b| == 4 && BE32(b) == n
  {
    var b := [n / 0x100_0000, (n / 0x1_0000) % 256, (n / 256) % 256, n % 256];
    assert BE32(b) == n by {
      assert n / 0x1_0000 == (n / 0x100_0000) * 256 + (n / 0x1_0000) % 256;
      assert n / 256 == (n / 0x1_0000) * 256 + (n / 256) % 256;
      assert n == (n / 256) * 256 + n % 256;
    }
    b
  }

  /** `read_u32::<BigEndian>` on four bytes. */
  function BE32(b: seq<byte>): (n: nat)
    requires |b| == 4
    ensures n < U32_LIMIT
  {
    ((b[0] as int * 256 + b[1]) * 256 + b[2]) * 256 + b[3]
  }

  /** One record: the payload length, truncated to `u32` as `len() as u32`
      does, then the payload. */
  function Record(payload: seq<byte>): (r: seq<byte>)
    ensures |r| == 4 + |payload|
  {
    U32BE(|payload| % U32_LIMIT) + payload
  }

  /** The bytes of a file holding the records of the given payloads in order. */
  function Records(payloads: seq<seq<byte>>): seq<byte>
  {
    if |payloads| == 0 then []
    else Record(payloads[0]) + Records(payloads[1..])
  }

  /** Every payload length fits the `u32` length field. */
  predicate Fits(payloads: seq<seq<byte>>)
  {
    forall i :: 0 <= i < |payloads| ==> |payloads[i]| < U32_LIMIT
  }

  /** The result of one read at a position: a whole record's payload and the
      position after it, or end-of-stream. */
  datatype Step = Next(payload: seq<byte>, next: nat) | End

  /** One `read_chunk` at `pos`: fewer than four bytes left, or fewer than the
      announced length after them, is end-of-stream (`UnexpectedEof`);
      otherwise the payload is the announced number of bytes. */
  function ReadRecord(data: seq<byte>, pos: nat): (s: Step)
    requires pos <= |data|
    ensures s.Next? ==> pos + 4 <= s.next <= |data| && s.payload == data[pos + 4..s.next]
    ensures s.Next? ==> |s.payload| == BE32(data[pos..pos + 4])
  {
    if |data| - pos < 4 then End
    else
      var len := BE32(data[pos..pos + 4]);
      if |data| - (pos + 4) < len then End
      else Next(data[pos + 4..pos + 4 + len], pos + 4 + len)
  }

  /** Every payload read from `pos` to the end of the stream, in order. */
  function ReadAll(data: seq<byte>, pos: nat): seq<seq<byte>>
    requires pos <= |data|
    decreases |data| - pos
  {
    match ReadRecord(data, pos)
    case End => []
    case Next(p, next) => [p] + ReadAll(data, next)
  }

  /** The records of two lists of payloads are the records of the first
      list followed by those of the second. */
  lemma {:induction false} RecordsAppend(a: seq<seq<byte>>, b: seq<seq<byte>>)
    ensures Records(a + b) == Records(a) + Records(b)
  {
    if |a| == 0 {
      assert a + b == b;
    } else {
      assert (a + b)[1..] == a[1..] + b;
      RecordsAppend(a[1..], b);
    }
  }

  /** Appending one record to a file of records gives the file of records
      with that payload at the end: writing record by record builds `Records`. */
  lemma RecordsSnoc(payloads: seq<seq<byte>>, p: seq<byte>)
    ensures Records(payloads) + Record(p) == Records(payloads + [p])
  {
    RecordsAppend(payloads, [p]);
    assert [p][1..] == [];
  }

  /** Reading inside a file does not depend on the bytes before the read position. */
  lemma ReadRecordShift(pre: seq<byte>, data: seq<byte>, pos: nat)
    requires pos <= |data|
    ensures ReadRecord(data, pos).End? ==> ReadRecord(pre + data, |pre| + pos).End?
    ensures ReadRecord(data, pos).Next? ==>
              ReadRecord(pre + data, |pre| + pos) ==
              Next(ReadRecord(data, pos).payload, |pre| + ReadRecord(data, pos).next)
  {
    var d := pre + data;
    var q := |pre| + pos;
    if |data| - pos >= 4 {
      assert d[q..q + 4] == data[pos..pos + 4];
      var len := BE32(data[pos..pos + 4]);
      if |data| - (pos + 4) >= len {
        assert d[q + 4..q + 4 + len] == data[pos + 4..pos + 4 + len];
      }
    }
  }

  /** Reading every record from a position does not depend on the bytes
      before it either. */
  lemma {:induction false} ReadAllShift(pre: seq<byte>, data: seq<byte>, pos: nat)
    requires pos <= |data|
    ensures ReadAll(pre + data, |pre| + pos) == ReadAll(data, pos)
    decreases |data| - pos
  {
    ReadRecordShift(pre, data, pos);
    var s := ReadRecord(data, pos);
    if s.Next? {
      ReadAllShift(pre, data, s.next);
      assert ReadAll(pre + data, |pre| + pos) == [s.payload] + ReadAll(pre + data, |pre| + s.next);
    }
  }

  /** A four-byte header announcing the payload's length, then the payload,
      reads back as that payload. */
  lemma ReadHeader(h: seq<byte>, p: seq<byte>, rest: seq<byte>)
    requires |h| == 4 && BE32(h) == |p|
    ensures ReadRecord(h + p + rest, 0) == Next(p, 4 + |p|)
  {
    var d := h + p + rest;
    assert d[0..4] == h;
    assert d[4..4 + |p|] == p;
  }

  /** The record written for a payload reads back as that payload. */
  lemma ReadOneRecord(p: seq<byte>, rest: seq<byte>)
    requires |p| < U32_LIMIT
    ensures ReadRecord(Record(p) + rest, 0) == Next(p, 4 + |p|)
  {
    var h := U32BE(|p|);
    assert |p| % U32_LIMIT == |p|;
    assert Record(p) == h + p;
    ReadHeader(h, p, rest);
  }

  /** The whole round trip: reading from the start of a file written record
      by record yields every payload in order and then end-of-stream, even
      when a truncated record trails the file. */
  lemma {:induction false} ReadAllBack(payloads: seq<seq<byte>>, tail: seq<byte>)
    requires Fits(payloads) && ReadRecord(tail, 0) == End
    ensures ReadAll(Records(payloads) + tail, 0) == payloads
  {
    if |payloads| == 0 {
      assert Records(payloads) + tail == tail;
    } else {
      var p := payloads[0];
      var rest := Records(payloads[1..]) + tail;
      assert Records(payloads) + tail == Record(p) + rest;
      ReadOneRecord(p, rest);
      ReadAllShift(Record(p), rest, 0);
      ReadAllBack(payloads[1..], tail);
      assert payloads == [p] + payloads[1..];
    }
  }
}
