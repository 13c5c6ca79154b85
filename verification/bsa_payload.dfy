/** The data of one file inside an archive: what `create_archive` writes for it and what
    `extract_file`/`get_file_stream` read back from its record's offset and size. LZ4 is a
    pair of function parameters. */
module BsaPayload {
  import opened Wrappers
  import opened Bytes
  import opened Streams
  import opened BsaDatatypes

  /** What is read after the optional embedded name: a compressed body skips the 4-byte
      original size and decompresses `size - 4` bytes; a plain body is `size` bytes. A short
      stream yields what is there, and a negative length reads to the end. */
  function BodySpec(rest: seq<Byte>, size: int, compressed: bool,
                    decompress: seq<Byte> -> Result<seq<Byte>>): Result<seq<Byte>>
  {
    if compressed then decompress(Take(Drop(rest, 4), size - 4)) else Ok(Take(rest, size))
  }

  /** The file at `offset` with the record's raw `size` (bit 30 left in): the embedded name,
      if names are embedded, and the file's bytes. The name's length and its length byte are
      taken off the size before the body is read. */
  function PayloadSpec(data: seq<Byte>, offset: int, size: int, embed: bool, compressed: bool,
                       decompress: seq<Byte> -> Result<seq<Byte>>): (r: Result<(Option<string>, seq<Byte>)>)
    ensures offset < 0 ==> r == Err(ValueErr)
    ensures r.Ok? ==> (r.value.0.Some? <==> embed)
  {
    if offset < 0 then Err(ValueErr)
    else
      var start := Drop(data, offset);
      if !embed then
        var body := BodySpec(start, size, compressed, decompress);
        if body.Ok? then Ok((None, body.value)) else Err(body.error)
      else NamedSpec(ParseBStringSpec(start), size, compressed, decompress)
  }

  /** The embedded-name branch: the name as a BString, then the body with the name and its
      length byte taken off the size. */
  function NamedSpec(name: Step<string>, size: int, compressed: bool,
                     decompress: seq<Byte> -> Result<seq<Byte>>): (r: Result<(Option<string>, seq<Byte>)>)
    ensures r.Ok? ==> r.value.0.Some?
  {
    if name.result.Err? then Err(name.result.error)
    else
      var body := BodySpec(name.rest, size - (|name.result.value| + 1), compressed, decompress);
      if body.Ok? then Ok((Some(name.result.value), body.value)) else Err(body.error)
  }

  /** `stream.seek(offset)` followed by the reads of `extract_file`. */
  method ReadPayload(data: seq<Byte>, offset: int, size: int, embed: bool, compressed: bool,
                     decompress: seq<Byte> -> Result<seq<Byte>>)
    returns (res: Result<(Option<string>, seq<Byte>)>)
    ensures res == PayloadSpec(data, offset, size, embed, compressed, decompress)
  {
    if offset < 0 {
      return Err(ValueErr);
    }
    var stream := new Reader(data);
    stream.Seek(offset);
    assert stream.Remaining() == Drop(data, offset);
    if !embed {
      var body := ReadBody(stream, size, compressed, decompress);
      res := if body.Ok? then Ok((None, body.value)) else Err(body.error);
      return;
    }
    res := ReadNamed(stream, size, compressed, decompress);
  }

  /** The embedded-name branch: the name, then the body with the name's bytes taken off the
      size. */
  method ReadNamed(stream: Reader, size: int, compressed: bool, decompress: seq<Byte> -> Result<seq<Byte>>)
    returns (res: Result<(Option<string>, seq<Byte>)>)
    modifies stream
    ensures res == NamedSpec(ParseBStringSpec(old(stream.Remaining())), size, compressed, decompress)
  {
    var s := ParseBString(stream);
    res := ReadNamedBody(stream, s, size, compressed, decompress);
  }

  /** The body after a name read as `name`. */
  method ReadNamedBody(stream: Reader, name: Result<string>, size: int, compressed: bool,
                       decompress: seq<Byte> -> Result<seq<Byte>>)
    returns (res: Result<(Option<string>, seq<Byte>)>)
    modifies stream
    ensures res == NamedSpec(Step(name, old(stream.Remaining())), size, compressed, decompress)
  {
    if name.Err? {
      return Err(name.error);
    }
    var body := ReadBody(stream, size - (|name.value| + 1), compressed, decompress);
    res := if body.Ok? then Ok((Some(name.value), body.value)) else Err(body.error);
  }

  /** The reads after the name: the body of `BodySpec`. */
  method ReadBody(stream: Reader, size: int, compressed: bool, decompress: seq<Byte> -> Result<seq<Byte>>)
    returns (body: Result<seq<Byte>>)
    modifies stream
    ensures body == BodySpec(old(stream.Remaining()), size, compressed, decompress)
  {
    if compressed {
      var originalSize := ParseInteger(stream, ULong);
      var packed := stream.Read(size - 4);
      body := decompress(packed);
    } else {
      var plain := stream.Read(size);
      body := Ok(plain);
    }
  }

  /** What `create_archive` writes for one file, with the size it records: the name as a
      BString when names are embedded, then the stored body. The recorded size counts the
      name and its length byte again on top of the body's size. */
  function StoredSpec(fileName: string, content: seq<Byte>, embed: bool, compressedArchive: bool,
                      compress: seq<Byte> -> seq<Byte>): (r: Result<(seq<Byte>, int)>)
    requires IsAscii(fileName)
    ensures embed && |fileName| >= 256 ==> r == Err(Overflow)
    ensures r.Ok? ==> r.value.1 == |r.value.0|
  {
    var nameBytes := if embed then DumpBString(fileName) else Ok([]);
    if nameBytes.Err? then Err(nameBytes.error)
    else
      var extra := if embed then |fileName| + 1 else 0;
      var body := StoredBody(content, |content| + extra, compressedArchive, compress);
      if body.Err? then Err(body.error)
      else Ok((nameBytes.value + body.value.0, body.value.1 + extra))
  }

  /** The body `create_archive` writes: for a compressed archive the 4-byte size `named`
      (the content's size, plus the embedded name's) and the compressed bytes, recorded as
      their length plus 4; otherwise the content, recorded as its length. */
  function StoredBody(content: seq<Byte>, named: int, compressedArchive: bool,
                      compress: seq<Byte> -> seq<Byte>): (r: Result<(seq<Byte>, int)>)
    ensures r.Ok? ==> r.value.1 == |r.value.0|
  {
    if compressedArchive then
      var packed := compress(content);
      var originalSize := IntegerDump(named, ULong);
      if originalSize.Err? then Err(originalSize.error)
      else Ok((originalSize.value + packed, |packed| + 4))
    else Ok((content, |content|))
  }

  /** The recorded size: the content's size, or the compressed size plus the 4-byte size
      prefix, and on top the name and its length byte when names are embedded. */
  lemma StoredSize(fileName: string, content: seq<Byte>, embed: bool, compressedArchive: bool,
                   compress: seq<Byte> -> seq<Byte>, stored: seq<Byte>, size: int)
    requires IsAscii(fileName)
    requires StoredSpec(fileName, content, embed, compressedArchive, compress) == Ok((stored, size))
    ensures size == |stored|
    ensures size == (if compressedArchive then |compress(content)| + 4 else |content|)
                    + (if embed then |fileName| + 1 else 0)
  {
    StoredParts(fileName, content, embed, compressedArchive, compress);
  }

  /** Extraction inverts creation: reading at an offset where the stored bytes start, with
      the size recorded for them and the same flags, gives back the name (if embedded) and
      the content, whatever follows, provided decompression undoes compression. */
  lemma ExtractStored(fileName: string, content: seq<Byte>, embed: bool, compressedArchive: bool,
                      compress: seq<Byte> -> seq<Byte>, decompress: seq<Byte> -> Result<seq<Byte>>,
                      stored: seq<Byte>, size: int, data: seq<Byte>, offset: nat, after: seq<Byte>)
    requires IsAscii(fileName) && NoEdgeNul(fileName)
    requires StoredSpec(fileName, content, embed, compressedArchive, compress) == Ok((stored, size))
    requires decompress(compress(content)) == Ok(content)
    requires Drop(data, offset) == stored + after
    ensures PayloadSpec(data, offset, size, embed, compressedArchive, decompress)
      == Ok((if embed then Some(fileName) else None, content))
  {
    var extra := if embed then |fileName| + 1 else 0;
    var body := StoredBody(content, |content| + extra, compressedArchive, compress).value;
    StoredParts(fileName, content, embed, compressedArchive, compress);
    BodyOf(content, |content| + extra, compressedArchive, compress, decompress, after);
    if embed {
      AppendAssoc(DumpBString(fileName).value, body.0, after);
      NamedStored(fileName, body.0 + after, body.1, compressedArchive, decompress, content, data, offset, size);
    } else {
      PlainStored(body.0 + after, body.1, compressedArchive, decompress, content, data, offset, size);
    }
  }

  /** The stored bytes are the name's bytes, if embedded, then the body's. */
  lemma StoredParts(fileName: string, content: seq<Byte>, embed: bool, compressedArchive: bool,
                    compress: seq<Byte> -> seq<Byte>)
    requires IsAscii(fileName)
    requires StoredSpec(fileName, content, embed, compressedArchive, compress).Ok?
    ensures embed ==> |fileName| < 256
    ensures var extra := if embed then |fileName| + 1 else 0;
      StoredBody(content, |content| + extra, compressedArchive, compress).Ok? &&
      var body := StoredBody(content, |content| + extra, compressedArchive, compress).value;
      var stored := StoredSpec(fileName, content, embed, compressedArchive, compress).value;
      stored.0 == (if embed then DumpBString(fileName).value + body.0 else body.0) && stored.1 == body.1 + extra
  {
  }

  /** With the name embedded, the name is read back and the body after it. */
  lemma NamedStored(fileName: string, rest: seq<Byte>, bodySize: int, compressed: bool,
                    decompress: seq<Byte> -> Result<seq<Byte>>, content: seq<Byte>,
                    data: seq<Byte>, offset: nat, size: int)
    requires IsAscii(fileName) && NoEdgeNul(fileName) && |fileName| < 256
    requires BodySpec(rest, bodySize, compressed, decompress) == Ok(content)
    requires Drop(data, offset) == DumpBString(fileName).value + rest
    requires size == bodySize + |fileName| + 1
    ensures PayloadSpec(data, offset, size, true, compressed, decompress) == Ok((Some(fileName), content))
  {
    BStringRoundTrip(fileName, rest);
    NamedBody(ParseBStringSpec(Drop(data, offset)), fileName, rest, bodySize, compressed, decompress, content, size);
  }

  lemma NamedBody(name: Step<string>, fileName: string, rest: seq<Byte>, bodySize: int, compressed: bool,
                  decompress: seq<Byte> -> Result<seq<Byte>>, content: seq<Byte>, size: int)
    requires name == Step(Ok(fileName), rest)
    requires BodySpec(rest, bodySize, compressed, decompress) == Ok(content)
    requires size == bodySize + |fileName| + 1
    ensures NamedSpec(name, size, compressed, decompress) == Ok((Some(fileName), content))
  {
    assert size - (|fileName| + 1) == bodySize;
  }

  /** Without embedded names the body is read right at the offset. */
  lemma PlainStored(rest: seq<Byte>, bodySize: int, compressed: bool,
                    decompress: seq<Byte> -> Result<seq<Byte>>, content: seq<Byte>,
                    data: seq<Byte>, offset: nat, size: int)
    requires BodySpec(rest, bodySize, compressed, decompress) == Ok(content)
    requires Drop(data, offset) == rest && size == bodySize
    ensures PayloadSpec(data, offset, size, false, compressed, decompress) == Ok((None, content))
  {
  }

  /** The body half of `ExtractStored`. */
  lemma BodyOf(content: seq<Byte>, named: int, compressedArchive: bool, compress: seq<Byte> -> seq<Byte>,
               decompress: seq<Byte> -> Result<seq<Byte>>, after: seq<Byte>)
    requires StoredBody(content, named, compressedArchive, compress).Ok?
    requires decompress(compress(content)) == Ok(content)
    ensures var body := StoredBody(content, named, compressedArchive, compress).value;
      BodySpec(body.0 + after, body.1, compressedArchive, decompress) == Ok(content)
  {
    if compressedArchive {
      var prefix := IntegerDump(named, ULong).value;
      IntegerRoundTrip(named, ULong, compress(content) + after);
      assert (prefix + compress(content)) + after == prefix + (compress(content) + after);
      TakePrefix(compress(content), after, |compress(content)|);
    } else {
      TakePrefix(content, after, |content|);
    }
  }
}
