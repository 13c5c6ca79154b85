/** The records of the archive index: folder records, file records, the per-folder file
    record blocks and the file name block. */
module BsaRecords {
  import opened Wrappers
  import opened Bytes
  import opened Streams
  import opened Bits
  import opened BsaDatatypes

  // ================================================================ FolderRecord

  datatype FolderRecordValue = FolderRecordValue(
    nameHash: int, count: int, padding: int, offset: int, padding2: int)

  /** The name hash (UInt64), then count, padding, offset and padding2 (ULong each). */
  const FolderTypes: seq<IntType> := [UInt64, ULong, ULong, ULong, ULong]

  function FolderFields(f: FolderRecordValue): (vals: seq<int>)
    ensures |vals| == |FolderTypes|
  {
    [f.nameHash, f.count, f.padding, f.offset, f.padding2]
  }

  /** `FolderRecord.parse` over the unread bytes: the five fields in order. */
  function ParseFolderSpec(bs: seq<Byte>): (FolderRecordValue, seq<Byte>) {
    var fields := ReadFields(bs, FolderTypes);
    var vals := fields.0;
    (FolderRecordValue(vals[0], vals[1], vals[2], vals[3], vals[4]), fields.1)
  }

  /** `FolderRecord.dump`: the five fields in the same order. */
  function DumpFolderSpec(f: FolderRecordValue): Result<seq<Byte>> {
    DumpFields(FolderFields(f), FolderTypes)
  }

  /** The folder records `dump` can write: every field fits its width. */
  predicate FolderDumpable(f: FolderRecordValue) {
    InRange(f.nameHash, UInt64) && InRange(f.count, ULong) && InRange(f.padding, ULong)
    && InRange(f.offset, ULong) && InRange(f.padding2, ULong)
  }

  class FolderRecord {
    var nameHash: int
    var count: int
    var padding: int
    var offset: int
    var padding2: int

    /** `FolderRecord()`: both paddings default to 0; the other fields, which the source
        leaves unset until they are assigned, start at 0 here. */
    constructor ()
      ensures Value() == FolderRecordValue(0, 0, 0, 0, 0)
    {
      nameHash, count, padding, offset, padding2 := 0, 0, 0, 0, 0;
    }

    function Value(): FolderRecordValue
      reads this
    {
      FolderRecordValue(nameHash, count, padding, offset, padding2)
    }

    method Parse(r: Reader)
      modifies this, r
      ensures (Value(), r.Remaining()) == ParseFolderSpec(old(r.Remaining()))
    {
      var vals := ParseFields(r, FolderTypes);
      nameHash := vals[0];
      count := vals[1];
      padding := vals[2];
      offset := vals[3];
      padding2 := vals[4];
    }

    method Dump() returns (data: Result<seq<Byte>>)
      ensures data == DumpFolderSpec(Value())
    {
      data := DumpFields([nameHash, count, padding, offset, padding2], FolderTypes);
    }
  }

  /** dump succeeds exactly when every field fits its width, and then writes 24 bytes. */
  lemma FolderDumpOk(f: FolderRecordValue)
    ensures DumpFolderSpec(f).Ok? <==> FolderDumpable(f)
    ensures DumpFolderSpec(f).Ok? ==> |DumpFolderSpec(f).value| == 24
  {
    var vals := FolderFields(f);
    if FolderDumpable(f) {
      forall i | 0 <= i < |vals| ensures InRange(vals[i], FolderTypes[i]) { }
    }
    if DumpFolderSpec(f).Ok? {
      assert InRange(vals[0], FolderTypes[0]) && InRange(vals[1], FolderTypes[1]);
      assert InRange(vals[2], FolderTypes[2]) && InRange(vals[3], FolderTypes[3]);
      assert InRange(vals[4], FolderTypes[4]);
    }
    assert FieldsSize(FolderTypes[4..]) == 4;
    assert FieldsSize(FolderTypes[3..]) == 8;
    assert FieldsSize(FolderTypes[2..]) == 12;
    assert FieldsSize(FolderTypes[1..]) == 16;
  }

  /** parse(dump(f)) gives back every field, paddings included, and stops after 24 bytes. */
  lemma FolderRoundTrip(f: FolderRecordValue, tail: seq<Byte>)
    requires FolderDumpable(f)
    ensures DumpFolderSpec(f).Ok?
    ensures ParseFolderSpec(DumpFolderSpec(f).value + tail) == (f, tail)
  {
    FolderDumpOk(f);
    FieldsRoundTrip(FolderFields(f), FolderTypes, tail);
  }

  // ================================================================ FileRecord

  datatype FileRecordValue = FileRecordValue(nameHash: int, size: int, offset: int)

  /** The name hash (UInt64), then size and offset (ULong each). */
  const RecordTypes: seq<IntType> := [UInt64, ULong, ULong]

  /** Bit 30 of the size field (mask 0x40000000) inverts the archive's compression
      setting for one file. */
  const CompressionBit: nat := 30

  lemma CompressionMask()
    ensures Pow2(CompressionBit) == 0x4000_0000
  {
    assert Pow2(5) == 32;
    assert Pow2(10) == 32 * Pow2(5);
    assert Pow2(15) == 32 * Pow2(10);
    assert Pow2(20) == 32 * Pow2(15);
    assert Pow2(25) == 32 * Pow2(20);
    assert Pow2(30) == 32 * Pow2(25);
  }

  function RecordFields(v: FileRecordValue): (vals: seq<int>)
    ensures |vals| == |RecordTypes|
  {
    [v.nameHash, v.size, v.offset]
  }

  /** `FileRecord.parse` over the unread bytes: hash, size and offset. */
  function ParseRecordSpec(bs: seq<Byte>): (FileRecordValue, seq<Byte>) {
    var fields := ReadFields(bs, RecordTypes);
    var vals := fields.0;
    (FileRecordValue(vals[0], vals[1], vals[2]), fields.1)
  }

  /** The bytes `FileRecord.dump` writes for the record's (possibly flagged) fields. */
  function DumpRecordSpec(v: FileRecordValue): Result<seq<Byte>> {
    DumpFields(RecordFields(v), RecordTypes)
  }

  predicate RecordDumpable(v: FileRecordValue) {
    InRange(v.nameHash, UInt64) && InRange(v.size, ULong) && InRange(v.offset, ULong)
  }

  /** `apply_compression_flag`: `size | 0x40000000`. For a size whose bit 30 is clear the
      or adds the bit; this holds of Python's two's complement `|` on negative sizes too. */
  function ApplyCompressionFlag(size: int): int {
    if IsSet(size, CompressionBit) then size else size + Pow2(CompressionBit)
  }

  /** Python truthiness of the `compressed` attribute: `None` and `False` are falsy. */
  predicate Truthy(compressed: Option<bool>) {
    compressed == Some(true)
  }

  /** The record as `dump` leaves it: a truthy `compressed` flags the size once the hash
      has been written. */
  function DumpedRecord(v: FileRecordValue, compressed: Option<bool>): FileRecordValue {
    if Truthy(compressed) && InRange(v.nameHash, UInt64)
    then v.(size := ApplyCompressionFlag(v.size))
    else v
  }

  class FileRecord {
    var nameHash: int
    var size: int
    var offset: int
    var compressed: Option<bool>

    /** `FileRecord()`: `compressed` is `None`; the fields the source leaves unset start
        at 0 here. */
    constructor ()
      ensures Value() == FileRecordValue(0, 0, 0) && compressed == None
    {
      nameHash, size, offset := 0, 0, 0;
      compressed := None;
    }

    function Value(): FileRecordValue
      reads this
    {
      FileRecordValue(nameHash, size, offset)
    }

    /** The record as `dump` leaves it when it held `before` with `compressed` at `c`. */
    predicate IsDumped(before: FileRecordValue, c: Option<bool>)
      reads this
    {
      compressed == c && Value() == DumpedRecord(before, c)
    }

    /** The record either still holds `before` or has been dumped since. */
    predicate KeptOrDumped(before: FileRecordValue, c: Option<bool>)
      reads this
    {
      compressed == c && (Value() == before || Value() == DumpedRecord(before, c))
    }

    /** `has_compression_flag`: `size & 0x40000000 != 0`. */
    predicate HasCompressionFlag()
      reads this
    {
      IsSet(size, CompressionBit)
    }

    method Parse(r: Reader)
      modifies this, r
      ensures (Value(), r.Remaining()) == ParseRecordSpec(old(r.Remaining()))
      ensures compressed == old(compressed)
    {
      var vals := ParseFields(r, RecordTypes);
      nameHash := vals[0];
      size := vals[1];
      offset := vals[2];
    }

    /** Writes hash, size and offset; when `compressed` is truthy the size field itself is
        flagged first, so the record keeps the flag after the call. */
    method Dump() returns (data: Result<seq<Byte>>)
      modifies this
      ensures compressed == old(compressed)
      ensures Value() == DumpedRecord(old(Value()), compressed)
      ensures data == DumpRecordSpec(Value())
    {
      var hash := IntegerDump(nameHash, UInt64);
      if hash.Err? {
        return Err(hash.error);
      }
      if compressed == Some(true) {
        size := ApplyCompressionFlag(size);
      }
      var rest := DumpFields([size, offset], [ULong, ULong]);
      if rest.Err? {
        return Err(rest.error);
      }
      data := Ok(hash.value + rest.value);
    }
  }

  /** The flag is set afterwards, and applying it again changes nothing. */
  lemma ApplySetsFlag(size: int)
    ensures IsSet(ApplyCompressionFlag(size), CompressionBit)
    ensures ApplyCompressionFlag(ApplyCompressionFlag(size)) == ApplyCompressionFlag(size)
  {
    if !IsSet(size, CompressionBit) {
      AddBit(size, CompressionBit);
    }
  }

  /** On a non-negative size the operation is `size | 0x40000000`: bit 30 is set and every
      other bit is kept. */
  lemma ApplyIsOr(size: nat)
    ensures ApplyCompressionFlag(size) == Or(size, Pow2(CompressionBit))
    ensures forall k :: IsSet(ApplyCompressionFlag(size), k) == (IsSet(size, k) || k == CompressionBit)
  {
    OrSingleBit(size, CompressionBit);
    forall k | 0 <= k ensures IsSet(Or(size, Pow2(CompressionBit)), k) == (IsSet(size, k) || k == CompressionBit) {
      OrBit(size, Pow2(CompressionBit), k);
      Pow2Bit(CompressionBit, k);
    }
  }

  /** Sizes below 1 GiB never carry the flag. */
  lemma SmallSizeUnflagged(size: int)
    requires 0 <= size < Pow2(CompressionBit)
    ensures !IsSet(size, CompressionBit)
  {
    DivModUnique(size, Pow2(CompressionBit), 0, size);
  }

  /** A falsy `compressed` leaves the record as it is; a truthy one is applied only once
      however often the record is dumped. */
  lemma DumpedRecordOnce(v: FileRecordValue, compressed: Option<bool>)
    ensures !Truthy(compressed) ==> DumpedRecord(v, compressed) == v
    ensures DumpedRecord(DumpedRecord(v, compressed), compressed) == DumpedRecord(v, compressed)
  {
    ApplySetsFlag(v.size);
  }

  /** dump succeeds exactly when every field fits its width, and then writes 16 bytes. */
  lemma RecordDumpOk(v: FileRecordValue)
    ensures DumpRecordSpec(v).Ok? <==> RecordDumpable(v)
    ensures DumpRecordSpec(v).Ok? ==> |DumpRecordSpec(v).value| == 16
  {
    var vals := RecordFields(v);
    if RecordDumpable(v) {
      forall i | 0 <= i < |vals| ensures InRange(vals[i], RecordTypes[i]) { }
    }
    if DumpRecordSpec(v).Ok? {
      assert InRange(vals[0], RecordTypes[0]) && InRange(vals[1], RecordTypes[1]);
      assert InRange(vals[2], RecordTypes[2]);
    }
    assert FieldsSize(RecordTypes[2..]) == 4;
    assert FieldsSize(RecordTypes[1..]) == 8;
  }

  /** parse(dump(v)) gives back hash, size and offset, and stops after 16 bytes. */
  lemma RecordRoundTrip(v: FileRecordValue, tail: seq<Byte>)
    requires RecordDumpable(v)
    ensures DumpRecordSpec(v).Ok?
    ensures ParseRecordSpec(DumpRecordSpec(v).value + tail) == (v, tail)
  {
    RecordDumpOk(v);
    FieldsRoundTrip(RecordFields(v), RecordTypes, tail);
  }

  // ================================================================ FileRecordBlock

  /** `count` file records one after the other (none for a count below 1). */
  function ParseRecordsSpec(bs: seq<Byte>, count: int): (p: (seq<FileRecordValue>, seq<Byte>))
    ensures |p.0| == if count < 0 then 0 else count
    decreases count
  {
    if count <= 0 then ([], bs)
    else
      var first := ParseRecordSpec(bs);
      var others := ParseRecordsSpec(first.1, count - 1);
      ([first.0] + others.0, others.1)
  }

  /** `FileRecordBlock.parse`: the folder name as a BZString, then `count` records. A name
      that does not decode raises before any record is read. */
  function ParseBlockSpec(bs: seq<Byte>, count: int): Step<(string, seq<FileRecordValue>)> {
    var name := ParseBStringSpec(bs);
    if name.result.Err? then Step(Err(name.result.error), name.rest)
    else
      var (records, rest) := ParseRecordsSpec(name.rest, count);
      Step(Ok((name.result.value, records)), rest)
  }

  /** The records' bytes joined in order; the first record that cannot be dumped raises. */
  function DumpRecordsSpec(vs: seq<FileRecordValue>): Result<seq<Byte>> {
    if vs == [] then Ok([])
    else
      var head :- DumpRecordSpec(vs[0]);
      var rest :- DumpRecordsSpec(vs[1..]);
      Ok(head + rest)
  }

  /** `FileRecordBlock.dump`: the name as a BZString, then the records. */
  function DumpBlockSpec(name: string, vs: seq<FileRecordValue>): Result<seq<Byte>>
    requires IsAscii(name)
  {
    var text :- DumpBZString(name);
    var records :- DumpRecordsSpec(vs);
    Ok(text + records)
  }

  /** The current values of a sequence of records. */
  function Values(records: seq<FileRecord>): (vs: seq<FileRecordValue>)
    reads records
    ensures |vs| == |records|
    ensures forall k :: 0 <= k < |records| ==> vs[k] == records[k].Value()
  {
    if records == [] then [] else [records[0].Value()] + Values(records[1..])
  }

  /** `vals` are what `parse` reads one after the other starting from `rems[0]`, and
      `rems[k]` is what is unread before the k-th read (the last one: after all of them). */
  predicate Chain<T(==)>(parse: seq<Byte> -> (T, seq<Byte>), vals: seq<T>, rems: seq<seq<Byte>>) {
    |rems| == |vals| + 1 &&
    forall k {:trigger parse(rems[k])} :: 0 <= k < |vals| ==> parse(rems[k]) == (vals[k], rems[k + 1])
  }

  /** The reads `ParseRecordsSpec` makes, one by one. */
  lemma {:induction false} RecordsChain(bs: seq<Byte>, count: int) returns (vals: seq<FileRecordValue>, rems: seq<seq<Byte>>)
    ensures Chain(ParseRecordSpec, vals, rems) && rems[0] == bs
    ensures (vals, rems[|vals|]) == ParseRecordsSpec(bs, count)
    decreases count
  {
    if count <= 0 {
      vals, rems := [], [bs];
    } else {
      var first := ParseRecordSpec(bs);
      var vs, rs := RecordsChain(first.1, count - 1);
      vals, rems := [first.0] + vs, [bs] + rs;
      forall k | 0 <= k < |vals| ensures ParseRecordSpec(rems[k]) == (vals[k], rems[k + 1]) {
        if k > 0 {
          assert rems[k] == rs[k - 1] && rems[k + 1] == rs[k] && vals[k] == vs[k - 1];
        }
      }
    }
  }

  /** Reads `count` new records one after the other (each with `compressed` still `None`). */
  method ParseRecords(r: Reader, count: int) returns (records: seq<FileRecord>)
    modifies r
    ensures (Values(records), r.Remaining()) == ParseRecordsSpec(old(r.Remaining()), count)
    ensures forall k :: 0 <= k < |records| ==> fresh(records[k]) && records[k].compressed == None
  {
    ghost var vals, rems := RecordsChain(r.Remaining(), count);
    records := ReadRecords(r, count, vals, rems);
  }

  /** The loop of `ParseRecords`, following the chain of reads `vals`/`rems`. */
  method ReadRecords(r: Reader, count: int, ghost vals: seq<FileRecordValue>, ghost rems: seq<seq<Byte>>)
    returns (records: seq<FileRecord>)
    requires Chain(ParseRecordSpec, vals, rems) && r.Remaining() == rems[0]
    requires |vals| == if count < 0 then 0 else count
    modifies r
    ensures Values(records) == vals && r.Remaining() == rems[|vals|]
    ensures forall k :: 0 <= k < |records| ==> fresh(records[k]) && records[k].compressed == None
  {
    records := [];
    var i := 0;
    while i < count
      invariant 0 <= i <= |vals| && |records| == i
      invariant r.Remaining() == rems[i]
      invariant forall k :: 0 <= k < i ==> fresh(records[k]) && records[k].compressed == None
      invariant forall k :: 0 <= k < i ==> records[k].Value() == vals[k]
    {
      var record := NextRecord(r, vals, rems, i);
      ghost var prev := records;
      records := records + [record];
      assert records[i] == record && forall k :: 0 <= k < i ==> records[k] == prev[k];
      i := i + 1;
    }
    SameValues(Values(records), vals);
  }

  /** `FileRecord()` followed by `parse`, as the i-th read of a chain: a new record
      holding the i-th value, and the stream left as the chain says. */
  method NextRecord(r: Reader, ghost vals: seq<FileRecordValue>, ghost rems: seq<seq<Byte>>, ghost i: nat)
    returns (record: FileRecord)
    requires Chain(ParseRecordSpec, vals, rems) && i < |vals| && r.Remaining() == rems[i]
    modifies r
    ensures fresh(record) && record.compressed == None && record.Value() == vals[i]
    ensures r.Remaining() == rems[i + 1]
  {
    assert ParseRecordSpec(rems[i]) == (vals[i], rems[i + 1]);
    record := new FileRecord();
    record.Parse(r);
  }

  /** Sequences that agree at every index are equal. */
  lemma SameValues<T>(a: seq<T>, b: seq<T>)
    requires |a| == |b| && forall k :: 0 <= k < |a| ==> a[k] == b[k]
    ensures a == b
  {
  }

  /** `b"".join(file_record.dump() for file_record in self.file_records)`: the records are
      dumped in order, and the first that fails raises. `dumped` holds the values of the
      records dumped without error. */
  method DumpRecords(records: seq<FileRecord>) returns (data: Result<seq<Byte>>, ghost dumped: seq<FileRecordValue>)
    modifies records
    ensures |dumped| <= |records| && forall k :: 0 <= k < |dumped| ==> dumped[k] == records[k].Value()
    ensures DumpRecordsSpec(dumped).Ok?
    ensures data.Ok? ==> |dumped| == |records| && data == DumpRecordsSpec(dumped)
    ensures data.Err? ==> |dumped| < |records| && data == DumpRecordSpec(records[|dumped|].Value())
    ensures forall k :: 0 <= k < |records| ==>
      records[k].KeptOrDumped(old(records[k].Value()), old(records[k].compressed))
    ensures data.Ok? ==> forall k :: 0 <= k < |records| ==>
      records[k].IsDumped(old(records[k].Value()), old(records[k].compressed))
  {
    var acc: seq<Byte> := [];
    dumped := [];
    for i := 0 to |records|
      invariant |dumped| == i && DumpRecordsSpec(dumped) == Ok(acc)
      invariant forall k :: 0 <= k < |records| ==> records[k].KeptOrDumped(old(records[k].Value()), old(records[k].compressed))
      invariant forall k :: 0 <= k < i ==>
        records[k].IsDumped(old(records[k].Value()), old(records[k].compressed)) && dumped[k] == records[k].Value()
    {
      var record := records[i];
      DumpedRecordOnce(old(record.Value()), record.compressed);
      label Before:
      var part := record.Dump();
      forall k | 0 <= k < |records|
        ensures records[k].KeptOrDumped(old(records[k].Value()), old(records[k].compressed))
      {
        ghost var b, c := old(records[k].Value()), old(records[k].compressed);
        assert old@Before(records[k].KeptOrDumped(b, c));
      }
      forall k | 0 <= k <= i
        ensures records[k].IsDumped(old(records[k].Value()), old(records[k].compressed))
        ensures k < i ==> dumped[k] == records[k].Value()
      {
        ghost var b, c := old(records[k].Value()), old(records[k].compressed);
        if k < i {
          assert old@Before(records[k].IsDumped(b, c) && dumped[k] == records[k].Value());
        } else {
          assert old@Before(records[k].KeptOrDumped(b, c));
        }
      }
      if part.Err? {
        return Err(part.error), dumped;
      }
      DumpRecordsSnoc(dumped, record.Value());
      acc := acc + part.value;
      dumped := dumped + [record.Value()];
    }
    data := Ok(acc);
  }

  class FileRecordBlock {
    var name: string
    var fileRecords: seq<FileRecord>

    /** The source leaves both attributes unset until `parse`; here they start empty. */
    constructor ()
      ensures name == [] && fileRecords == []
    {
      name := [];
      fileRecords := [];
    }

    /** Reads the name, then `count` new records (each with `compressed` still `None`). */
    method Parse(r: Reader, count: int) returns (res: Result<()>)
      modifies this, r
      ensures r.Remaining() == ParseBlockSpec(old(r.Remaining()), count).rest
      ensures res.Ok? <==> ParseBlockSpec(old(r.Remaining()), count).result.Ok?
      ensures res.Ok? ==>
        var block := ParseBlockSpec(old(r.Remaining()), count).result.value;
        name == block.0 && Values(fileRecords) == block.1
        && forall k :: 0 <= k < |fileRecords| ==> fresh(fileRecords[k]) && fileRecords[k].compressed == None
      ensures res.Err? ==>
        res.error == ParseBlockSpec(old(r.Remaining()), count).result.error
        && name == old(name) && fileRecords == old(fileRecords)
    {
      var text := ParseBString(r);
      if text.Err? {
        return Err(text.error);
      }
      var records := ParseRecords(r, count);
      name := text.value;
      fileRecords := records;
      res := Ok(());
    }

    /** Writes the name, then every record in order; each record's `dump` may flag its
        size first. When the name is too long nothing is mutated; when a record fails, the
        records before it have been dumped and the rest are untouched. */
    method Dump() returns (data: Result<seq<Byte>>)
      requires IsAscii(name)
      modifies fileRecords
      ensures data == DumpBlockSpec(name, Values(fileRecords))
      ensures forall k :: 0 <= k < |fileRecords| ==>
        fileRecords[k].KeptOrDumped(old(fileRecords[k].Value()), old(fileRecords[k].compressed))
      ensures data.Ok? ==> forall k :: 0 <= k < |fileRecords| ==>
        fileRecords[k].IsDumped(old(fileRecords[k].Value()), old(fileRecords[k].compressed))
    {
      var text := DumpBZString(name);
      if text.Err? {
        return Err(text.error);
      }
      var records, dumped := DumpRecords(fileRecords);
      DumpRecordsOf(dumped, Values(fileRecords), records);
      if records.Err? {
        return Err(records.error);
      }
      data := Ok(text.value + records.value);
    }
  }

  /** Dumping one more record appends its bytes, or raises its error. */
  lemma {:induction false} DumpRecordsSnoc(vs: seq<FileRecordValue>, v: FileRecordValue)
    requires DumpRecordsSpec(vs).Ok? && DumpRecordSpec(v).Ok?
    ensures DumpRecordsSpec(vs + [v]) == Ok(DumpRecordsSpec(vs).value + DumpRecordSpec(v).value)
    decreases |vs|
  {
    if vs == [] {
      var d := DumpRecordSpec(v).value;
      assert vs + [v] == [v] && [v][0] == v && [v][1..] == [];
      assert DumpRecordsSpec([v]) == Ok(d + []);
      assert d + [] == d == [] + d;
    } else {
      assert (vs + [v])[1..] == vs[1..] + [v];
      DumpRecordsSnoc(vs[1..], v);
      var h := DumpRecordSpec(vs[0]).value;
      assert h + (DumpRecordsSpec(vs[1..]).value + DumpRecordSpec(v).value)
          == (h + DumpRecordsSpec(vs[1..]).value) + DumpRecordSpec(v).value;
    }
  }

  /** What the dump loop leaves behind determines the dump of the whole sequence: either
      every record dumped, or the first that did not raised. */
  lemma DumpRecordsOf(dumped: seq<FileRecordValue>, vs: seq<FileRecordValue>, data: Result<seq<Byte>>)
    requires |dumped| <= |vs| && forall k :: 0 <= k < |dumped| ==> dumped[k] == vs[k]
    requires DumpRecordsSpec(dumped).Ok?
    requires data.Ok? ==> |dumped| == |vs| && data == DumpRecordsSpec(dumped)
    requires data.Err? ==> |dumped| < |vs| && data == DumpRecordSpec(vs[|dumped|])
    ensures data == DumpRecordsSpec(vs)
  {
    if data.Err? {
      DumpRecordsFirstError(dumped, vs);
    } else {
      SameValues(dumped, vs);
    }
  }

  /** When the records before position `|done|` dump and the one there does not, dumping
      the whole sequence raises that record's error. */
  lemma {:induction false} DumpRecordsFirstError(done: seq<FileRecordValue>, vs: seq<FileRecordValue>)
    requires |done| < |vs| && forall k :: 0 <= k < |done| ==> done[k] == vs[k]
    requires DumpRecordsSpec(done).Ok? && DumpRecordSpec(vs[|done|]).Err?
    ensures DumpRecordsSpec(vs) == Err(DumpRecordSpec(vs[|done|]).error)
    decreases |done|
  {
    if done == [] {
      assert vs[0] == vs[|done|];
    } else {
      assert vs[0] == done[0];
      assert vs[1..][|done[1..]|] == vs[|done|];
      assert forall k :: 0 <= k < |done[1..]| ==> done[1..][k] == vs[1..][k] by {
        forall k | 0 <= k < |done[1..]| ensures done[1..][k] == vs[1..][k] {
          assert done[1..][k] == done[k + 1] && vs[1..][k] == vs[k + 1];
        }
      }
      DumpRecordsFirstError(done[1..], vs[1..]);
    }
  }

  /** The records dump exactly when each of them does, into 16 bytes per record. */
  lemma {:induction false} RecordsDumpOk(vs: seq<FileRecordValue>)
    ensures DumpRecordsSpec(vs).Ok? <==> forall k :: 0 <= k < |vs| ==> RecordDumpable(vs[k])
    ensures DumpRecordsSpec(vs).Ok? ==> |DumpRecordsSpec(vs).value| == 16 * |vs|
    decreases |vs|
  {
    if vs != [] {
      RecordDumpOk(vs[0]);
      RecordsDumpOk(vs[1..]);
      assert forall k :: 1 <= k < |vs| ==> vs[1..][k - 1] == vs[k];
    }
  }

  /** Reading back `|vs|` records from their dump gives `vs` and leaves the tail. */
  lemma {:induction false} RecordsRoundTrip(vs: seq<FileRecordValue>, tail: seq<Byte>)
    requires forall k :: 0 <= k < |vs| ==> RecordDumpable(vs[k])
    ensures DumpRecordsSpec(vs).Ok?
    ensures ParseRecordsSpec(DumpRecordsSpec(vs).value + tail, |vs|) == (vs, tail)
    decreases |vs|
  {
    RecordsDumpOk(vs);
    if vs == [] {
      assert DumpRecordsSpec(vs).value + tail == tail;
    } else {
      var head := DumpRecordSpec(vs[0]).value;
      var rest := DumpRecordsSpec(vs[1..]).value;
      RecordsDumpOk(vs[1..]);
      RecordsRoundTrip(vs[1..], tail);
      RecordRoundTrip(vs[0], rest + tail);
      assert DumpRecordsSpec(vs).value == head + rest;
      assert (head + rest) + tail == head + (rest + tail);
      var bs := head + (rest + tail);
      assert ParseRecordSpec(bs) == (vs[0], rest + tail);
      assert ParseRecordsSpec(rest + tail, |vs| - 1) == (vs[1..], tail);
      assert ParseRecordsSpec(bs, |vs|) == ([vs[0]] + vs[1..], tail);
      assert [vs[0]] + vs[1..] == vs;
    }
  }

  /** A block dumps exactly when its name is shorter than 255 characters and every record
      dumps; it then takes the name's length plus 2 bytes, then 16 bytes per record. */
  lemma BlockDumpOk(name: string, vs: seq<FileRecordValue>)
    requires IsAscii(name)
    ensures DumpBlockSpec(name, vs).Ok?
        <==> |name| < 255 && forall k :: 0 <= k < |vs| ==> RecordDumpable(vs[k])
    ensures DumpBlockSpec(name, vs).Ok? ==> |DumpBlockSpec(name, vs).value| == |name| + 2 + 16 * |vs|
  {
    RecordsDumpOk(vs);
  }

  /** parse(dump(block), count) gives back the folder name and the records, for a NUL-free
      name shorter than 255 characters and `count` the number of records. */
  lemma BlockRoundTrip(name: string, vs: seq<FileRecordValue>, tail: seq<Byte>)
    requires IsAscii(name) && NoEdgeNul(name) && |name| < 255
    requires forall k :: 0 <= k < |vs| ==> RecordDumpable(vs[k])
    ensures DumpBlockSpec(name, vs).Ok?
    ensures ParseBlockSpec(DumpBlockSpec(name, vs).value + tail, |vs|) == Step(Ok((name, vs)), tail)
  {
    RecordsRoundTrip(vs, tail);
    var records := DumpRecordsSpec(vs).value;
    BZStringRoundTrip(name, records + tail);
    var text := DumpBZString(name).value;
    assert (text + records) + tail == text + (records + tail);
  }

  // ================================================================ FileNameBlock

  class FileNameBlock {
    var fileNames: seq<string>

    /** The source leaves `file_names` unset until `parse`; here it starts empty. */
    constructor ()
      ensures fileNames == []
    {
      fileNames := [];
    }

    /** Reads `count` non-empty names with the List codec. */
    method Parse(r: Reader, count: int) returns (res: Result<()>)
      modifies this, r
      ensures Step(if res.Ok? then Ok(fileNames) else Err(res.error), r.Remaining())
           == ParseListSpec(old(r.Remaining()), count, [])
      ensures res.Err? ==> fileNames == old(fileNames)
    {
      var names := ParseList(r, count);
      if names.Err? {
        return Err(names.error);
      }
      fileNames := names.value;
      res := Ok(());
    }

    /** The names joined by NUL, with a trailing NUL. */
    method Dump() returns (data: seq<Byte>)
      requires forall i :: 0 <= i < |fileNames| ==> IsAscii(fileNames[i])
      ensures data == DumpList(fileNames)
    {
      data := DumpList(fileNames);
    }
  }
}
