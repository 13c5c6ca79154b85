/** `BSAArchive`: reading the index of an archive, matching the file names to their
    records, deciding which files are compressed, and the byte arithmetic of extracting
    one file. */
module BsaArchive {
  import opened Wrappers
  import opened Bytes
  import opened Streams
  import opened Bits
  import opened BsaDatatypes
  import opened BsaHeader
  import opened BsaRecords
  import opened BsaPayload

  // ================================================================ reading the index

  /** `count` folder records one after the other (none for a count below 1). */
  function ParseFoldersSpec(bs: seq<Byte>, count: int): (p: (seq<FolderRecordValue>, seq<Byte>))
    ensures |p.0| == if count < 0 then 0 else count
    decreases count
  {
    if count <= 0 then ([], bs)
    else
      var first := ParseFolderSpec(bs);
      var others := ParseFoldersSpec(first.1, count - 1);
      ([first.0] + others.0, others.1)
  }

  /** The current values of a sequence of folder records. */
  function FolderValues(folders: seq<FolderRecord>): (vs: seq<FolderRecordValue>)
    reads folders
    ensures |vs| == |folders|
    ensures forall k :: 0 <= k < |folders| ==> vs[k] == folders[k].Value()
  {
    if folders == [] then [] else [folders[0].Value()] + FolderValues(folders[1..])
  }

  /** The reads `ParseFoldersSpec` makes, one by one. */
  lemma {:induction false} FoldersChain(bs: seq<Byte>, count: int) returns (vals: seq<FolderRecordValue>, rems: seq<seq<Byte>>)
    ensures Chain(ParseFolderSpec, vals, rems) && rems[0] == bs
    ensures (vals, rems[|vals|]) == ParseFoldersSpec(bs, count)
    decreases count
  {
    if count <= 0 {
      vals, rems := [], [bs];
    } else {
      var first := ParseFolderSpec(bs);
      var vs, rs := FoldersChain(first.1, count - 1);
      vals, rems := [first.0] + vs, [bs] + rs;
      forall k | 0 <= k < |vals| ensures ParseFolderSpec(rems[k]) == (vals[k], rems[k + 1]) {
        if k > 0 {
          assert rems[k] == rs[k - 1] && rems[k + 1] == rs[k] && vals[k] == vs[k - 1];
        }
      }
    }
  }

  /** `[FolderRecord().parse(stream) for i in range(folder_count)]`. */
  method ParseFolders(r: Reader, count: int) returns (folders: seq<FolderRecord>)
    modifies r
    ensures (FolderValues(folders), r.Remaining()) == ParseFoldersSpec(old(r.Remaining()), count)
    ensures forall k :: 0 <= k < |folders| ==> fresh(folders[k])
  {
    ghost var vals, rems := FoldersChain(r.Remaining(), count);
    folders := ReadFolders(r, count, vals, rems);
  }

  /** The loop of `ParseFolders`, following the chain of reads `vals`/`rems`. */
  method ReadFolders(r: Reader, count: int, ghost vals: seq<FolderRecordValue>, ghost rems: seq<seq<Byte>>)
    returns (folders: seq<FolderRecord>)
    requires Chain(ParseFolderSpec, vals, rems) && r.Remaining() == rems[0]
    requires |vals| == if count < 0 then 0 else count
    modifies r
    ensures FolderValues(folders) == vals && r.Remaining() == rems[|vals|]
    ensures forall k :: 0 <= k < |folders| ==> fresh(folders[k])
  {
    folders := [];
    var i := 0;
    while i < count
      invariant 0 <= i <= |vals| && |folders| == i
      invariant r.Remaining() == rems[i]
      invariant forall k :: 0 <= k < i ==> fresh(folders[k])
      invariant forall k :: 0 <= k < i ==> folders[k].Value() == vals[k]
    {
      var folder := NextFolder(r, vals, rems, i);
      ghost var prev := folders;
      folders := folders + [folder];
      assert folders[i] == folder && forall k :: 0 <= k < i ==> folders[k] == prev[k];
      i := i + 1;
    }
    SameValues(FolderValues(folders), vals);
  }

  /** `FolderRecord().parse(stream)` as the i-th read of a chain: a new record holding
      the i-th value, and the stream left as the chain says. */
  method NextFolder(r: Reader, ghost vals: seq<FolderRecordValue>, ghost rems: seq<seq<Byte>>, ghost i: nat)
    returns (folder: FolderRecord)
    requires Chain(ParseFolderSpec, vals, rems) && i < |vals| && r.Remaining() == rems[i]
    modifies r
    ensures fresh(folder) && folder.Value() == vals[i]
    ensures r.Remaining() == rems[i + 1]
  {
    assert ParseFolderSpec(rems[i]) == (vals[i], rems[i + 1]);
    folder := new FolderRecord();
    folder.Parse(r);
  }

  /** The record counts of the folders, in order. */
  function Counts(folders: seq<FolderRecordValue>): (cs: seq<int>)
    ensures |cs| == |folders| && forall k :: 0 <= k < |folders| ==> cs[k] == folders[k].count
  {
    seq(|folders|, k requires 0 <= k < |folders| => folders[k].count)
  }

  /** One file-record block per count, each as `FileRecordBlock.parse` reads it; the first
      block that fails stops the reading. */
  function ParseBlocksSpec(bs: seq<Byte>, counts: seq<int>): (s: Step<seq<(string, seq<FileRecordValue>)>>)
    ensures s.result.Ok? ==> |s.result.value| == |counts|
    decreases |counts|
  {
    if counts == [] then Step(Ok([]), bs)
    else
      var first := ParseBlockSpec(bs, counts[0]);
      if first.result.Err? then Step(Err(first.result.error), first.rest)
      else
        var others := ParseBlocksSpec(first.rest, counts[1..]);
        if others.result.Err? then others
        else Step(Ok([first.result.value] + others.result.value), others.rest)
  }

  /** The name and record values of a block. */
  function BlockValue(b: FileRecordBlock): (string, seq<FileRecordValue>)
    reads b, b.fileRecords
  {
    (b.name, Values(b.fileRecords))
  }

  /** The blocks and all their records. */
  function Objects(blocks: seq<FileRecordBlock>): (objs: set<object>)
    reads blocks
  {
    if blocks == [] then {}
    else {blocks[0] as object} + (set x: object | x in blocks[0].fileRecords) + Objects(blocks[1..])
  }

  /** The values of the blocks. */
  function Snapshot(blocks: seq<FileRecordBlock>): (vs: seq<(string, seq<FileRecordValue>)>)
    reads blocks, Objects(blocks)
    ensures |vs| == |blocks|
    ensures forall k :: 0 <= k < |blocks| ==> vs[k] == BlockValue(blocks[k])
  {
    if blocks == [] then [] else [BlockValue(blocks[0])] + Snapshot(blocks[1..])
  }

  /** `FileRecordBlock().parse(stream, count)`: a new block, read from the stream. */
  method NewBlock(r: Reader, count: int) returns (block: FileRecordBlock, ok: Result<()>)
    modifies r
    ensures fresh(Objects([block]))
    ensures ParseBlockSpec(old(r.Remaining()), count)
         == Step(if ok.Ok? then Ok(BlockValue(block)) else Err(ok.error), r.Remaining())
  {
    block := new FileRecordBlock();
    ok := block.Parse(r, count);
    assert fresh(Objects([block])) by {
      FreshBlock(block);
    }
  }

  /** A block allocated together with its records is new with all of its records. */
  twostate lemma FreshBlock(new block: FileRecordBlock)
    requires fresh(block) && forall k :: 0 <= k < |block.fileRecords| ==> fresh(block.fileRecords[k])
    ensures fresh(Objects([block]))
  {
    assert [block][1..] == [];
  }

  /** `[FileRecordBlock().parse(stream, folders[i].count) for i in range(folder_count)]`:
      one new block per count, read in order; the first that fails raises. */
  method ParseBlocks(r: Reader, counts: seq<int>) returns (res: Result<seq<FileRecordBlock>>)
    modifies r
    ensures res.Ok? ==> fresh(Objects(res.value))
    ensures ParseBlocksSpec(old(r.Remaining()), counts)
         == Step(if res.Ok? then Ok(Snapshot(res.value)) else Err(res.error), r.Remaining())
    decreases |counts|
  {
    if counts == [] {
      return Ok([]);
    }
    ghost var start := r.Remaining();
    var block, ok := NewBlock(r, counts[0]);
    if ok.Err? {
      return Err(ok.error);
    }
    ghost var value := BlockValue(block);
    var others := ParseBlocks(r, counts[1..]);
    if others.Err? {
      return Err(others.error);
    }
    res := Ok([block] + others.value);
    assert fresh(Objects(res.value)) by {
      FreshCons(block, others.value);
    }
    assert Snapshot(res.value) == [value] + Snapshot(others.value) by {
      assert res.value[1..] == others.value;
    }
    BlocksCons(start, counts, value, Snapshot(others.value), r.Remaining());
  }

  /** A block read successfully, then the other blocks from what it left. */
  lemma BlocksCons(bs: seq<Byte>, counts: seq<int>, value: (string, seq<FileRecordValue>),
                   values: seq<(string, seq<FileRecordValue>)>, rest: seq<Byte>)
    requires counts != [] && ParseBlockSpec(bs, counts[0]).result == Ok(value)
    requires ParseBlocksSpec(ParseBlockSpec(bs, counts[0]).rest, counts[1..]) == Step(Ok(values), rest)
    ensures ParseBlocksSpec(bs, counts) == Step(Ok([value] + values), rest)
  {
  }

  /** New blocks put in front of new blocks are new, with all their records. */
  twostate lemma FreshCons(new block: FileRecordBlock, new blocks: seq<FileRecordBlock>)
    requires fresh(Objects([block])) && fresh(Objects(blocks))
    ensures fresh(Objects([block] + blocks))
  {
    assert ([block] + blocks)[1..] == blocks && [block][1..] == [];
  }

  /** The values `BSAArchive.parse` reads before it matches names: the header, the folder
      records, one block per folder and the file names. */
  datatype IndexValue = IndexValue(
    header: HeaderValue,
    folders: seq<FolderRecordValue>,
    blocks: seq<(string, seq<FileRecordValue>)>,
    fileNames: seq<string>)

  /** After the folder records: a block per count, then `fileCount` names. */
  function ParseTailSpec(bs: seq<Byte>, counts: seq<int>, fileCount: int)
    : Step<(seq<(string, seq<FileRecordValue>)>, seq<string>)>
  {
    var blocks := ParseBlocksSpec(bs, counts);
    if blocks.result.Err? then Step(Err(blocks.result.error), blocks.rest)
    else
      var names := ParseListSpec(blocks.rest, fileCount, []);
      if names.result.Err? then Step(Err(names.result.error), names.rest)
      else Step(Ok((blocks.result.value, names.result.value)), names.rest)
  }

  /** After the header: `folderCount` folder records, then a block per folder sized by that
      folder's count and `fileCount` names. */
  function ParseBodySpec(bs: seq<Byte>, folderCount: int, fileCount: int)
    : Step<(seq<FolderRecordValue>, seq<(string, seq<FileRecordValue>)>, seq<string>)>
  {
    var folders := ParseFoldersSpec(bs, folderCount);
    var tail := ParseTailSpec(folders.1, Counts(folders.0), fileCount);
    if tail.result.Err? then Step(Err(tail.result.error), tail.rest)
    else Step(Ok((folders.0, tail.result.value.0, tail.result.value.1)), tail.rest)
  }

  /** The header, `folder_count` folder records, a block per folder sized by that folder's
      count, then `file_count` names. */
  function ParseIndexSpec(bs: seq<Byte>): Step<IndexValue> {
    var header := ParseHeaderSpec(bs);
    if header.result.Err? then Step(Err(header.result.error), header.rest)
    else
      var h := header.result.value;
      var body := ParseBodySpec(header.rest, h.folderCount, h.fileCount);
      if body.result.Err? then Step(Err(body.result.error), body.rest)
      else
        var parts := body.result.value;
        Step(Ok(IndexValue(h, parts.0, parts.1, parts.2)), body.rest)
  }

  // ================================================================ matching names

  /** `s.replace("\\", "/")`. */
  function Slashes(s: string): (t: string)
    ensures |t| == |s|
    ensures forall k :: 0 <= k < |s| ==> t[k] == if s[k] == '\\' then '/' else s[k]
    ensures forall k :: 0 <= k < |t| ==> t[k] != '\\'
  {
    seq(|s|, k requires 0 <= k < |s| => if s[k] == '\\' then '/' else s[k])
  }

  /** The key of a file: `str(Path(folder) / name)` with every `\` turned into `/`. An
      empty folder name is the archive root. */
  function FileKey(folder: string, name: string): (key: string)
    ensures forall k :: 0 <= k < |key| ==> key[k] != '\\'
  {
    if folder == [] then Slashes(name) else Slashes(folder) + "/" + Slashes(name)
  }

  /** The items of one block, each with the block's name. */
  function Tag<T>(name: string, items: seq<T>): (ps: seq<(string, T)>)
    ensures |ps| == |items|
    ensures forall k :: 0 <= k < |items| ==> ps[k] == (name, items[k])
  {
    seq(|items|, k requires 0 <= k < |items| => (name, items[k]))
  }

  /** Every item of the blocks with its block's name, blocks in order and items in order:
      the order in which `match_names` visits the records. */
  function Flatten<T>(blocks: seq<(string, seq<T>)>): (ps: seq<(string, T)>) {
    if blocks == [] then []
    else
      var last := blocks[|blocks| - 1];
      Flatten(blocks[..|blocks| - 1]) + Tag(last.0, last.1)
  }

  /** The name and the record objects of each block. */
  function Shapes(blocks: seq<FileRecordBlock>): (ss: seq<(string, seq<FileRecord>)>)
    reads blocks
    ensures |ss| == |blocks|
    ensures forall k :: 0 <= k < |blocks| ==> ss[k] == (blocks[k].name, blocks[k].fileRecords)
  {
    seq(|blocks|, k requires 0 <= k < |blocks| reads blocks => (blocks[k].name, blocks[k].fileRecords))
  }

  /** The key `match_names` gives the i-th record: its folder and the i-th name. */
  function Keys<T>(pairs: seq<(string, T)>, names: seq<string>): (keys: seq<string>)
    requires |pairs| <= |names|
    ensures |keys| == |pairs|
    ensures forall i :: 0 <= i < |pairs| ==> keys[i] == FileKey(pairs[i].0, names[i])
  {
    seq(|pairs|, i requires 0 <= i < |pairs| => FileKey(pairs[i].0, names[i]))
  }

  /** The last position of `key`, or -1. */
  function LastIndex(keys: seq<string>, key: string): (i: int)
    ensures -1 <= i < |keys|
    ensures i >= 0 ==> keys[i] == key && forall j :: i < j < |keys| ==> keys[j] != key
    ensures i < 0 ==> forall j :: 0 <= j < |keys| ==> keys[j] != key
  {
    if keys == [] then -1
    else if keys[|keys| - 1] == key then |keys| - 1
    else LastIndex(keys[..|keys| - 1], key)
  }

  /** The dict `match_names` fills: the i-th item under the key made of its folder and the
      i-th name, a later item replacing an earlier one with the same key. */
  function Matched<T>(pairs: seq<(string, T)>, names: seq<string>): map<string, T>
    requires |pairs| <= |names|
  {
    if pairs == [] then map[]
    else
      var n := |pairs| - 1;
      Matched(pairs[..n], names)[FileKey(pairs[n].0, names[n]) := pairs[n].1]
  }

  /** `match_names`: an `IndexError` when there are more records than names. */
  function MatchSpec<T>(pairs: seq<(string, T)>, names: seq<string>): Result<map<string, T>> {
    if |pairs| > |names| then Err(IndexErr) else Ok(Matched(pairs, names))
  }

  /** A key is in the dict exactly when some item has it, and the dict holds the last
      item with that key. */
  lemma {:induction false} MatchedLast<T>(pairs: seq<(string, T)>, names: seq<string>, key: string)
    requires |pairs| <= |names|
    ensures var i := LastIndex(Keys(pairs, names), key);
      (key in Matched(pairs, names) <==> i >= 0)
      && (i >= 0 ==> Matched(pairs, names)[key] == pairs[i].1)
    decreases |pairs|
  {
    if pairs != [] {
      var n := |pairs| - 1;
      MatchedLast(pairs[..n], names, key);
      assert Keys(pairs, names)[..n] == Keys(pairs[..n], names);
    }
  }

  /** Every value of the dict is the item of some pair. */
  lemma MatchedValues<T>(pairs: seq<(string, T)>, names: seq<string>, key: string)
    requires |pairs| <= |names| && key in Matched(pairs, names)
    ensures exists i :: 0 <= i < |pairs| && pairs[i].1 == Matched(pairs, names)[key]
  {
    MatchedLast(pairs, names, key);
    var i := LastIndex(Keys(pairs, names), key);
    assert pairs[i].1 == Matched(pairs, names)[key];
  }

  /** The blocks before `j` hold no more items than all of them. */
  lemma {:induction false} FlattenPrefix<T>(blocks: seq<(string, seq<T>)>, j: nat)
    requires j <= |blocks|
    ensures |Flatten(blocks[..j])| <= |Flatten(blocks)|
    decreases |blocks| - j
  {
    if j < |blocks| {
      FlattenPrefix(blocks, j + 1);
      assert blocks[..j + 1][..j] == blocks[..j];
    } else {
      assert blocks[..j] == blocks;
    }
  }

  /** One more pair adds its key to the dict, replacing what was there. */
  lemma MatchedSnoc<T>(pairs: seq<(string, T)>, p: (string, T), names: seq<string>)
    requires |pairs| < |names|
    ensures Matched(pairs + [p], names) == Matched(pairs, names)[FileKey(p.0, names[|pairs|]) := p.1]
  {
    assert (pairs + [p])[..|pairs|] == pairs;
  }

  /** Tagging one more item of a block appends it to the pairs. */
  lemma TagSnoc<T>(done: seq<(string, T)>, name: string, items: seq<T>, n: nat)
    requires n < |items|
    ensures done + Tag(name, items[..n + 1]) == (done + Tag(name, items[..n])) + [(name, items[n])]
  {
    var a, b := Tag(name, items[..n + 1]), Tag(name, items[..n]);
    assert a == b + [(name, items[n])] by {
      assert |a| == |b| + 1;
      forall k | 0 <= k < |a|
        ensures a[k] == (b + [(name, items[n])])[k]
      {
      }
    }
  }

  /** The dict after one more item of the block being visited. */
  lemma MatchedStep<T>(done: seq<(string, T)>, name: string, items: seq<T>, n: nat, names: seq<string>)
    requires n < |items| && |done| + n < |names|
    ensures Matched(done + Tag(name, items[..n + 1]), names)
         == Matched(done + Tag(name, items[..n]), names)[FileKey(name, names[|done| + n]) := items[n]]
  {
    var pairs := done + Tag(name, items[..n]);
    var p := (name, items[n]);
    calc {
      Matched(done + Tag(name, items[..n + 1]), names);
      { TagSnoc(done, name, items, n); }
      Matched(pairs + [p], names);
      { MatchedSnoc(pairs, p, names); }
      Matched(pairs, names)[FileKey(name, names[|pairs|]) := items[n]];
      { assert |pairs| == |done| + n; }
      Matched(pairs, names)[FileKey(name, names[|done| + n]) := items[n]];
    }
  }

  /** The block just visited completes the items of the blocks before the next one. */
  lemma FlattenBlock<T>(blocks: seq<(string, seq<T>)>, i: nat)
    requires i < |blocks|
    ensures Flatten(blocks[..i + 1]) == Flatten(blocks[..i]) + Tag(blocks[i].0, blocks[i].1)
  {
    assert blocks[..i + 1][..i] == blocks[..i];
  }

  /** The inner loop of `match_names` over the records of one block, whose name is
      `name`: the records get the next names in order, or `IndexError` when the names run
      out. `done` are the pairs matched before, `result` their dict. */
  method MatchBlock(name: string, records: seq<FileRecord>, names: seq<string>, ghost done: seq<(string, FileRecord)>,
                    result: map<string, FileRecord>, index: nat)
    returns (res: Result<map<string, FileRecord>>, next: nat)
    requires index == |done| <= |names| && result == Matched(done, names)
    ensures res.Ok? <==> |done| + |records| <= |names|
    ensures res.Err? ==> res.error == IndexErr
    ensures res.Ok? ==> next == |done| + |records| && res.value == Matched(done + Tag(name, records), names)
  {
    var matched := result;
    next := index;
    assert done + Tag(name, records[..0]) == done;
    for ri := 0 to |records|
      invariant next == |done| + ri <= |names|
      invariant matched == Matched(done + Tag(name, records[..ri]), names)
    {
      if next >= |names| {
        return Err(IndexErr), next;
      }
      var fileName := names[next];
      assert matched[FileKey(name, fileName) := records[ri]] == Matched(done + Tag(name, records[..ri + 1]), names) by {
        MatchedStep(done, name, records, ri, names);
      }
      matched := matched[FileKey(name, fileName) := records[ri]];
      next := next + 1;
    }
    assert records[..|records|] == records;
    res := Ok(matched);
  }

  /** `match_names`: walks the blocks in order and their records in order, pairing the
      i-th record with the i-th file name. */
  method MatchNames(blocks: seq<FileRecordBlock>, names: seq<string>) returns (res: Result<map<string, FileRecord>>)
    ensures res == MatchSpec(Flatten(Shapes(blocks)), names)
  {
    ghost var shapes := Shapes(blocks);
    var result: map<string, FileRecord> := map[];
    var index := 0;
    for i := 0 to |blocks|
      invariant index == |Flatten(shapes[..i])| <= |names|
      invariant result == Matched(Flatten(shapes[..i]), names)
    {
      var block := blocks[i];
      var matched;
      matched, index := MatchBlock(block.name, block.fileRecords, names, Flatten(shapes[..i]), result, index);
      FlattenBlock(shapes, i);
      if matched.Err? {
        FlattenPrefix(shapes, i + 1);
        return Err(IndexErr);
      }
      result := matched.value;
    }
    assert shapes[..|blocks|] == shapes;
    res := Ok(result);
  }

  // ================================================================ compression

  /** A file is compressed when the archive says so, unless bit 30 of its size says the
      opposite. */
  function EffectiveCompression(size: int, compressedArchive: bool): (c: bool)
    ensures c == (IsSet(size, CompressionBit) != compressedArchive)
  {
    if IsSet(size, CompressionBit) then !compressedArchive else compressedArchive
  }

  /** `process_compression_flags`: every matched record gets its effective `compressed`.
      The archive flag is looked up for each record, so a missing flag raises only when
      there is a record, and then before any record is changed. */
  method ProcessCompressionFlags(files: map<string, FileRecord>, archiveFlags: map<nat, bool>)
    returns (res: Result<()>)
    modifies files.Values
    ensures res.Err? <==> files != map[] && CompressedArchive !in archiveFlags
    ensures res.Err? ==>
      res.error == KeyErr && forall rec :: rec in files.Values ==> rec.compressed == old(rec.compressed)
    ensures forall rec :: rec in files.Values ==> rec.Value() == old(rec.Value())
    ensures res.Ok? ==> forall rec :: rec in files.Values ==>
      rec.compressed == Some(EffectiveCompression(rec.size, archiveFlags[CompressedArchive]))
  {
    var todo := files.Values;
    while todo != {}
      invariant todo <= files.Values
      invariant CompressedArchive !in archiveFlags ==> todo == files.Values
      invariant forall rec :: rec in files.Values ==> rec.Value() == old(rec.Value())
      invariant forall rec :: rec in todo ==> rec.compressed == old(rec.compressed)
      invariant forall rec :: rec in files.Values && rec !in todo ==>
        CompressedArchive in archiveFlags
        && rec.compressed == Some(EffectiveCompression(rec.size, archiveFlags[CompressedArchive]))
      decreases todo
    {
      var rec :| rec in todo;
      var hasCompressionFlag := rec.HasCompressionFlag();
      if CompressedArchive !in archiveFlags {
        assert files.Values != {};
        return Err(KeyErr);
      }
      var compressedArchive := archiveFlags[CompressedArchive];
      if hasCompressionFlag {
        rec.compressed := Some(!compressedArchive);
      } else {
        rec.compressed := Some(compressedArchive);
      }
      todo := todo - {rec};
    }
    if files != map[] {
      var key :| key in files;
      assert files[key] in files.Values;
    }
    res := Ok(());
  }

  // ================================================================ the parsed archive

  /** Each record's value, with its folder name. */
  function PairValues(pairs: seq<(string, FileRecord)>): (vs: seq<(string, FileRecordValue)>)
    reads set p | p in pairs :: p.1
    ensures |vs| == |pairs|
    ensures forall i :: 0 <= i < |pairs| ==> vs[i] == (pairs[i].0, pairs[i].1.Value())
  {
    if pairs == [] then [] else [(pairs[0].0, pairs[0].1.Value())] + PairValues(pairs[1..])
  }

  /** The values of two runs of pairs, one after the other. */
  lemma PairValuesAppend(a: seq<(string, FileRecord)>, b: seq<(string, FileRecord)>)
    ensures PairValues(a + b) == PairValues(a) + PairValues(b)
  {
  }

  /** The values of one block's pairs. */
  lemma PairValuesTag(name: string, records: seq<FileRecord>)
    ensures PairValues(Tag(name, records)) == Tag(name, Values(records))
  {
  }

  /** The values of a prefix of the blocks are a prefix of their values. */
  lemma SnapshotPrefix(blocks: seq<FileRecordBlock>, n: nat)
    requires n <= |blocks|
    ensures Snapshot(blocks)[..n] == Snapshot(blocks[..n])
  {
    var a, b := Snapshot(blocks)[..n], Snapshot(blocks[..n]);
    forall k | 0 <= k < n
      ensures a[k] == b[k]
    {
      assert blocks[..n][k] == blocks[k];
    }
  }

  /** The shapes of a prefix of the blocks are a prefix of their shapes. */
  lemma ShapesPrefix(blocks: seq<FileRecordBlock>, n: nat)
    requires n <= |blocks|
    ensures Shapes(blocks)[..n] == Shapes(blocks[..n])
  {
  }

  /** Flattening the block values gives the values of the flattened record objects. */
  lemma {:induction false} FlattenValues(blocks: seq<FileRecordBlock>)
    ensures Flatten(Snapshot(blocks)) == PairValues(Flatten(Shapes(blocks)))
    decreases |blocks|
  {
    if blocks != [] {
      var n := |blocks| - 1;
      var name, records := blocks[n].name, blocks[n].fileRecords;
      FlattenValues(blocks[..n]);
      SnapshotPrefix(blocks, n);
      ShapesPrefix(blocks, n);
      var done := Flatten(Shapes(blocks[..n]));
      calc {
        Flatten(Snapshot(blocks));
        Flatten(Snapshot(blocks)[..n]) + Tag(name, Values(records));
        Flatten(Snapshot(blocks[..n])) + Tag(name, Values(records));
        { PairValuesTag(name, records); }
        PairValues(done) + PairValues(Tag(name, records));
        { PairValuesAppend(done, Tag(name, records)); }
        PairValues(done + Tag(name, records));
        PairValues(Flatten(Shapes(blocks)[..n]) + Tag(name, records));
        PairValues(Flatten(Shapes(blocks)));
      }
    }
  }

  /** Matching the values gives, under every key, the value of the matched object. */
  lemma MatchedPairValues(pairs: seq<(string, FileRecord)>, names: seq<string>, key: string)
    requires |pairs| <= |names|
    ensures key in Matched(PairValues(pairs), names) <==> key in Matched(pairs, names)
    ensures key in Matched(pairs, names) ==>
      Matched(PairValues(pairs), names)[key] == Matched(pairs, names)[key].Value()
  {
    assert Keys(PairValues(pairs), names) == Keys(pairs, names);
    MatchedLast(pairs, names, key);
    MatchedLast(PairValues(pairs), names, key);
  }

  /** Every block and every record of every block is among the blocks' objects. */
  lemma {:induction false} ObjectsHold(blocks: seq<FileRecordBlock>)
    ensures forall k :: 0 <= k < |blocks| ==> blocks[k] in Objects(blocks)
    ensures forall k, j :: 0 <= k < |blocks| && 0 <= j < |blocks[k].fileRecords| ==>
      blocks[k].fileRecords[j] in Objects(blocks)
    decreases |blocks|
  {
    if blocks != [] {
      ObjectsHold(blocks[1..]);
      forall k, j | 0 <= k < |blocks| && 0 <= j < |blocks[k].fileRecords|
        ensures blocks[k].fileRecords[j] in Objects(blocks)
      {
        if k > 0 {
          assert blocks[k] == blocks[1..][k - 1];
        }
      }
      forall k | 0 < k < |blocks|
        ensures blocks[k] in Objects(blocks)
      {
        assert blocks[k] == blocks[1..][k - 1];
      }
    }
  }

  /** Every flattened item comes from some block. */
  lemma {:induction false} FlattenFrom<T>(blocks: seq<(string, seq<T>)>, i: nat)
    requires i < |Flatten(blocks)|
    ensures exists k, j :: 0 <= k < |blocks| && 0 <= j < |blocks[k].1| && Flatten(blocks)[i] == (blocks[k].0, blocks[k].1[j])
    decreases |blocks|
  {
    var n := |blocks| - 1;
    var done := Flatten(blocks[..n]);
    if i < |done| {
      FlattenFrom(blocks[..n], i);
      var k, j :| 0 <= k < n && 0 <= j < |blocks[..n][k].1| && done[i] == (blocks[..n][k].0, blocks[..n][k].1[j]);
      assert blocks[..n][k] == blocks[k];
    } else {
      assert Flatten(blocks)[i] == (blocks[n].0, blocks[n].1[i - |done|]);
    }
  }

  /** The matched records are among the blocks' objects. */
  lemma MatchedObjects(blocks: seq<FileRecordBlock>, names: seq<string>)
    requires |Flatten(Shapes(blocks))| <= |names|
    ensures Matched(Flatten(Shapes(blocks)), names).Values <= Objects(blocks)
  {
    var pairs := Flatten(Shapes(blocks));
    ObjectsHold(blocks);
    forall rec | rec in Matched(pairs, names).Values
      ensures rec in Objects(blocks)
    {
      var key :| key in Matched(pairs, names) && Matched(pairs, names)[key] == rec;
      MatchedValues(pairs, names, key);
      var i :| 0 <= i < |pairs| && pairs[i].1 == rec;
      FlattenFrom(Shapes(blocks), i);
    }
  }

  /** A file of a parsed archive: its record and its effective compression. */
  datatype FileEntry = FileEntry(record: FileRecordValue, compressed: Option<bool>)

  /** What `match_names` and then `process_compression_flags` make of an index. */
  function FilesSpec(index: IndexValue): Result<map<string, FileEntry>> {
    var pairs := Flatten(index.blocks);
    if |pairs| > |index.fileNames| then Err(IndexErr)
    else
      var m := Matched(pairs, index.fileNames);
      var flags := index.header.archiveFlags;
      if m == map[] then Ok(map[])
      else if CompressedArchive !in flags then Err(KeyErr)
      else Ok(map key | key in m :: FileEntry(m[key], Some(EffectiveCompression(m[key].size, flags[CompressedArchive]))))
  }

  /** The archive `parse` makes of an index: the index and its files. */
  function ArchiveSpec(index: IndexValue): Result<(IndexValue, map<string, FileEntry>)> {
    match FilesSpec(index)
    case Err(e) => Err(e)
    case Ok(files) => Ok((index, files))
  }

  /** `BSAArchive.parse`: the index read from the archive's bytes, then its files. */
  function ParseArchiveSpec(data: seq<Byte>): Result<(IndexValue, map<string, FileEntry>)> {
    var index := ParseIndexSpec(data).result;
    if index.Err? then Err(index.error) else ArchiveSpec(index.value)
  }

  /** The values of the blocks stay the same when the blocks do and every record keeps its
      value. */
  twostate lemma SnapshotKept(blocks: seq<FileRecordBlock>)
    requires forall k :: 0 <= k < |blocks| ==> unchanged(blocks[k])
    requires forall k, j :: 0 <= k < |blocks| && 0 <= j < |blocks[k].fileRecords| ==>
      old(blocks[k].fileRecords[j].Value()) == blocks[k].fileRecords[j].Value()
    ensures old(Snapshot(blocks)) == Snapshot(blocks)
  {
    forall k | 0 <= k < |blocks|
      ensures old(BlockValue(blocks[k])) == BlockValue(blocks[k])
    {
      SameValues(old(Values(blocks[k].fileRecords)), Values(blocks[k].fileRecords));
    }
  }

  /** `Header().parse(stream)`: a new header, read from the stream. */
  method NewHeader(r: Reader, classFlags: FlagStore) returns (h: Header, ok: Result<()>, ghost hv: HeaderValue)
    modifies r
    ensures fresh(h) && (ok.Ok? ==> fresh(h.archiveFlags) && h.Value() == hv)
    ensures ParseHeaderSpec(old(r.Remaining())) == Step(if ok.Ok? then Ok(hv) else Err(ok.error), r.Remaining())
  {
    h := new Header(classFlags);
    ok := h.Parse(r);
    hv := h.Value();
  }

  /** `FileNameBlock().parse(stream, count)`: a new name block, read from the stream; the
      blocks already read keep their values. */
  method NewNameBlock(r: Reader, count: int, ghost blocks: seq<FileRecordBlock>)
    returns (nameBlock: FileNameBlock, ok: Result<()>)
    requires r !in Objects(blocks)
    modifies r
    ensures fresh(nameBlock)
    ensures Step(if ok.Ok? then Ok(nameBlock.fileNames) else Err(ok.error), r.Remaining())
         == ParseListSpec(old(r.Remaining()), count, [])
    ensures Snapshot(blocks) == old(Snapshot(blocks))
  {
    nameBlock := new FileNameBlock();
    ok := nameBlock.Parse(r, count);
  }

  /** The blocks and the name block of `parse`, read in order. */
  method ReadTail(r: Reader, counts: seq<int>, fileCount: int)
    returns (blocks: seq<FileRecordBlock>, nameBlock: FileNameBlock, res: Result<()>)
    modifies r
    ensures res.Ok? ==> fresh(Objects(blocks)) && fresh(nameBlock)
    ensures ParseTailSpec(old(r.Remaining()), counts, fileCount)
         == Step(if res.Ok? then Ok((Snapshot(blocks), nameBlock.fileNames)) else Err(res.error), r.Remaining())
  {
    var read := ParseBlocks(r, counts);
    if read.Err? {
      nameBlock := new FileNameBlock();
      return [], nameBlock, Err(read.error);
    }
    blocks := read.value;
    nameBlock, res := NewNameBlock(r, fileCount, blocks);
  }

  /** The folder records, the blocks and the name block of `parse`, read in order. */
  method ReadBody(r: Reader, folderCount: int, fileCount: int)
    returns (folders: seq<FolderRecord>, blocks: seq<FileRecordBlock>, nameBlock: FileNameBlock, res: Result<()>)
    modifies r
    ensures res.Ok? ==> fresh(Objects(blocks)) && fresh(nameBlock)
    ensures forall k :: 0 <= k < |folders| ==> fresh(folders[k])
    ensures ParseBodySpec(old(r.Remaining()), folderCount, fileCount)
         == Step(if res.Ok? then Ok((FolderValues(folders), Snapshot(blocks), nameBlock.fileNames)) else Err(res.error),
                 r.Remaining())
  {
    folders := ParseFolders(r, folderCount);
    ghost var values := FolderValues(folders);
    blocks, nameBlock, res := ReadTail(r, Counts(FolderValues(folders)), fileCount);
    assert FolderValues(folders) == values;
  }

  /** The objects the parsed parts are made of. */
  function Parts(header: Header, folders: seq<FolderRecord>, blocks: seq<FileRecordBlock>, nameBlock: FileNameBlock)
    : (objs: set<object>)
    reads header, blocks
  {
    {header as object, header.archiveFlags, nameBlock} + (set f: object | f in folders) + Objects(blocks)
  }

  /** The index as the parsed parts hold it. */
  function IndexOf(header: Header, folders: seq<FolderRecord>, blocks: seq<FileRecordBlock>, nameBlock: FileNameBlock)
    : IndexValue
    reads header, blocks, Parts(header, folders, blocks, nameBlock)
  {
    IndexValue(header.Value(), FolderValues(folders), Snapshot(blocks), nameBlock.fileNames)
  }

  /** The `with` block of `parse`: the header, the folder records, a block per folder and the
      file names, read in order from a new stream over `data`. */
  method ReadIndexParts(data: seq<Byte>, classFlags: FlagStore)
    returns (header: Header, folders: seq<FolderRecord>, blocks: seq<FileRecordBlock>, nameBlock: FileNameBlock,
             res: Result<()>)
    ensures var spec := ParseIndexSpec(data).result;
      (res.Ok? <==> spec.Ok?) && (res.Err? ==> res.error == spec.error)
    ensures res.Ok? ==> IndexOf(header, folders, blocks, nameBlock) == ParseIndexSpec(data).result.value
    ensures fresh(header)
    ensures res.Ok? ==> fresh(header.archiveFlags) && fresh(nameBlock) && fresh(Objects(blocks))
    ensures forall k :: 0 <= k < |folders| ==> fresh(folders[k])
  {
    var r := new Reader(data);
    assert r.Remaining() == data;
    var ok; ghost var hv;
    header, ok, hv := NewHeader(r, classFlags);
    if ok.Err? {
      nameBlock := new FileNameBlock();
      return header, [], [], nameBlock, Err(ok.error);
    }
    ghost var flags := header.archiveFlags;
    folders, blocks, nameBlock, res := ReadBody(r, header.folderCount, header.fileCount);
    assert header.Value() == hv && header.archiveFlags == flags;
  }

  /** The matched records carry the values the index's blocks hold for their keys. */
  lemma MatchedEntries(blocks: seq<FileRecordBlock>, names: seq<string>, files: map<string, FileRecord>)
    requires |Flatten(Shapes(blocks))| <= |names|
    requires files == Matched(Flatten(Shapes(blocks)), names)
    ensures |Flatten(Snapshot(blocks))| <= |names|
    ensures Matched(Flatten(Snapshot(blocks)), names) == RecordValues(files)
  {
    var pairs := Flatten(Shapes(blocks));
    assert Flatten(Snapshot(blocks)) == PairValues(pairs) by {
      FlattenValues(blocks);
    }
    var matched := Matched(PairValues(pairs), names);
    var values := RecordValues(files);
    assert matched == values by {
      forall key
        ensures key in matched <==> key in values
        ensures key in matched ==> matched[key] == values[key]
      {
        MatchedPairValues(pairs, names, key);
      }
    }
  }

  /** `match_names` judged by the values the blocks hold: it fails exactly when there are
      more records than names, and otherwise pairs the blocks' record values with the
      keys as the spec does, using only the blocks' own records. */
  lemma MatchedSnapshot(blocks: seq<FileRecordBlock>, names: seq<string>, matched: Result<map<string, FileRecord>>)
    requires matched == MatchSpec(Flatten(Shapes(blocks)), names)
    ensures matched.Err? <==> |Flatten(Snapshot(blocks))| > |names|
    ensures matched.Err? ==> matched.error == IndexErr
    ensures matched.Ok? ==> RecordValues(matched.value) == Matched(Flatten(Snapshot(blocks)), names)
    ensures matched.Ok? ==> matched.value.Values <= Objects(blocks)
  {
    assert |Flatten(Snapshot(blocks))| == |Flatten(Shapes(blocks))| by {
      FlattenValues(blocks);
    }
    if matched.Ok? {
      MatchedEntries(blocks, names, matched.value);
      MatchedObjects(blocks, names);
    }
  }

  /** `match_names` on the parts read by `parse`, which it leaves as they are. */
  method MatchParts(header: Header, folders: seq<FolderRecord>, blocks: seq<FileRecordBlock>, nameBlock: FileNameBlock,
                    ghost index: IndexValue)
    returns (res: Result<map<string, FileRecord>>)
    requires IndexOf(header, folders, blocks, nameBlock) == index
    ensures res == MatchSpec(Flatten(Shapes(blocks)), nameBlock.fileNames)
    ensures IndexOf(header, folders, blocks, nameBlock) == index
  {
    ghost var hv, fv, sv := header.Value(), FolderValues(folders), Snapshot(blocks);
    res := MatchNames(blocks, nameBlock.fileNames);
    assert header.Value() == hv;
    assert FolderValues(folders) == fv;
    assert Snapshot(blocks) == sv;
  }

  /** Each file's record value. */
  function RecordValues(files: map<string, FileRecord>): (values: map<string, FileRecordValue>)
    reads files.Values
    ensures values.Keys == files.Keys
    ensures forall key :: key in files ==> values[key] == files[key].Value()
  {
    map key | key in files :: files[key].Value()
  }

  /** Each file's record value and `compressed`. */
  function EntriesOf(files: map<string, FileRecord>): (entries: map<string, FileEntry>)
    reads files.Values
    ensures entries.Keys == files.Keys
  {
    map key | key in files :: FileEntry(files[key].Value(), files[key].compressed)
  }

  /** `process_compression_flags` seen through the files' entries: each record keeps its
      value and gets the compression its size and the archive flag give it. */
  method CompressEntries(files: map<string, FileRecord>, archiveFlags: map<nat, bool>,
                         ghost values: map<string, FileRecordValue>)
    returns (res: Result<()>)
    requires values == RecordValues(files)
    modifies files.Values
    ensures res.Err? <==> files != map[] && CompressedArchive !in archiveFlags
    ensures res.Err? ==> res.error == KeyErr
    ensures forall rec :: rec in files.Values ==> rec.Value() == old(rec.Value())
    ensures res.Ok? ==>
      EntriesOf(files) == map key | key in values ::
        FileEntry(values[key], Some(EffectiveCompression(values[key].size, archiveFlags[CompressedArchive])))
  {
    res := ProcessCompressionFlags(files, archiveFlags);
    if res.Ok? {
      ghost var entries := map key | key in values ::
        FileEntry(values[key], Some(EffectiveCompression(values[key].size, archiveFlags[CompressedArchive])));
      assert EntriesOf(files) == entries by {
        assert entries.Keys == values.Keys == files.Keys == EntriesOf(files).Keys;
        forall key | key in files
          ensures EntriesOf(files)[key] == entries[key]
        {
          assert files[key] in files.Values;
        }
      }
    }
  }

  /** `process_compression_flags` on the records matched from the parts, which keep the
      index they hold. */
  method SetCompression(header: Header, folders: seq<FolderRecord>, blocks: seq<FileRecordBlock>,
                        nameBlock: FileNameBlock, files: map<string, FileRecord>,
                        ghost index: IndexValue, ghost values: map<string, FileRecordValue>)
    returns (res: Result<()>)
    requires IndexOf(header, folders, blocks, nameBlock) == index
    requires values == RecordValues(files)
    modifies files.Values
    ensures IndexOf(header, folders, blocks, nameBlock) == index
    ensures res.Err? <==> files != map[] && CompressedArchive !in index.header.archiveFlags
    ensures res.Err? ==> res.error == KeyErr
    ensures res.Ok? ==>
      EntriesOf(files) == map key | key in values ::
        FileEntry(values[key], Some(EffectiveCompression(values[key].size, index.header.archiveFlags[CompressedArchive])))
  {
    ghost var hv, fv, sv := header.Value(), FolderValues(folders), Snapshot(blocks);
    label Matched:
    res := CompressEntries(files, header.archiveFlags.flags, values);
    assert Snapshot(blocks) == sv by {
      SnapshotKept@Matched(blocks);
    }
    assert header.Value() == hv;
    assert FolderValues(folders) == fv;
  }

  /** The rest of `parse`: `match_names`, then `process_compression_flags`, on the parts
      just read, which keep the index they hold. */
  method MatchFiles(header: Header, folders: seq<FolderRecord>, blocks: seq<FileRecordBlock>, nameBlock: FileNameBlock,
                    ghost index: IndexValue)
    returns (files: map<string, FileRecord>, res: Result<()>)
    requires IndexOf(header, folders, blocks, nameBlock) == index
    modifies Objects(blocks)
    ensures IndexOf(header, folders, blocks, nameBlock) == index
    ensures FilesSpec(index) == if res.Ok? then Ok(EntriesOf(files)) else Err(res.error)
  {
    var matched := MatchParts(header, folders, blocks, nameBlock, index);
    MatchedSnapshot(blocks, nameBlock.fileNames, matched);
    if matched.Err? {
      return map[], Err(matched.error);
    }
    files := matched.value;
    ghost var values := RecordValues(files);
    res := SetCompression(header, folders, blocks, nameBlock, files, index, values);
  }

  // ================================================================ extracting a file

  /** The lookup `extract_file` and `get_file_stream` share: the entry under `key`, read at
      its record's offset with its raw size, its effective compression and the archive's
      EmbedFileNames flag. A missing key fails first, then a negative offset (`seek`), then
      a missing flag. */
  function LookupSpec(data: seq<Byte>, files: map<string, FileEntry>, archiveFlags: map<nat, bool>,
                      key: string, decompress: seq<Byte> -> Result<seq<Byte>>)
    : (r: Result<(Option<string>, seq<Byte>)>)
    ensures key !in files ==> r == Err(FileNotFound)
    ensures key in files && files[key].record.offset >= 0 && EmbedFileNames !in archiveFlags ==> r == Err(KeyErr)
    ensures r.Ok? ==> EmbedFileNames in archiveFlags && (r.value.0.Some? <==> archiveFlags[EmbedFileNames])
  {
    if key !in files then Err(FileNotFound)
    else
      var entry := files[key];
      if entry.record.offset < 0 then Err(ValueErr)
      else if EmbedFileNames !in archiveFlags then Err(KeyErr)
      else PayloadSpec(data, entry.record.offset, entry.record.size, archiveFlags[EmbedFileNames],
                       Truthy(entry.compressed), decompress)
  }

  /** Where `extract_file` puts a file, relative to the destination folder: the embedded
      name when names are embedded, else the normalised key. */
  function ExtractSpec(data: seq<Byte>, files: map<string, FileEntry>, archiveFlags: map<nat, bool>,
                       filename: string, decompress: seq<Byte> -> Result<seq<Byte>>)
    : (r: Result<(string, seq<Byte>)>)
  {
    var key := Slashes(filename);
    var found := LookupSpec(data, files, archiveFlags, key, decompress);
    if found.Err? then Err(found.error)
    else Ok((if found.value.0.Some? then found.value.0.value else key, found.value.1))
  }

  /** `get_file_stream` does not normalise: a name written with `\` is not found, since
      no key holds one. */
  lemma StreamNeedsSlashes(data: seq<Byte>, files: map<string, FileEntry>, archiveFlags: map<nat, bool>,
                           filename: string, decompress: seq<Byte> -> Result<seq<Byte>>)
    requires forall key | key in files :: forall k :: 0 <= k < |key| ==> key[k] != '\\'
    requires exists k :: 0 <= k < |filename| && filename[k] == '\\'
    ensures LookupSpec(data, files, archiveFlags, filename, decompress) == Err(FileNotFound)
  {
  }

  /** `extract_file` normalises: the name with `\` finds what the key with `/` finds, and
      without embedded names the file goes under that key. */
  lemma ExtractNormalises(data: seq<Byte>, files: map<string, FileEntry>, archiveFlags: map<nat, bool>,
                          filename: string, decompress: seq<Byte> -> Result<seq<Byte>>)
    requires EmbedFileNames in archiveFlags && !archiveFlags[EmbedFileNames]
    requires LookupSpec(data, files, archiveFlags, Slashes(filename), decompress).Ok?
    ensures ExtractSpec(data, files, archiveFlags, filename, decompress)
      == Ok((Slashes(filename), LookupSpec(data, files, archiveFlags, Slashes(filename), decompress).value.1))
  {
  }

  class Archive {
    const data: seq<Byte>
    /** `Header.archive_flags`, the class-level dict every `Header()` starts from. */
    const classFlags: FlagStore
    var header: Header
    var folders: seq<FolderRecord>
    var fileRecordBlocks: seq<FileRecordBlock>
    var fileNameBlock: FileNameBlock
    var files: map<string, FileRecord>

    /** The archive with the attributes `parse` sets. */
    constructor (data: seq<Byte>, classFlags: FlagStore, header: Header, folders: seq<FolderRecord>,
                 blocks: seq<FileRecordBlock>, nameBlock: FileNameBlock, files: map<string, FileRecord>)
      ensures this.data == data && this.classFlags == classFlags && this.header == header
      ensures this.folders == folders && fileRecordBlocks == blocks && fileNameBlock == nameBlock
      ensures this.files == files
      ensures Index() == old(IndexOf(header, folders, blocks, nameBlock))
      ensures Entries() == old(EntriesOf(files))
    {
      this.data := data;
      this.classFlags := classFlags;
      this.header := header;
      this.folders := folders;
      fileRecordBlocks := blocks;
      fileNameBlock := nameBlock;
      this.files := files;
    }

    /** `get_file_stream(filename)`: the bytes of the file stored under exactly that key. */
    method GetFileStream(filename: string, decompress: seq<Byte> -> Result<seq<Byte>>)
      returns (res: Result<seq<Byte>>)
      ensures var found := LookupSpec(data, Entries(), header.archiveFlags.flags, filename, decompress);
        res == if found.Ok? then Ok(found.value.1) else Err(found.error)
    {
      var found := Lookup(filename, decompress);
      res := if found.Ok? then Ok(found.value.1) else Err(found.error);
    }

    /** `extract_file(filename, dest_folder)`: the file's path under `dest_folder` and the
        bytes written there. */
    method ExtractFile(filename: string, decompress: seq<Byte> -> Result<seq<Byte>>)
      returns (res: Result<(string, seq<Byte>)>)
      ensures res == ExtractSpec(data, Entries(), header.archiveFlags.flags, filename, decompress)
    {
      var key := Slashes(filename);
      var found := Lookup(key, decompress);
      if found.Err? {
        return Err(found.error);
      }
      var destination := if found.value.0.Some? then found.value.0.value else key;
      res := Ok((destination, found.value.1));
    }

    /** The part the two share: find the record, seek to it, read it. */
    method Lookup(key: string, decompress: seq<Byte> -> Result<seq<Byte>>)
      returns (res: Result<(Option<string>, seq<Byte>)>)
      ensures res == LookupSpec(data, Entries(), header.archiveFlags.flags, key, decompress)
    {
      if key !in files {
        return Err(FileNotFound);
      }
      var record := files[key];
      assert Entries()[key] == FileEntry(record.Value(), record.compressed);
      if record.offset < 0 {
        return Err(ValueErr);
      }
      var flags := header.archiveFlags.flags;
      if EmbedFileNames !in flags {
        return Err(KeyErr);
      }
      res := ReadPayload(data, record.offset, record.size, flags[EmbedFileNames],
                         record.compressed == Some(true), decompress);
    }

    /** The index as the attributes hold it. */
    function Index(): IndexValue
      reads this, header, fileRecordBlocks, Parts(header, folders, fileRecordBlocks, fileNameBlock)
    {
      IndexOf(header, folders, fileRecordBlocks, fileNameBlock)
    }

    /** The files as `files` holds them. */
    function Entries(): map<string, FileEntry>
      reads this, files.Values
    {
      EntriesOf(files)
    }
  }

  /** `BSAArchive(path)`, which runs `parse`: the index is read, the names are matched to
      the records and the records get their compression. Each failure of `parse` is the
      failure of the whole. */
  method Open(data: seq<Byte>, classFlags: FlagStore) returns (res: Result<Archive>)
    ensures var spec := ParseArchiveSpec(data);
      (res.Ok? <==> spec.Ok?) && (res.Err? ==> res.error == spec.error)
    ensures res.Ok? ==> fresh(res.value) && res.value.data == data
    ensures res.Ok? ==> res.value.Index() == ParseArchiveSpec(data).value.0
    ensures res.Ok? ==> res.value.Entries() == ParseArchiveSpec(data).value.1
  {
    var header, folders, blocks, nameBlock, ok := ReadIndexParts(data, classFlags);
    if ok.Err? {
      assert ParseArchiveSpec(data) == Err(ok.error);
      return Err(ok.error);
    }
    ghost var index := IndexOf(header, folders, blocks, nameBlock);
    assert ParseArchiveSpec(data) == ArchiveSpec(index);
    var files;
    files, ok := MatchFiles(header, folders, blocks, nameBlock, index);
    if ok.Err? {
      return Err(ok.error);
    }
    var archive := new Archive(data, classFlags, header, folders, blocks, nameBlock, files);
    res := Ok(archive);
  }
}
