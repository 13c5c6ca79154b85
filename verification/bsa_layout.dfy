/** What the archive `create_archive` writes looks like: the data starts right after the
    index, whose length is known in advance; each folder record points at its block; the
    file records lie end to end in the data; and reading a record's bytes back gives the
    file. */
module BsaLayout {
  import opened Wrappers
  import opened Bytes
  import opened Streams
  import opened BsaDatatypes
  import opened BsaHeader
  import opened BsaRecords
  import opened BsaPayload
  import opened BsaCreate
  import opened BsaWrite

  // ================================================================ lengths

  /** The length of a concatenation is the sum of the parts' lengths. */
  lemma {:induction false} ConcatLength<T>(parts: seq<seq<T>>, sizes: seq<int>)
    requires |sizes| == |parts|
    requires forall i :: 0 <= i < |parts| ==> |parts[i]| == sizes[i]
    ensures |Concat(parts)| == Sum(sizes)
    decreases |parts|
  {
    if parts != [] {
      var n := |parts| - 1;
      ConcatLength(parts[..n], sizes[..n]);
    }
  }

  lemma {:induction false} SumConst(xs: seq<int>, c: int)
    requires forall i :: 0 <= i < |xs| ==> xs[i] == c
    ensures Sum(xs) == c * |xs|
    decreases |xs|
  {
    if xs != [] {
      SumConst(xs[..|xs| - 1], c);
    }
  }

  function BlockSizes(gs: seq<Group>): (ns: seq<int>)
    ensures |ns| == |gs|
  {
    seq(|gs|, i requires 0 <= i < |gs| => BlockSize(gs[i]) as int)
  }

  lemma {:induction false} BlocksSum(gs: seq<Group>)
    ensures BlocksSize(gs) == Sum(BlockSizes(gs))
    decreases |gs|
  {
    if gs != [] {
      var n := |gs| - 1;
      BlocksSum(gs[..n]);
      assert BlockSizes(gs)[..n] == BlockSizes(gs[..n]);
    }
  }

  /** `b"".join` of the folder records is 24 bytes per record. */
  lemma {:induction false} FolderDumpsLength(folders: seq<FolderRecordValue>, fs: seq<Byte>)
    requires FolderDumps(folders) == Ok(fs)
    ensures |fs| == 24 * |folders|
  {
    var steps := seq(|folders|, i requires 0 <= i < |folders| => DumpFolderSpec(folders[i]));
    var parts := Collect(steps).value;
    CollectValues(steps);
    forall i | 0 <= i < |parts| ensures |parts[i]| == 24 {
      FolderDumpOk(folders[i]);
    }
    var sizes := seq(|parts|, _ => 24);
    ConcatLength(parts, sizes);
    SumConst(sizes, 24);
  }

  /** The dumped blocks, one per folder, each as long as `BlockSize` says. */
  lemma {:induction false} BlockParts(records: seq<FileRecordValue>, gs: seq<Group>, bs: seq<Byte>) returns (parts: seq<seq<Byte>>)
    requires |records| == |AllFiles(gs)| && GroupsOk(gs)
    requires BlockDumps(records, gs) == Ok(bs)
    ensures bs == Concat(parts) && |parts| == |gs|
    ensures forall i :: 0 <= i < |gs| ==> BlockDump(records, gs, i) == Ok(parts[i])
    ensures forall i :: 0 <= i < |gs| ==> |parts[i]| == BlockSizes(gs)[i]
  {
    var steps := seq(|gs|, i requires 0 <= i < |gs| && |records| == |AllFiles(gs)| && GroupsOk(gs) =>
                          BlockDump(records, gs, i));
    parts := Collect(steps).value;
    CollectValues(steps);
    forall i | 0 <= i < |gs| ensures |parts[i]| == BlockSizes(gs)[i] {
      FolderNameOk(gs[i]);
      BlockDumpOk(FolderName(gs[i]), BlockRecords(records, gs, i));
    }
  }

  /** The blocks together are `BlocksSize` bytes, and folder i's block starts after the
      blocks of the folders before it. */
  lemma {:induction false} BlockDumpsAt(records: seq<FileRecordValue>, gs: seq<Group>, bs: seq<Byte>, i: nat)
    requires |records| == |AllFiles(gs)| && GroupsOk(gs) && i < |gs|
    requires BlockDumps(records, gs) == Ok(bs)
    ensures |bs| == BlocksSize(gs)
    ensures BlocksSize(gs[..i]) + BlockSize(gs[i]) <= |bs|
    ensures BlockDump(records, gs, i) == Ok(bs[BlocksSize(gs[..i])..BlocksSize(gs[..i]) + BlockSize(gs[i])])
  {
    var parts := BlockParts(records, gs, bs);
    var pre := BlocksSize(gs[..i]);
    assert |bs| == BlocksSize(gs) by {
      ConcatLength(parts, BlockSizes(gs));
      BlocksSum(gs);
    }
    assert |Concat(parts[..i])| == pre by {
      ConcatLength(parts[..i], BlockSizes(gs)[..i]);
      BlocksSum(gs[..i]);
      assert BlockSizes(gs)[..i] == BlockSizes(gs[..i]);
    }
    ConcatAt(parts, i);
    assert |parts[i]| == BlockSize(gs[i]);
    MiddlePiece(Concat(parts[..i]), parts[i], Concat(parts[i + 1..]), bs);
  }

  /** The middle of three joined pieces is found after the first. */
  lemma MiddlePiece(a: seq<Byte>, b: seq<Byte>, c: seq<Byte>, bs: seq<Byte>)
    requires bs == a + b + c
    ensures |a| + |b| <= |bs| && bs[|a|..|a| + |b|] == b
  {
    SliceMiddle(a, b, c, 0, |b|);
    assert b[0..|b|] == b;
  }

  lemma {:induction false} BlockDumpsLength(records: seq<FileRecordValue>, gs: seq<Group>, bs: seq<Byte>)
    requires |records| == |AllFiles(gs)| && GroupsOk(gs)
    requires BlockDumps(records, gs) == Ok(bs)
    ensures |bs| == BlocksSize(gs)
  {
    var parts := BlockParts(records, gs, bs);
    ConcatLength(parts, BlockSizes(gs));
    BlocksSum(gs);
  }

  /** The parts of the index written over the placeholder. */
  lemma {:induction false} IndexParts(h: HeaderValue, folders: seq<FolderRecordValue>, gs: seq<Group>,
                   records: seq<FileRecordValue>, names: seq<string>, index: seq<Byte>)
      returns (header: seq<Byte>, fs: seq<Byte>, bs: seq<Byte>)
    requires |records| == |AllFiles(gs)| && GroupsOk(gs)
    requires forall k :: 0 <= k < |names| ==> IsAscii(names[k])
    requires IndexSpec(h, folders, gs, records, names) == Ok(index)
    ensures index == header + fs + bs + DumpList(names)
    ensures |header| == |h.fileId| + 32 && |fs| == 24 * |folders| && BlockDumps(records, gs) == Ok(bs)
  {
    header := DumpHeaderSpec(h).value;
    fs := FolderDumps(folders).value;
    bs := BlockDumps(records, gs).value;
    DumpHeaderOk(h);
    FolderDumpsLength(folders, fs);
  }

  /** The index is the header, 24 bytes per folder record, the blocks and the file names. */
  lemma {:induction false} IndexLength(h: HeaderValue, folders: seq<FolderRecordValue>, gs: seq<Group>,
                    records: seq<FileRecordValue>, names: seq<string>, index: seq<Byte>)
    requires |records| == |AllFiles(gs)| && GroupsOk(gs)
    requires forall k :: 0 <= k < |names| ==> IsAscii(names[k])
    requires IndexSpec(h, folders, gs, records, names) == Ok(index)
    ensures |index| == |h.fileId| + 32 + 24 * |folders| + BlocksSize(gs) + |DumpList(names)|
  {
    var header, fs, bs := IndexParts(h, folders, gs, records, names, index);
    BlockDumpsLength(records, gs, bs);
  }

  /** Folder i's block lies in the index at the offset its folder record holds. */
  lemma {:induction false} IndexBlockAt(h: HeaderValue, folders: seq<FolderRecordValue>, gs: seq<Group>,
                     records: seq<FileRecordValue>, names: seq<string>, index: seq<Byte>, i: nat)
    requires |records| == |AllFiles(gs)| && GroupsOk(gs) && i < |gs|
    requires forall k :: 0 <= k < |names| ==> IsAscii(names[k])
    requires IndexSpec(h, folders, gs, records, names) == Ok(index)
    requires |h.fileId| == 4 && |folders| == |gs|
    ensures FolderOffset(gs, i) + BlockSize(gs[i]) <= |index|
    ensures BlockDump(records, gs, i) == Ok(index[FolderOffset(gs, i)..FolderOffset(gs, i) + BlockSize(gs[i])])
  {
    var header, fs, bs := IndexParts(h, folders, gs, records, names, index);
    BlockDumpsAt(records, gs, bs, i);
    BlockInIndex(records, gs, i, header + fs, bs, DumpList(names), index);
  }

  /** Folder i's block, in an index whose blocks follow the header and folder records. */
  lemma {:induction false} BlockInIndex(records: seq<FileRecordValue>, gs: seq<Group>, i: nat,
                                        front: seq<Byte>, bs: seq<Byte>, back: seq<Byte>, index: seq<Byte>)
    requires |records| == |AllFiles(gs)| && GroupsOk(gs) && i < |gs|
    requires BlocksSize(gs[..i]) + BlockSize(gs[i]) <= |bs|
    requires BlockDump(records, gs, i) == Ok(bs[BlocksSize(gs[..i])..BlocksSize(gs[..i]) + BlockSize(gs[i])])
    requires index == front + bs + back && |front| == BlocksStart(|gs|)
    ensures FolderOffset(gs, i) + BlockSize(gs[i]) <= |index|
    ensures BlockDump(records, gs, i) == Ok(index[FolderOffset(gs, i)..FolderOffset(gs, i) + BlockSize(gs[i])])
  {
    SliceMiddle(front, bs, back, BlocksSize(gs[..i]), BlocksSize(gs[..i]) + BlockSize(gs[i]));
  }

  /** A slice of the first part, taken from the whole. */
  lemma {:induction false} SlicePrefix<T>(a: seq<T>, b: seq<T>, lo: nat, hi: nat)
    requires lo <= hi <= |a|
    ensures (a + b)[lo..hi] == a[lo..hi]
  {
    assert (a + b)[..|a|] == a;
  }

  /** A slice of the middle part, taken from the whole. */
  lemma {:induction false} SliceMiddle<T>(a: seq<T>, b: seq<T>, c: seq<T>, lo: nat, hi: nat)
    requires lo <= hi <= |b|
    ensures (a + b + c)[|a| + lo..|a| + hi] == b[lo..hi]
  {
    var whole := a + b + c;
    forall j | |a| + lo <= j < |a| + hi ensures whole[j] == b[j - |a|] { }
  }

  // ================================================================ the data

  /** The stored bytes of each file, in `file_records` order. */
  function Pieces(stored: seq<(seq<Byte>, int)>): (ps: seq<seq<Byte>>)
    ensures |ps| == |stored|
  {
    seq(|stored|, k requires 0 <= k < |stored| => stored[k].0)
  }

  /** Each size the data loop records is the length of what it wrote. */
  lemma {:induction false} StoredSizes(all: seq<SourceFile>, embed: bool, compressedArchive: bool,
                    compress: seq<Byte> -> seq<Byte>, stored: seq<(seq<Byte>, int)>)
    requires PathsAscii(all)
    requires Collect(StoreSteps(all, embed, compressedArchive, compress)) == Ok(stored)
    ensures |stored| == |all|
    ensures forall k :: 0 <= k < |all| ==>
      StoredSpec(PathName(all[k]), all[k].content, embed, compressedArchive, compress) == Ok(stored[k])
    ensures forall k :: 0 <= k < |stored| ==> stored[k].1 == |stored[k].0|
  {
    CollectValues(StoreSteps(all, embed, compressedArchive, compress));
  }

  /** The records before the k-th, with the sizes the data loop gave them, cover the data
      stored for them. */
  lemma {:induction false} PrefixSize(rs: seq<FileRecordValue>, stored: seq<(seq<Byte>, int)>, k: nat)
    requires |rs| == |stored| && k <= |stored|
    requires forall j :: 0 <= j < |stored| ==> rs[j].size == stored[j].1 == |stored[j].0|
    ensures TotalSize(rs[..k]) == |Concat(Pieces(stored)[..k])|
    decreases k
  {
    if k > 0 {
      PrefixSize(rs, stored, k - 1);
      assert rs[..k][..k - 1] == rs[..k - 1];
      assert Pieces(stored)[..k][..k - 1] == Pieces(stored)[..k - 1];
    }
  }

  lemma {:induction false} TotalSizeStep(rs: seq<FileRecordValue>, k: nat)
    requires k < |rs|
    ensures TotalSize(rs[..k + 1]) == TotalSize(rs[..k]) + rs[k].size
  {
    assert rs[..k + 1][..k] == rs[..k];
  }

  // ================================================================ the layout

  /** The intermediate values of a successful layout: the records the folder loop built and
      what the data loop stored for each file. */
  lemma {:induction false} LayoutParts(gs: seq<Group>, files: seq<SourceFile>, header: HeaderValue, embed: bool,
                    hasCompressed: bool, compressedArchive: bool, compress: seq<Byte> -> seq<Byte>, c: Created)
      returns (built: seq<FileRecordValue>, stored: seq<(seq<Byte>, int)>)
    requires GroupsOk(gs) && PathsAscii(AllFiles(gs))
    requires forall k :: 0 <= k < |files| ==> FileOk(files[k])
    requires LayoutSpec(gs, files, header, embed, hasCompressed, compressedArchive, compress) == Ok(c)
    ensures c.groups == gs && c.header == header && hasCompressed
    ensures RecordsSpec(gs, FileNames(files), HashOf) == Ok((c.folders, built, c.dataStart))
    ensures |built| == |AllFiles(gs)| == |stored|
    ensures Collect(StoreSteps(AllFiles(gs), embed, compressedArchive, compress)) == Ok(stored)
    ensures c.data == Concat(Pieces(stored))
    ensures c.records == Placed(Resized(built, stored), c.dataStart)
    ensures IndexSpec(header, c.folders, gs, c.records, FileNames(files)) == Ok(c.index)
    ensures c.bytes == Overwrite(Zeros(c.dataStart) + c.data, c.index)
  {
    var names := FileNames(files);
    var r := RecordsSpec(gs, names, HashOf).value;
    RecordsCount(gs, names, HashOf);
    built := r.1;
    stored := Collect(StoreSteps(AllFiles(gs), embed, compressedArchive, compress)).value;
    assert Pieces(stored) == seq(|stored|, k requires 0 <= k < |stored| => stored[k].0);
  }

  /** The layout of a successful run: the data starts at 36 + 24 per folder + the blocks +
      the file name block, the index fills exactly that space, and the file is the index
      followed by the data. */
  lemma {:induction false} LayoutLength(gs: seq<Group>, files: seq<SourceFile>, header: HeaderValue, embed: bool,
                     hasCompressed: bool, compressedArchive: bool, compress: seq<Byte> -> seq<Byte>, c: Created)
    requires GroupsOk(gs) && PathsAscii(AllFiles(gs))
    requires forall k :: 0 <= k < |files| ==> FileOk(files[k])
    requires LayoutSpec(gs, files, header, embed, hasCompressed, compressedArchive, compress) == Ok(c)
    requires |header.fileId| == 4
    ensures c.dataStart == HeaderSize + 24 * |gs| + BlocksSize(gs) + |DumpList(FileNames(files))|
    ensures |c.index| == c.dataStart
    ensures c.bytes == c.index + c.data
  {
    var built, stored := LayoutParts(gs, files, header, embed, hasCompressed, compressedArchive, compress, c);
    IndexLength(header, c.folders, gs, c.records, FileNames(files), c.index);
    assert Zeros(c.dataStart) + c.data == Zeros(c.dataStart) + c.data;
    assert Drop(Zeros(c.dataStart) + c.data, |c.index|) == c.data;
  }

  /** Folder record i counts folder i's files and holds the offset of its block, and the
      block is there in the file. */
  lemma {:induction false} LayoutFolders(gs: seq<Group>, files: seq<SourceFile>, header: HeaderValue, embed: bool,
                      hasCompressed: bool, compressedArchive: bool, compress: seq<Byte> -> seq<Byte>,
                      c: Created, i: nat)
    requires GroupsOk(gs) && PathsAscii(AllFiles(gs))
    requires forall k :: 0 <= k < |files| ==> FileOk(files[k])
    requires LayoutSpec(gs, files, header, embed, hasCompressed, compressedArchive, compress) == Ok(c)
    requires |header.fileId| == 4 && i < |gs|
    ensures |c.folders| == |gs| && |c.records| == |AllFiles(gs)|
    ensures c.folders[i].count == |gs[i].files| && c.folders[i].offset == FolderOffset(gs, i)
    ensures BlockAt(c.records, gs, i, c.bytes)
  {
    assert |c.folders| == |gs| && |c.records| == |AllFiles(gs)| &&
           c.folders[i].count == |gs[i].files| && c.folders[i].offset == FolderOffset(gs, i) by {
      var built, stored := LayoutParts(gs, files, header, embed, hasCompressed, compressedArchive, compress, c);
    }
    assert c.bytes == c.index + c.data by {
      LayoutLength(gs, files, header, embed, hasCompressed, compressedArchive, compress, c);
    }
    var lo, hi := FolderOffset(gs, i), FolderOffset(gs, i) + BlockSize(gs[i]);
    var block := LayoutBlock(gs, files, header, embed, hasCompressed, compressedArchive, compress, c, i);
    BlockInFile(c.records, gs, i, c.index, c.data, c.bytes, block);
  }

  /** A block that lies in the index lies at the same place in the file. */
  lemma {:induction false} BlockInFile(records: seq<FileRecordValue>, gs: seq<Group>, i: nat,
                                       index: seq<Byte>, data: seq<Byte>, bytes: seq<Byte>, block: seq<Byte>)
    requires |records| == |AllFiles(gs)| && GroupsOk(gs) && i < |gs|
    requires bytes == index + data && FolderOffset(gs, i) + BlockSize(gs[i]) <= |index|
    requires block == index[FolderOffset(gs, i)..FolderOffset(gs, i) + BlockSize(gs[i])]
    requires BlockDump(records, gs, i) == Ok(block)
    ensures BlockAt(records, gs, i, bytes)
  {
    SlicePrefix(index, data, FolderOffset(gs, i), FolderOffset(gs, i) + BlockSize(gs[i]));
  }

  /** Folder i's block, dumped from the records, lies in `bytes` at the folder's offset. */
  predicate BlockAt(records: seq<FileRecordValue>, gs: seq<Group>, i: nat, bytes: seq<Byte>)
    requires |records| == |AllFiles(gs)| && GroupsOk(gs) && i < |gs|
  {
    FolderOffset(gs, i) + BlockSize(gs[i]) <= |bytes| &&
    BlockDump(records, gs, i) == Ok(bytes[FolderOffset(gs, i)..FolderOffset(gs, i) + BlockSize(gs[i])])
  }

  /** Folder i's block as it lies in the index. */
  lemma {:induction false} LayoutBlock(gs: seq<Group>, files: seq<SourceFile>, header: HeaderValue, embed: bool,
                                       hasCompressed: bool, compressedArchive: bool, compress: seq<Byte> -> seq<Byte>,
                                       c: Created, i: nat) returns (block: seq<Byte>)
    requires GroupsOk(gs) && PathsAscii(AllFiles(gs))
    requires forall k :: 0 <= k < |files| ==> FileOk(files[k])
    requires LayoutSpec(gs, files, header, embed, hasCompressed, compressedArchive, compress) == Ok(c)
    requires |header.fileId| == 4 && i < |gs|
    ensures |c.records| == |AllFiles(gs)|
    ensures FolderOffset(gs, i) + BlockSize(gs[i]) <= |c.index|
    ensures block == c.index[FolderOffset(gs, i)..FolderOffset(gs, i) + BlockSize(gs[i])]
    ensures BlockDump(c.records, gs, i) == Ok(block)
  {
    var built, stored := LayoutParts(gs, files, header, embed, hasCompressed, compressedArchive, compress, c);
    IndexBlockAt(header, c.folders, gs, c.records, FileNames(files), c.index, i);
    block := c.index[FolderOffset(gs, i)..FolderOffset(gs, i) + BlockSize(gs[i])];
  }

  /** The records lie end to end in the data: the first starts where the data starts, each
      next one where the one before ends, and the last ends at the end of the file. */
  lemma {:induction false} LayoutRecords(gs: seq<Group>, files: seq<SourceFile>, header: HeaderValue, embed: bool,
                      hasCompressed: bool, compressedArchive: bool, compress: seq<Byte> -> seq<Byte>, c: Created)
    requires GroupsOk(gs) && PathsAscii(AllFiles(gs))
    requires forall k :: 0 <= k < |files| ==> FileOk(files[k])
    requires LayoutSpec(gs, files, header, embed, hasCompressed, compressedArchive, compress) == Ok(c)
    requires |header.fileId| == 4
    ensures |c.records| == |AllFiles(gs)|
    ensures c.records != [] ==> c.records[0].offset == c.dataStart
    ensures forall k :: 0 <= k < |c.records| - 1 ==> c.records[k + 1].offset == c.records[k].offset + c.records[k].size
    ensures c.records != [] ==> c.records[|c.records| - 1].offset + c.records[|c.records| - 1].size == |c.bytes|
  {
    var built, stored := LayoutParts(gs, files, header, embed, hasCompressed, compressedArchive, compress, c);
    LayoutLength(gs, files, header, embed, hasCompressed, compressedArchive, compress, c);
    StoredSizes(AllFiles(gs), embed, compressedArchive, compress, stored);
    ResizedSizes(built, stored);
    EndToEnd(Resized(built, stored), stored, c.dataStart, c.records, c.index, c.bytes);
  }

  /** The data loop gives each record the size of what it stored. */
  lemma ResizedSizes(built: seq<FileRecordValue>, stored: seq<(seq<Byte>, int)>)
    requires |built| == |stored|
    requires forall k :: 0 <= k < |stored| ==> stored[k].1 == |stored[k].0|
    ensures forall j :: 0 <= j < |stored| ==> Resized(built, stored)[j].size == stored[j].1 == |stored[j].0|
  {
  }

  /** Reading record k's bytes back, with its size and the archive's flags, gives the k-th
      file: its record path when names are embedded, and its content, provided
      decompression undoes compression. */
  lemma {:induction false} LayoutReadBack(gs: seq<Group>, files: seq<SourceFile>, header: HeaderValue, embed: bool,
                       hasCompressed: bool, compressedArchive: bool, compress: seq<Byte> -> seq<Byte>,
                       decompress: seq<Byte> -> Result<seq<Byte>>, c: Created, k: nat)
    requires GroupsOk(gs) && PathsAscii(AllFiles(gs))
    requires forall j :: 0 <= j < |files| ==> FileOk(files[j])
    requires forall j :: 0 <= j < |AllFiles(gs)| ==> FileOk(AllFiles(gs)[j])
    requires LayoutSpec(gs, files, header, embed, hasCompressed, compressedArchive, compress) == Ok(c)
    requires |header.fileId| == 4 && k < |AllFiles(gs)|
    requires decompress(compress(AllFiles(gs)[k].content)) == Ok(AllFiles(gs)[k].content)
    ensures |c.records| == |AllFiles(gs)|
    ensures PayloadSpec(c.bytes, c.records[k].offset, c.records[k].size, embed, compressedArchive, decompress)
      == Ok((if embed then Some(PathName(AllFiles(gs)[k])) else None, AllFiles(gs)[k].content))
  {
    var built, stored := LayoutParts(gs, files, header, embed, hasCompressed, compressedArchive, compress, c);
    LayoutLength(gs, files, header, embed, hasCompressed, compressedArchive, compress, c);
    StoredSizes(AllFiles(gs), embed, compressedArchive, compress, stored);
    ResizedSizes(built, stored);
    var f := AllFiles(gs)[k];
    PathNameOk(f);
    ReadBackAt(PathName(f), f.content, embed, compressedArchive, compress, decompress,
               Resized(built, stored), stored, c.dataStart, c.records, c.index, c.bytes, k);
  }

  /** The records, placed from `start` with the sizes of what was stored, lie end to end in
      a file that holds the index and then the stored bytes. */
  lemma {:induction false} EndToEnd(rs: seq<FileRecordValue>, stored: seq<(seq<Byte>, int)>, start: int,
                 placed: seq<FileRecordValue>, index: seq<Byte>, bytes: seq<Byte>)
    requires |rs| == |stored|
    requires forall j :: 0 <= j < |stored| ==> rs[j].size == stored[j].1 == |stored[j].0|
    requires placed == Placed(rs, start) && |index| == start && bytes == index + Concat(Pieces(stored))
    ensures placed != [] ==> placed[0].offset == start
    ensures forall k :: 0 <= k < |placed| - 1 ==> placed[k + 1].offset == placed[k].offset + placed[k].size
    ensures placed != [] ==> placed[|placed| - 1].offset + placed[|placed| - 1].size == |bytes|
  {
    forall k | 0 <= k < |placed| - 1
      ensures placed[k + 1].offset == placed[k].offset + placed[k].size
    {
      TotalSizeStep(rs, k);
    }
    if placed != [] {
      var n := |rs| - 1;
      TotalSizeStep(rs, n);
      assert rs[..n + 1] == rs;
      PrefixSize(rs, stored, |stored|);
      assert Pieces(stored)[..|stored|] == Pieces(stored);
    }
  }

  /** Record k, placed and sized as above, reads back as the file whose stored bytes are the
      k-th piece. */
  lemma {:induction false} ReadBackAt(fileName: string, content: seq<Byte>, embed: bool, compressedArchive: bool,
                   compress: seq<Byte> -> seq<Byte>, decompress: seq<Byte> -> Result<seq<Byte>>,
                   rs: seq<FileRecordValue>, stored: seq<(seq<Byte>, int)>, start: int,
                   placed: seq<FileRecordValue>, index: seq<Byte>, bytes: seq<Byte>, k: nat)
    requires |rs| == |stored| && k < |stored|
    requires forall j :: 0 <= j < |stored| ==> rs[j].size == stored[j].1 == |stored[j].0|
    requires placed == Placed(rs, start) && |index| == start && bytes == index + Concat(Pieces(stored))
    requires IsAscii(fileName) && NoEdgeNul(fileName)
    requires StoredSpec(fileName, content, embed, compressedArchive, compress) == Ok(stored[k])
    requires decompress(compress(content)) == Ok(content)
    ensures PayloadSpec(bytes, placed[k].offset, placed[k].size, embed, compressedArchive, decompress)
      == Ok((if embed then Some(fileName) else None, content))
  {
    var ps := Pieces(stored);
    PrefixSize(rs, stored, k);
    ConcatAt(ps, k);
    var before := index + Concat(ps[..k]);
    var after := Concat(ps[k + 1..]);
    assert bytes == before + (ps[k] + after);
    var offset := placed[k].offset;
    assert offset == |before|;
    assert Drop(bytes, offset) == ps[k] + after;
    ExtractStored(fileName, content, embed, compressedArchive, compress, decompress,
                  stored[k].0, stored[k].1, bytes, offset, after);
  }

  /** Record k holds the hash of its file's lowercased name and, as its size, what the data
      loop stored for it. */
  lemma {:induction false} LayoutRecordValues(gs: seq<Group>, files: seq<SourceFile>, header: HeaderValue, embed: bool,
                                              hasCompressed: bool, compressedArchive: bool,
                                              compress: seq<Byte> -> seq<Byte>, c: Created, k: nat)
    requires GroupsOk(gs) && PathsAscii(AllFiles(gs))
    requires forall j :: 0 <= j < |files| ==> FileOk(files[j])
    requires LayoutSpec(gs, files, header, embed, hasCompressed, compressedArchive, compress) == Ok(c)
    requires k < |AllFiles(gs)|
    ensures |c.records| == |AllFiles(gs)|
    ensures HashOf(Lower(AllFiles(gs)[k].name)) == Ok(c.records[k].nameHash)
    ensures c.records[k].size == (if compressedArchive then |compress(AllFiles(gs)[k].content)| + 4
                                  else |AllFiles(gs)[k].content|)
                                 + (if embed then |PathName(AllFiles(gs)[k])| + 1 else 0)
  {
    var built, stored := LayoutParts(gs, files, header, embed, hasCompressed, compressedArchive, compress, c);
    var hs := Collect(GroupSteps(gs, HashOf)).value;
    assert built == Flatten(hs);
    RecordsMatchFiles(gs, HashOf, hs);
    StoredSizes(AllFiles(gs), embed, compressedArchive, compress, stored);
    ResizedSizes(built, stored);
    var f := AllFiles(gs)[k];
    StoredSize(PathName(f), f.content, embed, compressedArchive, compress, stored[k].0, stored[k].1);
  }

  // ================================================================ create_archive

  /** What a successful `create_archive` went through: a directory with files, the flag
      checks passed, the groups of the folder dict, and the layout of those groups. */
  lemma {:induction false} CreateParts(isDir: bool, files: seq<SourceFile>, classFlags: map<nat, bool>,
                                       archiveFlags: Option<map<nat, bool>>, fileFlags: Option<map<nat, bool>>,
                                       compress: seq<Byte> -> seq<Byte>, c: Created)
    requires forall k :: 0 <= k < |files| ==> FileOk(files[k])
    requires CreateSpec(isDir, files, classFlags, archiveFlags, fileFlags, compress) == Ok(c)
    ensures isDir && files != [] && c.groups == GroupSpec(files)
    ensures GroupsOk(c.groups) && PathsAscii(AllFiles(c.groups))
    ensures forall k :: 0 <= k < |AllFiles(c.groups)| ==> FileOk(AllFiles(c.groups)[k])
    ensures var flags := Updated(classFlags, archiveFlags);
      EmbedFileNames in flags && CompressedArchive in flags &&
      c.header == CreatedHeader(c.groups, files, flags, Updated(FileFlagsSpec(FolderKeys(c.groups)), fileFlags)) &&
      LayoutSpec(c.groups, files, c.header, flags[EmbedFileNames], true, flags[CompressedArchive], compress) == Ok(c)
  {
    var gs := GroupSpec(files);
    GroupsFromFiles(files);
    var flags := Updated(classFlags, archiveFlags);
    var header := CreatedHeader(gs, files, flags, Updated(FileFlagsSpec(FolderKeys(gs)), fileFlags));
    var hasCompressed := CompressedArchive in flags;
    var ca := if hasCompressed then flags[CompressedArchive] else false;
    assert LayoutSpec(gs, files, header, flags[EmbedFileNames], hasCompressed, ca, compress) == Ok(c);
    var built, stored := LayoutParts(gs, files, header, flags[EmbedFileNames], hasCompressed, ca, compress, c);
  }

  /** `create_archive` raises `ValueError` for an input that is not a directory, and raises
      when the directory holds no files. */
  lemma CreateErrors(isDir: bool, files: seq<SourceFile>, classFlags: map<nat, bool>,
                     archiveFlags: Option<map<nat, bool>>, fileFlags: Option<map<nat, bool>>,
                     compress: seq<Byte> -> seq<Byte>)
    requires forall k :: 0 <= k < |files| ==> FileOk(files[k])
    ensures !isDir ==> CreateSpec(isDir, files, classFlags, archiveFlags, fileFlags, compress) == Err(ValueErr)
    ensures isDir && files == [] ==> CreateSpec(isDir, files, classFlags, archiveFlags, fileFlags, compress) == Err(NoElements)
    ensures isDir && files != [] && EmbedFileNames !in Updated(classFlags, archiveFlags) ==>
      CreateSpec(isDir, files, classFlags, archiveFlags, fileFlags, compress) == Err(KeyErr)
  {
  }

  /** The header of a created archive: version 105, offset 36, one file per file found, one
      folder per distinct parent folder, the updated archive flags and the file flags of the
      folders, updated. The grouping holds every file once, and keeps the walk order when
      each folder's files come together. */
  lemma {:induction false} CreateHeader(isDir: bool, files: seq<SourceFile>, classFlags: map<nat, bool>,
                                        archiveFlags: Option<map<nat, bool>>, fileFlags: Option<map<nat, bool>>,
                                        compress: seq<Byte> -> seq<Byte>, c: Created)
    requires forall k :: 0 <= k < |files| ==> FileOk(files[k])
    requires CreateSpec(isDir, files, classFlags, archiveFlags, fileFlags, compress) == Ok(c)
    ensures GroupsOk(c.groups)
    ensures c.header.fileId == BsaId && c.header.version == SupportedVersion && c.header.offset == HeaderSize
    ensures c.header.fileCount == |files|
    ensures c.header.folderCount == |c.groups| == |FileFolders(files)|
    ensures c.header.archiveFlags == Updated(classFlags, archiveFlags)
    ensures c.header.fileFlags == Updated(FileFlagsSpec(FolderKeys(c.groups)), fileFlags)
    ensures WellGrouped(c.groups) && multiset(AllFiles(c.groups)) == multiset(files)
    ensures Contiguous(files) ==> AllFiles(c.groups) == files
  {
    CreateParts(isDir, files, classFlags, archiveFlags, fileFlags, compress, c);
    FolderCount(files);
    GroupSpecWellGrouped(files);
    if Contiguous(files) {
      GroupKeepsOrder(files);
    }
  }

  /** The layout of a created archive: the data starts at 36 + 24 per folder + the blocks +
      the file name block; the file is the index, exactly that long, then the data; and the
      records lie end to end from the data's start to the end of the file. */
  lemma {:induction false} CreateLayout(isDir: bool, files: seq<SourceFile>, classFlags: map<nat, bool>,
                                        archiveFlags: Option<map<nat, bool>>, fileFlags: Option<map<nat, bool>>,
                                        compress: seq<Byte> -> seq<Byte>, c: Created)
    requires forall k :: 0 <= k < |files| ==> FileOk(files[k])
    requires CreateSpec(isDir, files, classFlags, archiveFlags, fileFlags, compress) == Ok(c)
    ensures c.dataStart == HeaderSize + 24 * |c.groups| + BlocksSize(c.groups) + |DumpList(FileNames(files))|
    ensures |c.index| == c.dataStart && c.bytes == c.index + c.data
    ensures |c.records| == |files|
    ensures c.records[0].offset == c.dataStart
    ensures forall k :: 0 <= k < |c.records| - 1 ==> c.records[k + 1].offset == c.records[k].offset + c.records[k].size
    ensures c.records[|c.records| - 1].offset + c.records[|c.records| - 1].size == |c.bytes|
  {
    CreateParts(isDir, files, classFlags, archiveFlags, fileFlags, compress, c);
    var flags := Updated(classFlags, archiveFlags);
    LayoutLength(c.groups, files, c.header, flags[EmbedFileNames], true, flags[CompressedArchive], compress, c);
    LayoutRecords(c.groups, files, c.header, flags[EmbedFileNames], true, flags[CompressedArchive], compress, c);
    GroupSpecWellGrouped(files);
    assert |AllFiles(c.groups)| == |multiset(files)|;
  }

  /** Folder record i of a created archive counts the folder's files and points at its
      block, which is there in the file. */
  lemma {:induction false} CreateFolders(isDir: bool, files: seq<SourceFile>, classFlags: map<nat, bool>,
                                         archiveFlags: Option<map<nat, bool>>, fileFlags: Option<map<nat, bool>>,
                                         compress: seq<Byte> -> seq<Byte>, c: Created, i: nat)
    requires forall k :: 0 <= k < |files| ==> FileOk(files[k])
    requires CreateSpec(isDir, files, classFlags, archiveFlags, fileFlags, compress) == Ok(c)
    requires i < |c.groups|
    ensures GroupsOk(c.groups) && |c.folders| == |c.groups| && |c.records| == |AllFiles(c.groups)|
    ensures c.folders[i].count == |c.groups[i].files| && c.folders[i].offset == FolderOffset(c.groups, i)
    ensures BlockAt(c.records, c.groups, i, c.bytes)
  {
    CreateParts(isDir, files, classFlags, archiveFlags, fileFlags, compress, c);
    var flags := Updated(classFlags, archiveFlags);
    LayoutFolders(c.groups, files, c.header, flags[EmbedFileNames], true, flags[CompressedArchive], compress, c, i);
  }

  /** Record k of a created archive belongs to the k-th file of the folder dict: it holds
      the hash of the file's lowercased name and the size of what was stored for it, and
      reading it back at its offset with the archive's flags gives the file's record path
      (when names are embedded) and its content, provided decompression undoes
      compression. */
  lemma {:induction false} CreateReadBack(isDir: bool, files: seq<SourceFile>, classFlags: map<nat, bool>,
                                          archiveFlags: Option<map<nat, bool>>, fileFlags: Option<map<nat, bool>>,
                                          compress: seq<Byte> -> seq<Byte>, decompress: seq<Byte> -> Result<seq<Byte>>,
                                          c: Created, k: nat)
    requires forall j :: 0 <= j < |files| ==> FileOk(files[j])
    requires CreateSpec(isDir, files, classFlags, archiveFlags, fileFlags, compress) == Ok(c)
    requires k < |AllFiles(c.groups)|
    requires decompress(compress(AllFiles(c.groups)[k].content)) == Ok(AllFiles(c.groups)[k].content)
    ensures var flags := Updated(classFlags, archiveFlags);
      var f := AllFiles(c.groups)[k];
      EmbedFileNames in flags && CompressedArchive in flags && |c.records| == |AllFiles(c.groups)| &&
      HashOf(Lower(f.name)) == Ok(c.records[k].nameHash) &&
      c.records[k].size == (if flags[CompressedArchive] then |compress(f.content)| + 4 else |f.content|)
                           + (if flags[EmbedFileNames] then |PathName(f)| + 1 else 0) &&
      PayloadSpec(c.bytes, c.records[k].offset, c.records[k].size, flags[EmbedFileNames],
                  flags[CompressedArchive], decompress)
        == Ok((if flags[EmbedFileNames] then Some(PathName(f)) else None, f.content))
  {
    CreateParts(isDir, files, classFlags, archiveFlags, fileFlags, compress, c);
    var flags := Updated(classFlags, archiveFlags);
    var embed, ca := flags[EmbedFileNames], flags[CompressedArchive];
    LayoutRecordValues(c.groups, files, c.header, embed, true, ca, compress, c, k);
    LayoutReadBack(c.groups, files, c.header, embed, true, ca, compress, decompress, c, k);
  }
}
