/** The writing half of `create_archive`: the records built folder by folder, the two-pass
    offset layout, the file data written after a zero placeholder, and the index written
    over that placeholder at the end. */
module BsaWrite {
  import opened Wrappers
  import opened Bytes
  import opened Streams
  import opened BsaDatatypes
  import opened BsaHeader
  import opened BsaRecords
  import opened BsaPayload
  import opened BsaCreate

  // ================================================================ sequences of steps

  /** The values of steps taken one after the other, or the error of the first that fails. */
  function Collect<T>(rs: seq<Result<T>>): (r: Result<seq<T>>)
    ensures r.Ok? ==> |r.value| == |rs|
  {
    if rs == [] then Ok([])
    else if rs[0].Err? then Err(rs[0].error)
    else
      var rest :- Collect(rs[1..]);
      Ok([rs[0].value] + rest)
  }

  /** When every step succeeds, their values are collected in order. */
  lemma {:induction false} CollectOk<T>(rs: seq<Result<T>>, vs: seq<T>)
    requires |vs| == |rs| && forall k :: 0 <= k < |rs| ==> rs[k] == Ok(vs[k])
    ensures Collect(rs) == Ok(vs)
  {
    if rs != [] {
      CollectOk(rs[1..], vs[1..]);
      assert [vs[0]] + vs[1..] == vs;
    }
  }

  /** The collected values are the values of the steps. */
  lemma {:induction false} CollectValues<T>(rs: seq<Result<T>>)
    requires Collect(rs).Ok?
    ensures forall k :: 0 <= k < |rs| ==> rs[k] == Ok(Collect(rs).value[k])
  {
    if rs != [] {
      CollectValues(rs[1..]);
    }
  }

  /** The first step that fails decides the error. */
  lemma {:induction false} CollectErr<T>(rs: seq<Result<T>>, i: nat)
    requires i < |rs| && rs[i].Err? && forall k :: 0 <= k < i ==> rs[k].Ok?
    ensures Collect(rs) == Err(rs[i].error)
  {
    if i > 0 {
      CollectErr(rs[1..], i - 1);
    }
  }

  /** `b"".join(parts)`, and the concatenation of lists. */
  function Concat<T>(parts: seq<seq<T>>): seq<T> {
    if parts == [] then [] else Concat(parts[..|parts| - 1]) + parts[|parts| - 1]
  }

  lemma {:induction false} ConcatAppend<T>(a: seq<seq<T>>, b: seq<seq<T>>)
    ensures Concat(a + b) == Concat(a) + Concat(b)
    decreases |b|
  {
    if b == [] {
      assert a + b == a;
    } else {
      var n := |b| - 1;
      assert (a + b)[..|a + b| - 1] == a + b[..n];
      assert (a + b)[|a + b| - 1] == b[n];
      ConcatAppend(a, b[..n]);
      assert Concat(a + b) == Concat(a + b[..n]) + b[n];
      assert Concat(b) == Concat(b[..n]) + b[n];
    }
  }

  /** The k-th part sits in the concatenation right after the parts before it. */
  lemma {:induction false} ConcatAt<T>(parts: seq<seq<T>>, k: nat)
    requires k < |parts|
    ensures Concat(parts) == Concat(parts[..k]) + parts[k] + Concat(parts[k + 1..])
  {
    var front, back := parts[..k + 1], parts[k + 1..];
    assert parts == front + back;
    ConcatAppend(front, back);
    assert front[..k] == parts[..k];
    assert Concat(front) == Concat(parts[..k]) + parts[k];
  }

  /** The sum of a list of integers. */
  function Sum(xs: seq<int>): int {
    if xs == [] then 0 else Sum(xs[..|xs| - 1]) + xs[|xs| - 1]
  }

  // ================================================================ names

  /** `str(path).replace("/", "\\")` for a relative path given by its parts. */
  function JoinPath(parts: seq<string>): (s: string)
    ensures parts != [] ==> |s| >= |parts[0]|
  {
    if |parts| <= 1 then (if parts == [] then [] else parts[0])
    else JoinPath(parts[..|parts| - 1]) + "\\" + parts[|parts| - 1]
  }

  /** A path part a directory walk yields: non-empty ASCII without NUL. */
  predicate PartOk(part: string) {
    ListName(part) && IsAscii(part)
  }

  /** A file as the walk finds it under the input folder: inside at least one folder, and
      every part of its path a proper name. */
  predicate FileOk(f: SourceFile) {
    f.folder != [] && PartOk(f.name) && forall i :: 0 <= i < |f.folder| ==> PartOk(f.folder[i])
  }

  /** The name of a file record's entry in `file_records`: the file's relative path. */
  function PathName(f: SourceFile): string {
    JoinPath(f.folder + [f.name])
  }

  /** A joined path of proper parts is ASCII, non-empty, and neither starts nor ends with
      NUL. */
  lemma {:induction false} JoinPathOk(parts: seq<string>)
    requires parts != [] && forall i :: 0 <= i < |parts| ==> PartOk(parts[i])
    ensures IsAscii(JoinPath(parts)) && NoEdgeNul(JoinPath(parts)) && JoinPath(parts) != []
    decreases |parts|
  {
    if |parts| > 1 {
      var n := |parts| - 1;
      JoinPathOk(parts[..n]);
      assert PartOk(parts[n]);
    } else {
      assert PartOk(parts[0]);
    }
  }

  // ================================================================ records, folder by folder

  /** The folder's name in its record block: its path with backslashes. */
  function FolderName(g: Group): string {
    JoinPath(g.folder)
  }

  /** A file record as the folder loop builds it: the hash of the lowercased file name and
      the size on disk; the offset is set once the data is written. */
  function NewRecord(f: SourceFile, hash: string -> Result<nat>): (r: Result<FileRecordValue>)
    ensures r.Ok? ==> r.value.size == |f.content| && r.value.offset == 0
  {
    var h :- hash(Lower(f.name));
    Ok(FileRecordValue(h, |f.content|, 0))
  }

  function RecordSteps(files: seq<SourceFile>, hash: string -> Result<nat>): seq<Result<FileRecordValue>> {
    seq(|files|, k requires 0 <= k < |files| => NewRecord(files[k], hash))
  }

  /** One pass of the folder loop: the hash of the folder's name, then a record per file. */
  function GroupRecords(g: Group, hash: string -> Result<nat>): (r: Result<(nat, seq<FileRecordValue>)>)
    ensures r.Ok? ==> |r.value.1| == |g.files|
  {
    var h :- hash(FolderName(g));
    var rs :- Collect(RecordSteps(g.files, hash));
    Ok((h, rs))
  }

  function GroupSteps(gs: seq<Group>, hash: string -> Result<nat>): seq<Result<(nat, seq<FileRecordValue>)>> {
    seq(|gs|, i requires 0 <= i < |gs| => GroupRecords(gs[i], hash))
  }

  /** The size of a folder's file record block: the name as a BZString (a length byte, the
      name, a NUL) and 16 bytes per file record. */
  function BlockSize(g: Group): nat {
    |FolderName(g)| + 2 + 16 * |g.files|
  }

  function BlocksSize(gs: seq<Group>): nat {
    if gs == [] then 0 else BlocksSize(gs[..|gs| - 1]) + BlockSize(gs[|gs| - 1])
  }

  /** Where the file record blocks start: after the 36-byte header and 24 bytes per folder
      record. */
  function BlocksStart(folderCount: nat): nat {
    HeaderSize + 24 * folderCount
  }

  /** A folder record's offset: where its file record block starts. */
  function FolderOffset(gs: seq<Group>, i: nat): nat
    requires i <= |gs|
  {
    BlocksStart(|gs|) + BlocksSize(gs[..i])
  }

  /** The folder records the loop builds, from the folder hashes. */
  function FolderRecords(gs: seq<Group>, hs: seq<(nat, seq<FileRecordValue>)>): (fs: seq<FolderRecordValue>)
    requires |hs| == |gs|
    ensures |fs| == |gs|
  {
    seq(|gs|, i requires 0 <= i < |gs| => FolderRecordValue(hs[i].0, |gs[i].files|, 0, FolderOffset(gs, i), 0))
  }

  /** The file records of all blocks, in the order `file_records` holds them. */
  function Flatten(hs: seq<(nat, seq<FileRecordValue>)>): seq<FileRecordValue> {
    Concat(seq(|hs|, i requires 0 <= i < |hs| => hs[i].1))
  }

  /** The names of the file name block, in walk order. */
  function FileNames(files: seq<SourceFile>): (names: seq<string>)
    ensures |names| == |files|
    ensures (forall k :: 0 <= k < |files| ==> FileOk(files[k])) ==>
      forall k :: 0 <= k < |names| ==> IsAscii(names[k]) && ListName(names[k])
  {
    seq(|files|, k requires 0 <= k < |files| => files[k].name)
  }

  /** The records built by the folder loop, and the offset where the data starts: the
      header, the folder records, the blocks and the file name block of `names`. */
  function RecordsSpec(gs: seq<Group>, names: seq<string>, hash: string -> Result<nat>):
      (r: Result<(seq<FolderRecordValue>, seq<FileRecordValue>, nat)>)
    requires forall k :: 0 <= k < |names| ==> IsAscii(names[k])
    ensures r.Ok? ==> r.value.2 == BlocksStart(|gs|) + BlocksSize(gs) + |DumpList(names)|
  {
    var hs :- Collect(GroupSteps(gs, hash));
    Ok((FolderRecords(gs, hs), Flatten(hs), BlocksStart(|gs|) + BlocksSize(gs) + |DumpList(names)|))
  }

  /** The inner loop: one record per file of the folder, after the folder's hash. */
  method BuildGroup(g: Group, hash: string -> Result<nat>) returns (res: Result<(nat, seq<FileRecordValue>)>)
    ensures res == GroupRecords(g, hash)
  {
    var h := hash(FolderName(g));
    if h.Err? {
      return Err(h.error);
    }
    var steps := RecordSteps(g.files, hash);
    var records: seq<FileRecordValue> := [];
    for k := 0 to |g.files|
      invariant |records| == k
      invariant forall j :: 0 <= j < k ==> steps[j] == Ok(records[j])
    {
      var fh := hash(Lower(g.files[k].name));
      if fh.Err? {
        CollectErr(steps, k);
        return Err(fh.error);
      }
      records := records + [FileRecordValue(fh.value, |g.files[k].content|, 0)];
    }
    CollectOk(steps, records);
    res := Ok((h.value, records));
  }

  /** The folder loop of `create_archive`, threading `current_offset` through the blocks. */
  method BuildRecords(gs: seq<Group>, names: seq<string>, hash: string -> Result<nat>)
    returns (res: Result<(seq<FolderRecordValue>, seq<FileRecordValue>, nat)>)
    requires forall k :: 0 <= k < |names| ==> IsAscii(names[k])
    ensures res == RecordsSpec(gs, names, hash)
  {
    var steps := GroupSteps(gs, hash);
    var offset: nat := BlocksStart(|gs|);
    var done: seq<(nat, seq<FileRecordValue>)> := [];
    var folders: seq<FolderRecordValue> := [];
    var records: seq<FileRecordValue> := [];
    for i := 0 to |gs|
      invariant Built(gs, steps, i, done, folders, records, offset)
    {
      var group := BuildGroup(gs[i], hash);
      assert steps[i] == group;
      if group.Err? {
        RecordsErr(gs, names, hash, steps, i);
        return Err(group.error);
      }
      BuildStep(gs, steps, i, done, folders, records, offset, group.value);
      folders := folders + [FolderRecordValue(group.value.0, |gs[i].files|, 0, offset, 0)];
      records := records + group.value.1;
      done := done + [group.value];
      offset := offset + |FolderName(gs[i])| + 2 + 16 * |group.value.1|;
    }
    BuildDone(gs, steps, done, folders, records, offset);
    RecordsOk(gs, names, hash, done);
    res := Ok((folders, records, offset + |DumpList(names)|));
  }

  /** The folder records of the first `i` folders. */
  function FoldersSoFar(gs: seq<Group>, done: seq<(nat, seq<FileRecordValue>)>, i: nat): seq<FolderRecordValue>
    requires i <= |gs| && i <= |done|
  {
    seq(i, j requires 0 <= j < i => FolderRecordValue(done[j].0, |gs[j].files|, 0, FolderOffset(gs, j), 0))
  }

  /** The folder loop's state after `i` folders. */
  ghost predicate Built(gs: seq<Group>, steps: seq<Result<(nat, seq<FileRecordValue>)>>, i: nat,
                        done: seq<(nat, seq<FileRecordValue>)>, folders: seq<FolderRecordValue>,
                        records: seq<FileRecordValue>, offset: nat)
  {
    i <= |gs| && |steps| == |gs| && |done| == i &&
    (forall j :: 0 <= j < i ==> steps[j] == Ok(done[j])) &&
    folders == FoldersSoFar(gs, done, i) && records == Flatten(done) && offset == FolderOffset(gs, i)
  }

  /** One folder more keeps the state. */
  lemma {:induction false} BuildStep(gs: seq<Group>, steps: seq<Result<(nat, seq<FileRecordValue>)>>, i: nat,
                  done: seq<(nat, seq<FileRecordValue>)>, folders: seq<FolderRecordValue>,
                  records: seq<FileRecordValue>, offset: nat, group: (nat, seq<FileRecordValue>))
    requires Built(gs, steps, i, done, folders, records, offset) && i < |gs|
    requires steps[i] == Ok(group) && |group.1| == |gs[i].files|
    ensures Built(gs, steps, i + 1, done + [group],
                  folders + [FolderRecordValue(group.0, |gs[i].files|, 0, offset, 0)],
                  records + group.1, offset + |FolderName(gs[i])| + 2 + 16 * |group.1|)
  {
    var next := done + [group];
    assert FoldersSoFar(gs, next, i + 1) == folders + [FolderRecordValue(group.0, |gs[i].files|, 0, offset, 0)] by {
      FoldersSnoc(gs, done, group, i);
    }
    FlattenSnoc(done, group);
    OffsetStep(gs, i);
  }

  lemma {:induction false} FoldersSnoc(gs: seq<Group>, done: seq<(nat, seq<FileRecordValue>)>, group: (nat, seq<FileRecordValue>), i: nat)
    requires i < |gs| && |done| == i
    ensures FoldersSoFar(gs, done + [group], i + 1)
         == FoldersSoFar(gs, done, i) + [FolderRecordValue(group.0, |gs[i].files|, 0, FolderOffset(gs, i), 0)]
  {
  }

  lemma {:induction false} FlattenSnoc(done: seq<(nat, seq<FileRecordValue>)>, group: (nat, seq<FileRecordValue>))
    ensures Flatten(done + [group]) == Flatten(done) + group.1
  {
    var next := done + [group];
    var parts := seq(|next|, j requires 0 <= j < |next| => next[j].1);
    assert parts[..|done|] == seq(|done|, j requires 0 <= j < |done| => done[j].1);
  }

  /** The running offset moves past one block. */
  lemma {:induction false} OffsetStep(gs: seq<Group>, i: nat)
    requires i < |gs|
    ensures FolderOffset(gs, i + 1) == FolderOffset(gs, i) + BlockSize(gs[i])
  {
    assert gs[..i + 1][..i] == gs[..i];
  }

  /** A folder whose hashing fails, after folders that succeed, is the error. */
  lemma {:induction false} RecordsErr(gs: seq<Group>, names: seq<string>, hash: string -> Result<nat>, steps: seq<Result<(nat, seq<FileRecordValue>)>>, i: nat)
    requires forall k :: 0 <= k < |names| ==> IsAscii(names[k])
    requires steps == GroupSteps(gs, hash) && i < |gs| && steps[i].Err?
    requires forall j :: 0 <= j < i ==> steps[j].Ok?
    ensures RecordsSpec(gs, names, hash) == Err(steps[i].error)
  {
    CollectErr(steps, i);
  }

  lemma {:induction false} RecordsOk(gs: seq<Group>, names: seq<string>, hash: string -> Result<nat>, hs: seq<(nat, seq<FileRecordValue>)>)
    requires forall k :: 0 <= k < |names| ==> IsAscii(names[k])
    requires Collect(GroupSteps(gs, hash)) == Ok(hs)
    ensures RecordsSpec(gs, names, hash)
         == Ok((FolderRecords(gs, hs), Flatten(hs), BlocksStart(|gs|) + BlocksSize(gs) + |DumpList(names)|))
  {
  }

  /** After the last folder the state holds every folder's records. */
  lemma {:induction false} BuildDone(gs: seq<Group>, steps: seq<Result<(nat, seq<FileRecordValue>)>>,
                  done: seq<(nat, seq<FileRecordValue>)>, folders: seq<FolderRecordValue>,
                  records: seq<FileRecordValue>, offset: nat)
    requires Built(gs, steps, |gs|, done, folders, records, offset)
    ensures Collect(steps) == Ok(done)
    ensures folders == FolderRecords(gs, done) && records == Flatten(done)
    ensures offset == BlocksStart(|gs|) + BlocksSize(gs)
  {
    CollectOk(steps, done);
    assert gs[..|gs|] == gs;
  }

  // ================================================================ the file data

  /** Every file's record path is ASCII. */
  predicate PathsAscii(all: seq<SourceFile>) {
    forall k :: 0 <= k < |all| ==> IsAscii(PathName(all[k]))
  }

  function StoreSteps(all: seq<SourceFile>, embed: bool, compressedArchive: bool,
                      compress: seq<Byte> -> seq<Byte>): seq<Result<(seq<Byte>, int)>>
    requires PathsAscii(all)
  {
    seq(|all|, k requires 0 <= k < |all| && PathsAscii(all) =>
      StoredSpec(PathName(all[k]), all[k].content, embed, compressedArchive, compress))
  }

  /** The records with the sizes the data loop leaves in them. */
  function Resized(records: seq<FileRecordValue>, stored: seq<(seq<Byte>, int)>): (rs: seq<FileRecordValue>)
    requires |stored| == |records|
    ensures |rs| == |records|
  {
    seq(|records|, k requires 0 <= k < |records| => records[k].(size := stored[k].1))
  }

  function StoredBytes(stored: seq<(seq<Byte>, int)>): seq<Byte> {
    Concat(seq(|stored|, k requires 0 <= k < |stored| => stored[k].0))
  }

  /** The data loop: each file's stored bytes written after the placeholder, in the order of
      `file_records`, and each record's size set to what was stored for it. */
  function DataSpec(records: seq<FileRecordValue>, all: seq<SourceFile>, embed: bool,
                    compressedArchive: bool, compress: seq<Byte> -> seq<Byte>):
      (r: Result<(seq<FileRecordValue>, seq<Byte>)>)
    requires |records| == |all| && PathsAscii(all)
    ensures r.Ok? ==> |r.value.0| == |records|
  {
    var stored :- Collect(StoreSteps(all, embed, compressedArchive, compress));
    Ok((Resized(records, stored), StoredBytes(stored)))
  }

  /** One pass of the data loop (lines for one file): the name as a BString when names are
      embedded, then the 4-byte size and the compressed bytes or the plain content; the size
      the record keeps. */
  method StoreFile(name: string, content: seq<Byte>, embed: bool, compressedArchive: bool,
                   compress: seq<Byte> -> seq<Byte>)
    returns (res: Result<(seq<Byte>, int)>)
    requires IsAscii(name)
    ensures res == StoredSpec(name, content, embed, compressedArchive, compress)
  {
    var text: seq<Byte> := [];
    var size := |content|;
    if embed {
      var dumped := DumpBString(name);
      if dumped.Err? {
        return Err(dumped.error);
      }
      text := dumped.value;
      size := size + |name| + 1;
    }
    var body: seq<Byte>;
    if compressedArchive {
      var packed := compress(content);
      var original := IntegerDump(size, ULong);
      if original.Err? {
        return Err(original.error);
      }
      body := original.value + packed;
      size := |packed| + 4;
      if embed {
        size := size + |name| + 1;
      }
    } else {
      body := content;
    }
    res := Ok((text + body, size));
  }

  /** The data loop of `create_archive`. */
  method WriteData(records: seq<FileRecordValue>, all: seq<SourceFile>, embed: bool,
                   compressedArchive: bool, compress: seq<Byte> -> seq<Byte>)
    returns (res: Result<(seq<FileRecordValue>, seq<Byte>)>)
    requires |records| == |all| && PathsAscii(all)
    ensures res == DataSpec(records, all, embed, compressedArchive, compress)
  {
    var steps := StoreSteps(all, embed, compressedArchive, compress);
    var stored: seq<(seq<Byte>, int)> := [];
    var updated := records;
    var written: seq<Byte> := [];
    for k := 0 to |all|
      invariant |stored| == k && forall j :: 0 <= j < k ==> steps[j] == Ok(stored[j])
      invariant |updated| == |records|
      invariant forall j :: 0 <= j < |records| ==> updated[j] == if j < k then records[j].(size := stored[j].1) else records[j]
      invariant written == StoredBytes(stored)
    {
      var s := StoreFile(PathName(all[k]), all[k].content, embed, compressedArchive, compress);
      if s.Err? {
        DataErr(records, all, embed, compressedArchive, compress, steps, k);
        return Err(s.error);
      }
      StoredSnoc(stored, s.value);
      stored := stored + [s.value];
      updated := updated[k := updated[k].(size := s.value.1)];
      written := written + s.value.0;
    }
    DataOk(records, all, embed, compressedArchive, compress, steps, stored, updated);
    res := Ok((updated, written));
  }

  lemma {:induction false} StoredSnoc(stored: seq<(seq<Byte>, int)>, s: (seq<Byte>, int))
    ensures StoredBytes(stored + [s]) == StoredBytes(stored) + s.0
  {
    var next := stored + [s];
    var parts := seq(|next|, k requires 0 <= k < |next| => next[k].0);
    assert parts[..|stored|] == seq(|stored|, k requires 0 <= k < |stored| => stored[k].0);
  }

  lemma {:induction false} DataErr(records: seq<FileRecordValue>, all: seq<SourceFile>, embed: bool,
                                   compressedArchive: bool, compress: seq<Byte> -> seq<Byte>,
                                   steps: seq<Result<(seq<Byte>, int)>>, k: nat)
    requires |records| == |all| && PathsAscii(all)
    requires steps == StoreSteps(all, embed, compressedArchive, compress)
    requires k < |all| && steps[k].Err? && forall j :: 0 <= j < k ==> steps[j].Ok?
    ensures DataSpec(records, all, embed, compressedArchive, compress) == Err(steps[k].error)
  {
    CollectErr(steps, k);
  }

  lemma {:induction false} DataOk(records: seq<FileRecordValue>, all: seq<SourceFile>, embed: bool,
                                  compressedArchive: bool, compress: seq<Byte> -> seq<Byte>,
                                  steps: seq<Result<(seq<Byte>, int)>>, stored: seq<(seq<Byte>, int)>,
                                  updated: seq<FileRecordValue>)
    requires |records| == |all| && PathsAscii(all)
    requires steps == StoreSteps(all, embed, compressedArchive, compress)
    requires |stored| == |all| && forall j :: 0 <= j < |all| ==> steps[j] == Ok(stored[j])
    requires |updated| == |records| && forall j :: 0 <= j < |records| ==> updated[j] == records[j].(size := stored[j].1)
    ensures DataSpec(records, all, embed, compressedArchive, compress) == Ok((updated, StoredBytes(stored)))
  {
    CollectOk(steps, stored);
    assert updated == Resized(records, stored);
  }

  // ================================================================ offsets

  /** The sizes of the records, added up. */
  function TotalSize(records: seq<FileRecordValue>): int {
    if records == [] then 0 else TotalSize(records[..|records| - 1]) + records[|records| - 1].size
  }

  /** The offset loop: each record's offset is where its data starts, the data of the
      records before it laid end to end from `start`. */
  function Placed(records: seq<FileRecordValue>, start: int): (rs: seq<FileRecordValue>)
    ensures |rs| == |records|
  {
    seq(|records|, k requires 0 <= k < |records| => records[k].(offset := start + TotalSize(records[..k])))
  }

  /** The offset loop of `create_archive`: `current_offset` runs on from the data start. */
  method PlaceRecords(records: seq<FileRecordValue>, start: int) returns (placed: seq<FileRecordValue>, end: int)
    ensures placed == Placed(records, start)
    ensures end == start + TotalSize(records)
  {
    placed := records;
    end := start;
    for k := 0 to |records|
      invariant PlacedSoFar(records, start, k, placed, end)
    {
      PlaceStep(records, start, k, placed, end);
      placed := placed[k := placed[k].(offset := end)];
      end := end + records[k].size;
    }
    PlaceDone(records, start, placed, end);
  }

  /** The offset loop's state after `k` records. */
  ghost predicate PlacedSoFar(records: seq<FileRecordValue>, start: int, k: nat, placed: seq<FileRecordValue>, end: int) {
    k <= |records| && |placed| == |records| && end == start + TotalSize(records[..k]) &&
    (forall j :: 0 <= j < k ==> placed[j] == records[j].(offset := start + TotalSize(records[..j]))) &&
    placed[k..] == records[k..]
  }

  lemma {:induction false} PlaceStep(records: seq<FileRecordValue>, start: int, k: nat, placed: seq<FileRecordValue>, end: int)
    requires PlacedSoFar(records, start, k, placed, end) && k < |records|
    ensures PlacedSoFar(records, start, k + 1, placed[k := placed[k].(offset := end)], end + records[k].size)
  {
    assert records[..k + 1][..k] == records[..k];
    assert placed[k] == records[k] by {
      assert placed[k..][0] == records[k..][0];
    }
    var next := placed[k := placed[k].(offset := end)];
    assert next[k + 1..] == placed[k + 1..] == records[k + 1..] by {
      assert placed[k + 1..] == placed[k..][1..];
      assert records[k + 1..] == records[k..][1..];
    }
  }

  lemma {:induction false} PlaceDone(records: seq<FileRecordValue>, start: int, placed: seq<FileRecordValue>, end: int)
    requires PlacedSoFar(records, start, |records|, placed, end)
    ensures placed == Placed(records, start) && end == start + TotalSize(records)
  {
    assert records[..|records|] == records;
    var spec := Placed(records, start);
    forall j | 0 <= j < |records| ensures placed[j] == spec[j] {
    }
  }

  // ================================================================ files and records

  /** A folder path the walk yields: at least one part, every part a proper name. */
  predicate FolderOk(folder: seq<string>) {
    folder != [] && forall i :: 0 <= i < |folder| ==> PartOk(folder[i])
  }

  predicate GroupsOk(gs: seq<Group>) {
    forall i :: 0 <= i < |gs| ==> FolderOk(gs[i].folder)
  }

  /** The files of a group list are the concatenation of the groups' files. */
  lemma {:induction false} AllFilesConcat(gs: seq<Group>)
    ensures AllFiles(gs) == Concat(seq(|gs|, i requires 0 <= i < |gs| => gs[i].files))
    decreases |gs|
  {
    if gs != [] {
      var n := |gs| - 1;
      AllFilesConcat(gs[..n]);
      var parts := seq(|gs|, i requires 0 <= i < |gs| => gs[i].files);
      assert parts[..n] == seq(n, i requires 0 <= i < n => gs[..n][i].files);
    }
  }

  /** Concatenations of lists related element by element are related element by element. */
  lemma {:induction false} ConcatPointwise<A, B>(xs: seq<seq<A>>, ys: seq<seq<B>>, rel: (A, B) -> bool)
    requires |xs| == |ys|
    requires forall i :: 0 <= i < |xs| ==> |xs[i]| == |ys[i]|
    requires forall i, k :: 0 <= i < |xs| && 0 <= k < |xs[i]| ==> rel(xs[i][k], ys[i][k])
    ensures |Concat(xs)| == |Concat(ys)|
    ensures forall k :: 0 <= k < |Concat(xs)| ==> rel(Concat(xs)[k], Concat(ys)[k])
    decreases |xs|
  {
    if xs != [] {
      var n := |xs| - 1;
      ConcatPointwise(xs[..n], ys[..n], rel);
      var a, b := Concat(xs[..n]), Concat(ys[..n]);
      assert Concat(xs) == a + xs[n] && Concat(ys) == b + ys[n];
      forall k | 0 <= k < |Concat(xs)| ensures rel(Concat(xs)[k], Concat(ys)[k]) {
        if k >= |a| {
          assert rel(xs[n][k - |a|], ys[n][k - |b|]);
        }
      }
    }
  }

  /** The records of `file_records` are those of the files in group order: the k-th holds
      the hash of the k-th file's lowercased name and that file's size. */
  lemma {:induction false} RecordsMatchFiles(gs: seq<Group>, hash: string -> Result<nat>,
                                             hs: seq<(nat, seq<FileRecordValue>)>)
    requires Collect(GroupSteps(gs, hash)) == Ok(hs)
    ensures |Flatten(hs)| == |AllFiles(gs)|
    ensures forall k :: 0 <= k < |AllFiles(gs)| ==> NewRecord(AllFiles(gs)[k], hash) == Ok(Flatten(hs)[k])
  {
    var steps := GroupSteps(gs, hash);
    CollectValues(steps);
    var xs := seq(|hs|, i requires 0 <= i < |hs| => hs[i].1);
    var ys := seq(|gs|, i requires 0 <= i < |gs| => gs[i].files);
    forall i | 0 <= i < |gs|
      ensures |xs[i]| == |ys[i]|
      ensures forall k :: 0 <= k < |xs[i]| ==> NewRecord(ys[i][k], hash) == Ok(xs[i][k])
    {
      assert GroupRecords(gs[i], hash) == Ok(hs[i]);
      var rsteps := RecordSteps(gs[i].files, hash);
      assert Collect(rsteps) == Ok(hs[i].1);
      CollectValues(rsteps);
    }
    var rel := (r: FileRecordValue, f: SourceFile) => NewRecord(f, hash) == Ok(r);
    ConcatPointwise(xs, ys, rel);
    AllFilesConcat(gs);
  }

  /** Files the walk yields give groups with proper folder paths, and record paths that are
      ASCII and free of NUL at the edges. */
  lemma {:induction false} GroupsFromFiles(files: seq<SourceFile>)
    requires forall k :: 0 <= k < |files| ==> FileOk(files[k])
    ensures GroupsOk(GroupSpec(files)) && PathsAscii(AllFiles(GroupSpec(files)))
    ensures forall k :: 0 <= k < |AllFiles(GroupSpec(files))| ==> FileOk(AllFiles(GroupSpec(files))[k])
  {
    var gs := GroupSpec(files);
    GroupSpecWellGrouped(files);
    var all := AllFiles(gs);
    forall k | 0 <= k < |all| ensures FileOk(all[k]) {
      assert all[k] in multiset(files);
    }
    forall i | 0 <= i < |gs| ensures FolderOk(gs[i].folder) {
      assert GroupOk(gs[i]);
      AllFilesHas(gs, i);
      assert gs[i].files[0] in multiset(files);
    }
    forall k | 0 <= k < |all| ensures IsAscii(PathName(all[k])) {
      PathNameOk(all[k]);
    }
  }

  /** A file's record path is ASCII and neither starts nor ends with NUL. */
  lemma PathNameOk(f: SourceFile)
    requires FileOk(f)
    ensures IsAscii(PathName(f)) && NoEdgeNul(PathName(f))
  {
    JoinPathOk(f.folder + [f.name]);
  }

  // ================================================================ the index

  /** How many files the first `i` folders hold: where folder i's records start. */
  function FilesBefore(gs: seq<Group>, i: nat): nat
    requires i <= |gs|
  {
    |AllFiles(gs[..i])|
  }

  lemma {:induction false} FilesBeforeStep(gs: seq<Group>, i: nat)
    requires i < |gs|
    ensures FilesBefore(gs, i + 1) == FilesBefore(gs, i) + |gs[i].files|
  {
    assert gs[..i + 1][..i] == gs[..i];
  }

  lemma {:induction false} FilesBeforeMono(gs: seq<Group>, i: nat, j: nat)
    requires i <= j <= |gs|
    ensures FilesBefore(gs, i) <= FilesBefore(gs, j)
    decreases j - i
  {
    if i < j {
      FilesBeforeStep(gs, j - 1);
      FilesBeforeMono(gs, i, j - 1);
    }
  }

  lemma FilesBeforeAll(gs: seq<Group>)
    ensures FilesBefore(gs, |gs|) == |AllFiles(gs)|
  {
    assert gs[..|gs|] == gs;
  }

  /** Folder i's block holds the records `file_records` holds for its files: the same
      records, so the sizes and offsets set later show in the block. */
  function BlockRecords(records: seq<FileRecordValue>, gs: seq<Group>, i: nat): (rs: seq<FileRecordValue>)
    requires i < |gs| && |records| == |AllFiles(gs)|
    ensures |rs| == |gs[i].files|
  {
    FilesBeforeStep(gs, i);
    FilesBeforeMono(gs, i + 1, |gs|);
    FilesBeforeAll(gs);
    records[FilesBefore(gs, i)..FilesBefore(gs, i + 1)]
  }

  /** The folder's name as it goes into the folder-name list and its block. */
  function FolderNames(gs: seq<Group>): (names: seq<string>)
    requires GroupsOk(gs)
    ensures |names| == |gs|
    ensures forall i :: 0 <= i < |gs| ==> IsAscii(names[i])
  {
    FolderNamesOk(gs);
    seq(|gs|, i requires 0 <= i < |gs| => FolderName(gs[i]))
  }

  lemma FolderNamesOk(gs: seq<Group>)
    requires GroupsOk(gs)
    ensures forall i :: 0 <= i < |gs| ==> IsAscii(FolderName(gs[i]))
  {
    forall i | 0 <= i < |gs| ensures IsAscii(FolderName(gs[i])) {
      FolderNameOk(gs[i]);
    }
  }

  lemma FolderNameOk(g: Group)
    requires FolderOk(g.folder)
    ensures IsAscii(FolderName(g)) && NoEdgeNul(FolderName(g)) && FolderName(g) != []
  {
    JoinPathOk(g.folder);
  }

  /** `file_record_block.dump()` of folder i. */
  function BlockDump(records: seq<FileRecordValue>, gs: seq<Group>, i: nat): Result<seq<Byte>>
    requires i < |gs| && |records| == |AllFiles(gs)| && GroupsOk(gs)
  {
    FolderNameOk(gs[i]);
    DumpBlockSpec(FolderName(gs[i]), BlockRecords(records, gs, i))
  }

  /** `b"".join(folder_record.dump() for ...)`. */
  function FolderDumps(folders: seq<FolderRecordValue>): Result<seq<Byte>> {
    var parts :- Collect(seq(|folders|, i requires 0 <= i < |folders| => DumpFolderSpec(folders[i])));
    Ok(Concat(parts))
  }

  /** `b"".join(file_record_block.dump() for ...)`. */
  function BlockDumps(records: seq<FileRecordValue>, gs: seq<Group>): Result<seq<Byte>>
    requires |records| == |AllFiles(gs)| && GroupsOk(gs)
  {
    var parts :- Collect(seq(|gs|, i requires 0 <= i < |gs| && |records| == |AllFiles(gs)| && GroupsOk(gs) =>
                                 BlockDump(records, gs, i)));
    Ok(Concat(parts))
  }

  /** The index written over the placeholder: header, folder records, blocks, file names. */
  function IndexSpec(h: HeaderValue, folders: seq<FolderRecordValue>, gs: seq<Group>,
                     records: seq<FileRecordValue>, names: seq<string>): Result<seq<Byte>>
    requires |records| == |AllFiles(gs)| && GroupsOk(gs)
    requires forall k :: 0 <= k < |names| ==> IsAscii(names[k])
  {
    var header :- DumpHeaderSpec(h);
    var fs :- FolderDumps(folders);
    var bs :- BlockDumps(records, gs);
    Ok(header + fs + bs + DumpList(names))
  }

  // ================================================================ create_archive

  /** The archive `create_archive` lays out: the folder dict, the header, the folder
      records, the file records (in `file_records` order) with their final sizes and
      offsets, where the data starts, the index, the data, and the bytes of the file. */
  datatype Created = Created(
    groups: seq<Group>,
    header: HeaderValue,
    folders: seq<FolderRecordValue>,
    records: seq<FileRecordValue>,
    dataStart: nat,
    index: seq<Byte>,
    data: seq<Byte>,
    bytes: seq<Byte>)

  /** `list(folders.keys())`. */
  function FolderKeys(gs: seq<Group>): (ks: seq<seq<string>>)
    ensures |ks| == |gs|
    ensures GroupsOk(gs) ==> forall i :: 0 <= i < |ks| ==> ks[i] != []
  {
    seq(|gs|, i requires 0 <= i < |gs| => gs[i].folder)
  }

  /** `d.update(other)` when `other` is given. */
  function Updated(d: map<nat, bool>, other: Option<map<nat, bool>>): map<nat, bool> {
    if other.Some? then d + other.value else d
  }

  /** The header `create_archive` fills in: counts, the lengths of the two name lists as
      dumped, the archive flags after the update and the file flags. */
  function CreatedHeader(gs: seq<Group>, files: seq<SourceFile>, archiveFlags: map<nat, bool>,
                         fileFlags: map<nat, bool>): HeaderValue
    requires GroupsOk(gs) && forall k :: 0 <= k < |files| ==> FileOk(files[k])
  {
    HeaderValue(BsaId, SupportedVersion, HeaderSize, archiveFlags, |gs|, |files|,
                |DumpList(FolderNames(gs))|, |DumpList(FileNames(files))|, fileFlags, 0)
  }

  /** The file's bytes after `seek(0)` and writing `prefix` over what was written. */
  function Overwrite(written: seq<Byte>, prefix: seq<Byte>): seq<Byte> {
    prefix + Drop(written, |prefix|)
  }

  /** The zero placeholder of `n` bytes. */
  function Zeros(n: nat): (z: seq<Byte>)
    ensures |z| == n
  {
    seq(n, _ => 0)
  }

  /** `create_archive(input_folder, output_file, archive_flags, file_flags)` on the files the
      walk finds, with `classFlags` the class-level archive flags it starts from. */
  function CreateSpec(isDir: bool, files: seq<SourceFile>, classFlags: map<nat, bool>,
                      archiveFlags: Option<map<nat, bool>>, fileFlags: Option<map<nat, bool>>,
                      compress: seq<Byte> -> seq<Byte>): Result<Created>
    requires forall k :: 0 <= k < |files| ==> FileOk(files[k])
  {
    if !isDir then Err(ValueErr)
    else if files == [] then Err(NoElements)
    else
      var gs := GroupSpec(files);
      GroupsFromFiles(files);
      var names := FileNames(files);
      var flags := Updated(classFlags, archiveFlags);
      var header := CreatedHeader(gs, files, flags, Updated(FileFlagsSpec(FolderKeys(gs)), fileFlags));
      if EmbedFileNames !in flags || (flags[EmbedFileNames] && CompressedArchive !in flags) then Err(KeyErr)
      else
        LayoutSpec(gs, files, header, flags[EmbedFileNames], CompressedArchive in flags,
                   if CompressedArchive in flags then flags[CompressedArchive] else false, compress)
  }

  /** The part of `create_archive` after the flag checks: the folder loop, the data loop,
      the offset loop and the index. `hasCompressed` says whether the archive flags hold
      CompressedArchive at all. */
  function LayoutSpec(gs: seq<Group>, files: seq<SourceFile>, header: HeaderValue, embed: bool,
                      hasCompressed: bool, compressedArchive: bool,
                      compress: seq<Byte> -> seq<Byte>): Result<Created>
    requires GroupsOk(gs) && PathsAscii(AllFiles(gs))
    requires forall k :: 0 <= k < |files| ==> FileOk(files[k])
  {
    var names := FileNames(files);
    var built :- RecordsSpec(gs, names, HashOf);
    var (folders, records, dataStart) := built;
    RecordsCount(gs, names, HashOf);
    if !hasCompressed then Err(KeyErr)
    else
      var written :- DataSpec(records, AllFiles(gs), embed, compressedArchive, compress);
      var placed := Placed(written.0, dataStart);
      var index :- IndexSpec(header, folders, gs, placed, names);
      Ok(Created(gs, header, folders, placed, dataStart, index, written.1,
                 Overwrite(Zeros(dataStart) + written.1, index)))
  }

  /** The folder loop builds one record per file. */
  lemma RecordsCount(gs: seq<Group>, names: seq<string>, hash: string -> Result<nat>)
    requires forall k :: 0 <= k < |names| ==> IsAscii(names[k])
    ensures RecordsSpec(gs, names, hash).Ok? ==> |RecordsSpec(gs, names, hash).value.1| == |AllFiles(gs)|
  {
    var hs := Collect(GroupSteps(gs, hash));
    if hs.Ok? {
      RecordsMatchFiles(gs, hash, hs.value);
    }
  }

  /** `create_archive`. `classFlags` is the class-level `Header.archive_flags` dict, which
      the update changes for every later `Header()`. */
  method CreateArchive(isDir: bool, files: seq<SourceFile>, classFlags: FlagStore,
                       archiveFlags: Option<map<nat, bool>>, fileFlags: Option<map<nat, bool>>,
                       compress: seq<Byte> -> seq<Byte>)
    returns (res: Result<seq<Byte>>)
    requires forall k :: 0 <= k < |files| ==> FileOk(files[k])
    modifies classFlags
    ensures var spec := CreateSpec(isDir, files, old(classFlags.flags), archiveFlags, fileFlags, compress);
      res == if spec.Ok? then Ok(spec.value.bytes) else Err(spec.error)
    ensures classFlags.flags == if isDir && files != [] then Updated(old(classFlags.flags), archiveFlags)
                                else old(classFlags.flags)
  {
    if !isDir {
      return Err(ValueErr);
    }
    var groups := GroupByFolder(files);
    var names := FileNames(files);
    if groups == [] || names == [] {
      return Err(NoElements);
    }
    GroupsFromFiles(files);
    var header := CreatedHeader(groups, files, classFlags.flags, map[]);
    var fileFlagsMap := CreateFileFlags(FolderKeys(groups));
    if archiveFlags.Some? {
      classFlags.flags := classFlags.flags + archiveFlags.value;
    }
    if fileFlags.Some? {
      fileFlagsMap := fileFlagsMap + fileFlags.value;
    }
    header := header.(archiveFlags := classFlags.flags, fileFlags := fileFlagsMap);
    var flags := classFlags.flags;
    if EmbedFileNames !in flags || (flags[EmbedFileNames] && CompressedArchive !in flags) {
      return Err(KeyErr);
    }
    res := WriteArchive(groups, files, header, flags[EmbedFileNames], CompressedArchive in flags,
                        if CompressedArchive in flags then flags[CompressedArchive] else false, compress);
  }

  /** The folder loop, the data loop, the offset loop and the index of `create_archive`. */
  method WriteArchive(gs: seq<Group>, files: seq<SourceFile>, header: HeaderValue, embed: bool,
                      hasCompressed: bool, compressedArchive: bool, compress: seq<Byte> -> seq<Byte>)
    returns (res: Result<seq<Byte>>)
    requires GroupsOk(gs) && PathsAscii(AllFiles(gs))
    requires forall k :: 0 <= k < |files| ==> FileOk(files[k])
    ensures var spec := LayoutSpec(gs, files, header, embed, hasCompressed, compressedArchive, compress);
      res == if spec.Ok? then Ok(spec.value.bytes) else Err(spec.error)
  {
    var names := FileNames(files);
    var built := BuildRecords(gs, names, HashOf);
    if built.Err? {
      return Err(built.error);
    }
    var (folders, records, dataStart) := built.value;
    RecordsCount(gs, names, HashOf);
    if !hasCompressed {
      return Err(KeyErr);
    }
    var written := WriteData(records, AllFiles(gs), embed, compressedArchive, compress);
    if written.Err? {
      return Err(written.error);
    }
    var placed, end := PlaceRecords(written.value.0, dataStart);
    var index := IndexSpec(header, folders, gs, placed, names);
    if index.Err? {
      return Err(index.error);
    }
    res := Ok(Overwrite(Zeros(dataStart) + written.value.1, index.value));
  }
}
