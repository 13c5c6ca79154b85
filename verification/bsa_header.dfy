/** The 36-byte archive header: file id, version 105, header size, the archive and
    file-type flag sets and the counts and name-table lengths of the index. */
module BsaHeader {
  import opened Wrappers
  import opened Bytes
  import opened Streams
  import opened Bits
  import opened BsaDatatypes

  // ---------------------------------------------------------------- ArchiveFlags

  const IncludeDirectoryNames: nat := 0x1
  const IncludeFileNames: nat := 0x2
  const CompressedArchive: nat := 0x4
  const RetainDirectoryNames: nat := 0x8
  const RetainFileNames: nat := 0x10
  const RetainFileNameOffsets: nat := 0x20
  const Xbox360Archive: nat := 0x40
  const RetainStringsDuringStartup: nat := 0x80
  const EmbedFileNames: nat := 0x100
  const XMemCodec: nat := 0x200
  const ArchiveFlagCount: nat := 10

  // ---------------------------------------------------------------- FileFlags

  const Meshes: nat := 0x1
  const Textures: nat := 0x2
  const Menus: nat := 0x4
  const Sounds: nat := 0x8
  const Voices: nat := 0x10
  const Shaders: nat := 0x20
  const Trees: nat := 0x40
  const Fonts: nat := 0x80
  const Miscellaneous: nat := 0x100
  const FileFlagCount: nat := 9

  /** The members of both flag classes are the consecutive bits 2^0, 2^1, ... */
  lemma FlagBits()
    ensures IncludeDirectoryNames == Pow2(0) && IncludeFileNames == Pow2(1)
    ensures CompressedArchive == Pow2(2) && RetainDirectoryNames == Pow2(3)
    ensures RetainFileNames == Pow2(4) && RetainFileNameOffsets == Pow2(5)
    ensures Xbox360Archive == Pow2(6) && RetainStringsDuringStartup == Pow2(7)
    ensures EmbedFileNames == Pow2(8) && XMemCodec == Pow2(9)
    ensures Meshes == Pow2(0) && Textures == Pow2(1) && Menus == Pow2(2)
    ensures Sounds == Pow2(3) && Voices == Pow2(4) && Shaders == Pow2(5)
    ensures Trees == Pow2(6) && Fonts == Pow2(7) && Miscellaneous == Pow2(8)
  {
    assert Pow2(2) == 4;
    assert Pow2(4) == 16;
    assert Pow2(6) == 64;
    assert Pow2(8) == 256;
  }

  /** The class-level default of `archive_flags`: the first six flags set. */
  const DefaultArchiveFlags: map<nat, bool> := map[
    IncludeDirectoryNames := true, IncludeFileNames := true, CompressedArchive := true,
    RetainDirectoryNames := true, RetainFileNames := true, RetainFileNameOffsets := true,
    Xbox360Archive := false, RetainStringsDuringStartup := false,
    EmbedFileNames := false, XMemCodec := false]

  /** The class-level default of `file_flags`: every file type cleared. */
  const DefaultFileFlags: map<nat, bool> := map[
    Meshes := false, Textures := false, Menus := false, Sounds := false, Voices := false,
    Shaders := false, Trees := false, Fonts := false, Miscellaneous := false]

  /** The defaults name every member of their flag class, and the archive default is
      compressed without embedded names. */
  lemma Defaults()
    ensures DefaultArchiveFlags.Keys == Members(ArchiveFlagCount)
    ensures DefaultFileFlags.Keys == Members(FileFlagCount)
    ensures DefaultArchiveFlags[CompressedArchive] && !DefaultArchiveFlags[EmbedFileNames]
    ensures forall f :: f in DefaultFileFlags ==> !DefaultFileFlags[f]
  {
    FlagBits();
    assert Members(ArchiveFlagCount) == {Pow2(0), Pow2(1), Pow2(2), Pow2(3), Pow2(4),
      Pow2(5), Pow2(6), Pow2(7), Pow2(8), Pow2(9)};
    assert Members(FileFlagCount) == {Pow2(0), Pow2(1), Pow2(2), Pow2(3), Pow2(4),
      Pow2(5), Pow2(6), Pow2(7), Pow2(8)};
  }

  /** The bytes of `b"BSA\x00"`. */
  const BsaId: seq<Byte> := [0x42, 0x53, 0x41, 0x00]

  const SupportedVersion := 105
  const HeaderSize := 36

  /** A dict object holding flags. The class attribute `Header.archive_flags` is one such
      object, shared by every header that has not replaced it. */
  class FlagStore {
    var flags: map<nat, bool>

    constructor (flags: map<nat, bool>)
      ensures this.flags == flags
    {
      this.flags := flags;
    }
  }

  /** The fields of a header, as values. */
  datatype HeaderValue = HeaderValue(
    fileId: seq<Byte>,
    version: int,
    offset: int,
    archiveFlags: map<nat, bool>,
    folderCount: int,
    fileCount: int,
    totalFolderNameLength: int,
    totalFileNameLength: int,
    fileFlags: map<nat, bool>,
    padding: int)

  // The fields after the version fall into two runs: the first four ULongs (offset,
  // archive flags, folder and file counts) and the last four (the two name-table lengths,
  // file flags and padding).

  /** Offset, archive flags, folder count, file count. */
  const CountTypes: seq<IntType> := [ULong, ULong, ULong, ULong]

  /** Total folder-name length, total file-name length, file flags, padding. */
  const NameTypes: seq<IntType> := [ULong, ULong, UShort, UShort]

  /** The integers of the first run as `dump` writes them, a flag dict by its value. */
  function CountFields(h: HeaderValue): (vals: seq<int>)
    ensures |vals| == |CountTypes|
  {
    [h.offset, FlagsValue(h.archiveFlags, ArchiveFlagCount), h.folderCount, h.fileCount]
  }

  function NameFields(h: HeaderValue): (vals: seq<int>)
    ensures |vals| == |NameTypes|
  {
    [h.totalFolderNameLength, h.totalFileNameLength, FlagsValue(h.fileFlags, FileFlagCount),
     h.padding]
  }

  /** The header made of a file id, a version and the integers of the two runs. */
  function HeaderOf(fileId: seq<Byte>, version: int, counts: seq<int>, names: seq<int>): HeaderValue
    requires |counts| == |CountTypes| && |names| == |NameTypes|
  {
    HeaderValue(fileId, version, counts[0], FlagsOf(counts[1], ArchiveFlagCount), counts[2],
                counts[3], names[0], names[1], FlagsOf(names[2], FileFlagCount), names[3])
  }

  /** `Header.parse` over the unread bytes `bs`: the file id, the version, and, when the
      version is 105, the other fields in order; any other version fails right after it is
      read. The file id is not checked. */
  function ParseHeaderSpec(bs: seq<Byte>): Step<HeaderValue> {
    var b1 := Drop(bs, 4);
    var version := IntegerValue(b1, ULong);
    var b2 := Drop(b1, 4);
    if version != SupportedVersion then Step(Err(UnsupportedVersion), b2)
    else
      var counts := ReadFields(b2, CountTypes);
      var names := ReadFields(counts.1, NameTypes);
      Step(Ok(HeaderOf(Take(bs, 4), version, counts.0, names.0)), names.1)
  }

  /** The headers `dump` can write: every integer field fits its width. */
  predicate Dumpable(h: HeaderValue) {
    InRange(h.version, ULong) && InRange(h.offset, ULong) && InRange(h.folderCount, ULong)
    && InRange(h.fileCount, ULong) && InRange(h.totalFolderNameLength, ULong)
    && InRange(h.totalFileNameLength, ULong) && InRange(h.padding, UShort)
  }

  /** `Header.dump`: the file id and then every field little-endian, in the order parse
      reads them; a field that does not fit its width raises `OverflowError`. */
  function DumpHeaderSpec(h: HeaderValue): Result<seq<Byte>> {
    var version := IntegerDump(h.version, ULong);
    var counts := DumpFields(CountFields(h), CountTypes);
    var names := DumpFields(NameFields(h), NameTypes);
    if version.Err? then Err(version.error)
    else if counts.Err? then Err(counts.error)
    else if names.Err? then Err(names.error)
    else Ok(h.fileId + (version.value + (counts.value + names.value)))
  }

  class Header {
    var fileId: seq<Byte>
    var version: int
    var offset: int
    var archiveFlags: FlagStore
    var folderCount: int
    var fileCount: int
    var totalFolderNameLength: int
    var totalFileNameLength: int
    var fileFlags: map<nat, bool>
    var padding: int

    /** `Header()`: the class defaults, with `archive_flags` the shared class-level dict
        `classFlags`. */
    constructor (classFlags: FlagStore)
      ensures fileId == BsaId && version == SupportedVersion && offset == HeaderSize
      ensures archiveFlags == classFlags && fileFlags == DefaultFileFlags && padding == 0
      ensures folderCount == 0 && fileCount == 0
      ensures totalFolderNameLength == 0 && totalFileNameLength == 0
    {
      fileId := BsaId;
      version := 0x69;
      offset := 0x24;
      archiveFlags := classFlags;
      fileFlags := DefaultFileFlags;
      padding := 0;
      folderCount := 0;
      fileCount := 0;
      totalFolderNameLength := 0;
      totalFileNameLength := 0;
    }

    function Value(): HeaderValue
      reads this, archiveFlags
    {
      HeaderValue(fileId, version, offset, archiveFlags.flags, folderCount, fileCount,
                  totalFolderNameLength, totalFileNameLength, fileFlags, padding)
    }

    /** Reads the fields in order; on an unsupported version only the file id and the
        version have been assigned. The parsed archive flags are a new dict. */
    method Parse(r: Reader) returns (res: Result<()>)
      modifies this, r
      ensures r.Remaining() == ParseHeaderSpec(old(r.Remaining())).rest
      ensures res.Ok? <==> ParseHeaderSpec(old(r.Remaining())).result.Ok?
      ensures res.Ok? ==>
        fresh(archiveFlags) && Value() == ParseHeaderSpec(old(r.Remaining())).result.value
      ensures res.Err? ==>
        res.error == UnsupportedVersion
        && fileId == Take(old(r.Remaining()), 4)
        && version == IntegerValue(Drop(old(r.Remaining()), 4), ULong)
        && offset == old(offset) && archiveFlags == old(archiveFlags)
        && folderCount == old(folderCount) && fileCount == old(fileCount)
        && totalFolderNameLength == old(totalFolderNameLength)
        && totalFileNameLength == old(totalFileNameLength)
        && fileFlags == old(fileFlags) && padding == old(padding)
    {
      fileId := r.Read(4);
      version := ParseInteger(r, ULong);
      if version != 105 {
        return Err(UnsupportedVersion);
      }
      ghost var b2 := r.Remaining();
      ParseCounts(r);
      ghost var b3 := r.Remaining();
      ParseNames(r);
      assert Value() == HeaderOf(fileId, version, ReadFields(b2, CountTypes).0,
                                 ReadFields(b3, NameTypes).0);
      res := Ok(());
    }

    /** Offset, archive flags (a new dict), folder count and file count. */
    method ParseCounts(r: Reader)
      modifies this, r
      ensures fileId == old(fileId) && version == old(version) && fresh(archiveFlags)
      ensures var counts := ReadFields(old(r.Remaining()), CountTypes);
        offset == counts.0[0] && archiveFlags.flags == FlagsOf(counts.0[1], ArchiveFlagCount)
        && folderCount == counts.0[2] && fileCount == counts.0[3] && r.Remaining() == counts.1
    {
      var counts := ParseFields(r, CountTypes);
      offset := counts[0];
      archiveFlags := new FlagStore(FlagsOf(counts[1], ArchiveFlagCount));
      folderCount := counts[2];
      fileCount := counts[3];
    }

    /** The two name-table lengths, file flags and padding. */
    method ParseNames(r: Reader)
      modifies this, r
      ensures fileId == old(fileId) && version == old(version) && offset == old(offset)
      ensures archiveFlags == old(archiveFlags)
      ensures folderCount == old(folderCount) && fileCount == old(fileCount)
      ensures var names := ReadFields(old(r.Remaining()), NameTypes);
        totalFolderNameLength == names.0[0] && totalFileNameLength == names.0[1]
        && fileFlags == FlagsOf(names.0[2], FileFlagCount) && padding == names.0[3]
        && r.Remaining() == names.1
    {
      var names := ParseFields(r, NameTypes);
      totalFolderNameLength := names[0];
      totalFileNameLength := names[1];
      fileFlags := FlagsOf(names[2], FileFlagCount);
      padding := names[3];
    }

    method Dump() returns (data: Result<seq<Byte>>)
      ensures data == DumpHeaderSpec(Value())
    {
      var version := IntegerDump(version, ULong);
      if version.Err? {
        return Err(version.error);
      }
      var counts := DumpFields(CountFields(Value()), CountTypes);
      if counts.Err? {
        return Err(counts.error);
      }
      var names := DumpFields(NameFields(Value()), NameTypes);
      if names.Err? {
        return Err(names.error);
      }
      data := Ok(fileId + (version.value + (counts.value + names.value)));
    }
  }

  /** Flag values of up to ten members fit both field widths. */
  lemma FlagsFit(flags: map<nat, bool>, n: nat)
    requires n <= 10
    ensures InRange(FlagsValue(flags, n), ULong) && InRange(FlagsValue(flags, n), UShort)
  {
    FlagsValueBound(flags, n);
    if n < 10 { Pow2Increasing(n, 10); }
    assert Pow2(10) == 1024;
  }

  // ---------------------------------------------------------------- properties

  /** The first run dumps when its integers fit, into 16 bytes. */
  lemma CountsOk(h: HeaderValue)
    ensures DumpFields(CountFields(h), CountTypes).Ok?
      <==> InRange(h.offset, ULong) && InRange(h.folderCount, ULong) && InRange(h.fileCount, ULong)
    ensures FieldsSize(CountTypes) == 16
  {
    FlagsFit(h.archiveFlags, ArchiveFlagCount);
    var counts := CountFields(h);
    if InRange(h.offset, ULong) && InRange(h.folderCount, ULong) && InRange(h.fileCount, ULong) {
      forall i | 0 <= i < |counts| ensures InRange(counts[i], CountTypes[i]) { }
    }
    if DumpFields(counts, CountTypes).Ok? {
      assert InRange(counts[0], CountTypes[0]) && InRange(counts[2], CountTypes[2]);
      assert InRange(counts[3], CountTypes[3]);
    }
    assert FieldsSize(CountTypes[3..]) == 4;
    assert FieldsSize(CountTypes[2..]) == 8;
    assert FieldsSize(CountTypes[1..]) == 12;
  }

  /** The second run dumps when its integers fit, into 12 bytes. */
  lemma NamesOk(h: HeaderValue)
    ensures DumpFields(NameFields(h), NameTypes).Ok?
      <==> InRange(h.totalFolderNameLength, ULong) && InRange(h.totalFileNameLength, ULong)
           && InRange(h.padding, UShort)
    ensures FieldsSize(NameTypes) == 12
  {
    FlagsFit(h.fileFlags, FileFlagCount);
    var names := NameFields(h);
    if InRange(h.totalFolderNameLength, ULong) && InRange(h.totalFileNameLength, ULong)
       && InRange(h.padding, UShort) {
      forall i | 0 <= i < |names| ensures InRange(names[i], NameTypes[i]) { }
    }
    if DumpFields(names, NameTypes).Ok? {
      assert InRange(names[0], NameTypes[0]) && InRange(names[1], NameTypes[1]);
      assert InRange(names[3], NameTypes[3]);
    }
    assert FieldsSize(NameTypes[3..]) == 2;
    assert FieldsSize(NameTypes[2..]) == 4;
    assert FieldsSize(NameTypes[1..]) == 8;
  }

  /** dump succeeds exactly when every integer field fits its width (the flag values
      always fit), and then writes 32 bytes after the file id: 36 for a 4-byte id. */
  lemma DumpHeaderOk(h: HeaderValue)
    ensures DumpHeaderSpec(h).Ok? <==> Dumpable(h)
    ensures DumpHeaderSpec(h).Ok? ==> |DumpHeaderSpec(h).value| == |h.fileId| + 32
  {
    CountsOk(h);
    NamesOk(h);
  }

  /** parse fails exactly when the version field is not 105, and then reads only the file
      id and the version. */
  lemma VersionChecked(bs: seq<Byte>)
    requires |bs| >= 8
    ensures ParseHeaderSpec(bs).result.Err? <==> FromLE(bs[4..8]) != SupportedVersion
    ensures ParseHeaderSpec(bs).result.Err? ==>
      ParseHeaderSpec(bs).result.error == UnsupportedVersion && ParseHeaderSpec(bs).rest == bs[8..]
  {
    assert Take(Drop(bs, 4), 4) == bs[4..8];
  }

  /** The file id is read but never compared with `BSA\0`: whether parse succeeds does not
      depend on it, and it is kept as read. */
  lemma FileIdUnchecked(id1: seq<Byte>, id2: seq<Byte>, rest: seq<Byte>)
    requires |id1| == 4 && |id2| == 4
    ensures ParseHeaderSpec(id1 + rest).result.Ok? == ParseHeaderSpec(id2 + rest).result.Ok?
    ensures ParseHeaderSpec(id1 + rest).result.Ok? ==>
      ParseHeaderSpec(id1 + rest).result.value.fileId == id1
      && ParseHeaderSpec(id1 + rest).result.value
         == ParseHeaderSpec(id2 + rest).result.value.(fileId := id1)
  {
    TakePrefix(id1, rest, 4);
    TakePrefix(id2, rest, 4);
  }

  /** Parsing a file id, an encoded 105 and the two runs of fields. */
  lemma ParseHeaderOf(bs: seq<Byte>, id: seq<Byte>, e: seq<Byte>, rest: seq<Byte>,
                      counts: seq<int>, names: seq<int>, tail: seq<Byte>)
    requires bs == id + (e + rest) && |id| == 4 && |e| == 4 && FromLE(e) == SupportedVersion
    requires |counts| == |CountTypes| && |names| == |NameTypes|
    requires ReadFields(rest, CountTypes).0 == counts
    requires ReadFields(ReadFields(rest, CountTypes).1, NameTypes) == (names, tail)
    ensures ParseHeaderSpec(bs) == Step(Ok(HeaderOf(id, SupportedVersion, counts, names)), tail)
  {
    TakePrefix(id, e + rest, 4);
    TakePrefix(e, rest, 4);
  }

  /** The header made of the dumped runs of `h` is `h` again when its flag dicts name every
      member of their class. */
  lemma HeaderOfFields(h: HeaderValue)
    requires h.archiveFlags.Keys == Members(ArchiveFlagCount)
    requires h.fileFlags.Keys == Members(FileFlagCount)
    ensures HeaderOf(h.fileId, h.version, CountFields(h), NameFields(h)) == h
  {
    FlagsRoundTrip(h.archiveFlags, ArchiveFlagCount);
    FlagsRoundTrip(h.fileFlags, FileFlagCount);
  }

  /** A header of version 105 whose flag dicts name every member of their class comes back
      field for field from parse(dump(h)), and parse stops right after it. */
  lemma HeaderRoundTrip(h: HeaderValue, tail: seq<Byte>)
    requires Dumpable(h) && |h.fileId| == 4 && h.version == SupportedVersion
    requires h.archiveFlags.Keys == Members(ArchiveFlagCount)
    requires h.fileFlags.Keys == Members(FileFlagCount)
    ensures DumpHeaderSpec(h).Ok?
    ensures ParseHeaderSpec(DumpHeaderSpec(h).value + tail) == Step(Ok(h), tail)
  {
    DumpHeaderOk(h);
    var version := IntegerDump(h.version, ULong).value;
    var counts := DumpFields(CountFields(h), CountTypes).value;
    var names := DumpFields(NameFields(h), NameTypes).value;
    var bs := DumpHeaderSpec(h).value + tail;
    Append4(h.fileId, version, counts, names, tail);
    FromToLE(h.version, 4);
    FieldsRoundTrip(CountFields(h), CountTypes, names + tail);
    FieldsRoundTrip(NameFields(h), NameTypes, tail);
    ParseHeaderOf(bs, h.fileId, version, counts + (names + tail), CountFields(h), NameFields(h), tail);
    HeaderOfFields(h);
  }
}
