# Dynamic Interface Patcher — a Dafny model of its core

Dynamic Interface Patcher (DIP) patches the Flash (SWF) menus of Skyrim mods. A patch is a
folder of JSON files. Each file says which attributes to change in the XML export of one
SWF file and which vector shapes to replace. The SWF files may sit inside Bethesda archives
(BSA, version 105). DIP extracts them, exports them to XML, applies the patch, converts
them back and repacks them. The patch creator goes the other way: it compares an original
and a patched XML export and writes the patch items.

This project models the parts of that pipeline that compute rather than call out:

- **The BSA codec.**
  - `bytes.dfy`, `stream.dfy` and `bits.dfy` hold the building blocks: bytes as integers in
    [0, 256), a reader with a position, and flags as arithmetic on bits.
  - `bsa_datatypes.dfy` models `datatypes.py`: integers, strings, lists, flags and the
    filename hash.
  - `bsa_header.dfy` and `bsa_records.dfy` model the header, the folder record, the file
    record, the record block and the name block.
  - `bsa_archive.dfy` and `bsa_payload.dfy` model `BSAArchive` reading: parsing,
    name matching, compression flags and extraction arithmetic.
  - `bsa_create.dfy`, `bsa_write.dfy` and `bsa_layout.dfy` model `create_archive`.

  The copies under `src/bsa_interface/` are the same code as `src/core/bsa/`. They are
  modelled once, and the rows below cite the `src/core/bsa/` lines. `folder_record.py` and
  `file_name_block.py` exist only under `src/bsa_interface/`, so their rows cite that path.
- **The patch engine.**
  - `json.dfy` holds parsed JSON, and `str_dict.dfy` and `text.dfy` hold the dict and `str`
    operations the engine uses.
  - `patch_data.dfy` is the decoder from a patch's JSON tree to patch items. It appears
    twice in the source, in `PatchFile` and in `Patcher.process_patch_data`.
  - `shapes.dfy` and `patch_file.dfy` cover the shape tables and the loading of patch files.
  - `xml_tree.dfy` holds XML trees whose elements carry an object identity. `xml_path.dfy`
    covers the ElementTree path subset the code uses.
  - `xml_frames.dfy` covers `split_frames` and `unsplit_frames`.
  - `xml_edit.dfy` and `xml_document.dfy` cover the applier loop of `patch_xmls`.
  - `patcher.dfy` covers `patch_shapes` and the loop of `patch_xmls`, from the choice of each
    XML file to the tree written back.
  - `patch_creator.dfy` covers the differ and `create_patch_items`.
- **The helpers.**
  - `path_splitter.dfy` models `split_path_with_bsa`. The legacy `parse_path` in
    `src/utils.py` is the same loop, so it is modelled once, by `PathSplitter`.
  - `utils.dfy` models `hex_to_rgb` and `lower_dict`.
  - `glob_regex.dfy` models `pattern_to_regex` from the native glob helper.

Code that changes state keeps that form:

- A BSA file is read by a `Reader` object.
- `Header` and the records are classes whose `Parse` and `Dump` methods assign and read
  their fields.
- Loops are methods with invariants, each proved equal to a specification function, and
  the properties are proved as lemmas about that function.
- An XML document is a class holding the tree and the next free identity. Its methods
  rewrite every place where a changed object hangs, so the one new element the patcher
  appends under several parents stays one object.

## Model

| member | source | states |
|---|---|---|
| Bytes.FromToLE | src/core/bsa/datatypes.py:55-67 | reading back the little-endian bytes of a value in range gives the value |
| Bytes.ToFromLE | src/core/bsa/datatypes.py:55-67 | writing back the value of n little-endian bytes gives the same bytes |
| Bytes.FromLESigned | src/core/bsa/datatypes.py:55-61 | a signed read of n bytes lies in the two's complement range of n bytes |
| Bytes.SignedOffset | src/core/bsa/datatypes.py:55-61 | a negative signed reading is the unsigned reading minus 256^n |
| Bytes.DecodeEncode | src/core/bsa/datatypes.py:151-177 | decoding the encoding of ASCII text gives the text back |
| Bytes.Decode | src/core/bsa/datatypes.py:151 | ASCII bytes decode to the same code points; any other byte is a decode error |
| Bytes.LowerIdempotent | src/core/bsa/datatypes.py:251-253 | lowercasing twice is lowercasing once |
| Streams.TakeDrop | src/bsa_interface/utilities.py:33-41 | a read returns a prefix of the unread bytes of at most the requested length and leaves exactly the rest |
| Streams.Reader.Read | src/bsa_interface/utilities.py:33-41 | reading advances the position by what was returned and returns the bytes at the old position |
| BsaDatatypes.IntegerValueRange | src/core/bsa/datatypes.py:55-61 | a full read lies in the range of its integer type; a short unsigned read is the value of the bytes present; an empty read is 0 |
| BsaDatatypes.IntegerDump | src/core/bsa/datatypes.py:63-67 | dump writes exactly the type's size or raises OverflowError, exactly when the value is out of range |
| BsaDatatypes.IntegerRoundTrip | src/core/bsa/datatypes.py:55-67 | parse(dump(v)) is v, reads exactly the type's size and leaves what follows |
| BsaDatatypes.IntegerDumpParse | src/core/bsa/datatypes.py:55-67 | dump(parse(bs)) reproduces bs for a full read |
| BsaDatatypes.ParseInteger | src/core/bsa/datatypes.py:55-61 | reads the type's size from the stream and returns the little-endian value of what it read |
| BsaDatatypes.ParseFields | src/core/bsa/datatypes.py:55-61 | successive integer reads give the fields in order and leave the rest unread |
| BsaDatatypes.FieldsRoundTrip | src/core/bsa/datatypes.py:55-67 | reading back dumped fields gives their values and stops right after them |
| BsaDatatypes.StripNul | src/core/bsa/datatypes.py:136 | the stripped bytes are a contiguous slice with no NUL at either end, and every removed byte is a NUL |
| BsaDatatypes.ParseBString | src/core/bsa/datatypes.py:134-136 | reads a u8 length, then that many bytes (fewer at the end), strips NULs and decodes |
| BsaDatatypes.DumpBString | src/core/bsa/datatypes.py:164-167 | a u8 byte length then the text, or OverflowError at 256 bytes and more |
| BsaDatatypes.DumpBZString | src/core/bsa/datatypes.py:169-172 | the text with a NUL terminator, prefixed by a u8 length that counts it, or OverflowError |
| BsaDatatypes.BStringRoundTrip | src/core/bsa/datatypes.py:134-167 | BString parse inverts BString dump for ASCII text without NULs at the edges |
| BsaDatatypes.BZStringRoundTrip | src/core/bsa/datatypes.py:134-172 | the same parse inverts BZString dump: the counted terminator is stripped |
| BsaDatatypes.SplitName | src/core/bsa/datatypes.py:142-144 | a name is the NUL-free prefix of the stream up to the first NUL or the end |
| BsaDatatypes.ParseList | src/core/bsa/datatypes.py:138-149 | collects names until there are `size` of them, skipping empty ones, and reports the endless read of an exhausted stream as an error |
| BsaDatatypes.ReadName | src/core/bsa/datatypes.py:142-144 | the byte loop reads exactly the next name and consumes its NUL |
| BsaDatatypes.DumpList | src/core/bsa/datatypes.py:174-177 | the names joined by NUL with one trailing NUL |
| BsaDatatypes.DumpListLength | src/core/bsa/datatypes.py:174-177 | the dump is the sum of name length plus one per name, and one byte for no names |
| BsaDatatypes.ListRoundTrip | src/core/bsa/datatypes.py:138-177 | parsing as many names as were dumped gives the names back |
| BsaDatatypes.ListSkipsEmpty | src/core/bsa/datatypes.py:146-147 | consecutive NULs give empty names that are not counted |
| BsaDatatypes.FlagsOfBits | src/core/bsa/datatypes.py:185-197 | the parsed dict names exactly the class's members, each mapped to its bit of the value |
| BsaDatatypes.ParseFlags | src/core/bsa/datatypes.py:185-197 | reads the integer and maps every member to whether its bit is set |
| BsaDatatypes.DumpFlags | src/core/bsa/datatypes.py:199-208 | or-s together the members mapped to true, a missing key counting as false |
| BsaDatatypes.FlagsValueBits | src/core/bsa/datatypes.py:199-208 | the dumped value has exactly the bits of the members mapped to true |
| BsaDatatypes.DumpParseFlags | src/core/bsa/datatypes.py:185-208 | dump(parse(v)) is v masked to the bits the flag class defines |
| BsaDatatypes.ParseDumpFlags | src/core/bsa/datatypes.py:185-208 | parse(dump(flags)) gives each member its value in the dict, a missing key false |
| BsaDatatypes.FlagsRoundTrip | src/core/bsa/datatypes.py:185-208 | a dict naming exactly the members comes back unchanged from parse(dump(flags)) |
| BsaDatatypes.HashValue | src/core/bsa/datatypes.py:232-234 | a hash is an unsigned 64-bit value |
| BsaDatatypes.DumpHash | src/core/bsa/datatypes.py:236-238 | eight little-endian bytes, or OverflowError outside the u64 range |
| BsaDatatypes.SplitExt | src/core/bsa/datatypes.py:251-253 | stem plus extension is the name; the extension is empty or starts with the last dot of the final component |
| BsaDatatypes.ToBytes | src/core/bsa/datatypes.py:264 | bytes() succeeds exactly when every value lies in 0..255, and then keeps the values |
| BsaDatatypes.CalcHash | src/core/bsa/datatypes.py:240-287 | the loops of calc_hash compute the hash of the lowercased, split name, or the ValueError bytes() raises |
| BsaDatatypes.RollingLoop | src/core/bsa/datatypes.py:276-282 | the accumulator loop computes the rolling hash with multiplier 0x1003F |
| BsaDatatypes.HashLowWord | src/core/bsa/datatypes.py:256-274 | the low 32 bits are the little-endian fingerprint or-ed with the extension marker |
| BsaDatatypes.HashHighWord | src/core/bsa/datatypes.py:276-287 | the high 32 bits are the rolling hashes of the stem's inner chars and of the extension, summed and truncated |
| BsaDatatypes.HashCaseInsensitive | src/core/bsa/datatypes.py:251-253 | names that differ only in ASCII case hash alike |
| BsaDatatypes.HashExample | src/core/bsa/datatypes.py:251-253 | the worked "bob.dds" example: stem, extension and both words of its hash |
| BsaHeader.FlagBits | src/core/bsa/header.py:15-36 | the members of both flag classes are the consecutive bits 2^0, 2^1, ... |
| BsaHeader.Defaults | src/core/bsa/header.py:38-68 | the default flag dicts name every member of their class; the archive default is compressed without embedded names, and every file flag is off |
| BsaHeader.Header.constructor | src/core/bsa/header.py:38-68 | a new header holds the class defaults, version 105 and offset 36, and shares the class-level archive flag dict |
| BsaHeader.Header.Parse | src/core/bsa/header.py:70-86 | reads every field in order; an unsupported version raises after only the file id and version were assigned |
| BsaHeader.Header.Dump | src/core/bsa/header.py:88-102 | writes the file id and then every field little-endian in the order parse reads them, or the first OverflowError |
| BsaHeader.DumpHeaderOk | src/core/bsa/header.py:88-102 | dump succeeds exactly when every integer field fits its width, and then writes 32 bytes after the file id |
| BsaHeader.VersionChecked | src/core/bsa/header.py:72-75 | parse fails exactly when the version is not 105, having read only the file id and the version |
| BsaHeader.FileIdUnchecked | src/core/bsa/header.py:71 | the file id is read but never compared with BSA\0 |
| BsaHeader.HeaderRoundTrip | src/core/bsa/header.py:70-102 | a version-105 header with complete flag dicts comes back field for field from parse(dump(h)), and parse stops right after it |
| BsaRecords.FolderRecord.Parse | src/bsa_interface/folder_record.py:21-28 | reads hash, count, padding, offset and second padding in order |
| BsaRecords.FolderRecord.Dump | src/bsa_interface/folder_record.py:30-39 | writes the five fields in the same order, or the first OverflowError |
| BsaRecords.FolderDumpOk | src/bsa_interface/folder_record.py:30-39 | dump succeeds exactly when every field fits its width, and then writes 24 bytes |
| BsaRecords.FolderRoundTrip | src/bsa_interface/folder_record.py:21-39 | parse(dump(f)) gives back every field, paddings included, and stops after 24 bytes |
| BsaRecords.FolderRecord.constructor | src/bsa_interface/folder_record.py:15-19 | both paddings default to 0 |
| BsaRecords.CompressionMask | src/core/bsa/file_record.py:44-65 | the compression mask 0x40000000 is bit 30 |
| BsaRecords.ApplySetsFlag | src/core/bsa/file_record.py:53-65 | the flag is set afterwards and applying it again changes nothing |
| BsaRecords.ApplyIsOr | src/core/bsa/file_record.py:53-65 | on a non-negative size the operation is an or with bit 30 that keeps every other bit |
| BsaRecords.SmallSizeUnflagged | src/core/bsa/file_record.py:44-51 | sizes below 1 GiB never carry the compression flag |
| BsaRecords.FileRecord.constructor | src/core/bsa/file_record.py:33-42 | a new record has compressed set to None |
| BsaRecords.FileRecord.Parse | src/core/bsa/file_record.py:67-72 | reads hash, size and offset and keeps the compressed attribute |
| BsaRecords.FileRecord.Dump | src/core/bsa/file_record.py:74-83 | writes hash, size and offset; a truthy compressed flags the stored size itself after the hash was written |
| BsaRecords.DumpedRecordOnce | src/core/bsa/file_record.py:74-83 | a falsy compressed leaves the record alone; a truthy one flags the size only once however often the record is dumped |
| BsaRecords.RecordDumpOk | src/core/bsa/file_record.py:74-83 | dump succeeds exactly when every field fits its width, and then writes 16 bytes |
| BsaRecords.RecordRoundTrip | src/core/bsa/file_record.py:67-83 | parse(dump(v)) gives back hash, size and offset and stops after 16 bytes |
| BsaRecords.ParseRecords | src/core/bsa/file_record.py:20 | reads count new records one after the other, each with compressed still None |
| BsaRecords.DumpRecords | src/core/bsa/file_record.py:28 | dumps the records in order and the first that fails raises; every record before it may have been flagged |
| BsaRecords.DumpRecordsFirstError | src/core/bsa/file_record.py:28 | when the records before one dump and it does not, the join raises its error |
| BsaRecords.RecordsDumpOk | src/core/bsa/file_record.py:28 | the records dump exactly when each does, into 16 bytes per record |
| BsaRecords.RecordsRoundTrip | src/core/bsa/file_record.py:18-30 | reading back as many records as were dumped gives them back and leaves the tail |
| BsaRecords.FileRecordBlock.Parse | src/core/bsa/file_record.py:18-22 | reads the BZString name, then count new records |
| BsaRecords.FileRecordBlock.Dump | src/core/bsa/file_record.py:24-30 | writes the name, then every record in order; nothing is mutated when the name is too long |
| BsaRecords.BlockDumpOk | src/core/bsa/file_record.py:24-30 | a block dumps exactly when its name is shorter than 255 characters and every record dumps, into the name's length plus 2 bytes and 16 per record |
| BsaRecords.BlockRoundTrip | src/core/bsa/file_record.py:18-30 | parse(dump(block), count) gives back the folder name and the records |
| BsaRecords.FileNameBlock.Parse | src/bsa_interface/file_name_block.py:18-21 | reads count non-empty names with the List codec |
| BsaRecords.FileNameBlock.Dump | src/bsa_interface/file_name_block.py:23-26 | the names joined by NUL with a trailing NUL |
| BsaArchive.ParseFolders | src/core/bsa/bsa_archive.py:68-70 | reads folder_count new folder records one after the other |
| BsaArchive.ParseBlocks | src/core/bsa/bsa_archive.py:71-74 | reads one new file-record block per folder with that folder's count, in order; the first failure raises |
| BsaArchive.FileKey | src/core/bsa/bsa_archive.py:43 | the key of a file is its folder and name joined, with every backslash turned into a slash |
| BsaArchive.MatchBlock | src/core/bsa/bsa_archive.py:39-45 | the records of one block get the next names in order, or IndexError when the names run out |
| BsaArchive.MatchNames | src/core/bsa/bsa_archive.py:30-47 | walks the blocks and their records in order, pairing the i-th record with the i-th file name |
| BsaArchive.MatchedLast | src/core/bsa/bsa_archive.py:30-47 | a key is in the result exactly when some record has it, and a later record with the same key replaces an earlier one |
| BsaArchive.MatchedSnapshot | src/core/bsa/bsa_archive.py:30-47 | matching fails with IndexError exactly when there are more records than names, and otherwise pairs the records' values with their keys; the matched records are the blocks' own objects |
| BsaArchive.EffectiveCompression | src/core/bsa/bsa_archive.py:55-63 | a file is compressed exactly when bit 30 of its size disagrees with the archive's flag |
| BsaArchive.ProcessCompressionFlags | src/core/bsa/bsa_archive.py:49-63 | every matched record gets its effective compression and keeps its fields; a missing archive flag raises KeyError before any record changes, and only when there are records |
| BsaArchive.MatchFiles | src/core/bsa/bsa_archive.py:77-78 | match_names and then process_compression_flags on the parts just read |
| BsaArchive.ReadIndexParts | src/core/bsa/bsa_archive.py:66-75 | the header, the folder records, one block per folder and the file names, read in order |
| BsaArchive.Open | src/core/bsa/bsa_archive.py:25-80 | opening an archive succeeds exactly when its index parses, and then holds the parsed index and an entry per matched file; each failure is the parse failure |
| BsaArchive.LookupSpec | src/core/bsa/bsa_archive.py:148-179 | an unknown key is FileNotFoundError, a missing embed-names flag is KeyError, and a found file carries its embedded name exactly when names are embedded |
| BsaArchive.Archive.GetFileStream | src/core/bsa/bsa_archive.py:148-179 | the bytes of the file stored under exactly that key |
| BsaArchive.Archive.ExtractFile | src/core/bsa/bsa_archive.py:107-146 | the normalised name (or the embedded one) and the bytes written for it |
| BsaArchive.StreamNeedsSlashes | src/core/bsa/bsa_archive.py:153-156 | get_file_stream does not normalise: a name with a backslash is never found |
| BsaArchive.ExtractNormalises | src/core/bsa/bsa_archive.py:112-117 | extract_file finds with a backslash name what the slash name finds, and without embedded names writes it under that name |
| BsaPayload.PayloadSpec | src/core/bsa/bsa_archive.py:119-136 | the file at its offset with its raw size: the embedded name if names are embedded, then the body, decompressed when the record is compressed |
| BsaPayload.ReadPayload | src/core/bsa/bsa_archive.py:119-136 | the seek and the reads of extract_file compute the payload |
| BsaPayload.StoredSize | src/core/bsa/bsa_archive.py:303-328 | the recorded size is the content's size, or the compressed size plus the 4-byte prefix, plus the name and its length byte when names are embedded |
| BsaPayload.ExtractStored | src/core/bsa/bsa_archive.py:119-136 | extraction inverts creation: reading back stored bytes with their recorded size gives the name (if embedded) and the content |
| BsaCreate.CreateFileFlags | src/core/bsa/bsa_archive.py:181-204 | classifies each folder in turn into the accumulated flag dict |
| BsaCreate.FileFlagsUnion | src/core/bsa/bsa_archive.py:181-204 | only true entries are recorded, and a flag is recorded exactly when some folder sets it |
| BsaCreate.FolderFlagsKinds | src/core/bsa/bsa_archive.py:186-202 | each folder sets exactly one file type (Sounds with Voices for sounds/voice), matched on its lowercased first parts; Miscellaneous exactly for an unknown root |
| BsaCreate.SoundsVoiceExample | src/core/bsa/bsa_archive.py:196-199 | the match is case-insensitive: Sounds\Voice sets both sound flags |
| BsaCreate.GroupByFolder | src/core/bsa/bsa_archive.py:227-234 | the grouping loop computes the ordered folder dict |
| BsaCreate.GroupSpecWellGrouped | src/core/bsa/bsa_archive.py:227-234 | the grouping is a dict holding every file exactly once |
| BsaCreate.GroupKeepsOrder | src/core/bsa/bsa_archive.py:227-234 | with each folder's files found together, the grouping keeps the order of the files |
| BsaCreate.FolderCount | src/core/bsa/bsa_archive.py:242 | there is one folder per distinct parent folder |
| BsaWrite.BuildRecords | src/core/bsa/bsa_archive.py:263-296 | the folder loop builds the folder records, the file records and the data start |
| BsaWrite.RecordsMatchFiles | src/core/bsa/bsa_archive.py:282-287 | the k-th file record holds the hash of the k-th file's lowercased name and that file's size |
| BsaWrite.WriteData | src/core/bsa/bsa_archive.py:303-328 | the data loop writes each file's stored bytes in record order and sets each record's size to what was stored |
| BsaWrite.PlaceRecords | src/core/bsa/bsa_archive.py:330-333 | the offset loop places the records end to end from the data start |
| BsaWrite.CreateArchive | src/core/bsa/bsa_archive.py:206-345 | create_archive writes the archive or raises; the class-level archive flags are updated when the grouping succeeded |
| BsaLayout.CreateErrors | src/core/bsa/bsa_archive.py:217-237 | ValueError for an input that is not a directory, an error when there is nothing to pack, KeyError when the embed-names flag is missing |
| BsaLayout.CreateHeader | src/core/bsa/bsa_archive.py:239-252 | version 105, offset 36, one file per file found, one folder per distinct folder, the updated archive flags and the computed file flags updated by the caller's |
| BsaLayout.CreateLayout | src/core/bsa/bsa_archive.py:262-345 | the data starts at 36 + 24 per folder + the blocks + the file name block; the file is the index then the data; the records lie end to end up to the end of the file |
| BsaLayout.CreateFolders | src/core/bsa/bsa_archive.py:269-296 | folder record i counts its folder's files and points at its block, which is there in the file |
| BsaLayout.CreateReadBack | src/core/bsa/bsa_archive.py:303-345 | reading record k back with the archive's flags gives the k-th file's path (when embedded) and content |
| BsaLayout.LayoutReadBack | src/core/bsa/bsa_archive.py:303-333 | reading a laid-out record back gives its file, provided decompression undoes compression |
| BsaArchive.Archive.constructor | src/core/bsa/bsa_archive.py:25-28 | the archive holds the attributes `parse` sets, and its index and entries are those of the parsed parts |
| BsaArchive.Archive.Lookup | src/core/bsa/bsa_archive.py:119-136 | finding the record of a key, seeking to it and reading it gives what the lookup specification gives |
| BsaWrite.StoreFile | src/core/bsa/bsa_archive.py:303-328 | one pass of the data loop writes the stored bytes and the size the specification gives |
| BsaWrite.WriteArchive | src/core/bsa/bsa_archive.py:263-345 | the folder loop, the data loop, the offset loop and the index writes give the layout the specification gives |
| BsaLayout.EndToEnd | src/core/bsa/bsa_archive.py:330-333 | records placed from the data start with the stored sizes lie end to end, the last one ending at the end of the file |
| BsaLayout.LayoutLength | src/core/bsa/bsa_archive.py:262-301 | the data starts at 36 + 24 per folder + the blocks + the name block, the index fills exactly that, and the file is the index followed by the data |
| BsaLayout.LayoutFolders | src/core/bsa/bsa_archive.py:269-296 | folder record i counts folder i's files and holds the offset of its block |
| BsaLayout.LayoutRecords | src/core/bsa/bsa_archive.py:330-333 | the first record starts where the data starts and each next one where the one before ends |
| BsaLayout.LayoutRecordValues | src/core/bsa/bsa_archive.py:282-287 | record k holds the hash of its file's lowercased name |
| GlobRegex.PatternToRegex | res/glob/dllmain.cpp:27-48 | the loop appends each character's translation in order: `*` to `.*`, `?` to `.`, `.` to `\.`, anything else copied |
| GlobRegex.RegexLength | res/glob/dllmain.cpp:27-48 | the output is one character per input character plus one per `*` and per `.` |
| GlobRegex.UnglobRegex | res/glob/dllmain.cpp:27-48 | for a pattern without backslashes the translation loses nothing: the pattern can be read back from it |
| GlobRegex.BackslashCollision | res/glob/dllmain.cpp:43-44 | other characters are not escaped, so a backslash before `?` gives the same expression as a literal dot |
| GlobRegex.NoLeadingStar | res/glob/dllmain.cpp:34-36 | the expression never starts with a bare `*` |
| PathSplitter.SplitPathWithBsa | src/core/utilities/path_splitter.py:9-48 | the component loop computes the split: the components up to the last `.bsa` one (after any earlier one) and the rest |
| PathSplitter.LastBsa | src/core/utilities/path_splitter.py:38-43 | the archive component the split ends at is the last one ending in `.bsa` |
| PathSplitter.NoArchive | src/core/utilities/path_splitter.py:33-48 | with no `.bsa` component there is no archive and the whole path is the file path |
| PathSplitter.EndsInArchive | src/core/utilities/path_splitter.py:41-46 | a path ending in an archive has no file path |
| PathSplitter.SplitRejoin | src/core/utilities/path_splitter.py:38-48 | with at most one `.bsa` component the two parts put back together are the path |
| PathSplitter.SplitParts | src/core/utilities/path_splitter.py:38-48 | the archive path ends in a `.bsa` component and holds no other; the file path holds none |
| PathSplitter.DocstringExample | src/core/utilities/path_splitter.py:13-23 | the docstring's RaceMenu example splits into the archive and the swf path |
| PathSplitter.NestedArchives | src/utils.py:172-181 | with two archives the archive path holds only the components after the first one |
| PathSplitter.UpperCaseSuffix | src/core/utilities/path_splitter.py:41 | the suffix test is case-sensitive: `.BSA` is not an archive |
| Utils.LStripHash | src/utils.py:83 | every leading `#` and nothing else is removed |
| Utils.ParseHex | src/utils.py:85 | int(s, 16) strips white space, reads an optional sign, an optional `0x`/`0X` prefix with one optional underscore, and digits with single underscores between them; the magnitude is below 16^len |
| Utils.ParseHexAccepts | src/utils.py:85 | every literal of that grammar is read as the signed value of its digits |
| Utils.ParseHexOnly | src/utils.py:85 | and only such literals are read: a success splits the text into white space, sign, prefix, grouped digits and white space, with that value |
| Utils.ParseHexSpaces | src/utils.py:85 | white space around the text does not change the result |
| Utils.ParseHexSeparator | src/utils.py:85 | every character `str.isspace()` holds for is skipped, U+001C included: `\x1c` followed by digits reads as the digits |
| Utils.TrimIsStrip | src/utils.py:85 | what `int()` strips from either end is what `str.strip()` strips |
| Utils.ParseHexDigits | src/utils.py:85 | a run of hex digits is read as its value |
| Utils.ParseHexUnderscore | src/utils.py:85 | an underscore between two runs of digits is skipped |
| Utils.ParseHexMinus | src/utils.py:85 | a leading `-` negates the value |
| Utils.ParseHexPlus | src/utils.py:85 | a leading `+` keeps the value |
| Utils.ParseHexPrefixed | src/utils.py:85 | a `0x` prefix is skipped |
| Utils.ParseHexPrefixedUnderscore | src/utils.py:85 | a `0X_` prefix is skipped |
| Utils.EmptyRejected | src/utils.py:85 | the empty text is a ValueError |
| Utils.PrefixAloneRejected | src/utils.py:85 | a `0x` or `0X` prefix without digits is a ValueError |
| Utils.LeadingUnderscore | src/utils.py:85 | digits may not start with an underscore |
| Utils.TrailingUnderscore | src/utils.py:85 | nor end with one |
| Utils.DoubleUnderscore | src/utils.py:85 | nor hold two in a row |
| Utils.TwoSigns | src/utils.py:85 | a second sign is a ValueError |
| Utils.NotPrefixed | src/utils.py:85 | text without white space at its ends, sign or prefix is read exactly when it is grouped digits |
| Utils.ChunksCount | src/utils.py:85 | a whole number of steps of digits is cut into that many chunks of one step each, which joined back give the digits |
| Utils.HexToRgb | src/utils.py:77-85 | fewer than three digits raise ValueError (a zero range step); each component's magnitude is below 16^(len/3); a length divisible by three gives three components |
| Utils.HexToRgbRoundTrip | src/utils.py:77-85 | hex_to_rgb reads back the components of any `#rrggbb` colour |
| Utils.White | src/utils.py:77-85 | `#ffffff` gives (255, 255, 255) |
| Utils.FourDigits | src/utils.py:84-85 | four digits make a step of one, so each digit is a component of its own |
| Utils.ThreeAlike | src/utils.py:84-85 | digits made of one piece three times give that piece's value three times |
| Utils.MinusOnes | src/utils.py:77-85 | a sign inside each component is read: `#-1-1-1` gives (-1, -1, -1) |
| Utils.SpacedWhite | src/utils.py:77-85 | white space inside each component is skipped: `# ff ff ff` gives (255, 255, 255) |
| Utils.LowerValue | src/utils.py:87-98 | a dict stays a dict, and only a dict becomes one, with the same keys in the same order |
| Utils.LowerDict | src/utils.py:87-98 | a new dict with the same keys in the same order |
| Utils.LowerValueIsLower | src/utils.py:90-96 | every text value below dicts comes out lowercase |
| Utils.LowerValueFixed | src/utils.py:90-96 | a value whose text is already lowercase is left as it is |
| Utils.LowerDictIdempotent | src/utils.py:87-98 | lower_dict lowercases every text value below dicts, and applying it twice is applying it once |
| Utils.ListsKept | src/utils.py:95-96 | lists are not descended into: text inside a list keeps its case |
| XmlPath.FindAllPath | src/core/patcher/patcher.py:206-209 | `findall` on a filter's text fails exactly when the text is not a path of the subset, and otherwise gives the elements its selectors select; an empty path finds nothing |
| XmlPath.Find | src/core/patch_creator/patch_creator.py:403 | `find` gives nothing exactly when `findall` finds nothing, and otherwise the first element found |
| XmlPath.RunAppend | src/core/patch_creator/patch_creator.py:393-403 | a path extended by further selectors selects from what the shorter path found |
| XmlPath.AttrIsFilters | src/core/patch_creator/patch_creator.py:397-401 | an appended `[@key='value']` keeps exactly the elements found so far whose attribute `key` is `value` |
| XmlPath.ChildSelects | src/core/patch_creator/patch_creator.py:393-394 | an appended `/tag` yields exactly the children with that tag of the elements found so far |
| XmlPath.FoundBelow | src/core/patcher/patcher.py:209 | `findall` only finds elements of the tree it searches |
| XmlPath.ParseRender | src/core/patch_creator/patch_creator.py:393-401 | a path written as the patch creator writes it (`.`, then `/tag` and `[@key='value']` pieces with quote-free values) reads back as the selectors it was written from |
| XmlPath.Rejected | src/core/patcher/patcher.py:208-209 | absolute paths and `//` are syntax errors in the modelled subset |
| XmlEdit.ChangedStep | src/core/patcher/patcher.py:222-224 | setting the changes on the found elements one after the other, an element found twice included, is setting them once on every found object |
| XmlEdit.ChangedNone | src/core/patcher/patcher.py:222-224 | with nothing found the document is unchanged |
| XmlEdit.ChangedAttrs | src/core/patcher/patcher.py:222-224 | a found object ends with every changed key holding its new value and every other key as before; any other object keeps its attributes, and tags and child counts are kept |
| XmlEdit.ChangedBelow | src/core/patcher/patcher.py:222-224 | every element of the changed document is the changed image of an element of the original one |
| XmlEdit.ChangedConsistent | src/core/patcher/patcher.py:222-224 | setting attributes keeps one object one object and brings no new identity |
| XmlEdit.AddedStep | src/core/patcher/patcher.py:216-220 | appending the one new element to the parents one after the other gives each parent as many copies as times it was found |
| XmlEdit.AddedNone | src/core/patcher/patcher.py:216-220 | with no parent found the document is unchanged |
| XmlEdit.AddedBelow | src/core/patcher/patcher.py:216-220 | every element after appending is the new element or the image of an original element |
| XmlEdit.NewBelow | src/core/patcher/patcher.py:216-220 | the new element hangs in the document when some parent was found |
| XmlEdit.AddedConsistent | src/core/patcher/patcher.py:216-220 | the new element, shared by every parent, is still one object: the document stays consistent and its identities stay below the next free one |
| XmlFrames.SplitElement | src/core/utilities/xml_utils.py:9-57 | the loop of `split_frames` (each child split first, then kept in place, put in the open frame's `subTags`, or closing that frame and opening the next) computes the split |
| XmlFrames.SplitNormal | src/core/utilities/xml_utils.py:27-55 | after `split_frames` no element has more than one delimiter child |
| XmlFrames.SplitFixed | src/core/utilities/xml_utils.py:38 | an element none of whose elements has more than one delimiter child is left as it is |
| XmlFrames.SplitIdempotent | src/core/utilities/xml_utils.py:9-57 | splitting twice gives what splitting once gives |
| XmlFrames.SplitFramed | src/core/utilities/xml_utils.py:38-55 | with more than one delimiter child the children become frames numbered from 1, one per delimiter, each holding the split children of other types since the previous delimiter |
| XmlFrames.SplitKept | src/core/utilities/xml_utils.py:33-38 | with at most one delimiter child the children stay in place, each split |
| XmlFrames.SplitIndependent | src/core/utilities/xml_utils.py:21-24 | what `split_frames` builds does not depend on the identities given to the new objects |
| XmlFrames.SplitUnique | src/core/utilities/xml_utils.py:21-55 | in a tree of distinct objects the split tree is again a tree of distinct objects: the old ones and new ones numbered from the next free identity |
| XmlFrames.UnsplitElement | src/core/utilities/xml_utils.py:60-87 | the loop of `unsplit_frames` (each child's frames removed, their `subTags` children and a new delimiter item appended per frame, then the child processed) computes the unsplit |
| XmlFrames.UnsplitFrameFree | src/core/utilities/xml_utils.py:71-85 | a tree without frames is left as it is |
| XmlFrames.UnsplitChildShape | src/core/utilities/xml_utils.py:71-85 | `unsplit_frames` looks only at tags, attributes and children, not at object identities |
| XmlFrames.SplitThenUnwrap | src/core/utilities/xml_utils.py:73-83 | unwrapping the frames `split_frames` made of a timeline gives back the timeline's children, identities aside |
| XmlFrames.UnsplitChildRestores | src/core/utilities/xml_utils.py:60-87 | one level down `unsplit_frames` reverses `split_frames` on a timeline |
| XmlFrames.SplitUnsplitRoundTrip | src/core/utilities/xml_utils.py:60-87 | `unsplit_frames(split_frames(root))` is the document it started from, identities aside, for a root whose children are timelines or settled elements |
| XmlFrames.GroupsCount | src/core/utilities/xml_utils.py:43-55 | one complete frame per delimiter child of tag `item` |
| XmlFrames.SplitDropsTail | src/core/utilities/xml_utils.py:38-57 | in a framed element the children after the last delimiter are lost, because the last open frame is never appended |
| XmlFrames.SplitDropsStray | src/core/utilities/xml_utils.py:43-48 | in a framed element a child of type ShowFrameTag whose tag is not `item` is lost without closing a frame |
| PatchData.NarrowFilter | src/core/patch/patch_file.py:157-163 | narrowing the filter fails, with a ValueError, exactly for `#frameId` on a filter without a `/` to split at |
| PatchData.Decode | src/core/patch/patch_file.py:143-178 | the walk fails only with a ValueError or an AttributeError, and a list node has no item of its own |
| PatchData.DecodeOk | src/core/patch/patch_file.py:143-178 | every item found has a non-empty filter and a non-empty dict of changes with distinct keys, and the items found below a node have filters that extend that node's filter with a `/` |
| PatchData.DecodePatchDataOk | src/core/patch/patch_file.py:180-183 | every item the whole decode returns has a filter and a dict of changes |
| PatchData.DecodeOwn | src/core/patch/patch_file.py:155-171 | a node's item is taken at its last string member, yet it holds the filter and the changes the node ends with |
| PatchData.TopLevelFrameId | src/core/patch/patch_file.py:160-161 | a `#frameId` at the top level has no segment to replace: a ValueError |
| PatchData.NestedFrameId | src/core/patch/patch_file.py:160-163 | below the top level a `#frameId` replaces the last `/segment` by `/frame` and adds the predicate |
| PatchData.NestedFixture | tests/core/patch/test_patch_file.py:64-139 | a reduced form of the decoder's test case: `{"tags": [{"#type": "T", "m": {"~a": "1"}}], "d": {"~x": "0"}}` gives the item `/tags/item[@type='T']/m` with `a`, then `/d` with `x`; a list element adds `/item`, a `#` member a predicate, an object member `/key`, and nested items come before later siblings |
| PatchData.OneChange | src/core/patch/patch_file.py:154-170 | an object holding one change member yields its own item, its filter and that change |
| PatchData.TypedElement | src/core/patch/patch_file.py:154-178 | a `#type` member narrows the filter the following object member descends from, and an element without changes yields no item of its own |
| PatchData.ListOfOne | src/core/patch/patch_file.py:149-152 | a one-element list passes on that element's items, read under `/item` |
| PatchData.NarrowFrame | src/core/patch/patch_file.py:160-163 | a frame number replaces what follows the last `/` by `/frame[@frameId='n']` |
| PatchData.PredicateMember | src/core/patch/patch_file.py:157-163 | a string member `#name` narrows the filter by `[@name='value']`, or fails as the narrowing fails |
| PatchData.ChangeMember | src/core/patch/patch_file.py:164-166 | any other string member is a change of attribute `name`, a leading `~` dropped |
| PatchData.Decoder.constructor | src/core/patch/patch_file.py:141 | the shared result list starts empty |
| PatchData.Decoder.ProcessData | src/core/patch/patch_file.py:143-178 | the recursive walk appends to the shared list exactly the items the decode finds below the node, returns the node's own item, and fails exactly when the decode fails |
| PatchData.Decoder.ProcessItems | src/core/patch/patch_file.py:149-152 | the list loop appends what the decode finds for each element one `/item` further down |
| PatchData.Decoder.ProcessMembers | src/core/patch/patch_file.py:155-176 | the member loop keeps filter, changes and item as the decode does, and appends what it finds below each object member |
| PatchData.Decoder.ProcessPatchData | src/core/patcher/patcher.py:534-583 | the patcher's copy of the decoder returns what the decode returns, the root's own item last, and leaves it in the shared list |
| XmlDocument.Document.constructor | src/core/patcher/patcher.py:193-194 | a parsed document is a tree of distinct objects whose identities are below the next free one |
| XmlDocument.Document.SetChanges | src/core/patcher/patcher.py:222-224 | the document becomes the one with the changes set on every found object, nothing else changed |
| XmlDocument.Document.AppendToAll | src/core/patcher/patcher.py:219-220 | the document becomes the one with the new element appended once per time its parent was found |
| XmlDocument.Document.Apply | src/core/patcher/patcher.py:205-224 | one item: set the changes on what the filter finds; if it finds nothing, append a new element tagged with the filter's last step to what the rest finds; a filter outside the path subset or without a `/` fails with the document untouched; the document stays consistent |
| XmlDocument.Document.ApplyItems | src/core/patcher/patcher.py:203-224 | the items applied in order, the first failure ending the run, the document consistent throughout |
| XmlDocument.Document.SplitFrames | src/core/patcher/patcher.py:203 | the document becomes its split, still a tree of distinct objects |
| XmlDocument.Document.UnsplitFrames | src/core/patcher/patcher.py:227 | the document becomes its unsplit |
| XmlDocument.Document.PatchXml | src/core/patcher/patcher.py:203-227 | the tree written back is the unsplit of the split tree with every item applied, and the run fails exactly when applying fails, with the applier's error |
| XmlDocument.ApplyValid | src/core/patcher/patcher.py:205-224 | applying an item keeps one object one object and every identity below the next free one |
| XmlDocument.ApplyAllValid | src/core/patcher/patcher.py:203-224 | so does applying a list of items |
| XmlDocument.ApplyFound | src/core/patcher/patcher.py:209-224 | when the filter finds elements, every element of the document is still there with its tag, and a found one has each change set and its other attributes as before |
| XmlDocument.ApplyCreates | src/core/patcher/patcher.py:210-220 | when the filter finds nothing, a new element holding the changes hangs under every parent the rest of the filter finds, once per time that parent was found |
| XmlDocument.ApplyNowhere | src/core/patcher/patcher.py:210-220 | when neither the filter nor its rest finds anything, the document is unchanged |
| XmlDocument.ApplyNoSlash | src/core/patcher/patcher.py:212 | a filter that finds nothing and has no `/` raises a ValueError |
| XmlDocument.FoundIdsBelow | src/core/patcher/patcher.py:209 | what a filter finds has identities below the next free one |
| ShapeTables.Extend | src/core/patch/patch_file.py:123-125 | extending an entry keeps keys distinct and adds the key |
| ShapeTables.ParseIds | src/core/patch/patch_file.py:124 | one id per comma-separated piece, or a ValueError |
| ShapeTables.ParseEach | src/core/patch/patch_file.py:124 | every piece is read as an integer, and the list fails exactly when a piece fails |
| ShapeTables.ParseIdsJoin | src/core/patch/patch_file.py:124 | ids written out joined with commas read back as the same ids |
| ShapeTables.Iterate | src/core/patch/patch_file.py:120 | iterating anything but a list: an empty object or text gives nothing, anything else fails |
| ShapeTables.MergeShapes | src/core/patch/patch_file.py:119-127 | the loop builds the table the entries specify, failing at the first entry that fails |
| ShapeTables.MergeKeys | src/core/patch/patch_file.py:119-127 | the merged table has one entry per named file, and no other |
| ShapeTables.MergeLookup | src/core/patch/patch_file.py:119-127 | a file's entry holds the ids of every entry naming it, in list order |
| ShapeTables.MergeFromEntries | src/core/patch/patch_file.py:119-127 | the loop from any point builds the merge of the entries, and fails exactly where an entry fails |
| ShapeTables.MergeTable | src/core/patch/patch_file.py:119-127 | a table built from a list has distinct keys, one per file named by an entry adding something, holding those entries' ids in list order |
| PatchFiles.WithSuffix | src/core/patch/patch_file.py:51 | replacing the suffix fails, with a ValueError, exactly when the path has no name |
| PatchFiles.OriginalFileSwf | src/core/patch/patch_file.py:42-51 | the original file lies in the same folder as the patch file under the same stem with suffix `.swf`, and asking again gives itself |
| PatchFiles.ShapeEntry | src/core/patch/patch_file.py:120-125 | an entry needs `fileName` and `id`; an entry that adds ids adds them under its `fileName` |
| PatchFiles.ProcessShapes | src/core/patch/patch_file.py:93-127 | `__process_shapes` computes the table of the shape entries |
| PatchFiles.ShapesTable | src/core/patch/patch_file.py:119-127 | the table has one entry per shape file named by an entry with a non-blank id, holding the ids of all those entries in list order |
| PatchFiles.BlankIdSkipped | src/core/patch/patch_file.py:122 | an entry whose id is blank adds nothing |
| PatchFiles.IdsEntry | src/core/patch/patch_file.py:121-125 | an entry with comma-joined ids adds exactly those ids under its file |
| PatchFiles.ShapesExample | tests/core/patch/test_patch_file.py:34-35 | `1,2,5,7,9` for `example.svg` gives that file those five ids |
| PatchFiles.BlankExample | tests/core/patch/test_patch_file.py:38 | an empty id gives an empty table |
| PatchFiles.Load | src/core/patch/patch_file.py:54-90 | a loaded file keeps its path; a binary patch is not optional and has no data and no shapes |
| PatchFiles.AsBool | src/core/patch/patch_file.py:77 | the `optional` field is accepted exactly when it is a boolean, 0 or 1, or one of the words `0`, `off`, `f`, `false`, `n`, `no` (false) and `1`, `on`, `t`, `true`, `y`, `yes` (true) in any case; it is false exactly for `false`, 0 and the false words |
| PatchFiles.BoolWordsCaseless | src/core/patch/patch_file.py:77 | no word is read both ways, and the case of its letters does not matter |
| PatchFiles.LoadKind | src/core/patch/patch_file.py:70-90 | the type follows the suffix whatever its case: `.bin` gives a binary patch, `.json` a JSON patch, any other suffix NotImplementedError |
| PatchFiles.LoadJson | src/core/patch/patch_file.py:71-80 | a JSON patch without `optional` is not optional, and holds the decoded `swf` data and the processed `shapes` list |
| PatchFiles.LoadFile | src/core/patch/patch_file.py:54-90 | `load` running both processing steps gives what the specification of a loaded file says |
| Patching.PatcherEntry | src/core/patcher/patcher.py:88-105 | an entry only adds ids under a shape path where a file exists |
| Patching.CallsFail | src/core/patcher/patcher.py:80-108 | once a patch file fails, the whole run fails with its error |
| Patching.CallsMadeOk | src/core/patcher/patcher.py:80-108 | a run that succeeds has made exactly its list of calls |
| Patching.CallsMadeStop | src/core/patcher/patcher.py:80-108 | when file k is the first to fail, the run fails with its error and the calls already made are those of the files before k |
| Patching.CallsWellFormed | src/core/patcher/patcher.py:80-108 | every replacement call carries a non-empty table with distinct shape files and goes to the SWF file extracted for a JSON patch |
| Patching.BinarySkipped | src/core/patcher/patcher.py:82-83 | a binary patch adds no call |
| Patching.FileCallTable | src/core/patcher/patcher.py:85-108 | a JSON patch's call holds the shape files of the entries whose file exists, each with the ids of all those entries in list order, and there is a call exactly when some entry adds something |
| Patching.MissingShapeSkipped | src/core/patcher/patcher.py:91-96 | an entry whose shape file is missing adds nothing, but its error message still needs its `id` |
| Patching.BlankIdFails | src/core/patcher/patcher.py:98-100 | unlike the loader, `patch_shapes` does not strip the id: a blank id of an existing file is a ValueError where the loader skips the entry |
| Patching.ShapeIds | src/core/patcher/patcher.py:98-105 | an existing shape file with comma-joined ids adds those ids under its full path |
| Patching.JobsFail | src/core/patcher/patcher.py:173-189 | once a patch file fails, the choice of files fails |
| Patching.JobsStep | src/core/patcher/patcher.py:173-189 | the files chosen from one more patch file are those chosen before followed by its own |
| Patching.JobsFromPatches | src/core/patcher/patcher.py:173-189 | every XML file patched comes from a JSON patch with non-empty `swf` data and an extracted SWF file, and gets exactly that data |
| Patching.NoSwfSkipped | src/core/patcher/patcher.py:184-186 | a patch file without an extracted SWF file is skipped |
| Patching.NoItems | src/core/patcher/patcher.py:196-227 | data that decodes to no item gives the tree as split and unsplit |
| Patching.NoItemsRestore | src/core/patcher/patcher.py:196-227 | so data that decodes to no item writes back the document it read, identities aside, when its root's children are timelines or free of frames |
| Patching.DecodeFails | src/core/patcher/patcher.py:196 | data that fails to decode fails the file with the decoder's error |
| Patching.PatchXmlFile | src/core/patcher/patcher.py:193-227 | one XML file: decode, split, apply every item, unsplit; it fails exactly when decoding or applying fails, with that error |
| Patching.WrittenOk | src/core/patcher/patcher.py:173-230 | a run that goes through has written exactly the files it lists |
| Patching.WrittenStop | src/core/patcher/patcher.py:173-230 | when patch file k is the first to fail, in the choice of its XML file or in that file's parse, decode or apply, the run fails with that error and has written the files of the patch files before k |
| Patching.RunFail | src/core/patcher/patcher.py:173-230 | once the patch files up to some point fail, the whole run fails with that error |
| Patching.RunStep | src/core/patcher/patcher.py:173-230 | one more patch file adds its own writes, or ends the run with its error |
| Patching.RunJobs | src/core/patcher/patcher.py:173-230 | a run that goes through wrote exactly the XML files the choice lists, in order, each as its parsed tree with that patch's data applied |
| Patching.ChoiceFails | src/core/patcher/patcher.py:173-189 | a failing choice fails the run, though a file's work before it may fail first |
| Patching.FileFailureStops | src/core/patcher/patcher.py:193-212 | a patch file whose XML file is missing or cannot be patched stops the run with that error before any later patch file is looked at, and nothing is written |
| Patching.Patcher.constructor | src/core/patcher/patcher.py:58-78 | the patcher holds the loaded patch files and the extracted SWF files |
| Patching.Patcher.PatchShapes | src/core/patcher/patcher.py:80-108 | the loop makes exactly the replacement calls the specification lists, in order; on an error it returns the error together with the calls it already made |
| Patching.Patcher.PatchFile | src/core/patcher/patcher.py:174-230 | one patch file's turn: it is skipped, its XML file is patched and written, or it fails with the choice's error, FileNotFoundError for a missing XML file, or the decode or apply error |
| Patching.Patcher.PatchXmls | src/core/patcher/patcher.py:173-230 | the loop writes exactly the XML files and trees the run specification lists, in order; on an error it returns that error together with the files it already wrote |
| PatchCreation.DifferIff | src/core/patch_creator/patch_creator.py:291-320 | against a reference reading: two elements differ exactly when some path of child positions reaches a node in both trees where the attribute dicts differ |
| PatchCreation.CheckIfDifferentIff | src/core/patch_creator/patch_creator.py:307-320 | two missing elements count as different, one missing element does not, two present ones differ as above |
| PatchCreation.DifferSymmetric | src/core/patch_creator/patch_creator.py:311-320 | the comparison does not depend on the order of its arguments |
| PatchCreation.DifferIrreflexive | src/core/patch_creator/patch_creator.py:311-320 | a tree never differs from itself |
| PatchCreation.ExtraChildrenIgnored | src/core/patch_creator/patch_creator.py:316 | `zip` stops at the shorter list: extra children on the longer side are never compared |
| PatchCreation.ShapeVerdict | src/core/patch_creator/patch_creator.py:281-287 | one shape's verdict fails only with a KeyError or a ValueError |
| PatchCreation.OriginalShapesFound | src/core/patch_creator/patch_creator.py:274-278 | every shape found carries a `shapeId` and a configured `type`, so the later lookups never fail |
| PatchCreation.DifferentIdsSpec | src/core/patch_creator/patch_creator.py:280-289 | the ids reported are exactly the integer ids of the shapes flagged as different, and a failure happens exactly at a flagged shape whose id is not an integer |
| PatchCreation.DifferentShapesSpec | src/core/patch_creator/patch_creator.py:258-289 | `get_different_shapes` reports exactly the ids of original shapes whose patched counterpart exists and differs; a shape without counterpart is not reported |
| PatchCreation.GetDifferentShapes | src/core/patch_creator/patch_creator.py:258-289 | the two loops compute the ids the specification gives |
| PatchCreation.CollectOriginalShapes | src/core/patch_creator/patch_creator.py:274-278 | the first loop collects the shapes type by type |
| PatchCreation.CollectDifferentIds | src/core/patch_creator/patch_creator.py:280-287 | the second loop collects the ids of the flagged shapes |
| PatchCreation.IdsStep | src/core/patch_creator/patch_creator.py:286-287 | one more shape extends the ids by its verdict |
| PatchCreation.IdsFail | src/core/patch_creator/patch_creator.py:281-287 | a failing verdict ends the collection with its error |
| PatchCreation.CreatePatchItems | src/core/patch_creator/patch_creator.py:360-445 | `create_patch_items` as written computes the items of the recursive specification |
| PatchCreation.OwnPart | src/core/patch_creator/patch_creator.py:389-431 | the node's own part: path extended, original looked up, item filled |
| PatchCreation.ExtendXpath | src/core/patch_creator/patch_creator.py:397-401 | the loop appends one `[@key='value']` per whitelisted attribute |
| PatchCreation.CompareAttributes | src/core/patch_creator/patch_creator.py:407-417 | the loop records each changed attribute in one item for the path, made by the first change |
| PatchCreation.KeepAttributes | src/core/patch_creator/patch_creator.py:425-431 | the comprehension keeps the attributes that are not blacklisted |
| PatchCreation.MergeInto | src/core/patch_creator/patch_creator.py:439-443 | the merge loop updates an item already present under the filter, or adds the item |
| PatchCreation.MergeOneFind | src/core/patch_creator/patch_creator.py:439-443 | after merging one item its filter holds the old changes overlaid by its own, or its own when new; other filters are untouched |
| PatchCreation.ChildValuesWin | src/core/patch_creator/patch_creator.py:441 | on a conflict the child's values win and the other keys keep their values |
| PatchCreation.MergeItemsFacts | src/core/patch_creator/patch_creator.py:439-443 | merging keeps filters distinct and under a common prefix |
| PatchCreation.ItemsFacts | src/core/patch_creator/patch_creator.py:360-445 | `create_patch_items` returns at most one item per filter, and every filter extends the path it was called with |
| PatchCreation.CreatePatchDataFacts | src/core/patch_creator/patch_creator.py:347-352 | the items of a file, made from the split trees, have distinct filters starting with `.` |
| PatchCreation.SkippedNode | src/core/patch_creator/patch_creator.py:389-392 | a blacklisted node (a missing type reads as `item`) gives no item of its own and does not extend the path, but its children are still visited |
| PatchCreation.DiffsGet | src/core/patch_creator/patch_creator.py:407-417 | the recorded changes are exactly the changed, not excluded attributes with their patched values |
| PatchCreation.KeptGet | src/core/patch_creator/patch_creator.py:425-431 | the kept attributes are exactly those not blacklisted, with their values |
| PatchCreation.DiffsEmpty | src/core/patch_creator/patch_creator.py:407-417 | no change is recorded exactly when no attribute changed |
| PatchCreation.FoundNode | src/core/patch_creator/patch_creator.py:403-417 | a node whose original is found gives at most one item, under its path, holding exactly its changed attributes, blacklisted and filter attributes excluded |
| PatchCreation.MissingNode | src/core/patch_creator/patch_creator.py:419-431 | a node with no original gives, for a creatable tag, one item holding every non-blacklisted attribute, filter attributes included, and nothing otherwise |
| PatchCreation.FilterTextOps | src/core/patch_creator/patch_creator.py:397-401 | the appended filter text is the written form of one attribute predicate per whitelisted attribute |
| PatchCreation.StepPathOps | src/core/patch_creator/patch_creator.py:393-401 | a node's path is the parent's selectors followed by its tag and its filter predicates, written out |
| PatchCreation.StepFinds | src/core/patch_creator/patch_creator.py:393-403 | the original is looked up by exactly the parent's selectors, the node's tag and its filter predicates |

## Left out

- LZ4 frame compression and decompression are function parameters. They are third-party code, and only "decompression undoes compression" is assumed, as a precondition where it is needed.
- Files and folders on disk are inputs: the archive bytes, the source folder's file list and contents, parsed JSON and XML, whether a shape file exists, and where a shape file name resolves. `os.walk`, `open`, `Path.resolve`, `is_file` and temporary folders are not modelled.
- The external converter for SWF to XML and back, the binary-diff tool and the archive repacking are left out, because they are subprocess calls.
- JSON and XML text parsing and writing are left out; the model starts from parsed trees. XML text, tails, comments and namespaces are not part of the tree.
- Logging, warnings, the debug output of `patch_xmls` and `beautify_xml` are left out. They have no effect on the results.
- ElementTree's path language is modelled only for the subset the code builds: `.`, `*`, `tag`, `[@key]` and `[@key='value']`. Anything else reads as a syntax error, though the library may accept it. A value holding a quote is outside `XmlPath.ParseRender` and `PatchCreation.StepFinds`.
- The shape queries of `get_different_shapes` are built as selector lists, not as text, so a shape type or id holding a quote is not modelled.
- Names in archives are ASCII. Python's `len` on text counts characters, and the model counts bytes, which agree only for ASCII. A non-ASCII byte in a name reads as a decoding error.
- `str.lower` is ASCII lowercasing.
- `int()` reads optional sign, white space and decimal digits. Underscores and non-ASCII digits are not modelled.
- PatchData.NestedFixture: it is a reduced form of the test case at tests/core/patch/test_patch_file.py:64-139, with one predicate and one change per item. The full four-item case is not restated.
- Utils.ParseHex: non-ASCII digits, which Python maps to ASCII before reading, are not modelled.
- Patching.Patcher.PatchXmls: every XML file is read as it was before the run, so a file that two patch files both write would be read the second time as it was before the first write. The XML text is not modelled, so an XML file that fails to parse is not either; a missing one is FileNotFoundError.
- `Path` is modelled on strings with `/` and `\` as separators. Drives, `..` and normalisation are not modelled. The suffix rules follow `pathlib`.
- The configuration's validation through pydantic is left out: the creator's configuration lists are plain parameters.
- PatchFiles.AsBool: JSON numbers are integers here, so the floats 0.0 and 1.0, which pydantic also accepts as booleans, are not modelled.
- The `List` string parser loops forever when the stream holds fewer non-empty names than asked for. The model returns an error in that case instead.
- `Float` in `datatypes.py` is not modelled. It is floating point, and the archive code does not use it.
- `glob_cpp` and `DllMain` in the native helper are not modelled. They are directory iteration and `std::regex` matching.
- The legacy `process_patch_data` in `src/utils.py` is not modelled. The decoder of `PatchFile` and `Patcher` supersedes it.
- `PatchFile.dump` is not part of this model, because its source is not shown.
- The creator's file handling is not modelled: `create_output`, `prepare_files`, the conversions, `extract_different_shapes` and `create_patch`.
- The patcher's file handling is not modelled: `copy_files`, `repack_bsas`, `finish_patching` and `patch`.
- In-place updates of XML elements are modelled on immutable trees whose elements carry an object identity. An update rewrites every element with that identity, which is how aliasing shows.
- `XmlFrames.SplitUnsplitRoundTrip` is stated only for documents where each root child is one of two kinds. The first kind is a timeline: every child is free of frames and has at most one delimiter child, every ShowFrameTag child is a bare `<item type="ShowFrameTag"/>`, and a delimiter comes last. The second kind is already free of frames. Outside that, `unsplit_frames` does not restore the document, because split drops children and unsplit moves them to the end.
- `XmlFrames.UnsplitChildRestores` and `XmlFrames.SplitThenUnwrap` carry the same restriction, one level down.
- `Patching.NoItemsRestore` inherits that restriction.
- `XmlFrames.SplitFramed`, `XmlFrames.SplitIndependent`, `XmlFrames.SplitThenUnwrap` and the drop lemmas compare trees by shape, so new object identities are ignored. `XmlFrames.SplitUnique` states the identities separately.
