/** `create_archive` and `create_file_flags`: packing the files found under a folder into a
    new archive. The files the directory walk finds are an input (`SourceFile`: the parts
    of the parent folder relative to the input folder, the file name, the bytes); records
    are built as values; LZ4 compression is a function parameter. */
module BsaCreate {
  import opened Wrappers
  import opened Bytes
  import opened Streams
  import opened BsaDatatypes
  import opened BsaHeader
  import opened BsaRecords
  import opened BsaPayload

  datatype SourceFile = SourceFile(folder: seq<string>, name: string, content: seq<Byte>)

  // ================================================================ file flags

  /** The file flags one folder sets, from its lowercased first part (and, under `sounds`,
      its lowercased second part). */
  function FolderFlags(folder: seq<string>): (flags: map<nat, bool>)
    requires folder != []
  {
    var root := Lower(folder[0]);
    if root == "meshes" then map[Meshes := true]
    else if root == "textures" then map[Textures := true]
    else if root == "interface" then map[Menus := true]
    else if root == "sounds" then
      if |folder| > 1 && Lower(folder[1]) == "voice" then map[Sounds := true, Voices := true]
      else map[Sounds := true]
    else map[Miscellaneous := true]
  }

  /** The flags each folder sets, folder by folder. */
  function Classified(folders: seq<seq<string>>): (ms: seq<map<nat, bool>>)
    requires forall i :: 0 <= i < |folders| ==> folders[i] != []
    ensures |ms| == |folders|
    ensures forall i :: 0 <= i < |folders| ==> ms[i] == FolderFlags(folders[i])
  {
    seq(|folders|, i requires 0 <= i < |folders| => FolderFlags(folders[i]))
  }

  /** Dicts merged in order, later entries over earlier ones. */
  function Merge(ms: seq<map<nat, bool>>): map<nat, bool> {
    if ms == [] then map[] else Merge(ms[..|ms| - 1]) + ms[|ms| - 1]
  }

  /** The dict `create_file_flags` builds. */
  function FileFlagsSpec(folders: seq<seq<string>>): map<nat, bool>
    requires forall i :: 0 <= i < |folders| ==> folders[i] != []
  {
    Merge(Classified(folders))
  }

  /** `create_file_flags(folders)`: classifies each folder in turn. */
  method CreateFileFlags(folders: seq<seq<string>>) returns (flags: map<nat, bool>)
    requires forall i :: 0 <= i < |folders| ==> folders[i] != []
    ensures flags == FileFlagsSpec(folders)
  {
    ghost var ms := Classified(folders);
    flags := map[];
    for i := 0 to |folders|
      invariant flags == Merge(ms[..i])
    {
      flags := Classify(flags, folders[i]);
      assert ms[..i + 1][..i] == ms[..i];
    }
    assert ms[..|folders|] == ms;
  }

  /** The `match` on one folder's first part. */
  method Classify(flags: map<nat, bool>, folder: seq<string>) returns (updated: map<nat, bool>)
    requires folder != []
    ensures updated == flags + FolderFlags(folder)
  {
    var root := Lower(folder[0]);
    var sub := if |folder| > 1 then Some(Lower(folder[1])) else None;
    if root == "meshes" {
      updated := flags[Meshes := true];
    } else if root == "textures" {
      updated := flags[Textures := true];
    } else if root == "interface" {
      updated := flags[Menus := true];
    } else if root == "sounds" {
      updated := flags[Sounds := true];
      if sub == Some("voice") {
        updated := updated[Voices := true];
      }
    } else {
      updated := flags[Miscellaneous := true];
    }
  }

  /** A key is in the merge exactly when it is in one of the dicts, with the value of the
      last one holding it. */
  lemma {:induction false} MergeHas(ms: seq<map<nat, bool>>, k: nat)
    ensures k in Merge(ms) <==> exists i :: 0 <= i < |ms| && k in ms[i]
    ensures k in Merge(ms) ==> exists i :: 0 <= i < |ms| && k in ms[i] && Merge(ms)[k] == ms[i][k]
    decreases |ms|
  {
    if ms != [] {
      var init := ms[..|ms| - 1];
      MergeHas(init, k);
      if exists i :: 0 <= i < |init| && k in init[i] {
        var i :| 0 <= i < |init| && k in init[i];
        assert ms[i] == init[i];
      }
      if exists i :: 0 <= i < |ms| && k in ms[i] {
        var i :| 0 <= i < |ms| && k in ms[i];
        if i < |ms| - 1 {
          assert init[i] == ms[i];
        }
      }
      if k in Merge(init) && k !in ms[|ms| - 1] {
        var i :| 0 <= i < |init| && k in init[i] && Merge(init)[k] == init[i][k];
        assert ms[i] == init[i];
      }
    }
  }

  /** Only true entries are recorded, and a flag is recorded exactly when some folder sets
      it. */
  lemma {:induction false} FileFlagsUnion(folders: seq<seq<string>>, flag: nat)
    requires forall i :: 0 <= i < |folders| ==> folders[i] != []
    ensures flag in FileFlagsSpec(folders) <==> exists i :: 0 <= i < |folders| && flag in FolderFlags(folders[i])
    ensures flag in FileFlagsSpec(folders) ==> FileFlagsSpec(folders)[flag]
  {
    var ms := Classified(folders);
    assert FileFlagsSpec(folders) == Merge(ms);
    MergeHas(ms, flag);
    if flag in Merge(ms) {
      var i :| 0 <= i < |ms| && flag in ms[i] && Merge(ms)[flag] == ms[i][flag];
      FolderFlagsTrue(folders[i], ms[i], flag);
    }
    if exists i :: 0 <= i < |folders| && flag in FolderFlags(folders[i]) {
      var i :| 0 <= i < |folders| && flag in FolderFlags(folders[i]);
      assert flag in ms[i];
    }
  }

  /** A folder sets its flags to true. */
  lemma FolderFlagsTrue(folder: seq<string>, m: map<nat, bool>, flag: nat)
    requires folder != [] && m == FolderFlags(folder) && flag in m
    ensures m[flag] && flag in FolderFlags(folder)
  {
  }

  /** Each folder sets exactly one file type, and Voices only together with Sounds. */
  lemma FolderFlagsKinds(folder: seq<string>)
    requires folder != []
    ensures var flags := FolderFlags(folder);
      flags.Keys == {Meshes} || flags.Keys == {Textures} || flags.Keys == {Menus}
      || flags.Keys == {Sounds} || flags.Keys == {Sounds, Voices} || flags.Keys == {Miscellaneous}
    ensures Voices in FolderFlags(folder) <==>
      Lower(folder[0]) == "sounds" && |folder| > 1 && Lower(folder[1]) == "voice"
    ensures Miscellaneous in FolderFlags(folder) <==>
      Lower(folder[0]) !in {"meshes", "textures", "interface", "sounds"}
  {
  }

  /** The match is on the lowercased name: `Sounds\Voice` sets both sound flags. */
  lemma SoundsVoiceExample()
    ensures FolderFlags(["Sounds", "Voice", "Mod.esp"]) == map[Sounds := true, Voices := true]
  {
    assert Lower("Sounds") == "sounds";
    assert Lower("Voice") == "voice";
  }

  // ================================================================ grouping by folder

  /** The files of one parent folder, in the order they were found. */
  datatype Group = Group(folder: seq<string>, files: seq<SourceFile>)

  /** Where `folder` sits among the dict's keys, or -1. */
  function FindGroup(groups: seq<Group>, folder: seq<string>): (i: int)
    ensures -1 <= i < |groups|
    ensures i >= 0 ==> groups[i].folder == folder
    ensures i < 0 ==> forall j :: 0 <= j < |groups| ==> groups[j].folder != folder
  {
    if groups == [] then -1
    else if groups[|groups| - 1].folder == folder then |groups| - 1
    else FindGroup(groups[..|groups| - 1], folder)
  }

  /** One step of the grouping loop: append to the folder's list, or add the folder. */
  function AddFile(groups: seq<Group>, f: SourceFile): seq<Group> {
    var i := FindGroup(groups, f.folder);
    if i < 0 then groups + [Group(f.folder, [f])]
    else groups[i := Group(f.folder, groups[i].files + [f])]
  }

  /** The dict `folders` after the loop: folders in first-seen order, each with its files. */
  function GroupSpec(files: seq<SourceFile>): seq<Group> {
    if files == [] then [] else AddFile(GroupSpec(files[..|files| - 1]), files[|files| - 1])
  }

  /** The grouping loop of `create_archive`, the dict kept as its ordered items. */
  method GroupByFolder(files: seq<SourceFile>) returns (groups: seq<Group>)
    ensures groups == GroupSpec(files)
  {
    groups := [];
    for i := 0 to |files|
      invariant groups == GroupSpec(files[..i])
    {
      var f := files[i];
      var j := FindGroup(groups, f.folder);
      if j >= 0 {
        groups := groups[j := Group(f.folder, groups[j].files + [f])];
      } else {
        groups := groups + [Group(f.folder, [f])];
      }
      assert files[..i + 1][..i] == files[..i];
    }
    assert files[..|files|] == files;
  }

  /** The files of all groups, group after group. */
  function AllFiles(groups: seq<Group>): (fs: seq<SourceFile>) {
    if groups == [] then [] else AllFiles(groups[..|groups| - 1]) + groups[|groups| - 1].files
  }

  /** One folder's entry: a non-empty list of files found in that folder. */
  predicate GroupOk(g: Group) {
    g.files != [] && forall k :: 0 <= k < |g.files| ==> g.files[k].folder == g.folder
  }

  /** A dict: no folder twice, no empty list, each file under its own folder. */
  predicate WellGrouped(groups: seq<Group>) {
    (forall i, j :: 0 <= i < j < |groups| ==> groups[i].folder != groups[j].folder) &&
    (forall i :: 0 <= i < |groups| ==> GroupOk(groups[i]))
  }

  lemma {:induction false} AllFilesUpdate(groups: seq<Group>, i: nat, g: Group)
    requires i < |groups|
    ensures multiset(AllFiles(groups[i := g])) == multiset(AllFiles(groups)) - multiset(groups[i].files) + multiset(g.files)
    decreases |groups|
  {
    var n := |groups| - 1;
    var init, last := groups[..n], groups[n];
    assert groups == init + [last];
    AllFilesSnoc(init, last);
    if i == n {
      assert groups[i := g] == init + [g];
      AllFilesSnoc(init, g);
    } else {
      assert groups[i := g] == init[i := g] + [last];
      AllFilesSnoc(init[i := g], last);
      AllFilesUpdate(init, i, g);
      AllFilesHas(init, i);
      assert init[i] == groups[i];
      ReplaceInPrefix(multiset(AllFiles(init)), multiset(last.files), multiset(groups[i].files), multiset(g.files));
    }
  }

  /** Replacing a part of the front leaves the back in place. */
  lemma ReplaceInPrefix(front: multiset<SourceFile>, back: multiset<SourceFile>, old_: multiset<SourceFile>, new_: multiset<SourceFile>)
    requires old_ <= front
    ensures front - old_ + new_ + back == front + back - old_ + new_
  {
  }

  lemma {:induction false} AllFilesHas(groups: seq<Group>, i: nat)
    requires i < |groups|
    ensures multiset(groups[i].files) <= multiset(AllFiles(groups))
    decreases |groups|
  {
    var n := |groups| - 1;
    if i < n {
      AllFilesHas(groups[..n], i);
      assert groups[..n][i] == groups[i];
    }
  }

  lemma {:induction false} AllFilesSnoc(groups: seq<Group>, g: Group)
    ensures AllFiles(groups + [g]) == AllFiles(groups) + g.files
  {
    assert (groups + [g])[..|groups|] == groups;
  }

  /** One step of the grouping keeps a dict and adds the file once. */
  lemma {:induction false} AddWell(groups: seq<Group>, f: SourceFile)
    requires WellGrouped(groups)
    ensures WellGrouped(AddFile(groups, f))
    ensures multiset(AllFiles(AddFile(groups, f))) == multiset(AllFiles(groups)) + multiset{f}
  {
    if FindGroup(groups, f.folder) < 0 {
      AddNew(groups, f);
    } else {
      AddKnown(groups, f);
    }
  }

  /** A new folder goes at the end. */
  lemma {:induction false} AddNew(groups: seq<Group>, f: SourceFile)
    requires WellGrouped(groups) && FindGroup(groups, f.folder) < 0
    ensures WellGrouped(groups + [Group(f.folder, [f])])
    ensures multiset(AllFiles(groups + [Group(f.folder, [f])])) == multiset(AllFiles(groups)) + multiset{f}
  {
    var g := Group(f.folder, [f]);
    var updated := groups + [g];
    assert WellGrouped(updated) by {
      assert GroupOk(g);
      assert forall j :: 0 <= j < |groups| ==> updated[j] == groups[j];
      assert updated[|groups|] == g;
    }
    AllFilesSnoc(groups, g);
  }

  /** A known folder gets the file appended. */
  lemma {:induction false} AddKnown(groups: seq<Group>, f: SourceFile)
    requires WellGrouped(groups) && FindGroup(groups, f.folder) >= 0
    ensures var i := FindGroup(groups, f.folder);
      WellGrouped(groups[i := Group(f.folder, groups[i].files + [f])]) &&
      multiset(AllFiles(groups[i := Group(f.folder, groups[i].files + [f])])) == multiset(AllFiles(groups)) + multiset{f}
  {
    var i := FindGroup(groups, f.folder);
    var g := Group(f.folder, groups[i].files + [f]);
    var updated := groups[i := g];
    assert WellGrouped(updated) by {
      assert GroupOk(g);
      assert forall j :: 0 <= j < |groups| ==> updated[j].folder == groups[j].folder;
      assert forall j :: 0 <= j < |groups| ==> GroupOk(updated[j]);
    }
    assert multiset(AllFiles(updated)) == multiset(AllFiles(groups)) + multiset{f} by {
      AllFilesUpdate(groups, i, g);
      AllFilesHas(groups, i);
      assert multiset(g.files) == multiset(groups[i].files) + multiset{f};
    }
  }

  /** The grouping is a dict holding every file exactly once. */
  lemma {:induction false} GroupSpecWellGrouped(files: seq<SourceFile>)
    ensures WellGrouped(GroupSpec(files))
    ensures multiset(AllFiles(GroupSpec(files))) == multiset(files)
    decreases |files|
  {
    if files != [] {
      var n := |files| - 1;
      var prefix, f := files[..n], files[n];
      assert files == prefix + [f];
      GroupSpecWellGrouped(prefix);
      AddWell(GroupSpec(prefix), f);
    }
  }

  /** Files of one folder found one after the other, as a directory walk finds them. */
  predicate Contiguous(files: seq<SourceFile>) {
    forall i, j, k :: 0 <= i < j < k < |files| && files[i].folder == files[k].folder ==>
      files[j].folder == files[i].folder
  }

  /** With contiguous folders the grouping keeps the order of the files, so the records
      come in the order of the names in the name block. */
  lemma {:induction false} GroupKeepsOrder(files: seq<SourceFile>)
    requires Contiguous(files)
    ensures AllFiles(GroupSpec(files)) == files
    ensures files != [] ==> GroupSpec(files)[|GroupSpec(files)| - 1].folder == files[|files| - 1].folder
    decreases |files|
  {
    if files != [] {
      var n := |files| - 1;
      var prefix := files[..n];
      assert files == prefix + [files[n]];
      ContiguousInit(files, prefix, files[n]);
      GroupKeepsOrder(prefix);
      KeepsOrderStep(files, prefix, files[n], GroupSpec(prefix));
    }
  }

  lemma ContiguousInit(files: seq<SourceFile>, prefix: seq<SourceFile>, f: SourceFile)
    requires files == prefix + [f] && Contiguous(files)
    ensures Contiguous(prefix)
  {
    forall i, j, k | 0 <= i < j < k < |prefix| && prefix[i].folder == prefix[k].folder
      ensures prefix[j].folder == prefix[i].folder
    {
      assert files[i] == prefix[i] && files[j] == prefix[j] && files[k] == prefix[k];
    }
  }

  /** One more file of a contiguous walk lands at the end of the grouped files. */
  lemma {:induction false} KeepsOrderStep(files: seq<SourceFile>, prefix: seq<SourceFile>, f: SourceFile, gs: seq<Group>)
    requires files == prefix + [f] && gs == GroupSpec(prefix) && Contiguous(files)
    requires AllFiles(gs) == prefix
    requires prefix != [] ==> gs[|gs| - 1].folder == prefix[|prefix| - 1].folder
    ensures AllFiles(GroupSpec(files)) == files
    ensures GroupSpec(files)[|GroupSpec(files)| - 1].folder == f.folder
  {
    assert files[..|files| - 1] == prefix;
    assert GroupSpec(files) == AddFile(gs, f);
    var i := FindGroup(gs, f.folder);
    if i < 0 {
      assert AddFile(gs, f) == gs + [Group(f.folder, [f])];
      AllFilesSnoc(gs, Group(f.folder, [f]));
    } else {
      assert prefix != [];
      GroupSpecWellGrouped(prefix);
      KnownIsLast(prefix, gs, f);
      assert AddFile(gs, f) == gs[|gs| - 1 := Group(f.folder, gs[|gs| - 1].files + [f])];
      AppendLast(gs, f);
    }
  }

  /** In contiguous files a folder seen before the newest file is the newest file's folder,
      which is the last group's. */
  lemma {:induction false} KnownIsLast(files: seq<SourceFile>, gs: seq<Group>, f: SourceFile)
    requires Contiguous(files + [f]) && gs == GroupSpec(files) && WellGrouped(gs)
    requires AllFiles(gs) == files && files != [] && gs[|gs| - 1].folder == files[|files| - 1].folder
    requires FindGroup(gs, f.folder) >= 0
    ensures FindGroup(gs, f.folder) == |gs| - 1
  {
    var i := FindGroup(gs, f.folder);
    AllFilesHas(gs, i);
    assert gs[i].files[0] in multiset(files);
    var m :| 0 <= m < |files| && files[m] == gs[i].files[0];
    var all := files + [f];
    assert all[m].folder == all[|files|].folder;
    if m < |files| - 1 {
      assert all[|files| - 1].folder == all[m].folder;
    }
  }

  /** Appending to the last group appends to the files. */
  lemma {:induction false} AppendLast(gs: seq<Group>, f: SourceFile)
    requires gs != [] && gs[|gs| - 1].folder == f.folder
    ensures AllFiles(gs[|gs| - 1 := Group(f.folder, gs[|gs| - 1].files + [f])]) == AllFiles(gs) + [f]
  {
    var last := |gs| - 1;
    assert gs[last := Group(f.folder, gs[last].files + [f])][..last] == gs[..last];
  }

  // ================================================================ folder count

  /** The parent folders of the files, each once. */
  function FileFolders(files: seq<SourceFile>): set<seq<string>> {
    set k | 0 <= k < |files| :: files[k].folder
  }

  /** The folders of a dict's keys. */
  function GroupFolders(groups: seq<Group>): set<seq<string>> {
    set i | 0 <= i < |groups| :: groups[i].folder
  }

  /** Adding a file adds its folder to the keys, and nothing else. */
  lemma {:induction false} AddFileFolders(groups: seq<Group>, f: SourceFile)
    ensures GroupFolders(AddFile(groups, f)) == GroupFolders(groups) + {f.folder}
  {
    var i := FindGroup(groups, f.folder);
    var next := AddFile(groups, f);
    if i < 0 {
      assert next[|groups|].folder == f.folder;
      forall x | x in GroupFolders(next) ensures x in GroupFolders(groups) + {f.folder} {
        var j :| 0 <= j < |next| && next[j].folder == x;
        if j < |groups| {
          assert groups[j].folder == x;
        }
      }
      forall x | x in GroupFolders(groups) ensures x in GroupFolders(next) {
        var j :| 0 <= j < |groups| && groups[j].folder == x;
        assert next[j].folder == x;
      }
    } else {
      forall j | 0 <= j < |groups| ensures next[j].folder == groups[j].folder { }
      assert GroupFolders(next) == GroupFolders(groups);
    }
  }

  /** The dict's keys are the files' parent folders. */
  lemma {:induction false} GroupSpecFolders(files: seq<SourceFile>)
    ensures GroupFolders(GroupSpec(files)) == FileFolders(files)
    decreases |files|
  {
    if files != [] {
      var n := |files| - 1;
      GroupSpecFolders(files[..n]);
      AddFileFolders(GroupSpec(files[..n]), files[n]);
      assert FileFolders(files) == FileFolders(files[..n]) + {files[n].folder} by {
        forall x | x in FileFolders(files) ensures x in FileFolders(files[..n]) + {files[n].folder} {
          var k :| 0 <= k < |files| && files[k].folder == x;
          if k < n {
            assert files[..n][k].folder == x;
          }
        }
        forall x | x in FileFolders(files[..n]) ensures x in FileFolders(files) {
          var k :| 0 <= k < n && files[..n][k].folder == x;
          assert files[k].folder == x;
        }
      }
    }
  }

  /** A dict with no folder twice has as many keys as folders. */
  lemma {:induction false} DistinctFolders(groups: seq<Group>)
    requires forall i, j :: 0 <= i < j < |groups| ==> groups[i].folder != groups[j].folder
    ensures |GroupFolders(groups)| == |groups|
    decreases |groups|
  {
    if groups != [] {
      var n := |groups| - 1;
      var prefix := groups[..n];
      assert forall i, j :: 0 <= i < j < |prefix| ==> prefix[i].folder != prefix[j].folder by {
        forall i, j | 0 <= i < j < |prefix| ensures prefix[i].folder != prefix[j].folder {
          assert prefix[i] == groups[i] && prefix[j] == groups[j];
        }
      }
      DistinctFolders(prefix);
      assert groups == prefix + [groups[n]];
      FoldersSnoc(groups, prefix, groups[n]);
      NewFolder(groups, prefix, groups[n]);
    }
  }

  /** The last group adds its folder to the prefix's. */
  lemma FoldersSnoc(groups: seq<Group>, prefix: seq<Group>, last: Group)
    requires groups == prefix + [last]
    ensures GroupFolders(groups) == GroupFolders(prefix) + {last.folder}
  {
    forall x | x in GroupFolders(groups) ensures x in GroupFolders(prefix) + {last.folder} {
      var j :| 0 <= j < |groups| && groups[j].folder == x;
      if j < |prefix| {
        assert prefix[j].folder == x;
      } else {
        assert groups[j] == last;
      }
    }
    forall x | x in GroupFolders(prefix) ensures x in GroupFolders(groups) {
      var j :| 0 <= j < |prefix| && prefix[j].folder == x;
      assert groups[j].folder == x;
    }
    assert groups[|prefix|].folder == last.folder;
  }

  /** A last group whose folder no earlier group has brings a new folder. */
  lemma NewFolder(groups: seq<Group>, prefix: seq<Group>, last: Group)
    requires groups == prefix + [last]
    requires forall i, j :: 0 <= i < j < |groups| ==> groups[i].folder != groups[j].folder
    ensures last.folder !in GroupFolders(prefix)
  {
    forall j | 0 <= j < |prefix| ensures prefix[j].folder != last.folder {
      assert prefix[j] == groups[j] && last == groups[|prefix|];
    }
  }

  /** There is one folder record per distinct parent folder. */
  lemma {:induction false} FolderCount(files: seq<SourceFile>)
    ensures |GroupSpec(files)| == |FileFolders(files)|
  {
    GroupSpecWellGrouped(files);
    GroupSpecFolders(files);
    DistinctFolders(GroupSpec(files));
  }
}
