/** The two patching steps of `Patcher` that work on a patch's JSON files: `patch_shapes`,
    which gathers for every patched SWF file the table of replacement shape files and
    ids; and `patch_xmls`, which picks the SWF files whose XML export is patched and, for
    one such XML tree, decodes the patch data and applies it. The files on disk, the
    external converter and the resolution of shape file names are parameters. */
module Patching {
  import opened Wrappers
  import opened Text
  import opened JsonData
  import opened ShapeTables
  import opened PatchData
  import opened XmlTree
  import opened XmlDocument
  import StrDict
  import XmlFrames
  import PatchFiles

  /** `replace_shapes(swf_file, shapes)`: the SWF file and the table to put into it. */
  type Call = (string, ShapeMap)

  /** A loaded patch file: its path and its parsed JSON, or nothing for a binary patch. */
  type Loaded = (string, Option<Json>)

  // ---------------------------------------------------------------- patch_shapes

  /** One entry of a patch file's `"shapes"` list as `patch_shapes` reads it. The file name
      must be text; `locate` gives the full path it resolves to below the shape folder
      and `isFile` whether a file lies there. A missing file is skipped, but the error
      message still reads `shape_data['id']`; the id is split at commas without being
      stripped first. */
  function PatcherEntry(item: Json, locate: string -> string, isFile: string -> bool): (r: Result<Entry>)
    ensures r.Ok? && r.value.Some? ==> isFile(r.value.value.0)
  {
    if !item.Obj? then Err(TypeErr)
    else
      var fileName := Find(item.members, "fileName");
      if fileName.None? then Err(KeyErr)
      else if !fileName.value.Str? then Err(TypeErr)
      else
        var shapePath := locate(fileName.value.s);
        var id := Find(item.members, "id");
        if !isFile(shapePath) then (if id.None? then Err(KeyErr) else Ok(None))
        else if id.None? then Err(KeyErr)
        else if !id.value.Str? then Err(AttributeErr)
        else
          var ids :- ParseIds(id.value.s);
          Ok(Some((shapePath, ids)))
  }

  function EntryRule(locate: string -> string, isFile: string -> bool): Json -> Result<Entry> {
    item => PatcherEntry(item, locate, isFile)
  }

  /** The body of the loop for one patch file: a binary patch is skipped; a JSON patch
      needs an extracted SWF file, and its table is handed over only when it is not
      empty. */
  function FileCall(file: Loaded, swfFiles: StrDict.Dict, locate: string -> string, isFile: string -> bool): Result<seq<Call>> {
    if file.1.None? then Ok([])
    else
      var swf := StrDict.Get(swfFiles, file.0);
      if swf.None? then Err(KeyErr)
      else if !file.1.value.Obj? then Err(AttributeErr)
      else
        var shapes :- Iterate(Get(file.1.value.members, "shapes", Arr([])), EntryRule(locate, isFile));
        Ok(if shapes == [] then [] else [(swf.value, shapes)])
  }

  /** `patch_shapes`: the replacement calls of all patch files, in order; the first
      patch file that fails ends it. */
  function ShapeCalls(files: seq<Loaded>, swfFiles: StrDict.Dict, locate: string -> string, isFile: string -> bool): Result<seq<Call>>
    decreases |files|
  {
    if files == [] then Ok([])
    else
      var calls :- ShapeCalls(files[..|files| - 1], swfFiles, locate, isFile);
      var c :- FileCall(files[|files| - 1], swfFiles, locate, isFile);
      Ok(calls + c)
  }

  /** Once the calls of a prefix fail, so do the calls of the whole list. */
  lemma {:induction false} CallsFail(files: seq<Loaded>, i: nat, swfFiles: StrDict.Dict, locate: string -> string, isFile: string -> bool)
    requires i <= |files| && ShapeCalls(files[..i], swfFiles, locate, isFile).Err?
    ensures ShapeCalls(files, swfFiles, locate, isFile) == ShapeCalls(files[..i], swfFiles, locate, isFile)
    decreases |files| - i
  {
    if i == |files| {
      assert files[..i] == files;
    } else {
      assert files[..i + 1][..i] == files[..i];
      CallsFail(files, i + 1, swfFiles, locate, isFile);
    }
  }

  /** The replacement calls `patch_shapes` has made when it stops: all of them when every
      patch file goes through, otherwise those of the files before the first that fails
      (a file's own call comes after its whole shape list is read). */
  function CallsMade(files: seq<Loaded>, swfFiles: StrDict.Dict, locate: string -> string, isFile: string -> bool): seq<Call>
    decreases |files|
  {
    if files == [] then []
    else
      var init := files[..|files| - 1];
      match ShapeCalls(init, swfFiles, locate, isFile)
      case Err(_) => CallsMade(init, swfFiles, locate, isFile)
      case Ok(calls) =>
        match FileCall(files[|files| - 1], swfFiles, locate, isFile)
        case Ok(c) => calls + c
        case Err(_) => calls
  }

  /** A run that goes through has made exactly the calls it lists. */
  lemma CallsMadeOk(files: seq<Loaded>, swfFiles: StrDict.Dict, locate: string -> string, isFile: string -> bool)
    requires ShapeCalls(files, swfFiles, locate, isFile).Ok?
    ensures CallsMade(files, swfFiles, locate, isFile) == ShapeCalls(files, swfFiles, locate, isFile).value
  {
  }

  /** A run that stops at file `k` fails with that file's error, and has made the calls
      of the files before it. */
  lemma CallsMadeStop(files: seq<Loaded>, k: nat, swfFiles: StrDict.Dict, locate: string -> string, isFile: string -> bool)
    requires k < |files| && ShapeCalls(files[..k], swfFiles, locate, isFile).Ok?
    requires FileCall(files[k], swfFiles, locate, isFile).Err?
    ensures ShapeCalls(files, swfFiles, locate, isFile) == Err(FileCall(files[k], swfFiles, locate, isFile).error)
    ensures CallsMade(files, swfFiles, locate, isFile) == ShapeCalls(files[..k], swfFiles, locate, isFile).value
  {
    assert files[..k + 1][..k] == files[..k];
    assert files[..k + 1][k] == files[k];
    CallsFail(files, k + 1, swfFiles, locate, isFile);
    MadeAfterFail(files, k + 1, swfFiles, locate, isFile);
  }

  /** Once a prefix fails, no later file adds a call. */
  lemma {:induction false} MadeAfterFail(files: seq<Loaded>, i: nat, swfFiles: StrDict.Dict, locate: string -> string, isFile: string -> bool)
    requires i <= |files| && ShapeCalls(files[..i], swfFiles, locate, isFile).Err?
    ensures CallsMade(files, swfFiles, locate, isFile) == CallsMade(files[..i], swfFiles, locate, isFile)
    decreases |files| - i
  {
    if i == |files| {
      assert files[..i] == files;
    } else {
      assert files[..i + 1][..i] == files[..i];
      MadeAfterFail(files, i + 1, swfFiles, locate, isFile);
    }
  }

  /** `swf` is the SWF file extracted for one of the JSON patches. */
  predicate SwfOfPatch(files: seq<Loaded>, swfFiles: StrDict.Dict, swf: string) {
    exists k :: 0 <= k < |files| && files[k].1.Some? && StrDict.Get(swfFiles, files[k].0) == Some(swf)
  }

  /** Every call carries a non-empty table with one entry per shape file, and goes to
      the SWF file extracted for a JSON patch. */
  lemma {:induction false} CallsWellFormed(files: seq<Loaded>, swfFiles: StrDict.Dict, locate: string -> string, isFile: string -> bool)
    requires ShapeCalls(files, swfFiles, locate, isFile).Ok?
    ensures forall c :: c in ShapeCalls(files, swfFiles, locate, isFile).value ==>
      c.1 != [] && KeysDistinct(c.1) && SwfOfPatch(files, swfFiles, c.0)
    decreases |files|
  {
    if files != [] {
      var init := files[..|files| - 1];
      var last := files[|files| - 1];
      CallsWellFormed(init, swfFiles, locate, isFile);
      var calls := ShapeCalls(init, swfFiles, locate, isFile).value;
      var c := FileCall(last, swfFiles, locate, isFile).value;
      if c != [] {
        var data := Get(last.1.value.members, "shapes", Arr([]));
        if data.Arr? {
          MergeTable(data.items, EntryRule(locate, isFile), "");
        }
      }
      forall x: Call | x in calls + c
        ensures x.1 != [] && KeysDistinct(x.1) && SwfOfPatch(files, swfFiles, x.0)
      {
        if x in calls {
          var k :| 0 <= k < |init| && init[k].1.Some? && StrDict.Get(swfFiles, init[k].0) == Some(x.0);
          assert files[k] == init[k];
        } else {
          assert x == c[0];
        }
      }
    }
  }

  /** A binary patch adds no call. */
  lemma BinarySkipped(files: seq<Loaded>, path: string, swfFiles: StrDict.Dict, locate: string -> string, isFile: string -> bool)
    ensures ShapeCalls(files + [(path, None)], swfFiles, locate, isFile) == ShapeCalls(files, swfFiles, locate, isFile)
  {
    assert (files + [(path, None)])[..|files|] == files;
    var calls := ShapeCalls(files, swfFiles, locate, isFile);
    if calls.Ok? {
      assert calls.value + [] == calls.value;
    }
  }

  /** What a JSON patch's call holds: the shape files named by entries whose file
      exists, each with the ids of all those entries in list order. */
  lemma FileCallTable(path: string, members: seq<(string, Json)>, items: seq<Json>, swfFiles: StrDict.Dict, locate: string -> string, isFile: string -> bool, file: string)
    requires Get(members, "shapes", Arr([])) == Arr(items)
    requires FileCall((path, Some(Obj(members))), swfFiles, locate, isFile).Ok?
    ensures Entries(items, EntryRule(locate, isFile)).Ok?
    ensures var es := Entries(items, EntryRule(locate, isFile)).value;
      var c := FileCall((path, Some(Obj(members))), swfFiles, locate, isFile).value;
      (c == [] <==> es == []) &&
      (c != [] ==>
        c[0].0 == StrDict.Get(swfFiles, path).value && Keys(c[0].1) == Files(es) &&
        (file in Files(es) ==> Lookup(c[0].1, file) == Some(IdsFor(es, file))))
  {
    MergeTable(items, EntryRule(locate, isFile), file);
    var es := Entries(items, EntryRule(locate, isFile)).value;
    if es != [] {
      assert es[0].0 in Files(es);
    }
  }

  /** An entry whose shape file does not exist adds nothing, provided it has an id. */
  lemma MissingShapeSkipped(item: Json, locate: string -> string, isFile: string -> bool)
    requires item.Obj? && Find(item.members, "fileName").Some? && Find(item.members, "fileName").value.Str?
    requires !isFile(locate(Find(item.members, "fileName").value.s))
    ensures PatcherEntry(item, locate, isFile) == if Find(item.members, "id").Some? then Ok(None) else Err(KeyErr)
  {
  }

  /** Unlike the loader, `patch_shapes` does not strip the id: a blank id of an existing
      shape file is a ValueError rather than nothing. */
  lemma BlankIdFails(fileName: string, locate: string -> string, isFile: string -> bool)
    requires isFile(locate(fileName))
    ensures PatcherEntry(Obj([("id", Str("")), ("fileName", Str(fileName))]), locate, isFile) == Err(ValueErr)
    ensures PatchFiles.ShapeEntry(Obj([("id", Str("")), ("fileName", Str(fileName))])) == Ok(None)
  {
    PatchFiles.EntryFind(fileName, "");
    assert Split("", ',') == [""];
    assert ParseInt("").Err?;
  }

  /** An existing shape file with ids written as `",".join(...)` adds those ids under
      its full path. */
  lemma ShapeIds(fileName: string, ns: seq<nat>, locate: string -> string, isFile: string -> bool)
    requires ns != [] && isFile(locate(fileName))
    ensures PatcherEntry(Obj([("id", Str(Join(Digits(ns), ','))), ("fileName", Str(fileName))]), locate, isFile)
      == Ok(Some((locate(fileName), ns)))
  {
    PatchFiles.EntryFind(fileName, Join(Digits(ns), ','));
    ParseIdsJoin(ns);
  }

  // ---------------------------------------------------------------- patch_xmls

  /** Python's falsy values among JSON values. */
  predicate Falsy(v: Json) {
    v == Null || v == Bool(false) || v == Num(0) || v == Str([]) || v == Arr([]) || v == Obj([])
  }

  /** The XML file a patch file's `swf` data is applied to, if any: a binary patch, a
      missing or falsy `swf` entry and a patch file with no extracted SWF file are
      skipped; the XML file is the SWF file with the suffix `.xml`. */
  function XmlJob(file: Loaded, swfFiles: StrDict.Dict): Result<seq<(string, Json)>> {
    if file.1.None? then Ok([])
    else if !file.1.value.Obj? then Err(AttributeErr)
    else
      var data := Find(file.1.value.members, "swf");
      if data.None? || Falsy(data.value) then Ok([])
      else
        var swf := StrDict.Get(swfFiles, file.0);
        if swf.None? then Ok([])
        else
          var xml :- PatchFiles.WithSuffix(swf.value, ".xml");
          Ok([(xml, data.value)])
  }

  /** The XML files `patch_xmls` rewrites, in order, each with its patch data. */
  function XmlJobs(files: seq<Loaded>, swfFiles: StrDict.Dict): Result<seq<(string, Json)>>
    decreases |files|
  {
    if files == [] then Ok([])
    else
      var jobs :- XmlJobs(files[..|files| - 1], swfFiles);
      var j :- XmlJob(files[|files| - 1], swfFiles);
      Ok(jobs + j)
  }

  lemma {:induction false} JobsFail(files: seq<Loaded>, i: nat, swfFiles: StrDict.Dict)
    requires i <= |files| && XmlJobs(files[..i], swfFiles).Err?
    ensures XmlJobs(files, swfFiles) == XmlJobs(files[..i], swfFiles)
    decreases |files| - i
  {
    if i == |files| {
      assert files[..i] == files;
    } else {
      assert files[..i + 1][..i] == files[..i];
      JobsFail(files, i + 1, swfFiles);
    }
  }

  /** `data` is the `swf` entry of one of the JSON patches that has an extracted SWF
      file. */
  predicate DataOfPatch(files: seq<Loaded>, swfFiles: StrDict.Dict, data: Json) {
    exists k :: 0 <= k < |files| && files[k].1.Some? && files[k].1.value.Obj? &&
      Find(files[k].1.value.members, "swf") == Some(data) && StrDict.Get(swfFiles, files[k].0).Some?
  }

  /** The jobs of one more patch file. */
  lemma JobsStep(files: seq<Loaded>, i: nat, swfFiles: StrDict.Dict)
    requires i < |files| && XmlJobs(files[..i], swfFiles).Ok?
    ensures XmlJobs(files[..i + 1], swfFiles) ==
      match XmlJob(files[i], swfFiles)
      case Ok(j) => Ok(XmlJobs(files[..i], swfFiles).value + j)
      case Err(e) => Err(e)
  {
    assert files[..i + 1][..i] == files[..i];
  }

  /** Every XML file patched comes from a JSON patch with truthy `swf` data and an
      extracted SWF file, and gets exactly that data. */
  lemma {:induction false} JobsFromPatches(files: seq<Loaded>, swfFiles: StrDict.Dict)
    requires XmlJobs(files, swfFiles).Ok?
    ensures forall j :: j in XmlJobs(files, swfFiles).value ==> !Falsy(j.1) && DataOfPatch(files, swfFiles, j.1)
    decreases |files|
  {
    if files != [] {
      var init := files[..|files| - 1];
      JobsFromPatches(init, swfFiles);
      var jobs := XmlJobs(init, swfFiles).value;
      var last := XmlJob(files[|files| - 1], swfFiles).value;
      forall j: (string, Json) | j in jobs + last ensures !Falsy(j.1) && DataOfPatch(files, swfFiles, j.1) {
        if j in jobs {
          var k :| 0 <= k < |init| && init[k].1.Some? && init[k].1.value.Obj? &&
            Find(init[k].1.value.members, "swf") == Some(j.1) && StrDict.Get(swfFiles, init[k].0).Some?;
          assert files[k] == init[k];
        } else {
          assert j == last[0];
        }
      }
    }
  }

  /** A patch file with no extracted SWF file is skipped, whatever its data. */
  lemma NoSwfSkipped(file: Loaded, swfFiles: StrDict.Dict)
    requires StrDict.Get(swfFiles, file.0).None? && (file.1.Some? ==> file.1.value.Obj?)
    ensures XmlJob(file, swfFiles) == Ok([])
  {
  }

  /** What `patch_xmls` does to one XML tree: the `swf` data decoded into items, the
      frames split, every item applied in order, the frames unsplit. */
  function XmlResult(root: Element, next: nat, data: Json): Result<Element> {
    var items :- DecodePatchData(data);
    var s := XmlFrames.Split(root, next);
    var a :- ApplyAll(s.0, s.1, items);
    Ok(XmlFrames.Unsplit(a.0))
  }

  /** Data that decodes to no item leaves the tree as splitting and unsplitting it
      leaves it. */
  lemma NoItems(root: Element, next: nat, data: Json)
    requires DecodePatchData(data) == Ok([])
    ensures XmlResult(root, next, data) == Ok(XmlFrames.Unsplit(XmlFrames.Split(root, next).0))
  {
  }

  /** So a patch whose data yields no item writes back the document it read, identities
      aside, when the root's children are timelines or elements without frames. */
  lemma NoItemsRestore(root: Element, next: nat, data: Json)
    requires DecodePatchData(data) == Ok([])
    requires XmlFrames.Delimiters(root.children) <= 1
    requires forall i :: 0 <= i < |root.children| ==> XmlFrames.Restorable(root.children[i])
    ensures XmlResult(root, next, data).Ok?
    ensures SameShape(XmlResult(root, next, data).value, root)
  {
    NoItems(root, next, data);
    XmlFrames.SplitUnsplitRoundTrip(root, next);
  }

  /** Data that fails to decode leaves the tree unpatched with the decoder's error. */
  lemma DecodeFails(root: Element, next: nat, data: Json)
    requires DecodePatchData(data).Err?
    ensures XmlResult(root, next, data) == Err(DecodePatchData(data).error)
    ensures XmlResult(root, next, data).error == ValueErr || XmlResult(root, next, data).error == AttributeErr
  {
  }

  /** The body of the loop of `patch_xmls` for one parsed XML tree. */
  method PatchXmlFile(doc: Document, data: Json) returns (r: Result<()>)
    requires Unique(doc.root) && IdsBelow(doc.root, doc.next)
    modifies doc
    ensures r.Err? <==> XmlResult(old(doc.root), old(doc.next), data).Err?
    ensures r.Err? ==> r.error == XmlResult(old(doc.root), old(doc.next), data).error
    ensures r.Ok? ==> doc.root == XmlResult(old(doc.root), old(doc.next), data).value
  {
    var decoder := new Decoder();
    var items := decoder.ProcessPatchData(data);
    if items.Err? {
      return Err(items.error);
    }
    DecodePatchDataOk(data);
    r := doc.PatchXml(items.value);
  }

  /** An XML export as `ET.parse` reads it: a tree of fresh objects, and the identity the
      next new element gets. */
  datatype Parsed = Parsed(root: Element, next: nat)

  /** Every export parses into a tree whose objects are distinct and below its `next`. */
  ghost predicate WellParsed(xmls: map<string, Parsed>) {
    forall p :: p in xmls ==> Unique(xmls[p].root) && IdsBelow(xmls[p].root, xmls[p].next)
  }

  /** One XML file patched: `ET.parse` fails with FileNotFoundError when the file is not
      there; otherwise the tree that is written back. */
  function XmlFileResult(xml: string, data: Json, xmls: map<string, Parsed>): Result<Element> {
    if xml !in xmls then Err(FileNotFound) else XmlResult(xmls[xml].root, xmls[xml].next, data)
  }

  /** One patch file's turn in `patch_xmls`: the choice of its XML file, then that file's
      work; the files it writes (none or one), each with its new tree. */
  function FileWrites(file: Loaded, swfFiles: StrDict.Dict, xmls: map<string, Parsed>): Result<seq<(string, Element)>> {
    var job :- XmlJob(file, swfFiles);
    if job == [] then Ok([])
    else
      var tree :- XmlFileResult(job[0].0, job[0].1, xmls);
      Ok([(job[0].0, tree)])
  }

  /** What `patch_xmls` writes, in order; the first failure, of the choice or of a file's
      work, ends the run with its error. */
  function XmlRun(files: seq<Loaded>, swfFiles: StrDict.Dict, xmls: map<string, Parsed>): Result<seq<(string, Element)>>
    decreases |files|
  {
    if files == [] then Ok([])
    else
      var writes :- XmlRun(files[..|files| - 1], swfFiles, xmls);
      var w :- FileWrites(files[|files| - 1], swfFiles, xmls);
      Ok(writes + w)
  }

  /** The XML files `patch_xmls` has written when it stops: all of them when every patch
      file goes through, otherwise those of the files before the first that fails. */
  function Written(files: seq<Loaded>, swfFiles: StrDict.Dict, xmls: map<string, Parsed>): seq<(string, Element)>
    decreases |files|
  {
    if files == [] then []
    else
      var init := files[..|files| - 1];
      match XmlRun(init, swfFiles, xmls)
      case Err(_) => Written(init, swfFiles, xmls)
      case Ok(writes) =>
        match FileWrites(files[|files| - 1], swfFiles, xmls)
        case Ok(w) => writes + w
        case Err(_) => writes
  }

  /** A run that goes through has written exactly the files it lists. */
  lemma WrittenOk(files: seq<Loaded>, swfFiles: StrDict.Dict, xmls: map<string, Parsed>)
    requires XmlRun(files, swfFiles, xmls).Ok?
    ensures Written(files, swfFiles, xmls) == XmlRun(files, swfFiles, xmls).value
  {
  }

  /** A run that stops at file `k`, in the choice or in the file's work, fails with that
      error and has written the files of the patch files before `k`, and no later one. */
  lemma WrittenStop(files: seq<Loaded>, k: nat, swfFiles: StrDict.Dict, xmls: map<string, Parsed>)
    requires k < |files| && XmlRun(files[..k], swfFiles, xmls).Ok? && FileWrites(files[k], swfFiles, xmls).Err?
    ensures XmlRun(files, swfFiles, xmls) == Err(FileWrites(files[k], swfFiles, xmls).error)
    ensures Written(files, swfFiles, xmls) == XmlRun(files[..k], swfFiles, xmls).value
  {
    assert files[..k + 1][..k] == files[..k];
    assert files[..k + 1][k] == files[k];
    RunFail(files, k + 1, swfFiles, xmls);
    WrittenAfterFail(files, k + 1, swfFiles, xmls);
  }

  /** Once a prefix fails, the run fails with its error. */
  lemma {:induction false} RunFail(files: seq<Loaded>, i: nat, swfFiles: StrDict.Dict, xmls: map<string, Parsed>)
    requires i <= |files| && XmlRun(files[..i], swfFiles, xmls).Err?
    ensures XmlRun(files, swfFiles, xmls) == XmlRun(files[..i], swfFiles, xmls)
    decreases |files| - i
  {
    if i == |files| {
      assert files[..i] == files;
    } else {
      assert files[..i + 1][..i] == files[..i];
      RunFail(files, i + 1, swfFiles, xmls);
    }
  }

  /** Once a prefix fails, no later file is written. */
  lemma {:induction false} WrittenAfterFail(files: seq<Loaded>, i: nat, swfFiles: StrDict.Dict, xmls: map<string, Parsed>)
    requires i <= |files| && XmlRun(files[..i], swfFiles, xmls).Err?
    ensures Written(files, swfFiles, xmls) == Written(files[..i], swfFiles, xmls)
    decreases |files| - i
  {
    if i == |files| {
      assert files[..i] == files;
    } else {
      assert files[..i + 1][..i] == files[..i];
      WrittenAfterFail(files, i + 1, swfFiles, xmls);
    }
  }

  /** The writes of one more patch file. */
  lemma RunStep(files: seq<Loaded>, i: nat, swfFiles: StrDict.Dict, xmls: map<string, Parsed>)
    requires i < |files| && XmlRun(files[..i], swfFiles, xmls).Ok?
    ensures XmlRun(files[..i + 1], swfFiles, xmls) ==
      match FileWrites(files[i], swfFiles, xmls)
      case Ok(w) => Ok(XmlRun(files[..i], swfFiles, xmls).value + w)
      case Err(e) => Err(e)
  {
    assert files[..i + 1][..i] == files[..i];
  }

  /** A run that goes through chose exactly the XML files `XmlJobs` lists, and wrote each
      of them as its parsed tree with that file's data applied. */
  lemma {:induction false} RunJobs(files: seq<Loaded>, swfFiles: StrDict.Dict, xmls: map<string, Parsed>)
    requires XmlRun(files, swfFiles, xmls).Ok?
    ensures XmlJobs(files, swfFiles).Ok?
    ensures var writes := XmlRun(files, swfFiles, xmls).value; var jobs := XmlJobs(files, swfFiles).value;
      |writes| == |jobs| &&
      forall i :: 0 <= i < |jobs| ==>
        (writes[i].0 == jobs[i].0 && jobs[i].0 in xmls &&
         XmlResult(xmls[jobs[i].0].root, xmls[jobs[i].0].next, jobs[i].1) == Ok(writes[i].1))
    decreases |files|
  {
    if files != [] {
      var init := files[..|files| - 1];
      RunJobs(init, swfFiles, xmls);
    }
  }

  /** A choice that fails fails the run too, though a file's work before it may fail
      first. */
  lemma {:induction false} ChoiceFails(files: seq<Loaded>, swfFiles: StrDict.Dict, xmls: map<string, Parsed>)
    requires XmlJobs(files, swfFiles).Err?
    ensures XmlRun(files, swfFiles, xmls).Err?
    decreases |files|
  {
    if files != [] {
      var init := files[..|files| - 1];
      if XmlJobs(init, swfFiles).Err? {
        ChoiceFails(init, swfFiles, xmls);
      }
    }
  }

  /** A patch file whose XML file cannot be patched stops the run there: no later patch
      file is looked at, even one the choice would refuse. */
  lemma FileFailureStops(a: Loaded, b: Loaded, swfFiles: StrDict.Dict, xmls: map<string, Parsed>, xml: string, data: Json)
    requires XmlJob(a, swfFiles) == Ok([(xml, data)]) && XmlFileResult(xml, data, xmls).Err?
    ensures XmlRun([a, b], swfFiles, xmls) == Err(XmlFileResult(xml, data, xmls).error)
    ensures Written([a, b], swfFiles, xmls) == []
  {
    assert [a, b][..0] == [] && [a, b][0] == a;
    WrittenStop([a, b], 0, swfFiles, xmls);
  }

  // ---------------------------------------------------------------- the patcher

  /** The state both steps read: the loaded patch files (`patch_data`) and the SWF file
      extracted for each of them (`swf_files`). */
  class Patcher {
    var patchData: seq<Loaded>
    var swfFiles: StrDict.Dict

    constructor (patchData: seq<Loaded>, swfFiles: StrDict.Dict)
      ensures this.patchData == patchData && this.swfFiles == swfFiles
    {
      this.patchData := patchData;
      this.swfFiles := swfFiles;
    }

    /** `patch_shapes`: the replacement calls it makes, in order (`made`, also when it
        raises), and how it ends. */
    method PatchShapes(locate: string -> string, isFile: string -> bool) returns (made: seq<Call>, r: Result<seq<Call>>)
      ensures r == ShapeCalls(patchData, swfFiles, locate, isFile)
      ensures made == CallsMade(patchData, swfFiles, locate, isFile)
    {
      var calls: seq<Call> := [];
      var i := 0;
      while i < |patchData|
        invariant i <= |patchData|
        invariant ShapeCalls(patchData[..i], swfFiles, locate, isFile) == Ok(calls)
      {
        var file := patchData[i];
        assert patchData[..i + 1][..i] == patchData[..i];
        assert patchData[..i + 1][i] == file;
        if file.1.Some? {
          var swf := StrDict.Get(swfFiles, file.0);
          if swf.None? {
            CallsMadeStop(patchData, i, swfFiles, locate, isFile);
            return calls, Err(KeyErr);
          }
          if !file.1.value.Obj? {
            CallsMadeStop(patchData, i, swfFiles, locate, isFile);
            return calls, Err(AttributeErr);
          }
          var shapes := MergeShapes(Get(file.1.value.members, "shapes", Arr([])), EntryRule(locate, isFile));
          if shapes.Err? {
            CallsMadeStop(patchData, i, swfFiles, locate, isFile);
            return calls, Err(shapes.error);
          }
          if shapes.value != [] {
            calls := calls + [(swf.value, shapes.value)];
          } else {
            assert calls + [] == calls;
          }
        } else {
          assert calls + [] == calls;
        }
        i := i + 1;
      }
      assert patchData[..i] == patchData;
      CallsMadeOk(patchData, swfFiles, locate, isFile);
      return calls, Ok(calls);
    }

    /** The body of the loop of `patch_xmls` for one patch file: the choice of its XML
        file, then parsing, patching and writing it. */
    method PatchFile(file: Loaded, xmls: map<string, Parsed>) returns (w: Result<seq<(string, Element)>>)
      requires WellParsed(xmls)
      ensures w == FileWrites(file, swfFiles, xmls)
    {
      if file.1.None? {
        return Ok([]);
      }
      if !file.1.value.Obj? {
        return Err(AttributeErr);
      }
      var data := Find(file.1.value.members, "swf");
      if data.None? || Falsy(data.value) {
        return Ok([]);
      }
      var swf := StrDict.Get(swfFiles, file.0);
      if swf.None? {
        return Ok([]);
      }
      var xml := PatchFiles.WithSuffix(swf.value, ".xml");
      if xml.Err? {
        return Err(xml.error);
      }
      if xml.value !in xmls {
        return Err(FileNotFound);
      }
      var doc := new Document(xmls[xml.value].root, xmls[xml.value].next);
      var patched := PatchXmlFile(doc, data.value);
      if patched.Err? {
        return Err(patched.error);
      }
      return Ok([(xml.value, doc.root)]);
    }

    /** `patch_xmls` over the XML exports as parsed (`xmls`): the files it writes, in
        order, each with its patched tree (`written`, also when it raises), and how it
        ends. */
    method PatchXmls(xmls: map<string, Parsed>) returns (written: seq<(string, Element)>, r: Result<seq<(string, Element)>>)
      requires WellParsed(xmls)
      ensures r == XmlRun(patchData, swfFiles, xmls)
      ensures written == Written(patchData, swfFiles, xmls)
    {
      var writes: seq<(string, Element)> := [];
      var i := 0;
      while i < |patchData|
        invariant i <= |patchData|
        invariant XmlRun(patchData[..i], swfFiles, xmls) == Ok(writes)
      {
        RunStep(patchData, i, swfFiles, xmls);
        var w := PatchFile(patchData[i], xmls);
        if w.Err? {
          WrittenStop(patchData, i, swfFiles, xmls);
          return writes, Err(w.error);
        }
        writes := writes + w.value;
        i := i + 1;
      }
      assert patchData[..i] == patchData;
      WrittenOk(patchData, swfFiles, xmls);
      return writes, Ok(writes);
    }
  }
}
