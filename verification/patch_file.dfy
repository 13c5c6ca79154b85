/** A patch file: a `.json` file of attribute changes and shape replacements for one SWF
    file, or a `.bin` binary diff; where the patched SWF file lies; and how a `.json` file's
    `"shapes"` list becomes the table of shape files and ids. */
module PatchFiles {
  import opened Wrappers
  import opened Text
  import opened JsonData
  import opened PatchData
  import opened ShapeTables
  import Bytes

  datatype PatchType = JsonPatch | BinaryPatch

  /** `PatchFile(path, type, optional, data, shapes)`; `path` is relative to the patch. */
  datatype PatchFile = PatchFile(path: string, kind: PatchType, optional: bool, data: seq<PatchItem>, shapes: ShapeMap)

  // ---------------------------------------------------------------- paths

  /** A separator of a Windows path. */
  predicate IsSep(c: char) { c == '/' || c == '\\' }

  /** Where the last component of a path starts. */
  function NameStart(path: string): (k: nat)
    ensures k <= |path| && (k == 0 || IsSep(path[k - 1]))
    ensures forall j :: k <= j < |path| ==> !IsSep(path[j])
    decreases |path|
  {
    if path == [] then 0
    else if IsSep(path[|path| - 1]) then |path|
    else NameStart(path[..|path| - 1])
  }

  /** `path.name`. */
  function Name(path: string): string {
    path[NameStart(path)..]
  }

  /** `path.suffix`: from the last dot of the name on, when that dot is neither the
      name's first nor its last character; otherwise nothing. */
  function Suffix(name: string): (r: string)
    ensures r == [] || (1 < |r| < |name| && r[0] == '.' && r == name[|name| - |r|..])
    ensures forall j :: 0 < j < |r| ==> r[j] != '.'
  {
    var i := LastIndex(name, '.');
    if 0 < i < |name| - 1 then name[i..] else []
  }

  /** `path.stem`: the name without its suffix. */
  function Stem(name: string): (r: string)
    ensures name != [] ==> r != []
  {
    name[..|name| - |Suffix(name)|]
  }

  /** `path.with_suffix(suffix)` for a valid suffix: the last component's suffix
      replaced, or added when it has none; a ValueError when the path has no name. */
  function WithSuffix(path: string, suffix: string): (r: Result<string>)
    ensures r.Err? <==> Name(path) == []
    ensures r.Err? ==> r.error == ValueErr
  {
    var name := Name(path);
    if name == [] then Err(ValueErr)
    else Ok(path[..NameStart(path)] + Stem(name) + suffix)
  }

  /** `original_file_path`: the SWF file a patch file patches, relative to the patch. */
  function OriginalFilePath(f: PatchFile): Result<string> {
    WithSuffix(f.path, ".swf")
  }

  /** The original file lies in the same folder as the patch file, under the same stem,
      with the suffix `.swf`; asking again for its `.swf` path gives itself. */
  lemma OriginalFileSwf(f: PatchFile)
    requires Name(f.path) != []
    ensures OriginalFilePath(f).Ok?
    ensures var p := OriginalFilePath(f).value;
      p[..NameStart(p)] == f.path[..NameStart(f.path)] &&
      Stem(Name(p)) == Stem(Name(f.path)) && Suffix(Name(p)) == ".swf" &&
      WithSuffix(p, ".swf") == Ok(p)
  {
    var k := NameStart(f.path);
    var stem := Stem(Name(f.path));
    forall j | 0 <= j < |stem| ensures !IsSep(stem[j]) {
      assert stem[j] == f.path[k + j];
    }
    SwfPath(f.path[..k], stem);
  }

  /** A path made of a folder, a stem and `.swf` has that folder, that stem and that
      suffix. */
  lemma SwfPath(dir: string, stem: string)
    requires dir == [] || IsSep(dir[|dir| - 1])
    requires stem != [] && forall j :: 0 <= j < |stem| ==> !IsSep(stem[j])
    ensures var p := dir + stem + ".swf";
      NameStart(p) == |dir| && p[..NameStart(p)] == dir && Name(p) == stem + ".swf" &&
      Stem(Name(p)) == stem && Suffix(Name(p)) == ".swf" && WithSuffix(p, ".swf") == Ok(p)
  {
    var name := stem + ".swf";
    var p := dir + stem + ".swf";
    assert p == dir + name;
    forall j | 0 <= j < |name| ensures !IsSep(name[j]) {
      if j < |stem| {
        assert name[j] == stem[j];
      }
    }
    NameStartAt(dir, name);
    assert p[|dir|..] == name && p[..|dir|] == dir;
    SwfSuffix(stem);
  }

  /** A name with a non-empty stem and the suffix `.swf` has that suffix and that stem. */
  lemma SwfSuffix(stem: string)
    requires stem != []
    ensures Suffix(stem + ".swf") == ".swf" && Stem(stem + ".swf") == stem
  {
    var name := stem + ".swf";
    LastIndexAt(name, '.', |stem|);
    assert name[|stem|..] == ".swf";
  }

  lemma {:induction false} NameStartAt(dir: string, name: string)
    requires dir == [] || IsSep(dir[|dir| - 1])
    requires forall j :: 0 <= j < |name| ==> !IsSep(name[j])
    ensures NameStart(dir + name) == |dir|
    decreases |name|
  {
    if name != [] {
      assert (dir + name)[..|dir + name| - 1] == dir + name[..|name| - 1];
      NameStartAt(dir, name[..|name| - 1]);
    } else {
      assert dir + name == dir;
    }
  }

  // ---------------------------------------------------------------- shapes

  /** One entry of the `"shapes"` list: `shape_item["fileName"]` must be there and be text
      (it becomes a `Path`), `shape_item["id"]` must be there and be text (it is
      stripped); a blank id adds nothing, any other is split at commas into ids. Indexing
      what is not an object is a TypeError. */
  function ShapeEntry(item: Json): (r: Result<Entry>)
    ensures r.Ok? ==> item.Obj? && Find(item.members, "fileName").Some? && Find(item.members, "id").Some?
    ensures r.Ok? && r.value.Some? ==> Find(item.members, "fileName") == Some(Str(r.value.value.0))
  {
    if !item.Obj? then Err(TypeErr)
    else
      var fileName := Find(item.members, "fileName");
      if fileName.None? then Err(KeyErr)
      else if !fileName.value.Str? then Err(TypeErr)
      else
        var id := Find(item.members, "id");
        if id.None? then Err(KeyErr)
        else if !id.value.Str? then Err(AttributeErr)
        else if Strip(id.value.s) == [] then Ok(None)
        else
          var ids :- ParseIds(id.value.s);
          Ok(Some((fileName.value.s, ids)))
  }

  /** `__process_shapes(shapes_data)`. */
  function ShapesSpec(data: Json): (r: Result<ShapeMap>) {
    Iterate(data, ShapeEntry)
  }

  /** `__process_shapes`: one loop over the list, extending the table entry by entry. */
  method ProcessShapes(data: Json) returns (r: Result<ShapeMap>)
    ensures r == ShapesSpec(data)
  {
    r := MergeShapes(data, ShapeEntry);
  }

  /** What the table holds: one entry per shape file named by a non-blank entry of the
      list, holding the ids of all those entries in list order. */
  lemma ShapesTable(items: seq<Json>, file: string)
    requires ShapesSpec(Arr(items)).Ok?
    ensures Entries(items, ShapeEntry).Ok?
    ensures var m := ShapesSpec(Arr(items)).value; var es := Entries(items, ShapeEntry).value;
      KeysDistinct(m) && Keys(m) == Files(es) &&
      (file in Keys(m) ==> Lookup(m, file) == Some(IdsFor(es, file)))
  {
    MergeTable(items, ShapeEntry, file);
  }

  /** The two keys of an entry written `{"id": id, "fileName": fileName}`. */
  lemma EntryFind(fileName: string, id: string)
    ensures var members := [("id", Str(id)), ("fileName", Str(fileName))];
      Find(members, "fileName") == Some(Str(fileName)) && Find(members, "id") == Some(Str(id))
  {
    assert "id"[0] != "fileName"[0];
  }

  /** An entry whose id is blank or white space adds no key. */
  lemma BlankIdSkipped(fileName: string, id: string)
    requires forall i :: 0 <= i < |id| ==> IsSpace(id[i])
    ensures ShapeEntry(Obj([("id", Str(id)), ("fileName", Str(fileName))])) == Ok(None)
  {
    EntryFind(fileName, id);
  }

  /** An entry naming a file and ids written as `",".join(...)` adds those ids. */
  lemma IdsEntry(fileName: string, ns: seq<nat>)
    requires ns != []
    ensures ShapeEntry(Obj([("id", Str(Join(Digits(ns), ','))), ("fileName", Str(fileName))])) == Ok(Some((fileName, ns)))
  {
    var id := Join(Digits(ns), ',');
    ParseIdsJoin(ns);
    JoinNotBlank(ns);
    EntryFind(fileName, id);
  }

  lemma JoinNotBlank(ns: seq<nat>)
    requires ns != []
    ensures Strip(Join(Digits(ns), ',')) != []
  {
    var id := Join(Digits(ns), ',');
    JoinStarts(Digits(ns), ',');
    assert id[0] == NatToString(ns[0])[0];
    assert !IsSpace(id[0]);
  }

  lemma JoinStarts(parts: seq<string>, c: char)
    requires |parts| >= 1
    ensures |parts[0]| <= |Join(parts, c)| && Join(parts, c)[..|parts[0]|] == parts[0]
  {
    if |parts| > 1 {
      assert Join(parts, c) == parts[0] + ([c] + Join(parts[1..], c));
    }
  }

  /** The example `[{"id": "1,2,5,7,9", "fileName": "example.svg"}]` gives
      `{example.svg: [1, 2, 5, 7, 9]}`. */
  lemma ShapesExample()
    ensures ShapesSpec(Arr([Obj([("id", Str("1,2,5,7,9")), ("fileName", Str("example.svg"))])]))
      == Ok([("example.svg", [1, 2, 5, 7, 9])])
  {
    var ns: seq<nat> := [1, 2, 5, 7, 9];
    assert Digits(ns) == ["1", "2", "5", "7", "9"];
    JoinExample();
    IdsEntry("example.svg", ns);
    OneEntry(Obj([("id", Str("1,2,5,7,9")), ("fileName", Str("example.svg"))]), ShapeEntry);
  }

  /** The example with an empty id gives an empty table. */
  lemma BlankExample()
    ensures ShapesSpec(Arr([Obj([("id", Str("")), ("fileName", Str("example3.svg"))])])) == Ok([])
  {
    BlankIdSkipped("example3.svg", "");
    OneEntry(Obj([("id", Str("")), ("fileName", Str("example3.svg"))]), ShapeEntry);
  }

  lemma JoinExample()
    ensures Join(["1", "2", "5", "7", "9"], ',') == "1,2,5,7,9"
  {
    var parts := ["1", "2", "5", "7", "9"];
    assert Join(parts[4..], ',') == "9";
    assert parts[3..][1..] == parts[4..];
    assert Join(parts[3..], ',') == "7,9";
    assert parts[2..][1..] == parts[3..];
    assert Join(parts[2..], ',') == "5,7,9";
    assert parts[1..][1..] == parts[2..];
    assert Join(parts[1..], ',') == "2,5,7,9";
  }

  // ---------------------------------------------------------------- loading

  /** `load(path, patch_path)` with `path` already relative to the patch and `content`
      the parsed text of the file (read for `.json` files only): the file type is chosen
      by the lower-cased suffix. A `.json` file must hold an object; its `optional`
      (false by default), `swf` (an empty object by default) and `shapes` (an empty list
      by default) are read in that order, and `optional` must be a boolean or 0/1. */
  function Load(path: string, content: Json): (r: Result<PatchFile>)
    ensures r.Ok? ==> r.value.path == path
    ensures r.Ok? && r.value.kind == BinaryPatch ==> !r.value.optional && r.value.data == [] && r.value.shapes == []
  {
    var suffix := Bytes.Lower(Suffix(Name(path)));
    if suffix == ".json" then
      if !content.Obj? then Err(AttributeErr)
      else
        var optional := Get(content.members, "optional", Bool(false));
        var data :- DecodePatchData(Get(content.members, "swf", Obj([])));
        var shapes :- ShapesSpec(Get(content.members, "shapes", Arr([])));
        var flag :- AsBool(optional);
        Ok(PatchFile(path, JsonPatch, flag, data, shapes))
    else if suffix == ".bin" then Ok(PatchFile(path, BinaryPatch, false, [], []))
    else Err(NotImplemented)
  }

  /** The words pydantic's lax `bool` check reads as false, compared without regard to
      ASCII case. */
  predicate FalseWord(w: string)
  {
    var l := Bytes.Lower(w);
    l == "0" || l == "off" || l == "f" || l == "false" || l == "n" || l == "no"
  }

  /** The words it reads as true. */
  predicate TrueWord(w: string)
  {
    var l := Bytes.Lower(w);
    l == "1" || l == "on" || l == "t" || l == "true" || l == "y" || l == "yes"
  }

  /** The `bool` field's lax check: a boolean, the numbers 0 and 1, or one of the words
      above; anything else is refused. */
  function AsBool(v: Json): (r: Result<bool>)
    ensures v.Bool? ==> r == Ok(v.b)
    ensures r.Ok? <==> v.Bool? || v == Num(0) || v == Num(1) || (v.Str? && (FalseWord(v.s) || TrueWord(v.s)))
    ensures r == Ok(false) <==> v == Bool(false) || v == Num(0) || (v.Str? && FalseWord(v.s))
  {
    match v
    case Bool(b) => Ok(b)
    case Num(n) => if n == 0 then Ok(false) else if n == 1 then Ok(true) else Err(ValueErr)
    case Str(w) => if FalseWord(w) then Ok(false) else if TrueWord(w) then Ok(true) else Err(ValueErr)
    case _ => Err(ValueErr)
  }

  /** No word is read both ways, and the case of its letters does not matter. */
  lemma {:induction false} BoolWordsCaseless(w: string)
    ensures !(FalseWord(w) && TrueWord(w))
    ensures AsBool(Str(w)) == AsBool(Str(Bytes.Lower(w)))
  {
    Bytes.LowerIdempotent(w);
  }

  /** The type of a loaded file follows its suffix, whatever its case; an unknown suffix
      is refused. */
  lemma LoadKind(path: string, content: Json)
    ensures var suffix := Bytes.Lower(Suffix(Name(path)));
      (suffix == ".bin" ==> Load(path, content) == Ok(PatchFile(path, BinaryPatch, false, [], []))) &&
      (suffix != ".bin" && suffix != ".json" ==> Load(path, content) == Err(NotImplemented)) &&
      (Load(path, content).Ok? && suffix == ".json" ==> Load(path, content).value.kind == JsonPatch)
  {
  }

  /** A `.json` patch without an `optional` key is not optional; its items are the
      decoded `swf` object and its table the processed `shapes` list. */
  lemma LoadJson(path: string, members: seq<(string, Json)>)
    requires Bytes.Lower(Suffix(Name(path))) == ".json"
    requires Find(members, "optional").None?
    requires DecodePatchData(Get(members, "swf", Obj([]))).Ok?
    requires ShapesSpec(Get(members, "shapes", Arr([]))).Ok?
    ensures Load(path, Obj(members)) == Ok(PatchFile(path, JsonPatch, false,
      DecodePatchData(Get(members, "swf", Obj([]))).value, ShapesSpec(Get(members, "shapes", Arr([]))).value))
  {
    assert Get(members, "optional", Bool(false)) == Bool(false);
  }

  /** `load`, running the two processing steps as the source does. */
  method LoadFile(path: string, content: Json) returns (r: Result<PatchFile>)
    ensures r == Load(path, content)
  {
    var suffix := Bytes.Lower(Suffix(Name(path)));
    if suffix == ".json" {
      if !content.Obj? {
        return Err(AttributeErr);
      }
      var optional := Get(content.members, "optional", Bool(false));
      var decoder := new Decoder();
      var data := decoder.ProcessPatchData(Get(content.members, "swf", Obj([])));
      if data.Err? {
        return Err(data.error);
      }
      var shapes := ProcessShapes(Get(content.members, "shapes", Arr([])));
      if shapes.Err? {
        return Err(shapes.error);
      }
      var flag := AsBool(optional);
      if flag.Err? {
        return Err(flag.error);
      }
      return Ok(PatchFile(path, JsonPatch, flag.value, data.value, shapes.value));
    } else if suffix == ".bin" {
      return Ok(PatchFile(path, BinaryPatch, false, [], []));
    }
    return Err(NotImplemented);
  }
}
