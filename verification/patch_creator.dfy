/** The patch creator's comparison of an original SWF's XML with a patched one: which shapes
    differ (`get_different_shapes` with `check_if_different`) and which attribute changes,
    under which filters, the patched tree carries (`create_patch_items`). The XML files are
    parsed and written elsewhere; here both trees are values. */
module PatchCreation {
  import opened Wrappers
  import opened StrDict
  import opened Text
  import opened XmlTree
  import opened XmlPath
  import opened PatchData
  import XmlFrames

  /** The lists of the patch creator's configuration that the comparison reads. */
  datatype CreatorConfig = CreatorConfig(
    shapeTypes: seq<string>,
    typeBlacklist: seq<string>,
    tagBlacklist: seq<string>,
    filterWhitelist: seq<string>,
    attrBlacklist: seq<string>,
    creationWhitelist: seq<string>)

  // ---------------------------------------------------------------- check_if_different

  /** Two present elements differ when their attribute dicts differ (order aside) or when
      some pair of children at the same position differs; positions past the shorter child
      list are never looked at, and neither are tags. */
  predicate Differ(a: Element, b: Element)
    decreases a
  {
    !SameDict(a.attrib, b.attrib) ||
    exists i :: 0 <= i < |a.children| && i < |b.children| && Differ(a.children[i], b.children[i])
  }

  /** `check_if_different`: when either side is missing the answer is whether both are. */
  predicate CheckIfDifferent(e1: Option<Element>, e2: Option<Element>) {
    if e1.None? || e2.None? then e1 == e2 else Differ(e1.value, e2.value)
  }

  /** The element reached from `e` by following child positions `p`, if they exist. */
  function At(e: Element, p: seq<nat>): (r: Option<Element>)
    ensures p == [] ==> r == Some(e)
    decreases |p|
  {
    if p == [] then Some(e)
    else if p[0] < |e.children| then At(e.children[p[0]], p[1..])
    else None
  }

  /** Both trees have a node at position path `p`, and the two carry different attributes. */
  predicate Diverges(a: Element, b: Element, p: seq<nat>) {
    At(a, p).Some? && At(b, p).Some? && !SameDict(At(a, p).value.attrib, At(b, p).value.attrib)
  }

  /** Reference reading of the recursion: two elements differ exactly when some position
      path reaches a node in both trees and the attributes there differ. */
  lemma {:induction false} DifferIff(a: Element, b: Element)
    ensures Differ(a, b) <==> exists p :: Diverges(a, b, p)
    decreases a
  {
    if Differ(a, b) {
      if !SameDict(a.attrib, b.attrib) {
        assert Diverges(a, b, []);
      } else {
        var i :| 0 <= i < |a.children| && i < |b.children| && Differ(a.children[i], b.children[i]);
        DifferIff(a.children[i], b.children[i]);
        var q :| Diverges(a.children[i], b.children[i], q);
        var p := [i as nat] + q;
        assert p[1..] == q;
        assert Diverges(a, b, p);
      }
    }
    if exists p :: Diverges(a, b, p) {
      var p :| Diverges(a, b, p);
      if p != [] {
        var i := p[0];
        assert Diverges(a.children[i], b.children[i], p[1..]);
        DifferIff(a.children[i], b.children[i]);
      }
    }
  }

  /** `check_if_different` against the reference reading: two missing elements count as
      different, one missing element does not, two present ones differ at some common
      position path. */
  lemma CheckIfDifferentIff(e1: Option<Element>, e2: Option<Element>)
    ensures CheckIfDifferent(e1, e2) <==>
              (e1.None? && e2.None?) ||
              (e1.Some? && e2.Some? && exists p :: Diverges(e1.value, e2.value, p))
  {
    if e1.Some? && e2.Some? {
      DifferIff(e1.value, e2.value);
    }
  }

  /** The comparison does not depend on the order of its arguments. */
  lemma {:induction false} DifferSymmetric(a: Element, b: Element)
    ensures Differ(a, b) == Differ(b, a)
    decreases a
  {
    forall i | 0 <= i < |a.children| && i < |b.children|
      ensures Differ(a.children[i], b.children[i]) == Differ(b.children[i], a.children[i])
    {
      DifferSymmetric(a.children[i], b.children[i]);
    }
  }

  /** Every attribute dict in the tree has distinct keys, as the XML parser builds it. */
  predicate DistinctAttrs(e: Element)
    decreases e
  {
    Distinct(e.attrib) && forall i :: 0 <= i < |e.children| ==> DistinctAttrs(e.children[i])
  }

  /** A parsed tree never differs from itself. */
  lemma {:induction false} DifferIrreflexive(e: Element)
    requires DistinctAttrs(e)
    ensures !Differ(e, e)
    decreases e
  {
    SameDictSelf(e.attrib);
    forall i | 0 <= i < |e.children| ensures !Differ(e.children[i], e.children[i]) {
      DifferIrreflexive(e.children[i]);
    }
  }

  lemma SameDictSelf(d: Dict)
    requires Distinct(d)
    ensures SameDict(d, d)
  {
    forall i | 0 <= i < |d| ensures Get(d, d[i].0) == Some(d[i].1) {
      GetIndex(d, i);
    }
  }

  /** Children the other element does not have are not compared: appending children to the
      longer side changes nothing. */
  lemma ExtraChildrenIgnored(a: Element, b: Element, extra: seq<Element>)
    requires |a.children| <= |b.children|
    ensures Differ(a, b.(children := b.children + extra)) == Differ(a, b)
  {
    var b2 := b.(children := b.children + extra);
    forall i | 0 <= i < |a.children| ensures b2.children[i] == b.children[i] { }
  }

  // ---------------------------------------------------------------- get_different_shapes

  /** The query for the original shapes of type `t`: every `item` grandchild of the root
      whose `type` is `t` and that has a `shapeId`. */
  function ShapeQuery(t: string): seq<Op> {
    [Star, Child("item"), AttrIs("type", t), HasAttr("shapeId")]
  }

  /** The query for a shape's patched counterpart: the `item` grandchildren of the root with
      that `type` and that `shapeId`. */
  function CounterpartQuery(t: string, id: string): seq<Op> {
    [Star, Child("item"), AttrIs("type", t), AttrIs("shapeId", id)]
  }

  /** The original shapes: type after type in the configured order, each type in document
      order. */
  function OriginalShapes(root: Element, types: seq<string>): seq<Element>
    decreases |types|
  {
    if types == [] then []
    else OriginalShapes(root, types[..|types| - 1]) + FindAll(root, ShapeQuery(types[|types| - 1]))
  }

  /** A shape's patched counterpart: the first item of the same type and id, if any. */
  function Counterpart(shape: Element, patched: Element): Option<Element> {
    Find(patched, CounterpartQuery(GetAttr(shape, "type", ""), GetAttr(shape, "shapeId", "")))
  }

  /** What the loop does with one original shape: a missing `shapeId` or `type` is a
      KeyError; a shape its counterpart differs from yields `int(shapeId)`. */
  function ShapeVerdict(shape: Element, patched: Element): (r: Result<Option<int>>)
    ensures r.Err? ==> r.error == KeyErr || r.error == ValueErr
  {
    var id := Get(shape.attrib, "shapeId");
    var ty := Get(shape.attrib, "type");
    if id.None? || ty.None? then Err(KeyErr)
    else if CheckIfDifferent(Some(shape), Counterpart(shape, patched)) then
      var n :- ParseInt(id.value);
      Ok(Some(n))
    else Ok(None)
  }

  /** The ids the loop collects over `shapes`, stopping at the first error. */
  function DifferentIds(shapes: seq<Element>, patched: Element): (r: Result<seq<int>>)
    decreases |shapes|
  {
    if shapes == [] then Ok([])
    else
      var ids :- DifferentIds(shapes[..|shapes| - 1], patched);
      var v :- ShapeVerdict(shapes[|shapes| - 1], patched);
      Ok(ids + if v.Some? then [v.value] else [])
  }

  /** `get_different_shapes`. */
  function DifferentShapes(original: Element, patched: Element, types: seq<string>): Result<seq<int>> {
    DifferentIds(OriginalShapes(original, types), patched)
  }

  /** The shape was found by the query for one of the configured types. */
  predicate IsOriginalShape(x: Element, types: seq<string>) {
    Get(x.attrib, "shapeId").Some? && exists t :: t in types && Get(x.attrib, "type") == Some(t)
  }

  /** Every original shape carries a `shapeId` and a configured `type`, so the loop's
      `attrib[...]` lookups never fail. */
  lemma {:induction false} OriginalShapesFound(root: Element, types: seq<string>)
    ensures forall x :: x in OriginalShapes(root, types) ==> IsOriginalShape(x, types)
    decreases |types|
  {
    if types != [] {
      var init := types[..|types| - 1];
      var t := types[|types| - 1];
      OriginalShapesFound(root, init);
      forall x | x in FindAll(root, ShapeQuery(t)) ensures IsOriginalShape(x, types) {
        var prefix := [Star, Child("item"), AttrIs("type", t)];
        assert ShapeQuery(t) == prefix + [HasAttr("shapeId")];
        RunAppend(prefix, [HasAttr("shapeId")], [root]);
        assert x in FindAll(root, prefix);
        assert prefix == [Star, Child("item")] + [AttrIs("type", t)];
        AttrIsFilters(root, [Star, Child("item")], "type", t, x);
      }
      forall x | x in OriginalShapes(root, init) ensures IsOriginalShape(x, types) {
        var t0 :| t0 in init && Get(x.attrib, "type") == Some(t0);
        assert t0 in types;
      }
    }
  }

  /** The ids reported for shapes that all carry their attributes: exactly the readable
      `shapeId`s of the shapes whose counterpart `check_if_different` flags, no more ids
      than shapes, and a failure only when such an id is not an integer. The order is
      stated step by step by `IdsStep`. */
  lemma {:induction false} DifferentIdsSpec(shapes: seq<Element>, patched: Element)
    requires forall x :: x in shapes ==> Get(x.attrib, "shapeId").Some? && Get(x.attrib, "type").Some?
    ensures DifferentIds(shapes, patched).Err? <==>
              exists x :: x in shapes && CheckIfDifferent(Some(x), Counterpart(x, patched)) &&
                          ParseInt(GetAttr(x, "shapeId", "")).Err?
    ensures DifferentIds(shapes, patched).Err? ==> DifferentIds(shapes, patched).error == ValueErr
    ensures DifferentIds(shapes, patched).Ok? ==>
              |DifferentIds(shapes, patched).value| <= |shapes| &&
              forall n :: n in DifferentIds(shapes, patched).value <==>
                exists x :: x in shapes && CheckIfDifferent(Some(x), Counterpart(x, patched)) &&
                            ParseInt(GetAttr(x, "shapeId", "")) == Ok(n)
    decreases |shapes|
  {
    if shapes != [] {
      var init := shapes[..|shapes| - 1];
      var x := shapes[|shapes| - 1];
      assert forall y :: y in shapes <==> y in init || y == x;
      DifferentIdsSpec(init, patched);
    }
  }

  /** `get_different_shapes`: the ids of the original shapes whose patched counterpart
      differs, and an error only for a flagged shape whose id is not an integer. A shape
      with no counterpart in the patched tree is never reported. */
  lemma DifferentShapesSpec(original: Element, patched: Element, types: seq<string>)
    ensures DifferentShapes(original, patched, types).Err? ==>
              DifferentShapes(original, patched, types).error == ValueErr
    ensures DifferentShapes(original, patched, types).Ok? ==>
              forall n :: n in DifferentShapes(original, patched, types).value <==>
                exists x :: x in OriginalShapes(original, types) && IsOriginalShape(x, types) &&
                            Counterpart(x, patched).Some? && Differ(x, Counterpart(x, patched).value) &&
                            ParseInt(GetAttr(x, "shapeId", "")) == Ok(n)
  {
    OriginalShapesFound(original, types);
    DifferentIdsSpec(OriginalShapes(original, types), patched);
  }

  /** `get_different_shapes` over the loops of the source: first the original shapes,
      then one verdict per shape. */
  method GetDifferentShapes(config: CreatorConfig, original: Element, patched: Element) returns (r: Result<seq<int>>)
    ensures r == DifferentShapes(original, patched, config.shapeTypes)
  {
    var originalShapes := CollectOriginalShapes(original, config.shapeTypes);
    r := CollectDifferentIds(originalShapes, patched);
  }

  /** The first loop: the shapes of each configured type, appended type by type. */
  method CollectOriginalShapes(original: Element, types: seq<string>) returns (originalShapes: seq<Element>)
    ensures originalShapes == OriginalShapes(original, types)
  {
    originalShapes := [];
    for i := 0 to |types|
      invariant originalShapes == OriginalShapes(original, types[..i])
    {
      originalShapes := originalShapes + FindAll(original, ShapeQuery(types[i]));
      assert types[..i + 1][..i] == types[..i];
    }
    assert types[..|types|] == types;
  }

  /** The second loop: each shape's id appended when its counterpart differs. */
  method CollectDifferentIds(originalShapes: seq<Element>, patched: Element) returns (r: Result<seq<int>>)
    ensures r == DifferentIds(originalShapes, patched)
  {
    var differentShapes: seq<int> := [];
    for j := 0 to |originalShapes|
      invariant DifferentIds(originalShapes[..j], patched) == Ok(differentShapes)
    {
      var v := ShapeVerdict(originalShapes[j], patched);
      if v.Err? {
        IdsFail(originalShapes, j, patched);
        return Err(v.error);
      }
      IdsStep(originalShapes, j, patched, differentShapes);
      if v.value.Some? {
        differentShapes := differentShapes + [v.value.value];
      } else {
        assert differentShapes + [] == differentShapes;
      }
    }
    assert originalShapes[..|originalShapes|] == originalShapes;
    return Ok(differentShapes);
  }

  /** One more verdict that succeeds extends the collected ids by what it yields. */
  lemma IdsStep(shapes: seq<Element>, j: nat, patched: Element, ids: seq<int>)
    requires j < |shapes| && DifferentIds(shapes[..j], patched) == Ok(ids)
    requires ShapeVerdict(shapes[j], patched).Ok?
    ensures DifferentIds(shapes[..j + 1], patched) ==
              Ok(ids + if ShapeVerdict(shapes[j], patched).value.Some?
                       then [ShapeVerdict(shapes[j], patched).value.value] else [])
  {
    assert shapes[..j + 1][..j] == shapes[..j];
  }

  /** A failing verdict ends the collection with that error. */
  lemma {:induction false} IdsFail(shapes: seq<Element>, j: nat, patched: Element)
    requires j < |shapes| && DifferentIds(shapes[..j], patched).Ok? && ShapeVerdict(shapes[j], patched).Err?
    ensures DifferentIds(shapes, patched) == Err(ShapeVerdict(shapes[j], patched).error)
    decreases |shapes| - j
  {
    assert shapes[..j + 1][..j] == shapes[..j];
    if j + 1 == |shapes| {
      assert shapes[..j + 1] == shapes;
    } else {
      IdsFailAfter(shapes, j + 1, patched, ShapeVerdict(shapes[j], patched).error);
    }
  }

  lemma {:induction false} IdsFailAfter(shapes: seq<Element>, k: nat, patched: Element, err: Error)
    requires k <= |shapes| && DifferentIds(shapes[..k], patched) == Err(err)
    ensures DifferentIds(shapes, patched) == Err(err)
    decreases |shapes| - k
  {
    if k == |shapes| {
      assert shapes[..k] == shapes;
    } else {
      assert shapes[..k + 1][..k] == shapes[..k];
      IdsFailAfter(shapes, k + 1, patched, err);
    }
  }

  // ---------------------------------------------------------------- create_patch_items

  /** The node takes part: its `type` (default "item") and its tag are not blacklisted. */
  predicate Listed(e: Element, config: CreatorConfig) {
    GetAttr(e, "type", "item") !in config.typeBlacklist && e.tag !in config.tagBlacklist
  }

  /** The `[@key='value']` text for each filter-whitelisted attribute, in attribute order. */
  function FilterText(attrs: Dict, whitelist: seq<string>): string
    decreases |attrs|
  {
    if attrs == [] then ""
    else
      var kv := attrs[|attrs| - 1];
      FilterText(attrs[..|attrs| - 1], whitelist) + if kv.0 in whitelist then Predicate(kv.0, kv.1) else ""
  }

  /** The path of a node below `xpath`: unchanged for the root tag, otherwise `/tag`
      followed by the filter text. */
  function StepPath(xpath: string, e: Element, root: string, whitelist: seq<string>): string {
    if e.tag != root then xpath + "/" + e.tag + FilterText(e.attrib, whitelist) else xpath
  }

  /** The changes recorded against the original element `x`: each attribute whose value
      differs from `x`'s, or that `x` lacks, and that is not excluded, set in turn. */
  function Diffs(attrs: Dict, x: Element, excluded: seq<string>): Dict
    decreases |attrs|
  {
    if attrs == [] then []
    else
      var d := Diffs(attrs[..|attrs| - 1], x, excluded);
      var kv := attrs[|attrs| - 1];
      if Get(x.attrib, kv.0) != Some(kv.1) && kv.0 !in excluded then Set(d, kv.0, kv.1) else d
  }

  /** The attributes that are not blacklisted, set in turn: the dict comprehension, which an
      update of the fresh empty dict leaves as it is. */
  function Kept(attrs: Dict, blacklist: seq<string>): Dict
    decreases |attrs|
  {
    if attrs == [] then []
    else
      var d := Kept(attrs[..|attrs| - 1], blacklist);
      var kv := attrs[|attrs| - 1];
      if kv.0 !in blacklist then Set(d, kv.0, kv.1) else d
  }

  /** What a node contributes itself: the path its children extend, and at most one item. A
      skipped node keeps the path and gives nothing; otherwise the original is looked up by
      the node's path, and either the changed attributes or, for a missing element of a
      creatable tag, all its kept attributes form the item. */
  function OwnItems(original: Element, e: Element, xpath: string, root: string, config: CreatorConfig): Result<(string, seq<PatchItem>)> {
    if !Listed(e, config) then Ok((xpath, []))
    else
      var path := StepPath(xpath, e, root, config.filterWhitelist);
      var found :- FindAllPath(original, path);
      if found != [] then
        var changes := Diffs(e.attrib, found[0], config.attrBlacklist + config.filterWhitelist);
        Ok((path, if changes == [] then [] else [PatchItem(path, changes)]))
      else if e.tag in config.creationWhitelist then
        Ok((path, [PatchItem(path, Kept(e.attrib, config.attrBlacklist))]))
      else Ok((path, []))
  }

  /** Where the item with filter `f` sits, or -1. */
  function FilterIndex(items: seq<PatchItem>, f: string): (i: int)
    ensures -1 <= i < |items|
    ensures i >= 0 ==> items[i].filter == f
    ensures i < 0 ==> forall j :: 0 <= j < |items| ==> items[j].filter != f
    decreases |items|
  {
    if items == [] then -1
    else if items[|items| - 1].filter == f then |items| - 1
    else FilterIndex(items[..|items| - 1], f)
  }

  /** A child's item merged into the result: its changes laid over those of the item with
      the same filter, or the item added at the end. */
  function MergeOne(result: seq<PatchItem>, item: PatchItem): seq<PatchItem> {
    var i := FilterIndex(result, item.filter);
    if i < 0 then result + [item]
    else result[i := PatchItem(result[i].filter, SetAll(result[i].changes, item.changes))]
  }

  /** A child's items merged into the result one after the other. */
  function MergeItems(result: seq<PatchItem>, items: seq<PatchItem>): seq<PatchItem>
    decreases |items|
  {
    if items == [] then result
    else MergeOne(MergeItems(result, items[..|items| - 1]), items[|items| - 1])
  }

  /** `create_patch_items(original_root, e, xpath, root)`: the node's own item, then each
      child's items merged in turn. */
  function Items(original: Element, e: Element, xpath: string, root: string, config: CreatorConfig): Result<seq<PatchItem>>
    decreases e, 1
  {
    var own :- OwnItems(original, e, xpath, root, config);
    ChildItems(original, e, 0, own.0, root, config, own.1)
  }

  /** The children from position `i` on, merged into `result`. */
  function ChildItems(original: Element, e: Element, i: nat, xpath: string, root: string, config: CreatorConfig,
                      result: seq<PatchItem>): Result<seq<PatchItem>>
    requires i <= |e.children|
    decreases e, 0, |e.children| - i
  {
    if i == |e.children| then Ok(result)
    else
      var sub :- Items(original, e.children[i], xpath, root, config);
      ChildItems(original, e, i + 1, xpath, root, config, MergeItems(result, sub))
  }

  /** `create_patch_data` for one file: both trees with their frames split, compared from
      the path `.` under the root tag `swf`. */
  function CreatePatchData(original: Element, patched: Element, config: CreatorConfig): Result<seq<PatchItem>> {
    Items(XmlFrames.Split(original, 0).0, XmlFrames.Split(patched, 0).0, ".", "swf", config)
  }

  // ---------------------------------------------------------------- its methods

  /** `create_patch_items` as the source runs it: the node's own part, then the loop over
      the children, each child's result merged into `result`. */
  method CreatePatchItems(config: CreatorConfig, original: Element, patched: Element, xpath: string, root: string)
    returns (r: Result<seq<PatchItem>>)
    ensures r == Items(original, patched, xpath, root, config)
    decreases patched
  {
    var own := OwnPart(config, original, patched, xpath, root);
    if own.Err? {
      return Err(own.error);
    }
    var curXpath := own.value.0;
    var result := own.value.1;
    for i := 0 to |patched.children|
      invariant ChildItems(original, patched, i, curXpath, root, config, result) == Items(original, patched, xpath, root, config)
    {
      var childResult := CreatePatchItems(config, original, patched.children[i], curXpath, root);
      if childResult.Err? {
        return Err(childResult.error);
      }
      result := MergeInto(result, childResult.value);
    }
    return Ok(result);
  }

  /** The node's own part: the path extended, the original looked up, the item filled. */
  method OwnPart(config: CreatorConfig, original: Element, patched: Element, xpath: string, root: string)
    returns (r: Result<(string, seq<PatchItem>)>)
    ensures r == OwnItems(original, patched, xpath, root, config)
  {
    var curXpath := xpath;
    var result: seq<PatchItem> := [];
    var elementType := GetAttr(patched, "type", "item");
    var elementTag := patched.tag;
    if elementType !in config.typeBlacklist && elementTag !in config.tagBlacklist {
      if elementTag != root {
        curXpath := ExtendXpath(curXpath + "/" + elementTag, patched.attrib, config.filterWhitelist);
      }
      var found := FindAllPath(original, curXpath);
      if found.Err? {
        return Err(found.error);
      }
      if found.value != [] {
        result := CompareAttributes(patched.attrib, found.value[0], curXpath, config.attrBlacklist + config.filterWhitelist);
      } else if elementTag in config.creationWhitelist {
        var changes := KeepAttributes(patched.attrib, config.attrBlacklist);
        result := [PatchItem(curXpath, changes)];
      }
    }
    return Ok((curXpath, result));
  }

  /** The loop appending `[@key='value']` for each whitelisted attribute. */
  method ExtendXpath(path: string, attrs: Dict, whitelist: seq<string>) returns (p: string)
    ensures p == path + FilterText(attrs, whitelist)
  {
    p := path;
    for i := 0 to |attrs|
      invariant p == path + FilterText(attrs[..i], whitelist)
    {
      assert attrs[..i + 1][..i] == attrs[..i];
      if attrs[i].0 in whitelist {
        p := p + Predicate(attrs[i].0, attrs[i].1);
      }
    }
    assert attrs[..|attrs|] == attrs;
  }

  /** The loop recording each changed attribute in the item for `path`, which the first
      change creates. */
  method CompareAttributes(attrs: Dict, x: Element, path: string, excluded: seq<string>) returns (own: seq<PatchItem>)
    ensures own == if Diffs(attrs, x, excluded) == [] then [] else [PatchItem(path, Diffs(attrs, x, excluded))]
  {
    own := [];
    for i := 0 to |attrs|
      invariant own == if Diffs(attrs[..i], x, excluded) == [] then [] else [PatchItem(path, Diffs(attrs[..i], x, excluded))]
    {
      assert attrs[..i + 1][..i] == attrs[..i];
      var attr := attrs[i].0;
      var value := attrs[i].1;
      var originalValue := Get(x.attrib, attr);
      if Some(value) != originalValue && attr !in excluded {
        var changes := if own == [] then [] else own[0].changes;
        SetNonEmpty(changes, attr, value);
        own := [PatchItem(path, Set(changes, attr, value))];
      }
    }
    assert attrs[..|attrs|] == attrs;
  }

  /** The dict comprehension over the attributes that are not blacklisted. */
  method KeepAttributes(attrs: Dict, blacklist: seq<string>) returns (changes: Dict)
    ensures changes == Kept(attrs, blacklist)
  {
    changes := [];
    for i := 0 to |attrs|
      invariant changes == Kept(attrs[..i], blacklist)
    {
      assert attrs[..i + 1][..i] == attrs[..i];
      if attrs[i].0 !in blacklist {
        changes := Set(changes, attrs[i].0, attrs[i].1);
      }
    }
    assert attrs[..|attrs|] == attrs;
  }

  /** The merge loop: an item whose filter is already present updates that item's changes,
      any other item is added. */
  method MergeInto(result: seq<PatchItem>, childResult: seq<PatchItem>) returns (merged: seq<PatchItem>)
    ensures merged == MergeItems(result, childResult)
  {
    merged := result;
    for j := 0 to |childResult|
      invariant merged == MergeItems(result, childResult[..j])
    {
      assert childResult[..j + 1][..j] == childResult[..j];
      var item := childResult[j];
      var k := FilterIndex(merged, item.filter);
      if k >= 0 {
        merged := merged[k := PatchItem(merged[k].filter, SetAll(merged[k].changes, item.changes))];
      } else {
        merged := merged + [item];
      }
    }
    assert childResult[..|childResult|] == childResult;
  }

  lemma SetNonEmpty(d: Dict, key: string, value: string)
    ensures Set(d, key, value) != []
  {
    if Get(d, key).Some? {
      assert d != [];
    }
  }

  // ---------------------------------------------------------------- properties of the items

  /** At most one item per filter: the result is a dict keyed by filter. */
  predicate FiltersDistinct(items: seq<PatchItem>) {
    forall i, j :: 0 <= i < j < |items| ==> items[i].filter != items[j].filter
  }

  /** Every filter starts with `p`. */
  predicate AllUnder(items: seq<PatchItem>, p: string) {
    forall i :: 0 <= i < |items| ==> StartsWith(items[i].filter, p)
  }

  /** The changes of the item with filter `f`, if there is one. */
  function FindItem(items: seq<PatchItem>, f: string): (r: Option<Dict>)
    ensures r.None? <==> forall i :: 0 <= i < |items| ==> items[i].filter != f
  {
    var i := FilterIndex(items, f);
    if i < 0 then None else Some(items[i].changes)
  }

  /** Merging one item keeps filters distinct and under a common prefix. */
  lemma MergeOneFacts(result: seq<PatchItem>, item: PatchItem, p: string)
    requires FiltersDistinct(result)
    ensures FiltersDistinct(MergeOne(result, item))
    ensures AllUnder(result, p) && StartsWith(item.filter, p) ==> AllUnder(MergeOne(result, item), p)
  {
  }

  /** Merging a child's items keeps filters distinct and under a common prefix. */
  lemma {:induction false} MergeItemsFacts(result: seq<PatchItem>, items: seq<PatchItem>, p: string)
    requires FiltersDistinct(result)
    ensures FiltersDistinct(MergeItems(result, items))
    ensures AllUnder(result, p) && AllUnder(items, p) ==> AllUnder(MergeItems(result, items), p)
    decreases |items|
  {
    if items != [] {
      var init := items[..|items| - 1];
      MergeItemsFacts(result, init, p);
      MergeOneFacts(MergeItems(result, init), items[|items| - 1], p);
    }
  }

  /** Merging one item: under its own filter the changes are laid over the existing
      item's, or the item is new; every other filter is left as it was. */
  lemma MergeOneFind(result: seq<PatchItem>, item: PatchItem, f: string)
    requires FiltersDistinct(result)
    ensures FindItem(MergeOne(result, item), f) ==
              if item.filter != f then FindItem(result, f)
              else if FindItem(result, f).Some? then Some(SetAll(FindItem(result, f).value, item.changes))
              else Some(item.changes)
  {
    MergeOneFacts(result, item, "");
    var m := MergeOne(result, item);
    var i := FilterIndex(result, item.filter);
    var k := FilterIndex(m, f);
    if i >= 0 && item.filter == f {
      assert m[i].filter == f;
    } else if i < 0 && item.filter == f {
      assert m == result + [item];
      assert k == |result|;
      assert FindItem(m, f) == Some(item.changes);
      assert FindItem(result, f) == None;
    } else if i < 0 {
      assert m[..|m| - 1] == result;
    } else {
      var j := FilterIndex(result, f);
      if j >= 0 {
        assert m[j].filter == f;
      }
    }
  }

  /** On a conflict the child's values win: after the merge a key the child's item sets has
      the child's value, any other key keeps the value it had. */
  lemma ChildValuesWin(result: seq<PatchItem>, item: PatchItem, k: string)
    requires FiltersDistinct(result) && Distinct(item.changes) && FindItem(result, item.filter).Some?
    ensures FindItem(MergeOne(result, item), item.filter).Some?
    ensures Get(FindItem(MergeOne(result, item), item.filter).value, k) ==
              if Get(item.changes, k).Some? then Get(item.changes, k)
              else Get(FindItem(result, item.filter).value, k)
  {
    MergeOneFind(result, item, item.filter);
    SetAllGet(FindItem(result, item.filter).value, item.changes, k);
  }

  lemma PrefixTrans(a: string, b: string, c: string)
    requires StartsWith(a, b) && StartsWith(b, c)
    ensures StartsWith(a, c)
  {
    assert a[..|c|] == a[..|b|][..|c|];
  }

  /** A node's path extends the path it was given. */
  lemma StepPathExtends(xpath: string, e: Element, root: string, whitelist: seq<string>)
    ensures StartsWith(StepPath(xpath, e, root, whitelist), xpath)
  {
    if e.tag != root {
      var t := "/" + e.tag + FilterText(e.attrib, whitelist);
      assert StepPath(xpath, e, root, whitelist) == xpath + t;
      assert (xpath + t)[..|xpath|] == xpath;
    }
  }

  /** `create_patch_items` returns at most one item per filter, and every filter extends the
      path it was called with. */
  lemma {:induction false} ItemsFacts(original: Element, e: Element, xpath: string, root: string, config: CreatorConfig)
    ensures Items(original, e, xpath, root, config).Ok? ==>
              FiltersDistinct(Items(original, e, xpath, root, config).value) &&
              AllUnder(Items(original, e, xpath, root, config).value, xpath)
    decreases e, 1
  {
    var own := OwnItems(original, e, xpath, root, config);
    if own.Ok? {
      StepPathExtends(xpath, e, root, config.filterWhitelist);
      assert StartsWith(own.value.0, xpath);
      forall i | 0 <= i < |own.value.1| ensures StartsWith(own.value.1[i].filter, xpath) {
        assert own.value.1[i].filter == own.value.0;
      }
      ChildFacts(original, e, 0, own.value.0, root, config, own.value.1, xpath);
    }
  }

  /** The children's items merged into a result that already has the two properties keep
      them. */
  lemma {:induction false} ChildFacts(original: Element, e: Element, i: nat, xpath: string, root: string,
                                      config: CreatorConfig, result: seq<PatchItem>, p: string)
    requires i <= |e.children|
    requires FiltersDistinct(result) && AllUnder(result, p) && StartsWith(xpath, p)
    ensures ChildItems(original, e, i, xpath, root, config, result).Ok? ==>
              FiltersDistinct(ChildItems(original, e, i, xpath, root, config, result).value) &&
              AllUnder(ChildItems(original, e, i, xpath, root, config, result).value, p)
    decreases e, 0, |e.children| - i
  {
    if i < |e.children| {
      var sub := Items(original, e.children[i], xpath, root, config);
      if sub.Ok? {
        ItemsFacts(original, e.children[i], xpath, root, config);
        forall j | 0 <= j < |sub.value| ensures StartsWith(sub.value[j].filter, p) {
          PrefixTrans(sub.value[j].filter, xpath, p);
        }
        MergeItemsFacts(result, sub.value, p);
        ChildFacts(original, e, i + 1, xpath, root, config, MergeItems(result, sub.value), p);
      }
    }
  }

  /** `create_patch_data` yields at most one item per filter, each filter starting with `.`. */
  lemma CreatePatchDataFacts(original: Element, patched: Element, config: CreatorConfig)
    ensures CreatePatchData(original, patched, config).Ok? ==>
              FiltersDistinct(CreatePatchData(original, patched, config).value) &&
              AllUnder(CreatePatchData(original, patched, config).value, ".")
  {
    ItemsFacts(XmlFrames.Split(original, 0).0, XmlFrames.Split(patched, 0).0, ".", "swf", config);
  }

  /** A skipped node (blacklisted type or tag, a missing type reading as "item") gives no
      item of its own and does not extend the path, but its children are still compared. */
  lemma SkippedNode(original: Element, e: Element, xpath: string, root: string, config: CreatorConfig)
    requires GetAttr(e, "type", "item") in config.typeBlacklist || e.tag in config.tagBlacklist
    ensures Items(original, e, xpath, root, config) == ChildItems(original, e, 0, xpath, root, config, [])
  {
  }

  /** An attribute the patched element has, not excluded, whose value the original element
      `x` lacks or holds differently. */
  predicate Changed(attrs: Dict, x: Element, excluded: seq<string>, k: string) {
    Get(attrs, k).Some? && k !in excluded && Get(x.attrib, k) != Get(attrs, k)
  }

  /** Looking up a key after one more pair: an earlier pair with the key wins. */
  lemma GetSnoc(d: Dict, kv: (string, string), k: string)
    ensures Get(d + [kv], k) == if Get(d, k).Some? then Get(d, k) else if kv.0 == k then Some(kv.1) else None
  {
    var e := d + [kv];
    var i := IndexOf(d, k);
    if i >= 0 {
      assert e[i] == d[i];
      IndexOfAt(e, k, i);
    } else if kv.0 == k {
      IndexOfAt(e, k, |d|);
    }
  }

  /** The recorded changes are exactly the changed attributes, with their patched values. */
  lemma {:induction false} DiffsGet(attrs: Dict, x: Element, excluded: seq<string>, k: string)
    requires Distinct(attrs)
    ensures Get(Diffs(attrs, x, excluded), k) == if Changed(attrs, x, excluded, k) then Get(attrs, k) else None
    decreases |attrs|
  {
    if attrs != [] {
      var init := attrs[..|attrs| - 1];
      var kv := attrs[|attrs| - 1];
      assert attrs == init + [kv];
      assert Distinct(init);
      GetSnoc(init, kv, k);
      GetSnoc(init, kv, kv.0);
      DiffsGet(init, x, excluded, k);
      DiffsGet(init, x, excluded, kv.0);
      SetGet(Diffs(init, x, excluded), kv.0, kv.1);
    }
  }

  /** The kept attributes are exactly those not blacklisted, with their values. */
  lemma {:induction false} KeptGet(attrs: Dict, blacklist: seq<string>, k: string)
    requires Distinct(attrs)
    ensures Get(Kept(attrs, blacklist), k) == if k in blacklist then None else Get(attrs, k)
    decreases |attrs|
  {
    if attrs != [] {
      var init := attrs[..|attrs| - 1];
      var kv := attrs[|attrs| - 1];
      assert attrs == init + [kv];
      assert Distinct(init);
      GetSnoc(init, kv, k);
      GetSnoc(init, kv, kv.0);
      KeptGet(init, blacklist, k);
      KeptGet(init, blacklist, kv.0);
      SetGet(Kept(init, blacklist), kv.0, kv.1);
    }
  }

  /** No change is recorded exactly when no attribute changed. */
  lemma DiffsEmpty(attrs: Dict, x: Element, excluded: seq<string>)
    requires Distinct(attrs)
    ensures Diffs(attrs, x, excluded) == [] <==> forall k :: !Changed(attrs, x, excluded, k)
  {
    var d := Diffs(attrs, x, excluded);
    if d != [] {
      DiffsGet(attrs, x, excluded, d[0].0);
    } else {
      forall k ensures !Changed(attrs, x, excluded, k) {
        DiffsGet(attrs, x, excluded, k);
      }
    }
  }

  /** A listed node whose original is found gives at most one item, under its own path,
      holding exactly its changed attributes (blacklisted and filter attributes aside), and
      none when nothing changed. */
  lemma FoundNode(original: Element, e: Element, xpath: string, root: string, config: CreatorConfig, found: seq<Element>)
    requires Listed(e, config) && Distinct(e.attrib)
    requires FindAllPath(original, StepPath(xpath, e, root, config.filterWhitelist)) == Ok(found) && found != []
    ensures OwnItems(original, e, xpath, root, config).Ok?
    ensures OwnItems(original, e, xpath, root, config).value.0 == StepPath(xpath, e, root, config.filterWhitelist)
    ensures |OwnItems(original, e, xpath, root, config).value.1| <= 1
    ensures OwnItems(original, e, xpath, root, config).value.1 == [] <==>
              forall k :: !Changed(e.attrib, found[0], config.attrBlacklist + config.filterWhitelist, k)
    ensures forall it, k :: it in OwnItems(original, e, xpath, root, config).value.1 ==>
              it.filter == StepPath(xpath, e, root, config.filterWhitelist) &&
              Get(it.changes, k) == if Changed(e.attrib, found[0], config.attrBlacklist + config.filterWhitelist, k)
                                    then Get(e.attrib, k) else None
  {
    var excluded := config.attrBlacklist + config.filterWhitelist;
    DiffsEmpty(e.attrib, found[0], excluded);
    forall k ensures Get(Diffs(e.attrib, found[0], excluded), k) ==
                       if Changed(e.attrib, found[0], excluded, k) then Get(e.attrib, k) else None {
      DiffsGet(e.attrib, found[0], excluded, k);
    }
  }

  /** A listed node with no original: a creatable tag gives one item holding every attribute
      that is not blacklisted, filter attributes included; any other tag gives none. */
  lemma MissingNode(original: Element, e: Element, xpath: string, root: string, config: CreatorConfig)
    requires Listed(e, config) && Distinct(e.attrib)
    requires FindAllPath(original, StepPath(xpath, e, root, config.filterWhitelist)) == Ok([])
    ensures e.tag !in config.creationWhitelist ==>
              OwnItems(original, e, xpath, root, config) == Ok((StepPath(xpath, e, root, config.filterWhitelist), []))
    ensures e.tag in config.creationWhitelist ==>
              OwnItems(original, e, xpath, root, config) ==
                Ok((StepPath(xpath, e, root, config.filterWhitelist),
                    [PatchItem(StepPath(xpath, e, root, config.filterWhitelist), Kept(e.attrib, config.attrBlacklist))]))
    ensures forall k :: Get(Kept(e.attrib, config.attrBlacklist), k) ==
                          if k in config.attrBlacklist then None else Get(e.attrib, k)
  {
    forall k ensures Get(Kept(e.attrib, config.attrBlacklist), k) ==
                       if k in config.attrBlacklist then None else Get(e.attrib, k) {
      KeptGet(e.attrib, config.attrBlacklist, k);
    }
  }

  // ---------------------------------------------------------------- what a path selects

  /** The `[@key='value']` selectors of the filter text. */
  function FilterOps(attrs: Dict, whitelist: seq<string>): seq<Op>
    decreases |attrs|
  {
    if attrs == [] then []
    else
      var kv := attrs[|attrs| - 1];
      FilterOps(attrs[..|attrs| - 1], whitelist) + if kv.0 in whitelist then [AttrIs(kv.0, kv.1)] else []
  }

  lemma {:induction false} RenderAppend(a: seq<Op>, b: seq<Op>)
    ensures Render(a + b) == Render(a) + Render(b)
    decreases |a|
  {
    if a != [] {
      assert (a + b)[1..] == a[1..] + b;
      RenderAppend(a[1..], b);
    } else {
      assert a + b == b;
    }
  }

  /** The filter text is the written form of the filter selectors. */
  lemma {:induction false} FilterTextOps(attrs: Dict, whitelist: seq<string>)
    ensures FilterText(attrs, whitelist) == Render(FilterOps(attrs, whitelist))
    decreases |attrs|
  {
    if attrs != [] {
      var init := attrs[..|attrs| - 1];
      var kv := attrs[|attrs| - 1];
      FilterTextOps(init, whitelist);
      var tail := if kv.0 in whitelist then [AttrIs(kv.0, kv.1)] else [];
      RenderAppend(FilterOps(init, whitelist), tail);
      if kv.0 in whitelist {
        assert Render(tail) == RenderOp(AttrIs(kv.0, kv.1)) + Render([]);
      }
    }
  }

  /** The selectors a node's path adds: its tag, then its filter attributes. */
  function StepOps(e: Element, whitelist: seq<string>): seq<Op> {
    [Child(e.tag)] + FilterOps(e.attrib, whitelist)
  }

  /** The filter attributes can be written into a path and read back. */
  predicate Writable(e: Element, whitelist: seq<string>) {
    ValidName(e.tag) &&
    forall i :: 0 <= i < |e.attrib| && e.attrib[i].0 in whitelist ==>
      ValidName(e.attrib[i].0) && '\'' !in e.attrib[i].1
  }

  lemma {:induction false} FilterOpsOk(attrs: Dict, whitelist: seq<string>)
    requires forall i :: 0 <= i < |attrs| && attrs[i].0 in whitelist ==> ValidName(attrs[i].0) && '\'' !in attrs[i].1
    ensures forall i :: 0 <= i < |FilterOps(attrs, whitelist)| ==> StepOk(FilterOps(attrs, whitelist)[i])
    decreases |attrs|
  {
    if attrs != [] {
      FilterOpsOk(attrs[..|attrs| - 1], whitelist);
    }
  }

  /** Below a path written from selectors, a node's path is written from those selectors
      followed by its tag and one `[@key='value']` per filter attribute. */
  lemma StepPathOps(ops: seq<Op>, e: Element, root: string, whitelist: seq<string>)
    requires e.tag != root
    ensures StepPath(Render(ops), e, root, whitelist) == Render(ops + StepOps(e, whitelist))
  {
    var fs := FilterOps(e.attrib, whitelist);
    var step := StepOps(e, whitelist);
    var head := "/" + e.tag;
    var a, t := Render(ops), FilterText(e.attrib, whitelist);
    assert Render(step) == head + t by {
      assert step[0] == Child(e.tag) && step[1..] == fs;
      FilterTextOps(e.attrib, whitelist);
    }
    assert Render(ops + step) == a + Render(step) by {
      RenderAppend(ops, step);
    }
    assert StepPath(a, e, root, whitelist) == a + (head + t) by {
      assert a + head + t == a + (head + t);
    }
  }

  /** What the original is looked up by: `find` on a node's path evaluates exactly the
      parent's selectors, the node's tag and its filter attributes. */
  lemma StepFinds(original: Element, ops: seq<Op>, e: Element, root: string, whitelist: seq<string>)
    requires Renderable(ops) && e.tag != root && Writable(e, whitelist)
    ensures FindAllPath(original, StepPath(Render(ops), e, root, whitelist)) ==
              Ok(FindAll(original, ops + StepOps(e, whitelist)))
  {
    StepPathOps(ops, e, root, whitelist);
    var all := ops + StepOps(e, whitelist);
    assert Renderable(all) by {
      var fs := FilterOps(e.attrib, whitelist);
      FilterOpsOk(e.attrib, whitelist);
      forall i | 1 <= i < |all| ensures StepOk(all[i]) {
        if i > |ops| {
          assert all[i] == fs[i - |ops| - 1];
        }
      }
    }
    ParseRender(all);
    assert Render(all) != [] by {
      assert Render(all) == RenderOp(all[0]) + Render(all[1..]);
    }
  }
}
