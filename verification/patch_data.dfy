/** The decoder of a patch file's `swf` tree into patch items. A string member `#attr`
    narrows the node's filter with `[@attr='value']` (for `#frameId` after replacing the
    last `/segment` by `/frame`), any other string member is a change (a leading `~`
    dropped), an object member descends with `/key` and every list element with `/item`.
    A node yields one item, its filter and all its changes, once both are non-empty; it
    comes after the items of everything below it. */
module PatchData {
  import opened Wrappers
  import opened StrDict
  import opened Text
  import opened JsonData

  /** `PatchItem(filter, changes)`, or the patcher's `{"filter": .., "changes": ..}`. */
  datatype PatchItem = PatchItem(filter: string, changes: Dict)

  /** The variables of the loop over an object's members: the filter and changes so far,
      the node's own item, and the items of the members below. */
  datatype Node = Node(filter: string, changes: Dict, own: Option<PatchItem>, out: seq<PatchItem>)

  function Emit(o: Option<PatchItem>): (r: seq<PatchItem>)
    ensures |r| <= 1
  {
    if o.Some? then [o.value] else []
  }

  // ---------------------------------------------------------------- the decoder

  /** `process_data(data, filter)`: the items it appends to the result, and the item it
      returns. A value that is neither a list nor an object has no `items()`. */
  function Decode(data: Json, filter: string): (r: Result<(seq<PatchItem>, Option<PatchItem>)>)
    ensures r.Err? ==> r.error == ValueErr || r.error == AttributeErr
    ensures r.Ok? && data.Arr? ==> r.value.1.None?
    decreases data, 1
  {
    match data
    case Arr(items) =>
      var out :- DecodeItems(data, 0, filter, []);
      Ok((out, None))
    case Obj(members) =>
      var st :- DecodeMembers(data, 0, Node(filter, [], None, []));
      Ok((st.out, st.own))
    case _ => Err(AttributeErr)
  }

  /** The loop over a list from the `i`-th element on. */
  function DecodeItems(data: Json, i: nat, filter: string, out: seq<PatchItem>): (r: Result<seq<PatchItem>>)
    requires data.Arr? && i <= |data.items|
    ensures r.Err? ==> r.error == ValueErr || r.error == AttributeErr
    decreases data, 0, |data.items| - i
  {
    if i == |data.items| then Ok(out)
    else
      var c :- Decode(data.items[i], filter + "/item");
      DecodeItems(data, i + 1, filter, out + c.0 + Emit(c.1))
  }

  /** The loop over an object's members from the `i`-th on. */
  function DecodeMembers(data: Json, i: nat, st: Node): (r: Result<Node>)
    requires data.Obj? && i <= |data.members|
    ensures r.Err? ==> r.error == ValueErr || r.error == AttributeErr
    decreases data, 0, |data.members| - i
  {
    if i == |data.members| then Ok(st)
    else
      var key := data.members[i].0;
      var value := data.members[i].1;
      if value.Str? then
        var st' :- StringMember(st, key, value.s);
        DecodeMembers(data, i + 1, st')
      else
        var c :- Decode(value, st.filter + Segment(key));
        DecodeMembers(data, i + 1, st.(out := st.out + c.0 + Emit(c.1)))
  }

  /** `f"/{key}"`. */
  function Segment(key: string): (s: string)
    ensures s == "/" + key
  {
    "/" + key
  }

  /** `f"[@{attribute}='{value}']"`. */
  function Predicate(attribute: string, value: string): (s: string)
    ensures s == "[@" + attribute + "='" + value + "']"
  {
    "[@" + attribute + "='" + value + "']"
  }

  /** A string member: a filter predicate or a change; then the node's item is taken
      again if filter and changes are both non-empty. */
  function StringMember(st: Node, key: string, value: string): (r: Result<Node>)
    ensures r.Err? ==> r.error == ValueErr
  {
    if StartsWith(key, "#") then
      var attribute := RemovePrefix(key, "#");
      var filter :- NarrowFilter(st.filter, attribute, value);
      Ok(TakeItem(st.(filter := filter)))
    else
      Ok(TakeItem(st.(changes := Set(st.changes, RemovePrefix(key, "~"), value))))
  }

  /** `filter[@attribute='value']`, a frame number addressing the `frame` element that
      replaces the last `/segment`; without a `/` to split at, a ValueError. */
  function NarrowFilter(filter: string, attribute: string, value: string): (r: Result<string>)
    ensures r.Err? <==> attribute == "frameId" && '/' !in filter
    ensures r.Err? ==> r.error == ValueErr
  {
    var base :- if attribute == "frameId" then
        var parts :- RSplit(filter, '/');
        Ok(parts.0 + "/frame")
      else Ok(filter);
    Ok(base + Predicate(attribute, value))
  }

  /** `if cur_filter and cur_changes: cur_result = PatchItem(cur_filter, cur_changes)`. */
  function TakeItem(st: Node): Node {
    if st.filter != [] && st.changes != [] then st.(own := Some(PatchItem(st.filter, st.changes))) else st
  }

  /** `process_patch_data(patch_data)`: every item, the root's own one last. */
  function DecodePatchData(data: Json): (r: Result<seq<PatchItem>>)
    ensures r.Err? ==> r.error == ValueErr || r.error == AttributeErr
  {
    var top :- Decode(data, "");
    Ok(top.0 + Emit(top.1))
  }

  // ---------------------------------------------------------------- what the items are

  /** What the applier can use: a non-empty filter and a non-empty dict of changes. */
  predicate GoodItem(it: PatchItem) {
    it.filter != [] && it.changes != [] && Distinct(it.changes)
  }

  /** Items that are good and, given a prefix `p`, all filter below `p`. */
  predicate ItemsOk(items: seq<PatchItem>, p: Option<string>) {
    forall j :: 0 <= j < |items| ==> GoodItem(items[j]) && (p.Some? ==> StartsWith(items[j].filter, p.value + "/"))
  }

  predicate Under(filter: string, p: Option<string>) {
    p.Some? ==> StartsWith(filter, p.value + "/")
  }

  /** Every item has a filter and changes, and its changes form a dict; a node reached
      below `p` yields items whose filters stay below `p`, even when a `#frameId` replaces
      the node's last segment. */
  lemma {:induction false} DecodeOk(data: Json, filter: string, p: Option<string>)
    requires Under(filter, p) && Decode(data, filter).Ok?
    ensures ItemsOk(Decode(data, filter).value.0 + Emit(Decode(data, filter).value.1), p)
    decreases data, 1
  {
    match data
    case Arr(items) =>
      DecodeItemsOk(data, 0, filter, [], p);
    case Obj(members) =>
      DecodeMembersOk(data, 0, Node(filter, [], None, []), p);
  }

  lemma {:induction false} DecodeItemsOk(data: Json, i: nat, filter: string, out: seq<PatchItem>, p: Option<string>)
    requires data.Arr? && i <= |data.items| && Under(filter, p) && ItemsOk(out, p)
    requires DecodeItems(data, i, filter, out).Ok?
    ensures ItemsOk(DecodeItems(data, i, filter, out).value, p)
    decreases data, 0, |data.items| - i
  {
    if i < |data.items| {
      var c := Decode(data.items[i], filter + "/item").value;
      assert Under(filter + "/item", p) by {
        if p.Some? { PrefixExtend(filter, p.value + "/", "/item"); }
      }
      DecodeOk(data.items[i], filter + "/item", p);
      ItemsJoin(out, c.0 + Emit(c.1), p);
      assert out + c.0 + Emit(c.1) == out + (c.0 + Emit(c.1));
      DecodeItemsOk(data, i + 1, filter, out + c.0 + Emit(c.1), p);
    }
  }

  lemma {:induction false} DecodeMembersOk(data: Json, i: nat, st: Node, p: Option<string>)
    requires data.Obj? && i <= |data.members| && Under(st.filter, p)
    requires ItemsOk(st.out, p) && ItemsOk(Emit(st.own), p) && Distinct(st.changes)
    requires DecodeMembers(data, i, st).Ok?
    ensures ItemsOk(DecodeMembers(data, i, st).value.out, p)
    ensures ItemsOk(Emit(DecodeMembers(data, i, st).value.own), p)
    decreases data, 0, |data.members| - i
  {
    if i < |data.members| {
      var key := data.members[i].0;
      var value := data.members[i].1;
      if value.Str? {
        StringMemberOk(st, key, value.s, p);
        DecodeMembersOk(data, i + 1, StringMember(st, key, value.s).value, p);
      } else {
        var f := st.filter + Segment(key);
        assert Under(f, p) by {
          if p.Some? { PrefixExtend(st.filter, p.value + "/", Segment(key)); }
        }
        var c := Decode(value, f).value;
        DecodeOk(value, f, p);
        ItemsJoin(st.out, c.0 + Emit(c.1), p);
        assert st.out + c.0 + Emit(c.1) == st.out + (c.0 + Emit(c.1));
        DecodeMembersOk(data, i + 1, st.(out := st.out + c.0 + Emit(c.1)), p);
      }
    }
  }

  lemma StringMemberOk(st: Node, key: string, value: string, p: Option<string>)
    requires Under(st.filter, p) && ItemsOk(Emit(st.own), p) && Distinct(st.changes)
    requires StringMember(st, key, value).Ok?
    ensures var st' := StringMember(st, key, value).value;
      Under(st'.filter, p) && ItemsOk(Emit(st'.own), p) && Distinct(st'.changes) && st'.out == st.out
  {
    if StartsWith(key, "#") {
      if p.Some? {
        NarrowUnder(st.filter, RemovePrefix(key, "#"), value, p.value);
      }
    } else {
      SetGet(st.changes, RemovePrefix(key, "~"), value);
    }
  }

  /** Narrowing a filter that lies below `p` keeps it below `p`: the `/` a frame number
      splits at comes after `p`. */
  lemma NarrowUnder(filter: string, attribute: string, value: string, p: string)
    requires StartsWith(filter, p + "/") && NarrowFilter(filter, attribute, value).Ok?
    ensures StartsWith(NarrowFilter(filter, attribute, value).value, p + "/")
  {
    var tail := Predicate(attribute, value);
    if attribute == "frameId" {
      var parts := RSplit(filter, '/').value;
      assert filter[|p|] == '/' by {
        assert filter[..|p| + 1] == p + "/";
        assert (p + "/")[|p|] == '/';
      }
      assert filter[..|parts.0|] == parts.0;
      if |parts.0| == |p| {
        PrefixOf(filter, p + "/", |p|);
        PrefixExtend(parts.0 + "/frame", p + "/", tail);
      } else {
        PrefixOf(filter, p + "/", |p| + 1);
        assert parts.0[..|p| + 1] == filter[..|p| + 1];
        PrefixExtend(parts.0 + "/frame", p + "/", tail);
      }
    } else {
      PrefixExtend(filter, p + "/", tail);
    }
  }

  /** A prefix of a string's prefix. */
  lemma PrefixOf(s: string, q: string, n: nat)
    requires StartsWith(s, q) && n <= |q|
    ensures s[..n] == q[..n]
  {
  }

  lemma PrefixExtend(s: string, q: string, t: string)
    requires StartsWith(s, q)
    ensures StartsWith(s + t, q)
  {
    assert (s + t)[..|q|] == s[..|q|];
  }

  lemma ItemsJoin(a: seq<PatchItem>, b: seq<PatchItem>, p: Option<string>)
    requires ItemsOk(a, p) && ItemsOk(b, p)
    ensures ItemsOk(a + b, p)
  {
  }

  /** Every item `process_patch_data` returns has a filter and a dict of changes. */
  lemma DecodePatchDataOk(data: Json)
    requires DecodePatchData(data).Ok?
    ensures ItemsOk(DecodePatchData(data).value, None)
  {
    DecodeOk(data, "", None);
  }

  // ---------------------------------------------------------------- the node's own item

  /** The item a node's filter and changes make, if both are non-empty. */
  function Final(st: Node): (r: Option<PatchItem>)
    ensures r.Some? <==> st.filter != [] && st.changes != []
    ensures r.Some? ==> r.value == PatchItem(st.filter, st.changes)
  {
    if st.filter != [] && st.changes != [] then Some(PatchItem(st.filter, st.changes)) else None
  }

  /** A node's item is taken at its last string member, and yet it holds the filter and
      the changes the node ends with: neither changes after the last string member, and
      once both are non-empty they stay so. The item is therefore the same whether it
      shares its changes dict with the loop or copies it. */
  lemma DecodeOwn(members: seq<(string, Json)>, filter: string)
    requires Decode(Obj(members), filter).Ok?
    ensures var st := DecodeMembers(Obj(members), 0, Node(filter, [], None, [])).value;
      Decode(Obj(members), filter).value.1 == Final(st)
  {
    MembersOwn(Obj(members), 0, Node(filter, [], None, []));
  }

  lemma {:induction false} MembersOwn(data: Json, i: nat, st: Node)
    requires data.Obj? && i <= |data.members| && st.own == Final(st)
    requires DecodeMembers(data, i, st).Ok?
    ensures DecodeMembers(data, i, st).value.own == Final(DecodeMembers(data, i, st).value)
    decreases |data.members| - i
  {
    if i < |data.members| {
      var key := data.members[i].0;
      var value := data.members[i].1;
      if value.Str? {
        StringMemberOwn(st, key, value.s);
        MembersOwn(data, i + 1, StringMember(st, key, value.s).value);
      } else {
        var c := Decode(value, st.filter + Segment(key)).value;
        MembersOwn(data, i + 1, st.(out := st.out + c.0 + Emit(c.1)));
      }
    }
  }

  lemma StringMemberOwn(st: Node, key: string, value: string)
    requires st.own == Final(st) && StringMember(st, key, value).Ok?
    ensures StringMember(st, key, value).value.own == Final(StringMember(st, key, value).value)
  {
    if !StartsWith(key, "#") {
      SetGet(st.changes, RemovePrefix(key, "~"), value);
    }
  }

  // ---------------------------------------------------------------- examples

  /** A frame number at the top level has no `/segment` to replace: a ValueError. */
  lemma TopLevelFrameId()
    ensures DecodePatchData(Obj([("#frameId", Str("1"))])) == Err(ValueErr)
  {
  }

  /** Below the top level a frame number replaces the last segment by `/frame`. */
  lemma NestedFrameId()
    ensures DecodePatchData(Obj([("tags", Obj([("#frameId", Str("2")), ("~x", Str("1"))]))]))
      == Ok([PatchItem("/frame" + Predicate("frameId", "2"), [("x", "1")])])
  {
    var inner := Obj([("#frameId", Str("2")), ("~x", Str("1"))]);
    var outer := Obj([("tags", inner)]);
    var item := PatchItem("/frame" + Predicate("frameId", "2"), [("x", "1")]);
    FrameIdNode();
    var top := Node("", [], None, []);
    assert top.filter + Segment("tags") == "" + Segment("tags");
    assert [] + [] + Emit(Some(item)) == [item];
    assert DecodeMembers(outer, 1, top.(out := [item])) == Ok(top.(out := [item]));
    assert DecodeMembers(outer, 0, top) == Ok(top.(out := [item]));
    assert Decode(outer, "") == Ok(([item], None));
    assert [item] + Emit(None) == [item];
  }

  lemma FrameIdNode()
    ensures Decode(Obj([("#frameId", Str("2")), ("~x", Str("1"))]), "" + Segment("tags"))
      == Ok(([], Some(PatchItem("/frame" + Predicate("frameId", "2"), [("x", "1")]))))
  {
    var inner := Obj([("#frameId", Str("2")), ("~x", Str("1"))]);
    var tags := "" + Segment("tags");
    var f := "/frame" + Predicate("frameId", "2");
    var st0 := Node(tags, [], None, []);
    var st1 := Node(f, [], None, []);
    FrameIdMember(st0);
    var item := PatchItem(f, [("x", "1")]);
    var st2 := Node(f, [("x", "1")], Some(item), []);
    assert StringMember(st1, "~x", "1") == Ok(st2) by {
      ChangeMember(st1, "~x", "x", "1");
      assert Set([], "x", "1") == [("x", "1")];
    }
    assert DecodeMembers(inner, 2, st2) == Ok(st2);
    assert DecodeMembers(inner, 1, st1) == Ok(st2);
    assert DecodeMembers(inner, 0, st0) == Ok(st2);
  }

  lemma FrameIdMember(st: Node)
    requires st == Node("" + Segment("tags"), [], None, [])
    ensures StringMember(st, "#frameId", "2") == Ok(Node("/frame" + Predicate("frameId", "2"), [], None, []))
  {
    var tags := "" + Segment("tags");
    assert '/' !in tags[1..];
    NarrowFrame(tags, 0, "2");
    assert tags[..0] + "/frame" == "/frame";
    PredicateMember(st, "#frameId", "frameId", "2");
  }

  /** A reduced form of the decoder's test fixture: a list element narrowed by `#type`
      holding an object with one change, then a sibling object with one change. The
      nested item comes first, its filter made of `/tags`, the list's `/item`, the
      predicate and `/m`; the root has no changes and yields no item. */
  lemma NestedFixture()
    ensures DecodePatchData(Obj([
        ("tags", Arr([Obj([("#type", Str("T")), ("m", Obj([("~a", Str("1"))]))])])),
        ("d", Obj([("~x", Str("0"))]))]))
      == Ok([PatchItem("/tags/item[@type='T']/m", [("a", "1")]), PatchItem("/d", [("x", "0")])])
  {
    var m := Obj([("~a", Str("1"))]);
    var element := Obj([("#type", Str("T")), ("m", m)]);
    var d := Obj([("~x", Str("0"))]);
    var f := "/tags/item[@type='T']/m";
    var item := PatchItem(f, [("a", "1")]);
    FixtureFilters();
    OneChange(f, "~a", "a", "1");
    TypedElement("/tags" + "/item", m, item);
    ListOfOne("/tags", element, item);
    OneChange("/d", "~x", "x", "0");
    TwoMembers(Arr([element]), d, item, PatchItem("/d", [("x", "0")]));
  }

  lemma FixtureFilters()
    ensures "" + Segment("tags") == "/tags" && "" + Segment("d") == "/d"
    ensures "/tags" + "/item" + Predicate("type", "T") + Segment("m") == "/tags/item[@type='T']/m"
  {
  }

  /** An object whose one member is a change yields one item: its filter and that change. */
  lemma OneChange(f: string, key: string, name: string, value: string)
    requires f != [] && key == ['~'] + name
    ensures Decode(Obj([(key, Str(value))]), f) == Ok(([], Some(PatchItem(f, [(name, value)]))))
  {
    var data := Obj([(key, Str(value))]);
    var st0 := Node(f, [], None, []);
    assert forall j :: 0 <= j < |name| ==> key[j + 1] == name[j];
    ChangeMember(st0, key, name, value);
    assert Set([], name, value) == [(name, value)];
    var st1 := Node(f, [(name, value)], Some(PatchItem(f, [(name, value)])), []);
    assert StringMember(st0, key, value) == Ok(st1);
    assert DecodeMembers(data, 1, st1) == Ok(st1);
    assert DecodeMembers(data, 0, st0) == Ok(st1);
  }

  /** A `#type` member narrows the filter the object member after it descends from; the
      element itself has no changes, so it passes its child's item on and has none. */
  lemma TypedElement(g: string, m: Json, item: PatchItem)
    requires Decode(m, g + Predicate("type", "T") + Segment("m")) == Ok(([], Some(item)))
    ensures Decode(Obj([("#type", Str("T")), ("m", m)]), g) == Ok(([item], None))
  {
    var e := Obj([("#type", Str("T")), ("m", m)]);
    var st0 := Node(g, [], None, []);
    PredicateMember(st0, "#type", "type", "T");
    var g1 := g + Predicate("type", "T");
    assert NarrowFilter(g, "type", "T") == Ok(g1);
    var st1 := Node(g1, [], None, []);
    assert StringMember(st0, "#type", "T") == Ok(st1);
    var st2 := Node(g1, [], None, [item]);
    assert st1.out + [] + Emit(Some(item)) == [item];
    assert DecodeMembers(e, 2, st2) == Ok(st2);
    assert DecodeMembers(e, 1, st1) == Ok(st2);
    assert DecodeMembers(e, 0, st0) == Ok(st2);
  }

  /** A list of one element passes on the element's items, each element under `/item`. */
  lemma ListOfOne(f: string, element: Json, item: PatchItem)
    requires Decode(element, f + "/item") == Ok(([item], None))
    ensures Decode(Arr([element]), f) == Ok(([item], None))
  {
    assert [] + [item] + Emit(None) == [item];
    assert DecodeItems(Arr([element]), 1, f, [item]) == Ok([item]);
    assert DecodeItems(Arr([element]), 0, f, []) == Ok([item]);
  }

  /** At the root the items of the members come in member order, each after what lies
      below it. */
  lemma TwoMembers(tags: Json, d: Json, first: PatchItem, second: PatchItem)
    requires !tags.Str? && !d.Str?
    requires Decode(tags, "" + Segment("tags")) == Ok(([first], None))
    requires Decode(d, "" + Segment("d")) == Ok(([], Some(second)))
    ensures DecodePatchData(Obj([("tags", tags), ("d", d)])) == Ok([first, second])
  {
    var top := Obj([("tags", tags), ("d", d)]);
    var st0 := Node("", [], None, []);
    var st1 := Node("", [], None, [first]);
    var st2 := Node("", [], None, [first, second]);
    assert [] + [first] + Emit(None) == [first];
    assert [first] + [] + Emit(Some(second)) == [first, second];
    assert DecodeMembers(top, 2, st2) == Ok(st2);
    assert DecodeMembers(top, 1, st1) == Ok(st2);
    assert DecodeMembers(top, 0, st0) == Ok(st2);
    assert [first, second] + Emit(None) == [first, second];
  }

  /** A frame number replaces what follows the last `/` by `/frame`. */
  lemma NarrowFrame(filter: string, i: nat, value: string)
    requires i < |filter| && filter[i] == '/' && '/' !in filter[i + 1..]
    ensures NarrowFilter(filter, "frameId", value) == Ok(filter[..i] + "/frame" + Predicate("frameId", value))
  {
    forall j | i < j < |filter| ensures filter[j] != '/' {
      assert filter[j] == filter[i + 1..][j - i - 1];
    }
    LastIndexAt(filter, '/', i);
  }

  /** A member `#name`: the filter is narrowed by `name`. */
  lemma PredicateMember(st: Node, key: string, name: string, value: string)
    requires |key| == |name| + 1 && key[0] == '#' && forall j :: 0 <= j < |name| ==> key[j + 1] == name[j]
    ensures StringMember(st, key, value) ==
      var f := NarrowFilter(st.filter, name, value); if f.Ok? then Ok(TakeItem(st.(filter := f.value))) else Err(f.error)
  {
    assert key[..1] == "#";
    assert key[1..] == name;
  }

  /** A member `~name` or `name` without a leading `#`: a change of attribute `name`. */
  lemma ChangeMember(st: Node, key: string, name: string, value: string)
    requires key != [] && key[0] != '#'
    requires if key[0] == '~' then |key| == |name| + 1 && forall j :: 0 <= j < |name| ==> key[j + 1] == name[j] else key == name
    ensures StringMember(st, key, value) == Ok(TakeItem(st.(changes := Set(st.changes, name, value))))
  {
    assert key[..1] != "#" by { assert key[..1][0] == key[0]; }
    if key[0] == '~' {
      assert key[..1] == "~";
      assert key[1..] == name;
    } else {
      assert key[..1] != "~" by { assert key[..1][0] == key[0]; }
    }
  }

  lemma LastIndexAt(s: string, c: char, i: nat)
    requires i < |s| && s[i] == c && forall j :: i < j < |s| ==> s[j] != c
    ensures LastIndex(s, c) == i
  {
  }

  // ---------------------------------------------------------------- the decoder as written

  /** `process_patch_data` with its nested `process_data`: the items found below a node
      are appended to one shared `result` list as the walk goes. */
  class Decoder {
    var result: seq<PatchItem>

    constructor ()
      ensures result == []
    {
      result := [];
    }

    /** `process_data(data, filter)`: appends the items found below `data` and returns the
        node's own item, or fails as `Decode` does. */
    method ProcessData(data: Json, filter: string) returns (r: Result<Option<PatchItem>>)
      modifies this
      ensures Decode(data, filter).Err? <==> r.Err?
      ensures r.Err? ==> r.error == Decode(data, filter).error
      ensures r.Ok? ==> r.value == Decode(data, filter).value.1 && result == old(result) + Decode(data, filter).value.0
      decreases data, 1
    {
      if data.Arr? {
        var out := ProcessItems(data, filter);
        if out.Err? {
          return Err(out.error);
        }
        return Ok(None);
      } else if data.Obj? {
        var st := ProcessMembers(data, filter);
        if st.Err? {
          return Err(st.error);
        }
        return Ok(st.value);
      } else {
        return Err(AttributeErr);
      }
    }

    /** The loop over a list: every element is a node one `/item` further down. */
    method ProcessItems(data: Json, filter: string) returns (r: Result<()>)
      requires data.Arr?
      modifies this
      ensures DecodeItems(data, 0, filter, []).Err? <==> r.Err?
      ensures r.Err? ==> r.error == DecodeItems(data, 0, filter, []).error
      ensures r.Ok? ==> result == old(result) + DecodeItems(data, 0, filter, []).value
      decreases data, 0
    {
      var items := data.items;
      var i := 0;
      ghost var out: seq<PatchItem> := [];
      while i < |items|
        invariant 0 <= i <= |items|
        invariant DecodeItems(data, i, filter, out) == DecodeItems(data, 0, filter, [])
        invariant result == old(result) + out
      {
        ghost var before := result;
        var child := ProcessData(items[i], filter + "/item");
        ItemStep(data, i, filter, out);
        if child.Err? {
          return Err(child.error);
        }
        ghost var found := Decode(items[i], filter + "/item").value.0;
        EmitAppend(before, found, child.value);
        if child.value.Some? {
          result := result + [child.value.value];
        }
        Regroup(old(result), out, found, Emit(child.value));
        out := out + found + Emit(child.value);
        i := i + 1;
      }
      return Ok(());
    }

    /** The loop over an object's members, with the node's filter, changes and item. */
    method ProcessMembers(data: Json, filter: string) returns (r: Result<Option<PatchItem>>)
      requires data.Obj?
      modifies this
      ensures DecodeMembers(data, 0, Node(filter, [], None, [])).Err? <==> r.Err?
      ensures r.Err? ==> r.error == DecodeMembers(data, 0, Node(filter, [], None, [])).error
      ensures r.Ok? ==> var st := DecodeMembers(data, 0, Node(filter, [], None, [])).value;
        r.value == st.own && result == old(result) + st.out
      decreases data, 0
    {
      var members := data.members;
      var curFilter := filter;
      var curChanges: Dict := [];
      var curResult: Option<PatchItem> := None;
      var i := 0;
      ghost var out: seq<PatchItem> := [];
      while i < |members|
        invariant 0 <= i <= |members|
        invariant DecodeMembers(data, i, Node(curFilter, curChanges, curResult, out))
          == DecodeMembers(data, 0, Node(filter, [], None, []))
        invariant result == old(result) + out
      {
        var (key, value) := members[i];
        if value.Str? {
          ghost var st := Node(curFilter, curChanges, curResult, out);
          if StartsWith(key, "#") {
            var attribute := RemovePrefix(key, "#");
            if attribute == "frameId" {
              var parts := RSplit(curFilter, '/');
              if parts.Err? {
                return Err(parts.error);
              }
              curFilter := parts.value.0 + "/frame";
            }
            curFilter := curFilter + Predicate(attribute, value.s);
          } else {
            var attribute := RemovePrefix(key, "~");
            curChanges := Set(curChanges, attribute, value.s);
          }
          if curFilter != [] && curChanges != [] {
            curResult := Some(PatchItem(curFilter, curChanges));
          }
          assert StringMember(st, key, value.s) == Ok(Node(curFilter, curChanges, curResult, out));
          StringStep(data, i, st);
        } else {
          ghost var before := result;
          var child := ProcessData(value, curFilter + Segment(key));
          NestedStep(data, i, Node(curFilter, curChanges, curResult, out));
          if child.Err? {
            return Err(child.error);
          }
          ghost var found := Decode(value, curFilter + Segment(key)).value.0;
          EmitAppend(before, found, child.value);
          if child.value.Some? {
            result := result + [child.value.value];
          }
          Regroup(old(result), out, found, Emit(child.value));
          out := out + found + Emit(child.value);
        }
        i := i + 1;
      }
      return Ok(curResult);
    }

    /** The list after a child's items and its own item are appended. */
    static lemma EmitAppend(before: seq<PatchItem>, found: seq<PatchItem>, own: Option<PatchItem>)
      ensures own.Some? ==> before + found + [own.value] == before + found + Emit(own)
      ensures own.None? ==> before + found == before + found + Emit(own)
    {
    }

    static lemma Regroup(start: seq<PatchItem>, out: seq<PatchItem>, found: seq<PatchItem>, emitted: seq<PatchItem>)
      ensures start + out + found + emitted == start + (out + found + emitted)
    {
    }

    /** One pass of the list loop, as `DecodeItems` takes it. */
    static lemma ItemStep(data: Json, i: nat, filter: string, out: seq<PatchItem>)
      requires data.Arr? && i < |data.items|
      ensures var c := Decode(data.items[i], filter + "/item");
        DecodeItems(data, i, filter, out) ==
          if c.Err? then Err(c.error) else DecodeItems(data, i + 1, filter, out + c.value.0 + Emit(c.value.1))
    {
    }

    /** One pass of the member loop over a string member. */
    static lemma StringStep(data: Json, i: nat, st: Node)
      requires data.Obj? && i < |data.members| && data.members[i].1.Str?
      ensures var m := StringMember(st, data.members[i].0, data.members[i].1.s);
        DecodeMembers(data, i, st) == if m.Err? then Err(m.error) else DecodeMembers(data, i + 1, m.value)
    {
    }

    /** One pass of the member loop over a nested member. */
    static lemma NestedStep(data: Json, i: nat, st: Node)
      requires data.Obj? && i < |data.members| && !data.members[i].1.Str?
      ensures var c := Decode(data.members[i].1, st.filter + Segment(data.members[i].0));
        DecodeMembers(data, i, st) ==
          if c.Err? then Err(c.error) else DecodeMembers(data, i + 1, st.(out := st.out + c.value.0 + Emit(c.value.1)))
    {
    }

    /** `process_patch_data(patch_data)`: a fresh result list, the root's own item last. */
    method ProcessPatchData(data: Json) returns (r: Result<seq<PatchItem>>)
      modifies this
      ensures r == DecodePatchData(data)
      ensures r.Ok? ==> result == r.value
    {
      result := [];
      var top := ProcessData(data, "");
      if top.Err? {
        return Err(top.error);
      }
      assert [] + Decode(data, "").value.0 == Decode(data, "").value.0;
      if top.value.Some? {
        result := result + [top.value.value];
      } else {
        assert result + Emit(None) == result;
      }
      return Ok(result);
    }
  }
}
