/** The shape table both the patch-file loader and the patcher build from a patch's
    `"shapes"` list: one entry per shape file, holding the shape ids of every list entry
    naming that file, in list order. */
module ShapeTables {
  import opened Wrappers
  import opened Text
  import opened JsonData

  /** A `dict[Path, list[int]]`, keys in insertion order. */
  type ShapeMap = seq<(string, seq<int>)>

  /** What one entry of the `"shapes"` list contributes: nothing, or a file and its ids. */
  type Entry = Option<(string, seq<int>)>

  predicate KeysDistinct(m: ShapeMap) {
    forall i, j :: 0 <= i < j < |m| ==> m[i].0 != m[j].0
  }

  function Keys(m: ShapeMap): (r: set<string>)
    ensures forall k :: k in r <==> exists i :: 0 <= i < |m| && m[i].0 == k
  {
    set i | 0 <= i < |m| :: m[i].0
  }

  /** `shapes[key]`, or nothing when the key is absent. */
  function Lookup(m: ShapeMap, key: string): (r: Option<seq<int>>)
    ensures r.None? <==> key !in Keys(m)
  {
    if m == [] then None
    else if m[0].0 == key then Some(m[0].1)
    else Lookup(m[1..], key)
  }

  function KeyIndex(m: ShapeMap, key: string): (i: int)
    ensures -1 <= i < |m|
    ensures i >= 0 ==> m[i].0 == key
    ensures i < 0 ==> key !in Keys(m)
  {
    if m == [] then -1
    else if m[|m| - 1].0 == key then |m| - 1
    else KeyIndex(m[..|m| - 1], key)
  }

  /** `shapes.setdefault(key, []).extend(ids)`, and equally `shapes[key] += ids` /
      `shapes[key] = ids`: the ids go after those the key already holds; a new key goes
      last. */
  function Extend(m: ShapeMap, key: string, ids: seq<int>): (r: ShapeMap)
    ensures KeysDistinct(m) ==> KeysDistinct(r)
    ensures Keys(r) == Keys(m) + {key}
  {
    var i := KeyIndex(m, key);
    if i < 0 then
      var r := m + [(key, ids)];
      assert r[|m|].0 == key;
      assert forall j :: 0 <= j < |m| ==> r[j].0 == m[j].0;
      r
    else
      var r := m[i := (key, m[i].1 + ids)];
      assert forall j :: 0 <= j < |m| ==> r[j].0 == m[j].0;
      r
  }

  /** `[int(shape_id) for shape_id in id.split(",")]`: every piece must be a decimal
      number; the first that is not raises ValueError. */
  function ParseIds(id: string): (r: Result<seq<int>>)
    ensures r.Ok? ==> |r.value| == |Split(id, ',')|
    ensures r.Err? ==> r.error == ValueErr
  {
    ParseEach(Split(id, ','))
  }

  function ParseEach(parts: seq<string>): (r: Result<seq<int>>)
    ensures r.Ok? ==> |r.value| == |parts| && forall k :: 0 <= k < |parts| ==> ParseInt(parts[k]) == Ok(r.value[k])
    ensures r.Err? <==> exists k :: 0 <= k < |parts| && ParseInt(parts[k]).Err?
    ensures r.Err? ==> r.error == ValueErr
  {
    if parts == [] then Ok([])
    else
      var v :- ParseInt(parts[0]);
      var rest :- ParseEach(parts[1..]);
      Ok([v] + rest)
  }

  /** Ids written out with `",".join(str(i) for i in ids)` read back as the same ids. */
  lemma {:induction false} ParseIdsJoin(ns: seq<nat>)
    requires ns != []
    ensures ParseIds(Join(Digits(ns), ',')) == Ok(ns)
  {
    var parts := Digits(ns);
    forall k | 0 <= k < |parts| ensures ',' !in parts[k] {
      assert forall i :: 0 <= i < |parts[k]| ==> IsDigit(parts[k][i]);
    }
    SplitJoin(parts, ',');
    ParseEachDigits(ns);
  }

  function Digits(ns: seq<nat>): (r: seq<string>)
    ensures |r| == |ns| && forall k :: 0 <= k < |ns| ==> r[k] == NatToString(ns[k])
  {
    seq(|ns|, k requires 0 <= k < |ns| => NatToString(ns[k]))
  }

  lemma ParseEachDigits(ns: seq<nat>)
    ensures ParseEach(Digits(ns)) == Ok(ns)
  {
    forall k | 0 <= k < |ns| ensures ParseInt(Digits(ns)[k]) == Ok(ns[k]) {
      ParseIntNat(ns[k]);
    }
    ParseEachOk(Digits(ns), ns);
  }

  /** Pieces that each read as a number read as the list of those numbers. */
  lemma {:induction false} ParseEachOk(parts: seq<string>, vs: seq<int>)
    requires |parts| == |vs| && forall k :: 0 <= k < |parts| ==> ParseInt(parts[k]) == Ok(vs[k])
    ensures ParseEach(parts) == Ok(vs)
    decreases |parts|
  {
    if parts != [] {
      assert ParseInt(parts[0]) == Ok(vs[0]);
      ParseEachOk(parts[1..], vs[1..]);
      assert [vs[0]] + vs[1..] == vs;
    }
  }

  // ---------------------------------------------------------------- the loop over the list

  /** The loop over the list from item `i` on, `shapes` holding what came before; the
      first entry that fails ends it with that error. */
  function MergeFrom(items: seq<Json>, i: nat, shapes: ShapeMap, entry: Json -> Result<Entry>): Result<ShapeMap>
    requires i <= |items|
    decreases |items| - i
  {
    if i == |items| then Ok(shapes)
    else
      var e :- entry(items[i]);
      MergeFrom(items, i + 1, if e.Some? then Extend(shapes, e.value.0, e.value.1) else shapes, entry)
  }

  /** `for shape_item in shapes_data: ...` on a JSON value: a list gives its elements;
      an object gives its keys and a text its characters, and indexing either of those
      with `"fileName"` is a TypeError, so they pass only when empty; anything else is
      not iterable. */
  function Iterate(data: Json, entry: Json -> Result<Entry>): (r: Result<ShapeMap>)
    ensures !data.Arr? ==> r == (if data == Obj([]) || data == Str([]) then Ok([]) else Err(TypeErr))
  {
    match data
    case Arr(items) => MergeFrom(items, 0, [], entry)
    case Obj(members) => if members == [] then Ok([]) else Err(TypeErr)
    case Str(s) => if s == [] then Ok([]) else Err(TypeErr)
    case _ => Err(TypeErr)
  }

  /** The loop itself: the table grows entry by entry; the first entry that fails ends
      it. */
  method MergeShapes(data: Json, entry: Json -> Result<Entry>) returns (r: Result<ShapeMap>)
    ensures r == Iterate(data, entry)
  {
    if !data.Arr? {
      if data == Obj([]) || data == Str([]) {
        return Ok([]);
      }
      return Err(TypeErr);
    }
    var items := data.items;
    var shapes: ShapeMap := [];
    var i := 0;
    while i < |items|
      invariant i <= |items|
      invariant MergeFrom(items, i, shapes, entry) == MergeFrom(items, 0, [], entry)
    {
      var e := entry(items[i]);
      if e.Err? {
        return Err(e.error);
      }
      if e.value.Some? {
        shapes := Extend(shapes, e.value.value.0, e.value.value.1);
      }
      i := i + 1;
    }
    return Ok(shapes);
  }

  // ---------------------------------------------------------------- the reference

  /** What the entries of a list amount to: the files and ids, in list order, the
      skipped entries left out; or the error of the first entry that fails. */
  function Entries(items: seq<Json>, entry: Json -> Result<Entry>): Result<seq<(string, seq<int>)>>
    decreases |items|
  {
    if items == [] then Ok([])
    else
      var es :- Entries(items[..|items| - 1], entry);
      var e :- entry(items[|items| - 1]);
      Ok(es + if e.Some? then [e.value] else [])
  }

  /** The ids a list of file/id pairs holds for one file, in list order. */
  function IdsFor(es: seq<(string, seq<int>)>, key: string): seq<int>
    decreases |es|
  {
    if es == [] then []
    else IdsFor(es[..|es| - 1], key) + if es[|es| - 1].0 == key then es[|es| - 1].1 else []
  }

  function Merge(es: seq<(string, seq<int>)>): ShapeMap
    decreases |es|
  {
    if es == [] then [] else Extend(Merge(es[..|es| - 1]), es[|es| - 1].0, es[|es| - 1].1)
  }

  /** The files a list of file/id pairs names. */
  function Files(es: seq<(string, seq<int>)>): (r: set<string>)
    ensures forall k :: k in r <==> exists j :: 0 <= j < |es| && es[j].0 == k
  {
    set j | 0 <= j < |es| :: es[j].0
  }

  /** The merged table has one entry per file named in the list, and no other. */
  lemma {:induction false} MergeKeys(es: seq<(string, seq<int>)>)
    ensures KeysDistinct(Merge(es)) && Keys(Merge(es)) == Files(es)
    decreases |es|
  {
    if es != [] {
      var init, last := es[..|es| - 1], es[|es| - 1];
      assert es == init + [last];
      MergeKeys(init);
      FilesSnoc(es, init, last);
    }
  }

  /** One more pair adds its file to the files named. */
  lemma FilesSnoc(es: seq<(string, seq<int>)>, init: seq<(string, seq<int>)>, last: (string, seq<int>))
    requires es == init + [last]
    ensures Files(es) == Files(init) + {last.0}
  {
    forall k | k in Files(es) ensures k in Files(init) + {last.0} {
      var j :| 0 <= j < |es| && es[j].0 == k;
      if j < |init| { assert init[j] == es[j]; } else { assert es[j] == last; }
    }
    forall k | k in Files(init) ensures k in Files(es) {
      var j :| 0 <= j < |init| && init[j].0 == k;
      assert es[j] == init[j];
    }
    assert es[|init|] == last;
  }

  /** The entry of a file holds the ids of every pair naming the file, in list order. */
  lemma {:induction false} MergeLookup(es: seq<(string, seq<int>)>, key: string)
    requires key in Files(es)
    ensures Lookup(Merge(es), key) == Some(IdsFor(es, key))
    decreases |es|
  {
    var init, last := es[..|es| - 1], es[|es| - 1];
    assert es == init + [last];
    FilesSnoc(es, init, last);
    MergeKeys(init);
    var before: seq<int>;
    if key in Files(init) {
      MergeLookup(init, key);
      before := IdsFor(init, key);
    } else {
      IdsForNone(init, key);
      before := [];
    }
    MergeStep(es, init, last, key, before);
  }

  /** One more pair extends the entry of its file by its ids. */
  lemma MergeStep(es: seq<(string, seq<int>)>, init: seq<(string, seq<int>)>, last: (string, seq<int>),
                  key: string, before: seq<int>)
    requires es == init + [last] && KeysDistinct(Merge(init)) && before == IdsFor(init, key)
    requires key in Keys(Merge(init)) ==> Lookup(Merge(init), key) == Some(before)
    requires key !in Keys(Merge(init)) ==> before == [] && last.0 == key
    ensures Lookup(Merge(es), key) == Some(IdsFor(es, key))
  {
    assert es[..|es| - 1] == init;
    assert Merge(es) == Extend(Merge(init), last.0, last.1);
    assert IdsFor(es, key) == IdsFor(init, key) + if last.0 == key then last.1 else [];
    ExtendStep(Merge(init), last.0, last.1, key, before);
  }

  lemma ExtendStep(m: ShapeMap, k: string, ids: seq<int>, key: string, before: seq<int>)
    requires KeysDistinct(m)
    requires key in Keys(m) ==> Lookup(m, key) == Some(before)
    requires key !in Keys(m) ==> before == [] && k == key
    ensures Lookup(Extend(m, k, ids), key) == Some(before + if k == key then ids else [])
  {
    ExtendLookup(m, k, ids, key);
    if k != key {
      assert before + [] == before;
    }
  }

  lemma ExtendLookup(m: ShapeMap, k: string, ids: seq<int>, key: string)
    requires KeysDistinct(m)
    ensures Lookup(Extend(m, k, ids), key) ==
      if key == k then Some((if key in Keys(m) then Lookup(m, key).value else []) + ids) else Lookup(m, key)
  {
    var i := KeyIndex(m, k);
    LookupAt(m, key);
    LookupAt(Extend(m, k, ids), key);
    if i < 0 {
      assert [] + ids == ids;
    }
  }

  /** In a table with distinct keys, a key's entry is the one at its position. */
  lemma {:induction false} LookupAt(m: ShapeMap, key: string)
    requires KeysDistinct(m)
    ensures forall i :: 0 <= i < |m| && m[i].0 == key ==> Lookup(m, key) == Some(m[i].1)
  {
    if m != [] {
      assert KeysDistinct(m[1..]) by {
        forall i, j | 0 <= i < j < |m| - 1 ensures m[1..][i].0 != m[1..][j].0 {
          assert m[1..][i] == m[i + 1] && m[1..][j] == m[j + 1];
        }
      }
      LookupAt(m[1..], key);
      forall i | 1 <= i < |m| && m[i].0 == key ensures Lookup(m, key) == Some(m[i].1) {
        assert m[1..][i - 1] == m[i];
      }
    }
  }

  lemma {:induction false} IdsForNone(es: seq<(string, seq<int>)>, key: string)
    requires forall j :: 0 <= j < |es| ==> es[j].0 != key
    ensures IdsFor(es, key) == []
    decreases |es|
  {
    if es != [] {
      IdsForNone(es[..|es| - 1], key);
    }
  }

  /** The loop builds exactly the merge of the list's entries, and fails exactly where
      the list has an entry that fails. */
  lemma {:induction false} MergeFromEntries(items: seq<Json>, i: nat, entry: Json -> Result<Entry>)
    requires i <= |items| && Entries(items[..i], entry).Ok?
    ensures MergeFrom(items, i, Merge(Entries(items[..i], entry).value), entry) ==
      match Entries(items, entry)
      case Ok(es) => Ok(Merge(es))
      case Err(e) => Err(e)
    decreases |items| - i
  {
    if i == |items| {
      assert items[..i] == items;
    } else {
      var es := Entries(items[..i], entry).value;
      assert items[..i + 1][..i] == items[..i];
      match entry(items[i]) {
        case Err(e) =>
          EntriesFail(items, i + 1, entry);
        case Ok(e) =>
          var es' := es + if e.Some? then [e.value] else [];
          assert Entries(items[..i + 1], entry) == Ok(es');
          assert Merge(es') == if e.Some? then Extend(Merge(es), e.value.0, e.value.1) else Merge(es) by {
            if e.None? { assert es' == es; }
            else { assert es'[..|es'| - 1] == es; }
          }
          MergeFromEntries(items, i + 1, entry);
      }
    }
  }

  /** Once a prefix of the list fails, the whole list fails with the same error. */
  lemma {:induction false} EntriesFail(items: seq<Json>, i: nat, entry: Json -> Result<Entry>)
    requires i <= |items| && Entries(items[..i], entry).Err?
    ensures Entries(items, entry) == Entries(items[..i], entry)
    decreases |items| - i
  {
    if i == |items| {
      assert items[..i] == items;
    } else {
      assert items[..i + 1][..i] == items[..i];
      EntriesFail(items, i + 1, entry);
    }
  }

  /** The loop from the start with an empty table is the merge of the entries. */
  lemma MergeAll(items: seq<Json>, entry: Json -> Result<Entry>)
    ensures MergeFrom(items, 0, [], entry) ==
      match Entries(items, entry)
      case Ok(es) => Ok(Merge(es))
      case Err(e) => Err(e)
  {
    assert items[..0] == [];
    MergeFromEntries(items, 0, entry);
  }

  /** What a table built from a list holds: one entry per file named by an entry that
      adds something, holding the ids of all those entries in list order. */
  lemma MergeTable(items: seq<Json>, entry: Json -> Result<Entry>, file: string)
    requires Iterate(Arr(items), entry).Ok?
    ensures Entries(items, entry).Ok?
    ensures var m := Iterate(Arr(items), entry).value; var es := Entries(items, entry).value;
      m == Merge(es) && KeysDistinct(m) && Keys(m) == Files(es) &&
      (file in Keys(m) ==> Lookup(m, file) == Some(IdsFor(es, file)))
  {
    MergeAll(items, entry);
    var es := Entries(items, entry).value;
    MergeKeys(es);
    if file in Files(es) {
      MergeLookup(es, file);
    }
  }

  /** A list of one entry gives the table of that entry alone. */
  lemma OneEntry(item: Json, entry: Json -> Result<Entry>)
    requires entry(item).Ok?
    ensures var e := entry(item).value;
      Iterate(Arr([item]), entry) == Ok(if e.Some? then [e.value] else [])
  {
    var e := entry(item).value;
    if e.Some? {
      assert KeyIndex([], e.value.0) < 0;
      assert Extend([], e.value.0, e.value.1) == [e.value];
      assert MergeFrom([item], 1, [e.value], entry) == Ok([e.value]);
    } else {
      assert MergeFrom([item], 1, [], entry) == Ok([]);
    }
  }
}
