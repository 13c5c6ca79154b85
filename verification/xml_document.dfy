/** The XML side of `Patcher.patch_xmls`: a parsed document whose frames are split, the
    patch items applied one after the other, and the frames unsplit again. Applying an
    item sets its changes on every element its filter finds; when it finds none, one new
    element, tagged with the filter's last step and carrying the changes, is appended to
    every element the rest of the filter finds. */
module XmlDocument {
  import opened Wrappers
  import opened StrDict
  import opened Text
  import opened XmlTree
  import opened XmlPath
  import opened XmlEdit
  import opened XmlFrames
  import opened PatchData

  /** The identities of found elements, in order, repeats kept. */
  function IdList(es: seq<Element>): (r: seq<nat>)
    ensures |r| == |es| && forall i :: 0 <= i < |es| ==> r[i] == es[i].id
  {
    seq(|es|, i requires 0 <= i < |es| => es[i].id)
  }

  /** The identities of found elements. */
  function IdSet(es: seq<Element>): (r: set<nat>)
    ensures forall x :: x in r <==> exists i :: 0 <= i < |es| && es[i].id == x
  {
    set i | 0 <= i < |es| :: es[i].id
  }

  lemma IdListSnoc(es: seq<Element>, j: nat)
    requires j < |es|
    ensures IdList(es[..j + 1]) == IdList(es[..j]) + [es[j].id]
    ensures IdSet(es[..j + 1]) == IdSet(es[..j]) + {es[j].id}
  {
  }

  // ---------------------------------------------------------------- one patch item

  /** What applying one item does to the tree and the next free identity: `findall(".")`
      of the filter; the changes set on what it found; else a split at the last `/`, a
      new element of that tag with the changes as attributes, and the parents found. */
  function ApplySpec(root: Element, next: nat, item: PatchItem): (r: Result<(Element, nat)>)
    ensures FindAllPath(root, "." + item.filter).Err? ==> r.Err?
    ensures r.Ok? ==> r.value.1 == next || r.value.1 == next + 1
  {
    var path := "." + item.filter;
    var elements :- FindAllPath(root, path);
    if elements != [] then
      Ok((Changed(root, IdSet(elements), item.changes), next))
    else
      var parts :- RSplit(path, '/');
      var parents :- FindAllPath(root, parts.0);
      Ok((Added(root, multiset(IdList(parents)), NewElement(next, parts.1, item.changes)), next + 1))
  }

  /** `ET.Element(tag)` with `attrib = changes`. */
  function NewElement(id: nat, tag: string, changes: Dict): (n: Element)
    ensures n.id == id && n.tag == tag && n.attrib == changes && n.children == []
  {
    Element(id, tag, changes, [])
  }

  /** The items applied in order; the first failure ends the run. */
  function ApplyAll(root: Element, next: nat, items: seq<PatchItem>): (r: Result<(Element, nat)>)
    ensures r.Ok? ==> next <= r.value.1 <= next + |items|
    decreases |items|
  {
    if items == [] then Ok((root, next))
    else
      var s :- ApplySpec(root, next, items[0]);
      ApplyAll(s.0, s.1, items[1..])
  }

  // ---------------------------------------------------------------- the document

  /** An `ElementTree` being patched: its root, and the identity the next new element
      gets. */
  class Document {
    var root: Element
    var next: nat

    /** One object is one object wherever it hangs, and every identity in the tree is
        below `next`. */
    ghost predicate Valid()
      reads this
    {
      Consistent(root) && IdsBelow(root, next)
    }

    /** A parsed document: a tree whose identities are all below `next`. */
    constructor (root: Element, next: nat)
      requires Unique(root) && IdsBelow(root, next)
      ensures this.root == root && this.next == next && Valid()
    {
      UniqueConsistent(root);
      this.root := root;
      this.next := next;
    }

    /** `for element in elements: for key, value in changes.items(): element.attrib[key] = value`. */
    method SetChanges(elements: seq<Element>, changes: Dict)
      requires Distinct(changes)
      modifies this
      ensures root == Changed(old(root), IdSet(elements), changes) && next == old(next)
    {
      ChangedNone(root, changes);
      assert IdSet(elements[..0]) == {};
      var j := 0;
      while j < |elements|
        invariant 0 <= j <= |elements| && next == old(next)
        invariant root == Changed(old(root), IdSet(elements[..j]), changes)
      {
        ChangedStep(old(root), IdSet(elements[..j]), elements[j].id, changes);
        IdListSnoc(elements, j);
        root := SetAttrs(root, elements[j].id, changes);
        j := j + 1;
      }
      assert elements[..j] == elements;
    }

    /** `for parent in parents: parent.append(n)`: one object under every parent, twice
        under a parent found twice. */
    method AppendToAll(parents: seq<Element>, n: Element)
      requires n.children == [] && forall i :: 0 <= i < |parents| ==> parents[i].id != n.id
      modifies this
      ensures root == Added(old(root), multiset(IdList(parents)), n) && next == old(next)
    {
      AddedNone(root, n);
      var j := 0;
      while j < |parents|
        invariant 0 <= j <= |parents| && next == old(next)
        invariant root == Added(old(root), multiset(IdList(parents[..j])), n)
      {
        AddedStep(old(root), multiset(IdList(parents[..j])), parents[j].id, n);
        IdListSnoc(parents, j);
        root := AddChild(root, parents[j].id, n);
        j := j + 1;
      }
      assert parents[..j] == parents;
    }

    /** One pass of the loop over the patch items. A filter the path language rejects, or
        no `/` to split at, raises before anything changes. */
    method Apply(item: PatchItem) returns (r: Result<()>)
      requires Valid() && Distinct(item.changes)
      modifies this
      ensures r.Err? <==> ApplySpec(old(root), old(next), item).Err?
      ensures r.Err? ==> r.error == ApplySpec(old(root), old(next), item).error && root == old(root) && next == old(next)
      ensures r.Ok? ==> (root, next) == ApplySpec(old(root), old(next), item).value
      ensures Valid()
    {
      var path := "." + item.filter;
      var found := FindAllPath(root, path);
      if found.Err? {
        return Err(found.error);
      }
      var elements := found.value;
      if elements == [] {
        var parts := RSplit(path, '/');
        if parts.Err? {
          return Err(parts.error);
        }
        var newElement := NewElement(next, parts.value.1, item.changes);
        var parentsFound := FindAllPath(root, parts.value.0);
        if parentsFound.Err? {
          return Err(parentsFound.error);
        }
        var parents := parentsFound.value;
        FoundIdsBelow(root, parts.value.0, next);
        AddedConsistent(root, multiset(IdList(parents)), newElement);
        AppendToAll(parents, newElement);
        next := next + 1;
      } else {
        ChangedConsistent(root, IdSet(elements), item.changes, next);
        SetChanges(elements, item.changes);
      }
      return Ok(());
    }

    /** `for item in data: ...`: every item applied in turn. */
    method ApplyItems(items: seq<PatchItem>) returns (r: Result<()>)
      requires Valid() && forall i :: 0 <= i < |items| ==> Distinct(items[i].changes)
      modifies this
      ensures r.Err? <==> ApplyAll(old(root), old(next), items).Err?
      ensures r.Err? ==> r.error == ApplyAll(old(root), old(next), items).error
      ensures r.Ok? ==> (root, next) == ApplyAll(old(root), old(next), items).value
      ensures Valid()
    {
      var j := 0;
      while j < |items|
        invariant 0 <= j <= |items| && Valid()
        invariant ApplyAll(old(root), old(next), items) == ApplyAll(root, next, items[j..])
      {
        assert items[j..][1..] == items[j + 1..];
        var step := Apply(items[j]);
        if step.Err? {
          return Err(step.error);
        }
        j := j + 1;
      }
      return Ok(());
    }

    /** `xml_root = split_frames(xml_root)` on a tree as parsed. */
    method SplitFrames()
      requires Unique(root) && IdsBelow(root, next)
      modifies this
      ensures (root, next) == XmlFrames.Split(old(root), old(next))
      ensures Unique(root) && IdsBelow(root, next) && Valid()
    {
      IdsBound(root, next);
      SplitUnique(root, next);
      var r, free := SplitElement(root, next);
      BoundIds(r, free);
      UniqueConsistent(r);
      root, next := r, free;
    }

    /** `xml_root = unsplit_frames(xml_root)`. */
    method UnsplitFrames()
      modifies this
      ensures root == Unsplit(old(root)) && next == old(next)
    {
      root := UnsplitElement(root);
    }

    /** The body of `patch_xmls` for one XML file, from the parsed tree to the tree that
        is written back: split, every item applied, unsplit. */
    method PatchXml(items: seq<PatchItem>) returns (r: Result<()>)
      requires Unique(root) && IdsBelow(root, next)
      requires forall i :: 0 <= i < |items| ==> Distinct(items[i].changes)
      modifies this
      ensures var s := XmlFrames.Split(old(root), old(next)); var a := ApplyAll(s.0, s.1, items);
        (r.Err? <==> a.Err?) && (r.Err? ==> r.error == a.error) && (r.Ok? ==> root == Unsplit(a.value.0))
    {
      SplitFrames();
      r := ApplyItems(items);
      if r.Err? {
        return;
      }
      UnsplitFrames();
    }
  }

  // ---------------------------------------------------------------- what an item does

  /** Applying an item keeps one object one object and every identity below the next
      free one, so items can be applied one after another. */
  lemma ApplyValid(root: Element, next: nat, item: PatchItem)
    requires Consistent(root) && IdsBelow(root, next) && Distinct(item.changes)
    requires ApplySpec(root, next, item).Ok?
    ensures var s := ApplySpec(root, next, item).value; Consistent(s.0) && IdsBelow(s.0, s.1)
  {
    var path := "." + item.filter;
    var elements := FindAllPath(root, path).value;
    if elements != [] {
      ChangedConsistent(root, IdSet(elements), item.changes, next);
    } else {
      var parts := RSplit(path, '/').value;
      var parents := FindAllPath(root, parts.0).value;
      AddedConsistent(root, multiset(IdList(parents)), NewElement(next, parts.1, item.changes));
    }
  }

  /** So does applying a whole list of items. */
  lemma {:induction false} ApplyAllValid(root: Element, next: nat, items: seq<PatchItem>)
    requires Consistent(root) && IdsBelow(root, next)
    requires forall i :: 0 <= i < |items| ==> Distinct(items[i].changes)
    requires ApplyAll(root, next, items).Ok?
    ensures var s := ApplyAll(root, next, items).value; Consistent(s.0) && IdsBelow(s.0, s.1)
    decreases |items|
  {
    if items != [] {
      ApplyValid(root, next, items[0]);
      var s := ApplySpec(root, next, items[0]).value;
      ApplyAllValid(s.0, s.1, items[1..]);
    }
  }

  /** When the filter finds elements, the tree keeps its shape and every element of it
      is there, rewritten: a found one has each change set and its other attributes as
      before, any other one is as it was. */
  lemma ApplyFound(root: Element, next: nat, item: PatchItem, x: Element, key: string)
    requires Distinct(item.changes) && Below(x, root)
    requires FindAllPath(root, "." + item.filter).Ok? && FindAllPath(root, "." + item.filter).value != []
    ensures ApplySpec(root, next, item).Ok?
    ensures var elements := FindAllPath(root, "." + item.filter).value;
      var s := ApplySpec(root, next, item).value;
      var y := Changed(x, IdSet(elements), item.changes);
      s.1 == next && Below(y, s.0) && y.id == x.id && y.tag == x.tag &&
      Get(y.attrib, key) ==
        if x.id in IdSet(elements) && Get(item.changes, key).Some? then Get(item.changes, key) else Get(x.attrib, key)
  {
    var elements := FindAllPath(root, "." + item.filter).value;
    BelowChanged(x, root, IdSet(elements), item.changes);
    ChangedAttrs(x, IdSet(elements), item.changes, key);
  }

  /** When the filter finds nothing and the rest of it finds parents, a new element tagged
      with the filter's last step, holding the changes, hangs in the tree, as many times
      under each parent as the parent was found. */
  lemma ApplyCreates(root: Element, next: nat, item: PatchItem, parent: Element)
    requires FindAllPath(root, "." + item.filter) == Ok([])
    requires RSplit("." + item.filter, '/').Ok?
    requires var parts := RSplit("." + item.filter, '/').value;
      FindAllPath(root, parts.0).Ok? && parent in FindAllPath(root, parts.0).value
    ensures ApplySpec(root, next, item).Ok?
    ensures var parts := RSplit("." + item.filter, '/').value;
      var s := ApplySpec(root, next, item).value;
      var n := NewElement(next, parts.1, item.changes);
      s.1 == next + 1 && Below(n, s.0) &&
      Below(Added(parent, multiset(IdList(FindAllPath(root, parts.0).value)), n), s.0) &&
      |Added(parent, multiset(IdList(FindAllPath(root, parts.0).value)), n).children| ==
        |parent.children| + multiset(IdList(FindAllPath(root, parts.0).value))[parent.id]
  {
    var parts := RSplit("." + item.filter, '/').value;
    var parents := FindAllPath(root, parts.0).value;
    var n := NewElement(next, parts.1, item.changes);
    var i :| 0 <= i < |parents| && parents[i] == parent;
    assert multiset(IdList(parents))[parent.id] > 0 by {
      assert IdList(parents)[i] == parent.id;
    }
    if parts.0 != [] {
      FoundBelow(root, ParsePath(parts.0).value);
    }
    NewBelow(parent, root, multiset(IdList(parents)), n);
    BelowAdded(parent, root, multiset(IdList(parents)), n);
  }

  /** When neither the filter nor the rest of it finds anything, the tree is as it was. */
  lemma ApplyNowhere(root: Element, next: nat, item: PatchItem)
    requires FindAllPath(root, "." + item.filter) == Ok([])
    requires RSplit("." + item.filter, '/').Ok?
    requires FindAllPath(root, RSplit("." + item.filter, '/').value.0) == Ok([])
    ensures ApplySpec(root, next, item) == Ok((root, next + 1))
  {
    var parts := RSplit("." + item.filter, '/').value;
    AddedNone(root, NewElement(next, parts.1, item.changes));
    assert multiset(IdList([])) == multiset{};
  }

  /** A filter that finds nothing and has no `/` raises a ValueError. */
  lemma ApplyNoSlash(root: Element, next: nat, item: PatchItem)
    requires FindAllPath(root, "." + item.filter) == Ok([]) && '/' !in item.filter
    ensures ApplySpec(root, next, item) == Err(ValueErr)
  {
    assert '/' !in "." + item.filter;
  }

  // ---------------------------------------------------------------- identities

  /** `IdsBelow` says of the elements what a bound on `Ids` says of the identities. */
  lemma IdsBound(e: Element, n: nat)
    requires IdsBelow(e, n)
    ensures forall x :: x in Ids(e) ==> x < n
  {
    forall x | x in Ids(e) ensures x < n {
      IdHolder(e, x);
    }
  }

  lemma BoundIds(e: Element, n: nat)
    requires forall x :: x in Ids(e) ==> x < n
    ensures IdsBelow(e, n)
  {
    forall y | Below(y, e) ensures y.id < n {
      BelowIds(y, e);
    }
  }

  /** Every identity of `e` is carried by an element below `e`. */
  lemma {:induction false} IdHolder(e: Element, x: nat)
    requires x in Ids(e)
    ensures exists y :: Below(y, e) && y.id == x
    decreases e, 1
  {
    if x != e.id {
      ForestHolder(e.children, x);
      var i :| 0 <= i < |e.children| && exists y :: Below(y, e.children[i]) && y.id == x;
      var y :| Below(y, e.children[i]) && y.id == x;
      assert Below(y, e);
    } else {
      assert Below(e, e);
    }
  }

  lemma {:induction false} ForestHolder(cs: seq<Element>, x: nat)
    requires x in ForestIds(cs)
    ensures exists i :: 0 <= i < |cs| && exists y :: Below(y, cs[i]) && y.id == x
    decreases cs, 0
  {
    if x in Ids(cs[0]) {
      IdHolder(cs[0], x);
    } else {
      ForestHolder(cs[1..], x);
      var i :| 0 <= i < |cs[1..]| && exists y :: Below(y, cs[1..][i]) && y.id == x;
      assert cs[1..][i] == cs[i + 1];
    }
  }

  /** What a filter finds in a tree with identities below `n` has identities below `n`. */
  lemma FoundIdsBelow(root: Element, path: string, n: nat)
    requires IdsBelow(root, n) && FindAllPath(root, path).Ok?
    ensures forall i :: 0 <= i < |FindAllPath(root, path).value| ==> FindAllPath(root, path).value[i].id < n
  {
    if path != [] {
      FoundBelow(root, ParsePath(path).value);
    }
  }
}
