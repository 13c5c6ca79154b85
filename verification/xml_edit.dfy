/** The two changes the patcher makes to a document: setting attributes on the elements a
    filter found, and appending one new element to every parent a filter found. Both are
    changes to objects, so each is written as a rewrite of every place where the object
    hangs (every element carrying its identity). */
module XmlEdit {
  import opened Wrappers
  import opened StrDict
  import opened XmlTree

  // ---------------------------------------------------------------- setting attributes

  /** `for key, value in changes.items(): element.attrib[key] = value` on the object `id`. */
  function SetAttrs(e: Element, id: nat, changes: Dict): (r: Element)
    decreases e
  {
    Element(e.id, e.tag, if e.id == id then SetAll(e.attrib, changes) else e.attrib,
      seq(|e.children|, i requires 0 <= i < |e.children| => SetAttrs(e.children[i], id, changes)))
  }

  /** Every object whose identity is in `ids` has the changes set once. */
  function Changed(e: Element, ids: set<nat>, changes: Dict): (r: Element)
    ensures r.id == e.id && r.tag == e.tag && |r.children| == |e.children|
    decreases e
  {
    Element(e.id, e.tag, if e.id in ids then SetAll(e.attrib, changes) else e.attrib,
      seq(|e.children|, i requires 0 <= i < |e.children| => Changed(e.children[i], ids, changes)))
  }

  /** Setting the changes on the objects one after the other, repeats included, sets them
      once on each: an update made twice is made once. */
  lemma {:induction false} ChangedStep(e: Element, ids: set<nat>, id: nat, changes: Dict)
    requires Distinct(changes)
    ensures SetAttrs(Changed(e, ids, changes), id, changes) == Changed(e, ids + {id}, changes)
    decreases e
  {
    var a := SetAttrs(Changed(e, ids, changes), id, changes);
    var b := Changed(e, ids + {id}, changes);
    forall i | 0 <= i < |e.children| ensures a.children[i] == b.children[i] {
      ChangedStep(e.children[i], ids, id, changes);
    }
    if e.id in ids && e.id == id {
      SetAllTwice(e.attrib, changes);
    }
  }

  /** Nothing to set: the tree as it was. */
  lemma {:induction false} ChangedNone(e: Element, changes: Dict)
    ensures Changed(e, {}, changes) == e
    decreases e
  {
    forall i | 0 <= i < |e.children| ensures Changed(e, {}, changes).children[i] == e.children[i] {
      ChangedNone(e.children[i], changes);
    }
  }

  /** What lies in the changed tree is exactly the changed image of what lay in the tree. */
  lemma {:induction false} ChangedBelow(y: Element, e: Element, ids: set<nat>, changes: Dict)
    requires Below(y, Changed(e, ids, changes))
    ensures exists x :: Below(x, e) && y == Changed(x, ids, changes)
    decreases e
  {
    if y != Changed(e, ids, changes) {
      var i :| 0 <= i < |e.children| && Below(y, Changed(e, ids, changes).children[i]);
      ChangedBelow(y, e.children[i], ids, changes);
      var x :| Below(x, e.children[i]) && y == Changed(x, ids, changes);
      assert Below(x, e);
    }
  }

  lemma {:induction false} BelowChanged(x: Element, e: Element, ids: set<nat>, changes: Dict)
    requires Below(x, e)
    ensures Below(Changed(x, ids, changes), Changed(e, ids, changes))
    decreases e
  {
    if x != e {
      var i :| 0 <= i < |e.children| && Below(x, e.children[i]);
      BelowChanged(x, e.children[i], ids, changes);
      assert Changed(e, ids, changes).children[i] == Changed(e.children[i], ids, changes);
    }
  }

  /** Setting attributes keeps one object one object, and brings no identity in. */
  lemma ChangedConsistent(e: Element, ids: set<nat>, changes: Dict, n: nat)
    requires Consistent(e) && IdsBelow(e, n)
    ensures Consistent(Changed(e, ids, changes)) && IdsBelow(Changed(e, ids, changes), n)
  {
    var r := Changed(e, ids, changes);
    forall y1, y2 | Below(y1, r) && Below(y2, r) && y1.id == y2.id ensures y1 == y2 {
      ChangedBelow(y1, e, ids, changes);
      ChangedBelow(y2, e, ids, changes);
    }
    forall y | Below(y, r) ensures y.id < n {
      ChangedBelow(y, e, ids, changes);
    }
  }

  /** What the elements of the changed tree hold: an object of `ids` has every change set
      and its other attributes as before; any other object is as it was. */
  lemma ChangedAttrs(x: Element, ids: set<nat>, changes: Dict, key: string)
    requires Distinct(changes)
    ensures var y := Changed(x, ids, changes);
      y.id == x.id && y.tag == x.tag && |y.children| == |x.children| &&
      Get(y.attrib, key) == if x.id in ids && Get(changes, key).Some? then Get(changes, key) else Get(x.attrib, key)
  {
    if x.id in ids {
      SetAllGet(x.attrib, changes, key);
    }
  }

  // ---------------------------------------------------------------- appending a new element

  /** `parent.append(n)` on the object `id`. */
  function AddChild(e: Element, id: nat, n: Element): (r: Element)
    decreases e
  {
    Element(e.id, e.tag, e.attrib,
      seq(|e.children|, i requires 0 <= i < |e.children| => AddChild(e.children[i], id, n)) +
      (if e.id == id then [n] else []))
  }

  /** Every object gets as many copies of `n` appended as its identity occurs in `parents`. */
  function Added(e: Element, parents: multiset<nat>, n: Element): (r: Element)
    ensures r.id == e.id && r.tag == e.tag && r.attrib == e.attrib
    ensures |r.children| == |e.children| + parents[e.id]
    decreases e
  {
    Element(e.id, e.tag, e.attrib,
      seq(|e.children|, i requires 0 <= i < |e.children| => Added(e.children[i], parents, n)) +
      Copies(n, parents[e.id]))
  }

  function Copies(n: Element, k: nat): (r: seq<Element>)
    ensures |r| == k && forall i :: 0 <= i < k ==> r[i] == n
  {
    seq(k, _ => n)
  }

  /** Appending to the parents one after the other, a parent found twice getting two
      copies. */
  lemma {:induction false} AddedStep(e: Element, parents: multiset<nat>, id: nat, n: Element)
    requires n.children == [] && n.id != id
    ensures AddChild(Added(e, parents, n), id, n) == Added(e, parents + multiset{id}, n)
    decreases e
  {
    var a := AddChild(Added(e, parents, n), id, n);
    var b := Added(e, parents + multiset{id}, n);
    assert AddChild(n, id, n) == n;
    forall i | 0 <= i < |e.children| ensures a.children[i] == b.children[i] {
      AddedStep(e.children[i], parents, id, n);
    }
    forall i | |e.children| <= i < |b.children| ensures a.children[i] == b.children[i] {
    }
  }

  /** No parent: the tree as it was. */
  lemma {:induction false} AddedNone(e: Element, n: Element)
    ensures Added(e, multiset{}, n) == e
    decreases e
  {
    forall i | 0 <= i < |e.children| ensures Added(e, multiset{}, n).children[i] == e.children[i] {
      AddedNone(e.children[i], n);
    }
  }

  /** What lies in the tree after appending: the image of something that lay in it, or the
      new element. */
  lemma {:induction false} AddedBelow(y: Element, e: Element, parents: multiset<nat>, n: Element)
    requires Below(y, Added(e, parents, n)) && n.children == []
    ensures y == n || exists x :: Below(x, e) && y == Added(x, parents, n)
    decreases e
  {
    var r := Added(e, parents, n);
    if y != r {
      var i :| 0 <= i < |r.children| && Below(y, r.children[i]);
      if i < |e.children| {
        AddedBelow(y, e.children[i], parents, n);
        if y != n {
          var x :| Below(x, e.children[i]) && y == Added(x, parents, n);
          assert Below(x, e);
        }
      } else {
        assert r.children[i] == n;
      }
    } else {
      assert Below(e, e);
    }
  }

  lemma {:induction false} BelowAdded(x: Element, e: Element, parents: multiset<nat>, n: Element)
    requires Below(x, e)
    ensures Below(Added(x, parents, n), Added(e, parents, n))
    decreases e
  {
    if x != e {
      var i :| 0 <= i < |e.children| && Below(x, e.children[i]);
      BelowAdded(x, e.children[i], parents, n);
      assert Added(e, parents, n).children[i] == Added(e.children[i], parents, n);
    }
  }

  /** The new element hangs in the tree when some parent of the tree was found. */
  lemma NewBelow(x: Element, e: Element, parents: multiset<nat>, n: Element)
    requires Below(x, e) && parents[x.id] > 0
    ensures Below(n, Added(e, parents, n))
  {
    BelowAdded(x, e, parents, n);
    var y := Added(x, parents, n);
    assert y.children[|x.children|] == n;
    assert Below(n, y.children[|x.children|]);
    BelowTrans(n, y, Added(e, parents, n));
  }

  /** Appending one new object, numbered above every identity in the tree and with no
      children, under any parents keeps one object one object; the identities stay below
      the next one. */
  lemma AddedConsistent(e: Element, parents: multiset<nat>, n: Element)
    requires Consistent(e) && IdsBelow(e, n.id) && n.children == []
    ensures Consistent(Added(e, parents, n)) && IdsBelow(Added(e, parents, n), n.id + 1)
  {
    var r := Added(e, parents, n);
    forall y1, y2 | Below(y1, r) && Below(y2, r) && y1.id == y2.id ensures y1 == y2 {
      AddedBelow(y1, e, parents, n);
      AddedBelow(y2, e, parents, n);
    }
    forall y | Below(y, r) ensures y.id < n.id + 1 {
      AddedBelow(y, e, parents, n);
    }
  }
}
