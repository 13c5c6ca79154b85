/** ElementTree elements as values. An element object can sit under several parents at
    once (the patcher appends one new element to every parent that matched), and a change
    made through one parent shows under all of them; `id` stands for that object identity.
    A change to an element is written as a rewrite of every element carrying its `id`. */
module XmlTree {
  import opened Wrappers
  import opened StrDict

  /** `ET.Element`: tag, attributes in document order, children in order. Text and tail
      are not part of the model: no modelled operation reads or writes them. */
  datatype Element = Element(id: nat, tag: string, attrib: Dict, children: seq<Element>)

  /** `elem.get(key, default)`. */
  function GetAttr(e: Element, key: string, default: string): (v: string)
    ensures Get(e.attrib, key).Some? ==> v == Get(e.attrib, key).value
    ensures Get(e.attrib, key).None? ==> v == default
  {
    var g := Get(e.attrib, key);
    if g.Some? then g.value else default
  }

  /** `x` is `e` or lies somewhere below it. */
  ghost predicate Below(x: Element, e: Element)
    decreases e
  {
    x == e || exists i :: 0 <= i < |e.children| && Below(x, e.children[i])
  }

  /** Every element under `e` that carries a given identity is the same element: one
      object seen from several parents. */
  ghost predicate Consistent(e: Element) {
    forall x, y :: Below(x, e) && Below(y, e) && x.id == y.id ==> x == y
  }

  /** Every identity under `e` is below `n`: an element numbered `n` or above is new. */
  ghost predicate IdsBelow(e: Element, n: nat) {
    forall x :: Below(x, e) ==> x.id < n
  }

  /** The identities of `e` and of everything below it. */
  ghost function Ids(e: Element): set<nat>
    decreases e, 1
  {
    {e.id} + ForestIds(e.children)
  }

  /** The identities in a sequence of elements and below them. */
  ghost function ForestIds(cs: seq<Element>): set<nat>
    decreases cs, 0
  {
    if cs == [] then {} else Ids(cs[0]) + ForestIds(cs[1..])
  }

  /** No object occurs twice under `e`: a tree as the XML parser builds it. */
  ghost predicate Unique(e: Element)
    decreases e, 1
  {
    UniqueForest(e.children) && e.id !in ForestIds(e.children)
  }

  /** Trees that share no object with each other. */
  ghost predicate UniqueForest(cs: seq<Element>)
    decreases cs, 0
  {
    cs == [] || (Unique(cs[0]) && Ids(cs[0]) !! ForestIds(cs[1..]) && UniqueForest(cs[1..]))
  }

  /** The trees of a forest are trees, pairwise apart. */
  lemma {:induction false} ForestAt(cs: seq<Element>, i: nat)
    requires i < |cs|
    ensures Ids(cs[i]) <= ForestIds(cs)
    ensures UniqueForest(cs) ==> Unique(cs[i])
    ensures UniqueForest(cs) ==> forall j :: i < j < |cs| ==> Ids(cs[i]) !! Ids(cs[j])
    decreases |cs|
  {
    if i > 0 {
      ForestAt(cs[1..], i - 1);
      assert cs[1..][i - 1] == cs[i];
      forall j | i < j < |cs| ensures cs[1..][j - 1] == cs[j] { }
    } else {
      forall j | 0 < j < |cs| ensures Ids(cs[j]) <= ForestIds(cs[1..]) {
        ForestAt(cs[1..], j - 1);
        assert cs[1..][j - 1] == cs[j];
      }
    }
  }

  /** Forests put side by side: their identities add up, and they stay apart exactly when
      each does and they share nothing. */
  lemma {:induction false} ForestConcat(a: seq<Element>, b: seq<Element>)
    ensures ForestIds(a + b) == ForestIds(a) + ForestIds(b)
    ensures UniqueForest(a + b) <==> UniqueForest(a) && UniqueForest(b) && ForestIds(a) !! ForestIds(b)
  {
    if a == [] {
      assert a + b == b;
    } else {
      assert (a + b)[0] == a[0] && (a + b)[1..] == a[1..] + b;
      ForestConcat(a[1..], b);
    }
  }

  lemma ForestOne(x: Element)
    ensures ForestIds([x]) == Ids(x)
    ensures UniqueForest([x]) <==> Unique(x)
  {
    assert [x][1..] == [];
  }

  /** What lies below `e` carries one of its identities. */
  lemma {:induction false} BelowIds(x: Element, e: Element)
    requires Below(x, e)
    ensures Ids(x) <= Ids(e)
    decreases e
  {
    if x != e {
      var i :| 0 <= i < |e.children| && Below(x, e.children[i]);
      BelowIds(x, e.children[i]);
      ForestAt(e.children, i);
    }
  }

  /** What lies below something that lies below `e` lies below `e`. */
  lemma {:induction false} BelowTrans(x: Element, y: Element, e: Element)
    requires Below(x, y) && Below(y, e)
    ensures Below(x, e)
    decreases e
  {
    if y != e {
      var i :| 0 <= i < |e.children| && Below(y, e.children[i]);
      BelowTrans(x, y, e.children[i]);
    }
  }

  /** A tree is consistent: distinct places hold distinct identities. */
  lemma UniqueConsistent(e: Element)
    requires Unique(e)
    ensures Consistent(e)
  {
    forall x, y | Below(x, e) && Below(y, e) && x.id == y.id ensures x == y {
      UniquePair(e, x, y);
    }
  }

  lemma {:induction false} UniquePair(e: Element, x: Element, y: Element)
    requires Unique(e) && Below(x, e) && Below(y, e) && x.id == y.id
    ensures x == y
    decreases e
  {
    if x == e && y != e {
      var j :| 0 <= j < |e.children| && Below(y, e.children[j]);
      BelowIds(y, e.children[j]);
      ForestAt(e.children, j);
    } else if x != e && y == e {
      var i :| 0 <= i < |e.children| && Below(x, e.children[i]);
      BelowIds(x, e.children[i]);
      ForestAt(e.children, i);
    } else if x != e && y != e {
      var i :| 0 <= i < |e.children| && Below(x, e.children[i]);
      var j :| 0 <= j < |e.children| && Below(y, e.children[j]);
      BelowIds(x, e.children[i]);
      BelowIds(y, e.children[j]);
      ForestAt(e.children, i);
      ForestAt(e.children, j);
      if i == j {
        UniquePair(e.children[i], x, y);
      } else {
        assert false;
      }
    }
  }

  /** The same document text: tags, attributes and children agree, identities aside. */
  predicate SameShape(a: Element, b: Element)
    decreases a
  {
    a.tag == b.tag && a.attrib == b.attrib && |a.children| == |b.children| &&
    forall i :: 0 <= i < |a.children| ==> SameShape(a.children[i], b.children[i])
  }

  /** Pointwise `SameShape`. */
  predicate SameShapes(a: seq<Element>, b: seq<Element>) {
    |a| == |b| && forall i :: 0 <= i < |a| ==> SameShape(a[i], b[i])
  }

  /** Number of elements in `e`, `e` included. */
  function Size(e: Element): (n: nat)
    ensures n >= 1
    decreases e, 1
  {
    1 + SizeAll(e.children)
  }

  /** Number of elements in a sequence of trees. */
  function SizeAll(cs: seq<Element>): nat
    decreases cs, 0
  {
    if cs == [] then 0 else Size(cs[0]) + SizeAll(cs[1..])
  }
}
