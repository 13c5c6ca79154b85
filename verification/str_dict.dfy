/** Python's `dict[str, str]` as the patch code uses it for element attributes and patch
    changes: keys in insertion order, one value per key. Assigning to a present key keeps
    its place; a new key goes to the end. */
module StrDict {
  import opened Wrappers

  type Dict = seq<(string, string)>

  /** No key occurs twice: what every `dict` is. */
  predicate Distinct(d: Dict) {
    forall i, j :: 0 <= i < j < |d| ==> d[i].0 != d[j].0
  }

  /** Where `key` sits in `d`, or -1. */
  function IndexOf(d: Dict, key: string): (i: int)
    ensures -1 <= i < |d|
    ensures i >= 0 ==> d[i].0 == key && forall j :: 0 <= j < i ==> d[j].0 != key
    ensures i < 0 ==> forall j :: 0 <= j < |d| ==> d[j].0 != key
  {
    if d == [] then -1
    else if d[0].0 == key then 0
    else var i := IndexOf(d[1..], key); if i < 0 then -1 else i + 1
  }

  /** `d.get(key)`. */
  function Get(d: Dict, key: string): (r: Option<string>)
    ensures r.None? <==> forall i :: 0 <= i < |d| ==> d[i].0 != key
  {
    var i := IndexOf(d, key);
    if i < 0 then None else Some(d[i].1)
  }

  /** `d[key] = value`. */
  function Set(d: Dict, key: string, value: string): (r: Dict)
    ensures Get(d, key).None? ==> r == d + [(key, value)]
    ensures Get(d, key).Some? ==> |r| == |d| && forall i :: 0 <= i < |d| ==> r[i].0 == d[i].0
  {
    var i := IndexOf(d, key);
    if i < 0 then d + [(key, value)] else d[i := (key, value)]
  }

  /** What `d[key] = value` does to lookups: `key` now gives `value`, every other key what
      it gave before, and a dict stays a dict. */
  lemma SetGet(d: Dict, key: string, value: string)
    ensures Get(Set(d, key, value), key) == Some(value)
    ensures forall k :: k != key ==> Get(Set(d, key, value), k) == Get(d, k)
    ensures Distinct(d) ==> Distinct(Set(d, key, value))
  {
    var r := Set(d, key, value);
    var i := IndexOf(d, key);
    assert IndexOf(r, key) == if i < 0 then |d| else i by {
      IndexOfAt(r, key, if i < 0 then |d| else i);
    }
    forall k | k != key ensures Get(r, k) == Get(d, k) {
      var j := IndexOf(d, k);
      if j >= 0 {
        IndexOfAt(r, k, j);
      } else {
        assert forall a :: 0 <= a < |r| ==> r[a].0 != k;
      }
    }
  }

  /** The first entry with a key is the one `IndexOf` finds. */
  lemma IndexOfAt(d: Dict, key: string, i: nat)
    requires i < |d| && d[i].0 == key && forall j :: 0 <= j < i ==> d[j].0 != key
    ensures IndexOf(d, key) == i
  {
  }

  /** `d.update(changes)`, or the loop `for k, v in changes.items(): d[k] = v`. */
  function SetAll(d: Dict, changes: Dict): (r: Dict)
    ensures Distinct(d) ==> Distinct(r)
    decreases |changes|
  {
    if changes == [] then d
    else
      SetGet(d, changes[0].0, changes[0].1);
      SetAll(Set(d, changes[0].0, changes[0].1), changes[1..])
  }

  /** After an update, a key of `changes` looks up its value there, any other key what it
      looked up before. */
  lemma {:induction false} SetAllGet(d: Dict, changes: Dict, k: string)
    requires Distinct(changes)
    ensures Get(SetAll(d, changes), k) == if Get(changes, k).Some? then Get(changes, k) else Get(d, k)
    decreases |changes|
  {
    if changes != [] {
      var d1 := Set(d, changes[0].0, changes[0].1);
      assert Distinct(changes[1..]) by { DistinctTail(changes); }
      SetAllGet(d1, changes[1..], k);
      SetGet(d, changes[0].0, changes[0].1);
      if k == changes[0].0 {
        assert Get(changes[1..], k).None?;
        IndexOfAt(changes, k, 0);
      } else if Get(changes[1..], k).Some? {
        IndexOfAt(changes, k, IndexOf(changes[1..], k) + 1);
      }
    }
  }

  /** Setting a key to the value it already has changes nothing. */
  lemma SetSame(d: Dict, key: string, value: string)
    requires Get(d, key) == Some(value)
    ensures Set(d, key, value) == d
  {
  }

  /** Updating with changes that all hold already changes nothing. */
  lemma {:induction false} SetAllSame(d: Dict, changes: Dict)
    requires forall i :: 0 <= i < |changes| ==> Get(d, changes[i].0) == Some(changes[i].1)
    ensures SetAll(d, changes) == d
    decreases |changes|
  {
    if changes != [] {
      SetSame(d, changes[0].0, changes[0].1);
      assert forall i :: 0 <= i < |changes[1..]| ==> changes[1..][i] == changes[i + 1];
      SetAllSame(d, changes[1..]);
    }
  }

  /** The same update made twice is made once: `d.update(c); d.update(c)`. */
  lemma SetAllTwice(d: Dict, changes: Dict)
    requires Distinct(changes)
    ensures SetAll(SetAll(d, changes), changes) == SetAll(d, changes)
  {
    var d1 := SetAll(d, changes);
    forall i | 0 <= i < |changes| ensures Get(d1, changes[i].0) == Some(changes[i].1) {
      SetAllGet(d, changes, changes[i].0);
      GetIndex(changes, i);
    }
    SetAllSame(d1, changes);
  }

  lemma DistinctTail(d: Dict)
    requires Distinct(d) && d != []
    ensures Distinct(d[1..])
  {
    forall a, b | 0 <= a < b < |d[1..]| ensures d[1..][a].0 != d[1..][b].0 {
      assert d[1..][a] == d[a + 1] && d[1..][b] == d[b + 1];
    }
  }

  /** `a == b` on dicts: the same keys with the same values, in any order. */
  predicate SameDict(a: Dict, b: Dict) {
    (forall i :: 0 <= i < |a| ==> Get(b, a[i].0) == Some(a[i].1)) &&
    (forall i :: 0 <= i < |b| ==> Get(a, b[i].0) == Some(b[i].1))
  }

  /** Two dicts are equal exactly when every key looks up the same in both. */
  lemma SameDictGet(a: Dict, b: Dict)
    requires Distinct(a) && Distinct(b)
    ensures SameDict(a, b) <==> forall k :: Get(a, k) == Get(b, k)
  {
    if SameDict(a, b) {
      forall k ensures Get(a, k) == Get(b, k) {
        GetAt(a, k);
        GetAt(b, k);
      }
    }
    if forall k :: Get(a, k) == Get(b, k) {
      forall i | 0 <= i < |a| ensures Get(b, a[i].0) == Some(a[i].1) {
        GetIndex(a, i);
      }
      forall i | 0 <= i < |b| ensures Get(a, b[i].0) == Some(b[i].1) {
        GetIndex(b, i);
      }
    }
  }

  /** In a dict, the entry at `i` is what its key looks up. */
  lemma {:induction false} GetIndex(d: Dict, i: nat)
    requires Distinct(d) && i < |d|
    ensures Get(d, d[i].0) == Some(d[i].1)
    decreases i
  {
    if i > 0 {
      assert d[0].0 != d[i].0;
      assert Distinct(d[1..]) by {
        forall a, b | 0 <= a < b < |d[1..]| ensures d[1..][a].0 != d[1..][b].0 {
          assert d[1..][a] == d[a + 1] && d[1..][b] == d[b + 1];
        }
      }
      GetIndex(d[1..], i - 1);
      assert d[1..][i - 1] == d[i];
    }
  }

  /** A key that looks up a value names an entry holding it. */
  lemma GetAt(d: Dict, k: string)
    requires Distinct(d)
    ensures Get(d, k).Some? ==> exists i :: 0 <= i < |d| && d[i] == (k, Get(d, k).value)
    ensures Get(d, k).None? ==> forall i :: 0 <= i < |d| ==> d[i].0 != k
  {
  }
}
