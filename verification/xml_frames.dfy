/** Frame normalisation of FFDec's XML: `split_frames` gathers the tags between two
    `ShowFrameTag` items into numbered `frame` elements so that patch paths can address a
    frame by number, and `unsplit_frames` turns the frames back into a flat tag list. */
module XmlFrames {
  import opened Wrappers
  import opened StrDict
  import opened XmlTree
  import opened Text

  const ShowFrameTag: string := "ShowFrameTag"

  /** `child.get("type") == "ShowFrameTag"`. */
  predicate IsShowFrame(e: Element) {
    Get(e.attrib, "type") == Some(ShowFrameTag)
  }

  /** What `./item[@type='ShowFrameTag']` finds: a frame delimiter. */
  predicate IsDelimiter(e: Element) {
    e.tag == "item" && IsShowFrame(e)
  }

  /** Number of delimiters among `cs`. */
  function Delimiters(cs: seq<Element>): (n: nat)
    ensures n <= |cs|
  {
    if cs == [] then 0 else (if IsDelimiter(cs[0]) then 1 else 0) + Delimiters(cs[1..])
  }

  /** `<frame frameId="k"><subTags>...</subTags></frame>`, the two new objects numbered
      `fid` and `fid + 1`. */
  function Frame(fid: nat, k: nat, tags: seq<Element>): Element {
    Element(fid, "frame", [("frameId", NatToString(k))], [Element(fid + 1, "subTags", [], tags)])
  }

  // ---------------------------------------------------------------- split_frames

  /** The variables of the loop over the children: the children kept so far (`out`), the
      tags of the open frame (`tags`), its number `k` and identity `fid`, and the next
      free identity. */
  datatype Frames = Frames(out: seq<Element>, tags: seq<Element>, k: nat, fid: nat, next: nat)

  /** `split_frames(e)`, new objects numbered from `next` on: the element, and the next
      identity still free. */
  function Split(e: Element, next: nat): (r: (Element, nat))
    ensures r.0.id == e.id && r.0.tag == e.tag && r.0.attrib == e.attrib
    ensures next + 2 <= r.1
    decreases e, 1
  {
    var st := SplitChildren(e, 0, Delimiters(e.children) > 1, Frames([], [], 1, next, next + 2));
    (Element(e.id, e.tag, e.attrib, st.out), st.next)
  }

  /** The loop over the children of `e` from the `i`-th on; `framed` says whether `e` has
      more than one delimiter. */
  function SplitChildren(e: Element, i: nat, framed: bool, st: Frames): (r: Frames)
    requires i <= |e.children|
    ensures st.next <= r.next
    decreases e, 0, |e.children| - i
  {
    if i == |e.children| then st
    else
      var c := Split(e.children[i], st.next);
      SplitChildren(e, i + 1, framed, Place(framed, c.0, st, c.1))
  }

  /** Where one split child goes: back in place when `e` is not framed; else into the
      open frame, or, for a delimiter, closing the open frame and opening the next one;
      a non-`item` child of type ShowFrameTag goes nowhere. */
  function Place(framed: bool, c: Element, st: Frames, next: nat): (r: Frames)
    requires st.next <= next
    ensures next <= r.next
  {
    if !framed then st.(out := st.out + [c], next := next)
    else if !IsShowFrame(c) then st.(tags := st.tags + [c], next := next)
    else if c.tag == "item" then Frames(st.out + [Frame(st.fid, st.k, st.tags)], [], st.k + 1, next, next + 2)
    else st.(next := next)
  }

  /** `split_frames(e)` as written: the loop over the children, each split first, with
      the open frame, its number and its `subTags`; the element's new children list
      stands for the removals and appends made on it. */
  method SplitElement(e: Element, next: nat) returns (r: Element, free: nat)
    ensures (r, free) == Split(e, next)
    decreases e
  {
    var framed := Delimiters(e.children) > 1;
    var children: seq<Element> := [];
    var subTags: seq<Element> := [];
    var currentFrame := 1;
    var frameId := next;
    free := next + 2;
    var i := 0;
    while i < |e.children|
      invariant 0 <= i <= |e.children| && next + 2 <= free
      invariant SplitChildren(e, i, framed, Frames(children, subTags, currentFrame, frameId, free))
        == SplitChildren(e, 0, framed, Frames([], [], 1, next, next + 2))
    {
      ghost var st := Frames(children, subTags, currentFrame, frameId, free);
      var child, after := SplitElement(e.children[i], free);
      ghost var placed := Place(framed, child, st, after);
      if framed {
        if !IsShowFrame(child) {
          subTags := subTags + [child];
        } else if child.tag == "item" {
          children := children + [Frame(frameId, currentFrame, subTags)];
          subTags := [];
          currentFrame := currentFrame + 1;
          frameId := after;
          after := after + 2;
        }
      } else {
        children := children + [child];
      }
      free := after;
      assert placed == Frames(children, subTags, currentFrame, frameId, free);
      i := i + 1;
    }
    r := Element(e.id, e.tag, e.attrib, children);
  }

  // ---------------------------------------------------------------- unsplit_frames

  /** `unsplit_frames(e)`: the children of `e` are unwrapped and processed; `e`'s own
      frame children are not unwrapped. */
  function Unsplit(e: Element): Element {
    Element(e.id, e.tag, e.attrib, UnsplitAll(e.children))
  }

  /** One child as the loop leaves it: its frames unwrapped, then its children processed
      in turn. */
  function UnsplitChild(c: Element): Element
    decreases Size(c), 1
  {
    UnwrapSize(c.children);
    Element(c.id, c.tag, c.attrib, UnsplitAll(Unwrapped(c.children)))
  }

  function UnsplitAll(cs: seq<Element>): (r: seq<Element>)
    ensures |r| == |cs|
    decreases SizeAll(cs), 2
  {
    if cs == [] then [] else [UnsplitChild(cs[0])] + UnsplitAll(cs[1..])
  }

  /** The children of an element after its `frame` children are unwrapped: the other
      children in place, then for each frame the children of its `subTags` and a new
      `<item type="ShowFrameTag"/>`, which takes over the frame's identity. */
  function Unwrapped(cs: seq<Element>): seq<Element> {
    NonFrames(cs) + FrameContents(cs)
  }

  function NonFrames(cs: seq<Element>): seq<Element> {
    if cs == [] then [] else (if cs[0].tag == "frame" then [] else [cs[0]]) + NonFrames(cs[1..])
  }

  function FrameContents(cs: seq<Element>): seq<Element> {
    if cs == [] then []
    else (if cs[0].tag == "frame" then Unwrap(cs[0]) else []) + FrameContents(cs[1..])
  }

  /** What one frame leaves behind: `frame.findall("./subTags/")`, then the new item. */
  function Unwrap(f: Element): seq<Element> {
    SubTagsContent(f.children) + [DelimiterItem(f.id)]
  }

  function SubTagsContent(cs: seq<Element>): seq<Element> {
    if cs == [] then [] else (if cs[0].tag == "subTags" then cs[0].children else []) + SubTagsContent(cs[1..])
  }

  /** `<item type="ShowFrameTag"/>`. */
  function DelimiterItem(id: nat): Element {
    Element(id, "item", [("type", ShowFrameTag)], [])
  }

  /** `unsplit_frames(e)` as written: for every child, its frames removed, the children
      of each frame's `subTags` and a new delimiter item appended for each, then the child
      processed in turn. `kept` stands for what the removals leave of the child's list and
      `moved` for what the appends add to it. */
  method UnsplitElement(e: Element) returns (r: Element)
    ensures r == Unsplit(e)
    decreases Size(e)
  {
    var children: seq<Element> := [];
    var i := 0;
    while i < |e.children|
      invariant 0 <= i <= |e.children| && |children| == i
      invariant forall j :: 0 <= j < i ==> children[j] == UnsplitChild(e.children[j])
    {
      var child := e.children[i];
      var kept: seq<Element> := [];
      var moved: seq<Element> := [];
      var j := 0;
      while j < |child.children|
        invariant 0 <= j <= |child.children|
        invariant kept == NonFrames(child.children[..j]) && moved == FrameContents(child.children[..j])
      {
        var frame := child.children[j];
        PartsSnoc(child.children, j);
        if frame.tag == "frame" {
          moved := moved + SubTagsContent(frame.children) + [DelimiterItem(frame.id)];
        } else {
          kept := kept + [frame];
        }
        j := j + 1;
      }
      assert child.children[..j] == child.children;
      ChildSize(e.children, i);
      UnwrapSize(child.children);
      var done := UnsplitElement(Element(child.id, child.tag, child.attrib, kept + moved));
      children := children + [done];
      i := i + 1;
    }
    UnsplitAllAt(e.children);
    r := Element(e.id, e.tag, e.attrib, children);
  }

  /** What the removals and appends leave after one more child of the list. */
  lemma PartsSnoc(cs: seq<Element>, j: nat)
    requires j < |cs|
    ensures NonFrames(cs[..j + 1]) == NonFrames(cs[..j]) + (if cs[j].tag == "frame" then [] else [cs[j]])
    ensures FrameContents(cs[..j + 1]) == FrameContents(cs[..j]) + (if cs[j].tag == "frame" then Unwrap(cs[j]) else [])
  {
    assert cs[..j + 1] == cs[..j] + [cs[j]];
    PartsConcat(cs[..j], [cs[j]]);
  }

  lemma PartsConcat(a: seq<Element>, b: seq<Element>)
    ensures NonFrames(a + b) == NonFrames(a) + NonFrames(b)
    ensures FrameContents(a + b) == FrameContents(a) + FrameContents(b)
  {
    NonFramesConcat(a, b);
    FrameContentsConcat(a, b);
  }

  lemma {:induction false} NonFramesConcat(a: seq<Element>, b: seq<Element>)
    ensures NonFrames(a + b) == NonFrames(a) + NonFrames(b)
  {
    if a == [] {
      assert a + b == b;
    } else {
      var head := if a[0].tag == "frame" then [] else [a[0]];
      assert (a + b)[0] == a[0] && (a + b)[1..] == a[1..] + b;
      assert NonFrames(a + b) == head + NonFrames(a[1..] + b);
      assert NonFrames(a) == head + NonFrames(a[1..]);
      NonFramesConcat(a[1..], b);
      assert head + (NonFrames(a[1..]) + NonFrames(b)) == (head + NonFrames(a[1..])) + NonFrames(b);
    }
  }

  lemma {:induction false} FrameContentsConcat(a: seq<Element>, b: seq<Element>)
    ensures FrameContents(a + b) == FrameContents(a) + FrameContents(b)
  {
    if a == [] {
      assert a + b == b;
    } else {
      var head := if a[0].tag == "frame" then Unwrap(a[0]) else [];
      assert (a + b)[0] == a[0] && (a + b)[1..] == a[1..] + b;
      assert FrameContents(a + b) == head + FrameContents(a[1..] + b);
      assert FrameContents(a) == head + FrameContents(a[1..]);
      FrameContentsConcat(a[1..], b);
      assert head + (FrameContents(a[1..]) + FrameContents(b)) == (head + FrameContents(a[1..])) + FrameContents(b);
    }
  }

  /** Every child is processed on its own. */
  lemma {:induction false} UnsplitAllAt(cs: seq<Element>)
    ensures forall j :: 0 <= j < |cs| ==> UnsplitAll(cs)[j] == UnsplitChild(cs[j])
    decreases |cs|
  {
    if cs != [] {
      UnsplitAllAt(cs[1..]);
      forall j | 0 < j < |cs| ensures UnsplitAll(cs)[j] == UnsplitChild(cs[j]) {
        assert cs[1..][j - 1] == cs[j];
      }
    }
  }

  /** A child is no larger than its siblings together. */
  lemma {:induction false} ChildSize(cs: seq<Element>, i: nat)
    requires i < |cs|
    ensures Size(cs[i]) <= SizeAll(cs)
    decreases |cs|
  {
    if i > 0 {
      ChildSize(cs[1..], i - 1);
      assert cs[1..][i - 1] == cs[i];
    }
  }

  // ---------------------------------------------------------------- sizes

  lemma {:induction false} UnwrapSize(cs: seq<Element>)
    ensures SizeAll(Unwrapped(cs)) < 1 + SizeAll(cs)
  {
    SizeAppend(NonFrames(cs), FrameContents(cs));
    PartsSize(cs);
  }

  lemma {:induction false} PartsSize(cs: seq<Element>)
    ensures SizeAll(NonFrames(cs)) + SizeAll(FrameContents(cs)) <= SizeAll(cs)
  {
    if cs != [] {
      PartsSize(cs[1..]);
      var a := if cs[0].tag == "frame" then [] else [cs[0]];
      var b := if cs[0].tag == "frame" then Unwrap(cs[0]) else [];
      SizeAppend(a, NonFrames(cs[1..]));
      SizeAppend(b, FrameContents(cs[1..]));
      if cs[0].tag == "frame" {
        UnwrapOneSize(cs[0]);
      } else {
        SizeOne(cs[0]);
      }
    }
  }

  lemma UnwrapOneSize(f: Element)
    ensures SizeAll(Unwrap(f)) <= Size(f)
  {
    SizeAppend(SubTagsContent(f.children), [DelimiterItem(f.id)]);
    SizeOne(DelimiterItem(f.id));
    ContentSize(f.children);
  }

  lemma {:induction false} ContentSize(cs: seq<Element>)
    ensures SizeAll(SubTagsContent(cs)) <= SizeAll(cs)
  {
    if cs != [] {
      ContentSize(cs[1..]);
      SizeAppend(if cs[0].tag == "subTags" then cs[0].children else [], SubTagsContent(cs[1..]));
    }
  }

  lemma SizeOne(e: Element)
    ensures SizeAll([e]) == Size(e)
  {
    assert [e][1..] == [];
  }

  lemma {:induction false} SizeAppend(a: seq<Element>, b: seq<Element>)
    ensures SizeAll(a + b) == SizeAll(a) + SizeAll(b)
  {
    if a == [] {
      assert a + b == b;
    } else {
      assert (a + b)[0] == a[0] && (a + b)[1..] == a[1..] + b;
      SizeAppend(a[1..], b);
    }
  }

  // ---------------------------------------------------------------- split is a normal form

  /** No element under `e` has more than one delimiter child: nothing is left to split. */
  predicate Normal(e: Element)
    decreases e
  {
    Delimiters(e.children) <= 1 && forall i :: 0 <= i < |e.children| ==> Normal(e.children[i])
  }

  /** After `split_frames` no element has more than one delimiter child. */
  lemma {:induction false} SplitNormal(e: Element, next: nat)
    ensures Normal(Split(e, next).0)
    decreases e, 1
  {
    var framed := Delimiters(e.children) > 1;
    var st := Frames([], [], 1, next, next + 2);
    SplitChildrenNormal(e, 0, framed, st);
    assert e.children[..0] == [] && e.children[..|e.children|] == e.children;
    if framed {
      NoDelimiters(SplitChildren(e, 0, framed, st).out);
    }
  }

  /** The loop keeps: kept children are normal; when framed they are frames, and the open
      frame's tags are normal and not of type ShowFrameTag; when not framed the kept
      children have as many delimiters as the children they come from. */
  ghost predicate NormalState(e: Element, i: nat, framed: bool, st: Frames)
    requires i <= |e.children|
  {
    (forall j :: 0 <= j < |st.out| ==> Normal(st.out[j])) &&
    (framed ==> (forall j :: 0 <= j < |st.out| ==> st.out[j].tag == "frame") &&
                forall j :: 0 <= j < |st.tags| ==> Normal(st.tags[j]) && !IsShowFrame(st.tags[j])) &&
    (!framed ==> Delimiters(st.out) == Delimiters(e.children[..i]))
  }

  lemma {:induction false} SplitChildrenNormal(e: Element, i: nat, framed: bool, st: Frames)
    requires i <= |e.children| && NormalState(e, i, framed, st)
    ensures NormalState(e, |e.children|, framed, SplitChildren(e, i, framed, st))
    decreases e, 0, |e.children| - i
  {
    if i < |e.children| {
      var c := Split(e.children[i], st.next);
      SplitNormal(e.children[i], st.next);
      var st' := Place(framed, c.0, st, c.1);
      PlaceNormal(e, i, framed, st, c.0, c.1);
      SplitChildrenNormal(e, i + 1, framed, st');
    } else {
      assert e.children[..i] == e.children;
    }
  }

  lemma PlaceNormal(e: Element, i: nat, framed: bool, st: Frames, c: Element, next: nat)
    requires i < |e.children| && NormalState(e, i, framed, st) && st.next <= next
    requires Normal(c) && c.tag == e.children[i].tag && c.attrib == e.children[i].attrib
    ensures NormalState(e, i + 1, framed, Place(framed, c, st, next))
  {
    if !framed {
      PlaceKeptNormal(e, i, st, c, next);
    } else if IsShowFrame(c) && c.tag == "item" {
      FrameNormal(st.fid, st.k, st.tags);
    }
  }

  lemma PlaceKeptNormal(e: Element, i: nat, st: Frames, c: Element, next: nat)
    requires i < |e.children| && NormalState(e, i, false, st) && st.next <= next
    requires Normal(c) && c.tag == e.children[i].tag && c.attrib == e.children[i].attrib
    ensures NormalState(e, i + 1, false, Place(false, c, st, next))
  {
    var out := st.out + [c];
    DelimitersAppend(st.out, c);
    DelimitersAppend(e.children[..i], e.children[i]);
    assert e.children[..i + 1] == e.children[..i] + [e.children[i]];
    assert forall j :: 0 <= j < |out| ==> Normal(out[j]);
  }

  /** A frame holding normal tags of other types is normal. */
  lemma FrameNormal(fid: nat, k: nat, tags: seq<Element>)
    requires forall j :: 0 <= j < |tags| ==> Normal(tags[j]) && !IsShowFrame(tags[j])
    ensures Normal(Frame(fid, k, tags))
  {
    NoDelimiters(tags);
    var s := Element(fid + 1, "subTags", [], tags);
    assert Normal(s);
    NoDelimiters([s]);
  }

  lemma {:induction false} NoDelimiters(cs: seq<Element>)
    requires forall j :: 0 <= j < |cs| ==> !IsDelimiter(cs[j])
    ensures Delimiters(cs) == 0
  {
    if cs != [] {
      NoDelimiters(cs[1..]);
    }
  }

  lemma DelimitersAppend(cs: seq<Element>, c: Element)
    ensures Delimiters(cs + [c]) == Delimiters(cs) + (if IsDelimiter(c) then 1 else 0)
  {
    DelimitersConcat(cs, [c]);
    assert Delimiters([c]) == (if IsDelimiter(c) then 1 else 0) by {
      assert [c][1..] == [];
    }
  }

  lemma {:induction false} DelimitersConcat(a: seq<Element>, b: seq<Element>)
    ensures Delimiters(a + b) == Delimiters(a) + Delimiters(b)
  {
    if a == [] {
      assert a + b == b;
    } else {
      assert (a + b)[0] == a[0] && (a + b)[1..] == a[1..] + b;
      DelimitersConcat(a[1..], b);
    }
  }

  /** `split_frames` leaves an element that is already split as it is. */
  lemma {:induction false} SplitFixed(e: Element, next: nat)
    requires Normal(e)
    ensures Split(e, next).0 == e
    decreases e, 1
  {
    SplitChildrenFixed(e, 0, Frames([], [], 1, next, next + 2));
    assert e.children[..0] == [];
  }

  lemma {:induction false} SplitChildrenFixed(e: Element, i: nat, st: Frames)
    requires Normal(e) && i <= |e.children| && st.out == e.children[..i]
    ensures SplitChildren(e, i, false, st).out == e.children
    decreases e, 0, |e.children| - i
  {
    if i < |e.children| {
      SplitFixed(e.children[i], st.next);
      assert e.children[..i + 1] == e.children[..i] + [e.children[i]];
      SplitChildrenFixed(e, i + 1, Place(false, e.children[i], st, Split(e.children[i], st.next).1));
    } else {
      assert e.children[..i] == e.children;
    }
  }

  /** A second `split_frames` changes nothing. */
  lemma SplitIdempotent(e: Element, next: nat, next2: nat)
    ensures Split(Split(e, next).0, next2).0 == Split(e, next).0
  {
    SplitNormal(e, next);
    SplitFixed(Split(e, next).0, next2);
  }

  // ---------------------------------------------------------------- what split_frames builds

  /** The children of each complete frame: for every delimiter, the children not of type
      ShowFrameTag since the one before (`open` holds those already seen); children after
      the last delimiter belong to no complete frame. */
  function Groups(cs: seq<Element>, open: seq<Element>): seq<seq<Element>> {
    if cs == [] then []
    else if !IsShowFrame(cs[0]) then Groups(cs[1..], open + [cs[0]])
    else if cs[0].tag == "item" then [open] + Groups(cs[1..], [])
    else Groups(cs[1..], open)
  }

  /** Each of `cs` split, new identities aside. */
  function Splits(cs: seq<Element>): (r: seq<Element>)
    ensures |r| == |cs|
  {
    seq(|cs|, j requires 0 <= j < |cs| => Split(cs[j], 0).0)
  }

  /** Frames numbered from 1 holding the split groups. */
  function FramesOf(gs: seq<seq<Element>>): (r: seq<Element>)
    ensures |r| == |gs|
  {
    seq(|gs|, j requires 0 <= j < |gs| => Frame(0, j + 1, Splits(gs[j])))
  }

  /** An element with more than one delimiter child gets one frame per delimiter, numbered
      from 1, each wrapping the children of other types since the previous delimiter, split
      in turn; children after the last delimiter and non-`item` children of type
      ShowFrameTag are gone. */
  lemma SplitFramed(e: Element, next: nat)
    requires Delimiters(e.children) > 1
    ensures SameShapes(Split(e, next).0.children, FramesOf(Groups(e.children, [])))
  {
    var st := Frames([], [], 1, next, next + 2);
    assert e.children[0..] == e.children;
    assert [] + Groups(e.children[0..], []) == Groups(e.children, []);
    SplitChildrenFramed(e, 0, st, [], []);
  }

  /** An element with at most one delimiter child keeps its children in place, each split
      in turn. */
  lemma SplitKept(e: Element, next: nat)
    requires Delimiters(e.children) <= 1
    ensures SameShapes(Split(e, next).0.children, Splits(e.children))
  {
    var st := Frames([], [], 1, next, next + 2);
    assert e.children[..0] == [];
    SplitChildrenKept(e, 0, st);
    assert e.children[..|e.children|] == e.children;
  }

  lemma {:induction false} SplitChildrenKept(e: Element, i: nat, st: Frames)
    requires i <= |e.children| && SameShapes(st.out, Splits(e.children[..i]))
    ensures SameShapes(SplitChildren(e, i, false, st).out, Splits(e.children))
    decreases |e.children| - i
  {
    if i < |e.children| {
      var c := Split(e.children[i], st.next);
      SplitIndependent(e.children[i], st.next, 0);
      assert Splits(e.children[..i + 1]) == Splits(e.children[..i]) + [Split(e.children[i], 0).0];
      SameShapesAppend(st.out, Splits(e.children[..i]), c.0, Split(e.children[i], 0).0);
      SplitChildrenKept(e, i + 1, Place(false, c.0, st, c.1));
    } else {
      assert e.children[..i] == e.children;
    }
  }

  lemma {:induction false} SplitChildrenFramed(e: Element, i: nat, st: Frames, done: seq<seq<Element>>, open: seq<Element>)
    requires i <= |e.children|
    requires SameShapes(st.out, FramesOf(done)) && SameShapes(st.tags, Splits(open)) && st.k == |done| + 1
    ensures SameShapes(SplitChildren(e, i, true, st).out, FramesOf(done + Groups(e.children[i..], open)))
    decreases |e.children| - i
  {
    var cs := e.children[i..];
    if i < |e.children| {
      var x := e.children[i];
      assert cs[0] == x && cs[1..] == e.children[i + 1..];
      var c := Split(x, st.next);
      SplitIndependent(x, st.next, 0);
      var st' := Place(true, c.0, st, c.1);
      if !IsShowFrame(x) {
        assert Splits(open + [x]) == Splits(open) + [Split(x, 0).0];
        SameShapesAppend(st.tags, Splits(open), c.0, Split(x, 0).0);
        SplitChildrenFramed(e, i + 1, st', done, open + [x]);
      } else if x.tag == "item" {
        FrameShape(st.fid, 0, st.k, st.tags, Splits(open));
        assert FramesOf(done + [open]) == FramesOf(done) + [Frame(0, st.k, Splits(open))];
        SameShapesAppend(st.out, FramesOf(done), Frame(st.fid, st.k, st.tags), Frame(0, st.k, Splits(open)));
        assert SameShapes([], Splits([]));
        SplitChildrenFramed(e, i + 1, st', done + [open], []);
        assert done + [open] + Groups(e.children[i + 1..], []) == done + Groups(cs, open);
      } else {
        SplitChildrenFramed(e, i + 1, st', done, open);
      }
    } else {
      assert done + Groups(cs, open) == done;
    }
  }

  /** Frames with the same number and tags of the same shape have the same shape. */
  lemma FrameShape(fid1: nat, fid2: nat, k: nat, tags1: seq<Element>, tags2: seq<Element>)
    requires SameShapes(tags1, tags2)
    ensures SameShape(Frame(fid1, k, tags1), Frame(fid2, k, tags2))
  {
    assert SameShape(Element(fid1 + 1, "subTags", [], tags1), Element(fid2 + 1, "subTags", [], tags2));
  }

  lemma SameShapesAppend(a: seq<Element>, b: seq<Element>, x: Element, y: Element)
    requires SameShapes(a, b) && SameShape(x, y)
    ensures SameShapes(a + [x], b + [y])
  {
    assert forall j :: 0 <= j < |a| ==> (a + [x])[j] == a[j] && (b + [y])[j] == b[j];
  }

  /** What `split_frames` builds does not depend on the identities it hands out. */
  lemma {:induction false} SplitIndependent(e: Element, n1: nat, n2: nat)
    ensures SameShape(Split(e, n1).0, Split(e, n2).0)
    decreases e, 1
  {
    var framed := Delimiters(e.children) > 1;
    SplitChildrenIndependent(e, 0, framed, Frames([], [], 1, n1, n1 + 2), Frames([], [], 1, n2, n2 + 2));
  }

  /** Two runs of the loop that agree up to identities. */
  predicate Related(st1: Frames, st2: Frames) {
    SameShapes(st1.out, st2.out) && SameShapes(st1.tags, st2.tags) && st1.k == st2.k
  }

  lemma {:induction false} SplitChildrenIndependent(e: Element, i: nat, framed: bool, st1: Frames, st2: Frames)
    requires i <= |e.children| && Related(st1, st2)
    ensures SameShapes(SplitChildren(e, i, framed, st1).out, SplitChildren(e, i, framed, st2).out)
    decreases e, 0, |e.children| - i
  {
    if i < |e.children| {
      var c1 := Split(e.children[i], st1.next);
      var c2 := Split(e.children[i], st2.next);
      SplitIndependent(e.children[i], st1.next, st2.next);
      PlaceRelated(framed, c1.0, c2.0, st1, st2, c1.1, c2.1);
      SplitChildrenIndependent(e, i + 1, framed, Place(framed, c1.0, st1, c1.1), Place(framed, c2.0, st2, c2.1));
    }
  }

  lemma PlaceRelated(framed: bool, c1: Element, c2: Element, st1: Frames, st2: Frames, n1: nat, n2: nat)
    requires Related(st1, st2) && SameShape(c1, c2) && st1.next <= n1 && st2.next <= n2
    ensures Related(Place(framed, c1, st1, n1), Place(framed, c2, st2, n2))
  {
    if !framed {
      SameShapesAppend(st1.out, st2.out, c1, c2);
    } else if !IsShowFrame(c1) {
      SameShapesAppend(st1.tags, st2.tags, c1, c2);
    } else if c1.tag == "item" {
      FrameShape(st1.fid, st2.fid, st1.k, st1.tags, st2.tags);
      SameShapesAppend(st1.out, st2.out, Frame(st1.fid, st1.k, st1.tags), Frame(st2.fid, st2.k, st2.tags));
    }
  }

  // ---------------------------------------------------------------- split keeps a tree a tree

  /** Every identity in `s` is one of `known` or new: from `lo` up to `hi`. */
  ghost predicate Within(s: set<nat>, known: set<nat>, lo: nat, hi: nat) {
    forall x :: x in s ==> x in known || lo <= x < hi
  }

  /** `split_frames` on a tree whose identities are all below `next` gives a tree, whose
      identities are the old ones and new ones from `next` up to the returned bound. */
  lemma {:induction false} SplitUnique(e: Element, next: nat)
    requires Unique(e) && forall x :: x in Ids(e) ==> x < next
    ensures Unique(Split(e, next).0)
    ensures Within(Ids(Split(e, next).0), Ids(e), next, Split(e, next).1)
    decreases e, 1
  {
    var framed := Delimiters(e.children) > 1;
    var st := Frames([], [], 1, next, next + 2);
    assert e.children[..0] == [];
    FrameIds(next, 1, []);
    SplitChildrenUnique(e, 0, framed, next, st);
    assert e.children[..|e.children|] == e.children;
    var r := SplitChildren(e, 0, framed, st);
    assert Ids(e) == {e.id} + ForestIds(e.children);
    assert Split(e, next).0 == Element(e.id, e.tag, e.attrib, r.out);
    assert Ids(Split(e, next).0) == {e.id} + ForestIds(r.out);
    assert ForestIds(r.out) <= StateIds(r);
  }

  /** The ids of the loop's variables: the kept children and the open frame. */
  ghost function StateIds(st: Frames): set<nat> {
    ForestIds(st.out) + Ids(Frame(st.fid, st.k, st.tags))
  }

  /** The loop keeps: the kept children and the open frame are trees apart from each other,
      made of the identities of the children seen so far and new ones from `n0` on. */
  ghost predicate UniqueState(e: Element, i: nat, n0: nat, st: Frames)
    requires i <= |e.children|
  {
    n0 <= st.next &&
    UniqueForest(st.out) && Unique(Frame(st.fid, st.k, st.tags)) &&
    ForestIds(st.out) !! Ids(Frame(st.fid, st.k, st.tags)) &&
    Within(StateIds(st), ForestIds(e.children[..i]), n0, st.next)
  }

  lemma {:induction false} SplitChildrenUnique(e: Element, i: nat, framed: bool, n0: nat, st: Frames)
    requires i <= |e.children| && Unique(e) && (forall x :: x in Ids(e) ==> x < n0)
    requires UniqueState(e, i, n0, st)
    ensures UniqueState(e, |e.children|, n0, SplitChildren(e, i, framed, st))
    decreases e, 0, |e.children| - i
  {
    if i < |e.children| {
      var x := e.children[i];
      ChildApart(e, i, n0);
      SplitUnique(x, st.next);
      var c := Split(x, st.next);
      Apart(Ids(c.0), StateIds(st), ForestIds(e.children[..i]), Ids(x), n0, st.next, c.1);
      PlaceUnique(framed, st, c.0, c.1, ForestIds(e.children[..i]), Ids(x), n0);
      SplitChildrenUnique(e, i + 1, framed, n0, Place(framed, c.0, st, c.1));
    }
  }

  /** The `i`-th child is a tree apart from the children before it, all below `n0`. */
  lemma ChildApart(e: Element, i: nat, n0: nat)
    requires i < |e.children| && Unique(e) && (forall x :: x in Ids(e) ==> x < n0)
    ensures Unique(e.children[i]) && Ids(e.children[i]) !! ForestIds(e.children[..i])
    ensures forall x :: x in Ids(e.children[i]) ==> x < n0
    ensures forall x :: x in ForestIds(e.children[..i]) ==> x < n0
    ensures ForestIds(e.children[..i + 1]) == ForestIds(e.children[..i]) + Ids(e.children[i])
  {
    var cs := e.children;
    assert Ids(e) == {e.id} + ForestIds(cs);
    assert cs == cs[..i] + ([cs[i]] + cs[i + 1..]);
    assert cs[..i + 1] == cs[..i] + [cs[i]];
    ForestConcat(cs[..i], [cs[i]] + cs[i + 1..]);
    ForestConcat([cs[i]], cs[i + 1..]);
    ForestConcat(cs[..i], [cs[i]]);
    ForestOne(cs[i]);
  }

  /** The identities a split child brings are not those of the loop's variables. */
  lemma Apart(a: set<nat>, b: set<nat>, known: set<nat>, child: set<nat>, n0: nat, mid: nat, hi: nat)
    requires Within(a, child, mid, hi) && Within(b, known, n0, mid) && n0 <= mid
    requires child !! known && (forall y :: y in child ==> y < n0) && forall y :: y in known ==> y < n0
    ensures a !! b
  {
    forall y | y in a ensures y !in b {
      if y in child {
        assert y < n0;
      }
    }
  }

  /** One step of the loop keeps its variables trees apart; `known` and `child` are the
      identities of the children before and of the one placed. */
  lemma PlaceUnique(framed: bool, st: Frames, c: Element, next: nat, known: set<nat>, child: set<nat>, n0: nat)
    requires n0 <= st.next <= next && (forall y :: y in known ==> y < n0)
    requires UniqueForest(st.out) && Unique(Frame(st.fid, st.k, st.tags))
    requires ForestIds(st.out) !! Ids(Frame(st.fid, st.k, st.tags))
    requires Within(StateIds(st), known, n0, st.next)
    requires Unique(c) && Ids(c) !! StateIds(st) && Within(Ids(c), child, st.next, next)
    ensures var st' := Place(framed, c, st, next);
      UniqueForest(st'.out) && Unique(Frame(st'.fid, st'.k, st'.tags)) &&
      ForestIds(st'.out) !! Ids(Frame(st'.fid, st'.k, st'.tags)) &&
      Within(StateIds(st'), known + child, n0, st'.next)
  {
    FrameIds(st.fid, st.k, st.tags);
    if !framed {
      ForestConcat(st.out, [c]);
      ForestOne(c);
    } else if !IsShowFrame(c) {
      PlaceTag(st, c, next, known, child, n0);
    } else if c.tag == "item" {
      PlaceDelimiter(st, c, next, known, child, n0);
    }
  }

  lemma PlaceTag(st: Frames, c: Element, next: nat, known: set<nat>, child: set<nat>, n0: nat)
    requires n0 <= st.next <= next
    requires UniqueForest(st.out) && Unique(Frame(st.fid, st.k, st.tags))
    requires ForestIds(st.out) !! Ids(Frame(st.fid, st.k, st.tags))
    requires Within(StateIds(st), known, n0, st.next)
    requires Unique(c) && Ids(c) !! StateIds(st) && Within(Ids(c), child, st.next, next)
    ensures var open := Frame(st.fid, st.k, st.tags + [c]);
      Unique(open) && ForestIds(st.out) !! Ids(open) &&
      Within(ForestIds(st.out) + Ids(open), known + child, n0, next)
  {
    FrameIds(st.fid, st.k, st.tags);
    ForestConcat(st.tags, [c]);
    ForestOne(c);
    FrameIds(st.fid, st.k, st.tags + [c]);
  }

  lemma PlaceDelimiter(st: Frames, c: Element, next: nat, known: set<nat>, child: set<nat>, n0: nat)
    requires n0 <= st.next <= next && (forall y :: y in known ==> y < n0)
    requires UniqueForest(st.out) && Unique(Frame(st.fid, st.k, st.tags))
    requires ForestIds(st.out) !! Ids(Frame(st.fid, st.k, st.tags))
    requires Within(StateIds(st), known, n0, st.next)
    ensures var out := st.out + [Frame(st.fid, st.k, st.tags)];
      var open := Frame(next, st.k + 1, []);
      UniqueForest(out) && Unique(open) && ForestIds(out) !! Ids(open) &&
      Within(ForestIds(out) + Ids(open), known + child, n0, next + 2)
  {
    var open := Frame(st.fid, st.k, st.tags);
    ForestConcat(st.out, [open]);
    ForestOne(open);
    FrameIds(next, st.k + 1, []);
    assert ForestIds([]) == {};
  }

  /** A frame's identities: its own, its `subTags`', and those of the tags inside. */
  lemma FrameIds(fid: nat, k: nat, tags: seq<Element>)
    ensures Ids(Frame(fid, k, tags)) == {fid, fid + 1} + ForestIds(tags)
    ensures Unique(Frame(fid, k, tags)) <==> UniqueForest(tags) && fid !in ForestIds(tags) && fid + 1 !in ForestIds(tags)
  {
    var s := Element(fid + 1, "subTags", [], tags);
    ForestOne(s);
  }

  // ---------------------------------------------------------------- what unsplit_frames undoes

  /** Each group of tags followed by a new delimiter item: the flat tag list that frames
      holding those groups stand for. */
  function Rejoin(gs: seq<seq<Element>>): seq<Element> {
    if gs == [] then [] else gs[0] + [DelimiterItem(0)] + Rejoin(gs[1..])
  }

  /** `<item type="ShowFrameTag"/>` with nothing else in it. */
  predicate BareDelimiter(c: Element) {
    c.tag == "item" && c.attrib == [("type", ShowFrameTag)] && c.children == []
  }

  /** An element with no `frame` at or below it: nothing for `unsplit_frames` to unwrap. */
  predicate FrameFree(e: Element)
    decreases e
  {
    e.tag != "frame" && forall i :: 0 <= i < |e.children| ==> FrameFree(e.children[i])
  }

  /** Tags that neither function changes: already split, and holding no frame. */
  predicate Settled(cs: seq<Element>) {
    forall i :: 0 <= i < |cs| ==> Normal(cs[i]) && FrameFree(cs[i])
  }

  /** A timeline as FFDec writes it: settled tags, every tag of type ShowFrameTag a bare
      delimiter item, and the last tag one of them. */
  predicate Timeline(cs: seq<Element>) {
    cs != [] && BareDelimiter(cs[|cs| - 1]) && Settled(cs) &&
    forall i :: 0 <= i < |cs| ==> IsShowFrame(cs[i]) ==> BareDelimiter(cs[i])
  }

  /** Shapes are an equivalence: symmetric and transitive. */
  lemma {:induction false} SameShapeSym(a: Element, b: Element)
    requires SameShape(a, b)
    ensures SameShape(b, a)
    decreases a
  {
    forall i | 0 <= i < |b.children| ensures SameShape(b.children[i], a.children[i]) {
      SameShapeSym(a.children[i], b.children[i]);
    }
  }

  lemma {:induction false} SameShapeTrans(a: Element, b: Element, c: Element)
    requires SameShape(a, b) && SameShape(b, c)
    ensures SameShape(a, c)
    decreases a
  {
    forall i | 0 <= i < |a.children| ensures SameShape(a.children[i], c.children[i]) {
      SameShapeTrans(a.children[i], b.children[i], c.children[i]);
    }
  }

  lemma SameShapesTrans(a: seq<Element>, b: seq<Element>, c: seq<Element>)
    requires SameShapes(a, b) && SameShapes(b, c)
    ensures SameShapes(a, c)
  {
    forall i | 0 <= i < |a| ensures SameShape(a[i], c[i]) {
      SameShapeTrans(a[i], b[i], c[i]);
    }
  }

  lemma SameShapesConcat(a1: seq<Element>, b1: seq<Element>, a2: seq<Element>, b2: seq<Element>)
    requires SameShapes(a1, b1) && SameShapes(a2, b2)
    ensures SameShapes(a1 + a2, b1 + b2)
  {
    forall i | 0 <= i < |a1| + |a2| ensures SameShape((a1 + a2)[i], (b1 + b2)[i]) {
      if i < |a1| {
        assert (a1 + a2)[i] == a1[i] && (b1 + b2)[i] == b1[i];
      } else {
        assert (a1 + a2)[i] == a2[i - |a1|] && (b1 + b2)[i] == b2[i - |a1|];
      }
    }
  }

  lemma {:induction false} SameShapesRefl(a: seq<Element>)
    ensures SameShapes(a, a)
  {
    forall i | 0 <= i < |a| ensures SameShape(a[i], a[i]) {
      SameShapeRefl(a[i]);
    }
  }

  lemma {:induction false} SameShapeRefl(a: Element)
    ensures SameShape(a, a)
    decreases a
  {
    forall i | 0 <= i < |a.children| ensures SameShape(a.children[i], a.children[i]) {
      SameShapeRefl(a.children[i]);
    }
  }

  /** Unwrapping frames looks only at tags and children, not at identities. */
  lemma {:induction false} UnwrappedShapes(a: seq<Element>, b: seq<Element>)
    requires SameShapes(a, b)
    ensures SameShapes(NonFrames(a), NonFrames(b))
    ensures SameShapes(FrameContents(a), FrameContents(b))
    ensures SameShapes(Unwrapped(a), Unwrapped(b))
    decreases |a|
  {
    if a != [] {
      UnwrappedShapes(a[1..], b[1..]);
      assert SameShape(a[0], b[0]);
      if a[0].tag == "frame" {
        SubTagsShapes(a[0].children, b[0].children);
        SameShapeRefl(DelimiterItem(0));
        assert SameShapes([DelimiterItem(a[0].id)], [DelimiterItem(b[0].id)]);
        SameShapesConcat(SubTagsContent(a[0].children), SubTagsContent(b[0].children),
                         [DelimiterItem(a[0].id)], [DelimiterItem(b[0].id)]);
        SameShapesConcat(Unwrap(a[0]), Unwrap(b[0]), FrameContents(a[1..]), FrameContents(b[1..]));
        assert SameShapes([], []);
        SameShapesConcat([], [], NonFrames(a[1..]), NonFrames(b[1..]));
      } else {
        assert SameShapes([a[0]], [b[0]]);
        SameShapesConcat([a[0]], [b[0]], NonFrames(a[1..]), NonFrames(b[1..]));
        SameShapesConcat([], [], FrameContents(a[1..]), FrameContents(b[1..]));
      }
    }
    SameShapesConcat(NonFrames(a), NonFrames(b), FrameContents(a), FrameContents(b));
  }

  lemma {:induction false} SubTagsShapes(a: seq<Element>, b: seq<Element>)
    requires SameShapes(a, b)
    ensures SameShapes(SubTagsContent(a), SubTagsContent(b))
    decreases |a|
  {
    if a != [] {
      SubTagsShapes(a[1..], b[1..]);
      assert SameShape(a[0], b[0]);
      var x := if a[0].tag == "subTags" then a[0].children else [];
      var y := if b[0].tag == "subTags" then b[0].children else [];
      assert SameShapes(x, y);
      SameShapesConcat(x, y, SubTagsContent(a[1..]), SubTagsContent(b[1..]));
    }
  }

  /** `unsplit_frames` looks only at tags and children, not at identities. */
  lemma {:induction false} UnsplitChildShape(a: Element, b: Element)
    requires SameShape(a, b)
    ensures SameShape(UnsplitChild(a), UnsplitChild(b))
    decreases Size(a), 1
  {
    UnwrappedShapes(a.children, b.children);
    UnwrapSize(a.children);
    UnsplitAllShapes(Unwrapped(a.children), Unwrapped(b.children));
  }

  lemma {:induction false} UnsplitAllShapes(a: seq<Element>, b: seq<Element>)
    requires SameShapes(a, b)
    ensures SameShapes(UnsplitAll(a), UnsplitAll(b))
    decreases SizeAll(a), 2
  {
    if a != [] {
      assert SameShapes(a[1..], b[1..]);
      UnsplitChildShape(a[0], b[0]);
      UnsplitAllShapes(a[1..], b[1..]);
      SameShapesConcat([UnsplitChild(a[0])], [UnsplitChild(b[0])], UnsplitAll(a[1..]), UnsplitAll(b[1..]));
    }
  }

  /** `f` is a frame whose `subTags` hold `tags`. */
  predicate Holds(f: Element, tags: seq<Element>) {
    f.tag == "frame" && f.id == 0 && f.children == [Element(1, "subTags", [], tags)]
  }

  /** Frames holding the groups `gs`: nothing else stays, and unwrapping them gives each
      group followed by a new delimiter item. */
  lemma {:induction false} FrameContentsOf(fs: seq<Element>, gs: seq<seq<Element>>)
    requires |fs| == |gs|
    requires forall j :: 0 <= j < |fs| ==> Holds(fs[j], gs[j])
    ensures NonFrames(fs) == [] && FrameContents(fs) == Rejoin(gs)
    decreases |fs|
  {
    if fs != [] {
      FrameContentsOf(fs[1..], gs[1..]);
      assert SubTagsContent(fs[0].children) == gs[0] + SubTagsContent([]);
    }
  }

  lemma SplitsSettled(cs: seq<Element>)
    requires Settled(cs)
    ensures Splits(cs) == cs
  {
    forall j | 0 <= j < |cs| ensures Splits(cs)[j] == cs[j] {
      SplitFixed(cs[j], 0);
    }
  }

  /** The groups of settled tags hold settled tags. */
  lemma {:induction false} GroupsSettled(cs: seq<Element>, open: seq<Element>)
    requires Settled(cs) && Settled(open)
    ensures forall j :: 0 <= j < |Groups(cs, open)| ==> Settled(Groups(cs, open)[j])
    decreases |cs|
  {
    if cs != [] {
      if !IsShowFrame(cs[0]) {
        GroupsSettled(cs[1..], open + [cs[0]]);
      } else if cs[0].tag == "item" {
        GroupsSettled(cs[1..], []);
      } else {
        GroupsSettled(cs[1..], open);
      }
    }
  }

  /** `unsplit_frames` leaves a tree without frames as it is. */
  lemma {:induction false} UnsplitFrameFree(c: Element)
    requires FrameFree(c)
    ensures UnsplitChild(c) == c
    decreases Size(c), 1
  {
    NoFrames(c.children);
    UnsplitAllFrameFree(c.children);
  }

  lemma {:induction false} UnsplitAllFrameFree(cs: seq<Element>)
    requires forall i :: 0 <= i < |cs| ==> FrameFree(cs[i])
    ensures UnsplitAll(cs) == cs
    decreases SizeAll(cs), 2
  {
    if cs != [] {
      UnsplitFrameFree(cs[0]);
      UnsplitAllFrameFree(cs[1..]);
    }
  }

  /** Putting the groups back together, each followed by a delimiter item, gives the
      tags they came from when every delimiter is bare and the list ends in one. */
  lemma {:induction false} GroupsRejoin(cs: seq<Element>, open: seq<Element>)
    requires cs == [] ==> open == []
    requires cs != [] ==> BareDelimiter(cs[|cs| - 1])
    requires forall i :: 0 <= i < |cs| ==> IsShowFrame(cs[i]) ==> BareDelimiter(cs[i])
    ensures SameShapes(Rejoin(Groups(cs, open)), open + cs)
    decreases |cs|
  {
    if cs == [] {
      assert open + cs == [];
    } else {
      var c, rest := cs[0], cs[1..];
      assert cs == [c] + rest;
      BareRest(cs, c, rest);
      if !IsShowFrame(c) {
        GroupsRejoin(rest, open + [c]);
        RejoinTag(cs, open, c, rest);
      } else {
        GroupsRejoin(rest, []);
        RejoinDelimiter(cs, open, c, rest);
      }
    }
  }

  /** The tail of a list of bare delimiters and tags ending in a delimiter is one too,
      unless the list was that delimiter alone. */
  lemma BareRest(cs: seq<Element>, c: Element, rest: seq<Element>)
    requires cs == [c] + rest
    requires BareDelimiter(cs[|cs| - 1])
    requires forall i :: 0 <= i < |cs| ==> IsShowFrame(cs[i]) ==> BareDelimiter(cs[i])
    ensures rest == [] ==> BareDelimiter(c)
    ensures rest != [] ==> BareDelimiter(rest[|rest| - 1])
    ensures forall i :: 0 <= i < |rest| ==> IsShowFrame(rest[i]) ==> BareDelimiter(rest[i])
    ensures IsShowFrame(c) ==> BareDelimiter(c)
  {
    assert c == cs[0];
    forall i | 0 <= i < |rest| && IsShowFrame(rest[i]) ensures BareDelimiter(rest[i]) {
      assert rest[i] == cs[i + 1];
    }
  }

  /** A tag joins the open group. */
  lemma RejoinTag(cs: seq<Element>, open: seq<Element>, c: Element, rest: seq<Element>)
    requires cs == [c] + rest && !IsShowFrame(c)
    requires SameShapes(Rejoin(Groups(rest, open + [c])), open + [c] + rest)
    ensures SameShapes(Rejoin(Groups(cs, open)), open + cs)
  {
    assert Groups(cs, open) == Groups(rest, open + [c]);
    assert open + [c] + rest == open + cs;
  }

  /** A bare delimiter closes the open group and stands for the delimiter item after it. */
  lemma RejoinDelimiter(cs: seq<Element>, open: seq<Element>, c: Element, rest: seq<Element>)
    requires cs == [c] + rest && IsShowFrame(c) && BareDelimiter(c)
    requires SameShapes(Rejoin(Groups(rest, [])), rest)
    ensures SameShapes(Rejoin(Groups(cs, open)), open + cs)
  {
    var tail := Rejoin(Groups(rest, []));
    GroupsDelimiter(cs, open, c, rest);
    RejoinCons([open] + Groups(rest, []), open, Groups(rest, []));
    DelimiterShape(c);
    JoinDelimiter(open, c, rest, tail);
    SameShapesAt(Rejoin(Groups(cs, open)), open + [DelimiterItem(0)] + tail, open + [c] + rest, open + cs);
  }

  lemma SameShapesAt(a: seq<Element>, a': seq<Element>, b: seq<Element>, b': seq<Element>)
    requires a == a' && b == b' && SameShapes(a', b)
    ensures SameShapes(a, b')
  {
  }

  lemma GroupsDelimiter(cs: seq<Element>, open: seq<Element>, c: Element, rest: seq<Element>)
    requires cs == [c] + rest && IsShowFrame(c) && c.tag == "item"
    ensures Groups(cs, open) == [open] + Groups(rest, [])
  {
    assert cs[0] == c && cs[1..] == rest;
  }

  lemma RejoinCons(gs: seq<seq<Element>>, first: seq<Element>, more: seq<seq<Element>>)
    requires gs == [first] + more
    ensures Rejoin(gs) == first + [DelimiterItem(0)] + Rejoin(more)
  {
    assert gs[0] == first && gs[1..] == more;
  }

  lemma DelimiterShape(c: Element)
    requires BareDelimiter(c)
    ensures SameShapes([DelimiterItem(0)], [c])
  {
    assert SameShape(DelimiterItem(0), c);
  }

  lemma JoinDelimiter(open: seq<Element>, c: Element, rest: seq<Element>, tail: seq<Element>)
    requires SameShapes(tail, rest) && SameShapes([DelimiterItem(0)], [c])
    ensures SameShapes(open + [DelimiterItem(0)] + tail, open + [c] + rest)
    ensures open + [c] + rest == open + ([c] + rest)
  {
    SameShapesRefl(open);
    SameShapesConcat(open, open, [DelimiterItem(0)], [c]);
    SameShapesConcat(open + [DelimiterItem(0)], open + [c], tail, rest);
  }

  /** `unsplit_frames` undoes `split_frames` one level down: a timeline that `split_frames`
      cut into frames is given back, identities aside, by unwrapping those frames. */
  lemma SplitThenUnwrap(e: Element, next: nat)
    requires Timeline(e.children)
    ensures SameShapes(Unwrapped(Split(e, next).0.children), e.children)
  {
    if Delimiters(e.children) > 1 {
      FramedUnwrap(e, next);
    } else {
      KeptUnwrap(e, next);
    }
  }

  lemma FramedUnwrap(e: Element, next: nat)
    requires Timeline(e.children) && Delimiters(e.children) > 1
    ensures SameShapes(Unwrapped(Split(e, next).0.children), e.children)
  {
    FramedUnwrapOf(e, next, e.children, Split(e, next).0.children, Groups(e.children, []));
  }

  /** The steps of FramedUnwrap over named parts: the split children have the shape of the
      frames of the groups, whose unwrapping rejoins the groups into the original children. */
  lemma FramedUnwrapOf(e: Element, next: nat, cs: seq<Element>, kids: seq<Element>, gs: seq<seq<Element>>)
    requires cs == e.children && kids == Split(e, next).0.children && gs == Groups(cs, [])
    requires Timeline(cs) && Delimiters(cs) > 1
    ensures SameShapes(Unwrapped(kids), cs)
  {
    SplitFramed(e, next);
    GroupsSettled(cs, []);
    UnwrapFramesOf(gs);
    UnwrappedShapes(kids, FramesOf(gs));
    GroupsRejoin(cs, []);
    assert [] + cs == cs;
    SameShapesTrans(Unwrapped(kids), Rejoin(gs), cs);
  }

  /** Unwrapping the frames built from groups of settled tags gives each group followed by
      a delimiter item. */
  lemma UnwrapFramesOf(gs: seq<seq<Element>>)
    requires forall j :: 0 <= j < |gs| ==> Settled(gs[j])
    ensures Unwrapped(FramesOf(gs)) == Rejoin(gs)
  {
    FramesOfHold(gs);
    UnwrapHeld(gs);
  }

  lemma FramesOfHold(gs: seq<seq<Element>>)
    requires forall j :: 0 <= j < |gs| ==> Settled(gs[j])
    ensures forall j :: 0 <= j < |FramesOf(gs)| ==> Holds(FramesOf(gs)[j], gs[j])
  {
    forall j | 0 <= j < |FramesOf(gs)| ensures Holds(FramesOf(gs)[j], gs[j]) {
      FramesOfAt(gs, j);
    }
  }

  lemma UnwrapHeld(gs: seq<seq<Element>>)
    requires forall j :: 0 <= j < |FramesOf(gs)| ==> Holds(FramesOf(gs)[j], gs[j])
    ensures Unwrapped(FramesOf(gs)) == Rejoin(gs)
  {
    FrameContentsOf(FramesOf(gs), gs);
    assert [] + Rejoin(gs) == Rejoin(gs);
  }

  lemma FramesOfAt(gs: seq<seq<Element>>, j: nat)
    requires j < |gs| && Settled(gs[j])
    ensures FramesOf(gs)[j] == Frame(0, j + 1, gs[j])
    ensures Holds(FramesOf(gs)[j], gs[j])
  {
    SplitsSettled(gs[j]);
  }

  lemma KeptUnwrap(e: Element, next: nat)
    requires Timeline(e.children) && Delimiters(e.children) <= 1
    ensures SameShapes(Unwrapped(Split(e, next).0.children), e.children)
  {
    var cs := e.children;
    var kids := Split(e, next).0.children;
    assert SameShapes(kids, cs) by {
      SplitKept(e, next);
      SplitsSettled(cs);
    }
    assert Unwrapped(cs) == cs by {
      NoFrames(cs);
    }
    UnwrappedShapes(kids, cs);
  }

  /** One level down, `unsplit_frames` gives back what `split_frames` framed: the element
      as the loop of `unsplit_frames` leaves it has the shape it had before the split. */
  lemma UnsplitChildRestores(c: Element, next: nat)
    requires Timeline(c.children)
    ensures SameShape(UnsplitChild(Split(c, next).0), c)
  {
    var s := Split(c, next).0;
    SplitThenUnwrap(c, next);
    UnsplitAllShapes(Unwrapped(s.children), c.children);
    UnsplitAllFrameFree(c.children);
  }

  /** A child of the root either holds a timeline or is settled. */
  predicate Restorable(c: Element) {
    Timeline(c.children) || (Normal(c) && FrameFree(c))
  }

  /** `unsplit_frames(split_frames(root))` is the document it started from, identities
      aside, when the root has at most one delimiter child and each of its children holds
      a timeline or is settled. */
  lemma SplitUnsplitRoundTrip(root: Element, next: nat)
    requires Delimiters(root.children) <= 1
    requires forall i :: 0 <= i < |root.children| ==> Restorable(root.children[i])
    ensures SameShape(Unsplit(Split(root, next).0), root)
  {
    var cs := root.children;
    var s := Split(root, next).0;
    SplitKept(root, next);
    UnsplitAllShapes(s.children, Splits(cs));
    UnsplitAllAt(Splits(cs));
    forall i | 0 <= i < |cs| ensures SameShape(UnsplitAll(Splits(cs))[i], cs[i]) {
      if Timeline(cs[i].children) {
        UnsplitChildRestores(cs[i], 0);
      } else {
        SplitFixed(cs[i], 0);
        UnsplitFrameFree(cs[i]);
        SameShapeRefl(cs[i]);
      }
    }
    SameShapesTrans(UnsplitAll(s.children), UnsplitAll(Splits(cs)), cs);
  }

  /** Tags none of which is a frame are left in place by the unwrapping. */
  lemma {:induction false} NoFrames(cs: seq<Element>)
    requires forall i :: 0 <= i < |cs| ==> cs[i].tag != "frame"
    ensures NonFrames(cs) == cs && FrameContents(cs) == []
    ensures Unwrapped(cs) == cs
    decreases |cs|
  {
    if cs != [] {
      NoFrames(cs[1..]);
      assert NonFrames(cs) == [cs[0]] + NonFrames(cs[1..]);
    }
  }

  // ---------------------------------------------------------------- what split_frames drops

  /** There is one complete frame per delimiter. */
  lemma {:induction false} GroupsCount(cs: seq<Element>, open: seq<Element>)
    ensures |Groups(cs, open)| == Delimiters(cs)
    decreases |cs|
  {
    if cs != [] {
      if !IsShowFrame(cs[0]) {
        GroupsCount(cs[1..], open + [cs[0]]);
      } else if cs[0].tag == "item" {
        GroupsCount(cs[1..], []);
      } else {
        GroupsCount(cs[1..], open);
      }
    }
  }

  /** The groups of children ending in a delimiter, then the groups of what follows. */
  lemma {:induction false} GroupsAppend(a: seq<Element>, b: seq<Element>, open: seq<Element>)
    requires a != [] && IsDelimiter(a[|a| - 1])
    ensures Groups(a + b, open) == Groups(a, open) + Groups(b, [])
    decreases |a|
  {
    assert (a + b)[0] == a[0] && (a + b)[1..] == a[1..] + b;
    if |a| == 1 {
      assert a[1..] == [] && a[1..] + b == b;
    } else if !IsShowFrame(a[0]) {
      GroupsAppend(a[1..], b, open + [a[0]]);
    } else if a[0].tag == "item" {
      GroupsAppend(a[1..], b, []);
    } else {
      GroupsAppend(a[1..], b, open);
    }
  }

  /** A child of type ShowFrameTag whose tag is not `item` joins no group and closes none. */
  lemma {:induction false} GroupsStray(a: seq<Element>, c: Element, b: seq<Element>, open: seq<Element>)
    requires IsShowFrame(c) && c.tag != "item"
    ensures Groups(a + [c] + b, open) == Groups(a + b, open)
    decreases |a|
  {
    if a == [] {
      assert a + [c] + b == [c] + b && ([c] + b)[1..] == b && a + b == b;
    } else {
      assert (a + [c] + b)[0] == a[0] && (a + [c] + b)[1..] == a[1..] + [c] + b;
      assert (a + b)[0] == a[0] && (a + b)[1..] == a[1..] + b;
      if !IsShowFrame(a[0]) {
        GroupsStray(a[1..], c, b, open + [a[0]]);
      } else if a[0].tag == "item" {
        GroupsStray(a[1..], c, b, []);
      } else {
        GroupsStray(a[1..], c, b, open);
      }
    }
  }

  /** Two element lists of the shape of one third list have the same shape. */
  lemma SameShapesBoth(x: seq<Element>, y: seq<Element>, f: seq<Element>)
    requires SameShapes(x, f) && SameShapes(y, f)
    ensures SameShapes(x, y)
  {
    forall i | 0 <= i < |x| ensures SameShape(x[i], y[i]) {
      SameShapeSym(y[i], f[i]);
      SameShapeTrans(x[i], f[i], y[i]);
    }
  }

  /** In a framed element the children after the last delimiter are lost: splitting it
      gives the shape splitting it without them gives. */
  lemma SplitDropsTail(e: Element, next: nat, k: nat)
    requires 0 < k <= |e.children| && IsDelimiter(e.children[k - 1]) && Delimiters(e.children) > 1
    requires forall j :: k <= j < |e.children| ==> !IsDelimiter(e.children[j])
    ensures SameShapes(Split(e, next).0.children, Split(e.(children := e.children[..k]), next).0.children)
  {
    var a := e.children[..k];
    var b := e.children[k..];
    assert a + b == e.children;
    assert Delimiters(b) == 0 by {
      NoDelimiters(b);
    }
    assert Delimiters(a) > 1 by {
      DelimitersConcat(a, b);
    }
    assert Groups(e.children, []) == Groups(a, []) by {
      GroupsAppend(a, b, []);
      GroupsCount(b, []);
    }
    SplitFramed(e, next);
    SplitFramed(e.(children := a), next);
    SameShapesBoth(Split(e, next).0.children, Split(e.(children := a), next).0.children, FramesOf(Groups(a, [])));
  }

  /** In a framed element a child of type ShowFrameTag whose tag is not `item` is lost
      without closing a frame: splitting gives the shape splitting without it gives. */
  lemma SplitDropsStray(e: Element, next: nat, k: nat)
    requires k < |e.children| && IsShowFrame(e.children[k]) && e.children[k].tag != "item"
    requires Delimiters(e.children) > 1
    ensures SameShapes(Split(e, next).0.children,
                       Split(e.(children := e.children[..k] + e.children[k + 1..]), next).0.children)
  {
    var a := e.children[..k];
    var c := e.children[k];
    var b := e.children[k + 1..];
    assert a + [c] + b == e.children;
    assert Delimiters(a + b) > 1 by {
      DelimitersConcat(a + [c], b);
      DelimitersConcat(a, [c]);
      DelimitersConcat(a, b);
      assert Delimiters([c]) == 0 by {
        NoDelimiters([c]);
      }
    }
    assert Groups(e.children, []) == Groups(a + b, []) by {
      GroupsStray(a, c, b, []);
    }
    SplitFramed(e, next);
    SplitFramed(e.(children := a + b), next);
    SameShapesBoth(Split(e, next).0.children, Split(e.(children := a + b), next).0.children, FramesOf(Groups(a + b, [])));
  }
}
