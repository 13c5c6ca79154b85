/** The part of ElementTree's path language (`findall`/`find`) the patch code uses: a
    sequence of selectors `.`, `*`, `tag`, `[@key]` and `[@key='value']`, separated by `/`
    or written side by side. Anything else the library would accept (`//`, `..`, index and
    text predicates, namespaces, white space) is outside the model and reads as a syntax
    error, as do paths the library itself rejects. */
module XmlPath {
  import opened Wrappers
  import opened StrDict
  import opened XmlTree
  import opened Text

  datatype Op =
    | Self                                 // `.`
    | Star                                 // `*`: every child
    | Child(tag: string)                   // `tag`: the children with that tag
    | HasAttr(key: string)                 // `[@key]`
    | AttrIs(key: string, value: string)   // `[@key='value']`

  // ---------------------------------------------------------------- parsing

  /** A character the tokenizer keeps inside a name. A `:` asks for a namespace prefix and
      braces name a namespace: the model reads both as syntax errors. */
  predicate NameChar(c: char) {
    c !in "/[]()@!=:{}" && !IsSpace(c)
  }

  /** A character a name may start with (`.`, `*` and quotes are tokens of their own). */
  predicate NameStart(c: char) {
    NameChar(c) && c !in ".*'\""
  }

  /** A tag or attribute name the parser reads back whole. */
  predicate ValidName(t: string) {
    t != [] && NameStart(t[0]) && forall i :: 0 <= i < |t| ==> NameChar(t[i])
  }

  /** Length of the run of name characters that starts `s`. */
  function NameRun(s: string): (n: nat)
    ensures n <= |s|
    ensures forall i :: 0 <= i < n ==> NameChar(s[i])
    ensures n < |s| ==> !NameChar(s[n])
    decreases |s|
  {
    if s == [] || !NameChar(s[0]) then 0 else 1 + NameRun(s[1..])
  }

  /** A name and what follows it. */
  function ParseName(s: string): (r: Result<(string, string)>)
    ensures r.Ok? ==> ValidName(r.value.0) && s == r.value.0 + r.value.1
  {
    if s == [] || !NameStart(s[0]) then Err(SyntaxErr)
    else
      var n := NameRun(s);
      assert s == s[..n] + s[n..];
      Ok((s[..n], s[n..]))
  }

  /** The predicate after `[`: `@key]` or `@key='value']`. */
  function ParsePredicate(s: string): (r: Result<(Op, string)>)
    ensures r.Ok? ==> |r.value.1| < |s|
  {
    if s == [] || s[0] != '@' then Err(SyntaxErr)
    else
      var key :- ParseName(s[1..]);
      ParseCondition(key.0, key.1)
  }

  /** What follows the key of a predicate: `]`, or `='value']` with either quote. */
  function ParseCondition(key: string, rest: string): (r: Result<(Op, string)>)
    ensures r.Ok? ==> |r.value.1| < |rest|
  {
    if rest != [] && rest[0] == ']' then Ok((HasAttr(key), rest[1..]))
    else if rest != [] && rest[0] == '=' then
      var value :- ParseQuoted(rest[1..]);
      var after := value.1;
      if after != [] && after[0] == ']' then Ok((AttrIs(key, value.0), after[1..]))
      else Err(SyntaxErr)
    else Err(SyntaxErr)
  }

  /** A quoted string: the text up to the next copy of its opening quote, and what
      follows that quote. */
  function ParseQuoted(s: string): (r: Result<(string, string)>)
    ensures r.Ok? ==> |r.value.1| < |s|
  {
    if s == [] || (s[0] != '\'' && s[0] != '"') then Err(SyntaxErr)
    else
      var j := FirstIndex(s[1..], s[0]);
      if j < 0 then Err(SyntaxErr) else Ok((s[1..1 + j], s[1 + j + 1..]))
  }

  /** One selector at the start of `s`, and what follows it. */
  function ParseSelector(s: string): (r: Result<(Op, string)>)
    requires s != []
    ensures r.Ok? ==> |r.value.1| < |s|
  {
    if |s| >= 2 && (s[..2] == "//" || s[..2] == "..") then Err(SyntaxErr)
    else if s[0] == '.' then Ok((Self, s[1..]))
    else if s[0] == '*' then Ok((Star, s[1..]))
    else if s[0] == '[' then ParsePredicate(s[1..])
    else
      var name :- ParseName(s);
      Ok((Child(name.0), name.1))
  }

  /** Selectors one after the other; one `/` between two of them is skipped. */
  function ParseOps(s: string): (r: Result<seq<Op>>)
    requires s != []
    ensures r.Ok? ==> r.value != []
    decreases |s|
  {
    var first :- ParseSelector(s);
    var rest := first.1;
    var next := SkipSlash(rest);
    if next == [] then Ok([first.0])
    else
      var more :- ParseOps(next);
      Ok([first.0] + more)
  }

  /** What follows a selector, without the one `/` that may separate it from the next
      (`//` is a selector of its own). */
  function SkipSlash(rest: string): (r: string)
    ensures |r| <= |rest|
  {
    if |rest| >= 1 && rest[0] == '/' && !(|rest| >= 2 && rest[1] == '/') then rest[1..] else rest
  }

  /** The selectors of a path: a trailing slash selects every child; an absolute or empty path is an
      error. */
  function ParsePath(path: string): (r: Result<seq<Op>>)
    ensures path == [] || path[0] == '/' ==> r == Err(SyntaxErr)
  {
    if path == [] || path[0] == '/' then Err(SyntaxErr)
    else ParseOps(if path[|path| - 1] == '/' then path + "*" else path)
  }

  // ---------------------------------------------------------------- evaluation

  /** The children of `e` with tag `t`, in order. */
  function Tagged(cs: seq<Element>, t: string): (r: seq<Element>)
    ensures forall x :: x in r <==> x in cs && x.tag == t
  {
    if cs == [] then [] else (if cs[0].tag == t then [cs[0]] else []) + Tagged(cs[1..], t)
  }

  /** What one selector yields for one element. */
  function SelectOne(op: Op, e: Element): seq<Element> {
    match op
    case Self => [e]
    case Star => e.children
    case Child(t) => Tagged(e.children, t)
    case HasAttr(k) => if Get(e.attrib, k).Some? then [e] else []
    case AttrIs(k, v) => if Get(e.attrib, k) == Some(v) then [e] else []
  }

  /** One selector over the current elements, in order, duplicates kept. */
  function Select(op: Op, cur: seq<Element>): (r: seq<Element>)
    ensures forall x :: x in r <==> exists e :: e in cur && x in SelectOne(op, e)
  {
    if cur == [] then [] else SelectOne(op, cur[0]) + Select(op, cur[1..])
  }

  /** The selectors applied one after the other. */
  function Run(ops: seq<Op>, cur: seq<Element>): seq<Element>
    decreases |ops|
  {
    if ops == [] then cur else Run(ops[1..], Select(ops[0], cur))
  }

  /** `elem.findall(path)` for parsed selectors. */
  function FindAll(root: Element, ops: seq<Op>): seq<Element> {
    Run(ops, [root])
  }

  /** `elem.findall(path)` on the text of a path: an empty path finds nothing, a path the
      model cannot read is a syntax error. */
  function FindAllPath(root: Element, path: string): (r: Result<seq<Element>>)
    ensures path == [] ==> r == Ok([])
    ensures path != [] ==> (r.Ok? <==> ParsePath(path).Ok?)
    ensures path != [] && r.Ok? ==> r.value == FindAll(root, ParsePath(path).value)
  {
    if path == [] then Ok([])
    else
      var ops :- ParsePath(path);
      Ok(FindAll(root, ops))
  }

  /** `elem.find(path)`: the first match, if any. */
  function Find(root: Element, ops: seq<Op>): (r: Option<Element>)
    ensures r.None? <==> FindAll(root, ops) == []
    ensures r.Some? ==> r.value == FindAll(root, ops)[0]
  {
    var all := FindAll(root, ops);
    if all == [] then None else Some(all[0])
  }

  /** Selectors compose: a path followed by more selectors selects from what the path
      found. */
  lemma {:induction false} RunAppend(a: seq<Op>, b: seq<Op>, cur: seq<Element>)
    ensures Run(a + b, cur) == Run(b, Run(a, cur))
    decreases |a|
  {
    if a == [] {
      assert a + b == b;
    } else {
      assert (a + b)[0] == a[0] && (a + b)[1..] == a[1..] + b;
      RunAppend(a[1..], b, Select(a[0], cur));
    }
  }

  /** What a trailing attribute predicate keeps: exactly the elements found so far whose
      attribute has that value. */
  lemma AttrIsFilters(root: Element, ops: seq<Op>, k: string, v: string, x: Element)
    ensures x in FindAll(root, ops + [AttrIs(k, v)]) <==> x in FindAll(root, ops) && Get(x.attrib, k) == Some(v)
  {
    RunAppend(ops, [AttrIs(k, v)], [root]);
  }

  /** What a trailing tag selector yields: exactly the children with that tag of the
      elements found so far. */
  lemma ChildSelects(root: Element, ops: seq<Op>, t: string, x: Element)
    ensures x in FindAll(root, ops + [Child(t)]) <==> x.tag == t && exists e :: e in FindAll(root, ops) && x in e.children
  {
    RunAppend(ops, [Child(t)], [root]);
  }

  /** `findall` only finds elements of the tree it searches. */
  lemma FoundBelow(root: Element, ops: seq<Op>)
    ensures forall x :: x in FindAll(root, ops) ==> Below(x, root)
  {
    assert Below(root, root);
    RunBelow(root, ops, [root]);
  }

  lemma {:induction false} RunBelow(root: Element, ops: seq<Op>, cur: seq<Element>)
    requires forall e :: e in cur ==> Below(e, root)
    ensures forall x :: x in Run(ops, cur) ==> Below(x, root)
    decreases |ops|
  {
    if ops != [] {
      forall x | x in Select(ops[0], cur) ensures Below(x, root) {
        var e :| e in cur && x in SelectOne(ops[0], e);
        SelectOneBelow(ops[0], e, x);
        BelowTrans(x, e, root);
      }
      RunBelow(root, ops[1..], Select(ops[0], cur));
    }
  }

  lemma SelectOneBelow(op: Op, e: Element, x: Element)
    requires x in SelectOne(op, e)
    ensures Below(x, e)
  {
    if x != e {
      assert x in e.children;
      var i :| 0 <= i < |e.children| && e.children[i] == x;
      assert Below(x, e.children[i]);
    }
  }

  // ---------------------------------------------------------------- writing paths

  /** How the patch creator writes a selector after the leading `.`. */
  function RenderOp(op: Op): string {
    match op
    case Self => "."
    case Star => "/*"
    case Child(t) => "/" + t
    case HasAttr(k) => "[@" + k + "]"
    case AttrIs(k, v) => "[@" + k + "='" + v + "']"
  }

  function Render(ops: seq<Op>): string
    decreases |ops|
  {
    if ops == [] then [] else RenderOp(ops[0]) + Render(ops[1..])
  }

  /** A selector that renders to text the parser reads back. */
  predicate StepOk(op: Op) {
    match op
    case Self => false
    case Star => true
    case Child(t) => ValidName(t)
    case HasAttr(k) => ValidName(k)
    case AttrIs(k, v) => ValidName(k) && '\'' !in v
  }

  /** A path as the patch creator builds it: `.`, then tags, stars and predicates. */
  predicate Renderable(ops: seq<Op>) {
    ops != [] && ops[0] == Self && forall i :: 1 <= i < |ops| ==> StepOk(ops[i])
  }

  /** Parsing a written path gives back its selectors. */
  lemma ParseRender(ops: seq<Op>)
    requires Renderable(ops)
    ensures ParsePath(Render(ops)) == Ok(ops)
  {
    var s := Render(ops);
    assert s == "." + Render(ops[1..]);
    RenderLast(ops[1..]);
    ParseBody(Self, ops[1..]);
    assert [Self] + ops[1..] == ops;
  }

  /** A written path never ends in `/`. */
  lemma {:induction false} RenderLast(ops: seq<Op>)
    requires forall i :: 0 <= i < |ops| ==> StepOk(ops[i])
    ensures Render(ops) != [] ==> Render(ops)[|Render(ops)| - 1] != '/'
    decreases |ops|
  {
    if ops != [] {
      RenderLast(ops[1..]);
      var r := RenderOp(ops[0]);
      assert r[|r| - 1] != '/' by {
        match ops[0]
        case Child(t) => assert r[|r| - 1] == t[|t| - 1];
        case _ =>
      }
      var t := Render(ops[1..]);
      if t != [] {
        assert (r + t)[|r + t| - 1] == t[|t| - 1];
      }
    }
  }

  /** The text of a selector without the `/` that leads it. */
  function Body(op: Op): string {
    match op
    case Star => "*"
    case Child(t) => t
    case _ => RenderOp(op)
  }

  /** The parser reads a selector's text followed by a written rest as that selector and
      goes on with the rest. */
  lemma {:induction false} ParseBody(op: Op, ops: seq<Op>)
    requires op == Self || StepOk(op)
    requires forall i :: 0 <= i < |ops| ==> StepOk(ops[i])
    ensures Body(op) + Render(ops) != []
    ensures ParseOps(Body(op) + Render(ops)) == Ok([op] + ops)
    decreases |ops|
  {
    var rest := Render(ops);
    ParseSelectorBody(op, rest);
    if ops == [] {
      assert SkipSlash(rest) == [] && [op] + ops == [op];
      assert ParseOps(Body(op) + rest) == Ok([op]);
    } else {
      RenderNext(ops);
      ParseBody(ops[0], ops[1..]);
      assert [ops[0]] + ops[1..] == ops;
      assert ParseOps(SkipSlash(rest)) == Ok(ops);
    }
  }

  /** A written rest starts with `/` or `[`, and without its leading `/` it is the text of
      its first selector followed by the rest. */
  lemma RenderNext(ops: seq<Op>)
    requires ops != [] && forall i :: 0 <= i < |ops| ==> StepOk(ops[i])
    ensures Render(ops) != [] && (Render(ops)[0] == '/' || Render(ops)[0] == '[')
    ensures SkipSlash(Render(ops)) == Body(ops[0]) + Render(ops[1..])
  {
    var tail := Render(ops[1..]);
    assert Render(ops) == RenderOp(ops[0]) + tail;
    SlashOrBracket(ops[0], tail);
  }

  lemma SlashOrBracket(op: Op, tail: string)
    requires StepOk(op)
    ensures RenderOp(op) + tail != [] && ((RenderOp(op) + tail)[0] == '/' || (RenderOp(op) + tail)[0] == '[')
    ensures SkipSlash(RenderOp(op) + tail) == Body(op) + tail
  {
    var b := Body(op);
    match op
    case Star =>
      assert RenderOp(op) + tail == "/" + (b + tail);
      SkipOne(b + tail);
    case Child(t) =>
      assert RenderOp(op) + tail == "/" + (b + tail);
      SkipOne(b + tail);
    case HasAttr(k) =>
      assert RenderOp(op) + tail == b + tail;
      assert (b + tail)[0] == b[0] == '[';
    case AttrIs(k, v) =>
      assert RenderOp(op) + tail == b + tail;
      assert (b + tail)[0] == b[0] == '[';
  }

  lemma SkipOne(t: string)
    requires t != [] && t[0] != '/'
    ensures ("/" + t)[0] == '/' && SkipSlash("/" + t) == t
  {
    assert ("/" + t)[1..] == t;
  }

  /** One selector's text, followed by text that starts with `/`, `[` or nothing. */
  lemma ParseSelectorBody(op: Op, rest: string)
    requires op == Self || StepOk(op)
    requires rest == [] || rest[0] == '/' || rest[0] == '['
    ensures Body(op) + rest != []
    ensures ParseSelector(Body(op) + rest) == Ok((op, rest))
  {
    match op
    case Self =>
      assert (Body(op) + rest)[0] == '.' && (Body(op) + rest)[1..] == rest;
    case Star =>
      assert (Body(op) + rest)[0] == '*' && (Body(op) + rest)[1..] == rest;
    case Child(t) =>
      SelectorChild(t, rest);
    case HasAttr(k) =>
      SelectorHas(k, rest);
    case AttrIs(k, v) =>
      SelectorIs(k, v, rest);
  }

  lemma SelectorChild(t: string, rest: string)
    requires ValidName(t)
    requires rest == [] || rest[0] == '/' || rest[0] == '['
    ensures t + rest != [] && ParseSelector(t + rest) == Ok((Child(t), rest))
  {
    NameRunExact(t, rest);
    assert (t + rest)[0] == t[0];
  }

  lemma SelectorHas(k: string, rest: string)
    requires ValidName(k)
    ensures Body(HasAttr(k)) + rest != [] && ParseSelector(Body(HasAttr(k)) + rest) == Ok((HasAttr(k), rest))
  {
    var p := "@" + (k + ("]" + rest));
    assert Body(HasAttr(k)) + rest == "[" + p;
    SelectorPredicate("[" + p);
    PredicateHas(p, k, rest);
  }

  lemma SelectorIs(k: string, v: string, rest: string)
    requires ValidName(k) && '\'' !in v
    ensures Body(AttrIs(k, v)) + rest != [] && ParseSelector(Body(AttrIs(k, v)) + rest) == Ok((AttrIs(k, v), rest))
  {
    var q := "=" + ("'" + (v + ("'" + ("]" + rest))));
    var p := "@" + (k + q);
    assert Body(AttrIs(k, v)) + rest == "[" + p;
    SelectorPredicate("[" + p);
    PredicateIs(p, k, q, v, rest);
  }

  lemma SelectorPredicate(s: string)
    requires s != [] && s[0] == '['
    ensures ParseSelector(s) == ParsePredicate(s[1..])
  {
    assert |s| >= 2 ==> s[..2][0] == '[';
  }

  lemma PredicateHas(p: string, k: string, rest: string)
    requires ValidName(k) && p == "@" + (k + ("]" + rest))
    ensures ParsePredicate(("[" + p)[1..]) == Ok((HasAttr(k), rest))
  {
    assert ("[" + p)[1..] == p;
    assert p[0] == '@' && p[1..] == k + ("]" + rest);
    NameRunExact(k, "]" + rest);
    assert ("]" + rest)[0] == ']' && ("]" + rest)[1..] == rest;
  }

  lemma PredicateIs(p: string, k: string, q: string, v: string, rest: string)
    requires ValidName(k) && '\'' !in v
    requires q == "=" + ("'" + (v + ("'" + ("]" + rest)))) && p == "@" + (k + q)
    ensures ParsePredicate(("[" + p)[1..]) == Ok((AttrIs(k, v), rest))
  {
    assert ("[" + p)[1..] == p;
    assert p[0] == '@' && p[1..] == k + q;
    NameRunExact(k, q);
    ConditionIs(k, v, rest);
  }

  lemma ConditionIs(k: string, v: string, rest: string)
    requires '\'' !in v
    ensures ParseCondition(k, "=" + ("'" + (v + ("'" + ("]" + rest))))) == Ok((AttrIs(k, v), rest))
  {
    var after := "]" + rest;
    var q := "'" + (v + ("'" + after));
    assert ("=" + q)[0] == '=' && ("=" + q)[1..] == q;
    QuotedExact(v, after);
    assert after[0] == ']' && after[1..] == rest;
  }

  /** A quote-free value between single quotes reads back as itself. */
  lemma QuotedExact(v: string, after: string)
    requires '\'' !in v
    ensures ParseQuoted("'" + (v + ("'" + after))) == Ok((v, after))
  {
    var s := "'" + (v + ("'" + after));
    var w := v + ("'" + after);
    assert s[0] == '\'' && s[1..] == w;
    FirstIndexExact(v, "'" + after);
    assert w[..|v|] == v && w[|v| + 1..] == after;
    assert s[1..1 + |v|] == w[..|v|];
    assert s[1 + |v| + 1..] == w[|v| + 1..];
  }

  /** The name run of a valid name followed by a non-name character is the name. */
  lemma NameRunExact(t: string, rest: string)
    requires ValidName(t)
    requires rest == [] || !NameChar(rest[0])
    ensures ParseName(t + rest) == Ok((t, rest))
  {
    var s := t + rest;
    assert NameRun(s) == |t| by {
      NameRunAt(s, |t|);
    }
    assert s[..|t|] == t && s[|t|..] == rest;
  }

  lemma {:induction false} NameRunAt(s: string, n: nat)
    requires n <= |s| && (forall i :: 0 <= i < n ==> NameChar(s[i])) && (n < |s| ==> !NameChar(s[n]))
    ensures NameRun(s) == n
    decreases n
  {
    if n > 0 {
      NameRunAt(s[1..], n - 1);
    }
  }

  /** The closing quote of a quote-free value is the one written after it. */
  lemma FirstIndexExact(v: string, rest: string)
    requires '\'' !in v && rest != [] && rest[0] == '\''
    ensures FirstIndex(v + rest, '\'') == |v|
  {
    FirstIndexAt(v + rest, '\'', |v|);
  }

  /** Absolute paths and `//` are errors here. */
  lemma Rejected()
    ensures ParsePath("/tags") == Err(SyntaxErr)
    ensures ParsePath(".//item") == Err(SyntaxErr)
  {
    assert ParseSelector("//item") == Err(SyntaxErr);
  }
}
