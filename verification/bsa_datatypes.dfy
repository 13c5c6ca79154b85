/** The primitive codec of the archive format: fixed-width little-endian integers,
    u8-length-prefixed strings, NUL-separated name lists, bit-flag maps and the
    TES4 file-name hash. */
module BsaDatatypes {
  import opened Wrappers
  import opened Bytes
  import opened Streams
  import opened Bits

  /** The outcome of reading from a stream: what was read, and what is still unread. */
  datatype Step<+T> = Step(result: Result<T>, rest: seq<Byte>)

  // ================================================================ Integer

  datatype IntType = UInt8 | UInt16 | UInt32 | UInt64 | Int8 | Int16 | Int32 | Int64 {
    function Size(): (n: nat)
      ensures n in {1, 2, 4, 8}
    {
      match this
      case UInt8 | Int8 => 1
      case UInt16 | Int16 => 2
      case UInt32 | Int32 => 4
      case UInt64 | Int64 => 8
    }

    predicate Signed() { Int8? || Int16? || Int32? || Int64? }
  }

  // The enumeration's aliases: members with the same (size, signed) value.
  const UShort := UInt16
  const ULong := UInt32
  const Short := Int16
  const Long := Int32

  /** The values `int.to_bytes(size, "little", signed=...)` accepts. */
  predicate InRange(v: int, t: IntType) {
    if t.Signed() then -(Pow256(t.Size()) as int / 2) <= v < Pow256(t.Size()) / 2
    else 0 <= v < Pow256(t.Size())
  }

  /** `Integer.parse` over the unread bytes `bs`: the little-endian value of the at most
      `size` bytes the read returns; a short read yields the value of what was there. */
  function IntegerValue(bs: seq<Byte>, t: IntType): (v: int)
  {
    var read := Take(bs, t.Size());
    if t.Signed() then FromLESigned(read) else FromLE(read)
  }

  /** A full read gives a value of the type's range; a short read of an unsigned type
      gives the value of the bytes that were there, and an empty read gives 0. */
  lemma IntegerValueRange(bs: seq<Byte>, t: IntType)
    ensures |bs| >= t.Size() ==> InRange(IntegerValue(bs, t), t)
    ensures !t.Signed() ==> IntegerValue(bs, t) == FromLE(Take(bs, t.Size()))
    ensures |bs| < t.Size() ==> Take(bs, t.Size()) == bs
    ensures bs == [] ==> IntegerValue(bs, t) == 0
  {
  }

  /** `Integer.dump`: exactly `size` bytes, or `OverflowError` for an out-of-range value. */
  function IntegerDump(v: int, t: IntType): (r: Result<seq<Byte>>)
    ensures r.Ok? <==> InRange(v, t)
    ensures r.Ok? ==> |r.value| == t.Size()
    ensures r.Ok? && 0 <= v ==> FromLE(r.value) == v
  {
    if !InRange(v, t) then Err(Overflow)
    else
      var u: nat := if v < 0 then v + Pow256(t.Size()) else v;
      FromToLE(u, t.Size());
      Ok(ToLE(u, t.Size()))
  }

  /** Dumping and then parsing with the same type gives the value back, whatever follows. */
  lemma IntegerRoundTrip(v: int, t: IntType, tail: seq<Byte>)
    requires InRange(v, t)
    ensures IntegerDump(v, t).Ok?
    ensures IntegerValue(IntegerDump(v, t).value + tail, t) == v
    ensures Drop(IntegerDump(v, t).value + tail, t.Size()) == tail
  {
    var bs := IntegerDump(v, t).value;
    var u: nat := if v < 0 then v + Pow256(t.Size()) else v;
    assert Take(bs + tail, t.Size()) == bs;
    FromToLE(u, t.Size());
  }

  /** A full read gives a value in range whose unsigned offset is the bytes' unsigned value. */
  lemma IntegerValueOffset(bs: seq<Byte>, t: IntType)
    requires |bs| == t.Size()
    ensures var v := IntegerValue(bs, t);
      InRange(v, t) && (if v < 0 then v + Pow256(t.Size()) else v) == FromLE(bs)
  {
    IntegerValueRange(bs, t);
    assert Take(bs, t.Size()) == bs;
    if t.Signed() { SignedOffset(bs); }
  }

  /** Parsing `size` bytes and dumping the value again reproduces those bytes. */
  lemma IntegerDumpParse(bs: seq<Byte>, t: IntType)
    requires |bs| == t.Size()
    ensures IntegerDump(IntegerValue(bs, t), t) == Ok(bs)
  {
    IntegerValueOffset(bs, t);
    calc {
      IntegerDump(IntegerValue(bs, t), t);
      Ok(ToLE(FromLE(bs), |bs|));
      { ToFromLE(bs); }
      Ok(bs);
    }
  }

  method ParseInteger(r: Reader, t: IntType) returns (v: int)
    modifies r
    ensures v == IntegerValue(old(r.Remaining()), t)
    ensures r.Remaining() == Drop(old(r.Remaining()), t.Size())
  {
    var read := r.Read(t.Size());
    if t.Signed() {
      v := FromLESigned(read);
    } else {
      v := FromLE(read);
    }
  }

  // ================================================================ Records of integers

  // The records of the archive index are runs of integer fields read and written one
  // after the other; these describe such a run by the types of its fields.

  /** Reading integer fields of the given types one after the other: their values, and
      what is left unread. (Naming `bs` in the decreases clause keeps a call on a constant
      list of types from being unrolled eagerly by the verifier.) */
  function ReadFields(bs: seq<Byte>, types: seq<IntType>): (r: (seq<int>, seq<Byte>))
    ensures |r.0| == |types|
    decreases |types|, |bs|
  {
    if types == [] then ([], bs)
    else
      var rest := ReadFields(Drop(bs, types[0].Size()), types[1..]);
      ([IntegerValue(bs, types[0])] + rest.0, rest.1)
  }

  /** Reads integer fields of the given types one after the other. */
  method ParseFields(r: Reader, types: seq<IntType>) returns (vals: seq<int>)
    modifies r
    ensures (vals, r.Remaining()) == ReadFields(old(r.Remaining()), types)
  {
    ghost var start := r.Remaining();
    vals := [];
    assert types[0..] == types;
    assert [] + ReadFields(start, types).0 == ReadFields(start, types).0;
    for i := 0 to |types|
      invariant ReadFields(start, types)
        == (vals + ReadFields(r.Remaining(), types[i..]).0, ReadFields(r.Remaining(), types[i..]).1)
    {
      ghost var before := r.Remaining();
      var v := ParseInteger(r, types[i]);
      assert types[i..][1..] == types[i + 1..];
      ghost var later := ReadFields(r.Remaining(), types[i + 1..]);
      assert ReadFields(before, types[i..]) == ([v] + later.0, later.1);
      assert vals + ([v] + later.0) == (vals + [v]) + later.0;
      vals := vals + [v];
    }
    assert types[|types|..] == [];
    assert vals + [] == vals;
  }

  /** The number of bytes a run of fields takes. */
  function FieldsSize(types: seq<IntType>): nat {
    if types == [] then 0 else types[0].Size() + FieldsSize(types[1..])
  }

  /** Dumping the fields one after the other; the first value out of its type's range
      raises. */
  function DumpFields(vals: seq<int>, types: seq<IntType>): (r: Result<seq<Byte>>)
    requires |vals| == |types|
    ensures r.Ok? <==> forall i :: 0 <= i < |vals| ==> InRange(vals[i], types[i])
    ensures r.Ok? ==> |r.value| == FieldsSize(types)
  {
    if vals == [] then Ok([])
    else
      var head := IntegerDump(vals[0], types[0]);
      var rest := DumpFields(vals[1..], types[1..]);
      assert rest.Ok? <==> forall i :: 1 <= i < |vals| ==> InRange(vals[i], types[i]) by {
        assert forall i :: 1 <= i < |vals| ==> vals[1..][i - 1] == vals[i] && types[1..][i - 1] == types[i];
      }
      if head.Err? then Err(head.error)
      else if rest.Err? then Err(rest.error)
      else Ok(head.value + rest.value)
  }

  /** Reading back dumped fields gives their values, and stops right after them. */
  lemma {:induction false} FieldsRoundTrip(vals: seq<int>, types: seq<IntType>, tail: seq<Byte>)
    requires |vals| == |types| && DumpFields(vals, types).Ok?
    ensures ReadFields(DumpFields(vals, types).value + tail, types) == (vals, tail)
    decreases |types|
  {
    if types == [] {
      assert [] + tail == tail;
    } else {
      var head := IntegerDump(vals[0], types[0]).value;
      var rest := DumpFields(vals[1..], types[1..]).value;
      assert DumpFields(vals, types).value + tail == head + (rest + tail);
      IntegerRoundTrip(vals[0], types[0], rest + tail);
      FieldsRoundTrip(vals[1..], types[1..], tail);
      assert ReadFields(head + (rest + tail), types)
        == ([vals[0]] + vals[1..], tail);
      assert [vals[0]] + vals[1..] == vals;
    }
  }

  // ================================================================ String

  /** The number of leading NULs. */
  function LeadingNuls(bs: seq<Byte>): (i: nat)
    ensures i <= |bs| && (i < |bs| ==> bs[i] != 0)
    ensures forall k :: 0 <= k < i ==> bs[k] == 0
  {
    if bs == [] || bs[0] != 0 then 0 else 1 + LeadingNuls(bs[1..])
  }

  /** The length left once trailing NULs are cut off. */
  function EndOfText(bs: seq<Byte>): (j: nat)
    ensures j <= |bs| && (j > 0 ==> bs[j - 1] != 0)
    ensures forall k :: j <= k < |bs| ==> bs[k] == 0
  {
    if bs == [] || bs[|bs| - 1] != 0 then |bs| else EndOfText(bs[..|bs| - 1])
  }

  /** `bytes.strip(b"\x00")`: the bytes with every leading and trailing NUL removed. */
  function StripNul(bs: seq<Byte>): (r: seq<Byte>)
    ensures r != [] ==> r[0] != 0 && r[|r| - 1] != 0
    ensures LeadingNuls(bs) < |bs| ==> LeadingNuls(bs) < EndOfText(bs) && r == bs[LeadingNuls(bs)..EndOfText(bs)]
    ensures LeadingNuls(bs) == |bs| ==> r == []
  {
    var i := LeadingNuls(bs);
    if i == |bs| then [] else bs[i..EndOfText(bs)]
  }

  /** Text that survives the NUL stripping of the string codec. */
  predicate NoEdgeNul(s: string) {
    s == [] || (s[0] != '\0' && s[|s| - 1] != '\0')
  }

  /** `String.parse` for BString and BZString (the two share one branch): a u8 length,
      that many bytes (fewer at end of stream), NULs stripped at both ends, decoded. */
  function ParseBStringSpec(bs: seq<Byte>): Step<string> {
    var size := IntegerValue(bs, UInt8);
    var rest := Drop(bs, 1);
    Step(Decode(StripNul(Take(rest, size))), Drop(rest, size))
  }

  method ParseBString(r: Reader) returns (s: Result<string>)
    modifies r
    ensures Step(s, r.Remaining()) == ParseBStringSpec(old(r.Remaining()))
  {
    var size := ParseInteger(r, UInt8);
    var text := r.Read(size);
    s := Decode(StripNul(text));
  }

  /** `String.dump` for BString: the u8 byte length, then the text. */
  function DumpBString(s: string): (r: Result<seq<Byte>>)
    requires IsAscii(s)
    ensures r.Ok? <==> |s| < 256
    ensures r.Ok? ==> r.value == [|s|] + Encode(s)
  {
    var text := Encode(s);
    var size :- IntegerDump(|text|, UInt8);
    assert size == [|s|] by { ToFromLE(size); }
    Ok(size + text)
  }

  /** `String.dump` for BZString: the text gets a NUL terminator, and the u8 length counts it. */
  function DumpBZString(s: string): (r: Result<seq<Byte>>)
    requires IsAscii(s)
    ensures r.Ok? <==> |s| < 255
    ensures r.Ok? ==> r.value == [|s| + 1] + Encode(s) + [0]
  {
    var text := Encode(s) + [0];
    var size :- IntegerDump(|text|, UInt8);
    assert size == [|s| + 1] by { ToFromLE(size); }
    Ok(size + text)
  }

  lemma StripNulId(bs: seq<Byte>)
    requires bs == [] || (bs[0] != 0 && bs[|bs| - 1] != 0)
    ensures StripNul(bs) == bs
  {
  }

  lemma StripNulTrailing(bs: seq<Byte>)
    requires bs == [] || (bs[0] != 0 && bs[|bs| - 1] != 0)
    ensures StripNul(bs + [0]) == bs
  {
    if bs == [] {
      assert [0][1..] == [];
    } else {
      assert (bs + [0])[..|bs|] == bs;
      assert EndOfText(bs + [0]) == |bs|;
    }
  }

  lemma EncodeEdges(s: string)
    requires IsAscii(s) && NoEdgeNul(s)
    ensures var e := Encode(s); e == [] || (e[0] != 0 && e[|e| - 1] != 0)
  {
  }

  /** BString parse inverts BString dump for ASCII text without edge NULs. */
  lemma BStringRoundTrip(s: string, tail: seq<Byte>)
    requires IsAscii(s) && NoEdgeNul(s) && |s| < 256
    ensures DumpBString(s).Ok?
    ensures ParseBStringSpec(DumpBString(s).value + tail) == Step(Ok(s), tail)
  {
    var bs := DumpBString(s).value + tail;
    assert Take(bs, 1) == [|s|];
    assert Drop(bs, 1) == Encode(s) + tail;
    assert Take(Encode(s) + tail, |s|) == Encode(s);
    EncodeEdges(s);
    StripNulId(Encode(s));
    DecodeEncode(s);
  }

  /** The same parse inverts BZString dump: the terminator counted by the length is stripped. */
  lemma BZStringRoundTrip(s: string, tail: seq<Byte>)
    requires IsAscii(s) && NoEdgeNul(s) && |s| < 255
    ensures DumpBZString(s).Ok?
    ensures ParseBStringSpec(DumpBZString(s).value + tail) == Step(Ok(s), tail)
  {
    var bs := DumpBZString(s).value + tail;
    assert Take(bs, 1) == [|s| + 1];
    assert Drop(bs, 1) == (Encode(s) + [0]) + tail;
    assert Take((Encode(s) + [0]) + tail, |s| + 1) == Encode(s) + [0];
    EncodeEdges(s);
    StripNulTrailing(Encode(s));
    DecodeEncode(s);
  }

  // ---------------------------------------------------------------- String list

  /** One pass of the inner loop of the List parser: the bytes up to the first NUL (or the
      end of the stream), and what follows that NUL. */
  function SplitName(bs: seq<Byte>): (p: (seq<Byte>, seq<Byte>))
    ensures forall k :: 0 <= k < |p.0| ==> p.0[k] != 0
    ensures |p.1| < |bs| || bs == []
    ensures p.0 + p.1 == bs || p.0 + [0] + p.1 == bs
  {
    if bs == [] then ([], [])
    else if bs[0] == 0 then ([], bs[1..])
    else
      var (name, rest) := SplitName(bs[1..]);
      ([bs[0]] + name, rest)
  }

  /** `String.parse` for List: collect non-empty names until there are `size` of them.
      Where the source keeps reading an exhausted stream forever, the result is `Hang`. */
  function ParseListSpec(bs: seq<Byte>, size: int, acc: seq<string>): (s: Step<seq<string>>)
    ensures s.result.Ok? ==> |s.result.value| >= |acc| && s.result.value[..|acc|] == acc
    ensures s.result.Ok? && |acc| < size ==> |s.result.value| == size
    decreases |bs|
  {
    if |acc| >= size then Step(Ok(acc), bs)
    else if bs == [] then Step(Err(Hang), [])
    else
      var (name, rest) := SplitName(bs);
      if name == [] then ParseListSpec(rest, size, acc)
      else match Decode(name)
        case Err(e) => Step(Err(e), rest)
        case Ok(s) =>
          var r := ParseListSpec(rest, size, acc + [s]);
          assert r.result.Ok? ==> r.result.value[..|acc|] == (acc + [s])[..|acc|];
          r
  }

  /** Bytes without NUL followed by a NUL (or by the end of the stream) form one name. */
  lemma {:induction false} SplitNameOf(name: seq<Byte>, c: seq<Byte>, rest: seq<Byte>)
    requires forall k :: 0 <= k < |name| ==> name[k] != 0
    requires c == [0] || (c == [] && rest == [])
    ensures SplitName(name + c + rest) == (name, rest)
  {
    if name == [] {
      assert [] + c + rest == c + rest;
      if c == [0] { assert (c + rest)[1..] == rest; }
    } else {
      SplitNameOf(name[1..], c, rest);
      assert (name + c + rest)[1..] == name[1..] + c + rest;
      assert [name[0]] + name[1..] == name;
    }
  }

  /** Moving one read byte from the stream onto the name keeps their concatenation. */
  lemma ShiftByte(start: seq<Byte>, name: seq<Byte>, c: seq<Byte>, next: seq<Byte>, rest: seq<Byte>)
    requires |c| <= 1 && c != [0] && c != []
    requires start == name + c + (next + rest)
    requires forall k :: 0 <= k < |name| ==> name[k] != 0
    ensures start == (name + c) + next + rest
    ensures forall k :: 0 <= k < |name + c| ==> (name + c)[k] != 0
  {
    assert c == [c[0]] && c[0] != 0;
  }

  /** `read(1)` gives at most one byte, and nothing only at the end of the stream. */
  lemma ReadOne(before: seq<Byte>, c: seq<Byte>, after: seq<Byte>)
    requires c == Take(before, 1) && after == Drop(before, 1)
    ensures |c| <= 1 && (c == [] ==> after == []) && before == c + after
  {
    TakeDrop(before, 1);
  }

  /** The inner loop of the List parser: read single bytes until a NUL or the end. */
  method ReadName(r: Reader) returns (name: seq<Byte>)
    modifies r
    ensures (name, r.Remaining()) == SplitName(old(r.Remaining()))
  {
    ghost var start := r.Remaining();
    name := [];
    var c := r.Read(1);
    ReadOne(start, c, r.Remaining());
    assert start == name + c + r.Remaining();
    while c != [0] && c != []
      invariant |c| <= 1 && (c == [] ==> r.Remaining() == [])
      invariant start == name + c + r.Remaining()
      invariant forall k :: 0 <= k < |name| ==> name[k] != 0
      decreases |r.Remaining()| + |c|
    {
      ghost var before := r.Remaining();
      var next := r.Read(1);
      ReadOne(before, next, r.Remaining());
      ShiftByte(start, name, c, next, r.Remaining());
      name := name + c;
      c := next;
    }
    SplitNameOf(name, c, r.Remaining());
  }

  method ParseList(r: Reader, size: int) returns (names: Result<seq<string>>)
    modifies r
    ensures Step(names, r.Remaining()) == ParseListSpec(old(r.Remaining()), size, [])
  {
    var strings: seq<string> := [];
    while |strings| < size
      invariant ParseListSpec(r.Remaining(), size, strings) == ParseListSpec(old(r.Remaining()), size, [])
      decreases |r.Remaining()|
    {
      if r.Remaining() == [] {
        // the source's loop would re-read the exhausted stream without end
        names := Err(Hang);
        return;
      }
      var name := ReadName(r);
      if name != [] {
        var d := Decode(name);
        if d.Err? {
          names := Err(d.error);
          return;
        }
        strings := strings + [d.value];
      }
    }
    names := Ok(strings);
  }

  /** Every name followed by its NUL terminator. */
  function Terminated(names: seq<string>): (bs: seq<Byte>)
    requires forall i :: 0 <= i < |names| ==> IsAscii(names[i])
    ensures names != [] ==> |bs| > 0 && bs[|bs| - 1] == 0
  {
    if names == [] then [] else Encode(names[0]) + [0] + Terminated(names[1..])
  }

  /** `String.dump` for List: the names joined by NUL, then one trailing NUL. */
  function DumpList(names: seq<string>): (bs: seq<Byte>)
    requires forall i :: 0 <= i < |names| ==> IsAscii(names[i])
    ensures names == [] ==> bs == [0]
    ensures names != [] ==> |bs| > 0 && bs[|bs| - 1] == 0
  {
    if names == [] then [0] else Terminated(names)
  }

  /** Total length of the names plus one terminator per name. */
  function NamesLength(names: seq<string>): nat {
    if names == [] then 0 else |names[0]| + 1 + NamesLength(names[1..])
  }

  lemma {:induction false} TerminatedLength(names: seq<string>)
    requires forall i :: 0 <= i < |names| ==> IsAscii(names[i])
    ensures |Terminated(names)| == NamesLength(names)
  {
    if names != [] {
      TerminatedLength(names[1..]);
    }
  }

  /** A dumped list is Σ(len(name) + 1) bytes long (one NUL alone for no names). */
  lemma DumpListLength(names: seq<string>)
    requires forall i :: 0 <= i < |names| ==> IsAscii(names[i])
    ensures |DumpList(names)| == if names == [] then 1 else NamesLength(names)
  {
    TerminatedLength(names);
  }

  /** Names the List codec can carry: non-empty ASCII without NUL. */
  predicate ListName(s: string) {
    s != [] && forall k :: 0 <= k < |s| ==> s[k] != '\0'
  }

  /** Bytes without NUL followed by a NUL split there. */
  lemma {:induction false} SplitTerminated(name: seq<Byte>, tail: seq<Byte>)
    requires forall k :: 0 <= k < |name| ==> name[k] != 0
    ensures SplitName(name + [0] + tail) == (name, tail)
  {
    if name == [] {
      assert name + [0] + tail == [0] + tail;
    } else {
      SplitTerminated(name[1..], tail);
      assert (name + [0] + tail)[1..] == name[1..] + [0] + tail;
      assert [name[0]] + name[1..] == name;
    }
  }

  lemma SplitEncoded(s: string, tail: seq<Byte>)
    requires IsAscii(s) && ListName(s)
    ensures SplitName(Encode(s) + [0] + tail) == (Encode(s), tail)
  {
    SplitTerminated(Encode(s), tail);
  }

  /** One name of the list: it is decoded and collected, and parsing goes on after its NUL. */
  lemma ListStep(s: string, rest: seq<Byte>, size: int, acc: seq<string>)
    requires IsAscii(s) && ListName(s) && |acc| < size
    ensures ParseListSpec(Encode(s) + [0] + rest, size, acc) == ParseListSpec(rest, size, acc + [s])
  {
    SplitEncoded(s, rest);
    DecodeEncode(s);
  }

  /** The first name and its NUL come first; the other names follow. */
  lemma TerminatedCons(names: seq<string>, tail: seq<Byte>)
    requires names != [] && forall i :: 0 <= i < |names| ==> IsAscii(names[i])
    ensures Terminated(names) + tail == Encode(names[0]) + [0] + (Terminated(names[1..]) + tail)
  {
    var first := Encode(names[0]) + [0];
    var others := Terminated(names[1..]);
    assert Terminated(names) == first + others;
    AppendAssoc(first, others, tail);
  }

  lemma ListNamesTail(names: seq<string>)
    requires names != [] && forall i :: 0 <= i < |names| ==> IsAscii(names[i]) && ListName(names[i])
    ensures forall i :: 0 <= i < |names[1..]| ==> IsAscii(names[1..][i]) && ListName(names[1..][i])
  {
    forall i | 0 <= i < |names[1..]| ensures IsAscii(names[1..][i]) && ListName(names[1..][i]) {
      assert names[1..][i] == names[i + 1];
    }
  }

  lemma {:induction false} TerminatedRoundTrip(names: seq<string>, acc: seq<string>, tail: seq<Byte>)
    requires forall i :: 0 <= i < |names| ==> IsAscii(names[i]) && ListName(names[i])
    ensures ParseListSpec(Terminated(names) + tail, |acc| + |names|, acc) == Step(Ok(acc + names), tail)
  {
    if names == [] {
      assert acc + names == acc;
    } else {
      var s := names[0];
      ListNamesTail(names);
      var rest := Terminated(names[1..]) + tail;
      calc {
        ParseListSpec(Terminated(names) + tail, |acc| + |names|, acc);
        { TerminatedCons(names, tail); }
        ParseListSpec(Encode(s) + [0] + rest, |acc| + |names|, acc);
        { ListStep(s, rest, |acc| + |names|, acc); }
        ParseListSpec(rest, |acc + [s]| + |names[1..]|, acc + [s]);
        { TerminatedRoundTrip(names[1..], acc + [s], tail); }
        Step(Ok((acc + [s]) + names[1..]), tail);
        { assert (acc + [s]) + names[1..] == acc + names; }
        Step(Ok(acc + names), tail);
      }
    }
  }

  /** Parsing `|names|` names from a dumped list gives the names back. The lone NUL that
      stands for an empty list is left unread, since nothing is read for size 0. */
  lemma ListRoundTrip(names: seq<string>, tail: seq<Byte>)
    requires forall i :: 0 <= i < |names| ==> IsAscii(names[i]) && ListName(names[i])
    ensures ParseListSpec(DumpList(names) + tail, |names|, [])
         == Step(Ok(names), if names == [] then [0] + tail else tail)
  {
    TerminatedRoundTrip(names, [], tail);
    assert [] + names == names;
  }

  /** Empty names in the stream (consecutive NULs) are skipped, not counted. */
  lemma ListSkipsEmpty(bs: seq<Byte>, size: int, acc: seq<string>)
    requires |acc| < size
    ensures ParseListSpec([0] + bs, size, acc) == ParseListSpec(bs, size, acc)
  {
    assert ([0] + bs)[1..] == bs;
  }

  // ================================================================ Flags

  // A flag class is given by its number of members `n`: both flag classes of the format
  // define the bits 1, 2, 4, ..., 2^(n-1), in that order.

  /** The member values of a flag class of `n` members. */
  function Members(n: nat): (ms: set<nat>)
    ensures forall k :: 0 <= k < n ==> Pow2(k) in ms
  {
    if n == 0 then {} else Members(n - 1) + {Pow2(n - 1)}
  }

  /** `Flags.parse` once the integer is read: each member maps to whether its bit is set. */
  function FlagsOf(v: int, n: nat): map<nat, bool> {
    if n == 0 then map[] else FlagsOf(v, n - 1)[Pow2(n - 1) := IsSet(v, n - 1)]
  }

  /** The parsed map names exactly the members, each mapped to its bit of `v`. */
  lemma {:induction false} FlagsOfBits(v: int, n: nat)
    ensures FlagsOf(v, n).Keys == Members(n)
    ensures forall k :: 0 <= k < n ==> FlagsOf(v, n)[Pow2(k)] == IsSet(v, k)
  {
    if n > 0 {
      FlagsOfBits(v, n - 1);
      forall k | 0 <= k < n ensures FlagsOf(v, n)[Pow2(k)] == IsSet(v, k) {
        if k < n - 1 { Pow2Increasing(k, n - 1); }
      }
    }
  }

  /** `flags.get(flag, False)`. */
  function Get(flags: map<nat, bool>, f: nat): bool {
    if f in flags then flags[f] else false
  }

  /** The value `Flags.dump` computes: the members mapped to true, or-ed together. */
  function FlagsValue(flags: map<nat, bool>, n: nat): nat {
    if n == 0 then 0
    else
      var value := FlagsValue(flags, n - 1);
      if Get(flags, Pow2(n - 1)) then Or(value, Pow2(n - 1)) else value
  }

  method ParseFlags(r: Reader, n: nat, t: IntType) returns (flags: map<nat, bool>)
    modifies r
    ensures flags == FlagsOf(IntegerValue(old(r.Remaining()), t), n)
    ensures r.Remaining() == Drop(old(r.Remaining()), t.Size())
  {
    var value := ParseInteger(r, t);
    flags := map[];
    for k := 0 to n
      invariant flags == FlagsOf(value, k)
    {
      flags := flags[Pow2(k) := IsSet(value, k)];
    }
  }

  method DumpFlags(flags: map<nat, bool>, n: nat, t: IntType) returns (r: Result<seq<Byte>>)
    ensures r == IntegerDump(FlagsValue(flags, n), t)
  {
    var value := 0;
    for k := 0 to n
      invariant value == FlagsValue(flags, k)
    {
      if Get(flags, Pow2(k)) {
        value := Or(value, Pow2(k));
      }
    }
    r := IntegerDump(value, t);
  }

  /** A dumped flag value has exactly the bits of the members mapped to true. */
  lemma {:induction false} FlagsValueBits(flags: map<nat, bool>, n: nat, k: nat)
    ensures IsSet(FlagsValue(flags, n), k) == (k < n && Get(flags, Pow2(k)))
  {
    if n == 0 {
      ZeroBits(k);
    } else {
      FlagsValueBits(flags, n - 1, k);
      if Get(flags, Pow2(n - 1)) {
        OrBit(FlagsValue(flags, n - 1), Pow2(n - 1), k);
        Pow2Bit(n - 1, k);
      }
    }
  }

  lemma {:induction false} FlagsValueBound(flags: map<nat, bool>, n: nat)
    ensures FlagsValue(flags, n) < Pow2(n)
  {
    if n > 0 {
      FlagsValueBound(flags, n - 1);
      if Get(flags, Pow2(n - 1)) {
        OrHighBit(FlagsValue(flags, n - 1), n - 1);
      }
    }
  }

  lemma {:induction false} DumpParseFlagsPrefix(v: int, n: nat, m: nat)
    requires m <= n
    ensures FlagsValue(FlagsOf(v, n), m) == v % Pow2(m)
  {
    if m > 0 {
      DumpParseFlagsPrefix(v, n, m - 1);
      FlagsOfBits(v, n);
      assert Get(FlagsOf(v, n), Pow2(m - 1)) == IsSet(v, m - 1);
      ModStep(v, m - 1);
      if IsSet(v, m - 1) {
        OrHighBit(v % Pow2(m - 1), m - 1);
      }
    }
  }

  /** dump(parse(v)) is v masked to the bits the flag class defines. */
  lemma DumpParseFlags(v: int, n: nat)
    ensures FlagsValue(FlagsOf(v, n), n) == v % Pow2(n)
  {
    DumpParseFlagsPrefix(v, n, n);
  }

  /** parse(dump(flags)) gives every member the value the map gave it; a missing key is false. */
  lemma ParseDumpFlags(flags: map<nat, bool>, n: nat)
    ensures forall k :: 0 <= k < n ==> Get(FlagsOf(FlagsValue(flags, n), n), Pow2(k)) == Get(flags, Pow2(k))
  {
    FlagsOfBits(FlagsValue(flags, n), n);
    forall k | 0 <= k < n ensures IsSet(FlagsValue(flags, n), k) == Get(flags, Pow2(k)) {
      FlagsValueBits(flags, n, k);
    }
  }

  /** Every member value is one of the bits 2^0 .. 2^(n-1). */
  lemma {:induction false} MemberIndex(f: nat, n: nat) returns (k: nat)
    requires f in Members(n)
    ensures k < n && f == Pow2(k)
  {
    if f == Pow2(n - 1) {
      k := n - 1;
    } else {
      k := MemberIndex(f, n - 1);
    }
  }

  /** A map that holds exactly the members of the class comes back unchanged from
      parse(dump(flags)). */
  lemma FlagsRoundTrip(flags: map<nat, bool>, n: nat)
    requires flags.Keys == Members(n)
    ensures FlagsOf(FlagsValue(flags, n), n) == flags
  {
    var back := FlagsOf(FlagsValue(flags, n), n);
    FlagsOfBits(FlagsValue(flags, n), n);
    ParseDumpFlags(flags, n);
    forall f | f in flags.Keys ensures back[f] == flags[f] {
      var k := MemberIndex(f, n);
    }
  }

  // ================================================================ Hash

  /** `Hash.parse`: an unsigned 64-bit integer. */
  function HashValue(bs: seq<Byte>): (h: nat)
    ensures h < Pow256(8)
  {
    IntegerValue(bs, UInt64)
  }

  /** `Hash.dump`: the 8 little-endian bytes of the hash. */
  function DumpHash(h: int): (r: Result<seq<Byte>>)
    ensures r.Ok? <==> 0 <= h < Pow256(8)
    ensures r.Ok? ==> |r.value| == 8 && HashValue(r.value) == h
  {
    var r := IntegerDump(h, UInt64);
    if r.Ok? then
      IntegerRoundTrip(h, UInt64, []);
      assert r.value + [] == r.value;
      r
    else r
  }

  /** Index of the last occurrence of `c` in `s`, or -1 (Python's `str.rfind`). */
  function RFind(s: string, c: char): (i: int)
    ensures -1 <= i < |s|
    ensures i >= 0 ==> s[i] == c
    ensures forall k :: i < k < |s| ==> s[k] != c
  {
    if s == [] then -1
    else if s[|s| - 1] == c then |s| - 1
    else RFind(s[..|s| - 1], c)
  }

  /** `os.path.splitext` with Windows separators (`\` and `/`): the extension runs from the
      last dot of the final path component, unless that component is only dots up to it. */
  function SplitExt(p: string): (r: (string, string))
    ensures r.0 + r.1 == p
    ensures r.1 == [] || (r.1[0] == '.' && forall k :: 0 <= k < |r.1| ==> r.1[k] != '/' && r.1[k] != '\\')
    ensures r.1 != [] ==> forall k :: 1 <= k < |r.1| ==> r.1[k] != '.'
  {
    var sep := if RFind(p, '\\') > RFind(p, '/') then RFind(p, '\\') else RFind(p, '/');
    var dot := RFind(p, '.');
    if dot > sep && exists k :: sep + 1 <= k < dot && p[k] != '.' then
      (p[..dot], p[dot..])
    else (p, [])
  }

  /** The extension marker ORed into the low word. */
  function ExtMarker(ext: string): (m: nat)
    ensures m < 0x1_0000_0000
  {
    if ext == ".kf" then 0x80
    else if ext == ".nif" then 0x8000
    else if ext == ".dds" then 0x8080
    else if ext == ".wav" then 0x8000_0000
    else 0
  }

  /** The rolling hash with multiplier 0x1003F, unbounded as Python computes it. */
  function Rolling(s: string): nat {
    if s == [] then 0 else Rolling(s[..|s| - 1]) * 0x1003F + s[|s| - 1] as int
  }

  /** The four fingerprint values of the stem: last char, second-to-last char (only for
      stems of three or more), length, first char. */
  function Fingerprint(name: string): seq<int> {
    [ if |name| > 0 then name[|name| - 1] as int else 0,
      if |name| >= 3 then name[|name| - 2] as int else 0,
      |name|,
      if |name| > 0 then name[0] as int else 0 ]
  }

  /** `bytes(values)`: ValueError unless every value is a byte. */
  function ToBytes(values: seq<int>): (r: Result<seq<Byte>>)
    ensures r.Ok? <==> forall i :: 0 <= i < |values| ==> 0 <= values[i] < 256
    ensures r.Ok? ==> r.value == values
  {
    if forall i :: 0 <= i < |values| ==> 0 <= values[i] < 256 then
      Ok(seq(|values|, i requires 0 <= i < |values| => values[i] as Byte))
    else Err(ValueErr)
  }

  lemma WordSizes()
    ensures Pow256(4) == 0x1_0000_0000 == Pow2(32)
    ensures Pow256(8) == 0x1_0000_0000 * 0x1_0000_0000
  {
    assert Pow2(8) == 256;
    assert Pow2(16) == 0x1_0000;
    assert Pow2(24) == 0x100_0000;
  }

  /** The low word: the fingerprint bytes as a little-endian u32, or-ed with the marker. */
  function LowWord(fingerprint: seq<Byte>, ext: string): (h: nat)
    requires |fingerprint| == 4
    ensures h < 0x1_0000_0000
  {
    WordSizes();
    OrBound(FromLE(fingerprint), ExtMarker(ext), 32);
    Or(FromLE(fingerprint), ExtMarker(ext))
  }

  /** The high word before truncation: the rolling hash of the stem without its first and
      last two characters (`range(1, len(name) - 2)`), plus that of the extension. */
  function HighSum(name: string, ext: string): nat {
    (if |name| >= 3 then Rolling(name[1..|name| - 2]) else 0) + Rolling(ext)
  }

  /** The hash of a lowercased name already split into stem and extension. */
  function StemHash(name: string, ext: string): (r: Result<nat>)
    ensures r.Ok? ==> r.value < Pow256(8)
  {
    var fingerprint :- ToBytes(Fingerprint(name));
    WordSizes();
    Ok((HighSum(name, ext) % 0x1_0000_0000) * 0x1_0000_0000 + LowWord(fingerprint, ext))
  }

  /** `Hash.calc_hash`: TES4's 64-bit hash of a file or folder name. */
  function HashOf(filename: string): (r: Result<nat>)
    ensures r.Ok? ==> r.value < Pow256(8)
  {
    var (name, ext) := SplitExt(Lower(filename));
    StemHash(name, ext)
  }

  /** One accumulator loop of `calc_hash`: `h = h * 0x1003F + ord(s[i])` for i in [lo, hi). */
  method RollingLoop(s: string, lo: nat, hi: nat) returns (h: nat)
    requires lo <= hi <= |s|
    ensures h == Rolling(s[lo..hi])
  {
    h := 0;
    for i := lo to hi
      invariant h == Rolling(s[lo..i])
    {
      assert s[lo..i + 1][..i - lo] == s[lo..i];
      h := h * 0x1003F + s[i] as int;
    }
  }

  method CalcHash(filename: string) returns (r: Result<nat>)
    ensures r == HashOf(filename)
  {
    var (name, ext) := SplitExt(Lower(filename));
    r := CalcStemHash(name, ext);
  }

  /** The body of `calc_hash` after the name is lowercased and split. */
  method CalcStemHash(name: string, ext: string) returns (r: Result<nat>)
    ensures r == StemHash(name, ext)
  {
    var fingerprint := ToBytes(Fingerprint(name));
    if fingerprint.Err? {
      return Err(fingerprint.error);
    }
    var hash1 := FromLE(fingerprint.value);
    hash1 := Or(hash1, ExtMarker(ext));
    assert hash1 == LowWord(fingerprint.value, ext);
    var hash2 := 0;
    if |name| >= 3 {
      hash2 := RollingLoop(name, 1, |name| - 2);
    }
    var hash3 := RollingLoop(ext, 0, |ext|);
    assert ext[0..|ext|] == ext;
    assert hash2 + hash3 == HighSum(name, ext);
    r := Ok(((hash2 + hash3) % 0x1_0000_0000) * 0x1_0000_0000 + hash1);
    assert r == StemHash(name, ext);
  }

  lemma StemHashWords(name: string, ext: string)
    requires StemHash(name, ext).Ok?
    ensures var fp := ToBytes(Fingerprint(name)).value;
            && StemHash(name, ext).value % 0x1_0000_0000 == LowWord(fp, ext)
            && StemHash(name, ext).value / 0x1_0000_0000 == HighSum(name, ext) % 0x1_0000_0000
  {
    var fp := ToBytes(Fingerprint(name)).value;
    DivModUnique(StemHash(name, ext).value, 0x1_0000_0000, HighSum(name, ext) % 0x1_0000_0000, LowWord(fp, ext));
  }

  /** The low 32 bits: the little-endian fingerprint of the stem or-ed with the extension marker. */
  lemma HashLowWord(filename: string)
    requires HashOf(filename).Ok?
    ensures var (name, ext) := SplitExt(Lower(filename));
            HashOf(filename).value % 0x1_0000_0000
              == Or(FromLE(ToBytes(Fingerprint(name)).value), ExtMarker(ext))
  {
    var (name, ext) := SplitExt(Lower(filename));
    assert HashOf(filename) == StemHash(name, ext);
    StemHashWords(name, ext);
  }

  /** The high 32 bits: the rolling hashes of the stem's inner characters and of the
      extension (with its dot), summed and truncated to 32 bits. */
  lemma HashHighWord(filename: string)
    requires HashOf(filename).Ok?
    ensures var (name, ext) := SplitExt(Lower(filename));
            HashOf(filename).value / 0x1_0000_0000 == HighSum(name, ext) % 0x1_0000_0000
  {
    var (name, ext) := SplitExt(Lower(filename));
    assert HashOf(filename) == StemHash(name, ext);
    StemHashWords(name, ext);
  }

  /** The hash does not depend on letter case. */
  lemma HashCaseInsensitive(filename: string)
    ensures HashOf(Lower(filename)) == HashOf(filename)
  {
    LowerIdempotent(filename);
  }

  lemma SplitExtExample()
    ensures SplitExt(Lower("bob.dds")) == ("bob", ".dds")
  {
    var f := "bob.dds";
    assert Lower(f) == f;
    assert f[0] == 'b' && f[1] == 'o' && f[2] == 'b' && f[3] == '.';
    assert f[4] == 'd' && f[5] == 'd' && f[6] == 's';
    assert RFind(f, '.') == 3;
    assert RFind(f, '/') == -1 && RFind(f, '\\') == -1;
    assert f[..3] == "bob" && f[3..] == ".dds";
  }

  lemma RollingExample()
    ensures Rolling(".dds") == 0x2e_2262_8ddb_a9c5
  {
    var e := ".dds";
    assert e[..1] == "." && e[..2] == ".d" && e[..3] == ".dd";
    assert Rolling(".") == 0x2e;
    assert Rolling(".d") == 0x2e_0bb6;
    assert Rolling(".dd") == 0x2e_170a_e22e;
  }

  /** The worked example of the hash's own comment: "bob.dds" splits into "bob" and ".dds";
      the stem's fingerprint is b, o, 3, b and the high word the rolling hash of ".dds". */
  lemma HashExample()
    ensures HashOf("bob.dds").Ok?
    ensures HashOf("bob.dds").value / 0x1_0000_0000 == 0x8ddb_a9c5
    ensures HashOf("bob.dds").value % 0x1_0000_0000 == Or(0x6203_6f62, 0x8080)
  {
    SplitExtExample();
    StemHashExample();
  }

  lemma StemHashExample()
    ensures StemHash("bob", ".dds").Ok?
    ensures StemHash("bob", ".dds").value / 0x1_0000_0000 == 0x8ddb_a9c5
    ensures StemHash("bob", ".dds").value % 0x1_0000_0000 == Or(0x6203_6f62, 0x8080)
  {
    FingerprintExample();
    HighSumExample();
    assert ExtMarker(".dds") == 0x8080;
    StemHashWords("bob", ".dds");
  }

  /** The stem "bob": last char, second-to-last char, length 3, first char. */
  lemma FingerprintExample()
    ensures ToBytes(Fingerprint("bob")) == Ok([0x62, 0x6f, 3, 0x62])
    ensures FromLE([0x62, 0x6f, 3, 0x62]) == 0x6203_6f62
  {
    assert ToBytes(Fingerprint("bob")).value == [0x62, 0x6f, 3, 0x62];
  }

  /** "bob" is too short for inner characters: the high word is the hash of ".dds". */
  lemma HighSumExample()
    ensures HighSum("bob", ".dds") % 0x1_0000_0000 == 0x8ddb_a9c5
  {
    RollingExample();
  }
}
