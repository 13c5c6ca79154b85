/** Bytes, little-endian integers and the ASCII text the archive codec stores.
    Python's unbounded `int` is Dafny's `int`; a byte is an int in [0, 256). */
module Bytes {
  import opened Wrappers

  type Byte = x: int | 0 <= x < 256

  function Pow256(n: nat): (r: nat)
    ensures r >= 1
  {
    if n == 0 then 1 else 256 * Pow256(n - 1)
  }

  lemma {:induction false} Pow256Add(a: nat, b: nat)
    ensures Pow256(a + b) == Pow256(a) * Pow256(b)
  {
    if a > 0 {
      Pow256Add(a - 1, b);
    }
  }

  /** `int.from_bytes(bs, "little")`: the unsigned little-endian value of `bs`. */
  function FromLE(bs: seq<Byte>): (v: nat)
    ensures v < Pow256(|bs|)
  {
    if bs == [] then 0
    else
      var rest := FromLE(bs[1..]);
      assert 256 * rest <= 256 * (Pow256(|bs| - 1) - 1);
      bs[0] + 256 * rest
  }

  /** The `n` low-order bytes of `v`, least significant first. */
  function ToLE(v: nat, n: nat): (bs: seq<Byte>)
    ensures |bs| == n
  {
    if n == 0 then [] else [v % 256] + ToLE(v / 256, n - 1)
  }

  lemma {:induction false} FromToLE(v: nat, n: nat)
    requires v < Pow256(n)
    ensures FromLE(ToLE(v, n)) == v
  {
    if n > 0 {
      assert v / 256 < Pow256(n - 1);
      FromToLE(v / 256, n - 1);
      assert ToLE(v, n)[1..] == ToLE(v / 256, n - 1);
    }
  }

  lemma {:induction false} ToFromLE(bs: seq<Byte>)
    ensures ToLE(FromLE(bs), |bs|) == bs
  {
    if bs != [] {
      ToFromLE(bs[1..]);
      var v := FromLE(bs);
      assert v % 256 == bs[0] && v / 256 == FromLE(bs[1..]);
    }
  }

  /** `int.from_bytes(bs, "little", signed=True)`: two's complement over |bs| bytes. */
  function FromLESigned(bs: seq<Byte>): (v: int)
    ensures bs == [] ==> v == 0
    ensures bs != [] ==> -(Pow256(|bs|) as int / 2) <= v < Pow256(|bs|) / 2
  {
    var u := FromLE(bs);
    var p := Pow256(|bs|);
    if bs != [] && u >= p / 2 then
      assert p == 256 * Pow256(|bs| - 1);
      u - p
    else u
  }

  /** The unsigned reading of the same bytes: a negative value is offset by 256^|bs|. */
  lemma SignedOffset(bs: seq<Byte>)
    ensures var v := FromLESigned(bs);
      (if v < 0 then v + Pow256(|bs|) else v) == FromLE(bs)
  {
  }

  // ---------------------------------------------------------------- text

  predicate IsAsciiChar(c: char) { c as int < 128 }

  predicate IsAscii(s: string) { forall i :: 0 <= i < |s| ==> IsAsciiChar(s[i]) }

  /** `str.encode()` restricted to ASCII text: one byte per character. */
  function Encode(s: string): (bs: seq<Byte>)
    requires IsAscii(s)
    ensures |bs| == |s|
    ensures forall i :: 0 <= i < |s| ==> bs[i] == s[i] as int
  {
    seq(|s|, i requires 0 <= i < |s| => s[i] as int)
  }

  /** `bytes.decode()`: ASCII bytes decode to the same code points; any other byte is
      reported as a decode error (multi-byte UTF-8 is not modelled). */
  function Decode(bs: seq<Byte>): (r: Result<string>)
    ensures r.Ok? <==> forall i :: 0 <= i < |bs| ==> bs[i] < 128
    ensures r.Ok? ==> |r.value| == |bs| && IsAscii(r.value)
    ensures r.Ok? ==> forall i :: 0 <= i < |bs| ==> r.value[i] as int == bs[i]
  {
    if forall i :: 0 <= i < |bs| ==> bs[i] < 128 then
      Ok(seq(|bs|, i requires 0 <= i < |bs| => bs[i] as char))
    else Err(UnicodeDecode)
  }

  lemma DecodeEncode(s: string)
    requires IsAscii(s)
    ensures Decode(Encode(s)) == Ok(s)
  {
    var r := Decode(Encode(s));
    assert r.Ok?;
    assert r.value == s;
  }

  lemma {:induction false} EncodeAppend(a: string, b: string)
    requires IsAscii(a) && IsAscii(b)
    ensures IsAscii(a + b) && Encode(a + b) == Encode(a) + Encode(b)
  {
    assert IsAscii(a + b) by {
      forall i | 0 <= i < |a + b| ensures IsAsciiChar((a + b)[i]) {
        if i < |a| { assert (a + b)[i] == a[i]; } else { assert (a + b)[i] == b[i - |a|]; }
      }
    }
  }

  /** ASCII `str.lower()`: 'A'..'Z' become 'a'..'z', everything else is kept. */
  function LowerChar(c: char): (d: char)
    ensures ('A' <= c <= 'Z') ==> d as int == c as int + 32
    ensures !('A' <= c <= 'Z') ==> d == c
  {
    if 'A' <= c <= 'Z' then (c as int + 32) as char else c
  }

  function Lower(s: string): (r: string)
    ensures |r| == |s|
    ensures forall i :: 0 <= i < |s| ==> r[i] == LowerChar(s[i])
  {
    seq(|s|, i requires 0 <= i < |s| => LowerChar(s[i]))
  }

  lemma LowerIdempotent(s: string)
    ensures Lower(Lower(s)) == Lower(s)
  {
  }
}
