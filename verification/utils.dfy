/** Two small helpers of the application: `hex_to_rgb`, which reads a colour given in
    hexadecimal, and `lower_dict`, which lowercases the text values of a nested dict. */
module Utils {
  import opened Wrappers
  import opened Bytes
  import opened JsonData
  import Text

  // ================================================================ hex_to_rgb

  /** `value.lstrip('#')`. */
  function LStripHash(value: string): (r: string)
    ensures r == [] || r[0] != '#'
    ensures |r| <= |value| && r == value[|value| - |r|..]
  {
    if value != [] && value[0] == '#' then LStripHash(value[1..]) else value
  }

  /** The value of a hexadecimal digit (either case), or -1 for any other character. */
  function HexDigit(c: char): (d: int)
    ensures -1 <= d < 16
  {
    if '0' <= c <= '9' then c as int - '0' as int
    else if 'a' <= c <= 'f' then c as int - 'a' as int + 10
    else if 'A' <= c <= 'F' then c as int - 'A' as int + 10
    else -1
  }

  predicate IsHex(s: string) {
    forall i :: 0 <= i < |s| ==> HexDigit(s[i]) >= 0
  }

  /** The number a string of hexadecimal digits denotes, most significant digit first. */
  function HexValue(s: string): (v: nat)
    requires IsHex(s)
    decreases |s|
  {
    if s == [] then 0 else 16 * HexValue(s[..|s| - 1]) + HexDigit(s[|s| - 1])
  }

  function Pow16(n: nat): (r: nat)
    ensures r >= 1
  {
    if n == 0 then 1 else 16 * Pow16(n - 1)
  }

  lemma {:induction false} HexValueBound(s: string)
    requires IsHex(s)
    ensures HexValue(s) < Pow16(|s|)
    decreases |s|
  {
    if s != [] {
      HexValueBound(s[..|s| - 1]);
    }
  }

  // ---------------------------------------------------------------- int(s, 16)

  /** Text that is all white space, as `int()` skips it at either end of its argument. */
  predicate Spaces(s: string) {
    forall i :: 0 <= i < |s| ==> Text.IsSpace(s[i])
  }

  /** `s` without its leading white space. */
  function LStripSpace(s: string): (r: string)
    ensures |r| <= |s|
  {
    if s != [] && Text.IsSpace(s[0]) then LStripSpace(s[1..]) else s
  }

  /** What `LStripSpace` leaves is a suffix that does not start with white space, and what
      it takes off is all white space. */
  lemma {:induction false} LStripSpaceShape(s: string)
    ensures var r := LStripSpace(s);
      && (r == [] || !Text.IsSpace(r[0]))
      && r == s[|s| - |r|..] && Spaces(s[..|s| - |r|])
    decreases |s|
  {
    if s != [] && Text.IsSpace(s[0]) {
      var r := LStripSpace(s[1..]);
      LStripSpaceShape(s[1..]);
      assert r == s[1..][|s| - 1 - |r|..] == s[|s| - |r|..];
      assert s[..|s| - |r|] == [s[0]] + s[1..][..|s| - 1 - |r|];
    } else {
      assert s[..0] == [];
    }
  }

  /** `s` without its trailing white space. */
  function RStripSpace(s: string): (r: string)
    ensures |r| <= |s|
  {
    if s != [] && Text.IsSpace(s[|s| - 1]) then RStripSpace(s[..|s| - 1]) else s
  }

  /** What `RStripSpace` leaves is a prefix that does not end in white space, and what it
      takes off is all white space. */
  lemma {:induction false} RStripSpaceShape(s: string)
    ensures var r := RStripSpace(s);
      && (r == [] || !Text.IsSpace(r[|r| - 1]))
      && r == s[..|r|] && Spaces(s[|r|..])
    decreases |s|
  {
    if s != [] && Text.IsSpace(s[|s| - 1]) {
      var r := RStripSpace(s[..|s| - 1]);
      RStripSpaceShape(s[..|s| - 1]);
      assert r == s[..|s| - 1][..|r|] == s[..|r|];
      assert s[|r|..] == s[..|s| - 1][|r|..] + [s[|s| - 1]];
      SpacesSnoc(s[..|s| - 1][|r|..], s[|s| - 1]);
    } else {
      assert s[|s|..] == [];
    }
  }

  lemma SpacesSnoc(w: string, c: char)
    requires Spaces(w) && Text.IsSpace(c)
    ensures Spaces(w + [c])
  {
    assert forall i :: 0 <= i < |w| ==> (w + [c])[i] == w[i];
  }

  /** `s` without the white space at either end. */
  function Trim(s: string): (t: string)
    ensures |t| <= |s|
  {
    RStripSpace(LStripSpace(s))
  }

  /** A hexadecimal digit or an underscore. */
  predicate DigitOrUnderscore(c: char) {
    c == '_' || HexDigit(c) >= 0
  }

  /** Hexadecimal digits with single underscores between them: a digit, then, unless it is
      the last, an optional underscore and more of the same. */
  predicate Grouped(s: string)
    decreases |s|
  {
    && s != [] && HexDigit(s[0]) >= 0
    && (|s| == 1 || if s[1] == '_' then Grouped(s[2..]) else Grouped(s[1..]))
  }

  /** A grouped run is made of digits and underscores and ends in a digit. */
  lemma {:induction false} GroupedChars(s: string)
    requires Grouped(s)
    ensures forall i :: 0 <= i < |s| ==> DigitOrUnderscore(s[i])
    ensures HexDigit(s[|s| - 1]) >= 0
    decreases |s|
  {
    if |s| > 1 {
      var k := if s[1] == '_' then 2 else 1;
      GroupedChars(s[k..]);
      forall i | 0 <= i < |s| ensures DigitOrUnderscore(s[i]) {
        if i >= k {
          assert s[i] == s[k..][i - k];
        }
      }
      assert s[|s| - 1] == s[k..][|s| - 1 - k];
    }
  }

  /** The digits of `s` with the underscores taken out. */
  function DropUnderscores(s: string): (d: string)
    ensures |d| <= |s|
    ensures (forall i :: 0 <= i < |s| ==> DigitOrUnderscore(s[i])) ==> IsHex(d)
  {
    if s == [] then []
    else
      var rest := DropUnderscores(s[1..]);
      if s[0] == '_' then rest else [s[0]] + rest
  }

  /** The number a grouped run of digits denotes. */
  function GroupedValue(s: string): (v: nat)
    requires Grouped(s)
    ensures v < Pow16(|s|)
  {
    GroupedChars(s);
    var digits := DropUnderscores(s);
    HexValueBound(digits);
    Pow16Monotone(|digits|, |s|);
    HexValue(digits)
  }

  /** What follows a `0x` or `0X` prefix and the one underscore allowed after it; a string
      without the prefix is kept as it is. */
  function StripPrefix(u: string): (b: string)
    ensures |b| <= |u|
  {
    if |u| >= 2 && u[0] == '0' && (u[1] == 'x' || u[1] == 'X') then
      if |u| >= 3 && u[2] == '_' then u[3..] else u[2..]
    else u
  }

  /** The number after the sign: an optional prefix, then grouped digits. */
  function ReadUnsigned(u: string): (r: Result<nat>)
    ensures r.Ok? ==> r.value < Pow16(|u|)
  {
    var body := StripPrefix(u);
    if Grouped(body) then
      Pow16Monotone(|body|, |u|);
      Ok(GroupedValue(body))
    else Err(ValueErr)
  }

  /** The number in a string without white space at its ends: an optional sign, then the
      unsigned part. */
  function ReadSigned(t: string): (r: Result<int>)
    ensures r.Ok? ==> -(Pow16(|t|) as int) < r.value < Pow16(|t|)
  {
    if t != [] && (t[0] == '+' || t[0] == '-') then
      match ReadUnsigned(t[1..])
      case Ok(v) =>
        Pow16Monotone(|t| - 1, |t|);
        Ok(if t[0] == '-' then -(v as int) else v)
      case Err(e) => Err(e)
    else
      match ReadUnsigned(t)
      case Ok(v) => Ok(v)
      case Err(e) => Err(e)
  }

  /** `int(s, 16)`: white space around the number is skipped, a `+` or `-` sign may come
      first, then an optional `0x` or `0X` prefix, then the digits, which single underscores
      may separate. Anything else is a `ValueError`. The magnitude is below 16 to the power
      of the length of `s`. */
  function ParseHex(s: string): (r: Result<int>)
    ensures r.Ok? ==> -(Pow16(|s|) as int) < r.value < Pow16(|s|)
  {
    var t := Trim(s);
    Pow16Monotone(|t|, |s|);
    ReadSigned(t)
  }

  /** An optional sign: nothing, `+` or `-`. */
  predicate IsSign(sign: string) {
    |sign| <= 1 && (sign != [] ==> sign[0] == '+' || sign[0] == '-')
  }

  /** An optional base prefix: nothing, or `0x` or `0X`, perhaps followed by one underscore. */
  predicate IsPrefix(prefix: string) {
    || prefix == []
    || (&& 2 <= |prefix| <= 3 && prefix[0] == '0' && (prefix[1] == 'x' || prefix[1] == 'X')
        && (|prefix| == 3 ==> prefix[2] == '_'))
  }

  /** The strings `int(s, 16)` accepts, as the pieces they are made of. */
  predicate Literal(s: string, before: string, sign: string, prefix: string, digits: string, after: string) {
    && s == before + sign + prefix + digits + after
    && Spaces(before) && Spaces(after) && IsSign(sign) && IsPrefix(prefix) && Grouped(digits)
  }

  /** The number a literal denotes. */
  function LiteralValue(sign: string, digits: string): int
    requires Grouped(digits)
  {
    var v: int := GroupedValue(digits);
    if sign != [] && sign[0] == '-' then -v else v
  }

  /** Every literal is read as the number it denotes. */
  lemma ParseHexAccepts(s: string, before: string, sign: string, prefix: string, digits: string, after: string)
    requires Literal(s, before, sign, prefix, digits, after)
    ensures ParseHex(s) == Ok(LiteralValue(sign, digits))
  {
    var u := prefix + digits;
    var t := sign + u;
    Regroup(s, before, sign, prefix, digits, after, u, t);
    TrimAround(before, t, after);
    LiteralEnds(t, sign, prefix, digits, u);
    TrimNone(t);
    UnsignedAccepts(u, prefix, digits);
    SignedAccepts(t, sign, u, GroupedValue(digits));
  }

  lemma Regroup(s: string, before: string, sign: string, prefix: string, digits: string, after: string, u: string, t: string)
    requires u == prefix + digits && t == sign + u
    ensures s == before + sign + prefix + digits + after <==> s == before + t + after
  {
    assert before + sign + prefix + digits == before + (sign + prefix + digits);
    assert sign + prefix + digits == t;
  }

  /** A literal without its white space starts with neither white space nor a sign after
      the sign, and ends in a digit. */
  lemma LiteralEnds(t: string, sign: string, prefix: string, digits: string, u: string)
    requires u == prefix + digits && t == sign + u && Grouped(digits) && IsSign(sign) && IsPrefix(prefix)
    ensures u != [] && u[0] != '+' && u[0] != '-'
    ensures t != [] && !Text.IsSpace(t[0]) && !Text.IsSpace(t[|t| - 1])
  {
    GroupedNotSpace(digits, |digits| - 1);
    GroupedNotSpace(digits, 0);
    assert u[0] == (if prefix != [] then '0' else digits[0]);
    assert t[0] == (if sign != [] then sign[0] else u[0]);
    assert t[|t| - 1] == u[|u| - 1] == digits[|digits| - 1];
  }

  /** The unsigned part of a literal is read as its digits. */
  lemma UnsignedAccepts(u: string, prefix: string, digits: string)
    requires u == prefix + digits && Grouped(digits) && IsPrefix(prefix)
    ensures ReadUnsigned(u) == Ok(GroupedValue(digits))
  {
    if prefix == [] {
      assert u == digits;
      UnprefixedDigits(digits);
    } else {
      assert u[0] == '0' && u[1] == prefix[1];
      assert u[|prefix|..] == digits;
      PrefixedDigits(u, |prefix|, digits);
    }
  }

  lemma UnprefixedDigits(digits: string)
    requires Grouped(digits)
    ensures StripPrefix(digits) == digits
  {
    GroupedChars(digits);
    if |digits| >= 2 {
      assert DigitOrUnderscore(digits[1]);
    }
  }

  lemma PrefixedDigits(u: string, n: nat, digits: string)
    requires 2 <= n <= 3 <= |u| && u[0] == '0' && (u[1] == 'x' || u[1] == 'X') && (n == 3 ==> u[2] == '_')
    requires u[n..] == digits && Grouped(digits)
    ensures StripPrefix(u) == digits
  {
    if n == 2 {
      assert u[2] == digits[0];
    }
  }

  /** A sign in front of the unsigned part negates it or keeps it. */
  lemma SignedAccepts(t: string, sign: string, u: string, v: nat)
    requires t == sign + u && IsSign(sign)
    requires u != [] && u[0] != '+' && u[0] != '-'
    requires ReadUnsigned(u) == Ok(v)
    ensures ReadSigned(t) == Ok(if sign != [] && sign[0] == '-' then -(v as int) else v)
  {
    if sign == [] {
      assert t == u;
    } else {
      assert t[1..] == u;
      assert t[0] == sign[0];
    }
  }

  /** A string with no white space at its ends is its own trimmed form, and `int(s, 16)`
      reads it as it is. */
  lemma TrimNone(t: string)
    requires t != [] && !Text.IsSpace(t[0]) && !Text.IsSpace(t[|t| - 1])
    ensures Trim(t) == t && ParseHex(t) == ReadSigned(t)
  {
    assert LStripSpace(t) == t;
  }

  /** A character of a grouped run is neither white space nor a sign. */
  lemma GroupedNotSpace(digits: string, i: int)
    requires Grouped(digits) && 0 <= i < |digits|
    ensures !Text.IsSpace(digits[i]) && digits[i] != '+' && digits[i] != '-'
  {
    GroupedChars(digits);
    assert DigitOrUnderscore(digits[i]);
  }

  /** Only literals are accepted: a string `int(s, 16)` reads is made of the pieces of one,
      and its value is the one they denote. */
  lemma ParseHexOnly(s: string) returns (before: string, sign: string, prefix: string, digits: string, after: string)
    requires ParseHex(s).Ok?
    ensures Literal(s, before, sign, prefix, digits, after)
    ensures ParseHex(s) == Ok(LiteralValue(sign, digits))
  {
    var t := Trim(s);
    before, after := SplitTrim(s);
    var u := if t != [] && (t[0] == '+' || t[0] == '-') then t[1..] else t;
    sign := t[..|t| - |u|];
    assert t == sign + u;
    assert ReadUnsigned(u).Ok?;
    digits := StripPrefix(u);
    prefix := PrefixOf(u);
    Regroup(s, before, sign, prefix, digits, after, u, t);
    ParseHexAccepts(s, before, sign, prefix, digits, after);
  }

  /** A string is its trimmed form with white space on either side. */
  lemma SplitTrim(s: string) returns (before: string, after: string)
    ensures Spaces(before) && Spaces(after) && s == before + Trim(s) + after
  {
    var l := LStripSpace(s);
    var t := RStripSpace(l);
    LStripSpaceShape(s);
    RStripSpaceShape(l);
    before := s[..|s| - |l|];
    after := l[|t|..];
    assert Spaces(before);
    assert Spaces(after);
    assert s == before + l;
    assert l == t + after;
    assert before + l == before + t + after;
    assert Trim(s) == t;
  }

  /** The prefix `StripPrefix` takes off. */
  function PrefixOf(u: string): (p: string)
    ensures u == p + StripPrefix(u) && IsPrefix(p)
  {
    if |u| >= 2 && u[0] == '0' && (u[1] == 'x' || u[1] == 'X') then
      if |u| >= 3 && u[2] == '_' then u[..3] else u[..2]
    else []
  }

  /** White space around the number does not change what `int(s, 16)` reads. */
  lemma ParseHexSpaces(before: string, s: string, after: string)
    requires Spaces(before) && Spaces(after)
    ensures ParseHex(before + s + after) == ParseHex(s)
  {
    TrimAround(before, s, after);
  }

  lemma TrimAround(before: string, s: string, after: string)
    requires Spaces(before) && Spaces(after)
    ensures Trim(before + s + after) == Trim(s)
  {
    var x := s + after;
    assert before + s + after == before + x;
    LStripSpacePrefix(before, x);
    TrimTail(s, after);
  }

  /** White space after the number does not change what is left once both ends are
      stripped. */
  lemma TrimTail(s: string, after: string)
    requires Spaces(after)
    ensures RStripSpace(LStripSpace(s + after)) == RStripSpace(LStripSpace(s))
  {
    var l := LStripSpace(s);
    if l == [] {
      LStripSpaceShape(s);
      assert s[..|s| - |l|] == s;
      assert Spaces(s + after);
      LStripSpaceAll(s + after);
    } else {
      LStripSpaceAppend(s, after);
      RStripSpaceSuffix(l, after);
    }
  }

  lemma {:induction false} LStripSpacePrefix(w: string, s: string)
    requires Spaces(w)
    ensures LStripSpace(w + s) == LStripSpace(s)
    decreases |w|
  {
    if w == [] {
      assert w + s == s;
    } else {
      assert (w + s)[1..] == w[1..] + s;
      LStripSpacePrefix(w[1..], s);
    }
  }

  lemma {:induction false} LStripSpaceAll(w: string)
    requires Spaces(w)
    ensures LStripSpace(w) == []
    decreases |w|
  {
    if w != [] {
      LStripSpaceAll(w[1..]);
    }
  }

  lemma {:induction false} LStripSpaceAppend(s: string, w: string)
    requires LStripSpace(s) != []
    ensures LStripSpace(s + w) == LStripSpace(s) + w
    decreases |s|
  {
    if Text.IsSpace(s[0]) {
      assert (s + w)[1..] == s[1..] + w;
      LStripSpaceAppend(s[1..], w);
    }
  }

  lemma {:induction false} RStripSpaceSuffix(x: string, w: string)
    requires Spaces(w)
    ensures RStripSpace(x + w) == RStripSpace(x)
    decreases |w|
  {
    if w == [] {
      assert x + w == x;
    } else {
      assert (x + w)[..|x + w| - 1] == x + w[..|w| - 1];
      RStripSpaceSuffix(x, w[..|w| - 1]);
    }
  }

  /** Every character `str.isspace()` holds for is skipped, the information separators
      included: `int("\x1cff", 16)` is 255. */
  lemma ParseHexSeparator(d: string)
    requires d != [] && IsHex(d)
    ensures ParseHex(['\U{1C}'] + d) == Ok(HexValue(d))
  {
    assert ['\U{1C}'] + d == ['\U{1C}'] + d + [];
    ParseHexSpaces(['\U{1C}'], d, []);
    ParseHexDigits(d);
  }

  /** What `int()` strips is what `str.strip()` strips. */
  lemma {:induction false} TrimIsStrip(s: string)
    ensures Trim(s) == Text.Strip(s)
    decreases |s|
  {
    if s != [] {
      if Text.IsSpace(s[0]) {
        TrimIsStrip(s[1..]);
      } else if Text.IsSpace(s[|s| - 1]) {
        var init := s[..|s| - 1];
        assert init[0] == s[0];
        assert init + [s[|s| - 1]] == s;
        TrimIsStrip(init);
      }
    }
  }

  /** A run of hexadecimal digits is read as the number it denotes. */
  lemma ParseHexDigits(s: string)
    requires s != [] && IsHex(s)
    ensures ParseHex(s) == Ok(HexValue(s))
  {
    DigitsGrouped(s);
    assert s == [] + [] + s;
    Bare(s, [], [], s);
  }

  /** A run of digits is grouped and has no underscore to drop. */
  lemma DigitsGrouped(d: string)
    requires d != [] && IsHex(d)
    ensures Grouped(d) && GroupedValue(d) == HexValue(d)
  {
    DigitsAreGrouped(d);
    NoUnderscores(d);
  }

  lemma {:induction false} DigitsAreGrouped(d: string)
    requires d != [] && IsHex(d)
    ensures Grouped(d)
    decreases |d|
  {
    assert HexDigit(d[0]) >= 0;
    if |d| > 1 {
      assert HexDigit(d[1]) >= 0;
      DigitsAreGrouped(d[1..]);
    }
  }

  lemma {:induction false} NoUnderscores(s: string)
    requires IsHex(s)
    ensures DropUnderscores(s) == s
    decreases |s|
  {
    if s != [] {
      assert HexDigit(s[0]) >= 0;
      NoUnderscores(s[1..]);
    }
  }

  lemma {:induction false} DropUnderscoresAppend(a: string, b: string)
    ensures DropUnderscores(a + b) == DropUnderscores(a) + DropUnderscores(b)
    decreases |a|
  {
    if a == [] {
      assert a + b == b;
    } else {
      assert (a + b)[1..] == a[1..] + b;
      DropUnderscoresAppend(a[1..], b);
    }
  }

  /** An underscore between two runs of digits is skipped. */
  lemma ParseHexUnderscore(a: string, b: string)
    requires a != [] && IsHex(a) && b != [] && IsHex(b)
    ensures ParseHex(a + ['_'] + b) == Ok(HexValue(a + b))
  {
    var s := a + ['_'] + b;
    UnderscoreGrouped(a, b, s);
    UnderscoreDropped(a, b, s);
    assert s == [] + [] + s;
    Bare(s, [], [], s);
  }

  lemma UnderscoreDropped(a: string, b: string, s: string)
    requires IsHex(a) && IsHex(b) && s == a + ['_'] + b
    ensures DropUnderscores(s) == a + b
  {
    UnderscoreSnoc(a);
    DropUnderscoresAppend(a + ['_'], b);
    NoUnderscores(b);
  }

  lemma UnderscoreSnoc(a: string)
    requires IsHex(a)
    ensures DropUnderscores(a + ['_']) == a
  {
    DropUnderscoresAppend(a, ['_']);
    NoUnderscores(a);
    assert DropUnderscores(['_']) == [];
  }

  lemma {:induction false} UnderscoreGrouped(a: string, b: string, s: string)
    requires a != [] && IsHex(a) && b != [] && IsHex(b) && s == a + ['_'] + b
    ensures Grouped(s)
    decreases |a|
  {
    assert s[0] == a[0] && HexDigit(a[0]) >= 0;
    if |a| == 1 {
      assert s[1] == '_' && s[2..] == b;
      DigitsAreGrouped(b);
    } else {
      assert s[1] == a[1] && HexDigit(a[1]) >= 0;
      assert s[1..] == a[1..] + ['_'] + b;
      UnderscoreGrouped(a[1..], b, s[1..]);
    }
  }

  /** A literal without white space around it. */
  lemma Bare(s: string, sign: string, prefix: string, digits: string)
    requires s == sign + prefix + digits && IsSign(sign) && IsPrefix(prefix) && Grouped(digits)
    ensures ParseHex(s) == Ok(LiteralValue(sign, digits))
  {
    assert s == [] + sign + prefix + digits + [];
    ParseHexAccepts(s, [], sign, prefix, digits, []);
  }

  /** A run of digits after a sign and a prefix, without white space around it. */
  lemma BareDigits(s: string, sign: string, prefix: string, digits: string)
    requires digits != [] && IsHex(digits) && IsSign(sign) && IsPrefix(prefix)
    requires s == sign + prefix + digits
    ensures ParseHex(s) == Ok(if sign != [] && sign[0] == '-' then -(HexValue(digits) as int) else HexValue(digits))
  {
    SignedDigits(sign, digits);
    Bare(s, sign, prefix, digits);
  }

  lemma SignedDigits(sign: string, digits: string)
    requires digits != [] && IsHex(digits)
    ensures Grouped(digits)
    ensures LiteralValue(sign, digits) == if sign != [] && sign[0] == '-' then -(HexValue(digits) as int) else HexValue(digits)
  {
    DigitsGrouped(digits);
  }

  /** A `-` in front negates the number. */
  lemma ParseHexMinus(d: string)
    requires d != [] && IsHex(d)
    ensures ParseHex(['-'] + d) == Ok(-(HexValue(d) as int))
  {
    BareDigits(['-'] + d, ['-'], [], d);
  }

  /** A `+` in front keeps the number. */
  lemma ParseHexPlus(d: string)
    requires d != [] && IsHex(d)
    ensures ParseHex(['+'] + d) == Ok(HexValue(d))
  {
    BareDigits(['+'] + d, ['+'], [], d);
  }

  /** The `0x` prefix is skipped. */
  lemma ParseHexPrefixed(d: string)
    requires d != [] && IsHex(d)
    ensures ParseHex(['0', 'x'] + d) == Ok(HexValue(d))
  {
    BareDigits(['0', 'x'] + d, [], ['0', 'x'], d);
  }

  /** So is the `0X` prefix with one underscore after it. */
  lemma ParseHexPrefixedUnderscore(d: string)
    requires d != [] && IsHex(d)
    ensures ParseHex(['0', 'X', '_'] + d) == Ok(HexValue(d))
  {
    BareDigits(['0', 'X', '_'] + d, [], ['0', 'X', '_'], d);
  }

  /** The empty string is not a number. */
  lemma EmptyRejected()
    ensures ParseHex([]).Err?
  {
    assert Trim([]) == [];
  }

  /** Nor is a `0x` or `0X` prefix without digits. */
  lemma PrefixAloneRejected(s: string)
    requires |s| == 2 && s[0] == '0' && (s[1] == 'x' || s[1] == 'X')
    ensures ParseHex(s).Err?
  {
    TrimNone(s);
    assert StripPrefix(s) == [];
  }

  /** An underscore may not come first. */
  lemma LeadingUnderscore(s: string)
    requires |s| >= 2 && s[0] == '_' && HexDigit(s[1]) >= 0 && HexDigit(s[|s| - 1]) >= 0
    ensures ParseHex(s).Err?
  {
    NotPrefixed(s);
  }

  /** Nor last. */
  lemma TrailingUnderscore(s: string)
    requires |s| >= 2 && s[|s| - 1] == '_' && HexDigit(s[0]) >= 0 && DigitOrUnderscore(s[1])
    ensures ParseHex(s).Err?
  {
    NotPrefixed(s);
    if Grouped(s) {
      GroupedChars(s);
    }
  }

  /** Nor two in a row. */
  lemma DoubleUnderscore(a: string, b: string, s: string)
    requires a != [] && IsHex(a) && b != [] && IsHex(b) && s == a + ['_', '_'] + b
    ensures ParseHex(s).Err?
  {
    assert HexDigit(s[0]) >= 0 && HexDigit(s[|s| - 1]) >= 0;
    assert DigitOrUnderscore(s[1]) by {
      if |a| > 1 {
        assert s[1] == a[1];
      }
    }
    NotPrefixed(s);
    DoubleNotGrouped(a, b, s);
  }

  lemma {:induction false} DoubleNotGrouped(a: string, b: string, s: string)
    requires a != [] && IsHex(a) && s == a + ['_', '_'] + b
    ensures !Grouped(s)
    decreases |a|
  {
    if |a| == 1 {
      assert s[1] == '_' && s[2..][0] == '_';
    } else {
      assert s[1] == a[1] && HexDigit(a[1]) >= 0;
      assert s[1..] == a[1..] + ['_', '_'] + b;
      DoubleNotGrouped(a[1..], b, s[1..]);
    }
  }

  /** A second sign is not a digit. */
  lemma TwoSigns(s: string)
    requires |s| >= 2 && s[0] == '-' && s[1] == '-' && !Text.IsSpace(s[|s| - 1])
    ensures ParseHex(s).Err?
  {
    TrimNone(s);
    assert s[1..][0] == '-';
  }

  /** A string that starts with neither white space, a sign nor a `0x` prefix and does not
      end in white space is read exactly when it is grouped digits. */
  lemma NotPrefixed(s: string)
    requires |s| >= 2 && s[1] != 'x' && s[1] != 'X'
    requires !Text.IsSpace(s[0]) && s[0] != '+' && s[0] != '-' && !Text.IsSpace(s[|s| - 1])
    ensures ParseHex(s).Ok? <==> Grouped(s)
  {
    TrimNone(s);
  }

  /** `value[i:i + step]` for `i` in `range(start, len(value), step)`. */
  function Chunks(value: string, step: nat, start: nat): (cs: seq<string>)
    requires step > 0
    ensures forall k :: 0 <= k < |cs| ==> 0 < |cs[k]| <= step
    decreases |value| - start
  {
    if start >= |value| then []
    else
      var end := if start + step <= |value| then start + step else |value|;
      [value[start..end]] + Chunks(value, step, start + step)
  }

  /** The chunks put back together. */
  function Concat(cs: seq<string>): string {
    if cs == [] then [] else cs[0] + Concat(cs[1..])
  }

  /** A whole number of steps of digits is cut into that many chunks of one step each,
      which put back together give the digits. */
  lemma {:induction false} ChunksCount(value: string, step: nat, start: nat, k: nat)
    requires step > 0 && start + k * step == |value|
    ensures |Chunks(value, step, start)| == k
    ensures forall j :: 0 <= j < k ==> |Chunks(value, step, start)[j]| == step
    ensures Concat(Chunks(value, step, start)) == value[start..]
    decreases k
  {
    if k == 0 {
      assert value[start..] == [];
    } else {
      StepTimes(step, k - 1);
      var rest := Chunks(value, step, start + step);
      ChunksCount(value, step, start + step, k - 1);
      var cs := Chunks(value, step, start);
      assert cs == [value[start..start + step]] + rest;
      assert cs[1..] == rest;
      forall j | 0 < j < k ensures |cs[j]| == step {
        assert cs[j] == rest[j - 1];
      }
      assert value[start..] == value[start..start + step] + value[start + step..];
    }
  }

  /** One more step is `step` more. */
  lemma StepTimes(step: nat, j: nat)
    ensures (j + 1) * step == j * step + step
  {
  }

  /** `int(chunk, 16)` for each chunk in turn; the first failure is the result. */
  function ParseChunks(chunks: seq<string>): (r: Result<seq<int>>)
    ensures r.Ok? ==> |r.value| == |chunks|
    ensures r.Ok? ==> forall k :: 0 <= k < |chunks| ==> ParseHex(chunks[k]) == Ok(r.value[k])
    ensures r.Err? ==> exists k :: 0 <= k < |chunks| && ParseHex(chunks[k]).Err?
  {
    if chunks == [] then Ok([])
    else
      match ParseHex(chunks[0])
      case Err(e) => Err(e)
      case Ok(v) =>
        match ParseChunks(chunks[1..])
        case Err(e) => Err(e)
        case Ok(vs) => Ok([v] + vs)
  }

  lemma {:induction false} ParseChunksOk(chunks: seq<string>, values: seq<int>)
    requires |chunks| == |values| && forall k :: 0 <= k < |chunks| ==> ParseHex(chunks[k]) == Ok(values[k])
    ensures ParseChunks(chunks) == Ok(values)
  {
    ParseChunksFrom(chunks, values, 0);
    assert chunks[0..] == chunks && values[0..] == values;
  }

  lemma {:induction false} ParseChunksFrom(chunks: seq<string>, values: seq<int>, i: nat)
    requires |chunks| == |values| && forall k :: 0 <= k < |chunks| ==> ParseHex(chunks[k]) == Ok(values[k])
    requires i <= |chunks|
    ensures ParseChunks(chunks[i..]) == Ok(values[i..])
    decreases |chunks| - i
  {
    if i < |chunks| {
      ParseChunksFrom(chunks, values, i + 1);
      assert chunks[i..][1..] == chunks[i + 1..];
      ParseChunksCons(chunks[i..], values[i], values[i + 1..]);
      assert values[i..] == [values[i]] + values[i + 1..];
    }
  }

  lemma ParseChunksCons(chunks: seq<string>, v: int, vs: seq<int>)
    requires chunks != [] && ParseHex(chunks[0]) == Ok(v) && ParseChunks(chunks[1..]) == Ok(vs)
    ensures ParseChunks(chunks) == Ok([v] + vs)
  {
  }

  /** `hex_to_rgb(value)`: the leading `#`s are stripped and the rest is cut into chunks of
      a third of its length, each read as a hexadecimal number. Fewer than three digits
      make the step of `range` zero, which is a `ValueError`. */
  function HexToRgb(value: string): (r: Result<seq<int>>)
    ensures |LStripHash(value)| < 3 ==> r == Err(ValueErr)
    ensures r.Ok? ==> forall k :: 0 <= k < |r.value| ==>
      -(Pow16(|LStripHash(value)| / 3) as int) < r.value[k] < Pow16(|LStripHash(value)| / 3)
    ensures r.Ok? && |LStripHash(value)| % 3 == 0 ==> |r.value| == 3
  {
    var digits := LStripHash(value);
    var step := |digits| / 3;
    if step == 0 then Err(ValueErr)
    else
      var chunks := Chunks(digits, step, 0);
      ChunksOfThirds(digits, step);
      ParsedBounds(chunks, step);
      ParseChunks(chunks)
  }

  /** A length divisible by three is cut into three chunks. */
  lemma ChunksOfThirds(digits: string, step: nat)
    requires step == |digits| / 3 > 0
    ensures |digits| % 3 == 0 ==> |Chunks(digits, step, 0)| == 3
  {
    if |digits| % 3 == 0 {
      ChunksCount(digits, step, 0, 3);
    }
  }

  /** Chunks of at most `step` characters read as numbers of magnitude below 16 to the
      power of `step`. */
  lemma ParsedBounds(chunks: seq<string>, step: nat)
    requires forall k :: 0 <= k < |chunks| ==> |chunks[k]| <= step
    ensures var r := ParseChunks(chunks);
      r.Ok? ==> forall k :: 0 <= k < |r.value| ==> -(Pow16(step) as int) < r.value[k] < Pow16(step)
  {
    var r := ParseChunks(chunks);
    if r.Ok? {
      forall k | 0 <= k < |r.value| ensures -(Pow16(step) as int) < r.value[k] < Pow16(step) {
        assert ParseHex(chunks[k]) == Ok(r.value[k]);
        Pow16Monotone(|chunks[k]|, step);
      }
    }
  }

  /** `hex_to_rgb` gives the numbers its chunks read as. */
  lemma HexToRgbOf(value: string, digits: string, step: nat, chunks: seq<string>, values: seq<int>)
    requires LStripHash(value) == digits && step == |digits| / 3 > 0
    requires Chunks(digits, step, 0) == chunks && ParseChunks(chunks) == Ok(values)
    ensures HexToRgb(value) == Ok(values)
  {
  }

  lemma {:induction false} Pow16Monotone(a: nat, b: nat)
    requires a <= b
    ensures Pow16(a) <= Pow16(b)
    decreases b
  {
    if a < b {
      Pow16Monotone(a, b - 1);
    }
  }

  /** The lowercase hexadecimal digit of `d`. */
  function HexChar(d: nat): (c: char)
    requires d < 16
    ensures HexDigit(c) == d
  {
    if d < 10 then ('0' as int + d) as char else ('a' as int + d - 10) as char
  }

  /** A colour component written as two hexadecimal digits, as in `#rrggbb`. */
  function Hex2(v: nat): (s: string)
    requires v < 256
    ensures |s| == 2 && IsHex(s)
  {
    [HexChar(v / 16), HexChar(v % 16)]
  }

  lemma Hex2Value(v: nat)
    requires v < 256
    ensures ParseHex(Hex2(v)) == Ok(v)
  {
    var s := Hex2(v);
    assert s[..1][..0] == [];
    assert HexValue(s[..1]) == v / 16;
    ParseHexDigits(s);
  }

  /** `hex_to_rgb` reads back the components of a `#rrggbb` colour. */
  lemma HexToRgbRoundTrip(red: nat, green: nat, blue: nat)
    requires red < 256 && green < 256 && blue < 256
    ensures HexToRgb("#" + Hex2(red) + Hex2(green) + Hex2(blue)) == Ok([red, green, blue])
  {
    var x, y, z := Hex2(red), Hex2(green), Hex2(blue);
    var digits := x + y + z;
    var value := "#" + x + y + z;
    assert value == "#" + digits;
    assert value[1..] == digits;
    assert digits[0] == x[0] != '#';
    assert LStripHash(value) == digits;
    ThreeChunks(x, y, z, 2, digits);
    Hex2Value(red);
    Hex2Value(green);
    Hex2Value(blue);
    ParseThree(x, y, z, red, green, blue);
    HexToRgbOf(value, digits, 2, [x, y, z], [red, green, blue]);
  }

  /** Three pieces of one length are cut into those pieces. */
  lemma ThreeChunks(x: string, y: string, z: string, n: nat, digits: string)
    requires |x| == n && |y| == n && |z| == n && n > 0 && digits == x + y + z
    ensures Chunks(digits, n, 0) == [x, y, z]
  {
    assert digits[0..n] == x && digits[n..2 * n] == y && digits[2 * n..3 * n] == z;
    assert Chunks(digits, n, 3 * n) == [];
    assert Chunks(digits, n, 2 * n) == [z];
    assert Chunks(digits, n, n) == [y, z];
  }

  /** `#ffffff` is white. */
  lemma White()
    ensures HexToRgb("#ffffff") == Ok([255, 255, 255])
  {
    assert "#ffffff" == "#" + Hex2(255) + Hex2(255) + Hex2(255) by {
      assert Hex2(255) == "ff";
    }
    WhiteOf("#ffffff");
  }

  lemma WhiteOf(value: string)
    requires value == "#" + Hex2(255) + Hex2(255) + Hex2(255)
    ensures HexToRgb(value) == Ok([255, 255, 255])
  {
    HexToRgbRoundTrip(255, 255, 255);
  }

  /** A colour whose three components are written alike is read as three equal numbers,
      whatever form each takes. */
  lemma ThreeAlike(value: string, piece: string, v: int)
    requires |piece| > 0 && LStripHash(value) == piece + piece + piece && ParseHex(piece) == Ok(v)
    ensures HexToRgb(value) == Ok([v, v, v])
  {
    var digits := piece + piece + piece;
    ThreeChunks(piece, piece, piece, |piece|, digits);
    ParseThree(piece, piece, piece, v, v, v);
    HexToRgbOf(value, digits, |piece|, [piece, piece, piece], [v, v, v]);
  }

  lemma ParseThree(x: string, y: string, z: string, a: int, b: int, c: int)
    requires ParseHex(x) == Ok(a) && ParseHex(y) == Ok(b) && ParseHex(z) == Ok(c)
    ensures ParseChunks([x, y, z]) == Ok([a, b, c])
  {
    ParseChunksOk([x, y, z], [a, b, c]);
  }

  /** A sign in each component is read as a sign: `#-1-1-1` is (-1, -1, -1). */
  lemma MinusOnes()
    ensures HexToRgb("#-1-1-1") == Ok([-1, -1, -1])
  {
    MinusOnesOf("#-1-1-1", ['-', '1']);
  }

  lemma MinusOnesOf(value: string, piece: string)
    requires piece == ['-', '1'] && value == ['#'] + piece + piece + piece
    ensures HexToRgb(value) == Ok([-1, -1, -1])
  {
    SignedPiece(piece, '1');
    assert HexDigit('1') == 1;
    HashStripped(value, piece + piece + piece);
    ThreeAlike(value, piece, -1);
  }

  lemma SignedPiece(piece: string, c: char)
    requires HexDigit(c) >= 0 && piece == ['-', c]
    ensures ParseHex(piece) == Ok(-HexDigit(c))
  {
    assert [c][..0] == [];
    assert piece == ['-'] + [c];
    ParseHexMinus([c]);
  }

  /** White space in each component is skipped: `# ff ff ff` is white. */
  lemma SpacedWhite()
    ensures HexToRgb("# ff ff ff") == Ok([255, 255, 255])
  {
    SpacedWhiteOf("# ff ff ff", [' ', 'f', 'f']);
  }

  lemma SpacedWhiteOf(value: string, piece: string)
    requires piece == [' ', 'f', 'f'] && value == ['#'] + piece + piece + piece
    ensures HexToRgb(value) == Ok([255, 255, 255])
  {
    SpacedFF(piece);
    HashStripped(value, piece + piece + piece);
    ThreeAlike(value, piece, 255);
  }

  lemma SpacedFF(piece: string)
    requires piece == [' ', 'f', 'f']
    ensures ParseHex(piece) == Ok(255)
  {
    var ff := ['f', 'f'];
    assert HexValue(ff) == 255 by {
      assert ff[..1] == ['f'] && ['f'][..0] == [];
    }
    SpacedPiece(piece, ff);
  }

  lemma SpacedPiece(piece: string, digits: string)
    requires digits != [] && IsHex(digits) && piece == [' '] + digits
    ensures ParseHex(piece) == Ok(HexValue(digits))
  {
    assert piece == [' '] + digits + [];
    ParseHexSpaces([' '], digits, []);
    ParseHexDigits(digits);
  }

  /** One leading `#` is stripped from a value whose next character is not a `#`. */
  lemma HashStripped(value: string, rest: string)
    requires value == ['#'] + rest && rest != [] && rest[0] != '#'
    ensures LStripHash(value) == rest
  {
    assert value[1..] == rest;
  }

  /** Four digits make a step of one, so each digit is a component of its own. */
  lemma FourDigits()
    ensures HexToRgb("#abcd") == Ok([10, 11, 12, 13])
  {
    assert HexDigit('a') == 10 && HexDigit('b') == 11 && HexDigit('c') == 12 && HexDigit('d') == 13;
    StepOfOne('a', 'b', 'c', 'd');
  }

  lemma StepOfOne(a: char, b: char, c: char, d: char)
    requires HexDigit(a) >= 0 && HexDigit(b) >= 0 && HexDigit(c) >= 0 && HexDigit(d) >= 0
    ensures HexToRgb(['#', a, b, c, d]) == Ok([HexDigit(a), HexDigit(b), HexDigit(c), HexDigit(d)])
  {
    var value := ['#', a, b, c, d];
    var digits := [a, b, c, d];
    assert value[1..] == digits;
    assert digits[0] != '#';
    assert LStripHash(digits) == digits;
    assert LStripHash(value) == LStripHash(digits);
    var chunks := [[a], [b], [c], [d]];
    FourChunks(a, b, c, d, digits);
    ParseFour(a, b, c, d);
    HexToRgbOf(value, digits, 1, chunks, [HexDigit(a), HexDigit(b), HexDigit(c), HexDigit(d)]);
  }

  /** Four digits are cut into single digits. */
  lemma FourChunks(a: char, b: char, c: char, d: char, digits: string)
    requires digits == [a, b, c, d]
    ensures Chunks(digits, 1, 0) == [[a], [b], [c], [d]]
  {
    assert digits[0..1] == [a] && digits[1..2] == [b] && digits[2..3] == [c] && digits[3..4] == [d];
    assert Chunks(digits, 1, 4) == [];
    assert Chunks(digits, 1, 3) == [[d]];
    assert Chunks(digits, 1, 2) == [[c], [d]];
    assert Chunks(digits, 1, 1) == [[b], [c], [d]];
  }

  lemma ParseFour(a: char, b: char, c: char, d: char)
    requires HexDigit(a) >= 0 && HexDigit(b) >= 0 && HexDigit(c) >= 0 && HexDigit(d) >= 0
    ensures ParseChunks([[a], [b], [c], [d]]) == Ok([HexDigit(a), HexDigit(b), HexDigit(c), HexDigit(d)])
  {
    SingleDigit(a);
    SingleDigit(b);
    SingleDigit(c);
    SingleDigit(d);
    ParseChunksOk([[a], [b], [c], [d]], [HexDigit(a), HexDigit(b), HexDigit(c), HexDigit(d)]);
  }

  lemma SingleDigit(c: char)
    requires HexDigit(c) >= 0
    ensures ParseHex([c]) == Ok(HexDigit(c))
  {
    assert [c][..0] == [];
    ParseHexDigits([c]);
  }

  // ================================================================ lower_dict

  /** What `lower_dict` does to one value: a dict is processed recursively, a string is
      lowercased, anything else (lists included) is kept as it is. */
  function LowerValue(v: Json): (r: Json)
    ensures v.Obj? <==> r.Obj?
    ensures v.Obj? ==> |r.members| == |v.members|
    ensures v.Obj? ==> forall i :: 0 <= i < |v.members| ==> r.members[i].0 == v.members[i].0
    decreases v
  {
    match v
    case Obj(m) => Obj(seq(|m|, i requires 0 <= i < |m| => (m[i].0, LowerValue(m[i].1))))
    case Str(s) => Str(Lower(s))
    case _ => v
  }

  /** `lower_dict(nested_dict)`: a new dict with the same keys in the same order. */
  function LowerDict(members: seq<(string, Json)>): (r: seq<(string, Json)>)
    ensures |r| == |members| && forall i :: 0 <= i < |members| ==> r[i].0 == members[i].0
  {
    LowerValue(Obj(members)).members
  }

  /** Every text value reachable through dicts is lowercase. */
  predicate LowerText(v: Json)
    decreases v
  {
    match v
    case Obj(m) => forall i :: 0 <= i < |m| ==> LowerText(m[i].1)
    case Str(s) => Lower(s) == s
    case _ => true
  }

  lemma {:induction false} LowerValueIsLower(v: Json)
    ensures LowerText(LowerValue(v))
    decreases v
  {
    match v
    case Obj(m) =>
      var r := LowerValue(v).members;
      forall i | 0 <= i < |m| ensures LowerText(r[i].1) {
        LowerValueIsLower(m[i].1);
      }
    case Str(s) => LowerIdempotent(s);
    case _ =>
  }

  /** A value whose text is already lowercase is left as it is. */
  lemma {:induction false} LowerValueFixed(v: Json)
    requires LowerText(v)
    ensures LowerValue(v) == v
    decreases v
  {
    match v
    case Obj(m) =>
      var r := LowerValue(v).members;
      forall i | 0 <= i < |m| ensures r[i] == m[i] {
        LowerValueFixed(m[i].1);
      }
      assert r == m;
    case Str(s) =>
    case _ =>
  }

  /** `lower_dict` lowercases every text value below dicts, and doing it twice is doing it
      once. */
  lemma LowerDictIdempotent(members: seq<(string, Json)>)
    ensures LowerText(Obj(LowerDict(members)))
    ensures LowerDict(LowerDict(members)) == LowerDict(members)
  {
    LowerValueIsLower(Obj(members));
    LowerValueFixed(Obj(LowerDict(members)));
  }

  /** Lists are not descended into: text inside a list keeps its case. */
  lemma ListsKept()
    ensures LowerDict([("k", Arr([Str("A")]))]) == [("k", Arr([Str("A")]))]
  {
  }
}
