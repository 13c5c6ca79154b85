/** `pattern_to_regex` of the native glob helper: a file-name glob pattern turned into the
    regular expression `glob_cpp` matches file names against. */
module GlobRegex {

  /** What one pattern character becomes: `*` any run, `?` any one character, `.` a
      literal dot; every other character, other regex metacharacters included, is copied. */
  function Translate(c: char): (r: string)
    ensures 1 <= |r| <= 2
  {
    match c
    case '*' => ".*"
    case '?' => "."
    case '.' => "\\."
    case _ => [c]
  }

  /** The translation of a whole pattern, character by character in order. */
  function RegexOf(pattern: string): (r: string)
    decreases |pattern|
  {
    if pattern == [] then [] else Translate(pattern[0]) + RegexOf(pattern[1..])
  }

  lemma {:induction false} RegexAppend(a: string, b: string)
    ensures RegexOf(a + b) == RegexOf(a) + RegexOf(b)
    decreases |a|
  {
    if a == [] {
      assert a + b == b;
    } else {
      assert (a + b)[0] == a[0] && (a + b)[1..] == a[1..] + b;
      RegexAppend(a[1..], b);
    }
  }

  /** `pattern_to_regex`: appends each character's translation to the result. */
  method PatternToRegex(pattern: string) returns (regex: string)
    ensures regex == RegexOf(pattern)
  {
    regex := "";
    for i := 0 to |pattern|
      invariant regex == RegexOf(pattern[..i])
    {
      var c := pattern[i];
      if c == '*' {
        regex := regex + ".*";
      } else if c == '?' {
        regex := regex + ".";
      } else if c == '.' {
        regex := regex + "\\.";
      } else {
        regex := regex + [c];
      }
      assert pattern[..i + 1] == pattern[..i] + [c];
      RegexAppend(pattern[..i], [c]);
      assert RegexOf([c]) == Translate(c);
    }
    assert pattern[..|pattern|] == pattern;
  }

  /** The output is one or two characters per input character: two for `*` and `.`. */
  lemma {:induction false} RegexLength(pattern: string)
    ensures |RegexOf(pattern)| == |pattern| + multiset(pattern)['*'] + multiset(pattern)['.']
    decreases |pattern|
  {
    if pattern != [] {
      RegexLength(pattern[1..]);
      assert pattern == [pattern[0]] + pattern[1..];
      assert multiset(pattern) == multiset([pattern[0]]) + multiset(pattern[1..]);
    }
  }

  /** Reads a translated pattern back: `.*` is `*`, a lone `.` is `?`, `\.` is `.`. */
  function Unglob(regex: string): (p: string)
    decreases |regex|
  {
    if regex == [] then []
    else if |regex| >= 2 && regex[..2] == ".*" then "*" + Unglob(regex[2..])
    else if regex[0] == '.' then "?" + Unglob(regex[1..])
    else if |regex| >= 2 && regex[..2] == "\\." then "." + Unglob(regex[2..])
    else [regex[0]] + Unglob(regex[1..])
  }

  /** The output never starts with a bare `*`: every `*` comes right after a `.`. */
  lemma NoLeadingStar(pattern: string)
    ensures RegexOf(pattern) == [] || RegexOf(pattern)[0] != '*'
  {
  }

  /** For a pattern without backslashes nothing is lost: the pattern can be read back. */
  lemma {:induction false} UnglobRegex(pattern: string)
    requires '\\' !in pattern
    ensures Unglob(RegexOf(pattern)) == pattern
    decreases |pattern|
  {
    if pattern != [] {
      var c, rest := pattern[0], RegexOf(pattern[1..]);
      assert RegexOf(pattern) == Translate(c) + rest;
      NoLeadingStar(pattern[1..]);
      UnglobRegex(pattern[1..]);
      if c == '*' {
        assert (".*" + rest)[..2] == ".*" && (".*" + rest)[2..] == rest;
      } else if c == '?' {
        assert ("." + rest)[1..] == rest;
        assert |"." + rest| >= 2 ==> ("." + rest)[..2] != ".*";
      } else if c == '.' {
        assert ("\\." + rest)[..2] == "\\." && ("\\." + rest)[2..] == rest;
      } else {
        assert ([c] + rest)[1..] == rest;
      }
      assert pattern == [c] + pattern[1..];
    }
  }

  /** Backslashes are copied, not escaped, so a literal backslash before `?` yields the
      same expression as a literal dot: the translation is not one-to-one. */
  lemma BackslashCollision()
    ensures RegexOf("\\?") == RegexOf(".") == "\\."
  {
    assert RegexOf("\\?") == Translate('\\') + RegexOf("?");
    assert RegexOf("?") == Translate('?') + RegexOf("");
  }
}
