/** `split_path_with_bsa` (and its older copy `parse_path`): a path that runs through a
    `.bsa` archive, cut into the archive's path and the path inside it. A path is modelled
    by its components (`Path.parts`); a result `Path("/".join(parts))` by those parts. */
module PathSplitter {
  import opened Wrappers

  /** `part.endswith(".bsa")`, case-sensitive. */
  predicate IsBsa(part: string) {
    |part| >= 4 && part[|part| - 4..] == ".bsa"
  }

  /** Index of the last `.bsa` component among the first `n`, or -1 when there is none. */
  function LastBsa(parts: seq<string>, n: nat): (i: int)
    requires n <= |parts|
    ensures -1 <= i < n
    ensures i >= 0 ==> IsBsa(parts[i])
    ensures forall j :: i < j < n ==> !IsBsa(parts[j])
  {
    if n == 0 then -1 else if IsBsa(parts[n - 1]) then n - 1 else LastBsa(parts, n - 1)
  }

  /** The pair the splitter returns: the components up to and including the last `.bsa`
      one, starting after the `.bsa` component before it; then what follows, if anything. */
  function SplitSpec(parts: seq<string>): (Option<seq<string>>, Option<seq<string>>) {
    var last := LastBsa(parts, |parts|);
    var bsa := if last < 0 then None else Some(parts[LastBsa(parts, last) + 1..last + 1]);
    var file := if last + 1 < |parts| then Some(parts[last + 1..]) else None;
    (bsa, file)
  }

  /** `split_path_with_bsa(path)`: collects components, and on each `.bsa` one takes the
      collected ones as the archive path and starts collecting afresh. */
  method SplitPathWithBsa(path: seq<string>) returns (bsaPath: Option<seq<string>>, filePath: Option<seq<string>>)
    ensures (bsaPath, filePath) == SplitSpec(path)
  {
    bsaPath, filePath := None, None;
    var parts: seq<string> := [];
    ghost var last, prev := -1, -1;
    for i := 0 to |path|
      invariant Collected(path, i, last, prev, parts, bsaPath)
    {
      Collect(path, i, last, prev, parts, bsaPath);
      parts := parts + [path[i]];
      if IsBsa(path[i]) {
        bsaPath := Some(parts);
        parts := [];
        prev, last := last, i;
      }
    }
    Finish(path, last, prev, parts, bsaPath);
    if parts != [] {
      filePath := Some(parts);
    }
  }

  /** The splitter's state after `i` components: `last` is the last `.bsa` one so far and
      `prev` the one before it; `parts` holds what came after `last`. */
  ghost predicate Collected(path: seq<string>, i: nat, last: int, prev: int, parts: seq<string>,
                            bsaPath: Option<seq<string>>)
  {
    i <= |path| && last == LastBsa(path, i) && (last >= 0 ==> prev == LastBsa(path, last)) &&
    parts == path[last + 1..i] &&
    bsaPath == if last < 0 then None else Some(path[prev + 1..last + 1])
  }

  /** One component more keeps the state. */
  lemma Collect(path: seq<string>, i: nat, last: int, prev: int, parts: seq<string>,
                bsaPath: Option<seq<string>>)
    requires i < |path| && Collected(path, i, last, prev, parts, bsaPath)
    ensures IsBsa(path[i]) ==> Collected(path, i + 1, i, last, [], Some(parts + [path[i]]))
    ensures !IsBsa(path[i]) ==> Collected(path, i + 1, last, prev, parts + [path[i]], bsaPath)
  {
    SliceSnoc(path, last + 1, i);
  }

  /** At the end the state is the split. */
  lemma Finish(path: seq<string>, last: int, prev: int, parts: seq<string>, bsaPath: Option<seq<string>>)
    requires Collected(path, |path|, last, prev, parts, bsaPath)
    ensures bsaPath == SplitSpec(path).0
    ensures (if parts != [] then Some(parts) else None) == SplitSpec(path).1
  {
    assert path[last + 1..|path|] == path[last + 1..];
  }

  lemma SliceSnoc<T>(s: seq<T>, a: nat, b: nat)
    requires a <= b < |s|
    ensures s[a..b + 1] == s[a..b] + [s[b]]
  {
  }

  /** With no `.bsa` component the whole path is the file path, and there is no archive. */
  lemma NoArchive(parts: seq<string>)
    requires parts != [] && forall j :: 0 <= j < |parts| ==> !IsBsa(parts[j])
    ensures SplitSpec(parts) == (None, Some(parts))
  {
    assert LastBsa(parts, |parts|) == -1;
  }

  /** A path that ends in an archive has no file path. */
  lemma EndsInArchive(parts: seq<string>)
    requires parts != [] && IsBsa(parts[|parts| - 1])
    ensures SplitSpec(parts).0.Some? && SplitSpec(parts).1 == None
  {
  }

  /** With one `.bsa` component at most, the two parts put back together are the path. */
  lemma SplitRejoin(parts: seq<string>)
    requires forall i, j :: 0 <= i < j < |parts| && IsBsa(parts[i]) ==> !IsBsa(parts[j])
    ensures var (bsa, file) := SplitSpec(parts);
      (if bsa.Some? then bsa.value else []) + (if file.Some? then file.value else []) == parts
  {
    var last := LastBsa(parts, |parts|);
    if last >= 0 {
      assert LastBsa(parts, last) == -1;
    }
  }

  /** The archive path ends in a `.bsa` component and holds no other; the file path holds
      none. */
  lemma SplitParts(parts: seq<string>)
    ensures var (bsa, file) := SplitSpec(parts);
      (bsa.Some? ==> bsa.value != [] && IsBsa(bsa.value[|bsa.value| - 1]) &&
                     forall j :: 0 <= j < |bsa.value| - 1 ==> !IsBsa(bsa.value[j])) &&
      (file.Some? ==> file.value != [] && forall j :: 0 <= j < |file.value| ==> !IsBsa(file.value[j]))
  {
    var last := LastBsa(parts, |parts|);
    if last >= 0 {
      var prev := LastBsa(parts, last);
      var bsa := parts[prev + 1..last + 1];
      forall j | 0 <= j < |bsa| - 1 ensures !IsBsa(bsa[j]) {
        assert bsa[j] == parts[prev + 1 + j];
      }
    }
    if last + 1 < |parts| {
      var file := parts[last + 1..];
      forall j | 0 <= j < |file| ensures !IsBsa(file[j]) {
        assert file[j] == parts[last + 1 + j];
      }
    }
  }

  /** The example of the docstring. */
  lemma DocstringExample()
    ensures SplitSpec(["C:\\", "Modding", "RaceMenu", "RaceMenu.bsa", "interface", "racesex_menu.swf"])
      == (Some(["C:\\", "Modding", "RaceMenu", "RaceMenu.bsa"]), Some(["interface", "racesex_menu.swf"]))
  {
    var parts := ["C:\\", "Modding", "RaceMenu", "RaceMenu.bsa", "interface", "racesex_menu.swf"];
    assert !IsBsa(parts[5]) && !IsBsa(parts[4]) && IsBsa(parts[3]);
    assert !IsBsa(parts[2]) && !IsBsa(parts[1]) && !IsBsa(parts[0]);
    assert LastBsa(parts, 6) == 3;
    assert LastBsa(parts, 3) == -1;
    assert parts[..4] == ["C:\\", "Modding", "RaceMenu", "RaceMenu.bsa"];
    assert parts[4..] == ["interface", "racesex_menu.swf"];
  }

  /** With two archives on the path, the archive path starts after the first one. */
  lemma NestedArchives()
    ensures SplitSpec(["a.bsa", "b", "c.bsa", "d"]) == (Some(["b", "c.bsa"]), Some(["d"]))
  {
    var parts := ["a.bsa", "b", "c.bsa", "d"];
    assert !IsBsa(parts[3]) && IsBsa(parts[2]) && !IsBsa(parts[1]) && IsBsa(parts[0]);
    assert LastBsa(parts, 4) == 2;
    assert LastBsa(parts, 2) == 0;
    assert parts[1..3] == ["b", "c.bsa"] && parts[3..] == ["d"];
  }

  /** The suffix test is case-sensitive: `.BSA` is not an archive. */
  lemma UpperCaseSuffix()
    ensures SplitSpec(["A.BSA", "f.swf"]) == (None, Some(["A.BSA", "f.swf"]))
  {
    var parts := ["A.BSA", "f.swf"];
    assert !IsBsa(parts[0]) && !IsBsa(parts[1]);
    assert LastBsa(parts, 2) == -1;
  }
}
