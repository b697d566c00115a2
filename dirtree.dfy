/**
  The tree walker, `list_directory_tree`: for every directory `os.walk` visits, every file
  name it lists there is emitted, joined to the directory's path, unless the name matches
  one of the exclusion patterns. The walk itself is an input: the sequence of
  (directory path, file names) pairs `os.walk` produces, in its order. The glob matcher
  `fnmatch.fnmatch` is a parameter.
*/
module DirTree {
  import opened Wrappers

  /** One step of `os.walk`: a directory's path and the names of the files directly in it. */
  datatype WalkStep = WalkStep(dirpath: string, filenames: seq<string>)

  /** `fnmatch.fnmatch(name, pattern)`. */
  type Matcher = (string, string) -> bool

  /** `EXCLUDE_PATTERNS`, the default: compressed `.bz2` files. */
  const ExcludePatterns: seq<string> := ["*.bz2"]

  /** A file name is excluded when it matches at least one pattern (`any(...)`). */
  predicate Excluded(name: string, patterns: seq<string>, fnmatch: Matcher) {
    exists p :: p in patterns && fnmatch(name, p)
  }

  /** `exclude_patterns=None` means no patterns at all. */
  function PatternsOf(patterns: Option<seq<string>>): seq<string> {
    match patterns
    case None => []
    case Some(ps) => ps
  }

  /** `os.path.join(dirpath, name)` for a file name that is not absolute. */
  function PathJoin(dirpath: string, name: string): string {
    if dirpath == [] || dirpath[|dirpath| - 1] == '/' then dirpath + name
    else dirpath + "/" + name
  }

  /** The names of one directory that survive the exclusion filter, in their listed order. */
  function KeptNames(names: seq<string>, patterns: seq<string>, fnmatch: Matcher): seq<string>
  {
    if names == [] then []
    else
      var last := names[|names| - 1];
      KeptNames(names[..|names| - 1], patterns, fnmatch)
        + (if Excluded(last, patterns, fnmatch) then [] else [last])
  }

  /** The paths one walk step contributes. */
  function StepPaths(step: WalkStep, patterns: seq<string>, fnmatch: Matcher): seq<string>
  {
    var kept := KeptNames(step.filenames, patterns, fnmatch);
    seq(|kept|, i requires 0 <= i < |kept| => PathJoin(step.dirpath, kept[i]))
  }

  /** Everything the generator yields over a whole walk, in order. */
  function TreePaths(walk: seq<WalkStep>, patterns: seq<string>, fnmatch: Matcher): seq<string>
  {
    if walk == [] then []
    else TreePaths(walk[..|walk| - 1], patterns, fnmatch) + StepPaths(walk[|walk| - 1], patterns, fnmatch)
  }

  /**
    `list_directory_tree(dir_, exclude_patterns)`, run to completion over the walk of
    `dir_`: the two nested loops of the generator, collecting what it yields.
  */
  method ListDirectoryTree(walk: seq<WalkStep>, excludePatterns: Option<seq<string>>, fnmatch: Matcher)
    returns (paths: seq<string>)
    ensures paths == TreePaths(walk, PatternsOf(excludePatterns), fnmatch)
  {
    var patterns := PatternsOf(excludePatterns);
    paths := [];
    var i := 0;
    while i < |walk|
      invariant 0 <= i <= |walk|
      invariant paths == TreePaths(walk[..i], patterns, fnmatch)
    {
      var step := walk[i];
      ghost var before := paths;
      var j := 0;
      while j < |step.filenames|
        invariant 0 <= j <= |step.filenames|
        invariant paths == before + StepPaths(WalkStep(step.dirpath, step.filenames[..j]), patterns, fnmatch)
      {
        var filename := step.filenames[j];
        StepPathsSnoc(step.dirpath, step.filenames[..j], filename, patterns, fnmatch);
        assert step.filenames[..j + 1] == step.filenames[..j] + [filename];
        if !Excluded(filename, patterns, fnmatch) {
          paths := paths + [PathJoin(step.dirpath, filename)];
        }
        j := j + 1;
      }
      assert step.filenames[..j] == step.filenames;
      TreePathsSnoc(walk, i, patterns, fnmatch);
      i := i + 1;
    }
    assert walk[..i] == walk;
  }

  /** Listing one more file name adds its path at the end, unless the name is excluded. */
  lemma StepPathsSnoc(dirpath: string, names: seq<string>, name: string, patterns: seq<string>, fnmatch: Matcher)
    ensures StepPaths(WalkStep(dirpath, names + [name]), patterns, fnmatch)
         == StepPaths(WalkStep(dirpath, names), patterns, fnmatch)
            + (if Excluded(name, patterns, fnmatch) then [] else [PathJoin(dirpath, name)])
  {
    assert (names + [name])[..|names|] == names;
  }

  /** Walking one more directory appends the paths of that step. */
  lemma TreePathsSnoc(walk: seq<WalkStep>, i: nat, patterns: seq<string>, fnmatch: Matcher)
    requires i < |walk|
    ensures TreePaths(walk[..i + 1], patterns, fnmatch) == TreePaths(walk[..i], patterns, fnmatch) + StepPaths(walk[i], patterns, fnmatch)
  {
    assert walk[..i + 1][..i] == walk[..i];
  }

  // ---------------------------------------------------------------------------
  // What the filter keeps

  /** A name is kept if and only if it is listed and matches none of the patterns. */
  lemma {:induction false} KeptNamesMember(names: seq<string>, patterns: seq<string>, fnmatch: Matcher, x: string)
    ensures x in KeptNames(names, patterns, fnmatch) <==> x in names && !Excluded(x, patterns, fnmatch)
  {
    if names != [] {
      KeptNamesMember(names[..|names| - 1], patterns, fnmatch, x);
      assert names == names[..|names| - 1] + [names[|names| - 1]];
    }
  }

  /** The filter keeps the order of the names: it distributes over concatenation. */
  lemma {:induction false} KeptNamesAppend(a: seq<string>, b: seq<string>, patterns: seq<string>, fnmatch: Matcher)
    ensures KeptNames(a + b, patterns, fnmatch) == KeptNames(a, patterns, fnmatch) + KeptNames(b, patterns, fnmatch)
  {
    if b == [] {
      assert a + b == a;
    } else {
      assert (a + b)[..|a + b| - 1] == a + b[..|b| - 1];
      KeptNamesAppend(a, b[..|b| - 1], patterns, fnmatch);
    }
  }

  /** With no patterns (`exclude_patterns=None`) every name is kept, in order. */
  lemma {:induction false} KeptNamesNoPatterns(names: seq<string>, fnmatch: Matcher)
    ensures KeptNames(names, PatternsOf(None), fnmatch) == names
  {
    if names != [] {
      KeptNamesNoPatterns(names[..|names| - 1], fnmatch);
    }
  }

  /** Every path of the listing is a kept name of some walk step, joined to that step's path. */
  lemma {:induction false} TreePathsSound(walk: seq<WalkStep>, patterns: seq<string>, fnmatch: Matcher, path: string)
    requires path in TreePaths(walk, patterns, fnmatch)
    ensures exists i, name :: 0 <= i < |walk| && name in walk[i].filenames
                              && !Excluded(name, patterns, fnmatch) && path == PathJoin(walk[i].dirpath, name)
  {
    var last := walk[|walk| - 1];
    if path in TreePaths(walk[..|walk| - 1], patterns, fnmatch) {
      TreePathsSound(walk[..|walk| - 1], patterns, fnmatch, path);
      var i, name :| 0 <= i < |walk| - 1 && name in walk[..|walk| - 1][i].filenames
                     && !Excluded(name, patterns, fnmatch) && path == PathJoin(walk[..|walk| - 1][i].dirpath, name);
      assert walk[..|walk| - 1][i] == walk[i];
    } else {
      var kept := KeptNames(last.filenames, patterns, fnmatch);
      var k :| 0 <= k < |kept| && StepPaths(last, patterns, fnmatch)[k] == path;
      KeptNamesMember(last.filenames, patterns, fnmatch, kept[k]);
      assert kept[k] in kept;
    }
  }

  /** Every listed name that matches no pattern shows up in the listing, joined to its directory. */
  lemma {:induction false} TreePathsComplete(walk: seq<WalkStep>, patterns: seq<string>, fnmatch: Matcher, i: nat, name: string)
    requires i < |walk| && name in walk[i].filenames && !Excluded(name, patterns, fnmatch)
    ensures PathJoin(walk[i].dirpath, name) in TreePaths(walk, patterns, fnmatch)
  {
    if i < |walk| - 1 {
      assert walk[..|walk| - 1][i] == walk[i];
      TreePathsComplete(walk[..|walk| - 1], patterns, fnmatch, i, name);
    } else {
      var kept := KeptNames(walk[i].filenames, patterns, fnmatch);
      KeptNamesMember(walk[i].filenames, patterns, fnmatch, name);
      var k :| 0 <= k < |kept| && kept[k] == name;
      assert StepPaths(walk[i], patterns, fnmatch)[k] == PathJoin(walk[i].dirpath, name);
    }
  }

  // ---------------------------------------------------------------------------
  // The default pattern, under a matcher for the `*.suffix` patterns

  /** True when `name` ends with `suffix`. */
  predicate HasSuffix(name: string, suffix: string) {
    |suffix| <= |name| && name[|name| - |suffix|..] == suffix
  }

  /** A pattern `*` followed by a text without glob metacharacters. */
  predicate StarSuffixPattern(pattern: string) {
    |pattern| >= 1 && pattern[0] == '*' && forall i :: 1 <= i < |pattern| ==> pattern[i] !in "*?["
  }

  /** `fnmatch.fnmatch` on `*.suffix` patterns: the name ends with the suffix. */
  predicate StarSuffixMatch(name: string, pattern: string) {
    StarSuffixPattern(pattern) && HasSuffix(name, pattern[1..])
  }

  /**
    Under the default patterns, a name ending in `.bz2` is dropped, and a name such as
    `archive.tar` is kept.
  */
  lemma DefaultPatterns(name: string)
    ensures HasSuffix(name, ".bz2") <==> Excluded(name, ExcludePatterns, StarSuffixMatch)
    ensures !Excluded("archive.tar", ExcludePatterns, StarSuffixMatch)
  {
    assert StarSuffixPattern("*.bz2");
    assert "*.bz2"[1..] == ".bz2";
    assert ExcludePatterns == ["*.bz2"];
    assert forall p :: p in ExcludePatterns ==> p == "*.bz2";
    if HasSuffix(name, ".bz2") {
      assert "*.bz2" in ExcludePatterns && StarSuffixMatch(name, "*.bz2");
    }
    assert "archive.tar"[7..] == ".tar";
  }

  /** So under the default patterns, no listed path comes from a `.bz2` file. */
  lemma DefaultListingDropsBz2(walk: seq<WalkStep>, path: string)
    requires path in TreePaths(walk, ExcludePatterns, StarSuffixMatch)
    ensures exists i, name :: 0 <= i < |walk| && name in walk[i].filenames
                              && !HasSuffix(name, ".bz2") && path == PathJoin(walk[i].dirpath, name)
  {
    TreePathsSound(walk, ExcludePatterns, StarSuffixMatch, path);
    var i, name :| 0 <= i < |walk| && name in walk[i].filenames
                   && !Excluded(name, ExcludePatterns, StarSuffixMatch) && path == PathJoin(walk[i].dirpath, name);
    DefaultPatterns(name);
  }
}
