/** The exclusion matcher of `FileCombinator.is_excluded`. */
module Exclusion {
  import opened Text
  import opened Paths
  import opened Wrappers

  /** The reserved ending of output and staging file names. */
  const OutputSuffix := "_file_combinator_output.txt"

  /** `FileCombinator.DEFAULT_EXCLUDES`. */
  const DefaultExcludes: set<string> := {
    "__pycache__", ".venv", ".git", "node_modules", ".DS_Store", ".pytest_cache",
    ".vscode", "logs", ".mypy_cache", ".cache", ".pythonlibs", ".local", "gitdiff.txt"
  }

  /** What `is_excluded` consults: the working directory (for `abspath`),
      the configured output file and the active pattern set. */
  datatype Matcher = Matcher(cwd: Path, outputFile: Option<Path>, patterns: set<string>)

  predicate IsOutputFile(m: Matcher, p: Path) {
    m.outputFile.Some? && AbsForm(m.cwd, p) == AbsForm(m.cwd, m.outputFile.value)
  }

  predicate HasReservedSuffix(p: Path) {
    EndsWith(Basename(p), OutputSuffix)
  }

  /** Some pattern is one of the path's parts (`exclude in path.parts`),
      scanning the parts from the first. */
  predicate MatchesPattern(patterns: set<string>, p: Path) {
    |p| > 0 && (p[0] in patterns || MatchesPattern(patterns, p[1..]))
  }

  /** The scan finds a pattern exactly when some part equals one. */
  lemma {:induction false} MatchesPatternIff(patterns: set<string>, p: Path)
    ensures MatchesPattern(patterns, p) <==> exists i :: 0 <= i < |p| && p[i] in patterns
  {
    if |p| > 0 {
      MatchesPatternIff(patterns, p[1..]);
      if exists i :: 0 <= i < |p| && p[i] in patterns {
        var i :| 0 <= i < |p| && p[i] in patterns;
        if i > 0 {
          assert p[1..][i - 1] == p[i];
        }
      }
      if exists i :: 0 <= i < |p[1..]| && p[1..][i] in patterns {
        var i :| 0 <= i < |p[1..]| && p[1..][i] in patterns;
        assert p[i + 1] in patterns;
      }
    }
  }

  /** `is_excluded(path)`: the output file itself, any file whose basename has
      the reserved suffix, and any path with a part equal to a pattern. */
  function IsExcluded(m: Matcher, p: Path): (r: bool)
    ensures IsOutputFile(m, p) ==> r
    ensures HasReservedSuffix(p) ==> r
  {
    IsOutputFile(m, p) || HasReservedSuffix(p) || MatchesPattern(m.patterns, p)
  }

  /** The whole rule: excluded exactly when the path is the output file, has
      the reserved suffix, or has a part equal to a pattern; a part merely
      containing a pattern does not count. */
  lemma ExclusionRule(m: Matcher, p: Path)
    ensures IsExcluded(m, p) <==>
      IsOutputFile(m, p) || HasReservedSuffix(p) || exists i :: 0 <= i < |p| && p[i] in m.patterns
  {
    MatchesPatternIff(m.patterns, p);
  }

  /** A pattern match on a directory is inherited by everything below it,
      so pruning an excluded directory drops only paths that are excluded. */
  lemma PatternInherited(m: Matcher, dir: Path, rest: Path)
    requires MatchesPattern(m.patterns, dir)
    ensures IsExcluded(m, dir + rest)
  {
    MatchesPatternIff(m.patterns, dir);
    var i :| 0 <= i < |dir| && dir[i] in m.patterns;
    assert (dir + rest)[i] == dir[i];
    ExclusionRule(m, dir + rest);
  }

  /** Matching is by whole part: a part that merely contains a pattern, such
      as "mynode_modules" for "node_modules", does not exclude the path. */
  lemma WholePartsOnly()
    ensures !IsExcluded(Matcher(["/"], None, {"node_modules"}), ["src", "mynode_modules", "index.js"])
    ensures IsExcluded(Matcher(["/"], None, {"node_modules"}), ["src", "node_modules", "index.js"])
  {
    var p := ["src", "mynode_modules", "index.js"];
    assert !EndsWith(Basename(p), OutputSuffix);
    assert forall i :: 0 <= i < |p| ==> p[i] != "node_modules";
    var q := ["src", "node_modules", "index.js"];
    assert q[1] == "node_modules";
  }

  /** The default patterns exclude `__pycache__/test.py` and `.git/config`
      but not `regular_file.txt`. */
  lemma DefaultExamples(cwd: Path)
    ensures IsExcluded(Matcher(cwd, None, DefaultExcludes), ["__pycache__", "test.py"])
    ensures IsExcluded(Matcher(cwd, None, DefaultExcludes), [".git", "config"])
    ensures !IsExcluded(Matcher(cwd, None, DefaultExcludes), ["regular_file.txt"])
  {
    var a, b, c := ["__pycache__", "test.py"], [".git", "config"], ["regular_file.txt"];
    assert a[0] in DefaultExcludes;
    assert b[0] in DefaultExcludes;
    assert !EndsWith(Basename(c), OutputSuffix);
    assert c[0] !in DefaultExcludes;
  }
}
