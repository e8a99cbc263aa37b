/** The output-file name rule of the command line entry point. */
module Cli {
  import opened Wrappers
  import opened Text
  import opened Paths
  import opened Exclusion

  /** The '.' at `i` starts an extension: it follows the character at `k`,
      which is not a dot, and no '/' comes from `k` on, so both lie in the
      final component. */
  ghost predicate ExtensionDot(p: string, k: int, i: int) {
    && 0 <= k < i < |p|
    && p[i] == '.' && p[k] != '.'
    && forall j :: k <= j < |p| ==> p[j] != '/'
  }

  /** `os.path.splitext(p)[1]` on a POSIX path: from the last '.' on, when
      that dot lies in the final component and is preceded there by some
      character other than a dot; "" otherwise. */
  function Ext(p: string): (r: string)
    ensures r != "" <==> exists k, i :: ExtensionDot(p, k, i)
    ensures r != "" ==> r[0] == '.' && EndsWith(p, r) && |r| < |p|
    ensures r != "" ==> forall k :: 1 <= k < |r| ==> r[k] != '.' && r[k] != '/'
  {
    var sep := LastIndexOf(p, '/');
    var dot := LastIndexOf(p, '.');
    ExtCondition(p);
    if dot > sep && exists k :: sep < k < dot && p[k] != '.' then p[dot..] else ""
  }

  /** The test `splitext` makes, with the last '/' and the last '.', holds
      exactly when the name has an extension dot. */
  lemma ExtCondition(p: string)
    ensures var sep := LastIndexOf(p, '/'); var dot := LastIndexOf(p, '.');
      (dot > sep && exists k :: sep < k < dot && p[k] != '.') <==> exists k, i :: ExtensionDot(p, k, i)
  {
    var sep := LastIndexOf(p, '/');
    var dot := LastIndexOf(p, '.');
    if dot > sep && exists k :: sep < k < dot && p[k] != '.' {
      var k :| sep < k < dot && p[k] != '.';
      assert ExtensionDot(p, k, dot);
    }
    if exists k, i :: ExtensionDot(p, k, i) {
      var k, i :| ExtensionDot(p, k, i);
      assert sep < k;
      assert i <= dot;
      assert sep < k < dot && p[k] != '.';
    }
  }

  /** The name `main` writes to: with no output given (`None` or empty), the
      base name of the absolute directory followed by the configured suffix;
      a given name without an extension gets the suffix appended; a given
      name with an extension is used as it is. */
  function OutputName(cwd: Path, directory: Path, output: Option<string>, suffix: string): (r: string)
    ensures output.None? || output.value == "" ==> r == Basename(AbsForm(cwd, directory)) + suffix
    ensures output.Some? && output.value != "" ==> StartsWith(r, output.value)
    ensures output.Some? && output.value != "" && Ext(output.value) == "" ==> r == output.value + suffix
    ensures output.Some? && output.value != "" && Ext(output.value) != "" ==> r == output.value
  {
    if output.None? || output.value == "" then Basename(AbsForm(cwd, directory)) + suffix
    else if Ext(output.value) == "" then output.value + suffix
    else output.value
  }

  /** The configured suffix carries the extension ".txt", so a name it was
      appended to has that extension. */
  lemma {:induction false} SuffixGivesExtension(o: string)
    ensures Ext(o + OutputSuffix) == ".txt"
  {
    var p := o + OutputSuffix;
    var i := |o| + 23;
    assert OutputSuffix[23] == '.';
    assert p[i] == '.';
    forall k | i < k < |p| ensures p[k] != '.' {
      assert p[k] == OutputSuffix[k - |o|];
    }
    LastIndexUnique(p, '.', i);
    assert forall k :: 0 <= k < |OutputSuffix| ==> OutputSuffix[k] != '/';
    LastIndexOfAppend(o, OutputSuffix, '/');
    assert LastIndexOf(OutputSuffix, '/') == -1;
    var sep := LastIndexOf(p, '/');
    assert sep < |o|;
    assert p[|o|] == '_';
    assert p[i..] == ".txt";
  }

  /** Applying the rule to its own result changes nothing: every name it
      produces, the default one included, already has an extension. */
  lemma RuleIdempotent(cwd: Path, directory: Path, output: Option<string>)
    ensures var once := OutputName(cwd, directory, output, OutputSuffix);
      OutputName(cwd, directory, Some(once), OutputSuffix) == once
  {
    if output.None? || output.value == "" {
      SuffixGivesExtension(Basename(AbsForm(cwd, directory)));
    } else if Ext(output.value) == "" {
      SuffixGivesExtension(output.value);
    }
  }

  /** A default or suffixed name ends with the reserved suffix, which the
      engine's exclusion rule skips even before the output file is set. */
  lemma SuffixedNameReserved(cwd: Path, directory: Path, output: Option<string>)
    requires output.None? || output.value == "" || Ext(output.value) == ""
    ensures HasReservedSuffix([OutputName(cwd, directory, output, OutputSuffix)])
  {
    var r := OutputName(cwd, directory, output, OutputSuffix);
    assert r[|r| - |OutputSuffix|..] == OutputSuffix;
  }

  /** `-d testdir` in any working directory names the output
      "testdir_file_combinator_output.txt". */
  lemma TestdirDefault(cwd: Path)
    requires Absolute(cwd)
    ensures OutputName(cwd, ["testdir"], None, OutputSuffix) == "testdir_file_combinator_output.txt"
  {
    assert AbsForm(cwd, ["testdir"]) == cwd + ["testdir"];
  }

  /** "report" gets the suffix; "report.md" and "notes." keep their names,
      the lone trailing dot counting as an extension; ".env" has none. */
  lemma ExtensionExamples()
    ensures Ext("report") == "" && Ext("report.md") == ".md" && Ext("notes.") == "."
    ensures Ext(".env") == "" && Ext("out.d/report") == ""
  {
    assert LastIndexOf("report", '.') == -1;
    LastIndexUnique("report.md", '.', 6);
    LastIndexUnique("report.md", '/', -1);
    assert "report.md"[0] != '.';
    LastIndexUnique("notes.", '.', 5);
    LastIndexUnique("notes.", '/', -1);
    assert "notes."[0] != '.';
    LastIndexUnique(".env", '.', 0);
    LastIndexUnique("out.d/report", '.', 3);
    LastIndexUnique("out.d/report", '/', 5);
  }

  /** A hidden name has no extension even below a dotted directory; a dot in
      a directory name is no extension either. */
  lemma HiddenNameExamples()
    ensures Ext("a/.env") == "" && Ext("a.b/c") == ""
  {
    LastIndexUnique("a/.env", '.', 2);
    LastIndexUnique("a/.env", '/', 1);
    LastIndexUnique("a.b/c", '.', 1);
    LastIndexUnique("a.b/c", '/', 3);
  }
}
