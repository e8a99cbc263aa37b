/** The engine object of `filecombinator.py`: its configuration, its counters
    and file lists, and the methods that write the tree and the file blocks to
    an open stream and publish the result. */
module Combine {
  import opened Wrappers
  import opened Text
  import opened Paths
  import opened Exclusion
  import opened Classifier
  import opened FileTree
  import opened Report
  import opened Render
  import opened Walk
  import opened Storage

  class FileCombinator {
    /** The working directory relative paths are resolved against. */
    const cwd: Path
    /** `exclude_patterns`: the defaults plus the caller's additions. */
    const patterns: set<string>
    /** `output_file`, None when not given or empty. */
    const outputFile: Option<Path>
    /** `_stats` and `_files`. */
    var stats: FileStats
    var files: FileLists

    constructor (cwd: Path, additional: set<string>, outputFile: Option<Path>)
      ensures this.cwd == cwd && this.outputFile == outputFile
      ensures patterns == DefaultExcludes + additional
      ensures stats == NoStats && files == NoFiles
    {
      this.cwd := cwd;
      this.patterns := DefaultExcludes + additional;
      this.outputFile := outputFile;
      stats := NoStats;
      files := NoFiles;
    }

    /** What `is_excluded` consults. */
    function Matcher(): Matcher {
      Exclusion.Matcher(cwd, outputFile, patterns)
    }

    /** The counters, the lists and what has been written to `out`. */
    function State(out: Sink): RunState
      reads this, out
    {
      RunState(stats, files, out.text)
    }

    /** `_increment_stat(name)`. */
    method IncrementStat(c: Counter)
      modifies this
      ensures stats == Incremented(old(stats), c) && files == old(files)
    {
      stats := Incremented(stats, c);
    }

    /** `_add_file(name, path)`. */
    method AddFile(l: ListName, rel: string)
      modifies this
      ensures files == Appended(old(files), l, rel) && stats == old(stats)
    {
      files := Appended(files, l, rel);
    }

    /** `process_file`: false when `os.stat` fails, which raises before anything
        is written or counted; otherwise the block is written and exactly the
        counter and list of the file's disposition grow, as `Step` says. */
    method ProcessFile(path: Path, data: FileData, out: Sink) returns (ok: bool)
      modifies this, out
      ensures ok <==> data.stat.Some?
      ensures Step(cwd, old(State(out)), Visit(path, data)) == (if ok then Some(State(out)) else None)
      ensures !ok ==> State(out) == old(State(out))
    {
      var rel := RelPath(cwd, path);
      var r := GetFileInfo(Basename(path), data.stat, data.sniff, data.bytes);
      if r.Err? {
        return false;
      }
      var info := r.value;
      ghost var expected := Record(old(State(out)), rel, info, data.text);
      StepRecords(cwd, old(State(out)), Visit(path, data), info);
      ghost var before := out.text;
      out.Write(SeparatorLine());
      out.Write(PathLine(rel));
      out.Write(MetadataLine(info));
      ghost var head := out.text;
      WritesAssoc(before, SeparatorLine(), PathLine(rel), MetadataLine(info));
      match info.kind {
        case Image =>
          out.Write(ImageMarker);
          IncrementStat(ImageCount);
          AddFile(ImageList, rel);
        case Binary =>
          out.Write(BinaryMarker);
          IncrementStat(BinaryCount);
          AddFile(BinaryList, rel);
        case Text =>
          WriteText(rel, data.text, out);
      }
      ConcatAssoc(before, SeparatorLine() + PathLine(rel) + MetadataLine(info), Body(info.kind, data.text));
      assert out.text == expected.out;
      RecordOneCounter(old(State(out)), rel, info, data.text);
      ok := true;
    }

    /** The text branch of `process_file`: the start marker, the content or
        the read error, the end marker; `processed` and the text list grow
        when the content could be read, `skipped` alone otherwise. */
    method WriteText(rel: string, t: ReadResult, out: Sink)
      modifies this, out
      ensures out.text == old(out.text) + Body(Text, t)
      ensures stats == Incremented(old(stats), if t.Decoded? then Processed else Skipped)
      ensures files == if t.Decoded? then Appended(old(files), TextList, rel) else old(files)
    {
      ghost var before := out.text;
      out.Write(StartMarker);
      match t {
        case Decoded(content) =>
          out.Write(content);
          IncrementStat(Processed);
          AddFile(TextList, rel);
        case ReadError(message) =>
          out.Write("Error reading file: " + message + "\n");
          IncrementStat(Skipped);
      }
      out.Write(EndMarker);
      WritesAssoc(before, StartMarker, ReadText(t), EndMarker);
    }

    /** `write_tree(path, prefix)` for the directory `d` at `dirPath`. */
    method WriteTree(dirPath: Path, d: Node, prefix: string, out: Sink)
      requires d.Dir?
      modifies out
      ensures out.text == old(out.text) + Emit(Entries(Matcher(), dirPath, d, prefix))
      decreases d, 1
    {
      var m := Matcher();
      var entries := SortByName(d.children);
      SortedChildren(d);
      var i := 0;
      while i < |entries|
        invariant 0 <= i <= |entries|
        invariant old(out.text) + Emit(EntriesFrom(m, dirPath, d, entries, 0, prefix)) ==
          out.text + Emit(EntriesFrom(m, dirPath, d, entries, i, prefix))
      {
        WriteEntry(dirPath, d, entries, i, prefix, out);
        i := i + 1;
      }
    }

    /** One pass of the loop of `write_tree`: the entry at index `i` of the
        sorted listing `entries`, unless excluded, gets its line, with the
        corner only at the last index, and a directory its lines below. */
    method WriteEntry(dirPath: Path, d: Node, entries: seq<Node>, i: nat, prefix: string, out: Sink)
      requires d.Dir? && i < |entries|
      requires forall k :: 0 <= k < |entries| ==> entries[k] in d.children
      modifies out
      ensures old(out.text) + Emit(EntriesFrom(Matcher(), dirPath, d, entries, i, prefix)) ==
        out.text + Emit(EntriesFrom(Matcher(), dirPath, d, entries, i + 1, prefix))
      decreases d, 0
    {
      var m := Matcher();
      var c := entries[i];
      var p := dirPath + [c.name];
      EmitStep(m, dirPath, d, entries, i, prefix);
      if !IsExcluded(m, p) {
        var last := i == |entries| - 1;
        var connector := if last then Corner else Tee;
        ghost var before := out.text;
        ghost var line := Line(Entry(p, c.name, prefix, last, c.Dir?)) + "\n";
        out.Write(prefix + connector + c.name + "\n");
        assert out.text == before + line;
        ghost var mid := out.text;
        if c.Dir? {
          WriteTree(p, c, prefix + (if last then Blank else Bar), out);
        }
        ghost var below := if c.Dir? then Emit(Entries(m, p, c, prefix + (if last then Blank else Bar))) else "";
        assert out.text == mid + below;
        WritesAssoc(before, line, below, Emit(EntriesFrom(m, dirPath, d, entries, i + 1, prefix)));
      } else {
        assert old(out.text) + "" == old(out.text);
      }
    }

    /** `generate_tree`: the header, then the entries and the footer; false
        when the start path cannot be listed, which raises after the header. */
    method GenerateTree(start: Path, root: Node, out: Sink) returns (ok: bool)
      modifies out
      ensures ok == TreeSection(Matcher(), start, root).ok
      ensures out.text == old(out.text) + TreeSection(Matcher(), start, root).text
    {
      ghost var before := out.text;
      out.Write(TreeHeader + "\n");
      if !root.Dir? {
        return false;
      }
      WriteTree(start, root, "", out);
      out.Write(TreeFooter + "\n\n");
      WritesAssoc(before, TreeHeader + "\n", Emit(Entries(Matcher(), start, root, "")), TreeFooter + "\n\n");
      ok := true;
    }

    /** One directory's step of the `os.walk` loop of `process_directory`:
        `process_file` on each non-excluded file of `d`, in name order, until
        one fails. The record after it is the one `Run` gives for those files. */
    method ProcessFiles(dirPath: Path, d: Node, out: Sink) returns (ok: bool)
      requires d.Dir?
      modifies this, out
      ensures var r := Run(cwd, old(State(out)), FileVisits(Matcher(), dirPath, SortedFiles(d)));
        ok == r.ok && State(out) == r.state
    {
      var m := Matcher();
      ghost var start := State(out);
      var names := SortedFiles(d);
      var i := 0;
      while i < |names|
        invariant 0 <= i <= |names|
        invariant Run(cwd, start, FileVisits(m, dirPath, names[..i])) == RunResult(State(out), true)
      {
        ok := ProcessFileAt(dirPath, names, i, start, out);
        if !ok {
          return;
        }
        i := i + 1;
      }
      assert names[..i] == names;
      ok := true;
    }

    /** One pass of the loop over `sorted(files)`: the file at index `i` is
        processed unless excluded; a failure ends the walk with the record
        as it stood before that file. */
    method ProcessFileAt(dirPath: Path, names: seq<Node>, i: nat, ghost start: RunState, out: Sink) returns (ok: bool)
      requires i < |names| && forall k :: 0 <= k < |names| ==> names[k].File?
      requires Run(cwd, start, FileVisits(Matcher(), dirPath, names[..i])) == RunResult(State(out), true)
      modifies this, out
      ensures ok ==> Run(cwd, start, FileVisits(Matcher(), dirPath, names[..i + 1])) == RunResult(State(out), true)
      ensures !ok ==> Run(cwd, start, FileVisits(Matcher(), dirPath, names)) == RunResult(State(out), false)
    {
      var m := Matcher();
      var f := names[i];
      var p := dirPath + [f.name];
      FileVisitsNext(m, dirPath, names, i);
      ghost var before := State(out);
      ghost var done := FileVisits(m, dirPath, names[..i]);
      if !IsExcluded(m, p) {
        ghost var v := Visit(p, f.data);
        RunAppend(cwd, start, done, [v]);
        RunOne(cwd, before, v);
        ok := ProcessFile(p, f.data, out);
        if !ok {
          assert Run(cwd, start, FileVisits(m, dirPath, names[..i + 1])) == RunResult(before, false);
          FilesStopAt(m, cwd, dirPath, names, start, i);
          return;
        }
        assert Run(cwd, start, done + [v]) == RunResult(State(out), true);
      } else {
        assert done + [] == done;
        ok := true;
      }
    }

    /** The `os.walk` loop of `process_directory` from the directory `d` at
        `dirPath` down: its files, then each kept subdirectory in listing
        order; false when a file's metadata cannot be read, which ends the
        walk there. The record after it is the one `Run` gives for the visits
        `WalkFiles` lists. */
    method WalkTree(dirPath: Path, d: Node, out: Sink) returns (ok: bool)
      requires d.Dir?
      modifies this, out
      ensures var r := Run(cwd, old(State(out)), WalkFiles(Matcher(), dirPath, d));
        ok == r.ok && State(out) == r.state
      decreases d
    {
      var m := Matcher();
      ghost var start := State(out);
      ghost var own := FileVisits(m, dirPath, SortedFiles(d));
      var subs := Subdirs(m, dirPath, d);
      RunAppend(cwd, start, own, SubdirVisits(m, dirPath, d, subs));
      ok := ProcessFiles(dirPath, d, out);
      if !ok {
        return;
      }
      var j := 0;
      assert subs[..0] == [];
      assert own + SubdirVisits(m, dirPath, d, subs[..0]) == own;
      while j < |subs|
        invariant 0 <= j <= |subs|
        invariant Run(cwd, start, own + SubdirVisits(m, dirPath, d, subs[..j])) == RunResult(State(out), true)
      {
        var s := subs[j];
        SubdirStep(m, cwd, dirPath, d, start, j, State(out));
        ok := WalkTree(dirPath + [s.name], s, out);
        if !ok {
          WalkStopsAtDir(m, cwd, dirPath, d, start, j);
          return;
        }
        j := j + 1;
      }
      assert subs[..j] == subs;
      ok := true;
    }

    /** The body of the `with` block of `process_directory`: the tree, then,
        when the start directory can be listed, the file blocks of the walk. */
    method WriteReport(directory: Path, root: Node, out: Sink) returns (treeOk: bool, ok: bool)
      modifies this, out
      ensures var tree := TreeSection(Matcher(), directory, root);
        && treeOk == tree.ok
        && (!treeOk ==> !ok && stats == old(stats) && files == old(files))
        && (treeOk ==>
              var r := Run(cwd, RunState(old(stats), old(files), old(out.text) + tree.text), WalkFiles(Matcher(), directory, root));
              ok == r.ok && State(out) == r.state)
    {
      treeOk := GenerateTree(directory, root, out);
      if !treeOk {
        return treeOk, false;
      }
      ok := WalkTree(directory, root, out);
    }

    /** `process_directory(directory, output_path)`: a temporary file is
        created (`created` false when that fails), the tree and then the file
        blocks are written to it, and it is moved onto the output path
        (`moveOk` false when `shutil.move` fails). An `OSError` (no temp file,
        an unlistable start directory, a failed move) deletes the temp file and
        is reported as `DirectoryFailed`; a file whose metadata cannot be read
        raises `FileInfoFailed`, which is not an `OSError`, so the temp file is
        left behind with what was written so far. */
    method ProcessDirectory(directory: Path, root: Node, outputPath: Path,
                            disk: Disk, temp: Path, created: bool, moveOk: bool)
      returns (r: Outcome<Failure>)
      requires temp !in disk.files
      modifies this, disk
      ensures var tree := TreeSection(Matcher(), directory, root);
        var walk := Run(cwd, RunState(old(stats), old(files), tree.text), if root.Dir? then WalkFiles(Matcher(), directory, root) else []);
        && (!created ==> r == Fail(DirectoryFailed) && disk.files == old(disk.files) && stats == old(stats) && files == old(files))
        && (created && !tree.ok ==> r == Fail(DirectoryFailed) && disk.files == old(disk.files) && stats == old(stats) && files == old(files))
        && (created && tree.ok ==> stats == walk.state.stats && files == walk.state.lists)
        && (created && tree.ok && !walk.ok ==> r == Fail(FileInfoFailed) && disk.files == old(disk.files)[temp := walk.state.out])
        && (created && tree.ok && walk.ok && !moveOk ==> r == Fail(DirectoryFailed) && disk.files == old(disk.files))
        && (created && tree.ok && walk.ok && moveOk ==>
              r == Pass && disk.files == old(disk.files)[AbsForm(cwd, outputPath) := walk.state.out])
    {
      if !created {
        return Fail(DirectoryFailed);
      }
      ghost var before := disk.files;
      ghost var tree := TreeSection(Matcher(), directory, root);
      ghost var start := RunState(stats, files, tree.text);
      disk.files := disk.files[temp := ""];
      var out := new Sink();
      var treeOk, ok := WriteReport(directory, root, out);
      assert "" + tree.text == tree.text;
      if !treeOk {
        disk.files := disk.files - {temp};
        DropAdded(before, temp, "");
        return Fail(DirectoryFailed);
      }
      ghost var walk := Run(cwd, start, WalkFiles(Matcher(), directory, root));
      assert ok == walk.ok && State(out) == walk.state;
      r := Publish(disk, before, temp, AbsForm(cwd, outputPath), out.text, ok, moveOk);
    }
  }

  /** After the `with` block: the temporary file holds `text`; when the walk
      completed it is moved onto `dest` (`moveOk` false when `shutil.move`
      fails, an `OSError` that deletes it); otherwise `FileInfoFailed`
      propagates and the file stays. */
  method Publish(disk: Disk, ghost before: map<Path, string>, temp: Path, dest: Path,
                 text: string, walkOk: bool, moveOk: bool) returns (r: Outcome<Failure>)
    requires temp !in before && disk.files == before[temp := ""]
    modifies disk
    ensures !walkOk ==> r == Fail(FileInfoFailed) && disk.files == before[temp := text]
    ensures walkOk && !moveOk ==> r == Fail(DirectoryFailed) && disk.files == before
    ensures walkOk && moveOk ==> r == Pass && disk.files == before[dest := text]
  {
    disk.files := disk.files[temp := text];
    if !walkOk {
      return Fail(FileInfoFailed);
    }
    if !moveOk {
      disk.files := disk.files - {temp};
      DropAdded(before, temp, text);
      return Fail(DirectoryFailed);
    }
    disk.files := (disk.files - {temp})[dest := text];
    DropAdded(before, temp, text);
    r := Pass;
  }
}
