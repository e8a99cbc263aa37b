/** The orchestrator of `core/combinator.py`: the registry of staging files
    that are still to be cleaned up, and the publish sequence of its
    `process_directory`, whose callees (the directory and content processors
    and `get_config`) are described by what they do to the staging file and
    to the counters. */
module Staging {
  import opened Wrappers
  import opened Text
  import opened Paths
  import opened Exclusion
  import opened Report
  import opened Storage

  /** The tracked paths that a cleanup pass unlinks: those that exist and
      whose unlinking does not fail. */
  function Removable(tracked: set<Path>, files: map<Path, string>, locked: set<Path>): set<Path> {
    set p | p in tracked && p in files && p !in locked
  }

  /** `TempFileManager`: the set of staging files to delete at exit. */
  class TempFileManager {
    var tracked: set<Path>

    constructor ()
      ensures tracked == {}
    {
      tracked := {};
    }

    /** `register(filepath)`. */
    method Register(p: Path)
      modifies this
      ensures tracked == old(tracked) + {p}
    {
      tracked := tracked + {p};
    }

    /** `unregister(filepath)`: `discard`, so an untracked path is no error. */
    method Unregister(p: Path)
      modifies this
      ensures tracked == old(tracked) - {p}
    {
      tracked := tracked - {p};
    }

    /** `cleanup_all`: every tracked path that exists is unlinked and dropped
        from the set; a failed unlink (an `OSError`, suppressed) leaves the
        path on disk and tracked, and a missing path stays tracked. It never
        fails. */
    method CleanupAll(disk: Disk)
      modifies this, disk
      ensures tracked == old(tracked) - Removable(old(tracked), old(disk.files), disk.locked)
      ensures disk.files == old(disk.files) - Removable(old(tracked), old(disk.files), disk.locked)
      ensures forall p :: p in tracked ==> p !in disk.files || p in disk.locked
    {
      ghost var t0, f0 := tracked, disk.files;
      var pending := tracked;
      while pending != {}
        invariant pending <= t0
        invariant tracked == t0 - Removable(t0 - pending, f0, disk.locked)
        invariant disk.files == f0 - Removable(t0 - pending, f0, disk.locked)
        decreases pending
      {
        var p :| p in pending;
        if disk.Exists(p) && p !in disk.locked {
          disk.files := disk.files - {p};
          tracked := tracked - {p};
        }
        pending := pending - {p};
      }
      assert t0 - pending == t0;
    }
  }

  /** A second cleanup pass right after a first one removes nothing, so the
      exit hook may run it again safely. */
  lemma CleanupSettles(tracked: set<Path>, files: map<Path, string>, locked: set<Path>)
    ensures var gone := Removable(tracked, files, locked);
      Removable(tracked - gone, files - gone, locked) == {}
  {
    var gone := Removable(tracked, files, locked);
    forall p | p in tracked - gone && p in files - gone
      ensures p in locked
    {
      assert p in tracked && p in files && p !in gone;
    }
  }

  /** Once the output file is set to the destination, the engine's exclusion
      rule `is_excluded` skips the destination and any staging file named with
      the reserved suffix. The directory processor's own rule is not part of
      this model; where it agrees with the engine's, neither file is listed in
      the tree or combined into itself. */
  lemma DestinationExcluded(cwd: Path, patterns: set<string>, outputPath: Path, temp: Path)
    requires HasReservedSuffix(temp)
    ensures IsExcluded(Matcher(cwd, Some(outputPath), patterns), outputPath)
    ensures IsExcluded(Matcher(cwd, Some(outputPath), patterns), temp)
  {
  }

  /** The part of `DirectoryProcessor` the orchestrator touches. */
  class DirectoryProcessor {
    const patterns: set<string>
    var outputFile: Option<Path>

    constructor (patterns: set<string>, outputFile: Option<Path>)
      ensures this.patterns == patterns && this.outputFile == outputFile
    {
      this.patterns := patterns;
      this.outputFile := outputFile;
    }
  }

  /** The part of `ContentProcessor` the orchestrator exposes: its counters
      and file lists, empty when it is created. */
  class ContentProcessor {
    var stats: FileStats
    var fileLists: FileLists

    constructor ()
      ensures stats == NoStats && fileLists == NoFiles
    {
      stats := NoStats;
      fileLists := NoFiles;
    }
  }

  /** What a callee wrote to the staging file and whether it returned
      normally (false: it raised). */
  datatype Effect = Effect(text: string, ok: bool)

  /** What the walk of the directory processor, with `process_file` of the
      content processor as its callback, wrote and left in the counters. */
  datatype WalkEffect = WalkEffect(text: string, stats: FileStats, lists: FileLists, ok: bool)

  /** The outside world of one `process_directory` call: whether the staging
      file could be created and its name, whether each step succeeds, and
      what the tree and walk callees do. */
  datatype Environment = Environment(
    created: bool, temp: Path, mkdirOk: bool, tree: Effect, walk: WalkEffect, flushOk: bool, moveOk: bool)

  /** The `try` block inside the `with`: the output directory, then the tree,
      then the walk, then flush and fsync; the text of the staging file when
      the `with` block closes it, and whether every step succeeded. */
  function Staged(env: Environment): (r: Effect)
    ensures r.ok <==> env.mkdirOk && env.tree.ok && env.walk.ok && env.flushOk
    ensures !env.mkdirOk ==> r.text == ""
    ensures env.mkdirOk ==> StartsWith(r.text, env.tree.text)
    ensures env.mkdirOk && env.tree.ok ==> EndsWith(r.text, env.walk.text)
    ensures env.mkdirOk && !env.tree.ok ==> r.text == env.tree.text
  {
    if !env.mkdirOk then Effect("", false)
    else if !env.tree.ok then Effect(env.tree.text, false)
    else Effect(env.tree.text + env.walk.text, env.walk.ok && env.flushOk)
  }

  /** The orchestrating `FileCombinator` of `core/combinator.py`. */
  class FileCombinator {
    /** `exclude_patterns`, as `get_config` returns them. */
    const patterns: set<string>
    var outputFile: Option<Path>
    const directoryProcessor: DirectoryProcessor
    const contentProcessor: ContentProcessor

    constructor (configured: set<string>, outputFile: Option<Path>)
      ensures patterns == configured && this.outputFile == outputFile
      ensures fresh(directoryProcessor) && fresh(contentProcessor)
      ensures directoryProcessor.patterns == configured && directoryProcessor.outputFile == outputFile
      ensures contentProcessor.stats == NoStats && contentProcessor.fileLists == NoFiles
    {
      patterns := configured;
      this.outputFile := outputFile;
      directoryProcessor := new DirectoryProcessor(configured, outputFile);
      contentProcessor := new ContentProcessor();
    }

    /** The `stats` property. */
    function Stats(): FileStats
      reads this, contentProcessor
    {
      contentProcessor.stats
    }

    /** The `file_lists` property. */
    function FileLists(): FileLists
      reads this, contentProcessor
    {
      contentProcessor.fileLists
    }

    /** `process_directory(directory, output_path)`: both output files are
        set to the destination first; a staging file is created (an `OSError`
        there propagates as is) and registered; the steps run in order and
        the first failure raises "Failed to process directory", leaving the
        staging file on disk and registered; then the staging file is moved
        onto the destination and unregistered, a failed move raising "Failed
        to finalize output" with the staging file still registered. */
    method ProcessDirectory(cwd: Path, outputPath: Path, disk: Disk, manager: TempFileManager, env: Environment)
      returns (r: Outcome<Failure>)
      requires env.temp !in disk.files
      modifies this, directoryProcessor, contentProcessor, disk, manager
      ensures outputFile == Some(outputPath) && directoryProcessor.outputFile == Some(outputPath)
      ensures var walked := env.created && env.mkdirOk && env.tree.ok;
        && Stats() == (if walked then env.walk.stats else old(Stats()))
        && FileLists() == (if walked then env.walk.lists else old(FileLists()))
      ensures !env.created ==>
        r == Fail(CreateFailed) && disk.files == old(disk.files) && manager.tracked == old(manager.tracked)
      ensures env.created && !Staged(env).ok ==>
        && r == Fail(DirectoryFailed)
        && disk.files == old(disk.files)[env.temp := Staged(env).text]
        && manager.tracked == old(manager.tracked) + {env.temp}
      ensures env.created && Staged(env).ok && !env.moveOk ==>
        && r == Fail(FinalizeFailed)
        && disk.files == old(disk.files)[env.temp := Staged(env).text]
        && manager.tracked == old(manager.tracked) + {env.temp}
      ensures env.created && Staged(env).ok && env.moveOk ==>
        && r == Pass
        && disk.files == old(disk.files)[AbsForm(cwd, outputPath) := Staged(env).text]
        && manager.tracked == old(manager.tracked) - {env.temp}
    {
      outputFile := Some(outputPath);
      directoryProcessor.outputFile := Some(outputPath);
      if !env.created {
        return Fail(CreateFailed);
      }
      disk.files := disk.files[env.temp := ""];
      manager.Register(env.temp);
      var out := new Sink();
      var bodyOk := WriteStaged(env, out);
      assert "" + Staged(env).text == Staged(env).text;
      disk.files := disk.files[env.temp := out.text];
      if !bodyOk {
        return Fail(DirectoryFailed);
      }
      r := Finalize(disk, manager, env.temp, AbsForm(cwd, outputPath), out.text, env.moveOk);
      DropAdded(old(disk.files), env.temp, out.text);
    }

    /** The `try` block inside the `with`: the steps in order, each callee
        writing to the open staging file `out`, until one fails. */
    method WriteStaged(env: Environment, out: Sink) returns (ok: bool)
      modifies contentProcessor, out
      ensures ok == Staged(env).ok
      ensures out.text == old(out.text) + Staged(env).text
      ensures var walked := env.mkdirOk && env.tree.ok;
        && contentProcessor.stats == (if walked then env.walk.stats else old(contentProcessor.stats))
        && contentProcessor.fileLists == (if walked then env.walk.lists else old(contentProcessor.fileLists))
    {
      ok := false;
      if env.mkdirOk {
        out.Write(env.tree.text);
        if env.tree.ok {
          out.Write(env.walk.text);
          contentProcessor.stats := env.walk.stats;
          contentProcessor.fileLists := env.walk.lists;
          ok := env.walk.ok && env.flushOk;
        }
      }
      if !env.mkdirOk {
        assert out.text == old(out.text) + "";
      }
    }
  }

  /** The `try` block after the `with`: `shutil.move` of the staging file
      onto `dest` (false: it raised, "Failed to finalize output", and the
      staging file stays registered), then `unregister`. */
  method Finalize(disk: Disk, manager: TempFileManager, temp: Path, dest: Path, text: string, moveOk: bool)
    returns (r: Outcome<Failure>)
    requires temp in disk.files && disk.files[temp] == text
    modifies disk, manager
    ensures !moveOk ==> r == Fail(FinalizeFailed) && disk.files == old(disk.files) && manager.tracked == old(manager.tracked)
    ensures moveOk ==> r == Pass && disk.files == (old(disk.files) - {temp})[dest := text] && manager.tracked == old(manager.tracked) - {temp}
  {
    if !moveOk {
      return Fail(FinalizeFailed);
    }
    disk.files := (disk.files - {temp})[dest := text];
    manager.Unregister(temp);
    r := Pass;
  }
}
