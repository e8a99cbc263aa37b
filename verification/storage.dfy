/** The two pieces of mutable world the engine touches: an open text stream it
    writes to, and the files on disk, named by absolute path. */
module Storage {
  import opened Paths

  /** An open text file: everything written so far, in order. */
  class Sink {
    var text: string

    constructor ()
      ensures text == ""
    {
      text := "";
    }

    /** `output_file.write(s)`. */
    method Write(s: string)
      modifies this
      ensures text == old(text) + s
    {
      text := text + s;
    }
  }

  /** The files on disk by absolute path, with their content. `locked` are the
      files whose unlinking fails (an `OSError` such as a permission error). */
  class Disk {
    var files: map<Path, string>
    const locked: set<Path>

    constructor (files: map<Path, string>, locked: set<Path>)
      ensures this.files == files && this.locked == locked
    {
      this.files := files;
      this.locked := locked;
    }

    /** `os.path.exists(p)`. */
    predicate Exists(p: Path)
      reads this
    {
      p in files
    }
  }

  /** Removing a file that was added leaves the files as they were. */
  lemma DropAdded(files: map<Path, string>, p: Path, text: string)
    requires p !in files
    ensures files[p := text] - {p} == files
  {
  }
}
