/** The traversal of `process_directory`: which files are processed, in which
    order, and what processing them in that order does to the run's record. */
module Walk {
  import opened Wrappers
  import opened Text
  import opened Paths
  import opened Exclusion
  import opened Classifier
  import opened FileTree
  import opened Report
  import opened Render

  /** A file the walk hands to `process_file`: its joined path and its data. */
  datatype Visit = Visit(path: Path, data: FileData)

  /** `for file in sorted(files)`, skipping excluded ones; `files` is sorted. */
  function FileVisits(m: Matcher, dirPath: Path, files: seq<Node>): (r: seq<Visit>)
    requires forall k :: 0 <= k < |files| ==> files[k].File?
  {
    if |files| == 0 then []
    else
      var f := files[|files| - 1];
      var p := dirPath + [f.name];
      FileVisits(m, dirPath, files[..|files| - 1]) + (if IsExcluded(m, p) then [] else [Visit(p, f.data)])
  }

  /** `dirs[:] = [d for d in dirs if not is_excluded(root/d)]`. */
  function KeptDirs(m: Matcher, dirPath: Path, dirs: seq<Node>): (r: seq<Node>)
    ensures forall x :: x in r <==> x in dirs && !IsExcluded(m, dirPath + [x.name])
    ensures SubsequenceOf(r, dirs)
  {
    if |dirs| == 0 then SubsequenceEmpty(dirs); []
    else
      var rest := KeptDirs(m, dirPath, dirs[1..]);
      var keep := !IsExcluded(m, dirPath + [dirs[0].name]);
      SubsequenceCons(dirs, rest, keep);
      if keep then [dirs[0]] + rest else rest
  }

  /** `sorted(files)` for the directory `d`. */
  function SortedFiles(d: Node): (r: seq<Node>)
    requires d.Dir?
    ensures forall k :: 0 <= k < |r| ==> r[k].File? && r[k] in d.children
  {
    var r := SortByName(FilesOf(d.children));
    assert forall k :: 0 <= k < |r| ==> r[k].File? && r[k] in d.children by {
      forall k | 0 <= k < |r| ensures r[k].File? && r[k] in d.children {
        SortedMembers(FilesOf(d.children), r[k]);
      }
    }
    r
  }

  /** The subdirectories the walk descends into, in listing order. */
  function Subdirs(m: Matcher, dirPath: Path, d: Node): (r: seq<Node>)
    requires d.Dir?
    ensures forall k :: 0 <= k < |r| ==> r[k] in d.children && r[k].Dir?
  {
    var r := KeptDirs(m, dirPath, DirsOf(d.children));
    assert forall k :: 0 <= k < |r| ==> r[k] in d.children && r[k].Dir? by {
      forall k | 0 <= k < |r| ensures r[k] in d.children && r[k].Dir? {
        assert r[k] in r;
      }
    }
    r
  }

  /** The walk descends into the kept subdirectories in the order the
      listing gives them, as the comprehension that prunes `dirs` keeps it. */
  lemma SubdirsInListingOrder(m: Matcher, dirPath: Path, d: Node)
    requires d.Dir?
    ensures SubsequenceOf(Subdirs(m, dirPath, d), d.children)
  {
    SubsequenceTrans(Subdirs(m, dirPath, d), DirsOf(d.children), d.children);
  }

  /** The files `process_directory` processes under directory `d` at `dirPath`:
      its own non-excluded files in name order, then, for each non-excluded
      subdirectory in listing order, everything under it. */
  function WalkFiles(m: Matcher, dirPath: Path, d: Node): (r: seq<Visit>)
    requires d.Dir?
    decreases d, 2
  {
    FileVisits(m, dirPath, SortedFiles(d)) + SubdirVisits(m, dirPath, d, Subdirs(m, dirPath, d))
  }

  function SubdirVisits(m: Matcher, dirPath: Path, d: Node, subs: seq<Node>): (r: seq<Visit>)
    requires d.Dir?
    requires forall k :: 0 <= k < |subs| ==> subs[k] in d.children && subs[k].Dir?
    decreases d, 1, |subs|
  {
    if |subs| == 0 then []
    else
      var s := subs[|subs| - 1];
      SubdirVisits(m, dirPath, d, subs[..|subs| - 1]) + WalkFiles(m, dirPath + [s.name], s)
  }

  lemma FileVisitsAppend(m: Matcher, dirPath: Path, a: seq<Node>, b: seq<Node>)
    requires forall k :: 0 <= k < |a| ==> a[k].File?
    requires forall k :: 0 <= k < |b| ==> b[k].File?
    ensures FileVisits(m, dirPath, a + b) == FileVisits(m, dirPath, a) + FileVisits(m, dirPath, b)
    decreases |b|
  {
    if |b| == 0 {
      assert a + b == a;
    } else {
      var init := b[..|b| - 1];
      var f := b[|b| - 1];
      var p := dirPath + [f.name];
      var tail := if IsExcluded(m, p) then [] else [Visit(p, f.data)];
      assert (a + b)[..|a + b| - 1] == a + init && (a + b)[|a + b| - 1] == f;
      var va, vi := FileVisits(m, dirPath, a), FileVisits(m, dirPath, init);
      assert FileVisits(m, dirPath, a + b) == FileVisits(m, dirPath, a + init) + tail;
      assert FileVisits(m, dirPath, b) == vi + tail;
      FileVisitsAppend(m, dirPath, a, init);
      ConcatAssoc(va, vi, tail);
      assert FileVisits(m, dirPath, a + b) == va + (vi + tail);
    }
  }

  /** `process_file` is never called on an excluded path: neither on an
      excluded file nor on anything under a pruned directory. */
  lemma {:induction false} WalkKept(m: Matcher, dirPath: Path, d: Node)
    requires d.Dir?
    ensures forall v :: v in WalkFiles(m, dirPath, d) ==> !IsExcluded(m, v.path)
    decreases d, 2
  {
    FileVisitsKept(m, dirPath, SortedFiles(d));
    SubdirKept(m, dirPath, d, Subdirs(m, dirPath, d));
  }

  lemma {:induction false} SubdirKept(m: Matcher, dirPath: Path, d: Node, subs: seq<Node>)
    requires d.Dir?
    requires forall k :: 0 <= k < |subs| ==> subs[k] in d.children && subs[k].Dir?
    ensures forall v :: v in SubdirVisits(m, dirPath, d, subs) ==> !IsExcluded(m, v.path)
    decreases d, 1, |subs|
  {
    if |subs| > 0 {
      var s := subs[|subs| - 1];
      SubdirKept(m, dirPath, d, subs[..|subs| - 1]);
      WalkKept(m, dirPath + [s.name], s);
    }
  }

  lemma {:induction false} FileVisitsKept(m: Matcher, dirPath: Path, files: seq<Node>)
    requires forall k :: 0 <= k < |files| ==> files[k].File?
    ensures forall v :: v in FileVisits(m, dirPath, files) ==> !IsExcluded(m, v.path)
  {
    if |files| > 0 {
      FileVisitsKept(m, dirPath, files[..|files| - 1]);
    }
  }

  /** Each visit of a file listing comes from one of its files. */
  lemma {:induction false} FileVisitsOrigin(m: Matcher, dirPath: Path, files: seq<Node>, v: Visit)
    requires forall k :: 0 <= k < |files| ==> files[k].File?
    requires v in FileVisits(m, dirPath, files)
    ensures exists k :: 0 <= k < |files| && v.path == dirPath + [files[k].name]
  {
    var init := files[..|files| - 1];
    var f := files[|files| - 1];
    if v in FileVisits(m, dirPath, init) {
      FileVisitsOrigin(m, dirPath, init, v);
      var k :| 0 <= k < |init| && v.path == dirPath + [init[k].name];
      assert files[k] == init[k];
    } else {
      assert v.path == dirPath + [files[|files| - 1].name];
    }
  }

  /** The visits `vs` come in the order of their path component at `n`. */
  ghost predicate InNameOrder(vs: seq<Visit>, n: nat) {
    && (forall k :: 0 <= k < |vs| ==> n < |vs[k].path|)
    && (forall k :: 0 <= k < |vs| - 1 ==> LexLe(vs[k].path[n], vs[k + 1].path[n]))
  }

  /** The visits of a sorted file listing come in name order. */
  lemma {:induction false} FileVisitsOrdered(m: Matcher, dirPath: Path, files: seq<Node>)
    requires forall k :: 0 <= k < |files| ==> files[k].File?
    requires forall i, j :: 0 <= i < j < |files| ==> LexLe(files[i].name, files[j].name)
    ensures InNameOrder(FileVisits(m, dirPath, files), |dirPath|)
  {
    if |files| > 0 {
      var init := files[..|files| - 1];
      var f := files[|files| - 1];
      var p := dirPath + [f.name];
      var r, ri := FileVisits(m, dirPath, files), FileVisits(m, dirPath, init);
      FileVisitsOrdered(m, dirPath, init);
      if IsExcluded(m, p) {
        assert r == ri + [];
        assert r == ri;
      } else {
        OrderedLast(m, dirPath, files);
      }
    }
  }

  /** A kept last file extends the name order of the visits before it. */
  lemma OrderedLast(m: Matcher, dirPath: Path, files: seq<Node>)
    requires |files| > 0 && forall k :: 0 <= k < |files| ==> files[k].File?
    requires forall k :: 0 <= k < |files| - 1 ==> LexLe(files[k].name, files[|files| - 1].name)
    requires !IsExcluded(m, dirPath + [files[|files| - 1].name])
    requires InNameOrder(FileVisits(m, dirPath, files[..|files| - 1]), |dirPath|)
    ensures InNameOrder(FileVisits(m, dirPath, files), |dirPath|)
  {
    var f := files[|files| - 1];
    var p := dirPath + [f.name];
    var ri := FileVisits(m, dirPath, files[..|files| - 1]);
    assert FileVisits(m, dirPath, files) == ri + [Visit(p, f.data)];
    assert p[|dirPath|] == f.name;
    if |ri| > 0 {
      assert ri[|ri| - 1] in ri;
      BeforeLast(m, dirPath, files, ri[|ri| - 1]);
    }
    AppendInOrder(ri, Visit(p, f.data), |dirPath|);
  }

  /** A visit named no earlier than the last of an ordered run extends it. */
  lemma AppendInOrder(vs: seq<Visit>, v: Visit, n: nat)
    requires InNameOrder(vs, n) && n < |v.path|
    requires |vs| > 0 ==> LexLe(vs[|vs| - 1].path[n], v.path[n])
    ensures InNameOrder(vs + [v], n)
  {
    var r := vs + [v];
    forall k | 0 <= k < |r| ensures n < |r[k].path| {
      if k < |vs| {
        assert r[k] == vs[k];
      }
    }
    forall k | 0 <= k < |r| - 1 ensures LexLe(r[k].path[n], r[k + 1].path[n]) {
      assert r[k] == vs[k];
      if k + 1 < |vs| {
        assert r[k + 1] == vs[k + 1];
      }
    }
  }

  /** Every visit before the last file of a sorted listing is named no later. */
  lemma BeforeLast(m: Matcher, dirPath: Path, files: seq<Node>, v: Visit)
    requires |files| > 0 && forall k :: 0 <= k < |files| ==> files[k].File?
    requires forall k :: 0 <= k < |files| - 1 ==> LexLe(files[k].name, files[|files| - 1].name)
    requires v in FileVisits(m, dirPath, files[..|files| - 1])
    ensures |dirPath| < |v.path| && LexLe(v.path[|dirPath|], files[|files| - 1].name)
  {
    var init := files[..|files| - 1];
    FileVisitsOrigin(m, dirPath, init, v);
    var k :| 0 <= k < |init| && v.path == dirPath + [init[k].name];
    assert v.path[|dirPath|] == files[k].name;
  }

  lemma SortedFilesOrdered(m: Matcher, dirPath: Path, d: Node)
    requires d.Dir?
    ensures InNameOrder(FileVisits(m, dirPath, SortedFiles(d)), |dirPath|)
  {
    var files := SortedFiles(d);
    forall i, j | 0 <= i < j < |files| ensures LexLe(files[i].name, files[j].name) {
      SortedChain(files, i, j);
    }
    FileVisitsOrdered(m, dirPath, files);
  }

  /** `process_directory` handles a directory's own files before anything
      below it: they open the walk of the directory, in name order, and every
      later visit lies in one of its subdirectories. */
  lemma OwnFilesFirst(m: Matcher, dirPath: Path, d: Node)
    requires d.Dir?
    ensures var own := FileVisits(m, dirPath, SortedFiles(d));
      var below := SubdirVisits(m, dirPath, d, Subdirs(m, dirPath, d));
      && WalkFiles(m, dirPath, d) == own + below
      && InNameOrder(own, |dirPath|)
      && (forall v :: v in own ==> |v.path| == |dirPath| + 1)
      && (forall v :: v in below ==> |v.path| > |dirPath| + 1)
  {
    SortedFilesOrdered(m, dirPath, d);
    forall v | v in FileVisits(m, dirPath, SortedFiles(d)) ensures |v.path| == |dirPath| + 1 {
      FileVisitsOrigin(m, dirPath, SortedFiles(d), v);
    }
    SubdirDepth(m, dirPath, d, Subdirs(m, dirPath, d));
  }

  /** Every file the walk visits under `dirPath` lies strictly below it. */
  lemma {:induction false} WalkDepth(m: Matcher, dirPath: Path, d: Node)
    requires d.Dir?
    ensures forall v :: v in WalkFiles(m, dirPath, d) ==> |v.path| > |dirPath|
    decreases d, 2
  {
    forall v | v in FileVisits(m, dirPath, SortedFiles(d)) ensures |v.path| > |dirPath| {
      FileVisitsOrigin(m, dirPath, SortedFiles(d), v);
    }
    SubdirDepth(m, dirPath, d, Subdirs(m, dirPath, d));
  }

  /** Every file visited in a subdirectory lies at least two levels below. */
  lemma {:induction false} SubdirDepth(m: Matcher, dirPath: Path, d: Node, subs: seq<Node>)
    requires d.Dir?
    requires forall k :: 0 <= k < |subs| ==> subs[k] in d.children && subs[k].Dir?
    ensures forall v :: v in SubdirVisits(m, dirPath, d, subs) ==> |v.path| > |dirPath| + 1
    decreases d, 1, |subs|
  {
    if |subs| > 0 {
      var s := subs[|subs| - 1];
      SubdirDepth(m, dirPath, d, subs[..|subs| - 1]);
      WalkDepth(m, dirPath + [s.name], s);
    }
  }

  /** A file is admitted under `d` when it is reached through non-excluded
      entries only: the file itself and every directory on the way. */
  ghost predicate Admitted(m: Matcher, dirPath: Path, d: Node, p: Path)
    requires d.Dir?
    decreases d, 0
  {
    exists c :: c in d.children && Reaches(m, dirPath, c, p)
  }

  /** The entry `c` of the directory at `dirPath` is not excluded and is the
      file `p` or a directory under which `p` is admitted. */
  ghost predicate Reaches(m: Matcher, dirPath: Path, c: Node, p: Path)
    decreases c, 1
  {
    !IsExcluded(m, dirPath + [c.name]) &&
    ((c.File? && p == dirPath + [c.name]) || (c.Dir? && Admitted(m, dirPath + [c.name], c, p)))
  }

  lemma {:induction false} FileVisitsReach(m: Matcher, dirPath: Path, files: seq<Node>, p: Path)
    requires forall k :: 0 <= k < |files| ==> files[k].File?
    ensures (exists v :: v in FileVisits(m, dirPath, files) && v.path == p) <==>
      exists c :: c in files && !IsExcluded(m, dirPath + [c.name]) && p == dirPath + [c.name]
  {
    if |files| > 0 {
      var init := files[..|files| - 1];
      var f := files[|files| - 1];
      assert files == init + [f];
      FileVisitsReach(m, dirPath, init, p);
      if exists c :: c in files && !IsExcluded(m, dirPath + [c.name]) && p == dirPath + [c.name] {
        var c :| c in files && !IsExcluded(m, dirPath + [c.name]) && p == dirPath + [c.name];
        if c != f {
          assert c in init;
        } else {
          assert Visit(p, f.data) in FileVisits(m, dirPath, files);
        }
      }
    }
  }

  /** The walk visits a path exactly when it is admitted. */
  lemma {:induction false} WalkReach(m: Matcher, dirPath: Path, d: Node, p: Path)
    requires d.Dir?
    ensures (exists v :: v in WalkFiles(m, dirPath, d) && v.path == p) <==> Admitted(m, dirPath, d, p)
    decreases d, 2
  {
    var files := SortedFiles(d);
    var kept := Subdirs(m, dirPath, d);
    FileVisitsReach(m, dirPath, files, p);
    SubdirReach(m, dirPath, d, kept, p);
    var w := WalkFiles(m, dirPath, d);
    assert w == FileVisits(m, dirPath, files) + SubdirVisits(m, dirPath, d, kept);
    if Admitted(m, dirPath, d, p) {
      var c :| c in d.children && Reaches(m, dirPath, c, p);
      if c.File? && p == dirPath + [c.name] {
        SortedMembers(FilesOf(d.children), c);
        assert c in files;
      } else {
        assert c in kept;
      }
    }
    if exists v :: v in w && v.path == p {
      var v :| v in w && v.path == p;
      if v in FileVisits(m, dirPath, files) {
        var c :| c in files && !IsExcluded(m, dirPath + [c.name]) && p == dirPath + [c.name];
        SortedMembers(FilesOf(d.children), c);
      } else {
        var c :| c in kept && Admitted(m, dirPath + [c.name], c, p);
      }
    }
  }

  lemma {:induction false} SubdirReach(m: Matcher, dirPath: Path, d: Node, subs: seq<Node>, p: Path)
    requires d.Dir?
    requires forall k :: 0 <= k < |subs| ==> subs[k] in d.children && subs[k].Dir?
    ensures (exists v :: v in SubdirVisits(m, dirPath, d, subs) && v.path == p) <==>
      exists c :: c in subs && Admitted(m, dirPath + [c.name], c, p)
    decreases d, 1, |subs|
  {
    if |subs| > 0 {
      var init := subs[..|subs| - 1];
      var s := subs[|subs| - 1];
      assert subs == init + [s];
      SubdirReach(m, dirPath, d, init, p);
      WalkReach(m, dirPath + [s.name], s, p);
      if exists c :: c in subs && Admitted(m, dirPath + [c.name], c, p) {
        var c :| c in subs && Admitted(m, dirPath + [c.name], c, p);
        if c != s { assert c in init; }
      }
    }
  }

  /** Some entry of `es` prints the file `p`. */
  ghost predicate ListsFile(es: seq<Entry>, p: Path) {
    exists e :: e in es && e.path == p && !e.isDir
  }

  lemma ListsFileConcat(a: seq<Entry>, b: seq<Entry>, p: Path)
    ensures ListsFile(a + b, p) <==> ListsFile(a, p) || ListsFile(b, p)
  {
    if ListsFile(a + b, p) {
      var e :| e in a + b && e.path == p && !e.isDir;
      assert e in a || e in b;
    }
    if ListsFile(b, p) {
      var e :| e in b && e.path == p && !e.isDir;
      assert e in a + b;
    }
  }

  /** Some entry of `es` from index `i` on reaches `p`. */
  ghost predicate ReachesFrom(m: Matcher, dirPath: Path, es: seq<Node>, i: nat, p: Path) {
    exists k :: i <= k < |es| && Reaches(m, dirPath, es[k], p)
  }

  lemma ReachesFromStep(m: Matcher, dirPath: Path, es: seq<Node>, i: nat, p: Path)
    requires i < |es|
    ensures ReachesFrom(m, dirPath, es, i, p) <==> Reaches(m, dirPath, es[i], p) || ReachesFrom(m, dirPath, es, i + 1, p)
  {
    if ReachesFrom(m, dirPath, es, i, p) {
      var k :| i <= k < |es| && Reaches(m, dirPath, es[k], p);
      if k != i { assert i + 1 <= k; }
    }
  }

  /** The tree prints a file exactly when it is admitted. */
  lemma {:induction false} TreeReach(m: Matcher, dirPath: Path, d: Node, prefix: string, p: Path)
    requires d.Dir?
    ensures ListsFile(Entries(m, dirPath, d, prefix), p) <==> Admitted(m, dirPath, d, p)
    decreases d, 1
  {
    var es := SortByName(d.children);
    SortedChildren(d);
    EntriesReach(m, dirPath, d, es, 0, prefix, p);
    if Admitted(m, dirPath, d, p) {
      var c :| c in d.children && Reaches(m, dirPath, c, p);
      SortedMembers(d.children, c);
      var k :| 0 <= k < |es| && es[k] == c;
    }
  }

  lemma {:induction false} EntriesReach(m: Matcher, dirPath: Path, d: Node, es: seq<Node>, i: nat, prefix: string, p: Path)
    requires d.Dir? && i <= |es|
    requires forall k :: 0 <= k < |es| ==> es[k] in d.children
    ensures ListsFile(EntriesFrom(m, dirPath, d, es, i, prefix), p) <==> ReachesFrom(m, dirPath, es, i, p)
    decreases d, 0, |es| - i
  {
    if i < |es| {
      var c := es[i];
      var q := dirPath + [c.name];
      var last := i == |es| - 1;
      var head, below := LoopStep(m, dirPath, d, es, i, prefix);
      var rest := EntriesFrom(m, dirPath, d, es, i + 1, prefix);
      assert ListsFile(EntriesFrom(m, dirPath, d, es, i, prefix), p) <==> ReachesFrom(m, dirPath, es, i, p) by {
        EntriesReach(m, dirPath, d, es, i + 1, prefix, p);
        ReachesFromStep(m, dirPath, es, i, p);
        if !IsExcluded(m, q) {
          ListsFileConcat([head] + below, rest, p);
          ListsFileConcat([head], below, p);
          if c.Dir? {
            TreeReach(m, q, c, prefix + (if last then Blank else Bar), p);
            assert !ListsFile([head], p);
            assert ListsFile(below, p) <==> Reaches(m, dirPath, c, p);
          } else {
            assert !ListsFile(below, p);
            assert ListsFile([head], p) <==> Reaches(m, dirPath, c, p);
          }
        }
      }
    } else {
      assert !ReachesFrom(m, dirPath, es, i, p);
    }
  }

  /** No drift: the files the tree prints are exactly the files the walk
      processes (the tree orders subdirectories by name, the walk by listing). */
  lemma TreeMatchesWalk(m: Matcher, dirPath: Path, root: Node, p: Path)
    requires root.Dir?
    ensures ListsFile(Entries(m, dirPath, root, ""), p) <==>
      (exists v :: v in WalkFiles(m, dirPath, root) && v.path == p)
  {
    TreeReach(m, dirPath, root, "", p);
    WalkReach(m, dirPath, root, p);
  }

  /** What `process_file` does with one visit: nothing when `os.stat` fails
      (the error propagates), otherwise the record of `Record`. The suffix
      is taken from the final part of the path, the block shows `relpath`. */
  function Step(cwd: Path, st: RunState, v: Visit): (r: Option<RunState>)
    ensures r.None? <==> v.data.stat.None?
  {
    match GetFileInfo(Basename(v.path), v.data.stat, v.data.sniff, v.data.bytes)
    case Err(_) => None
    case Ok(info) => Some(Record(st, RelPath(cwd, v.path), info, v.data.text))
  }

  /** The record after processing visits in order; `ok` is false when a
      visit's metadata could not be read, and the record is then the one at
      that point. */
  datatype RunResult = RunResult(state: RunState, ok: bool)

  function Run(cwd: Path, st: RunState, vs: seq<Visit>): RunResult
    decreases |vs|
  {
    if |vs| == 0 then RunResult(st, true)
    else match Step(cwd, st, vs[0])
      case None => RunResult(st, false)
      case Some(next) => Run(cwd, next, vs[1..])
  }

  lemma {:induction false} RunAppend(cwd: Path, st: RunState, a: seq<Visit>, b: seq<Visit>)
    ensures Run(cwd, st, a + b) ==
      (var r := Run(cwd, st, a); if r.ok then Run(cwd, r.state, b) else r)
    decreases |a|
  {
    if |a| == 0 {
      assert a + b == b;
    } else {
      assert (a + b)[0] == a[0] && (a + b)[1..] == a[1..] + b;
      match Step(cwd, st, a[0])
      case None =>
      case Some(next) => RunAppend(cwd, next, a[1..], b);
    }
  }

  /** Writing `a`, `b`, `c` after `x` appends their concatenation. */
  lemma WritesAssoc<T>(x: seq<T>, a: seq<T>, b: seq<T>, c: seq<T>)
    ensures ((x + a) + b) + c == x + ((a + b) + c)
  {
  }

  /** `Step` on a visit whose metadata is `info`. */
  lemma StepRecords(cwd: Path, st: RunState, v: Visit, info: FileInfo)
    requires GetFileInfo(Basename(v.path), v.data.stat, v.data.sniff, v.data.bytes) == Ok(info)
    ensures Step(cwd, st, v) == Some(Record(st, RelPath(cwd, v.path), info, v.data.text))
  {
  }

  lemma RunOne(cwd: Path, st: RunState, v: Visit)
    ensures Run(cwd, st, [v]) ==
      match Step(cwd, st, v)
      case None => RunResult(st, false)
      case Some(next) => RunResult(next, true)
  {
    assert [v][1..] == [];
  }

  /** The loop over `sorted(files)` up to and including index `i`. */
  lemma FileVisitsNext(m: Matcher, dirPath: Path, files: seq<Node>, i: nat)
    requires i < |files| && forall k :: 0 <= k < |files| ==> files[k].File?
    ensures var f := files[i]; var p := dirPath + [f.name];
      FileVisits(m, dirPath, files[..i + 1]) ==
        FileVisits(m, dirPath, files[..i]) + (if IsExcluded(m, p) then [] else [Visit(p, f.data)])
  {
    assert files[..i + 1][..i] == files[..i];
  }

  /** The loop over the kept subdirectories up to and including index `j`. */
  lemma SubdirVisitsNext(m: Matcher, dirPath: Path, d: Node, subs: seq<Node>, j: nat)
    requires d.Dir? && j < |subs|
    requires forall k :: 0 <= k < |subs| ==> subs[k] in d.children && subs[k].Dir?
    ensures SubdirVisits(m, dirPath, d, subs[..j + 1]) ==
      SubdirVisits(m, dirPath, d, subs[..j]) + WalkFiles(m, dirPath + [subs[j].name], subs[j])
  {
    assert subs[..j + 1][..j] == subs[..j];
  }

  /** A file whose metadata cannot be read ends the directory's files there. */
  lemma FilesStopAt(m: Matcher, cwd: Path, dirPath: Path, files: seq<Node>, st: RunState, i: nat)
    requires i < |files| && forall k :: 0 <= k < |files| ==> files[k].File?
    requires !Run(cwd, st, FileVisits(m, dirPath, files[..i + 1])).ok
    ensures Run(cwd, st, FileVisits(m, dirPath, files)) == Run(cwd, st, FileVisits(m, dirPath, files[..i + 1]))
  {
    assert files[..i + 1] + files[i + 1..] == files;
    FileVisitsAppend(m, dirPath, files[..i + 1], files[i + 1..]);
    RunAppend(cwd, st, FileVisits(m, dirPath, files[..i + 1]), FileVisits(m, dirPath, files[i + 1..]));
  }

  /** The visits of the first `j` kept subdirectories start the visits of
      all of them. */
  lemma {:induction false} SubdirVisitsPrefix(m: Matcher, dirPath: Path, d: Node, subs: seq<Node>, j: nat)
    returns (tail: seq<Visit>)
    requires d.Dir? && j <= |subs|
    requires forall k :: 0 <= k < |subs| ==> subs[k] in d.children && subs[k].Dir?
    ensures SubdirVisits(m, dirPath, d, subs) == SubdirVisits(m, dirPath, d, subs[..j]) + tail
    decreases |subs|
  {
    if j < |subs| {
      var init := subs[..|subs| - 1];
      var s := subs[|subs| - 1];
      assert init[..j] == subs[..j];
      var t := SubdirVisitsPrefix(m, dirPath, d, init, j);
      var w := WalkFiles(m, dirPath + [s.name], s);
      ConcatAssoc(SubdirVisits(m, dirPath, d, subs[..j]), t, w);
      tail := t + w;
    } else {
      assert subs[..j] == subs;
      tail := [];
    }
  }

  /** A subdirectory whose walk stops ends the whole walk there. */
  lemma WalkStopsAtDir(m: Matcher, cwd: Path, dirPath: Path, d: Node, st: RunState, j: nat)
    requires d.Dir? && j < |Subdirs(m, dirPath, d)|
    requires !Run(cwd, st, FileVisits(m, dirPath, SortedFiles(d)) + SubdirVisits(m, dirPath, d, Subdirs(m, dirPath, d)[..j + 1])).ok
    ensures Run(cwd, st, WalkFiles(m, dirPath, d)) ==
      Run(cwd, st, FileVisits(m, dirPath, SortedFiles(d)) + SubdirVisits(m, dirPath, d, Subdirs(m, dirPath, d)[..j + 1]))
  {
    StopsAfter(m, cwd, dirPath, d, Subdirs(m, dirPath, d), FileVisits(m, dirPath, SortedFiles(d)), st, j);
  }

  /** `WalkStopsAtDir` for any run `own` before the subdirectories `subs`. */
  lemma StopsAfter(m: Matcher, cwd: Path, dirPath: Path, d: Node, subs: seq<Node>, own: seq<Visit>, st: RunState, j: nat)
    requires d.Dir? && j < |subs|
    requires forall k :: 0 <= k < |subs| ==> subs[k] in d.children && subs[k].Dir?
    requires !Run(cwd, st, own + SubdirVisits(m, dirPath, d, subs[..j + 1])).ok
    ensures Run(cwd, st, own + SubdirVisits(m, dirPath, d, subs)) ==
      Run(cwd, st, own + SubdirVisits(m, dirPath, d, subs[..j + 1]))
  {
    var pre := SubdirVisits(m, dirPath, d, subs[..j + 1]);
    var tail := SubdirVisitsPrefix(m, dirPath, d, subs, j + 1);
    ConcatAssoc(own, pre, tail);
    RunStops(cwd, st, own + pre, tail);
  }

  /** A run that completes hands its record on to the visits after it. */
  lemma RunThrough(cwd: Path, st: RunState, a: seq<Visit>, b: seq<Visit>, mid: RunState)
    requires Run(cwd, st, a) == RunResult(mid, true)
    ensures Run(cwd, st, a + b) == Run(cwd, mid, b)
  {
    RunAppend(cwd, st, a, b);
  }

  /** Visits after a visit whose metadata cannot be read change nothing. */
  lemma RunStops(cwd: Path, st: RunState, a: seq<Visit>, b: seq<Visit>)
    requires !Run(cwd, st, a).ok
    ensures Run(cwd, st, a + b) == Run(cwd, st, a)
  {
    RunAppend(cwd, st, a, b);
  }

  /** One step of the loop over the kept subdirectories: after the files and
      the first `j` subdirectories, whose run completed with `mid`, the walk of
      subdirectory `j` from `mid` decides the run up to it. */
  lemma SubdirStep(m: Matcher, cwd: Path, dirPath: Path, d: Node, st: RunState, j: nat, mid: RunState)
    requires d.Dir? && j < |Subdirs(m, dirPath, d)|
    requires Run(cwd, st, FileVisits(m, dirPath, SortedFiles(d)) + SubdirVisits(m, dirPath, d, Subdirs(m, dirPath, d)[..j])) == RunResult(mid, true)
    ensures var subs := Subdirs(m, dirPath, d);
      Run(cwd, st, FileVisits(m, dirPath, SortedFiles(d)) + SubdirVisits(m, dirPath, d, subs[..j + 1])) ==
        Run(cwd, mid, WalkFiles(m, dirPath + [subs[j].name], subs[j]))
  {
    SubdirStepAfter(m, cwd, dirPath, d, Subdirs(m, dirPath, d), FileVisits(m, dirPath, SortedFiles(d)), st, j, mid);
  }

  /** `SubdirStep` for any run `own` before the subdirectories `subs`. */
  lemma SubdirStepAfter(m: Matcher, cwd: Path, dirPath: Path, d: Node, subs: seq<Node>, own: seq<Visit>,
                        st: RunState, j: nat, mid: RunState)
    requires d.Dir? && j < |subs|
    requires forall k :: 0 <= k < |subs| ==> subs[k] in d.children && subs[k].Dir?
    requires Run(cwd, st, own + SubdirVisits(m, dirPath, d, subs[..j])) == RunResult(mid, true)
    ensures Run(cwd, st, own + SubdirVisits(m, dirPath, d, subs[..j + 1])) ==
      Run(cwd, mid, WalkFiles(m, dirPath + [subs[j].name], subs[j]))
  {
    var w := WalkFiles(m, dirPath + [subs[j].name], subs[j]);
    var done := SubdirVisits(m, dirPath, d, subs[..j]);
    SubdirVisitsNext(m, dirPath, d, subs, j);
    ConcatAssoc(own, done, w);
    RunThrough(cwd, st, own + done, w, mid);
  }

  /** The run completes exactly when every visited file can be stat'ed. */
  lemma {:induction false} RunOkIffStat(cwd: Path, st: RunState, vs: seq<Visit>)
    ensures Run(cwd, st, vs).ok <==> forall k :: 0 <= k < |vs| ==> vs[k].data.stat.Some?
    decreases |vs|
  {
    if |vs| > 0 {
      match Step(cwd, st, vs[0])
      case None =>
      case Some(next) =>
        RunOkIffStat(cwd, next, vs[1..]);
        AllStatCons(vs);
    }
  }

  lemma AllStatCons(vs: seq<Visit>)
    requires |vs| > 0
    ensures (forall k :: 0 <= k < |vs| ==> vs[k].data.stat.Some?) <==>
      vs[0].data.stat.Some? && forall k :: 0 <= k < |vs[1..]| ==> vs[1..][k].data.stat.Some?
  {
    assert forall k :: 1 <= k < |vs| ==> vs[k] == vs[1..][k - 1];
  }

  /** How a visit is counted, None when its metadata cannot be read. */
  function Disposal(v: Visit): Option<Disposition> {
    match GetFileInfo(Basename(v.path), v.data.stat, v.data.sniff, v.data.bytes)
    case Err(_) => None
    case Ok(info) => Some(Dispose(info.kind, v.data.text))
  }

  /** The relative paths of the visits counted as `d`, in order. */
  function RelsWith(cwd: Path, vs: seq<Visit>, d: Disposition): seq<string> {
    if |vs| == 0 then []
    else (if Disposal(vs[0]) == Some(d) then [RelPath(cwd, vs[0].path)] else []) + RelsWith(cwd, vs[1..], d)
  }

  /** The concatenated blocks of a run of visits whose metadata was read. */
  function Blocks(cwd: Path, vs: seq<Visit>): string {
    if |vs| == 0 then ""
    else match GetFileInfo(Basename(vs[0].path), vs[0].data.stat, vs[0].data.sniff, vs[0].data.bytes)
      case Err(_) => ""
      case Ok(info) => Block(RelPath(cwd, vs[0].path), info, vs[0].data.text) + Blocks(cwd, vs[1..])
  }

  /** The counter a disposition moves. */
  function Counted(s: FileStats, d: Disposition): nat {
    match d
    case AsText => s.processed
    case AsSkipped => s.skipped
    case AsBinary => s.binary
    case AsImage => s.image
  }

  /** The list a disposition appends to; skipped files are listed nowhere. */
  function Listed(l: FileLists, d: Disposition): seq<string> {
    match d
    case AsText => l.text
    case AsSkipped => []
    case AsBinary => l.binary
    case AsImage => l.image
  }

  /** One recorded file moves the counter and list of disposition `d` only
      when it is disposed of as `d`. */
  lemma RecordDisposition(st: RunState, rel: string, info: FileInfo, t: ReadResult, d: Disposition)
    ensures var r := Record(st, rel, info, t); var own := if Dispose(info.kind, t) == d then [rel] else [];
      && Counted(r.stats, d) == Counted(st.stats, d) + |own|
      && Listed(r.lists, d) == Listed(st.lists, d) + (if d == AsSkipped then [] else own)
  {
    RecordOneCounter(st, rel, info, t);
  }

  /** After a complete run the counter of each disposition has grown by the
      number of visits so disposed of, and its list by their relative paths,
      in walk order. */
  lemma {:induction false} RunRecords(cwd: Path, st: RunState, vs: seq<Visit>, d: Disposition)
    requires Run(cwd, st, vs).ok
    ensures var r := Run(cwd, st, vs).state;
      && Counted(r.stats, d) == Counted(st.stats, d) + |RelsWith(cwd, vs, d)|
      && Listed(r.lists, d) == Listed(st.lists, d) + (if d == AsSkipped then [] else RelsWith(cwd, vs, d))
    decreases |vs|
  {
    if |vs| > 0 {
      var next, own := RecordsFirst(cwd, st, vs, d);
      RunRecords(cwd, next, vs[1..], d);
      var tail := RelsWith(cwd, vs[1..], d);
      if d != AsSkipped {
        ConcatAssoc(Listed(st.lists, d), own, tail);
      }
    }
  }

  /** The first visit of a complete run, as far as disposition `d` goes. */
  lemma RecordsFirst(cwd: Path, st: RunState, vs: seq<Visit>, d: Disposition) returns (next: RunState, own: seq<string>)
    requires |vs| > 0 && Run(cwd, st, vs).ok
    ensures Run(cwd, st, vs) == Run(cwd, next, vs[1..])
    ensures RelsWith(cwd, vs, d) == own + RelsWith(cwd, vs[1..], d)
    ensures Counted(next.stats, d) == Counted(st.stats, d) + |own|
    ensures Listed(next.lists, d) == Listed(st.lists, d) + (if d == AsSkipped then [] else own)
  {
    var v := vs[0];
    var info;
    next, info := FirstStep(cwd, st, vs);
    own := if Dispose(info.kind, v.data.text) == d then [RelPath(cwd, v.path)] else [];
    RelsWithFirst(cwd, vs, d, Dispose(info.kind, v.data.text));
    RecordDisposition(st, RelPath(cwd, v.path), info, v.data.text, d);
  }

  /** The first step of a complete, non-empty run: the metadata of the
      first visit is `info`, and the rest of the run starts from its record. */
  lemma FirstStep(cwd: Path, st: RunState, vs: seq<Visit>) returns (next: RunState, info: FileInfo)
    requires |vs| > 0 && Run(cwd, st, vs).ok
    ensures var v := vs[0];
      && next == Record(st, RelPath(cwd, v.path), info, v.data.text)
      && Run(cwd, st, vs) == Run(cwd, next, vs[1..])
      && Disposal(v) == Some(Dispose(info.kind, v.data.text))
      && GetFileInfo(Basename(v.path), v.data.stat, v.data.sniff, v.data.bytes) == Ok(info)
  {
    var v := vs[0];
    info := GetFileInfo(Basename(v.path), v.data.stat, v.data.sniff, v.data.bytes).value;
    next := Record(st, RelPath(cwd, v.path), info, v.data.text);
  }

  lemma RelsWithFirst(cwd: Path, vs: seq<Visit>, d: Disposition, kd: Disposition)
    requires |vs| > 0 && Disposal(vs[0]) == Some(kd)
    ensures RelsWith(cwd, vs, d) == (if kd == d then [RelPath(cwd, vs[0].path)] else []) + RelsWith(cwd, vs[1..], d)
  {
  }

  /** After a complete run the output has grown by the blocks of all visits,
      in walk order. */
  lemma {:induction false} RunOutput(cwd: Path, st: RunState, vs: seq<Visit>)
    requires Run(cwd, st, vs).ok
    ensures Run(cwd, st, vs).state.out == st.out + Blocks(cwd, vs)
    decreases |vs|
  {
    if |vs| > 0 {
      var next, block := OutputFirst(cwd, st, vs);
      RunOutput(cwd, next, vs[1..]);
      ConcatAssoc(st.out, block, Blocks(cwd, vs[1..]));
    }
  }

  /** The first visit of a complete run, as far as the output goes. */
  lemma OutputFirst(cwd: Path, st: RunState, vs: seq<Visit>) returns (next: RunState, block: string)
    requires |vs| > 0 && Run(cwd, st, vs).ok
    ensures Run(cwd, st, vs) == Run(cwd, next, vs[1..])
    ensures Blocks(cwd, vs) == block + Blocks(cwd, vs[1..])
    ensures next.out == st.out + block
  {
    var v := vs[0];
    var info;
    next, info := FirstStep(cwd, st, vs);
    block := Block(RelPath(cwd, v.path), info, v.data.text);
  }

  /** Every run, complete or not, keeps each list as long as its counter. */
  lemma {:induction false} RunKeepsConsistent(cwd: Path, st: RunState, vs: seq<Visit>)
    requires Consistent(st)
    ensures Consistent(Run(cwd, st, vs).state)
    decreases |vs|
  {
    if |vs| > 0 {
      match Step(cwd, st, vs[0])
      case None =>
      case Some(next) =>
        var v := vs[0];
        var info := GetFileInfo(Basename(v.path), v.data.stat, v.data.sniff, v.data.bytes).value;
        RecordKeepsConsistent(st, RelPath(cwd, v.path), info, v.data.text);
        RunKeepsConsistent(cwd, next, vs[1..]);
    }
  }
}
