/** What `generate_tree` prints: one line per non-excluded entry, entries of a
    directory sorted by name, connectors and indentation as in the source. */
module Render {
  import opened Text
  import opened Paths
  import opened Exclusion
  import opened FileTree
  import opened Wrappers

  const TreeHeader := "================== DIRECTORY STRUCTURE =================="
  const TreeFooter := "================== END OF DIRECTORY STRUCTURE =================="
  const Tee := "├── "
  const Corner := "└── "
  const Bar := "│   "
  const Blank := "    "

  /** One printed entry: where it is, what it is called, the prefix it is
      indented by, and whether it took the corner connector. */
  datatype Entry = Entry(path: Path, name: string, prefix: string, isLast: bool, isDir: bool)

  /** `f"{prefix}{connector}{entry.name}"`. */
  function Line(e: Entry): string {
    e.prefix + (if e.isLast then Corner else Tee) + e.name
  }

  /** Every member of a sorted listing is a child of the directory. */
  lemma SortedChildren(d: Node)
    requires d.Dir?
    ensures forall k :: 0 <= k < |SortByName(d.children)| ==> SortByName(d.children)[k] in d.children
  {
    forall k | 0 <= k < |SortByName(d.children)| ensures SortByName(d.children)[k] in d.children {
      SortedMembers(d.children, SortByName(d.children)[k]);
    }
  }

  /** `write_tree(dirPath, prefix)` for the directory `d`: its entries sorted by
      name, the excluded ones skipped and never descended into. */
  function Entries(m: Matcher, dirPath: Path, d: Node, prefix: string): (r: seq<Entry>)
    requires d.Dir?
    decreases d, 1
  {
    SortedChildren(d);
    EntriesFrom(m, dirPath, d, SortByName(d.children), 0, prefix)
  }

  /** The loop of `write_tree` from index `i` of the sorted listing `es` on.
      The corner goes to index `|es| - 1` of the FULL listing, excluded or not. */
  function EntriesFrom(m: Matcher, dirPath: Path, d: Node, es: seq<Node>, i: nat, prefix: string): (r: seq<Entry>)
    requires d.Dir? && i <= |es|
    requires forall k :: 0 <= k < |es| ==> es[k] in d.children
    decreases d, 0, |es| - i
  {
    if i == |es| then []
    else
      var c := es[i];
      var p := dirPath + [c.name];
      if IsExcluded(m, p) then EntriesFrom(m, dirPath, d, es, i + 1, prefix)
      else
        var last := i == |es| - 1;
        var below := if c.Dir? then Entries(m, p, c, prefix + (if last then Blank else Bar)) else [];
        [Entry(p, c.name, prefix, last, c.Dir?)] + below + EntriesFrom(m, dirPath, d, es, i + 1, prefix)
  }

  /** `e` is printed below `dirPath` and its path is not excluded. */
  ghost predicate PrintedBelow(m: Matcher, dirPath: Path, e: Entry) {
    |e.path| > |dirPath| && e.path[..|dirPath|] == dirPath && !IsExcluded(m, e.path)
  }

  /** An excluded entry produces no line, and nothing below it does either:
      every printed entry lies below the listed directory and is not excluded. */
  lemma {:induction false} EntriesBelow(m: Matcher, dirPath: Path, d: Node, prefix: string)
    requires d.Dir?
    ensures forall e :: e in Entries(m, dirPath, d, prefix) ==> PrintedBelow(m, dirPath, e)
    decreases d, 1
  {
    SortedChildren(d);
    EntriesFromBelow(m, dirPath, d, SortByName(d.children), 0, prefix);
  }

  lemma {:induction false} EntriesFromBelow(m: Matcher, dirPath: Path, d: Node, es: seq<Node>, i: nat, prefix: string)
    requires d.Dir? && i <= |es|
    requires forall k :: 0 <= k < |es| ==> es[k] in d.children
    ensures forall e :: e in EntriesFrom(m, dirPath, d, es, i, prefix) ==> PrintedBelow(m, dirPath, e)
    decreases d, 0, |es| - i
  {
    if i < |es| {
      var c := es[i];
      var head, below := LoopStep(m, dirPath, d, es, i, prefix);
      assert forall e :: e in EntriesFrom(m, dirPath, d, es, i, prefix) ==> PrintedBelow(m, dirPath, e) by {
        EntriesFromBelow(m, dirPath, d, es, i + 1, prefix);
        if !IsExcluded(m, dirPath + [c.name]) {
          if c.Dir? {
            EntriesBelow(m, dirPath + [c.name], c, prefix + (if i == |es| - 1 then Blank else Bar));
          }
          KeptBelow(m, dirPath, c.name, EntriesFrom(m, dirPath, d, es, i, prefix), head, below,
                    EntriesFrom(m, dirPath, d, es, i + 1, prefix));
        }
      }
    }
  }

  /** A kept entry, the subtree below it and a rest that all lie below the
      directory make a run that lies below it. */
  lemma KeptBelow(m: Matcher, dirPath: Path, name: string, r: seq<Entry>, head: Entry, below: seq<Entry>, rest: seq<Entry>)
    requires r == [head] + below + rest && head.path == dirPath + [name] && !IsExcluded(m, head.path)
    requires forall e :: e in below ==> PrintedBelow(m, dirPath + [name], e)
    requires forall e :: e in rest ==> PrintedBelow(m, dirPath, e)
    ensures forall e :: e in r ==> PrintedBelow(m, dirPath, e)
  {
    assert head.path[..|dirPath|] == dirPath;
    forall e | e in below ensures PrintedBelow(m, dirPath, e) {
      var p := dirPath + [name];
      assert e.path[..|p|] == p;
      assert e.path[..|dirPath|] == p[..|dirPath|];
    }
  }

  /** The text of a run of entries, one line each. */
  function Emit(es: seq<Entry>): string {
    if |es| == 0 then "" else Line(es[0]) + "\n" + Emit(es[1..])
  }

  lemma {:induction false} EmitAppend(a: seq<Entry>, b: seq<Entry>)
    ensures Emit(a + b) == Emit(a) + Emit(b)
  {
    if |a| > 0 {
      assert (a + b)[1..] == a[1..] + b;
      EmitAppend(a[1..], b);
    } else {
      assert a + b == b;
    }
  }

  /** One step of the loop of `write_tree`: the entry at index `i` contributes
      its line and, for a directory, the lines below it, unless excluded. */
  lemma EmitStep(m: Matcher, dirPath: Path, d: Node, es: seq<Node>, i: nat, prefix: string)
    requires d.Dir? && i < |es|
    requires forall k :: 0 <= k < |es| ==> es[k] in d.children
    ensures var c := es[i]; var p := dirPath + [c.name]; var last := i == |es| - 1;
      Emit(EntriesFrom(m, dirPath, d, es, i, prefix)) ==
        (if IsExcluded(m, p) then "" else
           (Line(Entry(p, c.name, prefix, last, c.Dir?)) + "\n" +
            (if c.Dir? then Emit(Entries(m, p, c, prefix + (if last then Blank else Bar))) else ""))) +
        Emit(EntriesFrom(m, dirPath, d, es, i + 1, prefix))
  {
    var c := es[i];
    var p := dirPath + [c.name];
    if !IsExcluded(m, p) {
      var last := i == |es| - 1;
      var head := Entry(p, c.name, prefix, last, c.Dir?);
      var below := if c.Dir? then Entries(m, p, c, prefix + (if last then Blank else Bar)) else [];
      var rest := EntriesFrom(m, dirPath, d, es, i + 1, prefix);
      assert EntriesFrom(m, dirPath, d, es, i, prefix) == [head] + below + rest;
      EmitAppend([head] + below, rest);
      EmitAppend([head], below);
      EmitOne(head);
    }
  }

  /** The tree section: the header, then (when the start path is a directory
      that can be listed) the entries and the footer with a blank line. */
  datatype Section = Section(text: string, ok: bool)

  function TreeSection(m: Matcher, start: Path, root: Node): (r: Section)
    ensures r.ok <==> root.Dir?
    ensures StartsWith(r.text, TreeHeader + "\n")
    ensures r.ok ==> EndsWith(r.text, TreeFooter + "\n\n")
  {
    if root.Dir? then Section((TreeHeader + "\n") + Emit(Entries(m, start, root, "")) + (TreeFooter + "\n\n"), true)
    else Section(TreeHeader + "\n", false)
  }

  /** The entries printed directly for `d`, not those of its subdirectories. */
  predicate TopLevel(dirPath: Path, e: Entry) {
    |e.path| == |dirPath| + 1
  }

  /** The corner connector is decided against the full sorted listing: only an
      entry named like the last listed child can take it, and when that child
      is excluded no printed sibling is drawn with the corner (the converse is
      `LastGetsCorner`). */
  lemma {:induction false} CornerFollowsFullListing(m: Matcher, dirPath: Path, d: Node, prefix: string)
    requires d.Dir? && |d.children| > 0
    ensures var es := SortByName(d.children);
      forall e :: e in Entries(m, dirPath, d, prefix) && TopLevel(dirPath, e) && e.isLast ==>
        e.name == es[|es| - 1].name && !IsExcluded(m, dirPath + [es[|es| - 1].name])
  {
    SortedChildren(d);
    CornerFrom(m, dirPath, d, SortByName(d.children), 0, prefix);
  }

  /** Every top-level entry of `r` drawn with the corner is named like the
      last child of the full listing `es`, and that child is not excluded. */
  ghost predicate CornerOnlyAtLast(m: Matcher, dirPath: Path, es: seq<Node>, r: seq<Entry>) {
    forall e :: e in r && TopLevel(dirPath, e) && e.isLast ==>
      |es| > 0 && e.name == es[|es| - 1].name && !IsExcluded(m, dirPath + [es[|es| - 1].name])
  }

  lemma {:induction false} CornerFrom(m: Matcher, dirPath: Path, d: Node, es: seq<Node>, i: nat, prefix: string)
    requires d.Dir? && i <= |es|
    requires forall k :: 0 <= k < |es| ==> es[k] in d.children
    ensures CornerOnlyAtLast(m, dirPath, es, EntriesFrom(m, dirPath, d, es, i, prefix))
    decreases |es| - i
  {
    if i < |es| {
      CornerFrom(m, dirPath, d, es, i + 1, prefix);
      if !IsExcluded(m, dirPath + [es[i].name]) {
        CornerStep(m, dirPath, d, es, i, prefix);
      }
    }
  }

  /** A printed entry passes the corner property on to the listing from its
      index on, given that the rest of the listing has it. */
  lemma CornerStep(m: Matcher, dirPath: Path, d: Node, es: seq<Node>, i: nat, prefix: string)
    requires d.Dir? && i < |es|
    requires forall k :: 0 <= k < |es| ==> es[k] in d.children
    requires !IsExcluded(m, dirPath + [es[i].name])
    requires CornerOnlyAtLast(m, dirPath, es, EntriesFrom(m, dirPath, d, es, i + 1, prefix))
    ensures CornerOnlyAtLast(m, dirPath, es, EntriesFrom(m, dirPath, d, es, i, prefix))
  {
    var c := es[i];
    var p := dirPath + [c.name];
    var last := i == |es| - 1;
    var head := Entry(p, c.name, prefix, last, c.Dir?);
    var below := if c.Dir? then Entries(m, p, c, prefix + (if last then Blank else Bar)) else [];
    var rest := EntriesFrom(m, dirPath, d, es, i + 1, prefix);
    var all := EntriesFrom(m, dirPath, d, es, i, prefix);
    assert all == [head] + below + rest;
    if c.Dir? {
      EntriesBelow(m, p, c, prefix + (if last then Blank else Bar));
    }
    forall e | e in all && TopLevel(dirPath, e) && e.isLast
      ensures |es| > 0 && e.name == es[|es| - 1].name && !IsExcluded(m, dirPath + [es[|es| - 1].name])
    {
      if e !in rest && e !in below {
        assert e == head && i == |es| - 1;
      }
    }
  }

  /** The converse of `CornerFollowsFullListing`: when the last child of the
      sorted listing is not excluded, it is printed with the corner. */
  lemma LastGetsCorner(m: Matcher, dirPath: Path, d: Node, prefix: string)
    requires d.Dir? && |d.children| > 0
    ensures var es := SortByName(d.children); var c := es[|es| - 1];
      !IsExcluded(m, dirPath + [c.name]) ==>
        Entry(dirPath + [c.name], c.name, prefix, true, c.Dir?) in Entries(m, dirPath, d, prefix)
  {
    SortedChildren(d);
    var es := SortByName(d.children);
    var c := es[|es| - 1];
    if !IsExcluded(m, dirPath + [c.name]) {
      LastFrom(m, dirPath, d, es, 0, prefix);
    }
  }

  lemma {:induction false} LastFrom(m: Matcher, dirPath: Path, d: Node, es: seq<Node>, i: nat, prefix: string)
    requires d.Dir? && i < |es|
    requires forall k :: 0 <= k < |es| ==> es[k] in d.children
    requires !IsExcluded(m, dirPath + [es[|es| - 1].name])
    ensures var c := es[|es| - 1];
      Entry(dirPath + [c.name], c.name, prefix, true, c.Dir?) in EntriesFrom(m, dirPath, d, es, i, prefix)
    decreases |es| - i
  {
    var c := es[i];
    var p := dirPath + [c.name];
    var last := i == |es| - 1;
    var rest := EntriesFrom(m, dirPath, d, es, i + 1, prefix);
    if !IsExcluded(m, p) {
      var head := Entry(p, c.name, prefix, last, c.Dir?);
      var below := if c.Dir? then Entries(m, p, c, prefix + (if last then Blank else Bar)) else [];
      assert EntriesFrom(m, dirPath, d, es, i, prefix) == [head] + below + rest;
      if !last {
        LastFrom(m, dirPath, d, es, i + 1, prefix);
      }
    } else {
      LastFrom(m, dirPath, d, es, i + 1, prefix);
    }
  }

  /** Nothing printed inside a subdirectory is a top-level entry of its parent. */
  lemma BelowNotTop(m: Matcher, dirPath: Path, c: Node, name: string, prefix: string)
    requires c.Dir?
    ensures forall e :: e in Entries(m, dirPath + [name], c, prefix) ==> !TopLevel(dirPath, e)
  {
    EntriesBelow(m, dirPath + [name], c, prefix);
  }

  /** Every top-level entry is drawn with the directory's own prefix, and its
      path is the directory's path extended by its name. */
  lemma TopLevelPrefix(m: Matcher, dirPath: Path, d: Node, prefix: string)
    requires d.Dir?
    ensures forall e :: e in Entries(m, dirPath, d, prefix) && TopLevel(dirPath, e) ==>
      e.prefix == prefix && e.path == dirPath + [e.name]
  {
    SortedChildren(d);
    TopLevelPrefixFrom(m, dirPath, d, SortByName(d.children), 0, prefix);
  }

  lemma {:induction false} TopLevelPrefixFrom(m: Matcher, dirPath: Path, d: Node, es: seq<Node>, i: nat, prefix: string)
    requires d.Dir? && i <= |es|
    requires forall k :: 0 <= k < |es| ==> es[k] in d.children
    ensures forall e :: e in EntriesFrom(m, dirPath, d, es, i, prefix) && TopLevel(dirPath, e) ==>
      e.prefix == prefix && e.path == dirPath + [e.name]
    decreases |es| - i
  {
    if i < |es| {
      TopLevelPrefixFrom(m, dirPath, d, es, i + 1, prefix);
      var c := es[i];
      var p := dirPath + [c.name];
      if !IsExcluded(m, p) {
        var last := i == |es| - 1;
        var head := Entry(p, c.name, prefix, last, c.Dir?);
        var below := if c.Dir? then Entries(m, p, c, prefix + (if last then Blank else Bar)) else [];
        var rest := EntriesFrom(m, dirPath, d, es, i + 1, prefix);
        assert EntriesFrom(m, dirPath, d, es, i, prefix) == [head] + below + rest;
        if c.Dir? {
          BelowNotTop(m, dirPath, c, c.name, prefix + (if last then Blank else Bar));
        }
      }
    }
  }

  /** The entry at `j` of `r` is the printed directory `c`, a child of `d`,
      and its subtree follows it, drawn with the prefix grown by the connector's
      indentation. */
  ghost predicate SubtreeAt(m: Matcher, dirPath: Path, d: Node, r: seq<Entry>, j: nat, c: Node)
    requires d.Dir?
  {
    && j < |r| && c in d.children && c.Dir? && c.name == r[j].name && r[j].path == dirPath + [c.name]
    && Follows(r, j, Entries(m, r[j].path, c, r[j].prefix + (if r[j].isLast then Blank else Bar)))
  }

  /** `sub` comes right after index `j` of `r`. */
  ghost predicate Follows<T>(r: seq<T>, j: nat, sub: seq<T>) {
    j + 1 + |sub| <= |r| && r[j + 1..j + 1 + |sub|] == sub
  }

  /** The prefix rule of `write_tree`: the line of a printed directory is
      followed directly by the lines of its subtree, whose own top-level entries
      carry the prefix grown by four blanks after a corner and by a bar after
      a tee. */
  lemma SubtreeFollows(m: Matcher, dirPath: Path, d: Node, prefix: string, j: nat) returns (c: Node)
    requires d.Dir? && j < |Entries(m, dirPath, d, prefix)|
    requires TopLevel(dirPath, Entries(m, dirPath, d, prefix)[j]) && Entries(m, dirPath, d, prefix)[j].isDir
    ensures SubtreeAt(m, dirPath, d, Entries(m, dirPath, d, prefix), j, c)
    ensures var e := Entries(m, dirPath, d, prefix)[j];
      forall f :: f in Entries(m, e.path, c, e.prefix + (if e.isLast then Blank else Bar)) && TopLevel(e.path, f) ==>
        f.prefix == e.prefix + (if e.isLast then Blank else Bar)
  {
    SortedChildren(d);
    c := SubtreeFrom(m, dirPath, d, SortByName(d.children), 0, prefix, j);
    var e := Entries(m, dirPath, d, prefix)[j];
    TopLevelPrefix(m, e.path, c, e.prefix + (if e.isLast then Blank else Bar));
  }

  lemma {:induction false} SubtreeFrom(m: Matcher, dirPath: Path, d: Node, es: seq<Node>, i: nat, prefix: string, j: nat)
      returns (c: Node)
    requires d.Dir? && i <= |es|
    requires forall k :: 0 <= k < |es| ==> es[k] in d.children
    requires j < |EntriesFrom(m, dirPath, d, es, i, prefix)|
    requires TopLevel(dirPath, EntriesFrom(m, dirPath, d, es, i, prefix)[j])
    requires EntriesFrom(m, dirPath, d, es, i, prefix)[j].isDir
    ensures SubtreeAt(m, dirPath, d, EntriesFrom(m, dirPath, d, es, i, prefix), j, c)
    decreases |es| - i
  {
    var x := es[i];
    var rest := EntriesFrom(m, dirPath, d, es, i + 1, prefix);
    var r := EntriesFrom(m, dirPath, d, es, i, prefix);
    var head, below := LoopStep(m, dirPath, d, es, i, prefix);
    if IsExcluded(m, dirPath + [x.name]) {
      assert r == rest;
      c := SubtreeFrom(m, dirPath, d, es, i + 1, prefix, j);
    } else {
      assert r == [head] + below + rest;
      if j == 0 {
        c := x;
        SubtreeHead(m, dirPath, d, head, below, rest, x);
      } else {
        var j' := PastBelow(m, dirPath, x, prefix + (if i == |es| - 1 then Blank else Bar), head, below, rest, j);
        c := SubtreeFrom(m, dirPath, d, es, i + 1, prefix, j');
        SubtreeShift(m, dirPath, d, r, head, below, rest, j, j', c);
      }
    }
  }

  /** One pass of the loop of `write_tree` at index `i`: an excluded entry adds
      nothing; a kept one adds its own entry, then (for a directory) its
      subtree. */
  lemma LoopStep(m: Matcher, dirPath: Path, d: Node, es: seq<Node>, i: nat, prefix: string)
      returns (head: Entry, below: seq<Entry>)
    requires d.Dir? && i < |es|
    requires forall k :: 0 <= k < |es| ==> es[k] in d.children
    ensures var x := es[i]; var last := i == |es| - 1;
      && head == Entry(dirPath + [x.name], x.name, prefix, last, x.Dir?)
      && below == (if x.Dir? then Entries(m, dirPath + [x.name], x, prefix + (if last then Blank else Bar)) else [])
      && EntriesFrom(m, dirPath, d, es, i, prefix) ==
           if IsExcluded(m, dirPath + [x.name]) then EntriesFrom(m, dirPath, d, es, i + 1, prefix)
           else [head] + below + EntriesFrom(m, dirPath, d, es, i + 1, prefix)
  {
    var x := es[i];
    var last := i == |es| - 1;
    head := Entry(dirPath + [x.name], x.name, prefix, last, x.Dir?);
    below := if x.Dir? then Entries(m, dirPath + [x.name], x, prefix + (if last then Blank else Bar)) else [];
  }

  lemma SubtreeHead(m: Matcher, dirPath: Path, d: Node, head: Entry, below: seq<Entry>, rest: seq<Entry>, x: Node)
    requires d.Dir? && x in d.children && x.Dir? && head.name == x.name && head.path == dirPath + [x.name]
    requires below == Entries(m, head.path, x, head.prefix + (if head.isLast then Blank else Bar))
    ensures SubtreeAt(m, dirPath, d, [head] + below + rest, 0, x)
  {
    FollowsHead(head, below, rest);
  }

  lemma SubtreeShift(m: Matcher, dirPath: Path, d: Node, r: seq<Entry>, head: Entry, below: seq<Entry>, rest: seq<Entry>,
                     j: nat, j': nat, c: Node)
    requires d.Dir? && r == [head] + below + rest && j == j' + 1 + |below|
    requires SubtreeAt(m, dirPath, d, rest, j', c)
    ensures SubtreeAt(m, dirPath, d, r, j, c)
  {
    var e := rest[j'];
    FollowsShift(r, head, below, rest, j, j', Entries(m, e.path, c, e.prefix + (if e.isLast then Blank else Bar)));
  }

  lemma FollowsHead<T>(head: T, below: seq<T>, rest: seq<T>)
    ensures ([head] + below + rest)[0] == head && Follows([head] + below + rest, 0, below)
  {
    assert ([head] + below + rest)[1..1 + |below|] == below;
  }

  lemma FollowsShift<T>(r: seq<T>, head: T, below: seq<T>, rest: seq<T>, j: nat, j': nat, sub: seq<T>)
    requires r == [head] + below + rest && j == j' + 1 + |below| && j' < |rest| && Follows(rest, j', sub)
    ensures r[j] == rest[j'] && Follows(r, j, sub)
  {
    assert r[j + 1..j + 1 + |sub|] == rest[j' + 1..j' + 1 + |sub|];
  }

  /** A top-level entry after a kept entry lies past that entry's subtree. */
  lemma PastBelow(m: Matcher, dirPath: Path, x: Node, prefix: string, head: Entry, below: seq<Entry>, rest: seq<Entry>, j: nat)
      returns (j': nat)
    requires below == if x.Dir? then Entries(m, dirPath + [x.name], x, prefix) else []
    requires 0 < j < |[head] + below + rest| && TopLevel(dirPath, ([head] + below + rest)[j])
    ensures j == j' + 1 + |below| && j' < |rest| && ([head] + below + rest)[j] == rest[j']
  {
    if x.Dir? {
      BelowNotTop(m, dirPath, x, x.name, prefix);
      if j <= |below| {
        assert false;
      }
    }
    j' := j - 1 - |below|;
  }

  /** The names of the top-level entries of a run of printed entries, in order. */
  function TopNames(dirPath: Path, r: seq<Entry>): (names: seq<string>)
    ensures |names| <= |r|
  {
    if |r| == 0 then []
    else (if TopLevel(dirPath, r[0]) then [r[0].name] else []) + TopNames(dirPath, r[1..])
  }

  lemma {:induction false} TopNamesAppend(dirPath: Path, a: seq<Entry>, b: seq<Entry>)
    ensures TopNames(dirPath, a + b) == TopNames(dirPath, a) + TopNames(dirPath, b)
  {
    if |a| > 0 {
      assert (a + b)[1..] == a[1..] + b;
      TopNamesAppend(dirPath, a[1..], b);
    } else {
      assert a + b == b;
    }
  }

  lemma {:induction false} TopNamesNone(dirPath: Path, r: seq<Entry>)
    requires forall e :: e in r ==> !TopLevel(dirPath, e)
    ensures TopNames(dirPath, r) == []
  {
    if |r| > 0 {
      assert r[0] in r;
      TopNamesNone(dirPath, r[1..]);
    }
  }

  function Names(es: seq<Node>): (r: seq<string>)
    ensures |r| == |es| && forall k :: 0 <= k < |es| ==> r[k] == es[k].name
  {
    if |es| == 0 then [] else [es[0].name] + Names(es[1..])
  }

  /** Siblings are printed in name order: the names of the printed top-level
      entries are the sorted listing's names with the excluded ones left out. */
  lemma PrintedInNameOrder(m: Matcher, dirPath: Path, d: Node, prefix: string)
    requires d.Dir?
    ensures SubsequenceOf(TopNames(dirPath, Entries(m, dirPath, d, prefix)), Names(SortByName(d.children)))
  {
    SortedChildren(d);
    var es := SortByName(d.children);
    NameOrderFrom(m, dirPath, d, es, 0, prefix);
    assert es[0..] == es;
  }

  lemma {:induction false} NameOrderFrom(m: Matcher, dirPath: Path, d: Node, es: seq<Node>, i: nat, prefix: string)
    requires d.Dir? && i <= |es|
    requires forall k :: 0 <= k < |es| ==> es[k] in d.children
    ensures SubsequenceOf(TopNames(dirPath, EntriesFrom(m, dirPath, d, es, i, prefix)), Names(es[i..]))
    decreases |es| - i
  {
    if i == |es| {
      SubsequenceEmpty(Names(es[i..]));
    } else {
      NameOrderFrom(m, dirPath, d, es, i + 1, prefix);
      var c := es[i];
      var p := dirPath + [c.name];
      var rest := EntriesFrom(m, dirPath, d, es, i + 1, prefix);
      var s := Names(es[i..]);
      assert s[0] == c.name && s[1..] == Names(es[i + 1..]);
      if IsExcluded(m, p) {
        SubsequenceCons(s, TopNames(dirPath, rest), false);
      } else {
        var last := i == |es| - 1;
        var head := Entry(p, c.name, prefix, last, c.Dir?);
        var below := if c.Dir? then Entries(m, p, c, prefix + (if last then Blank else Bar)) else [];
        assert EntriesFrom(m, dirPath, d, es, i, prefix) == [head] + below + rest;
        if c.Dir? {
          BelowNotTop(m, dirPath, c, c.name, prefix + (if last then Blank else Bar));
        }
        NamesKeep(dirPath, head, below, rest, s);
      }
    }
  }

  /** A printed entry followed by its subtree adds its own name, and only it,
      in front of the names of the rest. */
  lemma NamesKeep(dirPath: Path, head: Entry, below: seq<Entry>, rest: seq<Entry>, s: seq<string>)
    requires |s| > 0 && head.name == s[0] && TopLevel(dirPath, head)
    requires SubsequenceOf(TopNames(dirPath, rest), s[1..])
    requires forall e :: e in below ==> !TopLevel(dirPath, e)
    ensures SubsequenceOf(TopNames(dirPath, [head] + below + rest), s)
  {
    TopNamesNone(dirPath, below);
    TopNamesAppend(dirPath, [head], below);
    TopNamesAppend(dirPath, [head] + below, rest);
    assert TopNames(dirPath, [head]) == [s[0]] by {
      assert [head][1..] == [];
    }
    SubsequenceCons(s, TopNames(dirPath, rest), true);
  }

  /** The quirk on a concrete listing: in a directory holding `main.py` and an
      excluded `node_modules`, `main.py` is drawn with the tee, not the corner. */
  lemma LastExcludedKeepsTee(data: FileData)
    ensures var root := Dir("proj", [Dir("node_modules", []), File("main.py", data)]);
      Emit(Entries(Matcher(["/"], None, DefaultExcludes), ["/", "proj"], root, "")) == Tee + "main.py" + "\n"
  {
    var m := Matcher(["/"], None, DefaultExcludes);
    var dp := ["/", "proj"];
    MainPyKept(m, dp);
    NodeModulesDropped(m, dp);
    var e := ProjEntries(m, dp, data);
    EmitOne(e);
    assert "" + Tee == Tee;
  }

  /** The listing of that directory: `main.py` alone, not marked last. */
  lemma ProjEntries(m: Matcher, dp: Path, data: FileData) returns (e: Entry)
    requires !IsExcluded(m, dp + ["main.py"]) && IsExcluded(m, dp + ["node_modules"])
    ensures e == Entry(dp + ["main.py"], "main.py", "", false, false)
    ensures var root := Dir("proj", [Dir("node_modules", []), File("main.py", data)]);
      Entries(m, dp, root, "") == [e]
  {
    var nm, mp := Dir("node_modules", []), File("main.py", data);
    var root := Dir("proj", [nm, mp]);
    var es := SortMainFirst(nm, mp);
    assert Entries(m, dp, root, "") == EntriesFrom(m, dp, root, es, 0, "");
    SkipExcluded(m, dp, root, es, 1, "");
    e := KeepFile(m, dp, root, es, 0, "");
  }

  /** An excluded entry contributes nothing. */
  lemma SkipExcluded(m: Matcher, dirPath: Path, d: Node, es: seq<Node>, i: nat, prefix: string)
    requires d.Dir? && i < |es|
    requires forall k :: 0 <= k < |es| ==> es[k] in d.children
    requires IsExcluded(m, dirPath + [es[i].name])
    ensures EntriesFrom(m, dirPath, d, es, i, prefix) == EntriesFrom(m, dirPath, d, es, i + 1, prefix)
  {
  }

  /** A kept file contributes its own entry alone. */
  lemma KeepFile(m: Matcher, dirPath: Path, d: Node, es: seq<Node>, i: nat, prefix: string) returns (e: Entry)
    requires d.Dir? && i < |es| && es[i].File?
    requires forall k :: 0 <= k < |es| ==> es[k] in d.children
    requires !IsExcluded(m, dirPath + [es[i].name])
    ensures e == Entry(dirPath + [es[i].name], es[i].name, prefix, i == |es| - 1, false)
    ensures EntriesFrom(m, dirPath, d, es, i, prefix) == [e] + EntriesFrom(m, dirPath, d, es, i + 1, prefix)
  {
    e := Entry(dirPath + [es[i].name], es[i].name, prefix, i == |es| - 1, false);
    var rest := EntriesFrom(m, dirPath, d, es, i + 1, prefix);
    assert EntriesFrom(m, dirPath, d, es, i, prefix) == [e] + [] + rest;
    assert [e] + [] == [e];
  }

  lemma EmitOne(e: Entry)
    ensures Emit([e]) == Line(e) + "\n"
  {
    assert [e][1..] == [];
  }

  lemma SortMainFirst(nm: Node, mp: Node) returns (es: seq<Node>)
    requires nm.name == "node_modules" && mp.name == "main.py"
    ensures SortByName([nm, mp]) == es == [mp, nm]
    ensures forall k :: 0 <= k < |es| ==> es[k] in [nm, mp]
  {
    assert LexLe("main.py", "node_modules");
    assert SortByName([mp]) == [mp];
    es := [mp, nm];
  }

  lemma MainPyKept(m: Matcher, dp: Path)
    requires m == Matcher(["/"], None, DefaultExcludes) && dp == ["/", "proj"]
    ensures !IsExcluded(m, dp + ["main.py"])
  {
    var pm := dp + ["main.py"];
    assert Basename(pm) == "main.py";
    MatchesPatternIff(DefaultExcludes, pm);
    assert forall k :: 0 <= k < |pm| ==> pm[k] !in DefaultExcludes;
  }

  lemma NodeModulesDropped(m: Matcher, dp: Path)
    requires m == Matcher(["/"], None, DefaultExcludes) && dp == ["/", "proj"]
    ensures IsExcluded(m, dp + ["node_modules"])
  {
    MatchesPatternIff(DefaultExcludes, dp + ["node_modules"]);
    assert (dp + ["node_modules"])[2] in DefaultExcludes;
  }
}
