/** The directory snapshot the engine works on, and `sorted(..., key=name)`. */
module FileTree {
  import opened Text
  import opened Wrappers
  import opened Classifier

  /** Reading a file as UTF-8 text: its content, or the message of the
      `UnicodeDecodeError`/`IOError` that stopped it. */
  datatype ReadResult = Decoded(content: string) | ReadError(message: string)

  /** Everything the engine learns about one file from the operating system:
      `os.stat`, the MIME detector, the raw bytes (None: cannot be opened)
      and the text read. */
  datatype FileData = FileData(stat: Option<Stat>, sniff: Sniff, bytes: Option<seq<byte>>, text: ReadResult)

  /** A directory entry; a directory's children are in listing order. */
  datatype Node = File(name: string, data: FileData) | Dir(name: string, children: seq<Node>)

  predicate SortedByName(s: seq<Node>) {
    forall i :: 0 <= i < |s| - 1 ==> LexLe(s[i].name, s[i + 1].name)
  }

  function Insert(x: Node, s: seq<Node>): (r: seq<Node>)
    requires SortedByName(s)
    ensures multiset(r) == multiset(s) + multiset{x}
    ensures SortedByName(r)
    ensures |r| > 0 && (r[0] == x || (|s| > 0 && r[0] == s[0]))
  {
    if |s| == 0 then [x]
    else if LexLe(x.name, s[0].name) then [x] + s
    else
      LexLeTotal(x.name, s[0].name);
      assert s == [s[0]] + s[1..];
      [s[0]] + Insert(x, s[1..])
  }

  /** `sorted(entries, key=lambda e: e.name)`: the same entries, ordered by name. */
  function SortByName(s: seq<Node>): (r: seq<Node>)
    ensures multiset(r) == multiset(s)
    ensures |r| == |s|
    ensures SortedByName(r)
  {
    if |s| == 0 then []
    else
      assert s == [s[0]] + s[1..];
      Insert(s[0], SortByName(s[1..]))
  }

  /** Sorted by adjacent pairs means sorted between any two positions. */
  lemma {:induction false} SortedChain(s: seq<Node>, i: nat, j: nat)
    requires SortedByName(s) && i < j < |s|
    ensures LexLe(s[i].name, s[j].name)
    decreases j - i
  {
    if j > i + 1 {
      SortedChain(s, i, j - 1);
      LexLeTrans(s[i].name, s[j - 1].name, s[j].name);
    }
  }

  /** Sorting neither adds nor drops an entry. */
  lemma SortedMembers(s: seq<Node>, x: Node)
    ensures x in SortByName(s) <==> x in s
  {
    assert x in SortByName(s) <==> x in multiset(SortByName(s));
  }

  /** The files of a listing, in listing order (`files` of `os.walk`). */
  function FilesOf(s: seq<Node>): (r: seq<Node>)
    ensures forall x :: x in r <==> x in s && x.File?
    ensures SubsequenceOf(r, s)
  {
    if |s| == 0 then SubsequenceEmpty(s); []
    else
      var rest := FilesOf(s[1..]);
      SubsequenceCons(s, rest, s[0].File?);
      if s[0].File? then [s[0]] + rest else rest
  }

  /** The subdirectories of a listing, in listing order (`dirs` of `os.walk`). */
  function DirsOf(s: seq<Node>): (r: seq<Node>)
    ensures forall x :: x in r <==> x in s && x.Dir?
    ensures SubsequenceOf(r, s)
  {
    if |s| == 0 then SubsequenceEmpty(s); []
    else
      var rest := DirsOf(s[1..]);
      SubsequenceCons(s, rest, s[0].Dir?);
      if s[0].Dir? then [s[0]] + rest else rest
  }
}
