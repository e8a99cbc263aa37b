/** The per-file record of `process_file`: the statistics, the file lists and
    the block of text written for each file. */
module Report {
  import opened Text
  import opened Classifier
  import opened FileTree

  /** `FileStats`: one counter per outcome. */
  datatype FileStats = FileStats(processed: nat, skipped: nat, binary: nat, image: nat)

  /** `FileLists`: relative paths by kind, in processing order. */
  datatype FileLists = FileLists(text: seq<string>, binary: seq<string>, image: seq<string>)

  const NoStats := FileStats(0, 0, 0, 0)
  const NoFiles := FileLists([], [], [])

  /** The names `_increment_stat` and `_add_file` are called with. */
  datatype Counter = Processed | Skipped | BinaryCount | ImageCount
  datatype ListName = TextList | BinaryList | ImageList

  function Total(s: FileStats): nat {
    s.processed + s.skipped + s.binary + s.image
  }

  /** `_increment_stat(name)`: that counter goes up by one. */
  function Incremented(s: FileStats, c: Counter): (r: FileStats)
    ensures Total(r) == Total(s) + 1
    ensures r.processed == s.processed + (if c == Processed then 1 else 0)
    ensures r.skipped == s.skipped + (if c == Skipped then 1 else 0)
    ensures r.binary == s.binary + (if c == BinaryCount then 1 else 0)
    ensures r.image == s.image + (if c == ImageCount then 1 else 0)
  {
    match c
    case Processed => s.(processed := s.processed + 1)
    case Skipped => s.(skipped := s.skipped + 1)
    case BinaryCount => s.(binary := s.binary + 1)
    case ImageCount => s.(image := s.image + 1)
  }

  /** `_add_file(name, path)`: the path goes at the end of that list. */
  function Appended(f: FileLists, l: ListName, path: string): (r: FileLists)
    ensures r.text == f.text + (if l == TextList then [path] else [])
    ensures r.binary == f.binary + (if l == BinaryList then [path] else [])
    ensures r.image == f.image + (if l == ImageList then [path] else [])
  {
    match l
    case TextList => f.(text := f.text + [path])
    case BinaryList => f.(binary := f.binary + [path])
    case ImageList => f.(image := f.image + [path])
  }

  const Separator := "=================="
  const ImageLabel := " IMAGE FILE (CONTENT EXCLUDED) "
  const BinaryLabel := " BINARY FILE (CONTENT EXCLUDED) "
  const EndLabel := " END OF FILE "

  /** The marker lines, each a label flanked by `Separator`. */
  const ImageMarker := Separator + ImageLabel + Separator + "\n"
  const BinaryMarker := Separator + BinaryLabel + Separator + "\n"
  const StartMarker := Separator + " START OF FILE " + Separator + "\n"
  const EndMarker := "\n" + Separator + EndLabel + Separator + "\n"

  function SeparatorLine(): string {
    "\n" + Separator + " FILE SEPARATOR " + Separator + "\n"
  }

  function PathLine(rel: string): string {
    "FILEPATH: " + rel + "\n"
  }

  function KindName(k: FileKind): string {
    match k
    case Text => "Text"
    case Binary => "Binary"
    case Image => "Image"
  }

  function MetadataLine(info: FileInfo): string {
    "Metadata: Type: " + KindName(info.kind) + ", Size: " + Decimal(info.size) +
    " bytes, Last Modified: " + info.modified + "\n"
  }

  /** What stands between the start and end markers of a text file. */
  function ReadText(t: ReadResult): string {
    match t
    case Decoded(content) => content
    case ReadError(message) => "Error reading file: " + message + "\n"
  }

  /** The part of the block after the metadata line. */
  function Body(kind: FileKind, t: ReadResult): string {
    match kind
    case Image => ImageMarker
    case Binary => BinaryMarker
    case Text => StartMarker + ReadText(t) + EndMarker
  }

  /** The whole block `process_file` writes for a file with metadata. */
  function Block(rel: string, info: FileInfo, t: ReadResult): string {
    SeparatorLine() + PathLine(rel) + MetadataLine(info) + Body(info.kind, t)
  }

  /** How a file with metadata is counted. */
  datatype Disposition = AsImage | AsBinary | AsText | AsSkipped

  function Dispose(kind: FileKind, t: ReadResult): Disposition {
    match kind
    case Image => AsImage
    case Binary => AsBinary
    case Text => if t.Decoded? then AsText else AsSkipped
  }

  /** The engine's record of a run so far: counters, lists and output text. */
  datatype RunState = RunState(stats: FileStats, lists: FileLists, out: string)

  const EmptyRun := RunState(NoStats, NoFiles, "")

  /** The effect of `process_file` on a file whose metadata was read. */
  function Record(st: RunState, rel: string, info: FileInfo, t: ReadResult): (r: RunState)
    ensures r.out == st.out + Block(rel, info, t)
    ensures Total(r.stats) == Total(st.stats) + 1
  {
    var out := st.out + Block(rel, info, t);
    match Dispose(info.kind, t)
    case AsImage => RunState(Incremented(st.stats, ImageCount), Appended(st.lists, ImageList, rel), out)
    case AsBinary => RunState(Incremented(st.stats, BinaryCount), Appended(st.lists, BinaryList, rel), out)
    case AsText => RunState(Incremented(st.stats, Processed), Appended(st.lists, TextList, rel), out)
    case AsSkipped => RunState(Incremented(st.stats, Skipped), st.lists, out)
  }

  /** Each list is as long as its counter: `processed` for text, and so on. */
  predicate Consistent(st: RunState) {
    |st.lists.text| == st.stats.processed &&
    |st.lists.binary| == st.stats.binary &&
    |st.lists.image| == st.stats.image
  }

  /** One file moves exactly one counter, the one its disposition names, by
      one; only the matching list grows, by the relative path; a file whose
      text could not be read is counted as skipped and listed nowhere. */
  lemma RecordOneCounter(st: RunState, rel: string, info: FileInfo, t: ReadResult)
    ensures var r := Record(st, rel, info, t); var d := Dispose(info.kind, t);
      && r.stats.processed == st.stats.processed + (if d == AsText then 1 else 0)
      && r.stats.skipped == st.stats.skipped + (if d == AsSkipped then 1 else 0)
      && r.stats.binary == st.stats.binary + (if d == AsBinary then 1 else 0)
      && r.stats.image == st.stats.image + (if d == AsImage then 1 else 0)
      && r.lists.text == st.lists.text + (if d == AsText then [rel] else [])
      && r.lists.binary == st.lists.binary + (if d == AsBinary then [rel] else [])
      && r.lists.image == st.lists.image + (if d == AsImage then [rel] else [])
  {
  }

  lemma RecordKeepsConsistent(st: RunState, rel: string, info: FileInfo, t: ReadResult)
    requires Consistent(st)
    ensures Consistent(Record(st, rel, info, t))
  {
    RecordOneCounter(st, rel, info, t);
  }

  /** The block is self-delimiting: it opens with the separator and the path,
      a text file's block ends with the end marker and holds the content
      verbatim right after the start marker, and the other two end with their
      own marker, so the last line tells the kinds apart. */
  lemma BlockShape(rel: string, info: FileInfo, t: ReadResult)
    ensures var b := Block(rel, info, t);
      && StartsWith(b, SeparatorLine() + PathLine(rel))
      && (info.kind == Text <==> EndsWith(b, EndMarker))
      && (info.kind == Binary <==> EndsWith(b, BinaryMarker))
      && (info.kind == Image <==> EndsWith(b, ImageMarker))
      && (info.kind == Text && t.Decoded? ==>
            b == SeparatorLine() + PathLine(rel) + MetadataLine(info) + StartMarker + t.content + EndMarker)
  {
    var head := SeparatorLine() + PathLine(rel);
    var meta := head + MetadataLine(info);
    StartsWithAppended(head, MetadataLine(info));
    StartsWithAppended(meta, Body(info.kind, t));
    StartsWithTrans(meta + Body(info.kind, t), meta, head);
    MarkerSuffixes(meta, Body(info.kind, t), info.kind, t);
  }

  lemma StartsWithAppended(pre: string, x: string)
    ensures StartsWith(pre + x, pre)
  {
    assert (pre + x)[..|pre|] == pre;
  }

  lemma StartsWithTrans(s: string, a: string, b: string)
    requires StartsWith(s, a) && StartsWith(a, b)
    ensures StartsWith(s, b)
  {
    assert s[..|b|] == a[..|b|];
  }

  /** Two endings that differ `k` characters from the end exclude each other. */
  lemma TailDiffers(s: string, x: string, y: string, k: nat)
    requires EndsWith(s, y) && 0 < k <= |x| && k <= |y| && x[|x| - k] != y[|y| - k]
    ensures !EndsWith(s, x)
  {
  }

  lemma EndsWithAppended(pre: string, x: string)
    ensures EndsWith(pre + x, x)
  {
    assert (pre + x)[|pre + x| - |x|..] == x;
  }

  /** Where the three trailers differ, counted from their ends. */
  lemma MarkerTails()
    ensures |EndMarker| == 51 && EndMarker[30] == 'E'
    ensures |BinaryMarker| == 69 && BinaryMarker[48] == ')' && BinaryMarker[24] == 'Y'
    ensures |ImageMarker| == 68 && ImageMarker[47] == ')' && ImageMarker[23] == 'E'
  {
    assert EndMarker[30] == EndLabel[11];
    assert BinaryMarker[48] == BinaryLabel[30];
    assert BinaryMarker[24] == BinaryLabel[6];
    assert ImageMarker[47] == ImageLabel[29];
    assert ImageMarker[23] == ImageLabel[5];
  }

  /** A block ending in the end marker ends in neither other marker. */
  lemma EndMarkerOnly(s: string)
    requires EndsWith(s, EndMarker)
    ensures !EndsWith(s, BinaryMarker) && !EndsWith(s, ImageMarker)
  {
    MarkerTails();
    TailDiffers(s, BinaryMarker, EndMarker, 21);
    TailDiffers(s, ImageMarker, EndMarker, 21);
  }

  lemma BinaryMarkerOnly(s: string)
    requires EndsWith(s, BinaryMarker)
    ensures !EndsWith(s, EndMarker) && !EndsWith(s, ImageMarker)
  {
    MarkerTails();
    TailDiffers(s, EndMarker, BinaryMarker, 21);
    TailDiffers(s, ImageMarker, BinaryMarker, 45);
  }

  lemma ImageMarkerOnly(s: string)
    requires EndsWith(s, ImageMarker)
    ensures !EndsWith(s, EndMarker) && !EndsWith(s, BinaryMarker)
  {
    MarkerTails();
    TailDiffers(s, EndMarker, ImageMarker, 21);
    TailDiffers(s, BinaryMarker, ImageMarker, 45);
  }

  lemma MarkerSuffixes(pre: string, body: string, kind: FileKind, t: ReadResult)
    requires body == Body(kind, t)
    ensures (kind == Text <==> EndsWith(pre + body, EndMarker))
    ensures (kind == Binary <==> EndsWith(pre + body, BinaryMarker))
    ensures (kind == Image <==> EndsWith(pre + body, ImageMarker))
  {
    match kind
    case Text =>
      var text := StartMarker + ReadText(t);
      ConcatAssoc(pre, text, EndMarker);
      EndsWithAppended(pre + text, EndMarker);
      EndMarkerOnly(pre + body);
    case Binary =>
      EndsWithAppended(pre, BinaryMarker);
      BinaryMarkerOnly(pre + body);
    case Image =>
      EndsWithAppended(pre, ImageMarker);
      ImageMarkerOnly(pre + body);
  }
}
