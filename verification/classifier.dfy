/** The Text/Binary/Image classifier: `is_image_file`, `is_binary_file` and
    `get_file_info`. The MIME detector is an oracle and the file's bytes,
    size and modification time are inputs. */
module Classifier {
  import opened Text
  import opened Wrappers

  newtype byte = b: int | 0 <= b < 256

  /** `FileCombinator.IMAGE_EXTENSIONS`. */
  const ImageExtensions: set<string> := {
    ".jpg", ".jpeg", ".png", ".gif", ".bmp", ".tiff", ".webp", ".svg", ".ico"
  }

  /** `FileCombinator.BINARY_EXTENSIONS`. */
  const BinaryExtensions: set<string> := {
    ".pyc", ".pyo", ".pyd", ".so", ".dll", ".dylib", ".exe", ".bin", ".coverage", ".pkl",
    ".pdb", ".o", ".obj", ".db", ".sqlite", ".sqlite3", ".jar", ".war", ".class", ".pdf"
  }

  /** How many leading bytes the heuristic inspects (`f.read(4096)`). */
  const SniffLimit := 4096

  /** What the optional libmagic detector says about one file: no detector,
      a MIME type, or an `IOError` while asking it. */
  datatype Sniff = NoDetector | Detected(mime: string) | DetectorError

  datatype FileKind = Text | Binary | Image

  /** What `os.stat` yields: the size and the already formatted mtime. */
  datatype Stat = Stat(size: nat, modified: string)

  /** The dictionary `get_file_info` returns. */
  datatype FileInfo = FileInfo(size: nat, modified: string, kind: FileKind)

  /** pathlib's `suffix` of a final name: from the last '.' on, provided that
      dot is neither the first nor the last character. */
  function Suffix(name: string): (r: string)
    ensures r != "" ==>
      |r| >= 2 && r[0] == '.' && |r| < |name| && EndsWith(name, r) &&
      forall k :: 1 <= k < |r| ==> r[k] != '.'
    ensures r == "" ==>
      forall i :: 0 < i < |name| - 1 && name[i] == '.' ==> exists k :: i < k < |name| && name[k] == '.'
  {
    var i := LastIndexOf(name, '.');
    if 0 < i < |name| - 1 then name[i..] else ""
  }

  /** The lower-cased suffix that both extension tables are keyed by. */
  function Extension(name: string): string {
    Lower(Suffix(name))
  }

  /** The byte table of `is_binary_file`: BEL, BS, TAB, LF, FF, CR, ESC,
      printable ASCII 0x20-0x7E and 0x80-0xFE. */
  predicate TextByte(b: byte) {
    b in {7, 8, 9, 10, 12, 13, 27} || 0x20 <= b <= 0x7E || 0x80 <= b <= 0xFE
  }

  /** The bytes outside the table, listed independently: NUL to ACK, VT,
      SO to SUB, FS to US, DEL and 0xFF. */
  lemma NonTextBytes(b: byte)
    ensures !TextByte(b) <==> b <= 6 || b == 11 || 14 <= b <= 26 || 28 <= b <= 31 || b == 0x7F || b == 0xFF
  {
  }

  /** `chunk.translate(None, textchars)`: the chunk with every text byte deleted. */
  function Untranslated(chunk: seq<byte>): (r: seq<byte>)
    ensures |r| <= |chunk|
    ensures forall b :: b in r <==> b in chunk && !TextByte(b)
  {
    if |chunk| == 0 then []
    else if TextByte(chunk[0]) then Untranslated(chunk[1..])
    else [chunk[0]] + Untranslated(chunk[1..])
  }

  /** The first `SniffLimit` bytes, as `f.read(4096)` returns them. */
  function Chunk(bytes: seq<byte>): (r: seq<byte>)
    ensures |r| <= SniffLimit && |r| <= |bytes| && r == bytes[..|r|]
    ensures |bytes| <= SniffLimit ==> r == bytes
  {
    if |bytes| <= SniffLimit then bytes else bytes[..SniffLimit]
  }

  predicate TextMime(mime: string) {
    StartsWith(mime, "text/") || StartsWith(mime, "application/json") || StartsWith(mime, "application/xml")
  }

  /** `is_binary_file`: a binary extension; else the detector's verdict that the
      MIME type is not textual; else (no detector, or it failed) a non-text byte
      in the first 4096 bytes; an unreadable file (`bytes == None`) is binary. */
  function IsBinaryFile(name: string, sniff: Sniff, bytes: Option<seq<byte>>): bool {
    if Extension(name) in BinaryExtensions then true
    else if sniff.Detected? then !TextMime(sniff.mime)
    else match bytes
      case None => true
      case Some(content) => |Untranslated(Chunk(content))| != 0
  }

  /** `is_image_file`: an "image/" prefixed MIME type, else an image extension. */
  function IsImageFile(name: string, sniff: Sniff): bool {
    (sniff.Detected? && StartsWith(sniff.mime, "image/")) || Extension(name) in ImageExtensions
  }

  /** `get_file_info`: a failed `os.stat` is `FileInfoFailed`; otherwise Binary
      when `is_binary_file`, else Image when `is_image_file`, else Text. */
  function GetFileInfo(name: string, stat: Option<Stat>, sniff: Sniff, bytes: Option<seq<byte>>): (r: Result<FileInfo, Failure>)
    ensures r.Err? <==> stat.None?
    ensures r.Err? ==> r.error == FileInfoFailed
    ensures r.Ok? ==> r.value.size == stat.value.size && r.value.modified == stat.value.modified
    ensures r.Ok? ==> (r.value.kind == Binary <==> IsBinaryFile(name, sniff, bytes))
    ensures r.Ok? ==> (r.value.kind == Image <==> !IsBinaryFile(name, sniff, bytes) && IsImageFile(name, sniff))
  {
    match stat
    case None => Err(FileInfoFailed)
    case Some(st) =>
      var kind :=
        if IsBinaryFile(name, sniff, bytes) then Binary
        else if IsImageFile(name, sniff) then Image
        else Text;
      Ok(FileInfo(st.size, st.modified, kind))
  }

  /** Without a detector, a readable file is binary exactly when its extension
      is a binary one or one of its first 4096 bytes is outside the table. */
  lemma BinaryHeuristic(name: string, content: seq<byte>)
    ensures IsBinaryFile(name, NoDetector, Some(content)) <==>
      Extension(name) in BinaryExtensions ||
      exists i :: 0 <= i < |content| && i < SniffLimit && !TextByte(content[i])
  {
    var chunk := Chunk(content);
    forall j | 0 <= j < |chunk| ensures chunk[j] == content[j] { }
    if exists j :: 0 <= j < |chunk| && !TextByte(chunk[j]) {
      var j :| 0 <= j < |chunk| && !TextByte(chunk[j]);
      assert chunk[j] in Untranslated(chunk);
    }
    if |Untranslated(chunk)| != 0 {
      assert Untranslated(chunk)[0] in Untranslated(chunk);
    }
  }

  /** Without a working detector (none installed, or it raised), a file is an
      image exactly when its extension is in the image table; a readable file
      that `os.stat` accepts is then reported as Image exactly when that holds,
      its extension is not a binary one, and its first 4096 bytes are all
      text bytes. */
  lemma ImageWithoutDetector(name: string, st: Stat, sniff: Sniff, content: seq<byte>)
    requires !sniff.Detected?
    ensures IsImageFile(name, sniff) <==> Extension(name) in ImageExtensions
    ensures GetFileInfo(name, Some(st), sniff, Some(content)) == Ok(FileInfo(st.size, st.modified, Image)) <==>
      && Extension(name) in ImageExtensions
      && Extension(name) !in BinaryExtensions
      && forall i :: 0 <= i < |content| && i < SniffLimit ==> TextByte(content[i])
  {
    BinaryHeuristic(name, content);
    assert IsBinaryFile(name, sniff, Some(content)) == IsBinaryFile(name, NoDetector, Some(content));
  }

  /** Bytes past the first 4096 never change the verdict. */
  lemma OnlyTheChunkMatters(name: string, sniff: Sniff, a: seq<byte>, b: seq<byte>)
    requires |a| >= SniffLimit && |b| >= SniffLimit && a[..SniffLimit] == b[..SniffLimit]
    ensures IsBinaryFile(name, sniff, Some(a)) == IsBinaryFile(name, sniff, Some(b))
  {
  }

  /** Without a detector, a readable file with a plain extension whose bytes
      are all in the table is not binary. */
  lemma AllTextBytes(name: string, content: seq<byte>)
    requires Extension(name) !in BinaryExtensions
    requires forall i :: 0 <= i < |content| ==> TextByte(content[i])
    ensures !IsBinaryFile(name, NoDetector, Some(content))
  {
    BinaryHeuristic(name, content);
  }

  /** Without a detector, one byte outside the table within the first 4096
      makes a file with a plain extension binary. */
  lemma OneNonTextByte(name: string, content: seq<byte>, i: nat)
    requires Extension(name) !in BinaryExtensions
    requires i < |content| && i < SniffLimit && !TextByte(content[i])
    ensures IsBinaryFile(name, NoDetector, Some(content))
  {
    BinaryHeuristic(name, content);
  }

  /** NUL, DEL and 0xFF make a file binary. */
  lemma ByteExamples(name: string)
    requires Extension(name) !in BinaryExtensions
    ensures IsBinaryFile(name, NoDetector, Some([0x00]))
    ensures IsBinaryFile(name, NoDetector, Some([0x41, 0x7F]))
    ensures IsBinaryFile(name, NoDetector, Some([0xFF]))
  {
    OneNonTextByte(name, [0x00], 0);
    OneNonTextByte(name, [0x41, 0x7F], 1);
    OneNonTextByte(name, [0xFF], 0);
  }

  /** An empty file is text, and so is one of tabs, newlines, letters and
      high bytes below 0xFF. */
  lemma TextByteExamples(name: string)
    requires Extension(name) !in BinaryExtensions
    ensures !IsBinaryFile(name, NoDetector, Some([]))
    ensures !IsBinaryFile(name, NoDetector, Some([0x09, 0x41, 0x0A, 0x80, 0xFE]))
  {
    assert !IsBinaryFile(name, NoDetector, Some([])) by {
      AllTextBytes(name, []);
    }
    var t: seq<byte> := [0x09, 0x41, 0x0A, 0x80, 0xFE];
    assert !IsBinaryFile(name, NoDetector, Some(t)) by {
      assert forall i :: 0 <= i < |t| ==> TextByte(t[i]) by {
        assert TextByte(t[0]) && TextByte(t[1]) && TextByte(t[2]) && TextByte(t[3]) && TextByte(t[4]);
      }
      AllTextBytes(name, t);
    }
  }

  /** An unreadable file is binary whatever its name, unless a detector answered. */
  lemma UnreadableIsBinary(name: string, sniff: Sniff)
    requires !sniff.Detected?
    ensures IsBinaryFile(name, sniff, None)
  {
  }

  /** Binary wins over Image: a `.png` holding a NUL byte is Binary without a
      detector, and any "image/" prefixed MIME type from the detector yields Binary too. */
  lemma BinaryBeforeImage(st: Stat, mime: string, bytes: Option<seq<byte>>)
    requires StartsWith(mime, "image/")
    ensures GetFileInfo("photo.png", Some(st), NoDetector, Some([0x89, 0x50, 0x00])).value.kind == Binary
    ensures IsImageFile("photo.png", NoDetector)
    ensures GetFileInfo("photo.png", Some(st), Detected(mime), bytes).value.kind == Binary
    ensures IsImageFile("photo.png", Detected(mime))
  {
    PngExtension();
    var png: seq<byte> := [0x89, 0x50, 0x00];
    OneNonTextByte("photo.png", png, 2);
    assert mime[0] == 'i';
  }

  /** `.png` is an image extension and not a binary one. */
  lemma PngExtension()
    ensures Extension("photo.png") == ".png"
    ensures Extension("photo.png") !in BinaryExtensions && Extension("photo.png") in ImageExtensions
  {
    ExtensionAt("photo.png", 5);
    assert "photo.png"[5..] == ".png";
    FixtureExtensions();
  }

  /** The suffix of a name whose last '.' sits at index `i`. */
  lemma SuffixOf(name: string, i: int)
    requires 0 < i < |name| - 1 && name[i] == '.'
    requires forall k :: i < k < |name| ==> name[k] != '.'
    ensures Suffix(name) == name[i..]
  {
    LastIndexUnique(name, '.', i);
  }

  /** The extension of a name whose last '.' sits at index `i` and whose
      suffix has no upper-case letter. */
  lemma ExtensionAt(name: string, i: int)
    requires 0 < i < |name| - 1 && name[i] == '.'
    requires forall k :: i < k < |name| ==> name[k] != '.' && !('A' <= name[k] <= 'Z')
    ensures Extension(name) == name[i..]
  {
    SuffixOf(name, i);
    var r := name[i..];
    assert forall k :: 0 <= k < |r| ==> r[k] == name[i + k];
    LowerKeeps(r);
  }

  /** The test fixture `test.bin` is binary by its extension alone. */
  lemma BinFixture(sniff: Sniff, anything: Option<seq<byte>>)
    ensures IsBinaryFile("test.bin", sniff, anything)
  {
    ExtensionAt("test.bin", 4);
    assert "test.bin"[4..] == ".bin";
    FixtureExtensions();
  }

  /** `.txt` is in neither table. */
  lemma TxtExtension()
    ensures Extension("test.txt") == ".txt"
    ensures Extension("test.txt") !in BinaryExtensions && Extension("test.txt") !in ImageExtensions
  {
    ExtensionAt("test.txt", 4);
    assert "test.txt"[4..] == ".txt";
    FixtureExtensions();
  }

  /** Where the fixtures' extensions stand in the two tables. */
  lemma FixtureExtensions()
    ensures ".txt" !in BinaryExtensions && ".txt" !in ImageExtensions
    ensures ".jpg" !in BinaryExtensions && ".jpg" in ImageExtensions
    ensures ".png" !in BinaryExtensions && ".png" in ImageExtensions
    ensures ".bin" in BinaryExtensions
  {
  }

  /** The test fixture `test.txt` holding "Test content" is Text. */
  lemma TextFixture(st: Stat)
    ensures GetFileInfo("test.txt", Some(st), NoDetector,
      Some([0x54, 0x65, 0x73, 0x74, 0x20, 0x63, 0x6F, 0x6E, 0x74, 0x65, 0x6E, 0x74])).value.kind == Text
  {
    TxtExtension();
    var text: seq<byte> := [0x54, 0x65, 0x73, 0x74, 0x20, 0x63, 0x6F, 0x6E, 0x74, 0x65, 0x6E, 0x74];
    assert forall i :: 0 <= i < |text| ==> 0x20 <= text[i] <= 0x7E;
    AllTextBytes("test.txt", text);
  }

  /** The test fixture `test.jpg` holding "JFIF" is Image. */
  lemma ImageFixture(st: Stat)
    ensures GetFileInfo("test.jpg", Some(st), NoDetector, Some([0x4A, 0x46, 0x49, 0x46])).value.kind == Image
  {
    ExtensionAt("test.jpg", 4);
    assert "test.jpg"[4..] == ".jpg";
    FixtureExtensions();
    var jfif: seq<byte> := [0x4A, 0x46, 0x49, 0x46];
    BinaryHeuristic("test.jpg", jfif);
  }
}
