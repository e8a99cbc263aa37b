# FileCombinator, modelled in Dafny

FileCombinator flattens a directory into one text report. The report opens
with an ASCII tree of the directory. Then it gives one block per file: a
separator, the relative path, a metadata line, and either the file's text or
a marker saying that an image or binary file was left out. Directories and
files that match an exclusion pattern, and the output file itself, are
skipped. The report is written to a temporary staging file and then moved
onto the output path.

This project models the core of that program:

- the engine of `filecombinator/filecombinator.py`:
  - the exclusion rule (`is_excluded`);
  - the Text/Binary/Image classifier (`is_binary_file`, `is_image_file`, `get_file_info`);
  - the tree printer (`generate_tree`), including its `is_last` quirk;
  - `process_file` with its counters (`FileStats`) and lists (`FileLists`);
  - the `os.walk` loop and the publish sequence of `process_directory`.
- The orchestrator of `filecombinator/core/combinator.py`:
  - the staging-file registry `TempFileManager`;
  - the `process_directory` sequence (staging file, tree, walk, flush, move, unregister);
  - the `stats` and `file_lists` properties.
- The output-name rule of `filecombinator/cli.py`.

Files:

| file | what it holds |
|---|---|
| `wrappers.dfy` | `Option`, `Result`, `Outcome`, and the failure kinds |
| `text.dfy` | `startswith`/`endswith`, `rfind`, ASCII `lower`, Python string order, decimal rendering |
| `paths.dfy` | paths as pathlib `parts`, `abspath`, `basename`, `relpath` |
| `exclusion.dfy` | `DEFAULT_EXCLUDES` and `is_excluded` |
| `classifier.dfy` | the extension tables, the byte heuristic, `get_file_info` |
| `filetree.dfy` | the directory snapshot the program reads, and sorting by name |
| `render.dfy` | `generate_tree`: the printed lines and the section around them |
| `report.dfy` | `FileStats`, `FileLists`, the block `process_file` writes, and how it counts |
| `walk.dfy` | the visit order of the walk, and the record a run leaves |
| `storage.dfy` | an open text stream (`Sink`) and the files on disk (`Disk`) |
| `combine.dfy` | the engine class `FileCombinator` as imperative code over a `Sink` and a `Disk` |
| `staging.dfy` | `TempFileManager` and the orchestrator `FileCombinator` |
| `cli.dfy` | the output-name rule |

The operating system is taken as input, not called:

- a directory is a `Node` tree whose files carry what `os.stat`, libmagic,
  a binary read and a UTF-8 read would return (`FileData`);
- the orchestrator's callees and the file-system steps of `process_directory`
  are an `Environment` value that says what each one does.

Four behaviours of the code that a reader may not expect, which the model keeps:

- `get_file_info` tests Binary before Image (`filecombinator.py:331-334`).
  - So a `.png` whose first bytes hold a NUL is Binary.
  - With a MIME detector, an `image/...` type is not a text type, so the file
    is also Binary, even though `is_image_file` would accept it.
  - `Classifier.BinaryBeforeImage` shows both cases.
- The tree decides its corner connector by the index in the *unfiltered*
  sorted listing (`filecombinator.py:407`). When the last entry is excluded,
  no printed sibling gets `└── `.
  - `Render.CornerFollowsFullListing` and `Render.LastGetsCorner` together
    state the rule: only the last listed child can take the corner, and it
    does whenever it is printed.
  - `Render.LastExcludedKeepsTee` shows a concrete listing.
- In `filecombinator.py`, a file whose `os.stat` fails raises
  `FileCombinatorError`, which is not an `OSError`.
  - It escapes the `except OSError` of `process_directory`.
  - So the temporary file stays on disk, holding the partial report.
- In `core/combinator.py`, a failure after the staging file was created
  leaves that file on disk and registered with the `TempFileManager`. Only
  the exit-time cleanup removes it.

## Model

| member | source | states |
|---|---|---|
| `Text.LastIndexOf` | filecombinator/cli.py:163 | `rfind` as `splitext` uses it: -1 when the character does not occur, otherwise an index holding it with no later occurrence |
| `Text.Lower` | filecombinator/filecombinator.py:297 | `lower()` on ASCII: the same length, no upper-case ASCII letter left, every other character unchanged |
| `Paths.AbsForm` | filecombinator/filecombinator.py:269-270 | `os.path.abspath`: an absolute path as it is, a relative one under the working directory; defined by its body, used by `Exclusion.IsOutputFile` and `Cli.OutputName` |
| `Paths.Basename` | filecombinator/filecombinator.py:276 | `os.path.basename`: the last part, "." for the empty path, "" for the root; defined by its body, used by `Exclusion.HasReservedSuffix` and `Cli.OutputName` |
| `Paths.RelPath` | filecombinator/filecombinator.py:350 | `os.path.relpath` from the working directory: the common prefix dropped and one ".." per remaining part of the working directory; defined by its body, and it is the path that `Report.Block` prints and the lists record |
| `Exclusion.IsOutputFile` | filecombinator/filecombinator.py:269-274 | the absolute forms of the path and of the configured output file are equal; its place in the rule is stated by `Exclusion.ExclusionRule` |
| `Exclusion.HasReservedSuffix` | filecombinator/filecombinator.py:276-279 | the basename ends with the reserved suffix; its place in the rule is stated by `Exclusion.ExclusionRule` |
| `Exclusion.MatchesPattern` | filecombinator/filecombinator.py:281 | the scan of the parts for a pattern; what it decides is stated by `Exclusion.MatchesPatternIff` |
| `Exclusion.MatchesPatternIff` | filecombinator/filecombinator.py:281 | the pattern test holds exactly when some whole part of the path equals a pattern |
| `Exclusion.IsExcluded` | filecombinator/filecombinator.py:267-285 | the configured output file, and any file whose name ends with the reserved output suffix, are always excluded |
| `Exclusion.ExclusionRule` | filecombinator/filecombinator.py:267-285 | full rule, both directions: excluded iff the absolute path is the output file, or the basename ends with the reserved suffix, or a part equals a pattern |
| `Exclusion.PatternInherited` | filecombinator/filecombinator.py:281 | everything below a directory that matches a pattern is excluded too |
| `Exclusion.WholePartsOnly` | filecombinator/filecombinator.py:281 | a part that merely contains a pattern (`mynode_modules`) is not excluded; the exact part is |
| `Exclusion.DefaultExamples` | tests/test_filecombinator.py:58-62 | with the default patterns, `__pycache__/test.py` and `.git/config` are excluded and `regular_file.txt` is not |
| `Classifier.Suffix` | filecombinator/filecombinator.py:297 | pathlib's suffix: a nonempty suffix starts at the last '.', which is not the first character, and holds no other '.'; the empty suffix means there is no such dot |
| `Classifier.Extension` | filecombinator/filecombinator.py:297 | the lower-cased suffix both tables are keyed by; `Classifier.ExtensionAt` gives it for a name whose last dot is known |
| `Classifier.TextByte` | filecombinator/filecombinator.py:316-320 | the `textchars` table; `Classifier.NonTextBytes` lists its complement independently |
| `Classifier.NonTextBytes` | filecombinator/filecombinator.py:316-320 | a byte is outside the table iff it is one of NUL to ACK, VT, SO to SUB, FS to US, DEL or 0xFF |
| `Classifier.Untranslated` | filecombinator/filecombinator.py:315-321 | `translate(None, textchars)` keeps exactly the chunk's bytes that are outside the text table, and never lengthens the chunk |
| `Classifier.Chunk` | filecombinator/filecombinator.py:315 | `read(4096)` is a prefix of the content, at most 4096 long, and the whole content when it is shorter |
| `Classifier.IsBinaryFile` | filecombinator/filecombinator.py:299-324 | the three tests in order; what it decides is stated by `Classifier.BinaryHeuristic`, `UnreadableIsBinary`, `BinFixture` and `BinaryBeforeImage` |
| `Classifier.IsImageFile` | filecombinator/filecombinator.py:287-297 | an `image/` MIME type, else the image table; what it decides without a working detector is stated by `Classifier.ImageWithoutDetector`, its use by `Classifier.GetFileInfo`, `BinaryBeforeImage` and `ImageFixture` |
| `Classifier.ImageWithoutDetector` | filecombinator/filecombinator.py:287-297 | with no detector, or one that raised, a file is an image iff its extension is in the image table; a readable file that `os.stat` accepts is then reported as Image iff that holds, its extension is not a binary one, and its first 4096 bytes are all text bytes |
| `Classifier.GetFileInfo` | filecombinator/filecombinator.py:326-345 | fails exactly when `os.stat` fails; otherwise it keeps size and mtime; kind is Binary iff the binary test holds, and Image iff the binary test fails and the image test holds |
| `Classifier.BinaryHeuristic` | filecombinator/filecombinator.py:299-324 | without a detector, a readable file is binary iff its extension is in the binary table or one of its first 4096 bytes is outside the text table |
| `Classifier.OnlyTheChunkMatters` | filecombinator/filecombinator.py:315 | two contents that agree on their first 4096 bytes get the same verdict |
| `Classifier.AllTextBytes` | filecombinator/filecombinator.py:316-321 | a file made only of text-table bytes, with no binary extension, is not binary |
| `Classifier.OneNonTextByte` | filecombinator/filecombinator.py:316-321 | one byte outside the table within the first 4096 makes the file binary |
| `Classifier.ByteExamples` | filecombinator/filecombinator.py:316-321 | NUL, DEL and 0xFF each make a file binary |
| `Classifier.TextByteExamples` | filecombinator/filecombinator.py:316-321 | an empty file is text, and so is one of TAB, 'A', LF, 0x80 and 0xFE |
| `Classifier.UnreadableIsBinary` | filecombinator/filecombinator.py:322-324 | a file that cannot be read is binary unless a detector answered |
| `Classifier.BinaryBeforeImage` | filecombinator/filecombinator.py:331-334 | a `.png` that the image test accepts is still classified Binary when it holds a NUL, or when a detector reports an `image/` type |
| `Classifier.PngExtension` | filecombinator/filecombinator.py:118-152 | `.png` is in the image table and not in the binary table |
| `Classifier.FixtureExtensions` | filecombinator/filecombinator.py:118-152 | `.txt` is in neither table; `.jpg` and `.png` are image-only; `.bin` is binary |
| `Classifier.BinFixture` | tests/test_filecombinator.py:80 | `test.bin` is binary whatever its content and whatever the detector says |
| `Classifier.TxtExtension` | tests/test_filecombinator.py:81 | `test.txt` has the extension `.txt`, which is in neither table |
| `Classifier.TextFixture` | tests/test_filecombinator.py:129 | `test.txt` holding "Test content" is classified Text |
| `Classifier.ImageFixture` | filecombinator/filecombinator.py:326-345 | a `.jpg` holding the bytes "JFIF" is classified Image |
| `FileTree.Insert` | filecombinator/filecombinator.py:402 | inserting into a name-sorted listing keeps it sorted and adds exactly that entry |
| `FileTree.SortByName` | filecombinator/filecombinator.py:402 | `sorted(..., key=name)` is a permutation of the listing ordered by name |
| `FileTree.SortedChain` | filecombinator/filecombinator.py:402 | in a sorted listing, any earlier entry's name is at most any later one's |
| `FileTree.SortedMembers` | filecombinator/filecombinator.py:402 | sorting neither adds nor drops an entry |
| `FileTree.FilesOf` | filecombinator/filecombinator.py:437 | the `files` of a walk step hold exactly the file entries of the listing, in listing order (a subsequence of it) |
| `FileTree.DirsOf` | filecombinator/filecombinator.py:437 | the `dirs` of a walk step hold exactly the directory entries of the listing, in listing order (a subsequence of it) |
| `Render.Line` | filecombinator/filecombinator.py:408-409 | the prefix, the connector and the name; its text is fixed by `Render.LastExcludedKeepsTee` |
| `Render.Entries` | filecombinator/filecombinator.py:401-413 | the lines `write_tree` prints for one directory; stated by `Render.EntriesBelow`, `CornerFollowsFullListing`, `LastGetsCorner`, `TopLevelPrefix`, `SubtreeFollows`, `PrintedInNameOrder` and `Walk.TreeReach` |
| `Render.EntriesFrom` | filecombinator/filecombinator.py:403-413 | the loop from one index on; stated by `Render.EntriesFromBelow`, `CornerFrom` and `Walk.EntriesReach` |
| `Render.Emit` | filecombinator/filecombinator.py:409 | the text of a run of lines, one per entry; stated by `Render.EmitAppend` and `EmitOne` |
| `Render.EntriesBelow` | filecombinator/filecombinator.py:401-413 | every printed entry, subtrees included, lies strictly below the listed directory and is itself not excluded (that nothing under an excluded directory is printed is `Walk.TreeReach`) |
| `Render.EmitAppend` | filecombinator/filecombinator.py:409 | the printed text of two runs of entries is the concatenation of their texts |
| `Render.TreeSection` | filecombinator/filecombinator.py:396-419 | the section succeeds iff the start path is a directory; it always starts with the header line, and ends with the footer and a blank line when it succeeds |
| `Render.CornerFollowsFullListing` | filecombinator/filecombinator.py:407-408 | a top-level entry drawn with the corner is the last child of the full sorted listing, and that child is not excluded (the converse is `Render.LastGetsCorner`) |
| `Render.LastGetsCorner` | filecombinator/filecombinator.py:403-409 | when the last child of the full sorted listing is not excluded, it is printed as a top-level entry with the corner |
| `Render.TopLevelPrefix` | filecombinator/filecombinator.py:401-409 | every top-level entry is drawn with the prefix `write_tree` was called with, and its path is the directory's path plus its name |
| `Render.SubtreeFollows` | filecombinator/filecombinator.py:409-413 | the line of a printed directory is followed directly by the lines of its subtree (a child of the listed directory), and that subtree's top-level entries carry the prefix grown by four blanks after a corner and by `│   ` after a tee |
| `Render.PrintedInNameOrder` | filecombinator/filecombinator.py:402-405 | the names of the printed top-level entries are a subsequence of the names of the sorted listing, so siblings come in name order with only excluded ones left out |
| `Render.CornerFrom` | filecombinator/filecombinator.py:403-413 | from any position in the loop on, only the last listed child can be drawn with the corner |
| `Render.LastExcludedKeepsTee` | filecombinator/filecombinator.py:404-409 | a directory holding `node_modules` and `main.py` prints only `├── main.py`, because the excluded last entry keeps the corner |
| `Render.SortMainFirst` | filecombinator/filecombinator.py:402 | `main.py` sorts before `node_modules` |
| `Report.Incremented` | filecombinator/filecombinator.py:485-487 | `_increment_stat` raises the named counter by one and leaves the other three as they were |
| `Report.Appended` | filecombinator/filecombinator.py:489-491 | `_add_file` puts the path at the end of the named list and leaves the other two as they were |
| `Report.Dispose` | filecombinator/filecombinator.py:364-389 | which counter a file moves; stated by `Report.RecordOneCounter` |
| `Report.Block` | filecombinator/filecombinator.py:354-389 | the text one file adds; stated by `Report.BlockShape` and `MarkerSuffixes` |
| `Report.Record` | filecombinator/filecombinator.py:353-389 | a file with metadata appends its block to the output and raises the counter total by exactly one |
| `Report.RecordOneCounter` | filecombinator/filecombinator.py:364-389 | an image, binary, decoded-text or undecodable file raises the image, binary, processed or skipped counter by one; only the matching list grows, by the relative path; skipped files join no list |
| `Report.RecordKeepsConsistent` | filecombinator/filecombinator.py:364-389 | each list stays exactly as long as its counter (text with processed, binary, image) |
| `Report.BlockShape` | filecombinator/filecombinator.py:354-389 | a block opens with the separator and path lines; it ends with the end, binary or image marker iff the file is Text, Binary or Image; a decoded text file's content sits verbatim after the start marker |
| `Report.MarkerSuffixes` | filecombinator/filecombinator.py:364-389 | the marker that ends a block identifies the file's kind, in both directions |
| `Report.EndMarkerOnly` | filecombinator/filecombinator.py:389 | text ending with the end marker ends with neither of the other two markers |
| `Report.BinaryMarkerOnly` | filecombinator/filecombinator.py:372-374 | text ending with the binary marker ends with neither of the other two markers |
| `Report.ImageMarkerOnly` | filecombinator/filecombinator.py:365-367 | text ending with the image marker ends with neither of the other two markers |
| `Walk.KeptDirs` | filecombinator/filecombinator.py:438-442 | the pruned `dirs` hold exactly the subdirectories that are not excluded, in their original order (a subsequence) |
| `Walk.FileVisits` | filecombinator/filecombinator.py:444-447 | the kept files of one directory; stated by `Walk.FileVisitsKept`, `FileVisitsOrigin`, `FileVisitsOrdered` and `FileVisitsReach` |
| `Walk.SubdirVisits` | filecombinator/filecombinator.py:437-442 | the walks of the kept subdirectories, one after the other; stated by `Walk.SubdirReach`, `SubdirDepth` and `SubdirStep` |
| `Walk.WalkFiles` | filecombinator/filecombinator.py:437-447 | the visits of the whole walk; stated by `Walk.OwnFilesFirst`, `WalkKept`, `WalkReach` and `TreeMatchesWalk` |
| `Walk.Run` | filecombinator/filecombinator.py:437-447 | `process_file` on each visit until one fails; stated by `Walk.RunOkIffStat`, `RunRecords`, `RunOutput` and `RunKeepsConsistent` |
| `Walk.SubdirsInListingOrder` | filecombinator/filecombinator.py:437-442 | the walk descends into the kept subdirectories in listing order |
| `Walk.SortedFiles` | filecombinator/filecombinator.py:444 | `sorted(files)` holds only files of the directory |
| `Walk.Subdirs` | filecombinator/filecombinator.py:438-442 | the walk descends only into directories that are children of the directory |
| `Walk.FileVisitsAppend` | filecombinator/filecombinator.py:444-447 | visiting two runs of files visits the first run, then the second |
| `Walk.WalkKept` | filecombinator/filecombinator.py:437-447 | no file the walk hands to `process_file` is excluded |
| `Walk.FileVisitsOrigin` | filecombinator/filecombinator.py:444-447 | every visit in a directory is one of that directory's files |
| `Walk.FileVisitsOrdered` | filecombinator/filecombinator.py:444 | the files of one directory are visited in name order |
| `Walk.SortedFilesOrdered` | filecombinator/filecombinator.py:444 | each directory's own files are visited in name order |
| `Walk.OwnFilesFirst` | filecombinator/filecombinator.py:437-447 | a walk visits the directory's own files first, in name order, each one level down; every later visit lies deeper, in a subdirectory |
| `Walk.WalkDepth` | filecombinator/filecombinator.py:437-447 | every visited file lies strictly below the start directory |
| `Walk.WalkReach` | filecombinator/filecombinator.py:437-447 | the walk visits a path iff it is a file reached through a chain of entries that are not excluded |
| `Walk.TreeReach` | filecombinator/filecombinator.py:401-413 | the tree lists a file iff it is reached through a chain of entries that are not excluded |
| `Walk.TreeMatchesWalk` | filecombinator/filecombinator.py:434-447 | the tree lists a file iff the walk hands it to `process_file` |
| `Walk.Step` | filecombinator/filecombinator.py:347-394 | `process_file` fails exactly when `os.stat` fails |
| `Walk.RunAppend` | filecombinator/filecombinator.py:437-447 | running two runs of visits is the first run followed by the second, and nothing after a failure |
| `Walk.RunOkIffStat` | filecombinator/filecombinator.py:326-345 | a run completes iff every visited file can be stat'ed |
| `Walk.FilesStopAt` | filecombinator/filecombinator.py:444-447 | once a file fails, the rest of the directory's files change nothing |
| `Walk.WalkStopsAtDir` | filecombinator/filecombinator.py:437-447 | once a subdirectory's walk fails, the later subdirectories change nothing |
| `Walk.SubdirStep` | filecombinator/filecombinator.py:437-447 | after the first j subdirectories, walking one more continues with exactly that subdirectory's walk |
| `Walk.RunRecords` | filecombinator/filecombinator.py:364-389 | after a complete run, each counter grew by the number of visits of its kind, and each list grew by their relative paths in walk order |
| `Walk.RunOutput` | filecombinator/filecombinator.py:353-389 | after a complete run, the output grew by the visits' blocks in walk order |
| `Walk.RunKeepsConsistent` | filecombinator/filecombinator.py:364-394 | a run, complete or not, keeps each list as long as its counter |
| `Storage.Sink.Write` | filecombinator/filecombinator.py:409 | a write appends to what the stream holds |
| `Storage.DropAdded` | filecombinator/filecombinator.py:462-463 | unlinking the temporary file that was created restores the earlier files |
| `Combine.FileCombinator.constructor` | filecombinator/filecombinator.py:154-172 | the patterns are the defaults plus the additional ones; counters and lists start empty |
| `Combine.FileCombinator.IncrementStat` | filecombinator/filecombinator.py:485-487 | one counter up by one, the lists untouched |
| `Combine.FileCombinator.AddFile` | filecombinator/filecombinator.py:489-491 | one list grows by the path, the counters untouched |
| `Combine.FileCombinator.ProcessFile` | filecombinator/filecombinator.py:347-394 | succeeds iff `os.stat` succeeds; the stream, counters and lists are then those of `Record`; on failure nothing was written or counted |
| `Combine.FileCombinator.WriteText` | filecombinator/filecombinator.py:378-389 | writes the start marker, the content or the error line, and the end marker; counts the file as processed and lists it when it decodes, and counts it as skipped otherwise |
| `Combine.FileCombinator.WriteTree` | filecombinator/filecombinator.py:401-413 | the stream grows by the printed lines of the directory's entries, subtrees included |
| `Combine.FileCombinator.WriteEntry` | filecombinator/filecombinator.py:403-413 | one loop pass, followed by the rest of the loop, prints the listing from that index on |
| `Combine.FileCombinator.GenerateTree` | filecombinator/filecombinator.py:396-419 | the stream grows by the tree section; the call fails iff the start path is not a directory |
| `Combine.FileCombinator.ProcessFiles` | filecombinator/filecombinator.py:444-447 | the directory's files are processed in name order up to the first failure, with the record a run of those visits gives |
| `Combine.FileCombinator.ProcessFileAt` | filecombinator/filecombinator.py:445-447 | one pass extends the completed run by that file, or ends the whole loop with the failing run |
| `Combine.FileCombinator.WalkTree` | filecombinator/filecombinator.py:437-447 | the whole walk produces the record that the run of the walk's visits gives, including a stop at the first failing file |
| `Combine.FileCombinator.WriteReport` | filecombinator/filecombinator.py:434-447 | the tree is written first; when it succeeds the walk follows on the same stream, and when it fails nothing is counted |
| `Combine.FileCombinator.ProcessDirectory` | filecombinator/filecombinator.py:421-464 | no temporary file or an unlistable start directory: `DirectoryFailed`, disk unchanged. A stat failure: `FileInfoFailed`, temporary file left with the partial report. A failed move: `DirectoryFailed`, temporary file deleted. Otherwise the output path holds tree plus blocks |
| `Combine.Publish` | filecombinator/filecombinator.py:449-450 | the move puts the report at the destination and removes the temporary file; a failed move deletes it; an earlier stat failure leaves it |
| `Staging.TempFileManager.constructor` | filecombinator/core/combinator.py:27-31 | the registry starts empty |
| `Staging.TempFileManager.Register` | filecombinator/core/combinator.py:33-39 | adds the path |
| `Staging.TempFileManager.Unregister` | filecombinator/core/combinator.py:41-47 | removes the path; an untracked path is no error |
| `Staging.TempFileManager.CleanupAll` | filecombinator/core/combinator.py:49-56 | unlinks and forgets exactly the tracked paths that exist and can be unlinked; afterwards every tracked path is missing or locked |
| `Staging.CleanupSettles` | filecombinator/core/combinator.py:49-63 | a second cleanup right after the first removes nothing, so the garbage-collection hook and the exit hook can both run |
| `Staging.DestinationExcluded` | filecombinator/core/combinator.py:115-125 | once the output file is set, the engine's `is_excluded` rule excludes the destination and the staging file (reserved suffix); the directory processor is taken to apply the same rule |
| `Staging.DirectoryProcessor.constructor` | filecombinator/core/combinator.py:89-91 | the directory processor gets the configured patterns and output file |
| `Staging.ContentProcessor.constructor` | filecombinator/core/combinator.py:92 | the content processor starts with empty counters and lists |
| `Staging.Staged` | filecombinator/core/combinator.py:129-154 | the staging steps succeed iff makedirs, tree, walk and flush all succeed; the file's text starts with the tree text, and ends with the walk text when the tree succeeded |
| `Staging.FileCombinator.constructor` | filecombinator/core/combinator.py:69-93 | both processors share the configured patterns and output file; counters and lists start empty |
| `Staging.FileCombinator.Stats` | filecombinator/core/combinator.py:203-206 | the `stats` property reads the content processor's counters; `Staging.FileCombinator.ProcessDirectory` states what they hold after a run |
| `Staging.FileCombinator.FileLists` | filecombinator/core/combinator.py:198-201 | the `file_lists` property reads the content processor's lists; `Staging.FileCombinator.ProcessDirectory` states what they hold after a run |
| `Staging.FileCombinator.ProcessDirectory` | filecombinator/core/combinator.py:102-171 | output file set first. No staging file: `CreateFailed`, nothing changed. A failing step: `DirectoryFailed`, staging file on disk and registered. A failed move: `FinalizeFailed`, still registered. Otherwise the destination holds the staged text and the file is unregistered |
| `Staging.FileCombinator.WriteStaged` | filecombinator/core/combinator.py:129-150 | the callees write to the staging stream in order until one fails; the counters are the walk's once the walk ran |
| `Staging.Finalize` | filecombinator/core/combinator.py:156-171 | a successful move puts the text at the destination, removes the staging file and unregisters it; a failed one changes nothing |
| `Cli.Ext` | filecombinator/cli.py:163 | `splitext`: there is an extension iff the final component has a '.' after some character that is not a dot; the extension then runs from the last '.' to the end, with no other '.' or '/' |
| `Cli.ExtCondition` | filecombinator/cli.py:163 | the test `splitext` makes with the last '/' and the last '.' holds exactly when the name has such an extension dot |
| `Cli.OutputName` | filecombinator/cli.py:152-165 | with no output given, the directory's basename plus the suffix; a given name without extension gets the suffix; otherwise the name is kept |
| `Cli.SuffixGivesExtension` | filecombinator/cli.py:163-164 | a name with the suffix appended has the extension `.txt` |
| `Cli.RuleIdempotent` | filecombinator/cli.py:156-165 | applying the rule to its own result changes nothing, for a default name as for a given one |
| `Cli.SuffixedNameReserved` | filecombinator/cli.py:156-165 | a default or suffixed name ends with the reserved suffix, which the engine's `is_excluded` skips; the directory processor of the orchestrator is taken to apply the same rule |
| `Cli.TestdirDefault` | tests/test_cli.py:48 | `-d testdir` yields `testdir_file_combinator_output.txt` |
| `Cli.ExtensionExamples` | filecombinator/cli.py:163 | "report" has no extension, "report.md" has ".md", "notes." has ".", and ".env" and "out.d/report" have none |
| `Cli.HiddenNameExamples` | filecombinator/cli.py:163 | "a/.env" and "a.b/c" have no extension |

## Left out

- Logging, the banner, styled output, the statistics and excluded-file
  printouts, timing, and the CLI's argument parsing and prompts. They do
  not change what is written or counted.
- libmagic is not modelled: its answer for a file is an input (`Sniff`). An `IOError` from it is `DetectorError`, after which both tests fall back as the code does: to the byte heuristic, and to the extension.
- `os.stat`, the mtime formatting, binary reads and UTF-8 decoding are not
  modelled either: their results are inputs held in `FileData`.
- The error message of a failed decode is an input string too.
- `Text.Lower`: lower-cases ASCII letters only, not the whole of Unicode.
- `Paths.AbsForm` and `Paths.RelPath` do not normalise `.` or `..`.
- Symbolic links, and how `is_dir()` and `os.walk` treat them, are not modelled.
- Only the start directory's listing can fail (an `OSError` from
  `os.scandir`/`os.walk`). Listing a subdirectory, and `os.walk`'s silent
  skip of unreadable subdirectories, are not modelled.
- The subdirectory order of `os.walk` is taken to be the listing order of the snapshot.
- `Combine.FileCombinator.ProcessFile`: the `except IOError` path of
  `process_file` (`filecombinator.py:391-394`) is not modelled. Writes to
  the temporary stream are taken never to fail, so that path cannot occur.
- `Combine.FileCombinator.ProcessDirectory`: the `os.path.exists` check
  before the unlink is not modelled. The temporary file is taken to exist
  once it is created.
- The temporary file's name comes from `tempfile`, so it is a parameter.
- In the orchestrator, `os.makedirs`, `flush`/`fsync` and `shutil.move` are
  modelled by their outcomes only, as fields of `Environment`.
- `Staging.Staged`: a failing flush or fsync still leaves the written text in the staging file.
- The orchestrator's callees are described by what they do to the staging
  file and the counters:
  - `DirectoryProcessor.generate_tree` and `process_directory`;
  - `ContentProcessor.process_file`;
  - `get_config`.
  Their source is not part of this model, so the orchestrator's walk is not
  tied to the engine's walk.
- `weakref.finalize` and `atexit` are not modelled as hooks. `Staging.CleanupSettles` states that running the cleanup twice is harmless.
- Concurrency is not modelled. Nothing else is taken to touch the disk during a run.
