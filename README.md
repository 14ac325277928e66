# Crlf line-ending tool, modelled in Dafny

Crlf walks a file or a directory tree and, for every text file with a listed
extension, either rewrites its line endings to one convention ("fix") or reports the
files that break it ("validate"). Unix text uses LF, Windows text uses CR LF. An index
saved in `index.bin` maps each file's full path to the write time it had when last
looked at and whether it was then valid. A file whose write time is unchanged and that
was found valid is skipped on later runs.

The model covers all of `Program.cs` apart from I/O and encoding:

- `line_endings.dfy` (module `LineEndings`) holds the two regular expressions.
  `Regex.Match` is a leftmost search (`FindCrLf`, `FindBareLf`). `Regex.Replace` is a
  left-to-right scan that never overlaps matches (`ToUnix`, `ToWindows`). The lemmas say
  what one pass of each rewrite does and does not guarantee.
- `indexer.dfy` (module `Index`) holds the `Indexer` class. It has the dictionary as a
  `map` field and an `initialized` flag that stands for `_index != null`.
- `processor.dfy` (module `Processor`) holds `ProcessFile`, `FixFile`, `ValidateFile`
  and `ProcessDirectory`. They are methods over a `Host` object: files, directory trees,
  console lines and the index file. Each method is proved equal to a function on a
  `State` value.
- `processor_proofs.dfy` (module `ProcessorProofs`) holds the lemmas about whole runs.
  The skips, the cache short-circuit, the index updates and the aggregation over a
  directory tree are stated there, together with the limits of the cache.
- `cli.dfy` (module `Cli`) holds `Main`/`MainAsync`: argument parsing, the choice
  between a file and a directory, and the index lifecycle.
- `wrappers.dfy` holds `Option`, which stands for `null`.

The source's regex names describe the ending each regex searches for, not the
convention it enforces. `UnixLineEndingRx` (`([^\r])\n`) is used for the Windows fix
and check, and `WindowsLineEndingRx` (`\r\n`) for the Unix ones. The Dafny names follow
the convention being enforced.

## Behaviour of the code worth knowing

The model follows the code in each of these points.

- Neither fix is idempotent, and a fix does not always produce text that passes the
  matching check. The Unix fix turns CR CR LF into CR LF; a second pass gives LF
  (`ToUnixNeedsTwoPasses`). Its output fails the Unix check exactly when the input
  held CR CR LF (`ToUnixValidUnlessCrCrLf`).
- The Windows fix consumes the character in front of each LF it converts. So in `a\n\n`
  only the first LF is converted (`ToWindowsMissesSecondLf`). Its output passes the
  check whenever the input has no two LFs in a row (`ToWindowsValidWithoutLfLf`).
- An LF at index 0 is never converted and never fails the Windows check (`LeadingLfIsUntouched`).
- `FixFile` records `(new write time, true)` without checking what it wrote. A later
  validation then skips the file even when it fails the check (`FixMayCacheInvalidText`).
- An index entry does not record which convention it was checked against
  (`EntryIgnoresConvention`).
- When any file fails, `MainAsync` calls `Environment.Exit(-1)` before `Main` reaches
  `indexer.Save()`. A failing run therefore persists none of its index updates
  (`Cli.Run`).
- A target that is neither a file nor a directory prints a message and ends with exit
  code 0, and so does a usage error. Both save the loaded index back.
- `args[2].ToUpper() == "-f"` can never hold (`UpperIsNeverDashF`). So the
  permanent-deletion option is never selected, and `-f` is itself taken as the path
  (`DashFIsTakenAsThePath`).
- The guards in `Get` and `Upsert` build an `InvalidOperationException` but never
  throw it. The model states the intended rule "call `Init` first" as
  `requires initialized`.
- No `try`/`catch` exists around file processing. An I/O or decoding error is not
  turned into a per-file failure; it ends the run.

## Model

| member | source | states |
|---|---|---|
| `LineEndings.FindCrLf` | Program.cs:181 | `WindowsLineEndingRx.Match`: the result is the leftmost index at or after `from` where CR is followed by LF, and None only when no such index exists |
| `LineEndings.FindBareLf` | Program.cs:190 | `UnixLineEndingRx.Match`: the result is the leftmost index where a non-CR character is followed by LF, and None only when there is none |
| `LineEndings.IsUnixValid` | Program.cs:179-186 | the Unix check passes iff no index i has `s[i] == CR && s[i+1] == LF` |
| `LineEndings.IsWindowsValid` | Program.cs:188-195 | the Windows check passes iff no index i >= 1 has `s[i] == LF && s[i-1] != CR`; an LF at index 0 passes |
| `LineEndings.TrailingCrIsHarmless` | Program.cs:179-195 | appending a lone CR changes neither check's verdict |
| `LineEndings.ToUnix` | Program.cs:151 | `WindowsLineEndingRx.Replace(content, "\n")` never lengthens the text; what it deletes is stated by `ToUnixDeletesCrBeforeLf`, `ToUnixLength`, `ToUnixKeepsValidText` and `ToUnixValidUnlessCrCrLf` |
| `LineEndings.ToUnixDeletesCrBeforeLf` | Program.cs:149-152 | the Unix fix's input is its output with CRs inserted only right before LFs, so the fix only deletes such CRs |
| `LineEndings.ToUnixKeepsStripped` | Program.cs:149-152 | removing every CR from input and output of the Unix fix gives equal texts |
| `LineEndings.ToUnixKeepsValidText` | Program.cs:149-152 | text that passes the Unix check is returned unchanged |
| `LineEndings.ToUnixLength` | Program.cs:149-152 | the output is shorter than the input by the number of CR LF pairs |
| `LineEndings.ToUnixValidUnlessCrCrLf` | Program.cs:149-152 | the output passes the Unix check iff the input holds no CR CR LF |
| `LineEndings.ToUnixNeedsTwoPasses` | Program.cs:151 | CR CR LF becomes CR LF and then LF: the fix is not idempotent |
| `LineEndings.ToWindows` | Program.cs:155 | `UnixLineEndingRx.Replace(content, "$1\r\n")` never shortens the text and keeps its first character; what it inserts is stated by `ToWindowsConvertsOnlyBareLf`, `ToWindowsKeepsValidText` and `ToWindowsValidWithoutLfLf` |
| `LineEndings.ToWindowsInsertsCrBeforeLf` | Program.cs:153-156 | the Windows fix's output is its input with CRs inserted only right before LFs |
| `LineEndings.ToWindowsKeepsStripped` | Program.cs:153-156 | removing every CR from input and output of the Windows fix gives equal texts |
| `LineEndings.ToWindowsKeepsValidText` | Program.cs:153-156 | text that passes the Windows check is returned unchanged |
| `LineEndings.ToWindowsConvertsOnlyBareLf` | Program.cs:153-156 | no double conversion: the output is the input with CRs inserted only before LFs whose preceding input character is not a CR, and never before an LF at index 0 |
| `LineEndings.ToWindowsNoDoubleCr` | Program.cs:153-156 | the output holds the sequence CR CR LF iff the input does |
| `LineEndings.ToWindowsHead` | Program.cs:155 | the Windows fix keeps the first character, keeps the second one after a leading CR, and leaves a one-character text unchanged |
| `LineEndings.ToWindowsValidWithoutLfLf` | Program.cs:153-156 | without two LFs in a row in the input, the output passes the Windows check |
| `LineEndings.ToWindowsMissesSecondLf` | Program.cs:155 | `a\n\n` becomes `a\r\n\n`, which fails the check; a second pass is needed |
| `LineEndings.LeadingLfIsUntouched` | Program.cs:155 | for every text that starts with LF, the fix and the check treat that LF as the LF of a leading CR LF: the fix keeps it without inserting a CR, and the check never counts it as a violation |
| `LineEndings.MixedText` | Program.cs:149-195 | on `a\r\nb\nc\r\n` the two fixes give `a\nb\nc\n` and `a\r\nb\r\nc\r\n`; the checks accept and reject the sample texts as they should |
| `Index.Indexer.constructor` | Program.cs:203-207 | a new indexer is not initialised |
| `Index.Indexer.Init` | Program.cs:228-243 | after `Init` the index is the persisted map, or empty when no index file exists |
| `Index.Indexer.Get` | Program.cs:209-220 | returns the stored entry for a present path and None (null) for an absent one; changes nothing |
| `Index.Indexer.Upsert` | Program.cs:222-226 | afterwards the path maps to the new value and every other path is unchanged (last write wins) |
| `Index.Indexer.Save` | Program.cs:244-256 | what is persisted is exactly the current index |
| `Index.SaveThenInit` | Program.cs:222-256 | two upserts then save then init on a fresh indexer give the old index with the later value for the path |
| `Processor.Contains` | Program.cs:286-293 | the list lookup used for extensions and excluded folder names is true iff the name is in the list |
| `Processor.ProcessFileSpec` | Program.cs:108-124 | processing one file never creates or removes a file |
| `Processor.ProcessDirectorySpec` | Program.cs:85-106 | processing a tree never creates or removes a file |
| `Processor.Host.WriteFile` | Program.cs:158-167 | deleting and rewriting a file gives it the new text and the new write time, and nothing else changes |
| `Processor.Host.WriteLine` | Program.cs:183 | a console line is appended |
| `Processor.FixFile` | Program.cs:126-171 | the method rewrites the text with the chosen fix, stores it with the new write time, upserts (new write time, true) and returns true |
| `Processor.ValidateFile` | Program.cs:173-200 | the method returns the check's verdict, upserts (write time, verdict) and prints the message only for an invalid file |
| `Processor.ProcessFile` | Program.cs:108-124 | the method equals the skip, cache and dispatch logic of `ProcessFileSpec` on the host and index state |
| `Processor.ProcessDirectory` | Program.cs:85-106 | the method equals `ProcessDirectorySpec`: a skipped directory changes nothing; otherwise subdirectories and then files are processed and the result is the conjunction |
| `Processor.ProcessSubdirectories` | Program.cs:90-96 | the first loop processes every subdirectory in order and keeps `result` false after a failure |
| `Processor.ProcessFiles` | Program.cs:97-103 | the second loop processes every file in order and keeps `result` false after a failure |
| `ProcessorProofs.ValidateDirectory` | Program.cs:85-124 | from a coherent cache, validation of a tree succeeds iff every reached file passes the check; every reached file ends with (write time, own verdict), other entries and all files are unchanged, the cache stays coherent, and a line is printed iff the run fails |
| `ProcessorProofs.ValidateDirectoryFromAnyCache` | Program.cs:85-124 | from any cache, coherent or not: validation of a tree succeeds iff every reached file is a cache hit or passes the check; every reached file ends with (write time, that outcome); other entries and all files are unchanged; a line is printed iff the run fails |
| `ProcessorProofs.DirChecked` | Program.cs:85-106 | the same validation outcome, from any cache, for every directory |
| `ProcessorProofs.SubdirsChecked` | Program.cs:90-96 | the same validation outcome for the remaining subdirectories of a directory |
| `ProcessorProofs.FilesChecked` | Program.cs:97-103 | the same validation outcome for the remaining files of a directory |
| `ProcessorProofs.ProcessFileChecked` | Program.cs:108-124 | one file, from any cache: a cache hit counts as a success and leaves its entry; otherwise the entry gets the check's verdict |
| `ProcessorProofs.FixDirectory` | Program.cs:85-171 | fixing a tree returns true and prints nothing; every reached file holds the fixed text, or its old text when the cache said it was valid and unchanged; every reached file ends with (its write time, true); unreached files and entries are unchanged; attributes are kept |
| `ProcessorProofs.DirOutcome` | Program.cs:85-106 | the tree-wide outcome holds: settled entries; nothing else changed; for a validation the verdict; for a fix success and the fixed text in every reached file that was not a cache hit. It holds for every directory, whatever the failures before it |
| `ProcessorProofs.SubdirsOutcome` | Program.cs:90-96 | the same outcome for the remaining subdirectories of a directory |
| `ProcessorProofs.FilesOutcome` | Program.cs:97-103 | the same outcome for the remaining files of a directory |
| `ProcessorProofs.ProcessFileOutcome` | Program.cs:108-124 | the same outcome for one file, reached iff it is eligible |
| `ProcessorProofs.CacheHitOutcome` | Program.cs:112-113 | a cache hit changes nothing, and in a coherent cache the file really is valid |
| `ProcessorProofs.FixOutcome` | Program.cs:169-170 | a fix of a file that is not a cache hit writes the fixed text, settles the file with (new write time, true), keeps attributes and succeeds |
| `ProcessorProofs.ValidateOutcome` | Program.cs:184-199 | a validation settles the file with (write time, verdict), keeps the cache coherent and prints exactly for a failure |
| `ProcessorProofs.SkippedDirectoryIsUntouched` | Program.cs:88 | a reparse-point or excluded directory gives true and changes nothing |
| `ProcessorProofs.SkippedFileIsUntouched` | Program.cs:110 | a reparse point or unlisted extension gives true and changes nothing |
| `ProcessorProofs.CacheHitReadsNothing` | Program.cs:112-113 | with an entry (current write time, true) the result is true, nothing changes, and the file's text does not matter |
| `ProcessorProofs.ChangedFileIsProcessedAgain` | Program.cs:113-121 | with a different stored write time the stored flag is ignored: validation gives the verdict on the current text, a fix rewrites it |
| `ProcessorProofs.FixedTextPasses` | Program.cs:149-156 | fixed text passes the same convention's check unless the input had CR CR LF (Unix) or LF LF (Windows) |
| `ProcessorProofs.FixMayCacheInvalidText` | Program.cs:169 | after a Unix fix of CR CR LF the entry says valid, and a later validation returns true without reading the still-invalid file |
| `ProcessorProofs.ValidatedFileIsCachedForBoth` | Program.cs:112-121 | a file never indexed that passes one convention's check is indexed as valid with its write time, and a validation against either convention then returns true and changes nothing |
| `ProcessorProofs.EntryIgnoresConvention` | Program.cs:113 | a file found Unix-valid is then accepted by a Windows validation without being read, though it fails the Windows check |
| `Cli.AsciiUpper` | Program.cs:40 | upper-casing keeps the length, maps each character, and leaves no lower-case ASCII letter |
| `Cli.UpperIsNeverDashF` | Program.cs:40 | no upper-cased string equals `-f` |
| `Cli.ParseArgs` | Program.cs:35-48 | a command is produced iff there are at least three arguments with a valid action and convention; its path is always the third argument |
| `Cli.DashFIsTakenAsThePath` | Program.cs:40-48 | `fix unix -f src` targets the path `-f` |
| `Cli.Run` | Program.cs:22-84 | usage errors and missing targets exit 0 and save the loaded index; otherwise the run equals the file or directory processing; success exits 0 and saves the final index, failure exits -1 and leaves the index file unchanged |

## Left out

- Charset detection with the `Ude` library and its 0.5 confidence threshold, and
  decoding with `StreamReader`/`File.OpenText`: foreign code and byte-level decoding.
  File content is the already decoded text. Note that the two paths decode
  differently: `FixFile` uses the detected charset, `ValidateFile` uses UTF-8.
- The recycle-bin versus permanent delete (`FileSystem.DeleteFile`/`File.Delete`), and
  writing with `StreamWriter` in UTF-8 with its byte-order mark. Both are I/O;
  `Host.WriteFile` stands for delete-then-write.
- The write time a real file system gives a rewritten file is the parameter
  `writeTime`. Write times are integers compared for equality, as `DateTime` values are.
- `BinaryFormatter` (de)serialisation of `index.bin`. The file holds the map itself. A
  corrupt index file, which makes the source fail at start-up, is not modelled.
- `async`/`Task`/`.Wait()`: the run is sequential, so the methods are plain calls.
- `ConfigurationManager` and `Split(';')`: the extension and excluded-folder lists
  are a `Config` value (`DefaultConfig` holds the built-in lists).
- `DirectoryInfo`/`FileInfo` enumeration and attributes: a directory is a `Dir` tree
  listing file paths in enumeration order, and the host keeps the attributes.
- Exceptions from I/O (unreadable, locked or vanished files), which end the real run.
  They are not modelled.
- `Cli.AsciiUpper`: models `ToUpper` only for ASCII letters. No character outside
  ASCII upper-cases to `f` either, so the `-f` result does not depend on this.
- `Console.WriteLine` is a list of lines on the host. `Environment.Exit` is the value
  returned by `Run`.
