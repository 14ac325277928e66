/** `ProcessDirectory`, `ProcessFile`, `FixFile` and `ValidateFile` of Program.cs.

    The file system is a `Host` object: a map from full path to the attributes the
    processor looks at (last write time, reparse-point flag, extension) and the decoded
    text, the directory trees the run can be pointed at, the console and the persisted
    index file. Each operation is a method on the host and the `Indexer`, and each is
    proved equal to a function on a `State` value (files, index, console), so that the
    lemmas of module `ProcessorProofs` can speak about whole runs. */
module Processor {
  import opened Wrappers
  import opened LineEndings
  import opened Index

  datatype ActionType = Fix | Validate
  datatype LineEnding = Unix | Windows

  /** What the processor sees of one file. `content` is the text after decoding. */
  datatype FileEntry = FileEntry(mtime: int, isReparse: bool, extension: string, content: string)

  /** A directory: its own name, whether it is a reparse point, its subdirectories and
      the full paths of its files, each in enumeration order. */
  datatype Dir = Dir(name: string, isReparse: bool, subdirs: seq<Dir>, files: seq<string>)

  /** The two lists of `StringExtensions`. */
  datatype Config = Config(extensions: seq<string>, excludedFolders: seq<string>)

  /** The lists used when the application settings leave them empty. */
  const DefaultConfig: Config :=
    Config([".cs", ".cshtml", ".txt", ".js", ".xml", ".css", ".less", ".scss", ".md"], [".git", "bin"])

  /** `List<string>.Contains`: a scan of the list for an equal string. */
  function Contains(list: seq<string>, x: string): (found: bool)
    ensures found <==> x in list
    decreases |list|
  {
    if list == [] then false
    else if list[0] == x then true
    else Contains(list[1..], x)
  }

  function IsValidExtensionForProcessing(cfg: Config, extension: string): bool {
    Contains(cfg.extensions, extension)
  }

  /** Despite its name, true means the folder name is on the EXCLUDED list. */
  function IsValidFolder(cfg: Config, name: string): bool {
    Contains(cfg.excludedFolders, name)
  }

  /** The line printed for a file that fails validation. */
  function InvalidMessage(path: string): string {
    "Invalid line ending in file: " + path
  }

  /** The check `ValidateFile` applies for the chosen convention. */
  function Verdict(le: LineEnding, content: string): bool {
    match le
    case Unix => IsUnixValid(content)
    case Windows => IsWindowsValid(content)
  }

  /** The rewrite `FixFile` applies for the chosen convention. */
  function Fixed(le: LineEnding, content: string): string {
    match le
    case Unix => ToUnix(content)
    case Windows => ToWindows(content)
  }

  /** `Indexer.Get` on a map value. */
  function Lookup(index: map<string, Entry>, path: string): Option<Entry> {
    if path in index then Some(index[path]) else None
  }

  // ---------------------------------------------------------------------------
  // Abstract state and the functions that specify the methods
  // ---------------------------------------------------------------------------

  datatype State = State(files: map<string, FileEntry>, index: map<string, Entry>, console: seq<string>)

  /** Every file listed anywhere in the tree exists. */
  predicate FilesExist(d: Dir, paths: set<string>)
    decreases d
  {
    (forall p :: p in d.files ==> p in paths) &&
    forall i :: 0 <= i < |d.subdirs| ==> FilesExist(d.subdirs[i], paths)
  }

  /** A file `ProcessFile` does not skip straight away. */
  predicate Eligible(cfg: Config, f: FileEntry) {
    !f.isReparse && IsValidExtensionForProcessing(cfg, f.extension)
  }

  /** A directory `ProcessDirectory` does not enter. */
  predicate Skipped(cfg: Config, d: Dir) {
    d.isReparse || IsValidFolder(cfg, d.name)
  }

  /** The cache entry says the file is valid and unchanged since it was checked. */
  predicate CacheHit(index: map<string, Entry>, path: string, f: FileEntry) {
    var item := Lookup(index, path);
    item.Some? && item.value.mtime == f.mtime && item.value.valid
  }

  function FixFileSpec(le: LineEnding, writeTime: string -> int, path: string, st: State): (bool, State)
    requires path in st.files
  {
    var f := st.files[path];
    var t := writeTime(path);
    (true, st.(files := st.files[path := f.(content := Fixed(le, f.content), mtime := t)],
               index := st.index[path := Entry(t, true)]))
  }

  function ValidateFileSpec(le: LineEnding, path: string, st: State): (bool, State)
    requires path in st.files
  {
    var f := st.files[path];
    var ok := Verdict(le, f.content);
    (ok, st.(index := st.index[path := Entry(f.mtime, ok)],
             console := if ok then st.console else st.console + [InvalidMessage(path)]))
  }

  function ProcessFileSpec(cfg: Config, act: ActionType, le: LineEnding, writeTime: string -> int,
                           path: string, st: State): (r: (bool, State))
    requires path in st.files
    ensures r.1.files.Keys == st.files.Keys
  {
    var f := st.files[path];
    if Eligible(cfg, f) then
      if CacheHit(st.index, path, f) then (true, st)
      else if act == Fix then FixFileSpec(le, writeTime, path, st)
      else ValidateFileSpec(le, path, st)
    else (true, st)
  }

  /** The files from index j on, each processed in turn; the result is the conjunction
      of theirs. */
  function FilesSpec(cfg: Config, act: ActionType, le: LineEnding, writeTime: string -> int,
                     files: seq<string>, j: nat, st: State): (r: (bool, State))
    requires j <= |files|
    requires forall p :: p in files ==> p in st.files
    ensures r.1.files.Keys == st.files.Keys
    decreases |files| - j
  {
    if j == |files| then (true, st)
    else
      var (ok, st') := ProcessFileSpec(cfg, act, le, writeTime, files[j], st);
      var (rest, st'') := FilesSpec(cfg, act, le, writeTime, files, j + 1, st');
      (ok && rest, st'')
  }

  function ProcessDirectorySpec(cfg: Config, act: ActionType, le: LineEnding, writeTime: string -> int,
                                d: Dir, st: State): (r: (bool, State))
    requires FilesExist(d, st.files.Keys)
    ensures r.1.files.Keys == st.files.Keys
    decreases d, |d.subdirs| + 1
  {
    if Skipped(cfg, d) then (true, st)
    else
      var (ok1, st1) := SubdirsSpec(cfg, act, le, writeTime, d, 0, st);
      var (ok2, st2) := FilesSpec(cfg, act, le, writeTime, d.files, 0, st1);
      (ok1 && ok2, st2)
  }

  /** The subdirectories of d from index i on, each processed in turn. */
  function SubdirsSpec(cfg: Config, act: ActionType, le: LineEnding, writeTime: string -> int,
                       d: Dir, i: nat, st: State): (r: (bool, State))
    requires i <= |d.subdirs|
    requires FilesExist(d, st.files.Keys)
    ensures r.1.files.Keys == st.files.Keys
    decreases d, |d.subdirs| - i
  {
    if i == |d.subdirs| then (true, st)
    else
      var (ok, st') := ProcessDirectorySpec(cfg, act, le, writeTime, d.subdirs[i], st);
      var (rest, st'') := SubdirsSpec(cfg, act, le, writeTime, d, i + 1, st');
      (ok && rest, st'')
  }

  // ---------------------------------------------------------------------------
  // The file system and the methods of Program
  // ---------------------------------------------------------------------------

  class Host {
    var files: map<string, FileEntry>
    /** The directories a run may be pointed at, by full path. */
    var dirs: map<string, Dir>
    /** Lines written with `Console.WriteLine`, oldest first. */
    var console: seq<string>
    /** `index.bin`: None while the file does not exist. */
    var indexFile: Option<map<string, Entry>>

    constructor (files: map<string, FileEntry>, dirs: map<string, Dir>, indexFile: Option<map<string, Entry>>)
      ensures this.files == files && this.dirs == dirs && this.indexFile == indexFile && console == []
    {
      this.files := files;
      this.dirs := dirs;
      this.indexFile := indexFile;
      console := [];
    }

    /** Deleting the file and writing `content` in its place: the file gets the new text
        and a new last write time; its name, extension and attributes stay. */
    method WriteFile(path: string, content: string, mtime: int)
      requires path in files
      modifies this`files
      ensures files == old(files)[path := old(files)[path].(content := content, mtime := mtime)]
    {
      files := files[path := files[path].(content := content, mtime := mtime)];
    }

    method WriteLine(line: string)
      modifies this`console
      ensures console == old(console) + [line]
    {
      console := console + [line];
    }
  }

  function Snapshot(host: Host, ix: Indexer): State
    reads host, ix
  {
    State(host.files, ix.index, host.console)
  }

  /** `FixFile`: rewrite the text, write it back, record (new write time, valid). The
      time the file system gives the written file is `writeTime(path)`. */
  method FixFile(le: LineEnding, writeTime: string -> int, path: string, host: Host, ix: Indexer)
    returns (ok: bool)
    requires ix.initialized && path in host.files
    modifies host`files, ix`index
    ensures (ok, Snapshot(host, ix)) == FixFileSpec(le, writeTime, path, old(Snapshot(host, ix)))
  {
    var content := host.files[path].content;
    if le == Unix {
      content := ToUnix(content);
    }
    if le == Windows {
      content := ToWindows(content);
    }
    var t := writeTime(path);
    host.WriteFile(path, content, t);
    ix.Upsert(path, Entry(t, true));
    ok := true;
  }

  /** `ValidateFile`: on a match, report the file and record (write time, invalid);
      otherwise record (write time, valid). */
  method ValidateFile(le: LineEnding, path: string, host: Host, ix: Indexer)
    returns (ok: bool)
    requires ix.initialized && path in host.files
    modifies host`console, ix`index
    ensures (ok, Snapshot(host, ix)) == ValidateFileSpec(le, path, old(Snapshot(host, ix)))
  {
    var content := host.files[path].content;
    var mtime := host.files[path].mtime;
    if le == Unix {
      if FindCrLf(content, 0).Some? {
        host.WriteLine(InvalidMessage(path));
        ix.Upsert(path, Entry(mtime, false));
        return false;
      }
    } else if le == Windows {
      if FindBareLf(content, 0).Some? {
        host.WriteLine(InvalidMessage(path));
        ix.Upsert(path, Entry(mtime, false));
        return false;
      }
    }
    ix.Upsert(path, Entry(mtime, true));
    return true;
  }

  /** `ProcessFile`: skip reparse points and unlisted extensions, short-circuit on a
      valid cache entry with the same write time, else fix or validate. */
  method ProcessFile(cfg: Config, act: ActionType, le: LineEnding, writeTime: string -> int,
                     path: string, host: Host, ix: Indexer)
    returns (ok: bool)
    requires ix.initialized && path in host.files
    modifies host`files, host`console, ix`index
    ensures (ok, Snapshot(host, ix)) == ProcessFileSpec(cfg, act, le, writeTime, path, old(Snapshot(host, ix)))
  {
    var f := host.files[path];
    if !f.isReparse && IsValidExtensionForProcessing(cfg, f.extension) {
      var item := ix.Get(path);
      if item.Some? && item.value.mtime == f.mtime && item.value.valid {
        return true;
      }
      if act == Fix {
        ok := FixFile(le, writeTime, path, host, ix);
        return;
      } else if act == Validate {
        ok := ValidateFile(le, path, host, ix);
        return;
      }
    }
    return true;
  }

  /** `ProcessDirectory`: unless the directory is a reparse point or an excluded name,
      process every subdirectory and then every file, in order, and report whether all
      of them succeeded. A failure does not stop the walk. The two `foreach` loops are
      the methods `ProcessSubdirectories` and `ProcessFiles`, which carry the `result`
      variable from one loop to the next. */
  method ProcessDirectory(cfg: Config, act: ActionType, le: LineEnding, writeTime: string -> int,
                          d: Dir, host: Host, ix: Indexer)
    returns (ok: bool)
    requires ix.initialized && FilesExist(d, host.files.Keys)
    modifies host`files, host`console, ix`index
    ensures (ok, Snapshot(host, ix)) == ProcessDirectorySpec(cfg, act, le, writeTime, d, old(Snapshot(host, ix)))
    decreases d, 2
  {
    ok := true;
    if !d.isReparse && !IsValidFolder(cfg, d.name) {
      ok := ProcessSubdirectories(cfg, act, le, writeTime, d, host, ix, ok);
      ok := ProcessFiles(cfg, act, le, writeTime, d.files, host, ix, ok);
    }
  }

  /** The first `foreach` of `ProcessDirectory`: every subdirectory in turn; `result`
      becomes false on the first failure and stays false. */
  method ProcessSubdirectories(cfg: Config, act: ActionType, le: LineEnding, writeTime: string -> int,
                               d: Dir, host: Host, ix: Indexer, result: bool)
    returns (ok: bool)
    requires ix.initialized && FilesExist(d, host.files.Keys)
    modifies host`files, host`console, ix`index
    ensures FilesExist(d, host.files.Keys)
    ensures (ok, Snapshot(host, ix)) == Then(result, SubdirsSpec(cfg, act, le, writeTime, d, 0, old(Snapshot(host, ix))))
    decreases d, 1
  {
    ok := result;
    ghost var st0 := Snapshot(host, ix);
    var i := 0;
    while i < |d.subdirs|
      invariant 0 <= i <= |d.subdirs|
      invariant FilesExist(d, host.files.Keys)
      invariant Then(result, SubdirsSpec(cfg, act, le, writeTime, d, 0, st0))
        == Then(ok, SubdirsSpec(cfg, act, le, writeTime, d, i, Snapshot(host, ix)))
    {
      ghost var before := Snapshot(host, ix);
      SubdirsStep(cfg, act, le, writeTime, d, i, before);
      var sub := ProcessDirectory(cfg, act, le, writeTime, d.subdirs[i], host, ix);
      ThenStep(ok, SubdirsSpec(cfg, act, le, writeTime, d, i, before), sub,
               SubdirsSpec(cfg, act, le, writeTime, d, i + 1, Snapshot(host, ix)));
      if !sub {
        ok := false;
      }
      i := i + 1;
    }
  }

  /** The second `foreach` of `ProcessDirectory`: every file in turn. */
  method ProcessFiles(cfg: Config, act: ActionType, le: LineEnding, writeTime: string -> int,
                      files: seq<string>, host: Host, ix: Indexer, result: bool)
    returns (ok: bool)
    requires ix.initialized && forall p :: p in files ==> p in host.files
    modifies host`files, host`console, ix`index
    ensures (ok, Snapshot(host, ix)) == Then(result, FilesSpec(cfg, act, le, writeTime, files, 0, old(Snapshot(host, ix))))
  {
    ok := result;
    ghost var st0 := Snapshot(host, ix);
    var j := 0;
    while j < |files|
      invariant 0 <= j <= |files|
      invariant forall p :: p in files ==> p in host.files
      invariant Then(result, FilesSpec(cfg, act, le, writeTime, files, 0, st0))
        == Then(ok, FilesSpec(cfg, act, le, writeTime, files, j, Snapshot(host, ix)))
    {
      ghost var before := Snapshot(host, ix);
      FilesStep(cfg, act, le, writeTime, files, j, before);
      var one := ProcessFile(cfg, act, le, writeTime, files[j], host, ix);
      ghost var after := Snapshot(host, ix);
      assert (one, after) == ProcessFileSpec(cfg, act, le, writeTime, files[j], before);
      ThenStep(ok, FilesSpec(cfg, act, le, writeTime, files, j, before), one,
               FilesSpec(cfg, act, le, writeTime, files, j + 1, after));
      if !one {
        ok := false;
      }
      j := j + 1;
    }
  }

  /** The outcome of a walk that has so far succeeded exactly when `ok` holds and still
      has `rest` to come. */
  function Then(ok: bool, rest: (bool, State)): (bool, State) {
    (ok && rest.0, rest.1)
  }

  lemma ThenStep(ok: bool, whole: (bool, State), first: bool, rest: (bool, State))
    requires whole == Then(first, rest)
    ensures Then(ok, whole) == Then(ok && first, rest)
  {
  }

  lemma SubdirsStep(cfg: Config, act: ActionType, le: LineEnding, writeTime: string -> int,
                    d: Dir, i: nat, st: State)
    requires i < |d.subdirs|
    requires FilesExist(d, st.files.Keys)
    ensures FilesExist(d.subdirs[i], st.files.Keys)
    ensures var sub := ProcessDirectorySpec(cfg, act, le, writeTime, d.subdirs[i], st);
            FilesExist(d, sub.1.files.Keys) &&
            SubdirsSpec(cfg, act, le, writeTime, d, i, st)
              == Then(sub.0, SubdirsSpec(cfg, act, le, writeTime, d, i + 1, sub.1))
  {
  }

  lemma FilesStep(cfg: Config, act: ActionType, le: LineEnding, writeTime: string -> int,
                  files: seq<string>, j: nat, st: State)
    requires j < |files|
    requires forall p :: p in files ==> p in st.files
    ensures var one := ProcessFileSpec(cfg, act, le, writeTime, files[j], st);
            (forall p :: p in files ==> p in one.1.files) &&
            FilesSpec(cfg, act, le, writeTime, files, j, st)
              == Then(one.0, FilesSpec(cfg, act, le, writeTime, files, j + 1, one.1))
  {
  }
}
