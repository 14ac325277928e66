/** What a run of `ProcessFile` or `ProcessDirectory` does to the index, the files and
    the console, stated over the functions that specify those methods. */
module ProcessorProofs {
  import opened Wrappers
  import opened LineEndings
  import opened Index
  import opened Processor

  // ---------------------------------------------------------------------------
  // Which files a walk reaches
  // ---------------------------------------------------------------------------

  /** Per path, the two attributes that decide whether a file is skipped. */
  function Shape(files: map<string, FileEntry>): (shape: map<string, (bool, string)>)
    ensures shape.Keys == files.Keys
  {
    map p | p in files :: (files[p].isReparse, files[p].extension)
  }

  predicate EligibleIn(cfg: Config, shape: map<string, (bool, string)>, path: string) {
    path in shape && !shape[path].0 && IsValidExtensionForProcessing(cfg, shape[path].1)
  }

  /** The files from index j of `paths` on that `ProcessFile` does not skip. */
  function EligibleFrom(cfg: Config, shape: map<string, (bool, string)>, paths: seq<string>, j: nat): (r: set<string>)
    requires j <= |paths|
    ensures forall p :: p in r ==> EligibleIn(cfg, shape, p)
    decreases |paths| - j
  {
    if j == |paths| then {}
    else (if EligibleIn(cfg, shape, paths[j]) then {paths[j]} else {}) + EligibleFrom(cfg, shape, paths, j + 1)
  }

  /** The files under d that the walk hands to the fix or the check: files with a listed
      extension that are not reparse points, in directories that are neither reparse
      points nor excluded, all the way down. */
  function EligibleUnder(cfg: Config, shape: map<string, (bool, string)>, d: Dir): (r: set<string>)
    ensures forall p :: p in r ==> EligibleIn(cfg, shape, p)
    decreases d, |d.subdirs| + 1
  {
    if Skipped(cfg, d) then {}
    else EligibleUnderFrom(cfg, shape, d, 0) + EligibleFrom(cfg, shape, d.files, 0)
  }

  function EligibleUnderFrom(cfg: Config, shape: map<string, (bool, string)>, d: Dir, i: nat): (r: set<string>)
    requires i <= |d.subdirs|
    ensures forall p :: p in r ==> EligibleIn(cfg, shape, p)
    decreases d, |d.subdirs| - i
  {
    if i == |d.subdirs| then {}
    else EligibleUnder(cfg, shape, d.subdirs[i]) + EligibleUnderFrom(cfg, shape, d, i + 1)
  }

  // ---------------------------------------------------------------------------
  // What a processed file looks like afterwards
  // ---------------------------------------------------------------------------

  /** The cache never claims a file valid that fails the check, unless its write time
      has changed since. */
  predicate Coherent(st: State, le: LineEnding) {
    forall p :: p in st.index && p in st.files && st.index[p].valid && st.index[p].mtime == st.files[p].mtime
      ==> Verdict(le, st.files[p].content)
  }

  /** The path's entry holds its current write time, and the flag the run gives it:
      true after a fix, the verdict of the check after a validation. */
  predicate Settled(act: ActionType, le: LineEnding, st: State, p: string) {
    p in st.files && p in st.index &&
    st.index[p] == Entry(st.files[p].mtime, act == Fix || Verdict(le, st.files[p].content))
  }

  /** Going from st to st' with result ok while handling the files `targets`. */
  ghost predicate Outcome(act: ActionType, le: LineEnding, st: State, st': State, ok: bool, targets: set<string>) {
    targets <= st.files.Keys &&
    Shape(st'.files) == Shape(st.files) &&
    (forall p :: p !in targets ==> Lookup(st'.index, p) == Lookup(st.index, p)) &&
    (forall p :: p !in targets && p in st.files ==> st'.files[p] == st.files[p]) &&
    (forall p :: p in targets ==> Settled(act, le, st', p)) &&
    (forall p :: Settled(act, le, st, p) ==> Settled(act, le, st', p)) &&
    st.console <= st'.console &&
    (act == Validate ==>
      st'.files == st.files && Coherent(st', le) &&
      (ok <==> forall p :: p in targets ==> Verdict(le, st.files[p].content)) &&
      (ok <==> |st'.console| == |st.console|)) &&
    (act == Fix ==>
      ok && st'.console == st.console &&
      (forall p :: p in targets ==>
         st'.files[p].content == (if CacheHit(st.index, p, st.files[p]) then st.files[p].content
                                  else Fixed(le, st.files[p].content))))
  }

  lemma OutcomeNothing(act: ActionType, le: LineEnding, st: State)
    requires act == Validate ==> Coherent(st, le)
    ensures Outcome(act, le, st, st, true, {})
  {
  }

  lemma OutcomeThen(act: ActionType, le: LineEnding, st: State, st1: State, st2: State,
                    ok1: bool, ok2: bool, t1: set<string>, t2: set<string>)
    requires Outcome(act, le, st, st1, ok1, t1)
    requires Outcome(act, le, st1, st2, ok2, t2)
    ensures Outcome(act, le, st, st2, ok1 && ok2, t1 + t2)
  {
    assert st1.files.Keys == st.files.Keys by {
      assert Shape(st1.files).Keys == Shape(st.files).Keys;
    }
    forall p | p !in t1 + t2 && p in st.files
      ensures st2.files[p] == st.files[p]
    {
    }
    if act == Validate {
      assert st1.files == st.files;
      if |st2.console| == |st.console| {
        assert st.console <= st1.console <= st2.console;
      }
    }
  }

  // ---------------------------------------------------------------------------
  // One file
  // ---------------------------------------------------------------------------

  lemma {:induction false} ProcessFileOutcome(cfg: Config, act: ActionType, le: LineEnding, writeTime: string -> int,
                                              path: string, st: State)
    requires path in st.files
    requires act == Validate ==> Coherent(st, le)
    ensures var r := ProcessFileSpec(cfg, act, le, writeTime, path, st);
            Outcome(act, le, st, r.1, r.0, if EligibleIn(cfg, Shape(st.files), path) then {path} else {})
  {
    var f := st.files[path];
    assert EligibleIn(cfg, Shape(st.files), path) <==> Eligible(cfg, f);
    if !Eligible(cfg, f) {
      OutcomeNothing(act, le, st);
    } else if CacheHit(st.index, path, f) {
      CacheHitOutcome(act, le, path, st);
    } else if act == Fix {
      FixOutcome(le, writeTime, path, st);
    } else {
      ValidateOutcome(le, path, st);
    }
  }

  lemma CacheHitOutcome(act: ActionType, le: LineEnding, path: string, st: State)
    requires path in st.files && CacheHit(st.index, path, st.files[path])
    requires act == Validate ==> Coherent(st, le)
    ensures Outcome(act, le, st, st, true, {path})
  {
    assert st.index[path] == Entry(st.files[path].mtime, true);
  }

  lemma FixOutcome(le: LineEnding, writeTime: string -> int, path: string, st: State)
    requires path in st.files && !CacheHit(st.index, path, st.files[path])
    ensures var r := FixFileSpec(le, writeTime, path, st);
            Outcome(Fix, le, st, r.1, r.0, {path})
  {
    var f := st.files[path];
    var r := FixFileSpec(le, writeTime, path, st);
    var f' := f.(content := Fixed(le, f.content), mtime := writeTime(path));
    assert r.1.files == st.files[path := f'];
    assert Shape(r.1.files) == Shape(st.files);
  }

  lemma ValidateOutcome(le: LineEnding, path: string, st: State)
    requires path in st.files && Coherent(st, le)
    ensures var r := ValidateFileSpec(le, path, st);
            Outcome(Validate, le, st, r.1, r.0, {path})
  {
    var f := st.files[path];
    var r := ValidateFileSpec(le, path, st);
    assert r.1.files == st.files;
    assert r.1.index == st.index[path := Entry(f.mtime, Verdict(le, f.content))];
  }

  // ---------------------------------------------------------------------------
  // A list of files, a list of subdirectories, a directory
  // ---------------------------------------------------------------------------

  lemma {:induction false} FilesOutcome(cfg: Config, act: ActionType, le: LineEnding, writeTime: string -> int,
                                        files: seq<string>, j: nat, st: State)
    requires j <= |files|
    requires forall p :: p in files ==> p in st.files
    requires act == Validate ==> Coherent(st, le)
    ensures var r := FilesSpec(cfg, act, le, writeTime, files, j, st);
            Outcome(act, le, st, r.1, r.0, EligibleFrom(cfg, Shape(st.files), files, j))
    decreases |files| - j
  {
    if j == |files| {
      OutcomeNothing(act, le, st);
    } else {
      var one := ProcessFileSpec(cfg, act, le, writeTime, files[j], st);
      ProcessFileOutcome(cfg, act, le, writeTime, files[j], st);
      assert one.1.files.Keys == st.files.Keys by {
        assert Shape(one.1.files).Keys == Shape(st.files).Keys;
      }
      FilesOutcome(cfg, act, le, writeTime, files, j + 1, one.1);
      var rest := FilesSpec(cfg, act, le, writeTime, files, j + 1, one.1);
      OutcomeThen(act, le, st, one.1, rest.1, one.0, rest.0,
                  if EligibleIn(cfg, Shape(st.files), files[j]) then {files[j]} else {},
                  EligibleFrom(cfg, Shape(st.files), files, j + 1));
    }
  }

  lemma {:induction false} DirOutcome(cfg: Config, act: ActionType, le: LineEnding, writeTime: string -> int,
                                      d: Dir, st: State)
    requires FilesExist(d, st.files.Keys)
    requires act == Validate ==> Coherent(st, le)
    ensures var r := ProcessDirectorySpec(cfg, act, le, writeTime, d, st);
            Outcome(act, le, st, r.1, r.0, EligibleUnder(cfg, Shape(st.files), d))
    decreases d, |d.subdirs| + 1
  {
    if Skipped(cfg, d) {
      OutcomeNothing(act, le, st);
    } else {
      SubdirsOutcome(cfg, act, le, writeTime, d, 0, st);
      var subs := SubdirsSpec(cfg, act, le, writeTime, d, 0, st);
      FilesOutcome(cfg, act, le, writeTime, d.files, 0, subs.1);
      var fs := FilesSpec(cfg, act, le, writeTime, d.files, 0, subs.1);
      OutcomeThen(act, le, st, subs.1, fs.1, subs.0, fs.0,
                  EligibleUnderFrom(cfg, Shape(st.files), d, 0),
                  EligibleFrom(cfg, Shape(st.files), d.files, 0));
    }
  }

  lemma {:induction false} SubdirsOutcome(cfg: Config, act: ActionType, le: LineEnding, writeTime: string -> int,
                                          d: Dir, i: nat, st: State)
    requires i <= |d.subdirs|
    requires FilesExist(d, st.files.Keys)
    requires act == Validate ==> Coherent(st, le)
    ensures var r := SubdirsSpec(cfg, act, le, writeTime, d, i, st);
            Outcome(act, le, st, r.1, r.0, EligibleUnderFrom(cfg, Shape(st.files), d, i))
    decreases d, |d.subdirs| - i
  {
    if i == |d.subdirs| {
      OutcomeNothing(act, le, st);
    } else {
      var sub := ProcessDirectorySpec(cfg, act, le, writeTime, d.subdirs[i], st);
      DirOutcome(cfg, act, le, writeTime, d.subdirs[i], st);
      SubdirsOutcome(cfg, act, le, writeTime, d, i + 1, sub.1);
      var rest := SubdirsSpec(cfg, act, le, writeTime, d, i + 1, sub.1);
      OutcomeThen(act, le, st, sub.1, rest.1, sub.0, rest.0,
                  EligibleUnder(cfg, Shape(st.files), d.subdirs[i]),
                  EligibleUnderFrom(cfg, Shape(st.files), d, i + 1));
    }
  }

  // ---------------------------------------------------------------------------
  // Validation from any cache, coherent or not
  // ---------------------------------------------------------------------------

  /** What a validation makes of the file at p: a success when the cache holds its
      current write time and `true`, or else when its text passes the check. */
  predicate Passes(le: LineEnding, st: State, p: string) {
    p in st.files && (CacheHit(st.index, p, st.files[p]) || Verdict(le, st.files[p].content))
  }

  /** A validation going from st to st' with result ok while handling `targets`. */
  ghost predicate Checked(le: LineEnding, st: State, st': State, ok: bool, targets: set<string>) {
    targets <= st.files.Keys &&
    st'.files == st.files &&
    (forall p :: p !in targets ==> Lookup(st'.index, p) == Lookup(st.index, p)) &&
    (forall p :: p in targets ==> p in st'.index && st'.index[p] == Entry(st.files[p].mtime, Passes(le, st, p))) &&
    st.console <= st'.console &&
    (ok <==> forall p :: p in targets ==> Passes(le, st, p)) &&
    (ok <==> |st'.console| == |st.console|)
  }

  lemma CheckedThen(le: LineEnding, st: State, st1: State, st2: State,
                    ok1: bool, ok2: bool, t1: set<string>, t2: set<string>)
    requires Checked(le, st, st1, ok1, t1)
    requires Checked(le, st1, st2, ok2, t2)
    ensures Checked(le, st, st2, ok1 && ok2, t1 + t2)
  {
    forall p | p in t2 ensures Passes(le, st1, p) == Passes(le, st, p) {
      if p !in t1 {
        assert Lookup(st1.index, p) == Lookup(st.index, p);
      }
    }
    if |st2.console| == |st.console| {
      assert st.console <= st1.console <= st2.console;
    }
  }

  lemma ProcessFileChecked(cfg: Config, le: LineEnding, writeTime: string -> int, path: string, st: State)
    requires path in st.files
    ensures var r := ProcessFileSpec(cfg, Validate, le, writeTime, path, st);
            Checked(le, st, r.1, r.0, if EligibleIn(cfg, Shape(st.files), path) then {path} else {})
  {
    var f := st.files[path];
    assert EligibleIn(cfg, Shape(st.files), path) <==> Eligible(cfg, f);
    if Eligible(cfg, f) && CacheHit(st.index, path, f) {
      assert st.index[path] == Entry(f.mtime, true);
    }
  }

  lemma {:induction false} FilesChecked(cfg: Config, le: LineEnding, writeTime: string -> int,
                                        files: seq<string>, j: nat, st: State)
    requires j <= |files|
    requires forall p :: p in files ==> p in st.files
    ensures var r := FilesSpec(cfg, Validate, le, writeTime, files, j, st);
            Checked(le, st, r.1, r.0, EligibleFrom(cfg, Shape(st.files), files, j))
    decreases |files| - j
  {
    if j < |files| {
      var one := ProcessFileSpec(cfg, Validate, le, writeTime, files[j], st);
      ProcessFileChecked(cfg, le, writeTime, files[j], st);
      FilesChecked(cfg, le, writeTime, files, j + 1, one.1);
      var rest := FilesSpec(cfg, Validate, le, writeTime, files, j + 1, one.1);
      CheckedThen(le, st, one.1, rest.1, one.0, rest.0,
                  if EligibleIn(cfg, Shape(st.files), files[j]) then {files[j]} else {},
                  EligibleFrom(cfg, Shape(st.files), files, j + 1));
    }
  }

  lemma {:induction false} DirChecked(cfg: Config, le: LineEnding, writeTime: string -> int, d: Dir, st: State)
    requires FilesExist(d, st.files.Keys)
    ensures var r := ProcessDirectorySpec(cfg, Validate, le, writeTime, d, st);
            Checked(le, st, r.1, r.0, EligibleUnder(cfg, Shape(st.files), d))
    decreases d, |d.subdirs| + 1
  {
    if !Skipped(cfg, d) {
      SubdirsChecked(cfg, le, writeTime, d, 0, st);
      var subs := SubdirsSpec(cfg, Validate, le, writeTime, d, 0, st);
      FilesChecked(cfg, le, writeTime, d.files, 0, subs.1);
      var fs := FilesSpec(cfg, Validate, le, writeTime, d.files, 0, subs.1);
      CheckedThen(le, st, subs.1, fs.1, subs.0, fs.0,
                  EligibleUnderFrom(cfg, Shape(st.files), d, 0),
                  EligibleFrom(cfg, Shape(st.files), d.files, 0));
    }
  }

  lemma {:induction false} SubdirsChecked(cfg: Config, le: LineEnding, writeTime: string -> int,
                                          d: Dir, i: nat, st: State)
    requires i <= |d.subdirs|
    requires FilesExist(d, st.files.Keys)
    ensures var r := SubdirsSpec(cfg, Validate, le, writeTime, d, i, st);
            Checked(le, st, r.1, r.0, EligibleUnderFrom(cfg, Shape(st.files), d, i))
    decreases d, |d.subdirs| - i
  {
    if i < |d.subdirs| {
      var sub := ProcessDirectorySpec(cfg, Validate, le, writeTime, d.subdirs[i], st);
      DirChecked(cfg, le, writeTime, d.subdirs[i], st);
      SubdirsChecked(cfg, le, writeTime, d, i + 1, sub.1);
      var rest := SubdirsSpec(cfg, Validate, le, writeTime, d, i + 1, sub.1);
      CheckedThen(le, st, sub.1, rest.1, sub.0, rest.0,
                  EligibleUnder(cfg, Shape(st.files), d.subdirs[i]),
                  EligibleUnderFrom(cfg, Shape(st.files), d, i + 1));
    }
  }

  // ---------------------------------------------------------------------------
  // Whole walks
  // ---------------------------------------------------------------------------

  /** Validating a directory (whose cache is coherent) succeeds exactly when every file
      the walk reaches passes the check. A failure does not stop the walk: afterwards
      every reached file has an entry holding its write time and its own verdict, all
      other entries are as they were, no file is changed, the cache is still coherent,
      and a line is printed exactly when the run fails. */
  lemma ValidateDirectory(cfg: Config, le: LineEnding, writeTime: string -> int, d: Dir, st: State)
    requires FilesExist(d, st.files.Keys)
    requires Coherent(st, le)
    ensures var reached := EligibleUnder(cfg, Shape(st.files), d);
            var (ok, st') := ProcessDirectorySpec(cfg, Validate, le, writeTime, d, st);
            reached <= st.files.Keys &&
            (ok <==> forall p :: p in reached ==> Verdict(le, st.files[p].content)) &&
            (forall p :: p in reached ==>
               p in st'.index && st'.index[p] == Entry(st.files[p].mtime, Verdict(le, st.files[p].content))) &&
            (forall p :: p !in reached ==> Lookup(st'.index, p) == Lookup(st.index, p)) &&
            st'.files == st.files && Coherent(st', le) &&
            st.console <= st'.console && (ok <==> st'.console == st.console)
  {
    DirOutcome(cfg, Validate, le, writeTime, d, st);
  }

  /** Validating a directory from any cache, including one left incoherent by an earlier
      fix or by a validation against the other convention: the run succeeds exactly
      when every reached file either is a cache hit or passes the check; each reached
      file ends with an entry holding its write time and that outcome; all other entries
      and all files are as they were; and a line is printed exactly when the run fails. */
  lemma ValidateDirectoryFromAnyCache(cfg: Config, le: LineEnding, writeTime: string -> int, d: Dir, st: State)
    requires FilesExist(d, st.files.Keys)
    ensures var reached := EligibleUnder(cfg, Shape(st.files), d);
            var (ok, st') := ProcessDirectorySpec(cfg, Validate, le, writeTime, d, st);
            reached <= st.files.Keys &&
            (ok <==> forall p :: p in reached ==>
                       CacheHit(st.index, p, st.files[p]) || Verdict(le, st.files[p].content)) &&
            (forall p :: p in reached ==>
               p in st'.index &&
               st'.index[p] == Entry(st.files[p].mtime,
                                     CacheHit(st.index, p, st.files[p]) || Verdict(le, st.files[p].content))) &&
            (forall p :: p !in reached ==> Lookup(st'.index, p) == Lookup(st.index, p)) &&
            st'.files == st.files &&
            st.console <= st'.console && (ok <==> st'.console == st.console)
  {
    DirChecked(cfg, le, writeTime, d, st);
  }

  /** Fixing a directory always succeeds and prints nothing; afterwards every file the
      walk reaches holds the fixed text, unless the cache said it was valid and unchanged,
      in which case its text is as it was; every reached file has an entry holding its
      (possibly new) write time and `true`; files and entries it does not reach are as
      they were; and no file is created, removed, renamed or changes its attributes. */
  lemma FixDirectory(cfg: Config, le: LineEnding, writeTime: string -> int, d: Dir, st: State)
    requires FilesExist(d, st.files.Keys)
    ensures var reached := EligibleUnder(cfg, Shape(st.files), d);
            var (ok, st') := ProcessDirectorySpec(cfg, Fix, le, writeTime, d, st);
            ok && st'.console == st.console && Shape(st'.files) == Shape(st.files) &&
            (forall p :: p in reached ==>
               p in st'.files && p in st'.index && st'.index[p] == Entry(st'.files[p].mtime, true)) &&
            (forall p :: p in reached ==>
               st'.files[p].content == (if CacheHit(st.index, p, st.files[p]) then st.files[p].content
                                        else Fixed(le, st.files[p].content))) &&
            (forall p :: p !in reached ==> Lookup(st'.index, p) == Lookup(st.index, p)) &&
            (forall p :: p !in reached && p in st.files ==> st'.files[p] == st.files[p])
  {
    DirOutcome(cfg, Fix, le, writeTime, d, st);
  }

  /** A reparse-point directory, or one whose name is on the exclude list, is not
      entered: the result is true and nothing changes. */
  lemma SkippedDirectoryIsUntouched(cfg: Config, act: ActionType, le: LineEnding, writeTime: string -> int,
                                    d: Dir, st: State)
    requires FilesExist(d, st.files.Keys)
    requires d.isReparse || d.name in cfg.excludedFolders
    ensures ProcessDirectorySpec(cfg, act, le, writeTime, d, st) == (true, st)
    ensures EligibleUnder(cfg, Shape(st.files), d) == {}
  {
  }

  // ---------------------------------------------------------------------------
  // One file: skips and the cache short-circuit
  // ---------------------------------------------------------------------------

  /** A reparse point, or a file whose extension is not listed, is not processed: the
      result is true and nothing changes. */
  lemma SkippedFileIsUntouched(cfg: Config, act: ActionType, le: LineEnding, writeTime: string -> int,
                               path: string, st: State)
    requires path in st.files
    requires st.files[path].isReparse || st.files[path].extension !in cfg.extensions
    ensures ProcessFileSpec(cfg, act, le, writeTime, path, st) == (true, st)
  {
  }

  /** With an entry that holds the file's current write time and `true`, the file is
      not read: the result is true and nothing changes, whatever the file now holds. */
  lemma CacheHitReadsNothing(cfg: Config, act: ActionType, le: LineEnding, writeTime: string -> int,
                             path: string, st: State, other: string)
    requires path in st.files && Eligible(cfg, st.files[path])
    requires path in st.index && st.index[path] == Entry(st.files[path].mtime, true)
    ensures ProcessFileSpec(cfg, act, le, writeTime, path, st) == (true, st)
    ensures var st2 := st.(files := st.files[path := st.files[path].(content := other)]);
            ProcessFileSpec(cfg, act, le, writeTime, path, st2) == (true, st2)
  {
  }

  /** With an entry whose write time differs from the file's, the stored flag is ignored:
      validation gives the check's verdict on the current text, and a fix rewrites it. */
  lemma ChangedFileIsProcessedAgain(cfg: Config, act: ActionType, le: LineEnding, writeTime: string -> int,
                                    path: string, st: State)
    requires path in st.files && Eligible(cfg, st.files[path])
    requires path in st.index && st.index[path].mtime != st.files[path].mtime
    ensures var f := st.files[path];
            var (ok, st') := ProcessFileSpec(cfg, act, le, writeTime, path, st);
            (act == Validate ==> ok == Verdict(le, f.content) && st'.index[path] == Entry(f.mtime, ok)) &&
            (act == Fix ==> ok && st'.files[path].content == Fixed(le, f.content) &&
                            st'.index[path] == Entry(st'.files[path].mtime, true))
  {
  }

  // ---------------------------------------------------------------------------
  // How far the cache can be trusted
  // ---------------------------------------------------------------------------

  /** A fix leaves text that passes the check for the same convention, unless the Unix
      input held CR, CR, LF or the Windows input held two LFs in a row. */
  lemma FixedTextPasses(le: LineEnding, content: string)
    requires le == Unix ==> !HasCrCrLf(content)
    requires le == Windows ==> !HasLfLf(content)
    ensures Verdict(le, Fixed(le, content))
  {
    match le
    case Unix => ToUnixValidUnlessCrCrLf(content);
    case Windows => ToWindowsValidWithoutLfLf(content);
  }

  /** A fix records `true` without checking the text it wrote: after a Unix fix of
      CR, CR, LF the entry says valid, so a later Unix validation of the unchanged file
      returns true without reading it, although the file holds `\r\n`. */
  lemma FixMayCacheInvalidText()
    ensures var st := State(map["a.txt" := FileEntry(1, false, ".txt", "\r\r\n")], map[], []);
            var (fixed, st1) := ProcessFileSpec(DefaultConfig, Fix, Unix, _ => 2, "a.txt", st);
            fixed && st1.files["a.txt"].content == "\r\n" && !IsUnixValid(st1.files["a.txt"].content) &&
            ProcessFileSpec(DefaultConfig, Validate, Unix, _ => 3, "a.txt", st1) == (true, st1)
  {
    var st := State(map["a.txt" := FileEntry(1, false, ".txt", "\r\r\n")], map[], []);
    assert Contains(DefaultConfig.extensions, ".txt");
    ToUnixNeedsTwoPasses();
    var st1 := ProcessFileSpec(DefaultConfig, Fix, Unix, _ => 2, "a.txt", st).1;
    assert st1.files["a.txt"] == FileEntry(2, false, ".txt", "\r\n");
    assert st1.index["a.txt"] == Entry(2, true);
  }

  /** A file that passes one convention's check is cached as valid, and a validation
      against either convention then accepts it without reading it. */
  lemma ValidatedFileIsCachedForBoth(cfg: Config, le: LineEnding, le': LineEnding,
                                     writeTime: string -> int, path: string, st: State)
    requires path in st.files && Eligible(cfg, st.files[path]) && path !in st.index
    requires Verdict(le, st.files[path].content)
    ensures var (ok, st1) := ProcessFileSpec(cfg, Validate, le, writeTime, path, st);
            ok && st1 == st.(index := st.index[path := Entry(st.files[path].mtime, true)]) &&
            ProcessFileSpec(cfg, Validate, le', writeTime, path, st1) == (true, st1)
  {
  }

  /** An entry does not record which convention it was checked against: a file that
      passed the Unix check is then taken as valid by a Windows validation, without
      being read, although it fails the Windows check. */
  lemma EntryIgnoresConvention(writeTime: string -> int)
    ensures var st := State(map["a.txt" := FileEntry(1, false, ".txt", "a\nb")], map[], []);
            var (unixOk, st1) := ProcessFileSpec(DefaultConfig, Validate, Unix, writeTime, "a.txt", st);
            unixOk && !IsWindowsValid("a\nb") &&
            ProcessFileSpec(DefaultConfig, Validate, Windows, writeTime, "a.txt", st1) == (true, st1)
  {
    var st := State(map["a.txt" := FileEntry(1, false, ".txt", "a\nb")], map[], []);
    assert Contains(DefaultConfig.extensions, ".txt");
    MixedText();
    ValidatedFileIsCachedForBoth(DefaultConfig, Unix, Windows, writeTime, "a.txt", st);
  }
}
