/** `Main` and `MainAsync` of Program.cs: argument parsing, the choice between a file
    and a directory, and the index lifecycle (loaded before the run, saved after it). */
module Cli {
  import opened Wrappers
  import opened Index
  import opened Processor

  datatype Command = Command(action: ActionType, lineEnding: LineEnding, target: string)

  const UsageMessage: string := "Usage: Crlf fix|validate unix|windows [-f] path"
  const BadTargetMessage: string := "Path should be valid file or directory"

  /** `char.ToUpper` on ASCII letters; other characters are kept. */
  function UpperChar(c: char): char {
    if 'a' <= c <= 'z' then (c as int - 32) as char else c
  }

  /** `string.ToUpper`, restricted to ASCII case mapping. */
  function AsciiUpper(s: string): (r: string)
    ensures |r| == |s|
    ensures forall i :: 0 <= i < |s| ==> r[i] == UpperChar(s[i])
    ensures forall i :: 0 <= i < |r| ==> !('a' <= r[i] <= 'z')
    decreases |s|
  {
    if s == [] then [] else [UpperChar(s[0])] + AsciiUpper(s[1..])
  }

  /** An upper-cased string holds no lower-case `f`, so the test for the `-f` option can
      never succeed. */
  lemma UpperIsNeverDashF(s: string)
    ensures AsciiUpper(s) != "-f"
  {
    if |s| == 2 {
      assert "-f"[1] == 'f';
    }
  }

  /** The argument checks of `MainAsync`: None stands for the usage message. The
      `-f` branch cannot be taken, so the deletion option keeps its default (the recycle
      bin) and the path is always the third argument, even when that is `-f`. */
  function ParseArgs(args: seq<string>): (r: Option<Command>)
    ensures r.Some? <==> |args| >= 3 && args[0] in {"fix", "validate"} && args[1] in {"unix", "windows"}
    ensures r.Some? ==> r.value.target == args[2]
    ensures r.Some? ==> (r.value.action == Fix <==> args[0] == "fix")
    ensures r.Some? ==> (r.value.lineEnding == Unix <==> args[1] == "unix")
  {
    if |args| < 3 || (args[0] != "fix" && args[0] != "validate") || (args[1] != "unix" && args[1] != "windows") then
      None
    else if AsciiUpper(args[2]) == "-f" then
      UpperIsNeverDashF(args[2]);
      assert false;
      None
    else
      Some(Command(if args[0] == "fix" then Fix else Validate,
                   if args[1] == "unix" then Unix else Windows,
                   args[2]))
  }

  /** With the option written as documented, the path taken is the option itself. */
  lemma DashFIsTakenAsThePath()
    ensures ParseArgs(["fix", "unix", "-f", "src"]) == Some(Command(Fix, Unix, "-f"))
  {
    UpperIsNeverDashF("-f");
  }

  /** Every directory a run may be pointed at lists only existing files. */
  predicate HostValid(files: map<string, FileEntry>, dirs: map<string, Dir>) {
    forall k :: k in dirs ==> FilesExist(dirs[k], files.Keys)
  }

  /** The outcome of `MainAsync` on a parsed command, from the loaded index: the
      result, and the state afterwards. A file path wins over a directory path, as
      `File.Exists` is asked first. */
  function RunSpec(cfg: Config, writeTime: string -> int, cmd: Command,
                   files: map<string, FileEntry>, dirs: map<string, Dir>, st: State): (bool, State)
    requires HostValid(files, dirs) && st.files == files
  {
    if cmd.target in files then
      ProcessFileSpec(cfg, cmd.action, cmd.lineEnding, writeTime, cmd.target, st)
    else if cmd.target in dirs then
      ProcessDirectorySpec(cfg, cmd.action, cmd.lineEnding, writeTime, dirs[cmd.target], st)
    else
      (true, st.(console := st.console + [BadTargetMessage]))
  }

  /** `Main`: load the index, run `MainAsync`, save the index. When processing fails,
      `MainAsync` ends the process with `Environment.Exit(-1)`, so the index is NOT
      saved and `index.bin` keeps its previous content. A usage error or a missing
      target prints a line and ends normally, with exit code 0 and the loaded index
      saved back. */
  method Run(args: seq<string>, cfg: Config, writeTime: string -> int, host: Host)
    returns (exitCode: int)
    requires HostValid(host.files, host.dirs)
    modifies host
    ensures host.dirs == old(host.dirs)
    ensures var loaded := if old(host.indexFile).Some? then old(host.indexFile).value else map[];
            var st := State(old(host.files), loaded, old(host.console));
            match ParseArgs(args)
            case None =>
              exitCode == 0 && host.files == old(host.files) &&
              host.console == old(host.console) + [UsageMessage] && host.indexFile == Some(loaded)
            case Some(cmd) =>
              var (ok, st') := RunSpec(cfg, writeTime, cmd, old(host.files), old(host.dirs), st);
              host.files == st'.files && host.console == st'.console &&
              (ok ==> exitCode == 0 && host.indexFile == Some(st'.index)) &&
              (!ok ==> exitCode == -1 && host.indexFile == old(host.indexFile))
  {
    var ix := new Indexer();
    ix.Init(host.indexFile);
    var cmd := ParseArgs(args);
    var ok := true;
    if cmd.None? {
      host.WriteLine(UsageMessage);
    } else {
      var target := cmd.value.target;
      if target in host.files {
        ok := ProcessFile(cfg, cmd.value.action, cmd.value.lineEnding, writeTime, target, host, ix);
      } else if target in host.dirs {
        ok := ProcessDirectory(cfg, cmd.value.action, cmd.value.lineEnding, writeTime, host.dirs[target], host, ix);
      } else {
        host.WriteLine(BadTargetMessage);
      }
    }
    if !ok {
      // Environment.Exit(-1): the process ends before Main reaches Save.
      return -1;
    }
    var saved := ix.Save();
    host.indexFile := Some(saved);
    exitCode := 0;
  }
}
