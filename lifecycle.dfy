/**
 The lifecycle operations: cloning a distribution (export to a temporary
 archive, import under the new name, with the clean-up of a `finally`
 block) and the three one-command wrappers for export, import and delete.

 The host is abstract: the set of registered distributions, the set of
 running ones, the files and the directories, plus the trace of what was
 done to it. Every `wsl` invocation is a `Command`; its exit code (and,
 for a failed export, whether it left a partial archive behind) is chosen
 by the caller, standing for the outside world. A non-zero exit code is
 `check=True` raising, which is modelled as a `Raised` status.
 */
module Lifecycle {
  import opened Wrappers
  import DistroState

  /** The `wsl` invocations the operations issue. */
  datatype Command =
    | ListVerbose                                          // wsl -l -v
    | Terminate(name: string)                              // wsl --terminate name
    | Export(name: string, archive: string)                // wsl --export name archive
    | Import(name: string, location: string, archive: string) // wsl --import name location archive
    | Unregister(name: string)                             // wsl --unregister name
    | RunExit(name: string)                                // wsl -d name -e exit

  /** What is done to the host, in order. */
  datatype Action =
    | Issue(cmd: Command)
    | MakeDirs(path: string)
    | RemoveFile(path: string)

  /** The exceptions an operation can raise. */
  datatype Failure =
    | CommandFailed(cmd: Command, exitCode: int)   // subprocess.CalledProcessError
    | MakeDirsFailed(path: string)                 // OSError from os.makedirs
    | TempUnset                                    // os.path.join(None, ...) raising TypeError

  datatype Status = Ok | Raised(failure: Failure)

  /** The part of the host the operations read and change. */
  datatype HostState = HostState(registered: set<string>, running: set<string>,
                                 files: set<string>, dirs: set<string>)

  /** What an operation did: the new host, the actions taken, the status. */
  datatype Effect = Effect(state: HostState, actions: seq<Action>, status: Status)

  /** The outside world's answers during one clone: the exit codes of the
      commands, whether a failed export left a partial archive, whether
      `os.makedirs` succeeds, and whether a failed import left the new
      distribution partly created. */
  datatype CloneOracle = CloneOracle(terminateCode: int,
                                     exportCode: int, exportLeftPartial: bool,
                                     mkdirOk: bool, importCode: int, importLeftPartial: bool,
                                     restartCode: int)

  // ---------------------------------------------------------------------
  // Paths

  /** Windows `os.path.join(dir, leaf)` for a relative leaf: a separator is
      put between the two unless `dir` is empty, already ends with one, or
      is a bare drive. */
  function JoinPath(dir: string, leaf: string): (r: string)
    ensures r == dir + leaf || r == dir + "\\" + leaf
    ensures r[..|dir|] == dir && r[|r| - |leaf|..] == leaf
    ensures r == dir + "\\" + leaf <==>
              dir != [] && dir[|dir| - 1] != '\\' && dir[|dir| - 1] != '/' && !(|dir| == 2 && dir[1] == ':')
  {
    if dir == [] then leaf
    else if dir[|dir| - 1] == '\\' || dir[|dir| - 1] == '/' || (|dir| == 2 && dir[1] == ':') then dir + leaf
    else dir + "\\" + leaf
  }

  /** Where a clone puts the archive of `original`. */
  function TempArchive(tempDir: string, original: string): string
  {
    JoinPath(tempDir, original + ".tar")
  }

  const InstallRoot: string := "C:\\WSL"

  /** Where a clone installs `newName`. */
  function InstallLocation(newName: string): string
  {
    JoinPath(InstallRoot, newName)
  }

  // ---------------------------------------------------------------------
  // One command

  /** What a command that exits with 0 does to the host. `wsl -d name -e
      exit` boots the distribution, which then counts as running. */
  function Apply(s: HostState, cmd: Command): HostState
  {
    match cmd
    case ListVerbose => s
    case Terminate(name) => s.(running := s.running - {name})
    case Export(_, archive) => s.(files := s.files + {archive})
    case Import(name, _, _) => s.(registered := s.registered + {name})
    case Unregister(name) => s.(registered := s.registered - {name}, running := s.running - {name})
    case RunExit(name) => s.(running := s.running + {name})
  }

  /** The host after `cmd` exits with `exitCode`. A failed command changes
      nothing, except that a failed export may leave a partial archive and a
      failed import may leave the new distribution partly created, and so
      registered; `leftPartial` says whether it did. Nothing rolls either
      back. */
  function Outcome(s: HostState, cmd: Command, exitCode: int, leftPartial: bool): HostState
  {
    if exitCode == 0 || (leftPartial && (cmd.Export? || cmd.Import?)) then Apply(s, cmd) else s
  }

  /** `check=True`: a non-zero exit code raises. */
  function CommandStatus(cmd: Command, exitCode: int): Status
  {
    if exitCode == 0 then Ok else Raised(CommandFailed(cmd, exitCode))
  }

  // ---------------------------------------------------------------------
  // Clone, as a function of the host and the oracle

  /** The clone gets past the terminate step into the `try` block;
      `wasRunning` is what `is_distro_running` reported for the source. */
  predicate ReachesExport(temp: Option<string>, wasRunning: bool, o: CloneOracle)
  {
    temp.Some? && !(wasRunning && o.terminateCode != 0)
  }

  /** The `try` block: export to the archive, create the install directory,
      import from the archive; the first failure ends it. */
  function CloneBody(s: HostState, original: string, newName: string, archive: string,
                     o: CloneOracle): Effect
  {
    var exportCmd := Export(original, archive);
    var s1 := Outcome(s, exportCmd, o.exportCode, o.exportLeftPartial);
    if o.exportCode != 0 then Effect(s1, [Issue(exportCmd)], CommandStatus(exportCmd, o.exportCode))
    else
      var location := InstallLocation(newName);
      if !o.mkdirOk then Effect(s1, [Issue(exportCmd), MakeDirs(location)], Raised(MakeDirsFailed(location)))
      else
        var s2 := s1.(dirs := s1.dirs + {location});
        var importCmd := Import(newName, location, archive);
        Effect(Outcome(s2, importCmd, o.importCode, o.importLeftPartial), [Issue(exportCmd), MakeDirs(location), Issue(importCmd)],
               CommandStatus(importCmd, o.importCode))
  }

  /** The `finally` block, run on host `s` after the `try` block ended with
      `bodyStatus`: remove the archive if it exists, then restart the source
      if it was running. A failing restart raises in place of whatever the
      `try` block raised. */
  function Finally(s: HostState, bodyStatus: Status, original: string, archive: string,
                   wasRunning: bool, restartCode: int): Effect
  {
    var removed := if archive in s.files then [RemoveFile(archive)] else [];
    var s1 := s.(files := s.files - {archive});
    if !wasRunning then Effect(s1, removed, bodyStatus)
    else
      var restart := RunExit(original);
      var status := if restartCode != 0 then CommandStatus(restart, restartCode) else bodyStatus;
      Effect(Outcome(s1, restart, restartCode, false), removed + [Issue(restart)], status)
  }

  /** `clone_distro(original, newName)` with `temp` the value of the TEMP
      environment variable and `wasRunning` the answer of
      `is_distro_running(original)`, which lists the distributions
      verbosely. */
  function Clone(s: HostState, original: string, newName: string, temp: Option<string>,
                 wasRunning: bool, o: CloneOracle): Effect
  {
    if temp.None? then Effect(s, [], Raised(TempUnset))
    else
      var e := CloneChecked(s, original, newName, TempArchive(temp.value, original), wasRunning, o);
      Effect(e.state, [Issue(ListVerbose)] + e.actions, e.status)
  }

  /** The rest of `clone_distro` once the source's state is known: stop it
      if it was running (a failure here escapes before the `try`), then the
      `try` block and the `finally` block. */
  function CloneChecked(s: HostState, original: string, newName: string, archive: string,
                        wasRunning: bool, o: CloneOracle): Effect
  {
    var terminate := Terminate(original);
    if wasRunning && o.terminateCode != 0 then
      Effect(s, [Issue(terminate)], CommandStatus(terminate, o.terminateCode))
    else
      var s1 := if wasRunning then Apply(s, terminate) else s;
      var body := CloneBody(s1, original, newName, archive, o);
      var fin := Finally(body.state, body.status, original, archive, wasRunning, o.restartCode);
      Effect(fin.state, (if wasRunning then [Issue(terminate)] else []) + body.actions + fin.actions, fin.status)
  }

  // ---------------------------------------------------------------------
  // The host

  class Host {
    var registered: set<string>
    var running: set<string>
    var files: set<string>
    var dirs: set<string>
    /** Everything done to the host so far. */
    var trace: seq<Action>

    function State(): HostState
      reads this
    {
      HostState(registered, running, files, dirs)
    }

    constructor(s: HostState)
      ensures State() == s && trace == []
    {
      registered, running, files, dirs := s.registered, s.running, s.files, s.dirs;
      trace := [];
    }

    method SetState(s: HostState)
      modifies this
      ensures State() == s && trace == old(trace)
    {
      registered, running, files, dirs := s.registered, s.running, s.files, s.dirs;
    }

    /** `subprocess.run(cmd, check=True)` */
    method Execute(cmd: Command, exitCode: int, leftPartial: bool) returns (status: Status)
      modifies this
      ensures State() == Outcome(old(State()), cmd, exitCode, leftPartial)
      ensures trace == old(trace) + [Issue(cmd)]
      ensures status == CommandStatus(cmd, exitCode)
    {
      SetState(Outcome(State(), cmd, exitCode, leftPartial));
      trace := trace + [Issue(cmd)];
      status := CommandStatus(cmd, exitCode);
    }

    /** `os.makedirs(path, exist_ok=True)`; `ok` says whether the host lets
        it succeed. */
    method MakeDirectories(path: string, ok: bool) returns (status: Status)
      modifies this
      ensures ok ==> State() == old(State()).(dirs := old(dirs) + {path}) && status == Ok
      ensures !ok ==> State() == old(State()) && status == Raised(MakeDirsFailed(path))
      ensures trace == old(trace) + [MakeDirs(path)]
    {
      trace := trace + [MakeDirs(path)];
      if ok {
        dirs := dirs + {path};
        status := Ok;
      } else {
        status := Raised(MakeDirsFailed(path));
      }
    }

    /** `if os.path.exists(path): os.remove(path)` */
    method RemoveIfExists(path: string)
      modifies this
      ensures State() == old(State()).(files := old(files) - {path})
      ensures trace == old(trace) + (if path in old(files) then [RemoveFile(path)] else [])
    {
      if path in files {
        files := files - {path};
        trace := trace + [RemoveFile(path)];
      }
    }

    /** `is_distro_running(name)`: list verbosely (the exit code is not
        checked) and look the name up in the listing the host printed. */
    method IsDistroRunning(name: string, listing: string) returns (isRunning: bool)
      modifies this
      ensures isRunning == DistroState.IsRunningIn(listing, name)
      ensures State() == old(State()) && trace == old(trace) + [Issue(ListVerbose)]
    {
      trace := trace + [Issue(ListVerbose)];
      isRunning := DistroState.IsDistroRunning(listing, name);
    }

    /** `export_distro(name, path)` */
    method ExportDistro(name: string, path: string, exitCode: int, leftPartial: bool) returns (status: Status)
      modifies this
      ensures State() == Outcome(old(State()), Export(name, path), exitCode, leftPartial)
      ensures trace == old(trace) + [Issue(Export(name, path))]
      ensures status == CommandStatus(Export(name, path), exitCode)
    {
      status := Execute(Export(name, path), exitCode, leftPartial);
    }

    /** `import_distro(name, location, path)` */
    method ImportDistro(name: string, location: string, path: string, exitCode: int, leftPartial: bool)
      returns (status: Status)
      modifies this
      ensures State() == Outcome(old(State()), Import(name, location, path), exitCode, leftPartial)
      ensures trace == old(trace) + [Issue(Import(name, location, path))]
      ensures status == CommandStatus(Import(name, location, path), exitCode)
    {
      status := Execute(Import(name, location, path), exitCode, leftPartial);
    }

    /** `delete_distro(name)` */
    method DeleteDistro(name: string, exitCode: int) returns (status: Status)
      modifies this
      ensures State() == Outcome(old(State()), Unregister(name), exitCode, false)
      ensures trace == old(trace) + [Issue(Unregister(name))]
      ensures status == CommandStatus(Unregister(name), exitCode)
    {
      status := Execute(Unregister(name), exitCode, false);
    }

    /** `clone_distro(original, newName)`, step by step; `reported` names
        what `is_distro_running` answers on the host's listing (it is never
        asked when TEMP is unset). */
    method CloneDistro(original: string, newName: string, temp: Option<string>, listing: string,
                       o: CloneOracle)
      returns (status: Status, ghost reported: bool)
      modifies this
      ensures temp.Some? ==> reported == DistroState.IsRunningIn(listing, original)
      ensures var e := Clone(old(State()), original, newName, temp, reported, o);
              State() == e.state && trace == old(trace) + e.actions && status == e.status
    {
      if temp.None? {
        return Raised(TempUnset), false;
      }
      status, reported := CloneWithTemp(original, newName, temp.value, listing, o);
    }

    /** `clone_distro` once the archive path is known. */
    method CloneWithTemp(original: string, newName: string, tempDir: string, listing: string,
                         o: CloneOracle)
      returns (status: Status, ghost reported: bool)
      modifies this
      ensures reported == DistroState.IsRunningIn(listing, original)
      ensures var e := CloneChecked(old(State()), original, newName, TempArchive(tempDir, original), reported, o);
              State() == e.state && trace == old(trace) + ([Issue(ListVerbose)] + e.actions) && status == e.status
    {
      var wasRunning := IsDistroRunning(original, listing);
      reported := wasRunning;
      status := CopyChecked(original, newName, TempArchive(tempDir, original), wasRunning, o);
      AppendAssoc(old(trace), [Issue(ListVerbose)],
                  CloneChecked(old(State()), original, newName, TempArchive(tempDir, original), reported, o).actions);
    }

    /** `clone_distro` after `is_distro_running`. */
    method CopyChecked(original: string, newName: string, archive: string, wasRunning: bool,
                       o: CloneOracle)
      returns (status: Status)
      modifies this
      ensures var e := CloneChecked(old(State()), original, newName, archive, wasRunning, o);
              State() == e.state && trace == old(trace) + e.actions && status == e.status
    {
      if wasRunning {
        var stopped := Execute(Terminate(original), o.terminateCode, false);
        if stopped.Raised? {
          return stopped;
        }
      }
      ghost var stop := if wasRunning then [Issue(Terminate(original))] else [];
      ghost var s1, t1 := State(), trace;
      var bodyStatus := TryBlock(original, newName, archive, o);
      ghost var body := CloneBody(s1, original, newName, archive, o);
      ghost var t2 := trace;
      status := FinallyBlock(bodyStatus, original, archive, wasRunning, o.restartCode);
      ghost var fin := Finally(body.state, body.status, original, archive, wasRunning, o.restartCode);
      assert t1 == old(trace) + stop && t2 == t1 + body.actions && trace == t2 + fin.actions;
      assert trace == old(trace) + (stop + body.actions + fin.actions);
    }

    /** The `try` block of `clone_distro`. */
    method TryBlock(original: string, newName: string, archive: string, o: CloneOracle)
      returns (status: Status)
      modifies this
      ensures var e := CloneBody(old(State()), original, newName, archive, o);
              State() == e.state && trace == old(trace) + e.actions && status == e.status
    {
      status := Execute(Export(original, archive), o.exportCode, o.exportLeftPartial);
      if status.Ok? {
        var location := InstallLocation(newName);
        status := MakeDirectories(location, o.mkdirOk);
        if status.Ok? {
          status := Execute(Import(newName, location, archive), o.importCode, o.importLeftPartial);
        }
      }
    }

    /** The `finally` block of `clone_distro`. */
    method FinallyBlock(bodyStatus: Status, original: string, archive: string, wasRunning: bool,
                        restartCode: int)
      returns (status: Status)
      modifies this
      ensures var e := Finally(old(State()), bodyStatus, original, archive, wasRunning, restartCode);
              State() == e.state && trace == old(trace) + e.actions && status == e.status
    {
      RemoveIfExists(archive);
      status := bodyStatus;
      if wasRunning {
        var restarted := Execute(RunExit(original), restartCode, false);
        if restarted.Raised? {
          status := restarted;
        }
      }
    }
  }

  lemma AppendAssoc<T>(a: seq<T>, b: seq<T>, c: seq<T>)
    ensures a + b + c == a + (b + c)
  {
  }

  // ---------------------------------------------------------------------
  // Properties of one command

  /** A command that fails raises with its exit code. It leaves the host as
      it was, unless it is an export or an import that left something
      behind: the partial archive, or the partly created distribution. */
  lemma {:induction false} FailedCommandOutcome(s: HostState, cmd: Command, exitCode: int, leftPartial: bool)
    requires exitCode != 0
    ensures !(leftPartial && (cmd.Export? || cmd.Import?)) ==> Outcome(s, cmd, exitCode, leftPartial) == s
    ensures leftPartial && cmd.Export? ==>
              Outcome(s, cmd, exitCode, leftPartial) == s.(files := s.files + {cmd.archive})
    ensures leftPartial && cmd.Import? ==>
              Outcome(s, cmd, exitCode, leftPartial) == s.(registered := s.registered + {cmd.name})
    ensures CommandStatus(cmd, exitCode) == Raised(CommandFailed(cmd, exitCode))
  {
  }

  /** Deleting a freshly imported distribution gives back the registrations
      there were before the import. */
  lemma {:induction false} DeleteUndoesImport(s: HostState, name: string, location: string, archive: string)
    requires name !in s.registered
    ensures Apply(Apply(s, Import(name, location, archive)), Unregister(name)).registered == s.registered
  {
    assert s.registered + {name} - {name} == s.registered;
  }

  /** A successful delete leaves the distribution neither registered nor
      running. */
  lemma {:induction false} DeleteRemoves(s: HostState, name: string, exitCode: int)
    ensures exitCode == 0 <==> CommandStatus(Unregister(name), exitCode).Ok?
    ensures exitCode == 0 ==>
              name !in Outcome(s, Unregister(name), exitCode, false).registered &&
              name !in Outcome(s, Unregister(name), exitCode, false).running
  {
  }

  // ---------------------------------------------------------------------
  // Properties of clone

  /** The actions of a clone that reaches the export: the listing, the
      terminate when the source was running, the `try` block's, then the
      `finally` block's. */
  lemma {:induction false} CloneSplits(s: HostState, original: string, newName: string,
                                       temp: Option<string>, wasRunning: bool, o: CloneOracle)
    requires ReachesExport(temp, wasRunning, o)
    ensures var archive := TempArchive(temp.value, original);
            var s1 := if wasRunning then Apply(s, Terminate(original)) else s;
            var body := CloneBody(s1, original, newName, archive, o);
            var fin := Finally(body.state, body.status, original, archive, wasRunning, o.restartCode);
            Clone(s, original, newName, temp, wasRunning, o).actions ==
              [Issue(ListVerbose)] + (if wasRunning then [Issue(Terminate(original))] else []) +
              body.actions + fin.actions
  {
    var archive := TempArchive(temp.value, original);
    var s1 := if wasRunning then Apply(s, Terminate(original)) else s;
    var body := CloneBody(s1, original, newName, archive, o);
    var fin := Finally(body.state, body.status, original, archive, wasRunning, o.restartCode);
    var stop := if wasRunning then [Issue(Terminate(original))] else [];
    assert CloneChecked(s, original, newName, archive, wasRunning, o).actions == stop + body.actions + fin.actions;
    AppendAssoc([Issue(ListVerbose)], stop + body.actions, fin.actions);
    AppendAssoc([Issue(ListVerbose)], stop, body.actions);
  }

  /** The `try` block starts with the export, issues nothing but the
      export, the directory creation and the import, and issues the import
      only as its third action, after a successful export and mkdir. */
  lemma {:induction false} BodyActions(s: HostState, original: string, newName: string, archive: string,
                                       o: CloneOracle)
    ensures var acts := CloneBody(s, original, newName, archive, o).actions;
            1 <= |acts| <= 3 && acts[0] == Issue(Export(original, archive)) &&
            (|acts| >= 2 ==> acts[1] == MakeDirs(InstallLocation(newName)) && o.exportCode == 0) &&
            (|acts| == 3 <==> o.exportCode == 0 && o.mkdirOk) &&
            (|acts| == 3 ==> acts[2] == Issue(Import(newName, InstallLocation(newName), archive)))
  {
  }

  /** The `finally` block removes the archive and restarts the source; the
      restart is issued exactly when the source was running, last. */
  lemma {:induction false} FinallyActions(s: HostState, bodyStatus: Status, original: string, archive: string,
                                          wasRunning: bool, restartCode: int)
    ensures var acts := Finally(s, bodyStatus, original, archive, wasRunning, restartCode).actions;
            (forall i :: 0 <= i < |acts| ==> acts[i] == RemoveFile(archive) || acts[i] == Issue(RunExit(original))) &&
            (wasRunning <==> |acts| > 0 && acts[|acts| - 1] == Issue(RunExit(original)))
  {
  }

  /** Without TEMP, clone raises before touching anything. */
  lemma {:induction false} CloneTempUnset(s: HostState, original: string, newName: string, wasRunning: bool, o: CloneOracle)
    ensures Clone(s, original, newName, None, wasRunning, o) == Effect(s, [], Raised(TempUnset))
  {
  }

  /** The state check comes first; `--terminate` is issued exactly when the
      source was reported running, as the second action, and the export
      comes right after it (or right after the listing when nothing was
      terminated). */
  lemma {:induction false} CloneTerminatesIffRunning(s: HostState, original: string, newName: string,
                                                     temp: Option<string>, wasRunning: bool, o: CloneOracle)
    requires temp.Some?
    ensures var acts := Clone(s, original, newName, temp, wasRunning, o).actions;
            |acts| >= 2 && acts[0] == Issue(ListVerbose) &&
            (acts[1] == Issue(Terminate(original)) <==> wasRunning)
    ensures var acts := Clone(s, original, newName, temp, wasRunning, o).actions;
            Issue(Terminate(original)) in acts <==> wasRunning
  {
    var archive := TempArchive(temp.value, original);
    var stop := Issue(Terminate(original));
    if wasRunning && o.terminateCode != 0 {
      CloneTerminateFailure(s, original, newName, temp, wasRunning, o);
    } else {
      var s1 := if wasRunning then Apply(s, Terminate(original)) else s;
      var body := CloneBody(s1, original, newName, archive, o);
      var fin := Finally(body.state, body.status, original, archive, wasRunning, o.restartCode);
      CloneSplits(s, original, newName, temp, wasRunning, o);
      BodyActions(s1, original, newName, archive, o);
      FinallyActions(body.state, body.status, original, archive, wasRunning, o.restartCode);
      assert stop !in body.actions && stop !in fin.actions;
      var before := [Issue(ListVerbose)] + (if wasRunning then [stop] else []);
      OnlyBeforeTryBlock(before, body.actions, fin.actions, stop);
    }
  }

  /** An action that is neither in the `try` block nor in the `finally`
      block is in the whole run exactly when it is among the actions before
      them, which open the run; the `try` block's first action follows. */
  lemma OnlyBeforeTryBlock(before: seq<Action>, body: seq<Action>, fin: seq<Action>, a: Action)
    requires a !in body && a !in fin
    ensures a in before + body + fin <==> a in before
    ensures forall i :: 0 <= i < |before| ==> (before + body + fin)[i] == before[i]
    ensures body != [] ==> (before + body + fin)[|before|] == body[0]
  {
  }

  /** The export is issued at most once, right after the state check and,
      when the source was running, the `--terminate`. */
  lemma {:induction false} CloneExportsAfterTerminate(s: HostState, original: string, newName: string,
                                                      temp: Option<string>, wasRunning: bool, o: CloneOracle)
    requires temp.Some?
    ensures var acts := Clone(s, original, newName, temp, wasRunning, o).actions;
            forall i :: 0 <= i < |acts| && acts[i].Issue? && acts[i].cmd.Export? ==>
              i == (if wasRunning then 2 else 1)
  {
    var archive := TempArchive(temp.value, original);
    if !(wasRunning && o.terminateCode != 0) {
      var s1 := if wasRunning then Apply(s, Terminate(original)) else s;
      CloneSplits(s, original, newName, temp, wasRunning, o);
      BodyActions(s1, original, newName, archive, o);
      var body := CloneBody(s1, original, newName, archive, o);
      FinallyActions(body.state, body.status, original, archive, wasRunning, o.restartCode);
      var before := [Issue(ListVerbose)] + (if wasRunning then [Issue(Terminate(original))] else []);
      ExportOnlyFirstInTryBlock(before, body.actions,
                                Finally(body.state, body.status, original, archive, wasRunning, o.restartCode).actions);
    }
  }

  predicate IsExport(a: Action)
  {
    a.Issue? && a.cmd.Export?
  }

  /** With no export before or after the `try` block and the export only
      first in it, the export is issued right after the actions before the
      block. */
  lemma {:induction false} ExportOnlyFirstInTryBlock(before: seq<Action>, body: seq<Action>, fin: seq<Action>)
    requires forall i :: 0 <= i < |before| ==> !IsExport(before[i])
    requires forall i :: 0 <= i < |fin| ==> !IsExport(fin[i])
    requires forall i :: 1 <= i < |body| ==> !IsExport(body[i])
    ensures var acts := before + body + fin;
            forall i :: 0 <= i < |acts| && IsExport(acts[i]) ==> i == |before|
  {
    var acts := before + body + fin;
    assert forall i :: 0 <= i < |before| ==> acts[i] == before[i];
    assert forall i :: 0 <= i < |body| ==> acts[|before| + i] == body[i];
    assert forall i :: 0 <= i < |fin| ==> acts[|before| + |body| + i] == fin[i];
  }

  /** A failing `--terminate` raises straight away: no export, no removal
      of the archive, no restart, and the host is as it was. */
  lemma {:induction false} CloneTerminateFailure(s: HostState, original: string, newName: string,
                                                 temp: Option<string>, wasRunning: bool, o: CloneOracle)
    requires temp.Some? && wasRunning && o.terminateCode != 0
    ensures Clone(s, original, newName, temp, wasRunning, o) ==
            Effect(s, [Issue(ListVerbose), Issue(Terminate(original))],
                   Raised(CommandFailed(Terminate(original), o.terminateCode)))
  {
  }

  /** `--import` of the new name, at its install location, from the
      archive, is issued only right after a successful export and a
      successful `os.makedirs`, and is issued whenever those succeed. */
  lemma {:induction false} CloneImportsAfterExportAndMkdir(s: HostState, original: string, newName: string,
                                                           temp: Option<string>, wasRunning: bool, o: CloneOracle)
    requires temp.Some?
    ensures var acts := Clone(s, original, newName, temp, wasRunning, o).actions;
            var archive := TempArchive(temp.value, original);
            forall i :: 0 <= i < |acts| && acts[i].Issue? && acts[i].cmd.Import? ==>
              ReachesExport(temp, wasRunning, o) && o.exportCode == 0 && o.mkdirOk &&
              acts[i] == Issue(Import(newName, InstallLocation(newName), archive)) &&
              i >= 2 && acts[i - 2] == Issue(Export(original, archive)) &&
              acts[i - 1] == MakeDirs(InstallLocation(newName))
    ensures var acts := Clone(s, original, newName, temp, wasRunning, o).actions;
            var archive := TempArchive(temp.value, original);
            Issue(Import(newName, InstallLocation(newName), archive)) in acts <==>
              ReachesExport(temp, wasRunning, o) && o.exportCode == 0 && o.mkdirOk
  {
    var archive := TempArchive(temp.value, original);
    var acts := Clone(s, original, newName, temp, wasRunning, o).actions;
    var exportAction := Issue(Export(original, archive));
    var mkdirAction := MakeDirs(InstallLocation(newName));
    var importAction := Issue(Import(newName, InstallLocation(newName), archive));
    var reached := ReachesExport(temp, wasRunning, o);
    var imported := o.exportCode == 0 && o.mkdirOk;
    if reached {
      ImportsOnceReached(s, original, newName, temp, wasRunning, o);
    } else {
      assert acts == [Issue(ListVerbose), Issue(Terminate(original))] by {
        CloneTerminateFailure(s, original, newName, temp, wasRunning, o);
      }
    }
    ImportPlacement(acts, exportAction, mkdirAction, importAction, reached, imported);
  }

  /** Once the `try` block is reached, an import sits right after the
      export and the mkdir, and is issued exactly when both succeed. */
  lemma {:induction false} ImportsOnceReached(s: HostState, original: string, newName: string,
                                              temp: Option<string>, wasRunning: bool, o: CloneOracle)
    requires ReachesExport(temp, wasRunning, o)
    ensures var acts := Clone(s, original, newName, temp, wasRunning, o).actions;
            var archive := TempArchive(temp.value, original);
            forall i :: 0 <= i < |acts| && IsImport(acts[i]) ==>
              o.exportCode == 0 && o.mkdirOk &&
              acts[i] == Issue(Import(newName, InstallLocation(newName), archive)) && i >= 2 &&
              acts[i - 2] == Issue(Export(original, archive)) && acts[i - 1] == MakeDirs(InstallLocation(newName))
    ensures var archive := TempArchive(temp.value, original);
            Issue(Import(newName, InstallLocation(newName), archive)) in Clone(s, original, newName, temp, wasRunning, o).actions <==>
              o.exportCode == 0 && o.mkdirOk
  {
    var archive := TempArchive(temp.value, original);
    var s1 := if wasRunning then Apply(s, Terminate(original)) else s;
    var body := CloneBody(s1, original, newName, archive, o);
    var fin := Finally(body.state, body.status, original, archive, wasRunning, o.restartCode);
    CloneSplits(s, original, newName, temp, wasRunning, o);
    BodyActions(s1, original, newName, archive, o);
    FinallyActions(body.state, body.status, original, archive, wasRunning, o.restartCode);
    var before := [Issue(ListVerbose)] + (if wasRunning then [Issue(Terminate(original))] else []);
    ImportOnlyInTryBlock(before, body.actions, fin.actions, Issue(Export(original, archive)),
                         MakeDirs(InstallLocation(newName)), Issue(Import(newName, InstallLocation(newName), archive)));
  }

  /** The import facts about a run of actions, given whether the `try`
      block was reached and whether it got as far as the import. */
  lemma ImportPlacement(acts: seq<Action>, exportAction: Action, mkdirAction: Action, importAction: Action,
                        reached: bool, imported: bool)
    requires !reached ==> forall i :: 0 <= i < |acts| ==> !IsImport(acts[i])
    requires reached ==> forall i :: 0 <= i < |acts| && IsImport(acts[i]) ==>
               imported && acts[i] == importAction && i >= 2 &&
               acts[i - 2] == exportAction && acts[i - 1] == mkdirAction
    requires reached ==> (importAction in acts <==> imported)
    requires IsImport(importAction)
    ensures forall i :: 0 <= i < |acts| && IsImport(acts[i]) ==>
              reached && imported && acts[i] == importAction && i >= 2 &&
              acts[i - 2] == exportAction && acts[i - 1] == mkdirAction
    ensures importAction in acts <==> reached && imported
  {
  }

  predicate IsImport(a: Action)
  {
    a.Issue? && a.cmd.Import?
  }

  /** Where an import can sit among the actions of the checks before the
      `try` block, the `try` block and the `finally` block, when only the
      `try` block imports and does so as its third action. */
  lemma {:induction false} ImportOnlyInTryBlock(before: seq<Action>, body: seq<Action>, fin: seq<Action>,
                                                exportAction: Action, mkdirAction: Action, importAction: Action)
    requires forall i :: 0 <= i < |before| ==> !IsImport(before[i])
    requires forall i :: 0 <= i < |fin| ==> !IsImport(fin[i])
    requires !IsImport(exportAction) && !IsImport(mkdirAction) && IsImport(importAction)
    requires 1 <= |body| <= 3 && body[0] == exportAction
    requires |body| >= 2 ==> body[1] == mkdirAction
    requires |body| == 3 ==> body[2] == importAction
    ensures var acts := before + body + fin;
            forall i :: 0 <= i < |acts| && IsImport(acts[i]) ==>
              |body| == 3 && i == |before| + 2 && acts[i] == importAction &&
              acts[i - 2] == exportAction && acts[i - 1] == mkdirAction
    ensures importAction in before + body + fin <==> |body| == 3
  {
    var acts := before + body + fin;
    assert forall i :: 0 <= i < |before| ==> acts[i] == before[i];
    assert forall i :: 0 <= i < |body| ==> acts[|before| + i] == body[i];
    assert forall i :: 0 <= i < |fin| ==> acts[|before| + |body| + i] == fin[i];
    if |body| == 3 {
      assert acts[|before| + 2] == importAction;
    }
  }

  /** Once the export step is reached, no file is left at the archive path,
      whether the `try` block succeeded or not, and whether or not a file
      was there before the clone began. */
  lemma {:induction false} CloneRemovesArchive(s: HostState, original: string, newName: string,
                                               temp: Option<string>, wasRunning: bool, o: CloneOracle)
    requires ReachesExport(temp, wasRunning, o)
    ensures TempArchive(temp.value, original) !in Clone(s, original, newName, temp, wasRunning, o).state.files
    ensures Clone(s, original, newName, temp, wasRunning, o).state.files == s.files - {TempArchive(temp.value, original)}
  {
  }

  /** Once the export step is reached, the restart `-d original -e exit` is
      issued exactly when the source was running, as the last action. */
  lemma {:induction false} CloneRestartsIffRunning(s: HostState, original: string, newName: string,
                                                   temp: Option<string>, wasRunning: bool, o: CloneOracle)
    requires ReachesExport(temp, wasRunning, o)
    ensures var acts := Clone(s, original, newName, temp, wasRunning, o).actions;
            Issue(RunExit(original)) in acts <==> wasRunning
    ensures var acts := Clone(s, original, newName, temp, wasRunning, o).actions;
            wasRunning ==> acts[|acts| - 1] == Issue(RunExit(original))
  {
    var archive := TempArchive(temp.value, original);
    var s1 := if wasRunning then Apply(s, Terminate(original)) else s;
    var body := CloneBody(s1, original, newName, archive, o);
    var fin := Finally(body.state, body.status, original, archive, wasRunning, o.restartCode);
    CloneSplits(s, original, newName, temp, wasRunning, o);
    BodyActions(s1, original, newName, archive, o);
    FinallyActions(body.state, body.status, original, archive, wasRunning, o.restartCode);
    var restart := Issue(RunExit(original));
    assert restart in fin.actions <==> wasRunning;
    var before := [Issue(ListVerbose)] + (if wasRunning then [Issue(Terminate(original))] else []);
    OnlyInFinally(before, body.actions, fin.actions, restart);
  }

  /** A successful restart leaves the source running again. */
  lemma {:induction false} CloneRestartsSource(s: HostState, original: string, newName: string,
                                               temp: Option<string>, wasRunning: bool, o: CloneOracle)
    requires ReachesExport(temp, wasRunning, o)
    ensures wasRunning && o.restartCode == 0 ==>
              original in Clone(s, original, newName, temp, wasRunning, o).state.running
  {
  }

  /** An action that is neither before nor in the `try` block is in the
      whole run exactly when the `finally` block takes it, and the run ends
      as the `finally` block does. */
  lemma OnlyInFinally(before: seq<Action>, body: seq<Action>, fin: seq<Action>, a: Action)
    requires a !in before && a !in body
    ensures a in before + body + fin <==> a in fin
    ensures fin != [] ==> (before + body + fin)[|before| + |body| + |fin| - 1] == fin[|fin| - 1]
  {
  }

  /** A failure in the `try` block is raised again once the clean-up is
      done, unless the restart in the clean-up fails, whose failure is
      raised instead. */
  lemma {:induction false} CloneReraises(s: HostState, original: string, newName: string,
                                         temp: Option<string>, wasRunning: bool, o: CloneOracle)
    requires ReachesExport(temp, wasRunning, o)
    ensures var status := Clone(s, original, newName, temp, wasRunning, o).status;
            var archive := TempArchive(temp.value, original);
            var location := InstallLocation(newName);
            if wasRunning && o.restartCode != 0 then
              status == Raised(CommandFailed(RunExit(original), o.restartCode))
            else if o.exportCode != 0 then
              status == Raised(CommandFailed(Export(original, archive), o.exportCode))
            else if !o.mkdirOk then
              status == Raised(MakeDirsFailed(location))
            else if o.importCode != 0 then
              status == Raised(CommandFailed(Import(newName, location, archive), o.importCode))
            else
              status == Ok
  {
  }

  /** A failed import is not rolled back: the clone raises, the install
      directory stays, and the new distribution is registered afterwards
      exactly when it was before or the failed import left it partly
      created. */
  lemma {:induction false} CloneKeepsFailedImport(s: HostState, original: string, newName: string,
                                                  temp: Option<string>, wasRunning: bool, o: CloneOracle)
    requires ReachesExport(temp, wasRunning, o)
    requires o.exportCode == 0 && o.mkdirOk && o.importCode != 0
    ensures var e := Clone(s, original, newName, temp, wasRunning, o);
            e.status.Raised? && InstallLocation(newName) in e.state.dirs &&
            (newName in e.state.registered <==> newName in s.registered || o.importLeftPartial)
  {
    CloneReraises(s, original, newName, temp, wasRunning, o);
  }

  /** A clone succeeds exactly when TEMP is set and every step succeeds;
      the new distribution is then registered in its install directory,
      no archive is left, and a source that was running runs again. */
  lemma {:induction false} CloneSucceeds(s: HostState, original: string, newName: string,
                                         temp: Option<string>, wasRunning: bool, o: CloneOracle)
    ensures Clone(s, original, newName, temp, wasRunning, o).status == Ok <==>
              temp.Some? && o.exportCode == 0 && o.mkdirOk && o.importCode == 0 &&
              (wasRunning ==> o.terminateCode == 0 && o.restartCode == 0)
    ensures var e := Clone(s, original, newName, temp, wasRunning, o);
            e.status == Ok ==>
              newName in e.state.registered &&
              InstallLocation(newName) in e.state.dirs &&
              TempArchive(temp.value, original) !in e.state.files &&
              (wasRunning ==> original in e.state.running)
  {
    if temp.Some? && ReachesExport(temp, wasRunning, o) {
      CloneReraises(s, original, newName, temp, wasRunning, o);
      CloneRemovesArchive(s, original, newName, temp, wasRunning, o);
    }
  }

  /** A clone touches nothing but the new registration, the source's
      running state, the archive and the install directory. */
  lemma {:induction false} CloneFrame(s: HostState, original: string, newName: string,
                                      temp: Option<string>, wasRunning: bool, o: CloneOracle)
    requires temp.Some?
    ensures var e := Clone(s, original, newName, temp, wasRunning, o);
            e.state.registered - {newName} == s.registered - {newName} &&
            e.state.running - {original} == s.running - {original} &&
            e.state.files - {TempArchive(temp.value, original)} == s.files - {TempArchive(temp.value, original)} &&
            e.state.dirs - {InstallLocation(newName)} == s.dirs - {InstallLocation(newName)}
  {
    if wasRunning && o.terminateCode != 0 {
      CloneTerminateFailure(s, original, newName, temp, wasRunning, o);
    } else {
      var archive := TempArchive(temp.value, original);
      var s1 := if wasRunning then Apply(s, Terminate(original)) else s;
      var body := CloneBody(s1, original, newName, archive, o);
      var fin := Finally(body.state, body.status, original, archive, wasRunning, o.restartCode);
      assert Clone(s, original, newName, temp, wasRunning, o).state == fin.state;
      assert s1.registered == s.registered && s1.files == s.files && s1.dirs == s.dirs &&
             s1.running - {original} == s.running - {original};
      BodyFrame(s1, original, newName, archive, o);
      FinallyFrame(body.state, body.status, original, archive, wasRunning, o.restartCode);
    }
  }

  /** The `try` block touches only the new name's registration, the
      archive and the install directory. */
  lemma {:induction false} BodyFrame(s: HostState, original: string, newName: string, archive: string,
                                     o: CloneOracle)
    ensures var t := CloneBody(s, original, newName, archive, o).state;
            t.running == s.running &&
            t.registered - {newName} == s.registered - {newName} &&
            t.files - {archive} == s.files - {archive} &&
            t.dirs - {InstallLocation(newName)} == s.dirs - {InstallLocation(newName)}
  {
  }

  /** The `finally` block removes the archive and may start the source, and
      touches nothing else. */
  lemma {:induction false} FinallyFrame(s: HostState, bodyStatus: Status, original: string, archive: string,
                                        wasRunning: bool, restartCode: int)
    ensures var t := Finally(s, bodyStatus, original, archive, wasRunning, restartCode).state;
            t.registered == s.registered && t.dirs == s.dirs && t.files == s.files - {archive} &&
            t.running - {original} == s.running - {original}
  {
  }
}
