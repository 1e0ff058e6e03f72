/**
 The command-line driver of htmlpack: `main` decides whether the path
 names a file, a directory or nothing, and the files it then hands to
 `process_file` are processed one after the other against a file system.
 The file system is a map from paths to contents; what `os.path.isfile`,
 `os.path.isdir` and `os.walk` report about the path comes in as a
 `PathKind`.
 */
module HtmlPack {
  import opened Wrappers
  import opened Comments
  import opened Remover
  import opened Paths

  /** What the file system says about the command-line path: a regular
      file, a directory together with the files its walk yields, or
      neither. `os.path.isfile` is asked first. */
  datatype PathKind = RegularFile | Directory(walk: seq<WalkEntry>) | Missing

  /** Why a run stops: the path is neither file nor directory (the message
      `main` exits with), or a file to process cannot be opened. */
  datatype RunError = InvalidPath(message: Text) | CannotOpen(path: Text)

  /** File contents by path. */
  type FileSystem = map<Text, Text>

  /** Where a run ends: the file system as left behind, every report
      printed so far in order, and the error that stopped the run, if any.
      Files rewritten before an error keep their new content. */
  datatype RunState = RunState(fs: FileSystem, reports: seq<Report>, error: Option<RunError>)

  /** The message `main` exits with when the path is neither a file nor a
      directory. */
  function InvalidMessage(path: Text): (m: Text)
    ensures |m| > |path|
    ensures m[..|path|] == path
    ensures m[|path|..] == " is not a valid file or folder."
  {
    path + " is not a valid file or folder."
  }

  /** The files `main` hands to `process_file`: a regular file is processed
      whatever its name, a directory contributes the walked files that pass
      the extension filter, and anything else is an error. */
  function Targets(path: Text, kind: PathKind): (r: Result<seq<Text>, RunError>)
    ensures r.Failure? <==> kind.Missing?
    ensures r.Failure? ==> r.error == InvalidPath(InvalidMessage(path))
    ensures kind.RegularFile? ==> r == Success([path])
    ensures kind.Directory? ==> r.Success? && forall i :: 0 <= i < |r.value| ==> Selected(r.value[i])
  {
    match kind
    case RegularFile => Success([path])
    case Directory(walk) => Success(FolderFiles(walk))
    case Missing => Failure(InvalidPath(InvalidMessage(path)))
  }

  /** The effect of `process_file` on the file system: the new file system
      and the report printed, if any. */
  datatype Step = Step(fs: FileSystem, report: Option<Report>)

  /** `process_file` on one path of the file system. With stripping off the
      file is never opened; otherwise a path that is not a file fails, and
      a file is read, processed and, unless this is a dry run, written
      back. */
  function ProcessOne(cfg: Config, path: Text, fs: FileSystem): (r: Result<Step, RunError>)
    ensures r.Failure? <==> cfg.stripComments && path !in fs
    ensures r.Failure? ==> r.error == CannotOpen(path)
    ensures r.Success? ==> r.value.fs.Keys == fs.Keys
    ensures r.Success? ==> forall p :: p in fs && p != path ==> r.value.fs[p] == fs[p]
    ensures r.Success? && cfg.stripComments ==>
      r.value.fs[path] == (if cfg.dryRun then fs[path] else Strip(fs[path]))
    ensures r.Success? && !cfg.stripComments ==> r.value == Step(fs, None)
    ensures r.Success? ==> (r.value.report.Some? <==> cfg.stripComments && (cfg.verbose || cfg.dryRun))
    ensures r.Success? && r.value.report.Some? ==>
      r.value.report.value.path == path && r.value.report.value.bodies == FindAll(fs[path])
  {
    if !cfg.stripComments then Success(Step(fs, None))
    else if path !in fs then Failure(CannotOpen(path))
    else
      var o := ProcessFile(cfg, path, fs[path]);
      Success(Step(if o.written.Some? then fs[path := o.written.value] else fs, o.report))
  }

  /** The report of a step as a sequence of zero or one reports. */
  function Reports(r: Option<Report>): seq<Report> {
    match r
    case None => []
    case Some(x) => [x]
  }

  /** `process_file` on each of `files` in turn. The first file that
      cannot be opened stops the run; what was written and printed before
      it stays. */
  function ProcessAll(cfg: Config, files: seq<Text>, fs: FileSystem): (st: RunState)
    ensures st.fs.Keys == fs.Keys
    ensures forall p :: p in fs && p !in files ==> st.fs[p] == fs[p]
    ensures |st.reports| <= |files|
    ensures st.error.Some? ==> cfg.stripComments && st.error.value.CannotOpen?
    ensures st.error.Some? ==> st.error.value.path in files && st.error.value.path !in fs
    decreases |files|
  {
    if |files| == 0 then RunState(fs, [], None)
    else
      match ProcessOne(cfg, files[0], fs)
      case Failure(e) => RunState(fs, [], Some(e))
      case Success(step) =>
        var rest := ProcessAll(cfg, files[1..], step.fs);
        RunState(rest.fs, Reports(step.report) + rest.reports, rest.error)
  }

  /** `main` after the arguments are parsed. */
  function Run(cfg: Config, path: Text, kind: PathKind, fs: FileSystem): (st: RunState)
    ensures kind.Missing? ==> st == RunState(fs, [], Some(InvalidPath(InvalidMessage(path))))
    ensures st.fs.Keys == fs.Keys
    ensures st.error.Some? && st.error.value.CannotOpen? ==> cfg.stripComments && st.error.value.path !in fs
  {
    match Targets(path, kind)
    case Failure(e) => RunState(fs, [], Some(e))
    case Success(files) => ProcessAll(cfg, files, fs)
  }

  /** The process's exit status: `sys.exit` with a message, like an
      uncaught exception, ends the process with status 1. */
  function ExitStatus(st: RunState): (code: int)
    ensures code == 0 <==> st.error.None?
    ensures code == 0 || code == 1
  {
    if st.error.None? then 0 else 1
  }
}
