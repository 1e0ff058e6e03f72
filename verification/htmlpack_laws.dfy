/**
 What a whole htmlpack run does to the file system and what it prints:
 dry runs and runs without `--strip-comments` leave every file as it was,
 a run fails exactly when a file it must open is not there, every
 processed file ends up with its comments removed, and the reports list
 the processed files in order with their comments.
 */
module DriverLaws {
  import opened Wrappers
  import opened Comments
  import opened Remover
  import opened Paths
  import opened HtmlPack

  /** Every one of `files` is a file of the file system. */
  predicate AllPresent(files: seq<Text>, fs: FileSystem) {
    forall i :: 0 <= i < |files| ==> files[i] in fs
  }

  /** A dry run writes nothing back. */
  lemma {:induction false} DryRunLeavesFiles(cfg: Config, files: seq<Text>, fs: FileSystem)
    requires cfg.dryRun
    ensures ProcessAll(cfg, files, fs).fs == fs
    decreases |files|
  {
    if |files| > 0 {
      var r := ProcessOne(cfg, files[0], fs);
      if r.Success? {
        assert r.value.fs == fs;
        DryRunLeavesFiles(cfg, files[1..], fs);
      }
    }
  }

  /** Without `--strip-comments` no file is opened: nothing is written,
      nothing is printed and nothing can fail, whatever the files are. */
  lemma {:induction false} NoStripNoEffect(cfg: Config, files: seq<Text>, fs: FileSystem)
    requires !cfg.stripComments
    ensures ProcessAll(cfg, files, fs) == RunState(fs, [], None)
    decreases |files|
  {
    if |files| > 0 {
      NoStripNoEffect(cfg, files[1..], fs);
    }
  }

  /** The run over the files fails exactly when stripping is on and one of
      the files is not in the file system. */
  lemma {:induction false} FailsIffMissing(cfg: Config, files: seq<Text>, fs: FileSystem)
    ensures ProcessAll(cfg, files, fs).error.Some? <==> cfg.stripComments && !AllPresent(files, fs)
    decreases |files|
  {
    if |files| > 0 {
      var r := ProcessOne(cfg, files[0], fs);
      if r.Success? {
        var tail := files[1..];
        FailsIffMissing(cfg, tail, r.value.fs);
        assert AllPresent(files, fs) <==> files[0] in fs && AllPresent(tail, fs) by {
          if files[0] in fs && AllPresent(tail, fs) {
            forall i | 0 <= i < |files| ensures files[i] in fs {
              if i > 0 { assert files[i] == tail[i - 1]; }
            }
          }
        }
        assert AllPresent(tail, r.value.fs) <==> AllPresent(tail, fs);
      }
    }
  }

  /** With stripping on and no dry run, every file of a run over distinct
      files that all exist ends up with its comments removed. */
  lemma {:induction false} StripsEveryFile(cfg: Config, files: seq<Text>, fs: FileSystem)
    requires cfg.stripComments && !cfg.dryRun
    requires Distinct(files) && AllPresent(files, fs)
    ensures ProcessAll(cfg, files, fs).error.None?
    ensures forall i :: 0 <= i < |files| ==> ProcessAll(cfg, files, fs).fs[files[i]] == Strip(fs[files[i]])
    decreases |files|
  {
    if |files| > 0 {
      var tail := files[1..];
      var step := ProcessOne(cfg, files[0], fs).value;
      assert Distinct(tail) by {
        forall i, j | 0 <= i < j < |tail| ensures tail[i] != tail[j] {
          assert tail[i] == files[i + 1] && tail[j] == files[j + 1];
        }
      }
      assert AllPresent(tail, step.fs) by {
        forall i | 0 <= i < |tail| ensures tail[i] in step.fs {
          assert tail[i] == files[i + 1];
        }
      }
      StripsEveryFile(cfg, tail, step.fs);
      var st := ProcessAll(cfg, files, fs);
      assert st.fs == ProcessAll(cfg, tail, step.fs).fs;
      forall i | 0 <= i < |files| ensures st.fs[files[i]] == Strip(fs[files[i]]) {
        if i == 0 {
          assert files[0] !in tail by {
            forall j | 0 <= j < |tail| ensures tail[j] != files[0] {
              assert tail[j] == files[j + 1];
            }
          }
        } else {
          assert files[i] == tail[i - 1] && files[i] != files[0];
        }
      }
    }
  }

  /** Under `--verbose` or `--dry-run`, with stripping on, a run over
      distinct files that all exist prints one report per file, in order,
      each listing that file's comments; otherwise it prints nothing. */
  lemma {:induction false} ReportsPerFile(cfg: Config, files: seq<Text>, fs: FileSystem)
    requires cfg.stripComments
    requires Distinct(files) && AllPresent(files, fs)
    ensures var st := ProcessAll(cfg, files, fs);
      && (cfg.verbose || cfg.dryRun ==> |st.reports| == |files|)
      && (!(cfg.verbose || cfg.dryRun) ==> st.reports == [])
      && (cfg.verbose || cfg.dryRun ==> forall i :: 0 <= i < |files| ==>
            st.reports[i].path == files[i]
            && st.reports[i].bodies == FindAll(fs[files[i]])
            && st.reports[i].count == |FindAll(fs[files[i]])|
            && st.reports[i].verb == (if cfg.dryRun then Identified else Removing))
    decreases |files|
  {
    if |files| > 0 {
      var tail := files[1..];
      var step := ProcessOne(cfg, files[0], fs).value;
      assert Distinct(tail) by {
        forall i, j | 0 <= i < j < |tail| ensures tail[i] != tail[j] {
          assert tail[i] == files[i + 1] && tail[j] == files[j + 1];
        }
      }
      assert AllPresent(tail, step.fs) by {
        forall i | 0 <= i < |tail| ensures tail[i] in step.fs {
          assert tail[i] == files[i + 1];
        }
      }
      ReportsPerFile(cfg, tail, step.fs);
      var rest := ProcessAll(cfg, tail, step.fs);
      var st := ProcessAll(cfg, files, fs);
      assert st.reports == Reports(step.report) + rest.reports;
      if cfg.verbose || cfg.dryRun {
        forall i | 0 <= i < |files|
          ensures st.reports[i].path == files[i]
          ensures st.reports[i].bodies == FindAll(fs[files[i]])
          ensures st.reports[i].count == |FindAll(fs[files[i]])|
          ensures st.reports[i].verb == (if cfg.dryRun then Identified else Removing)
        {
          if i > 0 {
            assert st.reports[i] == rest.reports[i - 1];
            assert files[i] == tail[i - 1] && files[i] != files[0];
          }
        }
      }
    }
  }

  /** `main` under `--dry-run` leaves the file system as it was. */
  lemma DryRunKeepsFileSystem(cfg: Config, path: Text, kind: PathKind, fs: FileSystem)
    requires cfg.dryRun
    ensures Run(cfg, path, kind, fs).fs == fs
  {
    if !kind.Missing? {
      DryRunLeavesFiles(cfg, Targets(path, kind).value, fs);
    }
  }

  /** `main` without `--strip-comments` on a file or directory does
      nothing and succeeds. */
  lemma NoStripRunsClean(cfg: Config, path: Text, kind: PathKind, fs: FileSystem)
    requires !cfg.stripComments && !kind.Missing?
    ensures Run(cfg, path, kind, fs) == RunState(fs, [], None)
    ensures ExitStatus(Run(cfg, path, kind, fs)) == 0
  {
    NoStripNoEffect(cfg, Targets(path, kind).value, fs);
  }

  /** A file named on the command line is processed whatever its
      extension: with stripping on and no dry run, that file alone is
      rewritten without its comments. */
  lemma ExplicitFileProcessed(cfg: Config, path: Text, fs: FileSystem)
    requires cfg.stripComments && !cfg.dryRun && path in fs
    ensures Run(cfg, path, RegularFile, fs) == RunState(fs[path := Strip(fs[path])], Reports(ProcessFile(cfg, path, fs[path]).report), None)
  {
    var st := Run(cfg, path, RegularFile, fs);
    assert st == ProcessAll(cfg, [path], fs);
    assert st.fs == fs[path := Strip(fs[path])];
  }

  /** In a directory run, a file whose extension is not `.html` or `.hbs`
      is never touched, whatever the walk yields. */
  lemma DirectoryLeavesOthers(cfg: Config, path: Text, walk: seq<WalkEntry>, fs: FileSystem, p: Text)
    requires p in fs && !Selected(p)
    ensures Run(cfg, path, Directory(walk), fs).fs[p] == fs[p]
  {
    var files := FolderFiles(walk);
    FolderFilesMembers(walk, p);
    assert p !in files;
  }

  /** Running over the selected paths among distinct paths strips every
      selected one, when the selected paths exist (the others need not). */
  lemma FilteredStrip(cfg: Config, ps: seq<Text>, fs: FileSystem, x: Text)
    requires cfg.stripComments && !cfg.dryRun
    requires Distinct(ps) && AllPresent(SelectPaths(ps), fs)
    requires x in SelectPaths(ps)
    ensures ProcessAll(cfg, SelectPaths(ps), fs).error.None?
    ensures ProcessAll(cfg, SelectPaths(ps), fs).fs[x] == Strip(fs[x])
  {
    var files := SelectPaths(ps);
    SelectPathsDistinct(ps);
    StripsEveryFile(cfg, files, fs);
    var k :| 0 <= k < |files| && files[k] == x;
  }

  /** In a directory run with stripping on and no dry run, over a walk that
      yields every path once, where every file to process exists, every
      walked file with a valid extension ends up with its comments removed
      (`FolderFilesMembers` says which paths those are). Walked files that
      are not processed need not exist. */
  lemma DirectoryStripsSelected(cfg: Config, path: Text, walk: seq<WalkEntry>, fs: FileSystem, x: Text)
    requires cfg.stripComments && !cfg.dryRun
    requires Distinct(WalkPaths(walk)) && AllPresent(FolderFiles(walk), fs)
    requires x in FolderFiles(walk)
    ensures Run(cfg, path, Directory(walk), fs).error.None?
    ensures Run(cfg, path, Directory(walk), fs).fs[x] == Strip(fs[x])
  {
    FilteredStrip(cfg, WalkPaths(walk), fs, x);
  }

  /** `main` exits with status 0 exactly when the path is a file or a
      directory and, with stripping on, every file to process exists. */
  lemma ExitStatusIff(cfg: Config, path: Text, kind: PathKind, fs: FileSystem)
    ensures ExitStatus(Run(cfg, path, kind, fs)) == 0 <==>
      !kind.Missing? && (!cfg.stripComments || AllPresent(Targets(path, kind).value, fs))
  {
    if !kind.Missing? {
      FailsIffMissing(cfg, Targets(path, kind).value, fs);
    }
  }

  /** A path that is neither a file nor a directory ends the run with the
      message naming it and status 1, before any file is touched. */
  lemma InvalidPathExits(cfg: Config, path: Text, fs: FileSystem)
    ensures var st := Run(cfg, path, Missing, fs);
      && ExitStatus(st) == 1 && st.fs == fs && st.reports == []
      && st.error == Some(InvalidPath(path + " is not a valid file or folder."))
  {
  }
}
