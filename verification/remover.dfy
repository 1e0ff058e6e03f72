/**
 The per-file logic of htmlpack: `remove_comments`, which reports the
 comments of one file and rewrites it without them, and `process_file`,
 which runs it only when comment stripping is enabled. Reading and writing
 the file and printing are left to the caller: the file's content comes in
 as a value, and what would be printed and written comes out as an
 `Outcome`.
 */
module Remover {
  import opened Wrappers
  import opened Comments
  import CommentLaws

  /** The command-line flags that the per-file processing reads. */
  datatype Config = Config(stripComments: bool, verbose: bool, dryRun: bool)

  /** The verb of the report's header line. */
  datatype Label = Identified | Removing

  /** What `remove_comments` prints: a header naming the verb, the number of
      comments and the file, then one line per comment body, in order. */
  datatype Report = Report(verb: Label, count: nat, path: Text, bodies: seq<Text>)

  /** The effect of processing one file: the report printed, if any, and the
      content written back to the file, if any. */
  datatype Outcome = Outcome(report: Option<Report>, written: Option<Text>)

  /** The content of the file after processing. */
  function After(o: Outcome, content: Text): Text {
    o.written.GetOr(content)
  }

  /** `remove_comments`: under `verbose` or `dry_run` it reports the
      comments it finds, labelled "Identified" under a dry run and
      "Removing" otherwise; unless `dry_run` is set it writes the content
      back with every comment deleted. */
  function RemoveComments(cfg: Config, path: Text, content: Text): (o: Outcome)
    ensures o.report.Some? <==> cfg.verbose || cfg.dryRun
    ensures o.report.Some? ==> o.report.value.verb == (if cfg.dryRun then Identified else Removing)
    ensures o.report.Some? ==> o.report.value.path == path
    ensures o.report.Some? ==> o.report.value.count == |o.report.value.bodies|
    ensures o.report.Some? ==> forall k :: 0 <= k < |o.report.value.bodies| ==> NoCloser(o.report.value.bodies[k])
    ensures o.written.Some? <==> !cfg.dryRun
    ensures o.written.Some? ==> |o.written.value| <= |content|
  {
    var report :=
      if cfg.verbose || cfg.dryRun then
        var subs := FindAll(content);
        Some(Report(if cfg.dryRun then Identified else Removing, |subs|, path, subs))
      else None;
    var written := if !cfg.dryRun then Some(Strip(content)) else None;
    Outcome(report, written)
  }

  /** `process_file`: the file is handed to `remove_comments` only when
      comment stripping is enabled; otherwise nothing is reported and
      nothing is written. */
  function ProcessFile(cfg: Config, path: Text, content: Text): (o: Outcome)
    ensures !cfg.stripComments ==> o.report.None? && o.written.None?
    ensures cfg.dryRun ==> o.written.None?
    ensures o.report.Some? <==> cfg.stripComments && (cfg.verbose || cfg.dryRun)
    ensures o.written.Some? <==> cfg.stripComments && !cfg.dryRun
    ensures o.report.Some? ==> o.report.value.verb == (if cfg.dryRun then Identified else Removing)
  {
    if cfg.stripComments then RemoveComments(cfg, path, content) else Outcome(None, None)
  }

  /** The report agrees with the removal: for the decomposition of the
      content into gaps and comment bodies, the report lists exactly those
      bodies in document order, the written content is exactly the gaps,
      and it is shorter by each body plus its seven marker characters. */
  lemma ReportMatchesRemoval(cfg: Config, path: Text, content: Text, gaps: seq<Text>, bodies: seq<Text>)
    requires IsDecomposition(content, gaps, bodies)
    ensures var o := ProcessFile(cfg, path, content);
      && (o.report.Some? ==> o.report.value.bodies == bodies && o.report.value.count == |bodies|)
      && (o.written.Some? ==> o.written.value == Concat(gaps))
      && (o.written.Some? ==> |o.written.value| == |content| - SpanTotal(bodies))
  {
    CommentLaws.SpanRule(content, gaps, bodies);
    CommentLaws.StripLength(content);
  }

  /** A file without comments is reported with a count of zero and is
      written back unchanged. */
  lemma NoCommentsNoChange(cfg: Config, path: Text, content: Text)
    requires NoComment(content)
    ensures var o := ProcessFile(cfg, path, content);
      && After(o, content) == content
      && (o.report.Some? ==> o.report.value.count == 0 && o.report.value.bodies == [])
  {
    CommentLaws.NoCommentUnchanged(content);
  }

  /** Processing changes the file exactly when stripping is on, the run is
      not a dry run, and the content holds a comment. */
  lemma ChangedIff(cfg: Config, path: Text, content: Text)
    ensures After(ProcessFile(cfg, path, content), content) != content
      <==> cfg.stripComments && !cfg.dryRun && !NoComment(content)
  {
    CommentLaws.UnchangedIff(content);
  }
}
