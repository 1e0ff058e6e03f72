# htmlpack in Dafny

htmlpack is a command-line tool that strips HTML comments from a file or
from every `.html` and `.hbs` file under a directory. This project models
its core, `htmlpack/htmlpack.py`, and proves properties of the model.

- **Comment engine** (`comments.dfy`, `comment_laws.dfy`). The pattern
  `<!--(.*?)-->`, compiled with `re.DOTALL`, is modelled as one left-to-right
  scan. At the front of the text, `MatchAt` finds a comment: an opener
  `<!--` followed by the first closer `-->` that starts at or after the
  opener's end. Otherwise the scan moves on by one character. `FindAll`
  models `re.findall` (the comment bodies) and `Strip` models `re.sub(...,
  '')` (the text without the comments). Both are driven by that single scan.
  `IsDecomposition` is a declarative reference for the scan: the text is
  cut into gaps and comments, no body holds a closer, no gap before a
  comment holds an opener, and the last gap holds no comment. The scan
  always produces such a decomposition, and every such decomposition is
  the scan's.
- **Per-file logic** (`remover.dfy`). `remove_comments` and `process_file`
  are pure functions from the flags and the file's content to an
  `Outcome`: the report that would be printed (verb, count, path, bodies)
  and the content that would be written back.
- **Path selection** (`paths.dfy`). This covers `os.path.splitext` and
  `os.path.join` as on POSIX, and the `.html`/`.hbs` filter that
  `process_folder` applies to the files of the directory walk.
- **Driver** (`htmlpack.dfy`, `htmlpack_laws.dfy`). `main` classifies the
  path as a file, a directory or neither, then runs `process_file` over the
  resulting files against a file system modelled as a map from paths to
  contents.

`wrappers.dfy` holds the `Option` and `Result` types.

## Model

| member | source | states |
|---|---|---|
| Comments.MatchAt | htmlpack/htmlpack.py:45 | A match at the front is an opener and then the first closer at or after the opener's end, so the body holds no closer. No match means there is no opener at the front, or no closer anywhere after it. |
| Comments.FindAll | htmlpack/htmlpack.py:45-47 | No body that `findall` reports contains `-->`: the lazy `.*?` stops at the first closer. |
| Comments.Strip | htmlpack/htmlpack.py:55 | `sub` never lengthens the text. |
| CommentLaws.ScanIsDecomposition | htmlpack/htmlpack.py:45-55 | The scan cuts every text into gaps and comments. Each body is free of closers, each gap before a comment is free of openers, and the last gap holds no comment. |
| CommentLaws.SpanRule | htmlpack/htmlpack.py:45-55 | For any such decomposition, `findall` returns exactly its bodies in document order, and `sub` returns exactly its gaps joined together. So the spans are found left to right, never overlap, may span newlines, and are what is deleted. |
| CommentLaws.SpanRuleGaps | htmlpack/htmlpack.py:45-55 | The decomposition is unique: the scan's gaps are those of every decomposition. |
| CommentLaws.StripLength | htmlpack/htmlpack.py:45-55 | The stripped text is shorter than the input by the sum over the reported bodies of body length plus 7 (four opener and three closer characters). |
| CommentLaws.UnchangedIff | htmlpack/htmlpack.py:45-55 | `sub` leaves the text unchanged iff `findall` finds nothing, iff no opener is followed, at or after its end, by a closer. |
| CommentLaws.NoCommentUnchanged | htmlpack/htmlpack.py:55 | A text with no opener followed later by a closer has no bodies, strips to itself, and is one single gap. |
| CommentLaws.LoneOpenerStopsScan | htmlpack/htmlpack.py:45 | Once an opener has no closer at or after its end, the rest of the text holds no comment, and no match starts anywhere from there on. |
| CommentLaws.ShortestNonComment | htmlpack/htmlpack.py:45 | `<!-->` holds no comment: the closer may not reuse the opener's dashes. |
| CommentLaws.OverlappingNonComment | htmlpack/htmlpack.py:45 | `<!--->` holds no comment either. |
| CommentLaws.ShortestComment | htmlpack/htmlpack.py:45-55 | `<!---->` is one comment with an empty body, and all of it is deleted. |
| CommentLaws.LazyMultilineExample | htmlpack/htmlpack.py:45-55 | In `<!-- a -->text<!-- b\nc -->` the bodies are ` a ` and ` b\nc `: matching is lazy and crosses a newline. Stripping leaves `text`. |
| CommentLaws.TwoComments | htmlpack/htmlpack.py:45-55 | Two comments around an opener-free stretch are reported in order, and only the stretch is kept. |
| CommentLaws.EmptyCommentBetween | htmlpack/htmlpack.py:55 | An empty comment between two opener-free stretches is the only thing deleted. |
| CommentLaws.StripNotIdempotent | htmlpack/htmlpack.py:55 | A single strip of `<!<!---->--b-->` (where `b` has no angle brackets) leaves `<!--b-->`. A second strip deletes that, so a second pass can change the output again. |
| Remover.RemoveComments | htmlpack/htmlpack.py:33-57 | A report exists iff `verbose` or `dry_run`. Its verb is Identified under a dry run and Removing otherwise. It names the file, its count is the number of bodies, and no body holds a closer. Content is written iff not a dry run, and is never longer than the input. |
| Remover.ProcessFile | htmlpack/htmlpack.py:60-69 | Without `strip_comments` nothing is reported or written. A dry run never writes. A report exists iff stripping and (`verbose` or `dry_run`). A write happens iff stripping and not a dry run. |
| Remover.ReportMatchesRemoval | htmlpack/htmlpack.py:46-57 | The reported count equals the number of spans removed. The reported bodies are exactly the decomposition's bodies in order. The written content is exactly its gaps, shorter by each body plus 7. |
| Remover.NoCommentsNoChange | htmlpack/htmlpack.py:46-57 | A file whose decoded text holds no comment is written back as the same text, and any report for it has count 0. Equality is of the decoded text; newline translation is left out. |
| Remover.ChangedIff | htmlpack/htmlpack.py:54-69 | Processing changes the file's decoded text iff stripping is on, it is not a dry run, and the text holds a comment. |
| Paths.SplitExt | htmlpack/htmlpack.py:84 | The root and the extension put together are the path. |
| Paths.SplitExtSpec | htmlpack/htmlpack.py:84 | The extension `splitext` returns starts at a dot. After that dot there is no dot or separator, and some non-dot precedes it in the last component. If no position qualifies, the extension is empty. So leading dots of a name never start an extension. |
| Paths.ExtensionUnique | htmlpack/htmlpack.py:84 | At most one position of a path starts an extension. |
| Paths.Join | htmlpack/htmlpack.py:83 | An absolute name replaces the directory. Otherwise the result starts with the directory and ends with the name, with a separator before the name when the directory is non-empty. The length pins the result down: one separator is added exactly when the directory is non-empty and does not already end in `/`. |
| Paths.ExtensionOfJoin | htmlpack/htmlpack.py:83-84 | Joining a directory in front of a name without separators keeps the name's extension. |
| Paths.SelectedByName | htmlpack/htmlpack.py:80-85 | A walked file is processed iff its own name's extension is exactly `.html` or `.hbs`, whatever directory it lies in. |
| Paths.FolderFilesMembers | htmlpack/htmlpack.py:80-86 | A path is processed in directory mode iff the walk yields it and its extension is `.html` or `.hbs`. |
| Paths.IsValidExtension | htmlpack/htmlpack.py:80 | The valid extensions are exactly `.html` and `.hbs`, compared as exact strings. This is a definition and has no contract of its own. |
| Paths.Selected | htmlpack/htmlpack.py:84-85 | A path is processed in directory mode when its `splitext` extension is a valid one. This is a definition; `Paths.SelectedByName` and `Paths.FolderFilesMembers` state what it means. |
| Paths.FolderFiles | htmlpack/htmlpack.py:72-86 | `process_folder`: the walked paths, joined from directory and name, that pass the extension filter, in walk order. Its own contract only bounds the length and says every result is selected. `Paths.FolderFilesMembers`, `Paths.FolderFilesAppend` and `Paths.FolderFilesDistinct` state which paths come back, in which order, and how often. |
| Paths.SelectPathsMembers | htmlpack/htmlpack.py:85-86 | The filter keeps exactly the paths with a valid extension. |
| Paths.FolderFilesAppend | htmlpack/htmlpack.py:81-86 | Files are processed in walk order. |
| Paths.FolderFilesDistinct | htmlpack/htmlpack.py:81-86 | A walk that yields each path once processes each path at most once. |
| Paths.HtmlSelected | htmlpack/htmlpack.py:80-85 | `site/a.html` splits into `site/a` and `.html` and is processed. |
| Paths.HbsSelected | htmlpack/htmlpack.py:80-85 | `site/b.hbs` is processed. |
| Paths.TxtNotSelected | htmlpack/htmlpack.py:80-85 | `site/c.txt` is not processed in directory mode. |
| Paths.UpperCaseNotSelected | htmlpack/htmlpack.py:80-85 | `site/page.HTML` is not processed: the comparison is case-sensitive. |
| Paths.DotFileNotSelected | htmlpack/htmlpack.py:80-85 | `site/.html` has an empty extension and is not processed. |
| Paths.DottedDirectoryNoExtension | htmlpack/htmlpack.py:84 | `site.v2/readme` has no extension: a dot in a directory name does not count. |
| HtmlPack.InvalidMessage | htmlpack/htmlpack.py:101 | The exit message is the path followed by ` is not a valid file or folder.` |
| HtmlPack.Targets | htmlpack/htmlpack.py:96-101 | A regular file is processed alone, whatever its extension. A directory yields only selected paths. Anything else fails with the invalid-path message. |
| HtmlPack.ProcessOne | htmlpack/htmlpack.py:33-69 | Without stripping, the file is never opened. Otherwise a missing file fails. An existing file becomes its stripped content unless this is a dry run, and no other file changes. A report, when there is one, names the file and lists its bodies. |
| HtmlPack.ProcessAll | htmlpack/htmlpack.py:81-86 | Running `process_file` over files in turn keeps the set of paths. It leaves files outside the list untouched. Any error is a missing file from the list, with stripping on. |
| HtmlPack.Run | htmlpack/htmlpack.py:89-101 | An invalid path fails before any file is touched. No run adds or removes files. An open error only arises with stripping on, for a file that does not exist. |
| HtmlPack.ExitStatus | htmlpack/htmlpack.py:100-101 | The status is 0 exactly when the run had no error, and 1 otherwise. |
| DriverLaws.DryRunLeavesFiles | htmlpack/htmlpack.py:54-57 | A dry run over any list of files writes nothing. |
| DriverLaws.DryRunKeepsFileSystem | htmlpack/htmlpack.py:54-57 | `main` under `--dry-run` leaves the file system as it was. |
| DriverLaws.NoStripNoEffect | htmlpack/htmlpack.py:68-69 | Without `--strip-comments`, a run over any files, existing or not, prints and writes nothing and does not fail. |
| DriverLaws.NoStripRunsClean | htmlpack/htmlpack.py:68-69 | `main` without `--strip-comments` on a file or directory does nothing and exits with 0. |
| DriverLaws.FailsIffMissing | htmlpack/htmlpack.py:41-42 | A run over files fails iff stripping is on and one of the files does not exist. |
| DriverLaws.StripsEveryFile | htmlpack/htmlpack.py:54-57 | With stripping and no dry run, over distinct existing files, the run succeeds and every file ends up as its stripped content. |
| DriverLaws.ReportsPerFile | htmlpack/htmlpack.py:46-52 | With stripping under `--verbose` or `--dry-run`, one report is printed per file, in order. Each report names its file, lists that file's comment bodies, and has the right count and verb. Without those flags nothing is printed. |
| DriverLaws.ExplicitFileProcessed | htmlpack/htmlpack.py:96-97 | A file named on the command line is stripped whatever its extension, and no other file changes. |
| DriverLaws.DirectoryLeavesOthers | htmlpack/htmlpack.py:80-86 | In directory mode, a file whose extension is not `.html` or `.hbs` is never touched. |
| DriverLaws.FilteredStrip | htmlpack/htmlpack.py:80-86 | Over distinct paths, every path that passes the filter is stripped, provided those paths exist. Paths the filter drops need not exist. |
| DriverLaws.DirectoryStripsSelected | htmlpack/htmlpack.py:80-86 | In directory mode with stripping and no dry run, over a walk that yields each path once, every processed path ends up stripped, provided the processed files exist. Walked files that are not processed need not exist. `Paths.FolderFilesMembers` says the processed paths are the walked ones with a valid extension. |
| DriverLaws.ExitStatusIff | htmlpack/htmlpack.py:89-101 | `main` exits with 0 iff the path is a file or a directory and, with stripping on, every file to process exists. |
| DriverLaws.InvalidPathExits | htmlpack/htmlpack.py:100-101 | A path that is neither file nor directory exits with status 1 and the message naming it, touching and printing nothing. |

## Left out

- Argument parsing with `argparse` (`parse_args`): the flags arrive as a `Config`, and the path as a value.
- Reading and writing real files, and UTF-8 decoding. The file system is a map from paths to already-decoded text. A file that cannot be decoded, or cannot be opened for a reason other than not existing, is not modelled.
- Newline translation: the file is opened in text mode, which reads `\r\n` and a lone `\r` as `\n` and writes `\n` as the platform's line separator. The model works on the decoded text, so a CRLF file without comments, which the tool rewrites with LF endings on POSIX, counts as unchanged here.
- Aliasing between paths: the file system maps each path string to its own content. Two distinct paths that name one file, through a symbolic or hard link the walk lists twice, are not modelled. The tool would strip such a file once per path, which can differ from one strip because stripping is not idempotent, and the second report would describe already-stripped text.
- Write failures are not modelled: a write always succeeds.
- The exact printed text (`Identified 2 comments from …`, `* <!--…-->`): the report is data (verb, count, path, bodies).
- `os.walk` over a real directory: the walk is a given list of (directory, name) entries in walk order. Its order and error handling are those of the platform and are not modelled. The same holds for `os.path.isfile` and `os.path.isdir`: their answer arrives as a `PathKind`.
- `os.path.splitext` and `os.path.join` for Windows paths (`\`, drive letters): only the POSIX behaviour is modelled.
- A general idempotence law for stripping does not hold, so it is not stated. `CommentLaws.StripNotIdempotent` exhibits a text whose stripped form still holds a comment.
- DriverLaws.StripsEveryFile: requires distinct paths. If a path were listed twice, it would be stripped twice, and because stripping is not idempotent that can differ from one strip. A real walk yields every path string once; paths that alias one file are left out, as stated above.
- DriverLaws.ReportsPerFile: requires distinct paths for the same reason: the second report of a repeated path would describe already-stripped content.
- Comments.Strip: its own contract only bounds the length. What it deletes is stated by `CommentLaws.SpanRule`, `CommentLaws.StripLength` and `CommentLaws.UnchangedIff`.
