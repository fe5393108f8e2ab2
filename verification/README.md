# sitegen incremental build, modelled in Dafny

`sitegen` is a static-site generator. It turns a directory of Markdown and
HTML sources into rendered HTML files and rebuilds only the pages whose
source changed. This project models the part that decides *what* gets built,
and leaves out the rendering itself:

- **Classification and build decision** (`context.dfy`, module `Context`).
  The file type comes from the lower-cased extension: `.md`/`.markdown` is
  Markdown, `.html`/`.htm` is HTML, and everything else is not parseable. The
  build reason compares whether the destination exists and the two
  modification times: a missing destination is *created*, a strictly newer
  source is *changed*, anything else is *unchanged*. A page is *modified*
  when it is created or changed. Timestamps are integers. A missing
  destination gets time 0.
- **Source tree and page enumeration** (`site.dfy`, module `Site`). A
  `TreeNode` is an immutable directory node. Its iteration yields the node's
  own pages first, then each subdirectory depth-first, in list order. The
  site's page enumeration runs over a recursive listing of the source
  directory. It keeps the regular files with a recognised suffix and derives
  each destination by replacing the suffix with `.html`. `CleanDest` removes
  the HTML files from an abstract set of output files.
- **Build statistics** (`stats.dfy`, module `Stats`). `AddStat` adds one to
  the counter of one reason. `Summary` renders the final report: a status
  line, a page-count line, then one padded `name value` row per nonzero
  statistic, in a fixed order.
- **The build loop** (`build.dfy`, module `Build`). `BuildSite` folds over
  the enumerated pages. It skips a page unless the page is modified or the
  build is forced. A failed page counts as an error. A built page counts
  under the reason read *after* its build, as the code reads it. Rendering a
  page is an oracle `build`. It returns `Failed` for a file or template
  error. Otherwise it returns `Built(destExists)`, saying whether the
  destination exists once the page is built.
- **Log formatting** (`log.dfy`, module `Log`). Warnings and errors are
  wrapped in ANSI colour codes with a `Warn: `/`Error: ` prefix. Any other
  level prints the message unchanged.

Helper modules: `Wrappers` (an `Option` type), `Paths` and `Text`. `Paths`
holds the `pathlib` operations the code relies on: `name`, `suffix`, `stem`,
`with_suffix` and `joinpath`, plus `str.lower`. Paths are sequences of
segments. The target is Python 3.13, whose suffix rule is the same as 3.12's:
a name has a suffix only when its last dot is neither its first nor its last
character. `Text` holds
decimal rendering, `str.ljust`, and `"\n".join` with the `split` that
undoes it.

The input snapshots stand in for the file system:

- the recursive `glob` of the source directory is a sequence of `Entry`
  values (a relative path plus an is-regular-file flag), in enumeration
  order;
- `stat` results are integers passed to `NewContext`, with `None` for a
  missing destination;
- the output directory is a `set<Path>` of regular files plus a `glob`
  listing.

Each file of the code is modelled on its own terms, because the files do not
fit together as written:

- `sitegen/site.py:41` calls `FileType.all()`, which `sitegen/context.py`
  does not define. The model takes the recognised extensions to be the union
  of the Markdown and HTML sets (`Context.ValidExt`).
- `sitegen/site.py:65` builds a context with `site=`, but
  `sitegen/context.py:49` takes `cwd`. So `TreeIter` yields
  (source, destination) pairs, and `NewContext` models the constructor on
  its own.
- The source prefix is `_public` in `sitegen/context.py:51` but `source` in
  `sitegen/site.py:10`. Each is kept where it appears.
- `sitegen/__main__.py:78` calls `summary()` without the page count that
  `sitegen/cli.py:12` requires. The model's `Summary` takes the count.
- `sitegen/__main__.py:58` uses `BuildStats` as a context manager, which it
  is not. `BuildSite` starts from fresh statistics.
- `BuildSite` models the loop of `build`. Its contract fixes the resulting
  statistics and attempted pages as functions of `force`, the pages and the
  oracle alone. So `performClean` and `dryRun` have no effect on the loop,
  as in `sitegen/__main__.py:53-78`.

sitegen's source does not have a validate-only build decision, a persisted
index cache with digest and schema version, URL paths, node lookup or sorted
views, so the model has none of them either. `BuildContext` has no validate-only field,
although `sitegen/build.py:77` reads one.

## Model

| member | source | states |
|---|---|---|
| `Context.Extensions` | sitegen/context.py:15-18 | Markdown and HTML each stand for a non-empty set of recognised extensions; NOT_PARSEABLE, and only it, stands for the empty set |
| `Context.ExtensionsDisjoint` | sitegen/context.py:16-18 | the extension sets of two different file types never share an extension |
| `Context.Classify` | sitegen/context.py:67-76 | the type is the one whose extension set holds the lower-cased suffix; NOT_PARSEABLE exactly when the lower-cased suffix (the empty suffix included) is in no set |
| `Context.ClassifyIgnoresCase` | sitegen/context.py:69 | a suffix and its lower-cased form always get the same type |
| `Context.ClassifyExtensions` | sitegen/context.py:68-74 | every listed extension classifies back to the type that lists it |
| `Context.NewContext` | sitegen/context.py:49-65 | the context keeps `cwd`; the source lies under `cwd/_public` and the destination under `cwd`, each keeping its relative path; the template directory is `cwd/_fragments`; the source keeps its suffix and its stat time; a missing destination reads as not existing with time 0, an existing one keeps its stat time |
| `Context.TypeOfNewContext` | sitegen/context.py:67-76 | a new context's type is the classification of the relative source's suffix, so it is parseable exactly when that lower-cased suffix is a recognised extension |
| `Context.SourceNameKept` | sitegen/context.py:51 | prefixing the relative source with `cwd/_public` leaves its suffix, and so its type, unchanged |
| `Context.Reason` | sitegen/context.py:78-86 | a missing destination gives CREATED whatever the times; an existing one gives CHANGED when the source is strictly newer and UNCHANGED otherwise (equal times included); DELETED never comes out |
| `Context.IsModified` | sitegen/context.py:88-90 | a page is modified exactly when its destination is missing or older than its source, i.e. exactly when its reason is not UNCHANGED |
| `Context.RebuildSettles` | sitegen/context.py:78-90 | once the destination is written with a time no earlier than the source's, the page is UNCHANGED and no longer modified |
| `Context.ReasonMonotone` | sitegen/context.py:83-86 | moving an existing destination's time later never turns an UNCHANGED page into a modified one |
| `Paths.NameSuffix` | sitegen/site.py:59 | a suffix is empty or a dot followed by at least one dot-free character, is a proper tail of the name, and never starts it; it is non-empty exactly when the name has a dot, neither first nor last, with no dot after it |
| `Paths.StemSuffixSplit` | sitegen/site.py:63 | stem followed by suffix gives back the name |
| `Paths.WithSuffix` | sitegen/site.py:63 | `with_suffix` fails exactly on an empty name or an invalid suffix; otherwise it keeps every directory segment and makes the name the old stem plus the new suffix |
| `Paths.WithSuffixRoundTrip` | sitegen/site.py:63 | after `with_suffix` with a one-dot suffix such as `.html` on a named path, the suffix reads back as the one written and the stem is unchanged |
| `Paths.ReplaceSuffix` | sitegen/site.py:63 | on a named path and a one-dot suffix `with_suffix` cannot fail, and its result keeps every directory segment and the stem and carries the new suffix |
| `Site.NewNode` | sitegen/site.py:23-27 | a fresh node keeps the given path and parent, has no pages and no subdirectories, and iterates to nothing |
| `Site.Iter` | sitegen/site.py:29-32 | the iteration begins with the node's own pages in order, and its length is the number of pages in the node and all its descendants |
| `Site.IterDirsConcat` | sitegen/site.py:31-32 | iterating a list of subdirectories is iterating its first part and then its second |
| `Site.AppendDir` | sitegen/site.py:31-32 | adding a subdirectory at the end appends that subtree's whole iteration after everything yielded before |
| `Site.AppendPage` | sitegen/site.py:30 | adding a page puts it after the node's own pages and before every subdirectory's pages |
| `Site.ChildSlice` | sitegen/site.py:29-32 | the pages of the i-th subtree form one contiguous block, after the node's own pages and after the subtrees of all earlier siblings |
| `Site.IterMembers` | sitegen/site.py:29-32 | a page is yielded exactly when it is one of the node's own pages or is yielded by one of its subdirectories |
| `Site.NewSiteRoot` | sitegen/site.py:48-53 | a new site has an empty root node at the root path, and its source, output and template directories are `source`, `build` and `templates` under the root |
| `Site.RecognisedHasName` | sitegen/site.py:59 | a path whose lower-cased suffix is recognised has a name and a parseable type |
| `Site.HtmlDest` | sitegen/site.py:62-63 | the destination keeps the source's directory segments and stem and has suffix `.html` |
| `Site.TreeIter` | sitegen/site.py:55-69 | each enumerated page has a recognised suffix and the `.html` destination of its source; the enumeration is no longer than the listing |
| `Site.TreeIterMembers` | sitegen/site.py:58-63 | a (source, destination) pair is enumerated exactly when the listing holds a regular file at that source with a recognised suffix and the destination is its `.html` path; directories and other files are skipped |
| `Site.TreeIterConcat` | sitegen/site.py:58-69 | enumeration streams in listing order: two consecutive parts of a listing enumerate as the first part's pages followed by the second's |
| `Site.CleanDest` | sitegen/site.py:71-81 | exactly the listed regular files with a lower-cased `.html`/`.htm` suffix are removed and returned, each once; every other file, non-HTML files included, is left in place |
| `Site.RemoveWhere` | sitegen/site.py:73-79 | walking the listing once, a file is gone afterwards exactly when it was recorded as removed, every listed selected file is recorded, and nothing is recorded twice |
| `Stats.AddStat` | sitegen/cli.py:40-49 | the counter of the given reason goes up by exactly one, every other reason counter is unchanged, and errors, drafts and time are untouched |
| `Stats.Width` | sitegen/cli.py:34 | the column width is the length of the longest statistic name |
| `Stats.StatWidth` | sitegen/cli.py:25-34 | for the six statistic names the column is 9 wide, the length of "Unchanged" |
| `Stats.NonzeroFrom` | sitegen/cli.py:35-36 | the listed statistics are exactly those with a nonzero value, in strictly increasing table order |
| `Stats.HeaderThenRows` | sitegen/cli.py:35-37 | the lines appended after the header are exactly one row per nonzero statistic, in table order, each rendering that statistic's name and value; a statistic gets a row exactly when its value is nonzero |
| `Stats.RowLayout` | sitegen/cli.py:37 | a row is two spaces, the name left-justified to the column width, one space, then digits that read back as the value |
| `Stats.Summary` | sitegen/cli.py:12-14 | with no pages the summary is "Nothing to do." whatever the counters |
| `Stats.SummaryRoundTrip` | sitegen/cli.py:38 | splitting a non-empty summary at newlines gives back exactly its lines |
| `Stats.SummaryStatus` | sitegen/cli.py:16-24 | the first line says "with errors" exactly when errors is nonzero and "successfully" exactly when it is zero; the second line reports the page count and time |
| `Stats.SummaryRows` | sitegen/cli.py:25-37 | after the two header lines come exactly the rows of the nonzero statistics, in the order Created, Draft, Changed, Unchanged, Deleted, Errors, padded to the longest name |
| `Stats.SummaryShape` | sitegen/cli.py:12-38 | the summary as a reader splits it into lines: status line, count line, then a row per nonzero statistic in the fixed order |
| `Text.NatToString` | sitegen/cli.py:37 | a counter renders as digits without leading zeros that read back as its value |
| `Text.IntToString` | sitegen/cli.py:23 | the page count renders with a leading minus exactly when negative, and its digits read back as its magnitude |
| `Text.LJust` | sitegen/cli.py:37 | `ljust` keeps the text as a prefix and pads with spaces to the width, never truncating |
| `Text.SplitJoin` | sitegen/cli.py:38 | joining newline-free lines with newlines and splitting again gives back the lines |
| `Build.Attempted` | sitegen/__main__.py:59-64 | only modified pages are attempted unless forced, every such page is attempted, and with `force` every enumerated page is |
| `Build.AttemptedCounts` | sitegen/__main__.py:59-64 | a page that needs building is attempted exactly as often as it is enumerated, and any other page never; nothing is dropped or added twice |
| `Build.AttemptedSnoc` | sitegen/__main__.py:59-64 | the attempts keep enumeration order: one more enumerated page adds itself at the end when it needs building and nothing otherwise |
| `Build.AttemptedAll` | sitegen/__main__.py:59-64 | when every page needs building, the attempted pages are exactly the enumerated ones, in order |
| `Build.RereadReason` | sitegen/__main__.py:76 | the reason read after the build is CREATED exactly when the destination is then missing; for an existing destination it is CHANGED exactly when the source is newer than the destination time read before the build; never DELETED |
| `Build.Step` | sitegen/__main__.py:59-76 | a page is attempted exactly when modified or forced; a skipped page leaves the statistics unchanged; a failed page adds one error and no reason count; a built page adds one count, for the reason the rule gives it with the destination's state after the build, and no error |
| `Build.EveryPageCountedOnce` | sitegen/__main__.py:62-76 | every attempted page is counted exactly once, as an error or under exactly one reason |
| `Build.BuiltForNone` | sitegen/__main__.py:68-76 | a reason that no successfully built page is given is counted zero times |
| `Build.StepTally` | sitegen/__main__.py:62-76 | one iteration keeps the statistics equal to the tally of failures and per-reason successes among the pages attempted so far |
| `Build.LoopStep` | sitegen/__main__.py:59-76 | after one more page the attempted pages are still exactly those of the prefix that needed building, and the tally still matches them |
| `Build.LoopDone` | sitegen/__main__.py:59-78 | at the end of the loop the attempted pages are exactly those of the whole enumeration that needed building, and the reason counters plus errors equal them |
| `Build.RunLoop` | sitegen/__main__.py:58-76 | for any reason rule, the loop attempts exactly the pages that need it, in order, counts each failed one as an error and each built one under the rule's reason, and the counters add up to the attempts |
| `Build.BuildSite` | sitegen/__main__.py:53-78 | the attempted pages are the modified ones, or all with `force`; errors count the failed attempts and each reason counter the successful ones given that reason after their build; reason counters plus errors equal the attempted pages; DELETED stays 0; CREATED stays 0 when every build leaves its destination in place; UNCHANGED stays 0 without `force` when every missing destination's time 0 is older than its source; clean and dry-run flags change nothing |
| `Build.NoneCreatedWhenWritten` | sitegen/__main__.py:76 | as written, no attempted page is counted CREATED when each build leaves its destination in place |
| `Build.NoneUnchangedWhenNewer` | sitegen/__main__.py:62-76 | as written and without `force`, no page is counted UNCHANGED when every missing destination's recorded time is older than its source |
| `Build.BuildSiteIntended` | sitegen/__main__.py:53-78 | the corrected loop counts each built page under the reason decided before its build: same attempts and errors, DELETED stays 0, UNCHANGED stays 0 without `force`, and when every destination is missing and every page builds, every page counts as CREATED |
| `Build.NewPageCountedChanged` | sitegen/__main__.py:76 | a new page with source time after the epoch is built because its reason is CREATED, yet once its build writes the destination the code counts it CHANGED, and CREATED stays 0; the corrected count gives 1 |
| `Log.Format` | sitegen/log.py:12-23 | WARNING gives ESC[33m "Warn: " message ESC[0m, ERROR gives ESC[31m "Error: " message ESC[0m, any other level the bare message; the message always sits verbatim right after the prefix |
| `Log.FormatRoundTrip` | sitegen/log.py:13-23 | stripping the level's prefix and reset code from a formatted record gives back the message at every level |
| `Log.FormatInjective` | sitegen/log.py:13-23 | two records at the same level are equal only when their messages are |

## Findings

| source | as written | input that shows it | evidently intended | confidence | as-written member | corrected member |
|---|---|---|---|---|---|---|
| sitegen/__main__.py:76 | `build_reason` is read after `build_page`; its `exists()` sees the destination just written, while the destination time stays the one read before (0 when missing), see sitegen/context.py:60-65 and 80-84 | a page with no destination and source time 1 whose build writes the destination is counted CHANGED, and a first build reports no CREATED page | the page counts CREATED, the reason that made the loop build it | medium, not executed | `Build.BuildSite`, `Build.NewPageCountedChanged` | `Build.BuildSiteIntended` |

## Left out

- Rendering (`sitegen/build.py`): Markdown parsing, title extraction, template rendering and charset detection wrap third-party libraries, so `BuildSite` takes the page build as an oracle. `sitegen/build.py` also does not define the `build` function that `sitegen/__main__.py:9` imports.
- `sitegen/templates.py`, `sitegen/exec.py` and `sitegen/__init__.py` hold only constants, exception classes and re-exports.
- `main()` argument parsing (`sitegen/__main__.py:19-49`) and `configure_logging` (`sitegen/log.py:26-33`): command-line and logging plumbing.
- The logging calls inside the loop and in `clean_dest`: they have no effect on results.
- The real file system: `stat`, `exists`, `glob`, `unlink`, `mkdir` and writes are replaced by the snapshots described above.
- The order and content of `glob("**")` are inputs. The model targets Python 3.13, where that pattern also yields files; before 3.13 it yields only directories, and the code would enumerate no pages at all.
- `Summary`: the time line's `:.2f` float formatting is not modelled. The formatted time is a string parameter.
- Timestamps are integers. `datetime.fromtimestamp` keeps microseconds of a float `st_mtime`, and the comparison is modelled on integers at whatever resolution the caller chooses.
- `Paths.LowerChar`: lower-cases only ASCII letters and the KELVIN SIGN. Python lower-cases more characters, but every other one lower-cases to non-ASCII text, which cannot match an extension, so classification is unaffected.
- `BuildSite`: contexts are given as a finished sequence. In the code, `tree_iter` is a generator, so each context is stat'ed only after earlier pages were built. A page written earlier in the loop (say `a.md` and `a.markdown`, which share `a.html`) can change a later page's decision; that interleaving is not modelled.
- `BuildSite`: the oracle `build` is a function of the context, so two pages with identical contexts get the same outcome.
- `BuildSite`: an exception raised while a context is made aborts the build, because `site.tree_iter()` makes the contexts at `sitegen/__main__.py:59`, outside the `try` at `sitegen/__main__.py:68-73`. A `stat` of a vanished source raises `FileNotFoundError` there. Those aborts, and exceptions other than `OSError` and `TemplateError` raised by a page build, are not modelled.
- `BuildContext.build_reason` calls `exists()` again each time it is read. The model takes the value before the build from the snapshot made with the context. It takes the value after the build from the oracle's outcome, because `sitegen/build.py` is not part of this model.
- `Site.CleanDest`: the contract states which paths are removed, and that none is removed twice. It does not state that `removed` follows listing order.
- `TreeNode` parent links are kept as the parent's path, a non-owning reference, rather than an object reference. Nothing in sitegen fills a node's pages or subdirectories, so the tree operations are modelled as written but nothing connects them to `tree_iter`.
- The `draft` counter and `time_seconds` are never changed anywhere in sitegen. The model carries them, and `BuildSite` leaves them at zero.
