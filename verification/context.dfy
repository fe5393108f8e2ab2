/** Per-page build context: the file-type classification by extension, and
    the build decision made by comparing the source and destination
    modification times. */
module Context {
  import opened Wrappers
  import opened Paths

  /** Why a page is (re)built; `Deleted` exists but is never decided here. */
  datatype BuildReason = Created | Changed | Unchanged | Deleted

  datatype FileType = Markdown | Html | NotParseable

  const MarkdownExt: set<string> := {".md", ".markdown"}
  const HtmlExt: set<string> := {".html", ".htm"}

  /** The extensions a site recognises: every extension of a parseable type. */
  const ValidExt: set<string> := MarkdownExt + HtmlExt

  /** The extension set each file type stands for. */
  function Extensions(t: FileType): (exts: set<string>)
    ensures exts == {} <==> t == NotParseable
    ensures exts <= ValidExt
  {
    match t
    case Markdown => MarkdownExt
    case Html => HtmlExt
    case NotParseable => {}
  }

  /** The extension sets of distinct file types never overlap. */
  lemma ExtensionsDisjoint(t: FileType, u: FileType)
    requires t != u
    ensures Extensions(t) !! Extensions(u)
  {
  }

  /** The file type of a suffix, compared after lower-casing. */
  function Classify(suffix: string): (t: FileType)
    ensures Lower(suffix) in Extensions(t) || (t == NotParseable && Lower(suffix) !in ValidExt)
    ensures t == NotParseable <==> Lower(suffix) !in ValidExt
  {
    var s := Lower(suffix);
    if s in MarkdownExt then Markdown
    else if s in HtmlExt then Html
    else NotParseable
  }

  /** Classification ignores case: a suffix classifies as its lower-cased form. */
  lemma ClassifyIgnoresCase(suffix: string)
    ensures Classify(Lower(suffix)) == Classify(suffix)
  {
    LowerIdempotent(suffix);
  }

  /** Every extension of a type classifies back to that type. */
  lemma ClassifyExtensions(t: FileType, e: string)
    requires e in Extensions(t)
    ensures Classify(e) == t
  {
    if t == Markdown {
      MarkdownExtLower(e);
    } else {
      HtmlExtLower(e);
    }
    LowerFixed(e);
  }

  lemma MarkdownExtLower(e: string)
    requires e in MarkdownExt
    ensures LowerAlready(e)
  {
    if e == ".md" {
      assert e == ['.', 'm', 'd'];
    } else {
      assert e == ['.', 'm', 'a', 'r', 'k', 'd', 'o', 'w', 'n'];
    }
  }

  lemma HtmlExtLower(e: string)
    requires e in HtmlExt
    ensures LowerAlready(e)
  {
    if e == ".html" {
      assert e == ['.', 'h', 't', 'm', 'l'];
    } else {
      assert e == ['.', 'h', 't', 'm'];
    }
  }

  /** The state of one page: its paths under the working directory and the
      modification times read when the context was made. */
  datatype BuildContext = BuildContext(
    cwd: Path,
    sourcePath: Path,
    destPath: Path,
    templatePath: Path,
    sourceModified: int,
    destExists: bool,
    destModified: int)

  const SourcePrefix: string := "_public"
  const TemplatePrefix: string := "_fragments"

  /** Makes the context of the page at `source`, rendered to `dest`, both
      relative to `cwd`. `destStat` is the destination's modification time,
      `None` when it does not exist; a missing destination gets time 0. */
  function NewContext(cwd: Path, source: Path, dest: Path, sourceModified: int, destStat: Option<int>): (c: BuildContext)
    ensures |c.sourcePath| == |cwd| + 1 + |source| && |c.destPath| == |cwd| + |dest|
    ensures c.sourcePath[..|cwd|] == cwd && c.sourcePath[|cwd|] == SourcePrefix
    ensures c.sourcePath[|cwd| + 1..] == source
    ensures c.destPath[..|cwd|] == cwd && c.destPath[|cwd|..] == dest
    ensures c.cwd == cwd && c.templatePath == cwd + [TemplatePrefix]
    ensures c.sourceModified == sourceModified
    ensures c.destExists <==> destStat.Some?
    ensures destStat.None? ==> c.destModified == 0
    ensures destStat.Some? ==> c.destModified == destStat.value
    ensures PathSuffix(c.sourcePath) == PathSuffix(source)
  {
    var sourcePath := JoinPath(cwd, [SourcePrefix] + source);
    SourceNameKept(cwd, source);
    BuildContext(
      cwd,
      sourcePath,
      JoinPath(cwd, dest),
      JoinPath(cwd, [TemplatePrefix]),
      sourceModified,
      destStat.Some?,
      if destStat.Some? then destStat.value else 0)
  }

  /** Joining under the source prefix keeps the source's name, hence its suffix. */
  lemma SourceNameKept(cwd: Path, source: Path)
    ensures PathSuffix(JoinPath(cwd, [SourcePrefix] + source)) == PathSuffix(source)
  {
    if source == [] {
      assert Name(JoinPath(cwd, [SourcePrefix])) == SourcePrefix;
      assert LastDot(SourcePrefix) == -1;
    }
  }

  /** The type of the page's source file. */
  function TypeOf(c: BuildContext): FileType
  {
    Classify(PathSuffix(c.sourcePath))
  }

  /** A new context's type is decided by the suffix of the relative source
      alone: the `cwd` and `_public` prefixes never change it. */
  lemma TypeOfNewContext(cwd: Path, source: Path, dest: Path, sourceModified: int, destStat: Option<int>)
    ensures TypeOf(NewContext(cwd, source, dest, sourceModified, destStat)) == Classify(PathSuffix(source))
    ensures TypeOf(NewContext(cwd, source, dest, sourceModified, destStat)) != NotParseable
        <==> Lower(PathSuffix(source)) in ValidExt
  {
    SourceNameKept(cwd, source);
  }

  /** The build decision: created when the destination is missing, changed
      when the source is strictly newer, unchanged otherwise. */
  function Reason(c: BuildContext): (r: BuildReason)
    ensures !c.destExists ==> r == Created
    ensures c.destExists && c.sourceModified > c.destModified ==> r == Changed
    ensures c.destExists && c.sourceModified <= c.destModified ==> r == Unchanged
    ensures r != Deleted
  {
    if !c.destExists then Created
    else if c.sourceModified > c.destModified then Changed
    else Unchanged
  }

  /** A page needs building exactly when its destination is missing or older
      than its source. */
  function IsModified(c: BuildContext): (b: bool)
    ensures b <==> !c.destExists || c.sourceModified > c.destModified
    ensures b <==> Reason(c) != Unchanged
  {
    Reason(c) in {Created, Changed}
  }

  /** Once the destination is written no earlier than the source's time, the
      page is unchanged and is not built again; timestamps alone decide. */
  lemma RebuildSettles(c: BuildContext, written: int)
    requires written >= c.sourceModified
    ensures Reason(c.(destExists := true, destModified := written)) == Unchanged
    ensures !IsModified(c.(destExists := true, destModified := written))
  {
  }

  /** The decision of an existing destination only depends on the order of
      the two times: a newer destination never makes a page less settled. */
  lemma ReasonMonotone(c: BuildContext, later: int)
    requires c.destExists && later >= c.destModified
    ensures Reason(c) == Unchanged ==> Reason(c.(destModified := later)) == Unchanged
    ensures IsModified(c.(destModified := later)) ==> IsModified(c)
  {
  }
}
