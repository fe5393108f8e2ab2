/** The source tree and the enumeration of pages: the recursive directory
    node and its iteration order, the site root's page enumeration over a
    directory listing, and the removal of rendered HTML from the output
    directory. */
module Site {
  import opened Wrappers
  import opened Paths
  import opened Context

  // ---------------------------------------------------------------------
  // Directory nodes
  // ---------------------------------------------------------------------

  /** A directory: its path, the path of its parent (a non-owning reference;
      `None` at the root), the pages directly inside it, and its
      subdirectories in order. */
  datatype TreeNode = TreeNode(path: Path, parent: Option<Path>, pages: seq<BuildContext>, dirs: seq<TreeNode>)

  /** A fresh node keeps its path and parent and holds nothing yet. */
  function NewNode(path: Path, parent: Option<Path>): (n: TreeNode)
    ensures n.path == path && n.parent == parent
    ensures n.pages == [] && n.dirs == []
    ensures Iter(n) == [] && PageCount(n) == 0
  {
    TreeNode(path, parent, [], [])
  }

  /** Number of pages in a node and all of its descendants. */
  function PageCount(n: TreeNode): nat
    decreases n, 1
  {
    |n.pages| + DirsCount(n.dirs)
  }

  function DirsCount(ds: seq<TreeNode>): nat
    decreases ds, 0
  {
    if ds == [] then 0 else PageCount(ds[0]) + DirsCount(ds[1..])
  }

  /** The iteration of a node: its own pages, then every subdirectory's
      iteration, depth first, in `dirs` order. */
  function Iter(n: TreeNode): (r: seq<BuildContext>)
    ensures |r| == PageCount(n)
    ensures r[..|n.pages|] == n.pages
    decreases n, 1
  {
    n.pages + IterDirs(n.dirs)
  }

  function IterDirs(ds: seq<TreeNode>): (r: seq<BuildContext>)
    ensures |r| == DirsCount(ds)
    decreases ds, 0
  {
    if ds == [] then [] else Iter(ds[0]) + IterDirs(ds[1..])
  }

  lemma {:induction false} DirsCountConcat(a: seq<TreeNode>, b: seq<TreeNode>)
    ensures DirsCount(a + b) == DirsCount(a) + DirsCount(b)
    decreases |a|
  {
    if a == [] {
      assert a + b == b;
    } else {
      assert (a + b)[1..] == a[1..] + b;
      DirsCountConcat(a[1..], b);
    }
  }

  /** Iterating a concatenation of directories iterates each part in turn. */
  lemma {:induction false} IterDirsConcat(a: seq<TreeNode>, b: seq<TreeNode>)
    ensures IterDirs(a + b) == IterDirs(a) + IterDirs(b)
    decreases |a|
  {
    if a == [] {
      assert a + b == b;
    } else {
      assert (a + b)[1..] == a[1..] + b;
      assert (a + b)[0] == a[0];
      IterDirsConcat(a[1..], b);
    }
  }

  /** Appending a subdirectory appends its whole iteration after everything
      the node yielded before: siblings are visited in list order. */
  lemma AppendDir(n: TreeNode, d: TreeNode)
    ensures Iter(n.(dirs := n.dirs + [d])) == Iter(n) + Iter(d)
  {
    var m := n.(dirs := n.dirs + [d]);
    assert IterDirs([d]) == Iter(d) by {
      assert [d][1..] == [];
    }
    assert IterDirs(m.dirs) == IterDirs(n.dirs) + Iter(d) by {
      IterDirsConcat(n.dirs, [d]);
    }
    assert Iter(m) == n.pages + (IterDirs(n.dirs) + Iter(d));
  }

  /** Appending a page puts it after the node's own pages and before every
      page of a subdirectory. */
  lemma AppendPage(n: TreeNode, p: BuildContext)
    ensures Iter(n.(pages := n.pages + [p])) == n.pages + [p] + IterDirs(n.dirs)
  {
  }

  /** Depth-first layout: the pages of the `i`-th subdirectory's subtree form
      one contiguous block, placed after the node's own pages and after the
      subtrees of all earlier siblings. */
  lemma ChildSlice(n: TreeNode, i: nat)
    requires i < |n.dirs|
    ensures var start := |n.pages| + DirsCount(n.dirs[..i]);
            start + PageCount(n.dirs[i]) <= |Iter(n)|
            && Iter(n)[start..start + PageCount(n.dirs[i])] == Iter(n.dirs[i])
  {
    var at := DirsCount(n.dirs[..i]);
    DirsSlice(n.dirs, i);
    SliceAfter(n.pages, IterDirs(n.dirs), at, at + PageCount(n.dirs[i]));
  }

  lemma SliceAfter<T>(a: seq<T>, b: seq<T>, lo: nat, hi: nat)
    requires lo <= hi <= |b|
    ensures (a + b)[|a| + lo..|a| + hi] == b[lo..hi]
  {
  }

  lemma {:induction false} DirsSlice(ds: seq<TreeNode>, i: nat)
    requires i < |ds|
    ensures DirsCount(ds[..i]) + PageCount(ds[i]) <= DirsCount(ds)
    ensures IterDirs(ds)[DirsCount(ds[..i])..DirsCount(ds[..i]) + PageCount(ds[i])] == Iter(ds[i])
    decreases i
  {
    var head := Iter(ds[0]);
    var tail := IterDirs(ds[1..]);
    assert IterDirs(ds) == head + tail;
    if i == 0 {
      assert ds[..0] == [];
      assert (head + tail)[..|head|] == head;
    } else {
      DirsSlice(ds[1..], i - 1);
      assert ds[..i][1..] == ds[1..][..i - 1];
      assert ds[..i][0] == ds[0];
      assert DirsCount(ds[..i]) == PageCount(ds[0]) + DirsCount(ds[1..][..i - 1]);
      assert ds[1..][i - 1] == ds[i];
      var at := DirsCount(ds[1..][..i - 1]);
      SliceAfter(head, tail, at, at + PageCount(ds[i]));
    }
  }

  /** A page is yielded exactly when it is one of the node's own pages or is
      yielded by one of its subdirectories. */
  lemma {:induction false} IterMembers(n: TreeNode, p: BuildContext)
    ensures p in Iter(n) <==> p in n.pages || exists i :: 0 <= i < |n.dirs| && p in Iter(n.dirs[i])
  {
    IterDirsMembers(n.dirs, p);
  }

  lemma {:induction false} IterDirsMembers(ds: seq<TreeNode>, p: BuildContext)
    ensures p in IterDirs(ds) <==> exists i :: 0 <= i < |ds| && p in Iter(ds[i])
    decreases |ds|
  {
    if ds != [] {
      IterDirsMembers(ds[1..], p);
      if p in IterDirs(ds[1..]) {
        var i :| 0 <= i < |ds[1..]| && p in Iter(ds[1..][i]);
        assert p in Iter(ds[i + 1]);
      }
      if exists i :: 0 <= i < |ds| && p in Iter(ds[i]) {
        var i :| 0 <= i < |ds| && p in Iter(ds[i]);
        if i > 0 {
          assert ds[1..][i - 1] == ds[i];
        }
      }
    }
  }

  // ---------------------------------------------------------------------
  // The site root and its page enumeration
  // ---------------------------------------------------------------------

  const SourceDir: string := "source"
  const DestDir: string := "build"
  const TemplateDir: string := "templates"

  /** A site rooted at `rootPath`, with its tree and its three directories. */
  datatype SiteRoot = SiteRoot(rootPath: Path, tree: TreeNode, sourceDir: Path, destDir: Path, templateDir: Path)

  /** A new site starts from an empty root node and places the source, output
      and template directories directly under the root. */
  function NewSiteRoot(rootPath: Path): (s: SiteRoot)
    ensures s.tree.path == rootPath && s.tree.parent.None? && Iter(s.tree) == []
    ensures s.sourceDir == rootPath + [SourceDir]
    ensures s.destDir == rootPath + [DestDir]
    ensures s.templateDir == rootPath + [TemplateDir]
  {
    SiteRoot(
      rootPath,
      NewNode(rootPath, None),
      JoinPath(rootPath, [SourceDir]),
      JoinPath(rootPath, [DestDir]),
      JoinPath(rootPath, [TemplateDir]))
  }

  /** One entry of a recursive listing of the source directory: its path
      relative to that directory, and whether it is a regular file. */
  datatype Entry = Entry(rel: Path, isFile: bool)

  /** A page to build: the source path and the destination path, both
      relative. */
  datatype Target = Target(source: Path, dest: Path)

  /** A file is a page when its lower-cased suffix is a recognised extension. */
  predicate Recognised(p: Path)
  {
    Lower(PathSuffix(p)) in ValidExt
  }

  /** A recognised path has a name, and its type is parseable. */
  lemma RecognisedHasName(p: Path)
    requires Recognised(p)
    ensures Name(p) != ""
    ensures Classify(PathSuffix(p)) != NotParseable
  {
  }

  /** The suffix every page is written under. */
  const HtmlSuffix: string := ".html"

  lemma HtmlSuffixIsSimple()
    ensures SimpleSuffix(HtmlSuffix)
  {
    assert HtmlSuffix == ['.', 'h', 't', 'm', 'l'];
  }

  /** The output of a page: same directory and stem, suffix `.html`. */
  function HtmlDest(p: Path): (d: Path)
    requires Recognised(p)
    ensures |d| == |p| && d[..|p| - 1] == p[..|p| - 1]
    ensures NameStem(Name(d)) == NameStem(Name(p))
    ensures PathSuffix(d) == HtmlSuffix
  {
    RecognisedHasName(p);
    HtmlSuffixIsSimple();
    ReplaceSuffix(p, HtmlSuffix)
  }

  /** The page an entry of the listing stands for, if any: a regular file
      with a recognised suffix, paired with its output path. */
  function PageOf(e: Entry): (t: Option<Target>)
    ensures t.Some? <==> e.isFile && Recognised(e.rel)
    ensures t.Some? ==> t.value.source == e.rel && t.value.dest == HtmlDest(e.rel)
  {
    if e.isFile && Recognised(e.rel) then Some(Target(e.rel, HtmlDest(e.rel))) else None
  }

  /** A target whose source is recognised and whose destination is its `.html` path. */
  predicate IsPage(t: Target)
  {
    Recognised(t.source) && t.dest == HtmlDest(t.source)
  }

  /** The pages of a listing, in listing order: every regular file with a
      recognised suffix, paired with its output path; everything else is
      skipped silently. */
  function TreeIter(listing: seq<Entry>): (ts: seq<Target>)
    ensures |ts| <= |listing|
    ensures forall k :: 0 <= k < |ts| ==> IsPage(ts[k])
  {
    FilterMapKeeps(listing, PageOf, IsPage);
    FilterMap(listing, PageOf)
  }

  /** A target is enumerated exactly when the listing holds a regular file at
      its source path with a recognised suffix. */
  lemma TreeIterMembers(listing: seq<Entry>, t: Target)
    ensures t in TreeIter(listing) <==>
      Recognised(t.source) && Entry(t.source, true) in listing && t.dest == HtmlDest(t.source)
  {
    FilterMapMembers(listing, PageOf, t);
    if Recognised(t.source) && Entry(t.source, true) in listing && t.dest == HtmlDest(t.source) {
      var k :| 0 <= k < |listing| && listing[k] == Entry(t.source, true);
      assert PageOf(listing[k]) == Some(t);
    }
  }

  /** Enumeration streams: the pages of two consecutive parts of a listing
      are the pages of the first part followed by those of the second. */
  lemma TreeIterConcat(a: seq<Entry>, b: seq<Entry>)
    ensures TreeIter(a + b) == TreeIter(a) + TreeIter(b)
  {
    FilterMapConcat(a, b, PageOf);
  }

  // ---------------------------------------------------------------------
  // Cleaning the output directory
  // ---------------------------------------------------------------------

  /** An output file is rendered HTML when its lower-cased suffix is an HTML extension. */
  predicate IsHtml(p: Path)
  {
    Lower(PathSuffix(p)) in HtmlExt
  }

  /** Removes the rendered HTML files among `listing` (the recursive listing
      of the output directory, in enumeration order) from the set `files` of
      regular files. Returns the files left and the removed paths in the
      order they were removed. */
  method CleanDest(files: set<Path>, listing: seq<Path>) returns (remaining: set<Path>, removed: seq<Path>)
    ensures remaining <= files
    ensures forall p :: p in files && !IsHtml(p) ==> p in remaining
    ensures forall p :: p in files && p !in listing ==> p in remaining
    ensures forall p :: p in files && p in listing && IsHtml(p) ==> p !in remaining && p in removed
    ensures forall k :: 0 <= k < |removed| ==> removed[k] in files && removed[k] in listing && IsHtml(removed[k])
    ensures forall k :: 0 <= k < |removed| ==> removed[k] !in remaining
    ensures forall j, k :: 0 <= j < k < |removed| ==> removed[j] != removed[k]
  {
    remaining, removed := RemoveWhere(files, listing, IsHtml);
  }

  /** Walks `listing` in order and removes from `files` every regular file
      that `selected` picks, recording each removal once. */
  method RemoveWhere(files: set<Path>, listing: seq<Path>, selected: Path -> bool) returns (remaining: set<Path>, removed: seq<Path>)
    ensures forall p :: p in remaining <==> p in files && p !in removed
    ensures forall k :: 0 <= k < |removed| ==> removed[k] in files && removed[k] in listing && selected(removed[k])
    ensures forall p :: p in files && p in listing && selected(p) ==> p in removed
    ensures forall j, k :: 0 <= j < k < |removed| ==> removed[j] != removed[k]
  {
    remaining := files;
    removed := [];
    var i := 0;
    while i < |listing|
      invariant 0 <= i <= |listing|
      invariant forall p :: p in remaining <==> p in files && p !in removed
      invariant forall k :: 0 <= k < |removed| ==> removed[k] in files && removed[k] in listing && selected(removed[k])
      invariant forall j :: 0 <= j < i && listing[j] in files && selected(listing[j]) ==> listing[j] in removed
      invariant forall j, k :: 0 <= j < k < |removed| ==> removed[j] != removed[k]
    {
      var file := listing[i];
      ghost var before := removed;
      if file in remaining && selected(file) {
        remaining := remaining - {file};
        removed := removed + [file];
      }
      forall j | 0 <= j <= i && listing[j] in files && selected(listing[j])
        ensures listing[j] in removed
      {
        if j < i {
          assert listing[j] in before;
        }
      }
      i := i + 1;
    }
  }
}
