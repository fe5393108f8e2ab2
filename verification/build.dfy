/** The build loop: walks the enumerated pages, skips the ones that need no
    work unless the build is forced, and tallies each attempted page as an
    error or under a build reason. Rendering a page is an oracle `build`
    that says whether the page raised a file or template error, and
    otherwise whether its destination exists once it is built. */
module Build {
  import opened Wrappers
  import opened Paths
  import opened Context
  import opened Stats

  /** What rendering one page did. */
  datatype Outcome = Failed | Built(destExists: bool)

  /** The reason recorded for a built page, given the page and whether its
      destination exists after the build. */
  type ReasonRule = (BuildContext, bool) -> BuildReason

  /** A page is attempted when it needs building or the build is forced. */
  predicate ShouldAttempt(c: BuildContext, force: bool)
  {
    IsModified(c) || force
  }

  /** The pages the loop attempts, in enumeration order. */
  function Attempted(pages: seq<BuildContext>, force: bool): (r: seq<BuildContext>)
    ensures |r| <= |pages|
    ensures forall k :: 0 <= k < |r| ==> r[k] in pages && ShouldAttempt(r[k], force)
    ensures forall k :: 0 <= k < |pages| && ShouldAttempt(pages[k], force) ==> pages[k] in r
    ensures force ==> r == pages
  {
    if pages == [] then []
    else
      var front := pages[..|pages| - 1];
      var last := pages[|pages| - 1];
      assert pages == front + [last];
      Attempted(front, force) + (if ShouldAttempt(last, force) then [last] else [])
  }

  /** Each page that needs building is attempted as often as it is
      enumerated, and every other page never. */
  lemma {:induction false} AttemptedCounts(pages: seq<BuildContext>, force: bool)
    ensures forall x :: multiset(Attempted(pages, force))[x] == if ShouldAttempt(x, force) then multiset(pages)[x] else 0
  {
    if pages != [] {
      var front, last := pages[..|pages| - 1], pages[|pages| - 1];
      AttemptedCounts(front, force);
      assert pages == front + [last];
      assert multiset(pages) == multiset(front) + multiset{last};
    }
  }

  /** When every page needs building, every page is attempted, in order. */
  lemma {:induction false} AttemptedAll(pages: seq<BuildContext>, force: bool)
    requires forall k :: 0 <= k < |pages| ==> ShouldAttempt(pages[k], force)
    ensures Attempted(pages, force) == pages
  {
    if pages != [] {
      var front, last := pages[..|pages| - 1], pages[|pages| - 1];
      assert ShouldAttempt(last, force);
      AttemptedAll(front, force);
      assert Attempted(pages, force) == front + [last];
      assert pages == front + [last];
    }
  }

  /** The reason the code records: `build_reason` is read after the page is
      built, so its existence test sees the destination as it is then, while
      the destination time stays the one read when the context was made
      (0 for a destination that was missing). */
  function RereadReason(c: BuildContext, existsNow: bool): (r: BuildReason)
    ensures r == Created <==> !existsNow
    ensures existsNow ==> (r == Changed <==> c.sourceModified > c.destModified)
    ensures r != Deleted
  {
    Reason(c.(destExists := existsNow))
  }

  /** The reason decided before the build, whatever the build did. */
  function IntendedReason(c: BuildContext, existsNow: bool): BuildReason
  {
    Reason(c)
  }

  /** How many of `pages` built successfully and were recorded under `r`. */
  function BuiltFor(pages: seq<BuildContext>, build: BuildContext -> Outcome, rule: ReasonRule, r: BuildReason): nat
  {
    if pages == [] then 0
    else
      var last := pages[|pages| - 1];
      BuiltFor(pages[..|pages| - 1], build, rule, r)
        + (if build(last).Built? && rule(last, build(last).destExists) == r then 1 else 0)
  }

  /** How many of `pages` failed to build. */
  function FailedCount(pages: seq<BuildContext>, build: BuildContext -> Outcome): nat
  {
    if pages == [] then 0
    else
      var last := pages[|pages| - 1];
      FailedCount(pages[..|pages| - 1], build) + (if build(last).Failed? then 1 else 0)
  }

  /** Every attempted page is counted once: as a failure or under one reason. */
  lemma {:induction false} EveryPageCountedOnce(pages: seq<BuildContext>, build: BuildContext -> Outcome, rule: ReasonRule)
    ensures BuiltFor(pages, build, rule, Created) + BuiltFor(pages, build, rule, Changed)
          + BuiltFor(pages, build, rule, Unchanged) + BuiltFor(pages, build, rule, Deleted)
          + FailedCount(pages, build) == |pages|
  {
    if pages != [] {
      EveryPageCountedOnce(pages[..|pages| - 1], build, rule);
    }
  }

  /** No page is counted under a reason that no built page gets. */
  lemma {:induction false} BuiltForNone(pages: seq<BuildContext>, build: BuildContext -> Outcome, rule: ReasonRule, q: BuildReason)
    requires forall k :: 0 <= k < |pages| && build(pages[k]).Built? ==> rule(pages[k], build(pages[k]).destExists) != q
    ensures BuiltFor(pages, build, rule, q) == 0
  {
    if pages != [] {
      BuiltForNone(pages[..|pages| - 1], build, rule, q);
    }
  }

  /** Every page is counted under `q` when every page builds and gets `q`. */
  lemma {:induction false} BuiltForEvery(pages: seq<BuildContext>, build: BuildContext -> Outcome, rule: ReasonRule, q: BuildReason)
    requires forall k :: 0 <= k < |pages| ==> build(pages[k]).Built? && rule(pages[k], build(pages[k]).destExists) == q
    ensures BuiltFor(pages, build, rule, q) == |pages|
  {
    if pages != [] {
      BuiltForEvery(pages[..|pages| - 1], build, rule, q);
    }
  }

  lemma AttemptedSnoc(pages: seq<BuildContext>, c: BuildContext, force: bool)
    ensures Attempted(pages + [c], force) == Attempted(pages, force) + (if ShouldAttempt(c, force) then [c] else [])
  {
    assert (pages + [c])[..|pages|] == pages;
  }

  lemma CountsSnoc(pages: seq<BuildContext>, c: BuildContext, build: BuildContext -> Outcome, rule: ReasonRule)
    ensures FailedCount(pages + [c], build) == FailedCount(pages, build) + (if build(c).Failed? then 1 else 0)
    ensures forall r ::
      BuiltFor(pages + [c], build, rule, r)
        == BuiltFor(pages, build, rule, r) + (if build(c).Built? && rule(c, build(c).destExists) == r then 1 else 0)
  {
    assert (pages + [c])[..|pages|] == pages;
  }

  /** One iteration of the loop for page `c`, whose build ended with `o`, the
      reason of a built page coming from `rule`. Returns the new statistics
      and whether the page was attempted. */
  function Step(s: BuildStats, c: BuildContext, force: bool, o: Outcome, rule: ReasonRule): (r: (BuildStats, bool))
    ensures r.1 <==> IsModified(c) || force
    ensures !r.1 ==> r.0 == s
    ensures r.1 && o.Failed? ==> r.0.errors == s.errors + 1 && forall q :: Count(r.0, q) == Count(s, q)
    ensures r.1 && o.Built? ==> r.0.errors == s.errors
    ensures r.1 && o.Built? ==> forall q :: Count(r.0, q) == Count(s, q) + (if q == rule(c, o.destExists) then 1 else 0)
    ensures r.0.draft == s.draft && r.0.timeSeconds == s.timeSeconds
  {
    if !ShouldAttempt(c, force) then (s, false)
    else if o.Failed? then (s.(errors := s.errors + 1), true)
    else (AddStat(s, rule(c, o.destExists)), true)
  }

  /** The statistics count exactly the failures and the per-reason successes
      among `attempted`. */
  predicate Tallied(stats: BuildStats, attempted: seq<BuildContext>, build: BuildContext -> Outcome, rule: ReasonRule)
  {
    && stats.errors == FailedCount(attempted, build)
    && forall r :: Count(stats, r) == BuiltFor(attempted, build, rule, r)
  }

  /** One step of the loop keeps the tally of the pages attempted so far. */
  lemma StepTally(stats: BuildStats, attempted: seq<BuildContext>, c: BuildContext, force: bool,
                  build: BuildContext -> Outcome, rule: ReasonRule)
    requires Tallied(stats, attempted, build, rule)
    ensures var step := Step(stats, c, force, build(c), rule);
      Tallied(step.0, if step.1 then attempted + [c] else attempted, build, rule)
  {
    CountsSnoc(attempted, c, build, rule);
  }

  /** What the loop knows after the first `i` pages: it attempted exactly the
      pages that needed it, tallied them, and touched no other counter. */
  predicate LoopInv(pages: seq<BuildContext>, i: nat, force: bool, stats: BuildStats,
                    attempted: seq<BuildContext>, build: BuildContext -> Outcome, rule: ReasonRule)
  {
    && i <= |pages|
    && attempted == Attempted(pages[..i], force)
    && Tallied(stats, attempted, build, rule)
    && stats.draft == 0 && stats.timeSeconds == 0.0
  }

  /** The loop's invariant survives processing `pages[i]`. */
  lemma LoopStep(pages: seq<BuildContext>, i: nat, force: bool, stats: BuildStats, attempted: seq<BuildContext>,
                 build: BuildContext -> Outcome, rule: ReasonRule)
    requires i < |pages|
    requires LoopInv(pages, i, force, stats, attempted, build, rule)
    ensures var step := Step(stats, pages[i], force, build(pages[i]), rule);
      LoopInv(pages, i + 1, force, step.0, if step.1 then attempted + [pages[i]] else attempted, build, rule)
  {
    assert pages[..i + 1] == pages[..i] + [pages[i]];
    AttemptedSnoc(pages[..i], pages[i], force);
    StepTally(stats, attempted, pages[i], force, build, rule);
  }

  /** Once every page is processed, the tally gives the build's statistics. */
  lemma LoopDone(pages: seq<BuildContext>, force: bool, stats: BuildStats, attempted: seq<BuildContext>,
                 build: BuildContext -> Outcome, rule: ReasonRule)
    requires LoopInv(pages, |pages|, force, stats, attempted, build, rule)
    ensures attempted == Attempted(pages, force)
    ensures ReasonTotal(stats) + stats.errors == |attempted|
  {
    assert pages[..|pages|] == pages;
    EveryPageCountedOnce(attempted, build, rule);
  }

  /** The loop of `build`, recording each built page under `rule`. */
  method RunLoop(force: bool, pages: seq<BuildContext>, build: BuildContext -> Outcome, rule: ReasonRule)
    returns (stats: BuildStats, attempted: seq<BuildContext>)
    ensures attempted == Attempted(pages, force)
    ensures stats.errors == FailedCount(attempted, build)
    ensures forall r :: Count(stats, r) == BuiltFor(attempted, build, rule, r)
    ensures ReasonTotal(stats) + stats.errors == |attempted|
    ensures stats.draft == 0 && stats.timeSeconds == 0.0
  {
    stats := Fresh;
    attempted := [];
    var i := 0;
    while i < |pages|
      invariant LoopInv(pages, i, force, stats, attempted, build, rule)
    {
      var c := pages[i];
      LoopStep(pages, i, force, stats, attempted, build, rule);
      var step := Step(stats, c, force, build(c), rule);
      if step.1 {
        attempted := attempted + [c];
      }
      stats := step.0;
      i := i + 1;
    }
    LoopDone(pages, force, stats, attempted, build, rule);
  }

  /** A page whose destination, if missing, still has an older recorded time
      than its source: true of every context made with a source time after
      the epoch. */
  predicate NewerThanRecorded(c: BuildContext)
  {
    !c.destExists ==> c.sourceModified > c.destModified
  }

  /** Builds the site's pages in order, as the code does: a built page is
      recorded under the reason read after its build. `performClean` and
      `dryRun` are accepted and ignored, as the loop never reads them.
      Returns the final statistics and the pages attempted, in order. */
  method BuildSite(force: bool, performClean: bool, dryRun: bool, pages: seq<BuildContext>, build: BuildContext -> Outcome)
    returns (stats: BuildStats, attempted: seq<BuildContext>)
    ensures attempted == Attempted(pages, force)
    ensures force ==> attempted == pages
    ensures stats.errors == FailedCount(attempted, build)
    ensures forall r :: Count(stats, r) == BuiltFor(attempted, build, RereadReason, r)
    ensures ReasonTotal(stats) + stats.errors == |attempted|
    ensures stats.deleted == 0
    ensures (forall k :: 0 <= k < |pages| ==> build(pages[k]) != Built(false)) ==> stats.created == 0
    ensures !force && (forall k :: 0 <= k < |pages| ==> NewerThanRecorded(pages[k])) ==> stats.unchangedCount == 0
    ensures stats.draft == 0 && stats.timeSeconds == 0.0
  {
    stats, attempted := RunLoop(force, pages, build, RereadReason);
    BuiltForNone(attempted, build, RereadReason, Deleted);
    if forall k :: 0 <= k < |pages| ==> build(pages[k]) != Built(false) {
      NoneCreatedWhenWritten(pages, force, build);
    }
    if !force && forall k :: 0 <= k < |pages| ==> NewerThanRecorded(pages[k]) {
      NoneUnchangedWhenNewer(pages, build);
    }
  }

  /** As written, a page whose build leaves the destination in place is never
      recorded as created. */
  lemma NoneCreatedWhenWritten(pages: seq<BuildContext>, force: bool, build: BuildContext -> Outcome)
    requires forall k :: 0 <= k < |pages| ==> build(pages[k]) != Built(false)
    ensures BuiltFor(Attempted(pages, force), build, RereadReason, Created) == 0
  {
    var a := Attempted(pages, force);
    forall k | 0 <= k < |a|
      ensures build(a[k]) != Built(false)
    {
      assert a[k] in pages;
    }
    BuiltForNone(a, build, RereadReason, Created);
  }

  /** As written, without `force` no page is recorded as unchanged as long as
      every missing destination has an older recorded time than its source. */
  lemma NoneUnchangedWhenNewer(pages: seq<BuildContext>, build: BuildContext -> Outcome)
    requires forall k :: 0 <= k < |pages| ==> NewerThanRecorded(pages[k])
    ensures BuiltFor(Attempted(pages, false), build, RereadReason, Unchanged) == 0
  {
    var a := Attempted(pages, false);
    forall k | 0 <= k < |a|
      ensures NewerThanRecorded(a[k]) && IsModified(a[k])
    {
      assert a[k] in pages;
    }
    BuiltForNone(a, build, RereadReason, Unchanged);
  }

  /** The build loop recording each built page under the reason decided
      before its build, so that a page whose destination was missing counts
      as created. */
  method BuildSiteIntended(force: bool, performClean: bool, dryRun: bool, pages: seq<BuildContext>, build: BuildContext -> Outcome)
    returns (stats: BuildStats, attempted: seq<BuildContext>)
    ensures attempted == Attempted(pages, force)
    ensures stats.errors == FailedCount(attempted, build)
    ensures forall r :: Count(stats, r) == BuiltFor(attempted, build, IntendedReason, r)
    ensures ReasonTotal(stats) + stats.errors == |attempted|
    ensures stats.deleted == 0
    ensures !force ==> stats.unchangedCount == 0
    ensures (forall k :: 0 <= k < |pages| ==> !pages[k].destExists && build(pages[k]).Built?) ==> stats.created == |pages|
    ensures stats.draft == 0 && stats.timeSeconds == 0.0
  {
    stats, attempted := RunLoop(force, pages, build, IntendedReason);
    BuiltForNone(attempted, build, IntendedReason, Deleted);
    if !force {
      BuiltForNone(attempted, build, IntendedReason, Unchanged);
    }
    if forall k :: 0 <= k < |pages| ==> !pages[k].destExists && build(pages[k]).Built? {
      AttemptedAll(pages, force);
      BuiltForEvery(attempted, build, IntendedReason, Created);
    }
  }

  /** A page build that writes its destination. */
  function Writes(c: BuildContext): Outcome
  {
    Built(true)
  }

  /** A new page, source time after the epoch, destination missing: it is
      built because it is to be created, but once its build writes the
      destination the code records it as changed, and a first build of it
      counts nothing as created. */
  lemma NewPageCountedChanged(cwd: Path, source: Path, dest: Path, t: int)
    requires t > 0
    ensures var c := NewContext(cwd, source, dest, t, None);
      && Reason(c) == Created
      && RereadReason(c, true) == Changed
      && BuiltFor([c], Writes, RereadReason, Created) == 0
      && BuiltFor([c], Writes, IntendedReason, Created) == 1
  {
    var c := NewContext(cwd, source, dest, t, None);
    assert [c][..0] == [];
  }
}
