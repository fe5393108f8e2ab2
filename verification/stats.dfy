/** Build statistics: one counter per build reason plus errors and drafts,
    and the multi-line summary printed at the end of a build. */
module Stats {
  import opened Context
  import opened Text

  /** The counters of one build; `timeSeconds` is the wall-clock duration. */
  datatype BuildStats = BuildStats(
    created: nat,
    changed: nat,
    unchangedCount: nat,  // `unchanged` is a Dafny keyword
    deleted: nat,
    errors: nat,
    draft: nat,
    timeSeconds: real)

  /** The statistics of a build that has not processed anything yet. */
  const Fresh: BuildStats := BuildStats(0, 0, 0, 0, 0, 0, 0.0)

  /** The counter kept for a build reason. */
  function Count(s: BuildStats, r: BuildReason): nat
  {
    match r
    case Created => s.created
    case Changed => s.changed
    case Unchanged => s.unchangedCount
    case Deleted => s.deleted
  }

  /** Sum of the four per-reason counters. */
  function ReasonTotal(s: BuildStats): nat
  {
    s.created + s.changed + s.unchangedCount + s.deleted
  }

  /** Records one page built for reason `r`: that counter goes up by one and
      nothing else changes. */
  function AddStat(s: BuildStats, r: BuildReason): (t: BuildStats)
    ensures Count(t, r) == Count(s, r) + 1
    ensures forall q :: q != r ==> Count(t, q) == Count(s, q)
    ensures ReasonTotal(t) == ReasonTotal(s) + 1
    ensures t.errors == s.errors && t.draft == s.draft && t.timeSeconds == s.timeSeconds
  {
    match r
    case Changed => s.(changed := s.changed + 1)
    case Unchanged => s.(unchangedCount := s.unchangedCount + 1)
    case Created => s.(created := s.created + 1)
    case Deleted => s.(deleted := s.deleted + 1)
  }

  // ---------------------------------------------------------------------
  // Summary
  // ---------------------------------------------------------------------

  const NothingToDo: string := "Nothing to do."
  const StatusErrors: string := "Build finished with errors."
  const StatusOk: string := "Build finished successfully."

  /** The statistics the summary lists, in the order it lists them. */
  const StatNames: seq<string> := ["Created", "Draft", "Changed", "Unchanged", "Deleted", "Errors"]

  function StatValues(s: BuildStats): (vs: seq<nat>)
    ensures |vs| == |StatNames|
  {
    [s.created, s.draft, s.changed, s.unchangedCount, s.deleted, s.errors]
  }

  /** The length of the longest name, 0 for none. */
  function Width(names: seq<string>): (w: nat)
    ensures forall k :: 0 <= k < |names| ==> |names[k]| <= w
    ensures names == [] ==> w == 0
    ensures names != [] ==> exists k :: 0 <= k < |names| && |names[k]| == w
  {
    if names == [] then 0
    else
      var w := Width(names[1..]);
      assert forall k :: 1 <= k < |names| ==> names[k] == names[1..][k - 1];
      if |names[0]| >= w then |names[0]| else w
  }

  /** The names column is as wide as "Unchanged". */
  lemma StatWidth()
    ensures Width(StatNames) == 9
  {
    var w := Width(StatNames);
    assert |StatNames[3]| == 9;
    assert forall k :: 0 <= k < |StatNames| ==> |StatNames[k]| <= 9;
  }

  /** One statistic row: two spaces, the padded name, a space, the value. */
  function Row(name: string, width: nat, value: nat): string
  {
    "  " + LJust(name, width) + " " + NatToString(value)
  }

  /** The layout of a row whose name fits the column: the name starts at
      column 2, spaces pad it to the column's width, a single space follows,
      and the digits after it read back as the value. */
  lemma RowLayout(name: string, width: nat, value: nat)
    requires |name| <= width
    ensures var r := Row(name, width, value);
      && |r| == 3 + width + |NatToString(value)|
      && r[..2] == "  "
      && r[2..2 + |name|] == name
      && (forall j :: 2 + |name| <= j < 3 + width ==> r[j] == ' ')
      && AllDigits(r[3 + width..]) && ParseNat(r[3 + width..]) == value
  {
    var r := Row(name, width, value);
    var padded := LJust(name, width);
    assert r == "  " + padded + " " + NatToString(value);
    assert r[2..2 + |name|] == padded[..|name|];
    assert r[3 + width..] == NatToString(value);
  }

  /** The indices at or after `k` whose value is nonzero, in increasing order. */
  function NonzeroFrom(values: seq<nat>, k: nat): (idx: seq<nat>)
    requires k <= |values|
    ensures forall j :: 0 <= j < |idx| ==> k <= idx[j] < |values| && values[idx[j]] != 0
    ensures forall i :: k <= i < |values| && values[i] != 0 ==> i in idx
    ensures forall j, l :: 0 <= j < l < |idx| ==> idx[j] < idx[l]
    decreases |values| - k
  {
    if k == |values| then []
    else if values[k] != 0 then [k] + NonzeroFrom(values, k + 1)
    else NonzeroFrom(values, k + 1)
  }

  /** The rows of the statistics whose value is nonzero, in table order. */
  function Rows(names: seq<string>, values: seq<nat>, width: nat): (rows: seq<string>)
    requires |names| == |values|
    ensures |rows| == |NonzeroFrom(values, 0)|
  {
    var idx := NonzeroFrom(values, 0);
    seq(|idx|, j requires 0 <= j < |idx| => Row(names[idx[j]], width, values[idx[j]]))
  }

  /** The two lines that open a non-empty build's summary: the status, then
      the page count and duration. `time` stands for the duration already
      formatted with two decimals. */
  function Header(s: BuildStats, totalPages: int, time: string): (h: seq<string>)
    ensures |h| == 2
  {
    var status := if s.errors != 0 then StatusErrors else StatusOk;
    [status, "Processed " + IntToString(totalPages) + " pages in " + time + "s."]
  }

  /** The lines of a non-empty build's summary. */
  function SummaryLines(s: BuildStats, totalPages: int, time: string): (lines: seq<string>)
    ensures |lines| >= 2
  {
    Header(s, totalPages, time) + Rows(StatNames, StatValues(s), Width(StatNames))
  }

  /** The summary: "Nothing to do." for a build without pages, otherwise the
      summary lines joined by newlines. */
  function Summary(s: BuildStats, totalPages: int, time: string): (r: string)
    ensures totalPages == 0 ==> r == NothingToDo
  {
    if totalPages == 0 then NothingToDo
    else Join(SummaryLines(s, totalPages, time), '\n')
  }

  /** What a reader of a non-empty build's summary sees, line by line: the
      status line names errors exactly when there were some; the second line
      gives the page count; after it comes one row per nonzero statistic, in
      the fixed order Created, Draft, Changed, Unchanged, Deleted, Errors,
      each a name padded to 9 columns and its value. */
  lemma SummaryShape(s: BuildStats, totalPages: int, time: string)
    requires totalPages != 0
    requires '\n' !in time
    ensures var lines := Split(Summary(s, totalPages, time), '\n');
      var idx := NonzeroFrom(StatValues(s), 0);
      && |lines| == 2 + |idx|
      && (lines[0] == StatusErrors <==> s.errors != 0)
      && (lines[0] == StatusOk <==> s.errors == 0)
      && lines[1] == "Processed " + IntToString(totalPages) + " pages in " + time + "s."
      && (forall k :: 0 <= k < |StatNames| ==> (k in idx <==> StatValues(s)[k] != 0))
      && (forall j :: 0 <= j < |idx| ==> lines[2 + j] == Row(StatNames[idx[j]], 9, StatValues(s)[idx[j]]))
  {
    SummaryRoundTrip(s, totalPages, time);
    SummaryStatus(s, totalPages, time);
    SummaryRows(s, totalPages, time);
    StatWidth();
  }

  /** A non-empty summary splits back into its lines. */
  lemma SummaryRoundTrip(s: BuildStats, totalPages: int, time: string)
    requires totalPages != 0
    requires '\n' !in time
    ensures Split(Summary(s, totalPages, time), '\n') == SummaryLines(s, totalPages, time)
  {
    SummaryLinesHaveNoNewline(s, totalPages, time);
    SplitJoin(SummaryLines(s, totalPages, time), '\n');
  }

  /** The status line names errors exactly when there were some. */
  lemma SummaryStatus(s: BuildStats, totalPages: int, time: string)
    ensures var lines := SummaryLines(s, totalPages, time);
      && (lines[0] == StatusErrors <==> s.errors != 0)
      && (lines[0] == StatusOk <==> s.errors == 0)
      && lines[1] == "Processed " + IntToString(totalPages) + " pages in " + time + "s."
  {
    StatusLinesDiffer();
  }

  /** After the two header lines come the rows of the nonzero statistics. */
  lemma SummaryRows(s: BuildStats, totalPages: int, time: string)
    ensures var lines := SummaryLines(s, totalPages, time);
      var idx := NonzeroFrom(StatValues(s), 0);
      && |lines| == 2 + |idx|
      && (forall k :: 0 <= k < |StatNames| ==> (k in idx <==> StatValues(s)[k] != 0))
      && (forall j :: 0 <= j < |idx| ==> lines[2 + j] == Row(StatNames[idx[j]], Width(StatNames), StatValues(s)[idx[j]]))
  {
    SummaryRowCount(s, totalPages, time);
    SummaryRowContents(s, totalPages, time);
  }

  lemma SummaryRowCount(s: BuildStats, totalPages: int, time: string)
    ensures |SummaryLines(s, totalPages, time)| == 2 + |NonzeroFrom(StatValues(s), 0)|
  {
    HeaderThenRows(Header(s, totalPages, time), StatNames, StatValues(s), Width(StatNames));
  }

  lemma SummaryRowContents(s: BuildStats, totalPages: int, time: string)
    ensures var lines := SummaryLines(s, totalPages, time);
      var idx := NonzeroFrom(StatValues(s), 0);
      forall j :: 0 <= j < |idx| ==> lines[2 + j] == Row(StatNames[idx[j]], Width(StatNames), StatValues(s)[idx[j]])
  {
    HeaderThenRows(Header(s, totalPages, time), StatNames, StatValues(s), Width(StatNames));
  }

  /** Lines made of a header followed by rows: the row lines are exactly the
      rows of the nonzero values, in order. */
  lemma HeaderThenRows(header: seq<string>, names: seq<string>, values: seq<nat>, width: nat)
    requires |names| == |values|
    ensures var lines := header + Rows(names, values, width);
      var idx := NonzeroFrom(values, 0);
      && |lines| == |header| + |idx|
      && (forall k :: 0 <= k < |values| ==> (k in idx <==> values[k] != 0))
      && (forall j :: 0 <= j < |idx| ==> lines[|header| + j] == Row(names[idx[j]], width, values[idx[j]]))
  {
    var rows := Rows(names, values, width);
    var lines := header + rows;
    forall j | 0 <= j < |rows|
      ensures lines[|header| + j] == rows[j]
    {
    }
  }

  lemma StatusLinesDiffer()
    ensures StatusErrors != StatusOk
  {
    assert |StatusErrors| == 27 && |StatusOk| == 28;
  }

  /** No line contains a newline, so joining with newlines can be undone. */
  predicate NoNewlines(lines: seq<string>)
  {
    forall k :: 0 <= k < |lines| ==> '\n' !in lines[k]
  }

  lemma SummaryLinesHaveNoNewline(s: BuildStats, totalPages: int, time: string)
    requires '\n' !in time
    ensures NoNewlines(SummaryLines(s, totalPages, time))
  {
    HeaderHasNoNewline(s, totalPages, time);
    StatRowsHaveNoNewline(s);
    ConcatHasNoNewline(Header(s, totalPages, time), Rows(StatNames, StatValues(s), Width(StatNames)));
  }

  /** No line of a concatenation contains a newline when no line of either part does. */
  lemma ConcatHasNoNewline(a: seq<string>, b: seq<string>)
    requires NoNewlines(a) && NoNewlines(b)
    ensures NoNewlines(a + b)
  {
    forall k | 0 <= k < |a + b|
      ensures '\n' !in (a + b)[k]
    {
      if k >= |a| {
        assert (a + b)[k] == b[k - |a|];
      }
    }
  }

  lemma HeaderHasNoNewline(s: BuildStats, totalPages: int, time: string)
    requires '\n' !in time
    ensures NoNewlines(Header(s, totalPages, time))
  {
    StatusHasNoNewline(s.errors != 0);
    NoNewlineInProcessed(totalPages, time);
  }

  lemma StatRowsHaveNoNewline(s: BuildStats)
    ensures NoNewlines(Rows(StatNames, StatValues(s), Width(StatNames)))
  {
    forall k | 0 <= k < |StatNames|
      ensures '\n' !in StatNames[k]
    {
      StatNameHasNoNewline(k);
    }
    RowsHaveNoNewline(StatNames, StatValues(s), Width(StatNames));
  }

  /** Rows built from names without a newline contain none. */
  lemma RowsHaveNoNewline(names: seq<string>, values: seq<nat>, width: nat)
    requires |names| == |values|
    requires NoNewlines(names)
    ensures NoNewlines(Rows(names, values, width))
  {
    var rows := Rows(names, values, width);
    var idx := NonzeroFrom(values, 0);
    forall j | 0 <= j < |rows|
      ensures '\n' !in rows[j]
    {
      NoNewlineInRow(names[idx[j]], width, values[idx[j]]);
    }
  }

  lemma StatusHasNoNewline(failed: bool)
    ensures '\n' !in (if failed then StatusErrors else StatusOk)
  {
    var status := if failed then StatusErrors else StatusOk;
    forall j | 0 <= j < |status|
      ensures status[j] != '\n'
    {
      assert ' ' <= status[j] <= 'z';
    }
  }

  lemma StatNameHasNoNewline(k: nat)
    requires k < |StatNames|
    ensures '\n' !in StatNames[k]
  {
    var name := StatNames[k];
    forall j | 0 <= j < |name|
      ensures name[j] != '\n'
    {
      assert 'A' <= name[j] <= 'z';
    }
  }

  lemma NoNewlineInRow(name: string, width: nat, value: nat)
    requires '\n' !in name
    ensures '\n' !in Row(name, width, value)
  {
    var r := Row(name, width, value);
    var digits := NatToString(value);
    assert r == "  " + LJust(name, width) + " " + digits;
    forall j | 0 <= j < |digits|
      ensures digits[j] != '\n'
    {
      assert IsDigit(digits[j]);
    }
  }

  lemma NoNewlineInProcessed(totalPages: int, time: string)
    requires '\n' !in time
    ensures '\n' !in "Processed " + IntToString(totalPages) + " pages in " + time + "s."
  {
    var n := IntToString(totalPages);
    forall j | 0 <= j < |n|
      ensures n[j] != '\n'
    {
      if j > 0 || totalPages >= 0 {
        assert n[j] == if totalPages < 0 then n[1..][j - 1] else n[j];
      }
    }
  }
}
