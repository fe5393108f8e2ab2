/** Paths as sequences of segments, with the parts of Python's `pathlib` the
    build relies on: `name`, `suffix`, `stem`, `with_suffix`, `joinpath` and
    the `str.lower` applied to suffixes before they are compared. */
module Paths {
  import opened Wrappers

  /** A path is its sequence of segments; the last segment is the name. */
  type Path = seq<string>

  /** `str.lower` on one character: ASCII upper-case letters, and the KELVIN
      SIGN, which Python lower-cases to the ASCII letter `k`. */
  function LowerChar(c: char): char
  {
    if 'A' <= c <= 'Z' then (c as int + 32) as char
    else if c == '\U{212A}' then 'k'
    else c
  }

  function Lower(s: string): (r: string)
    ensures |r| == |s|
    ensures forall i :: 0 <= i < |s| ==> r[i] == LowerChar(s[i])
  {
    if s == [] then [] else [LowerChar(s[0])] + Lower(s[1..])
  }

  /** Lower-casing twice is lower-casing once. */
  lemma LowerIdempotent(s: string)
    ensures Lower(Lower(s)) == Lower(s)
  {
  }

  /** Text with no character that lower-casing changes. */
  predicate LowerAlready(s: string)
  {
    forall i :: 0 <= i < |s| ==> s[i] == '.' || 'a' <= s[i] <= 'z'
  }

  /** Lower-casing leaves such text as it is. */
  lemma LowerFixed(s: string)
    requires LowerAlready(s)
    ensures Lower(s) == s
  {
    assert forall i :: 0 <= i < |s| ==> Lower(s)[i] == s[i];
  }

  /** Index of the last `.` in `name`, or -1 when there is none (`str.rfind`). */
  function LastDot(name: string): (i: int)
    ensures -1 <= i < |name|
    ensures i >= 0 ==> name[i] == '.'
    ensures forall j :: i < j < |name| ==> name[j] != '.'
  {
    if name == [] then -1
    else if name[|name| - 1] == '.' then |name| - 1
    else LastDot(name[..|name| - 1])
  }

  /** A dot with no dot after it is the last dot. */
  lemma LastDotUnique(name: string)
    ensures forall k :: 0 <= k < |name| && name[k] == '.' && (forall j :: k < j < |name| ==> name[j] != '.') ==> k == LastDot(name)
  {
  }

  /** `PurePath.name`: the last segment, or "" for the empty path. */
  function Name(p: Path): string
  {
    if p == [] then "" else p[|p| - 1]
  }

  /** `PurePath.suffix` of a name: from the last dot on, unless that dot is
      the first or the last character of the name. */
  function NameSuffix(name: string): (r: string)
    ensures r == "" || (|r| >= 2 && r[0] == '.' && |r| < |name|)
    ensures forall j :: 0 < j < |r| ==> r[j] != '.'
    ensures r == name[|name| - |r|..]
    ensures r != "" <==> exists i :: 0 < i < |name| - 1 && name[i] == '.' && forall j :: i < j < |name| ==> name[j] != '.'
  {
    var i := LastDot(name);
    LastDotUnique(name);
    if 0 < i < |name| - 1 then name[i..] else ""
  }

  /** `PurePath.stem` of a name: the name without its suffix. */
  function NameStem(name: string): (r: string)
    ensures name != "" ==> r != ""
  {
    var i := LastDot(name);
    if 0 < i < |name| - 1 then name[..i] else name
  }

  /** Stem and suffix reassemble the name. */
  lemma StemSuffixSplit(name: string)
    ensures NameStem(name) + NameSuffix(name) == name
  {
  }

  function PathSuffix(p: Path): string
  {
    NameSuffix(Name(p))
  }

  /** The suffixes `with_suffix` accepts: no separator, and either empty or a
      dot followed by at least one character. */
  predicate ValidSuffix(s: string)
  {
    '/' !in s && (s == "" || (s[0] == '.' && s != "."))
  }

  /** `PurePath.with_suffix`: replaces the suffix of the name, keeping every
      directory segment; `None` where Python raises `ValueError`. */
  function WithSuffix(p: Path, suffix: string): (r: Option<Path>)
    ensures r.Some? <==> ValidSuffix(suffix) && Name(p) != ""
    ensures r.Some? ==> |r.value| == |p|
    ensures r.Some? ==> r.value[..|p| - 1] == p[..|p| - 1]
    ensures r.Some? ==> Name(r.value) == NameStem(Name(p)) + suffix
  {
    if !ValidSuffix(suffix) || Name(p) == "" then None
    else Some(p[..|p| - 1] + [NameStem(Name(p)) + suffix])
  }

  /** A suffix with exactly one dot, at its start, such as `.html`. */
  predicate SimpleSuffix(s: string)
  {
    && |s| >= 2 && s[0] == '.' && '/' !in s
    && forall j :: 0 < j < |s| ==> s[j] != '.'
  }

  /** The last dot of `stem + suffix` is the dot that starts a simple suffix. */
  lemma LastDotOfSuffixed(stem: string, suffix: string)
    requires SimpleSuffix(suffix)
    ensures LastDot(stem + suffix) == |stem|
  {
    var name := stem + suffix;
    var i := LastDot(name);
    assert name[|stem|] == '.';
  }

  /** Replacing the suffix by a simple one makes it the new suffix and keeps
      the stem: reading back what `with_suffix` wrote. */
  lemma WithSuffixRoundTrip(p: Path, suffix: string)
    requires Name(p) != ""
    requires SimpleSuffix(suffix)
    ensures WithSuffix(p, suffix).Some?
    ensures PathSuffix(WithSuffix(p, suffix).value) == suffix
    ensures NameStem(Name(WithSuffix(p, suffix).value)) == NameStem(Name(p))
  {
    var stem := NameStem(Name(p));
    LastDotOfSuffixed(stem, suffix);
    assert Name(WithSuffix(p, suffix).value) == stem + suffix;
  }

  /** `with_suffix` on a path that has a name, with a simple suffix: it
      cannot fail, and it keeps the directory and the stem. */
  function ReplaceSuffix(p: Path, suffix: string): (d: Path)
    requires Name(p) != ""
    requires SimpleSuffix(suffix)
    ensures WithSuffix(p, suffix) == Some(d)
    ensures |d| == |p| && d[..|p| - 1] == p[..|p| - 1]
    ensures NameStem(Name(d)) == NameStem(Name(p))
    ensures PathSuffix(d) == suffix
  {
    WithSuffixRoundTrip(p, suffix);
    WithSuffix(p, suffix).value
  }

  /** `PurePath.joinpath` with relative segments. */
  function JoinPath(base: Path, rel: Path): (r: Path)
    ensures |r| == |base| + |rel|
    ensures r[..|base|] == base
    ensures rel != [] ==> Name(r) == Name(rel)
  {
    base + rel
  }
}
