/** The string formatting the build summary uses: decimal rendering of
    integers (`f"{n}"`), `str.ljust`, and `"\n".join` together with the
    `str.split` that undoes it. */
module Text {

  predicate IsDigit(c: char)
  {
    '0' <= c <= '9'
  }

  predicate AllDigits(s: string)
  {
    forall i :: 0 <= i < |s| ==> IsDigit(s[i])
  }

  function DigitChar(d: nat): (c: char)
    requires d < 10
    ensures IsDigit(c)
    ensures c as int - '0' as int == d
  {
    ('0' as int + d) as char
  }

  /** The value of a string of decimal digits. */
  function ParseNat(s: string): nat
    requires AllDigits(s)
  {
    if s == [] then 0
    else 10 * ParseNat(s[..|s| - 1]) + (s[|s| - 1] as int - '0' as int)
  }

  /** Decimal rendering of a natural number, without leading zeros. */
  function NatToString(n: nat): (r: string)
    ensures |r| >= 1
    ensures AllDigits(r)
    ensures ParseNat(r) == n
    ensures r[0] == '0' ==> r == "0"
  {
    if n < 10 then [DigitChar(n)]
    else
      var front := NatToString(n / 10);
      assert (front + [DigitChar(n % 10)])[..|front|] == front;
      front + [DigitChar(n % 10)]
  }

  /** Decimal rendering of an integer, with a leading minus when negative. */
  function IntToString(i: int): (r: string)
    ensures |r| >= 1
    ensures r[0] == '-' <==> i < 0
    ensures i < 0 ==> AllDigits(r[1..]) && ParseNat(r[1..]) == -i
    ensures i >= 0 ==> AllDigits(r) && ParseNat(r) == i
  {
    if i < 0 then "-" + NatToString(-i) else NatToString(i)
  }

  /** `str.ljust(width)`: pads with spaces on the right up to `width`. */
  function LJust(s: string, width: nat): (r: string)
    ensures |r| == if |s| < width then width else |s|
    ensures r[..|s|] == s
    ensures forall j :: |s| <= j < |r| ==> r[j] == ' '
  {
    if |s| < width then s + seq(width - |s|, _ => ' ') else s
  }

  /** `sep.join(lines)`. */
  function Join(lines: seq<string>, sep: char): string
  {
    if |lines| == 0 then ""
    else if |lines| == 1 then lines[0]
    else lines[0] + [sep] + Join(lines[1..], sep)
  }

  /** Index of the first `c` in `s`, or `|s|` when there is none. */
  function IndexOf(s: string, c: char): (i: nat)
    ensures i <= |s|
    ensures i < |s| ==> s[i] == c
    ensures forall j :: 0 <= j < i ==> s[j] != c
  {
    if s == [] then 0
    else if s[0] == c then 0
    else 1 + IndexOf(s[1..], c)
  }

  /** `s.split(sep)`: the pieces between separators, at least one. */
  function Split(s: string, sep: char): (r: seq<string>)
    ensures |r| >= 1
    ensures forall k :: 0 <= k < |r| ==> sep !in r[k]
    decreases |s|
  {
    var i := IndexOf(s, sep);
    if i == |s| then [s] else [s[..i]] + Split(s[i + 1..], sep)
  }

  /** Splitting a join at its separator gives back the lines, provided no
      line contains the separator. */
  lemma {:induction false} SplitJoin(lines: seq<string>, sep: char)
    requires |lines| >= 1
    requires forall k :: 0 <= k < |lines| ==> sep !in lines[k]
    ensures Split(Join(lines, sep), sep) == lines
    decreases |lines|
  {
    if |lines| == 1 {
      assert IndexOf(lines[0], sep) == |lines[0]|;
    } else {
      var head := lines[0];
      var rest := Join(lines[1..], sep);
      var s := head + [sep] + rest;
      assert IndexOf(s, sep) == |head| by {
        assert s[|head|] == sep;
        forall j | 0 <= j < |head|
          ensures s[j] != sep
        {
          assert s[j] == head[j];
        }
      }
      assert s[..|head|] == head;
      assert s[|head| + 1..] == rest;
      SplitJoin(lines[1..], sep);
      assert [head] + lines[1..] == lines;
    }
  }
}
