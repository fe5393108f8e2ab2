/** The console log formatter: warnings and errors are wrapped in ANSI colour
    codes with a level prefix, every other record is the bare message. */
module Log {
  import opened Wrappers

  /** Numeric levels of Python's `logging` module. */
  const Warning: int := 30
  const Error: int := 40

  const Esc: char := '\U{1B}'
  const WarningColor: string := [Esc] + "[33m"
  const ErrorColor: string := [Esc] + "[31m"
  const ResetColor: string := [Esc] + "[0m"

  /** What `Format` puts before the message at `level`. */
  function Lead(level: int): string
  {
    if level == Warning then WarningColor + "Warn: "
    else if level == Error then ErrorColor + "Error: "
    else ""
  }

  /** What `Format` puts after the message at `level`. */
  function Trail(level: int): string
  {
    if level == Warning || level == Error then ResetColor else ""
  }

  /** The formatted record: the message verbatim, between the level's lead
      and trail. */
  function Format(level: int, message: string): (r: string)
    ensures level == Warning ==> r == WarningColor + "Warn: " + message + ResetColor
    ensures level == Error ==> r == ErrorColor + "Error: " + message + ResetColor
    ensures level != Warning && level != Error ==> r == message
    ensures |r| == |Lead(level)| + |message| + |Trail(level)|
    ensures r[|Lead(level)|..|Lead(level)| + |message|] == message
  {
    var warnFormat := WarningColor + "Warn: " + message + ResetColor;
    var errorFormat := ErrorColor + "Error: " + message + ResetColor;
    if level == Warning then warnFormat
    else if level == Error then errorFormat
    else message
  }

  /** Reads the message back out of a record formatted at `level`; `None`
      when the text does not carry that level's lead and trail. */
  function Unformat(level: int, text: string): (m: Option<string>)
    ensures m.Some? ==> Format(level, m.value) == text
  {
    var lead, trail := Lead(level), Trail(level);
    if |lead| + |trail| <= |text| && text[..|lead|] == lead && text[|text| - |trail|..] == trail then
      var m := text[|lead|..|text| - |trail|];
      assert text == lead + m + trail;
      Some(m)
    else None
  }

  /** The formatted record always gives the message back: nothing of the
      message is lost or altered at any level. */
  lemma FormatRoundTrip(level: int, message: string)
    ensures Unformat(level, Format(level, message)) == Some(message)
  {
    var r := Format(level, message);
    var lead, trail := Lead(level), Trail(level);
    assert r == lead + message + trail;
    assert r[..|lead|] == lead;
    assert r[|r| - |trail|..] == trail;
  }

  /** Two records at the same level are equal only for equal messages. */
  lemma FormatInjective(level: int, m1: string, m2: string)
    requires Format(level, m1) == Format(level, m2)
    ensures m1 == m2
  {
    FormatRoundTrip(level, m1);
    FormatRoundTrip(level, m2);
  }
}
