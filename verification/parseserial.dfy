/** The host-side reader of the camera's standardized "Normal 2D" serial
    messages, `N2 id x y w h`. One line is trimmed of trailing whitespace,
    split on whitespace, and accepted only when it has exactly six tokens,
    the first of which is exactly `N2`; the fields are kept as strings. */
module ParseSerial {
  import opened Wrappers
  import opened Tokenize

  /** Python 2's whitespace for byte strings, used by both `rstrip()` and
      `split()`: space, tab, line feed, carriage return, vertical tab and
      form feed. */
  const WHITESPACE: set<char> := {' ', '\t', '\n', '\r', '\U{B}', '\U{C}'}

  /** The message kind the reader accepts. */
  const TAG: string := "N2"

  /** Number of tokens in an N2 message: the tag and five fields. */
  const ARITY: nat := 6

  /** A recognised message, bound positionally as `key, id, x, y, w, h`. */
  datatype N2Msg = N2Msg(key: string, id: string, x: string, y: string, w: string, h: string)

  function Fields(m: N2Msg): seq<string> {
    [m.key, m.id, m.x, m.y, m.w, m.h]
  }

  /** Python's `str.rstrip()`: drops the trailing run of whitespace. */
  function RStrip(s: string): (r: string)
    ensures |r| <= |s| && r == s[..|r|]
    ensures AllDelims(s[|r|..], WHITESPACE)
    ensures |r| == 0 || r[|r| - 1] !in WHITESPACE
    decreases |s|
  {
    if |s| == 0 || s[|s| - 1] !in WHITESPACE then s else RStrip(s[..|s| - 1])
  }

  /** Stripping first changes nothing about the tokens `split()` returns. */
  lemma SplitIgnoresRStrip(line: string)
    ensures Split(RStrip(line), WHITESPACE) == Split(line, WHITESPACE)
  {
    var r := RStrip(line);
    assert line == r + line[|r|..];
    SplitAppendDelims(r, line[|r|..], WHITESPACE);
  }

  /** The per-line body of the reader's loop. A line is accepted exactly when
      its whitespace-separated tokens number six and the first is exactly N2;
      the message then holds those six tokens, in order. */
  function ParseN2(line: string): (r: Option<N2Msg>)
    ensures var toks := Split(line, WHITESPACE);
      && (r.Some? <==> |toks| == ARITY && toks[0] == TAG)
      && (r.Some? ==> Fields(r.value) == toks)
    ensures r.Some? ==> r.value.key == TAG
    ensures r.Some? ==> forall k :: 0 <= k < ARITY ==> IsToken(Fields(r.value)[k], WHITESPACE)
  {
    SplitIgnoresRStrip(line);
    var tok := Split(RStrip(line), WHITESPACE);
    if |tok| < 1 then None
    else if tok[0] != TAG then None
    else if |tok| != ARITY then None
    else Some(N2Msg(tok[0], tok[1], tok[2], tok[3], tok[4], tok[5]))
  }

  /** A timeout (empty line) or a whitespace-only line yields no token, and
      only such a line does; it is skipped. */
  lemma {:induction false} BlankLineSkipped(line: string)
    ensures Split(line, WHITESPACE) == [] <==> AllDelims(line, WHITESPACE)
    ensures AllDelims(line, WHITESPACE) ==> ParseN2(line) == None
  {
    SplitEmptyIffAllDelims(line, WHITESPACE);
  }

  /** How the camera writes a message: the six fields separated by spaces. */
  function Format(m: N2Msg): string {
    Join(Fields(m), ' ')
  }

  /** Round trip: a message written with whitespace-free, non-empty fields
      and tag N2, followed by any line ending or trailing whitespace, is
      parsed back to the same message. */
  lemma FormatRoundTrip(m: N2Msg, eol: string)
    requires m.key == TAG
    requires forall k :: 0 <= k < ARITY ==> IsToken(Fields(m)[k], WHITESPACE)
    requires AllDelims(eol, WHITESPACE)
    ensures ParseN2(Format(m) + eol) == Some(m)
  {
    SplitAppendDelims(Format(m), eol, WHITESPACE);
    SplitJoin(Fields(m), ' ', WHITESPACE);
  }

  /** No numeric validation: a line whose coordinates are not numbers is
      accepted all the same, its fields kept as the strings they are. */
  lemma NonNumericAccepted(line: string)
    requires line == "N2 U42 left top wide tall\r\n"
    ensures ParseN2(line) == Some(N2Msg("N2", "U42", "left", "top", "wide", "tall"))
  {
    var m := N2Msg("N2", "U42", "left", "top", "wide", "tall");
    ExampleFields(m);
    ExampleFormat(m, line);
    FormatRoundTrip(m, "\r\n");
  }

  lemma ExampleFields(m: N2Msg)
    requires m == N2Msg("N2", "U42", "left", "top", "wide", "tall")
    ensures forall k :: 0 <= k < ARITY ==> IsToken(Fields(m)[k], WHITESPACE)
  {
  }

  lemma ExampleFormat(m: N2Msg, line: string)
    requires m == N2Msg("N2", "U42", "left", "top", "wide", "tall")
    requires line == "N2 U42 left top wide tall\r\n"
    ensures Format(m) + "\r\n" == line
  {
    var f := Fields(m);
    assert Join(f[5..], ' ') == "tall";
    assert Join(f[4..], ' ') == "wide" + " " + Join(f[5..], ' ');
    assert Join(f[3..], ' ') == "top" + " " + Join(f[4..], ' ');
    assert Join(f[2..], ' ') == "left" + " " + Join(f[3..], ' ');
    assert Join(f[1..], ' ') == "U42" + " " + Join(f[2..], ' ');
    assert Join(f, ' ') == "N2" + " " + Join(f[1..], ' ');
  }
}
