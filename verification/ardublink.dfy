/** The Arduino sketch that lights an LED while the camera reports a chosen
    object. Each call of `loop()` reads one line such as
      DO computer_keyboard:87.5 laptop:3.2
    into a fixed buffer, splits it with `strtok`, and runs a small state
    machine over the tokens: the line is a hit when it starts with `DO` and a
    later `category:score` token names the wanted category. The LED has
    inverted logic: LOW means on. */
module ArduBlink {
  import opened Tokenize

  /** Capacity of the receive buffer `instr`, which holds INLEN + 1 chars. */
  const INLEN: nat := 256

  /** The ImageNet category the sketch waits for. */
  const CATEGORY: string := "computer_keyboard"

  /** The `strtok` delimiters: space, carriage return, line feed (not tab). */
  const DELIMS: set<char> := {' ', '\r', '\n'}

  const NUL: char := '\0'

  /** The state machine's states; the sketch encodes them as the ints
      0, 1, 2 and 1000. */
  datatype State =
    | Start   // 0: nothing seen yet
    | GotDo   // 1: the first token was DO; looking for the category
    | Hit     // 2: DO followed by the wanted category
    | NoDo    // 1000: the first token was not DO

  /** The level written to the LED pin. */
  datatype Level = Low | High

  // ---------------------------------------------------------------------------
  // Receiving one line

  /** Arduino's `Stream::readBytesUntil(terminator, buffer, length)`: the
      characters that arrive before the timeout are `stream`; reading stops
      at the terminator (which is consumed but not stored), at `length`
      characters, or when the stream runs dry. */
  function ReadBytesUntil(stream: string, terminator: char, length: nat): (r: string)
    ensures |r| <= length && |r| <= |stream| && r == stream[..|r|]
    ensures terminator !in r
    ensures |r| < length ==> |r| == |stream| || stream[|r|] == terminator
  {
    if length == 0 || |stream| == 0 || stream[0] == terminator then []
    else [stream[0]] + ReadBytesUntil(stream[1..], terminator, length - 1)
  }

  /** The C conversion of a count to `byte` (unsigned 8-bit): modulo 256. */
  function ByteOf(n: nat): (b: nat)
    ensures b < 256 && b <= n
    ensures n < 256 ==> b == n
    ensures n == 256 ==> b == 0
  {
    n % 256
  }

  /** The buffer after the read: the received characters overwrite its head;
      the rest still holds whatever an earlier call left there. */
  function Store(instr: seq<char>, received: string): (buf: seq<char>)
    requires |received| <= |instr|
    ensures |buf| == |instr|
    ensures buf[..|received|] == received
    ensures forall i :: |received| <= i < |buf| ==> buf[i] == instr[i]
  {
    received + instr[|received|..]
  }

  /** `instr[len] = 0`. */
  function Terminate(buf: seq<char>, len: nat): (r: seq<char>)
    requires len < |buf|
    ensures |r| == |buf| && r[len] == NUL
    ensures forall i :: 0 <= i < |r| && i != len ==> r[i] == buf[i]
  {
    buf[len := NUL]
  }

  /** The C string a `char *` to the buffer denotes: everything before the
      first NUL. */
  function CString(buf: seq<char>): (s: string)
    ensures |s| <= |buf| && s == buf[..|s|]
    ensures NUL !in s
    ensures |s| < |buf| ==> buf[|s|] == NUL
  {
    if |buf| == 0 || buf[0] == NUL then [] else [buf[0]] + CString(buf[1..])
  }

  lemma {:induction false} CStringOfTerminated(s: string, rest: seq<char>)
    ensures CString(s + [NUL] + rest) == CString(s)
    decreases |s|
  {
    if |s| > 0 {
      assert (s + [NUL] + rest)[1..] == s[1..] + [NUL] + rest;
      CStringOfTerminated(s[1..], rest);
    } else {
      assert (s + [NUL] + rest)[0] == NUL;
    }
  }

  /** What `strtok` sees after the read stored `read` and the NUL went to
      index `len` (at most the count read): the first `len` received
      characters up to any NUL among them. Stale buffer content never leaks. */
  lemma StoredLine(instr: seq<char>, read: string, len: nat)
    requires |instr| == INLEN + 1 && |read| <= INLEN && len <= |read|
    ensures CString(Terminate(Store(instr, read), len)) == CString(read[..len])
  {
    var buf := Store(instr, read);
    assert Terminate(buf, len) == read[..len] + [NUL] + buf[len + 1..];
    CStringOfTerminated(read[..len], buf[len + 1..]);
  }

  /** The received line with the count kept in full (as an `int`): the NUL
      goes to index `len` <= INLEN, inside the INLEN + 1 buffer, and the line
      is exactly what was read, up to any NUL byte in it. */
  function ReceivedLine(instr: seq<char>, stream: string): (line: string)
    requires |instr| == INLEN + 1
    ensures line == CString(ReadBytesUntil(stream, '\n', INLEN))
  {
    var read := ReadBytesUntil(stream, '\n', INLEN);
    var len := |read|;
    StoredLine(instr, read, len);
    assert read[..len] == read;
    CString(Terminate(Store(instr, read), len))
  }

  /** The received line as the sketch computes it, with the count stored in a
      `byte`: a read that fills all INLEN = 256 characters wraps to length 0
      and the whole line is discarded. */
  function ReceivedLineAsWritten(instr: seq<char>, stream: string): (line: string)
    requires |instr| == INLEN + 1
    ensures var read := ReadBytesUntil(stream, '\n', INLEN);
      && (|read| < INLEN ==> line == CString(read))
      && (|read| == INLEN ==> line == [])
  {
    var read := ReadBytesUntil(stream, '\n', INLEN);
    var len := ByteOf(|read|);
    StoredLine(instr, read, len);
    assert |read| < INLEN ==> read[..len] == read;
    CString(Terminate(Store(instr, read), len))
  }

  // ---------------------------------------------------------------------------
  // The category:score token

  /** Index of the last ':' in `tok`, or -1 when there is none. */
  function LastColon(tok: string): (i: int)
    ensures -1 <= i < |tok|
    ensures i >= 0 ==> tok[i] == ':'
    ensures forall j :: i < j < |tok| ==> tok[j] != ':'
    decreases |tok|
  {
    if |tok| == 0 then -1
    else if tok[|tok| - 1] == ':' then |tok| - 1
    else LastColon(tok[..|tok| - 1])
  }

  /** The three facts above pin the index down. */
  lemma LastColonUnique(tok: string, i: int)
    requires -1 <= i < |tok|
    requires i >= 0 ==> tok[i] == ':'
    requires forall j :: i < j < |tok| ==> tok[j] != ':'
    ensures i == LastColon(tok)
  {
  }

  /** The sketch's backward scan for the ':' between category and score. */
  method FindLastColon(tok: string) returns (i: int)
    ensures -1 <= i < |tok|
    ensures i >= 0 ==> tok[i] == ':'
    ensures forall j :: i < j < |tok| ==> tok[j] != ':'
    ensures i == LastColon(tok)
  {
    i := |tok| - 1;
    while i >= 0 && tok[i] != ':'
      invariant -1 <= i < |tok|
      invariant forall j :: i < j < |tok| ==> tok[j] != ':'
    {
      i := i - 1;
    }
    LastColonUnique(tok, i);
  }

  /** The category part of a token: what precedes its LAST ':' (the sketch
      overwrites that ':' with NUL), or the whole token if it has no ':'. */
  function Category(tok: string): (cat: string)
    ensures |cat| <= |tok| && cat == tok[..|cat|]
    ensures ':' !in tok ==> cat == tok
    ensures ':' in tok ==> |cat| < |tok| && tok[|cat|] == ':' && ':' !in tok[|cat| + 1..]
  {
    var i := LastColon(tok);
    if i >= 0 then tok[..i] else tok
  }

  /** A score without ':' is cut off whole, whatever the category holds. */
  lemma CategoryOfScored(cat: string, score: string)
    requires ':' !in score
    ensures Category(cat + ":" + score) == cat
  {
    var tok := cat + ":" + score;
    forall j | |cat| < j < |tok| ensures tok[j] != ':' {
      assert tok[j] == score[j - |cat| - 1];
    }
    LastColonUnique(tok, |cat|);
    assert tok[..|cat|] == cat;
  }

  // ---------------------------------------------------------------------------
  // The state machine

  /** One pass of the `switch` for one token. Whatever the token, the machine
      leaves state 0 and never returns to it. */
  function Step(st: State, tok: string): (st': State)
    ensures st' != Start
  {
    match st
    case Start => if tok == "DO" then GotDo else NoDo
    case GotDo => if Category(tok) == CATEGORY then Hit else GotDo
    case Hit => Hit
    case NoDo => NoDo
  }

  /** The `while (tok)` loop: `Step` folded over the tokens, left to right. */
  function Run(st: State, toks: seq<string>): (final: State)
    ensures |toks| > 0 ==> final != Start
    ensures final == Start ==> st == Start
    decreases |toks|
  {
    if |toks| == 0 then st else Run(Step(st, toks[0]), toks[1..])
  }

  /** Some token names the wanted category. */
  predicate Mentions(toks: seq<string>) {
    exists k :: 0 <= k < |toks| && Category(toks[k]) == CATEGORY
  }

  /** The LED decision after the loop. */
  function Led(st: State): Level {
    if st == Hit then Low else High
  }

  /** States 2 and 1000 are absorbing: no later token changes them. */
  lemma {:induction false} RunAbsorbing(st: State, toks: seq<string>)
    requires st == Hit || st == NoDo
    ensures Run(st, toks) == st
    decreases |toks|
  {
    if |toks| > 0 {
      RunAbsorbing(st, toks[1..]);
    }
  }

  /** Once DO has been seen, the machine ends in state 2 exactly when some
      token's category matches, and stays in state 1 otherwise. */
  lemma {:induction false} RunAfterDo(toks: seq<string>)
    ensures Run(GotDo, toks) == (if Mentions(toks) then Hit else GotDo)
    decreases |toks|
  {
    if |toks| > 0 {
      if Category(toks[0]) == CATEGORY {
        RunAbsorbing(Hit, toks[1..]);
        assert Mentions(toks);
      } else {
        RunAfterDo(toks[1..]);
        if Mentions(toks) {
          var k :| 0 <= k < |toks| && Category(toks[k]) == CATEGORY;
          assert toks[1..][k - 1] == toks[k];
        }
        if Mentions(toks[1..]) {
          var k :| 0 <= k < |toks[1..]| && Category(toks[1..][k]) == CATEGORY;
          assert toks[k + 1] == toks[1..][k];
        }
      }
    }
  }

  /** On a non-empty line the first token alone decides between state 1
      (it is exactly "DO") and the absorbing state 1000; the machine never
      returns to state 0. */
  lemma {:induction false} FirstTokenDecides(toks: seq<string>)
    requires |toks| > 0
    ensures Run(Start, toks) == NoDo <==> toks[0] != "DO"
    ensures Run(Start, toks) != Start
  {
    if toks[0] == "DO" {
      RunAfterDo(toks[1..]);
    } else {
      RunAbsorbing(NoDo, toks[1..]);
    }
  }

  /** The LED goes LOW (on) exactly when the first token is "DO" and some
      later token's category is CATEGORY; an empty line leaves the machine
      in state 0 and the LED HIGH. */
  lemma LedOnIffWanted(toks: seq<string>)
    ensures Led(Run(Start, toks)) == Low <==>
      |toks| > 0 && toks[0] == "DO" && Mentions(toks[1..])
    ensures toks == [] ==> Run(Start, toks) == Start
  {
    if |toks| > 0 {
      FirstTokenDecides(toks);
      if toks[0] == "DO" {
        RunAfterDo(toks[1..]);
      }
    }
  }

  /** Replacing a token by one with the same category changes nothing once
      the machine has left state 0. */
  lemma {:induction false} RunSameCategory(st: State, toks: seq<string>, k: nat, t: string)
    requires st != Start
    requires k < |toks| && Category(t) == Category(toks[k])
    ensures Run(st, toks[k := t]) == Run(st, toks)
    decreases k
  {
    if k == 0 {
      assert toks[k := t][1..] == toks[1..];
    } else {
      assert toks[k := t][1..] == toks[1..][k - 1 := t];
      assert Step(st, toks[0]) != Start;
      RunSameCategory(Step(st, toks[0]), toks[1..], k - 1, t);
    }
  }

  /** The score never matters: rewriting the score of any token after the
      first leaves the final state, hence the LED, unchanged. */
  lemma ScoreIgnored(toks: seq<string>, k: nat, score: string)
    requires 1 <= k < |toks|
    requires ':' !in score
    ensures Run(Start, toks[k := Category(toks[k]) + ":" + score]) == Run(Start, toks)
  {
    var t := Category(toks[k]) + ":" + score;
    CategoryOfScored(Category(toks[k]), score);
    assert toks[k := t][0] == toks[0];
    assert toks[k := t][1..] == toks[1..][k - 1 := t];
    assert Step(Start, toks[0]) != Start;
    RunSameCategory(Step(Start, toks[0]), toks[1..], k - 1, t);
  }

  // ---------------------------------------------------------------------------
  // One call of loop()

  /** One call of `loop()`, with the received count kept in full: the LED
      goes LOW exactly when the line read (up to any NUL) starts with the
      token DO and a later token carries CATEGORY. */
  function Loop(instr: seq<char>, stream: string): (level: Level)
    requires |instr| == INLEN + 1
    ensures var toks := Split(CString(ReadBytesUntil(stream, '\n', INLEN)), DELIMS);
      level == Low <==> |toks| > 0 && toks[0] == "DO" && Mentions(toks[1..])
  {
    var toks := Split(ReceivedLine(instr, stream), DELIMS);
    LedOnIffWanted(toks);
    Led(Run(Start, toks))
  }

  /** One call of `loop()` as the sketch is written (`byte len`): it agrees
      with `Loop` on every read shorter than the buffer, and switches the LED
      off after a read that fills the buffer, whatever the line says. */
  function LoopAsWritten(instr: seq<char>, stream: string): (level: Level)
    requires |instr| == INLEN + 1
    ensures |ReadBytesUntil(stream, '\n', INLEN)| < INLEN ==> level == Loop(instr, stream)
    ensures |ReadBytesUntil(stream, '\n', INLEN)| == INLEN ==> level == High
  {
    var toks := Split(ReceivedLineAsWritten(instr, stream), DELIMS);
    LedOnIffWanted(toks);
    Led(Run(Start, toks))
  }

  /** A hit followed by spaces that fill the 256-character buffer exactly. */
  const HIT: string := "DO computer_keyboard:95"
  const FULL_LINE: string := HIT + seq(INLEN - |HIT|, _ => ' ')

  /** A stream of exactly INLEN characters with no line feed is read whole. */
  lemma ReadsWholeStream(stream: string)
    requires |stream| == INLEN
    requires forall i :: 0 <= i < |stream| ==> stream[i] != '\n'
    ensures ReadBytesUntil(stream, '\n', INLEN) == stream
  {
  }

  lemma HitTokens()
    ensures Split(HIT, DELIMS) == ["DO", "computer_keyboard:95"]
  {
    var toks := ["DO", "computer_keyboard:95"];
    assert Join(toks, ' ') == HIT;
    SplitJoin(toks, ' ', DELIMS);
  }

  lemma FullLineTokens()
    ensures Split(FULL_LINE, DELIMS) == ["DO", "computer_keyboard:95"]
  {
    var pad := seq(INLEN - |HIT|, _ => ' ');
    assert AllDelims(pad, DELIMS);
    SplitAppendDelims(HIT, pad, DELIMS);
    HitTokens();
  }

  /** The wrap-around in action: on a line that fills the buffer, the model
      with the full count switches the LED on, the sketch as written does not. */
  lemma FullBufferDropsHit(instr: seq<char>)
    requires |instr| == INLEN + 1
    ensures Loop(instr, FULL_LINE) == Low
    ensures LoopAsWritten(instr, FULL_LINE) == High
  {
    assert |FULL_LINE| == INLEN;
    assert forall i :: 0 <= i < |FULL_LINE| ==> FULL_LINE[i] != '\n' && FULL_LINE[i] != NUL;
    ReadsWholeStream(FULL_LINE);
    assert CString(FULL_LINE) == FULL_LINE;
    FullLineTokens();
    CategoryOfScored("computer_keyboard", "95");
    var toks := Split(FULL_LINE, DELIMS);
    assert Category(toks[1]) == CATEGORY;
  }

  /** Tab is not a delimiter: "DO<TAB>computer_keyboard" is one token, not
      DO, so the LED stays off. */
  lemma TabIsNotADelimiter()
    ensures Split("DO\tcomputer_keyboard", DELIMS) == ["DO\tcomputer_keyboard"]
    ensures Led(Run(Start, Split("DO\tcomputer_keyboard", DELIMS))) == High
  {
    SplitJoin(["DO\tcomputer_keyboard"], ' ', DELIMS);
  }
}
