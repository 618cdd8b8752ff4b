# JeVois serial-message recognisers

A Dafny model of the two small text recognisers in the JeVois tutorial
snippets that read the single-line ASCII messages a JeVois camera sends over
its serial port:

- **`doc/snip/ardublink.C`, `loop()`** — the Arduino sketch that reads one line
  of at most `INLEN` = 256 characters into the buffer `instr[INLEN + 1]`,
  NUL-terminates it, splits it with `strtok` on space, `'\r'` and `'\n'`, and
  runs a four-state machine over the tokens: state 0 goes to 1 on `DO` and
  to 1000 otherwise; in state 1 each `category:score` token is cut at its
  last `':'` and the category compared with `CATEGORY` =
  `"computer_keyboard"`, a match going to state 2; states 2 and 1000 absorb.
  The LED pin goes LOW (on) exactly when the final state is 2.
  (`ardublink.dfy`, module `ArduBlink`.)
- **`doc/snip/parseserial.py`** — the per-line body of the host reader: the
  line is `rstrip()`-ped and `split()` on whitespace, and is skipped unless
  it has exactly six tokens, the first being exactly `N2`; the tokens are
  then bound positionally as `key, id, x, y, w, h`, all kept as strings.
  (`parseserial.dfy`, module `ParseSerial`, returning `Option<N2Msg>`.)

Both recognisers share the tokenizer in `tokenize.dfy` (module `Tokenize`):
`Split(s, delims)` is `strtok` and Python's argument-less `split()` alike —
runs of delimiters separate tokens and never produce an empty one. Its
partners are `Join` (a proved round trip) and `Strip` (the tokens
concatenated are exactly the non-delimiter characters). `wrappers.dfy`
holds the `Option` datatype.

Modelling decisions:

- The state machine is `Step(state, token)` folded left over the tokens
  (`Run`); the sketch's integer states 0, 1, 2 and 1000 are the
  constructors `Start`, `GotDo`, `Hit`, `NoDo`, and the pin level is the
  datatype `Level = Low | High`.
- The serial input is a parameter: `stream` is the characters that arrive
  before the read's timeout, and `ReadBytesUntil` models Arduino's
  `Stream::readBytesUntil` (stop at the terminator, which is not stored, at
  the length limit, or when input runs out). The buffer's previous content
  is a parameter `instr` too; `StoredLine` proves it never reaches the
  tokenizer.
- `len` is declared `byte` in the sketch, so the count is taken modulo 256
  (`ByteOf`). A read that fills all 256 characters wraps to length 0 and
  the line is discarded. The model carries both versions: `LoopAsWritten`
  with the wrap-around and `Loop` with the count kept whole. Either way the
  NUL lands at an index at most 256, inside the 257-character buffer
  (`Terminate`'s precondition, discharged at both call sites). See
  "## Findings".
- Strings are `seq<char>`; the NUL byte is `'\0'` and `CString` reads a
  buffer up to its first NUL, as `strtok` and `strcmp` do, so a NUL byte
  received from the wire ends the line early.
- Python 2's whitespace (`' '`, tab, `'\n'`, `'\r'`, vertical tab, form feed)
  is what `rstrip()` and `split()` use on the byte strings `readline()`
  returns.

## Model

| member | source | states |
|---|---|---|
| Tokenize.Split | doc/snip/ardublink.C:31 | every token `strtok` yields is non-empty and free of the delimiters, so runs of delimiters give no empty tokens |
| Tokenize.SplitKeepsContent | doc/snip/parseserial.py:19 | the tokens, concatenated in order, are exactly the line's non-delimiter characters: nothing lost, nothing reordered |
| Tokenize.SplitJoin | doc/snip/ardublink.C:76 | tokens joined with one delimiter between neighbours split back into the same tokens, one for one |
| Tokenize.SplitEmptyIffAllDelims | doc/snip/parseserial.py:22 | a line yields zero tokens if and only if every character of it is a delimiter |
| Tokenize.SplitAppendDelims | doc/snip/parseserial.py:15-19 | trailing delimiters never change the tokens |
| Tokenize.SplitPrependDelims | doc/snip/ardublink.C:31 | leading delimiters never change the tokens: `strtok`'s first call skips them |
| Tokenize.SplitTokenThenRun | doc/snip/ardublink.C:76 | a token followed by a run of one or more delimiters, however long, comes out whole and splitting resumes after the run, so consecutive delimiters give no empty token |
| ArduBlink.ReadBytesUntil | doc/snip/ardublink.C:28 | the read is a prefix of the input, at most `INLEN` long, without the `'\n'` terminator, and stops short of the limit only at a `'\n'` or at the end of input |
| ArduBlink.ByteOf | doc/snip/ardublink.C:28 | storing the count in a `byte` leaves counts below 256 alone and wraps 256 to 0 |
| ArduBlink.Store | doc/snip/ardublink.C:28 | what `readBytesUntil` leaves in `instr`: the characters read at its head, every later position unchanged from the previous call |
| ArduBlink.Terminate | doc/snip/ardublink.C:29 | `instr[len] = 0`: a NUL at index `len`, which must lie inside the buffer, every other position unchanged |
| ArduBlink.CString | doc/snip/ardublink.C:29-31 | the string `strtok` sees is the buffer's prefix before its first NUL and contains no NUL |
| ArduBlink.StoredLine | doc/snip/ardublink.C:28-29 | after the read and `instr[len] = 0` the C string is the first `len` characters read, up to any NUL, whatever the buffer held before |
| ArduBlink.ReceivedLine | doc/snip/ardublink.C:11-29 | with the count kept whole, the line handed to `strtok` is everything read, up to any NUL |
| ArduBlink.ReceivedLineAsWritten | doc/snip/ardublink.C:28-29 | with the `byte` count, a read shorter than 256 characters is handed on whole, and a read of exactly 256 characters becomes the empty line |
| ArduBlink.LastColon | doc/snip/ardublink.C:52-53 | the index found holds a `':'` and no `':'` follows it, or it is -1 and the token has no `':'` |
| ArduBlink.FindLastColon | doc/snip/ardublink.C:52-53 | the backward scan stops at the last `':'`, or at -1 when there is none |
| ArduBlink.Category | doc/snip/ardublink.C:52-65 | the compared category is the token's prefix before its LAST `':'`, and the whole token when it has no `':'` |
| ArduBlink.CategoryOfScored | doc/snip/ardublink.C:56-61 | for `cat:score` with a colon-free score, the category compared is exactly `cat`, even when `cat` itself contains `':'` |
| ArduBlink.Step | doc/snip/ardublink.C:41-73 | one pass of the `switch` on one token; every token moves the machine out of state 0 for good. Its transitions are stated by `FirstTokenDecides`, `RunAfterDo` and `RunAbsorbing` |
| ArduBlink.Run | doc/snip/ardublink.C:34-77 | the `while (tok)` loop, `Step` applied to each token left to right; after at least one token the state is never 0. What it ends in is stated by `FirstTokenDecides`, `RunAfterDo`, `RunAbsorbing` and `LedOnIffWanted` |
| ArduBlink.Led | doc/snip/ardublink.C:81-84 | the pin level chosen after the loop: LOW for state 2, HIGH for every other state; its meaning in terms of the line is `LedOnIffWanted` |
| ArduBlink.RunAbsorbing | doc/snip/ardublink.C:70-72 | states 2 and 1000 are absorbing: no sequence of later tokens changes them |
| ArduBlink.RunAfterDo | doc/snip/ardublink.C:50-68 | from state 1 the machine ends in state 2 if and only if some token's category equals `CATEGORY`, and otherwise stays in state 1 |
| ArduBlink.FirstTokenDecides | doc/snip/ardublink.C:44-47 | on a non-empty line the first token moves state 0 to 1 if it is exactly `DO` and to 1000 otherwise; state 0 is never the final state |
| ArduBlink.LedOnIffWanted | doc/snip/ardublink.C:79-84 | the LED is driven LOW if and only if the first token is `DO` and some later token's category is `CATEGORY`; an empty line stays in state 0 and drives it HIGH |
| ArduBlink.ScoreIgnored | doc/snip/ardublink.C:60-65 | rewriting the score of any token after the first never changes the final state, hence never the LED |
| ArduBlink.Loop | doc/snip/ardublink.C:26-84 | one call, count kept whole: LED LOW exactly when the line read (up to any NUL) starts with `DO` and a later token carries `CATEGORY` |
| ArduBlink.LoopAsWritten | doc/snip/ardublink.C:28-84 | one call as written: agrees with `Loop` on reads shorter than 256 characters, and drives the LED HIGH after any read of exactly 256 |
| ArduBlink.FullBufferDropsHit | doc/snip/ardublink.C:28-29 | on a 256-character line holding a hit, `Loop` turns the LED on and `LoopAsWritten` does not |
| ArduBlink.TabIsNotADelimiter | doc/snip/ardublink.C:31 | a tab does not separate tokens: `DO<TAB>computer_keyboard` is one token and the LED stays HIGH |
| ParseSerial.RStrip | doc/snip/parseserial.py:15 | `rstrip()` keeps a prefix of the line, drops only whitespace, and leaves no trailing whitespace |
| ParseSerial.SplitIgnoresRStrip | doc/snip/parseserial.py:15-19 | splitting the stripped line gives the same tokens as splitting the raw line |
| ParseSerial.ParseN2 | doc/snip/parseserial.py:15-32 | a line is accepted if and only if it has exactly 6 tokens and the first is exactly `N2` (so zero tokens, another tag, or 5 or 7 tokens are rejected); the message is those 6 tokens in order, `key` is `N2`, every field is non-empty and whitespace-free |
| ParseSerial.BlankLineSkipped | doc/snip/parseserial.py:19-22 | a line has zero tokens exactly when it is empty or all whitespace, and such a line is skipped |
| ParseSerial.FormatRoundTrip | doc/snip/parseserial.py:26-32 | a message `N2 id x y w h` with non-empty whitespace-free fields, followed by any trailing whitespace such as `\r\n`, parses back to the same message |
| ParseSerial.NonNumericAccepted | doc/snip/parseserial.py:32-34 | fields are not checked to be numbers: `N2 U42 left top wide tall` is accepted with its fields as strings |

## Left out

- Serial I/O (`SERIAL.begin`, `setTimeout`, `serial.Serial`, `readline`) and the read timeout: the received characters are the parameter `stream` or `line`.
- GPIO (`pinMode`, `digitalWrite`): the pin level is returned as `Level`.
- The `atof` score parse in `ardublink.C`: floating point, and its value is never used; `ScoreIgnored` states that it cannot matter.
- `strtok`'s writing of NULs into the buffer and its hidden position pointer: `Split` returns the same tokens without either.
- The endless `loop()` and `while 1` drivers and the `print` statements: the model handles one line per call; the buffer carried between calls is the parameter `instr`.
- `doc/snip/lenscorrection.py`: a Tkinter slider that formats `setcamreg 0x65 {}` and echoes serial output, with no logic beyond that format.
- The optical-flow point-tracking controller described in the repository's tutorial text: its source is not part of this model, and its substance is OpenCV calls.
- ParseSerial.ParseN2: returns `None` for every rejected line without saying which check failed, since the reader only `continue`s.

## Findings

| source | as written | input that shows it | evidently intended | confidence | as-written member | corrected member |
|---|---|---|---|---|---|---|
| doc/snip/ardublink.C:28 | `byte len` stores the count modulo 256, so a read that fills all `INLEN` = 256 characters gives `len == 0` and the whole line is dropped | a line with no `'\n'` in its first 256 characters, e.g. `DO computer_keyboard:95` followed by 233 spaces (`FULL_LINE`) | the count kept whole: the buffer is `INLEN + 1` characters so that the NUL fits at index 256, so the 256 characters read should be parsed and the LED turned on | medium; not executed | ArduBlink.LoopAsWritten, ArduBlink.FullBufferDropsHit | ArduBlink.Loop |
