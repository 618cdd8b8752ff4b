/** Splitting a line into tokens on a set of delimiter characters, the way C's
    `strtok` and Python's argument-less `str.split()` both do it: a run of
    delimiters, however long, separates two tokens, and leading or trailing
    delimiters produce nothing, so no token is ever empty. */
module Tokenize {

  /** No character of `s` is a delimiter. */
  predicate NoDelims(s: string, delims: set<char>) {
    forall i :: 0 <= i < |s| ==> s[i] !in delims
  }

  /** A token: a non-empty run of characters, none of which is a delimiter. */
  predicate IsToken(t: string, delims: set<char>) {
    |t| > 0 && NoDelims(t, delims)
  }

  /** Every character of `s` is a delimiter (vacuously true of ""). */
  predicate AllDelims(s: string, delims: set<char>) {
    forall i :: 0 <= i < |s| ==> s[i] in delims
  }

  /** Length of the run of non-delimiters at the head of `s`. */
  function TokenLength(s: string, delims: set<char>): (n: nat)
    ensures n <= |s|
    ensures NoDelims(s[..n], delims)
    ensures n < |s| ==> s[n] in delims
    decreases |s|
  {
    if |s| == 0 || s[0] in delims then 0 else 1 + TokenLength(s[1..], delims)
  }

  /** The tokens of `s`, in order. */
  function Split(s: string, delims: set<char>): (toks: seq<string>)
    ensures forall k :: 0 <= k < |toks| ==> IsToken(toks[k], delims)
    decreases |s|
  {
    if |s| == 0 then []
    else if s[0] in delims then Split(s[1..], delims)
    else
      var n := TokenLength(s, delims);
      [s[..n]] + Split(s[n..], delims)
  }

  /** Concatenation of a sequence of strings. */
  function Flatten(toks: seq<string>): string {
    if |toks| == 0 then [] else toks[0] + Flatten(toks[1..])
  }

  /** `s` with every delimiter character deleted. */
  function Strip(s: string, delims: set<char>): (r: string)
    ensures |r| <= |s|
    ensures NoDelims(r, delims)
  {
    if |s| == 0 then []
    else if s[0] in delims then Strip(s[1..], delims)
    else [s[0]] + Strip(s[1..], delims)
  }

  /** The tokens joined back together with one separator between neighbours. */
  function Join(toks: seq<string>, sep: char): string {
    if |toks| == 0 then []
    else if |toks| == 1 then toks[0]
    else toks[0] + [sep] + Join(toks[1..], sep)
  }

  lemma {:induction false} StripAppend(a: string, b: string, delims: set<char>)
    ensures Strip(a + b, delims) == Strip(a, delims) + Strip(b, delims)
    decreases |a|
  {
    if |a| > 0 {
      assert (a + b)[1..] == a[1..] + b;
      StripAppend(a[1..], b, delims);
    } else {
      assert a + b == b;
    }
  }

  lemma {:induction false} StripNonDelims(t: string, delims: set<char>)
    requires NoDelims(t, delims)
    ensures Strip(t, delims) == t
    decreases |t|
  {
    if |t| > 0 {
      StripNonDelims(t[1..], delims);
      assert t == [t[0]] + t[1..];
    }
  }

  /** No character is lost or invented: the tokens, concatenated, are exactly
      the non-delimiter characters of the line, in their original order. */
  lemma {:induction false} SplitKeepsContent(s: string, delims: set<char>)
    ensures Flatten(Split(s, delims)) == Strip(s, delims)
    decreases |s|
  {
    if |s| > 0 {
      if s[0] in delims {
        SplitKeepsContent(s[1..], delims);
      } else {
        var n := TokenLength(s, delims);
        SplitKeepsContent(s[n..], delims);
        var toks := Split(s, delims);
        assert toks[0] == s[..n] && toks[1..] == Split(s[n..], delims);
        StripNonDelims(s[..n], delims);
        StripAppend(s[..n], s[n..], delims);
        assert s == s[..n] + s[n..];
      }
    }
  }

  /** A line yields no token exactly when it consists of delimiters only. */
  lemma {:induction false} SplitEmptyIffAllDelims(s: string, delims: set<char>)
    ensures Split(s, delims) == [] <==> AllDelims(s, delims)
    decreases |s|
  {
    if |s| > 0 {
      if s[0] in delims {
        SplitEmptyIffAllDelims(s[1..], delims);
        if AllDelims(s[1..], delims) {
          forall i | 0 <= i < |s| ensures s[i] in delims {
            if i > 0 { assert s[i] == s[1..][i - 1]; }
          }
        }
      }
    }
  }

  /** A leading run of non-delimiters extends the head token by its length. */
  lemma {:induction false} TokenLengthPrefix(t: string, u: string, delims: set<char>)
    requires NoDelims(t, delims)
    ensures TokenLength(t + u, delims) == |t| + TokenLength(u, delims)
    decreases |t|
  {
    if |t| == 0 {
      assert t + u == u;
    } else {
      assert (t + u)[1..] == t[1..] + u;
      TokenLengthPrefix(t[1..], u, delims);
    }
  }

  /** Appending delimiters leaves the head token's length unchanged. */
  lemma {:induction false} TokenLengthAppendDelims(s: string, u: string, delims: set<char>)
    requires AllDelims(u, delims)
    ensures TokenLength(s + u, delims) == TokenLength(s, delims)
    decreases |s|
  {
    if |s| == 0 {
      assert s + u == u;
    } else if s[0] !in delims {
      assert (s + u)[1..] == s[1..] + u;
      TokenLengthAppendDelims(s[1..], u, delims);
    }
  }

  /** Trailing delimiters never produce a token. */
  lemma {:induction false} SplitAppendDelims(s: string, u: string, delims: set<char>)
    requires AllDelims(u, delims)
    ensures Split(s + u, delims) == Split(s, delims)
    decreases |s|
  {
    if |s| == 0 {
      assert s + u == u;
      SplitEmptyIffAllDelims(u, delims);
    } else if s[0] in delims {
      assert (s + u)[1..] == s[1..] + u;
      SplitAppendDelims(s[1..], u, delims);
    } else {
      var n := TokenLength(s, delims);
      TokenLengthAppendDelims(s, u, delims);
      assert (s + u)[..n] == s[..n];
      assert (s + u)[n..] == s[n..] + u;
      SplitAppendDelims(s[n..], u, delims);
    }
  }

  /** Leading delimiters never produce a token. */
  lemma {:induction false} SplitPrependDelims(u: string, s: string, delims: set<char>)
    requires AllDelims(u, delims)
    ensures Split(u + s, delims) == Split(s, delims)
    decreases |u|
  {
    if |u| == 0 {
      assert u + s == s;
    } else {
      assert (u + s)[1..] == u[1..] + s;
      SplitPrependDelims(u[1..], s, delims);
    }
  }

  /** A run of one or more delimiters after a token ends it, however long
      the run: the token comes out whole and splitting resumes after it. */
  lemma SplitTokenThenRun(t: string, u: string, s: string, delims: set<char>)
    requires IsToken(t, delims)
    requires |u| > 0 && AllDelims(u, delims)
    ensures Split(t + u + s, delims) == [t] + Split(s, delims)
  {
    var line := t + (u + s);
    assert t + u + s == line;
    TokenLengthPrefix(t, u + s, delims);
    assert TokenLength(u + s, delims) == 0;
    assert line[..|t|] == t;
    assert line[|t|..] == u + s;
    SplitPrependDelims(u, s, delims);
  }

  /** Splitting undoes joining: tokens separated by a delimiter come back out
      one for one, in order. */
  lemma {:induction false} SplitJoin(toks: seq<string>, sep: char, delims: set<char>)
    requires sep in delims
    requires forall k :: 0 <= k < |toks| ==> IsToken(toks[k], delims)
    ensures Split(Join(toks, sep), delims) == toks
    decreases |toks|
  {
    if |toks| == 1 {
      var t := toks[0];
      TokenLengthPrefix(t, [], delims);
      assert t + [] == t;
      assert t[..|t|] == t && t[|t|..] == [];
    } else if |toks| > 1 {
      var t := toks[0];
      var rest := [sep] + Join(toks[1..], sep);
      assert Join(toks, sep) == t + rest;
      TokenLengthPrefix(t, rest, delims);
      assert (t + rest)[..|t|] == t;
      assert (t + rest)[|t|..] == rest;
      assert rest[1..] == Join(toks[1..], sep);
      SplitJoin(toks[1..], sep, delims);
      assert toks == [t] + toks[1..];
    }
  }
}
