/**
  How a Windows C/C++ program splits the argument part of its command line
  into argv (the rules of the Microsoft C runtime, as documented in
  "Parsing C command-line arguments"): blanks separate arguments, double
  quotes group, 2n backslashes before a quote give n backslashes and a
  delimiter, 2n+1 give n backslashes and a literal quote, backslashes
  elsewhere are literal, and "" inside a quoted part is one literal quote.

  The mod hands the capture helper its arguments as one string; the helper's
  argv[1..] is what this split makes of it.
 */
module CommandLine {

  predicate IsBlank(c: char) {
    c == ' ' || c == '\t'
  }

  function Repeat(c: char, n: nat): (r: string)
    ensures |r| == n
  {
    if n == 0 then [] else [c] + Repeat(c, n - 1)
  }

  /** Length of the run of backslashes at the front of s. */
  function Backslashes(s: string): (n: nat)
    ensures n <= |s|
    ensures n < |s| ==> s[n] != '\\'
  {
    if s != [] && s[0] == '\\' then 1 + Backslashes(s[1..]) else 0
  }

  /** The run Backslashes measures is made of backslashes only. */
  lemma {:induction false} BackslashRun(s: string)
    ensures s[..Backslashes(s)] == Repeat('\\', Backslashes(s))
    decreases |s|
  {
    if s != [] && s[0] == '\\' {
      BackslashRun(s[1..]);
      assert s[..Backslashes(s)] == [s[0]] + s[1..][..Backslashes(s[1..])];
    }
  }

  lemma {:induction false} RepeatAdd(c: char, a: nat, b: nat)
    ensures Repeat(c, a) + Repeat(c, b) == Repeat(c, a + b)
    decreases a
  {
    if a > 0 {
      RepeatAdd(c, a - 1, b);
      assert Repeat(c, a) + Repeat(c, b) == [c] + (Repeat(c, a - 1) + Repeat(c, b));
    }
  }

  /** Length of the run of backslashes at the back of s. */
  function TrailingBackslashes(s: string): (n: nat)
    ensures n <= |s|
    ensures n < |s| ==> s[|s| - 1 - n] != '\\'
  {
    if s != [] && s[|s| - 1] == '\\' then 1 + TrailingBackslashes(s[..|s| - 1]) else 0
  }

  /** The run TrailingBackslashes measures is made of backslashes only. */
  lemma {:induction false} TrailingBackslashRun(s: string)
    ensures s[|s| - TrailingBackslashes(s)..] == Repeat('\\', TrailingBackslashes(s))
    decreases |s|
  {
    if s != [] && s[|s| - 1] == '\\' {
      var t := s[..|s| - 1];
      TrailingBackslashRun(t);
      var k := TrailingBackslashes(t);
      DropBeforeLast(s, |s| - (k + 1));
      RepeatAdd('\\', k, 1);
      assert Repeat('\\', 1) == ['\\'];
    }
  }

  lemma DropBeforeLast(s: string, i: nat)
    requires i < |s|
    ensures s[i..] == s[..|s| - 1][i..] + [s[|s| - 1]]
  {
  }

  /** Reading stops at the end of the text, or at a blank outside quotes. */
  predicate Stops(s: string, inQuote: bool) {
    s == [] || (!inQuote && IsBlank(s[0]))
  }

  /**
    One step of reading an argument: a run of backslashes with the quote
    after it, a run of backslashes alone, or one ordinary character.  Returns
    the unread text, the new quoting state and the argument so far.
   */
  function ReadStep(s: string, inQuote: bool, acc: string): (r: (string, bool, string))
    requires s != []
    ensures |r.0| < |s|
  {
    var n := Backslashes(s);
    if n < |s| && s[n] == '"' then
      var half := Repeat('\\', n / 2);
      if n % 2 == 1 then (s[n + 1..], inQuote, acc + half + "\"")
      else if inQuote && n + 1 < |s| && s[n + 1] == '"' then (s[n + 2..], inQuote, acc + half + "\"")
      else (s[n + 1..], !inQuote, acc + half)
    else if n > 0 then (s[n..], inQuote, acc + Repeat('\\', n))
    else (s[1..], inQuote, acc + [s[0]])
  }

  /**
    Reads one argument from s, appending its characters to acc; returns the
    argument and the unread rest, which is empty or starts with a blank that
    ended the argument outside quotes.
   */
  function ReadArg(s: string, inQuote: bool, acc: string): (res: (string, string))
    ensures |res.1| <= |s|
    ensures res.1 == s ==> Stops(s, inQuote)
    decreases |s|
  {
    if Stops(s, inQuote) then (acc, s)
    else
      var r := ReadStep(s, inQuote, acc);
      ReadArg(r.0, r.1, r.2)
  }

  function SkipBlanks(s: string): (r: string)
    ensures |r| <= |s|
    ensures r == [] || !IsBlank(r[0])
  {
    if s != [] && IsBlank(s[0]) then SkipBlanks(s[1..]) else s
  }

  /** The argv entries that follow the program name, for the argument string s. */
  function SplitArgs(s: string): seq<string>
    decreases |s|
  {
    var t := SkipBlanks(s);
    if t == [] then []
    else
      var (arg, rest) := ReadArg(t, false, []);
      [arg] + SplitArgs(rest)
  }

  /**
    How a producer should quote an argument that holds no double quote:
    surround it with quotes and double the backslashes in front of the
    closing one.
   */
  function QuoteArgument(t: string): (r: string)
    ensures |r| >= 2 && r[0] == '"' && r[|r| - 1] == '"'
  {
    "\"" + t + Repeat('\\', TrailingBackslashes(t)) + "\""
  }

  /** A text that does not end in a backslash is quoted by only surrounding it with quotes. */
  lemma QuoteWithoutTrailingBackslash(t: string)
    requires t == [] || t[|t| - 1] != '\\'
    ensures QuoteArgument(t) == "\"" + t + "\""
  {
    assert TrailingBackslashes(t) == 0;
    assert "\"" + t + [] == "\"" + t;
  }

  lemma BackslashesOfConcat(w: string, x: string)
    requires w != [] && w[|w| - 1] != '\\'
    ensures Backslashes(w + x) == Backslashes(w) < |w|
    decreases |w|
  {
    if w[0] == '\\' {
      assert (w + x)[1..] == w[1..] + x;
      BackslashesOfConcat(w[1..], x);
    }
  }

  lemma BackslashesBeforeQuote(k: nat, x: string)
    ensures Backslashes(Repeat('\\', k) + "\"" + x) == k
    decreases k
  {
    if k > 0 {
      assert (Repeat('\\', k) + "\"" + x)[1..] == Repeat('\\', k - 1) + "\"" + x;
    }
  }

  /** One step of ReadArg: an ordinary character is copied. */
  lemma ReadCharStep(s: string, inQuote: bool, acc: string)
    requires s != [] && s[0] != '\\' && s[0] != '"' && (inQuote || !IsBlank(s[0]))
    ensures ReadArg(s, inQuote, acc) == ReadArg(s[1..], inQuote, acc + [s[0]])
  {
    assert Backslashes(s) == 0;
    assert ReadStep(s, inQuote, acc) == (s[1..], inQuote, acc + [s[0]]);
  }

  /** One step of ReadArg: backslashes not followed by a quote are copied. */
  lemma ReadBackslashStep(s: string, inQuote: bool, acc: string)
    requires Backslashes(s) > 0 && (Backslashes(s) == |s| || s[Backslashes(s)] != '"')
    ensures ReadArg(s, inQuote, acc) == ReadArg(s[Backslashes(s)..], inQuote, acc + Repeat('\\', Backslashes(s)))
  {
    var n := Backslashes(s);
    assert s[0] == '\\';
    assert ReadStep(s, inQuote, acc) == (s[n..], inQuote, acc + Repeat('\\', n));
  }

  /** One step of ReadArg: an even run of n backslashes and a quote give n/2 backslashes and switch quoting. */
  lemma ReadToggleStep(s: string, n: nat, inQuote: bool, acc: string)
    requires Backslashes(s) == n < |s| && s[n] == '"' && n % 2 == 0
    requires !(inQuote && n + 1 < |s| && s[n + 1] == '"')
    ensures ReadArg(s, inQuote, acc) == ReadArg(s[n + 1..], !inQuote, acc + Repeat('\\', n / 2))
  {
    assert s[0] == '\\' || s[0] == '"';
    assert ReadStep(s, inQuote, acc) == (s[n + 1..], !inQuote, acc + Repeat('\\', n / 2));
  }

  /** One step of ReadArg: an odd run of n backslashes and a quote give n/2 backslashes and a literal quote. */
  lemma ReadEscapedQuoteStep(s: string, n: nat, inQuote: bool, acc: string)
    requires Backslashes(s) == n < |s| && s[n] == '"' && n % 2 == 1
    ensures ReadArg(s, inQuote, acc) == ReadArg(s[n + 1..], inQuote, acc + Repeat('\\', n / 2) + "\"")
  {
    assert s[0] == '\\';
    assert ReadStep(s, inQuote, acc) == (s[n + 1..], inQuote, acc + Repeat('\\', n / 2) + "\"");
  }

  /** The length of ReadArg's next step over a quote-free run: its backslashes, or one character. */
  function QuotedStepLength(w: string): (n: nat)
    requires w != []
    ensures 0 < n <= |w|
  {
    if Backslashes(w) > 0 then Backslashes(w) else 1
  }

  /** Inside quotes, one step over a quote-free run that does not end in a backslash copies what it reads. */
  lemma QuotedRunStep(w: string, x: string, acc: string)
    requires w != [] && w[|w| - 1] != '\\'
    requires forall j :: 0 <= j < |w| ==> w[j] != '"'
    ensures var n := QuotedStepLength(w);
            ReadArg(w + x, true, acc) == ReadArg(w[n..] + x, true, acc + w[..n])
  {
    var s := w + x;
    BackslashesOfConcat(w, x);
    var n := Backslashes(s);
    assert s[n] == w[n];
    if n > 0 {
      ReadBackslashStep(s, true, acc);
      DropConcat(w, x, n);
      BackslashRun(s);
      assert s[..n] == w[..n];
    } else {
      ReadCharStep(s, true, acc);
      DropConcat(w, x, 1);
      assert [w[0]] == w[..1];
    }
  }

  /**
    Inside quotes, a run of text without double quotes that does not end in
    a backslash is copied into the argument unchanged.
   */
  lemma {:induction false} ReadQuotedRun(w: string, x: string, acc: string)
    requires forall j :: 0 <= j < |w| ==> w[j] != '"'
    requires w == [] || w[|w| - 1] != '\\'
    ensures ReadArg(w + x, true, acc) == ReadArg(x, true, acc + w)
    decreases |w|
  {
    if w == [] {
      assert w + x == x;
      assert acc + w == acc;
    } else {
      var n := QuotedStepLength(w);
      QuotedRunStep(w, x, acc);
      var w' := w[n..];
      assert forall j :: 0 <= j < |w'| ==> w'[j] == w[n + j];
      ReadQuotedRun(w', x, acc + w[..n]);
      SplitAt(w, n);
      AppendAssoc(acc, w[..n], w');
    }
  }

  lemma SplitAt(w: string, n: nat)
    requires n <= |w|
    ensures w == w[..n] + w[n..]
  {
  }

  lemma AppendAssoc(a: string, b: string, c: string)
    ensures a + b + c == a + (b + c)
  {
  }

  lemma DropConcat(w: string, x: string, n: nat)
    requires n <= |w|
    ensures (w + x)[n..] == w[n..] + x
  {
  }

  /** An opening quote outside quotes starts the quoted part. */
  lemma OpenQuote(body: string, acc: string)
    ensures ReadArg("\"" + body, false, acc) == ReadArg(body, true, acc)
  {
    var s := "\"" + body;
    assert Backslashes(s) == 0;
    ReadToggleStep(s, 0, false, acc);
    assert s[1..] == body;
    assert acc + Repeat('\\', 0) == acc;
  }

  /** 2k backslashes and the closing quote, then the end or a blank, end the argument with k backslashes. */
  lemma CloseQuote(k: nat, rest: string, acc: string)
    requires rest == [] || IsBlank(rest[0])
    ensures ReadArg(Repeat('\\', 2 * k) + "\"" + rest, true, acc) == (acc + Repeat('\\', k), rest)
  {
    var tail := Repeat('\\', 2 * k) + "\"" + rest;
    BackslashesBeforeQuote(2 * k, rest);
    assert tail[2 * k] == '"';
    assert tail[2 * k + 1..] == rest;
    ReadToggleStep(tail, 2 * k, true, acc);
    assert (2 * k) / 2 == k;
    ReadStop(rest, acc + Repeat('\\', k));
  }

  /** Outside quotes, a word without blanks, quotes or backslashes is copied unchanged. */
  lemma {:induction false} ReadPlainWord(w: string, x: string, acc: string)
    requires forall j :: 0 <= j < |w| ==> w[j] != '"' && w[j] != '\\' && !IsBlank(w[j])
    ensures ReadArg(w + x, false, acc) == ReadArg(x, false, acc + w)
    decreases |w|
  {
    if w == [] {
      assert w + x == x;
      assert acc + w == acc;
    } else {
      var s := w + x;
      assert s[0] == w[0];
      ReadCharStep(s, false, acc);
      DropConcat(w, x, 1);
      var w' := w[1..];
      assert forall j :: 0 <= j < |w'| ==> w'[j] == w[1 + j];
      ReadPlainWord(w', x, acc + [w[0]]);
      SplitAt(w, 1);
      assert [w[0]] == w[..1];
      AppendAssoc(acc, w[..1], w');
    }
  }

  /** Blanks in front of the arguments do not change them. */
  lemma SplitBlank(s: string)
    ensures SplitArgs(" " + s) == SplitArgs(s)
  {
    assert (" " + s)[1..] == s;
  }

  /** ReadArg stops, outside quotes, at the end or at a blank. */
  lemma ReadStop(s: string, acc: string)
    requires s == [] || IsBlank(s[0])
    ensures ReadArg(s, false, acc) == (acc, s)
  {
    if s != [] {
      assert Backslashes(s) == 0;
    }
  }

  /** One step of SplitArgs, at a non-blank character. */
  lemma SplitStep(s: string)
    requires s != [] && !IsBlank(s[0])
    ensures SplitArgs(s) == [ReadArg(s, false, []).0] + SplitArgs(ReadArg(s, false, []).1)
  {
  }

  /**
    A quoted argument followed by nothing or by a blank is read back as the
    text that was quoted, for any text without double quotes.
   */
  lemma TrailingSplit(t: string)
    ensures t == t[..|t| - TrailingBackslashes(t)] + Repeat('\\', TrailingBackslashes(t))
  {
    var k := TrailingBackslashes(t);
    TrailingBackslashRun(t);
    SplitAt(t, |t| - k);
  }

  lemma RepeatDouble(c: char, k: nat)
    ensures Repeat(c, k) + Repeat(c, k) == Repeat(c, 2 * k)
  {
    RepeatAdd(c, k, k);
  }

  /** QuoteArgument(t) is a quote, t without its trailing backslashes, twice as many backslashes and a quote. */
  lemma QuoteShape(t: string, rest: string)
    ensures QuoteArgument(t) + rest ==
            "\"" + (t[..|t| - TrailingBackslashes(t)] + (Repeat('\\', 2 * TrailingBackslashes(t)) + "\"" + rest))
  {
    var k := TrailingBackslashes(t);
    var p := t[..|t| - k];
    var r := Repeat('\\', k);
    TrailingSplit(t);
    Regroup("\"", p, r, rest);
    RepeatDouble('\\', k);
  }

  lemma Regroup(q: string, p: string, r: string, z: string)
    ensures q + (p + r) + r + q + z == q + (p + (r + r + q + z))
  {
    assert q + (p + r) + r + q + z == q + p + r + r + q + z;
  }

  lemma Regroup4(a: string, b: string, c: string, d: string)
    ensures a + b + c + d == a + (b + (c + d))
  {
  }

  /** A quoted part: opening quote, a quote-free run not ending in a backslash, 2k backslashes, closing quote. */
  lemma ReadQuotedBody(p: string, k: nat, rest: string)
    requires forall j :: 0 <= j < |p| ==> p[j] != '"'
    requires p == [] || p[|p| - 1] != '\\'
    requires rest == [] || IsBlank(rest[0])
    ensures ReadArg("\"" + (p + (Repeat('\\', 2 * k) + "\"" + rest)), false, []) == (p + Repeat('\\', k), rest)
  {
    var tail := Repeat('\\', 2 * k) + "\"" + rest;
    OpenQuote(p + tail, []);
    ReadQuotedRun(p, tail, []);
    assert [] + p == p;
    CloseQuote(k, rest, p);
  }

  lemma ReadQuoted(t: string, rest: string)
    requires forall j :: 0 <= j < |t| ==> t[j] != '"'
    requires rest == [] || IsBlank(rest[0])
    ensures ReadArg(QuoteArgument(t) + rest, false, []) == (t, rest)
  {
    var k := TrailingBackslashes(t);
    var p := t[..|t| - k];
    QuoteShape(t, rest);
    assert forall j :: 0 <= j < |p| ==> p[j] == t[j];
    ReadQuotedBody(p, k, rest);
    TrailingSplit(t);
  }

  lemma SplitQuoted(t: string, rest: string)
    requires forall j :: 0 <= j < |t| ==> t[j] != '"'
    requires rest == [] || IsBlank(rest[0])
    ensures SplitArgs(QuoteArgument(t) + rest) == [t] + SplitArgs(rest)
  {
    ReadQuoted(t, rest);
    SplitStep(QuoteArgument(t) + rest);
  }

  /** A word argument (no blanks, quotes or backslashes) is read back as itself. */
  lemma SplitWord(w: string, rest: string)
    requires w != [] && forall j :: 0 <= j < |w| ==> w[j] != '"' && w[j] != '\\' && !IsBlank(w[j])
    requires rest == [] || IsBlank(rest[0])
    ensures SplitArgs(w + rest) == [w] + SplitArgs(rest)
  {
    assert (w + rest)[0] == w[0];
    SplitStep(w + rest);
    ReadPlainWord(w, rest, []);
    assert [] + w == w;
    ReadStop(rest, w);
  }

  /**
    A text that ends in one backslash and is put between quotes without
    doubling it: the backslash makes the closing quote literal, so the
    argument runs on and swallows what follows it (up to the next quote).
   */
  lemma ReadUnescapedBackslash(p: string, rest: string)
    requires forall j :: 0 <= j < |p| ==> p[j] != '"'
    requires p == [] || p[|p| - 1] != '\\'
    requires forall j :: 0 <= j < |rest| ==> rest[j] != '"' && rest[j] != '\\'
    ensures ReadArg("\"" + p + "\\\"" + rest, false, []) == (p + "\"" + rest, [])
  {
    var tail := "\\\"" + rest;
    Regroup4("\"", p, "\\\"", rest);
    OpenQuote(p + tail, []);
    ReadQuotedRun(p, tail, []);
    assert [] + p == p;
    ReadEscapedTail(p, rest);
  }

  /** Inside quotes, a backslash and a quote give a literal quote, and the quote-free rest runs to the end. */
  lemma ReadEscapedTail(acc: string, rest: string)
    requires forall j :: 0 <= j < |rest| ==> rest[j] != '"' && rest[j] != '\\'
    ensures ReadArg("\\\"" + rest, true, acc) == (acc + "\"" + rest, [])
  {
    var tail := "\\\"" + rest;
    assert Backslashes(tail) == 1;
    ReadEscapedQuoteStep(tail, 1, true, acc);
    assert tail[2..] == rest + [];
    assert acc + Repeat('\\', 0) + "\"" == acc + "\"";
    ReadQuotedRun(rest, [], acc + "\"");
  }

  lemma SplitUnescapedBackslash(p: string, rest: string)
    requires forall j :: 0 <= j < |p| ==> p[j] != '"'
    requires p == [] || p[|p| - 1] != '\\'
    requires forall j :: 0 <= j < |rest| ==> rest[j] != '"' && rest[j] != '\\'
    ensures SplitArgs("\"" + p + "\\\"" + rest) == [p + "\"" + rest]
  {
    ReadUnescapedBackslash(p, rest);
    SplitStep("\"" + p + "\\\"" + rest);
    assert SplitArgs([]) == [];
  }
}
