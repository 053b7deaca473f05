/**
  The string helpers of the engine (src/utils.ts): quote escaping for generated string
  literals, the escapers that the runtime writers apply to HTML and JavaScript output,
  and the one-screen rendering of an error.
*/
module Utils {
  import opened Wrappers
  import opened Strings

  /** Number of occurrences of `c` in `s`. */
  function Count(c: char, s: string): nat
    decreases |s|
  {
    if s == [] then 0 else (if s[0] == c then 1 else 0) + Count(c, s[1..])
  }

  lemma {:induction false} CountConcat(c: char, a: string, b: string)
    ensures Count(c, a + b) == Count(c, a) + Count(c, b)
    decreases |a|
  {
    if a == [] {
      assert a + b == b;
    } else {
      CountConcat(c, a[1..], b);
      assert (a + b)[0] == a[0];
      assert (a + b)[1..] == a[1..] + b;
    }
  }

  lemma {:induction false} CountAbsent(c: char, s: string)
    requires c !in s
    ensures Count(c, s) == 0
    decreases |s|
  {
    if s != [] {
      CountAbsent(c, s[1..]);
    }
  }

  // ---------------------------------------------------------------- escapeQuotes

  predicate IsQuote(c: char)
  {
    c == '\'' || c == '"' || c == '`'
  }

  function QuoteCount(s: string): nat
    decreases |s|
  {
    if s == [] then 0 else (if IsQuote(s[0]) then 1 else 0) + QuoteCount(s[1..])
  }

  /** `escapeQuotes`: a backslash goes in front of every single quote, double quote and backtick. */
  function EscapeQuotes(s: string): (r: string)
    ensures |r| == |s| + QuoteCount(s)
    ensures |s| > 0 ==> |r| > 0 && !IsQuote(r[0]) && (r[0] == '\n' <==> s[0] == '\n')
    decreases |s|
  {
    if s == [] then []
    else (if IsQuote(s[0]) then ['\\', s[0]] else [s[0]]) + EscapeQuotes(s[1..])
  }

  /** The inverse reading: every backslash directly followed by a quote character is deleted. */
  function UnescapeQuotes(r: string): string
    decreases |r|
  {
    if r == [] then []
    else if |r| >= 2 && r[0] == '\\' && IsQuote(r[1]) then [r[1]] + UnescapeQuotes(r[2..])
    else [r[0]] + UnescapeQuotes(r[1..])
  }

  /** Escaping quotes loses nothing: deleting the added backslashes gives the input back. */
  lemma {:induction false} UnescapeEscapeQuotes(s: string)
    ensures UnescapeQuotes(EscapeQuotes(s)) == s
    decreases |s|
  {
    if s != [] {
      UnescapeEscapeQuotes(s[1..]);
      var r := EscapeQuotes(s);
      var rest := EscapeQuotes(s[1..]);
      if IsQuote(s[0]) {
        assert r == ['\\', s[0]] + rest;
        assert r[2..] == rest;
      } else {
        assert r == [s[0]] + rest;
        assert r[1..] == rest;
        assert [s[0]] + s[1..] == s;
      }
    }
  }

  /** Every quote character of the output is escaped by the backslash right before it. */
  lemma {:induction false} EscapeQuotesGuarded(s: string)
    ensures forall i :: 0 <= i < |EscapeQuotes(s)| && IsQuote(EscapeQuotes(s)[i]) ==>
              i > 0 && EscapeQuotes(s)[i - 1] == '\\'
    decreases |s|
  {
    if s != [] {
      EscapeQuotesGuarded(s[1..]);
      var head := if IsQuote(s[0]) then ['\\', s[0]] else [s[0]];
      var rest := EscapeQuotes(s[1..]);
      var r := EscapeQuotes(s);
      assert r == head + rest;
      forall i | 0 <= i < |r| && IsQuote(r[i])
        ensures i > 0 && r[i - 1] == '\\'
      {
        if i >= |head| {
          assert r[i] == rest[i - |head|];
          if i - |head| > 0 {
            assert r[i - 1] == rest[i - |head| - 1];
          } else {
            assert false;
          }
        }
      }
    }
  }

  /** Escaping quotes keeps a lone carriage return lone: the character after it is never made a line feed. */
  lemma {:induction false} EscapeQuotesKeepsLoneCR(s: string)
    requires HasLoneCR(s)
    ensures HasLoneCR(EscapeQuotes(s))
    decreases |s|
  {
    var head := if IsQuote(s[0]) then ['\\', s[0]] else [s[0]];
    var rest := EscapeQuotes(s[1..]);
    assert EscapeQuotes(s) == head + rest;
    if s[0] == '\r' && (|s| == 1 || s[1] != '\n') {
      assert head == ['\r'];
      assert (head + rest)[0] == '\r';
      assert |s| > 1 ==> (head + rest)[1] == rest[0] && rest[0] != '\n';
    } else {
      EscapeQuotesKeepsLoneCR(s[1..]);
      HasLoneCRAppend(head, rest);
    }
  }

  /** Quote escaping works character by character, so it distributes over concatenation. */
  lemma {:induction false} EscapeQuotesConcat(a: string, b: string)
    ensures EscapeQuotes(a + b) == EscapeQuotes(a) + EscapeQuotes(b)
    decreases |a|
  {
    if a == [] {
      assert a + b == b;
    } else {
      var head := if IsQuote(a[0]) then ['\\', a[0]] else [a[0]];
      assert (a + b)[0] == a[0] && (a + b)[1..] == a[1..] + b;
      calc {
        EscapeQuotes(a + b);
        head + EscapeQuotes(a[1..] + b);
        { EscapeQuotesConcat(a[1..], b); }
        head + (EscapeQuotes(a[1..]) + EscapeQuotes(b));
        (head + EscapeQuotes(a[1..])) + EscapeQuotes(b);
        EscapeQuotes(a) + EscapeQuotes(b);
      }
    }
  }

  /** Text without quote characters is left as it is. */
  lemma {:induction false} EscapeQuotesPlain(s: string)
    requires QuoteCount(s) == 0
    ensures EscapeQuotes(s) == s
    decreases |s|
  {
    if s != [] {
      EscapeQuotesPlain(s[1..]);
      assert [s[0]] + s[1..] == s;
    }
  }

  // ---------------------------------------------------------------- escapeUL

  /** `escapeUL`: quotes escaped, then every CR LF or LF break removed. */
  function EscapeUL(s: string): string
  {
    JoinLines(EscapeQuotes(s), "")
  }

  /** The output of `escapeUL` holds no line feed. */
  lemma EscapeULSingleLine(s: string)
    ensures '\n' !in EscapeUL(s)
  {
    JoinWithout(SplitLines(EscapeQuotes(s)), "", '\n');
  }

  function EscapeEach(lines: seq<string>): (r: seq<string>)
    ensures |r| == |lines|
  {
    seq(|lines|, i requires 0 <= i < |lines| => EscapeQuotes(lines[i]))
  }

  lemma EscapeEachCons(x: string, rest: seq<string>)
    ensures EscapeEach([x] + rest) == [EscapeQuotes(x)] + EscapeEach(rest)
  {
  }

  /** The lines of a string whose first character starts no line break. */
  lemma SplitLinesHead(s: string)
    requires s != [] && s[0] != '\n' && !(|s| >= 2 && s[0] == '\r' && s[1] == '\n')
    ensures SplitLines(s) == [[s[0]] + SplitLines(s[1..])[0]] + SplitLines(s[1..])[1..]
  {
  }

  /** Lines of `[c] + x`, when `c` is a character quote escaping keeps as it is. */
  lemma SplitLinesEscapeQuotesPlain(s: string)
    requires s != [] && !IsQuote(s[0]) && s[0] != '\n' && !(|s| >= 2 && s[0] == '\r' && s[1] == '\n')
    requires SplitLines(EscapeQuotes(s[1..])) == EscapeEach(SplitLines(s[1..]))
    ensures SplitLines(EscapeQuotes(s)) == EscapeEach(SplitLines(s))
  {
    var c, t := s[0], s[1..];
    var et := EscapeQuotes(t);
    var rs := SplitLines(t);
    assert EscapeQuotes(s) == [c] + et;
    SplitLinesCons(c, et);
    SplitLinesHead(s);
    EscapeQuotesConcat([c], rs[0]);
    assert EscapeQuotes([c]) == [c] by {
      assert [c][1..] == [];
    }
    EscapeEachCons([c] + rs[0], rs[1..]);
    EscapeEachCons(rs[0], rs[1..]);
    assert [rs[0]] + rs[1..] == rs;
  }

  /** Two characters that start no line break, in front of `x`, extend its first line. */
  lemma SplitLinesCons2(a: char, b: char, x: string)
    requires a != '\n' && a != '\r' && b != '\n' && b != '\r'
    ensures SplitLines([a, b] + x) == [[a, b] + SplitLines(x)[0]] + SplitLines(x)[1..]
  {
    var ls := SplitLines(x);
    SplitLinesCons(b, x);
    var inner := SplitLines([b] + x);
    assert inner[0] == [b] + ls[0] && inner[1..] == ls[1..];
    assert [a, b] + x == [a] + ([b] + x);
    SplitLinesCons(a, [b] + x);
    assert [a] + inner[0] == [a, b] + ls[0];
  }

  /** Lines of `[q] + x` for a quote character `q`, which escaping turns into a backslash and `q`. */
  lemma SplitLinesEscapeQuotesQuote(s: string)
    requires s != [] && IsQuote(s[0])
    requires SplitLines(EscapeQuotes(s[1..])) == EscapeEach(SplitLines(s[1..]))
    ensures SplitLines(EscapeQuotes(s)) == EscapeEach(SplitLines(s))
  {
    var c, t := s[0], s[1..];
    var rs := SplitLines(t);
    assert EscapeQuotes(s) == ['\\', c] + EscapeQuotes(t);
    SplitLinesCons2('\\', c, EscapeQuotes(t));
    EscapeEachHead(s);
  }

  lemma EscapeEachHead(s: string)
    requires s != [] && IsQuote(s[0])
    ensures EscapeEach(SplitLines(s)) ==
            [['\\', s[0]] + EscapeEach(SplitLines(s[1..]))[0]] + EscapeEach(SplitLines(s[1..]))[1..]
  {
    var c, rs := s[0], SplitLines(s[1..]);
    SplitLinesHead(s);
    EscapeQuotesConcat([c], rs[0]);
    assert EscapeQuotes([c]) == ['\\', c] by {
      assert [c][1..] == [];
    }
    EscapeEachCons([c] + rs[0], rs[1..]);
    EscapeEachCons(rs[0], rs[1..]);
    assert [rs[0]] + rs[1..] == rs;
  }

  /** Quote escaping creates and removes no line break, so the lines of the output are the escaped lines. */
  lemma {:induction false} SplitLinesEscapeQuotes(s: string)
    ensures SplitLines(EscapeQuotes(s)) == EscapeEach(SplitLines(s))
    decreases |s|
  {
    if s == [] {
    } else if |s| >= 2 && s[0] == '\r' && s[1] == '\n' {
      SplitLinesEscapeQuotes(s[2..]);
      assert s[1..][1..] == s[2..];
      var r := EscapeQuotes(s);
      assert EscapeQuotes(s[1..]) == "\n" + EscapeQuotes(s[2..]);
      assert r == "\r\n" + EscapeQuotes(s[2..]);
      assert r[2..] == EscapeQuotes(s[2..]);
      EscapeEachCons([], SplitLines(s[2..]));
    } else if s[0] == '\n' {
      SplitLinesEscapeQuotes(s[1..]);
      var r := EscapeQuotes(s);
      assert r == "\n" + EscapeQuotes(s[1..]);
      assert r[1..] == EscapeQuotes(s[1..]);
      EscapeEachCons([], SplitLines(s[1..]));
    } else {
      SplitLinesEscapeQuotes(s[1..]);
      if IsQuote(s[0]) {
        SplitLinesEscapeQuotesQuote(s);
      } else {
        SplitLinesEscapeQuotesPlain(s);
      }
    }
  }

  lemma {:induction false} JoinEscapeEach(lines: seq<string>)
    ensures Join(EscapeEach(lines), "") == EscapeQuotes(Join(lines, ""))
    decreases |lines|
  {
    if |lines| > 1 {
      JoinEscapeEach(lines[1..]);
      assert EscapeEach(lines)[1..] == EscapeEach(lines[1..]);
      EscapeQuotesConcat(lines[0], Join(lines[1..], ""));
      assert lines[0] + "" + Join(lines[1..], "") == lines[0] + Join(lines[1..], "");
      assert EscapeEach(lines)[0] + "" + Join(EscapeEach(lines)[1..], "") ==
             EscapeEach(lines)[0] + Join(EscapeEach(lines)[1..], "");
    }
  }

  /** Removing the breaks and escaping the quotes commute: `escapeUL` escapes the joined lines. */
  lemma EscapeULCommutes(s: string)
    ensures EscapeUL(s) == EscapeQuotes(JoinLines(s, ""))
  {
    SplitLinesEscapeQuotes(s);
    JoinEscapeEach(SplitLines(s));
  }

  // ---------------------------------------------------------------- escapeJsString

  const VerticalTab: char := '\U{000B}'

  /**
    One match of `/("|'|\\|\r\n|\n|\v)/` at the start of `s` and its replacement from the
    lookup map, as (replacement, characters consumed); a character the pattern does not match
    is copied. The alternation tries CR LF before LF, so a CR LF pair is one match.
  */
  function JsStep(s: string): (step: (string, nat))
    requires s != []
    ensures 1 <= step.1 <= |s|
  {
    if s[0] == '"' then ("\"", 1)
    else if s[0] == '\'' then ("'", 1)
    else if s[0] == '\\' then ("\\\\", 1)
    else if |s| >= 2 && s[0] == '\r' && s[1] == '\n' then ("\\\\r\\\\n", 2)
    else if s[0] == '\n' then ("\\\\n", 1)
    else if s[0] == VerticalTab then ("\\\\v", 1)
    else ([s[0]], 1)
  }

  /** `escapeJsString`: backslashes doubled, CR LF, LF and vertical tab written as escaped text. */
  function EscapeJsString(s: string): string
    decreases |s|
  {
    if s == [] then [] else var (rep, n) := JsStep(s); rep + EscapeJsString(s[n..])
  }

  /** The output of `escapeJsString` holds no line feed and no vertical tab. */
  lemma {:induction false} EscapeJsStringSingleLine(s: string)
    ensures '\n' !in EscapeJsString(s) && VerticalTab !in EscapeJsString(s)
    decreases |s|
  {
    if s != [] {
      if |s| >= 2 && s[0] == '\r' && s[1] == '\n' {
        EscapeJsStringSingleLine(s[2..]);
      } else {
        EscapeJsStringSingleLine(s[1..]);
      }
    }
  }

  /** Text with no backslash, line feed or vertical tab passes through unchanged, quotes included. */
  lemma {:induction false} EscapeJsStringPlain(s: string)
    requires '\\' !in s && '\n' !in s && VerticalTab !in s
    ensures EscapeJsString(s) == s
    decreases |s|
  {
    if s != [] {
      EscapeJsStringPlain(s[1..]);
      assert [s[0]] + s[1..] == s;
    }
  }

  /** One replacement keeps the number of double and single quotes it consumed. */
  lemma JsStepKeepsQuotes(s: string, q: char)
    requires s != [] && (q == '"' || q == '\'')
    ensures Count(q, JsStep(s).0) == Count(q, s[..JsStep(s).1])
  {
    var (rep, n) := JsStep(s);
    if n == 2 || s[0] == '\\' || s[0] == '\n' || s[0] == VerticalTab {
      assert q !in rep && q !in s[..n];
      CountAbsent(q, rep);
      CountAbsent(q, s[..n]);
    } else {
      assert rep == s[..n];
    }
  }

  /** Double and single quotes are neither added nor removed. */
  lemma {:induction false} EscapeJsStringKeepsQuotes(s: string, q: char)
    requires q == '"' || q == '\''
    ensures Count(q, EscapeJsString(s)) == Count(q, s)
    decreases |s|
  {
    if s != [] {
      var (rep, n) := JsStep(s);
      assert s == s[..n] + s[n..];
      EscapeJsStringKeepsQuotes(s[n..], q);
      CountConcat(q, s[..n], s[n..]);
      CountConcat(q, rep, EscapeJsString(s[n..]));
      JsStepKeepsQuotes(s, q);
    }
  }

  /** A backslash followed by `n` and a line feed escape to the same text. */
  lemma EscapeJsStringConflates()
    ensures EscapeJsString("\\n") == EscapeJsString("\n") == "\\\\n"
  {
    assert EscapeJsString("\\n") == "\\\\" + EscapeJsString("n");
    assert EscapeJsString("n") == "n" + EscapeJsString([]);
  }

  // ---------------------------------------------------------------- escapeHtml

  /** The replacements of the characters of `s`, one after another. */
  function ConcatMap(f: char -> string, s: string): string
    decreases |s|
  {
    if s == [] then [] else f(s[0]) + ConcatMap(f, s[1..])
  }

  lemma {:induction false} ConcatMapConcat(f: char -> string, a: string, b: string)
    ensures ConcatMap(f, a + b) == ConcatMap(f, a) + ConcatMap(f, b)
    decreases |a|
  {
    if a == [] {
      assert a + b == b;
    } else {
      ConcatMapConcat(f, a[1..], b);
      assert (a + b)[0] == a[0] && (a + b)[1..] == a[1..] + b;
    }
  }

  function HtmlReplacement(c: char): string
  {
    if c == '<' then "&lt;"
    else if c == '>' then "&gt;"
    else if c == '"' then "&quot;"
    else if c == '\'' then "'"
    else [c]
  }

  /** `escapeHtml`: `<`, `>` and `"` become entities; a single quote maps to itself. */
  function EscapeHtml(s: string): string
    decreases |s|
  {
    ConcatMap(HtmlReplacement, s)
  }

  predicate HtmlSafe(s: string)
  {
    '<' !in s && '>' !in s && '"' !in s
  }

  /** No `<`, `>` or `"` survives `escapeHtml`. */
  lemma {:induction false} EscapeHtmlSafe(s: string)
    ensures HtmlSafe(EscapeHtml(s))
    decreases |s|
  {
    if s != [] {
      EscapeHtmlSafe(s[1..]);
    }
  }

  /** Text free of `<`, `>` and `"` is left as it is. */
  lemma {:induction false} EscapeHtmlPlain(s: string)
    requires HtmlSafe(s)
    ensures EscapeHtml(s) == s
    decreases |s|
  {
    if s != [] {
      EscapeHtmlPlain(s[1..]);
      assert [s[0]] + s[1..] == s;
    }
  }

  /** Escaping twice is escaping once. */
  lemma EscapeHtmlIdempotent(s: string)
    ensures EscapeHtml(EscapeHtml(s)) == EscapeHtml(s)
  {
    EscapeHtmlSafe(s);
    EscapeHtmlPlain(EscapeHtml(s));
  }

  /** HTML escaping distributes over concatenation. */
  lemma EscapeHtmlConcat(a: string, b: string)
    ensures EscapeHtml(a + b) == EscapeHtml(a) + EscapeHtml(b)
  {
    ConcatMapConcat(HtmlReplacement, a, b);
  }

  /** Single quotes are neither added nor removed. */
  lemma {:induction false} EscapeHtmlKeepsApostrophes(s: string)
    ensures Count('\'', EscapeHtml(s)) == Count('\'', s)
    decreases |s|
  {
    if s != [] {
      EscapeHtmlKeepsApostrophes(s[1..]);
      CountConcat('\'', HtmlReplacement(s[0]), EscapeHtml(s[1..]));
      if s[0] in "<>\"" {
        assert '\'' !in HtmlReplacement(s[0]);
        CountAbsent('\'', HtmlReplacement(s[0]));
      } else {
        assert HtmlReplacement(s[0]) == [s[0]];
      }
    }
  }

  // ---------------------------------------------------------------- parseError

  /** An `Error` as `parseError` sees it: an optional stack, a name and a message. */
  datatype JsError = JsError(stack: Option<string>, name: string, message: string)

  const Esc: char := '\U{001B}'

  predicate IsDigit(c: char)
  {
    '0' <= c <= '9'
  }

  function DigitRun(s: string): (n: nat)
    ensures n <= |s|
    ensures forall i :: 0 <= i < n ==> IsDigit(s[i])
    ensures n < |s| ==> !IsDigit(s[n])
    decreases |s|
  {
    if s != [] && IsDigit(s[0]) then 1 + DigitRun(s[1..]) else 0
  }

  /** Length of an `ESC [ digits m` sequence at the start of `s`, or 0 when none starts there. */
  function AnsiLength(s: string): (n: nat)
    ensures n <= |s|
    ensures n > 0 ==> n >= 4 && s[0] == Esc && s[1] == '[' && s[n - 1] == 'm' &&
                      forall i :: 2 <= i < n - 1 ==> IsDigit(s[i])
  {
    if |s| >= 4 && s[0] == Esc && s[1] == '[' then
      var d := DigitRun(s[2..]);
      if d > 0 && 2 + d < |s| && s[2 + d] == 'm' then 3 + d else 0
    else 0
  }

  /** `replace(/\u001b\[\d+m/g, "")`: one left-to-right pass deleting colour sequences. */
  function StripAnsi(s: string): (r: string)
    ensures |r| <= |s|
    decreases |s|
  {
    if s == [] then []
    else
      var n := AnsiLength(s);
      if n > 0 then StripAnsi(s[n..]) else [s[0]] + StripAnsi(s[1..])
  }

  /** Deleting colour sequences removes no line feed. */
  lemma {:induction false} StripAnsiKeepsLineFeeds(s: string)
    ensures Count('\n', StripAnsi(s)) == Count('\n', s)
    decreases |s|
  {
    if s != [] {
      var n := AnsiLength(s);
      if n > 0 {
        StripAnsiKeepsLineFeeds(s[n..]);
        assert s == s[..n] + s[n..];
        CountConcat('\n', s[..n], s[n..]);
        assert '\n' !in s[..n];
        CountAbsent('\n', s[..n]);
      } else {
        StripAnsiKeepsLineFeeds(s[1..]);
      }
    }
  }

  /** Text without an escape character is left as it is. */
  lemma {:induction false} StripAnsiPlain(s: string)
    requires Esc !in s
    ensures StripAnsi(s) == s
    decreases |s|
  {
    if s != [] {
      StripAnsiPlain(s[1..]);
      assert [s[0]] + s[1..] == s;
    }
  }

  /** One pass only: a sequence that the deletion brings together stays in the output. */
  lemma StripAnsiSinglePass()
    ensures StripAnsi([Esc, Esc, '[', '1', 'm', '[', '2', 'm']) == [Esc, '[', '2', 'm']
  {
    var s := [Esc, Esc, '[', '1', 'm', '[', '2', 'm'];
    assert AnsiLength(s) == 0;
    assert s[1..] == [Esc, '[', '1', 'm', '[', '2', 'm'];
    assert DigitRun(s[1..][2..]) == 1 by {
      assert s[1..][2..] == ['1', 'm', '[', '2', 'm'];
    }
    assert AnsiLength(s[1..]) == 4;
    var t := s[1..][4..];
    assert t == ['[', '2', 'm'];
    assert StripAnsi(t) == t by {
      StripAnsiPlain(t);
    }
  }

  /** The text `parseError` starts from: the stack when it is non-empty, else `name :\tmessage`. */
  function ErrorText(e: JsError): string
  {
    if e.stack.Some? && e.stack.value != "" then e.stack.value else e.name + " :\t" + e.message
  }

  /** `parseError`: the first two lines of the error text, joined by a line feed, colour codes removed. */
  function ParseError(e: JsError): string
  {
    var lines := SplitLines(ErrorText(e));
    StripAnsi(Join(lines[..if |lines| < 2 then |lines| else 2], "\n"))
  }

  /** The rendered error spans at most two lines. */
  lemma ParseErrorTwoLines(e: JsError)
    ensures Count('\n', ParseError(e)) <= 1
  {
    var lines := SplitLines(ErrorText(e));
    var kept := lines[..if |lines| < 2 then |lines| else 2];
    var joined := Join(kept, "\n");
    StripAnsiKeepsLineFeeds(joined);
    if |kept| == 1 {
      CountAbsent('\n', kept[0]);
    } else {
      assert kept[1..] == [kept[1]];
      assert Join(kept[1..], "\n") == kept[1];
      assert joined == kept[0] + "\n" + kept[1];
      CountConcat('\n', kept[0] + "\n", kept[1]);
      CountConcat('\n', kept[0], "\n");
      CountAbsent('\n', kept[0]);
      CountAbsent('\n', kept[1]);
    }
  }

  /** Without a stack, a one-line name and message are rendered as `name :\tmessage`. */
  lemma ParseErrorFallback(e: JsError)
    requires e.stack.None? || e.stack == Some("")
    requires '\n' !in e.name + e.message && Esc !in e.name + e.message
    ensures ParseError(e) == e.name + " :\t" + e.message
  {
    var t := e.name + " :\t" + e.message;
    assert forall c :: c in t ==> c in e.name + e.message || c in " :\t";
    SingleLine(t);
    StripAnsiPlain(t);
  }

  /** With a stack, the first two of its lines are kept and the rest is dropped. */
  lemma ParseErrorKeepsTwoStackLines(e: JsError, first: string, second: string, rest: string)
    requires e.stack == Some(first + "\n" + second + "\n" + rest)
    requires '\n' !in first && '\r' !in first && Esc !in first
    requires '\n' !in second && '\r' !in second && Esc !in second
    ensures ParseError(e) == first + "\n" + second
  {
    var stack := first + "\n" + second + "\n" + rest;
    assert stack == first + "\n" + (second + "\n" + rest);
    SplitLinesPiece(first, second + "\n" + rest);
    SplitLinesPiece(second, rest);
    var lines := SplitLines(stack);
    assert lines[..2] == [first, second];
    var joined := first + "\n" + second;
    assert Join([first, second], "\n") == joined;
    assert forall c :: c in joined ==> c in first || c in second || c == '\n';
    StripAnsiPlain(joined);
  }
}
