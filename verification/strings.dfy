/**
  The JavaScript string built-ins the template engine relies on, written out over
  `seq<char>`: `split` on a one-character separator, `split(/\r\n|\n/)`, `join`,
  `substring` and the decimal rendering of a number inside a template literal.
*/
module Strings {

  /** `s.split(sep)` for a one-character separator: never empty, and no piece holds `sep`. */
  function Split(s: string, sep: char): (parts: seq<string>)
    ensures |parts| >= 1
    ensures forall i :: 0 <= i < |parts| ==> sep !in parts[i]
    decreases |s|
  {
    if s == [] then [[]]
    else
      var rest := Split(s[1..], sep);
      if s[0] == sep then [[]] + rest
      else [[s[0]] + rest[0]] + rest[1..]
  }

  /** `parts.join(sep)`. */
  function Join(parts: seq<string>, sep: string): string
    decreases |parts|
  {
    if |parts| == 0 then []
    else if |parts| == 1 then parts[0]
    else parts[0] + sep + Join(parts[1..], sep)
  }

  /** `s.split(/\r\n|\n/)`: a CR LF pair is one break, a lone LF is one break, a lone CR is text. */
  function SplitLines(s: string): (lines: seq<string>)
    ensures |lines| >= 1
    ensures forall i :: 0 <= i < |lines| ==> '\n' !in lines[i]
    decreases |s|
  {
    if s == [] then [[]]
    else if |s| >= 2 && s[0] == '\r' && s[1] == '\n' then [[]] + SplitLines(s[2..])
    else if s[0] == '\n' then [[]] + SplitLines(s[1..])
    else
      var rest := SplitLines(s[1..]);
      [[s[0]] + rest[0]] + rest[1..]
  }

  /** `s.split(/\r\n|\n/).join(sep)`: every line break of `s` replaced by `sep`. */
  function JoinLines(s: string, sep: string): string
  {
    Join(SplitLines(s), sep)
  }

  function Clamp(i: int, n: nat): (r: nat)
    ensures r <= n
  {
    if i < 0 then 0 else if i > n then n else i
  }

  /** `s.substring(start, end)`: both bounds clamped to the string, swapped when reversed. */
  function Substring(s: string, start: int, end: int): (r: string)
    ensures |r| <= |s|
  {
    var a := Clamp(start, |s|);
    var b := Clamp(end, |s|);
    if a <= b then s[a..b] else s[b..a]
  }

  function DigitChar(d: nat): char
    requires d < 10
  {
    ('0' as int + d) as char
  }

  /** The decimal text of a natural number, as `${n}` renders it. */
  function NatToString(n: nat): (r: string)
    ensures |r| >= 1
    ensures forall i :: 0 <= i < |r| ==> '0' <= r[i] <= '9'
    decreases n
  {
    if n < 10 then [DigitChar(n)] else NatToString(n / 10) + [DigitChar(n % 10)]
  }

  /** The decimal text of an integer, as `${n}` renders it: a minus sign before a negative one. */
  function IntToString(n: int): (r: string)
    ensures |r| >= 1
    ensures forall i :: 0 <= i < |r| ==> r[i] == '-' || '0' <= r[i] <= '9'
  {
    if n < 0 then "-" + NatToString(-n) else NatToString(n)
  }

  predicate AllDigits(s: string)
  {
    forall i :: 0 <= i < |s| ==> '0' <= s[i] <= '9'
  }

  function DigitValue(c: char): nat
    requires '0' <= c <= '9'
  {
    c as int - '0' as int
  }

  /** The value of a string of decimal digits, most significant first. */
  function DigitsValue(s: string): nat
    requires AllDigits(s)
    decreases |s|
  {
    if s == [] then 0 else 10 * DigitsValue(s[..|s| - 1]) + DigitValue(s[|s| - 1])
  }

  /** A decimal integer: digits, with one minus sign in front when negative. */
  predicate IsDecimal(s: string)
  {
    || (|s| >= 1 && AllDigits(s))
    || (|s| >= 2 && s[0] == '-' && AllDigits(s[1..]))
  }

  /** The number a decimal integer denotes, as `Number(s)` reads it. */
  function DecimalValue(s: string): int
    requires IsDecimal(s)
  {
    if s[0] == '-' then -(DigitsValue(s[1..]) as int) else DigitsValue(s)
  }

  lemma {:induction false} NatToStringReads(n: nat)
    ensures AllDigits(NatToString(n)) && DigitsValue(NatToString(n)) == n
    decreases n
  {
    var r := NatToString(n);
    if n >= 10 {
      NatToStringReads(n / 10);
      assert r[..|r| - 1] == NatToString(n / 10);
    }
  }

  /** Reading the decimal text of a number back gives the number. */
  lemma IntToStringReads(n: int)
    ensures IsDecimal(IntToString(n)) && DecimalValue(IntToString(n)) == n
  {
    var r := IntToString(n);
    if n < 0 {
      NatToStringReads(-n);
      assert r[1..] == NatToString(-n);
    } else {
      NatToStringReads(n);
    }
  }

  /** Different numbers have different decimal texts. */
  lemma IntToStringInjective(a: int, b: int)
    ensures IntToString(a) == IntToString(b) ==> a == b
  {
    IntToStringReads(a);
    IntToStringReads(b);
  }

  /** Splitting at a separator splits the two sides independently. */
  lemma {:induction false} SplitConcat(a: string, sep: char, b: string)
    ensures Split(a + [sep] + b, sep) == Split(a, sep) + Split(b, sep)
    decreases |a|
  {
    if a == [] {
      assert a + [sep] + b == [sep] + b;
      assert ([sep] + b)[1..] == b;
    } else {
      var s := a + [sep] + b;
      SplitConcat(a[1..], sep, b);
      assert s[0] == a[0] && s[1..] == a[1..] + [sep] + b;
      var rest := Split(a[1..], sep);
      var whole := rest + Split(b, sep);
      assert Split(s[1..], sep) == whole;
      if a[0] != sep {
        assert whole[0] == rest[0] && whole[1..] == rest[1..] + Split(b, sep);
        assert Split(s, sep) == [[a[0]] + rest[0]] + whole[1..];
        assert Split(a, sep) == [[a[0]] + rest[0]] + rest[1..];
      }
    }
  }

  /** Splitting then joining with the same separator gives the string back. */
  lemma {:induction false} JoinSplit(s: string, sep: char)
    ensures Join(Split(s, sep), [sep]) == s
    decreases |s|
  {
    if s != [] {
      JoinSplit(s[1..], sep);
      var rest := Split(s[1..], sep);
      if s[0] == sep {
        assert Split(s, sep) == [[]] + rest;
      } else {
        var parts := Split(s, sep);
        assert parts == [[s[0]] + rest[0]] + rest[1..];
        if |rest| == 1 {
          assert Join(parts, [sep]) == [s[0]] + rest[0];
        } else {
          assert parts[1..] == rest[1..];
          assert Join(parts, [sep]) == [s[0]] + rest[0] + [sep] + Join(rest[1..], [sep]);
          assert Join(rest, [sep]) == rest[0] + [sep] + Join(rest[1..], [sep]);
        }
      }
    }
  }

  /** A piece free of the separator splits to itself, and a separator after it starts a new piece. */
  lemma {:induction false} SplitPiece(x: string, sep: char, r: string)
    requires sep !in x
    ensures Split(x, sep) == [x]
    ensures Split(x + [sep] + r, sep) == [x] + Split(r, sep)
    decreases |x|
  {
    if x == [] {
      assert [sep] + r == x + [sep] + r;
      assert ([sep] + r)[1..] == r;
    } else {
      SplitPiece(x[1..], sep, r);
      assert (x + [sep] + r)[1..] == x[1..] + [sep] + r;
      assert [x[0]] + x[1..] == x;
    }
  }

  /** Joining pieces free of the separator and splitting again gives the pieces back. */
  lemma {:induction false} SplitJoin(parts: seq<string>, sep: char)
    requires |parts| >= 1
    requires forall i :: 0 <= i < |parts| ==> sep !in parts[i]
    ensures Split(Join(parts, [sep]), sep) == parts
    decreases |parts|
  {
    SplitPiece(parts[0], sep, []);
    if |parts| > 1 {
      SplitJoin(parts[1..], sep);
      SplitPiece(parts[0], sep, Join(parts[1..], [sep]));
      assert [parts[0]] + parts[1..] == parts;
    }
  }

  /** A character absent from every piece and from the separator is absent from the join. */
  lemma {:induction false} JoinWithout(parts: seq<string>, sep: string, c: char)
    requires c !in sep
    requires forall i :: 0 <= i < |parts| ==> c !in parts[i]
    ensures c !in Join(parts, sep)
    decreases |parts|
  {
    if |parts| > 1 {
      JoinWithout(parts[1..], sep, c);
    }
  }

  /** Text without carriage returns survives `split(/\r\n|\n/).join("\n")` unchanged. */
  lemma {:induction false} JoinSplitLines(s: string)
    requires '\r' !in s
    ensures JoinLines(s, "\n") == s
    decreases |s|
  {
    if s != [] {
      JoinSplitLines(s[1..]);
      var rest := SplitLines(s[1..]);
      if s[0] != '\n' {
        var lines := SplitLines(s);
        assert lines == [[s[0]] + rest[0]] + rest[1..];
        if |rest| > 1 {
          assert lines[1..] == rest[1..];
        }
      }
    }
  }

  /** A string without line breaks is a single line. */
  lemma {:induction false} SingleLine(s: string)
    requires '\n' !in s
    ensures SplitLines(s) == [s]
    decreases |s|
  {
    if s != [] {
      SingleLine(s[1..]);
      assert [s[0]] + s[1..] == s;
    }
  }

  /** The first character of a line decides how `split(/\r\n|\n/)` treats it, when it starts no break. */
  lemma SplitLinesCons(c: char, x: string)
    requires c != '\n' && !(c == '\r' && |x| > 0 && x[0] == '\n')
    ensures SplitLines([c] + x) == [[c] + SplitLines(x)[0]] + SplitLines(x)[1..]
  {
    assert ([c] + x)[1..] == x;
  }

  /** A line free of breaks, followed by a line feed, is the first line of the split. */
  lemma {:induction false} SplitLinesPiece(x: string, r: string)
    requires '\n' !in x && '\r' !in x
    ensures SplitLines(x + "\n" + r) == [x] + SplitLines(r)
    decreases |x|
  {
    if x == [] {
      assert x + "\n" + r == "\n" + r;
      assert ("\n" + r)[1..] == r;
    } else {
      SplitLinesPiece(x[1..], r);
      assert x + "\n" + r == [x[0]] + (x[1..] + "\n" + r);
      SplitLinesCons(x[0], x[1..] + "\n" + r);
      assert [x[0]] + x[1..] == x;
    }
  }

  /** `s` holds a carriage return that is not the first half of a CR LF pair. */
  predicate HasLoneCR(s: string)
    decreases |s|
  {
    if s == [] then false
    else if s[0] == '\r' && (|s| == 1 || s[1] != '\n') then true
    else HasLoneCR(s[1..])
  }

  /** Without a lone carriage return, no line of `split(/\r\n|\n/)` holds a carriage return. */
  lemma {:induction false} SplitLinesNoCR(s: string)
    requires !HasLoneCR(s)
    ensures forall i :: 0 <= i < |SplitLines(s)| ==> '\r' !in SplitLines(s)[i]
    decreases |s|
  {
    if s == [] {
    } else if |s| >= 2 && s[0] == '\r' && s[1] == '\n' {
      assert !HasLoneCR(s[1..]);
      assert s[1..][1..] == s[2..];
      SplitLinesNoCR(s[2..]);
    } else if s[0] == '\n' {
      SplitLinesNoCR(s[1..]);
    } else {
      SplitLinesNoCR(s[1..]);
      var rest := SplitLines(s[1..]);
      assert SplitLines(s) == [[s[0]] + rest[0]] + rest[1..];
      assert s[0] != '\r';
      forall i | 0 <= i < |SplitLines(s)| ensures '\r' !in SplitLines(s)[i] {
        if i > 0 {
          assert SplitLines(s)[i] == rest[i];
        }
      }
    }
  }

  /** Joining lines whose first starts with `c` puts `c` in front of the join. */
  lemma JoinConsHead(c: char, parts: seq<string>, sep: string)
    requires |parts| >= 1
    ensures Join([[c] + parts[0]] + parts[1..], sep) == [c] + Join(parts, sep)
  {
    var ps := [[c] + parts[0]] + parts[1..];
    if |parts| > 1 {
      assert ps[1..] == parts[1..];
    }
  }

  /** A lone carriage return is text to `split(/\r\n|\n/)`, so it is still there after the join. */
  lemma {:induction false} JoinLinesKeepsLoneCR(s: string, sep: string)
    requires HasLoneCR(s)
    ensures '\r' in JoinLines(s, sep)
    decreases |s|
  {
    if |s| >= 2 && s[0] == '\r' && s[1] == '\n' {
      assert HasLoneCR(s[1..]) && s[1..][1..] == s[2..];
      JoinLinesKeepsLoneCR(s[2..], sep);
      assert JoinLines(s, sep) == [] + sep + JoinLines(s[2..], sep);
    } else if s[0] == '\n' {
      JoinLinesKeepsLoneCR(s[1..], sep);
      assert JoinLines(s, sep) == [] + sep + JoinLines(s[1..], sep);
    } else {
      var rest := SplitLines(s[1..]);
      JoinConsHead(s[0], rest, sep);
      assert JoinLines(s, sep) == [s[0]] + JoinLines(s[1..], sep);
      if s[0] != '\r' {
        JoinLinesKeepsLoneCR(s[1..], sep);
      }
    }
  }


  lemma {:induction false} HasLoneCRAppend(a: string, t: string)
    requires HasLoneCR(t)
    ensures HasLoneCR(a + t)
    decreases |a|
  {
    if a != [] {
      HasLoneCRAppend(a[1..], t);
      assert (a + t)[1..] == a[1..] + t;
    } else {
      assert a + t == t;
    }
  }

}
