/** The string operations the diff renderer relies on: `String.prototype.split`
    and `Array.prototype.join` with a one-character separator, decimal
    rendering of counts inside template literals, and `substring(0, n)`. */
module Text {

  /** Number of occurrences of `c` in `s`. */
  function Count(s: string, c: char): nat {
    if s == [] then 0 else (if s[0] == c then 1 else 0) + Count(s[1..], c)
  }

  /** `s.split(sep)`: the pieces between separators, always at least one
      (the empty string splits into `[""]`). */
  function Split(s: string, sep: char): (parts: seq<string>)
    ensures |parts| == Count(s, sep) + 1
    ensures forall i :: 0 <= i < |parts| ==> sep !in parts[i]
  {
    if s == [] then [""]
    else
      var rest := Split(s[1..], sep);
      if s[0] == sep then [""] + rest else [[s[0]] + rest[0]] + rest[1..]
  }

  /** `parts.join(sep)`; the empty array joins to the empty string. */
  function Join(parts: seq<string>, sep: char): string {
    if parts == [] then ""
    else if |parts| == 1 then parts[0]
    else parts[0] + [sep] + Join(parts[1..], sep)
  }

  /** Joining the pieces of a split gives the original string back. */
  lemma {:induction false} JoinSplit(s: string, sep: char)
    ensures Join(Split(s, sep), sep) == s
  {
    if s != [] {
      JoinSplit(s[1..], sep);
      var rest := Split(s[1..], sep);
      if s[0] == sep {
        assert Split(s, sep) == [""] + rest;
        assert s == [sep] + s[1..];
      } else {
        var parts := Split(s, sep);
        assert parts == [[s[0]] + rest[0]] + rest[1..];
        if |rest| == 1 {
          assert s == [s[0]] + rest[0];
        } else {
          assert Join(rest, sep) == rest[0] + [sep] + Join(rest[1..], sep);
          assert parts[1..] == rest[1..];
          assert s == [s[0]] + s[1..];
        }
      }
    }
  }

  /** A piece without separator, followed by the separator, splits off as one piece. */
  lemma {:induction false} SplitAfterPiece(a: string, b: string, sep: char)
    requires sep !in a
    ensures Split(a + [sep] + b, sep) == [a] + Split(b, sep)
  {
    if a == [] {
      assert a + [sep] + b == [sep] + b;
    } else {
      SplitAfterPiece(a[1..], b, sep);
      var s := a + [sep] + b;
      assert s[0] == a[0] && s[1..] == a[1..] + [sep] + b;
      var rest := Split(s[1..], sep);
      assert rest[0] == a[1..] && rest[1..] == Split(b, sep);
      assert [s[0]] + rest[0] == a;
    }
  }

  /** A string without separator is a single piece. */
  lemma {:induction false} SplitSinglePiece(a: string, sep: char)
    requires sep !in a
    ensures Split(a, sep) == [a]
  {
    if a != [] {
      SplitSinglePiece(a[1..], sep);
      assert [a[0]] + a[1..] == a;
    }
  }

  /** Splitting a join of separator-free pieces gives the pieces back. */
  lemma {:induction false} SplitJoin(parts: seq<string>, sep: char)
    requires |parts| >= 1
    requires forall i :: 0 <= i < |parts| ==> sep !in parts[i]
    ensures Split(Join(parts, sep), sep) == parts
  {
    if |parts| == 1 {
      SplitSinglePiece(parts[0], sep);
    } else {
      SplitJoin(parts[1..], sep);
      SplitAfterPiece(parts[0], Join(parts[1..], sep), sep);
    }
  }

  /** The character of a decimal digit. */
  function DigitChar(d: nat): (c: char)
    requires d < 10
    ensures '0' <= c <= '9' && c as int - '0' as int == d
  {
    ('0' as int + d) as char
  }

  ghost predicate AllDigits(s: string) {
    forall i :: 0 <= i < |s| ==> '0' <= s[i] <= '9'
  }

  /** The decimal rendering of a count, as `${n}` produces it. */
  function NatToString(n: nat): (s: string)
    ensures |s| >= 1 && AllDigits(s)
    ensures n >= 10 ==> s[0] != '0'
  {
    if n < 10 then [DigitChar(n)] else NatToString(n / 10) + [DigitChar(n % 10)]
  }

  /** The value of a string of decimal digits (reads `NatToString`'s output back). */
  function DigitsValue(s: string): nat
    requires AllDigits(s)
  {
    if s == [] then 0 else DigitsValue(s[..|s| - 1]) * 10 + (s[|s| - 1] as int - '0' as int)
  }

  /** The rendering of a count reads back as that count. */
  lemma {:induction false} NatToStringRoundTrip(n: nat)
    ensures DigitsValue(NatToString(n)) == n
  {
    if n >= 10 {
      NatToStringRoundTrip(n / 10);
      var s := NatToString(n);
      assert s[..|s| - 1] == NatToString(n / 10);
    }
  }

  /** `s.substring(0, n)`: the first `n` characters, or all of `s` when shorter. */
  function Take(s: string, n: nat): (r: string)
    ensures |r| == if |s| <= n then |s| else n
    ensures r <= s
  {
    if |s| <= n then s else s[..n]
  }

  /** The lines of a hunk: each line with its marker (`+` or `-`) and a newline. */
  function MarkLines(mark: char, lines: seq<string>): string {
    if lines == [] then "" else [mark] + lines[0] + "\n" + MarkLines(mark, lines[1..])
  }

  /** Splitting marked lines at newlines gives each marked line, then the empty
      piece after the final newline: the hunk body is exactly `|lines|` lines. */
  lemma {:induction false} MarkLinesSplit(mark: char, lines: seq<string>)
    requires mark != '\n'
    requires forall i :: 0 <= i < |lines| ==> '\n' !in lines[i]
    ensures Split(MarkLines(mark, lines), '\n') == seq(|lines|, i requires 0 <= i < |lines| => [mark] + lines[i]) + [""]
    ensures Count(MarkLines(mark, lines), '\n') == |lines|
  {
    if lines != [] {
      MarkLinesSplit(mark, lines[1..]);
      var head := [mark] + lines[0];
      assert '\n' !in head;
      assert MarkLines(mark, lines) == head + ['\n'] + MarkLines(mark, lines[1..]);
      SplitAfterPiece(head, MarkLines(mark, lines[1..]), '\n');
    }
  }

  /** Appending one line appends its marked form. */
  lemma {:induction false} MarkLinesAppend(mark: char, lines: seq<string>, line: string)
    ensures MarkLines(mark, lines + [line]) == MarkLines(mark, lines) + [mark] + line + "\n"
  {
    if lines != [] {
      MarkLinesAppend(mark, lines[1..], line);
      assert (lines + [line])[1..] == lines[1..] + [line];
    } else {
      assert MarkLines(mark, [line]) == [mark] + line + "\n" + MarkLines(mark, []);
    }
  }

  /** A trailing separator adds one empty piece at the end. */
  lemma {:induction false} SplitTrailingSeparator(s: string, sep: char)
    ensures Split(s + [sep], sep) == Split(s, sep) + [""]
  {
    if s == [] {
      assert [sep][1..] == [];
    } else {
      SplitTrailingSeparator(s[1..], sep);
      assert (s + [sep])[0] == s[0] && (s + [sep])[1..] == s[1..] + [sep];
    }
  }

  /** Every line of a hunk body, with its marker taken off and the lines
      joined again, gives back the content the hunk was made from; the body
      has exactly as many lines as `content.split('\n')` has pieces. */
  lemma HunkRoundTrip(mark: char, content: string)
    requires mark != '\n'
    ensures var lines := Split(content, '\n');
            var body := MarkLines(mark, lines);
            var emitted := Split(body, '\n')[..Count(body, '\n')];
            && |emitted| == |lines|
            && (forall i :: 0 <= i < |emitted| ==> |emitted[i]| >= 1 && emitted[i][0] == mark)
            && Join(seq(|emitted|, i requires 0 <= i < |emitted| => emitted[i][1..]), '\n') == content
  {
    var lines := Split(content, '\n');
    MarkLinesSplit(mark, lines);
    var body := MarkLines(mark, lines);
    var emitted := Split(body, '\n')[..Count(body, '\n')];
    assert forall i :: 0 <= i < |emitted| ==> emitted[i] == [mark] + lines[i];
    assert seq(|emitted|, i requires 0 <= i < |emitted| => emitted[i][1..]) == lines;
    JoinSplit(content, '\n');
  }
}
