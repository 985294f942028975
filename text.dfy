/** The string operations of the Java library that the expense tracker relies
    on: `String.trim`, `String.replace(char, char)`, `String.split(sep, limit)`,
    `String.compareTo`, and decimal digits as `Integer.toString` and
    `String.format("%0Nd")` write them. */
module Text {

  // ---------------------------------------------------------------------
  // String.trim: strips every leading and trailing char at or below U+0020
  // ---------------------------------------------------------------------

  predicate IsTrimmable(c: char) { c <= ' ' }

  /** Number of trimmable characters at the start of `s`. */
  function LeadingSpace(s: string): (n: nat)
    ensures n <= |s|
    ensures forall i :: 0 <= i < n ==> IsTrimmable(s[i])
    ensures n < |s| ==> !IsTrimmable(s[n])
  {
    if s == [] || !IsTrimmable(s[0]) then 0 else 1 + LeadingSpace(s[1..])
  }

  /** Length of `s` once its trimmable suffix is removed. */
  function TrailingEnd(s: string): (n: nat)
    ensures n <= |s|
    ensures forall i :: n <= i < |s| ==> IsTrimmable(s[i])
    ensures 0 < n ==> !IsTrimmable(s[n - 1])
  {
    if s == [] || !IsTrimmable(s[|s| - 1]) then |s| else TrailingEnd(s[..|s| - 1])
  }

  /** `s.trim()`: the slice of `s` between its trimmable prefix and suffix. */
  function Trim(s: string): (r: string)
    ensures |r| <= |s|
    ensures r != [] ==> !IsTrimmable(r[0]) && !IsTrimmable(r[|r| - 1])
  {
    var i := LeadingSpace(s);
    if i == |s| then [] else
      var j := TrailingEnd(s);
      assert i < j;
      s[i..j]
  }

  /** A string that neither starts nor ends with a trimmable character is
      its own trim. */
  lemma TrimOfTrimmed(s: string)
    requires s != [] ==> !IsTrimmable(s[0]) && !IsTrimmable(s[|s| - 1])
    ensures Trim(s) == s
  {
    if s != [] {
      assert LeadingSpace(s) == 0;
      assert TrailingEnd(s) == |s|;
    }
  }

  /** A character that is not trimmable survives trimming. */
  lemma TrimKeeps(s: string, c: char)
    requires c in s && !IsTrimmable(c)
    ensures c in Trim(s)
  {
    var k :| 0 <= k < |s| && s[k] == c;
    var i := LeadingSpace(s);
    var j := TrailingEnd(s);
    assert i <= k < j;
    assert Trim(s) == s[i..j];
    assert Trim(s)[k - i] == c;
  }

  /** Trimming twice is trimming once. */
  lemma TrimIdempotent(s: string)
    ensures Trim(Trim(s)) == Trim(s)
  {
    TrimOfTrimmed(Trim(s));
  }

  // ---------------------------------------------------------------------
  // String.replace(char, char)
  // ---------------------------------------------------------------------

  /** `s.replace(from, to)`: every occurrence of `from` becomes `to`. */
  function Replace(s: string, from: char, to: char): (r: string)
    ensures |r| == |s|
    ensures forall i :: 0 <= i < |s| ==> r[i] == (if s[i] == from then to else s[i])
  {
    if s == [] then [] else [if s[0] == from then to else s[0]] + Replace(s[1..], from, to)
  }

  /** After replacing `from` by another character, `from` is gone. */
  lemma ReplaceRemoves(s: string, from: char, to: char)
    requires from != to
    ensures from !in Replace(s, from, to)
  {
  }

  /** Replacing `from` by `to` and back restores the text exactly when `to`
      did not occur in it. */
  lemma ReplaceBack(s: string, from: char, to: char)
    requires from != to
    ensures Replace(Replace(s, from, to), to, from) == s <==> to !in s
  {
    var back := Replace(Replace(s, from, to), to, from);
    if to in s {
      var i :| 0 <= i < |s| && s[i] == to;
      assert back[i] == from != s[i];
    } else {
      assert forall i :: 0 <= i < |s| ==> back[i] == s[i];
    }
  }

  /** Replacing never brings in a character other than `to`. */
  lemma ReplaceAvoids(s: string, from: char, to: char, c: char)
    requires c !in s && c != to
    ensures c !in Replace(s, from, to)
  {
    var r := Replace(s, from, to);
    forall i | 0 <= i < |r| ensures r[i] != c {
      assert s[i] != c;
    }
  }

  // ---------------------------------------------------------------------
  // String.split(sep, limit) for a one-character separator and limit >= 1
  // ---------------------------------------------------------------------

  /** Index of the first `c` in `s`. */
  function IndexOf(s: string, c: char): (i: nat)
    requires c in s
    ensures i < |s| && s[i] == c && c !in s[..i]
  {
    if s[0] == c then 0 else 1 + IndexOf(s[1..], c)
  }

  /** Number of occurrences of `c` in `s`. */
  function Count(s: string, c: char): (n: nat)
    ensures n == 0 <==> c !in s
  {
    if s == [] then 0 else (if s[0] == c then 1 else 0) + Count(s[1..], c)
  }

  /** `s.split(sep, limit)` with a positive limit: at most `limit - 1` cuts at
      the first separators; the last part keeps the rest of the text,
      separators included, and empty parts are kept. */
  function Split(s: string, sep: char, limit: nat): (parts: seq<string>)
    requires limit >= 1
    ensures 1 <= |parts| <= limit
    decreases limit
  {
    if limit == 1 || sep !in s then [s]
    else
      var i := IndexOf(s, sep);
      [s[..i]] + Split(s[i + 1..], sep, limit - 1)
  }

  /** The first occurrence is the only one with none before it. */
  lemma {:induction false} IndexOfUnique(s: string, c: char, j: nat)
    requires j < |s| && s[j] == c && c !in s[..j]
    ensures c in s && IndexOf(s, c) == j
  {
    assert s[j] in s;
    if j > 0 {
      assert s[0] == s[..j][0];
      assert s[1..][..j - 1] == s[1..j];
      assert s[1..j] <= s[..j][1..];
      IndexOfUnique(s[1..], c, j - 1);
    }
  }

  lemma CountSplitAt(s: string, c: char, i: nat)
    requires i < |s| && s[i] == c && c !in s[..i]
    ensures Count(s, c) == 1 + Count(s[i + 1..], c)
    decreases i
  {
    if i > 0 {
      assert s[1..][..i - 1] == s[1..i];
      assert s[1..][i - 1 + 1..] == s[i + 1..];
      CountSplitAt(s[1..], c, i - 1);
    }
  }

  /** The number of parts is one more than the number of separators, capped
      at the limit. */
  lemma {:induction false} SplitCount(s: string, sep: char, limit: nat)
    requires limit >= 1
    ensures |Split(s, sep, limit)| == if Count(s, sep) + 1 < limit then Count(s, sep) + 1 else limit
    decreases limit
  {
    if limit == 1 || sep !in s {
    } else {
      var i := IndexOf(s, sep);
      CountSplitAt(s, sep, i);
      SplitCount(s[i + 1..], sep, limit - 1);
    }
  }

  /** Splitting text that starts with a separator-free field cuts that field
      off. */
  lemma SplitField(field: string, sep: char, rest: string, limit: nat)
    requires limit >= 2 && sep !in field
    ensures Split(field + [sep] + rest, sep, limit) == [field] + Split(rest, sep, limit - 1)
  {
    var s := field + [sep] + rest;
    assert s[|field|] == sep;
    assert s[..|field|] == field;
    assert IndexOf(s, sep) == |field|;
    assert s[|field| + 1..] == rest;
  }

  lemma {:induction false} CountAppend(a: string, b: string, c: char)
    ensures Count(a + b, c) == Count(a, c) + Count(b, c)
  {
    if a == [] {
      assert a + b == b;
    } else {
      assert (a + b)[1..] == a[1..] + b;
      CountAppend(a[1..], b, c);
    }
  }

  /** With at least `limit` separators the text is cut into exactly `limit`
      parts, and the last part keeps the separators beyond the first
      `limit - 1`. */
  lemma {:induction false} SplitLastKeepsSeparator(s: string, sep: char, limit: nat)
    requires limit >= 1 && Count(s, sep) >= limit
    ensures |Split(s, sep, limit)| == limit
    ensures Count(Split(s, sep, limit)[limit - 1], sep) == Count(s, sep) - (limit - 1)
    decreases limit
  {
    if limit > 1 {
      assert sep in s;
      var i := IndexOf(s, sep);
      CountSplitAt(s, sep, i);
      SplitLastKeepsSeparator(s[i + 1..], sep, limit - 1);
      var rest := Split(s[i + 1..], sep, limit - 1);
      assert Split(s, sep, limit) == [s[..i]] + rest;
      assert Split(s, sep, limit)[limit - 1] == rest[limit - 2];
      assert |Split(s, sep, limit)| == limit;
    } else {
      assert Split(s, sep, limit) == [s];
    }
  }

  /** The fields written one after another with `sep` between them. */
  function Join(fields: seq<string>, sep: char): (s: string)
    requires |fields| >= 1
  {
    if |fields| == 1 then fields[0] else fields[0] + [sep] + Join(fields[1..], sep)
  }

  /** Splitting joined fields, none but the last holding the separator,
      gives the fields back. */
  lemma {:induction false} SplitJoin(fields: seq<string>, sep: char)
    requires |fields| >= 1
    requires forall i :: 0 <= i < |fields| - 1 ==> sep !in fields[i]
    ensures Split(Join(fields, sep), sep, |fields|) == fields
  {
    if |fields| > 1 {
      SplitField(fields[0], sep, Join(fields[1..], sep), |fields|);
      SplitJoin(fields[1..], sep);
      assert [fields[0]] + fields[1..] == fields;
    }
  }

  /** Joined text holds a separator for each cut, and those of any field. */
  lemma {:induction false} CountJoin(fields: seq<string>, sep: char, k: nat)
    requires k < |fields|
    ensures Count(Join(fields, sep), sep) >= |fields| - 1 + Count(fields[k], sep)
  {
    if |fields| > 1 {
      var rest := Join(fields[1..], sep);
      CountAppend(fields[0] + [sep], rest, sep);
      CountAppend(fields[0], [sep], sep);
      assert Count([sep], sep) == 1;
      if k == 0 {
        CountJoin(fields[1..], sep, 0);
      } else {
        CountJoin(fields[1..], sep, k - 1);
      }
    }
  }

  /** No part of a split holds a character the text does not. */
  lemma {:induction false} SplitAvoids(s: string, sep: char, limit: nat, c: char)
    requires limit >= 1 && c !in s
    ensures forall k :: 0 <= k < |Split(s, sep, limit)| ==> c !in Split(s, sep, limit)[k]
    decreases limit
  {
    if limit > 1 && sep in s {
      var i := IndexOf(s, sep);
      assert s == s[..i] + s[i..];
      assert s[i..] == [s[i]] + s[i + 1..];
      SplitAvoids(s[i + 1..], sep, limit - 1, c);
    }
  }

  /** Joined text holds only the separator and the fields' characters. */
  lemma {:induction false} JoinAvoids(fields: seq<string>, sep: char, c: char)
    requires |fields| >= 1 && c != sep
    requires forall k :: 0 <= k < |fields| ==> c !in fields[k]
    ensures c !in Join(fields, sep)
  {
    if |fields| > 1 {
      JoinAvoids(fields[1..], sep, c);
    }
  }

  // ---------------------------------------------------------------------
  // String.compareTo(...) < 0: lexicographic, a proper prefix first
  // ---------------------------------------------------------------------

  predicate StringLess(a: string, b: string) {
    if a == [] then b != []
    else if b == [] then false
    else if a[0] != b[0] then a[0] < b[0]
    else StringLess(a[1..], b[1..])
  }

  lemma {:induction false} StringLessIrreflexive(a: string)
    ensures !StringLess(a, a)
  {
    if a != [] { StringLessIrreflexive(a[1..]); }
  }

  lemma {:induction false} StringLessTransitive(a: string, b: string, c: string)
    requires StringLess(a, b) && StringLess(b, c)
    ensures StringLess(a, c)
  {
    if a != [] && b != [] && c != [] && a[0] == b[0] && b[0] == c[0] {
      StringLessTransitive(a[1..], b[1..], c[1..]);
    }
  }

  lemma {:induction false} StringLessTotal(a: string, b: string)
    requires a != b
    ensures StringLess(a, b) || StringLess(b, a)
  {
    if a != [] && b != [] && a[0] == b[0] {
      assert a == [a[0]] + a[1..] && b == [b[0]] + b[1..];
      StringLessTotal(a[1..], b[1..]);
    }
  }

  /** A common prefix does not change the order. */
  lemma {:induction false} StringLessCommonPrefix(p: string, a: string, b: string)
    ensures StringLess(p + a, p + b) <==> StringLess(a, b)
  {
    if p != [] {
      assert (p + a)[0] == p[0] == (p + b)[0];
      assert (p + a)[1..] == p[1..] + a && (p + b)[1..] == p[1..] + b;
      assert StringLess(p + a, p + b) == StringLess(p[1..] + a, p[1..] + b);
      StringLessCommonPrefix(p[1..], a, b);
    } else {
      assert p + a == a && p + b == b;
    }
  }

  /** Between equally long heads that differ, the heads decide the order. */
  lemma {:induction false} StringLessHeads(p: string, q: string, a: string, b: string)
    requires |p| == |q| && p != q
    ensures StringLess(p + a, q + b) <==> StringLess(p, q)
  {
    if p[0] == q[0] {
      assert p[1..] != q[1..] by { assert p == [p[0]] + p[1..] && q == [q[0]] + q[1..]; }
      assert (p + a)[1..] == p[1..] + a && (q + b)[1..] == q[1..] + b;
      StringLessHeads(p[1..], q[1..], a, b);
    }
  }

  // ---------------------------------------------------------------------
  // Decimal digits
  // ---------------------------------------------------------------------

  predicate IsDigit(c: char) { '0' <= c <= '9' }

  predicate AllDigits(s: string) { forall i :: 0 <= i < |s| ==> IsDigit(s[i]) }

  function DigitChar(d: nat): (c: char)
    requires d < 10
    ensures IsDigit(c) && (c as int) - ('0' as int) == d
  {
    ((d + '0' as int) as char)
  }

  function DigitValue(c: char): (d: nat)
    requires IsDigit(c)
    ensures d < 10 && DigitChar(d) == c
  {
    (c as int) - ('0' as int)
  }

  function Pow10(n: nat): (p: nat)
    ensures p >= 1
  {
    if n == 0 then 1 else 10 * Pow10(n - 1)
  }

  /** The number a string of decimal digits denotes (leading zeros allowed). */
  function DigitsValue(s: string): (v: nat)
    requires AllDigits(s)
    ensures v < Pow10(|s|)
  {
    if s == [] then 0 else 10 * DigitsValue(s[..|s| - 1]) + DigitValue(s[|s| - 1])
  }

  /** `String.format("%0<w>d", n)` for `n < 10^w`: exactly `w` digits,
      zero-padded on the left; digits of `n` beyond `w` are dropped. */
  function FixedDigits(n: nat, w: nat): (s: string)
    ensures |s| == w && AllDigits(s)
  {
    if w == 0 then [] else FixedDigits(n / 10, w - 1) + [DigitChar(n % 10)]
  }

  /** `Integer.toString(n)` for `n >= 0`: shortest decimal text. */
  function NatToString(n: nat): (s: string)
    ensures s != [] && AllDigits(s)
  {
    if n < 10 then [DigitChar(n)] else NatToString(n / 10) + [DigitChar(n % 10)]
  }

  /** Reading back fixed-width digits of a small enough number gives it back. */
  lemma {:induction false} FixedDigitsRoundTrip(n: nat, w: nat)
    requires n < Pow10(w)
    ensures DigitsValue(FixedDigits(n, w)) == n
  {
    if w > 0 {
      var s := FixedDigits(n, w);
      assert s[..|s| - 1] == FixedDigits(n / 10, w - 1);
      FixedDigitsRoundTrip(n / 10, w - 1);
    }
  }

  /** A digit string is the fixed-width text of its own value. */
  lemma {:induction false} DigitsCanonical(s: string)
    requires AllDigits(s)
    ensures FixedDigits(DigitsValue(s), |s|) == s
  {
    if s != [] {
      var init := s[..|s| - 1];
      var v := DigitsValue(s);
      assert v / 10 == DigitsValue(init) && v % 10 == DigitValue(s[|s| - 1]);
      DigitsCanonical(init);
      assert s == init + [s[|s| - 1]];
    }
  }

  lemma {:induction false} NatToStringValue(n: nat)
    ensures DigitsValue(NatToString(n)) == n
  {
    if n >= 10 {
      var s := NatToString(n);
      assert s[..|s| - 1] == NatToString(n / 10);
      NatToStringValue(n / 10);
    }
  }

  /** With exactly `w` significant digits, `Integer.toString` and the
      zero-padded `w`-digit form agree. */
  lemma {:induction false} NatToStringFixed(n: nat, w: nat)
    requires w >= 1 && Pow10(w - 1) <= n < Pow10(w)
    ensures NatToString(n) == FixedDigits(n, w)
  {
    if w > 1 {
      assert Pow10(w - 2) <= n / 10 < Pow10(w - 1);
      NatToStringFixed(n / 10, w - 1);
    }
  }

  /** On equally long digit strings, `compareTo` is numeric order. */
  lemma {:induction false} FixedDigitsOrder(a: nat, b: nat, w: nat)
    requires a < Pow10(w) && b < Pow10(w)
    ensures StringLess(FixedDigits(a, w), FixedDigits(b, w)) <==> a < b
  {
    if w == 0 {
    } else {
      var p, q := FixedDigits(a / 10, w - 1), FixedDigits(b / 10, w - 1);
      assert a / 10 < Pow10(w - 1) && b / 10 < Pow10(w - 1);
      FixedDigitsOrder(a / 10, b / 10, w - 1);
      FixedDigitsRoundTrip(a / 10, w - 1);
      FixedDigitsRoundTrip(b / 10, w - 1);
      if p != q {
        StringLessHeads(p, q, [DigitChar(a % 10)], [DigitChar(b % 10)]);
      } else {
        assert a / 10 == b / 10;
        StringLessCommonPrefix(p, [DigitChar(a % 10)], [DigitChar(b % 10)]);
      }
    }
  }

  // ---------------------------------------------------------------------
  // Lines: PrintWriter.println and BufferedReader.readLine
  // ---------------------------------------------------------------------

  /** The characters at which `readLine` ends a line. */
  predicate IsLineBreak(c: char) { c == '\n' || c == '\r' }

  predicate OnOneLine(s: string) { '\n' !in s && '\r' !in s }

  /** `System.lineSeparator()`: "\n" on Unix, "\r\n" on Windows. */
  predicate IsLineSeparator(nl: string) { nl == "\n" || nl == "\r\n" }

  /** Where the first line of `s` ends: its first line break, or the end. */
  function LineEnd(s: string): (k: nat)
    ensures k <= |s| && OnOneLine(s[..k])
    ensures k < |s| ==> IsLineBreak(s[k])
  {
    if s == [] || IsLineBreak(s[0]) then 0
    else
      var k := 1 + LineEnd(s[1..]);
      assert s[..k] == [s[0]] + s[1..][..k - 1];
      k
  }

  /** `readLine` until it returns `null`: a line ends at "\r\n", '\n' or
      '\r', and text after the last line end is a last line. */
  function Lines(s: string): (lines: seq<string>)
    ensures forall k :: 0 <= k < |lines| ==> OnOneLine(lines[k])
    decreases |s|
  {
    if s == [] then []
    else
      var k := LineEnd(s);
      if k == |s| then [s]
      else if s[k] == '\r' && k + 1 < |s| && s[k + 1] == '\n' then [s[..k]] + Lines(s[k + 2..])
      else [s[..k]] + Lines(s[k + 1..])
  }

  /** What `println` writes for each line in turn, `nl` after each. */
  function Printed(lines: seq<string>, nl: string): (s: string)
    ensures lines == [] ==> s == []
  {
    if lines == [] then [] else lines[0] + nl + Printed(lines[1..], nl)
  }

  /** Printing one more line appends it and a separator. */
  lemma {:induction false} PrintedSnoc(lines: seq<string>, line: string, nl: string)
    ensures Printed(lines + [line], nl) == Printed(lines, nl) + line + nl
  {
    if lines != [] {
      assert (lines + [line])[1..] == lines[1..] + [line];
      PrintedSnoc(lines[1..], line, nl);
    }
  }

  lemma {:induction false} LineEndAt(s: string, k: nat)
    requires k < |s| && OnOneLine(s[..k]) && IsLineBreak(s[k])
    ensures LineEnd(s) == k
  {
    if k > 0 {
      assert s[0] == s[..k][0];
      assert s[1..][..k - 1] == s[1..k];
      LineEndAt(s[1..], k - 1);
    }
  }

  /** A line without breaks, then a separator, is read back as that line. */
  lemma FirstLine(line: string, nl: string, rest: string)
    requires OnOneLine(line) && IsLineSeparator(nl)
    ensures Lines(line + nl + rest) == [line] + Lines(rest)
  {
    var s := line + nl + rest;
    var k := |line|;
    assert s[..k] == line;
    LineEndAt(s, k);
    if nl == "\n" {
      assert s[k + 1..] == rest;
    } else {
      assert s[k + 2..] == rest;
    }
  }

  /** `readLine` gives back every printed line, provided none holds a line
      break, whichever separator was printed. */
  lemma {:induction false} LinesOfPrinted(lines: seq<string>, nl: string)
    requires IsLineSeparator(nl)
    requires forall k :: 0 <= k < |lines| ==> OnOneLine(lines[k])
    ensures Lines(Printed(lines, nl)) == lines
  {
    if lines != [] {
      FirstLine(lines[0], nl, Printed(lines[1..], nl));
      LinesOfPrinted(lines[1..], nl);
    }
  }
}
