/** Amounts of money. The tracker keeps a `double`; here an amount is an
    exact `real`. Amounts reach text through `String.format("%.2f", x)`
    (and `printf` with the same pattern) and come back through
    `Double.parseDouble`. */
module Money {
  import opened Wrappers
  import opened Text

  function Abs(x: real): (a: real) {
    if x < 0.0 then -x else x
  }

  /** The magnitude of `x` in whole cents, rounded half up, as `%.2f` rounds. */
  function Cents(x: real): (c: nat)
    ensures (c as real) <= Abs(x) * 100.0 + 0.5 < (c as real) + 1.0
  {
    (Abs(x) * 100.0 + 0.5).Floor
  }

  /** The value that `%.2f` prints: `x` rounded half up (away from zero on a
      tie) to two decimals. */
  function Round2(x: real): (r: real)
    ensures r * 100.0 == (if x < 0.0 then -(Cents(x) as real) else Cents(x) as real)
  {
    if x < 0.0 then -(Cents(x) as real) / 100.0 else (Cents(x) as real) / 100.0
  }

  /** Rounding moves an amount by at most half a cent. */
  lemma Round2Error(x: real)
    ensures -0.005 <= Round2(x) - x <= 0.005
  {
  }

  /** Rounding an already rounded amount changes nothing. */
  lemma Round2Idempotent(x: real)
    ensures Round2(Round2(x)) == Round2(x)
  {
    var c := Cents(x);
    var r := Round2(x);
    assert Abs(r) * 100.0 == c as real;
    assert Cents(r) == c by {
      assert (c as real) <= Abs(r) * 100.0 + 0.5 < (c as real) + 1.0;
    }
  }

  /** Cents written out without a sign: the whole part without leading
      zeros, the separator `sep`, and exactly two fraction digits. */
  function CentsBody(c: nat, sep: char): (s: string)
    ensures |s| >= 4 && s[|s| - 3] == sep && IsDigit(s[0]) && IsDigit(s[|s| - 1])
  {
    var whole, fraction := NatToString(c / 100), FixedDigits(c % 100, 2);
    assert IsDigit(whole[0]) && IsDigit(fraction[1]);
    whole + ([sep] + fraction)
  }

  /** Cents written out, after a minus sign when `negative`. */
  function CentsText(negative: bool, c: nat, sep: char): (s: string)
    ensures |s| >= 4 && s[|s| - 3] == sep
    ensures s[0] == '-' <==> negative
  {
    var body := CentsBody(c, sep);
    if negative then "-" + body else body
  }

  /** `%.2f` with the decimal separator `sep`: the sign of `x` and its
      magnitude rounded half up to cents. */
  function FormatAmountWith(x: real, sep: char): (s: string)
    ensures |s| >= 4 && s[|s| - 3] == sep
    ensures s[0] == '-' <==> x < 0.0
  {
    CentsText(x < 0.0, Cents(x), sep)
  }

  /** `String.format("%.2f", x)` in a locale whose decimal separator is '.'. */
  function FormatAmount(x: real): (s: string)
    ensures ',' !in s && ';' !in s && OnOneLine(s)
  {
    var s := FormatAmountWith(x, '.');
    assert forall k :: 0 <= k < |s| ==> s[k] == '-' || s[k] == '.' || IsDigit(s[k]) by {
      DigitsOnly(Cents(x));
    }
    s
  }

  lemma DigitsOnly(c: nat)
    ensures var s := CentsBody(c, '.');
            forall k :: 0 <= k < |s| ==> s[k] == '.' || IsDigit(s[k])
  {
    var whole, fraction := NatToString(c / 100), FixedDigits(c % 100, 2);
    var s := CentsBody(c, '.');
    forall k | 0 <= k < |s| ensures s[k] == '.' || IsDigit(s[k]) {
      if k < |whole| {
        assert s[k] == whole[k];
      } else if k > |whole| {
        assert s[k] == fraction[k - |whole| - 1];
      }
    }
  }

  /** `x` with the decimal point moved `n` places to the left. */
  function Shift(x: real, n: nat): (r: real)
    ensures x >= 0.0 ==> r >= 0.0
  {
    if n == 0 then x else Shift(x, n - 1) / 10.0
  }

  /** Two places to the left is a division by 100. */
  lemma ShiftTwo(x: real)
    ensures Shift(x, 2) == x / 100.0
  {
    assert Shift(x, 1) == x / 10.0;
  }

  /** The value of a whole part and a fraction written as digits, with at
      least one digit in all. */
  function PointValue(whole: string, fraction: string): (r: Option<real>)
    ensures r.Some? ==> r.value >= 0.0
  {
    if AllDigits(whole) && AllDigits(fraction) && |whole| + |fraction| >= 1 then
      Some(DigitsValue(whole) as real + Shift(DigitsValue(fraction) as real, |fraction|))
    else None
  }

  /** Decimal text without a sign: digits, optionally a point and more
      digits, at least one digit in all. */
  function ParseUnsigned(t: string): (r: Option<real>)
    ensures r.Some? ==> t != [] && r.value >= 0.0
  {
    if '.' in t then
      var i := IndexOf(t, '.');
      PointValue(t[..i], t[i + 1..])
    else if AllDigits(t) && t != [] then Some(DigitsValue(t) as real)
    else None
  }

  /** `Double.parseDouble(s)` on plain decimal text: surrounding whitespace
      is ignored, then an optional sign, then an unsigned decimal. `None`
      stands for `NumberFormatException`. */
  function ParseAmount(s: string): (r: Option<real>)
    ensures r.Some? ==> Trim(s) != []
  {
    var t := Trim(s);
    if t != [] && t[0] == '-' then
      match ParseUnsigned(t[1..])
      case Some(v) => Some(-v)
      case None => None
    else if t != [] && t[0] == '+' then ParseUnsigned(t[1..])
    else ParseUnsigned(t)
  }

  /** Surrounding whitespace never changes what is parsed. */
  lemma ParseAmountIgnoresSpace(s: string)
    ensures ParseAmount(Trim(s)) == ParseAmount(s)
  {
    TrimIdempotent(s);
  }

  lemma IndexOfAfterPrefix(p: string, c: char, rest: string)
    requires c !in p
    ensures c in p + [c] + rest && IndexOf(p + [c] + rest, c) == |p|
  {
    var s := p + [c] + rest;
    assert s[..|p|] == p;
    IndexOfUnique(s, c, |p|);
  }

  /** Digits, a point and digits denote the whole part plus the fraction. */
  lemma UnsignedWithPoint(whole: string, fraction: string)
    requires AllDigits(whole)
    ensures ParseUnsigned(whole + (['.'] + fraction)) == PointValue(whole, fraction)
  {
    var t := whole + (['.'] + fraction);
    assert '.' !in whole by {
      forall k | 0 <= k < |whole| ensures whole[k] != '.' {
        assert IsDigit(whole[k]);
      }
    }
    assert t == whole + ['.'] + fraction;
    IndexOfAfterPrefix(whole, '.', fraction);
    var i := IndexOf(t, '.');
    assert t[..i] == whole && t[i + 1..] == fraction;
  }

  lemma CentsValue(c: nat)
    ensures (c / 100) as real + (c % 100) as real / 100.0 == (c as real) / 100.0
  {
    assert c == 100 * (c / 100) + c % 100;
  }

  /** The digits of a whole part and of two fraction digits denote the
      amount in cents divided by 100. */
  lemma UnsignedFromCents(c: nat)
    ensures ParseUnsigned(CentsBody(c, '.')) == Some((c as real) / 100.0)
  {
    var whole, fraction := NatToString(c / 100), FixedDigits(c % 100, 2);
    UnsignedWithPoint(whole, fraction);
    NatToStringValue(c / 100);
    FixedDigitsRoundTrip(c % 100, 2);
    ShiftTwo((c % 100) as real);
    CentsValue(c);
  }

  /** Unsigned decimal text that starts and ends with a digit parses as
      itself. */
  lemma ParsePlain(body: string, v: real)
    requires body != [] && IsDigit(body[0]) && IsDigit(body[|body| - 1])
    requires ParseUnsigned(body) == Some(v)
    ensures ParseAmount(body) == Some(v)
  {
    assert Trim(body) == body by { TrimOfTrimmed(body); }
  }

  /** The same text behind a minus sign parses as its negation. */
  lemma ParseNegated(negative: string, body: string, v: real)
    requires body != [] && IsDigit(body[0]) && IsDigit(body[|body| - 1])
    requires ParseUnsigned(body) == Some(v) && negative == "-" + body
    ensures ParseAmount(negative) == Some(-v)
  {
    assert Trim(negative) == negative by {
      assert negative[|negative| - 1] == body[|body| - 1];
      TrimOfTrimmed(negative);
    }
    assert negative[1..] == body;
  }

  /** Reading back cents written with a '.' gives them back. */
  lemma CentsTextRoundTrip(negative: bool, c: nat)
    ensures ParseAmount(CentsText(negative, c, '.')) == Some(if negative then -((c as real) / 100.0) else (c as real) / 100.0)
  {
    var body := CentsBody(c, '.');
    UnsignedFromCents(c);
    if negative {
      ParseNegated(CentsText(negative, c, '.'), body, (c as real) / 100.0);
    } else {
      ParsePlain(body, (c as real) / 100.0);
    }
  }

  /** Reading back a formatted amount gives the amount rounded to cents. */
  lemma AmountRoundTrip(x: real)
    ensures ParseAmount(FormatAmount(x)) == Some(Round2(x))
  {
    var c := Cents(x);
    CentsTextRoundTrip(x < 0.0, c);
    assert FormatAmount(x) == CentsText(x < 0.0, c, '.');
    assert Round2(x) == if x < 0.0 then -((c as real) / 100.0) else (c as real) / 100.0;
  }

  lemma UnsignedRejectsComma(u: string)
    requires ',' in u
    ensures ParseUnsigned(u) == None
  {
    var k :| 0 <= k < |u| && u[k] == ',';
    assert !IsDigit(u[k]);
    if '.' in u {
      var i := IndexOf(u, '.');
      if k < i {
        assert u[..i][k] == ',';
      } else {
        assert u[i + 1..][k - i - 1] == ',';
      }
    }
  }

  /** `Double.parseDouble` rejects any text holding a comma. */
  lemma ParseAmountRejectsComma(s: string)
    requires ',' in s
    ensures ParseAmount(s) == None
  {
    TrimKeeps(s, ',');
    var t := Trim(s);
    if t[0] == '-' || t[0] == '+' {
      var k :| 0 <= k < |t| && t[k] == ',';
      assert t[1..][k - 1] == ',';
      UnsignedRejectsComma(t[1..]);
    } else {
      UnsignedRejectsComma(t);
    }
  }

  /** With a comma as decimal separator, as `%.2f` writes in many European
      locales, the text is never an amount `Double.parseDouble` accepts. */
  lemma CommaAmountRejected(x: real)
    ensures ParseAmount(FormatAmountWith(x, ',')) == None
  {
    var s := FormatAmountWith(x, ',');
    assert s[|s| - 3] == ',';
    ParseAmountRejectsComma(s);
  }
}
