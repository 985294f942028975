/** Record identifiers, as `java.util.UUID`: 128 bits, written as 32
    hexadecimal digits in groups of 8-4-4-4-12. */
module Ids {
  import opened Wrappers

  newtype Nibble = n: int | 0 <= n < 16

  /** A UUID as its 32 hexadecimal digits, most significant first. */
  type Uuid = s: seq<Nibble> | |s| == 32 witness seq(32, _ => 0 as Nibble)

  /** `Character.forDigit(n, 16)`: lower-case. */
  function HexChar(n: Nibble): (c: char)
    ensures c != '-' && c != ',' && c != ';' && c != '\n' && c != '\r'
  {
    "0123456789abcdef"[n as int]
  }

  /** `Character.digit(c, 16)`: either case. */
  function HexValue(c: char): (r: Option<Nibble>)
  {
    if '0' <= c <= '9' then Some((c as int - '0' as int) as Nibble)
    else if 'a' <= c <= 'f' then Some((c as int - 'a' as int + 10) as Nibble)
    else if 'A' <= c <= 'F' then Some((c as int - 'A' as int + 10) as Nibble)
    else None
  }

  lemma HexCharValue(n: Nibble)
    ensures HexValue(HexChar(n)) == Some(n)
  {
  }

  function HexText(ns: seq<Nibble>): (s: string)
    ensures |s| == |ns|
    ensures forall i :: 0 <= i < |ns| ==> s[i] == HexChar(ns[i])
  {
    if ns == [] then [] else [HexChar(ns[0])] + HexText(ns[1..])
  }

  /** The digits of `s` when every character is hexadecimal. */
  function ParseHex(s: string): (r: Option<seq<Nibble>>)
    ensures r.Some? ==> |r.value| == |s|
    ensures r.Some? <==> forall i :: 0 <= i < |s| ==> HexValue(s[i]).Some?
  {
    if s == [] then Some([])
    else match (HexValue(s[0]), ParseHex(s[1..]))
      case (Some(n), Some(rest)) => Some([n] + rest)
      case _ => None
  }

  lemma {:induction false} HexTextRoundTrip(ns: seq<Nibble>)
    ensures ParseHex(HexText(ns)) == Some(ns)
  {
    if ns != [] {
      HexCharValue(ns[0]);
      assert HexText(ns)[1..] == HexText(ns[1..]);
      HexTextRoundTrip(ns[1..]);
      assert [ns[0]] + ns[1..] == ns;
    }
  }

  /** Positions of the four dashes in the canonical text. */
  predicate IsDashPosition(i: int) {
    i == 8 || i == 13 || i == 18 || i == 23
  }

  /** Where the digit at position `i` of the text sits among the 32 digits. */
  function DigitIndex(i: int): (k: int)
    requires 0 <= i < 36 && !IsDashPosition(i)
    ensures 0 <= k < 32
  {
    if i < 8 then i else if i < 13 then i - 1 else if i < 18 then i - 2
    else if i < 23 then i - 3 else i - 4
  }

  /** Where digit `k` sits in the text: after the dashes before it. */
  function CharIndex(k: int): (i: int)
    requires 0 <= k < 32
    ensures 0 <= i < 36 && !IsDashPosition(i) && DigitIndex(i) == k
  {
    if k < 8 then k else if k < 12 then k + 1 else if k < 16 then k + 2
    else if k < 20 then k + 3 else k + 4
  }

  /** The hexadecimal digits of `s` with the dashes taken out. */
  function DigitsOf(s: string): (d: string)
    requires |s| == 36
    ensures |d| == 32
  {
    seq(32, k requires 0 <= k < 32 => s[CharIndex(k)])
  }

  /** `uuid.toString()`: lower-case digits grouped 8-4-4-4-12. */
  function FormatUuid(u: Uuid): (s: string)
    ensures |s| == 36
    ensures forall i :: 0 <= i < 36 ==> (s[i] == '-' <==> IsDashPosition(i))
    ensures ',' !in s && ';' !in s && '\n' !in s && '\r' !in s
  {
    seq(36, i requires 0 <= i < 36 => if IsDashPosition(i) then '-' else HexChar(u[DigitIndex(i)]))
  }

  /** `UUID.fromString(s)` on canonical text: 36 characters, dashes at
      positions 8, 13, 18 and 23, hexadecimal digits of either case
      elsewhere. `None` stands for `IllegalArgumentException`. */
  function ParseUuid(s: string): (r: Option<Uuid>)
    ensures r.Some? ==> |s| == 36 && forall i :: 0 <= i < 36 && IsDashPosition(i) ==> s[i] == '-'
  {
    if |s| == 36 && s[8] == '-' && s[13] == '-' && s[18] == '-' && s[23] == '-' then
      match ParseHex(DigitsOf(s))
      case Some(ns) => Some(ns)
      case None => None
    else None
  }

  lemma FormatUuidDigits(u: Uuid)
    ensures DigitsOf(FormatUuid(u)) == HexText(u)
  {
    var d, h := DigitsOf(FormatUuid(u)), HexText(u);
    forall k | 0 <= k < 32 ensures d[k] == h[k] {
    }
  }

  /** Reading back a written UUID gives the same UUID. */
  lemma UuidRoundTrip(u: Uuid)
    ensures ParseUuid(FormatUuid(u)) == Some(u)
  {
    FormatUuidDigits(u);
    HexTextRoundTrip(u);
  }

  /** Distinct UUIDs are written differently. */
  lemma FormatUuidInjective(u: Uuid, v: Uuid)
    requires FormatUuid(u) == FormatUuid(v)
    ensures u == v
  {
    UuidRoundTrip(u);
    UuidRoundTrip(v);
  }
}
