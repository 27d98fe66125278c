/** Hex colour strings: the `/^#[0-9A-Fa-f]{6}$/` test the appearance
    screen and the accent provider both apply, and `parseInt(text, 16)` as
    the shade generator uses it on two-character slices. */
module HexColor {
  import opened Wrappers
  import opened Text

  predicate IsHexDigit(c: char) {
    ('0' <= c <= '9') || ('A' <= c <= 'F') || ('a' <= c <= 'f')
  }

  function HexDigitValue(c: char): (v: int)
    requires IsHexDigit(c)
    ensures 0 <= v < 16
  {
    if '0' <= c <= '9' then c as int - '0' as int
    else if 'A' <= c <= 'F' then c as int - 'A' as int + 10
    else c as int - 'a' as int + 10
  }

  /** `/^#[0-9A-Fa-f]{6}$/.test(s)`: a '#' and exactly six hex digits,
      nothing before or after (JavaScript's `$` does not match before a
      trailing newline). */
  predicate IsHexColor(s: string) {
    |s| == 7 && s[0] == '#' && forall i :: 1 <= i < 7 ==> IsHexDigit(s[i])
  }

  predicate AllHexDigits(s: string) {
    forall i :: 0 <= i < |s| ==> IsHexDigit(s[i])
  }

  /** The longest prefix of `s` made of hex digits. */
  function HexDigitPrefix(s: string): (r: string)
    ensures |r| <= |s| && r == s[..|r|]
    ensures AllHexDigits(r)
    ensures |r| < |s| ==> !IsHexDigit(s[|r|])
  {
    if |s| > 0 && IsHexDigit(s[0]) then
      var r := [s[0]] + HexDigitPrefix(s[1..]);
      assert s[..|r|] == [s[0]] + s[1..][..|r| - 1];
      r
    else
      []
  }

  /** The value of a string of hex digits, most significant first. */
  function HexDigitsValue(s: string): nat
    requires AllHexDigits(s)
  {
    if s == [] then 0 else HexDigitsValue(s[..|s| - 1]) * 16 + HexDigitValue(s[|s| - 1])
  }

  /** `parseInt(s, 16)`, with None for NaN: leading white space is skipped,
      one sign is allowed, then an optional "0x"/"0X", then the longest run
      of hex digits is read; no digits at all gives NaN. */
  function ParseIntHex(s: string): Option<int> {
    ParseSigned(TrimStart(s))
  }

  /** The sign, then the digits. */
  function ParseSigned(t: string): Option<int> {
    if |t| > 0 && t[0] == '-' then
      match ParseUnsigned(t[1..])
      case None => None
      case Some(n) => Some(-(n as int))
    else if |t| > 0 && t[0] == '+' then ParseUnsigned(t[1..])
    else ParseUnsigned(t)
  }

  /** The optional radix prefix, then the longest run of hex digits. */
  function ParseUnsigned(u: string): Option<nat> {
    var v := if |u| >= 2 && u[0] == '0' && (u[1] == 'x' || u[1] == 'X') then u[2..] else u;
    var z := HexDigitPrefix(v);
    if z == [] then None else Some(HexDigitsValue(z))
  }

  /** `s.slice(a, b)` for 0 <= a <= b: bounds past the end are clamped. */
  function Slice(s: string, a: nat, b: nat): (r: string)
    requires a <= b
    ensures |r| <= b - a
    ensures a <= |s| ==> |r| == (if b <= |s| then b else |s|) - a
    ensures forall k :: 0 <= k < |r| ==> a + k < |s| && r[k] == s[a + k]
  {
    if b <= |s| then s[a..b] else if a <= |s| then s[a..] else []
  }

  /** The byte written by the two hex digits at `i` and `i + 1`. */
  function PairValue(s: string, i: int): (v: int)
    requires IsHexColor(s) && (i == 1 || i == 3 || i == 5)
    ensures 0 <= v <= 255
  {
    16 * HexDigitValue(s[i]) + HexDigitValue(s[i + 1])
  }

  lemma HexDigitNotSpace(c: char)
    requires IsHexDigit(c)
    ensures !IsSpace(c) && c != '-' && c != '+' && c != 'x' && c != 'X'
  {
  }

  /** NaN: blank text, or text that starts with neither white space, a
      sign nor a hex digit. */
  lemma ParseIntHexNaN(s: string)
    ensures IsBlank(s) ==> ParseIntHex(s) == None
    ensures |s| > 0 && !IsSpace(s[0]) && !IsHexDigit(s[0]) && s[0] !in "+-" ==> ParseIntHex(s) == None
  {
    if |s| > 0 && !IsSpace(s[0]) {
      assert TrimStart(s) == s;
    }
  }

  /** A run made only of hex digits is its own longest hex prefix. */
  lemma {:induction false} HexDigitPrefixAll(x: string)
    requires AllHexDigits(x)
    ensures HexDigitPrefix(x) == x
    decreases |x|
  {
    if |x| > 0 {
      HexDigitPrefixAll(x[1..]);
      assert x == [x[0]] + x[1..];
    }
  }

  /** A non-empty run of hex digits reads as the number it writes. */
  lemma ParseHexDigits(x: string)
    requires x != [] && AllHexDigits(x)
    ensures ParseIntHex(x) == Some(HexDigitsValue(x))
  {
    HexDigitNotSpace(x[0]);
    NoSpaceNoTrim(x);
    ParseUnsignedDigits(x);
  }

  /** With a minus sign in front, the same run reads as its negation. */
  lemma ParseNegatedHexDigits(x: string)
    requires x != [] && AllHexDigits(x)
    ensures ParseIntHex("-" + x) == Some(-(HexDigitsValue(x) as int))
  {
    var s := "-" + x;
    assert !IsSpace(s[0]);
    NoSpaceNoTrim(s);
    assert s[0] == '-' && s[1..] == x;
    ParseUnsignedDigits(x);
  }

  lemma ParseUnsignedDigits(x: string)
    requires x != [] && AllHexDigits(x)
    ensures ParseUnsigned(x) == Some(HexDigitsValue(x))
  {
    NoRadixPrefix(x);
    HexDigitPrefixAll(x);
  }

  lemma NoSpaceNoTrim(s: string)
    requires s != [] && !IsSpace(s[0])
    ensures TrimStart(s) == s
  {
    assert LeadingSpace(s) == 0;
  }

  /** A run of hex digits never starts with "0x" or "0X". */
  lemma NoRadixPrefix(x: string)
    requires AllHexDigits(x)
    ensures !(|x| >= 2 && x[0] == '0' && (x[1] == 'x' || x[1] == 'X'))
  {
    if |x| >= 2 {
      HexDigitNotSpace(x[1]);
    }
  }

  /** Two hex digits read as the byte they write. */
  lemma ParsePair(x: string)
    requires |x| == 2 && IsHexDigit(x[0]) && IsHexDigit(x[1])
    ensures ParseIntHex(x) == Some(16 * HexDigitValue(x[0]) + HexDigitValue(x[1]))
  {
    var a, b := x[0], x[1];
    HexDigitNotSpace(a);
    HexDigitNotSpace(b);
    assert TrimStart(x) == x;
    assert HexDigitPrefix(x[1..][1..]) == [];
    assert HexDigitPrefix(x[1..]) == [b];
    assert HexDigitPrefix(x) == x;
    assert x[..1] == [a] && [a][..0] == [];
    assert HexDigitsValue([a]) == HexDigitValue(a);
    assert HexDigitsValue(x) == 16 * HexDigitValue(a) + HexDigitValue(b);
  }

  /** On a valid colour, `parseInt(hex.slice(i, i + 2), 16)` reads exactly
      the byte the two digits write, never NaN and never out of 0..255. */
  lemma ParseChannel(s: string, i: int)
    requires IsHexColor(s) && (i == 1 || i == 3 || i == 5)
    ensures ParseIntHex(Slice(s, i, i + 2)) == Some(PairValue(s, i))
  {
    var x := Slice(s, i, i + 2);
    assert |x| == 2 && x[0] == s[i] && x[1] == s[i + 1];
    var v := 16 * HexDigitValue(x[0]) + HexDigitValue(x[1]);
    ParsePair(x);
    assert ParseIntHex(x) == Some(v);
    assert PairValue(s, i) == v;
  }
}
