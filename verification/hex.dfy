/** Hexadecimal text: `int(s, 16)` on a string of hex digits, and its inverse. */
module Hex {

  predicate IsHexDigit(c: char) {
    '0' <= c <= '9' || 'a' <= c <= 'f' || 'A' <= c <= 'F'
  }

  predicate AllHex(s: string) {
    forall i :: 0 <= i < |s| ==> IsHexDigit(s[i])
  }

  function HexDigitValue(c: char): (d: nat)
    requires IsHexDigit(c)
    ensures d < 16
  {
    if c <= '9' then (c as int) - ('0' as int)
    else if c <= 'F' then (c as int) - ('A' as int) + 10
    else (c as int) - ('a' as int) + 10
  }

  /** The lower-case digit for `d`, as `hexdigest()` writes it. */
  function HexChar(d: nat): (c: char)
    requires d < 16
    ensures IsHexDigit(c) && HexDigitValue(c) == d
  {
    if d < 10 then (('0' as int) + d) as char else (('a' as int) + d - 10) as char
  }

  function Pow16(n: nat): (p: nat)
    ensures p >= 1
  {
    if n == 0 then 1 else 16 * Pow16(n - 1)
  }

  /** `int(s, 16)`: the number the hex digits denote, most significant first. */
  function HexValue(s: string): (v: nat)
    requires AllHex(s)
    ensures v < Pow16(|s|)
  {
    if |s| == 0 then 0 else HexValue(s[..|s| - 1]) * 16 + HexDigitValue(s[|s| - 1])
  }

  /** The `width` lower-case hex digits of `v`, zero-padded (`format(v, '0<width>x')`). */
  function ToHex(v: nat, width: nat): (s: string)
    ensures |s| == width && AllHex(s)
  {
    if width == 0 then "" else ToHex(v / 16, width - 1) + [HexChar(v % 16)]
  }

  /** Reading back the hex rendering of a number that fits the width gives the number. */
  lemma {:induction false} HexRoundTrip(v: nat, width: nat)
    requires v < Pow16(width)
    ensures HexValue(ToHex(v, width)) == v
  {
    if width > 0 {
      var s := ToHex(v, width);
      assert s[..|s| - 1] == ToHex(v / 16, width - 1);
      assert v / 16 < Pow16(width - 1);
      HexRoundTrip(v / 16, width - 1);
    }
  }
}
