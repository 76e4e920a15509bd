/**
 * Integer text forms used by the scripts: Python's `str(i)` and `int(s)` on
 * decimal text, and `hex(n)` as used by `rgb2hex` to render a dominant colour.
 */
module Numerals {
  import opened Wrappers

  predicate IsDigit(c: char) {
    '0' <= c <= '9'
  }

  predicate AllDigits(s: string) {
    |s| >= 1 && forall i :: 0 <= i < |s| ==> IsDigit(s[i])
  }

  function DigitChar(d: nat): (c: char)
    requires d < 10
    ensures IsDigit(c) && c as int - '0' as int == d
  {
    ('0' as int + d) as char
  }

  /** `str(n)` for a non-negative integer: decimal digits, no leading zero. */
  function ShowNat(n: nat): (s: string)
    ensures AllDigits(s)
  {
    if n < 10 then [DigitChar(n)] else ShowNat(n / 10) + [DigitChar(n % 10)]
  }

  /** `str(i)`. */
  function Show(i: int): (s: string)
    ensures |s| >= 1
    ensures forall k :: 0 <= k < |s| ==> s[k] == '-' || IsDigit(s[k])
  {
    if i < 0 then "-" + ShowNat(-i) else ShowNat(i)
  }

  /** The number a run of decimal digits denotes (leading zeros allowed). */
  function DigitsValue(s: string): nat
    requires forall i :: 0 <= i < |s| ==> IsDigit(s[i])
  {
    if s == [] then 0
    else
      assert IsDigit(s[|s| - 1]);
      DigitsValue(s[..|s| - 1]) * 10 + (s[|s| - 1] as int - '0' as int)
  }

  /**
   * `int(s)`: an optional sign and ASCII digits; None where Python raises
   * ValueError.
   */
  function ParseInt(s: string): Option<int> {
    if |s| >= 1 && (s[0] == '-' || s[0] == '+') then
      if AllDigits(s[1..]) then
        var v: int := DigitsValue(s[1..]);
        Some(if s[0] == '-' then -v else v)
      else None
    else if AllDigits(s) then Some(DigitsValue(s))
    else None
  }

  lemma {:induction false} DigitsValueShowNat(n: nat)
    ensures DigitsValue(ShowNat(n)) == n
  {
    if n >= 10 {
      var s := ShowNat(n);
      assert s[..|s| - 1] == ShowNat(n / 10);
      DigitsValueShowNat(n / 10);
    }
  }

  /** `int(str(i)) == i`. */
  lemma ParseShow(i: int)
    ensures ParseInt(Show(i)) == Some(i)
  {
    if i < 0 {
      var s := Show(i);
      assert s[1..] == ShowNat(-i);
      DigitsValueShowNat(-i);
    } else {
      DigitsValueShowNat(i);
    }
  }

  /** `str` is injective, so a record keyed by `str(id)` is keyed by `id`. */
  lemma ShowInjective(i: int, j: int)
    requires Show(i) == Show(j)
    ensures i == j
  {
    ParseShow(i);
    ParseShow(j);
  }

  predicate IsHexDigit(c: char) {
    IsDigit(c) || 'a' <= c <= 'f'
  }

  function HexDigit(d: nat): (c: char)
    requires d < 16
    ensures IsHexDigit(c) && HexDigitValue(c) == d
  {
    if d < 10 then DigitChar(d) else ('a' as int + d - 10) as char
  }

  function HexDigitValue(c: char): nat
    requires IsHexDigit(c)
  {
    if IsDigit(c) then c as int - '0' as int else c as int - 'a' as int + 10
  }

  /** The number a run of lower-case hex digits denotes. */
  function HexValue(s: string): nat
    requires forall i :: 0 <= i < |s| ==> IsHexDigit(s[i])
  {
    if s == [] then 0
    else HexValue(s[..|s| - 1]) * 16 + HexDigitValue(s[|s| - 1])
  }

  /** `hex(n)` without its `0x` prefix: lower-case digits, no padding. */
  function HexNat(n: nat): (s: string)
    ensures |s| >= 1 && forall i :: 0 <= i < |s| ==> IsHexDigit(s[i])
  {
    if n < 16 then [HexDigit(n)] else HexNat(n / 16) + [HexDigit(n % 16)]
  }

  /** Exactly `width` lower-case hex digits of `n` (`'%0*x' % (width, n)`). */
  function HexFixed(n: nat, width: nat): (s: string)
    ensures |s| == width && forall i :: 0 <= i < |s| ==> IsHexDigit(s[i])
  {
    if width == 0 then [] else HexFixed(n / 16, width - 1) + [HexDigit(n % 16)]
  }

  function Pow16(k: nat): nat {
    if k == 0 then 1 else 16 * Pow16(k - 1)
  }

  lemma {:induction false} HexValueHexNat(n: nat)
    ensures HexValue(HexNat(n)) == n
  {
    if n >= 16 {
      var s := HexNat(n);
      assert s[..|s| - 1] == HexNat(n / 16);
      HexValueHexNat(n / 16);
    }
  }

  lemma {:induction false} HexValueHexFixed(n: nat, width: nat)
    requires n < Pow16(width)
    ensures HexValue(HexFixed(n, width)) == n
  {
    if width > 0 {
      var s := HexFixed(n, width);
      assert s[..|s| - 1] == HexFixed(n / 16, width - 1);
      HexValueHexFixed(n / 16, width - 1);
    }
  }

  /** `(r << 16) + (g << 8) + b` on Python integers. */
  function Pack(r: int, g: int, b: int): int {
    r * 65536 + g * 256 + b
  }

  /** The three colour channels packed by `Pack`. */
  function Unpack(v: int): (int, int, int) {
    (v / 65536, v / 256 % 256, v % 256)
  }

  lemma UnpackPack(r: int, g: int, b: int)
    requires 0 <= r < 256 && 0 <= g < 256 && 0 <= b < 256
    ensures Unpack(Pack(r, g, b)) == (r, g, b)
  {
    var low := g * 256 + b;
    assert 0 <= low < 65536;
    assert Pack(r, g, b) == r * 65536 + low;
    assert Pack(r, g, b) / 256 == r * 256 + g;
  }

  /**
   * `rgb2hex` as written: `hex(...)` with `0x` replaced by `#`, so the text
   * carries as many digits as the packed value needs and no more (a
   * negative value keeps its minus sign in front of the `#`).
   */
  function Rgb2HexAsWritten(r: int, g: int, b: int): string {
    var v := Pack(r, g, b);
    if v < 0 then "-#" + HexNat(-v) else "#" + HexNat(v)
  }

  /** The packed value is recoverable from the unpadded text. */
  lemma Rgb2HexAsWrittenDecodes(r: int, g: int, b: int)
    requires 0 <= r < 256 && 0 <= g < 256 && 0 <= b < 256
    ensures var s := Rgb2HexAsWritten(r, g, b);
      |s| >= 2 && s[0] == '#' && Unpack(HexValue(s[1..])) == (r, g, b)
  {
    var s := Rgb2HexAsWritten(r, g, b);
    assert s[1..] == HexNat(Pack(r, g, b));
    HexValueHexNat(Pack(r, g, b));
    UnpackPack(r, g, b);
  }

  /** A dark blue comes out as three characters, not as `#RRGGBB`. */
  lemma Rgb2HexAsWrittenIsShort()
    ensures Rgb2HexAsWritten(0, 0, 16) == "#10"
  {
    assert HexNat(1) == "1";
    assert HexNat(16) == HexNat(1) + [HexDigit(0)];
  }

  /** `rgb2hex` as intended: `#` and exactly six lower-case hex digits. */
  function Rgb2Hex(r: int, g: int, b: int): string
    requires 0 <= r < 256 && 0 <= g < 256 && 0 <= b < 256
  {
    "#" + HexFixed(Pack(r, g, b), 6)
  }

  /** The padded form always has seven characters and decodes to the channels. */
  lemma Rgb2HexDecodes(r: int, g: int, b: int)
    requires 0 <= r < 256 && 0 <= g < 256 && 0 <= b < 256
    ensures var s := Rgb2Hex(r, g, b);
      |s| == 7 && s[0] == '#' && Unpack(HexValue(s[1..])) == (r, g, b)
  {
    var s := Rgb2Hex(r, g, b);
    assert s[1..] == HexFixed(Pack(r, g, b), 6);
    assert Pow16(6) == 16777216;
    HexValueHexFixed(Pack(r, g, b), 6);
    UnpackPack(r, g, b);
  }

  /** The corrected form keeps the same number as the source's text. */
  lemma Rgb2HexAgrees(r: int, g: int, b: int)
    requires 0 <= r < 256 && 0 <= g < 256 && 0 <= b < 256
    ensures var s := Rgb2Hex(r, g, b); var t := Rgb2HexAsWritten(r, g, b);
      HexValue(s[1..]) == HexValue(t[1..])
  {
    Rgb2HexDecodes(r, g, b);
    Rgb2HexAsWrittenDecodes(r, g, b);
    var s := Rgb2Hex(r, g, b);
    var t := Rgb2HexAsWritten(r, g, b);
    assert s[1..] == HexFixed(Pack(r, g, b), 6);
    assert t[1..] == HexNat(Pack(r, g, b));
    assert Pow16(6) == 16777216;
    HexValueHexFixed(Pack(r, g, b), 6);
    HexValueHexNat(Pack(r, g, b));
  }
}
