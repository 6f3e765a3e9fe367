/**
 * Packing colours into hexadecimal integers and strings and back. A colour
 * is four channels, each an exact byte (the scaling of a byte to a
 * component between 0 and 1 and the rounding back are not modelled).
 *
 * A 64-bit value is read as `RRGGBB` from its low 24 bits, except the
 * values from 0xffffff00 to 0xffffffff, which are read as `RRGGBBAA`.
 * Encoding gives `RRGGBB`, or `RRGGBBAA` when alpha is asked for and the
 * colour has an alpha component.
 */
module Colors {
  import opened Wrappers
  import Numeric
  import Strings

  type Byte = x: int | 0 <= x < 0x100

  const UInt64Limit: int := 0x1_0000_0000_0000_0000
  type UInt64 = x: int | 0 <= x < UInt64Limit

  /** A colour's red, green, blue and alpha channels. */
  datatype Rgba = Rgba(red: Byte, green: Byte, blue: Byte, alpha: Byte)

  /** The components of a colour made from four channels. */
  function Components(c: Rgba): seq<Byte>
  {
    [c.red, c.green, c.blue, c.alpha]
  }

  /** `transparent`: black with no opacity. */
  const Transparent: Rgba := Rgba(0, 0, 0, 0)

  // ---------------------------------------------------------------------
  // Bytes inside an unsigned integer
  // ---------------------------------------------------------------------

  /** `(h >> shift) & 0xff` for an unsigned `h`, written with the power of
    * two `unit == 1 << shift`. */
  function Channel(h: nat, unit: nat): Byte
    requires unit > 0
  {
    (h / unit) % 0x100
  }

  /** Division with a remainder in range is unique. */
  lemma DivModUnique(x: int, d: int, q: int, rem: int)
    requires d > 0 && 0 <= rem < d
    requires x == q * d + rem
    ensures x / d == q && x % d == rem
  {
    var q' := x / d;
    var r' := x % d;
    assert x == q' * d + r';
    assert (q' - q) * d == rem - r';
    if q' > q {
      MulMonotonic(q' - q, d);
    } else if q' < q {
      MulMonotonic(q - q', d);
    }
  }

  lemma MulMonotonic(k: int, d: int)
    requires k >= 1 && d > 0
    ensures k * d >= d
  {
  }

  /** Shifting right by 8 twice is shifting right by 16, and so on. */
  lemma DivDiv(x: nat, a: nat, b: nat)
    requires a > 0 && b > 0
    ensures (x / a) / b == x / (a * b)
  {
    var q := (x / a) / b;
    var r1 := x % a;
    var r2 := (x / a) % b;
    assert x / a == q * b + r2;
    assert x == (q * b + r2) * a + r1;
    assert x == q * (a * b) + (r2 * a + r1);
    assert r2 * a + r1 < a * b by {
      assert r2 <= b - 1;
      MulLeq(r2, b - 1, a);
      assert (b - 1) * a + r1 < a * b;
    }
    DivModUnique(x, a * b, q, r2 * a + r1);
  }

  lemma MulLeq(x: nat, y: nat, a: nat)
    requires x <= y
    ensures x * a <= y * a
  {
  }

  /** `(r << 16) + (g << 8) + b` */
  function Pack24(r: Byte, g: Byte, b: Byte): (h: nat)
    ensures h < 0x100_0000
  {
    r * 0x1_0000 + g * 0x100 + b
  }

  /** `(r << 24) + (g << 16) + (b << 8) + a` */
  function Pack32(r: Byte, g: Byte, b: Byte, a: Byte): (h: nat)
    ensures h < 0x1_0000_0000
  {
    r * 0x100_0000 + g * 0x1_0000 + b * 0x100 + a
  }

  /** The three channels come back out of a 24-bit packing. */
  lemma Unpack24(r: Byte, g: Byte, b: Byte)
    ensures Channel(Pack24(r, g, b), 0x1_0000) == r
    ensures Channel(Pack24(r, g, b), 0x100) == g
    ensures Channel(Pack24(r, g, b), 1) == b
  {
    var h := Pack24(r, g, b);
    DivModUnique(h, 0x1_0000, r, g * 0x100 + b);
    DivModUnique(r, 0x100, 0, r);
    DivModUnique(h, 0x100, r * 0x100 + g, b);
    DivModUnique(r * 0x100 + g, 0x100, r, g);
    DivModUnique(h, 0x100, r * 0x100 + g, b);
  }

  /** The four channels come back out of a 32-bit packing. */
  lemma Unpack32(r: Byte, g: Byte, b: Byte, a: Byte)
    ensures Channel(Pack32(r, g, b, a), 0x100_0000) == r
    ensures Channel(Pack32(r, g, b, a), 0x1_0000) == g
    ensures Channel(Pack32(r, g, b, a), 0x100) == b
    ensures Channel(Pack32(r, g, b, a), 1) == a
  {
    var h := Pack32(r, g, b, a);
    DivModUnique(h, 0x100_0000, r, g * 0x1_0000 + b * 0x100 + a);
    DivModUnique(r, 0x100, 0, r);
    DivModUnique(h, 0x1_0000, r * 0x100 + g, b * 0x100 + a);
    DivModUnique(r * 0x100 + g, 0x100, r, g);
    DivModUnique(h, 0x100, r * 0x1_0000 + g * 0x100 + b, a);
    DivModUnique(r * 0x1_0000 + g * 0x100 + b, 0x100, r * 0x100 + g, b);
  }

  /** Packing the low three bytes of `h` gives back the low 24 bits of `h`. */
  lemma Repack24(h: nat)
    ensures Pack24(Channel(h, 0x1_0000), Channel(h, 0x100), Channel(h, 1)) == h % 0x100_0000
  {
    var h1 := h / 0x100;
    var h2 := h1 / 0x100;
    DivDiv(h, 0x100, 0x100);
    assert h == h1 * 0x100 + h % 0x100;
    assert h1 == h2 * 0x100 + h1 % 0x100;
    var lo := (h2 % 0x100) * 0x1_0000 + (h1 % 0x100) * 0x100 + h % 0x100;
    assert h == (h2 / 0x100) * 0x100_0000 + lo by {
      assert h2 == (h2 / 0x100) * 0x100 + h2 % 0x100;
    }
    DivModUnique(h, 0x100_0000, h2 / 0x100, lo);
  }

  /** Packing the four bytes of a 32-bit `h` gives back `h`. */
  lemma Repack32(h: nat)
    requires h < 0x1_0000_0000
    ensures Pack32(Channel(h, 0x100_0000), Channel(h, 0x1_0000), Channel(h, 0x100), Channel(h, 1)) == h
  {
    var h1 := h / 0x100;
    var h2 := h1 / 0x100;
    var h3 := h2 / 0x100;
    DivDiv(h, 0x100, 0x100);
    DivDiv(h, 0x1_0000, 0x100);
    DivDiv(h1, 0x100, 0x100);
    assert h3 == h / 0x100_0000;
    assert h3 < 0x100;
    DivModUnique(h3, 0x100, 0, h3);
    assert h == h1 * 0x100 + h % 0x100;
    assert h1 == h2 * 0x100 + h1 % 0x100;
    assert h2 == h3 * 0x100 + h2 % 0x100;
  }

  // ---------------------------------------------------------------------
  // Decoding and encoding integers
  // ---------------------------------------------------------------------

  /** Whether a value is decoded as `RRGGBBAA`. */
  predicate HasAlpha(h: UInt64)
  {
    Numeric.IsBetween(h, 0xffff_ff00, 0xffff_ffff, true)
  }

  /** `init(hex: UInt64)`: red, green and blue from bits 16, 8 and 0 with
    * full alpha, unless the value is one of 0xffffff00 to 0xffffffff, which
    * are read as red, green, blue and alpha from bits 24, 16, 8 and 0. */
  function FromHex(h: UInt64): (c: Rgba)
    ensures !HasAlpha(h) ==> Pack24(c.red, c.green, c.blue) == h % 0x100_0000 && c.alpha == 0xff
    ensures HasAlpha(h) ==> Pack32(c.red, c.green, c.blue, c.alpha) == h
    ensures HasAlpha(h) ==> c.red == 0xff && c.green == 0xff && c.blue == 0xff
  {
    if HasAlpha(h) then
      Repack32(h);
      var c := Rgba(Channel(h, 0x100_0000), Channel(h, 0x1_0000), Channel(h, 0x100), Channel(h, 1));
      WhiteChannels(h);
      c
    else
      Repack24(h);
      Rgba(Channel(h, 0x1_0000), Channel(h, 0x100), Channel(h, 1), 0xff)
  }

  lemma WhiteChannels(h: nat)
    requires 0xffff_ff00 <= h <= 0xffff_ffff
    ensures Channel(h, 0x100_0000) == 0xff && Channel(h, 0x1_0000) == 0xff && Channel(h, 0x100) == 0xff
  {
    var a := h - 0xffff_ff00;
    Unpack32(0xff, 0xff, 0xff, a);
  }

  /** `hex(alpha:)`: nil for a colour with fewer than three components;
    * otherwise `RRGGBB`, or `RRGGBBAA` when alpha is asked for and there
    * is a fourth component. */
  function Hex(components: seq<Byte>, alpha: bool): (h: Option<UInt64>)
    ensures h.None? <==> |components| < 3
    ensures h.Some? && !(alpha && |components| == 4) ==> h.value < 0x100_0000
    ensures h.Some? ==> h.value < 0x1_0000_0000
  {
    if |components| < 3 then None
    else
      var (r, g, b) := (components[0], components[1], components[2]);
      var needsAlpha := alpha && |components| == 4;
      var a: Byte := if needsAlpha then components[3] else 0xff;
      if needsAlpha then Some(Pack32(r, g, b, a)) else Some(Pack24(r, g, b))
  }

  /** Each channel of the colour can be read back from its encoding: three
    * of them from an `RRGGBB` value, all four from an `RRGGBBAA` one. */
  lemma HexChannels(components: seq<Byte>, alpha: bool)
    requires |components| >= 3
    ensures var h := Hex(components, alpha).value;
            !(alpha && |components| == 4) ==>
              Channel(h, 0x1_0000) == components[0] &&
              Channel(h, 0x100) == components[1] &&
              Channel(h, 1) == components[2]
    ensures var h := Hex(components, alpha).value;
            alpha && |components| == 4 ==>
              Channel(h, 0x100_0000) == components[0] &&
              Channel(h, 0x1_0000) == components[1] &&
              Channel(h, 0x100) == components[2] &&
              Channel(h, 1) == components[3]
  {
    Unpack24(components[0], components[1], components[2]);
    if |components| == 4 {
      Unpack32(components[0], components[1], components[2], components[3]);
    }
  }

  /** Decoding a 24-bit value and encoding the colour without alpha gives the
    * value back. */
  lemma HexRoundTrip(h: UInt64)
    requires h < 0x100_0000
    ensures Hex(Components(FromHex(h)), false) == Some(h)
  {
    var c := FromHex(h);
    assert !HasAlpha(h);
    DivModUnique(h, 0x100_0000, 0, h);
    assert Pack24(c.red, c.green, c.blue) == h;
    assert Hex(Components(c), false) == Some(Pack24(c.red, c.green, c.blue));
  }

  /** A value in the `RRGGBBAA` range survives decoding and encoding with alpha. */
  lemma HexAlphaRoundTrip(h: UInt64)
    requires HasAlpha(h)
    ensures Hex(Components(FromHex(h)), true) == Some(h)
  {
    var c := FromHex(h);
    assert Hex(Components(c), true) == Some(Pack32(c.red, c.green, c.blue, c.alpha));
  }

  /** Encoding a colour and decoding the result gives the colour back when
    * it is opaque; a translucent colour only survives when it is white. */
  lemma ColourRoundTrip(c: Rgba)
    ensures c.alpha == 0xff ==> FromHex(Hex(Components(c), false).value) == c
    ensures c.red == 0xff && c.green == 0xff && c.blue == 0xff ==>
              FromHex(Hex(Components(c), true).value) == c
  {
    Unpack24(c.red, c.green, c.blue);
    Unpack32(c.red, c.green, c.blue, c.alpha);
    var h := Pack24(c.red, c.green, c.blue);
    DivModUnique(h, 0x100_0000, 0, h);
    assert !HasAlpha(h);
  }

  // ---------------------------------------------------------------------
  // Hexadecimal strings
  // ---------------------------------------------------------------------

  /** The upper-case hexadecimal digit for `d`. */
  function HexChar(d: nat): (c: char)
    requires d < 16
    ensures HexValue(c) == Some(d)
  {
    if d < 10 then ('0' as int + d) as char else ('A' as int + d - 10) as char
  }

  /** The value of a hexadecimal digit in either case. */
  function HexValue(c: char): (v: Option<nat>)
    ensures v.Some? ==> v.value < 16
  {
    if '0' <= c <= '9' then Some(c as int - '0' as int)
    else if 'a' <= c <= 'f' then Some(c as int - 'a' as int + 10)
    else if 'A' <= c <= 'F' then Some(c as int - 'A' as int + 10)
    else None
  }

  /** `String(format: "%0<width>X", n)`: upper-case hexadecimal digits of
    * `n`, padded with zeros to at least `width` digits. */
  function FormatHex(n: nat, width: nat): (s: string)
    ensures |s| >= 1 && |s| >= width
    ensures forall i :: 0 <= i < |s| ==> HexValue(s[i]).Some? && !('a' <= s[i] <= 'z')
    decreases n, width
  {
    if n < 16 && width <= 1 then [HexChar(n)]
    else FormatHex(n / 16, if width == 0 then 0 else width - 1) + [HexChar(n % 16)]
  }

  lemma {:induction false} FormatHexWidth(n: nat, width: nat, k: nat)
    requires n < Pow16(k) && 1 <= k <= width
    ensures |FormatHex(n, width)| == width
    decreases n, width
  {
    if n < 16 && width <= 1 {
    } else {
      assert n / 16 < Pow16(k - 1) by {
        DivModUnique(Pow16(k), 16, Pow16(k - 1), 0);
        DivMonotonic(n, Pow16(k) - 1, 16);
        DivModUnique(Pow16(k) - 1, 16, Pow16(k - 1) - 1, 15);
      }
      if k == 1 {
        FormatZeros(width - 1);
        assert n / 16 == 0;
      } else {
        FormatHexWidth(n / 16, width - 1, k - 1);
      }
    }
  }

  lemma {:induction false} FormatZeros(width: nat)
    ensures |FormatHex(0, width)| == if width == 0 then 1 else width
    decreases width
  {
    if width > 1 {
      FormatZeros(width - 1);
    }
  }

  lemma DivMonotonic(a: nat, b: nat, d: nat)
    requires a <= b && d > 0
    ensures a / d <= b / d
  {
    if a / d > b / d {
      DivModUnique(a, d, a / d, a % d);
      DivModUnique(b, d, b / d, b % d);
      MulLeq(b / d + 1, a / d, d);
    }
  }

  function Pow16(k: nat): (p: nat)
    ensures p >= 1
  {
    if k == 0 then 1 else 16 * Pow16(k - 1)
  }

  /** The value of a string of hexadecimal digits, most significant first. */
  function DigitsValue(s: string): nat
    requires forall i :: 0 <= i < |s| ==> HexValue(s[i]).Some?
  {
    if |s| == 0 then 0
    else DigitsValue(s[..|s| - 1]) * 16 + HexValue(s[|s| - 1]).value
  }

  /** Reading the formatted digits back gives the number. */
  lemma {:induction false} FormatHexValue(n: nat, width: nat)
    ensures DigitsValue(FormatHex(n, width)) == n
    decreases n, width
  {
    var s := FormatHex(n, width);
    if n < 16 && width <= 1 {
      assert s[..0] == [];
    } else {
      var rest := FormatHex(n / 16, if width == 0 then 0 else width - 1);
      FormatHexValue(n / 16, if width == 0 then 0 else width - 1);
      assert s[..|s| - 1] == rest;
      DivModUnique(n, 16, n / 16, n % 16);
    }
  }

  /** `hexString(withAlpha:hashtag:uppercase:)`: an optional "#" and the
    * hexadecimal digits of `hex(alpha:)`, eight of them when alpha is asked
    * for and six otherwise. The digits are already upper-case, so
    * `uppercase` changes nothing. */
  function HexString(components: seq<Byte>, withAlpha: bool, hashtag: bool, uppercase: bool): (s: Option<string>)
    ensures s.None? <==> |components| < 3
    ensures s.Some? ==> |s.value| == (if hashtag then 1 else 0) + (if withAlpha then 8 else 6)
    ensures s.Some? ==> (s.value[0] == '#' <==> hashtag)
  {
    match Hex(components, withAlpha)
    case None => None
    case Some(hexInt) =>
      var digits := FormatHex(hexInt, if withAlpha then 8 else 6);
      FormatHexWidth(hexInt, if withAlpha then 8 else 6, if withAlpha then 8 else 6);
      var s := (if hashtag then "#" else "") + digits;
      Some(if uppercase then UpperCased(s) else s)
  }

  /** `String.uppercase()` on the ASCII characters a formatted string holds. */
  function UpperCased(s: string): (u: string)
    ensures |u| == |s|
    ensures (forall i :: 0 <= i < |s| ==> !('a' <= s[i] <= 'z')) ==> u == s
  {
    seq(|s|, i requires 0 <= i < |s| => Strings.UpperChar(s[i]))
  }

  lemma Pow16Values()
    ensures Pow16(6) == 0x100_0000 && Pow16(8) == 0x1_0000_0000
  {
  }

  // ---------------------------------------------------------------------
  // Parsing strings
  // ---------------------------------------------------------------------

  /** The characters of Unicode's White_Space property, which trimming
    * "whitespaces and newlines" removes. */
  predicate IsWhitespace(c: char)
  {
    c == ' ' || '\t' <= c <= '\r' || c == '\U{0085}' || c == '\U{00A0}' || c == '\U{1680}' ||
    '\U{2000}' <= c <= '\U{200A}' || c == '\U{2028}' || c == '\U{2029}' || c == '\U{202F}' ||
    c == '\U{205F}' || c == '\U{3000}'
  }

  /** `replacingOccurrences(of: "#", with: "")`. */
  function WithoutHash(s: string): (t: string)
    ensures '#' !in t
    ensures '#' !in s ==> t == s
  {
    if |s| == 0 then ""
    else (if s[0] == '#' then "" else [s[0]]) + WithoutHash(s[1..])
  }

  /** Removing "#" shortens the text by exactly the number of "#"
    * characters in it. */
  lemma {:induction false} WithoutHashLength(s: string)
    ensures |WithoutHash(s)| == |s| - multiset(s)['#']
  {
    if |s| > 0 {
      assert s == [s[0]] + s[1..];
      WithoutHashLength(s[1..]);
    }
  }

  /** Removing "#" from a concatenation removes it from each part. */
  lemma {:induction false} WithoutHashAppend(a: string, b: string)
    ensures WithoutHash(a + b) == WithoutHash(a) + WithoutHash(b)
  {
    if |a| == 0 {
      assert a + b == b;
    } else {
      assert (a + b)[1..] == a[1..] + b;
      WithoutHashAppend(a[1..], b);
    }
  }

  /** Leading whitespace removed: what is left is a suffix whose first
    * character is not whitespace, and everything before it is. */
  function TrimStart(s: string): (t: string)
    ensures |t| == 0 || !IsWhitespace(t[0])
    ensures |t| <= |s| && t == s[|s| - |t|..]
    ensures forall i :: 0 <= i < |s| - |t| ==> IsWhitespace(s[i])
  {
    if |s| > 0 && IsWhitespace(s[0]) then TrimStart(s[1..]) else s
  }

  /** Trailing whitespace removed: what is left is a prefix whose last
    * character is not whitespace, and everything after it is. */
  function TrimEnd(s: string): (t: string)
    ensures |t| == 0 || !IsWhitespace(t[|t| - 1])
    ensures |t| <= |s| && t == s[..|t|]
    ensures forall i :: |t| <= i < |s| ==> IsWhitespace(s[i])
  {
    if |s| > 0 && IsWhitespace(s[|s| - 1]) then TrimEnd(s[..|s| - 1]) else s
  }

  /** `trimmingCharacters(in: .whitespacesAndNewlines)`. */
  function Trimmed(s: string): string
  {
    TrimEnd(TrimStart(s))
  }

  predicate AllHexDigits(s: string)
  {
    forall i :: 0 <= i < |s| ==> HexValue(s[i]).Some?
  }

  /** `UInt64(text, radix: 16)`: an optional sign and one or more digits in
    * either case, nil when anything else is present or the value does not
    * fit 64 bits; a minus sign is accepted only in front of zero. */
  function ParseUInt64Hex(text: string): (v: Option<UInt64>)
    ensures v.Some? ==> |text| > 0
    ensures |text| > 0 && AllHexDigits(text) ==>
              v == if DigitsValue(text) < UInt64Limit then Some(DigitsValue(text)) else None
    ensures |text| > 0 && text[0] != '+' && text[0] != '-' && HexValue(text[0]).None? ==> v.None?
    ensures forall i :: 0 < i < |text| && HexValue(text[i]).None? ==> v.None?
  {
    if |text| == 0 then None
    else
      var negative := text[0] == '-';
      var digits := if text[0] == '+' || text[0] == '-' then text[1..] else text;
      if |digits| == 0 || !AllHexDigits(digits) then None
      else
        var value := DigitsValue(digits);
        if negative then (if value == 0 then Some(0) else None)
        else if value < UInt64Limit then Some(value)
        else None
  }

  /** `init(hex: String)`: every "#" removed, whitespace trimmed, the rest
    * read as a hexadecimal `UInt64`; white (0xffffff) when that fails. */
  function FromHexString(hex: string): (c: Rgba)
    ensures ParseUInt64Hex(Trimmed(WithoutHash(hex))).None? ==> c == Rgba(0xff, 0xff, 0xff, 0xff)
    ensures c.alpha == 0xff || (c.red == 0xff && c.green == 0xff && c.blue == 0xff)
  {
    var trimmed := Trimmed(WithoutHash(hex));
    var hexInt := ParseUInt64Hex(trimmed).GetOr(0xff_ffff);
    OpaqueWhite();
    FromHex(hexInt)
  }

  /** Characters that reading a colour ignores around the digits. */
  predicate IsPadding(w: string)
  {
    forall i :: 0 <= i < |w| ==> IsWhitespace(w[i]) || w[i] == '#'
  }

  /** "#" and whitespace around the text do not change the colour it
    * reads as. */
  lemma PaddingIgnored(pre: string, s: string, post: string)
    requires IsPadding(pre) && IsPadding(post)
    ensures FromHexString(pre + s + post) == FromHexString(s)
  {
    PaddingStripped(pre, s, post);
  }

  /** Removing "#" and trimming gives the same text with or without the
    * padding. */
  lemma PaddingStripped(pre: string, s: string, post: string)
    requires IsPadding(pre) && IsPadding(post)
    ensures Trimmed(WithoutHash(pre + s + post)) == Trimmed(WithoutHash(s))
  {
    var a, m, b := WithoutHash(pre), WithoutHash(s), WithoutHash(post);
    WithoutHashAppend(pre + s, post);
    WithoutHashAppend(pre, s);
    PaddingLeavesWhitespace(pre);
    PaddingLeavesWhitespace(post);
    WhitespaceTrimmed(a, m, b);
  }

  /** Whitespace on both sides of a text is trimmed away with the text's
    * own. */
  lemma WhitespaceTrimmed(a: string, m: string, b: string)
    requires forall i :: 0 <= i < |a| ==> IsWhitespace(a[i])
    requires forall i :: 0 <= i < |b| ==> IsWhitespace(b[i])
    ensures Trimmed(a + m + b) == Trimmed(m)
  {
    assert a + m + b == a + (m + b);
    TrimStartWhitespace(a, m + b);
    TrimStartAppend(m, b);
    if TrimStart(m) != "" {
      TrimEndWhitespace(TrimStart(m), b);
    } else {
      assert TrimStart(b) == "" by {
        TrimStartWhitespace(b, "");
        assert b + "" == b;
      }
    }
  }

  /** Removing "#" from padding leaves only whitespace. */
  lemma {:induction false} PaddingLeavesWhitespace(w: string)
    requires IsPadding(w)
    ensures forall i :: 0 <= i < |WithoutHash(w)| ==> IsWhitespace(WithoutHash(w)[i])
  {
    if |w| > 0 {
      assert IsPadding(w[1..]) by {
        forall i | 0 <= i < |w[1..]|
          ensures IsWhitespace(w[1..][i]) || w[1..][i] == '#'
        {
          assert w[1..][i] == w[i + 1];
        }
      }
      PaddingLeavesWhitespace(w[1..]);
    }
  }

  /** Leading whitespace in front of any text is trimmed away. */
  lemma {:induction false} TrimStartWhitespace(a: string, x: string)
    requires forall i :: 0 <= i < |a| ==> IsWhitespace(a[i])
    ensures TrimStart(a + x) == TrimStart(x)
  {
    if |a| == 0 {
      assert a + x == x;
    } else {
      assert (a + x)[0] == a[0];
      assert (a + x)[1..] == a[1..] + x;
      TrimStartWhitespace(a[1..], x);
    }
  }

  /** Trailing whitespace after any text is trimmed away. */
  lemma {:induction false} TrimEndWhitespace(x: string, b: string)
    requires forall i :: 0 <= i < |b| ==> IsWhitespace(b[i])
    ensures TrimEnd(x + b) == TrimEnd(x)
  {
    if |b| == 0 {
      assert x + b == x;
    } else {
      var y := x + b;
      assert y[|y| - 1] == b[|b| - 1];
      assert y[..|y| - 1] == x + b[..|b| - 1];
      TrimEndWhitespace(x, b[..|b| - 1]);
    }
  }

  /** Trimming the front of a concatenation stops in the first part unless
    * that part is all whitespace. */
  lemma {:induction false} TrimStartAppend(m: string, b: string)
    ensures TrimStart(m + b) == if TrimStart(m) == "" then TrimStart(b) else TrimStart(m) + b
  {
    if |m| == 0 {
      assert m + b == b;
    } else if IsWhitespace(m[0]) {
      assert (m + b)[0] == m[0];
      assert (m + b)[1..] == m[1..] + b;
      TrimStartAppend(m[1..], b);
    }
  }

  /** Text that does not read as a number gives opaque white, whatever it
    * is. */
  lemma UnparsableIsWhite(s: string)
    requires ParseUInt64Hex(Trimmed(WithoutHash(s))).None?
    ensures FromHexString(s) == Rgba(0xff, 0xff, 0xff, 0xff)
  {
  }

  /** A formatted hexadecimal string is read back as its number. */
  lemma ParseFormatted(n: UInt64, width: nat)
    ensures ParseUInt64Hex(FormatHex(n, width)) == Some(n)
  {
    var s := FormatHex(n, width);
    FormatHexValue(n, width);
    assert HexValue(s[0]).Some?;
  }

  /** Upper-casing a string with no lower-case letter changes nothing. */
  lemma NoLowerCase(prefix: string, digits: string)
    requires prefix == "" || prefix == "#"
    requires forall i :: 0 <= i < |digits| ==> !('a' <= digits[i] <= 'z')
    ensures UpperCased(prefix + digits) == prefix + digits
  {
    var s := prefix + digits;
    forall i | 0 <= i < |s|
      ensures !('a' <= s[i] <= 'z')
    {
      if i >= |prefix| {
        assert s[i] == digits[i - |prefix|];
      }
    }
  }

  /** The string is the optional "#" followed by the digits, whatever the
    * `uppercase` flag says. */
  lemma HexStringShape(components: seq<Byte>, withAlpha: bool, hashtag: bool, uppercase: bool)
    requires |components| >= 3
    ensures HexString(components, withAlpha, hashtag, uppercase) ==
            Some((if hashtag then "#" else "") + FormatHex(Hex(components, withAlpha).value, if withAlpha then 8 else 6))
  {
    var h := Hex(components, withAlpha).value;
    var digits := FormatHex(h, if withAlpha then 8 else 6);
    NoLowerCase(if hashtag then "#" else "", digits);
  }

  /** Removing "#" and trimming leaves formatted digits alone. */
  lemma Strip(hashtag: bool, digits: string)
    requires |digits| > 0 && AllHexDigits(digits)
    ensures Trimmed(WithoutHash((if hashtag then "#" else "") + digits)) == digits
  {
    var s := (if hashtag then "#" else "") + digits;
    WithoutHashKeeps(digits);
    if hashtag {
      assert s[0] == '#' && s[1..] == digits;
      assert WithoutHash(s) == "" + WithoutHash(s[1..]);
    } else {
      assert s == digits;
    }
    NoWhitespace(digits);
  }

  /** The string of an opaque colour, with or without "#", reads back as
    * that colour. */
  lemma HexStringRoundTrip(c: Rgba, hashtag: bool, uppercase: bool)
    requires c.alpha == 0xff
    ensures FromHexString(HexString(Components(c), false, hashtag, uppercase).value) == c
  {
    var h := Hex(Components(c), false).value;
    var digits := FormatHex(h, 6);
    var s := (if hashtag then "#" else "") + digits;
    assert HexString(Components(c), false, hashtag, uppercase).value == s by {
      HexStringShape(Components(c), false, hashtag, uppercase);
    }
    assert Trimmed(WithoutHash(s)) == digits by {
      Strip(hashtag, digits);
    }
    assert ParseUInt64Hex(digits) == Some(h) by {
      ParseFormatted(h, 6);
    }
    assert FromHex(h) == c by {
      ColourRoundTrip(c);
    }
  }

  /** The same holds with "#" and whitespace around the string. */
  lemma HexStringPaddedRoundTrip(c: Rgba, hashtag: bool, uppercase: bool, pre: string, post: string)
    requires c.alpha == 0xff
    requires IsPadding(pre) && IsPadding(post)
    ensures FromHexString(pre + HexString(Components(c), false, hashtag, uppercase).value + post) == c
  {
    HexStringRoundTrip(c, hashtag, uppercase);
    PaddingIgnored(pre, HexString(Components(c), false, hashtag, uppercase).value, post);
  }

  lemma {:induction false} WithoutHashKeeps(s: string)
    requires forall i :: 0 <= i < |s| ==> HexValue(s[i]).Some?
    ensures WithoutHash(s) == s
  {
    if |s| > 0 {
      WithoutHashKeeps(s[1..]);
    }
  }

  lemma NoWhitespace(s: string)
    requires |s| > 0
    requires forall i :: 0 <= i < |s| ==> HexValue(s[i]).Some?
    ensures Trimmed(s) == s
  {
    assert !IsWhitespace(s[0]) && !IsWhitespace(s[|s| - 1]);
  }

  /** The unit-test colour 0xCC00FF survives decoding and encoding, and is
    * written "CC00FF". */
  lemma ExampleColour()
    ensures FromHex(0xCC00FF) == Rgba(0xCC, 0x00, 0xFF, 0xff)
    ensures Hex(Components(FromHex(0xCC00FF)), false) == Some(0xCC00FF)
    ensures HexString(Components(FromHex(0xCC00FF)), false, false, true) == Some("CC00FF")
  {
    assert Pack24(0xCC, 0x00, 0xFF) == 0xCC00FF;
    Unpack24(0xCC, 0x00, 0xFF);
    HexRoundTrip(0xCC00FF);
    assert FormatHex(0xCC00FF, 6) == "CC00FF" by {
      assert FormatHex(0xC, 1) == "C";
      assert FormatHex(0xCC, 2) == "CC";
      assert FormatHex(0xCC0, 3) == "CC0";
      assert FormatHex(0xCC00, 4) == "CC00";
      assert FormatHex(0xCC00F, 5) == "CC00F";
    }
    HexStringShape(Components(FromHex(0xCC00FF)), false, false, true);
    assert "" + "CC00FF" == "CC00FF";
  }

  /** Transparent black encoded with alpha is 0, written "#00000000". */
  lemma ExampleTransparent()
    ensures Hex(Components(Transparent), true) == Some(0)
    ensures HexString(Components(Transparent), true, true, false) == Some("#00000000")
  {
    var digits := FormatHex(0, 8);
    assert HexString(Components(Transparent), true, true, false) == Some("#" + digits) by {
      HexStringShape(Components(Transparent), true, true, false);
    }
    assert digits == "00000000" by {
      ZeroDigits();
    }
    assert "#" + digits == "#00000000";
  }

  /** 0 written with eight digits. */
  lemma ZeroDigits()
    ensures FormatHex(0, 8) == "00000000"
  {
    assert FormatHex(0, 1) == "0";
    assert FormatHex(0, 2) == "00";
    assert FormatHex(0, 3) == "000";
    assert FormatHex(0, 4) == "0000";
    assert FormatHex(0, 5) == "00000";
    assert FormatHex(0, 6) == "000000";
    assert FormatHex(0, 7) == "0000000";
  }

  /** The colour a string reads as is the colour of the number it parses to. */
  lemma FromHexStringIs(s: string, n: UInt64)
    requires ParseUInt64Hex(Trimmed(WithoutHash(s))).GetOr(0xff_ffff) == n
    ensures FromHexString(s) == FromHex(n)
  {
  }

  /** Only white can carry alpha through a string: the string written for
    * transparent black reads back as opaque black. */
  lemma TransparentStringReadsOpaque()
    ensures FromHexString("#00000000") == Rgba(0, 0, 0, 0xff)
  {
    TransparentStringParses();
    OpaqueBlack();
  }

  /** 0 decodes as opaque black. */
  lemma OpaqueBlack()
    ensures FromHex(0) == Rgba(0, 0, 0, 0xff)
  {
    Unpack24(0, 0, 0);
  }

  /** "#00000000" is read as the number 0. */
  lemma TransparentStringParses()
    ensures FromHexString("#00000000") == FromHex(0)
  {
    ZeroDigits();
    ReadsAs(FormatHex(0, 8), 0);
  }

  /** A value from 0xffffff00 to 0xffffffff written as a string keeps its
    * alpha. */
  lemma WhiteStringKeepsAlpha()
    ensures FromHexString("#FFFFFF80") == Rgba(0xff, 0xff, 0xff, 0x80)
  {
    WhiteStringParses();
    HalfTransparentWhite();
  }

  /** "#FFFFFF80" is read as the number 0xFFFFFF80. */
  lemma WhiteStringParses()
    ensures FromHexString("#FFFFFF80") == FromHex(0xFFFFFF80)
  {
    WhiteDigits();
    ReadsAs(FormatHex(0xFFFFFF80, 8), 0xFFFFFF80);
  }

  /** 0xFFFFFF80 is written "FFFFFF80". */
  lemma WhiteDigits()
    ensures FormatHex(0xFFFFFF80, 8) == "FFFFFF80"
  {
    assert FormatHex(0xF, 1) == "F";
    assert FormatHex(0xFF, 2) == "FF";
    assert FormatHex(0xFFF, 3) == "FFF";
    assert FormatHex(0xFFFF, 4) == "FFFF";
    assert FormatHex(0xFFFFF, 5) == "FFFFF";
    assert FormatHex(0xFFFFFF, 6) == "FFFFFF";
    assert FormatHex(0xFFFFFF8, 7) == "FFFFFF8";
  }

  /** 0xFFFFFF80 decodes as white with alpha 0x80. */
  lemma HalfTransparentWhite()
    ensures FromHex(0xFFFFFF80) == Rgba(0xff, 0xff, 0xff, 0x80)
  {
    Unpack32(0xff, 0xff, 0xff, 0x80);
    assert Pack32(0xff, 0xff, 0xff, 0x80) == 0xFFFFFF80;
  }

  /** Text that is not a hexadecimal number reads as white. */
  lemma FallbackIsWhite()
    ensures FromHexString("nope") == Rgba(0xff, 0xff, 0xff, 0xff)
  {
    FallbackParses();
    OpaqueWhite();
  }

  /** "nope" falls back to the number 0xffffff. */
  lemma FallbackParses()
    ensures FromHexString("nope") == FromHex(0xff_ffff)
  {
    NopeIsNotHex();
    FromHexStringIs("nope", 0xff_ffff);
  }

  /** "nope" has no "#" and no whitespace, and is not a number. */
  lemma NopeIsNotHex()
    ensures ParseUInt64Hex(Trimmed(WithoutHash("nope"))) == None
  {
    NopeHasNoHash();
    NopeTrimmed();
    NopeUnparsable();
  }

  /** "nope" has no whitespace to trim. */
  lemma NopeTrimmed()
    ensures Trimmed("nope") == "nope"
  {
    assert !IsWhitespace('n') && !IsWhitespace('e');
  }

  /** "n" is not a hexadecimal digit. */
  lemma NopeUnparsable()
    ensures ParseUInt64Hex("nope") == None
  {
    var t := "nope";
    assert t[0] == 'n' && HexValue('n').None?;
    assert !AllHexDigits(t);
  }

  /** "nope" has no "#" to remove. */
  lemma NopeHasNoHash()
    ensures WithoutHash("nope") == "nope"
  {
    assert WithoutHash("e") == "e";
    assert WithoutHash("pe") == "pe";
    assert WithoutHash("ope") == "ope";
  }

  /** 0xffffff decodes as opaque white. */
  lemma OpaqueWhite()
    ensures FromHex(0xff_ffff) == Rgba(0xff, 0xff, 0xff, 0xff)
  {
    Unpack24(0xff, 0xff, 0xff);
  }

  /** "#" followed by eight digits reads as the value of the digits. */
  lemma ReadsAs(digits: string, n: UInt64)
    requires |digits| == 8
    requires FormatHex(n, 8) == digits
    ensures Trimmed(WithoutHash("#" + digits)) == digits
    ensures ParseUInt64Hex(digits) == Some(n)
    ensures FromHexString("#" + digits) == FromHex(n)
  {
    Strip(true, digits);
    ParseFormatted(n, 8);
    FromHexStringIs("#" + digits, n);
  }
}
