/** Lowercase hexadecimal rendering as done by Rust's `{:x}` and `{:0>Wx}` format
    specifiers, together with the reverse reading of a hex digit string. */
module Hex {

  /** The digits `{:x}` produces: decimal digits and lowercase letters only. */
  predicate IsHexChar(c: char) {
    ('0' <= c <= '9') || ('a' <= c <= 'f')
  }

  predicate IsHexString(s: string) {
    forall i :: 0 <= i < |s| ==> IsHexChar(s[i])
  }

  function Pow16(k: nat): (p: nat)
    ensures p >= 1
  {
    if k == 0 then 1 else 16 * Pow16(k - 1)
  }

  function HexDigit(d: nat): (c: char)
    requires d < 16
    ensures IsHexChar(c)
  {
    if d < 10 then ('0' as int + d) as char else ('a' as int + d - 10) as char
  }

  function DigitValue(c: char): (d: nat)
    requires IsHexChar(c)
    ensures d < 16 && HexDigit(d) == c
  {
    if c <= '9' then c as int - '0' as int else c as int - 'a' as int + 10
  }

  lemma DigitValueOfHexDigit(d: nat)
    requires d < 16
    ensures DigitValue(HexDigit(d)) == d
  {
  }

  /** The number a hex digit string denotes, most significant digit first. */
  function HexValue(s: string): nat
    requires IsHexString(s)
  {
    if s == [] then 0 else HexValue(s[..|s| - 1]) * 16 + DigitValue(s[|s| - 1])
  }

  /** Rust `{:x}`: the shortest lowercase hex rendering, "0" for zero. */
  function ToHex(n: nat): (r: string)
    ensures |r| >= 1 && IsHexString(r)
  {
    if n < 16 then [HexDigit(n)] else ToHex(n / 16) + [HexDigit(n % 16)]
  }

  /** `{:x}` reads back as the value it renders, without leading zeros. */
  lemma {:induction false} ToHexValue(n: nat)
    ensures HexValue(ToHex(n)) == n
    ensures |ToHex(n)| == 1 || ToHex(n)[0] != '0'
  {
    var r := ToHex(n);
    if n >= 16 {
      ToHexValue(n / 16);
      assert r[..|r| - 1] == ToHex(n / 16);
    }
  }

  /** `{:x}` uses `k` digits exactly for the values in [16^(k-1), 16^k). */
  lemma {:induction false} ToHexLength(n: nat)
    ensures n < Pow16(|ToHex(n)|)
    ensures |ToHex(n)| > 1 ==> Pow16(|ToHex(n)| - 1) <= n
  {
    if n >= 16 {
      ToHexLength(n / 16);
    }
  }

  /** `ToHex(n)` fits in `k` digits exactly when `n < 16^k`. */
  lemma {:induction false} ToHexFits(n: nat, k: nat)
    requires 1 <= k
    ensures |ToHex(n)| <= k <==> n < Pow16(k)
  {
    var r := ToHex(n);
    ToHexLength(n);
    if |r| <= k {
      Pow16Monotone(|r|, k);
    } else {
      Pow16Monotone(k, |r| - 1);
    }
  }

  lemma {:induction false} Pow16Monotone(i: nat, j: nat)
    requires i <= j
    ensures Pow16(i) <= Pow16(j)
  {
    if i < j {
      Pow16Monotone(i, j - 1);
    }
  }

  /** Right-justifies `s` in a field of `width` characters filled with `fill`,
      as Rust's `{:fill>width}` does; a longer `s` is left alone. */
  function PadLeft(s: string, width: nat, fill: char): (r: string)
    ensures |r| == if |s| < width then width else |s|
    ensures r[|r| - |s|..] == s
    ensures forall i :: 0 <= i < |r| - |s| ==> r[i] == fill
  {
    if |s| < width then seq(width - |s|, _ => fill) + s else s
  }

  /** Rust `{:0>width x}`. */
  function ZeroPad(n: nat, width: nat): string {
    PadLeft(ToHex(n), width, '0')
  }

  /** `{:0>width x}` is at least `width` lowercase hex digits, zeros in front,
      and reads back as `n` whatever its size. */
  lemma ZeroPadDigits(n: nat, width: nat)
    ensures |ZeroPad(n, width)| == if |ToHex(n)| < width then width else |ToHex(n)|
    ensures IsHexString(ZeroPad(n, width)) && HexValue(ZeroPad(n, width)) == n
  {
    var s, r := ToHex(n), ZeroPad(n, width);
    ToHexValue(n);
    LeadingZeros(r[..|r| - |s|], s);
    assert r == r[..|r| - |s|] + s;
  }

  lemma {:induction false} LeadingZeros(z: string, s: string)
    requires forall i :: 0 <= i < |z| ==> z[i] == '0'
    requires IsHexString(s)
    ensures IsHexString(z + s)
    ensures HexValue(z + s) == HexValue(s)
  {
    if s == [] {
      assert z + s == z;
      AllZeros(z);
    } else {
      var s' := s[..|s| - 1];
      assert (z + s)[..|z + s| - 1] == z + s';
      LeadingZeros(z, s');
    }
  }

  lemma {:induction false} AllZeros(z: string)
    requires forall i :: 0 <= i < |z| ==> z[i] == '0'
    ensures IsHexString(z) && HexValue(z) == 0
  {
    if z != [] {
      AllZeros(z[..|z| - 1]);
    }
  }

  /** `{:0>width x}` of a value below 16^width is exactly `width` lowercase hex
      digits, and those digits read back as the value. */
  lemma ZeroPadExact(n: nat, width: nat)
    requires 1 <= width && n < Pow16(width)
    ensures |ZeroPad(n, width)| == width
    ensures IsHexString(ZeroPad(n, width))
    ensures HexValue(ZeroPad(n, width)) == n
  {
    ToHexFits(n, width);
    ZeroPadDigits(n, width);
  }

  /** A value below 16 is shown by `{:x}` and by `{:>1x}` as its single digit. */
  lemma SingleDigit(n: nat)
    requires n < 16
    ensures ToHex(n) == [HexDigit(n)]
    ensures PadLeft(ToHex(n), 1, ' ') == [HexDigit(n)]
  {
  }

  lemma PadLeftAppend(s: string, c: char, width: nat, fill: char)
    requires 1 <= width
    ensures PadLeft(s + [c], width, fill) == PadLeft(s, width - 1, fill) + [c]
  {
  }

  lemma PadLeftOneMore(s: string, width: nat, fill: char)
    requires |s| <= width
    ensures PadLeft(s, width + 1, fill) == [fill] + PadLeft(s, width, fill)
  {
    var z := seq(width - |s|, _ => fill);
    assert PadLeft(s, width, fill) == z + s;
    assert seq(width + 1 - |s|, _ => fill) == [fill] + z;
  }

  /** `{:0>2x}` of the byte with nibbles a and b is the two digits a, b. */
  lemma ZeroPadTwo(a: nat, b: nat)
    requires a < 16 && b < 16
    ensures ZeroPad(16 * a + b, 2) == [HexDigit(a)] + [HexDigit(b)]
  {
    var n := 16 * a + b;
    assert n / 16 == a && n % 16 == b;
    if a == 0 {
      SingleDigit(n);
      assert HexDigit(0) == '0';
    } else {
      SingleDigit(a);
      assert ToHex(n) == ToHex(a) + [HexDigit(b)];
    }
  }

  /** `{:0>3x}` of the 12-bit value with nibbles a, b and c is the three
      digits a, b, c. */
  lemma ZeroPadThree(a: nat, b: nat, c: nat)
    requires a < 16 && b < 16 && c < 16
    ensures ZeroPad(256 * a + 16 * b + c, 3) == [HexDigit(a)] + [HexDigit(b)] + [HexDigit(c)]
  {
    var m := 16 * a + b;
    assert 256 * a + 16 * b + c == 16 * m + c;
    if a == 0 {
      ZeroPadThreeLow(b, c);
    } else {
      ZeroPadThreeHigh(m, c);
      ZeroPadTwo(a, b);
      LongEnough(m, 2);
    }
  }

  lemma ZeroPadThreeLow(b: nat, c: nat)
    requires b < 16 && c < 16
    ensures ZeroPad(16 * b + c, 3) == [HexDigit(0)] + [HexDigit(b)] + [HexDigit(c)]
  {
    var low := 16 * b + c;
    var db, dc := [HexDigit(b)], [HexDigit(c)];
    var two, three := ZeroPad(low, 2), ZeroPad(low, 3);
    assert two == db + dc by { ZeroPadTwo(b, c); }
    assert three == ['0'] + two by {
      assert Pow16(2) == 256;
      WidenByOne(low, 2);
    }
    assert [HexDigit(0)] == ['0'];
    SeqAssoc(['0'], db, dc);
  }

  /** With a two-digit value `m` in front, the third digit is simply appended. */
  lemma ZeroPadThreeHigh(m: nat, c: nat)
    requires 16 <= m < 256 && c < 16
    ensures ZeroPad(16 * m + c, 3) == ToHex(m) + [HexDigit(c)]
  {
    AppendDigit(m, c, 3);
    LongEnough(m, 2);
  }

  lemma SeqAssoc(a: string, b: string, c: string)
    ensures a + (b + c) == a + b + c
  {
  }

  /** A value that fits in `width` digits gets one more leading zero in a
      field one wider. */
  lemma WidenByOne(n: nat, width: nat)
    requires 1 <= width && n < Pow16(width)
    ensures ZeroPad(n, width + 1) == ['0'] + ZeroPad(n, width)
  {
    ToHexFits(n, width);
    PadLeftOneMore(ToHex(n), width, '0');
  }

  /** Appending the digit `c` below `m` appends it to the padded rendering. */
  lemma AppendDigit(m: nat, c: nat, width: nat)
    requires 16 <= m && c < 16 && 1 <= width
    ensures ZeroPad(16 * m + c, width) == ZeroPad(m, width - 1) + [HexDigit(c)]
  {
    var n := 16 * m + c;
    assert n / 16 == m && n % 16 == c;
    assert ToHex(n) == ToHex(m) + [HexDigit(c)];
    PadLeftAppend(ToHex(m), HexDigit(c), width, '0');
  }

  /** A value of at least 16 already has two digits, so padding it to two
      changes nothing. */
  lemma LongEnough(m: nat, width: nat)
    requires 16 <= m && width <= 2
    ensures ZeroPad(m, width) == ToHex(m)
  {
    assert Pow16(1) == 16;
    ToHexFits(m, 1);
  }

}
