/** The integer formatting the platforms use: `'{}'.format(n)` and `'0x{:0Nx}'.format(n)`. */
module Text {

  /** The digit character for `d` (lower-case letters above nine). */
  function DigitChar(d: nat): (c: char)
    requires d < 16
    ensures IsDigitChar(c) && DigitValue(c) == d
  {
    if d < 10 then ('0' as int + d) as char else ('a' as int + d - 10) as char
  }

  predicate IsDigitChar(c: char) {
    '0' <= c <= '9' || 'a' <= c <= 'f'
  }

  predicate IsDigitOf(c: char, base: nat) {
    IsDigitChar(c) && DigitValue(c) < base
  }

  function DigitValue(c: char): nat {
    if '0' <= c <= '9' then c as int - '0' as int
    else if 'a' <= c <= 'f' then c as int - 'a' as int + 10
    else 0
  }

  predicate AllDigits(s: string, base: nat) {
    forall i :: 0 <= i < |s| ==> IsDigitOf(s[i], base)
  }

  /** The digits of `n` in `base`, most significant first, without leading zeros. */
  function Digits(n: nat, base: nat): (s: string)
    requires 2 <= base <= 16
    ensures |s| > 0 && AllDigits(s, base)
    decreases n
  {
    if n < base then [DigitChar(n)]
    else
      var q, d := n / base, n % base;
      assert q < n && d < base by { DivModBounds(n, base); }
      Digits(q, base) + [DigitChar(d)]
  }

  lemma DivModBounds(n: nat, base: nat)
    requires 2 <= base <= n
    ensures n / base < n && n % base < base && n == n / base * base + n % base
  {
  }

  /** The value of a digit string read in `base`. */
  function Parse(s: string, base: nat): nat
    decreases |s|
  {
    if s == [] then 0 else Parse(s[..|s| - 1], base) * base + DigitValue(s[|s| - 1])
  }

  /** `'{}'.format(n)` for a non-negative integer. */
  function Decimal(n: nat): (s: string)
    ensures |s| > 0 && AllDigits(s, 10) && '-' !in s
  {
    var s := Digits(n, 10);
    assert forall i :: 0 <= i < |s| ==> s[i] != '-' by {
      forall i | 0 <= i < |s| ensures s[i] != '-' { assert IsDigitOf(s[i], 10); }
    }
    s
  }

  /** `s` left-padded with '0' to at least `width` characters. */
  function PadZeros(s: string, width: nat): (r: string)
    ensures |r| == if |s| < width then width else |s|
    ensures r[|r| - |s|..] == s
    ensures forall i :: 0 <= i < |r| - |s| ==> r[i] == '0'
  {
    if |s| < width then seq(width - |s|, _ => '0') + s else s
  }

  /** `'0x{:0<width>x}'.format(n)`. */
  function Hex(n: nat, width: nat): (s: string)
    ensures |s| >= width + 2 && s[..2] == "0x" && AllDigits(s[2..], 16)
  {
    var d := Digits(n, 16);
    var p := PadZeros(d, width);
    forall i | 0 <= i < |p| ensures IsDigitOf(p[i], 16) {
      if i >= |p| - |d| {
        assert p[i] == p[|p| - |d|..][i - (|p| - |d|)];
      }
    }
    assert ("0x" + p)[2..] == p;
    "0x" + p
  }

  lemma {:induction false} ParseDigits(n: nat, base: nat)
    requires 2 <= base <= 16
    ensures Parse(Digits(n, base), base) == n
    decreases n
  {
    if n >= base {
      var s := Digits(n, base);
      DivModBounds(n, base);
      assert s[..|s| - 1] == Digits(n / base, base);
      assert DigitValue(s[|s| - 1]) == n % base;
      ParseDigits(n / base, base);
      assert Parse(s, base) == (n / base) * base + n % base;
    }
  }

  /** Leading zeros do not change the value of a digit string. */
  lemma {:induction false} ParseLeadingZeros(z: nat, s: string, base: nat)
    ensures Parse(seq(z, _ => '0') + s, base) == Parse(s, base)
    decreases |s|
  {
    var p := seq(z, _ => '0');
    if s == [] {
      assert p + s == p;
      ParseZeros(z, base);
    } else {
      assert (p + s)[..|p + s| - 1] == p + s[..|s| - 1];
      ParseLeadingZeros(z, s[..|s| - 1], base);
    }
  }

  lemma {:induction false} ParseZeros(z: nat, base: nat)
    ensures Parse(seq(z, _ => '0'), base) == 0
  {
    if z > 0 {
      assert seq(z, _ => '0')[..z - 1] == seq(z - 1, _ => '0');
      ParseZeros(z - 1, base);
    }
  }

  /** Two different numbers never format to the same decimal text. */
  lemma DecimalInjective(m: nat, n: nat)
    requires Decimal(m) == Decimal(n)
    ensures m == n
  {
    ParseDigits(m, 10);
    ParseDigits(n, 10);
  }

  /** The hexadecimal field reads back as the number it was formatted from. */
  lemma HexRoundTrip(n: nat, width: nat)
    ensures Parse(Hex(n, width)[2..], 16) == n
  {
    HexPayload(n, width);
    ParsePadZeros(Digits(n, 16), width, 16);
    ParseDigits(n, 16);
  }

  lemma HexPayload(n: nat, width: nat)
    ensures Hex(n, width)[2..] == PadZeros(Digits(n, 16), width)
  {
    var p := PadZeros(Digits(n, 16), width);
    assert ("0x" + p)[2..] == p;
  }

  /** Zero padding does not change the value of a digit string. */
  lemma ParsePadZeros(s: string, width: nat, base: nat)
    ensures Parse(PadZeros(s, width), base) == Parse(s, base)
  {
    if |s| < width {
      ParseLeadingZeros(width - |s|, s, base);
    }
  }

  /** A number below 16^width fills exactly the requested width. */
  lemma {:induction false} HexWidth(n: nat, width: nat)
    requires 1 <= width && n < Pow16(width)
    ensures |Hex(n, width)| == width + 2
  {
    DigitsLength(n, width);
  }

  function Pow16(k: nat): (p: nat)
    ensures p >= 1
  {
    if k == 0 then 1 else 16 * Pow16(k - 1)
  }

  lemma {:induction false} DigitsLength(n: nat, width: nat)
    requires 1 <= width && n < Pow16(width)
    ensures |Digits(n, 16)| <= width
    decreases n
  {
    if n >= 16 {
      assert width > 1;
      DigitsLength(n / 16, width - 1);
    }
  }
}
