/**
 * The debug hex formatter of the RISC-V trap code (c_traps.c): print_nibble,
 * print_to_hex and print_hex. Strings are the characters up to the
 * terminating NUL.
 */
module HexFormat {
  import opened Arith

  function Pow16(n: nat): (r: nat)
    ensures r >= 1
  {
    if n == 0 then 1 else 16 * Pow16(n - 1)
  }

  /** print_nibble: only the low four bits count; 0..9 become '0'..'9' and 10..15 become 'A'..'F'. */
  function NibbleChar(x: int): (c: char)
    ensures x % 16 < 10 ==> c == ('0' as int + x % 16) as char
    ensures x % 16 >= 10 ==> c == ('A' as int + (x % 16 - 10)) as char
    ensures '0' <= c <= '9' || 'A' <= c <= 'F'
  {
    var n := x % 16;
    if n >= 10 then ('A' as int + (n - 10)) as char else ('0' as int + n) as char
  }

  /** The value of an upper-case hex digit. */
  function DigitValue(c: char): (v: nat)
    requires '0' <= c <= '9' || 'A' <= c <= 'F'
    ensures v < 16
  {
    if c <= '9' then c as int - '0' as int else c as int - 'A' as int + 10
  }

  /** Reading back the digit print_nibble writes gives the low four bits. */
  lemma NibbleRoundTrip(x: int)
    ensures DigitValue(NibbleChar(x)) == x % 16
  {}

  /** Distinct low nibbles give distinct characters. */
  lemma NibbleInjective(x: int, y: int)
    requires x % 16 != y % 16
    ensures NibbleChar(x) != NibbleChar(y)
  {
    NibbleRoundTrip(x);
    NibbleRoundTrip(y);
  }

  /** The significant hex digits of x, most significant first, no leading zeros; empty for 0. Only '0'..'9' and 'A'..'F' occur. */
  function HexDigits(x: nat): (s: seq<char>)
    ensures IsHexString(s)
    decreases x
  {
    if x == 0 then [] else HexDigits(x / 16) + [NibbleChar(x % 16)]
  }

  predicate IsHexString(s: seq<char>)
  {
    forall i :: 0 <= i < |s| ==> '0' <= s[i] <= '9' || 'A' <= s[i] <= 'F'
  }

  /** The value of a string of hex digits, most significant first. */
  function HexValue(s: seq<char>): (v: nat)
    requires IsHexString(s)
  {
    if s == [] then 0 else 16 * HexValue(s[..|s| - 1]) + DigitValue(s[|s| - 1])
  }

  /** HexDigits is a correct positional encoding: reading it back gives x. */
  lemma {:induction false} HexDigitsRoundTrip(x: nat)
    ensures IsHexString(HexDigits(x))
    ensures HexValue(HexDigits(x)) == x
    decreases x
  {
    if x > 0 {
      var s := HexDigits(x);
      HexDigitsRoundTrip(x / 16);
      assert s[..|s| - 1] == HexDigits(x / 16);
      NibbleRoundTrip(x % 16);
      assert HexValue(s) == 16 * (x / 16) + x % 16;
    }
  }

  /** HexDigits is empty only for 0 and otherwise never starts with a zero digit. */
  lemma {:induction false} HexDigitsNoLeadingZero(x: nat)
    ensures HexDigits(x) == [] <==> x == 0
    ensures HexDigits(x) != [] ==> HexDigits(x)[0] != '0'
    decreases x
  {
    if x > 0 {
      HexDigitsNoLeadingZero(x / 16);
      if x / 16 == 0 {
        assert HexDigits(x) == [NibbleChar(x % 16)];
        NibbleInjective(x, 0);
      }
    }
  }

  /** A 64-bit word has 16 hex digits. */
  lemma Pow16Word()
    ensures Pow16(16) == Pow64
  {
    assert Pow16(2) == 0x100;
    assert Pow16(4) == 0x1_0000;
    assert Pow16(6) == 0x100_0000;
    assert Pow16(8) == 0x1_0000_0000;
    assert Pow16(10) == 0x100_0000_0000;
    assert Pow16(12) == 0x1_0000_0000_0000;
    assert Pow16(14) == 0x100_0000_0000_0000;
  }

  lemma {:induction false} Pow16Monotone(m: nat, n: nat)
    requires m <= n
    ensures Pow16(m) <= Pow16(n)
    decreases n
  {
    if m < n {
      Pow16Monotone(m, n - 1);
    }
  }

  lemma {:induction false} HexDigitsLength(x: nat, n: nat)
    ensures |HexDigits(x)| <= n <==> x < Pow16(n)
    decreases x
  {
    if x > 0 {
      if n > 0 {
        HexDigitsLength(x / 16, n - 1);
      }
    }
  }

  /** The top digits of x at a given position: x / 16^(n+1) * 16 plus the next digit is x / 16^n. */
  lemma NextDigit(x: nat, n: nat)
    ensures x / Pow16(n) == (x / Pow16(n + 1)) * 16 + (x / Pow16(n)) % 16
  {
    DivDiv(x, Pow16(n), 16);
    assert Pow16(n + 1) == Pow16(n) * 16;
  }

  /** Appending a digit to a non-zero prefix value appends its character. */
  lemma HexDigitsShift(hi: nat, d: nat)
    requires d < 16 && hi * 16 + d > 0
    ensures HexDigits(hi * 16 + d) == HexDigits(hi) + [NibbleChar(d)]
  {
    var x := hi * 16 + d;
    assert x / 16 == hi && x % 16 == d;
  }

  /** The value of the nibbles of x print_to_hex has looked at after k steps. */
  function Prefix(x: nat, k: nat): nat
    requires k <= 16
  {
    var p := Pow16(16 - k);
    x / p
  }

  /** The nibble print_to_hex looks at in step k. */
  function Digit(x: nat, k: nat): nat
    requires k < 16
  {
    (x / Pow16(15 - k)) % 16
  }

  /** One step of print_to_hex: the prefix gains the step's nibble, and its digits gain its character once non-zero. */
  lemma PrefixStep(x: nat, k: nat)
    requires k < 16
    ensures Prefix(x, k + 1) == Prefix(x, k) * 16 + Digit(x, k)
    ensures Prefix(x, k + 1) == 0 <==> Prefix(x, k) == 0 && Digit(x, k) == 0
    ensures Prefix(x, k + 1) != 0 ==> HexDigits(Prefix(x, k + 1)) == HexDigits(Prefix(x, k)) + [NibbleChar(Digit(x, k))]
  {
    NextDigit(x, 15 - k);
    if Prefix(x, k + 1) != 0 {
      HexDigitsShift(Prefix(x, k), Digit(x, k));
    }
  }

  /**
   * print_to_hex: walks the 16 nibbles of x from the most significant one,
   * skipping leading zero nibbles; the result is the significant digits of x.
   */
  method PrintToHex(x: nat) returns (buf: seq<char>)
    requires x < Pow64
    ensures buf == HexDigits(x)
    ensures |buf| <= 16 && (buf == [] <==> x == 0)
  {
    buf := [];
    var leadingZeros := true;
    var k := 0;
    Pow16Word();
    DivUnique(x, Pow16(16), 0, x);
    while k < 16
      invariant 0 <= k <= 16
      invariant leadingZeros <==> Prefix(x, k) == 0
      invariant buf == HexDigits(Prefix(x, k))
    {
      var n := Digit(x, k);
      PrefixStep(x, k);
      if leadingZeros {
        leadingZeros := n == 0;
      }
      if !leadingZeros {
        buf := buf + [NibbleChar(n)];
      }
      k := k + 1;
    }
    assert Prefix(x, 16) == x;
    HexDigitsLength(x, 16);
    HexDigitsNoLeadingZero(x);
  }

  function Zeros(n: nat): (s: seq<char>)
    ensures |s| == n && forall i :: 0 <= i < n ==> s[i] == '0'
  {
    seq(n, _ => '0')
  }

  /** The low w hex digits of x, zero-padded on the left. */
  function LowDigits(x: nat, w: nat): (s: seq<char>)
    ensures |s| == w
  {
    if w == 0 then [] else LowDigits(x / 16, w - 1) + [NibbleChar(x % 16)]
  }

  /** When x fits in w digits, its w low digits are its significant digits padded with zeros. */
  lemma {:induction false} LowDigitsPad(x: nat, w: nat)
    requires |HexDigits(x)| <= w
    ensures LowDigits(x, w) == Zeros(w - |HexDigits(x)|) + HexDigits(x)
  {
    if w > 0 {
      if x == 0 {
        LowDigitsPad(0, w - 1);
        assert NibbleChar(0) == '0';
        assert Zeros(w - 1) + ['0'] == Zeros(w);
      } else {
        LowDigitsPad(x / 16, w - 1);
      }
    }
  }

  /** When x has at least w digits, its w low digits are the last w of its significant digits. */
  lemma {:induction false} LowDigitsSuffix(x: nat, w: nat)
    requires w <= |HexDigits(x)|
    ensures LowDigits(x, w) == HexDigits(x)[|HexDigits(x)| - w..]
  {
    if w > 0 {
      var h := HexDigits(x);
      assert x != 0;
      LowDigitsSuffix(x / 16, w - 1);
      assert h[|h| - w..] == HexDigits(x / 16)[|h| - w..] + [NibbleChar(x % 16)];
    }
  }

  /** Half of print_hex's 64-character buffer. */
  const HalfBuffer: nat := 32

  /**
   * print_hex: the buffer holds 32 '0's followed by print_to_hex's digits and
   * a NUL; the returned string starts width characters before the end of the
   * digits. It has exactly `width` characters: the low `width` hex digits of
   * x, zero-padded, so longer values lose their high digits.
   */
  function PrintHex(width: nat, x: nat): (r: seq<char>)
    requires width <= HalfBuffer && x < Pow64
    ensures |r| == width
    ensures r == LowDigits(x, width)
  {
    var digits := HexDigits(x);
    HexDigitsLength(x, 16);
    Pow16Word();
    var buffer := Zeros(HalfBuffer) + digits;
    var len := |digits|;
    var r := buffer[HalfBuffer - width + len .. HalfBuffer + len];
    if len <= width then
      LowDigitsPad(x, width);
      assert r == Zeros(width - len) + digits;
      r
    else
      LowDigitsSuffix(x, width);
      assert r == digits[len - width..];
      r
  }

  /** Padding is exact: a value with at most `width` digits is printed as its digits after width - len zeros. */
  lemma PrintHexPads(width: nat, x: nat)
    requires width <= HalfBuffer && x < Pow64 && x < Pow16(width)
    ensures |HexDigits(x)| <= width
    ensures PrintHex(width, x) == Zeros(width - |HexDigits(x)|) + HexDigits(x)
  {
    HexDigitsLength(x, width);
    LowDigitsPad(x, width);
  }
}
