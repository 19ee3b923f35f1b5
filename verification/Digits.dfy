/** Number rendering of libc/stdio/printf.c: itoa, utoa and their long forms share
    one digit loop and one in-place reversal. */
module Digits {

  /** Digit characters around index 35, so that negative remainders index the same
      digit on the other side. */
  const CHARS: string := DOWN + UP
  const DOWN: string := "zyxwvutsrqponmlkjihgfedcba987654321"
  const UP: string := "0123456789abcdefghijklmnopqrstuvwxyz"

  function DigitChar(d: nat): char
    requires d < 36
  {
    if d < 10 then '0' + d as char else 'a' + (d - 10) as char
  }

  function DigitValue(c: char): nat {
    if '0' <= c <= '9' then (c - '0') as nat
    else if 'a' <= c <= 'z' then (c - 'a') as nat + 10
    else 0
  }

  /** C's truncating division and its remainder, for a positive divisor. */
  function CDiv(i: int, b: nat): int
    requires b > 0
  {
    if i >= 0 then i / b else -((-i) / b)
  }

  function CMod(i: int, b: nat): int
    requires b > 0
  {
    if i >= 0 then i % b else -((-i) % b)
  }

  function Abs(i: int): nat { if i < 0 then -i else i }

  lemma DivMod(n: nat, b: nat)
    requires b > 0
    ensures n == n / b * b + n % b && n % b < b
    ensures b >= 2 && n > 0 ==> n / b < n
  {
  }

  lemma TwiceAtMost(q: nat, b: nat)
    requires b >= 2
    ensures 2 * q <= q * b
  {
  }

  /** Most significant digit first. */
  function DigitsOf(n: nat, b: nat): (s: string)
    requires 2 <= b <= 36
    ensures |s| > 0
    decreases n
  {
    DivMod(n, b);
    if n / b == 0 then [DigitChar(n % b)] else DigitsOf(n / b, b) + [DigitChar(n % b)]
  }

  function Value(s: string, b: nat): nat {
    if s == [] then 0 else Value(s[..|s| - 1], b) * b + DigitValue(s[|s| - 1])
  }

  lemma DigitRoundTrip(d: nat)
    requires d < 36
    ensures DigitValue(DigitChar(d)) == d
    ensures DigitChar(d) == '0' <==> d == 0
    ensures DigitChar(d) != '-' && DigitChar(d) != '\0'
  {
  }

  /** One digit off the end; keeps division out of the proofs below. */
  lemma DigitsStep(n: nat, b: nat) returns (q: nat, r: nat)
    requires 2 <= b <= 36
    ensures n == q * b + r && r < b && (n > 0 ==> q < n)
    ensures DigitsOf(n, b) == (if q == 0 then [] else DigitsOf(q, b)) + [DigitChar(r)]
  {
    hide DigitChar;
    DivMod(n, b);
    q, r := n / b, n % b;
  }

  lemma {:induction false} DigitsValue(n: nat, b: nat)
    requires 2 <= b <= 36
    ensures Value(DigitsOf(n, b), b) == n
    decreases n
  {
    hide DigitChar, DigitValue, DigitsOf;
    var q, r := DigitsStep(n, b);
    DigitRoundTrip(r);
    var s := DigitsOf(n, b);
    if q == 0 {
      assert s[..0] == [] && Value([], b) * b == 0 * b == 0;
    } else {
      assert s[..|s| - 1] == DigitsOf(q, b);
      DigitsValue(q, b);
    }
  }

  lemma {:induction false} DigitsShape(n: nat, b: nat)
    requires 2 <= b <= 36
    ensures DigitsOf(n, b)[0] == '0' <==> n == 0
    ensures '-' !in DigitsOf(n, b) && '\0' !in DigitsOf(n, b)
    decreases n
  {
    hide DigitChar, DigitsOf;
    var q, r := DigitsStep(n, b);
    DigitRoundTrip(r);
    if q > 0 {
      DigitsShape(q, b);
      TwiceAtMost(q, b);
    } else {
      assert q * b == 0;
    }
  }

  /** Reading the digits gives the number back; there is no leading zero, no sign
      and no NUL among them. */
  lemma DigitsRoundTrip(n: nat, b: nat)
    requires 2 <= b <= 36
    ensures Value(DigitsOf(n, b), b) == n
    ensures DigitsOf(n, b)[0] == '0' <==> n == 0
    ensures '-' !in DigitsOf(n, b) && '\0' !in DigitsOf(n, b)
  {
    DigitsValue(n, b);
    DigitsShape(n, b);
  }

  function Pow2(k: nat): nat { if k == 0 then 1 else 2 * Pow2(k - 1) }

  /** A number below 2^k has at most k digits in any base, and at least one. */
  lemma {:induction false} DigitsFit(n: nat, b: nat, k: nat)
    requires 2 <= b <= 36 && k > 0 && n < Pow2(k)
    ensures |DigitsOf(n, b)| <= k
    decreases k
  {
    hide DigitChar, DigitsOf;
    var q, r := DigitsStep(n, b);
    if q > 0 {
      TwiceAtMost(q, b);
      DigitsFit(q, b, k - 1);
    }
  }

  /** What the signed conversions leave: digits of the absolute value, and for a
      negative number in base 10 the sign, which the reversal moves to the end. */
  function IntText(i: int, b: int): string {
    if !(2 <= b <= 36) then ""
    else if i < 0 && b == 10 then DigitsOf(Abs(i), b) + "-"
    else DigitsOf(Abs(i), b)
  }

  lemma IntTextDenotes(i: int, b: int)
    requires 2 <= b <= 36
    ensures var s := IntText(i, b);
            if i < 0 && b == 10 then |s| > 1 && s[|s| - 1] == '-' && Value(s[..|s| - 1], b) == Abs(i)
            else Value(s, b) == Abs(i) && '-' !in s
    ensures '\0' !in IntText(i, b)
  {
    DigitsRoundTrip(Abs(i), b);
    var d := DigitsOf(Abs(i), b);
    assert (d + "-")[..|d|] == d;
  }

  lemma IntTextFits(i: int, b: int)
    ensures -0x8000_0000 <= i < 0x8000_0000 ==> |IntText(i, b)| < 33
    ensures 0 <= i < 0x1_0000_0000 ==> |IntText(i, b)| < 33
    ensures -0x8000_0000_0000_0000 <= i < 0x1_0000_0000_0000_0000 ==> |IntText(i, b)| < 65
  {
    if 2 <= b <= 36 {
      PowersOfTwo();
      if b == 10 { TenIsShort(Abs(i)); }
      if Abs(i) <= 0x8000_0000 || 0 <= i < 0x1_0000_0000 { DigitsFit(Abs(i), b, 32); }
      if Abs(i) < 0x1_0000_0000_0000_0000 { DigitsFit(Abs(i), b, 64); }
    }
  }

  lemma PowersOfTwo()
    ensures Pow2(32) == 0x1_0000_0000 && Pow2(64) == 0x1_0000_0000_0000_0000
  {
    assert Pow2(8) == 256;
    assert Pow2(16) == 0x1_0000;
    assert Pow2(24) == 0x100_0000;
    assert Pow2(32) == 0x1_0000_0000;
    assert Pow2(40) == 0x100_0000_0000;
    assert Pow2(48) == 0x1_0000_0000_0000;
    assert Pow2(56) == 0x100_0000_0000_0000;
  }

  /** In base 10 a digit is worth three bits, so there is room for the sign. */
  lemma TenIsShort(n: nat)
    ensures n < 0x1_0000_0000 ==> |DigitsOf(n, 10)| <= 31
    ensures n < 0x1_0000_0000_0000_0000 ==> |DigitsOf(n, 10)| <= 63
  {
    PowersOfTwo();
    if n / 10 > 0 {
      if n < 0x1_0000_0000 { DigitsFit(n / 10, 10, 30) by { assert Pow2(32) == 4 * Pow2(30); } }
      if n < 0x1_0000_0000_0000_0000 { DigitsFit(n / 10, 10, 62) by { assert Pow2(64) == 4 * Pow2(62); } }
    }
  }

  function Reversed(s: string): (r: string)
    ensures |r| == |s| && forall i :: 0 <= i < |s| ==> r[i] == s[|s| - 1 - i]
  {
    seq(|s|, i requires 0 <= i < |s| => s[|s| - 1 - i])
  }

  lemma ReversedTwice(s: string)
    ensures Reversed(Reversed(s)) == s
  {
  }

  lemma UpLookup(d: nat)
    requires d < 36
    ensures |UP| == 36 && UP[d] == DigitChar(d)
  {
  }

  lemma DownLookup(d: nat)
    requires 0 < d < 36
    ensures |DOWN| == 35 && DOWN[35 - d] == DigitChar(d)
  {
  }

  lemma TableLookup(d: int)
    requires -36 < d < 36
    ensures |CHARS| == 71 && CHARS[35 + d] == DigitChar(Abs(d))
  {
    DownLookup(1);
    if d >= 0 { UpLookup(d); } else { DownLookup(-d); UpLookup(0); }
  }

  lemma TruncatedParts(i: int, b: nat)
    requires 2 <= b <= 36
    ensures Abs(CMod(i, b)) == Abs(i) % b < 36 && Abs(CDiv(i, b)) == Abs(i) / b
  {
    DivMod(Abs(i), b);
  }

  /** The table lookup yields the digit whatever the sign of the remainder. */
  lemma CharsLookup(i: int, b: nat)
    requires 2 <= b <= 36
    ensures -36 < CMod(i, b) < 36 && |CHARS| == 71 && CHARS[35 + CMod(i, b)] == DigitChar(Abs(i) % b)
    ensures Abs(CDiv(i, b)) == Abs(i) / b
  {
    hide DigitChar, CMod, CDiv;
    TruncatedParts(i, b);
    TableLookup(CMod(i, b));
  }

  /** itoa and lltoa; with a nonnegative argument also utoa and ulltoa. Digits are
      written least significant first behind the sign, then the whole string is
      reversed in place. */
  method Convert(value: int, str: array<char>, base: int)
    requires |IntText(value, base)| < str.Length
    modifies str
    ensures str[..|IntText(value, base)|] == IntText(value, base)
    ensures str[|IntText(value, base)|] == '\0'
    ensures forall k :: |IntText(value, base)| < k < str.Length ==> str[k] == old(str[k])
  {
    if base < 2 || base > 36 {
      str[0] := '\0';
      return;
    }
    hide IntText, Reversed;
    var p := WriteReversed(value, str, base);
    assert str[..p] == Reversed(IntText(value, base));
    str[p] := '\0';
    assert str[..p] == Reversed(IntText(value, base));
    ReverseInPlace(str, p);
    ReversedTwice(IntText(value, base));
  }

  /** The digit loop. */
  method WriteReversed(value: int, str: array<char>, base: nat) returns (p: nat)
    requires 2 <= base <= 36 && |IntText(value, base)| < str.Length
    modifies str
    ensures p == |IntText(value, base)| && str[..p] == Reversed(IntText(value, base))
    ensures forall k :: p <= k < str.Length ==> str[k] == old(str[k])
  {
    hide CDiv, CMod, DigitChar, DigitsOf, IntText, Reversed;
    ghost var text := IntText(value, base);
    DigitsLength(value, base);
    p := 0;
    if value < 0 && base == 10 {
      str[0] := '-';
      p := 1;
    }
    var i := value;
    var more := true;
    while more
      invariant more ==> p + |DigitsOf(Abs(i), base)| == |text|
      invariant more ==> str[..p] + Reversed(DigitsOf(Abs(i), base)) == Reversed(text)
      invariant !more ==> p == |text| && str[..p] == Reversed(text)
      invariant forall k :: |text| <= k < str.Length ==> str[k] == old(str[k])
      decreases more, Abs(i)
    {
      CharsLookup(i, base);
      DivMod(Abs(i), base);
      ghost var out := str[..p];
      LastDigit(out, Abs(i), base);
      str[p] := CHARS[35 + CMod(i, base)];
      p := p + 1;
      assert str[..p] == out + [DigitChar(Abs(i) % base)];
      i := CDiv(i, base);
      more := i != 0;
    }
  }

  lemma DigitsLength(value: int, base: int)
    requires 2 <= base <= 36
    ensures var sign := if value < 0 && base == 10 then "-" else "";
            |sign| + |DigitsOf(Abs(value), base)| == |IntText(value, base)|
            && sign + Reversed(DigitsOf(Abs(value), base)) == Reversed(IntText(value, base))
  {
  }

  lemma LastDigit(out: string, n: nat, b: nat)
    requires 2 <= b <= 36
    ensures |DigitsOf(n, b)| == if n / b == 0 then 1 else |DigitsOf(n / b, b)| + 1
    ensures out + Reversed(DigitsOf(n, b)) ==
            out + [DigitChar(n % b)] + if n / b == 0 then [] else Reversed(DigitsOf(n / b, b))
  {
    hide DigitChar;
    DivMod(n, b);
  }

  /** The swap loop on the first `n` characters. */
  method ReverseInPlace(str: array<char>, n: nat)
    requires n <= str.Length
    modifies str
    ensures str[..n] == Reversed(old(str[..n]))
    ensures forall k :: n <= k < str.Length ==> str[k] == old(str[k])
  {
    var i, j := 0, n - 1;
    while i < j
      invariant 0 <= i <= j + 1 <= n && i + j == n - 1
      invariant forall k :: 0 <= k < i ==> str[k] == old(str[n - 1 - k])
      invariant forall k :: j < k < n ==> str[k] == old(str[n - 1 - k])
      invariant forall k :: i <= k <= j ==> str[k] == old(str[k])
      invariant forall k :: n <= k < str.Length ==> str[k] == old(str[k])
    {
      str[i], str[j] := str[j], str[i];
      i, j := i + 1, j - 1;
    }
  }
}
