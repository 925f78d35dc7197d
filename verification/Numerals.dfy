/** The number formats of the printf family and of Python that the program writes and reads back. */
module Numerals {

  predicate IsDigit(c: char) { '0' <= c <= '9' }

  predicate IsHexDigit(c: char) { IsDigit(c) || 'a' <= c <= 'f' || 'A' <= c <= 'F' }

  function DigitOf(d: nat): (c: char)
    requires d < 16
    ensures IsHexDigit(c) && DigitValue(c) == d
    ensures d < 10 ==> IsDigit(c)
  {
    if d < 10 then '0' + d as char else 'a' + (d - 10) as char
  }

  function DigitValue(c: char): nat
    requires IsHexDigit(c)
  {
    if IsDigit(c) then (c - '0') as nat
    else if 'a' <= c <= 'f' then 10 + (c - 'a') as nat
    else 10 + (c - 'A') as nat
  }

  predicate AllHex(s: string) { forall i :: 0 <= i < |s| ==> IsHexDigit(s[i]) }

  predicate AllDigits(s: string) { forall i :: 0 <= i < |s| ==> IsDigit(s[i]) }

  /** Digits of n in the given base, most significant first, no leading zero. */
  function Digits(n: nat, base: nat): (s: string)
    requires base == 10 || base == 16
    ensures |s| >= 1
    ensures AllHex(s) && (base == 10 ==> AllDigits(s))
  {
    if n < base then [DigitOf(n)] else Digits(n / base, base) + [DigitOf(n % base)]
  }

  /** The format %x. */
  function Hex(n: nat): string { Digits(n, 16) }

  /** The formats %d and %u of a number that is not negative. */
  function Decimal(n: nat): string { Digits(n, 10) }

  function SignedDecimal(n: int): string {
    if n < 0 then "-" + Decimal(-n) else Decimal(n)
  }

  /** Padding on the left with zeros up to a width, as in %08x and %06u. */
  function Padded(s: string, width: nat): (r: string)
    ensures |r| == if |s| < width then width else |s|
    ensures AllHex(s) ==> AllHex(r)
    ensures AllDigits(s) ==> AllDigits(r)
    decreases width - |s|
  {
    if |s| < width then Padded("0" + s, width) else s
  }

  /** snprintf into a buffer of the given size. */
  function Printed(s: string, size: nat): string
    requires size > 0
  {
    if |s| < size then s else s[..size - 1]
  }

  /** Python's int(s, 16). */
  function ParseHex(s: string): nat
    requires AllHex(s)
  {
    if s == [] then 0 else ParseHex(s[..|s| - 1]) * 16 + DigitValue(s[|s| - 1])
  }

  lemma {:induction false} ParseHexOfHex(n: nat)
    ensures ParseHex(Hex(n)) == n
  {
    if n < 16 {
      assert Hex(n)[..0] == "";
    } else {
      assert Hex(n)[..|Hex(n)| - 1] == Hex(n / 16);
      ParseHexOfHex(n / 16);
    }
  }

  lemma {:induction false} LeadingZero(s: string)
    requires AllHex(s)
    ensures AllHex("0" + s) && ParseHex("0" + s) == ParseHex(s)
  {
    if s == [] {
      assert "0" + s == "0" && "0"[..0] == "";
    } else {
      var front := s[..|s| - 1];
      LeadingZero(front);
      assert ("0" + s)[..|s|] == "0" + front;
    }
  }

  lemma {:induction false} ParsePadded(s: string, width: nat)
    requires AllHex(s)
    ensures ParseHex(Padded(s, width)) == ParseHex(s)
    decreases width - |s|
  {
    if |s| < width {
      LeadingZero(s);
      ParsePadded("0" + s, width);
    }
  }

  function Power(base: nat, k: nat): nat {
    if k == 0 then 1 else base * Power(base, k - 1)
  }

  /** A number below base^k has at most k digits. */
  lemma {:induction false} DigitCount(n: nat, base: nat, k: nat)
    requires (base == 10 || base == 16) && k >= 1
    requires n < Power(base, k)
    ensures |Digits(n, base)| <= k
  {
    if n >= base {
      assert Power(base, k) == base * Power(base, k - 1);
      assert k > 1;
      DigitCount(n / base, base, k - 1);
    }
  }

  lemma LastDigit(n: nat, base: nat)
    requires base == 10 || base == 16
    ensures var s := Digits(n, base); DigitValue(s[|s| - 1]) == n % base
    ensures var s := Digits(n, base); n >= base ==> |s| >= 2 && s[..|s| - 1] == Digits(n / base, base)
    ensures n < base ==> |Digits(n, base)| == 1
  {
    var s := Digits(n, base);
    if n >= base {
      assert s == Digits(n / base, base) + [DigitOf(n % base)];
      assert s[|s| - 1] == DigitOf(n % base);
    } else {
      assert s == [DigitOf(n)];
    }
  }

  /** Different numbers have different digits. */
  lemma {:induction false} DigitsInjective(a: nat, b: nat, base: nat)
    requires base == 10 || base == 16
    requires Digits(a, base) == Digits(b, base)
    ensures a == b
    decreases a
  {
    LastDigit(a, base);
    LastDigit(b, base);
    if a >= base && b >= base {
      DigitsInjective(a / base, b / base, base);
    }
    assert a == base * (a / base) + a % base && b == base * (b / base) + b % base;
  }

  // ---------------------------------------------------------------- what the formats mean

  /** The characters of the digits, and the digits of the characters, in both cases. */
  lemma DigitTable(d: nat)
    requires d < 16
    ensures DigitOf(d) == "0123456789abcdef"[d]
    ensures DigitValue("0123456789abcdef"[d]) == d && DigitValue("0123456789ABCDEF"[d]) == d
    ensures IsHexDigit("0123456789abcdef"[d]) && IsHexDigit("0123456789ABCDEF"[d])
  {
  }

  /** Nothing else is a digit. */
  lemma OnlyDigits(c: char)
    ensures IsHexDigit(c) <==> c in "0123456789abcdefABCDEF"
    ensures IsDigit(c) <==> c in "0123456789"
  {
    var all := "0123456789abcdefABCDEF";
    assert all[0] == '0' && all[9] == '9' && all[10] == 'a' && all[15] == 'f' && all[16] == 'A' && all[21] == 'F';
  }

  /** The number that digits stand for, from the left: each digit counts with the power of the base that
      belongs to its place. */
  function ValueOf(s: string, base: nat): nat
    requires AllHex(s)
  {
    if s == "" then 0 else DigitValue(s[0]) * Power(base, |s| - 1) + ValueOf(s[1..], base)
  }

  lemma {:induction false} ValueOfMore(s: string, c: char, base: nat)
    requires AllHex(s) && IsHexDigit(c)
    ensures AllHex(s + [c]) && ValueOf(s + [c], base) == ValueOf(s, base) * base + DigitValue(c)
  {
    var t := s + [c];
    if s == "" {
      assert t[1..] == "" && Power(base, 0) == 1;
    } else {
      assert t[1..] == s[1..] + [c];
      ValueOfMore(s[1..], c, base);
      Distribute(DigitValue(s[0]), Power(base, |s| - 1), ValueOf(s[1..], base), base, DigitValue(c));
      assert Power(base, |s|) == base * Power(base, |s| - 1);
    }
  }

  lemma Distribute(d: nat, p: nat, v: nat, base: nat, c: nat)
    ensures d * (base * p) + (v * base + c) == (d * p + v) * base + c
  {
  }

  /** Digits written and read by place value give the number back, without a leading zero. */
  lemma {:induction false} DigitsMean(n: nat, base: nat)
    requires base == 10 || base == 16
    ensures ValueOf(Digits(n, base), base) == n
    ensures n > 0 ==> Digits(n, base)[0] != '0'
    ensures n == 0 ==> Digits(n, base) == "0"
  {
    if n < base {
      assert Digits(n, base)[1..] == "" && Power(base, 0) == 1;
      DigitTable(n);
    } else {
      DigitsMean(n / base, base);
      ValueOfMore(Digits(n / base, base), DigitOf(n % base), base);
    }
  }

  /** Reading hexadecimal digits is reading them by place value. */
  lemma {:induction false} ParseHexMeans(s: string)
    requires AllHex(s)
    ensures ParseHex(s) == ValueOf(s, 16)
  {
    if s != "" {
      var front, last := s[..|s| - 1], s[|s| - 1];
      ParseHexMeans(front);
      ValueOfMore(front, last, 16);
      assert s == front + [last];
    }
  }

  /** Padding puts zeros in front up to the width and nothing else. */
  lemma {:induction false} PaddedMeans(s: string, width: nat)
    ensures Padded(s, width) == seq(if |s| < width then width - |s| else 0, i => '0') + s
    decreases width - |s|
  {
    if |s| < width {
      PaddedMeans("0" + s, width);
    }
  }

  /** A buffer keeps all of a text that leaves room for the NUL, and otherwise as much as fits before it. */
  lemma PrintedMeans(s: string, size: nat)
    requires size > 0
    ensures Printed(s, size) <= s && |Printed(s, size)| == if |s| <= size - 1 then |s| else size - 1
  {
  }

  lemma SignMeans(n: int)
    ensures n >= 0 ==> AllDigits(SignedDecimal(n)) && ValueOf(SignedDecimal(n), 10) == n
    ensures n < 0 ==> SignedDecimal(n)[0] == '-' && AllDigits(SignedDecimal(n)[1..])
                      && ValueOf(SignedDecimal(n)[1..], 10) == -n
  {
    DigitsMean(if n < 0 then -n else n, 10);
    if n < 0 {
      assert SignedDecimal(n)[1..] == Decimal(-n);
    }
  }

  lemma {:induction false} PaddedValue(s: string, width: nat, base: nat)
    requires AllHex(s)
    ensures ValueOf(Padded(s, width), base) == ValueOf(s, base)
    decreases width - |s|
  {
    if |s| < width {
      assert ("0" + s)[1..] == s;
      PaddedValue("0" + s, width, base);
    }
  }
}
