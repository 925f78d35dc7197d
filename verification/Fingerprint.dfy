/** The credential fingerprints of photon_hooks.cpp: 32-bit FNV-1a over the UTF-8 bytes, and the two
    summaries that a reader of the log compares by eye. */
module Fingerprint {
  import opened Wrappers
  import opened Numerals
  import opened Transcoder

  const M := 0x1_0000_0000
  const OFFSET_BASIS := 2166136261
  const PRIME := 16777619
  const PRIME_INVERSE := 899433627

  type Word = w: int | 0 <= w < 0x1_0000_0000

  /** Exclusive or of the low n bits. */
  function Xor(a: nat, b: nat, n: nat): nat {
    if n == 0 then 0 else 2 * Xor(a / 2, b / 2, n - 1) + (a + b) % 2
  }

  /** Bit k of a number. */
  function Bit(x: nat, k: nat): nat { if k == 0 then x % 2 else Bit(x / 2, k - 1) }

  /** It is exclusive or: a bit of the result is set exactly when the two bits differ. */
  lemma {:induction false} XorBits(a: nat, b: nat, n: nat, k: nat)
    ensures Bit(Xor(a, b, n), k) == if k < n && Bit(a, k) != Bit(b, k) then 1 else 0
    decreases n
  {
    if n == 0 {
      NoBits(k);
    } else if k > 0 {
      XorBits(a / 2, b / 2, n - 1, k - 1);
      HalfOfTwice(Xor(a / 2, b / 2, n - 1), (a + b) % 2);
    }
  }

  lemma {:induction false} NoBits(k: nat)
    ensures Bit(0, k) == 0
  {
    if k > 0 {
      NoBits(k - 1);
    }
  }

  lemma HalfOfTwice(x: nat, r: nat)
    requires r < 2
    ensures (2 * x + r) / 2 == x
  {
  }

  lemma BitTwice(a: nat, b: nat, rest: nat)
    ensures var x := 2 * rest + (a + b) % 2; x / 2 == rest && (x + b) % 2 == a % 2
  {
  }

  lemma {:induction false} XorInvolution(a: nat, b: nat, n: nat)
    requires a < Power(2, n)
    ensures Xor(a, b, n) < Power(2, n)
    ensures Xor(Xor(a, b, n), b, n) == a
  {
    if n > 0 {
      var rest := Xor(a / 2, b / 2, n - 1);
      assert Power(2, n) == 2 * Power(2, n - 1);
      XorInvolution(a / 2, b / 2, n - 1);
      BitTwice(a, b, rest);
      assert Xor(Xor(a, b, n), b, n) == 2 * Xor(rest, b / 2, n - 1) + a % 2;
    }
  }

  lemma {:induction false} XorSymmetric(a: nat, b: nat, n: nat)
    ensures Xor(a, b, n) == Xor(b, a, n)
  {
    if n > 0 {
      XorSymmetric(a / 2, b / 2, n - 1);
    }
  }

  lemma WordBits()
    ensures Power(2, 32) == M
  {
    assert Power(2, 8) == 256;
    assert Power(2, 16) == 65536;
    assert Power(2, 24) == 16777216;
  }

  function Xor32(a: Word, b: Word): Word {
    WordBits();
    XorInvolution(a, b, 32);
    Xor(a, b, 32)
  }

  /** One round: hash ^= byte; hash *= 16777619, in 32 bits. */
  function Step(hash: Word, b: Byte): Word { Xor32(hash, b) * PRIME % M }

  /** The round undone. */
  function Unstep(hash: Word, b: Byte): Word { Xor32(hash * PRIME_INVERSE % M, b) }

  function Fnv(data: seq<Byte>): Word {
    if data == [] then OFFSET_BASIS else Step(Fnv(data[..|data| - 1]), data[|data| - 1])
  }

  method Fnv1a(data: seq<Byte>, length: nat) returns (hash: Word)
    requires length <= |data|
    ensures hash == Fnv(data[..length])
  {
    hash := OFFSET_BASIS;
    for i := 0 to length
      invariant hash == Fnv(data[..i])
    {
      assert data[..i + 1][..i] == data[..i];
      hash := Xor32(hash, data[i]);
      hash := hash * PRIME % M;
    }
  }

  // ---------------------------------------------------------------- every round is a bijection

  lemma RemainderOf(x: Word, k: int)
    ensures (x + k * M) % M == x
  {
  }

  lemma MultiplyBack(x: Word, p: nat, q: nat)
    requires (p == PRIME && q == PRIME_INVERSE) || (p == PRIME_INVERSE && q == PRIME)
    ensures x * p % M * q % M == x
  {
    var c := 3513497;
    assert p * q == 1 + c * M;
    var k := x * p / M;
    assert x * p % M == x * p - k * M;
    assert x * p % M * q == x + (x * c - k * q) * M;
    RemainderOf(x, x * c - k * q);
  }

  lemma XorTwice(a: Word, b: Word)
    ensures Xor32(Xor32(a, b), b) == a
  {
    WordBits();
    XorInvolution(a, b, 32);
  }

  /** For each byte, a round is a bijection of the 32-bit hash. */
  lemma StepIsBijective(hash: Word, b: Byte)
    ensures Unstep(Step(hash, b), b) == hash
    ensures Step(Unstep(hash, b), b) == hash
  {
    XorTwice(hash, b);
    MultiplyBack(Xor32(hash, b), PRIME, PRIME_INVERSE);
    XorTwice(hash * PRIME_INVERSE % M, b);
    MultiplyBack(hash, PRIME_INVERSE, PRIME);
  }

  /** For each hash, a round tells the bytes apart. */
  lemma StepTellsBytes(hash: Word, a: Byte, b: Byte)
    requires Step(hash, a) == Step(hash, b)
    ensures a == b
  {
    MultiplyBack(Xor32(hash, a), PRIME, PRIME_INVERSE);
    MultiplyBack(Xor32(hash, b), PRIME, PRIME_INVERSE);
    XorSymmetric(hash, a, 32);
    XorSymmetric(hash, b, 32);
    XorTwice(a, hash);
    XorTwice(b, hash);
  }

  /** A common end neither hides nor makes a difference. */
  lemma {:induction false} CommonSuffix(a: seq<Byte>, b: seq<Byte>, tail: seq<Byte>)
    ensures Fnv(a + tail) == Fnv(b + tail) <==> Fnv(a) == Fnv(b)
  {
    if tail == [] {
      assert a + tail == a && b + tail == b;
    } else {
      var front, last := tail[..|tail| - 1], tail[|tail| - 1];
      assert (a + tail)[..|a + tail| - 1] == a + front;
      assert (b + tail)[..|b + tail| - 1] == b + front;
      CommonSuffix(a, b, front);
      StepIsBijective(Fnv(a + front), last);
      StepIsBijective(Fnv(b + front), last);
    }
  }

  predicate DifferOnlyAt(a: seq<Byte>, b: seq<Byte>, k: nat) {
    && |a| == |b| && k < |a| && a[k] != b[k]
    && forall i :: 0 <= i < |a| && i != k ==> a[i] == b[i]
  }

  /** A change of one byte always changes the fingerprint. */
  lemma SubstitutionDetected(a: seq<Byte>, b: seq<Byte>, k: nat)
    requires DifferOnlyAt(a, b, k)
    ensures Fnv(a) != Fnv(b)
  {
    var tail := a[k + 1..];
    assert a == a[..k + 1] + tail && b == b[..k + 1] + tail;
    CommonSuffix(a[..k + 1], b[..k + 1], tail);
    assert a[..k + 1][..k] == a[..k] == b[..k] == b[..k + 1][..k];
    if Fnv(a[..k + 1]) == Fnv(b[..k + 1]) {
      StepTellsBytes(Fnv(a[..k]), a[k], b[k]);
      assert false;
    }
  }

  // ---------------------------------------------------------------- the two summaries

  function Summary(chars: int, utf8: nat, hash: Word): string {
    "chars=" + (SignedDecimal(chars) + (" utf8=" + (Decimal(utf8) + (" fnv1a=" + Padded(Hex(hash), 8)))))
  }

  const SUMMARY_BUFFER := 128

  method SecretSummary(value: Option<ManagedString>, lengthBound: bool, charsBound: bool)
    returns (r: string)
    requires value.Some? ==> Readable(value.value)
    ensures value.None? ==> r == "<null>"
    ensures value.Some? ==>
              var text := ManagedText(value.value, lengthBound && charsBound, 256);
              var chars := if lengthBound then value.value.length else -1;
              r == Printed(Summary(chars, |text|, Fnv(text)), SUMMARY_BUFFER)
    ensures value.Some? && lengthBound && charsBound ==>
              forall units :: HasUnits(value.value, units) ==> r == SummaryOfUnits(units)
  {
    if value.Some? && lengthBound && charsBound {
      forall units | HasUnits(value.value, units)
        ensures ManagedText(value.value, true, 256) == TextOf(units, 256)
      {
        ManagedTextIs(value.value, units, 256);
      }
    }
    if value.None? { return "<null>"; }
    var text := ToUtf8(value, lengthBound && charsBound, 256);
    var chars := if lengthBound then value.value.length else -1;
    var hash := Fnv1a(text, |text|);
    assert text[..|text|] == text;
    r := Printed(Summary(chars, |text|, hash), SUMMARY_BUFFER);
  }

  /** The summary of a managed string with the given contents. */
  function SummaryOfUnits(units: seq<Unit>): string {
    var text := TextOf(units, 256);
    Printed(Summary(|units|, |text|, Fnv(text)), SUMMARY_BUFFER)
  }

  /** The string that starts with these bytes, as C reads it: up to the first NUL. */
  function UpToNul(bytes: seq<Byte>): (s: seq<Byte>)
    ensures s <= bytes && 0 !in s
    ensures s == bytes <==> 0 !in bytes
    ensures |s| < |bytes| ==> bytes[|s|] == 0
  {
    if bytes == [] || bytes[0] == 0 then [] else [bytes[0]] + UpToNul(bytes[1..])
  }

  /** The summary of the configured ID, whose literal may hold a NUL before its end. */
  function SummaryOfBytes(literal: seq<Byte>): string {
    var id := UpToNul(literal);
    Printed(Summary(|id|, |id|, Fnv(id)), SUMMARY_BUFFER)
  }

  method ConfiguredSecretSummary(literal: seq<Byte>) returns (r: string)
    ensures r == SummaryOfBytes(literal)
  {
    var length := StrLen(literal);
    var hash := Fnv1a(literal, length);
    r := Printed(Summary(length, length, hash), SUMMARY_BUFFER);
  }

  method StrLen(literal: seq<Byte>) returns (length: nat)
    ensures length <= |literal| && literal[..length] == UpToNul(literal)
  {
    length := 0;
    while length < |literal| && literal[length] != 0
      invariant length <= |literal|
      invariant 0 !in literal[..length]
    {
      length := length + 1;
    }
    CutAt(literal, length);
  }

  lemma {:induction false} CutAt(bytes: seq<Byte>, k: nat)
    requires k <= |bytes| && 0 !in bytes[..k] && (k == |bytes| || bytes[k] == 0)
    ensures UpToNul(bytes) == bytes[..k]
  {
  }

  /** The three fields of a summary, which is never cut short for 32-bit lengths. */
  lemma SummaryLength(chars: Word, utf8: Word, hash: Word)
    ensures |Padded(Hex(hash), 8)| == 8
    ensures |Summary(chars, utf8, hash)| < SUMMARY_BUFFER
  {
    TenDigits(chars);
    TenDigits(utf8);
    assert Power(16, 8) == M by {
      assert Power(16, 4) == 65536;
    }
    DigitCount(hash, 16, 8);
  }

  lemma TenDigits(n: Word)
    ensures |Decimal(n)| <= 10
  {
    assert Power(10, 10) == 10_000_000_000 by {
      assert Power(10, 5) == 100_000;
    }
    DigitCount(n, 10, 10);
  }

  /** A summary determines all three of its fields. */
  lemma SummaryInjective(c: Word, u: Word, h: Word, c': Word, u': Word, h': Word)
    requires Printed(Summary(c, u, h), SUMMARY_BUFFER) == Printed(Summary(c', u', h'), SUMMARY_BUFFER)
    ensures c == c' && u == u' && h == h'
  {
    SummaryLength(c, u, h);
    SummaryLength(c', u', h');
    var hex, hex' := " fnv1a=" + Padded(Hex(h), 8), " fnv1a=" + Padded(Hex(h'), 8);
    var rest, rest' := " utf8=" + (Decimal(u) + hex), " utf8=" + (Decimal(u') + hex');
    CutPrefix("chars=", Decimal(c) + rest, Decimal(c') + rest');
    DigitsThenSpace(Decimal(c), rest, Decimal(c'), rest');
    DigitsInjective(c, c', 10);
    CutPrefix(" utf8=", Decimal(u) + hex, Decimal(u') + hex');
    DigitsThenSpace(Decimal(u), hex, Decimal(u'), hex');
    DigitsInjective(u, u', 10);
    CutPrefix(" fnv1a=", Padded(Hex(h), 8), Padded(Hex(h'), 8));
    ParsePadded(Hex(h), 8);
    ParsePadded(Hex(h'), 8);
    ParseHexOfHex(h);
    ParseHexOfHex(h');
  }

  lemma CutPrefix(prefix: string, a: string, b: string)
    requires prefix + a == prefix + b
    ensures a == b
  {
    assert a == (prefix + a)[|prefix|..] && b == (prefix + b)[|prefix|..];
  }

  lemma DigitsThenSpace(a: string, x: string, b: string, y: string)
    requires AllDigits(a) && AllDigits(b)
    requires x != [] && y != [] && x[0] == ' ' == y[0]
    requires a + x == b + y
    ensures a == b && x == y
  {
    var s := a + x;
    assert s[|a|] == ' ' && s[|b|] == ' ';
    assert forall i :: 0 <= i < |a| ==> s[i] == a[i];
    assert forall i :: 0 <= i < |b| ==> s[i] == b[i];
    assert |a| == |b|;
    assert a == s[..|a|] && x == s[|a|..];
  }

  /** Two configured IDs of 32-bit length that differ in one byte, both without a NUL, never print the same
      summary. */
  lemma SummariesDiffer(a: seq<Byte>, b: seq<Byte>, k: nat)
    requires DifferOnlyAt(a, b, k) && |a| < M && 0 !in a && 0 !in b
    ensures SummaryOfBytes(a) != SummaryOfBytes(b)
  {
    SubstitutionDetected(a, b, k);
    if SummaryOfBytes(a) == SummaryOfBytes(b) {
      SummaryInjective(|a|, |a|, Fnv(a), |b|, |b|, Fnv(b));
      assert false;
    }
  }

  // ---------------------------------------------------------------- when the summaries agree

  /** ASCII without a NUL. */
  predicate AllAscii(units: seq<Unit>) { forall i :: 0 <= i < |units| ==> 0 < units[i] < 0x80 }

  /** What il2cpp_string_new makes the runtime hold: the UTF-16 form of the configured bytes. */
  function BytesOf(units: seq<Unit>): seq<Byte> { EncodeUtf8(Scalars(units)) }

  lemma AsciiSplits(units: seq<Unit>)
    requires units != []
    ensures AllAscii(units) <==> 0 < units[0] < 0x80 && AllAscii(units[1..])
  {
    assert forall i :: 0 < i < |units| ==> units[i] == units[1..][i - 1];
  }

  lemma {:induction false} AsciiBytes(units: seq<Unit>)
    ensures |BytesOf(units)| >= |units|
    ensures 0 !in BytesOf(units) && |BytesOf(units)| == |units| <==> AllAscii(units)
    ensures AllAscii(units) ==> BytesOf(units) == units
  {
    if units != [] {
      var n := if IsHigh(units[0]) && |units| > 1 && IsLow(units[1]) then 2 else 1;
      AsciiBytes(units[n..]);
      assert Scalars(units)[1..] == Scalars(units[n..]);
      var first := Utf8Of(Scalars(units)[0]);
      assert BytesOf(units) == first + BytesOf(units[n..]);
      assert 0 in BytesOf(units) <==> 0 in first || 0 in BytesOf(units[n..]);
      AsciiSplits(units);
      if units[0] < 0x80 {
        assert first == [units[0]];
      } else {
        assert |first| > n;
      }
    }
  }

  lemma TextAndBytes(units: seq<Unit>, text: seq<Byte>)
    requires text == BytesOf(units) && |units| < M && |text| < M
    ensures Printed(Summary(|units|, |text|, Fnv(text)), SUMMARY_BUFFER) == SummaryOfBytes(text) <==> AllAscii(units)
  {
    AsciiBytes(units);
    var cut := UpToNul(text);
    if Printed(Summary(|units|, |text|, Fnv(text)), SUMMARY_BUFFER) == SummaryOfBytes(text) {
      SummaryInjective(|units|, |text|, Fnv(text), |cut|, |cut|, Fnv(cut));
    }
  }

  /** For a well-formed ID of at most 256 units the summary of the game's string and the summary of
      the configured bytes are the same text if and only if the ID is ASCII without a NUL. */
  lemma SummariesAgreeIffAscii(units: seq<Unit>)
    requires WellFormed16(units) && |units| <= 256
    ensures SummaryOfUnits(units) == SummaryOfBytes(BytesOf(units)) <==> AllAscii(units)
  {
    WellFormedReencodes(units);
    OutputSize(units, 256);
    TextAndBytes(units, TextOf(units, 256));
  }

  /** Beyond 256 units only the length is left to tell two strings apart: the summary depends on the
      units read and the length and on nothing else. */
  lemma LongStringsShareSummary(a: seq<Unit>, b: seq<Unit>)
    requires 256 < |a| < M && 256 < |b| < M
    ensures a[..256] == b[..256] && |a| == |b| ==> SummaryOfUnits(a) == SummaryOfUnits(b)
    ensures |a| != |b| ==> SummaryOfUnits(a) != SummaryOfUnits(b)
  {
    OutputSize(a, 256);
    OutputSize(b, 256);
    if SummaryOfUnits(a) == SummaryOfUnits(b) {
      SummaryInjective(|a|, |TextOf(a, 256)|, Fnv(TextOf(a, 256)), |b|, |TextOf(b, 256)|, Fnv(TextOf(b, 256)));
    }
  }

  /** The text of an ASCII string is its units, cut and marked beyond 256. */
  lemma AsciiText(units: seq<Unit>)
    requires AllAscii(units)
    ensures var t := TextOf(units, 256);
            && |t| == (if |units| <= 256 then |units| else 256 + |ELLIPSIS|)
            && (forall i :: 0 <= i < |units| && i < 256 ==> t[i] == units[i])
            && (forall i :: 256 <= i < |t| ==> t[i] == ELLIPSIS[i - 256])
  {
    var read := if |units| <= 256 then units else units[..256];
    AsciiBytes(read);
    assert !EndsHigh(read);
    assert TextOf(units, 256) == BytesOf(read) + if |units| <= 256 then [] else ELLIPSIS;
  }

  lemma FirstUnitsDiffer(a: seq<Unit>, b: seq<Unit>, k: nat)
    requires AllAscii(a) && AllAscii(b) && |a| == |b| && k < |a| && k < 256
    requires a[k] != b[k] && forall i :: 0 <= i < |a| && i != k ==> a[i] == b[i]
    ensures DifferOnlyAt(TextOf(a, 256), TextOf(b, 256), k)
  {
    AsciiText(a);
    AsciiText(b);
  }

  lemma DifferentHashesShow(a: seq<Unit>, b: seq<Unit>)
    requires |a| < M && |b| < M && Fnv(TextOf(a, 256)) != Fnv(TextOf(b, 256))
    ensures SummaryOfUnits(a) != SummaryOfUnits(b)
  {
    var x, y := TextOf(a, 256), TextOf(b, 256);
    OutputSize(a, 256);
    OutputSize(b, 256);
    if SummaryOfUnits(a) == SummaryOfUnits(b) {
      SummaryInjective(|a|, |x|, Fnv(x), |b|, |y|, Fnv(y));
    }
  }

  /** The summaries of two ASCII strings of one 32-bit length that differ in one unit are different if and
      only if that unit is among the first 256. */
  lemma ManagedSummariesDifferIff(a: seq<Unit>, b: seq<Unit>, k: nat)
    requires AllAscii(a) && AllAscii(b) && |a| == |b| < M
    requires k < |a| && a[k] != b[k] && forall i :: 0 <= i < |a| && i != k ==> a[i] == b[i]
    ensures SummaryOfUnits(a) != SummaryOfUnits(b) <==> k < 256
  {
    if k < 256 {
      FirstUnitsDiffer(a, b, k);
      SubstitutionDetected(TextOf(a, 256), TextOf(b, 256), k);
      DifferentHashesShow(a, b);
    } else {
      assert a[..256] == b[..256];
    }
  }

  // ---------------------------------------------------------------- known answers

  lemma {:induction false} XorZero(a: nat, n: nat)
    requires a < Power(2, n)
    ensures Xor(a, 0, n) == a
  {
    if n > 0 {
      assert Power(2, n) == 2 * Power(2, n - 1);
      XorZero(a / 2, n - 1);
    }
  }

  /** The published hashes of the empty text and of a single zero byte. */
  lemma KnownHashes(zero: seq<Byte>)
    requires |zero| == 1 && zero[0] == 0
    ensures Fnv([]) == 0x811C_9DC5
    ensures Fnv(zero) == 0x050C_5D1F
  {
    WordBits();
    XorZero(Fnv([]), 32);
    assert zero[..0] == [] && Fnv(zero) == Step(Fnv([]), 0);
    assert 0x811C_9DC5 * 16777619 % 0x1_0000_0000 == 0x050C_5D1F;
  }

  /** The summary of a string that is one zero unit. */
  lemma KnownSummary(zero: seq<Unit>)
    requires |zero| == 1 && zero[0] == 0
    ensures SummaryOfUnits(zero) == "chars=1 utf8=1 fnv1a=050c5d1f"
  {
    var text := TextOf(zero, 256);
    ZeroText(zero, text);
    KnownHashes(text);
    SummaryOfHash(Fnv(text));
  }

  lemma ZeroText(zero: seq<Unit>, text: seq<Byte>)
    requires |zero| == 1 && zero[0] == 0 && text == TextOf(zero, 256)
    ensures |text| == 1 && text[0] == 0
  {
    assert zero[1..] == [] && Scalars(zero) == [0] && !EndsHigh(zero);
    var cps: seq<CodePoint> := [0];
    assert cps[1..] == [] && EncodeUtf8(cps) == Utf8Of(0) + [];
    assert text == EncodeUtf8(Scalars(zero));
  }

  lemma SummaryOfHash(h: Word)
    requires h == 0x050C_5D1F
    ensures Printed(Summary(1, 1, h), SUMMARY_BUFFER) == "chars=1 utf8=1 fnv1a=050c5d1f"
  {
    KnownHex(h);
    SummaryLength(1, 1, h);
    SummaryText(Padded(Hex(h), 8), "050c5d1f");
    assert Decimal(1) == "1" && SignedDecimal(1) == "1";
  }

  lemma SummaryText(hex: string, known: string)
    requires hex == known
    ensures "chars=" + ("1" + (" utf8=" + ("1" + (" fnv1a=" + hex)))) == "chars=1 utf8=1 fnv1a=" + known
  {
  }

  lemma HexDigitAfter(n: nat, front: string)
    requires n >= 16 && Hex(n / 16) == front
    ensures Hex(n) == front + [DigitOf(n % 16)]
  {
  }

  lemma KnownHex(h: Word)
    requires h == 0x050C_5D1F
    ensures Padded(Hex(h), 8) == "050c5d1f"
  {
    assert Hex(h / 0x100_0000) == "5";
    HexDigitAfter(h / 0x10_0000, "5");
    HexDigitAfter(h / 0x1_0000, "50");
    HexDigitAfter(h / 0x1000, "50c");
    HexDigitAfter(h / 0x100, "50c5");
    HexDigitAfter(h / 0x10, "50c5d");
    HexDigitAfter(h, "50c5d1");
  }
}
