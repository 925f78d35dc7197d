/** The managed-string conversion of il2cpp.cpp: UTF-16 code units to UTF-8 bytes, with look-ahead
    for surrogate pairs, replacement of unpaired surrogates and a limit on the units read.

    The reference definitions are the two decoding procedures of the standards, written from the
    standards and not from the converter: UTF-16 by section 2.2 of RFC 2781, UTF-8 by sections 3
    and 4 of RFC 3629. */
module Transcoder {
  import opened Wrappers

  type Byte = b: int | 0 <= b < 0x100
  type Unit = u: int | 0 <= u < 0x1_0000
  type CodePoint = c: int | 0 <= c <= 0x10_FFFF

  const REPLACEMENT: CodePoint := 0xFFFD
  const NULL_STRING: seq<Byte> := [0x3C, 0x6E, 0x75, 0x6C, 0x6C, 0x3E]  // <null>
  const NO_API: seq<Byte> :=  // <string-api-unavailable>
    [0x3C, 0x73, 0x74, 0x72, 0x69, 0x6E, 0x67, 0x2D, 0x61, 0x70, 0x69, 0x2D,
     0x75, 0x6E, 0x61, 0x76, 0x61, 0x69, 0x6C, 0x61, 0x62, 0x6C, 0x65, 0x3E]
  const NULL_CHARS: seq<Byte> :=  // <null-chars>
    [0x3C, 0x6E, 0x75, 0x6C, 0x6C, 0x2D, 0x63, 0x68, 0x61, 0x72, 0x73, 0x3E]
  const ELLIPSIS: seq<Byte> := [0x2E, 0x2E, 0x2E]

  predicate IsHigh(u: Unit) { 0xD800 <= u <= 0xDBFF }
  predicate IsLow(u: Unit) { 0xDC00 <= u <= 0xDFFF }
  predicate IsScalar(cp: CodePoint) { cp <= 0xD7FF || 0xE000 <= cp <= 0x10FFFF }

  predicate EndsHigh(units: seq<Unit>) { units != [] && IsHigh(units[|units| - 1]) }

  // ---------------------------------------------------------------- UTF-16, RFC 2781

  /** Steps 4 and 5 of section 2.2: ten bits from each half, plus 0x10000. */
  function Pair(high: Unit, low: Unit): CodePoint {
    high % 0x400 * 0x400 + low % 0x400 + 0x10000
  }

  /** Section 2.2, with U+FFFD where the procedure reports an error. */
  function Scalars(units: seq<Unit>): (cps: seq<CodePoint>)
    ensures |cps| <= |units|
  {
    if units == [] then []
    else if !IsHigh(units[0]) && !IsLow(units[0]) then [units[0]] + Scalars(units[1..])
    else if IsHigh(units[0]) && |units| > 1 && IsLow(units[1]) then
      [Pair(units[0], units[1])] + Scalars(units[2..])
    else [REPLACEMENT] + Scalars(units[1..])
  }

  /** No step of section 2.2 reports an error. */
  predicate WellFormed16(units: seq<Unit>) {
    if units == [] then true
    else if IsHigh(units[0]) then |units| > 1 && IsLow(units[1]) && WellFormed16(units[2..])
    else !IsLow(units[0]) && WellFormed16(units[1..])
  }

  /** Section 2.1: encoding one character as UTF-16. */
  function Utf16Of(cp: CodePoint): seq<Unit> {
    if cp < 0x10000 then [cp]
    else [0xD800 + (cp - 0x10000) / 0x400, 0xDC00 + (cp - 0x10000) % 0x400]
  }

  function EncodeUtf16(cps: seq<CodePoint>): seq<Unit> {
    if cps == [] then [] else Utf16Of(cps[0]) + EncodeUtf16(cps[1..])
  }

  // ---------------------------------------------------------------- UTF-8, RFC 3629

  predicate IsTail(b: Byte) { 0x80 <= b <= 0xBF }

  function Low6(b: Byte): CodePoint { b % 0x40 }

  /** One character by the grammar of section 4: its number and its length, or nothing. */
  function DecodeChar(s: seq<Byte>): (r: Option<(CodePoint, nat)>)
    ensures r.Some? ==> 1 <= r.value.1 <= |s| && r.value.1 <= 4
  {
    if s == [] then None
    else if s[0] <= 0x7F then Some((s[0], 1))
    else if |s| >= 2 && 0xC2 <= s[0] <= 0xDF && IsTail(s[1]) then
      Some((s[0] % 0x20 * 0x40 + Low6(s[1]), 2))
    else if |s| >= 3 && Utf8Lead3(s[0], s[1]) && IsTail(s[2]) then
      Some((s[0] % 0x10 * 0x1000 + Low6(s[1]) * 0x40 + Low6(s[2]), 3))
    else if |s| >= 4 && Utf8Lead4(s[0], s[1]) && IsTail(s[2]) && IsTail(s[3]) then
      Some((s[0] % 0x08 * 0x4_0000 + Low6(s[1]) * 0x1000 + Low6(s[2]) * 0x40 + Low6(s[3]), 4))
    else None
  }

  predicate Utf8Lead3(a: Byte, b: Byte) {
    || (a == 0xE0 && 0xA0 <= b <= 0xBF)
    || (0xE1 <= a <= 0xEC && IsTail(b))
    || (a == 0xED && 0x80 <= b <= 0x9F)
    || (0xEE <= a <= 0xEF && IsTail(b))
  }

  predicate Utf8Lead4(a: Byte, b: Byte) {
    || (a == 0xF0 && 0x90 <= b <= 0xBF)
    || (0xF1 <= a <= 0xF3 && IsTail(b))
    || (a == 0xF4 && 0x80 <= b <= 0x8F)
  }

  /** The characters of a byte string; None exactly when it is not well-formed UTF-8. */
  function DecodeUtf8(s: seq<Byte>): Option<seq<CodePoint>>
    decreases |s|
  {
    if s == [] then Some([])
    else match DecodeChar(s)
      case None => None
      case Some((cp, n)) =>
        match DecodeUtf8(s[n..])
        case None => None
        case Some(rest) => Some([cp] + rest)
  }

  // ---------------------------------------------------------------- the converter

  /** The growing std::string of the converter. */
  class CppString {
    var data: seq<Byte>

    constructor ()
      ensures data == []
    {
      data := [];
    }

    method PushBack(b: Byte)
      modifies this
      ensures data == old(data) + [b]
    {
      data := data + [b];
    }
  }

  /** The bytes append_utf8 adds for one value; what they mean is DecodeUtf8Of and RawSurrogate. */
  function Utf8Of(cp: CodePoint): (bytes: seq<Byte>)
    ensures 1 <= |bytes| <= 4
    ensures cp <= 0xFFFF ==> |bytes| <= 3
  {
    if cp <= 0x7F then [cp]
    else if cp <= 0x7FF then [0xC0 + cp / 0x40, 0x80 + cp % 0x40]
    else if cp <= 0xFFFF then [0xE0 + cp / 0x1000, 0x80 + cp / 0x40 % 0x40, 0x80 + cp % 0x40]
    else [0xF0 + cp / 0x4_0000, 0x80 + cp / 0x1000 % 0x40, 0x80 + cp / 0x40 % 0x40, 0x80 + cp % 0x40]
  }

  function EncodeUtf8(cps: seq<CodePoint>): seq<Byte> {
    if cps == [] then [] else Utf8Of(cps[0]) + EncodeUtf8(cps[1..])
  }

  /** The converter's shifts, masks and ORs, on 32-bit words, are the divisions, remainders and sums
      used in this model: every OR joins disjoint bits. */
  lemma BitsAsArithmetic(cp: bv32)
    ensures 0x80 | (cp & 0x3F) == 0x80 + cp % 0x40
    ensures 0x80 | ((cp >> 6) & 0x3F) == 0x80 + cp / 0x40 % 0x40
    ensures 0x80 | ((cp >> 12) & 0x3F) == 0x80 + cp / 0x1000 % 0x40
    ensures cp <= 0x7FF ==> 0xC0 | (cp >> 6) == 0xC0 + cp / 0x40
    ensures cp <= 0xFFFF ==> 0xE0 | (cp >> 12) == 0xE0 + cp / 0x1000
    ensures cp <= 0x10FFFF ==> 0xF0 | (cp >> 18) == 0xF0 + cp / 0x4_0000
    ensures cp <= 0x3FF ==> cp << 10 == cp * 0x400
  {
  }

  method AppendUtf8(out: CppString, cp: CodePoint)
    modifies out
    ensures out.data == old(out.data) + Utf8Of(cp)
  {
    if cp <= 0x7F {
      out.PushBack(cp);
    } else if cp <= 0x7FF {
      out.PushBack(0xC0 + cp / 0x40);
      out.PushBack(0x80 + cp % 0x40);
    } else if cp <= 0xFFFF {
      out.PushBack(0xE0 + cp / 0x1000);
      out.PushBack(0x80 + cp / 0x40 % 0x40);
      out.PushBack(0x80 + cp % 0x40);
    } else {
      out.PushBack(0xF0 + cp / 0x4_0000);
      out.PushBack(0x80 + cp / 0x1000 % 0x40);
      out.PushBack(0x80 + cp / 0x40 % 0x40);
      out.PushBack(0x80 + cp % 0x40);
    }
  }

  /** What the converter emits for the units it reads: the scalar values of RFC 2781, except that a
      high surrogate in the last place has no unit to look ahead to and is emitted raw. */
  function Emitted(units: seq<Unit>): seq<CodePoint> {
    if EndsHigh(units) then Scalars(units[..|units| - 1]) + [units[|units| - 1]]
    else Scalars(units)
  }

  datatype ManagedString = ManagedString(length: int, chars: Option<seq<Unit>>)

  /** The runtime's own guarantee: the character buffer holds at least `length` units. */
  predicate Readable(s: ManagedString) {
    s.chars.Some? ==> s.length <= |s.chars.value|
  }

  /** The text of a string whose contents can be read. */
  function TextOf(units: seq<Unit>, maxUnits: nat): seq<Byte> {
    if |units| <= maxUnits then EncodeUtf8(Emitted(units))
    else EncodeUtf8(Emitted(units[..maxUnits])) + ELLIPSIS
  }

  /** The text of a string object: its contents when they can be read, otherwise a fixed notice. */
  function ManagedText(s: ManagedString, apiBound: bool, maxUnits: nat): seq<Byte>
    requires Readable(s)
  {
    if !apiBound then NO_API
    else if s.length <= 0 then []
    else if s.chars.None? then NULL_CHARS
    else TextOf(s.chars.value[..s.length], maxUnits)
  }

  /** These bytes spell this ASCII text. */
  predicate Spells(bytes: seq<Byte>, text: string) {
    |bytes| == |text| && forall i :: 0 <= i < |text| ==> bytes[i] == text[i] as int
  }

  /** The string object has exactly these units, at the start of a buffer that may be longer. */
  predicate HasUnits(s: ManagedString, units: seq<Unit>) {
    s.length == |units| && s.chars.Some? && units <= s.chars.value
  }

  method ToUtf8(s: Option<ManagedString>, apiBound: bool, maxUnits: nat) returns (r: seq<Byte>)
    requires s.Some? ==> Readable(s.value)
    ensures s.None? ==> Spells(r, "<null>")
    ensures s.Some? && !apiBound ==> Spells(r, "<string-api-unavailable>")
    ensures s.Some? && apiBound && s.value.length <= 0 ==> r == []
    ensures s.Some? && apiBound && s.value.length > 0 && s.value.chars.None? ==> Spells(r, "<null-chars>")
    ensures s.Some? && apiBound ==> forall units :: HasUnits(s.value, units) ==> r == TextOf(units, maxUnits)
    ensures r == if s.None? then NULL_STRING else ManagedText(s.value, apiBound, maxUnits)
  {
    Notices();
    if s.Some? && apiBound {
      forall units | HasUnits(s.value, units)
        ensures ManagedText(s.value, apiBound, maxUnits) == TextOf(units, maxUnits)
      {
        ManagedTextIs(s.value, units, maxUnits);
      }
    }
    if s.None? { return NULL_STRING; }
    if !apiBound { return NO_API; }
    var length := s.value.length;
    if length <= 0 { return []; }
    if s.value.chars.None? { return NULL_CHARS; }
    var chars := s.value.chars.value;
    var limit := if length <= maxUnits then length else maxUnits;
    assert chars[..length][..limit] == chars[..limit];
    r := Transcode(chars, limit);
    if length > limit { r := r + ELLIPSIS; }
    else { assert chars[..length] == chars[..limit]; }
  }

  lemma Notices()
    ensures Spells(NULL_STRING, "<null>")
    ensures Spells(NO_API, "<string-api-unavailable>")
    ensures Spells(NULL_CHARS, "<null-chars>")
    ensures Spells(ELLIPSIS, "...")
  {
  }

  /** A string object whose contents can be read gives the text of its units, whatever follows them in
      the buffer. */
  lemma ManagedTextIs(s: ManagedString, units: seq<Unit>, maxUnits: nat)
    requires HasUnits(s, units)
    ensures ManagedText(s, true, maxUnits) == TextOf(units, maxUnits)
  {
    assert s.chars.value[..s.length] == units;
    if units == [] {
      assert TextOf(units, maxUnits) == [];
    }
  }

  /** The value that one round of the loop emits, and how far it moves on. */
  method DecodeAt(chars: seq<Unit>, i: nat, limit: nat) returns (cp: CodePoint, width: nat)
    requires i < limit <= |chars|
    ensures var v := if i + 1 < limit then chars[i + 1] else 0;
            cp == Value(chars[i], i + 1 < limit, v) && width == Width(chars[i], i + 1 < limit, v)
  {
    cp, width := chars[i], 1;
    if 0xD800 <= cp <= 0xDBFF && i + 1 < limit {
      var low := chars[i + 1];
      if 0xDC00 <= low <= 0xDFFF {
        PairArithmetic(chars[i], low);
        cp := 0x10000 + (cp - 0xD800) * 0x400 + (low - 0xDC00);
        width := 2;
      } else {
        cp := REPLACEMENT;
      }
    } else if 0xDC00 <= cp <= 0xDFFF {
      cp := REPLACEMENT;
    }
  }

  /** The loop of to_utf8. */
  method Transcode(chars: seq<Unit>, limit: nat) returns (r: seq<Byte>)
    requires limit <= |chars|
    ensures r == EncodeUtf8(Emitted(chars[..limit]))
  {
    ghost var read := chars[..limit];
    ghost var all := EncodeUtf8(Emitted(read));
    ghost var rest := Emitted(read);  // what is still to be emitted
    var result := new CppString();
    var i := 0;
    assert read[0..] == read;
    while i < limit
      invariant 0 <= i <= limit
      invariant fresh(result)
      invariant rest == Emitted(read[i..])
      invariant result.data + EncodeUtf8(rest) == all
    {
      ghost var before := result.data;
      var cp, width := DecodeAt(chars, i, limit);
      EmittedFrom(read, i, if i + 1 < limit then chars[i + 1] else 0);
      rest := Emitted(read[i + width..]);
      EncodePrepend(before, cp, rest);
      AppendUtf8(result, cp);
      i := i + width;
    }
    r := result.data;
  }

  /** The value one round of the converter emits: u is the unit read, v the one after it if any. */
  function Value(u: Unit, more: bool, v: Unit): CodePoint {
    if IsHigh(u) && more then if IsLow(v) then Pair(u, v) else REPLACEMENT
    else if IsLow(u) then REPLACEMENT
    else u
  }

  /** The number of units that round uses up. */
  function Width(u: Unit, more: bool, v: Unit): nat {
    if IsHigh(u) && more && IsLow(v) then 2 else 1
  }

  /** The converter's sum of shifted differences is the bit concatenation of RFC 2781. */
  lemma PairArithmetic(high: Unit, low: Unit)
    ensures IsHigh(high) && IsLow(low) ==>
              Pair(high, low) == 0x10000 + (high - 0xD800) * 0x400 + (low - 0xDC00)
  {
  }

  lemma ScalarsStep(units: seq<Unit>, more: bool, v: Unit)
    requires units != [] && (|units| > 1 ==> more && v == units[1])
    requires |units| == 1 && IsHigh(units[0]) ==> more && !IsLow(v)
    ensures Scalars(units) == [Value(units[0], more, v)] + Scalars(units[Width(units[0], more, v)..])
  {
  }

  lemma EmittedStep(units: seq<Unit>, v: Unit)
    requires units != [] && (|units| > 1 ==> v == units[1])
    ensures var more := |units| > 1;
            Emitted(units) == [Value(units[0], more, v)] + Emitted(units[Width(units[0], more, v)..])
  {
    var n := Width(units[0], |units| > 1, v);
    var last := |units| - 1;
    if |units| > n {
      assert units[n..][last - n] == units[last];
      if EndsHigh(units) {
        var front := units[..last];
        assert front[n..] == units[n..][..last - n];
        ScalarsStep(front, true, v);
      } else {
        ScalarsStep(units, true, v);
      }
    }
  }

  lemma EncodePrepend(before: seq<Byte>, cp: CodePoint, rest: seq<CodePoint>)
    ensures before + EncodeUtf8([cp] + rest) == (before + Utf8Of(cp)) + EncodeUtf8(rest)
  {
  }

  lemma EmittedFrom(read: seq<Unit>, start: nat, v: Unit)
    requires start < |read| && (start + 1 < |read| ==> v == read[start + 1])
    ensures var more := start + 1 < |read|;
            Emitted(read[start..])
            == [Value(read[start], more, v)] + Emitted(read[start + Width(read[start], more, v)..])
  {
    var n := Width(read[start], start + 1 < |read|, v);
    EmittedStep(read[start..], v);
    assert read[start..][n..] == read[start + n..];
  }

  // ---------------------------------------------------------------- what the output means

  predicate AllScalar(cps: seq<CodePoint>) { forall i :: 0 <= i < |cps| ==> IsScalar(cps[i]) }

  lemma {:induction false} ScalarsAreScalar(units: seq<Unit>)
    ensures AllScalar(Scalars(units))
  {
    if units == [] {
    } else if IsHigh(units[0]) && |units| > 1 && IsLow(units[1]) {
      ScalarsAreScalar(units[2..]);
    } else {
      ScalarsAreScalar(units[1..]);
    }
  }

  lemma DecodeTwo(cp: CodePoint, s: seq<Byte>)
    requires 0x80 <= cp <= 0x7FF && |s| >= 2
    requires s[0] == 0xC0 + cp / 0x40 && s[1] == 0x80 + cp % 0x40
    ensures DecodeChar(s) == Some((cp, 2))
  {
  }

  lemma DecodeThree(cp: CodePoint, s: seq<Byte>)
    requires 0x800 <= cp <= 0xFFFF && IsScalar(cp) && |s| >= 3
    requires s[0] == 0xE0 + cp / 0x1000 && s[1] == 0x80 + cp / 0x40 % 0x40 && s[2] == 0x80 + cp % 0x40
    ensures DecodeChar(s) == Some((cp, 3))
  {
    assert s[0] % 0x10 == cp / 0x1000 && s[1] % 0x40 == cp / 0x40 % 0x40 && s[2] % 0x40 == cp % 0x40;
    assert cp == cp / 0x1000 * 0x1000 + cp / 0x40 % 0x40 * 0x40 + cp % 0x40;
    assert Utf8Lead3(s[0], s[1]);
  }

  lemma DecodeFour(cp: CodePoint, s: seq<Byte>)
    requires 0x10000 <= cp && |s| >= 4
    requires s[0] == 0xF0 + cp / 0x4_0000 && s[1] == 0x80 + cp / 0x1000 % 0x40
    requires s[2] == 0x80 + cp / 0x40 % 0x40 && s[3] == 0x80 + cp % 0x40
    ensures DecodeChar(s) == Some((cp, 4))
  {
    FourParts(cp);
    assert s[0] % 0x08 == cp / 0x4_0000 && s[1] % 0x40 == cp / 0x1000 % 0x40;
    assert s[2] % 0x40 == cp / 0x40 % 0x40 && s[3] % 0x40 == cp % 0x40;
  }

  lemma FourParts(cp: CodePoint)
    ensures cp == cp / 0x4_0000 * 0x4_0000 + cp / 0x1000 % 0x40 * 0x1000 + cp / 0x40 % 0x40 * 0x40 + cp % 0x40
    ensures cp >= 0x10000 ==> Utf8Lead4(0xF0 + cp / 0x4_0000, 0x80 + cp / 0x1000 % 0x40)
  {
    var a, b, c := cp / 0x40, cp / 0x1000, cp / 0x4_0000;
    assert cp == a * 0x40 + cp % 0x40 && a == b * 0x40 + a % 0x40 && b == c * 0x40 + b % 0x40;
  }

  /** Whatever follows, the bytes of a scalar value decode to it and to nothing longer or shorter. */
  lemma DecodeUtf8Of(cp: CodePoint, rest: seq<Byte>)
    requires IsScalar(cp)
    ensures DecodeChar(Utf8Of(cp) + rest) == Some((cp, |Utf8Of(cp)|))
  {
    var s := Utf8Of(cp) + rest;
    if cp <= 0x7F {
      assert s[0] == cp;
    } else if cp <= 0x7FF {
      DecodeTwo(cp, s);
    } else if cp <= 0xFFFF {
      DecodeThree(cp, s);
    } else {
      DecodeFour(cp, s);
    }
  }

  /** Whatever follows, the three bytes of a surrogate are refused by the grammar. */
  lemma RawSurrogate(cp: CodePoint, rest: seq<Byte>)
    requires !IsScalar(cp)
    ensures DecodeChar(Utf8Of(cp) + rest) == None
  {
  }

  function Prepend(cps: seq<CodePoint>, tail: Option<seq<CodePoint>>): Option<seq<CodePoint>> {
    if tail.Some? then Some(cps + tail.value) else None
  }

  lemma DecodeStep(cp: CodePoint, rest: seq<Byte>)
    requires IsScalar(cp)
    ensures DecodeUtf8(Utf8Of(cp) + rest) == Prepend([cp], DecodeUtf8(rest))
  {
    var head := Utf8Of(cp);
    DecodeUtf8Of(cp, rest);
    assert (head + rest)[|head|..] == rest;
  }

  lemma {:induction false} DecodeEncoded(cps: seq<CodePoint>, rest: seq<Byte>)
    requires AllScalar(cps)
    ensures DecodeUtf8(EncodeUtf8(cps) + rest) == Prepend(cps, DecodeUtf8(rest))
  {
    if cps == [] {
      assert EncodeUtf8(cps) + rest == rest;
      assert DecodeUtf8(rest).Some? ==> cps + DecodeUtf8(rest).value == DecodeUtf8(rest).value;
    } else {
      var tail := EncodeUtf8(cps[1..]) + rest;
      assert EncodeUtf8(cps) + rest == Utf8Of(cps[0]) + tail;
      DecodeStep(cps[0], tail);
      DecodeEncoded(cps[1..], rest);
      PrependPrepend([cps[0]], cps[1..], DecodeUtf8(rest));
      assert [cps[0]] + cps[1..] == cps;
    }
  }

  lemma PrependPrepend(a: seq<CodePoint>, b: seq<CodePoint>, tail: Option<seq<CodePoint>>)
    ensures Prepend(a, Prepend(b, tail)) == Prepend(a + b, tail)
  {
    if tail.Some? {
      assert a + (b + tail.value) == (a + b) + tail.value;
    }
  }

  lemma {:induction false} EncodeUtf8Concat(a: seq<CodePoint>, b: seq<CodePoint>)
    ensures EncodeUtf8(a + b) == EncodeUtf8(a) + EncodeUtf8(b)
  {
    if a == [] {
      assert a + b == b;
    } else {
      assert (a + b)[1..] == a[1..] + b;
      EncodeUtf8Concat(a[1..], b);
    }
  }

  /** The units that ToUtf8 looks at. */
  function Read(units: seq<Unit>, maxUnits: nat): seq<Unit> {
    if |units| <= maxUnits then units else units[..maxUnits]
  }

  function Mark(units: seq<Unit>, maxUnits: nat): seq<Byte> {
    if |units| <= maxUnits then [] else ELLIPSIS
  }

  /** The output is well-formed UTF-8 if and only if the last unit read is not a high surrogate, and
      then it says exactly what RFC 2781 says of the units read, followed by the truncation mark. */
  lemma OutputDecodes(units: seq<Unit>, maxUnits: nat)
    ensures var read := Read(units, maxUnits);
            DecodeUtf8(TextOf(units, maxUnits)) ==
            if EndsHigh(read) then None else Some(Scalars(read) + Mark(units, maxUnits))
  {
    var read, mark := Read(units, maxUnits), Mark(units, maxUnits);
    assert TextOf(units, maxUnits) == EncodeUtf8(Emitted(read)) + mark;
    MarkDecodes(units, maxUnits);
    if EndsHigh(read) {
      EmittedFails(read, mark);
    } else {
      ScalarsAreScalar(read);
      DecodeEncoded(Scalars(read), mark);
    }
  }

  lemma MarkDecodes(units: seq<Unit>, maxUnits: nat)
    ensures DecodeUtf8(Mark(units, maxUnits)) == Some(Mark(units, maxUnits))
  {
    var dot: CodePoint := 0x2E;
    assert EncodeUtf8([dot]) == [0x2E];
    EncodeUtf8Concat([dot], [dot]);
    EncodeUtf8Concat([dot, dot], [dot]);
    var cps: seq<CodePoint> := [dot, dot] + [dot];
    assert EncodeUtf8(cps) == ELLIPSIS && ELLIPSIS + [] == ELLIPSIS;
    DecodeEncoded(cps, []);
    assert cps + [] == ELLIPSIS;
  }

  lemma EmittedFails(read: seq<Unit>, rest: seq<Byte>)
    requires EndsHigh(read)
    ensures DecodeUtf8(EncodeUtf8(Emitted(read)) + rest) == None
  {
    var front, last: CodePoint := read[..|read| - 1], read[|read| - 1];
    assert EncodeUtf8([last]) == Utf8Of(last);
    EncodeUtf8Concat(Scalars(front), [last]);
    assert EncodeUtf8(Emitted(read)) + rest == EncodeUtf8(Scalars(front)) + (Utf8Of(last) + rest);
    ScalarsAreScalar(front);
    RawSurrogate(last, rest);
    DecodeEncoded(Scalars(front), Utf8Of(last) + rest);
  }

  lemma {:induction false} ScalarsSize(units: seq<Unit>)
    ensures |EncodeUtf8(Scalars(units))| <= 3 * |units|
  {
    if units == [] {
    } else if IsHigh(units[0]) && |units| > 1 && IsLow(units[1]) {
      ScalarsSize(units[2..]);
      assert Scalars(units)[1..] == Scalars(units[2..]);
    } else {
      ScalarsSize(units[1..]);
      assert Scalars(units)[1..] == Scalars(units[1..]);
    }
  }

  lemma OutputSize(units: seq<Unit>, maxUnits: nat)
    ensures |TextOf(units, maxUnits)| <= 3 * |Read(units, maxUnits)| + |Mark(units, maxUnits)|
    ensures |TextOf(units, maxUnits)| <= 3 * maxUnits + 3
  {
    EmittedSize(Read(units, maxUnits));
  }

  lemma EmittedSize(read: seq<Unit>)
    ensures |EncodeUtf8(Emitted(read))| <= 3 * |read|
  {
    if EndsHigh(read) {
      var front, last: CodePoint := read[..|read| - 1], read[|read| - 1];
      ScalarsSize(front);
      EncodeUtf8Concat(Scalars(front), [last]);
      assert EncodeUtf8([last]) == Utf8Of(last) && |Utf8Of(last)| <= 3;
    } else {
      ScalarsSize(read);
    }
  }

  // ---------------------------------------------------------------- when nothing is lost

  lemma Utf16OfPair(high: Unit, low: Unit)
    requires IsHigh(high) && IsLow(low)
    ensures Pair(high, low) >= 0x10000 && Utf16Of(Pair(high, low)) == [high, low]
  {
  }

  lemma LastOfRest(units: seq<Unit>, n: nat)
    requires n < |units|
    ensures EndsHigh(units[n..]) <==> EndsHigh(units)
  {
  }

  lemma {:induction false} WellFormedReencodes(units: seq<Unit>)
    requires WellFormed16(units)
    ensures EncodeUtf16(Scalars(units)) == units && !EndsHigh(units)
  {
    if units != [] {
      var n := if IsHigh(units[0]) then 2 else 1;
      WellFormedReencodes(units[n..]);
      if n == 2 {
        Utf16OfPair(units[0], units[1]);
      }
      assert units == units[..n] + units[n..] && Scalars(units)[1..] == Scalars(units[n..]);
      assert Utf16Of(Scalars(units)[0]) == units[..n];
      if n < |units| { LastOfRest(units, n); }
    }
  }

  lemma {:induction false} EncodingIsWellFormed(cps: seq<CodePoint>)
    requires AllScalar(cps)
    ensures WellFormed16(EncodeUtf16(cps))
  {
    if cps != [] {
      EncodingIsWellFormed(cps[1..]);
      var s, head := EncodeUtf16(cps), Utf16Of(cps[0]);
      assert s[..|head|] == head && s[|head|..] == EncodeUtf16(cps[1..]);
      assert s[0] == head[0] && (|head| > 1 ==> s[1] == head[1]);
    }
  }

  /** Reading the output back as UTF-8 and encoding it as UTF-16 gives the original string if and
      only if the string is well-formed UTF-16 (and is not truncated). */
  lemma LosslessIffWellFormed(units: seq<Unit>, maxUnits: nat)
    requires |units| <= maxUnits
    ensures var back := DecodeUtf8(TextOf(units, maxUnits));
            (back.Some? && EncodeUtf16(back.value) == units) <==> WellFormed16(units)
  {
    OutputDecodes(units, maxUnits);
    assert Scalars(units) + [] == Scalars(units);
    if WellFormed16(units) {
      WellFormedReencodes(units);
    } else if !EndsHigh(units) {
      ScalarsAreScalar(units);
      EncodingIsWellFormed(Scalars(units));
    }
  }

  /** Two different well-formed strings within the limit never have the same text. */
  lemma TextIsInjective(a: seq<Unit>, b: seq<Unit>, maxUnits: nat)
    requires |a| <= maxUnits && |b| <= maxUnits
    requires WellFormed16(a) && WellFormed16(b)
    requires TextOf(a, maxUnits) == TextOf(b, maxUnits)
    ensures a == b
  {
    LosslessIffWellFormed(a, maxUnits);
    LosslessIffWellFormed(b, maxUnits);
  }

  // ---------------------------------------------------------------- against the text of the standards

  lemma ScalarsUnfold(s: seq<Unit>, n: nat)
    requires s != [] && !IsLow(s[0]) && n == (if IsHigh(s[0]) then 2 else 1)
    requires IsHigh(s[0]) ==> |s| > 1 && IsLow(s[1])
    ensures |s| >= n && Scalars(s) == [if n == 2 then Pair(s[0], s[1]) else s[0]] + Scalars(s[n..])
  {
  }

  lemma {:induction false} AfterWellFormed(a: seq<Unit>, b: seq<Unit>)
    requires WellFormed16(a)
    ensures Scalars(a + b) == Scalars(a) + Scalars(b)
  {
    if a == [] {
      assert a + b == b;
    } else {
      var n, s := if IsHigh(a[0]) then 2 else 1, a + b;
      AfterWellFormed(a[n..], b);
      assert s[0] == a[0] && (n == 2 ==> s[1] == a[1]) && s[n..] == a[n..] + b;
      ScalarsUnfold(a, n);
      ScalarsUnfold(s, n);
      Regroup([if n == 2 then Pair(a[0], a[1]) else a[0]], Scalars(a[n..]), Scalars(b));
    }
  }

  lemma Regroup(a: seq<CodePoint>, b: seq<CodePoint>, c: seq<CodePoint>)
    ensures a + (b + c) == (a + b) + c
  {
  }

  /** After any well-formed text: a unit that is no surrogate stands for itself, a pair stands for the
      number of section 2.2 of RFC 2781, and a surrogate without its other half for U+FFFD, which takes up
      no further unit. */
  lemma ScalarsByParts(a: seq<Unit>, u: Unit, v: Unit, b: seq<Unit>)
    requires WellFormed16(a)
    ensures u < 0xD800 || u >= 0xE000 ==> Scalars(a + ([u, v] + b)) == Scalars(a) + ([u] + Scalars([v] + b))
    ensures 0xD800 <= u < 0xDC00 && 0xDC00 <= v < 0xE000 ==>
              Scalars(a + ([u, v] + b))
              == Scalars(a) + ([0x10000 + (u - 0xD800) * 0x400 + (v - 0xDC00)] + Scalars(b))
    ensures 0xD800 <= u < 0xDC00 && !(0xDC00 <= v < 0xE000) ==>
              Scalars(a + ([u, v] + b)) == Scalars(a) + ([0xFFFD] + Scalars([v] + b))
    ensures 0xDC00 <= u < 0xE000 ==> Scalars(a + ([u, v] + b)) == Scalars(a) + ([0xFFFD] + Scalars([v] + b))
    ensures 0xD800 <= u < 0xE000 ==> Scalars(a + [u]) == Scalars(a) + [0xFFFD]
  {
    var rest := [u, v] + b;
    AfterWellFormed(a, rest);
    AfterWellFormed(a, [u]);
    assert rest[1..] == [v] + b && rest[2..] == b && [u][1..] == [];
    if IsHigh(u) && IsLow(v) {
      PairArithmetic(u, v);
    }
  }

  /** The examples of section 7 of RFC 3629: A, not identical to, Alpha; three Korean and three Japanese
      characters; and one beyond the first plane. */
  lemma StandardExamples()
    ensures Utf8Of(0x41) == [0x41] && Utf8Of(0x391) == [0xCE, 0x91] && Utf8Of(0x2262) == [0xE2, 0x89, 0xA2]
    ensures Utf8Of(0xD55C) == [0xED, 0x95, 0x9C] && Utf8Of(0xAD6D) == [0xEA, 0xB5, 0xAD]
    ensures Utf8Of(0x65E5) == [0xE6, 0x97, 0xA5] && Utf8Of(0x233B4) == [0xF0, 0xA3, 0x8E, 0xB4]
    ensures Utf16Of(0x233B4) == [0xD84C, 0xDFB4]
    ensures DecodeChar([0xF0, 0xA3, 0x8E, 0xB4]) == Some((0x233B4, 4)) && DecodeChar([0xC0, 0x80]) == None
  {
  }

  lemma RawBytes(u: Unit)
    requires 0xD800 <= u < 0xDC00
    ensures Utf8Of(u) == [0xED, 0xA0 + (u - 0xD800) / 0x40, 0x80 + u % 0x40]
  {
    var d := u - 0xD800;
    assert u / 0x1000 == 0xD && u / 0x40 == 0x360 + d / 0x40;
    assert d / 0x40 < 0x10 && 0x360 % 0x40 == 0x20;
  }

  lemma EncodeOne(cp: CodePoint)
    ensures EncodeUtf8([cp]) == Utf8Of(cp)
  {
    assert [cp][1..] == [];
  }

  /** A high surrogate in the last place read goes out raw, as three bytes. */
  lemma RawLast(a: seq<Unit>, u: Unit, maxUnits: nat)
    requires 0xD800 <= u < 0xDC00 && |a| < maxUnits
    ensures TextOf(a + [u], maxUnits)
            == EncodeUtf8(Scalars(a)) + [0xED, 0xA0 + (u - 0xD800) / 0x40, 0x80 + u % 0x40]
  {
    EmittedRaw(a, u, Scalars(a));
    ShortText(a + [u], maxUnits, Scalars(a), u);
    RawBytes(u);
  }

  lemma ShortText(s: seq<Unit>, maxUnits: nat, cps: seq<CodePoint>, last: CodePoint)
    requires |s| <= maxUnits && Emitted(s) == cps + [last]
    ensures TextOf(s, maxUnits) == EncodeUtf8(cps) + Utf8Of(last)
  {
    EncodeUtf8Concat(cps, [last]);
    EncodeOne(last);
  }

  lemma EmittedRaw(a: seq<Unit>, u: Unit, cps: seq<CodePoint>)
    requires 0xD800 <= u < 0xDC00 && cps == Scalars(a)
    ensures Emitted(a + [u]) == cps + [u]
  {
    var s := a + [u];
    assert s[|s| - 1] == u && s[..|s| - 1] == a;
  }
}
