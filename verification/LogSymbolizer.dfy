/** symbolize_lines of symbolize_log.py: it finds a call site in each log line, looks its address up
    and appends the method names, unless the line is annotated already. */
module LogSymbolizer {
  import opened Wrappers
  import opened Numerals
  import opened PyText
  import opened Sorting
  import opened DumpParser
  import opened RvaIndex

  const CALLSITE := "pc=libil2cpp.so+0x"
  const OPENING := "[managed="

  // ---------------------------------------------------------------- CALLSITE_RE

  /** The expression matches from i, and its group ends at e. */
  predicate CallsiteAt(s: string, i: nat, e: nat, wide: char -> bool) {
    && i + |CALLSITE| < e <= |s| && s[i..i + |CALLSITE|] == CALLSITE
    && AllHex(s[i + |CALLSITE|..e]) && EndsWord(s, e, wide)
  }

  /** CALLSITE_RE.search, from position i on. */
  function FindCallsite(s: string, i: nat, wide: char -> bool): (r: Option<(nat, nat)>)
    requires i <= |s|
    ensures r.Some? ==> CallsiteAt(s, r.value.0, r.value.1, wide) && i <= r.value.0
    decreases |s| - i
  {
    if |s| - i <= |CALLSITE| then None
    else
      var e := HexEnd(s, i + |CALLSITE|);
      if CallsiteAt(s, i, e, wide) then Some((i, e)) else FindCallsite(s, i + 1, wide)
  }

  lemma GroupIsMaximal(s: string, i: nat, e: nat, wide: char -> bool)
    requires CallsiteAt(s, i, e, wide)
    ensures e == HexEnd(s, i + |CALLSITE|)
  {
    HexEndIs(s, i + |CALLSITE|, e, wide);
  }

  /** The search returns the leftmost match, and nothing exactly when there is none. */
  lemma {:induction false} FindCallsiteMeans(s: string, i: nat, wide: char -> bool)
    requires i <= |s|
    ensures FindCallsite(s, i, wide).None? <==> forall j: nat, e: nat :: i <= j ==> !CallsiteAt(s, j, e, wide)
    ensures forall j: nat, e: nat :: i <= j && CallsiteAt(s, j, e, wide) ==>
              FindCallsite(s, i, wide).Some? && FindCallsite(s, i, wide).value.0 <= j
    decreases |s| - i
  {
    forall e: nat | CallsiteAt(s, i, e, wide) ensures e == HexEnd(s, i + |CALLSITE|) {
      GroupIsMaximal(s, i, e, wide);
    }
    if |s| - i > |CALLSITE| {
      FindCallsiteMeans(s, i + 1, wide);
    }
  }

  /** A match and no match to its left is what the search returns. */
  lemma FoundAt(s: string, i: nat, e: nat, wide: char -> bool)
    requires CallsiteAt(s, i, e, wide)
    requires forall j: nat, f: nat :: j < i ==> !CallsiteAt(s, j, f, wide)
    ensures FindCallsite(s, 0, wide) == Some((i, e))
  {
    FindCallsiteMeans(s, 0, wide);
    GroupIsMaximal(s, i, e, wide);
    var r := FindCallsite(s, 0, wide).value;
    GroupIsMaximal(s, r.0, r.1, wide);
  }

  // ---------------------------------------------------------------- ANNOTATION_RE

  /** White space, the opening, at least one character but no bracket up to the closing bracket at e,
      and nothing but white space after it. */
  predicate AnnotationAt(s: string, a: nat, e: nat) {
    && a + 10 < e < |s| && IsSpace(s[a]) && s[a + 1..a + 10] == OPENING
    && s[e] == ']' && ']' !in s[a + 10..e] && AllSpace(s[e + 1..])
  }

  predicate HasAnnotation(s: string) {
    exists a: nat, e: nat | a < |s| && e < |s| :: AnnotationAt(s, a, e)
  }

  // ---------------------------------------------------------------- the tool

  function Annotation(resolved: string): string { " [managed=" + resolved + "]" }

  /** The address in a call site. */
  function AddressAt(line: string, hit: (nat, nat), wide: char -> bool): nat
    requires CallsiteAt(line, hit.0, hit.1, wide)
  {
    ParseHex(line[hit.0 + |CALLSITE|..hit.1])
  }

  /** The line, without its newline, after the tool. */
  function Symbolized(line: string, methods: seq<Method>, maxOffset: int, wide: char -> bool): string {
    var hit := FindCallsite(line, 0, wide);
    if hit.None? || HasAnnotation(line) then line
    else
      match Lookup(methods, AddressAt(line, hit.value, wide), maxOffset)
      case None => line
      case Some(resolved) => line + Annotation(resolved)
  }

  function SymbolizedLog(lines: seq<string>, methods: seq<Method>, maxOffset: int, wide: char -> bool): (r: seq<string>)
    ensures |r| == |lines|
  {
    seq(|lines|, i requires 0 <= i < |lines| => Symbolized(RStripNewlines(lines[i]), methods, maxOffset, wide) + "\n")
  }

  method SymbolizeLine(line: string, index: Index, maxOffset: int, wide: char -> bool) returns (r: string)
    requires index.Valid()
    ensures r == Symbolized(line, index.methods, maxOffset, wide)
  {
    r := line;
    var hit := FindCallsite(line, 0, wide);
    if hit.Some? && !HasAnnotation(line) {
      var address := AddressAt(line, hit.value, wide);
      var resolved := index.Resolve(address, maxOffset);
      if resolved.Some? && resolved.value != "" {
        r := r + (" [managed=" + resolved.value + "]");
      }
    }
  }

  method SymbolizeLines(lines: seq<string>, index: Index, maxOffset: int, wide: char -> bool) returns (out: seq<string>)
    requires index.Valid()
    ensures out == SymbolizedLog(lines, index.methods, maxOffset, wide)
  {
    out := [];
    for i := 0 to |lines|
      invariant |out| == i
      invariant forall k :: 0 <= k < i ==> out[k] == SymbolizedLog(lines, index.methods, maxOffset, wide)[k]
    {
      var line := SymbolizeLine(RStripNewlines(lines[i]), index, maxOffset, wide);
      out := out + [line + "\n"];
    }
  }

  // ---------------------------------------------------------------- what every line keeps

  /** Line count and order are kept, and each line is its input line plus at most one annotation. */
  lemma LinesKept(lines: seq<string>, methods: seq<Method>, maxOffset: int, wide: char -> bool, i: nat)
    requires i < |lines|
    ensures var out := SymbolizedLog(lines, methods, maxOffset, wide);
            && |out| == |lines|
            && (out[i] == RStripNewlines(lines[i]) + "\n"
                || exists r :: out[i] == RStripNewlines(lines[i]) + Annotation(r) + "\n")
  {
  }

  // ---------------------------------------------------------------- idempotence

  /** The tool recognises the annotation it makes of this text. */
  predicate SelfRecognised(resolved: string) {
    || ']' !in resolved
    || exists k | 0 <= k < |resolved| - 10 ::
         IsSpace(resolved[k]) && resolved[k + 1..k + 10] == OPENING && ']' !in resolved[k + 10..]
  }

  lemma AnnotationChars(line: string, resolved: string)
    ensures var s := line + Annotation(resolved);
            && |s| == |line| + |resolved| + 11 && s[|s| - 1] == ']'
            && s[|line|] == ' ' && s[|line| + 1..|line| + 10] == OPENING
            && s[|line| + 10..|s| - 1] == resolved
            && forall i :: |line| < i < |line| + 10 ==> !IsSpace(s[i]) && s[i] != ']'
  {
  }

  lemma OwnAnnotationFound(line: string, resolved: string)
    requires resolved != "" && SelfRecognised(resolved)
    ensures HasAnnotation(line + Annotation(resolved))
  {
    var s := line + Annotation(resolved);
    AnnotationChars(line, resolved);
    if ']' !in resolved {
      assert AnnotationAt(s, |line|, |s| - 1);
    } else {
      var k :| 0 <= k < |resolved| - 10 && IsSpace(resolved[k]) && resolved[k + 1..k + 10] == OPENING
        && ']' !in resolved[k + 10..];
      InnerAnnotation(s, |line| + 10, resolved, k);
    }
  }

  lemma InnerAnnotation(s: string, start: nat, resolved: string, k: nat)
    requires |s| == start + |resolved| + 1 && s[start..|s| - 1] == resolved && s[|s| - 1] == ']'
    requires k < |resolved| - 10 && IsSpace(resolved[k]) && resolved[k + 1..k + 10] == OPENING
    requires ']' !in resolved[k + 10..]
    ensures HasAnnotation(s)
  {
    var e := |s| - 1;
    assert s[start + k] == s[start..e][k];
    SliceOfSlice(s, start, e, k + 1, k + 10);
    SliceOfSlice(s, start, e, k + 10, |resolved|);
    assert resolved[k + 10..] == resolved[k + 10..|resolved|];
    assert AnnotationAt(s, start + k, e);
  }

  lemma BracketLast(s: string, a: nat, f: nat)
    requires AnnotationAt(s, a, f) && s[|s| - 1] == ']'
    ensures f == |s| - 1
  {
  }

  lemma FoundAnnotationIsOwn(line: string, resolved: string)
    requires resolved != "" && HasAnnotation(line + Annotation(resolved))
    ensures SelfRecognised(resolved)
  {
    var s := line + Annotation(resolved);
    AnnotationChars(line, resolved);
    var a: nat, f: nat :| a < |s| && f < |s| && AnnotationAt(s, a, f);
    BracketLast(s, a, f);
    OpeningPlace(s, |line|, a);
    OwnBody(s, |line|, resolved, a);
  }

  lemma NoBracketIn(s: string, i: nat, j: nat, e: nat)
    requires i <= j <= e <= |s| && ']' !in s[i..e]
    ensures ']' !in s[j..e]
  {
    forall k | j <= k < e ensures s[k] != ']' { assert s[k] == s[i..e][k - i]; }
  }

  lemma OwnBody(s: string, n: nat, resolved: string, a: nat)
    requires |s| == n + |resolved| + 11 && s[n + 10..|s| - 1] == resolved
    requires AnnotationAt(s, a, |s| - 1) && (a <= n || a >= n + 10)
    ensures SelfRecognised(resolved)
  {
    var e, start := |s| - 1, n + 10;
    if a <= n {
      NoBracketIn(s, a + 10, start, e);
    } else {
      var k := a - start;
      assert s[a] == s[start..e][k];
      SliceOfSlice(s, start, e, k + 1, k + 10);
      SliceOfSlice(s, start, e, k + 10, |resolved|);
      assert resolved[k + 10..] == resolved[k + 10..|resolved|];
      assert k < |resolved| - 10 && IsSpace(resolved[k]) && resolved[k + 1..k + 10] == OPENING
             && ']' !in resolved[k + 10..];
    }
  }

  /** The tool finds its own annotation at the end of a line if and only if the text is
      self-recognised; what stands before it does not matter. */
  lemma RecognisedIff(line: string, resolved: string)
    requires resolved != ""
    ensures HasAnnotation(line + Annotation(resolved)) <==> SelfRecognised(resolved)
  {
    if SelfRecognised(resolved) {
      OwnAnnotationFound(line, resolved);
    }
    if HasAnnotation(line + Annotation(resolved)) {
      FoundAnnotationIsOwn(line, resolved);
    }
  }

  /** An opening cannot straddle the blank in front of another. */
  lemma OpeningPlace(s: string, n: nat, a: nat)
    requires a + 10 < |s| && n + 10 < |s| && IsSpace(s[a]) && s[a + 1..a + 10] == OPENING
    requires s[n] == ' ' && forall i :: n < i < n + 10 ==> !IsSpace(s[i]) && s[i] != ']'
    ensures a <= n || a >= n + 10
    ensures a < n ==> a + 10 <= n
  {
  }

  /** Appending an annotation neither adds nor moves the first call site of a line that has one. */
  lemma CallsiteStays(line: string, resolved: string, wide: char -> bool)
    requires FindCallsite(line, 0, wide).Some?
    ensures FindCallsite(line + Annotation(resolved), 0, wide) == FindCallsite(line, 0, wide)
    ensures var hit := FindCallsite(line, 0, wide).value;
            AddressAt(line + Annotation(resolved), hit, wide) == AddressAt(line, hit, wide)
  {
    var s := line + Annotation(resolved);
    var (i, e) := FindCallsite(line, 0, wide).value;
    AnnotationChars(line, resolved);
    FindCallsiteMeans(line, 0, wide);
    SameCallsite(line, s, i, e, wide);
    forall j: nat, f: nat | j < i ensures !CallsiteAt(s, j, f, wide) {
      if CallsiteAt(s, j, f, wide) {
        WithinLine(line, s, j, f, wide);
        SameCallsite(line, s, j, f, wide);
      }
    }
    FoundAt(s, i, e, wide);
    PrefixSlice(line, s, i + |CALLSITE|, e);
  }

  lemma SameCallsite(line: string, s: string, i: nat, e: nat, wide: char -> bool)
    requires line < s && s[|line|] == ' ' && e <= |line|
    ensures CallsiteAt(s, i, e, wide) <==> CallsiteAt(line, i, e, wide)
  {
    if i + |CALLSITE| < e {
      PrefixSlice(line, s, i, i + |CALLSITE|);
      PrefixSlice(line, s, i + |CALLSITE|, e);
    }
  }

  /** No call site reaches across a blank. */
  lemma WithinLine(line: string, s: string, i: nat, e: nat, wide: char -> bool)
    requires line < s && s[|line|] == ' ' && i < |line| && CallsiteAt(s, i, e, wide)
    ensures e <= |line|
  {
  }

  /** What the tool appends to a line, if anything. */
  function Resolution(line: string, methods: seq<Method>, maxOffset: int, wide: char -> bool): Option<string> {
    var hit := FindCallsite(line, 0, wide);
    if hit.None? || HasAnnotation(line) then None
    else Lookup(methods, AddressAt(line, hit.value, wide), maxOffset)
  }

  /** A second pass leaves a line alone if and only if the first one appended nothing or an annotation
      that the tool recognises. */
  lemma SecondPassIff(line: string, methods: seq<Method>, maxOffset: int, wide: char -> bool)
    ensures var once := Symbolized(line, methods, maxOffset, wide);
            var r := Resolution(line, methods, maxOffset, wide);
            Symbolized(once, methods, maxOffset, wide) == once <==> (r.None? || SelfRecognised(r.value))
  {
    var r := Resolution(line, methods, maxOffset, wide);
    if r.Some? {
      CallsiteStays(line, r.value, wide);
      RecognisedIff(line, r.value);
    }
  }

  lemma RestHasNoNewline(line: string, methods: seq<Method>, maxOffset: int, wide: char -> bool)
    requires line == [] || line[|line| - 1] != '\n'
    ensures RStripNewlines(Symbolized(line, methods, maxOffset, wide) + "\n") == Symbolized(line, methods, maxOffset, wide)
  {
  }

  ghost predicate Idempotent(log: seq<string>, methods: seq<Method>, maxOffset: int, wide: char -> bool) {
    var once := SymbolizedLog(log, methods, maxOffset, wide);
    SymbolizedLog(once, methods, maxOffset, wide) == once
  }

  /** A second pass over a log changes nothing if and only if every annotation the first one made is
      self-recognised. */
  lemma LogIdempotentIff(log: seq<string>, methods: seq<Method>, maxOffset: int, wide: char -> bool)
    ensures Idempotent(log, methods, maxOffset, wide)
            <==> forall i :: 0 <= i < |log| ==>
                   var r := Resolution(RStripNewlines(log[i]), methods, maxOffset, wide);
                   r.None? || SelfRecognised(r.value)
  {
    var once := SymbolizedLog(log, methods, maxOffset, wide);
    var twice := SymbolizedLog(once, methods, maxOffset, wide);
    forall i | 0 <= i < |log|
      ensures twice[i] == once[i] <==>
                var r := Resolution(RStripNewlines(log[i]), methods, maxOffset, wide);
                r.None? || SelfRecognised(r.value)
    {
      var line := RStripNewlines(log[i]);
      var first := Symbolized(line, methods, maxOffset, wide);
      RestHasNoNewline(line, methods, maxOffset, wide);
      SecondPassIff(line, methods, maxOffset, wide);
      var second := Symbolized(first, methods, maxOffset, wide);
      assert twice[i] == second + "\n" && once[i] == first + "\n";
      assert (second + "\n")[..|second|] == second && (first + "\n")[..|first|] == first;
    }
  }

  /** The log with one bare call site at the given address. */
  lemma BareHasNoSpace(line: string, address: nat)
    requires line == CALLSITE + Hex(address)
    ensures forall k :: 0 <= k < |line| ==> !IsSpace(line[k])
  {
    var digits := Hex(address);
    assert forall k :: 0 <= k < |CALLSITE| ==> line[k] == CALLSITE[k] && !IsSpace(CALLSITE[k]);
    assert forall k :: |CALLSITE| <= k < |line| ==> line[k] == digits[k - |CALLSITE|];
  }

  lemma NoSpaceBare(line: string)
    requires line != "" && forall k :: 0 <= k < |line| ==> !IsSpace(line[k])
    ensures !HasAnnotation(line) && RStripNewlines(line) == line
  {
  }

  lemma BareCallsite(address: nat, wide: char -> bool)
    ensures var line := CALLSITE + Hex(address);
            && FindCallsite(line, 0, wide) == Some((0, |line|))
            && AddressAt(line, (0, |line|), wide) == address
            && !HasAnnotation(line) && RStripNewlines(line) == line
  {
    var line := CALLSITE + Hex(address);
    assert line[0..|CALLSITE|] == CALLSITE && line[|CALLSITE|..|line|] == Hex(address);
    FoundAt(line, 0, |line|, wide);
    ParseHexOfHex(address);
    BareHasNoSpace(line, address);
    NoSpaceBare(line);
  }

  lemma BareLogDecides(methods: seq<Method>, maxOffset: int, q: nat, wide: char -> bool)
    requires Lookup(methods, q, maxOffset).Some? && Idempotent([CALLSITE + Hex(q)], methods, maxOffset, wide)
    ensures SelfRecognised(Lookup(methods, q, maxOffset).value)
  {
    var log := [CALLSITE + Hex(q)];
    BareCallsite(q, wide);
    LogIdempotentIff(log, methods, maxOffset, wide);
    assert Resolution(RStripNewlines(log[0]), methods, maxOffset, wide) == Lookup(methods, q, maxOffset);
  }

  /** The tool is idempotent on every log if and only if every text the index can give is
      self-recognised. */
  lemma IdempotentOnEveryLogIff(methods: seq<Method>, maxOffset: int, wide: char -> bool)
    ensures (forall log :: Idempotent(log, methods, maxOffset, wide))
            <==> forall q: nat :: Lookup(methods, q, maxOffset).Some? ==>
                   SelfRecognised(Lookup(methods, q, maxOffset).value)
  {
    if forall log :: Idempotent(log, methods, maxOffset, wide) {
      forall q: nat | Lookup(methods, q, maxOffset).Some? ensures SelfRecognised(Lookup(methods, q, maxOffset).value) {
        assert Idempotent([CALLSITE + Hex(q)], methods, maxOffset, wide);
        BareLogDecides(methods, maxOffset, q, wide);
      }
    } else {
      var log :| !Idempotent(log, methods, maxOffset, wide);
      LogIdempotentIff(log, methods, maxOffset, wide);
    }
  }

  // ---------------------------------------------------------------- in terms of the names

  /** The opening of an annotation stands at k, after a blank, and no bracket closes after it. */
  predicate OpensAt(s: string, k: nat) {
    k + 10 <= |s| && IsSpace(s[k]) && s[k + 1..k + 10] == OPENING && ']' !in s[k + 10..]
  }

  ghost predicate Opens(s: string) { exists k: nat :: OpensAt(s, k) }

  /** No bracket closes in these names, or the last one that does stands before an opening in its name. */
  ghost predicate NamesRecognised(names: seq<string>) {
    (forall i :: 0 <= i < |names| ==> ']' !in names[i]) || LastOpens(names)
  }

  ghost predicate LastOpens(names: seq<string>) {
    exists j :: 0 <= j < |names| && Opens(names[j]) && forall i :: j < i < |names| ==> ']' !in names[i]
  }

  /** A bar or a plus sign is no part of an opening. */
  lemma OpeningSplits(a: string, b: string, k: nat)
    requires b != "" && (b[0] == '|' || b[0] == '+')
    ensures OpensAt(a + b, k) <==> (OpensAt(a, k) && ']' !in b) || (k > |a| && OpensAt(b, k - |a|))
  {
    var s := a + b;
    if k + 10 <= |a| {
      assert s[k + 1..k + 10] == a[k + 1..k + 10] && s[k + 10..] == a[k + 10..] + b;
    } else if k > |a| && k + 10 <= |s| {
      assert s[k + 1..k + 10] == b[k - |a| + 1..k - |a| + 10] && s[k + 10..] == b[k - |a| + 10..];
    } else if k + 10 <= |s| && k < |a| {
      assert s[k + 1..k + 10][|a| - k - 1] == b[0];
    }
  }

  lemma OpensConcat(a: string, b: string)
    requires b != "" && (b[0] == '|' || b[0] == '+')
    ensures Opens(a + b) <==> (Opens(a) && ']' !in b) || Opens(b)
  {
    forall k: nat
      ensures OpensAt(a + b, k) <==> (OpensAt(a, k) && ']' !in b) || (k > |a| && OpensAt(b, k - |a|))
    {
      OpeningSplits(a, b, k);
    }
    if k: nat :| OpensAt(b, k) {
      assert OpensAt(a + b, |a| + k);
    }
  }

  lemma OpensAfterBar(s: string)
    ensures Opens("|" + s) <==> Opens(s)
  {
    forall k: nat ensures OpensAt(s, k) <==> OpensAt("|" + s, k + 1) {
      if k + 10 <= |s| {
        assert ("|" + s)[k + 2..k + 11] == s[k + 1..k + 10] && ("|" + s)[k + 11..] == s[k + 10..];
      }
    }
    if k: nat :| OpensAt("|" + s, k) {
      assert k > 0 && OpensAt(s, k - 1);
    }
  }

  lemma {:induction false} JoinBrackets(names: seq<string>)
    ensures ']' !in Join(names, "|") <==> forall i :: 0 <= i < |names| ==> ']' !in names[i]
  {
    if |names| > 1 {
      JoinBrackets(names[1..]);
      assert ']' !in "|";
      assert forall i :: 0 < i < |names| ==> names[i] == names[1..][i - 1];
    }
  }

  lemma LastOpensStep(names: seq<string>)
    requires names != []
    ensures LastOpens(names)
            <==> LastOpens(names[1..]) || (Opens(names[0]) && forall i :: 0 <= i < |names[1..]| ==> ']' !in names[1..][i])
  {
  }

  lemma {:induction false} JoinOpens(names: seq<string>)
    ensures Opens(Join(names, "|")) <==> LastOpens(names)
  {
    if names == [] {
      assert Join(names, "|") == "";
    } else {
      LastOpensStep(names);
      if |names| > 1 {
        var rest := Join(names[1..], "|");
        JoinOpens(names[1..]);
        JoinBrackets(names[1..]);
        assert names[0] + "|" + rest == names[0] + ("|" + rest);
        OpensConcat(names[0], "|" + rest);
        OpensAfterBar(rest);
      }
    }
  }

  /** The names that an answer for this start address shows. */
  function Shown(methods: seq<Method>, start: nat): seq<string> {
    var names := Names(methods, start);
    if |names| <= 3 then names else names[..3]
  }

  /** What follows the names in an answer. */
  function Tail(names: seq<string>, offset: nat): string {
    (if |names| <= 3 then "" else "|+" + Decimal(|names| - 3) + " more") + "+0x" + Hex(offset)
  }

  lemma TailHasNone(names: seq<string>, offset: nat)
    ensures var t := Tail(names, offset);
            ']' !in t && '[' !in t && t != "" && (t[0] == '|' || t[0] == '+')
  {
  }

  /** What follows the names neither opens nor closes a bracket. */
  lemma TailIgnored(shown: string, tail: string)
    requires ']' !in tail && '[' !in tail && tail != "" && (tail[0] == '|' || tail[0] == '+')
    ensures SelfRecognised(shown + tail) <==> ']' !in shown || Opens(shown)
  {
    var s := shown + tail;
    forall k: nat ensures !OpensAt(tail, k) {
      if k + 10 <= |tail| { assert tail[k + 1..k + 10][0] == tail[k + 1]; }
    }
    forall k: nat ensures OpensAt(s, k) <==> OpensAt(shown, k) { OpeningSplits(shown, tail, k); }
    if ']' in shown && Opens(shown) {
      var k: nat :| OpensAt(shown, k);
      assert OpensAt(s, k) && k < |s| - 10;
    }
    if ']' in shown && SelfRecognised(s) {
      var k :| 0 <= k < |s| - 10 && IsSpace(s[k]) && s[k + 1..k + 10] == OPENING && ']' !in s[k + 10..];
      assert OpensAt(s, k);
    }
  }

  lemma AnswerParts(methods: seq<Method>, q: nat, maxOffset: int)
    requires Lookup(methods, q, maxOffset).Some?
    ensures Start(methods, q).Some?
    ensures var s := Start(methods, q).value;
            Lookup(methods, q, maxOffset).value == Join(Shown(methods, s), "|") + Tail(Names(methods, s), q - s)
  {
    var s := Start(methods, q).value;
    RenderedParts(Names(methods, s), q - s);
  }

  lemma RenderedParts(names: seq<string>, offset: nat)
    ensures Rendered(names) + "+0x" + Hex(offset)
            == Join(if |names| <= 3 then names else names[..3], "|") + Tail(names, offset)
  {
    if |names| <= 3 {
      Regroup(Join(names, "|"), "", "", "", "+0x", Hex(offset));
    } else {
      Regroup(Join(names[..3], "|"), "|+", Decimal(|names| - 3), " more", "+0x", Hex(offset));
    }
  }

  lemma Regroup(a: string, b: string, c: string, d: string, e: string, f: string)
    ensures a + b + c + d + e + f == a + (b + c + d + e + f)
  {
  }

  /** Whether the tool recognises an answer depends on the names it shows and not on the offset. */
  lemma AnswerRecognised(methods: seq<Method>, q: nat, maxOffset: int)
    requires Lookup(methods, q, maxOffset).Some?
    ensures Start(methods, q).Some?
    ensures SelfRecognised(Lookup(methods, q, maxOffset).value)
            <==> NamesRecognised(Shown(methods, Start(methods, q).value))
  {
    AnswerParts(methods, q, maxOffset);
    var start := Start(methods, q).value;
    TailHasNone(Names(methods, start), q - start);
    NamesDecide(Shown(methods, start), Tail(Names(methods, start), q - start));
  }

  lemma NamesDecide(shown: seq<string>, tail: string)
    requires ']' !in tail && '[' !in tail && tail != "" && (tail[0] == '|' || tail[0] == '+')
    ensures SelfRecognised(Join(shown, "|") + tail) <==> NamesRecognised(shown)
  {
    TailIgnored(Join(shown, "|"), tail);
    JoinBrackets(shown);
    JoinOpens(shown);
  }

  /** Whatever the names are, the tool is idempotent on every log if and only if, for each address at
      which a method starts, the names shown have no closing bracket or have an annotation's opening
      after the last one. */
  lemma IdempotentIffNamesRecognised(methods: seq<Method>, maxOffset: nat, wide: char -> bool)
    ensures (forall log :: Idempotent(log, methods, maxOffset, wide))
            <==> forall m :: m in methods ==> NamesRecognised(Shown(methods, m.rva))
  {
    IdempotentOnEveryLogIff(methods, maxOffset, wide);
    forall q: nat | Lookup(methods, q, maxOffset).Some?
      ensures SelfRecognised(Lookup(methods, q, maxOffset).value)
              <==> NamesRecognised(Shown(methods, Start(methods, q).value))
      ensures HasRva(methods, Start(methods, q).value)
    {
      AnswerRecognised(methods, q, maxOffset);
      StartMeans(methods, q);
      assert IsStart(methods, q, Start(methods, q).value);
    }
    forall m | m in methods ensures Start(methods, m.rva) == Some(m.rva) {
      StartMeans(methods, m.rva);
      assert IsStart(methods, m.rva, m.rva);
    }
  }

  /** In particular, method names without a closing bracket are enough. */
  lemma NoBracketsSuffice(methods: seq<Method>, maxOffset: int, log: seq<string>, wide: char -> bool)
    requires forall m :: m in methods ==> ']' !in m.qualifiedName
    ensures Idempotent(log, methods, maxOffset, wide)
  {
    forall q: nat | Lookup(methods, q, maxOffset).Some?
      ensures SelfRecognised(Lookup(methods, q, maxOffset).value)
    {
      AnswerRecognised(methods, q, maxOffset);
      var start := Start(methods, q).value;
      var shown := Shown(methods, start);
      NamesMean(methods, start);
      forall i | 0 <= i < |shown| ensures ']' !in shown[i] {
        assert shown[i] in Names(methods, start) && Method(start, shown[i]) in methods;
      }
    }
    IdempotentOnEveryLogIff(methods, maxOffset, wide);
  }

  lemma ShownOfOne(rva: nat, name: string)
    ensures Shown([Method(rva, name)], rva) == [name]
  {
    var methods := [Method(rva, name)];
    assert methods[..0] == [] && NamesOf(methods[..0], rva) == [];
    assert NamesOf(methods, rva) == [name];
    assert [name][..0] == [] && SortedDistinct(StringLess, [name][..0]) == [];
    assert Names(methods, rva) == Insert(StringLess, [], name);
  }

  /** A dump with one method: some log is annotated twice exactly when the name has a closing bracket and
      no opening after the last one. */
  lemma BracketNameRepeats(rva: nat, name: string, maxOffset: nat, wide: char -> bool)
    ensures (exists log :: !Idempotent(log, [Method(rva, name)], maxOffset, wide)) <==> ']' in name && !Opens(name)
  {
    var methods := [Method(rva, name)];
    ShownOfOne(rva, name);
    assert methods[0] in methods;
    IdempotentIffNamesRecognised(methods, maxOffset, wide);
    assert NamesRecognised([name]) <==> ']' !in name || Opens(name) by {
      assert [name][0] == name;
      if Opens(name) { assert Opens([name][0]); }
    }
  }

  // ---------------------------------------------------------------- the tool in plain text

  /** A call site and its hexadecimal address, between i and e. */
  predicate PlainCallsite(s: string, i: nat, e: nat, wide: char -> bool) {
    && i + 18 < e <= |s| && s[i..i + 18] == "pc=libil2cpp.so+0x"
    && (forall k :: i + 18 <= k < e ==> s[k] in "0123456789abcdefABCDEF")
    && (e == |s| || !IsWord(s[e], wide))
  }

  /** The line ends in an annotation: a blank, the opening, some text without a closing bracket, the bracket
      and blanks. */
  ghost predicate PlainAnnotation(s: string, a: nat, e: nat) {
    && a + 10 < e < |s| && IsSpace(s[a]) && s[a + 1..a + 10] == "[managed="
    && s[e] == ']' && (forall k :: a + 10 <= k < e ==> s[k] != ']') && (forall k :: e < k < |s| ==> IsSpace(s[k]))
  }

  lemma CallsiteIsPlain(s: string, i: nat, e: nat, wide: char -> bool)
    ensures CallsiteAt(s, i, e, wide) <==> PlainCallsite(s, i, e, wide)
  {
    if i + 18 < e <= |s| {
      forall k | i + 18 <= k < e ensures IsHexDigit(s[k]) <==> s[k] in "0123456789abcdefABCDEF" { OnlyDigits(s[k]); }
      assert forall k :: i + 18 <= k < e ==> s[k] == s[i + 18..e][k - i - 18];
    }
  }

  lemma AnnotationIsPlain(s: string, a: nat, e: nat)
    ensures AnnotationAt(s, a, e) <==> PlainAnnotation(s, a, e)
  {
    if a + 10 < e < |s| {
      assert forall k :: a + 10 <= k < e ==> s[k] == s[a + 10..e][k - a - 10];
      assert forall k :: e < k < |s| ==> s[k] == s[e + 1..][k - e - 1];
    }
  }

  lemma NoCallsiteStays(line: string, methods: seq<Method>, maxOffset: int, wide: char -> bool)
    requires forall i: nat, e: nat :: !PlainCallsite(line, i, e, wide)
    ensures Symbolized(line, methods, maxOffset, wide) == line
  {
    forall i: nat, e: nat ensures !CallsiteAt(line, i, e, wide) {
      CallsiteIsPlain(line, i, e, wide);
    }
    FindCallsiteMeans(line, 0, wide);
  }

  lemma AnnotatedStays(line: string, methods: seq<Method>, maxOffset: int, wide: char -> bool, a: nat, e: nat)
    requires PlainAnnotation(line, a, e)
    ensures Symbolized(line, methods, maxOffset, wide) == line
  {
    AnnotationIsPlain(line, a, e);
    assert HasAnnotation(line);
  }

  lemma NotAnnotated(line: string)
    requires forall a: nat, f: nat :: !PlainAnnotation(line, a, f)
    ensures !HasAnnotation(line)
  {
    forall a: nat, e: nat ensures !AnnotationAt(line, a, e) {
      AnnotationIsPlain(line, a, e);
    }
  }

  lemma LeftmostFound(line: string, i: nat, e: nat, wide: char -> bool)
    requires PlainCallsite(line, i, e, wide) && forall j: nat, f: nat :: j < i ==> !PlainCallsite(line, j, f, wide)
    ensures FindCallsite(line, 0, wide) == Some((i, e)) && CallsiteAt(line, i, e, wide)
  {
    CallsiteIsPlain(line, i, e, wide);
    forall j: nat, f: nat | j < i ensures !CallsiteAt(line, j, f, wide) {
      CallsiteIsPlain(line, j, f, wide);
    }
    FoundAt(line, i, e, wide);
  }

  lemma CallsiteNamed(line: string, methods: seq<Method>, maxOffset: int, wide: char -> bool, i: nat, e: nat)
    requires PlainCallsite(line, i, e, wide) && forall j: nat, f: nat :: j < i ==> !PlainCallsite(line, j, f, wide)
    requires forall a: nat, f: nat :: !PlainAnnotation(line, a, f)
    ensures AllHex(line[i + 18..e])
    ensures Symbolized(line, methods, maxOffset, wide)
            == match Lookup(methods, ValueOf(line[i + 18..e], 16), maxOffset)
               case None => line
               case Some(resolved) => line + " [managed=" + resolved + "]"
  {
    NotAnnotated(line);
    LeftmostFound(line, i, e, wide);
    ParseHexMeans(line[i + 18..e]);
    var found := Lookup(methods, ValueOf(line[i + 18..e], 16), maxOffset);
    if found.Some? {
      AnnotationText(line, found.value);
    }
  }

  /** The tool adds the names of an address to a line exactly when the line has a call site, is not annotated
      and the address has an answer; the address is that of the leftmost call site, and what it adds is a
      blank and the answer in brackets. */
  lemma SymbolizedMeans(line: string, methods: seq<Method>, maxOffset: int, wide: char -> bool)
    ensures (forall i: nat, e: nat :: !PlainCallsite(line, i, e, wide)) ==>
              Symbolized(line, methods, maxOffset, wide) == line
    ensures (exists a: nat, e: nat :: PlainAnnotation(line, a, e)) ==>
              Symbolized(line, methods, maxOffset, wide) == line
    ensures forall i: nat, e: nat ::
              && PlainCallsite(line, i, e, wide)
              && (forall j: nat, f: nat :: j < i ==> !PlainCallsite(line, j, f, wide))
              && (forall a: nat, f: nat :: !PlainAnnotation(line, a, f)) ==>
                AllHex(line[i + 18..e])
                && Symbolized(line, methods, maxOffset, wide)
                   == match Lookup(methods, ValueOf(line[i + 18..e], 16), maxOffset)
                      case None => line
                      case Some(resolved) => line + " [managed=" + resolved + "]"
  {
    if forall i: nat, e: nat :: !PlainCallsite(line, i, e, wide) {
      NoCallsiteStays(line, methods, maxOffset, wide);
    }
    if a: nat, e: nat :| PlainAnnotation(line, a, e) {
      AnnotatedStays(line, methods, maxOffset, wide, a, e);
    }
    forall i: nat, e: nat |
      && PlainCallsite(line, i, e, wide)
      && (forall j: nat, f: nat :: j < i ==> !PlainCallsite(line, j, f, wide))
      && (forall a: nat, f: nat :: !PlainAnnotation(line, a, f))
      ensures AllHex(line[i + 18..e])
      ensures Symbolized(line, methods, maxOffset, wide)
              == match Lookup(methods, ValueOf(line[i + 18..e], 16), maxOffset)
                 case None => line
                 case Some(resolved) => line + " [managed=" + resolved + "]"
    {
      CallsiteNamed(line, methods, maxOffset, wide, i, e);
    }
  }

  lemma AnnotationText(line: string, resolved: string)
    ensures line + Annotation(resolved) == line + " [managed=" + resolved + "]"
  {
  }
}
