/** The three regular expressions of symbolize_log.py that read the lines of an IL2CPP dump, as exact
    scanners, each against the grammar that the expression states. */
module DumpLines {
  import opened Wrappers
  import opened Numerals
  import opened PyText

  // ---------------------------------------------------------------- blanks

  lemma {:induction false} LStripMeans(s: string)
    ensures var n := |s| - |LStrip(s)|;
            0 <= n && LStrip(s) == s[n..] && AllSpace(s[..n]) && (LStrip(s) == "" || !IsSpace(LStrip(s)[0]))
  {
    if s != [] && IsSpace(s[0]) {
      LStripMeans(s[1..]);
      var n := |s| - |LStrip(s)|;
      assert s[1..][n - 1..] == s[n..];
      assert forall i :: 0 < i < n ==> s[..n][i] == s[1..][..n - 1][i - 1];
    }
  }

  lemma {:induction false} LStripSkips(gap: string, s: string)
    requires AllSpace(gap)
    ensures LStrip(gap + s) == LStrip(s)
  {
    if gap == [] {
      assert gap + s == s;
    } else {
      assert (gap + s)[1..] == gap[1..] + s;
      LStripSkips(gap[1..], s);
    }
  }

  lemma {:induction false} RStripSkips(s: string, gap: string)
    requires AllSpace(gap)
    ensures RStrip(s + gap) == RStrip(s)
  {
    if gap == [] {
      assert s + gap == s;
    } else {
      assert (s + gap)[..|s + gap| - 1] == s + gap[..|gap| - 1];
      RStripSkips(s, gap[..|gap| - 1]);
    }
  }

  /** A text after optional blanks. */
  function After(s: string, prefix: string): Option<string> {
    if prefix <= s then Some(LStrip(s[|prefix|..])) else None
  }

  lemma AfterMeans(s: string, prefix: string, gap: string, rest: string)
    requires s == prefix + gap + rest && AllSpace(gap) && (rest == "" || !IsSpace(rest[0]))
    ensures After(s, prefix) == Some(rest)
  {
    assert s == prefix + (gap + rest) && s[|prefix|..] == gap + rest;
    LStripSkips(gap, rest);
  }

  lemma AfterSplits(s: string, prefix: string) returns (gap: string)
    requires prefix <= s
    ensures After(s, prefix).Some? && AllSpace(gap) && s == prefix + gap + After(s, prefix).value
    ensures var rest := After(s, prefix).value; rest == "" || !IsSpace(rest[0])
  {
    var tail := s[|prefix|..];
    LStripMeans(tail);
    gap := tail[..|tail| - |LStrip(tail)|];
  }

  // ---------------------------------------------------------------- NAMESPACE_RE

  /** The group of NAMESPACE_RE on a line without a newline at its end. */
  function NamespaceMatch(line: string): Option<string> {
    match After(line, "//")
    case None => None
    case Some(rest) =>
      match After(rest, "Namespace:")
      case None => None
      case Some(name) => if '\n' in name then None else Some(name)
  }

  /** Two slashes, blanks, the word, blanks, and one line of anything. */
  ghost predicate NamespaceReads(line: string, gap: string, blanks: string, name: string) {
    && line == "//" + gap + ("Namespace:" + blanks + name)
    && AllSpace(gap) && AllSpace(blanks) && (name == "" || !IsSpace(name[0])) && '\n' !in name
  }

  lemma NamespaceMeans(line: string, name: string)
    ensures NamespaceMatch(line) == Some(name) <==> exists gap, blanks :: NamespaceReads(line, gap, blanks, name)
  {
    if NamespaceMatch(line) == Some(name) {
      var gap := AfterSplits(line, "//");
      var blanks := AfterSplits(After(line, "//").value, "Namespace:");
      assert NamespaceReads(line, gap, blanks, name);
    }
    if gap, blanks :| NamespaceReads(line, gap, blanks, name) {
      var rest := "Namespace:" + blanks + name;
      assert rest[0] == 'N';
      AfterMeans(line, "//", gap, rest);
      AfterMeans(rest, "Namespace:", blanks, name);
    }
  }

  // ---------------------------------------------------------------- RVA_RE

  /** The number in RVA_RE when it matches at the start of a text. */
  function RvaHere(s: string, wide: char -> bool): Option<nat> {
    match After(s, "//")
    case None => None
    case Some(tagged) =>
      match After(tagged, "RVA:")
      case None => None
      case Some(number) => HexHere(number, wide)
  }

  function HexHere(s: string, wide: char -> bool): Option<nat> {
    if !("0x" <= s) then None
    else
      var e := HexEnd(s, 2);
      if e > 2 && EndsWord(s, e, wide) then Some(ParseHex(s[2..e])) else None
  }

  /** RVA_RE.search */
  function RvaMatch(s: string, wide: char -> bool): Option<nat> {
    if s == "" then None
    else if RvaHere(s, wide).Some? then RvaHere(s, wide)
    else RvaMatch(s[1..], wide)
  }

  /** Hexadecimal digits and then no word character. */
  ghost predicate HexReads(s: string, digits: string, after: string, wide: char -> bool) {
    s == "0x" + digits + after && digits != "" && AllHex(digits) && (after == "" || !IsWord(after[0], wide))
  }

  ghost predicate RvaReads(s: string, gap: string, blanks: string, digits: string, after: string, wide: char -> bool) {
    && AllSpace(gap) && AllSpace(blanks)
    && s == "//" + gap + ("RVA:" + blanks + ("0x" + digits + after))
    && HexReads("0x" + digits + after, digits, after, wide)
  }

  lemma HexMeans(s: string, digits: string, after: string, wide: char -> bool)
    requires HexReads(s, digits, after, wide)
    ensures HexHere(s, wide) == Some(ParseHex(digits))
  {
    var e := 2 + |digits|;
    assert s[2..e] == digits && s[e..] == after;
    assert "0x" <= s;
    HexEndIs(s, 2, e, wide);
  }

  lemma HexSplits(s: string, wide: char -> bool) returns (digits: string, after: string)
    requires HexHere(s, wide).Some?
    ensures HexReads(s, digits, after, wide) && HexHere(s, wide).value == ParseHex(digits)
  {
    var e := HexEnd(s, 2);
    digits, after := s[2..e], s[e..];
    assert s == s[..2] + digits + after;
  }

  lemma RvaHereMeans(s: string, n: nat, wide: char -> bool)
    ensures RvaHere(s, wide) == Some(n)
            <==> exists gap, blanks, digits, after :: RvaReads(s, gap, blanks, digits, after, wide) && n == ParseHex(digits)
  {
    if RvaHere(s, wide) == Some(n) {
      var gap := AfterSplits(s, "//");
      var tagged := After(s, "//").value;
      var blanks := AfterSplits(tagged, "RVA:");
      var digits, after := HexSplits(After(tagged, "RVA:").value, wide);
      assert RvaReads(s, gap, blanks, digits, after, wide);
    }
    if gap, blanks, digits, after :| RvaReads(s, gap, blanks, digits, after, wide) && n == ParseHex(digits) {
      RvaReadsHere(s, gap, blanks, digits, after, wide);
    }
  }

  lemma RvaReadsHere(s: string, gap: string, blanks: string, digits: string, after: string, wide: char -> bool)
    requires RvaReads(s, gap, blanks, digits, after, wide)
    ensures RvaHere(s, wide) == Some(ParseHex(digits))
  {
    var number := "0x" + digits + after;
    var tagged := "RVA:" + blanks + number;
    assert number[0] == '0' && tagged[0] == 'R';
    AfterMeans(s, "//", gap, tagged);
    AfterMeans(tagged, "RVA:", blanks, number);
    HexMeans(number, digits, after, wide);
  }

  /** The search gives the number of the leftmost place that reads as an RVA comment, and nothing iff
      there is none. */
  lemma {:induction false} RvaMeans(s: string, wide: char -> bool)
    ensures RvaMatch(s, wide).None? <==> forall i :: 0 <= i < |s| ==> RvaHere(s[i..], wide).None?
    ensures RvaMatch(s, wide).Some? ==> exists i :: FirstRva(s, i, RvaMatch(s, wide), wide)
  {
    if s != "" {
      assert s[0..] == s;
      RvaMeans(s[1..], wide);
      forall i | 0 < i < |s| ensures s[i..] == s[1..][i - 1..] {
      }
      forall i | 0 <= i < |s| - 1 ensures s[1..][i..] == s[i + 1..] {
      }
      if RvaHere(s, wide).Some? {
        assert FirstRva(s, 0, RvaMatch(s, wide), wide);
      } else if RvaMatch(s, wide).Some? {
        var i :| FirstRva(s[1..], i, RvaMatch(s, wide), wide);
        assert FirstRva(s, i + 1, RvaMatch(s, wide), wide);
      }
    }
  }

  /** The leftmost place that reads as an RVA comment is i. */
  ghost predicate FirstRva(s: string, i: int, r: Option<nat>, wide: char -> bool) {
    0 <= i < |s| && RvaHere(s[i..], wide) == r && forall j :: 0 <= j < i ==> RvaHere(s[j..], wide).None?
  }

  // ---------------------------------------------------------------- TYPE_RE

  const ACCESS := {"public", "private", "protected", "internal"}
  const MODIFIERS := {"static", "sealed", "abstract", "partial"}
  const KINDS := {"class", "struct", "interface", "enum"}

  lemma PlainWords()
    ensures forall w :: w in ACCESS ==> w != "" && NoSpace(w)
    ensures forall w :: w in MODIFIERS ==> w != "" && NoSpace(w)
    ensures forall w :: w in KINDS ==> w != "" && NoSpace(w)
  {
  }

  lemma WordsApart(w: string)
    ensures w in KINDS ==> w !in MODIFIERS
    ensures w in MODIFIERS + KINDS ==> w !in ACCESS
  {
  }

  /** The text up to the first blank. */
  function Word(s: string): (w: string)
    ensures w <= s && NoSpace(w)
    ensures |w| < |s| ==> IsSpace(s[|w|])
  {
    if s == "" || IsSpace(s[0]) then "" else [s[0]] + Word(s[1..])
  }

  lemma WordIs(w: string, rest: string)
    requires NoSpace(w) && rest != "" && IsSpace(rest[0])
    ensures Word(w + rest) == w && (w + rest)[|w|..] == rest
  {
  }

  /** What follows the modifiers and the keyword. */
  function AfterKind(s: string): Option<string>
    decreases |s|
  {
    var w := Word(s);
    if |w| == |s| then None
    else if w in MODIFIERS then
      LStripMeans(s[|w|..]);
      AfterKind(LStrip(s[|w|..]))
    else if w in KINDS then Some(s[|w|..])
    else None
  }

  function AfterHead(s: string): Option<string> {
    var w := Word(s);
    if w in ACCESS && |w| < |s| then AfterKind(LStrip(s[|w|..])) else AfterKind(s)
  }

  predicate Stops(c: char) { c == ':' || c == '{' }

  function StopAt(s: string): (p: nat)
    ensures p <= |s| && (p < |s| ==> Stops(s[p]))
    ensures forall i :: 0 <= i < p ==> !Stops(s[i])
  {
    if s == "" || Stops(s[0]) then 0 else 1 + StopAt(s[1..])
  }

  /** The group of TYPE_RE in what follows the keyword. Where no name stands before the colon, one of two
      blanks is the group. */
  function NameIn(after: string): Option<string> {
    LStripMeans(after);
    var body := LStrip(after);
    var blanks := |after| - |body|;
    var p := StopAt(body);
    if blanks == 0 || (p < |body| && body[p] == '{') then None
    else if p > 0 then Some(RStrip(body[..p]))
    else if blanks >= 2 then Some(after[blanks - 1..blanks])
    else None
  }

  /** The group of TYPE_RE on a line without blanks around it. */
  function TypeMatch(s: string): Option<string> {
    var after := AfterHead(s);
    if after.None? then None else NameIn(after.value)
  }

  /** Modifiers, each with blanks after it, and the keyword. */
  ghost predicate KindHead(h: string)
    decreases |h|
  {
    h in KINDS || exists m, gap, rest :: ModifierThen(h, m, gap, rest) && KindHead(rest)
  }

  ghost predicate ModifierThen(h: string, m: string, gap: string, rest: string)
    ensures ModifierThen(h, m, gap, rest) ==> |rest| < |h|
  {
    h == m + (gap + rest) && m in MODIFIERS && gap != "" && AllSpace(gap)
  }

  ghost predicate AccessThen(h: string, a: string, gap: string, rest: string) {
    h == a + (gap + rest) && a in ACCESS && gap != "" && AllSpace(gap)
  }

  /** The same, with an access modifier in front or without. */
  ghost predicate Head(h: string) {
    KindHead(h) || exists a, gap, rest :: AccessThen(h, a, gap, rest) && KindHead(rest)
  }

  /** Blanks, a name without a colon or a brace, blanks, and a colon or the end. */
  ghost predicate NameReads(after: string, gap: string, name: string, blanks: string, tail: string) {
    && after == gap + (name + blanks + tail)
    && gap != "" && AllSpace(gap) && AllSpace(blanks)
    && name != "" && (forall i :: 0 <= i < |name| ==> !Stops(name[i]))
    && (tail == "" || tail[0] == ':')
  }

  ghost predicate TypeReads(s: string, head: string, gap: string, name: string, blanks: string, tail: string) {
    && s == head + (gap + (name + blanks + tail)) && Head(head)
    && NameReads(gap + (name + blanks + tail), gap, name, blanks, tail)
  }

  lemma KindHeadStarts(h: string)
    requires KindHead(h)
    ensures h != "" && !IsSpace(h[0])
  {
  }

  /** After one word and blanks comes the rest. */
  lemma WordThen(s: string, w: string, gap: string, rest: string)
    requires s == w + (gap + rest) && NoSpace(w) && gap != "" && AllSpace(gap)
    requires rest != "" && !IsSpace(rest[0])
    ensures Word(s) == w && |w| < |s| && LStrip(s[|w|..]) == rest
  {
    WordIs(w, gap + rest);
    LStripSkips(gap, rest);
  }

  lemma KindSkipped(h: string, rest: string)
    requires h in KINDS && rest != "" && IsSpace(rest[0])
    ensures AfterKind(h + rest) == Some(rest) && Word(h + rest) == h
  {
    PlainWords();
    WordsApart(h);
    WordIs(h, rest);
  }

  lemma ModifierSkipped(s: string, m: string, gap: string, rest: string)
    requires s == m + (gap + rest) && m in MODIFIERS && gap != "" && AllSpace(gap)
    requires rest != "" && !IsSpace(rest[0])
    ensures AfterKind(s) == AfterKind(rest) && Word(s) == m
  {
    PlainWords();
    WordThen(s, m, gap, rest);
  }

  lemma Regrouped(h: string, m: string, gap: string, inner: string, rest: string)
    requires h == m + (gap + inner)
    ensures h + rest == m + (gap + (inner + rest))
  {
  }

  lemma {:induction false} KindHeadSkipped(h: string, rest: string)
    requires KindHead(h) && rest != "" && IsSpace(rest[0])
    ensures AfterKind(h + rest) == Some(rest)
    ensures Word(h + rest) in MODIFIERS + KINDS
    decreases |h|
  {
    if h in KINDS {
      KindSkipped(h, rest);
    } else {
      var m, gap, inner :| ModifierThen(h, m, gap, inner) && KindHead(inner);
      KindHeadStarts(inner);
      Regrouped(h, m, gap, inner, rest);
      ModifierSkipped(h + rest, m, gap, inner + rest);
      KindHeadSkipped(inner, rest);
    }
  }

  lemma AccessSkipped(s: string, a: string, gap: string, rest: string)
    requires s == a + (gap + rest) && a in ACCESS && gap != "" && AllSpace(gap)
    requires rest != "" && !IsSpace(rest[0])
    ensures AfterHead(s) == AfterKind(rest)
  {
    PlainWords();
    WordThen(s, a, gap, rest);
  }

  lemma HeadSkipped(h: string, rest: string)
    requires Head(h) && rest != "" && IsSpace(rest[0])
    ensures AfterHead(h + rest) == Some(rest)
  {
    if KindHead(h) {
      KindHeadSkipped(h, rest);
      WordsApart(Word(h + rest));
    } else {
      var a, gap, inner :| AccessThen(h, a, gap, inner) && KindHead(inner);
      KindHeadStarts(inner);
      Regrouped(h, a, gap, inner, rest);
      AccessSkipped(h + rest, a, gap, inner + rest);
      KindHeadSkipped(inner, rest);
    }
  }

  /** The blanks in front of a text and what follows them. */
  lemma BlanksOf(tail: string) returns (gap: string)
    requires tail != "" && IsSpace(tail[0])
    ensures gap != "" && AllSpace(gap) && tail == gap + LStrip(tail)
  {
    LStripMeans(tail);
    gap := tail[..|tail| - |LStrip(tail)|];
  }

  lemma {:induction false} KindHeadOf(s: string) returns (h: string)
    requires AfterKind(s).Some?
    ensures KindHead(h) && s == h + AfterKind(s).value
    decreases |s|
  {
    var w := Word(s);
    if w in MODIFIERS {
      var gap := BlanksOf(s[|w|..]);
      var rest := KindHeadOf(LStrip(s[|w|..]));
      h := w + (gap + rest);
      assert ModifierThen(h, w, gap, rest);
      Rejoin(s, w, gap, rest, AfterKind(s).value);
    } else {
      h := w;
    }
  }

  lemma Rejoin(s: string, w: string, gap: string, rest: string, after: string)
    requires w <= s && s[|w|..] == gap + (rest + after)
    ensures s == w + (gap + rest) + after
  {
  }

  lemma HeadOf(s: string) returns (h: string)
    requires AfterHead(s).Some?
    ensures Head(h) && s == h + AfterHead(s).value
  {
    var w := Word(s);
    if w in ACCESS && |w| < |s| {
      h := AccessHeadOf(s, w);
    } else {
      h := KindHeadOf(s);
    }
  }

  lemma AccessHeadOf(s: string, w: string) returns (h: string)
    requires w == Word(s) && w in ACCESS && |w| < |s| && AfterKind(LStrip(s[|w|..])).Some?
    ensures Head(h) && s == h + AfterKind(LStrip(s[|w|..])).value
  {
    var gap := BlanksOf(s[|w|..]);
    var rest := KindHeadOf(LStrip(s[|w|..]));
    h := w + (gap + rest);
    assert AccessThen(h, w, gap, rest);
    Rejoin(s, w, gap, rest, AfterKind(LStrip(s[|w|..])).value);
  }

  lemma StopIs(a: string, tail: string)
    requires (forall i :: 0 <= i < |a| ==> !Stops(a[i])) && (tail == "" || Stops(tail[0]))
    ensures StopAt(a + tail) == |a|
  {
    var s := a + tail;
    assert tail != "" ==> s[|a|] == tail[0];
  }

  lemma StripConcat(a: string, blanks: string)
    requires AllSpace(blanks)
    ensures Strip(a + blanks) == Strip(a)
  {
    LStripMeans(a);
    var n := |a| - |LStrip(a)|;
    assert a + blanks == a[..n] + (LStrip(a) + blanks);
    LStripSkips(a[..n], LStrip(a) + blanks);
    if LStrip(a) == "" {
      assert "" + blanks == blanks == blanks + "";
      LStripSkips(blanks, "");
    } else {
      assert (LStrip(a) + blanks)[0] == LStrip(a)[0];
      RStripSkips(LStrip(a), blanks);
    }
  }

  /** Every way to read the name is recognised, and is the name found up to the blanks around it. */
  lemma NameFound(after: string, gap: string, name: string, blanks: string, tail: string)
    requires NameReads(after, gap, name, blanks, tail)
    ensures NameIn(after).Some? && Strip(NameIn(after).value) == Strip(name)
  {
    var text := name + blanks;
    LStripMeans(text);
    var n := |text| - |LStrip(text)|;
    var lead, rest := gap + text[..n], LStrip(text);
    assert forall i :: 0 <= i < |text| ==> !Stops(text[i]);
    assert after == lead + (rest + tail);
    LStripSkips(lead, rest + tail);
    StripConcat(name, blanks);
    StopIs(rest, tail);
    if rest == "" {
      assert rest + tail == tail && LStrip(tail) == tail;
      assert n == |text| >= 1 && |lead| >= 2;
      BlankName(after, lead, tail);
      assert Strip(name) == Strip(text) == RStrip("");
    } else {
      assert (rest + tail)[0] == rest[0];
      assert (rest + tail)[..|rest|] == rest;
      StripAgain(rest);
    }
  }

  lemma BlankName(after: string, lead: string, tail: string)
    requires after == lead + tail && |lead| >= 2 && AllSpace(lead) && LStrip(after) == tail
    requires tail == "" || tail[0] == ':'
    ensures NameIn(after).Some? && Strip(NameIn(after).value) == ""
  {
    var one := after[|lead| - 1..|lead|];
    assert IsSpace(one[0]) && one[1..] == "";
    assert LStrip(one) == LStrip("") == "";
  }

  lemma {:induction false} RStripKeeps(s: string)
    requires s != "" && !IsSpace(s[0])
    ensures RStrip(s) != "" && RStrip(s)[0] == s[0]
  {
    if IsSpace(s[|s| - 1]) {
      RStripKeeps(s[..|s| - 1]);
    }
  }

  lemma StripAgain(s: string)
    requires s != "" && !IsSpace(s[0])
    ensures Strip(RStrip(s)) == RStrip(s)
  {
  }

  lemma NameSplits(after: string) returns (gap: string, blanks: string, tail: string)
    requires NameIn(after).Some?
    ensures NameReads(after, gap, NameIn(after).value, blanks, tail)
  {
    LStripMeans(after);
    var body := LStrip(after);
    var n := |after| - |body|;
    if StopAt(body) > 0 {
      gap := after[..n];
      blanks, tail := BodySplits(body);
      NamedReads(after, gap, body, RStrip(body[..StopAt(body)]), blanks, tail);
    } else {
      gap, blanks, tail := after[..n - 1], "", body;
      BlankSplits(after, n);
    }
  }

  lemma NamedReads(after: string, gap: string, body: string, name: string, blanks: string, tail: string)
    requires after == gap + body && body == name + blanks + tail && gap != "" && AllSpace(gap) && AllSpace(blanks)
    requires name != "" && (forall i :: 0 <= i < |name| ==> !Stops(name[i])) && (tail == "" || tail[0] == ':')
    ensures NameReads(after, gap, name, blanks, tail)
  {
  }

  lemma BodySplits(body: string) returns (blanks: string, tail: string)
    requires StopAt(body) > 0 && !IsSpace(body[0])
    ensures var p := StopAt(body);
            var name := RStrip(body[..p]);
            && tail == body[p..] && AllSpace(blanks) && body == name + blanks + tail
            && name != "" && (forall i :: 0 <= i < |name| ==> !Stops(name[i]))
  {
    var text := body[..StopAt(body)];
    RStripMeans(text);
    RStripKeeps(text);
    blanks, tail := text[|RStrip(text)|..], body[StopAt(body)..];
    assert text == RStrip(text) + blanks && body == text + tail;
    assert forall i :: 0 <= i < |text| ==> text[i] == body[i];
  }

  lemma BlankSplits(after: string, n: nat)
    requires 2 <= n <= |after| && AllSpace(after[..n])
    ensures after == after[..n - 1] + (after[n - 1..n] + "" + after[n..])
    ensures AllSpace(after[..n - 1]) && IsSpace(after[n - 1])
  {
  }

  /** TYPE_RE matches exactly the lines that its grammar reads, and every way to read one gives the same
      name up to the blanks around it. */
  lemma TypeMeans(s: string)
    ensures TypeMatch(s).Some? <==> exists head, gap, name, blanks, tail :: TypeReads(s, head, gap, name, blanks, tail)
    ensures forall head, gap, name, blanks, tail :: TypeReads(s, head, gap, name, blanks, tail) ==>
              TypeMatch(s).Some? && Strip(TypeMatch(s).value) == Strip(name)
  {
    if TypeMatch(s).Some? {
      var head := HeadOf(s);
      var gap, blanks, tail := NameSplits(AfterHead(s).value);
      assert TypeReads(s, head, gap, TypeMatch(s).value, blanks, tail);
    }
    forall head, gap, name, blanks, tail | TypeReads(s, head, gap, name, blanks, tail)
      ensures TypeMatch(s).Some? && Strip(TypeMatch(s).value) == Strip(name)
    {
      HeadSkipped(head, gap + (name + blanks + tail));
      NameFound(gap + (name + blanks + tail), gap, name, blanks, tail);
    }
  }
}
