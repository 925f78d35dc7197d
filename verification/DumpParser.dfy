/** parse_dump of symbolize_log.py: a line-by-line state machine that pairs each RVA comment of an
    IL2CPP dump with the declaration that follows it. */
module DumpParser {
  import opened Wrappers
  import opened DumpLines
  import opened PyText
  import opened Sorting

  /** A line without its newline, and the captures of NAMESPACE_RE, TYPE_RE and RVA_RE on it. */
  datatype Line = Line(text: string, namespaceMatch: Option<string>, typeMatch: Option<string>, rvaMatch: Option<nat>)

  function Read(raw: string, wide: char -> bool): Line {
    var text := RStripNewlines(raw);
    Line(text, NamespaceMatch(text), TypeMatch(Strip(text)), RvaMatch(text, wide))
  }

  function ReadAll(raw: seq<string>, wide: char -> bool): (lines: seq<Line>)
    ensures |lines| == |raw|
  {
    seq(|raw|, i requires 0 <= i < |raw| => Read(raw[i], wide))
  }

  datatype Method = Method(rva: nat, qualifiedName: string)

  /** The order of the dataclass: by address, then by name. */
  predicate MethodLess(a: Method, b: Method) {
    a.rva < b.rva || (a.rva == b.rva && StringLess(a.qualifiedName, b.qualifiedName))
  }

  lemma MethodOrder()
    ensures StrictTotal(MethodLess)
  {
    StringOrder();
  }

  const KEYWORDS := {"if", "for", "while", "switch", "catch"}
  const UNKNOWN_TYPE := "<unknown-type>"

  // ---------------------------------------------------------------- the name in a declaration

  function MethodName(line: string): Option<string> {
    var stripped := Strip(line);
    if stripped == [] || "//" <= stripped || "[" <= stripped || '(' !in stripped then None
    else
      var prefix := RStrip(Before(stripped, '('));
      RStripMeans(Before(stripped, '('));
      if prefix == [] then None
      else
        var candidate := LastWord(prefix);
        if candidate in KEYWORDS then None else Some(candidate)
  }

  /** A line reads as `before name gap ( after`: the name is the word in front of the first opening
      parenthesis. */
  ghost predicate ReadsAs(stripped: string, before: string, name: string, gap: string, after: string) {
    && stripped == before + name + gap + "(" + after
    && '(' !in before && '(' !in name && '(' !in gap
    && name != [] && NoSpace(name) && AllSpace(gap)
    && (before == [] || IsSpace(before[|before| - 1]))
  }

  lemma ParenAt(a: string, after: string, s: string)
    requires s == a + "(" + after && '(' !in a
    ensures '(' in s && Before(s, '(') == a
  {
    var r := Before(s, '(');
    BeforeMeans(s, '(');
    assert s[|a|] == '(';
    assert forall i :: 0 <= i < |a| ==> s[i] == a[i];
    assert forall i :: 0 <= i < |r| ==> s[i] == r[i];
    assert |r| == |a|;
    assert r == s[..|a|] == a;
  }

  lemma {:induction false} LastWordIs(before: string, name: string)
    requires name != [] && NoSpace(name)
    requires before == [] || IsSpace(before[|before| - 1])
    ensures LastWord(before + name) == name
    decreases |name|
  {
    var front, last := name[..|name| - 1], name[|name| - 1];
    assert name == front + [last];
    if front == [] {
      OneCharacterWord(before, last);
    } else {
      var s := before + front;
      assert before + name == s + [last] && s[|s| - 1] == front[|front| - 1];
      LastWordIs(before, front);
      LastWordGrows(s, last);
    }
  }

  lemma {:induction false} OneCharacterWord(before: string, c: char)
    requires !IsSpace(c) && (before == [] || IsSpace(before[|before| - 1]))
    ensures LastWord(before + [c]) == [c]
  {
  }

  lemma {:induction false} WordInFront(prefix: string, name: string, before: string)
    requires EndsInWord(prefix, name) && before == prefix[..|prefix| - |name|]
    ensures prefix == before + name && name != [] && NoSpace(name) && (before == [] || IsSpace(before[|before| - 1]))
  {
  }

  lemma {:induction false} NameReads(line: string) returns (before: string, gap: string, after: string)
    requires MethodName(line).Some?
    ensures ReadsAs(Strip(line), before, MethodName(line).value, gap, after)
  {
    var s, name := Strip(line), MethodName(line).value;
    var front := Before(s, '(');
    BeforeMeans(s, '(');
    RStripMeans(front);
    var prefix := RStrip(front);
    LastWordMeans(prefix);
    before, gap, after := prefix[..|prefix| - |name|], front[|prefix|..], s[|front| + 1..];
    WordInFront(prefix, name, before);
    SplitFront(front, prefix, before, name, gap);
    SplitLine(s, front, after);
  }

  lemma {:induction false} SplitFront(front: string, prefix: string, before: string, name: string, gap: string)
    requires prefix <= front && gap == front[|prefix|..] && prefix == before + name && '(' !in front
    ensures front == before + name + gap && '(' !in before && '(' !in name && '(' !in gap
  {
  }

  lemma {:induction false} SplitLine(s: string, front: string, after: string)
    requires front < s && s[|front|] == '(' && after == s[|front| + 1..]
    ensures s == front + "(" + after
  {
  }

  lemma ReadsName(line: string, before: string, name: string, gap: string, after: string)
    requires ReadsAs(Strip(line), before, name, gap, after)
    requires !("//" <= Strip(line)) && !("[" <= Strip(line))
    ensures MethodName(line) == if name in KEYWORDS then None else Some(name)
  {
    ParenAt(before + name + gap, after, Strip(line));
    assert (before + name)[|before + name| - 1] == name[|name| - 1];
    RStripSplit(before + name, gap);
    LastWordIs(before, name);
  }

  /** A declaration gives a name if and only if its line, without the blanks around it, reads as a
      name in front of a parenthesis, is no comment or attribute, and the name is not a keyword. */
  lemma MethodNameMeans(line: string, name: string)
    ensures MethodName(line) == Some(name)
            <==> && !("//" <= Strip(line)) && !("[" <= Strip(line)) && name !in KEYWORDS
                 && exists before, gap, after :: ReadsAs(Strip(line), before, name, gap, after)
  {
    if MethodName(line) == Some(name) {
      var before, gap, after := NameReads(line);
    }
    if !("//" <= Strip(line)) && !("[" <= Strip(line)) && name !in KEYWORDS {
      if before, gap, after :| ReadsAs(Strip(line), before, name, gap, after) {
        ReadsName(line, before, name, gap, after);
      }
    }
  }

  // ---------------------------------------------------------------- what a dump declares

  predicate IsNamespace(l: Line) { l.namespaceMatch.Some? }
  predicate IsType(l: Line) { l.namespaceMatch.None? && l.typeMatch.Some? }
  predicate IsRva(l: Line) { l.namespaceMatch.None? && l.typeMatch.None? && l.rvaMatch.Some? }
  predicate IsPlain(l: Line) { l.namespaceMatch.None? && l.typeMatch.None? && l.rvaMatch.None? }
  predicate IsComment(l: Line) { "//" <= Strip(l.text) }
  predicate IsDeclaration(l: Line) { IsPlain(l) && MethodName(l.text).Some? }

  /** Blank lines, attributes and other text that an RVA comment survives. */
  predicate IsPassive(l: Line) { IsPlain(l) && MethodName(l.text).None? && !IsComment(l) }

  /** The namespace that the last namespace line among the first n lines opened. */
  function NamespaceAt(lines: seq<Line>, n: nat): string
    requires n <= |lines|
  {
    if n == 0 then ""
    else if IsNamespace(lines[n - 1]) then Strip(lines[n - 1].namespaceMatch.value)
    else NamespaceAt(lines, n - 1)
  }

  function TypeAt(lines: seq<Line>, n: nat): string
    requires n <= |lines|
  {
    if n == 0 then UNKNOWN_TYPE
    else if IsType(lines[n - 1]) then Strip(BeforeComment(lines[n - 1].typeMatch.value))
    else TypeAt(lines, n - 1)
  }

  function QualifiedName(namespace: string, typeName: string, name: string): string {
    (if namespace != "" then namespace + "." + typeName else typeName) + "." + name
  }

  /** The RVA comment on line i reaches line n: nothing in between uses it up or drops it. */
  ghost predicate Pending(lines: seq<Line>, i: int, n: nat) {
    0 <= i < n <= |lines| && IsRva(lines[i]) && forall k :: i < k < n ==> IsPassive(lines[k])
  }

  /** The method that line n declares when this address is pending. */
  function MethodAt(lines: seq<Line>, n: nat, rva: nat): Method
    requires n < |lines| && IsDeclaration(lines[n])
  {
    Method(rva, QualifiedName(NamespaceAt(lines, n), TypeAt(lines, n), MethodName(lines[n].text).value))
  }

  /** Line j declares m at the address that line i announced. */
  ghost predicate Declares(lines: seq<Line>, i: int, j: int, m: Method) {
    && 0 <= j < |lines| && Pending(lines, i, j) && IsDeclaration(lines[j])
    && m == MethodAt(lines, j, lines[i].rvaMatch.value)
  }

  /** One of the first n lines declares m. */
  ghost predicate Declared(lines: seq<Line>, n: int, m: Method) {
    exists j :: j < n && DeclaredOn(lines, j, m)
  }

  ghost predicate DeclaredOn(lines: seq<Line>, j: int, m: Method) {
    exists i :: Declares(lines, i, j, m)
  }

  function RvaCount(lines: seq<Line>, n: nat): nat
    requires n <= |lines|
  {
    if n == 0 then 0 else RvaCount(lines, n - 1) + if IsRva(lines[n - 1]) then 1 else 0
  }

  // ---------------------------------------------------------------- the parser

  /** What the parser makes of lines: strictly sorted, no longer than the number of RVA comments, and
      exactly the methods that they declare. */
  ghost predicate Parsed(lines: seq<Line>, result: seq<Method>) {
    && (forall m :: m in result <==> Declared(lines, |lines|, m))
    && StrictlySorted(MethodLess, result)
    && |result| <= RvaCount(lines, |lines|)
  }

  method ParseDump(raw: seq<string>, wide: char -> bool) returns (result: seq<Method>)
    ensures Parsed(ReadAll(raw, wide), result)
  {
    result := ParseLines(ReadAll(raw, wide));
  }

  /** The loop over the lines and what the expressions capture on each. */
  method ParseLines(lines: seq<Line>) returns (result: seq<Method>)
    ensures Parsed(lines, result)
  {
    var namespace := "";
    var currentType := UNKNOWN_TYPE;
    var pendingRva: Option<nat> := None;
    var methods: seq<Method> := [];
    ghost var at := -1;  // the line that announced pendingRva
    for n := 0 to |lines|
      invariant namespace == NamespaceAt(lines, n) && currentType == TypeAt(lines, n)
      invariant Tracks(lines, n, at, pendingRva)
      invariant Collects(lines, n, methods)
      invariant |methods| + (if pendingRva.Some? then 1 else 0) <= RvaCount(lines, n)
    {
      var line := lines[n];
      TracksStep(lines, n, n + 1, at, pendingRva);
      CollectsStep(lines, n, n + 1, at, pendingRva, methods);
      if line.namespaceMatch.Some? {
        namespace := Strip(line.namespaceMatch.value);
        pendingRva := None;
      } else if line.typeMatch.Some? {
        currentType := Strip(BeforeComment(line.typeMatch.value));
        pendingRva := None;
      } else if line.rvaMatch.Some? {
        pendingRva := line.rvaMatch;
        at := n;
      } else if pendingRva.None? {
      } else {
        var methodName := MethodName(line.text);
        if methodName.None? {
          if "//" <= Strip(line.text) {
            pendingRva := None;
          }
        } else {
          methods := methods + [Method(pendingRva.value, QualifiedName(namespace, currentType, methodName.value))];
          pendingRva := None;
        }
      }
    }
    MethodOrder();
    SortedDistinctMeans(MethodLess, methods);
    result := SortedDistinct(MethodLess, methods);
  }

  /** The pending address is that of the one RVA comment which reaches line n. */
  ghost predicate Tracks(lines: seq<Line>, n: nat, at: int, pending: Option<nat>) {
    if pending.Some? then Pending(lines, at, n) && pending.value == lines[at].rvaMatch.value
    else forall i :: !Pending(lines, i, n)
  }

  ghost predicate Collects(lines: seq<Line>, n: nat, methods: seq<Method>) {
    forall m :: m in methods <==> Declared(lines, n, m)
  }

  /** At most one RVA comment is pending at a time. */
  lemma OnlyPending(lines: seq<Line>, n: nat, at: int)
    requires Pending(lines, at, n)
    ensures forall i :: Pending(lines, i, n) ==> i == at
  {
  }

  /** How one more line changes which RVA comment is pending. */
  lemma PendingStep(lines: seq<Line>, n: nat, next: nat)
    requires n < |lines| && next == n + 1
    ensures forall i :: Pending(lines, i, next) <==>
              (i == n && IsRva(lines[n])) || (Pending(lines, i, n) && IsPassive(lines[n]))
  {
  }

  lemma TracksStep(lines: seq<Line>, n: nat, next: nat, at: int, pending: Option<nat>)
    requires n < |lines| && next == n + 1 && Tracks(lines, n, at, pending)
    ensures IsRva(lines[n]) ==> Tracks(lines, next, n, lines[n].rvaMatch)
    ensures IsPassive(lines[n]) ==> Tracks(lines, next, at, pending)
    ensures !IsRva(lines[n]) && (!IsPassive(lines[n]) || pending.None?) ==> Tracks(lines, next, at, None)
  {
    PendingStep(lines, n, next);
  }

  /** What line n adds to the methods, given the pending address. */
  function Added(lines: seq<Line>, n: nat, pending: Option<nat>): Option<Method>
    requires n < |lines|
  {
    if pending.Some? && IsDeclaration(lines[n]) then Some(MethodAt(lines, n, pending.value)) else None
  }

  lemma DeclaredSplit(lines: seq<Line>, n: nat, next: nat, x: Method)
    requires n < |lines| && next == n + 1
    ensures Declared(lines, next, x) <==> Declared(lines, n, x) || DeclaredOn(lines, n, x)
  {
  }

  lemma LineDeclares(lines: seq<Line>, n: nat, at: int, pending: Option<nat>, x: Method)
    requires n < |lines| && Tracks(lines, n, at, pending)
    ensures DeclaredOn(lines, n, x) <==> Added(lines, n, pending) == Some(x)
  {
    if pending.Some? {
      OnlyPending(lines, n, at);
      assert Declares(lines, at, n, x) <==> Added(lines, n, pending) == Some(x);
    }
  }

  lemma CollectsStep(lines: seq<Line>, n: nat, next: nat, at: int, pending: Option<nat>, methods: seq<Method>)
    requires n < |lines| && next == n + 1 && Tracks(lines, n, at, pending) && Collects(lines, n, methods)
    ensures var added := Added(lines, n, pending);
            Collects(lines, next, if added.Some? then methods + [added.value] else methods)
  {
    var added := Added(lines, n, pending);
    var after := if added.Some? then methods + [added.value] else methods;
    forall x ensures x in after <==> Declared(lines, next, x) {
      DeclaredSplit(lines, n, next, x);
      LineDeclares(lines, n, at, pending, x);
      assert x in after <==> x in methods || added == Some(x);
    }
  }

  /** The result is ordered by address, and by name where addresses are equal. */
  lemma ParsedInOrder(lines: seq<Line>, result: seq<Method>, i: nat, j: nat)
    requires Parsed(lines, result) && i < j < |result|
    ensures result[i].rva <= result[j].rva
    ensures result[i].rva == result[j].rva ==>
              exists k :: DifferAt(result[i].qualifiedName, result[j].qualifiedName, k)
  {
    assert MethodLess(result[i], result[j]);
    StringLessMeans(result[i].qualifiedName, result[j].qualifiedName);
  }
}
