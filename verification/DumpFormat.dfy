/** The dump as Il2CppDumper writes it, line by line, and what the parser of symbolize_log.py makes of it:
    the text of any list of items parses to exactly the methods that the items stand for. */
module DumpFormat {
  import opened Wrappers
  import opened Numerals
  import opened PyText
  import opened DumpLines
  import opened DumpParser

  /** One line. The words in front of a type are its access and modifiers; those in front of a method are
      whatever its declaration begins with. A type line may go on with a comment, which ends at the first
      colon, and with a colon and anything after it. */
  datatype Item =
    | Namespace(name: string)
    | Type(indent: string, words: seq<string>, kind: string, name: string, comment: string, gap: string, tail: string)
    | Rva(indent: string, digits: string, rest: string)
    | Declaration(indent: string, words: seq<string>, name: string, tail: string)
    | Blank(indent: string)
    | Brace(indent: string, open: bool)
    | Attribute(indent: string, body: string)
    | Comment(indent: string, body: string)

  function Spaced(words: seq<string>): string {
    if words == [] then "" else words[0] + (" " + Spaced(words[1..]))
  }

  /** The line without its indentation. */
  function Core(item: Item): string {
    match item
    case Namespace(name) => "// Namespace: " + name
    case Type(_, words, kind, name, comment, gap, tail) => Spaced(words) + kind + (" " + ((name + comment + gap) + tail))
    case Rva(_, digits, rest) => "//" + " " + ("RVA:" + " " + ("0x" + digits + rest))
    case Declaration(_, words, name, tail) => Spaced(words) + name + "" + "(" + tail
    case Blank(_) => ""
    case Brace(_, open) => if open then "{" else "}"
    case Attribute(_, body) => "[" + body
    case Comment(_, body) => "//" + body
  }

  function Indent(item: Item): string { if item.Namespace? then "" else item.indent }

  function Lines(items: seq<Item>): seq<string> {
    seq(|items|, i requires 0 <= i < |items| => Indent(items[i]) + Core(items[i]) + "\n")
  }

  // ---------------------------------------------------------------- what is written

  /** Words without blanks or the characters that mean something to the parser. */
  predicate PlainWord(w: string) {
    w != "" && w[0] != '[' && NoSpace(w) && forall k :: 0 <= k < |w| ==> w[k] !in "/:{("
  }

  predicate EndsPlain(s: string) { s != "" && !IsSpace(s[|s| - 1]) }

  /** At most an access modifier, then modifiers. */
  predicate TypeWords(words: seq<string>) {
    forall i :: 0 <= i < |words| ==>
      || words[i] in {"static", "sealed", "abstract", "partial"}
      || (i == 0 && words[i] in {"public", "private", "protected", "internal"})
  }

  predicate MethodWords(words: seq<string>) {
    forall i :: 0 <= i < |words| ==> PlainWord(words[i]) && words[i] !in {"class", "struct", "interface", "enum"}
  }

  predicate Written(item: Item) {
    match item
    case Namespace(name) =>
      '\n' !in name && (name == "" || (!IsSpace(name[0]) && EndsPlain(name)))
    case Type(indent, words, kind, name, comment, gap, tail) =>
      && AllSpace(indent) && TypeWords(words) && kind in {"class", "struct", "interface", "enum"}
      && name != "" && !IsSpace(name[0]) && EndsPlain(name)
      && (forall k :: 0 <= k < |name| ==> name[k] !in "/:{")
      && (comment == ""
          || (" //" <= comment && EndsPlain(comment) && forall k :: 0 <= k < |comment| ==> comment[k] !in ":{"))
      && AllSpace(gap) && (if tail == "" then gap == "" else tail[0] == ':' && EndsPlain(tail))
    case Rva(indent, digits, rest) =>
      && AllSpace(indent) && AllHex(digits) && digits != ""
      && (rest == "" || (rest[0] == ' ' && EndsPlain(rest)))
    case Declaration(indent, words, name, tail) =>
      && AllSpace(indent) && MethodWords(words) && PlainWord(name)
      && name !in {"if", "for", "while", "switch", "catch"}
      && EndsPlain(tail) && '/' !in tail
    case Blank(indent) => AllSpace(indent) && '\n' !in indent
    case Brace(indent, _) => AllSpace(indent)
    case Attribute(indent, body) => AllSpace(indent) && EndsPlain(body) && '/' !in body
    case Comment(indent, body) => AllSpace(indent) && EndsPlain(body) && ':' !in body
  }

  // ---------------------------------------------------------------- what it stands for

  /** Where the reader of a dump is: the latest namespace and type, the address that waits for its
      declaration, and the methods so far. */
  datatype Reading = Reading(namespace: string, typeName: string, pending: Option<nat>, found: seq<Method>)

  const START := Reading("", "<unknown-type>", None, [])

  function Step(r: Reading, item: Item): Reading
    requires Written(item)
  {
    match item
    case Namespace(name) => r.(namespace := name, pending := None)
    case Type(_, _, _, name, _, _, _) => r.(typeName := name, pending := None)
    case Rva(_, digits, _) => r.(pending := Some(ValueOf(digits, 16)))
    case Declaration(_, _, name, _) =>
      if r.pending.None? then r
      else
        var owner := if r.namespace == "" then r.typeName else r.namespace + "." + r.typeName;
        r.(pending := None, found := r.found + [Method(r.pending.value, owner + "." + name)])
    case Comment(_, _) => r.(pending := None)
    case _ => r
  }

  predicate AllWritten(items: seq<Item>) { forall i :: 0 <= i < |items| ==> Written(items[i]) }

  function Reads(items: seq<Item>): Reading
    requires AllWritten(items)
  {
    if items == [] then START else Step(Reads(items[..|items| - 1]), items[|items| - 1])
  }

  // ---------------------------------------------------------------- the three expressions on one line

  /** What the parser sees of a line that stands for an item. */
  predicate Fits(item: Item, l: Line) {
    match item
    case Namespace(name) => IsNamespace(l) && Strip(l.namespaceMatch.value) == name
    case Type(_, _, _, name, _, _, _) => IsType(l) && Strip(BeforeComment(l.typeMatch.value)) == name
    case Rva(_, digits, _) => IsRva(l) && AllHex(digits) && l.rvaMatch.value == ValueOf(digits, 16)
    case Declaration(_, _, name, _) => IsDeclaration(l) && MethodName(l.text) == Some(name)
    case Comment(_, _) => IsPlain(l) && MethodName(l.text).None? && IsComment(l)
    case _ => IsPassive(l)
  }

  lemma NothingToStrip(text: string)
    requires text != "" && !IsSpace(text[0]) && !IsSpace(text[|text| - 1])
    ensures Strip(text) == text
  {
  }

  lemma NewlineCut(text: string)
    requires text == "" || text[|text| - 1] != '\n'
    ensures RStripNewlines(text + "\n") == text
  {
    assert (text + "\n")[..|text|] == text;
  }

  /** An indented line that neither begins nor ends in a blank of its own. */
  lemma IndentedLine(indent: string, core: string, raw: string, wide: char -> bool)
    requires AllSpace(indent) && core != "" && !IsSpace(core[0]) && EndsPlain(core) && raw == indent + core + "\n"
    ensures var l := Read(raw, wide);
            && l.text == indent + core && Strip(l.text) == core
            && l.typeMatch == TypeMatch(core)
  {
    assert (indent + core)[|indent + core| - 1] == core[|core| - 1];
    NewlineCut(indent + core);
    StripMeans(indent, core, "");
    assert indent + core + "" == indent + core;
  }

  lemma NoNamespaceAfterBlank(indent: string, core: string)
    requires AllSpace(indent) && (indent != "" || !("//" <= core))
    ensures NamespaceMatch(indent + core) == None
  {
    var s := indent + core;
    if indent != "" {
      assert s[0] == indent[0] && IsSpace(s[0]);
    } else {
      assert s == core;
    }
  }

  lemma {:induction false} RvaAfterBlanks(indent: string, core: string, wide: char -> bool)
    requires AllSpace(indent)
    ensures RvaMatch(indent + core, wide) == RvaMatch(core, wide)
  {
    if indent == "" {
      assert indent + core == core;
    } else {
      var s := indent + core;
      assert s[0] == indent[0] && s[1..] == indent[1..] + core;
      RvaAfterBlanks(indent[1..], core, wide);
    }
  }

  lemma NoSlashNoRva(s: string, wide: char -> bool)
    requires '/' !in s
    ensures RvaMatch(s, wide) == None
  {
    RvaMeans(s, wide);
    forall i | 0 <= i < |s| ensures RvaHere(s[i..], wide).None? {
      assert s[i..][0] == s[i];
    }
  }

  lemma NoColonNoRva(s: string, wide: char -> bool)
    requires ':' !in s
    ensures RvaMatch(s, wide) == None
  {
    RvaMeans(s, wide);
    forall i | 0 <= i < |s| ensures RvaHere(s[i..], wide).None? {
      var t := s[i..];
      assert forall k :: 0 <= k < |t| ==> t[k] == s[i + k];
      NoColonHere(t, wide);
    }
  }

  lemma NoColonHere(t: string, wide: char -> bool)
    requires ':' !in t
    ensures RvaHere(t, wide).None? && NamespaceMatch(t) == None
  {
    if After(t, "//").Some? {
      var gap := AfterSplits(t, "//");
      var tagged := After(t, "//").value;
      assert t == ("//" + gap) + tagged;
      assert forall c :: c in tagged ==> c in t;
      NoPrefix(tagged, "RVA:", 3);
      NoPrefix(tagged, "Namespace:", 9);
    }
  }

  lemma NoPrefix(s: string, p: string, k: nat)
    requires k < |p| && p[k] !in s
    ensures !(p <= s) && After(s, p) == None
  {
    if |p| <= |s| {
      assert s[k] in s;
    }
  }

  lemma OddWord(core: string, word: string, rest: string)
    requires core == word + rest && NoSpace(word) && (rest == "" || IsSpace(rest[0]))
    requires word !in ACCESS + MODIFIERS + KINDS
    ensures TypeMatch(core) == None
  {
    if rest == "" {
      assert core == word;
      WholeWord(word);
    } else {
      WordIs(word, rest);
    }
  }

  lemma {:induction false} WholeWord(w: string)
    requires NoSpace(w)
    ensures Word(w) == w
  {
    if w != "" {
      WholeWord(w[1..]);
    }
  }

  /** No word of a type line begins with a character that is no letter. */
  lemma OddStart(core: string, c: char)
    requires core != "" && core[0] == c && c in "/[{}"
    ensures TypeMatch(core) == None
  {
    var w := Word(core);
    var rest := core[|w|..];
    assert core == w + rest;
    assert IsSpace(core[0]) ==> c !in "/[{}";
    FirstOfWord(core);
    LetterFirst(w);
    OddWord(core, w, rest);
  }

  lemma FirstOfWord(core: string)
    requires core != "" && !IsSpace(core[0])
    ensures Word(core) != "" && Word(core)[0] == core[0]
  {
  }

  lemma LetterFirst(w: string)
    ensures w in ACCESS + MODIFIERS + KINDS ==> w != "" && w[0] !in "/[{}"
  {
  }

  // ---------------------------------------------------------------- each kind of line

  lemma NamespaceFits(name: string, raw: string, wide: char -> bool)
    requires Written(Namespace(name)) && raw == "" + ("// Namespace: " + name) + "\n"
    ensures Fits(Namespace(name), Read(raw, wide))
  {
    var text := "// Namespace: " + name;
    NamespaceText(name, text);
    assert raw == text + "\n";
    NewlineCut(text);
    NamespaceMeans(text, name);
    if name != "" {
      NothingToStrip(name);
    }
  }

  lemma NamespaceText(name: string, text: string)
    requires text == "// Namespace: " + name && Written(Namespace(name))
    ensures NamespaceReads(text, " ", " ", name) && text[|text| - 1] != '\n'
  {
    assert text == "//" + " " + ("Namespace:" + " " + name);
    assert name == "" ==> text[|text| - 1] == ' ';
    assert name != "" ==> text[|text| - 1] == name[|name| - 1];
  }

  lemma RvaCore(digits: string, rest: string, core: string, wide: char -> bool)
    requires AllHex(digits) && digits != "" && (rest == "" || rest[0] == ' ')
    requires core == "//" + " " + ("RVA:" + " " + ("0x" + digits + rest))
    ensures RvaMatch(core, wide) == Some(ValueOf(digits, 16)) && TypeMatch(core) == None
    ensures NamespaceMatch(core) == None
  {
    var tagged := "RVA:" + " " + ("0x" + digits + rest);
    ParseHexMeans(digits);
    assert RvaReads(core, " ", " ", digits, rest, wide);
    RvaReadsHere(core, " ", " ", digits, rest, wide);
    assert core[0] == '/';
    OddStart(core, '/');
    assert tagged[0] == 'R';
    AfterMeans(core, "//", " ", tagged);
  }

  lemma RvaFits(item: Item, raw: string, wide: char -> bool)
    requires item.Rva? && Written(item) && raw == item.indent + Core(item) + "\n"
    ensures Fits(item, Read(raw, wide))
  {
    var core := Core(item);
    assert core[0] == '/';
    RvaEnds(item.digits, item.rest, core);
    IndentedLine(item.indent, core, raw, wide);
    RvaCore(item.digits, item.rest, core, wide);
    RvaAfterBlanks(item.indent, core, wide);
    if item.indent == "" {
      assert item.indent + core == core;
    } else {
      NoNamespaceAfterBlank(item.indent, core);
    }
  }

  lemma RvaEnds(digits: string, rest: string, core: string)
    requires AllHex(digits) && digits != "" && (rest == "" || EndsPlain(rest))
    requires core == "//" + " " + ("RVA:" + " " + ("0x" + digits + rest))
    ensures EndsPlain(core)
  {
    if rest == "" {
      assert core[|core| - 1] == digits[|digits| - 1];
      assert IsHexDigit(digits[|digits| - 1]);
    } else {
      assert core[|core| - 1] == rest[|rest| - 1];
    }
  }

  lemma CommentFits(item: Item, raw: string, wide: char -> bool)
    requires item.Comment? && Written(item) && raw == item.indent + Core(item) + "\n"
    ensures Fits(item, Read(raw, wide))
  {
    var core := Core(item);
    assert core[0] == '/' && core[|core| - 1] == item.body[|item.body| - 1];
    IndentedLine(item.indent, core, raw, wide);
    OddStart(core, '/');
    assert ':' !in core;
    RvaAfterBlanks(item.indent, core, wide);
    NoColonNoRva(core, wide);
    NoColonHere(core, wide);
    if item.indent == "" {
      assert item.indent + core == core;
    } else {
      NoNamespaceAfterBlank(item.indent, core);
    }
  }

  /** Lines without a slash that begin with a bracket or a brace. */
  lemma MarkFits(item: Item, indent: string, core: string, raw: string, wide: char -> bool)
    requires item.Attribute? || item.Brace?
    requires AllSpace(indent) && core != "" && core[0] in "[{}" && EndsPlain(core) && '/' !in core
    requires core[0] == '[' || '(' !in core
    requires raw == indent + core + "\n"
    ensures Fits(item, Read(raw, wide))
  {
    assert !IsSpace(core[0]);
    IndentedLine(indent, core, raw, wide);
    OddStart(core, core[0]);
    RvaAfterBlanks(indent, core, wide);
    NoSlashNoRva(core, wide);
    NoNamespaceAfterBlank(indent, core);
    MarkIsNoMethod(indent + core, core);
  }

  lemma MarkIsNoMethod(text: string, core: string)
    requires Strip(text) == core && core != "" && (core[0] == '[' || '(' !in core) && '/' !in core
    ensures MethodName(text).None? && !("//" <= core)
  {
    assert core[0] in core;
    if core[0] == '[' {
      assert core[..1] == "[";
    }
  }

  lemma BlanksHaveNoSlash(indent: string)
    requires AllSpace(indent)
    ensures '/' !in indent
  {
    forall k | 0 <= k < |indent| ensures indent[k] != '/' { assert IsSpace(indent[k]); }
  }

  lemma AttributeFits(item: Item, raw: string, wide: char -> bool)
    requires item.Attribute? && Written(item) && raw == item.indent + Core(item) + "\n"
    ensures Fits(item, Read(raw, wide))
  {
    var core := Core(item);
    assert core[|core| - 1] == item.body[|item.body| - 1];
    MarkFits(item, item.indent, core, raw, wide);
  }

  lemma BlankFits(indent: string, raw: string, wide: char -> bool)
    requires AllSpace(indent) && '\n' !in indent && raw == indent + "" + "\n"
    ensures Fits(Blank(indent), Read(raw, wide))
  {
    assert indent + "" == indent && (indent != "" ==> indent[|indent| - 1] in indent);
    NewlineCut(indent);
    StripMeans(indent, "", "");
    assert indent + "" + "" == indent;
    BlanksHaveNoSlash(indent);
    NoSlashNoRva(indent, wide);
    NoNamespaceAfterBlank(indent, "");
  }

  // ---------------------------------------------------------------- types

  lemma FirstWord(words: seq<string>, rest: string)
    requires words != []
    ensures Spaced(words) + rest == words[0] + (" " + (Spaced(words[1..]) + rest))
  {
  }

  lemma ModifierFirst(h: string, m: string, rest: string)
    requires m in MODIFIERS && h == m + (" " + rest) && KindHead(rest)
    ensures KindHead(h)
  {
    assert ModifierThen(h, m, " ", rest);
  }

  lemma AccessFirst(h: string, a: string, rest: string)
    requires a in ACCESS && h == a + (" " + rest) && KindHead(rest)
    ensures Head(h)
  {
    assert AccessThen(h, a, " ", rest);
  }

  lemma {:induction false} ModifiersHead(words: seq<string>, kind: string)
    requires kind in KINDS && forall i :: 0 <= i < |words| ==> words[i] in MODIFIERS
    ensures KindHead(Spaced(words) + kind)
  {
    if words == [] {
      assert Spaced(words) + kind == kind;
    } else {
      ModifiersHead(words[1..], kind);
      FirstWord(words, kind);
      ModifierFirst(Spaced(words) + kind, words[0], Spaced(words[1..]) + kind);
    }
  }

  lemma WordsInSets(words: seq<string>)
    requires TypeWords(words)
    ensures forall i :: 0 <= i < |words| ==> words[i] in MODIFIERS || (i == 0 && words[i] in ACCESS)
  {
  }

  lemma TypeHead(words: seq<string>, kind: string)
    requires TypeWords(words) && kind in KINDS
    ensures Head(Spaced(words) + kind)
  {
    WordsInSets(words);
    if words != [] && words[0] in ACCESS {
      assert forall i :: 0 <= i < |words[1..]| ==> words[1..][i] == words[i + 1];
      ModifiersHead(words[1..], kind);
      FirstWord(words, kind);
      AccessFirst(Spaced(words) + kind, words[0], Spaced(words[1..]) + kind);
    } else {
      ModifiersHead(words, kind);
    }
  }

  /** The group of the type expression is the name and the comment. */
  lemma GroupIs(words: seq<string>, kind: string, named: string, gap: string, tail: string, core: string)
    requires TypeWords(words) && kind in KINDS && core == Spaced(words) + kind + (" " + ((named + gap) + tail))
    requires named != "" && !IsSpace(named[0]) && EndsPlain(named) && AllSpace(gap)
    requires (forall k :: 0 <= k < |named| ==> !Stops(named[k])) && (tail == "" || tail[0] == ':')
    ensures TypeMatch(core) == Some(named)
  {
    var body := (named + gap) + tail;
    TypeHead(words, kind);
    HeadSkipped(Spaced(words) + kind, " " + body);
    assert body[0] == named[0];
    LStripSkips(" ", body);
    assert forall k :: 0 <= k < |named + gap| ==> !Stops((named + gap)[k]);
    StopIs(named + gap, tail);
    assert body[..|named + gap|] == named + gap;
    RStripSplit(named, gap);
  }

  lemma OwnerIs(name: string, comment: string)
    requires name != "" && !IsSpace(name[0]) && EndsPlain(name) && '/' !in name
    requires comment == "" || " //" <= comment
    ensures Strip(BeforeComment(name + comment)) == name
  {
    var s := name + comment;
    NothingToStrip(name);
    if comment == "" {
      assert s == name;
      BeforeCommentKeeps(s);
    } else {
      var p := |name| + 1;
      assert s[p - 1] == comment[0] == ' ' && s[p] == comment[1] == '/' && s[p + 1] == comment[2] == '/';
      assert forall i :: 0 <= i < |name| ==> s[i] == name[i] && name[i] in name;
      BeforeCommentCuts(s, p);
      assert s[..p] == "" + name + " ";
      StripMeans("", name, " ");
    }
  }

  lemma TypeFits(item: Item, raw: string, wide: char -> bool)
    requires item.Type? && Written(item) && raw == item.indent + Core(item) + "\n"
    ensures Fits(item, Read(raw, wide))
  {
    var core, named := Core(item), item.name + item.comment;
    TypeEnds(item);
    IndentedLine(item.indent, core, raw, wide);
    NamedIs(item.name, item.comment);
    assert core == Spaced(item.words) + item.kind + (" " + ((named + item.gap) + item.tail));
    GroupIs(item.words, item.kind, named, item.gap, item.tail, core);
    OwnerIs(item.name, item.comment);
    TypeStarts(item);
    NoNamespaceAfterBlank(item.indent, core);
  }

  lemma NamedIs(name: string, comment: string)
    requires name != "" && !IsSpace(name[0]) && EndsPlain(name)
    requires (forall k :: 0 <= k < |name| ==> name[k] !in "/:{")
    requires comment == "" || (EndsPlain(comment) && forall k :: 0 <= k < |comment| ==> comment[k] !in ":{")
    ensures var named := name + comment;
            && named != "" && !IsSpace(named[0]) && EndsPlain(named)
            && (forall k :: 0 <= k < |named| ==> !Stops(named[k])) && '/' !in name
  {
    var named := name + comment;
    assert comment != "" ==> named[|named| - 1] == comment[|comment| - 1];
    assert comment == "" ==> named == name;
  }

  lemma TypeStarts(item: Item)
    requires item.Type? && Written(item)
    ensures Core(item) != "" && !IsSpace(Core(item)[0]) && Core(item)[0] != '/'
  {
    var first := if item.words == [] then item.kind else item.words[0];
    PlainWords();
    LetterFirst(first);
    assert Core(item)[0] == first[0];
  }

  lemma TypeEnds(item: Item)
    requires item.Type? && Written(item)
    ensures Core(item) != "" && !IsSpace(Core(item)[0]) && EndsPlain(Core(item))
  {
    TypeStarts(item);
    var core := Core(item);
    if item.tail != "" {
      assert core[|core| - 1] == item.tail[|item.tail| - 1];
    } else if item.comment != "" {
      assert core[|core| - 1] == item.comment[|item.comment| - 1];
    } else {
      assert core[|core| - 1] == item.name[|item.name| - 1];
    }
  }

  // ---------------------------------------------------------------- declarations

  lemma NotKind(name: string, tail: string)
    requires PlainWord(name)
    ensures var x := name + "(" + tail;
            Word(x) !in ACCESS + MODIFIERS + KINDS && AfterKind(x) == None && AfterHead(x) == None
  {
    var x := name + "(" + tail;
    var w := Word(x);
    assert forall k :: 0 <= k < |name| ==> x[k] == name[k];
    assert x[|name|] == '(';
    assert |w| > |name|;
    assert w[|name|] == '(';
    NoParenthesis(w);
  }

  lemma NoParenthesis(w: string)
    ensures w in ACCESS + MODIFIERS + KINDS ==> '(' !in w
  {
  }

  lemma WordSkipped(s: string, w: string, rest: string)
    requires PlainWord(w) && w !in {"class", "struct", "interface", "enum"}
    requires s == w + (" " + rest) && rest != "" && !IsSpace(rest[0]) && AfterKind(rest) == None
    ensures AfterKind(s) == None
    ensures AfterHead(s) == None
  {
    WordThen(s, w, " ", rest);
  }

  lemma {:induction false} NoKindInWords(words: seq<string>, name: string, tail: string)
    requires MethodWords(words) && PlainWord(name)
    ensures AfterKind(Spaced(words) + (name + "(" + tail)) == None
    ensures AfterHead(Spaced(words) + (name + "(" + tail)) == None
  {
    var x := name + "(" + tail;
    if words == [] {
      assert Spaced(words) + x == x;
      NotKind(name, tail);
    } else {
      assert MethodWords(words[1..]) by {
        assert forall i :: 0 <= i < |words[1..]| ==> words[1..][i] == words[i + 1];
      }
      NoKindInWords(words[1..], name, tail);
      StartsPlain(words[1..], name, tail);
      FirstWord(words, x);
      WordSkipped(Spaced(words) + x, words[0], Spaced(words[1..]) + x);
    }
  }

  lemma StartsPlain(words: seq<string>, name: string, tail: string)
    requires MethodWords(words) && PlainWord(name)
    ensures var s := Spaced(words) + (name + "(" + tail);
            s != "" && !IsSpace(s[0]) && s[0] !in "/["
  {
    var s := Spaced(words) + (name + "(" + tail);
    assert s[0] == if words == [] then name[0] else words[0][0];
  }

  lemma DeclarationIsNoType(words: seq<string>, name: string, tail: string, core: string)
    requires MethodWords(words) && PlainWord(name) && core == Spaced(words) + (name + "(" + tail)
    ensures TypeMatch(core) == None
  {
    NoKindInWords(words, name, tail);
  }

  lemma {:induction false} SpacedEnds(words: seq<string>)
    requires MethodWords(words)
    ensures '(' !in Spaced(words) && '/' !in Spaced(words)
    ensures Spaced(words) == "" || IsSpace(Spaced(words)[|Spaced(words)| - 1])
  {
    if words != [] {
      SpacedEnds(words[1..]);
      var s, rest := Spaced(words), Spaced(words[1..]);
      assert '(' !in words[0] && '/' !in words[0];
      assert s == (words[0] + " ") + rest;
      assert rest == "" ==> s == words[0] + " ";
      assert rest != "" ==> s[|s| - 1] == rest[|rest| - 1];
    }
  }

  lemma DeclarationFits(item: Item, raw: string, wide: char -> bool)
    requires item.Declaration? && Written(item) && raw == item.indent + Core(item) + "\n"
    ensures Fits(item, Read(raw, wide))
  {
    DeclarationCore(item);
    DeclarationIsNoType(item.words, item.name, item.tail, Core(item));
    SpacedEnds(item.words);
    DeclarationRead(item, item.indent, Core(item), Spaced(item.words), raw, wide);
  }

  lemma DeclarationRead(item: Item, indent: string, core: string, before: string, raw: string, wide: char -> bool)
    requires item.Declaration? && PlainWord(item.name) && item.name !in KEYWORDS
    requires AllSpace(indent) && core != "" && !IsSpace(core[0]) && core[0] !in "/[" && EndsPlain(core) && '/' !in core
    requires core == before + item.name + "" + "(" + item.tail && raw == indent + core + "\n"
    requires '(' !in before && (before == "" || IsSpace(before[|before| - 1])) && TypeMatch(core) == None
    ensures Fits(item, Read(raw, wide))
  {
    IndentedLine(indent, core, raw, wide);
    RvaAfterBlanks(indent, core, wide);
    NoSlashNoRva(core, wide);
    NoNamespaceAfterBlank(indent, core);
    DeclaredName(indent + core, core, before, item.name, item.tail);
  }

  lemma DeclarationCore(item: Item)
    requires item.Declaration? && Written(item)
    ensures var core := Core(item);
            && core == Spaced(item.words) + (item.name + "(" + item.tail)
            && core != "" && !IsSpace(core[0]) && core[0] !in "/[" && EndsPlain(core) && '/' !in core
  {
    var core := Core(item);
    assert core == Spaced(item.words) + (item.name + "(" + item.tail);
    StartsPlain(item.words, item.name, item.tail);
    SpacedEnds(item.words);
    assert core[|core| - 1] == item.tail[|item.tail| - 1];
    assert '/' !in item.name;
  }

  lemma DeclaredName(text: string, core: string, before: string, name: string, tail: string)
    requires Strip(text) == core && core == before + name + "" + "(" + tail && core[0] !in "/["
    requires PlainWord(name) && name !in KEYWORDS && '(' !in before && (before == "" || IsSpace(before[|before| - 1]))
    ensures MethodName(text) == Some(name)
  {
    assert '(' !in name;
    assert !("//" <= core) && !("[" <= core);
    assert ReadsAs(core, before, name, "", tail);
    ReadsName(text, before, name, "", tail);
  }

  lemma ItemFits(item: Item, raw: string, wide: char -> bool)
    requires Written(item) && raw == Indent(item) + Core(item) + "\n"
    ensures Fits(item, Read(raw, wide))
  {
    match item
    case Namespace(name) => NamespaceFits(name, raw, wide);
    case Type(_, _, _, _, _, _, _) => TypeFits(item, raw, wide);
    case Rva(_, _, _) => RvaFits(item, raw, wide);
    case Declaration(_, _, _, _) => DeclarationFits(item, raw, wide);
    case Blank(indent) => BlankFits(indent, raw, wide);
    case Brace(indent, open) => MarkFits(item, indent, Core(item), raw, wide);
    case Attribute(_, _) => AttributeFits(item, raw, wide);
    case Comment(_, _) => CommentFits(item, raw, wide);
  }

  // ---------------------------------------------------------------- the whole dump

  /** The parser is where the reader is. */
  ghost predicate Agree(lines: seq<Line>, n: nat, at: int, r: Reading)
    requires n <= |lines|
  {
    && NamespaceAt(lines, n) == r.namespace && TypeAt(lines, n) == r.typeName
    && Tracks(lines, n, at, r.pending) && Collects(lines, n, r.found)
  }

  lemma ItemNames(lines: seq<Line>, n: nat, next: nat, r: Reading, item: Item)
    requires n < |lines| && next == n + 1 && Written(item) && Fits(item, lines[n])
    requires NamespaceAt(lines, n) == r.namespace && TypeAt(lines, n) == r.typeName
    ensures NamespaceAt(lines, next) == Step(r, item).namespace && TypeAt(lines, next) == Step(r, item).typeName
  {
  }

  lemma ItemTracks(lines: seq<Line>, n: nat, next: nat, at: int, r: Reading, item: Item)
    requires n < |lines| && next == n + 1 && Written(item) && Fits(item, lines[n]) && Tracks(lines, n, at, r.pending)
    ensures Tracks(lines, next, if item.Rva? then n else at, Step(r, item).pending)
  {
    TracksStep(lines, n, next, at, r.pending);
  }

  lemma ItemAdds(lines: seq<Line>, n: nat, r: Reading, item: Item)
    requires n < |lines| && Written(item) && Fits(item, lines[n])
    requires NamespaceAt(lines, n) == r.namespace && TypeAt(lines, n) == r.typeName
    ensures var added := Added(lines, n, r.pending);
            Step(r, item).found == if added.Some? then r.found + [added.value] else r.found
  {
    if item.Declaration? && r.pending.Some? {
      NameParts(r.namespace, r.typeName, item.name);
    }
  }

  lemma OneMoreItem(lines: seq<Line>, n: nat, next: nat, at: int, r: Reading, item: Item) returns (now: int)
    requires n < |lines| && next == n + 1 && Written(item) && Fits(item, lines[n]) && Agree(lines, n, at, r)
    ensures Agree(lines, next, now, Step(r, item))
  {
    now := if item.Rva? then n else at;
    ItemNames(lines, n, next, r, item);
    ItemTracks(lines, n, next, at, r, item);
    ItemAdds(lines, n, r, item);
    CollectsStep(lines, n, next, at, r.pending, r.found);
  }

  lemma NameParts(namespace: string, typeName: string, name: string)
    ensures QualifiedName(namespace, typeName, name)
            == (if namespace == "" then typeName else namespace + "." + typeName) + "." + name
  {
  }

  lemma {:induction false} ItemsAgree(lines: seq<Line>, items: seq<Item>, n: nat) returns (at: int)
    requires AllWritten(items) && |lines| == |items| && n <= |items|
    requires forall i :: 0 <= i < |items| ==> Fits(items[i], lines[i])
    ensures Agree(lines, n, at, Reads(items[..n]))
  {
    if n == 0 {
      at := -1;
    } else {
      var before := ItemsAgree(lines, items, n - 1);
      assert items[..n][..n - 1] == items[..n - 1];
      at := OneMoreItem(lines, n - 1, n, before, Reads(items[..n - 1]), items[n - 1]);
    }
  }

  /** For every dump written in this way: what the parser returns are exactly the methods that the items
      stand for. */
  lemma DumpParses(items: seq<Item>, methods: seq<Method>, wide: char -> bool)
    requires AllWritten(items) && Parsed(ReadAll(Lines(items), wide), methods)
    ensures forall m :: m in methods <==> m in Reads(items).found
  {
    var lines := ReadAll(Lines(items), wide);
    forall i | 0 <= i < |items| ensures Fits(items[i], lines[i]) {
      ItemFits(items[i], Lines(items)[i], wide);
    }
    var at := ItemsAgree(lines, items, |items|);
    assert items[..|items|] == items;
  }
}
