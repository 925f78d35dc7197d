/** Dumps for which the log tool is not idempotent, from their lines to the log that is annotated
    twice. */
module BracketNames {
  import opened Wrappers
  import opened Numerals
  import opened PyText
  import opened Sorting
  import opened DumpParser
  import opened DumpFormat
  import opened LogSymbolizer

  /** A dump of one type with one method. */
  function SmallDump(namespace: string, owner: string, digits: string, name: string): seq<string> {
    ["// Namespace: " + namespace + "\n",
     "public class " + owner + " // TypeDefIndex: 4860\n",
     "\t// RVA: 0x" + digits + " Offset: 0x0\n",
     "\tvoid " + name + "() { }\n"]
  }

  function SmallItems(namespace: string, owner: string, digits: string, name: string): seq<Item> {
    [Namespace(namespace),
     Type("", ["public"], "class", owner, " // TypeDefIndex", "", ": 4860"),
     Rva("\t", digits, " Offset: 0x0"),
     Declaration("\t", ["void"], name, ") { }")]
  }

  /** The words that may be put into it. */
  predicate SmallWords(namespace: string, owner: string, digits: string, name: string) {
    && (namespace == "" || PlainWord(namespace)) && PlainWord(owner) && PlainWord(name)
    && name !in {"if", "for", "while", "switch", "catch"}
    && digits != "" && AllHex(digits)
  }

  lemma NamespaceLine(item: Item, namespace: string)
    requires item == Namespace(namespace)
    ensures Indent(item) + Core(item) + "\n" == "// Namespace: " + namespace + "\n"
  {
  }

  lemma TypeText(item: Item, owner: string)
    requires item == Type("", ["public"], "class", owner, " // TypeDefIndex", "", ": 4860")
    ensures Indent(item) + Core(item) + "\n" == "public class " + owner + " // TypeDefIndex: 4860\n"
  {
    SpacedOne(item.words, item.words[0]);
  }

  lemma RvaText(item: Item, digits: string)
    requires item == Rva("\t", digits, " Offset: 0x0")
    ensures Indent(item) + Core(item) + "\n" == "\t// RVA: 0x" + digits + " Offset: 0x0\n"
  {
  }

  lemma MethodText(item: Item, name: string)
    requires item == Declaration("\t", ["void"], name, ") { }")
    ensures Indent(item) + Core(item) + "\n" == "\tvoid " + name + "() { }\n"
  {
    SpacedOne(item.words, item.words[0]);
  }

  lemma SpacedOne(words: seq<string>, a: string)
    requires words == [a]
    ensures Spaced(words) == a + " "
  {
    assert words[1..] == [];
  }

  lemma SmallDumpIsLines(namespace: string, owner: string, digits: string, name: string)
    ensures Lines(SmallItems(namespace, owner, digits, name)) == SmallDump(namespace, owner, digits, name)
  {
    var items := SmallItems(namespace, owner, digits, name);
    NamespaceLine(items[0], namespace);
    TypeText(items[1], owner);
    RvaText(items[2], digits);
    MethodText(items[3], name);
  }

  lemma WordsWritten(words: seq<string>)
    requires words == ["void"]
    ensures MethodWords(words)
  {
  }

  lemma SmallItemsWritten(namespace: string, owner: string, digits: string, name: string)
    requires SmallWords(namespace, owner, digits, name)
    ensures AllWritten(SmallItems(namespace, owner, digits, name))
  {
    var items := SmallItems(namespace, owner, digits, name);
    WordsWritten(items[3].words);
    NamespaceWritten(namespace);
    TypeWritten(items[1], owner);
    RvaWritten(items[2], digits);
  }

  lemma NamespaceWritten(namespace: string)
    requires namespace == "" || PlainWord(namespace)
    ensures Written(Namespace(namespace))
  {
    forall k | 0 <= k < |namespace| ensures namespace[k] != '\n' { assert !IsSpace(namespace[k]); }
  }

  lemma TypeWritten(item: Item, owner: string)
    requires item == Type("", ["public"], "class", owner, " // TypeDefIndex", "", ": 4860") && PlainWord(owner)
    ensures Written(item)
  {
    CommentText(item.comment);
  }

  lemma CommentText(comment: string)
    requires comment == " // TypeDefIndex"
    ensures " //" <= comment && EndsPlain(comment) && forall k :: 0 <= k < |comment| ==> comment[k] !in ":{"
  {
  }

  lemma RvaWritten(item: Item, digits: string)
    requires item == Rva("\t", digits, " Offset: 0x0") && AllHex(digits) && digits != ""
    ensures Written(item)
  {
  }

  /** The qualified name is the namespace, if there is one, the type and the method, with dots between. */
  function FullName(namespace: string, owner: string, name: string): string {
    if namespace == "" then owner + "." + name else namespace + "." + owner + "." + name
  }

  /** The parser reads the one method out of such a dump. */
  lemma SmallDumpDeclares(namespace: string, owner: string, digits: string, name: string, methods: seq<Method>,
                          wide: char -> bool)
    requires SmallWords(namespace, owner, digits, name)
    requires Parsed(ReadAll(SmallDump(namespace, owner, digits, name), wide), methods)
    ensures methods == [Method(ValueOf(digits, 16), FullName(namespace, owner, name))]
  {
    var items := SmallItems(namespace, owner, digits, name);
    var m := Method(ValueOf(digits, 16), FullName(namespace, owner, name));
    SmallDumpIsLines(namespace, owner, digits, name);
    SmallItemsWritten(namespace, owner, digits, name);
    DumpParses(items, methods, wide);
    SmallReads(items, namespace, owner, digits, name);
    OneMethod(methods, m);
  }

  lemma SmallReads(items: seq<Item>, namespace: string, owner: string, digits: string, name: string)
    requires SmallWords(namespace, owner, digits, name) && items == SmallItems(namespace, owner, digits, name)
    requires AllWritten(items)
    ensures Reads(items).found == [Method(ValueOf(digits, 16), FullName(namespace, owner, name))]
  {
    ReadsFour(items, items[0], items[1], items[2], items[3]);
    assert namespace + "." + owner + "." + name == (namespace + "." + owner) + "." + name;
  }

  lemma ReadsFour(items: seq<Item>, a: Item, b: Item, c: Item, d: Item)
    requires items == [a, b, c, d] && AllWritten(items)
    ensures Written(a) && Written(b) && Written(c) && Written(d)
    ensures Reads(items) == Step(Step(Step(Step(START, a), b), c), d)
  {
    assert items[0] == a && items[1] == b && items[2] == c && items[3] == d;
    var one, two, three := [a], [a, b], [a, b, c];
    assert [] + [a] == one && one + [b] == two && two + [c] == three && three + [d] == items;
    ReadsOne(three, d);
    ReadsOne(two, c);
    ReadsOne(one, b);
    ReadsOne([], a);
  }

  lemma ReadsOne(items: seq<Item>, item: Item)
    requires AllWritten(items + [item])
    ensures AllWritten(items) && Written(item) && Reads(items + [item]) == Step(Reads(items), item)
  {
    var all := items + [item];
    assert all[|items|] == item && all[..|all| - 1] == items;
    assert forall i :: 0 <= i < |items| ==> all[i] == items[i];
  }

  lemma OneMethod(methods: seq<Method>, m: Method)
    requires StrictlySorted(MethodLess, methods) && forall x :: x in methods <==> x in [m]
    ensures methods == [m]
  {
    assert forall i :: 0 <= i < |methods| ==> methods[i] in methods;
    if |methods| > 1 {
      assert methods[0] == methods[1];
      MethodOrder();
    }
    assert m in [m] && m in methods;
  }

  /** For every such dump, the tool is idempotent on all logs if and only if neither the namespace nor the type
      nor the method name has a closing bracket; an explicit implementation of an interface over an array type
      has one. */
  lemma SmallDumpIdempotentIff(namespace: string, owner: string, digits: string, name: string, methods: seq<Method>,
                               maxOffset: nat, wide: char -> bool)
    requires SmallWords(namespace, owner, digits, name)
    requires Parsed(ReadAll(SmallDump(namespace, owner, digits, name), wide), methods)
    ensures (forall log :: Idempotent(log, methods, maxOffset, wide))
            <==> ']' !in namespace && ']' !in owner && ']' !in name
  {
    SmallDumpDeclares(namespace, owner, digits, name, methods, wide);
    BracketNameRepeats(ValueOf(digits, 16), FullName(namespace, owner, name), maxOffset, wide);
    NameBrackets(namespace, owner, name);
  }

  lemma NameBrackets(namespace: string, owner: string, name: string)
    requires NoSpace(namespace) && NoSpace(owner) && NoSpace(name)
    ensures ']' in FullName(namespace, owner, name) <==> ']' in namespace || ']' in owner || ']' in name
    ensures !Opens(FullName(namespace, owner, name))
  {
    var full := FullName(namespace, owner, name);
    assert NoSpace(full);
  }

  lemma ExampleName(name: string)
    requires name == "IList<Byte[]>.Add"
    ensures NoSpace(name) && name != "" && ']' in name && name !in {"if", "for", "while", "switch", "catch"}
  {
    assert |name| == 17 && name[11] == ']';
    assert forall k :: 0 <= k < |name| ==> !IsSpace(name[k]);
  }

  lemma ExampleWord(name: string)
    requires name == "IList<Byte[]>.Add"
    ensures PlainWord(name)
  {
    ExampleName(name);
    assert forall k :: 0 <= k < |name| ==> name[k] !in "/:{(";
  }

  /** A concrete one. */
  lemma BracketNameExample(owner: string, name: string, digits: string, methods: seq<Method>, maxOffset: nat,
                           wide: char -> bool)
    requires PlainWord(owner) && AllHex(digits) && digits != "" && name == "IList<Byte[]>.Add"
    requires Parsed(ReadAll(SmallDump("", owner, digits, name), wide), methods)
    ensures exists log :: !Idempotent(log, methods, maxOffset, wide)
  {
    ExampleName(name);
    ExampleWord(name);
    SmallDumpIdempotentIff("", owner, digits, name, methods, maxOffset, wide);
  }
}
