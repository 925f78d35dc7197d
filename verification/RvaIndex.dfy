/** The address index of symbolize_log.py: methods grouped by start address, found by binary search,
    and the linear scan that defines what it must find. */
module RvaIndex {
  import opened Wrappers
  import opened Numerals
  import opened Sorting
  import opened DumpParser

  // ---------------------------------------------------------------- the reference: a linear scan

  /** The greatest start address not above the query. */
  function Start(methods: seq<Method>, query: nat): (r: Option<nat>)
    ensures r.Some? ==> r.value <= query
  {
    if methods == [] then None
    else
      var rest, here := Start(methods[1..], query), methods[0].rva;
      if here <= query && (rest.None? || rest.value < here) then Some(here) else rest
  }

  /** The names at a start address, as listed. */
  function NamesOf(methods: seq<Method>, rva: nat): seq<string> {
    if methods == [] then []
    else
      var last := methods[|methods| - 1];
      NamesOf(methods[..|methods| - 1], rva) + (if last.rva == rva then [last.qualifiedName] else [])
  }

  function Names(methods: seq<Method>, rva: nat): seq<string> { SortedDistinct(StringLess, NamesOf(methods, rva)) }

  function Join(names: seq<string>, separator: string): string {
    if names == [] then ""
    else if |names| == 1 then names[0]
    else names[0] + separator + Join(names[1..], separator)
  }

  /** The first three names and the number of the others. */
  function Rendered(names: seq<string>): string {
    if |names| <= 3 then Join(names, "|")
    else Join(names[..3], "|") + "|+" + Decimal(|names| - 3) + " more"
  }

  function Lookup(methods: seq<Method>, query: nat, maxOffset: int): (r: Option<string>)
    ensures r.Some? ==> r.value != ""
  {
    var start := Start(methods, query);
    if start.None? || query - start.value > maxOffset then None
    else Some(Rendered(Names(methods, start.value)) + "+0x" + Hex(query - start.value))
  }

  ghost predicate IsStart(methods: seq<Method>, query: nat, start: nat) {
    && start <= query && HasRva(methods, start)
    && (forall m :: m in methods && m.rva <= query ==> m.rva <= start)
  }

  lemma {:induction false} StartMeans(methods: seq<Method>, query: nat)
    ensures forall s: nat :: Start(methods, query) == Some(s) <==> IsStart(methods, query, s)
    ensures Start(methods, query).None? <==> forall m :: m in methods ==> m.rva > query
  {
    if methods != [] {
      StartMeans(methods[1..], query);
      assert forall m :: m in methods <==> m == methods[0] || m in methods[1..];
      forall s: nat ensures Start(methods, query) == Some(s) <==> IsStart(methods, query, s) {
        if Start(methods, query) == Some(s) {
          if s == methods[0].rva {
            assert methods[0] in methods;
          }
          assert IsStart(methods, query, s);
        }
      }
    }
  }

  lemma {:induction false} NamesOfMeans(methods: seq<Method>, rva: nat)
    ensures forall name :: name in NamesOf(methods, rva) <==> Method(rva, name) in methods
  {
    if methods != [] {
      var front, last := methods[..|methods| - 1], methods[|methods| - 1];
      NamesOfMeans(front, rva);
      assert methods == front + [last];
      assert forall name :: Method(rva, name) in methods <==> Method(rva, name) in front || Method(rva, name) == last;
    }
  }

  /** The names at an address are the strictly sorted sequence of exactly the methods that start there. */
  lemma NamesMean(methods: seq<Method>, rva: nat)
    ensures StrictlySorted(StringLess, Names(methods, rva))
    ensures forall name :: name in Names(methods, rva) <==> Method(rva, name) in methods
  {
    StringOrder();
    SortedDistinctMeans(StringLess, NamesOf(methods, rva));
    NamesOfMeans(methods, rva);
  }

  lemma StartSame(a: seq<Method>, b: seq<Method>, query: nat)
    requires forall m :: m in a <==> m in b
    ensures Start(a, query) == Start(b, query)
  {
    StartMeans(a, query);
    StartMeans(b, query);
    if Start(a, query).Some? {
      assert IsStart(b, query, Start(a, query).value);
    }
  }

  lemma NamesSame(a: seq<Method>, b: seq<Method>, rva: nat)
    requires forall m :: m in a <==> m in b
    ensures Names(a, rva) == Names(b, rva)
  {
    StringOrder();
    NamesOfMeans(a, rva);
    NamesOfMeans(b, rva);
    SortedDistinctSame(StringLess, NamesOf(a, rva), NamesOf(b, rva));
  }

  /** Neither the order nor the repetition of the methods matters. */
  lemma LookupSame(a: seq<Method>, b: seq<Method>, query: nat, maxOffset: int)
    requires forall m :: m in a <==> m in b
    ensures Lookup(a, query, maxOffset) == Lookup(b, query, maxOffset)
  {
    StartSame(a, b, query);
    if Start(a, query).Some? {
      NamesSame(a, b, Start(a, query).value);
    }
  }

  /** There is no answer exactly when no method starts at or below the query within reach. */
  lemma NoAnswer(methods: seq<Method>, query: nat, maxOffset: int)
    ensures Lookup(methods, query, maxOffset).None?
            <==> forall m :: m in methods && m.rva <= query ==> query - m.rva > maxOffset
  {
    StartMeans(methods, query);
    if Start(methods, query).Some? {
      var s := Start(methods, query).value;
      assert IsStart(methods, query, s);
    }
  }

  /** Otherwise the answer names the methods of the nearest start and ends in an offset which, parsed
      back and added to that start, gives the query. */
  lemma AnswerAt(methods: seq<Method>, query: nat, maxOffset: int, s: nat)
    requires IsStart(methods, query, s) && query - s <= maxOffset
    ensures Lookup(methods, query, maxOffset) == Some(Rendered(Names(methods, s)) + "+0x" + Hex(query - s))
    ensures s + ParseHex(Hex(query - s)) == query
  {
    StartMeans(methods, query);
    assert Start(methods, query) == Some(s);
    ParseHexOfHex(query - s);
  }

  // ---------------------------------------------------------------- the index

  class Index {
    var rvas: seq<nat>
    var names: map<nat, seq<string>>
    ghost var methods: seq<Method>

    ghost predicate Valid()
      reads this
    {
      && StrictlySorted(NatLess, rvas)
      && (forall r :: r in rvas <==> r in names)
      && (forall r :: r in names <==> HasRva(methods, r))
      && (forall r :: r in names ==> names[r] == Names(methods, r))
    }

    constructor (input: seq<Method>)
      ensures Valid() && methods == input
    {
      var grouped := Group(input);
      var keys := SortedKeys(grouped);
      rvas := keys;
      names := map r | r in grouped :: SortedDistinct(StringLess, grouped[r]);
      methods := input;
    }

    /** bisect.bisect_right: the number of starts not above the query. */
    method BisectRight(query: nat) returns (position: nat)
      requires Valid()
      ensures position <= |rvas|
      ensures forall i :: 0 <= i < position ==> rvas[i] <= query
      ensures forall i :: position <= i < |rvas| ==> query < rvas[i]
    {
      var low, high := 0, |rvas|;
      while low < high
        invariant 0 <= low <= high <= |rvas|
        invariant forall i :: 0 <= i < low ==> rvas[i] <= query
        invariant forall i :: high <= i < |rvas| ==> query < rvas[i]
      {
        var mid := (low + high) / 2;
        if query < rvas[mid] {
          assert forall i :: mid < i < |rvas| ==> NatLess(rvas[mid], rvas[i]);
          high := mid;
        } else {
          assert forall i :: 0 <= i < mid ==> NatLess(rvas[i], rvas[mid]);
          low := mid + 1;
        }
      }
      position := low;
    }

    /** What the position found by the search says about the methods. */
    lemma PositionMeans(query: nat, right: nat)
      requires Valid() && right <= |rvas|
      requires forall i :: 0 <= i < right ==> rvas[i] <= query
      requires forall i :: right <= i < |rvas| ==> query < rvas[i]
      ensures Start(methods, query) == if right == 0 then None else Some(rvas[right - 1])
    {
      StartMeans(methods, query);
      forall m | m in methods ensures exists i :: 0 <= i < |rvas| && rvas[i] == m.rva {
        assert HasRva(methods, m.rva) && m.rva in names && m.rva in rvas;
      }
      if right > 0 {
        assert rvas[right - 1] in rvas && rvas[right - 1] in names;
        LastBelow(rvas, methods, query, right);
      }
    }

    method Resolve(query: nat, maxOffset: int) returns (r: Option<string>)
      requires Valid()
      ensures r == Lookup(methods, query, maxOffset)
    {
      var right := BisectRight(query);
      var position := right as int - 1;
      PositionMeans(query, right);
      if position < 0 { return None; }
      var start := rvas[position];
      var offset := query - start;
      if offset > maxOffset { return None; }
      assert start in rvas;
      var rendered := Render(names[start]);
      return Some(rendered + "+0x" + Hex(offset));
    }
  }

  method Render(names: seq<string>) returns (rendered: string)
    ensures rendered == Rendered(names)
  {
    rendered := Join(if |names| <= 3 then names else names[..3], "|");
    if |names| > 3 {
      rendered := rendered + "|+" + Decimal(|names| - 3) + " more";
    }
  }

  lemma LastBelow(rvas: seq<nat>, methods: seq<Method>, query: nat, right: nat)
    requires StrictlySorted(NatLess, rvas) && 0 < right <= |rvas|
    requires forall i :: 0 <= i < right ==> rvas[i] <= query
    requires forall i :: right <= i < |rvas| ==> query < rvas[i]
    requires forall m :: m in methods ==> exists i :: 0 <= i < |rvas| && rvas[i] == m.rva
    requires HasRva(methods, rvas[right - 1])
    ensures IsStart(methods, query, rvas[right - 1])
  {
  }

  lemma NamesOfStep(input: seq<Method>, i: nat, r: nat)
    requires i < |input|
    ensures NamesOf(input[..i + 1], r)
            == NamesOf(input[..i], r) + if input[i].rva == r then [input[i].qualifiedName] else []
  {
    assert input[..i + 1][..i] == input[..i];
  }

  ghost predicate HasRva(methods: seq<Method>, r: nat) { exists m :: m in methods && m.rva == r }

  lemma HasRvaStep(input: seq<Method>, i: nat, r: nat)
    requires i < |input|
    ensures HasRva(input[..i + 1], r) <==> HasRva(input[..i], r) || input[i].rva == r
  {
  }

  /** The loop over setdefault and append. */
  method Group(input: seq<Method>) returns (grouped: map<nat, seq<string>>)
    ensures forall r :: r in grouped <==> HasRva(input, r)
    ensures forall r :: r in grouped ==> grouped[r] == NamesOf(input, r)
  {
    grouped := map[];
    for i := 0 to |input|
      invariant forall r :: r in grouped <==> HasRva(input[..i], r)
      invariant forall r: nat :: NamesOf(input[..i], r) == if r in grouped then grouped[r] else []
    {
      forall r: nat
        ensures NamesOf(input[..i + 1], r)
                == NamesOf(input[..i], r) + if input[i].rva == r then [input[i].qualifiedName] else []
        ensures HasRva(input[..i + 1], r) <==> HasRva(input[..i], r) || input[i].rva == r
      {
        NamesOfStep(input, i, r);
        HasRvaStep(input, i, r);
      }
      var m := input[i];
      if m.rva !in grouped {
        grouped := grouped[m.rva := []];
      }
      grouped := grouped[m.rva := grouped[m.rva] + [m.qualifiedName]];
    }
    assert input[..|input|] == input;
  }

  /** sorted(grouped): the keys in ascending order. */
  method SortedKeys(grouped: map<nat, seq<string>>) returns (keys: seq<nat>)
    ensures StrictlySorted(NatLess, keys)
    ensures forall r :: r in keys <==> r in grouped
  {
    NatOrder();
    keys := [];
    var left := grouped.Keys;
    while left != {}
      invariant StrictlySorted(NatLess, keys)
      invariant left <= grouped.Keys
      invariant forall r :: r in keys <==> r in grouped && r !in left
      decreases |left|
    {
      var r :| r in left;
      InsertMeans(NatLess, keys, r);
      keys := Insert(NatLess, keys, r);
      left := left - {r};
    }
  }

  lemma JoinTwo(a: string, b: string)
    ensures Join([a, b], "|") == a + "|" + b
  {
    assert [a, b][1..] == [b] && Join([b], "|") == b;
  }

  /** How an answer shows its names: up to three with bars between them, and for more than three the number
      of the others. */
  lemma RenderedShapes(a: string, b: string, c: string, more: seq<string>)
    requires more != []
    ensures Rendered([a]) == a
    ensures Rendered([a, b]) == a + "|" + b
    ensures Rendered([a, b, c]) == a + "|" + b + "|" + c
    ensures Rendered([a, b, c] + more) == a + "|" + b + "|" + c + "|+" + Decimal(|more|) + " more"
  {
    JoinTwo(a, b);
    JoinTwo(b, c);
    assert [a, b, c][1..] == [b, c];
    assert a + "|" + (b + "|" + c) == a + "|" + b + "|" + c;
    assert ([a, b, c] + more)[..3] == [a, b, c];
  }
}
