/** A loaded image written out byte by byte as chapter 5 of the System V gABI lays it out, and what the
    resolver of elf_sym.cpp answers on it.

    Everything here is in the numbers of the standard: dynamic entries of eight bytes, tag first; tags 4,
    5 and 6 for the hash table, the string table and the symbol table; symbols of sixteen bytes with the
    name at 0, the value at 4, the size at 8 and the section at 14; words lowest byte first. */
module ElfImage {
  import opened Wrappers
  import opened ElfResolver

  type Half = h: int | 0 <= h < 0x1_0000

  datatype Symbol = Symbol(name: Address, value: Address, size: Address, info: Byte, other: Byte, section: Half)

  datatype DynEntry = DynEntry(tag: Address, value: Address)

  /** The parts of an image and where they lie, as offsets from the load bias. */
  datatype Image = Image(dynOff: nat, entries: seq<DynEntry>, hashOff: nat, buckets: Address, symOff: nat,
                         symbols: seq<Symbol>, strOff: nat, strings: seq<Byte>)

  // ---------------------------------------------------------------- the bytes

  function WordBytes(v: Address): (b: seq<Byte>)
    ensures |b| == 4
  {
    [v % 0x100, v / 0x100 % 0x100, v / 0x1_0000 % 0x100, v / 0x100_0000]
  }

  function HalfBytes(v: Half): (b: seq<Byte>)
    ensures |b| == 2
  {
    [v % 0x100, v / 0x100]
  }

  function EntryBytes(e: DynEntry): (b: seq<Byte>)
    ensures |b| == 8
  {
    WordBytes(e.tag) + WordBytes(e.value)
  }

  function SymbolBytes(s: Symbol): (b: seq<Byte>)
    ensures |b| == 16
  {
    WordBytes(s.name) + WordBytes(s.value) + WordBytes(s.size) + [s.info, s.other] + HalfBytes(s.section)
  }

  /** The bytes lie at this address, which does not wrap. */
  ghost predicate Holds(mem: Memory, a: int, bytes: seq<Byte>) {
    0 <= a && a + |bytes| <= 0x1_0000_0000 && forall k :: 0 <= k < |bytes| ==> mem[a + k] == bytes[k]
  }

  /** The last entry with this tag tells where its table is, relative to the load bias or absolutely. */
  ghost predicate Tells(entries: seq<DynEntry>, tag: Address, base: Address, off: nat) {
    exists i :: TellsAt(entries, i, tag, base, off)
  }

  predicate TellsAt(entries: seq<DynEntry>, i: int, tag: Address, base: Address, off: nat) {
    && 0 <= i < |entries| && entries[i].tag == tag && (forall j :: i < j < |entries| ==> entries[j].tag != tag)
    && ((entries[i].value == off && off < base) || entries[i].value == base + off)
  }

  ghost predicate Loaded(mem: Memory, base: Address, im: Image) {
    && 0 < base
    && (forall i :: 0 <= i < |im.entries| ==> im.entries[i].tag != 0)
    && (forall i :: 0 <= i < |im.entries| ==> Holds(mem, base + im.dynOff + 8 * i, EntryBytes(im.entries[i])))
    && Holds(mem, base + im.dynOff + 8 * |im.entries|, [0, 0, 0, 0])
    && Tells(im.entries, 5, base, im.strOff) && Tells(im.entries, 6, base, im.symOff)
    && Tells(im.entries, 4, base, im.hashOff)
    && |im.symbols| < 0x1_0000_0000
    && Holds(mem, base + im.hashOff, WordBytes(im.buckets) + WordBytes(|im.symbols|))
    && base + im.symOff < 0x1_0000_0000
    && (forall i :: 0 <= i < |im.symbols| ==> Holds(mem, base + im.symOff + 16 * i, SymbolBytes(im.symbols[i])))
    && Holds(mem, base + im.strOff, im.strings) && im.strings != [] && im.strings[|im.strings| - 1] == 0
    && (forall i :: 0 <= i < |im.symbols| ==> im.symbols[i].name < |im.strings|)
  }

  /** The string table reads as this name and a NUL from this place on. */
  predicate Spelled(strings: seq<Byte>, at: nat, name: CString) {
    && at + |name| < |strings| && strings[at..at + |name|] == name && strings[at + |name|] == 0
  }

  /** Symbol i is named, has a value, is defined, and bears this name. */
  predicate Bears(im: Image, i: nat, name: CString) {
    && i < |im.symbols| && im.symbols[i].name != 0 && im.symbols[i].value != 0 && im.symbols[i].section != 0
    && Spelled(im.strings, im.symbols[i].name, name)
  }

  // ---------------------------------------------------------------- reading them back

  lemma PlainPlus(a: Address, n: nat)
    requires a + n < 0x1_0000_0000
    ensures Plus(a, n) == a + n
  {
  }

  lemma WordDigits(v: Address)
    ensures var b := WordBytes(v); v == b[0] as int + 0x100 * b[1] as int + 0x1_0000 * b[2] as int + 0x100_0000 * b[3] as int
  {
    FourDigits(v);
  }

  lemma ReadWord(mem: Memory, a: Address, v: Address)
    requires Holds(mem, a, WordBytes(v))
    ensures U32(mem, a) == v
  {
    PlainPlus(a, 1);
    PlainPlus(a, 2);
    PlainPlus(a, 3);
    WordDigits(v);
    assert mem[a + 0] == WordBytes(v)[0];
  }

  lemma HoldsPart(mem: Memory, a: int, bytes: seq<Byte>, off: nat, part: seq<Byte>)
    requires Holds(mem, a, bytes) && off + |part| <= |bytes| && bytes[off..off + |part|] == part
    ensures Holds(mem, a + off, part)
  {
    forall k | 0 <= k < |part| ensures mem[a + off + k] == part[k] {
      assert mem[a + (off + k)] == bytes[off + k] == bytes[off..off + |part|][k];
    }
  }

  lemma EntryAt(mem: Memory, base: Address, im: Image, i: nat)
    requires Loaded(mem, base, im) && i < |im.entries|
    ensures Tag(mem, Plus(base, im.dynOff), i) == im.entries[i].tag
    ensures Entry(mem, Plus(base, im.dynOff), i) == im.entries[i].value
  {
    var e, a := im.entries[i], base + im.dynOff + 8 * i;
    PlainPlus(base, im.dynOff);
    PlainPlus(base + im.dynOff, 8 * i);
    PlainPlus(base + im.dynOff, 8 * i + 4);
    HoldsPart(mem, a, EntryBytes(e), 0, WordBytes(e.tag));
    HoldsPart(mem, a, EntryBytes(e), 4, WordBytes(e.value));
    ReadWord(mem, a, e.tag);
    ReadWord(mem, a + 4, e.value);
  }

  lemma EndAt(mem: Memory, base: Address, im: Image)
    requires Loaded(mem, base, im)
    ensures Terminated(mem, Plus(base, im.dynOff), |im.entries|)
  {
    var n := |im.entries|;
    PlainPlus(base, im.dynOff);
    PlainPlus(base + im.dynOff, 8 * n);
    assert WordBytes(0) == [0, 0, 0, 0];
    ReadWord(mem, base + im.dynOff + 8 * n, 0);
    forall k | 0 <= k < n ensures Tag(mem, Plus(base, im.dynOff), k) != 0 { EntryAt(mem, base, im, k); }
  }

  lemma TableAt(mem: Memory, base: Address, im: Image, tag: Address, off: nat)
    requires Loaded(mem, base, im) && Tells(im.entries, tag, base, off) && base + off < 0x1_0000_0000
    ensures Table(mem, base, Plus(base, im.dynOff), |im.entries|, tag) == Plus(base, off)
  {
    var i :| TellsAt(im.entries, i, tag, base, off);
    var dyn := Plus(base, im.dynOff);
    forall j | 0 <= j < |im.entries| ensures Tag(mem, dyn, j) == im.entries[j].tag { EntryAt(mem, base, im, j); }
    LastIs(mem, dyn, |im.entries|, tag, i);
    EntryAt(mem, base, im, i);
    PlainPlus(base, off);
  }

  lemma SymbolAt(mem: Memory, base: Address, im: Image, i: nat)
    requires Loaded(mem, base, im) && i < |im.symbols|
    ensures SymName(mem, base + im.symOff, i) == im.symbols[i].name
    ensures SymValue(mem, base + im.symOff, i) == im.symbols[i].value
    ensures SymSection(mem, base + im.symOff, i) == im.symbols[i].section
  {
    var s, symtab := im.symbols[i], base + im.symOff;
    var a, bytes := symtab + 16 * i, SymbolBytes(s);
    SymbolParts(s);
    PlainPlus(symtab, 16 * i);
    PlainPlus(symtab, 16 * i + 4);
    PlainPlus(symtab, 16 * i + 14);
    HoldsPart(mem, a, bytes, 0, WordBytes(s.name));
    HoldsPart(mem, a, bytes, 4, WordBytes(s.value));
    HoldsPart(mem, a, bytes, 14, HalfBytes(s.section));
    ReadWord(mem, a, s.name);
    ReadWord(mem, a + 4, s.value);
    ReadHalf(mem, a + 14, s.section);
  }

  lemma SymbolParts(s: Symbol)
    ensures var b := SymbolBytes(s);
            b[0..4] == WordBytes(s.name) && b[4..8] == WordBytes(s.value) && b[14..16] == HalfBytes(s.section)
  {
  }

  lemma ReadHalf(mem: Memory, a: Address, v: Half)
    requires Holds(mem, a, HalfBytes(v))
    ensures U16(mem, a) == v
  {
    PlainPlus(a, 1);
    assert mem[a + 0] == HalfBytes(v)[0] && mem[a + 1] == HalfBytes(v)[1];
    assert v == v % 0x100 + 0x100 * (v / 0x100);
  }

  lemma NameAt(mem: Memory, base: Address, im: Image, at: nat, name: CString)
    requires Loaded(mem, base, im) && at < |im.strings|
    ensures NamedAt(mem, Plus(base + im.strOff, at), name) <==> Spelled(im.strings, at, name)
  {
    var a, last := base + im.strOff + at, |im.strings| - 1;
    PlainPlus(base + im.strOff, at);
    forall k | 0 <= k <= last - at ensures mem[Plus(a, k)] == im.strings[at + k] {
      PlainPlus(a, k);
      assert mem[base + im.strOff + (at + k)] == im.strings[at + k];
    }
    if |name| > last - at {
      TooLong(mem, a, name, last - at);
    } else {
      SameName(im.strings, at, name);
    }
  }

  /** A name goes no further than the first NUL. */
  lemma TooLong(mem: Memory, a: Address, name: CString, k: nat)
    requires k < |name| && mem[Plus(a, k)] == 0
    ensures !NamedAt(mem, a, name)
  {
    assert name[k] in name;
  }

  lemma SameName(strings: seq<Byte>, at: nat, name: CString)
    requires at + |name| < |strings|
    ensures Spelled(strings, at, name)
            <==> (forall k :: 0 <= k < |name| ==> strings[at + k] == name[k]) && strings[at + |name|] == 0
  {
    var part := strings[at..at + |name|];
    assert forall k :: 0 <= k < |name| ==> part[k] == strings[at + k];
  }

  lemma BearsIsDefines(mem: Memory, base: Address, im: Image, i: nat, name: CString)
    requires Loaded(mem, base, im) && i < |im.symbols|
    ensures Defines(mem, base + im.strOff, base + im.symOff, i, name) <==> Bears(im, i, name)
  {
    SymbolAt(mem, base, im, i);
    NameAt(mem, base, im, im.symbols[i].name, name);
  }

  lemma CountAt(mem: Memory, base: Address, im: Image)
    requires Loaded(mem, base, im)
    ensures base + im.hashOff + 8 <= 0x1_0000_0000
    ensures U32(mem, Plus(base + im.hashOff, 4)) == |im.symbols|
  {
    PlainPlus(base + im.hashOff, 4);
    HoldsPart(mem, base + im.hashOff, WordBytes(im.buckets) + WordBytes(|im.symbols|), 4, WordBytes(|im.symbols|));
    ReadWord(mem, base + im.hashOff + 4, |im.symbols|);
  }

  // ---------------------------------------------------------------- the answer

  /** The first symbol from i on that bears the name. */
  function FirstBearer(im: Image, name: CString, i: nat): (r: Option<nat>)
    requires i <= |im.symbols|
    ensures r.Some? ==> i <= r.value && Bears(im, r.value, name) && forall j: nat :: i <= j < r.value ==> !Bears(im, j, name)
    ensures r.None? ==> forall j: nat :: i <= j ==> !Bears(im, j, name)
    decreases |im.symbols| - i
  {
    if i == |im.symbols| then None else if Bears(im, i, name) then Some(i) else FirstBearer(im, name, i + 1)
  }

  lemma FirstBearerIs(im: Image, name: CString, i: nat)
    requires i < |im.symbols| && Bears(im, i, name) && forall j: nat :: j < i ==> !Bears(im, j, name)
    ensures FirstBearer(im, name, 0) == Some(i)
  {
  }

  /** The load bias plus the value of the first symbol that bears the name, or null when none does. */
  function ImageAnswer(im: Image, base: Address, name: CString): Address {
    match FirstBearer(im, name, 0)
    case None => 0
    case Some(i) => (base + im.symbols[i].value) % 0x1_0000_0000
  }

  lemma {:induction false} HeaderIs(phdrs: seq<Phdr>, h: nat)
    requires h < |phdrs| && phdrs[h].ptype == 2 && forall j :: 0 <= j < h ==> phdrs[j].ptype != 2
    ensures DynamicHeader(phdrs) == Some(phdrs[h].vaddr)
  {
    if h > 0 {
      HeaderIs(phdrs[1..], h - 1);
    }
  }

  /** The resolver finds the three tables where the image has them. */
  lemma ImageLaid(mem: Memory, base: Address, phdrs: seq<Phdr>, im: Image, h: nat)
    requires Loaded(mem, base, im)
    requires h < |phdrs| && phdrs[h] == Phdr(2, im.dynOff) && forall j :: 0 <= j < h ==> phdrs[j].ptype != 2
    ensures Laid(mem, base, phdrs, Layout(0, im.dynOff, |im.entries|, im.strOff, 0, im.symOff, 0, im.hashOff))
  {
    HeaderIs(phdrs, h);
    DynamicPlace(mem, base, im);
    EndAt(mem, base, im);
    TablePlaces(mem, base, im);
  }

  lemma DynamicPlace(mem: Memory, base: Address, im: Image)
    requires Loaded(mem, base, im)
    ensures base + im.dynOff < 0x1_0000_0000 && Plus(base, im.dynOff) != 0
  {
    PlainPlus(base, im.dynOff);
  }

  lemma TablePlaces(mem: Memory, base: Address, im: Image)
    requires Loaded(mem, base, im)
    ensures Table(mem, base, Plus(base, im.dynOff), |im.entries|, DT_STRTAB) == Plus(base, im.strOff) != 0
    ensures Table(mem, base, Plus(base, im.dynOff), |im.entries|, DT_SYMTAB) == Plus(base, im.symOff) != 0
    ensures Table(mem, base, Plus(base, im.dynOff), |im.entries|, DT_HASH) == Plus(base, im.hashOff) != 0
  {
    TableAt(mem, base, im, 5, im.strOff);
    TableAt(mem, base, im, 6, im.symOff);
    TableAt(mem, base, im, 4, im.hashOff);
    PlainPlus(base, im.strOff);
    PlainPlus(base, im.symOff);
    PlainPlus(base, im.hashOff);
  }

  /** On every image written out in this way: the answer for a name is the load bias plus the value of the
      first symbol that is named, has a value, is defined and bears that name, and null when there is none. */
  lemma ImageAnswers(mem: Memory, base: Address, phdrs: seq<Phdr>, im: Image, h: nat, name: CString, r: Address)
    requires Loaded(mem, base, im)
    requires h < |phdrs| && phdrs[h] == Phdr(2, im.dynOff) && forall j :: 0 <= j < h ==> phdrs[j].ptype != 2
    requires Answer(mem, base, phdrs, name, r)
    ensures r == ImageAnswer(im, base, name)
  {
    var l := Layout(0, im.dynOff, |im.entries|, im.strOff, 0, im.symOff, 0, im.hashOff);
    ImageLaid(mem, base, phdrs, im, h);
    AnswerOfLaid(mem, base, phdrs, l, name, r);
    ImageFacts(mem, base, im, name);
    AnswerOfTables(mem, base, Plus(base, im.strOff), Plus(base, im.symOff), Plus(base, im.hashOff), im, name, r);
  }

  lemma ImageFacts(mem: Memory, base: Address, im: Image, name: CString)
    requires Loaded(mem, base, im)
    ensures var strtab, symtab, hash := Plus(base, im.strOff), Plus(base, im.symOff), Plus(base, im.hashOff);
            && strtab != 0 && symtab != 0 && hash != 0 && U32(mem, Plus(hash, 4)) == |im.symbols|
            && (forall i :: 0 <= i < |im.symbols| ==> (Defines(mem, strtab, symtab, i, name) <==> Bears(im, i, name)))
            && (forall i :: 0 <= i < |im.symbols| ==> SymValue(mem, symtab, i) == im.symbols[i].value)
  {
    TablePlaces(mem, base, im);
    CountAt(mem, base, im);
    PlainPlus(base, im.hashOff);
    PlainPlus(base, im.strOff);
    PlainPlus(base, im.symOff);
    AllSymbols(mem, base, Plus(base, im.strOff), Plus(base, im.symOff), im, name);
  }

  lemma AllSymbols(mem: Memory, base: Address, strtab: Address, symtab: Address, im: Image, name: CString)
    requires Loaded(mem, base, im) && strtab == base + im.strOff && symtab == base + im.symOff
    ensures forall i :: 0 <= i < |im.symbols| ==> (Defines(mem, strtab, symtab, i, name) <==> Bears(im, i, name))
    ensures forall i :: 0 <= i < |im.symbols| ==> SymValue(mem, symtab, i) == im.symbols[i].value
  {
    forall i | 0 <= i < |im.symbols|
      ensures Defines(mem, strtab, symtab, i, name) <==> Bears(im, i, name)
      ensures SymValue(mem, symtab, i) == im.symbols[i].value
    {
      BearsIsDefines(mem, base, im, i, name);
      SymbolAt(mem, base, im, i);
    }
  }

  lemma AnswerOfTables(mem: Memory, base: Address, strtab: Address, symtab: Address, hash: Address, im: Image,
                       name: CString, r: Address)
    requires strtab != 0 && symtab != 0 && hash != 0 && U32(mem, Plus(hash, 4)) == |im.symbols|
    requires forall i :: 0 <= i < |im.symbols| ==> (Defines(mem, strtab, symtab, i, name) <==> Bears(im, i, name))
    requires forall i :: 0 <= i < |im.symbols| ==> SymValue(mem, symtab, i) == im.symbols[i].value
    requires AnswerIn(mem, base, strtab, symtab, hash, name, r)
    ensures r == ImageAnswer(im, base, name)
  {
    if i: nat :| FirstDefining(mem, strtab, symtab, |im.symbols|, name, i) && r == Plus(base, SymValue(mem, symtab, i)) {
      FirstBearerIs(im, name, i);
      ValueIs(im, base, name, i);
    } else {
      assert FirstBearer(im, name, 0) == None;
    }
  }

  lemma ValueIs(im: Image, base: Address, name: CString, i: nat)
    requires FirstBearer(im, name, 0) == Some(i)
    ensures ImageAnswer(im, base, name) == Plus(base, im.symbols[i].value)
  {
    WrapIsRemainder(base + im.symbols[i].value);
  }

  // ---------------------------------------------------------------- the small image

  const SMALL_IMAGE := Image(0, [DynEntry(5, 0x40), DynEntry(6, 0x50), DynEntry(4, 0x80)], 0x80, 0, 0x50,
                             [Symbol(0, 0, 0, 0, 0, 0), Symbol(1, 0x33, 0, 0, 0, 7)], 0x40, [0, 0x61, 0])

  lemma SmallHolds(base: Address, off: nat, bytes: seq<Byte>)
    requires base + 0x100 <= SPACE && off + |bytes| <= 0x100
    requires forall k :: 0 <= k < |bytes| ==> SmallImage(off + k, base) == bytes[k]
    ensures Holds(SmallMemory(base), base + off, bytes)
  {
    forall k | 0 <= k < |bytes| ensures SmallMemory(base)[base + off + k] == bytes[k] {
      SmallByte(base, off + k);
      PlainPlus(base, off + k);
    }
  }

  lemma SmallEntryHolds(base: Address, i: nat, e: DynEntry)
    requires base + 0x100 <= SPACE && i < 3 && e == DynEntry(SmallTag(i), SmallOffset(i))
    ensures Holds(SmallMemory(base), base + 0 + 8 * i, EntryBytes(e))
  {
    assert EntryBytes(e) == [SmallTag(i), 0, 0, 0, SmallOffset(i), 0, 0, 0];
    SmallHolds(base, 8 * i, EntryBytes(e));
  }

  lemma SmallSymbolHolds(base: Address, i: nat, s: Symbol)
    requires base + 0x100 <= SPACE
    requires i < 2 && s == if i == 0 then Symbol(0, 0, 0, 0, 0, 0) else Symbol(1, 0x33, 0, 0, 0, 7)
    ensures Holds(SmallMemory(base), base + 0x50 + 16 * i, SymbolBytes(s))
  {
    assert SymbolBytes(s) == [i, 0, 0, 0, if i == 0 then 0 else 0x33, 0, 0, 0, 0, 0, 0, 0, 0, 0, if i == 0 then 0 else 7, 0];
    SmallHolds(base, 0x50 + 16 * i, SymbolBytes(s));
  }

  lemma SmallHashHolds(base: Address)
    requires base + 0x100 <= SPACE
    ensures Holds(SmallMemory(base), base + 0x80, WordBytes(0) + WordBytes(2))
  {
    assert WordBytes(0) + WordBytes(2) == [0, 0, 0, 0, 2, 0, 0, 0];
    SmallHolds(base, 0x80, WordBytes(0) + WordBytes(2));
  }

  lemma SmallTells(base: Address, entries: seq<DynEntry>)
    requires 0x80 < base && entries == [DynEntry(5, 0x40), DynEntry(6, 0x50), DynEntry(4, 0x80)]
    ensures Tells(entries, 5, base, 0x40) && Tells(entries, 6, base, 0x50) && Tells(entries, 4, base, 0x80)
  {
    assert TellsAt(entries, 0, 5, base, 0x40) && TellsAt(entries, 1, 6, base, 0x50) && TellsAt(entries, 2, 4, base, 0x80);
  }

  lemma SmallEntriesHold(base: Address, im: Image)
    requires base + 0x100 <= SPACE && im == SMALL_IMAGE
    ensures forall i :: 0 <= i < |im.entries| ==> Holds(SmallMemory(base), base + 0 + 8 * i, EntryBytes(im.entries[i]))
    ensures Holds(SmallMemory(base), base + 24, [0, 0, 0, 0])
  {
    forall i | 0 <= i < 3 ensures Holds(SmallMemory(base), base + 0 + 8 * i, EntryBytes(im.entries[i])) {
      SmallEntryHolds(base, i, im.entries[i]);
    }
    SmallHolds(base, 24, [0, 0, 0, 0]);
  }

  lemma SmallSymbolsHold(base: Address, im: Image)
    requires base + 0x100 <= SPACE && im == SMALL_IMAGE
    ensures forall i :: 0 <= i < |im.symbols| ==> Holds(SmallMemory(base), base + 0x50 + 16 * i, SymbolBytes(im.symbols[i]))
  {
    forall i | 0 <= i < 2 ensures Holds(SmallMemory(base), base + 0x50 + 16 * i, SymbolBytes(im.symbols[i])) {
      SmallSymbolHolds(base, i, im.symbols[i]);
    }
  }

  lemma SmallStringsHold(base: Address, strings: seq<Byte>)
    requires base + 0x100 <= SPACE && strings == [0, 0x61, 0]
    ensures Holds(SmallMemory(base), base + 0x40, strings)
  {
    SmallHolds(base, 0x40, strings);
  }

  lemma SmallImageLoaded(base: Address, im: Image)
    requires 0x80 < base && base + 0x100 <= SPACE && im == SMALL_IMAGE
    ensures Loaded(SmallMemory(base), base, im)
  {
    SmallTells(base, im.entries);
    SmallEntriesHold(base, im);
    SmallHashHolds(base);
    SmallSymbolsHold(base, im);
    SmallStringsHold(base, im.strings);
  }

  lemma SmallNamesIn(im: Image, a: CString, b: CString)
    requires im == SMALL_IMAGE && a == [0x61] && b == [0x62]
    ensures FirstBearer(im, a, 0) == Some(1) && FirstBearer(im, b, 0) == None
    ensures im.symbols[1].value == 0x33
  {
    assert im.strings[1..2] == [0x61];
    assert !Bears(im, 0, a) && Bears(im, 1, a) && !Bears(im, 0, b) && !Bears(im, 1, b);
  }

  lemma SmallAnswer(mem: Memory, base: Address, phdrs: seq<Phdr>, im: Image, name: CString, r: Address)
    requires 0x80 < base && base + 0x100 <= SPACE && mem == SmallMemory(base) && im == SMALL_IMAGE
    requires phdrs == [Phdr(2, 0)] && Answer(mem, base, phdrs, name, r)
    ensures r == ImageAnswer(im, base, name)
  {
    SmallImageLoaded(base, im);
    ImageAnswers(mem, base, phdrs, im, 0, name, r);
  }

  lemma FoundAt(im: Image, base: Address, name: CString, i: nat, r: Address)
    requires FirstBearer(im, name, 0) == Some(i) && r == ImageAnswer(im, base, name)
    requires base + im.symbols[i].value < 0x1_0000_0000
    ensures r == base + im.symbols[i].value
  {
    ValueIs(im, base, name, i);
    PlainPlus(base, im.symbols[i].value);
  }

  /** The name a is found in the small image, at 0x33 above the load bias, and the name b is not. */
  lemma SmallImageAnswers(mem: Memory, base: Address, phdrs: seq<Phdr>, im: Image, a: CString, b: CString, r: Address,
                          s: Address)
    requires 0x80 < base && base + 0x100 <= SPACE && mem == SmallMemory(base) && im == SMALL_IMAGE
    requires phdrs == [Phdr(2, 0)] && a == [0x61] && b == [0x62]
    requires Answer(mem, base, phdrs, a, r) && Answer(mem, base, phdrs, b, s)
    ensures r == base + 0x33 && s == 0
  {
    SmallAnswer(mem, base, phdrs, im, a, r);
    SmallAnswer(mem, base, phdrs, im, b, s);
    SmallNamesIn(im, a, b);
    FoundAt(im, base, a, 1, r);
  }
}
