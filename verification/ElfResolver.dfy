/** elf_sym.cpp: finding an export of a library that is already mapped, by reading its program
    headers, dynamic section, SysV hash header and symbol table straight from memory.

    Memory is flat, byte by byte, with 32-bit little-endian addresses that wrap around. Structure
    offsets and constants are those of the System V gABI, chapter 5 (ELFCLASS32). */
module ElfResolver {
  import opened Wrappers

  const SPACE := 0x1_0000_0000
  const PT_DYNAMIC := 2
  const DT_NULL := 0
  const DT_HASH := 4
  const DT_STRTAB := 5
  const DT_SYMTAB := 6
  const SHN_UNDEF := 0
  const SLASH: Byte := 0x2F

  type Byte = b: int | 0 <= b < 0x100
  type Address = a: int | 0 <= a < 0x1_0000_0000
  type Memory = m: seq<Byte> | |m| == 0x1_0000_0000 ghost witness seq(0x1_0000_0000, i => 0)
  type CString = s: seq<Byte> | 0 !in s

  /** The address that a number stands for, modulo 2^32. */
  function Wrap(x: int): Address
    decreases if x < 0 then SPACE - x else x
  {
    if x < 0 then Wrap(x + SPACE) else if x < SPACE then x else Wrap(x - SPACE)
  }

  lemma ShiftedRemainder(x: int)
    ensures (x + SPACE) % SPACE == x % SPACE
  {
  }

  lemma {:induction false} WrapIsRemainder(x: int)
    ensures Wrap(x) == x % SPACE
    decreases if x < 0 then SPACE - x else x
  {
    if x < 0 {
      WrapIsRemainder(x + SPACE);
      ShiftedRemainder(x);
    } else if x >= SPACE {
      WrapIsRemainder(x - SPACE);
      ShiftedRemainder(x - SPACE);
    }
  }

  function Plus(a: Address, n: int): Address { Wrap(a + n) }

  lemma PlusPlus(a: Address, m: int, n: int)
    ensures Plus(Plus(a, m), n) == Plus(a, m + n)
  {
    WrapIsRemainder(a + m);
    WrapIsRemainder(a + m + n);
    WrapIsRemainder(Plus(a, m) + n);
  }

  function U16(mem: Memory, a: Address): nat { mem[a] as int + 0x100 * mem[Plus(a, 1)] as int }

  function U32(mem: Memory, a: Address): Address {
    mem[a] as int + 0x100 * mem[Plus(a, 1)] as int + 0x1_0000 * mem[Plus(a, 2)] as int
    + 0x100_0000 * mem[Plus(a, 3)] as int
  }

  // ---------------------------------------------------------------- the loaded libraries

  datatype Phdr = Phdr(ptype: nat, vaddr: Address)

  /** What dl_iterate_phdr reports of one library; either pointer may be null. */
  datatype Library = Library(path: Option<CString>, base: Address, phdrs: Option<seq<Phdr>>)

  /** strrchr(path, '/') + 1, or path. */
  function FileName(path: seq<Byte>): seq<Byte> {
    if path == [] then []
    else if SLASH in path[1..] then FileName(path[1..])
    else if path[0] == SLASH then path[1..]
    else path
  }

  predicate NameMatches(path: Option<CString>, soname: CString) {
    path.Some? && path.value != [] && FileName(path.value) == soname
  }

  lemma {:induction false} FileNameMeans(path: seq<Byte>, soname: seq<Byte>)
    requires SLASH !in soname
    ensures FileName(path) == soname <==> path == soname || exists dir :: path == dir + [SLASH] + soname
  {
    if SLASH !in path {
      assert forall dir :: SLASH in dir + [SLASH] + soname;
      NoSlash(path);
    } else {
      var dir, file := SplitAtLast(path);
      assert path != soname;
      if FileName(path) == soname {
        assert path == dir + [SLASH] + soname;
      }
      forall d | path == d + [SLASH] + soname ensures soname == file {
        LastSlashUnique(d, soname, dir, file);
      }
    }
  }

  lemma NoSlash(path: seq<Byte>)
    requires SLASH !in path
    ensures FileName(path) == path
  {
  }

  lemma {:induction false} SplitAtLast(path: seq<Byte>) returns (dir: seq<Byte>, file: seq<Byte>)
    requires SLASH in path
    ensures path == dir + [SLASH] + file && SLASH !in file && FileName(path) == file
  {
    if SLASH in path[1..] {
      dir, file := SplitAtLast(path[1..]);
      dir := [path[0]] + dir;
    } else {
      dir, file := [], path[1..];
    }
  }

  lemma LastSlashUnique(d: seq<Byte>, f: seq<Byte>, d': seq<Byte>, f': seq<Byte>)
    requires SLASH !in f && SLASH !in f'
    requires d + [SLASH] + f == d' + [SLASH] + f'
    ensures d == d' && f == f'
  {
    var s := d + [SLASH] + f;
    assert s[|d|] == SLASH && s[|d'|] == SLASH;
    assert forall i :: |d| < i < |s| ==> s[i] == f[i - |d| - 1];
    assert forall i :: |d'| < i < |s| ==> s[i] == f'[i - |d'| - 1];
    assert |d| == |d'|;
    assert d == s[..|d|] && f == s[|d| + 1..];
    assert d' == s[..|d|] && f' == s[|d| + 1..];
  }

  /** A library matches exactly when its path is the file name itself or ends in a slash and the
      file name. */
  lemma NameMatchesIff(path: Option<CString>, soname: CString)
    requires SLASH !in soname
    ensures NameMatches(path, soname) <==>
              path.Some? && path.value != []
              && (path.value == soname || exists dir :: path.value == dir + [SLASH] + soname)
  {
    if path.Some? {
      FileNameMeans(path.value, soname);
    }
  }

  /** The structure that the callback fills. */
  class Found {
    var base: Address
    var phdrs: Option<seq<Phdr>>
    var ok: bool

    constructor ()
      ensures base == 0 && phdrs == None && !ok
    {
      base, phdrs, ok := 0, None, false;
    }
  }

  method IterateCallback(info: Library, soname: CString, found: Found) returns (stop: bool)
    modifies found
    ensures stop <==> NameMatches(info.path, soname)
    ensures stop ==> found.base == info.base && found.phdrs == info.phdrs && found.ok
    ensures !stop ==> unchanged(found)
  {
    if !NameMatches(info.path, soname) { return false; }
    found.base := info.base;
    found.phdrs := info.phdrs;
    found.ok := true;
    return true;
  }

  /** The first library with the given file name. */
  function FirstNamed(libs: seq<Library>, soname: CString): Option<Library> {
    if libs == [] then None
    else if NameMatches(libs[0].path, soname) then Some(libs[0])
    else FirstNamed(libs[1..], soname)
  }

  ghost predicate FirstMatch(libs: seq<Library>, soname: CString, i: nat)
    requires i < |libs|
  {
    NameMatches(libs[i].path, soname) && forall j :: 0 <= j < i ==> !NameMatches(libs[j].path, soname)
  }

  /** It is the one that matches with none before it that does. */
  lemma {:induction false} FirstNamedMeans(libs: seq<Library>, soname: CString)
    ensures forall i :: 0 <= i < |libs| && FirstMatch(libs, soname, i) ==> FirstNamed(libs, soname) == Some(libs[i])
    ensures FirstNamed(libs, soname).None? <==> forall i :: 0 <= i < |libs| ==> !NameMatches(libs[i].path, soname)
  {
    if libs != [] {
      FirstNamedMeans(libs[1..], soname);
      assert forall i :: 0 < i < |libs| ==> libs[i] == libs[1..][i - 1];
    }
  }

  method FindLibrary(libs: seq<Library>, soname: CString) returns (found: Found, ok: bool)
    ensures fresh(found)
    ensures ok <==> FirstNamed(libs, soname).Some? && FirstNamed(libs, soname).value.phdrs.Some?
    ensures ok ==> found.base == FirstNamed(libs, soname).value.base
    ensures ok ==> found.phdrs == FirstNamed(libs, soname).value.phdrs
  {
    found := new Found();
    var i, stop := 0, false;
    assert libs[0..] == libs;
    while i < |libs| && !stop
      invariant 0 <= i <= |libs|
      invariant !stop ==> found.base == 0 && found.phdrs == None && !found.ok
      invariant !stop ==> FirstNamed(libs, soname) == FirstNamed(libs[i..], soname)
      invariant stop ==> FirstNamed(libs, soname).Some? && found.ok
      invariant stop ==> found.base == FirstNamed(libs, soname).value.base
      invariant stop ==> found.phdrs == FirstNamed(libs, soname).value.phdrs
      decreases |libs| - i
    {
      assert libs[i..][0] == libs[i] && libs[i..][1..] == libs[i + 1..];
      stop := IterateCallback(libs[i], soname, found);
      i := i + 1;
    }
    ok := found.ok && found.phdrs.Some?;
  }

  // ---------------------------------------------------------------- what a lookup means

  function FixAddress(value: Address, base: Address): Address {
    if value < base then Plus(base, value) else value
  }

  /** The value of the first PT_DYNAMIC header. */
  function DynamicHeader(phdrs: seq<Phdr>): Option<Address> {
    if phdrs == [] then None
    else if phdrs[0].ptype == PT_DYNAMIC then Some(phdrs[0].vaddr)
    else DynamicHeader(phdrs[1..])
  }

  /** The dynamic section: that value moved by the load bias, unless it is null. */
  function DynamicAt(base: Address, phdrs: seq<Phdr>): Option<Address> {
    var v := DynamicHeader(phdrs);
    if v.None? || Plus(base, v.value) == 0 then None else Some(Plus(base, v.value))
  }

  function Tag(mem: Memory, dyn: Address, k: nat): Address { U32(mem, Plus(dyn, 8 * k)) }

  function Entry(mem: Memory, dyn: Address, k: nat): Address { U32(mem, Plus(dyn, 8 * k + 4)) }

  /** The dynamic section has n entries before its first DT_NULL. */
  ghost predicate Terminated(mem: Memory, dyn: Address, n: nat) {
    Tag(mem, dyn, n) == DT_NULL && forall k :: 0 <= k < n ==> Tag(mem, dyn, k) != DT_NULL
  }

  /** The last of the first n entries with the given tag. */
  function LastIndex(mem: Memory, dyn: Address, n: nat, tag: Address): Option<nat> {
    if n == 0 then None
    else if Tag(mem, dyn, n - 1) == tag then Some(n - 1)
    else LastIndex(mem, dyn, n - 1, tag)
  }

  /** The address of a table named by the dynamic section, or 0. */
  function Table(mem: Memory, base: Address, dyn: Address, n: nat, tag: Address): Address {
    var k := LastIndex(mem, dyn, n, tag);
    if k.Some? then FixAddress(Entry(mem, dyn, k.value), base) else 0
  }

  /** The bytes at an address are the given string and a NUL. */
  ghost predicate NamedAt(mem: Memory, a: Address, name: CString) {
    && (forall k :: 0 <= k < |name| ==> mem[Plus(a, k)] == name[k])
    && mem[Plus(a, |name|)] == 0
  }

  function SymName(mem: Memory, symtab: Address, i: nat): Address { U32(mem, Plus(symtab, 16 * i)) }

  function SymValue(mem: Memory, symtab: Address, i: nat): Address { U32(mem, Plus(symtab, 16 * i + 4)) }

  function SymSection(mem: Memory, symtab: Address, i: nat): nat { U16(mem, Plus(symtab, 16 * i + 14)) }

  /** Symbol i is named, non-zero, defined, and bears the given name. */
  ghost predicate Defines(mem: Memory, strtab: Address, symtab: Address, i: nat, name: CString) {
    && SymName(mem, symtab, i) != 0
    && SymValue(mem, symtab, i) != 0
    && SymSection(mem, symtab, i) != SHN_UNDEF
    && NamedAt(mem, Plus(strtab, SymName(mem, symtab, i)), name)
  }

  ghost predicate FirstDefining(mem: Memory, strtab: Address, symtab: Address, count: nat, name: CString, i: nat) {
    && i < count && Defines(mem, strtab, symtab, i, name)
    && forall j :: 0 <= j < i ==> !Defines(mem, strtab, symtab, j, name)
  }

  /** r is the answer for a symbol, given where the tables are: the load bias plus the value of the
      lowest matching index below nchain; null when there is none. */
  ghost predicate AnswerIn(mem: Memory, base: Address, strtab: Address, symtab: Address, hash: Address,
                           name: CString, r: Address) {
    if strtab == 0 || symtab == 0 || hash == 0 then r == 0
    else
      var count := U32(mem, Plus(hash, 4));
      || (exists i :: FirstDefining(mem, strtab, symtab, count, name, i) && r == Plus(base, SymValue(mem, symtab, i)))
      || (r == 0 && forall i :: 0 <= i < count ==> !Defines(mem, strtab, symtab, i, name))
  }

  ghost predicate Answer(mem: Memory, base: Address, phdrs: seq<Phdr>, name: CString, r: Address) {
    match DynamicAt(base, phdrs)
    case None => r == 0
    case Some(dyn) =>
      exists n :: Terminated(mem, dyn, n)
        && AnswerIn(mem, base, Table(mem, base, dyn, n, DT_STRTAB), Table(mem, base, dyn, n, DT_SYMTAB),
                    Table(mem, base, dyn, n, DT_HASH), name, r)
  }

  // ---------------------------------------------------------------- the lookup

  /** strcmp(a, name) == 0, reading no further than the first difference. */
  method StringsEqual(mem: Memory, a: Address, name: CString) returns (equal: bool)
    ensures equal <==> NamedAt(mem, a, name)
  {
    var k := 0;
    while k < |name|
      invariant 0 <= k <= |name|
      invariant forall j :: 0 <= j < k ==> mem[Plus(a, j)] == name[j]
    {
      if mem[Plus(a, k)] != name[k] { return false; }
      k := k + 1;
    }
    return mem[Plus(a, |name|)] == 0;
  }

  /** n is the length of the dynamic section, which the format promises to be terminated. */
  method Lookup(mem: Memory, base: Address, phdrs: seq<Phdr>, name: CString, ghost n: nat) returns (r: Address)
    requires DynamicAt(base, phdrs).Some? ==> Terminated(mem, DynamicAt(base, phdrs).value, n)
    ensures Answer(mem, base, phdrs, name, r)
  {
    var dyn: Address := 0;
    var p := 0;
    assert phdrs[0..] == phdrs;
    while p < |phdrs|
      invariant 0 <= p <= |phdrs|
      invariant DynamicHeader(phdrs) == DynamicHeader(phdrs[p..])
    {
      assert phdrs[p..][0] == phdrs[p] && phdrs[p..][1..] == phdrs[p + 1..];
      if phdrs[p].ptype == PT_DYNAMIC {
        dyn := Plus(base, phdrs[p].vaddr);
        break;
      }
      p := p + 1;
    }
    assert DynamicAt(base, phdrs) == if dyn == 0 then None else Some(dyn);
    if dyn == 0 { return 0; }
    var strtab, symtab, hash := ReadTables(mem, base, dyn, n);
    r := ScanSymbols(mem, base, strtab, symtab, hash, name);
  }

  /** The loop over the dynamic entries: later entries overwrite earlier ones. */
  method ReadTables(mem: Memory, base: Address, start: Address, ghost n: nat)
    returns (strtab: Address, symtab: Address, hash: Address)
    requires Terminated(mem, start, n)
    ensures strtab == Table(mem, base, start, n, DT_STRTAB)
    ensures symtab == Table(mem, base, start, n, DT_SYMTAB)
    ensures hash == Table(mem, base, start, n, DT_HASH)
  {
    strtab, symtab, hash := 0, 0, 0;
    var dyn := start;
    ghost var k := 0;
    while U32(mem, dyn) != DT_NULL
      invariant k <= n && dyn == Plus(start, 8 * k)
      invariant strtab == Table(mem, base, start, k, DT_STRTAB)
      invariant symtab == Table(mem, base, start, k, DT_SYMTAB)
      invariant hash == Table(mem, base, start, k, DT_HASH)
      decreases n - k
    {
      PlusPlus(start, 8 * k, 4);
      PlusPlus(start, 8 * k, 8);
      var v := U32(mem, Plus(dyn, 4));
      var tag := U32(mem, dyn);
      assert v == Entry(mem, start, k) && tag == Tag(mem, start, k);
      TableStep(mem, base, start, k, DT_STRTAB);
      TableStep(mem, base, start, k, DT_SYMTAB);
      TableStep(mem, base, start, k, DT_HASH);
      if tag == DT_STRTAB {
        strtab := FixAddress(v, base);
      } else if tag == DT_SYMTAB {
        symtab := FixAddress(v, base);
      } else if tag == DT_HASH {
        hash := FixAddress(v, base);
      }
      dyn := Plus(dyn, 8);
      k := k + 1;
    }
    assert Tag(mem, start, k) == DT_NULL;
  }

  lemma TableStep(mem: Memory, base: Address, dyn: Address, k: nat, tag: Address)
    ensures Table(mem, base, dyn, k + 1, tag)
            == if Tag(mem, dyn, k) == tag then FixAddress(Entry(mem, dyn, k), base) else Table(mem, base, dyn, k, tag)
  {
  }

  /** The loop over the symbol table. */
  method ScanSymbols(mem: Memory, base: Address, strtab: Address, symtab: Address, hash: Address, name: CString)
    returns (r: Address)
    ensures AnswerIn(mem, base, strtab, symtab, hash, name, r)
  {
    if strtab == 0 || symtab == 0 || hash == 0 { return 0; }
    var nchain := U32(mem, Plus(hash, 4));
    var i := 0;
    while i < nchain
      invariant 0 <= i <= nchain
      invariant forall j :: 0 <= j < i ==> !Defines(mem, strtab, symtab, j, name)
    {
      var symName, symValue := SymName(mem, symtab, i), SymValue(mem, symtab, i);
      if symName != 0 && symValue != 0 && SymSection(mem, symtab, i) != SHN_UNDEF {
        var equal := StringsEqual(mem, Plus(strtab, symName), name);
        if equal {
          assert FirstDefining(mem, strtab, symtab, nchain, name, i);
          return Plus(base, symValue);
        }
      }
      i := i + 1;
    }
    return 0;
  }

  method FindSymbol(mem: Memory, libs: seq<Library>, soname: CString, name: CString, ghost n: nat)
    returns (r: Address)
    requires var lib := FirstNamed(libs, soname);
             lib.Some? && lib.value.phdrs.Some? && DynamicAt(lib.value.base, lib.value.phdrs.value).Some? ==>
               Terminated(mem, DynamicAt(lib.value.base, lib.value.phdrs.value).value, n)
    ensures var lib := FirstNamed(libs, soname);
            if lib.None? || lib.value.phdrs.None? then r == 0
            else Answer(mem, lib.value.base, lib.value.phdrs.value, name, r)
  {
    var found, ok := FindLibrary(libs, soname);
    if !ok { return 0; }
    r := Lookup(mem, found.base, found.phdrs.value, name, n);
  }

  // ---------------------------------------------------------------- one answer, wherever it is loaded

  lemma TerminatedOnce(mem: Memory, dyn: Address, n: nat, n': nat)
    requires Terminated(mem, dyn, n) && Terminated(mem, dyn, n')
    ensures n == n'
  {
  }

  lemma AnswerInUnique(mem: Memory, base: Address, strtab: Address, symtab: Address, hash: Address, name: CString,
                       r: Address, r': Address)
    requires AnswerIn(mem, base, strtab, symtab, hash, name, r)
    requires AnswerIn(mem, base, strtab, symtab, hash, name, r')
    ensures r == r'
  {
  }

  /** The meaning of a lookup leaves exactly one answer. */
  lemma AnswerUnique(mem: Memory, base: Address, phdrs: seq<Phdr>, name: CString, r: Address, r': Address)
    requires Answer(mem, base, phdrs, name, r) && Answer(mem, base, phdrs, name, r')
    ensures r == r'
  {
    if DynamicAt(base, phdrs).Some? {
      var dyn := DynamicAt(base, phdrs).value;
      var n :| Terminated(mem, dyn, n) && AnswerIn(mem, base, Table(mem, base, dyn, n, DT_STRTAB),
        Table(mem, base, dyn, n, DT_SYMTAB), Table(mem, base, dyn, n, DT_HASH), name, r);
      forall n' | Terminated(mem, dyn, n') ensures n' == n { TerminatedOnce(mem, dyn, n, n'); }
      AnswerInUnique(mem, base, Table(mem, base, dyn, n, DT_STRTAB), Table(mem, base, dyn, n, DT_SYMTAB),
        Table(mem, base, dyn, n, DT_HASH), name, r, r');
    }
  }

  /** Where the parts of an image are, as offsets from its load bias; the dynamic section has n entries
      and a terminator, and the symbol table has symCount entries. */
  datatype Layout = Layout(size: nat, dynOff: nat, n: nat, strOff: nat, strSize: nat, symOff: nat, symCount: nat,
                           hashOff: nat)
  {
    /** The stretch lies within the count of the hash header, the symbol table or the string table. */
    predicate InTables(lo: nat, hi: nat) {
      || hashOff + 4 <= lo <= hi <= hashOff + 8
      || symOff <= lo <= hi <= symOff + 16 * symCount
      || strOff <= lo <= hi <= strOff + strSize
    }
  }

  /** The image lies in memory without wrapping, its three tables are present, and its string table ends in
      a NUL, as the gABI asks. */
  ghost predicate Placed(mem: Memory, base: Address, phdrs: seq<Phdr>, l: Layout) {
    && 0 < base && base + l.size <= SPACE
    && DynamicAt(base, phdrs) == Some(Plus(base, l.dynOff))
    && Terminated(mem, Plus(base, l.dynOff), l.n)
    && l.dynOff + 8 * l.n + 8 <= l.size
    && Table(mem, base, Plus(base, l.dynOff), l.n, DT_STRTAB) == Plus(base, l.strOff)
    && Table(mem, base, Plus(base, l.dynOff), l.n, DT_SYMTAB) == Plus(base, l.symOff)
    && Table(mem, base, Plus(base, l.dynOff), l.n, DT_HASH) == Plus(base, l.hashOff)
    && l.hashOff + 8 <= l.size && U32(mem, Plus(Plus(base, l.hashOff), 4)) == l.symCount
    && l.symOff < l.size && l.symOff + 16 * l.symCount <= l.size
    && 0 < l.strSize && l.strOff + l.strSize <= l.size
    && mem[Plus(base, l.strOff + l.strSize - 1)] == 0
    && (forall i :: 0 <= i < l.symCount ==> SymName(mem, Plus(base, l.symOff), i) < l.strSize)
  }

  /** A dynamic entry may hold an offset below the load bias or the absolute address. */
  predicate Denotes(entry: Address, base: Address, v: nat) {
    (entry == v && v < base) || entry == base + v
  }

  /** The image that lies at base' is the one at base, moved: the same symbol count, symbols and names, and
      dynamic entries with the same tags, of which those of the tables denote the same offsets, each in
      either form. Everything else may differ, as relocated words do. */
  ghost predicate SameImage(mem: Memory, base: Address, mem': Memory, base': Address, l: Layout) {
    SameTables(mem, base, mem', base', l) && SameDynamic(mem, base, mem', base', l)
  }

  ghost predicate SameTables(mem: Memory, base: Address, mem': Memory, base': Address, l: Layout) {
    forall off :: 0 <= off < l.size && l.InTables(off, off + 1) ==> mem'[Plus(base', off)] == mem[Plus(base, off)]
  }

  ghost predicate SameDynamic(mem: Memory, base: Address, mem': Memory, base': Address, l: Layout) {
    && (forall k :: 0 <= k <= l.n ==> Tag(mem', Plus(base', l.dynOff), k) == Tag(mem, Plus(base, l.dynOff), k))
    && (forall k :: 0 <= k < l.n && Tag(mem, Plus(base, l.dynOff), k) in {DT_STRTAB, DT_SYMTAB, DT_HASH} ==>
          SameOffset(mem, base, mem', base', l, k))
  }

  ghost predicate SameOffset(mem: Memory, base: Address, mem': Memory, base': Address, l: Layout, k: nat) {
    exists v :: 0 <= v < l.size && Denotes(Entry(mem, Plus(base, l.dynOff), k), base, v)
                && Denotes(Entry(mem', Plus(base', l.dynOff), k), base', v)
  }

  /** One dynamic entry of a table leads to the same offset in both images. */
  lemma SameEntry(mem: Memory, base: Address, mem': Memory, base': Address, l: Layout, k: nat, off: nat)
    requires SameImage(mem, base, mem', base', l) && k < l.n
    requires base + l.size <= SPACE && base' + l.size <= SPACE && off < l.size
    requires Tag(mem, Plus(base, l.dynOff), k) in {DT_STRTAB, DT_SYMTAB, DT_HASH}
    requires FixAddress(Entry(mem, Plus(base, l.dynOff), k), base) == Plus(base, off)
    ensures FixAddress(Entry(mem', Plus(base', l.dynOff), k), base') == Plus(base', off)
  {
  }

  lemma {:induction false} SameIndex(mem: Memory, dyn: Address, mem': Memory, dyn': Address, n: nat, tag: Address)
    requires forall k :: 0 <= k < n ==> Tag(mem', dyn', k) == Tag(mem, dyn, k)
    ensures LastIndex(mem', dyn', n, tag) == LastIndex(mem, dyn, n, tag)
  {
    if n > 0 {
      SameIndex(mem, dyn, mem', dyn', n - 1, tag);
    }
  }

  lemma {:induction false} LastIndexMeans(mem: Memory, dyn: Address, n: nat, tag: Address)
    ensures var k := LastIndex(mem, dyn, n, tag);
            k.Some? ==> k.value < n && Tag(mem, dyn, k.value) == tag
  {
    if n > 0 {
      LastIndexMeans(mem, dyn, n - 1, tag);
    }
  }

  lemma SameTable(mem: Memory, base: Address, mem': Memory, base': Address, l: Layout, tag: Address, off: nat)
    requires SameImage(mem, base, mem', base', l)
    requires 0 < base && base + l.size <= SPACE && base' + l.size <= SPACE && off < l.size
    requires tag in {DT_STRTAB, DT_SYMTAB, DT_HASH}
    requires Table(mem, base, Plus(base, l.dynOff), l.n, tag) == Plus(base, off)
    ensures Table(mem', base', Plus(base', l.dynOff), l.n, tag) == Plus(base', off)
  {
    SameIndex(mem, Plus(base, l.dynOff), mem', Plus(base', l.dynOff), l.n, tag);
    LastIndexMeans(mem, Plus(base, l.dynOff), l.n, tag);
    SameEntry(mem, base, mem', base', l, LastIndex(mem, Plus(base, l.dynOff), l.n, tag).value, off);
  }

  lemma SameByte(mem: Memory, base: Address, mem': Memory, base': Address, l: Layout, off: nat, d: nat)
    requires SameImage(mem, base, mem', base', l) && l.InTables(off, off + d + 1) && off + d < l.size
    ensures mem'[Plus(Plus(base', off), d)] == mem[Plus(Plus(base, off), d)]
    ensures Plus(Plus(base, off), d) == Plus(base, off + d) && Plus(Plus(base', off), d) == Plus(base', off + d)
  {
    PlusPlus(base, off, d);
    PlusPlus(base', off, d);
    assert l.InTables(off + d, off + d + 1);
  }

  lemma SameHalf(mem: Memory, base: Address, mem': Memory, base': Address, l: Layout, off: nat)
    requires SameImage(mem, base, mem', base', l) && l.InTables(off, off + 2) && off + 2 <= l.size
    ensures U16(mem', Plus(base', off)) == U16(mem, Plus(base, off))
  {
    SameByte(mem, base, mem', base', l, off, 0);
    SameByte(mem, base, mem', base', l, off, 1);
  }

  lemma SameWord(mem: Memory, base: Address, mem': Memory, base': Address, l: Layout, off: nat)
    requires SameImage(mem, base, mem', base', l) && l.InTables(off, off + 4) && off + 4 <= l.size
    ensures U32(mem', Plus(base', off)) == U32(mem, Plus(base, off))
  {
    SameByte(mem, base, mem', base', l, off, 0);
    SameByte(mem, base, mem', base', l, off, 1);
    SameByte(mem, base, mem', base', l, off, 2);
    SameByte(mem, base, mem', base', l, off, 3);
  }

  /** A name in the string table reads the same in both images. */
  lemma SameName(mem: Memory, base: Address, mem': Memory, base': Address, l: Layout, at: nat, name: CString)
    requires SameImage(mem, base, mem', base', l)
    requires at < l.strSize && l.strOff + l.strSize <= l.size
    requires mem[Plus(base, l.strOff + l.strSize - 1)] == 0
    requires NamedAt(mem, Plus(Plus(base, l.strOff), at), name)
    ensures NamedAt(mem', Plus(Plus(base', l.strOff), at), name)
  {
    var off := l.strOff + at;
    PlusPlus(base, l.strOff, at);
    PlusPlus(base', l.strOff, at);
    var last := l.strSize - 1 - at;
    PlusPlus(base, off, last);
    assert forall k :: 0 <= k < |name| ==> mem[Plus(Plus(base, off), k)] == name[k] && name[k] in name;
    assert last >= |name|;
    forall k | 0 <= k <= |name| ensures mem'[Plus(Plus(base', off), k)] == mem[Plus(Plus(base, off), k)] {
      SameByte(mem, base, mem', base', l, off, k);
    }
  }

  lemma SameImageSymmetric(mem: Memory, base: Address, mem': Memory, base': Address, l: Layout)
    requires SameImage(mem, base, mem', base', l)
    ensures SameImage(mem', base', mem, base, l)
  {
  }

  lemma SameSymbol(mem: Memory, base: Address, mem': Memory, base': Address, phdrs: seq<Phdr>, l: Layout, i: nat,
                   name: CString)
    requires Placed(mem, base, phdrs, l) && SameImage(mem, base, mem', base', l)
    requires i < U32(mem, Plus(Plus(base, l.hashOff), 4))
    ensures SymValue(mem', Plus(base', l.symOff), i) == SymValue(mem, Plus(base, l.symOff), i)
    ensures Defines(mem', Plus(base', l.strOff), Plus(base', l.symOff), i, name)
            <==> Defines(mem, Plus(base, l.strOff), Plus(base, l.symOff), i, name)
  {
    SymbolFields(mem, base, mem', base', l, i);
    var at := SymName(mem, Plus(base, l.symOff), i);
    assert l.InTables(l.strOff + l.strSize - 1, l.strOff + l.strSize);
    SameImageSymmetric(mem, base, mem', base', l);
    if NamedAt(mem, Plus(Plus(base, l.strOff), at), name) {
      SameName(mem, base, mem', base', l, at, name);
    }
    if NamedAt(mem', Plus(Plus(base', l.strOff), at), name) {
      SameName(mem', base', mem, base, l, at, name);
    }
  }

  lemma SymbolInTable(l: Layout, i: nat, d: nat, n: nat)
    requires i < l.symCount && d + n <= 16 && l.symOff + 16 * l.symCount <= l.size
    ensures var off := l.symOff + (16 * i + d); l.InTables(off, off + n) && off + n <= l.size
  {
  }

  lemma SymbolWord(mem: Memory, base: Address, mem': Memory, base': Address, l: Layout, i: nat, d: nat)
    requires SameImage(mem, base, mem', base', l) && d <= 12
    requires i < l.symCount && l.symOff + 16 * l.symCount <= l.size
    ensures U32(mem', Plus(Plus(base', l.symOff), 16 * i + d)) == U32(mem, Plus(Plus(base, l.symOff), 16 * i + d))
  {
    var at := 16 * i + d;
    SymbolInTable(l, i, d, 4);
    PlusPlus(base, l.symOff, at);
    PlusPlus(base', l.symOff, at);
    SameWord(mem, base, mem', base', l, l.symOff + at);
  }

  lemma SymbolHalf(mem: Memory, base: Address, mem': Memory, base': Address, l: Layout, i: nat)
    requires SameImage(mem, base, mem', base', l)
    requires i < l.symCount && l.symOff + 16 * l.symCount <= l.size
    ensures SymSection(mem', Plus(base', l.symOff), i) == SymSection(mem, Plus(base, l.symOff), i)
  {
    var at := 16 * i + 14;
    SymbolInTable(l, i, 14, 2);
    PlusPlus(base, l.symOff, at);
    PlusPlus(base', l.symOff, at);
    SameHalf(mem, base, mem', base', l, l.symOff + at);
  }

  lemma SymbolFields(mem: Memory, base: Address, mem': Memory, base': Address, l: Layout, i: nat)
    requires SameImage(mem, base, mem', base', l)
    requires i < l.symCount && l.symOff + 16 * l.symCount <= l.size
    ensures SymName(mem', Plus(base', l.symOff), i) == SymName(mem, Plus(base, l.symOff), i)
    ensures SymValue(mem', Plus(base', l.symOff), i) == SymValue(mem, Plus(base, l.symOff), i)
    ensures SymSection(mem', Plus(base', l.symOff), i) == SymSection(mem, Plus(base, l.symOff), i)
  {
    SymbolWord(mem, base, mem', base', l, i, 0);
    SymbolWord(mem, base, mem', base', l, i, 4);
    SymbolHalf(mem, base, mem', base', l, i);
  }

  /** Some symbol of the image bears the name. */
  ghost predicate Exports(mem: Memory, base: Address, l: Layout, name: CString) {
    exists i :: 0 <= i < U32(mem, Plus(Plus(base, l.hashOff), 4))
      && Defines(mem, Plus(base, l.strOff), Plus(base, l.symOff), i, name)
  }

  lemma SameCount(mem: Memory, base: Address, mem': Memory, base': Address, l: Layout)
    requires SameImage(mem, base, mem', base', l) && l.hashOff + 8 <= l.size
    ensures U32(mem', Plus(Plus(base', l.hashOff), 4)) == U32(mem, Plus(Plus(base, l.hashOff), 4))
  {
    PlusPlus(base, l.hashOff, 4);
    PlusPlus(base', l.hashOff, 4);
    SameWord(mem, base, mem', base', l, l.hashOff + 4);
  }

  lemma SameSymbols(mem: Memory, base: Address, mem': Memory, base': Address, phdrs: seq<Phdr>, l: Layout,
                    name: CString)
    requires Placed(mem, base, phdrs, l) && SameImage(mem, base, mem', base', l)
    ensures U32(mem', Plus(Plus(base', l.hashOff), 4)) == U32(mem, Plus(Plus(base, l.hashOff), 4))
    ensures forall i :: 0 <= i < U32(mem, Plus(Plus(base, l.hashOff), 4)) ==>
              SymValue(mem', Plus(base', l.symOff), i) == SymValue(mem, Plus(base, l.symOff), i)
    ensures forall i :: 0 <= i < U32(mem, Plus(Plus(base, l.hashOff), 4)) ==>
              (Defines(mem', Plus(base', l.strOff), Plus(base', l.symOff), i, name)
               <==> Defines(mem, Plus(base, l.strOff), Plus(base, l.symOff), i, name))
  {
    SameCount(mem, base, mem', base', l);
    forall i | 0 <= i < U32(mem, Plus(Plus(base, l.hashOff), 4))
      ensures SymValue(mem', Plus(base', l.symOff), i) == SymValue(mem, Plus(base, l.symOff), i)
      ensures Defines(mem', Plus(base', l.strOff), Plus(base', l.symOff), i, name)
              <==> Defines(mem, Plus(base, l.strOff), Plus(base, l.symOff), i, name)
    {
      SameSymbol(mem, base, mem', base', phdrs, l, i, name);
    }
  }

  lemma PlusMoves(base: Address, base': Address, v: Address)
    ensures Plus(base', v) == Plus(Plus(base, v), base' - base)
  {
    PlusPlus(base, v, base' - base);
  }

  /** Tables that define the same names at the same indices, with the same values, give the same answer
      up to the load bias. */
  lemma AnswerInMoves(mem: Memory, base: Address, strtab: Address, symtab: Address, hash: Address,
                      mem': Memory, base': Address, strtab': Address, symtab': Address, hash': Address,
                      count: nat, name: CString, r: Address) returns (r': Address)
    requires strtab != 0 && symtab != 0 && hash != 0 && strtab' != 0 && symtab' != 0 && hash' != 0
    requires U32(mem, Plus(hash, 4)) == count == U32(mem', Plus(hash', 4))
    requires forall i :: 0 <= i < count ==> SymValue(mem', symtab', i) == SymValue(mem, symtab, i)
    requires forall i :: 0 <= i < count ==>
               (Defines(mem', strtab', symtab', i, name) <==> Defines(mem, strtab, symtab, i, name))
    requires AnswerIn(mem, base, strtab, symtab, hash, name, r)
    ensures AnswerIn(mem', base', strtab', symtab', hash', name, r')
    ensures if exists i :: 0 <= i < count && Defines(mem, strtab, symtab, i, name)
            then r' == Plus(r, base' - base) else r == r' == 0
  {
    if i :| FirstDefining(mem, strtab, symtab, count, name, i) && r == Plus(base, SymValue(mem, symtab, i)) {
      assert FirstDefining(mem', strtab', symtab', count, name, i);
      r' := Plus(base', SymValue(mem', symtab', i));
      PlusMoves(base, base', SymValue(mem, symtab, i));
    } else {
      r' := 0;
    }
  }

  /** What a moved image keeps of Placed. */
  ghost predicate Laid(mem: Memory, base: Address, phdrs: seq<Phdr>, l: Layout) {
    && DynamicAt(base, phdrs) == Some(Plus(base, l.dynOff))
    && Terminated(mem, Plus(base, l.dynOff), l.n)
    && Table(mem, base, Plus(base, l.dynOff), l.n, DT_STRTAB) == Plus(base, l.strOff)
    && Table(mem, base, Plus(base, l.dynOff), l.n, DT_SYMTAB) == Plus(base, l.symOff)
    && Table(mem, base, Plus(base, l.dynOff), l.n, DT_HASH) == Plus(base, l.hashOff)
  }

  /** The header leads to the same offset from every base. */
  lemma DynamicMoves(base: Address, base': Address, phdrs: seq<Phdr>, off: nat)
    requires DynamicAt(base, phdrs) == Some(Plus(base, off)) && 0 < base' && base' + off < SPACE
    ensures DynamicAt(base', phdrs) == Some(Plus(base', off))
  {
    var v := DynamicHeader(phdrs).value;
    PlusPlus(base, v, base' - base);
    PlusPlus(base, off, base' - base);
  }

  lemma MovedIsLaid(mem: Memory, base: Address, mem': Memory, base': Address, phdrs: seq<Phdr>, l: Layout)
    requires Placed(mem, base, phdrs, l) && SameImage(mem, base, mem', base', l)
    requires 0 < base' && base' + l.size <= SPACE
    ensures Laid(mem, base, phdrs, l) && Laid(mem', base', phdrs, l)
  {
    DynamicMoves(base, base', phdrs, l.dynOff);
    SameTable(mem, base, mem', base', l, DT_STRTAB, l.strOff);
    SameTable(mem, base, mem', base', l, DT_SYMTAB, l.symOff);
    SameTable(mem, base, mem', base', l, DT_HASH, l.hashOff);
  }

  lemma AnswerOfLaid(mem: Memory, base: Address, phdrs: seq<Phdr>, l: Layout, name: CString, r: Address)
    requires Laid(mem, base, phdrs, l)
    ensures Answer(mem, base, phdrs, name, r)
            <==> AnswerIn(mem, base, Plus(base, l.strOff), Plus(base, l.symOff), Plus(base, l.hashOff), name, r)
  {
    var dyn := Plus(base, l.dynOff);
    forall n | Terminated(mem, dyn, n) ensures n == l.n { TerminatedOnce(mem, dyn, n, l.n); }
  }

  lemma MovedAnswer(mem: Memory, base: Address, mem': Memory, base': Address, phdrs: seq<Phdr>, l: Layout,
                    name: CString, r: Address) returns (r': Address)
    requires Placed(mem, base, phdrs, l) && SameImage(mem, base, mem', base', l)
    requires 0 < base' && base' + l.size <= SPACE
    requires AnswerIn(mem, base, Plus(base, l.strOff), Plus(base, l.symOff), Plus(base, l.hashOff), name, r)
    ensures AnswerIn(mem', base', Plus(base', l.strOff), Plus(base', l.symOff), Plus(base', l.hashOff), name, r')
    ensures if Exports(mem, base, l, name) then r' == Plus(r, base' - base) else r == r' == 0
  {
    SameSymbols(mem, base, mem', base', phdrs, l, name);
    TablesPresent(mem, base, phdrs, l, base');
    r' := AnswerInMoves(mem, base, Plus(base, l.strOff), Plus(base, l.symOff), Plus(base, l.hashOff),
                        mem', base', Plus(base', l.strOff), Plus(base', l.symOff), Plus(base', l.hashOff),
                        U32(mem, Plus(Plus(base, l.hashOff), 4)), name, r);
  }

  /** Moving an image, or writing its dynamic entries in the other form, moves every answer by exactly
      the difference of the load biases and changes no null answer. */
  lemma LookupMoves(mem: Memory, base: Address, mem': Memory, base': Address, phdrs: seq<Phdr>, l: Layout,
                    name: CString, r: Address, r': Address)
    requires Placed(mem, base, phdrs, l) && SameImage(mem, base, mem', base', l)
    requires 0 < base' && base' + l.size <= SPACE
    requires Answer(mem, base, phdrs, name, r) && Answer(mem', base', phdrs, name, r')
    ensures if Exports(mem, base, l, name) then r' == Plus(r, base' - base) else r == r' == 0
  {
    MovedIsLaid(mem, base, mem', base', phdrs, l);
    AnswerOfLaid(mem, base, phdrs, l, name, r);
    var s := MovedAnswer(mem, base, mem', base', phdrs, l, name, r);
    AnswerOfLaid(mem', base', phdrs, l, name, s);
    AnswerUnique(mem', base', phdrs, name, s, r');
  }

  lemma TablesPresent(mem: Memory, base: Address, phdrs: seq<Phdr>, l: Layout, base': Address)
    requires Placed(mem, base, phdrs, l) && 0 < base' && base' + l.size <= SPACE
    ensures Plus(base, l.strOff) != 0 && Plus(base, l.symOff) != 0 && Plus(base, l.hashOff) != 0
    ensures Plus(base', l.strOff) != 0 && Plus(base', l.symOff) != 0 && Plus(base', l.hashOff) != 0
  {
  }

  /** Two memories that differ only in the form of the dynamic entries give the same answer. */
  lemma EitherFormSameAnswer(mem: Memory, mem': Memory, base: Address, phdrs: seq<Phdr>, l: Layout, name: CString,
                             r: Address, r': Address)
    requires Placed(mem, base, phdrs, l) && SameImage(mem, base, mem', base, l)
    requires Answer(mem, base, phdrs, name, r) && Answer(mem', base, phdrs, name, r')
    ensures r' == r
  {
    LookupMoves(mem, base, mem', base, phdrs, l, name, r, r');
  }

  // ---------------------------------------------------------------- such images exist

  /** Byte i of a small image: three dynamic entries for a string table at 0x40, a symbol table at 0x50
      with two entries and a hash header at 0x80; symbol 1 is named "a" and has the value 0x33. The word
      at 0x90 is relocated: it holds the load bias. */
  function SmallImage(i: int, base: Address): Byte {
    if i == 0x00 then DT_STRTAB else if i == 0x04 then 0x40
    else if i == 0x08 then DT_SYMTAB else if i == 0x0C then 0x50
    else if i == 0x10 then DT_HASH else if i == 0x14 then 0x80
    else if i == 0x41 then 0x61
    else if i == 0x60 then 0x01 else if i == 0x64 then 0x33 else if i == 0x6E then 0x07
    else if i == 0x84 then 0x02
    else if i == 0x90 then base % 0x100 else if i == 0x91 then base / 0x100 % 0x100
    else if i == 0x92 then base / 0x1_0000 % 0x100 else if i == 0x93 then base / 0x100_0000
    else 0
  }

  function SmallMemory(base: Address): Memory {
    var bytes := seq<Byte>(SPACE, i => SmallImage(i - base, base));
    assert |bytes| == SPACE;
    bytes
  }

  const SMALL := Layout(0x100, 0, 3, 0x40, 3, 0x50, 2, 0x80)

  lemma SmallByte(base: Address, off: nat)
    requires base + off < SPACE
    ensures SmallMemory(base)[Plus(base, off)] == SmallImage(off, base)
  {
  }

  lemma SmallWord(base: Address, off: nat)
    requires base + off + 3 < SPACE
    ensures U32(SmallMemory(base), Plus(base, off))
            == SmallImage(off, base) as int + 0x100 * SmallImage(off + 1, base) as int
               + 0x1_0000 * SmallImage(off + 2, base) as int
               + 0x100_0000 * SmallImage(off + 3, base) as int
  {
  }

  function SmallTag(k: nat): Address {
    if k == 0 then DT_STRTAB else if k == 1 then DT_SYMTAB else if k == 2 then DT_HASH else DT_NULL
  }

  function SmallOffset(k: nat): Address {
    if k == 0 then 0x40 else if k == 1 then 0x50 else if k == 2 then 0x80 else 0
  }

  lemma SmallEntry(base: Address, k: nat)
    requires 0x80 < base && base + 0x100 <= SPACE && k <= 3
    ensures Tag(SmallMemory(base), Plus(base, 0), k) == SmallTag(k)
    ensures Entry(SmallMemory(base), Plus(base, 0), k) == SmallOffset(k)
  {
    SmallWord(base, 8 * k);
    SmallWord(base, 8 * k + 4);
    PlusPlus(base, 0, 8 * k);
    PlusPlus(base, 0, 8 * k + 4);
  }

  lemma SmallLast(base: Address, k: nat)
    requires 0x80 < base && base + 0x100 <= SPACE && k < 3
    ensures LastIndex(SmallMemory(base), Plus(base, 0), 3, SmallTag(k)) == Some(k)
  {
    var mem, dyn := SmallMemory(base), Plus(base, 0);
    SmallEntry(base, 0);
    SmallEntry(base, 1);
    SmallEntry(base, 2);
    LastIs(mem, dyn, 3, SmallTag(k), k);
  }

  lemma {:induction false} LastIs(mem: Memory, dyn: Address, n: nat, tag: Address, k: nat)
    requires k < n && Tag(mem, dyn, k) == tag && forall j :: k < j < n ==> Tag(mem, dyn, j) != tag
    ensures LastIndex(mem, dyn, n, tag) == Some(k)
  {
    if k < n - 1 {
      LastIs(mem, dyn, n - 1, tag, k);
    }
  }

  lemma SmallTable(base: Address, k: nat)
    requires 0x80 < base && base + 0x100 <= SPACE && k < 3
    ensures Table(SmallMemory(base), base, Plus(base, 0), 3, SmallTag(k)) == Plus(base, SmallOffset(k))
  {
    SmallLast(base, k);
    SmallEntry(base, k);
  }

  lemma SmallTables(base: Address)
    requires 0x80 < base && base + 0x100 <= SPACE
    ensures Laid(SmallMemory(base), base, [Phdr(PT_DYNAMIC, 0)], SMALL)
  {
    SmallTable(base, 0);
    SmallTable(base, 1);
    SmallTable(base, 2);
    forall k | 0 <= k <= 3 ensures Tag(SmallMemory(base), Plus(base, 0), k) == SmallTag(k) { SmallEntry(base, k); }
  }

  lemma SmallNames(base: Address)
    requires 0x80 < base && base + 0x100 <= SPACE
    ensures U32(SmallMemory(base), Plus(Plus(base, 0x80), 4)) == 2
    ensures forall i :: 0 <= i < 2 ==> SymName(SmallMemory(base), Plus(base, 0x50), i) == i
  {
    PlusPlus(base, 0x80, 4);
    SmallWord(base, 0x84);
    PlusPlus(base, 0x50, 0);
    SmallWord(base, 0x50);
    PlusPlus(base, 0x50, 16);
    SmallWord(base, 0x60);
  }

  /** At every base above its dynamic values the small image is placed: what LookupMoves asks for can
      be met. */
  lemma SmallImagePlaced(base: Address)
    requires 0x80 < base && base + 0x100 <= SPACE
    ensures Placed(SmallMemory(base), base, [Phdr(PT_DYNAMIC, 0)], SMALL)
  {
    SmallTables(base);
    SmallNames(base);
    SmallByte(base, 0x42);
  }

  lemma SameSmallByte(base: Address, base': Address, off: nat)
    requires base + 0x100 <= SPACE && base' + 0x100 <= SPACE && off < 0x90
    ensures SmallMemory(base')[Plus(base', off)] == SmallMemory(base)[Plus(base, off)]
  {
    SmallByte(base, off);
    SmallByte(base', off);
  }

  lemma SameSmallEntry(base: Address, base': Address, k: nat)
    requires 0x80 < base && base + 0x100 <= SPACE
    requires 0x80 < base' && base' + 0x100 <= SPACE && k <= 3
    ensures Tag(SmallMemory(base'), Plus(base', 0), k) == Tag(SmallMemory(base), Plus(base, 0), k)
    ensures Denotes(Entry(SmallMemory(base), Plus(base, 0), k), base, SmallOffset(k))
    ensures Denotes(Entry(SmallMemory(base'), Plus(base', 0), k), base', SmallOffset(k))
  {
    SmallEntry(base, k);
    SmallEntry(base', k);
  }

  lemma SameSmallTables(base: Address, base': Address)
    requires base + 0x100 <= SPACE && base' + 0x100 <= SPACE
    ensures SameTables(SmallMemory(base), base, SmallMemory(base'), base', SMALL)
  {
    forall off | 0 <= off < SMALL.size && SMALL.InTables(off, off + 1)
      ensures SmallMemory(base')[Plus(base', off)] == SmallMemory(base)[Plus(base, off)]
    {
      SameSmallByte(base, base', off);
    }
  }

  lemma SameSmallEntries(base: Address, base': Address)
    requires 0x80 < base && base + 0x100 <= SPACE
    requires 0x80 < base' && base' + 0x100 <= SPACE
    ensures SameDynamic(SmallMemory(base), base, SmallMemory(base'), base', SMALL)
  {
    forall k | 0 <= k <= 3
      ensures Tag(SmallMemory(base'), Plus(base', 0), k) == Tag(SmallMemory(base), Plus(base, 0), k)
      ensures SameOffset(SmallMemory(base), base, SmallMemory(base'), base', SMALL, k)
    {
      SameSmallEntry(base, base', k);
    }
  }

  /** This byte of the image differs between the two bases. */
  predicate ByteMoves(base: Address, base': Address, off: nat)
    requires base + 0x100 <= SPACE && base' + 0x100 <= SPACE && off < 0x100
  {
    SmallMemory(base')[Plus(base', off)] != SmallMemory(base)[Plus(base, off)]
  }

  /** At any two such bases it is the same image, although its relocated word differs. */
  lemma SmallImageMoves(base: Address, base': Address)
    requires 0x80 < base && base + 0x100 <= SPACE
    requires 0x80 < base' && base' + 0x100 <= SPACE
    ensures SameImage(SmallMemory(base), base, SmallMemory(base'), base', SMALL)
    ensures base != base' ==>
              exists off :: 0 <= off < SMALL.size && ByteMoves(base, base', off)
  {
    SameSmallTables(base, base');
    SameSmallEntries(base, base');
    if base != base' {
      RelocatedDiffers(base, base');
    }
  }

  lemma RelocatedDiffers(base: Address, base': Address)
    requires base != base' && base + 0x100 <= SPACE && base' + 0x100 <= SPACE
    ensures exists off :: 0 <= off < SMALL.size && ByteMoves(base, base', off)
  {
    var off := DifferentDigit(base, base');
    SmallByte(base, off);
    SmallByte(base', off);
    assert ByteMoves(base, base', off);
  }

  lemma FourDigits(a: Address)
    ensures a == a % 0x100 + 0x100 * (a / 0x100 % 0x100 + 0x100 * (a / 0x1_0000 % 0x100 + 0x100 * (a / 0x100_0000)))
  {
  }

  lemma DifferentDigit(a: Address, b: Address) returns (off: nat)
    requires a != b
    ensures 0x90 <= off < 0x94 && SmallImage(off, a) != SmallImage(off, b)
  {
    FourDigits(a);
    FourDigits(b);
    if a % 0x100 != b % 0x100 { return 0x90; }
    if a / 0x100 % 0x100 != b / 0x100 % 0x100 { return 0x91; }
    if a / 0x1_0000 % 0x100 != b / 0x1_0000 % 0x100 { return 0x92; }
    return 0x93;
  }
}
