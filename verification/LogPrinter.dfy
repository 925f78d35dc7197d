/** The line printer of log.h, and the round trip from a logged return address through the log tool. */
module LogPrinter {
  import opened Wrappers
  import opened Numerals
  import opened PyText
  import opened DumpParser
  import opened RvaIndex
  import opened LogSymbolizer

  const MESSAGE_BUFFER := 3072
  const LINE_BUFFER := 4096

  type Word = w: int | 0 <= w < 0x1_0000_0000
  type Millis = w: int | 0 <= w < 0x1_0000_0000_0000_0000

  /** What dladdr fills in; the file name may be null. */
  datatype DlInfo = DlInfo(fname: Option<string>, fbase: Word)

  /** strrchr(path, '/') + 1, or path; a question mark for a null or empty path. */
  function BaseName(path: Option<string>): string {
    if path.None? || path.value == "" then "?" else AfterLastSlash(path.value)
  }

  function AfterLastSlash(path: string): string {
    if path == "" then ""
    else if '/' in path[1..] then AfterLastSlash(path[1..])
    else if path[0] == '/' then path[1..]
    else path
  }

  /** The Thumb bit cleared. */
  function Canonical(address: Word): Word { address - address % 2 }

  function Header(sequence: Word, elapsed: Millis, threadId: int): string {
    "[#" + Padded(Decimal(sequence), 6) + " +" + Padded(Decimal(elapsed), 6) + "ms tid=" + SignedDecimal(threadId)
  }

  function Origin(address: Word, info: Option<DlInfo>): string {
    var pc := Canonical(address);
    if pc != 0 && info.Some? && info.value.fbase != 0 then
      var rva := if pc >= info.value.fbase then pc - info.value.fbase else 0;
      " pc=" + BaseName(info.value.fname) + "+0x" + Hex(rva)
    else " pc=0x" + Hex(pc)
  }

  function LoggedLine(sequence: Word, elapsed: Millis, threadId: int, address: Word, info: Option<DlInfo>,
                      text: string): string
  {
    Printed(Header(sequence, elapsed, threadId) + Origin(address, info) + "] " + Printed(text, MESSAGE_BUFFER),
            LINE_BUFFER)
  }

  class Logger {
    var sequence: Word
    var origin: Option<Millis>  // the clock origin, set once by the first line

    constructor ()
      ensures sequence == 0 && origin == None
    {
      sequence, origin := 0, None;
    }

    /** One line; `first` and `now` are the two readings of the monotonic clock, the first of which only
        the first line takes, and `info` is the answer of dladdr for the address. */
    method Print(address: Word, info: Option<DlInfo>, first: Millis, now: Millis, threadId: int, text: string)
      returns (line: string)
      modifies this
      ensures sequence == (old(sequence) + 1) % 0x1_0000_0000
      ensures origin == if old(origin).Some? then old(origin) else Some(first)
      ensures var elapsed := if now >= origin.value then now - origin.value else 0;
              line == LoggedLine(sequence, elapsed, threadId, address, info, text)
    {
      var message := Printed(text, MESSAGE_BUFFER);
      if origin.None? { origin := Some(first); }
      var elapsed := if now >= origin.value then now - origin.value else 0;
      sequence := (sequence + 1) % 0x1_0000_0000;
      var source := PrintOrigin(address, info);
      line := Printed(Header(sequence, elapsed, threadId) + source + "] " + message, LINE_BUFFER);
    }
  }

  /** The part of the line that says where it was logged. */
  method PrintOrigin(address: Word, info: Option<DlInfo>) returns (source: string)
    ensures source == Origin(address, info)
  {
    var pc := Canonical(address);
    var resolved := pc != 0 && info.Some? && info.value.fbase != 0;
    if resolved {
      var base := info.value.fbase;
      var rva := if pc >= base then pc - base else 0;
      source := " pc=" + BaseName(info.value.fname) + "+0x" + Hex(rva);
    } else {
      source := " pc=0x" + Hex(pc);
    }
  }

  // ---------------------------------------------------------------- the header is found first

  lemma DigitsShort(n: nat, base: nat, k: nat, bound: nat)
    requires (base == 10 || base == 16) && k >= 1 && Power(base, k) == bound && n < bound
    ensures |Digits(n, base)| <= k
  {
    DigitCount(n, base, k);
  }

  lemma Powers()
    ensures Power(10, 10) == 10_000_000_000
    ensures Power(10, 20) == 100_000_000_000_000_000_000
    ensures Power(16, 8) == 0x1_0000_0000
  {
  }

  /** The part before the call site is short and holds no p, so no call site starts in it. */
  lemma HeaderFacts(sequence: Word, elapsed: Millis, threadId: int)
    requires -0x8000_0000_0000_0000 <= threadId < 0x8000_0000_0000_0000
    ensures |Header(sequence, elapsed, threadId)| <= 62
    ensures 'p' !in Header(sequence, elapsed, threadId)
  {
    Powers();
    DigitsShort(sequence, 10, 10, 10_000_000_000);
    DigitsShort(elapsed, 10, 20, 100_000_000_000_000_000_000);
    DigitsShort(if threadId < 0 then -threadId else threadId, 10, 20, 100_000_000_000_000_000_000);
    NoP(Padded(Decimal(sequence), 6));
    NoP(Padded(Decimal(elapsed), 6));
    NoP(Decimal(if threadId < 0 then -threadId else threadId));
    assert 'p' !in "[#" && 'p' !in " +" && 'p' !in "ms tid=" && 'p' !in "-";
  }

  lemma NoP(s: string)
    requires AllDigits(s)
    ensures 'p' !in s
  {
  }

  /** A call site that follows a text without a p is the one the search finds, group and all. */
  lemma CallsiteAfter(before: string, hex: string, after: string, wide: char -> bool)
    requires 'p' !in before && AllHex(hex) && hex != "" && (after == "" || after[0] == ']')
    ensures var s := before + CALLSITE + hex + after;
            var e := |before| + |CALLSITE| + |hex|;
            && FindCallsite(s, 0, wide) == Some((|before|, e))
            && s[|before| + |CALLSITE|..e] == hex
  {
    var s := before + CALLSITE + hex + after;
    var h := |before| + |CALLSITE|;
    var e := h + |hex|;
    assert s[|before|..h] == CALLSITE && s[h..e] == hex;
    assert CallsiteAt(s, |before|, e, wide);
    forall j: nat, f: nat | j < |before| ensures !CallsiteAt(s, j, f, wide) {
      assert s[j] == before[j] && before[j] in before && CALLSITE[0] == 'p';
      if j + |CALLSITE| <= |s| {
        assert s[j..j + |CALLSITE|][0] == s[j];
      }
    }
    FoundAt(s, |before|, e, wide);
  }

  lemma OriginOf(address: Word, info: DlInfo)
    requires 0 < info.fbase <= Canonical(address) && BaseName(info.fname) == "libil2cpp.so"
    ensures Origin(address, Some(info)) == " " + CALLSITE + Hex(Canonical(address) - info.fbase)
    ensures |Hex(Canonical(address) - info.fbase)| <= 8
  {
    assert " pc=" + "libil2cpp.so" == " " + "pc=libil2cpp.so" && CALLSITE == "pc=libil2cpp.so" + "+0x";
    Powers();
    DigitsShort(Canonical(address) - info.fbase, 16, 8, 0x1_0000_0000);
  }

  lemma LineShape(sequence: Word, elapsed: Millis, threadId: int, address: Word, info: DlInfo, text: string)
    requires -0x8000_0000_0000_0000 <= threadId < 0x8000_0000_0000_0000
    requires 0 < info.fbase <= Canonical(address) && BaseName(info.fname) == "libil2cpp.so"
    ensures LoggedLine(sequence, elapsed, threadId, address, Some(info), text)
            == (Header(sequence, elapsed, threadId) + " ") + CALLSITE + Hex(Canonical(address) - info.fbase)
               + ("] " + Printed(text, MESSAGE_BUFFER))
  {
    var header, hex := Header(sequence, elapsed, threadId), Hex(Canonical(address) - info.fbase);
    HeaderFacts(sequence, elapsed, threadId);
    OriginOf(address, info);
    var message := Printed(text, MESSAGE_BUFFER);
    Regroup(header, " ", CALLSITE, hex, "] ", message);
  }

  lemma Regroup(a: string, b: string, c: string, d: string, e: string, f: string)
    ensures a + (b + c + d) + e + f == (a + b) + c + d + (e + f)
  {
  }

  /** A row of a collected log: what logcat puts in front, which is digits, punctuation, a capital letter
      and the tag OPG3D, and the logged line up to its first newline, which starts another row. */
  function Row(before: string, line: string): string { before + Before(line, '\n') }

  lemma {:induction false} BeforeSkips(a: string, b: string, sep: char)
    requires sep !in a
    ensures Before(a + b, sep) == a + Before(b, sep)
  {
    if a == [] {
      assert a + b == b;
    } else {
      var s := a + b;
      BeforeSkips(a[1..], b, sep);
      assert s[0] == a[0] && s[1..] == a[1..] + b;
      assert [a[0]] + (a[1..] + Before(b, sep)) == a + Before(b, sep);
    }
  }

  lemma NoNewline(sequence: Word, elapsed: Millis, threadId: int, hex: string)
    requires AllHex(hex)
    ensures '\n' !in (Header(sequence, elapsed, threadId) + " ") + CALLSITE + hex
  {
    DigitsNoNewline(Padded(Decimal(sequence), 6));
    DigitsNoNewline(Padded(Decimal(elapsed), 6));
    DigitsNoNewline(Decimal(if threadId < 0 then -threadId else threadId));
    assert '\n' !in hex;
    assert '\n' !in "[#" && '\n' !in " +" && '\n' !in "ms tid=" && '\n' !in "-" && '\n' !in " " && '\n' !in CALLSITE;
  }

  lemma DigitsNoNewline(s: string)
    requires AllDigits(s)
    ensures '\n' !in s
  {
  }

  /** The row reads as text without a p, the call site, and a bracket. */
  lemma RowShape(before: string, sequence: Word, elapsed: Millis, threadId: int, address: Word, info: DlInfo, text: string)
    requires -0x8000_0000_0000_0000 <= threadId < 0x8000_0000_0000_0000
    requires 0 < info.fbase <= Canonical(address) && BaseName(info.fname) == "libil2cpp.so"
    ensures Row(before, LoggedLine(sequence, elapsed, threadId, address, Some(info), text))
            == (before + (Header(sequence, elapsed, threadId) + " ")) + CALLSITE + Hex(Canonical(address) - info.fbase)
               + ("]" + Before(" " + Printed(text, MESSAGE_BUFFER), '\n'))
  {
    var header, hex := Header(sequence, elapsed, threadId) + " ", Hex(Canonical(address) - info.fbase);
    var tail := " " + Printed(text, MESSAGE_BUFFER);
    LineShape(sequence, elapsed, threadId, address, info, text);
    NoNewline(sequence, elapsed, threadId, hex);
    assert "] " + Printed(text, MESSAGE_BUFFER) == "]" + tail;
    BeforeSkips(header + CALLSITE + hex, "]" + tail, '\n');
    BeforeSkips("]", tail, '\n');
    Rejoin(before, header, CALLSITE, hex, "]" + Before(tail, '\n'));
  }

  lemma Rejoin(a: string, b: string, c: string, d: string, e: string)
    ensures a + (b + c + d + e) == (a + b) + c + d + e
  {
  }

  /** Scanning a row logged from libil2cpp.so, whatever its text says and whatever without a p stands in
      front of it, finds the header's own call site, and its number is the canonical return address minus
      the load address. */
  lemma LoggedAddressScans(before: string, sequence: Word, elapsed: Millis, threadId: int, address: Word, info: DlInfo,
                           text: string, wide: char -> bool)
    requires 'p' !in before
    requires -0x8000_0000_0000_0000 <= threadId < 0x8000_0000_0000_0000
    requires 0 < info.fbase <= Canonical(address) && BaseName(info.fname) == "libil2cpp.so"
    ensures var row := Row(before, LoggedLine(sequence, elapsed, threadId, address, Some(info), text));
            var hit := FindCallsite(row, 0, wide);
            hit.Some? && AddressAt(row, hit.value, wide) == Canonical(address) - info.fbase
  {
    var header, hex := Header(sequence, elapsed, threadId) + " ", Hex(Canonical(address) - info.fbase);
    HeaderFacts(sequence, elapsed, threadId);
    ParseHexOfHex(Canonical(address) - info.fbase);
    RowShape(before, sequence, elapsed, threadId, address, info, text);
    assert 'p' !in before + header;
    CallsiteAfter(before + header, hex, "]" + Before(" " + Printed(text, MESSAGE_BUFFER), '\n'), wide);
  }

  /** From the hook to the reader: a row logged from libil2cpp.so and not annotated yet is annotated with
      the methods of the nearest start, and that start plus the printed offset is the caller's address
      relative to the library. */
  lemma LoggedCallerIsNamed(before: string, sequence: Word, elapsed: Millis, threadId: int, address: Word, info: DlInfo,
                            text: string, methods: seq<Method>, maxOffset: nat, start: nat, wide: char -> bool)
    requires 'p' !in before
    requires -0x8000_0000_0000_0000 <= threadId < 0x8000_0000_0000_0000
    requires 0 < info.fbase <= Canonical(address) && BaseName(info.fname) == "libil2cpp.so"
    requires IsStart(methods, Canonical(address) - info.fbase, start)
    requires Canonical(address) - info.fbase - start <= maxOffset
    requires !HasAnnotation(Row(before, LoggedLine(sequence, elapsed, threadId, address, Some(info), text)))
    ensures var row := Row(before, LoggedLine(sequence, elapsed, threadId, address, Some(info), text));
            var offset := Canonical(address) - info.fbase - start;
            && Symbolized(row, methods, maxOffset, wide)
               == row + Annotation(Rendered(Names(methods, start)) + "+0x" + Hex(offset))
            && start + ParseHex(Hex(offset)) + info.fbase == Canonical(address)
  {
    LoggedAddressScans(before, sequence, elapsed, threadId, address, info, text, wide);
    AnswerAt(methods, Canonical(address) - info.fbase, maxOffset, start);
  }

  // ---------------------------------------------------------------- what a line says

  /** The file name of a path: what follows its last slash, the path itself without one, and a question mark
      for no path at all. */
  lemma BaseNameMeans(dir: string, file: string)
    requires '/' !in file
    ensures BaseName(Some(dir + "/" + file)) == file
    ensures file != "" ==> BaseName(Some(file)) == file
    ensures BaseName(Some("")) == "?" && BaseName(None) == "?"
  {
    SlashSplits(dir, file);
    NoSlash(file);
  }

  lemma {:induction false} SlashSplits(dir: string, file: string)
    requires '/' !in file
    ensures AfterLastSlash(dir + "/" + file) == file
  {
    var path := dir + "/" + file;
    if dir == "" {
      assert path[0] == '/' && path[1..] == file;
    } else {
      assert path[1..] == dir[1..] + "/" + file;
      assert (dir[1..] + "/" + file)[|dir| - 1] == '/';
      SlashSplits(dir[1..], file);
    }
  }

  lemma {:induction false} NoSlash(file: string)
    requires '/' !in file
    ensures AfterLastSlash(file) == file
  {
  }

  /** A line whose address lies in a library reads, in this order, as its number, the elapsed milliseconds, the
      thread, the library's file name and the even address minus the load address, each in the base and width
      of its place, and then the message. */
  lemma {:induction false} LineReads(sequence: Word, elapsed: Millis, threadId: nat, address: Word, info: DlInfo,
                                     text: string)
    returns (number: string, time: string, thread: string, rva: string)
    requires address >= 2 && info.fbase != 0
    ensures AllDigits(number) && |number| >= 6 && ValueOf(number, 10) == sequence
    ensures AllDigits(time) && |time| >= 6 && ValueOf(time, 10) == elapsed
    ensures AllDigits(thread) && ValueOf(thread, 10) == threadId
    ensures AllHex(rva)
            && ValueOf(rva, 16) == if address - address % 2 >= info.fbase then address - address % 2 - info.fbase else 0
    ensures LoggedLine(sequence, elapsed, threadId, address, Some(info), text)
            == Printed(("[#" + number + " +" + time + "ms tid=" + thread)
                       + (" pc=" + BaseName(info.fname) + "+0x" + rva) + "] " + Printed(text, 3072), 4096)
  {
    var pc := address - address % 2;
    var offset := if pc >= info.fbase then pc - info.fbase else 0;
    number := SixDigits(sequence);
    time := SixDigits(elapsed);
    thread, rva := Decimal(threadId), Hex(offset);
    DigitsMean(threadId, 10);
    DigitsMean(offset, 16);
  }

  lemma SixDigits(n: nat) returns (digits: string)
    ensures digits == Padded(Decimal(n), 6) && AllDigits(digits) && |digits| >= 6 && ValueOf(digits, 10) == n
  {
    digits := Padded(Decimal(n), 6);
    PaddedValue(Decimal(n), 6, 10);
    DigitsMean(n, 10);
  }

  /** A line whose address is in no library shows the even address itself. */
  lemma {:induction false} PlainLineReads(sequence: Word, elapsed: Millis, threadId: nat, address: Word, text: string)
    returns (number: string, time: string, thread: string, pc: string)
    ensures AllDigits(number) && |number| >= 6 && ValueOf(number, 10) == sequence
    ensures AllDigits(time) && |time| >= 6 && ValueOf(time, 10) == elapsed
    ensures AllDigits(thread) && ValueOf(thread, 10) == threadId
    ensures AllHex(pc) && ValueOf(pc, 16) == address - address % 2
    ensures LoggedLine(sequence, elapsed, threadId, address, None, text)
            == Printed(("[#" + number + " +" + time + "ms tid=" + thread) + (" pc=0x" + pc) + "] " + Printed(text, 3072),
                       4096)
  {
    var even := address - address % 2;
    number := SixDigits(sequence);
    time := SixDigits(elapsed);
    thread, pc := Decimal(threadId), Hex(even);
    DigitsMean(threadId, 10);
    DigitsMean(even, 16);
  }
}
