# Verification of the OPG3D native layer and its tools

A Dafny model of the Old Pixel Gun 3D Online Project: the small native library `libopg3d.so`, which
finds IL2CPP exports in memory, hooks managed methods and keeps every connection on one Photon Cloud
route, together with the log tool and the build-time source patcher that belong to it. Each module
models one source file or one piece of it, and its theorems are about all inputs, all foreign answers
or all runs.

`dafny verify dfyconfig.toml` checks the whole project.

| file | models |
|---|---|
| `Transcoder.dfy` | managed UTF-16 strings to UTF-8, against RFC 2781 and RFC 3629 |
| `Fingerprint.dfy` | FNV-1a and the two AppID summaries that a reader compares |
| `ElfResolver.dfy`, `ElfImage.dfy` | finding a library and an export in flat, wrapping 32-bit memory, and the answers on an image written out as the System V gABI lays it out |
| `TextRewrite.dfy`, `SourcePatcher.dfy` | string replacement and the two ShadowHook source patches |
| `DumpLines.dfy`, `DumpParser.dfy`, `RvaIndex.dfy` | the dump parser, with its three regular expressions, and the address index of the log tool |
| `LogPrinter.dfy`, `LogSymbolizer.dfy` | the log line format and the annotator that reads it back |
| `DumpFormat.dfy` | dumps written out line by line, and what they parse to |
| `BracketNames.dfy` | dumps for which the annotator is not idempotent |
| `FieldReader.dfy`, `CloudGuard.dfy` | field read-back and the fail-closed connection guard |
| `FriendsGuard.dfy` | the FriendsController.Update quarantine |
| `HookTables.dfy`, `HookInstaller.dfy` | the two tables of hooks, their transactional installation, and what each slot reaches |
| `TraceHooks.dfy` | the trace hook of UseCloud(appId, region) |
| `InitThread.dfy` | the init thread: polling, settling, attach, hooks, detach |
| `Numerals.dfy`, `PyText.dfy`, `Sorting.dfy`, `Wrappers.dfy` | number formats, Python strings, sorted(set(...)), Option |

Foreign code (IL2CPP, ShadowHook, Photon, the loader, clocks) appears only as answers: a method takes
what the foreign calls return as parameters, and a theorem over runs is over every such answer. Of
ShadowHook, two facts of UNIQUE mode are relied on: it refuses an address that is already patched, and
a trampoline it returns is a new address that runs the original code.

## Where the code falls short of its description

These are theorems too, each with the exact condition.

- The patch script calls itself idempotent. Its linker patch is, on every file. Its flag patch is if
  and only if the file holds no needle with whole needles spliced into it; repeated runs always come
  to rest (`FlagPatchIdempotentIff`, `NestedNeedleSurvives`, `FlagRunsSettle`).
- The log tool is meant not to annotate a line twice. That holds on every log if and only if, for each
  address at which a method starts, the names shown have no `]` or have the opening of an annotation
  after the last one. Explicit implementations of interfaces over array types break it, and such a dump
  is given line by line (`IdempotentOnEveryLogIff`, `IdempotentIffNamesRecognised`,
  `SmallDumpIdempotentIff`, `BracketNameExample`).
- A converted string whose last unit read is a high surrogate is not UTF-8 (`OutputDecodes`).
- The two AppID summaries are the same text if and only if the AppID is ASCII without a NUL
  (`SummariesAgreeIffAscii`).
- The ready flag is no statement about the present settings. In every run it is set if and only if some
  entry was let through and every later one ended early (`FlagIsLastOutcome`). It is true of the present
  settings, whatever the objects contain, if and only if the SDK call of that entry kept the settings
  reference and the game has not moved since (`FlagSpeaksOf`). An entry is blocked while the flag stays set
  if and only if the flag was set before and the application ended early (`BlockedButReadyIff`).
  `FlagCanBeStale` gives two such runs. Nothing in the program acts on the flag: every entry applies the
  route anew.
- The read-back is of the settings object that was current before the SDK call. For the references of any
  run, all original connects start from the forced route, whatever the objects contain, if and only if no
  SDK call that is read back moves the settings reference (`ConnectStartsRouted`); otherwise a connect can
  run all the same (`ReplacedSettingsConnect`).
- Installing into a slot that an installed hook already uses breaks that hook, even when the engine
  refuses the install (`SlotsReachOwnIffFree`, `SecondInstallCrashes`). The two tables use no slot twice
  (`TablesArePaired`), every run installs each of them at most once (`RunCounts`), and what a run leaves
  behind is accounted for (`RunAccounted`).
- A call of UseCloud(appId, region) has the effect of the original if its address is not patched or
  carries the trace hook of that method. Where methods share an address the replacement of another one
  may sit there, and then nothing is promised (`UseCloudKeepsItsEffect`).

## Model

| member | source | states |
|---|---|---|
| Transcoder.AppendUtf8 | opg3d/src/main/cpp/il2cpp.cpp:24-40 | the bytes pushed for a code point are those of its UTF-8 form, appended to what was there |
| Transcoder.BitsAsArithmetic | opg3d/src/main/cpp/il2cpp.cpp:25-39 | on 32-bit words the shifts, masks and ORs of the converter are the divisions, remainders and sums of the model |
| Transcoder.Transcode | opg3d/src/main/cpp/il2cpp.cpp:159-173 | the loop emits the RFC 2781 scalars of the units read, with one raw exception for a high surrogate in the last place |
| Transcoder.ToUtf8 | opg3d/src/main/cpp/il2cpp.cpp:144-177 | the result in every case: the three notices letter by letter for a null string, a missing API and null contents, nothing for an empty string, and otherwise the text of exactly the units the string holds, whatever follows them in the buffer, cut at the limit |
| Transcoder.ScalarsByParts | opg3d/src/main/cpp/il2cpp.cpp:159-171 | behind any well-formed part: a pair of surrogates is one supplementary scalar, an unpaired one U+FFFD, any other unit itself, and reading goes on after what was consumed |
| Transcoder.RawLast | opg3d/src/main/cpp/il2cpp.cpp:161-172 | with a high surrogate as the last unit the output ends in its three raw bytes, after the text of the units before it |
| Transcoder.StandardExamples | opg3d/src/main/cpp/il2cpp.cpp:24-40 | the examples of section 7 of RFC 3629 have the bytes given there |
| Transcoder.DecodeUtf8Of | opg3d/src/main/cpp/il2cpp.cpp:24-40 | whatever follows, the emitted bytes of a scalar value decode by the RFC 3629 grammar to that value and that length |
| Transcoder.RawSurrogate | opg3d/src/main/cpp/il2cpp.cpp:161-172 | whatever follows, the three bytes of a raw surrogate are refused by the RFC 3629 grammar |
| Transcoder.OutputDecodes | opg3d/src/main/cpp/il2cpp.cpp:154-176 | for every string and limit the output is well-formed UTF-8 iff the last unit read is not a high surrogate, and then decodes to the RFC 2781 scalars with U+FFFD for each unpaired surrogate, plus the mark |
| Transcoder.OutputSize | opg3d/src/main/cpp/il2cpp.cpp:155-175 | at most three bytes per unit read, plus three for the mark |
| Transcoder.LosslessIffWellFormed | opg3d/src/main/cpp/il2cpp.cpp:159-176 | decoding the output and re-encoding it as UTF-16 gives the original back iff the string is well-formed UTF-16 |
| Transcoder.TextIsInjective | opg3d/src/main/cpp/il2cpp.cpp:159-176 | different well-formed strings within the limit have different texts |
| Fingerprint.Fnv1a | opg3d/src/main/cpp/photon_hooks.cpp:71-78 | the loop computes the 32-bit FNV-1a of the first length bytes |
| Fingerprint.XorBits | opg3d/src/main/cpp/photon_hooks.cpp:74 | at every width a bit of the result is set iff it lies below the width and the two bits differ |
| Fingerprint.KnownHashes | opg3d/src/main/cpp/photon_hooks.cpp:71-78 | the hashes of the empty text and of one zero byte, as numbers, which fix both constants |
| Fingerprint.StepIsBijective | opg3d/src/main/cpp/photon_hooks.cpp:74-75 | for each byte a round is a bijection of the 32-bit hash, with an explicit inverse |
| Fingerprint.StepTellsBytes | opg3d/src/main/cpp/photon_hooks.cpp:74-75 | for each hash a round is injective in the byte |
| Fingerprint.CommonSuffix | opg3d/src/main/cpp/photon_hooks.cpp:71-78 | after a common end two hashes are equal iff they were equal before it |
| Fingerprint.SubstitutionDetected | opg3d/src/main/cpp/photon_hooks.cpp:71-78 | changing one byte at any position of a string of any length changes the hash |
| Fingerprint.SecretSummary | opg3d/src/main/cpp/photon_hooks.cpp:86-97 | the summary in every case, through the 256-unit conversion and the 128-byte buffer; with both exports bound it is the summary of exactly the units the string holds |
| Fingerprint.ConfiguredSecretSummary | opg3d/src/main/cpp/photon_hooks.cpp:101-109 | the summary of the configured literal, which ends at its first NUL |
| Fingerprint.KnownSummary | opg3d/src/main/cpp/photon_hooks.cpp:93-96 | the summary of one NUL unit, letter by letter |
| Fingerprint.SummaryInjective | opg3d/src/main/cpp/photon_hooks.cpp:93-107 | a printed summary is never cut short and determines its length, size and hash |
| Fingerprint.SummariesDiffer | opg3d/src/main/cpp/photon_hooks.cpp:99-109 | IDs of one length without a NUL that differ in one byte have different summaries |
| Fingerprint.SummariesAgreeIffAscii | opg3d/src/main/cpp/photon_hooks.cpp:80-109 | for IDs of at most 256 units the game's and the configured summary are equal iff the ID is ASCII without a NUL |
| Fingerprint.ManagedSummariesDifferIff | opg3d/src/main/cpp/photon_hooks.cpp:80-97 | summaries of two ASCII strings of one length that differ in one unit are different iff that unit is among the first 256 |
| Fingerprint.LongStringsShareSummary | opg3d/src/main/cpp/photon_hooks.cpp:80-97 | beyond 256 units the summary depends on the first 256 units and the length only, and still on the length |
| ElfResolver.NameMatchesIff | opg3d/src/main/cpp/elf_sym.cpp:19-24 | a path matches iff it is the file name itself or ends in a slash and the file name |
| ElfResolver.IterateCallback | opg3d/src/main/cpp/elf_sym.cpp:26-34 | the callback stops and fills the structure on a match and leaves it untouched otherwise |
| ElfResolver.FindLibrary | opg3d/src/main/cpp/elf_sym.cpp:89-97 | the first library with the name is found, and only if its headers are not null |
| ElfResolver.FirstNamedMeans | opg3d/src/main/cpp/elf_sym.cpp:89-97 | the first library of the list that the name matches, and none iff it matches none |
| ElfResolver.ReadTables | opg3d/src/main/cpp/elf_sym.cpp:56-71 | the last entry of each tag before DT_NULL gives the table, corrected for the load bias |
| ElfResolver.StringsEqual | opg3d/src/main/cpp/elf_sym.cpp:81 | the comparison succeeds iff the bytes are the name and a NUL |
| ElfResolver.ScanSymbols | opg3d/src/main/cpp/elf_sym.cpp:72-86 | load bias plus value of the lowest index below nchain that is named, non-zero, defined and equal; null when there is none |
| ElfResolver.Lookup | opg3d/src/main/cpp/elf_sym.cpp:42-87 | the whole lookup meets its declarative meaning, with wrapping 32-bit addresses and null for a dynamic section at address 0 |
| ElfResolver.FindSymbol | opg3d/src/main/cpp/elf_sym.cpp:108-112 | null for an unknown library, otherwise the lookup in the first library of that name |
| ElfImage.ImageAnswers | opg3d/src/main/cpp/elf_sym.cpp:42-87 | on every image written out as chapter 5 of the System V gABI lays it out, with literal tags, entry sizes and field offsets: the answer for a name is the load bias plus the value of the first symbol of that name that is named, non-zero and defined, and null iff there is none |
| ElfImage.SmallImageAnswers | opg3d/src/main/cpp/elf_sym.cpp:42-87 | of an image given byte by byte: the answers for a name it defines and for one it does not, as numbers |
| ElfResolver.AnswerUnique | opg3d/src/main/cpp/elf_sym.cpp:42-87 | the meaning of a lookup admits one answer only |
| ElfResolver.LookupMoves | opg3d/src/main/cpp/elf_sym.cpp:36-87 | an image moved to another base, with dynamic entries relative or absolute and any relocated words elsewhere, gives every answer moved by the difference of the bases, and null for the same names |
| ElfResolver.EitherFormSameAnswer | opg3d/src/main/cpp/elf_sym.cpp:36-40 | at one base, relative and absolute dynamic entries give the same answer |
| ElfResolver.SmallImagePlaced | opg3d/src/main/cpp/elf_sym.cpp:42-87 | a small image with a named symbol meets what LookupMoves asks for, at every base above its dynamic values |
| ElfResolver.SmallImageMoves | opg3d/src/main/cpp/elf_sym.cpp:36-40 | at any two such bases it is the same image, although a relocated word of it differs |
| SourcePatcher.Run | opg3d/src/main/cpp/cmake/patch-shadowhook.cmake:29-126 | outcome and contents of both files after a run, for every source tree |
| SourcePatcher.SucceedsIffMarked | opg3d/src/main/cpp/cmake/patch-shadowhook.cmake:15-124 | the script succeeds iff both files are there and the linker file it leaves has the marker |
| SourcePatcher.FlagIsCut | opg3d/src/main/cpp/cmake/patch-shadowhook.cmake:39-47 | a flag behind a text without a bar is taken out, that text stays and what follows is treated alike |
| SourcePatcher.LinkerIsReplaced | opg3d/src/main/cpp/cmake/patch-shadowhook.cmake:91-106 | a needle behind a text without an underscore gives way to the replacement, that text stays and what follows is treated alike |
| SourcePatcher.LinkerPatchComplete | opg3d/src/main/cpp/cmake/patch-shadowhook.cmake:91-124 | on any content: no needle is left, the marker is there if there was a needle, a second application changes nothing and is recognised iff the first was |
| SourcePatcher.LinkerPatchReversible | opg3d/src/main/cpp/cmake/patch-shadowhook.cmake:104-106 | nothing but the needles changes: putting them back gives the original, and the length accounts for each |
| SourcePatcher.SecondRun | opg3d/src/main/cpp/cmake/patch-shadowhook.cmake:15-17 | a second run succeeds iff the first did and never touches the linker file again |
| SourcePatcher.FlagPatchShrinks | opg3d/src/main/cpp/cmake/patch-shadowhook.cmake:39-47 | a run removes 20 characters per needle and changes the file iff it holds one |
| SourcePatcher.FlagPatchIdempotentIff | opg3d/src/main/cpp/cmake/patch-shadowhook.cmake:39-47 | the flag patch is idempotent on a file iff it holds no interrupted needle |
| SourcePatcher.ScriptIdempotentIff | opg3d/src/main/cpp/cmake/patch-shadowhook.cmake:15-124 | the script is idempotent on a source tree iff the flag file holds no interrupted needle |
| SourcePatcher.NestedNeedleSurvives | opg3d/src/main/cpp/cmake/patch-shadowhook.cmake:30-45 | a needle put anywhere inside another leaves a whole needle after one run |
| SourcePatcher.FlagRunsSettle | opg3d/src/main/cpp/cmake/patch-shadowhook.cmake:39-47 | after one run per 20 characters no needle is left |
| TextRewrite.NoNeedleLeft | opg3d/src/main/cpp/cmake/patch-shadowhook.cmake:104-105 | replacing by a separated text leaves no needle in any text, not even across an edge |
| TextRewrite.ReplaceBack | opg3d/src/main/cpp/cmake/patch-shadowhook.cmake:104-105 | such a replacement can be undone where the inserted text was absent |
| TextRewrite.NeedleLeftIffInterrupted | opg3d/src/main/cpp/cmake/patch-shadowhook.cmake:44 | cutting an unbordered needle out leaves one iff the text held an interrupted needle |
| TextRewrite.ReplaceAtFirst | opg3d/src/main/cpp/cmake/patch-shadowhook.cmake:104-105 | for every needle and place: where it stands first it is replaced, what is before it stays, and the search goes on behind it |
| DumpLines.NamespaceMeans | tools/symbolize_log.py:21 | the namespace expression captures a name iff the line reads as two slashes, blanks, the label, blanks and that name |
| DumpLines.RvaHereMeans | tools/symbolize_log.py:20 | a place matches the RVA expression with a number iff it reads as slashes, label, 0x and hexadecimal digits of that number up to a word boundary |
| DumpLines.RvaMeans | tools/symbolize_log.py:20 | the search gives the number of the leftmost such place, and nothing iff there is none |
| DumpLines.TypeMeans | tools/symbolize_log.py:22-26 | the type expression matches a line iff its grammar reads it, and every reading gives the same name up to blanks |
| DumpParser.MethodNameMeans | tools/symbolize_log.py:37-47 | a line gives a name iff it reads as a blank-free word, optional blanks and the first parenthesis, is no comment or attribute and the word is no keyword |
| DumpParser.ParseDump | tools/symbolize_log.py:50-95 | for every list of lines: the result is strictly sorted, no longer than the number of RVA lines, and holds exactly the methods declared: RVA line, then a declaration with only passive lines between, owner from the latest namespace and type |
| DumpParser.ParsedInOrder | tools/symbolize_log.py:95 | the result is in ascending order of address, and at one address in the order of the first character in which the names differ |
| PyText.BeforeCommentCuts | tools/symbolize_log.py:69 | a type name is cut at the first place where two slashes stand |
| PyText.BeforeCommentKeeps | tools/symbolize_log.py:69 | and is left whole where two slashes stand nowhere |
| DumpFormat.ItemFits | tools/symbolize_log.py:19-47 | every line of a dump is taken for what it was written as: namespace, type with modifiers and trailing comment, RVA, declaration, attribute, comment, brace or blank |
| DumpFormat.DumpParses | tools/symbolize_log.py:50-95 | for every dump written out line by line the parser returns exactly the methods it stands for: address in hexadecimal, and namespace, dot, type without its comment, dot, method |
| RvaIndex.StartMeans | tools/symbolize_log.py:107-110 | the scan gives the greatest start not above the query, and nothing iff there is none |
| RvaIndex.NamesMean | tools/symbolize_log.py:101-104 | the names at an address are strictly sorted and exactly those of the methods that start there |
| RvaIndex.RenderedShapes | tools/symbolize_log.py:114-118 | up to three names are shown with bars between them, and beyond three the number of those left out |
| RvaIndex.LookupSame | tools/symbolize_log.py:99-118 | neither the order nor the repetition of the input methods changes an answer |
| RvaIndex.NoAnswer | tools/symbolize_log.py:108-113 | there is no answer iff no method starts at or below the query within the offset limit |
| RvaIndex.AnswerAt | tools/symbolize_log.py:110-118 | the answer names the nearest start and its printed offset, parsed back, adds up to the query |
| RvaIndex.Index.constructor | tools/symbolize_log.py:99-104 | the built index represents the input methods |
| RvaIndex.Index.BisectRight | tools/symbolize_log.py:107 | binary search returns the number of starts not above the query |
| RvaIndex.Index.Resolve | tools/symbolize_log.py:106-118 | the indexed answer equals that of the linear scan over the input |
| LogSymbolizer.FindCallsiteMeans | tools/symbolize_log.py:27 | the call-site search returns the leftmost match, and nothing iff there is none |
| LogSymbolizer.RecognisedIff | tools/symbolize_log.py:28 | the annotation expression finds the tool's own annotation iff its text is self-recognised, whatever precedes it |
| LogSymbolizer.SymbolizeLines | tools/symbolize_log.py:121-131 | the loop gives, line by line, the annotated log |
| LogSymbolizer.SymbolizedMeans | tools/symbolize_log.py:121-131 | in plain text: a line without a call site, or with an annotation, stays; otherwise the hexadecimal digits of the leftmost call site are looked up and the answer is added in brackets |
| LogSymbolizer.LinesKept | tools/symbolize_log.py:121-131 | line count and order are kept and each line gets at most one annotation at its end |
| LogSymbolizer.CallsiteStays | tools/symbolize_log.py:126-130 | appending an annotation neither adds nor moves the first call site |
| LogSymbolizer.SecondPassIff | tools/symbolize_log.py:124-131 | a second pass leaves a line alone iff nothing was appended or what was appended is self-recognised |
| LogSymbolizer.LogIdempotentIff | tools/symbolize_log.py:121-131 | the same for a whole log |
| LogSymbolizer.IdempotentOnEveryLogIff | tools/symbolize_log.py:121-131 | the tool is idempotent on every log iff every answer of the index is self-recognised |
| LogSymbolizer.NoBracketsSuffice | tools/symbolize_log.py:28-131 | method names without a closing bracket make it idempotent on every log |
| LogSymbolizer.IdempotentIffNamesRecognised | tools/symbolize_log.py:28-131 | for all names: idempotent on every log iff at each start address the names shown have no closing bracket or an opening after the last one |
| LogSymbolizer.BracketNameRepeats | tools/symbolize_log.py:28-131 | with one method some log is annotated twice iff its name has a closing bracket and no opening after the last one |
| BracketNames.SmallDumpDeclares | tools/symbolize_log.py:37-95 | a namespace line, a class line with a trailing comment, an RVA line and a declaration parse to the one method they name, its qualified name written out |
| BracketNames.SmallDumpIdempotentIff | tools/symbolize_log.py:28-131 | whatever the parser returns for such a dump, the tool is idempotent on every log iff neither namespace nor type nor method name has a closing bracket |
| BracketNames.BracketNameExample | tools/symbolize_log.py:28-131 | a dump of one method, an explicit implementation of an interface over an array type, for which some log is annotated twice |
| LogPrinter.Logger.Print | opg3d/src/main/cpp/log.h:52-94 | the printed line, sequence number and clock origin, with two clock readings on the first line and both buffer limits |
| LogPrinter.LineReads | opg3d/src/main/cpp/log.h:71-94 | in a line from a known library the numbers read back as the sequence number, the elapsed milliseconds, the thread and the even address minus the base, each in its place |
| LogPrinter.PlainLineReads | opg3d/src/main/cpp/log.h:71-94 | the same for a line from an unknown library, which shows the even address itself |
| LogPrinter.BaseNameMeans | opg3d/src/main/cpp/log.h:42-46 | the library shown is what follows the last slash, or a question mark for a missing or empty path |
| LogPrinter.LoggedAddressScans | opg3d/src/main/cpp/log.h:71-86 | whatever the message says and whatever without a p stands in front, scanning a row from libil2cpp.so finds the header's call site and parses back the address without its Thumb bit, minus the base |
| LogPrinter.LoggedCallerIsNamed | tools/symbolize_log.py:106-131 | such a row is annotated with the nearest methods, and start plus printed offset plus base is the caller's address |
| FieldReader.ReadField | opg3d/src/main/cpp/photon_hooks.cpp:111-136 | for fields up to 16 bytes and targets up to 8 the value read is the field's little-endian value mod 256^width, every write inside the buffer |
| FieldReader.StoredMeans | opg3d/src/main/cpp/photon_hooks.cpp:123-134 | zero-extension and truncation are that remainder |
| FieldReader.FourBytesMean | opg3d/src/main/cpp/photon_hooks.cpp:123-134 | four bytes count 1, 2^8, 2^16 and 2^24, and the widths 1, 2, 4 and 8 have their powers of 256 |
| CloudGuard.Guard.CurrentSettings | opg3d/src/main/cpp/cloud_guard.h:70-79 | the cached field and the static reference or null |
| CloudGuard.Guard.ForceCloud | opg3d/src/main/cpp/cloud_guard.h:128-209 | result, state, game state and events equal the declarative application, in every branch |
| CloudGuard.Guard.HookConnect | opg3d/src/main/cpp/cloud_guard.h:211-235 | the original entry runs iff the application succeeded, right after it |
| CloudGuard.ConnectsExactly | opg3d/src/main/cpp/cloud_guard.h:134-235 | every entry of every run, in literal bytes: which checks lead to the SDK call with region 0, when the read-back of HostType 1, PreferredRegion 0 and the AppID lets the original connect, and what is blocked otherwise |
| CloudGuard.EveryConnectIsGuarded | opg3d/src/main/cpp/cloud_guard.h:176-235 | in every run each guarded connect follows, in its own invocation, the SDK call and a read-back of host 1, region 0 and the same AppID on the same object |
| CloudGuard.NothingConnectsWithout | opg3d/src/main/cpp/cloud_guard.h:136-174 | with an empty AppID, or while UseCloud is never found, no run connects through a guarded entry |
| CloudGuard.FlagIsLastOutcome | opg3d/src/main/cpp/cloud_guard.h:134-196 | in every run the ready flag is set iff some entry was let through and every later entry ended early |
| CloudGuard.FlagLeaves | opg3d/src/main/cpp/cloud_guard.h:176-196 | since the flag was last set the game is what that SDK call or the last game step left |
| CloudGuard.ReferencesDecide | opg3d/src/main/cpp/cloud_guard.h:144-174 | which references are current and which lookups are cached does not depend on what the objects contain |
| CloudGuard.FlagSpeaksOf | opg3d/src/main/cpp/cloud_guard.h:176-196 | for the references of any run in which a step set the flag for the last time: the flag is true of the present settings for all contents of the objects iff the SDK call of that step kept the settings reference and no game step came since |
| CloudGuard.BlockedButReadyIff | opg3d/src/main/cpp/cloud_guard.h:136-174 | an entry is blocked with the flag set iff the flag was set before and the application ended early |
| CloudGuard.FlagCanBeStale | opg3d/src/main/cpp/cloud_guard.h:48-196 | two runs: the game drops the route and the flag stays; an entry is blocked for want of a string and the flag stays |
| CloudGuard.ConnectStartsRouted | opg3d/src/main/cpp/cloud_guard.h:179-216 | for the references of any run: all original connects start from the forced route for all contents of the objects iff no SDK call that is read back moves the settings reference |
| CloudGuard.ReplacedSettingsConnect | opg3d/src/main/cpp/cloud_guard.h:179-216 | if the call moves the reference from one given object to another, a connect can start from an object without the route |
| FriendsGuard.Guard.HookFriendsUpdate | opg3d/src/main/cpp/cloud_guard.h:237-255 | counter and events after any sequence of calls |
| FriendsGuard.CallDoes | opg3d/src/main/cpp/cloud_guard.h:119-255 | after any calls, one more in a state below 2 or equal to 15 is forwarded; any other is skipped, counted, and warned about among the first eight and then at every 120th |
| FriendsGuard.ForwardedOnlyWhenIdle | opg3d/src/main/cpp/cloud_guard.h:119-126 | in every run the original runs only in states below 2 or equal to 15 |
| FriendsGuard.CallsAreAccounted | opg3d/src/main/cpp/cloud_guard.h:244-254 | calls equal forwarded plus skipped, and the number of warnings is a closed form of the skipped calls for every count, wrap-around included |
| FriendsGuard.WarningsBelowWrap | opg3d/src/main/cpp/cloud_guard.h:244-254 | below the wrap-around, n skipped calls give min(n, 8) + n / 120 warnings |
| HookInstaller.Hooks.Install | opg3d/src/main/cpp/hook.cpp:43-102 | success and the whole new state of one install, rollback included |
| HookInstaller.InstalledIff | opg3d/src/main/cpp/hook.cpp:43-102 | over any list of installs from the start: one succeeds iff the engine started, its method and address are found, the engine accepts, the trampoline is not null and no earlier successful one has its address |
| HookInstaller.NullArguments | opg3d/src/main/cpp/hook.cpp:43-48 | without a replacement or a slot an install does nothing and fails |
| HookInstaller.Hooks.InstallAll | opg3d/src/main/cpp/photon_hooks.cpp:605-666 | the counter of a table is the number of its successful installs, and the flag is the outcome of the first |
| HookInstaller.Hooks.InstallTracing | opg3d/src/main/cpp/photon_hooks.cpp:624-686 | installing the seventeen rows reports whether the required first hook was installed |
| HookInstaller.Hooks.InstallGuard | opg3d/src/main/cpp/cloud_guard.h:278-309 | installing the five rows succeeds iff the backend guard and at least one more hook were installed |
| HookInstaller.FailureKeepsCode | opg3d/src/main/cpp/hook.cpp:50-97 | a failed install leaves every patch as it was |
| HookInstaller.SlotsReachOwnIffFree | opg3d/src/main/cpp/hook.cpp:77-97 | an install keeps every slot on the original of its own hook iff it stops before clearing the slot or no installed hook uses that slot |
| HookInstaller.InstallsAccounted | opg3d/src/main/cpp/hook.cpp:43-102 | after any installs with distinct slots: patches and successes correspond one to one, successful slots hold the trampoline of their address, other slots are null, the counter is the number of patches, and every call that a replacement makes through its slot reaches its own original |
| HookInstaller.SecondInstallCrashes | opg3d/src/main/cpp/hook.cpp:77-85 | installing a successful request again makes the next call through its slot crash |
| HookTables.TablesArePaired | opg3d/src/main/cpp/photon_hooks.cpp:624-664 | over both tables no slot and no replacement is used twice and each replacement is paired with the slot its body calls |
| HookInstaller.RowInstalledIff | opg3d/src/main/cpp/photon_hooks.cpp:624-686 | the same for each of the twenty-two rows of the two tables |
| HookInstaller.AllInstalled | opg3d/src/main/cpp/cloud_guard.h:283-309 | with every method found and accepted at an address of its own there are twenty-two patches and both install calls report success |
| HookInstaller.TablesAccounted | opg3d/src/main/cpp/cloud_guard.h:283-309 | the same account for the two tables of the program, for every answer of the engine and the runtime |
| HookInstaller.CarriesIff | opg3d/src/main/cpp/photon_hooks.cpp:624-664 | an address carries a replacement iff the row of that replacement was installed there |
| TraceHooks.Tracer.LogSettings | opg3d/src/main/cpp/photon_hooks.cpp:184-217 | the nine fields read into one log line, the game untouched |
| TraceHooks.SettingsShown | opg3d/src/main/cpp/photon_hooks.cpp:184-217 | on a settings object given byte by byte each of the nine fields stands in its place of the line |
| TraceHooks.SecretMeans | opg3d/src/main/cpp/photon_hooks.cpp:80-97 | an AppID is shown as the summary of its units and a server address as its text |
| TraceHooks.Tracer.HookUseCloudRegion | opg3d/src/main/cpp/photon_hooks.cpp:456-463 | summary, call of the slot with the same arguments, settings line; a crash iff the slot holds no trampoline |
| TraceHooks.UseCloudKeepsItsEffect | opg3d/src/main/cpp/photon_hooks.cpp:456-463 | after both tables a call of UseCloud(appId, region) leaves the game exactly as the original of that address does and only adds log lines, and never crashes, unless the address carries another replacement |
| InitThread.Exports.Resolve | opg3d/src/main/cpp/il2cpp.cpp:17-64 | a bound export never changes, one missing export does not stop the others, and success is all of the first sixteen bound |
| InitThread.AwaitExports | opg3d/src/main/cpp/main.cpp:55-63 | the loop stops at the first attempt by which every required export has been found, by one lookup or several, and what is bound is what was found |
| InitThread.Poll | opg3d/src/main/cpp/main.cpp:43-74 | the loop stops at the first attempt that answers and succeeds iff one of the first 6000 does |
| InitThread.AwaitSettled | opg3d/src/main/cpp/main.cpp:32-88 | the detector succeeds iff some 26 consecutive samples of the first 6000 are equal and not zero, a torn sample counting as zero, and stops at the first such window |
| InitThread.WindowMeans | opg3d/src/main/cpp/main.cpp:32-88 | a window ends at a sample iff it and the 25 before it show one count between 1 and 8192 |
| InitThread.Run | opg3d/src/main/cpp/main.cpp:40-140 | at most five times 6000 polls; the events and the hooks left behind are those of the process: nothing before settling and attaching, one walk per attempt up to the first that finds the image, both tables installed iff it is found, detach iff its export was found in time |
| InitThread.EventsOnce | opg3d/src/main/cpp/main.cpp:40-140 | a process has one course of events |
| InitThread.RunOrder | opg3d/src/main/cpp/main.cpp:91-139 | in every run: metadata and hooks only after settling and attaching, metadata before hooks, guard hooks right after tracing hooks, detach last |
| InitThread.RunCounts | opg3d/src/main/cpp/main.cpp:102-137 | in every run: each table is installed at most once, metadata is walked up to the first attempt that finds the image, and an attach is followed by exactly one detach when detach is bound |
| InitThread.RunReaches | opg3d/src/main/cpp/main.cpp:40-140 | how far a run gets, both ways: settled iff library, exports, domain and assemblies each answer in time, attached iff moreover the attach succeeds, hooked iff moreover the image is found |
| InitThread.RunAccounted | opg3d/src/main/cpp/main.cpp:119-120 | what every run leaves behind: all installs accounted for and every slot on its own original, or no patch at all |
| InitThread.FavourableRun | opg3d/src/main/cpp/main.cpp:91-120 | a run that gets to the hooks, with every method found and accepted at an address of its own, leaves twenty-two patches |

## Left out

- DumpParser.ParseDump: which characters beyond ASCII are word characters is a parameter; expressions are read by exact scanners, the general regular-expression engine is not modelled.
- LogSymbolizer.FindCallsite: which characters beyond ASCII are word characters is a parameter of every theorem.
- LogPrinter.Logger.Print: the formatted message, the readings of the clock, the thread id and dladdr's answer are inputs; format strings are not interpreted.
- ElfResolver.Lookup: expects a DT_NULL-terminated dynamic section, as the loader guarantees; unmapped addresses are not modelled, every address can be read.
- ElfResolver.LookupMoves: expects the image not to wrap at 2^32 and its string table to end in a NUL; of the image it asks only that the dynamic entries, the symbol count, the symbols and the names are the same.
- HookInstaller.Hooks.InstallAll: the written-out install calls are the rows of a table, in order; the lookup of each target by name is an answer.
- HookInstaller.InstallsAccounted: the short window between patching and rollback is not observed; the statement is about states between calls.
- InitThread.Run: three of the polling loops share one method and sleeping is not modelled beyond the number of polls.
- CloudGuard.Guard.HookConnect: the four entries differ only in arguments they pass on; the model has one method for them. Only these entries are guarded, and only if installed: the zero-argument GameConnect.ConnectToPhoton hook only traces.
- CloudGuard.EveryConnectIsGuarded: other threads do not run between the read-back and the connect of one invocation; atomics are atomic steps.
- TraceHooks.Tracer.HookUseCloudRegion: the original is an arbitrary function of address, arguments and game; a reference that is no string reads as null.
- Transcoder.ToUtf8: the runtime's character buffer is expected to hold as many units as its length says.
- find_image, find_class and the metadata lookups built on them: short scans over foreign calls, which would add only easy members.
- The bodies of the other sixteen tracing replacements, hook_select_app_id and hook_set_up_photon among them: configuration and message text. Several of them do not always call their original or write settings afterwards; no statement here says that they forward.
- The enum-to-name switches: finite tables.
- Weak-memory effects, JNI entry, thread creation, build wiring, argument parsing and file handling of the log tool.
