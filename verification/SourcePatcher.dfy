/** patch-shadowhook.cmake: two string rewrites of downloaded sources, with a marker that tells a
    patched file from one that upstream has changed. */
module SourcePatcher {
  import opened Wrappers
  import opened TextRewrite

  const FLAG_NEEDLE := " | SA_EXPOSE_TAGBITS"
  const LINKER_MARK := "OPG3D_LINKER_MOD_DISABLED"
  const LINKER_NEEDLE :=
    "if (__predict_false(0 != " + ("sh_linker_init())) " + "GOTO_END(SHADOWHOOK_ERRNO_INIT_LINKER);")
  const LINKER_REPLACEMENT := "(void)0; /* " + (LINKER_MARK + ": see cmake/patch-shadowhook.cmake */")

  class SourceFile {
    var present: bool
    var content: string

    constructor (present: bool, content: string)
      ensures this.present == present && this.content == content
    {
      this.present, this.content := present, content;
    }

    function Value(): Option<string>
      reads this
    {
      if present then Some(content) else None
    }
  }

  /** The two files of the source tree that the script touches. */
  datatype Tree = Tree(bytesig: Option<string>, shadowhook: Option<string>)

  ghost predicate Recognised(content: string) {
    Contains(content, LINKER_NEEDLE) || Contains(content, LINKER_MARK)
  }

  function FlagPatched(content: string): string { Replace(content, FLAG_NEEDLE, "") }

  function LinkerPatched(content: string): string { Replace(content, LINKER_NEEDLE, LINKER_REPLACEMENT) }

  /** A run stops with FATAL_ERROR unless both files are there and the second is recognised. */
  ghost predicate Succeeds(tree: Tree) {
    tree.bytesig.Some? && tree.shadowhook.Some? && Recognised(tree.shadowhook.value)
  }

  /** The files after a run, whether it succeeds or stops. */
  ghost function After(tree: Tree): Tree {
    if tree.bytesig.None? then tree
    else
      var flagged := Tree(Some(FlagPatched(tree.bytesig.value)), tree.shadowhook);
      if tree.shadowhook.None? then flagged
      else flagged.(shadowhook := Some(LinkerPatched(tree.shadowhook.value)))
  }

  method Run(bytesig: SourceFile, shadowhook: SourceFile) returns (ok: bool)
    requires bytesig != shadowhook
    modifies bytesig, shadowhook
    ensures ok <==> old(Succeeds(Tree(bytesig.Value(), shadowhook.Value())))
    ensures Tree(bytesig.Value(), shadowhook.Value()) == old(After(Tree(bytesig.Value(), shadowhook.Value())))
  {
    if !bytesig.present { return false; }
    CountPositive(bytesig.content, FLAG_NEEDLE);
    var flagAt := Find(bytesig.content, FLAG_NEEDLE);
    if flagAt != -1 {
      bytesig.content := Replace(bytesig.content, FLAG_NEEDLE, "");
    }
    if !shadowhook.present { return false; }
    CountPositive(shadowhook.content, LINKER_NEEDLE);
    var linkerAt := Find(shadowhook.content, LINKER_NEEDLE);
    if linkerAt != -1 {
      shadowhook.content := Replace(shadowhook.content, LINKER_NEEDLE, LINKER_REPLACEMENT);
      ok := true;
    } else {
      var markAt := Find(shadowhook.content, LINKER_MARK);
      ok := markAt != -1;
    }
  }

  // ---------------------------------------------------------------- the linker patch

  lemma UniqueSecond(a: string, tail: string)
    requires |a| > 2 && tail == a[2..]
    requires a[0] != a[1] && a[1] !in tail && a[0] != a[|a| - 1]
    ensures Unbordered(a)
  {
  }

  /** What a text put together from three parts inherits from them. */
  lemma ThreeParts(a: string, b: string, c: string, s: string, x: char)
    requires |a| >= 2 && |c| >= 1 && s == a + (b + c)
    requires x !in a && x !in b && x !in c
    ensures |s| >= 3 && s[0] == a[0] && s[1] == a[1] && s[|s| - 1] == c[|c| - 1] && x !in s
    ensures At(s, b, |a|)
  {
  }

  lemma NeedleText()
    ensures |LINKER_NEEDLE| >= 2 && LINKER_NEEDLE[0] == 'i' && LINKER_NEEDLE[1] == 'f'
    ensures LINKER_NEEDLE[|LINKER_NEEDLE| - 1] == ';' && 'v' !in LINKER_NEEDLE
  {
    ThreeParts("if (__predict_false(0 != ", "sh_linker_init())) ", "GOTO_END(SHADOWHOOK_ERRNO_INIT_LINKER);",
               LINKER_NEEDLE, 'v');
  }

  lemma ReplacementText()
    ensures |LINKER_REPLACEMENT| >= 3 && LINKER_REPLACEMENT[0] == '(' && LINKER_REPLACEMENT[1] == 'v'
    ensures LINKER_REPLACEMENT[|LINKER_REPLACEMENT| - 1] == '/' && 'f' !in LINKER_REPLACEMENT
    ensures At(LINKER_REPLACEMENT, LINKER_MARK, 12)
  {
    ThreeParts("(void)0; /* ", LINKER_MARK, ": see cmake/patch-shadowhook.cmake */", LINKER_REPLACEMENT, 'f');
  }

  lemma ReplacementTail()
    ensures |LINKER_REPLACEMENT| >= 2 && 'v' !in LINKER_REPLACEMENT[2..]
  {
  }

  lemma LinkerTexts()
    ensures Separated(LINKER_NEEDLE, LINKER_REPLACEMENT)
    ensures Unbordered(LINKER_REPLACEMENT)
    ensures At(LINKER_REPLACEMENT, LINKER_MARK, 12)
  {
    NeedleText();
    ReplacementText();
    ReplacementTail();
    UniqueSecond(LINKER_REPLACEMENT, LINKER_REPLACEMENT[2..]);
  }

  lemma ContainsPart(s: string, part: string, whole: string, at: nat)
    requires Contains(s, whole) && At(whole, part, at)
    ensures Contains(s, part)
  {
    var i :| At(s, whole, i);
    forall j | 0 <= j < |part| ensures s[i + at..i + at + |part|][j] == part[j] {
      assert whole[at..at + |part|][j] == whole[at + j] == s[i..i + |whole|][at + j];
    }
    assert At(s, part, i + at);
  }

  /** The linker patch on any content: no needle is left; if there was one, the marker is there; and
      a second application changes nothing. */
  lemma LinkerPatchComplete(content: string)
    ensures !Contains(LinkerPatched(content), LINKER_NEEDLE)
    ensures Contains(content, LINKER_NEEDLE) ==> Contains(LinkerPatched(content), LINKER_MARK)
    ensures LinkerPatched(LinkerPatched(content)) == LinkerPatched(content)
    ensures Recognised(LinkerPatched(content)) <==> Recognised(content)
  {
    var out := LinkerPatched(content);
    LinkerTexts();
    NoNeedleLeft(content, LINKER_NEEDLE, LINKER_REPLACEMENT);
    CountPositive(out, LINKER_NEEDLE);
    CountPositive(content, LINKER_NEEDLE);
    if Contains(content, LINKER_NEEDLE) {
      InsertedIsThere(content, LINKER_NEEDLE, LINKER_REPLACEMENT);
      ContainsPart(out, LINKER_MARK, LINKER_REPLACEMENT, 12);
    }
  }

  /** Nothing but the needles changes: on a file that has never been patched the patch can be undone. */
  lemma LinkerPatchReversible(content: string)
    requires !Contains(content, LINKER_REPLACEMENT)
    ensures Replace(LinkerPatched(content), LINKER_REPLACEMENT, LINKER_NEEDLE) == content
    ensures |LinkerPatched(content)| ==
            |content| + Count(content, LINKER_NEEDLE) * (|LINKER_REPLACEMENT| - |LINKER_NEEDLE|)
  {
    LinkerTexts();
    ReplaceBack(content, LINKER_NEEDLE, LINKER_REPLACEMENT);
    ReplaceLength(content, LINKER_NEEDLE, LINKER_REPLACEMENT);
  }

  /** A run after a run never turns success into FATAL_ERROR or back, and never touches the linker
      file again. */
  lemma SecondRun(tree: Tree)
    ensures Succeeds(After(tree)) <==> Succeeds(tree)
    ensures After(After(tree)).shadowhook == After(tree).shadowhook
  {
    if tree.shadowhook.Some? {
      LinkerPatchComplete(tree.shadowhook.value);
    }
  }

  // ---------------------------------------------------------------- the flag patch

  lemma FlagText()
    ensures Unbordered(FLAG_NEEDLE) && |FLAG_NEEDLE| == 20
  {
  }

  /** Each run removes 20 characters for every needle it finds, and changes the file only if it finds
      one. */
  lemma FlagPatchShrinks(content: string)
    ensures |FlagPatched(content)| == |content| - 20 * Count(content, FLAG_NEEDLE)
    ensures FlagPatched(content) != content <==> Contains(content, FLAG_NEEDLE)
  {
    FlagText();
    ReplaceLength(content, FLAG_NEEDLE, "");
    CountPositive(content, FLAG_NEEDLE);
  }

  /** The script calls itself idempotent. For the flag patch that holds if and only if the file holds
      no needle with whole needles spliced into it. */
  lemma FlagPatchIdempotentIff(content: string)
    ensures FlagPatched(FlagPatched(content)) == FlagPatched(content)
            <==> !HasInterrupted(content, FLAG_NEEDLE)
  {
    FlagText();
    NeedleLeftIffInterrupted(content, FLAG_NEEDLE);
    FlagPatchShrinks(FlagPatched(content));
  }

  /** The whole script, on any source tree: a second run changes a file if and only if the flag file
      holds an interrupted needle. */
  lemma ScriptIdempotentIff(tree: Tree)
    ensures After(After(tree)) == After(tree)
            <==> (tree.bytesig.None? || !HasInterrupted(tree.bytesig.value, FLAG_NEEDLE))
  {
    SecondRun(tree);
    if tree.bytesig.Some? {
      FlagPatchIdempotentIff(tree.bytesig.value);
    }
  }

  /** Inputs on which it fails: a needle put anywhere strictly inside another one. One run leaves a
      whole needle behind and the second run removes it. */
  lemma NestedNeedleSurvives(k: nat)
    requires 1 <= k < |FLAG_NEEDLE|
    ensures var content := FLAG_NEEDLE[..k] + FLAG_NEEDLE + FLAG_NEEDLE[k..];
            FlagPatched(content) == FLAG_NEEDLE && FlagPatched(FlagPatched(content)) == ""
  {
    FlagText();
    NestedCollapses(FLAG_NEEDLE, k);
  }

  /** The file after n runs. */
  function FlagRuns(content: string, n: nat): string
    decreases n
  {
    if n == 0 then content else FlagRuns(FlagPatched(content), n - 1)
  }

  lemma {:induction false} FlagRunsStay(content: string, n: nat)
    requires !Contains(content, FLAG_NEEDLE)
    ensures FlagRuns(content, n) == content
    decreases n
  {
    FlagPatchShrinks(content);
    if n > 0 {
      FlagRunsStay(content, n - 1);
    }
  }

  /** Repeated runs always come to rest without a needle, after at most one run per 20 characters. */
  lemma {:induction false} FlagRunsSettle(content: string, n: nat)
    requires n >= |content| / 20
    ensures !Contains(FlagRuns(content, n), FLAG_NEEDLE)
    decreases n
  {
    if Contains(content, FLAG_NEEDLE) {
      FlagText();
      CountPositive(content, FLAG_NEEDLE);
      FlagPatchShrinks(content);
      FlagRunsSettle(FlagPatched(content), n - 1);
    } else {
      FlagRunsStay(content, n);
    }
  }

  // ---------------------------------------------------------------- what the patched files hold

  /** A run that succeeds leaves the marker in the linker file, and the marker in an existing linker file
      after a run, with a flag file beside it, means that it succeeded. */
  lemma SucceedsIffMarked(tree: Tree)
    ensures Succeeds(tree)
            <==> tree.bytesig.Some? && tree.shadowhook.Some?
                 && Contains(After(tree).shadowhook.value, "OPG3D_LINKER_MOD_DISABLED")
  {
    if tree.bytesig.Some? && tree.shadowhook.Some? {
      var content := tree.shadowhook.value;
      LinkerPatchComplete(content);
      CountPositive(content, LINKER_NEEDLE);
    }
  }

  /** The flag patch cuts the flag and nothing in front of it. */
  lemma FlagIsCut(before: string, after: string)
    requires '|' !in before
    ensures FlagPatched(before + " | SA_EXPOSE_TAGBITS" + after) == before + FlagPatched(after)
  {
    var s := before + FLAG_NEEDLE + after;
    FlagText();
    NoEarlierBar(s, before, FLAG_NEEDLE, after, '|', 1);
    ReplaceAtFirst(s, FLAG_NEEDLE, "", |before|);
    assert s[..|before|] + "" == before && s[|before| + |FLAG_NEEDLE|..] == after;
  }

  /** A needle stands nowhere before the first place of a character that it has at position d. */
  lemma NoEarlierBar(s: string, before: string, needle: string, after: string, c: char, d: nat)
    requires s == before + needle + after && d < |needle| && needle[d] == c && c !in before
    requires forall i :: 0 <= i < d ==> needle[i] != c
    ensures FirstAt(s, needle, |before|)
  {
    forall j | 0 <= j < |before| ensures !At(s, needle, j) {
      if j + |needle| <= |s| {
        assert s[j..j + |needle|][d] == s[j + d];
        assert forall i :: 0 <= i < |before| + d ==> s[i] == if i < |before| then before[i] else needle[i - |before|];
      }
    }
  }

  /** The linker patch puts its comment in the place of the check and changes nothing in front of it. */
  lemma LinkerIsReplaced(before: string, after: string)
    requires '_' !in before
    ensures LinkerPatched(before + LINKER_NEEDLE + after) == before + LINKER_REPLACEMENT + LinkerPatched(after)
  {
    var s := before + LINKER_NEEDLE + after;
    UnderscoreAt();
    NoEarlierBar(s, before, LINKER_NEEDLE, after, '_', 4);
    ReplaceAtFirst(s, LINKER_NEEDLE, LINKER_REPLACEMENT, |before|);
    assert s[..|before|] == before && s[|before| + |LINKER_NEEDLE|..] == after;
  }

  lemma UnderscoreAt()
    ensures |LINKER_NEEDLE| > 4 && LINKER_NEEDLE[4] == '_' && forall i :: 0 <= i < 4 ==> LINKER_NEEDLE[i] != '_'
  {
    assert LINKER_NEEDLE[0] == 'i' && LINKER_NEEDLE[1] == 'f' && LINKER_NEEDLE[2] == ' ' && LINKER_NEEDLE[3] == '(';
  }
}
