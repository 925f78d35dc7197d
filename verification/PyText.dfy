/** The Python string operations that the log tool uses. */
module PyText {
  import opened Numerals

  /** str.isspace of one character, which is also the class \s of the re module. */
  predicate IsSpace(c: char) {
    var n := c as int;
    || 0x09 <= n <= 0x0D || 0x1C <= n <= 0x20 || n == 0x85 || n == 0xA0 || n == 0x1680
    || 0x2000 <= n <= 0x200A || n == 0x2028 || n == 0x2029 || n == 0x202F || n == 0x205F || n == 0x3000
  }

  predicate AllSpace(s: string) { forall i :: 0 <= i < |s| ==> IsSpace(s[i]) }

  predicate NoSpace(s: string) { forall i :: 0 <= i < |s| ==> !IsSpace(s[i]) }

  /** The class \w: letters, digits and underscore, and beyond ASCII whatever `wide` says. */
  predicate IsWord(c: char, wide: char -> bool) {
    || IsDigit(c) || 'a' <= c <= 'z' || 'A' <= c <= 'Z' || c == '_'
    || (c as int >= 0x80 && wide(c))
  }

  /** \b after a hexadecimal digit. */
  predicate EndsWord(s: string, e: nat, wide: char -> bool)
    requires e <= |s|
  {
    e == |s| || !IsWord(s[e], wide)
  }

  /** The end of the longest run of hexadecimal digits from i. */
  function HexEnd(s: string, i: nat): (e: nat)
    requires i <= |s|
    ensures i <= e <= |s| && AllHex(s[i..e])
    ensures e == |s| || !IsHexDigit(s[e])
    decreases |s| - i
  {
    if i < |s| && IsHexDigit(s[i]) then HexEnd(s, i + 1) else i
  }

  /** Where hexadecimal digits end at a word boundary, they have ended. */
  lemma {:induction false} HexEndIs(s: string, i: nat, e: nat, wide: char -> bool)
    requires i <= e <= |s| && AllHex(s[i..e]) && EndsWord(s, e, wide)
    ensures e == HexEnd(s, i)
  {
    var m := HexEnd(s, i);
    assert forall k :: i <= k < m ==> s[k] == s[i..m][k - i];
    assert forall k :: i <= k < e ==> s[k] == s[i..e][k - i];
  }

  lemma SliceOfSlice(s: string, a: nat, e: nat, i: nat, j: nat)
    requires a <= e <= |s| && i <= j <= e - a
    ensures s[a..e][i..j] == s[a + i..a + j]
  {
    forall k | 0 <= k < j - i ensures s[a..e][i..j][k] == s[a + i..a + j][k] {
      assert s[a..e][i + k] == s[a + (i + k)];
    }
  }

  lemma PrefixSlice(line: string, s: string, i: nat, j: nat)
    requires line <= s && i <= j <= |line|
    ensures s[i..j] == line[i..j]
  {
  }

  function LStrip(s: string): string {
    if s != [] && IsSpace(s[0]) then LStrip(s[1..]) else s
  }

  function RStrip(s: string): string {
    if s != [] && IsSpace(s[|s| - 1]) then RStrip(s[..|s| - 1]) else s
  }

  function Strip(s: string): string { RStrip(LStrip(s)) }

  /** s.rstrip("\n") */
  function RStripNewlines(s: string): (r: string)
    ensures r <= s && (r == [] || r[|r| - 1] != '\n')
    ensures forall i :: |r| <= i < |s| ==> s[i] == '\n'
  {
    if s != [] && s[|s| - 1] == '\n' then RStripNewlines(s[..|s| - 1]) else s
  }

  /** s.split(sep, 1)[0] for a separator that is one character. */
  function Before(s: string, sep: char): string {
    if s == [] || s[0] == sep then [] else [s[0]] + Before(s[1..], sep)
  }

  lemma {:induction false} BeforeMeans(s: string, sep: char)
    ensures var r := Before(s, sep);
            && r <= s && sep !in r
            && (if sep in s then |r| < |s| && s[|r|] == sep else r == s)
  {
    if s != [] && s[0] != sep {
      BeforeMeans(s[1..], sep);
    }
  }

  /** s.split("//", 1)[0] */
  function BeforeComment(s: string): string {
    if "//" <= s then [] else if s == [] then [] else [s[0]] + BeforeComment(s[1..])
  }

  predicate SlashesAt(s: string, i: int) { 0 <= i < |s| - 1 && s[i] == '/' && s[i + 1] == '/' }

  /** It is the text up to the first place where two slashes stand. */
  lemma {:induction false} BeforeCommentCuts(s: string, p: nat)
    requires SlashesAt(s, p) && forall i :: 0 <= i < p ==> !SlashesAt(s, i)
    ensures BeforeComment(s) == s[..p]
  {
    if p == 0 {
      assert s[..2] == "//";
    } else {
      assert !SlashesAt(s, 0);
      assert forall i :: 0 <= i < p - 1 ==> (SlashesAt(s[1..], i) <==> SlashesAt(s, i + 1));
      BeforeCommentCuts(s[1..], p - 1);
      assert s[..p] == [s[0]] + s[1..][..p - 1];
    }
  }

  /** It is the whole text when they stand nowhere. */
  lemma {:induction false} BeforeCommentKeeps(s: string)
    requires forall i :: !SlashesAt(s, i)
    ensures BeforeComment(s) == s
  {
    if s != [] {
      assert !SlashesAt(s, 0);
      assert forall i :: SlashesAt(s[1..], i) ==> SlashesAt(s, i + 1);
      BeforeCommentKeeps(s[1..]);
    }
  }

  /** s.rsplit(None, 1)[-1] for a text that does not end in white space. */
  function LastWord(s: string): string
    requires s != [] && !IsSpace(s[|s| - 1])
  {
    if |s| == 1 || IsSpace(s[|s| - 2]) then s[|s| - 1..]
    else LastWord(s[..|s| - 1]) + [s[|s| - 1]]
  }

  /** The text ends in this word, in front of which it starts or has white space. */
  predicate EndsInWord(s: string, word: string) {
    && word != [] && NoSpace(word) && |word| <= |s| && word == s[|s| - |word|..]
    && (|word| == |s| || IsSpace(s[|s| - |word| - 1]))
  }

  lemma {:induction false} LastWordGrows(s: string, c: char)
    requires s != [] && !IsSpace(s[|s| - 1]) && !IsSpace(c)
    ensures LastWord(s + [c]) == LastWord(s) + [c]
  {
    var t := s + [c];
    assert t[|t| - 2] == s[|s| - 1] && t[|t| - 1] == c && t[..|t| - 1] == s;
  }

  lemma {:induction false} OneLetterWord(s: string)
    requires s != [] && !IsSpace(s[|s| - 1]) && (|s| == 1 || IsSpace(s[|s| - 2]))
    ensures EndsInWord(s, LastWord(s))
  {
  }

  lemma {:induction false} OneMoreLetter(front: string, last: char, word: string)
    requires EndsInWord(front, word) && !IsSpace(last)
    ensures EndsInWord(front + [last], word + [last])
  {
    assert (front + [last])[|front| - |word|..] == front[|front| - |word|..] + [last];
  }

  lemma {:induction false} LastWordMeans(s: string)
    requires s != [] && !IsSpace(s[|s| - 1])
    ensures EndsInWord(s, LastWord(s))
    decreases |s|, 1
  {
    if |s| == 1 || IsSpace(s[|s| - 2]) {
      OneLetterWord(s);
    } else {
      LongerWord(s, s[..|s| - 1]);
    }
  }

  lemma {:induction false} LongerWord(s: string, front: string)
    requires s != [] && front != [] && !IsSpace(front[|front| - 1]) && !IsSpace(s[|s| - 1])
    requires s == front + [s[|s| - 1]]
    ensures EndsInWord(s, LastWord(s))
    decreases |s|, 0
  {
    LastWordMeans(front);
    LastWordGrows(front, s[|s| - 1]);
    OneMoreLetter(front, s[|s| - 1], LastWord(front));
  }

  lemma {:induction false} RStripMeans(s: string)
    ensures RStrip(s) <= s && AllSpace(s[|RStrip(s)|..])
    ensures RStrip(s) == [] || !IsSpace(RStrip(s)[|RStrip(s)| - 1])
  {
    if s != [] && IsSpace(s[|s| - 1]) {
      var front, r := s[..|s| - 1], RStrip(s);
      RStripMeans(front);
      forall i | 0 <= i < |s| - |r| ensures IsSpace(s[|r|..][i]) {
        if i < |front| - |r| { assert s[|r|..][i] == front[|r|..][i]; }
      }
    }
  }

  lemma {:induction false} RStripSplit(a: string, w: string)
    requires AllSpace(w) && (a == [] || !IsSpace(a[|a| - 1]))
    ensures RStrip(a + w) == a
  {
    if w == [] {
      assert a + w == a;
    } else {
      assert (a + w)[..|a + w| - 1] == a + w[..|w| - 1];
      RStripSplit(a, w[..|w| - 1]);
    }
  }

  /** str.strip takes the blanks away at both ends and nothing else. */
  lemma StripMeans(before: string, s: string, after: string)
    requires AllSpace(before) && AllSpace(after)
    requires s == "" || (!IsSpace(s[0]) && !IsSpace(s[|s| - 1]))
    ensures Strip(before + s + after) == s
  {
    LStripFront(before, s + after);
    assert before + s + after == before + (s + after);
    if s == "" {
      LStripFront(after, "");
      assert after + "" == after == s + after;
    } else {
      assert LStrip(s + after) == s + after;
      RStripSplit(s, after);
    }
  }

  lemma {:induction false} LStripFront(front: string, s: string)
    requires AllSpace(front)
    ensures LStrip(front + s) == LStrip(s)
  {
    if front == "" {
      assert front + s == s;
    } else {
      assert (front + s)[1..] == front[1..] + s;
      LStripFront(front[1..], s);
    }
  }

  /** The blanks: the ASCII ones, four separators, the next line, the no-break space and the wider spaces. */
  lemma SpaceTable(c: char)
    ensures IsSpace(c) <==> c as int in {9, 10, 11, 12, 13, 28, 29, 30, 31, 32, 133, 160, 5760, 8192, 8193, 8194, 8195, 8196,
                                         8197, 8198, 8199, 8200, 8201, 8202, 8232, 8233, 8239, 8287, 12288}
  {
  }
}
