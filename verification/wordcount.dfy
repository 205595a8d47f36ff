/** Three ways of counting the words of a C string, where a word is a
    maximal run of ASCII letters and digits. A string is the sequence of its
    characters before the terminating NUL; reading one past the last
    character reads that NUL, which is not alphanumeric. */
module WordCount {

  /** `isAlpha`: ASCII digits and letters of either case. */
  predicate IsAlpha(c: char) {
    ('0' <= c <= '9') || ('a' <= c <= 'z') || ('A' <= c <= 'Z')
  }

  /** The character at `i`, or the terminator just past the end. */
  function At(s: seq<char>, i: nat): char
    requires i <= |s|
  {
    if i < |s| then s[i] else '\0'
  }

  /** Position `i` begins a word. */
  predicate StartAt(s: seq<char>, i: nat)
    requires i < |s|
  {
    IsAlpha(s[i]) && (i == 0 || !IsAlpha(s[i - 1]))
  }

  /** The number of words that begin before position `n`; `Words(s, |s|)`
      is the number of maximal alphanumeric runs, the reference count. */
  function Words(s: seq<char>, n: nat): nat
    requires n <= |s|
  {
    if n == 0 then 0 else Words(s, n - 1) + (if StartAt(s, n - 1) then 1 else 0)
  }

  /** Position `i` ends a word: it is alphanumeric and what follows is not. */
  predicate EndAt(s: seq<char>, i: nat)
    requires i < |s|
  {
    IsAlpha(s[i]) && !IsAlpha(At(s, i + 1))
  }

  function Ends(s: seq<char>, n: nat): nat
    requires n <= |s|
  {
    if n == 0 then 0 else Ends(s, n - 1) + (if EndAt(s, n - 1) then 1 else 0)
  }

  /** Position `i` is a separator followed by an alphanumeric. */
  predicate GapAt(s: seq<char>, i: nat)
    requires i < |s|
  {
    !IsAlpha(s[i]) && IsAlpha(At(s, i + 1))
  }

  function Gaps(s: seq<char>, n: nat): nat
    requires n <= |s|
  {
    if n == 0 then 0 else Gaps(s, n - 1) + (if GapAt(s, n - 1) then 1 else 0)
  }

  /** No prefix holds more words than characters. */
  lemma {:induction false} WordsBound(s: seq<char>, n: nat)
    requires n <= |s|
    ensures Words(s, n) <= n
  {
    if n > 0 {
      WordsBound(s, n - 1);
    }
  }

  /** Before position `n`, word starts outnumber word ends by one exactly
      when a word runs across position `n`. */
  lemma {:induction false} EndsTrailStarts(s: seq<char>, n: nat)
    requires n <= |s|
    ensures Ends(s, n) + (if n > 0 && IsAlpha(s[n - 1]) && IsAlpha(At(s, n)) then 1 else 0) == Words(s, n)
  {
    if n > 0 {
      EndsTrailStarts(s, n - 1);
    }
  }

  /** Each gap before `n` precedes a word start at a position from 1 to
      `n`, so the gaps miss a word at position 0 and count one starting at
      `n`. */
  lemma {:induction false} GapsLeadStarts(s: seq<char>, n: nat)
    requires n <= |s|
    ensures Gaps(s, n) + (if n > 0 && IsAlpha(s[0]) then 1 else 0)
            == Words(s, n) + (if 0 < n < |s| && StartAt(s, n) then 1 else 0)
  {
    if n > 0 {
      GapsLeadStarts(s, n - 1);
    }
  }

  /** `wordcountNext` counts the words. */
  lemma EndsAreWords(s: seq<char>)
    ensures Ends(s, |s|) == Words(s, |s|)
  {
    EndsTrailStarts(s, |s|);
  }

  /** `wordcountNextInv` misses a word at the very start of the string and
      counts every other word. */
  lemma GapsAreWords(s: seq<char>)
    ensures Gaps(s, |s|) == Words(s, |s|) - (if |s| > 0 && IsAlpha(s[0]) then 1 else 0)
  {
    GapsLeadStarts(s, |s|);
  }

  /** The count before `n` depends only on the first `n` characters. */
  lemma {:induction false} WordsPrefix(s: seq<char>, t: seq<char>, n: nat)
    requires n <= |s| && n <= |t| && s[..n] == t[..n]
    ensures Words(s, n) == Words(t, n)
  {
    if n > 0 {
      assert s[..n - 1] == s[..n][..n - 1] && t[..n - 1] == t[..n][..n - 1];
      WordsPrefix(s, t, n - 1);
      assert s[n - 1] == s[..n][n - 1] && t[n - 1] == t[..n][n - 1];
      if n > 1 {
        assert s[n - 2] == s[..n][n - 2] && t[n - 2] == t[..n][n - 2];
      }
    }
  }

  lemma {:induction false} WordsAppendUpTo(a: seq<char>, b: seq<char>, m: nat)
    requires b != [] && !IsAlpha(b[0]) && m <= |b|
    ensures Words(a + b, |a| + m) == Words(a, |a|) + Words(b, m)
  {
    if m == 0 {
      assert (a + b)[..|a|] == a[..|a|];
      WordsPrefix(a + b, a, |a|);
    } else {
      WordsAppendUpTo(a, b, m - 1);
      assert (a + b)[|a| + m - 1] == b[m - 1];
      if m > 1 {
        assert (a + b)[|a| + m - 2] == b[m - 2];
      }
    }
  }

  /** A text that goes on with a separator holds the words of both parts. */
  lemma WordsAppend(a: seq<char>, b: seq<char>)
    requires b != [] && !IsAlpha(b[0])
    ensures Words(a + b, |a + b|) == Words(a, |a|) + Words(b, |b|)
  {
    WordsAppendUpTo(a, b, |b|);
  }

  /** The text the program counts, line by line, each line written in
      pieces that start with a separator. */
  const Line1: seq<char> := "," + " This is a" + "  word" + " count" + " test."
  const Line2: seq<char> := "\nHere is" + " the" + " second" + " line"
  const Line3: seq<char> := "\nAndy Andy" + " Andrew" + " Pomfret!"
  const SampleText: seq<char> := Line1 + Line2 + Line3

  lemma Line1Words()
    ensures Words(Line1, |Line1|) == 6
  {
    var s0: seq<char> := ",";
    assert Words(s0, 1) == 0;
    assert Words(" This is a", 10) == 3;
    WordsAppend(s0, " This is a");
    var s1 := s0 + " This is a";
    assert Words("  word", 6) == 1;
    WordsAppend(s1, "  word");
    var s2 := s1 + "  word";
    assert Words(" count", 6) == 1;
    WordsAppend(s2, " count");
    var s3 := s2 + " count";
    assert Words(" test.", 6) == 1;
    WordsAppend(s3, " test.");
    var s4 := s3 + " test.";
    assert s4 == Line1;
  }

  lemma Line2Words()
    ensures Words(Line2, |Line2|) == 5
  {
    var s0: seq<char> := "\nHere is";
    assert Words(s0, 8) == 2;
    assert Words(" the", 4) == 1;
    WordsAppend(s0, " the");
    var s1 := s0 + " the";
    assert Words(" second", 7) == 1;
    WordsAppend(s1, " second");
    var s2 := s1 + " second";
    assert Words(" line", 5) == 1;
    WordsAppend(s2, " line");
    var s3 := s2 + " line";
    assert s3 == Line2;
  }

  lemma Line3Words()
    ensures Words(Line3, |Line3|) == 4
  {
    var s0: seq<char> := "\nAndy Andy";
    assert Words(s0, 10) == 2;
    assert Words(" Andrew", 7) == 1;
    WordsAppend(s0, " Andrew");
    var s1 := s0 + " Andrew";
    assert Words(" Pomfret!", 9) == 1;
    WordsAppend(s1, " Pomfret!");
    var s2 := s1 + " Pomfret!";
    assert s2 == Line3;
  }

  /** The sample holds 15 words, and since it starts with a separator all
      three counts give 15. */
  lemma SampleCounts()
    ensures Words(SampleText, |SampleText|) == 15
    ensures Ends(SampleText, |SampleText|) == 15
    ensures Gaps(SampleText, |SampleText|) == 15
  {
    Line1Words();
    Line2Words();
    Line3Words();
    assert Line2[0] == '\n' && Line3[0] == '\n';
    WordsAppend(Line1, Line2);
    WordsAppend(Line1 + Line2, Line3);
    assert SampleText[0] == Line1[0] == ',';
    EndsAreWords(SampleText);
    GapsAreWords(SampleText);
  }

  /** `wordcountNext`: count the alphanumerics that are followed by a
      non-alphanumeric or the terminator. */
  method WordcountNext(s: seq<char>) returns (words: nat)
    ensures words == Words(s, |s|)
    ensures words <= |s|
  {
    words := 0;
    var i := 0;
    while i < |s|
      invariant 0 <= i <= |s| && words == Ends(s, i)
    {
      if IsAlpha(s[i]) {
        if !IsAlpha(At(s, i + 1)) {
          words := words + 1;
        }
      }
      i := i + 1;
    }
    EndsAreWords(s);
    WordsBound(s, |s|);
  }

  /** `wordcountNextInv`: count the non-alphanumerics followed by an
      alphanumeric. */
  method WordcountNextInv(s: seq<char>) returns (words: nat)
    ensures |s| > 0 && IsAlpha(s[0]) ==> words == Words(s, |s|) - 1
    ensures !(|s| > 0 && IsAlpha(s[0])) ==> words == Words(s, |s|)
    ensures words <= |s|
  {
    words := 0;
    var i := 0;
    while i < |s|
      invariant 0 <= i <= |s| && words == Gaps(s, i)
    {
      if !IsAlpha(s[i]) {
        if IsAlpha(At(s, i + 1)) {
          words := words + 1;
        }
      }
      i := i + 1;
    }
    GapsAreWords(s);
    WordsBound(s, |s|);
  }

  /** `wordcountFlag`: count the alphanumerics met while not inside a word. */
  method WordcountFlag(s: seq<char>) returns (words: nat)
    ensures words == Words(s, |s|)
    ensures words <= |s|
  {
    words := 0;
    var inWord := false;
    var i := 0;
    while i < |s|
      invariant 0 <= i <= |s| && words == Words(s, i)
      invariant inWord <==> i > 0 && IsAlpha(s[i - 1])
    {
      if IsAlpha(s[i]) {
        if !inWord {
          inWord := true;
          words := words + 1;
        }
      } else {
        inWord := false;
      }
      i := i + 1;
    }
    WordsBound(s, |s|);
  }
}
