/**
 * Worked inputs for `deleteSpacesWithinJapanese`: the matches are found in the
 * original sentence and each is then replaced everywhere, so an earlier
 * replacement can spoil a later match and spaces between non-ASCII
 * characters survive.
 */
module NormalizeExamples {
  import opened Wrappers
  import opened Text
  import opened Normalize

  /** `Find` is pinned down by one occurrence with none before it. */
  lemma FindIs(s: string, pat: string, v: nat)
    requires |pat| > 0 && OccursAt(s, pat, v)
    requires forall j: nat :: j < v ==> !OccursAt(s, pat, j)
    ensures Find(s, pat) == Some(v)
  {
  }

  /** The first match, which also occurs a second time inside the second one. */
  const FirstMatch: string := "あ い"

  /** "あ い x う あ い え", kept in the pieces that the first replacement cuts it into. */
  const Sentence: string := FirstMatch + " x う " + FirstMatch + " え"

  /** `s` is spelled "あ い x う あ い え". */
  predicate SpelledAsSentence(s: string)
  {
    |s| == 13 && s[0] == 'あ' && s[1] == ' ' && s[2] == 'い' && s[3] == ' ' && s[4] == 'x' && s[5] == ' ' &&
    s[6] == 'う' && s[7] == ' ' && s[8] == 'あ' && s[9] == ' ' && s[10] == 'い' && s[11] == ' ' && s[12] == 'え'
  }

  lemma SentenceSpelled()
    ensures SpelledAsSentence(Sentence)
  {
  }

  /** The characters of the sentence: wide ones at even positions except 'x', spaces at odd ones. */
  lemma SentenceChars(s: string)
    requires SpelledAsSentence(s)
    ensures forall k :: 0 <= k < 13 && k % 2 == 1 ==> s[k] == ' '
    ensures forall k :: 0 <= k < 13 && k % 2 == 0 && k != 4 ==> IsWide(s[k]) && !IsSpace(s[k])
  {
  }

  /** At 'x' nothing matches. */
  lemma StepsAt4(s: string)
    requires SpelledAsSentence(s)
    ensures SpaceRunEnd(s, 3) == 4
    ensures TryGroup(s, 4) == None && AfterGroup(s, 4) == None
  {
    SentenceChars(s);
  }

  /** The first match is "あ い": the group cannot go on past 'x'. */
  lemma StepsAt0(s: string)
    requires SpelledAsSentence(s)
    ensures TryGroup(s, 0) == Some(3)
  {
    SentenceChars(s);
    StepsAt4(s);
    assert TryRuns(s, 3, 4) == None;
    assert TryGroup(s, 2) == None;
    assert AfterGroup(s, 2) == Some(3);
    assert SpaceRunEnd(s, 1) == 2;
    assert TryRuns(s, 1, 2) == Some(3);
  }

  /** From any wide character after 'x' the match runs to the end. */
  lemma StepsAfter(s: string, q: nat)
    requires SpelledAsSentence(s)
    requires 6 <= q <= 12 && q % 2 == 0
    ensures AfterGroup(s, q) == Some(13)
    decreases 12 - q
  {
    SentenceChars(s);
    if q == 12 {
      assert SpaceRunEnd(s, 13) == 13;
      assert TryGroup(s, 12) == None;
    } else {
      StepsAfter(s, q + 2);
      assert SpaceRunEnd(s, q + 2) == q + 2;
      assert SpaceRunEnd(s, q + 1) == q + 2;
      assert TryRuns(s, q + 1, q + 2) == Some(13);
      assert TryGroup(s, q) == Some(13);
    }
  }

  lemma SentenceScan(s: string)
    requires SpelledAsSentence(s)
    ensures MatchesFrom(s, 0) == [(0, 3), (6, 13)]
  {
    SentenceChars(s);
    StepsAt0(s);
    StepsAt4(s);
    StepsAfter(s, 8);
    assert SpaceRunEnd(s, 8) == 8;
    assert SpaceRunEnd(s, 7) == 8;
    assert TryRuns(s, 7, 8) == Some(13);
    assert TryGroup(s, 6) == Some(13);
    assert MatchesFrom(s, 13) == [];
    assert MatchesFrom(s, 6) == [(6, 13)];
    assert TryGroup(s, 5) == None;
    assert MatchesFrom(s, 5) == [(6, 13)];
    assert MatchesFrom(s, 4) == [(6, 13)];
    assert TryGroup(s, 3) == None;
    assert MatchesFrom(s, 3) == [(6, 13)];
  }

  /** Two matches give two matched texts. */
  lemma MatchTextsOfTwo(s: string, a: nat, b: nat, c: nat, d: nat)
    requires MatchesFrom(s, 0) == [(a, b), (c, d)]
    ensures a <= b <= |s| && c <= d <= |s|
    ensures MatchTexts(s) == [s[a..b], s[c..d]]
  {
    var ms := MatchesFrom(s, 0);
    assert ms[0] == (a, b) && ms[1] == (c, d);
  }

  lemma SentenceMatches()
    ensures MatchTexts(Sentence) == [FirstMatch, "う あ い え"]
  {
    SentenceSpelled();
    SentenceTexts(Sentence);
  }

  /** The texts of the two matches of a string spelled like the sentence. */
  lemma SentenceTexts(s: string)
    requires SpelledAsSentence(s)
    ensures MatchTexts(s) == [FirstMatch, "う あ い え"]
  {
    SentenceScan(s);
    MatchTextsOfTwo(s, 0, 3, 6, 13);
    SliceOfThree(s, 0, 'あ', ' ', 'い');
    SliceOfSeven(s, 6, 'う', 'あ', 'い', 'え');
  }

  /** Four characters at every other position, with spaces between, make the slice they span. */
  lemma SliceOfSeven(s: string, i: nat, a: char, b: char, c: char, d: char)
    requires i + 7 <= |s| && s[i] == a && s[i + 2] == b && s[i + 4] == c && s[i + 6] == d
    requires s[i + 1] == ' ' && s[i + 3] == ' ' && s[i + 5] == ' '
    ensures s[i..i + 7] == [a, ' ', b, ' ', c, ' ', d]
  {
  }

  /** Four pieces, grouped either way. */
  lemma Regroup(a: string, b: string, c: string, d: string)
    ensures a + b + c + d == a + (b + c + d)
  {
  }

  /** The pieces of `a + b + c` are where their lengths put them. */
  lemma PiecesOfThree(a: string, b: string, c: string)
    ensures (a + b + c)[..|a|] == a
    ensures (a + b + c)[|a|..|a| + |b|] == b
    ensures (a + b + c)[|a| + |b|..] == c
  {
  }

  /** A string that holds `pat` once, at `v`, splits into what comes before and after it. */
  lemma SplitOnce(s: string, pat: string, v: nat)
    requires |pat| > 0 && Find(s, pat) == Some(v)
    requires Find(s[v + |pat|..], pat) == None
    ensures Split(s, pat) == [s[..v], s[v + |pat|..]]
  {
  }

  /** `Join` of two and of three pieces. */
  lemma JoinOfTwo(a: string, b: string, sep: string)
    ensures Join([a, b], sep) == a + sep + b
  {
    assert [a, b][1..] == [b];
  }

  lemma JoinOfThree(a: string, b: string, c: string, sep: string)
    ensures Join([a, b, c], sep) == a + sep + b + sep + c
  {
    assert [a, b, c][1..] == [b, c];
    JoinOfTwo(b, c, sep);
  }

  /** A string as long as `pat` that starts differently does not hold it. */
  lemma FirstDiffers(s: string, pat: string)
    requires 0 < |pat| == |s| && s[0] != pat[0]
    ensures Find(s, pat) == None
  {
    forall j: nat ensures !OccursAt(s, pat, j) {
      if j + |pat| <= |s| {
        assert s[j..j + |pat|][0] == s[j];
      }
    }
  }

  /** In " x う " + "あ い" + " え" the first match is found at 5. */
  lemma SplitTail()
    ensures Split(" x う " + FirstMatch + " え", FirstMatch) == [" x う ", " え"]
  {
    var b, c := " x う ", " え";
    var rest := b + FirstMatch + c;
    PiecesOfThree(b, FirstMatch, c);
    assert |b| == 5 && |FirstMatch| == 3;
    forall j: nat | j < 5 ensures !OccursAt(rest, FirstMatch, j) {
      assert rest[j] == b[j] != 'あ';
      assert rest[j..j + 3][0] == rest[j];
    }
    FindIs(rest, FirstMatch, 5);
    ShorterThanPattern(c, FirstMatch);
    SplitOnce(rest, FirstMatch, 5);
  }

  lemma SplitSentence()
    ensures Split(Sentence, FirstMatch) == ["", " x う ", " え"]
  {
    var rest := " x う " + FirstMatch + " え";
    Regroup(FirstMatch, " x う ", FirstMatch, " え");
    PiecesOfThree(FirstMatch, rest, "");
    assert Sentence[..3] == FirstMatch && Sentence[3..] == rest;
    FindIs(Sentence, FirstMatch, 0);
    SplitTail();
    assert Split(Sentence, FirstMatch) == [Sentence[..0]] + Split(rest, FirstMatch);
  }

  lemma FirstReplacement()
    ensures ReplaceAll(Sentence, FirstMatch, "あい") == Once
  {
    SplitSentence();
    JoinOfThree("", " x う ", " え", "あい");
    assert [] + "あい" == "あい";
  }

  lemma SecondMatchGone()
    ensures Find(Once, "う あ い え") == None
  {
    var m2 := "う あ い え";
    OnceChars();
    forall j: nat ensures !OccursAt(Once, m2, j) {
      if j + 7 <= 11 {
        assert Once[j] != 'う' by { assert j != 5; }
        assert Once[j..j + 7][0] == Once[j];
      }
    }
  }

  /**
   * "あ い x う あ い え" becomes "あい x う あい え": replacing the first match
   * everywhere also rewrites the text of the second, which then no longer
   * occurs, and the space between "う" and "あ" stays.
   */
  lemma SpacelessFirstMatch()
    ensures RemoveSpaces(FirstMatch) == "あい"
  {
    assert FirstMatch[1..] == " い";
    assert " い"[1..] == "い";
    assert "い"[1..] == "";
  }

  lemma DeleteSpacesNotGlobal()
    ensures DeleteSpacesSpec(Sentence) == Once
  {
    var s := Sentence;
    SentenceMatches();
    var m1 := FirstMatch;
    var m2 := "う あ い え";
    SpacelessFirstMatch();
    FirstReplacement();
    assert ReplaceEach(s, [m1]) == Once by {
      assert [m1][..0] == [];
    }
    SecondMatchGone();
    assert Split(Once, m2) == [Once];
    assert [m1, m2][..1] == [m1];
  }

  /** "あい x う あい え", the result of the first pass, which a second pass changes again. */
  const Once: string := "あい" + " x う " + "あい" + " え"

  /** `t` is spelled "あい x う あい え". */
  predicate SpelledAsOnce(t: string)
  {
    |t| == 11 && t[0] == 'あ' && t[1] == 'い' && t[2] == ' ' && t[3] == 'x' && t[4] == ' ' && t[5] == 'う' &&
    t[6] == ' ' && t[7] == 'あ' && t[8] == 'い' && t[9] == ' ' && t[10] == 'え'
  }

  lemma OnceChars()
    ensures SpelledAsOnce(Once)
  {
  }

  lemma OnceStepsBeforeX(t: string)
    requires SpelledAsOnce(t)
    ensures TryGroup(t, 0) == None && TryGroup(t, 1) == None
  {
    assert SpaceRunEnd(t, 1) == 1;
    assert TryRuns(t, 1, 1) == None;
    assert SpaceRunEnd(t, 3) == 3;
    assert SpaceRunEnd(t, 2) == 3;
    assert TryGroup(t, 3) == None && AfterGroup(t, 3) == None;
    assert TryRuns(t, 2, 2) == None;
    assert TryRuns(t, 2, 3) == None;
  }

  lemma OnceStepsAfterX(t: string)
    requires SpelledAsOnce(t)
    ensures TryGroup(t, 5) == Some(8) && TryGroup(t, 8) == Some(11)
  {
    assert SpaceRunEnd(t, 8) == 8;
    assert TryRuns(t, 8, 8) == None;
    assert TryGroup(t, 7) == None;
    assert AfterGroup(t, 7) == Some(8);
    assert SpaceRunEnd(t, 7) == 7;
    assert SpaceRunEnd(t, 6) == 7;
    assert TryRuns(t, 6, 7) == Some(8);
    assert SpaceRunEnd(t, 11) == 11;
    assert TryRuns(t, 11, 11) == None;
    assert TryGroup(t, 10) == None;
    assert AfterGroup(t, 10) == Some(11);
    assert SpaceRunEnd(t, 10) == 10;
    assert SpaceRunEnd(t, 9) == 10;
    assert TryRuns(t, 9, 10) == Some(11);
  }

  lemma OnceScan(t: string)
    requires SpelledAsOnce(t)
    ensures MatchesFrom(t, 0) == [(5, 8), (8, 11)]
  {
    OnceStepsBeforeX(t);
    OnceStepsAfterX(t);
    assert MatchesFrom(t, 11) == [];
    assert MatchesFrom(t, 8) == [(8, 11)];
    assert MatchesFrom(t, 5) == [(5, 8), (8, 11)];
    assert TryGroup(t, 4) == None && TryGroup(t, 3) == None && TryGroup(t, 2) == None;
    assert MatchesFrom(t, 4) == [(5, 8), (8, 11)];
    assert MatchesFrom(t, 3) == [(5, 8), (8, 11)];
    assert MatchesFrom(t, 2) == [(5, 8), (8, 11)];
    assert MatchesFrom(t, 1) == [(5, 8), (8, 11)];
  }

  lemma OnceMatches()
    ensures MatchTexts(Once) == ["う あ", "い え"]
  {
    OnceChars();
    OnceTexts(Once);
  }

  lemma OnceTexts(t: string)
    requires SpelledAsOnce(t)
    ensures MatchTexts(t) == ["う あ", "い え"]
  {
    OnceScan(t);
    MatchTextsOfTwo(t, 5, 8, 8, 11);
    SliceOfThree(t, 5, 'う', ' ', 'あ');
    SliceOfThree(t, 8, 'い', ' ', 'え');
  }

  /** Three characters read one by one make the slice they span. */
  lemma SliceOfThree(s: string, i: nat, x: char, y: char, z: char)
    requires i + 3 <= |s| && s[i] == x && s[i + 1] == y && s[i + 2] == z
    ensures s[i..i + 3] == [x, y, z]
  {
  }

  lemma OnceFindFirst()
    ensures Find(Once, "う あ") == Some(5)
  {
    var m := "う あ";
    OnceChars();
    SliceOfThree(Once, 5, 'う', ' ', 'あ');
    forall j: nat | j < 5 ensures !OccursAt(Once, m, j) {
      assert Once[j] != 'う';
      assert Once[j..j + 3][0] == Once[j];
    }
    FindIs(Once, m, 5);
  }

  /** "あい x うあい え", what the second pass makes of `Once` after its first replacement. */
  const OnceRejoined: string := "あい x " + "うあ" + "い え"

  /** "あい x うあいえ", the result of the second pass. */
  const Twice: string := "あい x " + "うあ" + "いえ"

  lemma OnceSplit()
    ensures Split(Once, "う あ") == ["あい x ", "い え"]
  {
    var m := "う あ";
    OnceFindFirst();
    OnceChars();
    SliceOfFive(Once, 0, 'あ', 'い', ' ', 'x', ' ');
    SliceOfThree(Once, 8, 'い', ' ', 'え');
    assert Once[8..] == Once[8..11];
    FirstDiffers(Once[8..], m);
    SplitOnce(Once, m, 5);
  }

  /** Five characters read one by one make the slice they span. */
  lemma SliceOfFive(s: string, i: nat, a: char, b: char, c: char, d: char, e: char)
    requires i + 5 <= |s| && s[i] == a && s[i + 1] == b && s[i + 2] == c && s[i + 3] == d && s[i + 4] == e
    ensures s[i..i + 5] == [a, b, c, d, e]
  {
  }

  lemma OnceFirstReplacement()
    ensures ReplaceAll(Once, "う あ", "うあ") == OnceRejoined
  {
    OnceSplit();
    JoinOfTwo("あい x ", "い え", "うあ");
  }

  lemma TwiceFind()
    ensures Find(OnceRejoined, "い え") == Some(7)
  {
    var u := OnceRejoined;
    var m := "い え";
    PiecesOfThree("あい x ", "うあ", m);
    assert |u| == 10 && u[7..] == m;
    assert OccursAt(u, m, 7) by { assert u[7..10] == m; }
    forall j: nat | j < 7 ensures !OccursAt(u, m, j) {
      assert u[j..j + 3][0] == u[j] && u[j..j + 3][2] == u[j + 2];
      assert u[j] != 'い' || u[j + 2] != 'え';
    }
    FindIs(u, m, 7);
  }

  lemma OnceSecondReplacement()
    ensures ReplaceAll(OnceRejoined, "い え", "いえ") == Twice
  {
    var u := OnceRejoined;
    var m := "い え";
    TwiceFind();
    PiecesOfThree("あい x ", "うあ", m);
    assert u[10..] == [];
    ShorterThanPattern(u[10..], m);
    SplitOnce(u, m, 7);
    assert u[..7] == "あい x " + "うあ";
    JoinOfTwo("あい x " + "うあ", "", "いえ");
    assert "あい x " + "うあ" + "いえ" + [] == Twice;
  }

  lemma SpacelessOnceMatches()
    ensures RemoveSpaces("う あ") == "うあ" && RemoveSpaces("い え") == "いえ"
  {
    assert "う あ"[1..] == " あ" && " あ"[1..] == "あ" && "あ"[1..] == "";
    assert "い え"[1..] == " え" && " え"[1..] == "え" && "え"[1..] == "";
  }

  lemma SecondPassFirstStep()
    ensures ReplaceEach(Once, ["う あ"]) == OnceRejoined
  {
    SpacelessOnceMatches();
    OnceFirstReplacement();
    assert ["う あ"][..0] == [];
  }

  lemma SecondPassSecondStep()
    ensures ReplaceEach(Once, ["う あ", "い え"]) == Twice
  {
    SecondPassFirstStep();
    SpacelessOnceMatches();
    OnceSecondReplacement();
    assert ["う あ", "い え"][..1] == ["う あ"];
  }

  lemma SecondPass()
    ensures DeleteSpacesSpec(Once) == Twice
  {
    OnceMatches();
    SecondPassSecondStep();
  }

  /** A second pass deletes more: `deleteSpacesWithinJapanese` is not idempotent. */
  lemma DeleteSpacesNotIdempotent()
    ensures DeleteSpacesSpec(DeleteSpacesSpec(Sentence)) != DeleteSpacesSpec(Sentence)
  {
    DeleteSpacesNotGlobal();
    SecondPass();
    assert |Twice| == 9 && |Once| == 11;
  }
}
