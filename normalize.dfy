/**
 * The sentence normaliser of `normalize.py`: NFKC, punctuation to spaces,
 * characters outside the allow-list to spaces, whitespace runs collapsed and
 * trimmed, then whitespace between non-ASCII characters deleted.
 */
module Normalize {
  import opened Wrappers
  import opened Text
  import opened Mappings
  import opened Collaborators
  import Seqs

  // ---------------------------------------------------------------------------
  // replacePunctuation (lines 26-29)
  // ---------------------------------------------------------------------------

  /** `s.translate(m)`: each character found in `m` is replaced by its string. */
  function Translate(s: string, m: map<char, string>): (r: string)
    ensures (forall c :: c in m ==> |m[c]| == 1) ==> |r| == |s|
  {
    if s == [] then []
    else (if s[0] in m then m[s[0]] else [s[0]]) + Translate(s[1..], m)
  }

  /** A table whose every value is one character translates character by character. */
  lemma {:induction false} TranslatePerChar(s: string, m: map<char, string>)
    requires forall c :: c in m ==> |m[c]| == 1
    ensures |Translate(s, m)| == |s|
    ensures forall i :: 0 <= i < |s| ==>
              Translate(s, m)[i] == if s[i] in m then m[s[i]][0] else s[i]
  {
    if s != [] {
      TranslatePerChar(s[1..], m);
      var head := if s[0] in m then m[s[0]] else [s[0]];
      assert Translate(s, m) == head + Translate(s[1..], m);
      forall i | 1 <= i < |s|
        ensures Translate(s, m)[i] == if s[i] in m then m[s[i]][0] else s[i]
      {
        assert Translate(s, m)[i] == Translate(s[1..], m)[i - 1];
      }
    }
  }

  /** `replacePunctuation`: each punctuation character becomes a space, nothing else changes. */
  function ReplacePunctuation(s: string): (r: string)
    ensures |r| == |s|
    ensures forall i :: 0 <= i < |s| && s[i] in PunctuationSet ==> r[i] == ' '
    ensures forall i :: 0 <= i < |s| && s[i] !in PunctuationSet ==> r[i] == s[i]
  {
    TranslatePerChar(s, PunctuationMapping());
    Translate(s, PunctuationMapping())
  }

  /** The space is not punctuation, so the output holds no punctuation at all. */
  lemma ReplacePunctuationRemovesAll(s: string)
    ensures forall i :: 0 <= i < |s| ==> ReplacePunctuation(s)[i] !in PunctuationSet
  {
    SpaceIsNotPunctuation();
  }

  // ---------------------------------------------------------------------------
  // replaceNonAsciiKanaKanji (lines 31-39)
  // ---------------------------------------------------------------------------

  /** The allow-list of line 35: ASCII from the space on, hiragana, katakana, three Han ranges and U+3005. */
  predicate IsAllowed(c: char)
    ensures IsAllowed(c) ==> ' ' <= c <= '\U{FA6A}'
  {
    || (' ' <= c <= '\U{7F}')
    || ('\U{3041}' <= c <= '\U{3096}')
    || ('\U{30A0}' <= c <= '\U{30FF}')
    || ('\U{3400}' <= c <= '\U{4DB5}')
    || ('\U{4E00}' <= c <= '\U{9FCB}')
    || ('\U{F900}' <= c <= '\U{FA6A}')
    || c == '\U{3005}'
  }

  /** `re.sub` of the negated class with `" "`: each disallowed character becomes a space. */
  function ReplaceNonAllowed(s: string): (r: string)
    ensures |r| == |s|
    ensures forall i :: 0 <= i < |r| ==> IsAllowed(r[i])
    ensures forall i :: 0 <= i < |s| && IsAllowed(s[i]) ==> r[i] == s[i]
    ensures forall i :: 0 <= i < |s| && !IsAllowed(s[i]) ==> r[i] == ' '
  {
    if s == [] then []
    else [if IsAllowed(s[0]) then s[0] else ' '] + ReplaceNonAllowed(s[1..])
  }

  /** The only whitespace character the allow-list admits is the space. */
  lemma AllowedSpaceIsSpace(c: char)
    requires IsAllowed(c) && IsSpace(c)
    ensures c == ' '
  {
  }

  // ---------------------------------------------------------------------------
  // cleanWhitespace (lines 41-45)
  // ---------------------------------------------------------------------------

  /** Every whitespace character is the space and no two whitespace characters are adjacent. */
  predicate SingleSpaced(s: string)
  {
    && (forall i :: 0 <= i < |s| && IsSpace(s[i]) ==> s[i] == ' ')
    && (forall i :: 0 <= i < |s| - 1 ==> !(IsSpace(s[i]) && IsSpace(s[i + 1])))
  }

  /** What `cleanWhitespace` promises: single spaces only, none at either end. */
  predicate Clean(s: string)
  {
    SingleSpaced(s) && NoEdgeSpace(s)
  }

  /** `re.sub(r"\s+", " ", s)`: each maximal run of whitespace becomes one space. */
  function CollapseSpaces(s: string): (r: string)
    ensures SingleSpaced(r)
    ensures forall c :: c in r ==> c == ' ' || c in s
    ensures r != [] ==> s != [] && (IsSpace(r[0]) <==> IsSpace(s[0]))
    decreases |s|
  {
    if s == [] then []
    else if IsSpace(s[0]) then
      var t := TrimStart(s[1..]);
      var rest := CollapseSpaces(t);
      ConsSingleSpaced(' ', rest);
      ConsChars(' ', rest, t, s);
      [' '] + rest
    else
      var rest := CollapseSpaces(s[1..]);
      ConsSingleSpaced(s[0], rest);
      ConsChars(s[0], rest, s[1..], s);
      [s[0]] + rest
  }

  /** The characters of `[c] + rest` come from `s` (or are a space) when those of `rest` come from a suffix of `s`. */
  lemma ConsChars(c: char, rest: string, t: string, s: string)
    requires c == ' ' || c in s
    requires forall x :: x in rest ==> x == ' ' || x in t
    requires |t| <= |s| && t == s[|s| - |t|..]
    ensures forall x :: x in [c] + rest ==> x == ' ' || x in s
  {
    forall x | x in [c] + rest && x != ' '
      ensures x in s
    {
      if x != c {
        assert x in t;
        var i :| 0 <= i < |t| && t[i] == x;
        assert s[|s| - |t| + i] == x;
      }
    }
  }

  lemma ConsSingleSpaced(c: char, t: string)
    requires SingleSpaced(t)
    requires IsSpace(c) ==> c == ' ' && (t == [] || !IsSpace(t[0]))
    ensures SingleSpaced([c] + t)
  {
    assert forall i :: 1 <= i < |t| + 1 ==> ([c] + t)[i] == t[i - 1];
  }

  /** Collapsing keeps the non-whitespace content. */
  lemma {:induction false} CollapseSameContent(s: string)
    ensures RemoveSpaces(CollapseSpaces(s)) == RemoveSpaces(s)
    decreases |s|
  {
    if s != [] {
      if IsSpace(s[0]) {
        var t := TrimStart(s[1..]);
        CollapseSameContent(t);
        TrimStartDeletes(s[1..]);
        DeletesSameContent(s[1..], t);
        assert RemoveSpaces([' '] + CollapseSpaces(t)) == RemoveSpaces(CollapseSpaces(t)) by {
          assert ([' '] + CollapseSpaces(t))[1..] == CollapseSpaces(t);
        }
      } else {
        CollapseSameContent(s[1..]);
        assert ([s[0]] + CollapseSpaces(s[1..]))[1..] == CollapseSpaces(s[1..]);
      }
    }
  }

  /** A single-spaced string is its own collapse. */
  lemma {:induction false} CollapseSingleSpaced(s: string)
    requires SingleSpaced(s)
    ensures CollapseSpaces(s) == s
    decreases |s|
  {
    if s != [] {
      assert SingleSpaced(s[1..]);
      CollapseSingleSpaced(s[1..]);
      if IsSpace(s[0]) {
        assert s[1..] == [] || !IsSpace(s[1..][0]);
        assert TrimStart(s[1..]) == s[1..];
      }
    }
  }

  /** Deleting whitespace from a single-spaced string keeps it single-spaced. */
  lemma {:induction false} DeletesKeepsSingleSpaced(s: string, r: string)
    requires DeletesOnlySpaces(s, r) && SingleSpaced(s)
    ensures SingleSpaced(r)
    decreases |s|
  {
    if s != [] {
      assert SingleSpaced(s[1..]);
      if r != [] && r[0] == s[0] && DeletesOnlySpaces(s[1..], r[1..]) {
        DeletesKeepsSingleSpaced(s[1..], r[1..]);
        if |r| > 1 && IsSpace(r[0]) && IsSpace(r[1]) {
          assert false;
        }
        assert forall i :: 1 <= i < |r| ==> r[i] == r[1..][i - 1];
      } else {
        DeletesKeepsSingleSpaced(s[1..], r);
      }
    }
  }

  /** `cleanWhitespace`. */
  function CleanWhitespace(s: string): (r: string)
    ensures Clean(r)
    ensures RemoveSpaces(r) == RemoveSpaces(s)
  {
    var c := CollapseSpaces(s);
    StripDeletes(c);
    DeletesKeepsSingleSpaced(c, Strip(c));
    CollapseSameContent(s);
    DeletesSameContent(c, Strip(c));
    Strip(c)
  }

  /**
   * Each whitespace run becomes exactly one space: the collapse is the words
   * of `s` joined by single spaces, with one space in front when `s` starts
   * with whitespace and one after when it ends with whitespace after a word.
   */
  lemma CollapseSpacesWords(s: string)
    ensures var j := Join(Words(s), " ");
      CollapseSpaces(s) == (if s != [] && IsSpace(s[0]) then " " else "")
                           + j + (if j != [] && IsSpace(s[|s| - 1]) then " " else "")
  {
    if s != [] && IsSpace(s[0]) {
      CollapseLeadingRun(s);
    } else {
      CollapseNoLeadingRun(s);
    }
  }

  /** `CollapseSpacesWords` for a string that does not start with whitespace. */
  lemma CollapseNoLeadingRun(s: string)
    requires s == [] || !IsSpace(s[0])
    ensures var j := Join(Words(s), " ");
      CollapseSpaces(s) == "" + j + (if j != [] && IsSpace(s[|s| - 1]) then " " else "")
  {
    var j := Join(Words(s), " ");
    CollapseFromWord(s);
    if s != [] {
      JoinWordsNoEdge(Words(s));
    }
    var e: string := if EndsInSpace(s) then " " else "";
    Seqs.AppendNil(j);
  }

  /** `CollapseSpacesWords` for a string that starts with whitespace. */
  lemma CollapseLeadingRun(s: string)
    requires s != [] && IsSpace(s[0])
    ensures var j := Join(Words(s), " ");
      CollapseSpaces(s) == " " + j + (if j != [] && IsSpace(s[|s| - 1]) then " " else "")
  {
    var t := TrimStart(s);
    var j := Join(Words(s), " ");
    CollapseRun(s);
    WordsTrimStart(s);
    CollapseFromWord(t);
    LeadingRunEnd(s);
    var e: string := if j != [] && IsSpace(s[|s| - 1]) then " " else "";
    LeadChain(CollapseSpaces(s), CollapseSpaces(t), j, e);
  }

  /** After the leading run, the rest ends in whitespace exactly when `s` has a word and ends in whitespace. */
  lemma LeadingRunEnd(s: string)
    requires s != [] && IsSpace(s[0])
    ensures EndsInSpace(TrimStart(s)) == (Join(Words(s), " ") != [] && IsSpace(s[|s| - 1]))
  {
    var t := TrimStart(s);
    WordsTrimStart(s);
    if t == [] {
      assert Words(t) == [];
    } else {
      assert Words(t) != [] by { assert !IsSpace(t[0]); }
      JoinWordsNoEdge(Words(t));
      assert s[|s| - 1] == t[|t| - 1];
    }
  }

  lemma LeadChain(cs: string, ct: string, j: string, e: string)
    requires cs == [' '] + ct && ct == j + e
    ensures cs == " " + j + e
  {
  }

  /**
   * `cleanWhitespace` keeps exactly the words of `s`, joined by single spaces
   * (Python's `" ".join(s.split())`).
   */
  lemma CleanWhitespaceWords(s: string)
    ensures CleanWhitespace(s) == Join(Words(s), " ")
  {
    var j := Join(Words(s), " ");
    CollapseSpacesWords(s);
    JoinWordsNoEdge(Words(s));
    var a: string := if s != [] && IsSpace(s[0]) then " " else "";
    var b: string := if j != [] && IsSpace(s[|s| - 1]) then " " else "";
    StripJoined(CollapseSpaces(s), a, j, b);
    CleanIsStrip(s);
  }

  lemma StripJoined(c: string, a: string, j: string, b: string)
    requires c == a + j + b
    requires a == "" || a == " "
    requires b == "" || b == " "
    requires NoEdgeSpace(j)
    ensures Strip(c) == j
  {
    StripAround(a, j, b);
  }

  lemma CleanIsStrip(s: string)
    ensures CleanWhitespace(s) == Strip(CollapseSpaces(s))
  {
  }

  /** A collapse that starts with a word: the word, then the collapse of the rest. */
  lemma CollapseWord(s: string)
    requires s != [] && !IsSpace(s[0])
    ensures CollapseSpaces(s) == s[..WordLen(s)] + CollapseSpaces(s[WordLen(s)..])
  {
    CollapsePrefix(s, WordLen(s));
  }

  /** Characters that are not whitespace are copied one by one. */
  lemma {:induction false} CollapsePrefix(s: string, n: nat)
    requires n <= |s|
    requires forall i :: 0 <= i < n ==> !IsSpace(s[i])
    ensures CollapseSpaces(s) == s[..n] + CollapseSpaces(s[n..])
  {
    if n == 0 {
      assert s[..0] + CollapseSpaces(s[0..]) == CollapseSpaces(s[0..]);
      assert s[0..] == s;
    } else {
      CollapsePrefix(s, n - 1);
      var u := s[n - 1..];
      CollapseCons(u);
      assert u[1..] == s[n..];
      Seqs.TakeOneMore(s, n - 1);
      Seqs.AppendAssoc(s[..n - 1], [s[n - 1]], CollapseSpaces(s[n..]));
    }
  }

  /** A character that is not whitespace is copied. */
  lemma CollapseCons(s: string)
    requires s != [] && !IsSpace(s[0])
    ensures CollapseSpaces(s) == [s[0]] + CollapseSpaces(s[1..])
  {
  }

  /** A collapse that starts with whitespace: one space, then the collapse after the run. */
  lemma CollapseRun(s: string)
    requires s != [] && IsSpace(s[0])
    ensures CollapseSpaces(s) == [' '] + CollapseSpaces(TrimStart(s))
  {
    assert TrimStart(s) == TrimStart(s[1..]);
  }

  /** Leading whitespace does not change the words. */
  lemma {:induction false} WordsTrimStart(s: string)
    ensures Words(TrimStart(s)) == Words(s)
    decreases |s|
  {
    if s != [] && IsSpace(s[0]) {
      WordsTrimStart(s[1..]);
    }
  }

  /** The last character is whitespace. */
  predicate EndsInSpace(s: string)
  {
    s != [] && IsSpace(s[|s| - 1])
  }

  /** The collapse of `s` is its words joined by single spaces, and one more space when `s` ends with whitespace. */
  predicate CollapsesToWords(s: string)
  {
    CollapseSpaces(s) == Join(Words(s), " ") + (if EndsInSpace(s) then " " else "")
  }

  /** From the start of a word, the collapse is the words joined by single spaces. */
  lemma {:induction false} CollapseFromWord(s: string)
    requires s == [] || !IsSpace(s[0])
    ensures CollapsesToWords(s)
    decreases |s|
  {
    if s != [] {
      var n := WordLen(s);
      if n == |s| {
        FromLastWord(s);
      } else if TrimStart(s[n..]) == [] {
        FromWordThenBlank(s);
      } else {
        var t := TrimStart(s[n..]);
        CollapseFromWord(t);
        FromWordThenMore(s);
      }
    }
  }

  /** A string that is one word collapses to itself. */
  lemma FromLastWord(s: string)
    requires s != [] && !IsSpace(s[0]) && WordLen(s) == |s|
    ensures CollapsesToWords(s)
  {
    var n := WordLen(s);
    var w, rest := s[..n], s[n..];
    CollapseWord(s);
    WordsAtWord(s);
    assert !EndsInSpace(s) by { assert s[|s| - 1] == s[n - 1]; }
    JoinOne(w, Words(rest), " ");
    Seqs.AppendNil(w);
  }

  /** A word followed only by whitespace collapses to the word and one space. */
  lemma FromWordThenBlank(s: string)
    requires s != [] && !IsSpace(s[0]) && WordLen(s) < |s| && TrimStart(s[WordLen(s)..]) == []
    ensures CollapsesToWords(s)
  {
    var n := WordLen(s);
    var w, rest := s[..n], s[n..];
    CollapseWord(s);
    WordsAtWord(s);
    CollapseRun(rest);
    WordsTrimStart(rest);
    assert EndsInSpace(s) by { assert s[|s| - 1] == rest[|rest| - 1]; }
    JoinOne(w, Words(rest), " ");
    Seqs.AppendNil(" ");
  }

  /** A word, whitespace, then more words: the word, one space, and the collapse of the rest. */
  lemma FromWordThenMore(s: string)
    requires s != [] && !IsSpace(s[0]) && WordLen(s) < |s|
    requires var t := TrimStart(s[WordLen(s)..]); t != [] && CollapsesToWords(t)
    ensures CollapsesToWords(s)
  {
    var n := WordLen(s);
    var w, rest := s[..n], s[n..];
    var t := TrimStart(rest);
    var e: string := if EndsInSpace(s) then " " else "";
    CollapseWord(s);
    CollapseRun(rest);
    WordThenMoreWords(s);
    WordThenMoreEnd(s);
    Chain(CollapseSpaces(s), CollapseSpaces(rest), CollapseSpaces(t), w, Join(Words(t), " "), e);
  }

  /** The words of a word, whitespace, then more words. */
  lemma WordThenMoreWords(s: string)
    requires s != [] && !IsSpace(s[0]) && WordLen(s) < |s| && TrimStart(s[WordLen(s)..]) != []
    ensures var t := TrimStart(s[WordLen(s)..]);
      Join(Words(s), " ") == s[..WordLen(s)] + [' '] + Join(Words(t), " ")
  {
    var n := WordLen(s);
    var t := TrimStart(s[n..]);
    WordsAtWord(s);
    WordsTrimStart(s[n..]);
    JoinCons(s[..n], Words(t), " ");
  }

  /** The rest after the first whitespace run ends as the whole string does. */
  lemma WordThenMoreEnd(s: string)
    requires s != [] && WordLen(s) < |s| && TrimStart(s[WordLen(s)..]) != []
    ensures EndsInSpace(TrimStart(s[WordLen(s)..])) == EndsInSpace(s)
  {
    var rest := s[WordLen(s)..];
    var t := TrimStart(rest);
    assert s[|s| - 1] == rest[|rest| - 1] == t[|t| - 1];
  }

  /** The string reasoning behind `FromWordThenMore`, on plain strings. */
  lemma Chain(cs: string, cr: string, ct: string, w: string, j: string, e: string)
    requires cs == w + cr && cr == [' '] + ct && ct == j + e
    ensures cs == (w + [' '] + j) + e
  {
  }

  /** The words of a string that starts with a word: that word, then the words of the rest. */
  lemma WordsAtWord(s: string)
    requires s != [] && !IsSpace(s[0])
    ensures Words(s) == [s[..WordLen(s)]] + Words(s[WordLen(s)..])
  {
  }

  /** Joining one piece gives that piece. */
  lemma JoinOne(x: string, rest: seq<string>, sep: string)
    requires rest == []
    ensures Join([x] + rest, sep) == x
  {
    assert [x] + rest == [x];
  }

  /** A clean string is left unchanged, so cleaning twice equals cleaning once. */
  lemma CleanWhitespaceIdempotent(s: string)
    ensures Clean(s) ==> CleanWhitespace(s) == s
    ensures CleanWhitespace(CleanWhitespace(s)) == CleanWhitespace(s)
  {
    forall t | Clean(t) ensures CleanWhitespace(t) == t {
      CollapseSingleSpaced(t);
      StripNoEdgeSpace(t);
    }
  }

  // ---------------------------------------------------------------------------
  // deleteSpacesWithinJapanese (lines 47-55)
  // ---------------------------------------------------------------------------

  /** `[^ -\u007F]`: any character outside ASCII from the space on. */
  predicate IsWide(c: char)
  {
    !(' ' <= c <= '\U{7F}')
  }

  /** The end of the maximal whitespace run starting at `a`. */
  function SpaceRunEnd(s: string, a: nat): (e: nat)
    requires a <= |s|
    ensures a <= e <= |s|
    ensures forall k :: a <= k < e ==> IsSpace(s[k])
    ensures e == |s| || !IsSpace(s[e])
    decreases |s| - a
  {
    if a < |s| && IsSpace(s[a]) then SpaceRunEnd(s, a + 1) else a
  }

  /*
   * The regular expression `([^ -\u007F]\s+)+[^ -\u007F]` as a
   * backtracking matcher with Python's priorities: the group repeats greedily,
   * `\s+` first takes the longest run and then gives characters back.
   * `AfterGroup(s, q)` continues after at least one repetition of the group
   * ended at `q`; `TryGroup(s, q)` tries one more repetition at `q`;
   * `TryRuns(s, a, e)` tries the run `s[a..e]`, then the shorter ones.
   */

  function AfterGroup(s: string, q: nat): (r: Option<nat>)
    requires q <= |s|
    ensures r.Some? ==> q < r.value <= |s| && IsWide(s[r.value - 1])
    decreases |s| - q, 2, 0
  {
    match TryGroup(s, q)
    case Some(e) => Some(e)
    case None => if q < |s| && IsWide(s[q]) then Some(q + 1) else None
  }

  function TryGroup(s: string, q: nat): (r: Option<nat>)
    requires q <= |s|
    ensures r.Some? ==> q + 3 <= r.value <= |s| && IsWide(s[q]) && IsSpace(s[q + 1])
    ensures r.Some? ==> IsWide(s[r.value - 1])
    decreases |s| - q, 1, 0
  {
    if q < |s| && IsWide(s[q]) then TryRuns(s, q + 1, SpaceRunEnd(s, q + 1)) else None
  }

  function TryRuns(s: string, a: nat, e: nat): (r: Option<nat>)
    requires 1 <= a <= e <= |s|
    requires forall k :: a <= k < e ==> IsSpace(s[k])
    ensures r.Some? ==> a + 2 <= r.value <= |s| && IsSpace(s[a]) && IsWide(s[r.value - 1])
    decreases |s| - a + 1, 0, e - a
  {
    if e <= a then None
    else
      match AfterGroup(s, e)
      case Some(f) => Some(f)
      case None => TryRuns(s, a, e - 1)
  }

  /** A span from `p` on that can be a match: a wide character, whitespace, ..., a wide character. */
  predicate MatchSpan(s: string, p: nat, m: (nat, nat))
  {
    && p <= m.0 && m.0 + 3 <= m.1 <= |s|
    && IsWide(s[m.0]) && IsSpace(s[m.0 + 1]) && IsWide(s[m.1 - 1])
  }

  /** `finditer` from position `p`: the spans of the non-overlapping matches, left to right. */
  function MatchesFrom(s: string, p: nat): (ms: seq<(nat, nat)>)
    requires p <= |s|
    ensures forall k :: 0 <= k < |ms| ==> MatchSpan(s, p, ms[k])
    ensures forall k :: 0 <= k < |ms| - 1 ==> ms[k].1 <= ms[k + 1].0
    decreases |s| - p
  {
    if p == |s| then []
    else
      match TryGroup(s, p)
      case Some(e) => [(p, e)] + MatchesFrom(s, e)
      case None => MatchesFrom(s, p + 1)
  }

  /** The matched texts, `match.group(0)` for each match of `finditer(s)`. */
  function MatchTexts(s: string): (ts: seq<string>)
    ensures forall k :: 0 <= k < |ts| ==> |ts[k]| >= 3 && IsWide(ts[k][0]) && IsSpace(ts[k][1])
  {
    var ms := MatchesFrom(s, 0);
    seq(|ms|, k requires 0 <= k < |ms| => s[ms[k].0..ms[k].1])
  }

  /**
   * The value of `newSent` after the loop has handled the matched texts `ts`
   * in order: each one is replaced, everywhere, by itself without whitespace.
   */
  function ReplaceEach(s: string, ts: seq<string>): (r: string)
    requires forall k :: 0 <= k < |ts| ==> |ts[k]| > 0
    ensures DeletesOnlySpaces(s, r)
    decreases |ts|
  {
    if ts == [] then DeletesNothing(s); s
    else
      var before := ReplaceEach(s, ts[..|ts| - 1]);
      var t := ts[|ts| - 1];
      ReplaceDeletes(before, t, RemoveSpaces(t));
      DeletesTransitive(s, before, ReplaceAll(before, t, RemoveSpaces(t)));
      ReplaceAll(before, t, RemoveSpaces(t))
  }

  /** What `deleteSpacesWithinJapanese` computes. */
  function DeleteSpacesSpec(s: string): (r: string)
    ensures DeletesOnlySpaces(s, r)
  {
    ReplaceEach(s, MatchTexts(s))
  }

  /** `deleteSpacesWithinJapanese`: the loop over the matches of the original sentence. */
  method DeleteSpacesWithinJapanese(sentence: string) returns (newSent: string)
    ensures newSent == DeleteSpacesSpec(sentence)
    ensures DeletesOnlySpaces(sentence, newSent)
  {
    var matches := MatchTexts(sentence);
    newSent := sentence;
    for k := 0 to |matches|
      invariant newSent == ReplaceEach(sentence, matches[..k])
    {
      var substr := matches[k];
      var newSubstr := RemoveSpaces(substr);
      assert matches[..k + 1][..k] == matches[..k];
      newSent := ReplaceAll(newSent, substr, newSubstr);
    }
    assert matches[..|matches|] == matches;
  }

  // ---------------------------------------------------------------------------
  // normalizeSentence (lines 57-66)
  // ---------------------------------------------------------------------------

  /** The stages before the whitespace deletion. */
  function Cleaned(nfkc: Nfkc, s: string): (r: string)
    ensures Clean(r)
  {
    CleanWhitespace(ReplaceNonAllowed(ReplacePunctuation(nfkc(s))))
  }

  /** `normalizeSentence`. */
  function NormalizeSentence(nfkc: Nfkc, s: string): (r: string)
    ensures Clean(r)
  {
    var c := Cleaned(nfkc, s);
    var d := DeleteSpacesSpec(c);
    DeletesKeepsSingleSpaced(c, d);
    StripDeletes(d);
    DeletesKeepsSingleSpaced(d, Strip(d));
    Strip(d)
  }

  /** Every character of the result comes from the cleaned sentence. */
  lemma NormalizeKeepsChars(nfkc: Nfkc, s: string)
    ensures DeletesOnlySpaces(Cleaned(nfkc, s), NormalizeSentence(nfkc, s))
  {
    var c := Cleaned(nfkc, s);
    var d := DeleteSpacesSpec(c);
    StripDeletes(d);
    DeletesTransitive(c, d, Strip(d));
  }

  /** The normal form holds only characters of the allow-list. */
  lemma NormalizeAllowed(nfkc: Nfkc, s: string)
    ensures forall i :: 0 <= i < |NormalizeSentence(nfkc, s)| ==> IsAllowed(NormalizeSentence(nfkc, s)[i])
  {
    var a := ReplaceNonAllowed(ReplacePunctuation(nfkc(s)));
    var c := CollapseSpaces(a);
    var r := NormalizeSentence(nfkc, s);
    AllowedChars(a);
    StripDeletes(c);
    DeletesKeepsChars(c, Strip(c));
    assert Strip(c) == Cleaned(nfkc, s);
    NormalizeKeepsChars(nfkc, s);
    DeletesKeepsChars(Cleaned(nfkc, s), r);
    forall i | 0 <= i < |r| ensures IsAllowed(r[i]) {
      assert r[i] in r;
    }
  }

  /** Collapsing an allowed string keeps it allowed, since the space is allowed. */
  lemma AllowedChars(a: string)
    requires forall i :: 0 <= i < |a| ==> IsAllowed(a[i])
    ensures forall c :: c in CollapseSpaces(a) ==> IsAllowed(c)
  {
    forall c | c in CollapseSpaces(a) ensures IsAllowed(c) {
      if c != ' ' {
        var i :| 0 <= i < |a| && a[i] == c;
      }
    }
  }

  /** No character of `s` is in the punctuation set. */
  predicate FreeOfPunctuation(s: string)
  {
    forall i :: 0 <= i < |s| ==> s[i] !in PunctuationSet
  }

  lemma SpaceIsNotPunctuation()
    ensures ' ' !in PunctuationSet
  {
    if ' ' in PunctuationSet { PunctuationIsNotSpace(' '); }
  }

  lemma ReplaceNonAllowedKeepsFree(s: string)
    requires FreeOfPunctuation(s)
    ensures FreeOfPunctuation(ReplaceNonAllowed(s))
  {
    SpaceIsNotPunctuation();
  }

  lemma CollapseKeepsFree(s: string)
    requires FreeOfPunctuation(s)
    ensures FreeOfPunctuation(CollapseSpaces(s))
  {
    SpaceIsNotPunctuation();
    var r := CollapseSpaces(s);
    forall i | 0 <= i < |r| ensures r[i] !in PunctuationSet {
      assert r[i] in r;
      if r[i] != ' ' {
        var j :| 0 <= j < |s| && s[j] == r[i];
      }
    }
  }

  lemma DeletesKeepsFree(s: string, r: string)
    requires FreeOfPunctuation(s) && DeletesOnlySpaces(s, r)
    ensures FreeOfPunctuation(r)
  {
    DeletesKeepsChars(s, r);
    forall i | 0 <= i < |r| ensures r[i] !in PunctuationSet {
      assert r[i] in r;
      var j :| 0 <= j < |s| && s[j] == r[i];
    }
  }

  /** The result holds no character of the punctuation set. */
  lemma NormalizeHasNoPunctuation(nfkc: Nfkc, s: string)
    ensures FreeOfPunctuation(NormalizeSentence(nfkc, s))
  {
    var p := ReplacePunctuation(nfkc(s));
    ReplacePunctuationRemovesAll(nfkc(s));
    var a := ReplaceNonAllowed(p);
    ReplaceNonAllowedKeepsFree(p);
    var col := CollapseSpaces(a);
    CollapseKeepsFree(a);
    StripDeletes(col);
    DeletesKeepsFree(col, Strip(col));
    assert Strip(col) == Cleaned(nfkc, s);
    NormalizeKeepsChars(nfkc, s);
    DeletesKeepsFree(Cleaned(nfkc, s), NormalizeSentence(nfkc, s));
  }

  /**
   * A sentence whose NFKC form consists only of punctuation, whitespace and
   * characters outside the allow-list normalises to the empty string.
   */
  lemma NormalizeBlank(nfkc: Nfkc, s: string)
    requires forall i :: 0 <= i < |nfkc(s)| ==>
               nfkc(s)[i] in PunctuationSet || IsSpace(nfkc(s)[i]) || !IsAllowed(nfkc(s)[i])
    ensures NormalizeSentence(nfkc, s) == []
  {
    var n := nfkc(s);
    BlankBecomesSpaces(n);
    var a := ReplaceNonAllowed(ReplacePunctuation(n));
    AllSpacesContentEmpty(a);
    var cw := CleanWhitespace(a);
    CleanEmptyContent(cw);
    assert cw == Cleaned(nfkc, s);
    NothingToDelete(cw);
  }

  /** Punctuation, whitespace and disallowed characters all end up as whitespace before cleaning. */
  lemma BlankBecomesSpaces(n: string)
    requires forall i :: 0 <= i < |n| ==> n[i] in PunctuationSet || IsSpace(n[i]) || !IsAllowed(n[i])
    ensures forall i :: 0 <= i < |ReplaceNonAllowed(ReplacePunctuation(n))| ==>
              IsSpace(ReplaceNonAllowed(ReplacePunctuation(n))[i])
  {
    var a := ReplaceNonAllowed(ReplacePunctuation(n));
    forall i | 0 <= i < |a| ensures IsSpace(a[i]) {
      if n[i] !in PunctuationSet && IsAllowed(n[i]) {
        AllowedSpaceIsSpace(n[i]);
      }
    }
  }

  /** The empty sentence has no match, so nothing is deleted and nothing stripped. */
  lemma NothingToDelete(c: string)
    requires c == []
    ensures Strip(DeleteSpacesSpec(c)) == []
  {
    assert MatchesFrom(c, 0) == [];
    assert MatchTexts(c) == [];
  }

  lemma {:induction false} AllSpacesContentEmpty(s: string)
    requires forall i :: 0 <= i < |s| ==> IsSpace(s[i])
    ensures RemoveSpaces(s) == []
  {
    if s != [] { AllSpacesContentEmpty(s[1..]); }
  }

  /** A clean string without non-whitespace content is empty. */
  lemma CleanEmptyContent(s: string)
    requires Clean(s) && RemoveSpaces(s) == []
    ensures s == []
  {
  }
}
