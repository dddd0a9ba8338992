/**
 * The single-transcription matcher of `fuzzy_match.py`: the source text is cut
 * into sentences, the sentences similar to the transcription are kept as
 * candidates, the best window of the candidates is chosen by reading, and the
 * window is mapped back onto the original characters of its candidate.
 */
module FuzzyMatch {
  import opened Wrappers
  import opened Seqs
  import opened Text
  import opened Mappings
  import opened Collaborators
  import opened Normalize

  // ---------------------------------------------------------------------------
  // yieldSentences (lines 21, 24-43)
  // ---------------------------------------------------------------------------

  /** `splittingChars`: the newline and the ideographic full stop U+3002. */
  predicate IsSplitting(c: char)
  {
    c == '\n' || c == '\U{3002}'
  }

  predicate NoSplitting(s: string)
  {
    forall i :: 0 <= i < |s| ==> !IsSplitting(s[i])
  }

  /** A yielded sentence: at least one ordinary character, then exactly one splitting character. */
  predicate IsSentencePiece(p: string)
  {
    |p| >= 2 && IsSplitting(p[|p| - 1]) && NoSplitting(p[..|p| - 1])
  }

  /** The splitting character at `i` arrives while the buffer is empty, and is dropped. */
  predicate DroppedAt(text: string, i: int)
  {
    0 <= i < |text| && IsSplitting(text[i]) && (i == 0 || IsSplitting(text[i - 1]))
  }

  /** The text without its dropped splitting characters. */
  function Kept(text: string): (r: string)
    ensures |r| <= |text|
  {
    if text == [] then []
    else if DroppedAt(text, |text| - 1) then Kept(text[..|text| - 1])
    else Kept(text[..|text| - 1]) + [text[|text| - 1]]
  }

  /**
   * `yieldSentences` over the text of the file (iterating over its lines and
   * then their characters visits the characters of the text in order).
   */
  method YieldSentences(text: string) returns (pieces: seq<string>)
    ensures |pieces| >= 1
    ensures forall k :: 0 <= k < |pieces| - 1 ==> IsSentencePiece(pieces[k])
    ensures NoSplitting(pieces[|pieces| - 1])
    ensures forall k :: 0 <= k < |pieces| ==> pieces[k] != "\n" && pieces[k] != "\U{3002}"
    ensures Flatten(pieces) == Kept(text)
  {
    pieces := [];
    var newSent := "";
    for i := 0 to |text|
      invariant NoSplitting(newSent)
      invariant newSent == [] <==> (i == 0 || IsSplitting(text[i - 1]))
      invariant forall k :: 0 <= k < |pieces| ==> IsSentencePiece(pieces[k])
      invariant Flatten(pieces) + newSent == Kept(text[..i])
    {
      KeptStep(text, i);
      pieces, newSent := Feed(pieces, newSent, text[i]);
    }
    assert text[..|text|] == text;
    assert newSent == "\n" || newSent == "\U{3002}" ==> IsSplitting(newSent[0]);
    FlattenAppend(pieces, [newSent]);
    pieces := pieces + [newSent];
  }

  /** One more character of the text: kept unless it is a splitting character arriving at an empty buffer. */
  lemma KeptStep(text: string, i: nat)
    requires i < |text|
    ensures Kept(text[..i + 1]) ==
      Kept(text[..i]) + (if IsSplitting(text[i]) && (i == 0 || IsSplitting(text[i - 1])) then [] else [text[i]])
  {
    assert text[..i + 1][..i] == text[..i];
  }

  /** The body of the inner loop of `yieldSentences`, for the character `c`. */
  method Feed(pieces: seq<string>, newSent: string, c: char) returns (pieces': seq<string>, newSent': string)
    requires NoSplitting(newSent)
    requires forall k :: 0 <= k < |pieces| ==> IsSentencePiece(pieces[k])
    ensures NoSplitting(newSent') && (newSent' == [] <==> IsSplitting(c))
    ensures forall k :: 0 <= k < |pieces'| ==> IsSentencePiece(pieces'[k])
    ensures Flatten(pieces') + newSent' ==
      Flatten(pieces) + newSent + (if IsSplitting(c) && newSent == [] then [] else [c])
  {
    pieces', newSent' := pieces, newSent + [c];
    if IsSplitting(c) {
      if newSent' != "\n" && newSent' != "\U{3002}" {
        assert newSent != [];
        assert newSent'[..|newSent'| - 1] == newSent;
        FlattenAppend(pieces, [newSent']);
        pieces' := pieces + [newSent'];
      } else {
        assert newSent == [];
      }
      newSent' := "";
    }
  }

  // ---------------------------------------------------------------------------
  // yieldPathsTranscriptions (lines 45-55)
  // ---------------------------------------------------------------------------

  /** One line of the transcription file: the first tab field and the second, both stripped. */
  function ParseLine(line: string): (r: (string, string))
    ensures NoEdgeSpace(r.0) && NoEdgeSpace(r.1)
    ensures Find(line, "\t").None? ==> r.1 == []
  {
    var pairs := Split(line, "\t");
    var path := Strip(pairs[0]);
    var transcription := if |pairs| > 1 then Strip(pairs[1]) else "";
    (path, transcription)
  }

  /** A line written as path, tab, transcription and newline parses back to the pair. */
  lemma ParseLineRoundTrip(path: string, transcription: string)
    requires NoEdgeSpace(path) && NoEdgeSpace(transcription)
    requires '\t' !in path && '\t' !in transcription
    ensures ParseLine(path + "\t" + transcription + "\n") == (path, transcription)
  {
    var rest := transcription + "\n";
    assert '\t' !in rest;
    SplitJoin([path, rest], '\t');
    assert Join([path, rest], "\t") == path + "\t" + rest;
    assert path + "\t" + transcription + "\n" == path + "\t" + rest;
    StripNoEdgeSpace(path);
    StripNewline(transcription);
  }

  /**
   * Any line: the path is the stripped text before the first tab, and the
   * transcription the stripped text between it and the next tab (or the end).
   */
  lemma ParseLineFields(p: string, q: string, rest: string)
    requires '\t' !in p && '\t' !in q
    requires rest == [] || rest[0] == '\t'
    ensures ParseLine(p + "\t" + q + rest) == (Strip(p), Strip(q))
  {
    var pairs := Split(p + "\t" + q + rest, "\t");
    SplitFields(p, q, rest);
    assert |pairs| > 1 && pairs[0] == p && pairs[1] == q;
  }

  /** Splitting such a line at tabs: `p` first and `q` second. */
  lemma SplitFields(p: string, q: string, rest: string)
    requires '\t' !in p && '\t' !in q
    requires rest == [] || rest[0] == '\t'
    ensures var pairs := Split(p + "\t" + q + rest, "\t");
      |pairs| > 1 && pairs[0] == p && pairs[1] == q
  {
    var line := p + "\t" + q + rest;
    assert line == p + ['\t'] + (q + rest);
    FindAfterFree(p, '\t', q + rest);
    assert line[|p| + 1..] == q + rest;
    SplitAt(line, "\t", |p|);
    assert line[..|p|] == p;
    SplitHead(q, rest);
  }

  /** The first tab field of `q + rest` is `q`. */
  lemma SplitHead(q: string, rest: string)
    requires '\t' !in q
    requires rest == [] || rest[0] == '\t'
    ensures Split(q + rest, "\t")[0] == q
  {
    if rest == [] {
      assert q + rest == q;
      NoCharNoFind(q, '\t');
    } else {
      assert q + rest == q + ['\t'] + rest[1..];
      FindAfterFree(q, '\t', rest[1..]);
      SplitAt(q + rest, "\t", |q|);
      assert (q + rest)[..|q|] == q;
    }
  }

  /** A line without a tab is all path. */
  lemma ParseLineNoTab(line: string)
    requires '\t' !in line
    ensures ParseLine(line) == (Strip(line), "")
  {
    NoCharNoFind(line, '\t');
  }

  // ---------------------------------------------------------------------------
  // findCandidates (lines 57-85)
  // ---------------------------------------------------------------------------

  /** The combined score `(p + 0.75 q) / 175` of line 79. */
  function CombinedScore(p: Score, q: Score): (r: real)
    ensures 0.0 <= r <= 1.0
  {
    (p as real + 0.75 * q as real) / 175.0
  }

  /** Both normal forms are non-empty and the combined score reaches 0.5. */
  predicate IsCandidate(env: Env, t: string, s: string)
    ensures IsCandidate(env, t, s) ==> NormalizeSentence(env.nfkc, t) != [] && NormalizeSentence(env.nfkc, s) != []
  {
    var normT := NormalizeSentence(env.nfkc, t);
    var normS := NormalizeSentence(env.nfkc, s);
    && normT != [] && normS != []
    && CombinedScore(
         env.partialRatio(normT, normS),
         env.partialRatio(NormalizeSentence(env.nfkc, env.reading(t)), NormalizeSentence(env.nfkc, env.reading(s))))
       >= 0.5
  }

  /** `IsCandidate` in terms of the four normal forms it compares. */
  lemma CandidateByForms(env: Env, t: string, s: string, normT: string, normS: string, yomiT: string, yomiS: string)
    requires normT == NormalizeSentence(env.nfkc, t) && normS == NormalizeSentence(env.nfkc, s)
    requires yomiT == NormalizeSentence(env.nfkc, env.reading(t)) && yomiS == NormalizeSentence(env.nfkc, env.reading(s))
    ensures IsCandidate(env, t, s) <==>
      normT != [] && normS != [] && CombinedScore(env.partialRatio(normT, normS), env.partialRatio(yomiT, yomiS)) >= 0.5
  {
  }

  /** A candidate's surface score is at least 13, and a surface score of 88 or more suffices. */
  lemma CandidateThreshold(p: Score, q: Score)
    ensures CombinedScore(p, q) >= 0.5 ==> p >= 13
    ensures p >= 88 ==> CombinedScore(p, q) >= 0.5
  {
  }

  /** The sentences that are candidates for `t`, in their original order. */
  function Candidates(env: Env, t: string, sentences: seq<string>): (r: seq<string>)
    ensures |r| <= |sentences|
    decreases |sentences|
  {
    if sentences == [] then []
    else
      var s := sentences[|sentences| - 1];
      Candidates(env, t, sentences[..|sentences| - 1]) + (if IsCandidate(env, t, s) then [s] else [])
  }

  /** Exactly the sentences that pass `IsCandidate` are kept. */
  lemma {:induction false} CandidatesExactly(env: Env, t: string, sentences: seq<string>)
    ensures forall s :: s in Candidates(env, t, sentences) <==> s in sentences && IsCandidate(env, t, s)
    decreases |sentences|
  {
    if sentences != [] {
      var pre := sentences[..|sentences| - 1];
      var s := sentences[|sentences| - 1];
      CandidatesExactly(env, t, pre);
      assert sentences == pre + [s];
    }
  }

  lemma CandidatesAppend(env: Env, t: string, a: seq<string>, s: string)
    ensures Candidates(env, t, a + [s]) == Candidates(env, t, a) + (if IsCandidate(env, t, s) then [s] else [])
  {
    assert (a + [s])[..|a|] == a;
  }

  /** The body of the loop of `findCandidates`: whether one sentence `s` is kept for `t`. */
  method CheckCandidate(env: Env, t: string, s: string) returns (keep: bool)
    ensures keep <==> IsCandidate(env, t, s)
  {
    var normT := NormalizeSentence(env.nfkc, t);
    var normS := NormalizeSentence(env.nfkc, s);
    var yomiT := NormalizeSentence(env.nfkc, env.reading(t));
    var yomiS := NormalizeSentence(env.nfkc, env.reading(s));
    CandidateByForms(env, t, s, normT, normS, yomiT, yomiS);
    keep := false;
    if normT != [] && normS != [] {
      var p := env.partialRatio(normT, normS);
      var q := env.partialRatio(yomiT, yomiS);
      var r := (p as real + 0.75 * q as real) / 175.0;
      keep := r >= 0.5;
    }
  }

  /** `findCandidates`, with the sentences of the source text as a parameter. */
  method FindCandidates(env: Env, t: string, sentences: seq<string>) returns (candidates: seq<string>)
    ensures candidates == Candidates(env, t, sentences)
  {
    candidates := [];
    for k := 0 to |sentences|
      invariant candidates == Candidates(env, t, sentences[..k])
    {
      TakeOneMore(sentences, k);
      candidates := KeepIfCandidate(env, t, sentences[..k], sentences[k], candidates);
    }
    assert sentences[..|sentences|] == sentences;
  }

  /** One pass of the loop of `findCandidates`: `s` is appended when it is a candidate. */
  method KeepIfCandidate(env: Env, t: string, before: seq<string>, s: string, candidates: seq<string>)
    returns (candidates': seq<string>)
    requires candidates == Candidates(env, t, before)
    ensures candidates' == Candidates(env, t, before + [s])
  {
    CandidatesAppend(env, t, before, s);
    var keep := CheckCandidate(env, t, s);
    candidates' := if keep then candidates + [s] else candidates;
  }

  // ---------------------------------------------------------------------------
  // searchWindows (lines 100-134)
  // ---------------------------------------------------------------------------

  /** `xs.index(x)`: the first position holding `x`. */
  function IndexOf<T(==)>(xs: seq<T>, x: T): (r: nat)
    requires x in xs
    ensures r < |xs| && xs[r] == x
    ensures forall k :: 0 <= k < r ==> xs[k] != x
  {
    if xs[0] == x then 0 else IndexOf(xs[1..], x) + 1
  }

  /** `list(map(normalize, cs))`. */
  function NormalizeAll(nfkc: Nfkc, cs: seq<string>): (r: seq<string>)
    ensures |r| == |cs|
    ensures forall j :: 0 <= j < |cs| ==> r[j] == NormalizeSentence(nfkc, cs[j])
  {
    seq(|cs|, j requires 0 <= j < |cs| => NormalizeSentence(nfkc, cs[j]))
  }

  /**
   * `windowSizes`: from `n - n // 2` up to but excluding `n + n // 2`, for a
   * normalised transcription of length `n`; empty unless `n` is at least 2.
   */
  function SizeRange(n: nat): (r: (nat, nat))
    ensures n <= 1 ==> r.1 <= r.0
    ensures n >= 2 ==> 1 <= r.0 <= n < r.1
    ensures r.0 <= n <= r.1
  {
    (n - n / 2, n + n / 2)
  }

  /** The windows of one size over `c`, left to right, each tagged with `tag`. */
  function SlidesOf(c: string, size: nat, tag: nat): (r: seq<(string, nat)>)
    ensures |r| == if size <= |c| then |c| - size + 1 else 0
    ensures forall k :: 0 <= k < |r| ==> r[k].1 == tag && |r[k].0| == size && OccursAt(c, r[k].0, k)
  {
    var n := if size <= |c| then |c| - size + 1 else 0;
    seq(n, k requires 0 <= k < n => (c[k..k + size], tag))
  }

  /** The windows of every size in `[lo, hi)` over `c`, smaller sizes first. */
  function SizesOf(c: string, lo: nat, hi: nat, tag: nat): (r: seq<(string, nat)>)
    ensures forall k :: 0 <= k < |r| ==> r[k].1 == tag && lo <= |r[k].0| < hi
    decreases hi - lo
  {
    if lo >= hi then [] else SlidesOf(c, lo, tag) + SizesOf(c, lo + 1, hi, tag)
  }

  lemma {:induction false} SizesOfSound(c: string, lo: nat, hi: nat, tag: nat)
    ensures forall w :: w in SizesOf(c, lo, hi, tag) ==> exists i :: OccursAt(c, w.0, i)
    decreases hi - lo
  {
    if lo < hi {
      var a := SlidesOf(c, lo, tag);
      var b := SizesOf(c, lo + 1, hi, tag);
      SizesOfSound(c, lo + 1, hi, tag);
      forall w | w in a ensures exists i :: OccursAt(c, w.0, i) {
        var k :| 0 <= k < |a| && a[k] == w;
        assert OccursAt(c, w.0, k);
      }
      assert SizesOf(c, lo, hi, tag) == a + b;
    }
  }

  /**
   * `surfWindows` restricted to the normal forms from position `j` on: each
   * window is tagged with `normCs.index(normC)`, the first position of its
   * normal form.
   */
  function WindowsFrom(normCs: seq<string>, lo: nat, hi: nat, j: nat): (r: seq<(string, nat)>)
    requires j <= |normCs|
    ensures forall k :: 0 <= k < |r| ==> r[k].1 < |normCs| && lo <= |r[k].0| < hi
    decreases |normCs| - j
  {
    if j == |normCs| then []
    else
      var a := SizesOf(normCs[j], lo, hi, IndexOf(normCs, normCs[j]));
      var b := WindowsFrom(normCs, lo, hi, j + 1);
      assert forall k :: 0 <= k < |b| ==> (a + b)[|a| + k] == b[k];
      a + b
  }

  /** `w` is a piece of `normCs[w.1]`, `w.1` is the first position of that normal form, and the size is in range. */
  ghost predicate TaggedWindow(normCs: seq<string>, lo: nat, hi: nat, w: (string, nat))
  {
    && w.1 < |normCs|
    && (forall m :: 0 <= m < w.1 ==> normCs[m] != normCs[w.1])
    && lo <= |w.0| < hi
    && exists i :: OccursAt(normCs[w.1], w.0, i)
  }

  lemma {:induction false} WindowsFromSound(normCs: seq<string>, lo: nat, hi: nat, j: nat)
    requires j <= |normCs|
    ensures forall w :: w in WindowsFrom(normCs, lo, hi, j) ==> TaggedWindow(normCs, lo, hi, w)
    decreases |normCs| - j
  {
    if j < |normCs| {
      var tag := IndexOf(normCs, normCs[j]);
      var a := SizesOf(normCs[j], lo, hi, tag);
      var b := WindowsFrom(normCs, lo, hi, j + 1);
      WindowsFromSound(normCs, lo, hi, j + 1);
      SizesOfSound(normCs[j], lo, hi, tag);
      forall w | w in a ensures TaggedWindow(normCs, lo, hi, w) {
        var k :| 0 <= k < |a| && a[k] == w;
        assert w.1 == tag && normCs[tag] == normCs[j];
      }
      assert WindowsFrom(normCs, lo, hi, j) == a + b;
    }
  }

  /** `surfWindows` of `searchWindows`. */
  function SurfaceWindows(env: Env, t: string, cs: seq<string>): (r: seq<(string, nat)>)
    ensures forall k :: 0 <= k < |r| ==> r[k].1 < |cs|
  {
    var sizes := SizeRange(|NormalizeSentence(env.nfkc, t)|);
    WindowsFrom(NormalizeAll(env.nfkc, cs), sizes.0, sizes.1, 0)
  }

  /** Every element of `surfWindows` is a window of the candidate it is tagged with. */
  lemma SurfaceWindowsAreWindows(env: Env, t: string, cs: seq<string>)
    ensures forall w :: w in SurfaceWindows(env, t, cs) ==> WindowOf(env, t, cs, w)
  {
    var sizes := SizeRange(|NormalizeSentence(env.nfkc, t)|);
    var normCs := NormalizeAll(env.nfkc, cs);
    WindowsFromSound(normCs, sizes.0, sizes.1, 0);
    forall w | w in SurfaceWindows(env, t, cs) ensures WindowOf(env, t, cs, w) {
      assert TaggedWindow(normCs, sizes.0, sizes.1, w);
      assert normCs[w.1] == NormalizeSentence(env.nfkc, cs[w.1]);
    }
  }

  /**
   * `w` is a window of the candidate `cs[w.1]`: a piece of its normal form
   * whose length is within half the transcription's normal length of it, and
   * `w.1` is the first candidate with that normal form.
   */
  ghost predicate WindowOf(env: Env, t: string, cs: seq<string>, w: (string, nat))
  {
    var sizes := SizeRange(|NormalizeSentence(env.nfkc, t)|);
    && w.1 < |cs|
    && (forall m :: 0 <= m < w.1 ==> NormalizeSentence(env.nfkc, cs[m]) != NormalizeSentence(env.nfkc, cs[w.1]))
    && sizes.0 <= |w.0| < sizes.1
    && exists i :: OccursAt(NormalizeSentence(env.nfkc, cs[w.1]), w.0, i)
  }

  /** `pronWindows`: the stripped reading of every window. */
  function Readings(env: Env, ws: seq<(string, nat)>): (r: seq<string>)
    ensures |r| == |ws|
    ensures forall k :: 0 <= k < |ws| ==> r[k] == Strip(env.reading(ws[k].0))
  {
    seq(|ws|, k requires 0 <= k < |ws| => Strip(env.reading(ws[k].0)))
  }

  /** What `extractOne` answers for the reading of the normalised transcription. */
  function BestReading(env: Env, t: string, cs: seq<string>): (r: Option<(string, Score)>)
    ensures r.Some? ==> r.value.0 in Readings(env, SurfaceWindows(env, t, cs))
  {
    env.extractOne(env.reading(NormalizeSentence(env.nfkc, t)), Readings(env, SurfaceWindows(env, t, cs)))
  }

  /** `searchWindows`: the best window and the position of the candidate it comes from, or `("", -1)`. */
  function SearchWindows(env: Env, t: string, cs: seq<string>): (r: (string, int))
    ensures r.1 == -1 <==> BestReading(env, t, cs).None?
    ensures r.1 == -1 ==> r.0 == []
    ensures r.1 != -1 ==>
              && 0 <= r.1 < |cs|
              && r in SurfaceWindows(env, t, cs)
              && Strip(env.reading(r.0)) == BestReading(env, t, cs).value.0
  {
    var surf := SurfaceWindows(env, t, cs);
    var pron := Readings(env, surf);
    var bestPron := BestReading(env, t, cs);
    if bestPron.Some? then
      var k := IndexOf(pron, bestPron.value.0);
      assert pron[k] == Strip(env.reading(surf[k].0));
      assert surf[k] in surf;
      (surf[k].0, surf[k].1 as int)
    else
      ("", -1)
  }

  /**
   * The chosen window is the FIRST window whose reading is the one
   * `extractOne` chose, as `pronWindows.index` finds it.
   */
  lemma SearchWindowsFirst(env: Env, t: string, cs: seq<string>)
    ensures var r := SearchWindows(env, t, cs);
            var ws := SurfaceWindows(env, t, cs);
            var pron := Readings(env, ws);
            r.1 != -1 ==>
              exists k :: 0 <= k < |ws| && r.0 == ws[k].0 && r.1 == ws[k].1
                          && pron[k] == BestReading(env, t, cs).value.0
                          && forall m :: 0 <= m < k ==> pron[m] != BestReading(env, t, cs).value.0
  {
    var r := SearchWindows(env, t, cs);
    var ws := SurfaceWindows(env, t, cs);
    var pron := Readings(env, ws);
    var best := BestReading(env, t, cs);
    if r.1 != -1 {
      var k := IndexOf(pron, best.value.0);
      assert r == (ws[k].0, ws[k].1 as int);
      FirstWitness(ws, pron, best.value.0, k, r);
    }
  }

  lemma FirstWitness(ws: seq<(string, nat)>, pron: seq<string>, c: string, k: nat, r: (string, int))
    requires k < |ws| == |pron| && r.0 == ws[k].0 && r.1 == ws[k].1 && pron[k] == c
    requires forall m :: 0 <= m < k ==> pron[m] != c
    ensures exists k :: 0 <= k < |ws| && r.0 == ws[k].0 && r.1 == ws[k].1 && pron[k] == c
                        && forall m :: 0 <= m < k ==> pron[m] != c
  {
  }

  /**
   * The chosen window is a non-empty piece of the normal form of the first
   * candidate with that normal form, of a size in `windowSizes`.
   */
  lemma SearchWindowsIsWindow(env: Env, t: string, cs: seq<string>)
    ensures var r := SearchWindows(env, t, cs);
            r.1 != -1 ==> r.0 != [] && WindowOf(env, t, cs, (r.0, r.1 as nat))
  {
    var r := SearchWindows(env, t, cs);
    if r.1 != -1 {
      SurfaceWindowsAreWindows(env, t, cs);
      assert WindowOf(env, t, cs, (r.0, r.1 as nat));
    }
  }

  /** A transcription whose normal form has at most one character gives no windows, hence no match. */
  lemma SearchWindowsShort(env: Env, t: string, cs: seq<string>)
    requires |NormalizeSentence(env.nfkc, t)| <= 1
    ensures SearchWindows(env, t, cs) == ("", -1)
  {
    var sizes := SizeRange(|NormalizeSentence(env.nfkc, t)|);
    NoWindowSizes(NormalizeAll(env.nfkc, cs), sizes.0, sizes.1, 0);
    assert Readings(env, []) == [];
  }

  lemma {:induction false} NoWindowSizes(normCs: seq<string>, lo: nat, hi: nat, j: nat)
    requires j <= |normCs| && hi <= lo
    ensures WindowsFrom(normCs, lo, hi, j) == []
    decreases |normCs| - j
  {
    if j < |normCs| {
      NoWindowSizes(normCs, lo, hi, j + 1);
    }
  }

  /** Every piece of a candidate's normal form of a length in the range is among `surfWindows`. */
  lemma SurfaceWindowsComplete(env: Env, t: string, cs: seq<string>, j: nat, size: nat, i: nat)
    requires j < |cs|
    requires var sizes := SizeRange(|NormalizeSentence(env.nfkc, t)|); sizes.0 <= size < sizes.1
    requires i + size <= |NormalizeSentence(env.nfkc, cs[j])|
    ensures var c := NormalizeSentence(env.nfkc, cs[j]);
            (c[i..i + size], IndexOf(NormalizeAll(env.nfkc, cs), c)) in SurfaceWindows(env, t, cs)
  {
    var sizes := SizeRange(|NormalizeSentence(env.nfkc, t)|);
    WindowsFromHas(NormalizeAll(env.nfkc, cs), sizes.0, sizes.1, 0, j, size, i);
  }

  lemma WindowsFromHas(normCs: seq<string>, lo: nat, hi: nat, j0: nat, j: nat, size: nat, i: nat)
    requires j0 <= j < |normCs|
    requires lo <= size < hi && i + size <= |normCs[j]|
    ensures (normCs[j][i..i + size], IndexOf(normCs, normCs[j])) in WindowsFrom(normCs, lo, hi, j0)
  {
    SizesOfHas(normCs[j], lo, hi, IndexOf(normCs, normCs[j]), size, i);
    InWindowsFrom(normCs, lo, hi, j0, j, (normCs[j][i..i + size], IndexOf(normCs, normCs[j])));
  }

  /** The windows of each candidate are among the windows of the candidates from `j0` on. */
  lemma {:induction false} InWindowsFrom(normCs: seq<string>, lo: nat, hi: nat, j0: nat, j: nat, w: (string, nat))
    requires j0 <= j < |normCs|
    requires w in SizesOf(normCs[j], lo, hi, IndexOf(normCs, normCs[j]))
    ensures w in WindowsFrom(normCs, lo, hi, j0)
    decreases j - j0
  {
    var a := SizesOf(normCs[j0], lo, hi, IndexOf(normCs, normCs[j0]));
    var b := WindowsFrom(normCs, lo, hi, j0 + 1);
    WindowsFromStep(normCs, lo, hi, j0);
    if j0 < j {
      InWindowsFrom(normCs, lo, hi, j0 + 1, j, w);
    }
    Seqs.InAppend(w, a, b);
  }

  lemma WindowsFromStep(normCs: seq<string>, lo: nat, hi: nat, j: nat)
    requires j < |normCs|
    ensures WindowsFrom(normCs, lo, hi, j)
         == SizesOf(normCs[j], lo, hi, IndexOf(normCs, normCs[j])) + WindowsFrom(normCs, lo, hi, j + 1)
  {
  }

  lemma {:induction false} SizesOfHas(c: string, lo: nat, hi: nat, tag: nat, size: nat, i: nat)
    requires lo <= size < hi && i + size <= |c|
    ensures (c[i..i + size], tag) in SizesOf(c, lo, hi, tag)
    decreases size - lo
  {
    if lo == size {
      var r := SlidesOf(c, size, tag);
      assert OccursAt(c, r[i].0, i);
      assert r[i] == (c[i..i + size], tag);
    } else {
      SizesOfHas(c, lo + 1, hi, tag, size, i);
    }
  }

  /**
   * Since `extractOne` only gives up on an empty list of choices, a match is
   * found whenever some candidate's normal form is long enough for the
   * smallest window.
   */
  lemma SearchWindowsFinds(env: Env, t: string, cs: seq<string>, j: nat)
    requires j < |cs|
    requires |NormalizeSentence(env.nfkc, t)| >= 2
    requires SizeRange(|NormalizeSentence(env.nfkc, t)|).0 <= |NormalizeSentence(env.nfkc, cs[j])|
    ensures SearchWindows(env, t, cs).1 != -1
  {
    var sizes := SizeRange(|NormalizeSentence(env.nfkc, t)|);
    SurfaceWindowsComplete(env, t, cs, j, sizes.0, 0);
    var choices := Readings(env, SurfaceWindows(env, t, cs));
    assert |choices| > 0;
    ExtractOneAnswers(env.extractOne, env.reading(NormalizeSentence(env.nfkc, t)), choices);
  }

  // ---------------------------------------------------------------------------
  // denormalize (lines 136-160)
  // ---------------------------------------------------------------------------

  /** `punctuation | splittingChars`: a character that is kept after the matched span. */
  predicate KeepsTrailing(c: char)
  {
    c in PunctuationSet || IsSplitting(c)
  }

  /** `[i for i, c in enumerate(s) if c == x]`: the positions of `x` in `s`, ascending. */
  function Positions(s: string, x: char): (r: seq<nat>)
    ensures forall k :: 0 <= k < |r| ==> r[k] < |s| && s[r[k]] == x
    ensures forall i :: 0 <= i < |s| && s[i] == x ==> i in r
    ensures forall a, b :: 0 <= a < b < |r| ==> r[a] < r[b]
  {
    if s == [] then []
    else
      var init := s[..|s| - 1];
      assert forall i :: 0 <= i < |init| ==> init[i] == s[i];
      Positions(init, x) + (if s[|s| - 1] == x then [|s| - 1] else [])
  }

  /** `s[a:b]` for `b <= len(s)`: empty when `b <= a`. */
  function Slice(s: string, a: nat, b: nat): (r: string)
    requires b <= |s|
    ensures |r| == if a < b then b - a else 0
    ensures forall k :: 0 <= k < |r| ==> r[k] == s[a + k]
  {
    if a < b then s[a..b] else []
  }

  /**
   * A normalising function that maps the empty string to itself; `denormalize`
   * uses `normalizeSentence`, which is one (`NormalizerOf`).
   */
  type Normalizer = f: string -> string | f([]) == []
    witness (s: string) => s

  /** `normalizeSentence` as a function value. */
  function NormalizerOf(nfkc: Nfkc): (f: Normalizer)
    ensures forall s :: f(s) == NormalizeSentence(nfkc, s)
  {
    var f: string -> string := s => NormalizeSentence(nfkc, s);
    assert f([]) == [] by { NormalizeBlank(nfkc, []); }
    f
  }

  /**
   * The test of line 152: `candidate[h:t + 1]` normalises to `best`, where
   * `h` holds `best`'s first character and `t` its last.
   */
  predicate SpanMatches(norm: Normalizer, best: string, cand: string, h: nat, t: nat)
  {
    && best != [] && h < |cand| && t < |cand|
    && cand[h] == best[0] && cand[t] == best[|best| - 1]
    && norm(Slice(cand, h, t + 1)) == best
  }

  /** A matching span never runs backwards: the empty slice normalises to the empty string. */
  lemma SpanOrdered(norm: Normalizer, best: string, cand: string, h: nat, t: nat)
    requires SpanMatches(norm, best, cand, h, t)
    ensures h <= t
  {
  }
  /** The pair the nested loops accept first: the smallest head, then the smallest tail. */
  ghost predicate IsFirstSpan(norm: Normalizer, best: string, cand: string, h: nat, t: nat)
  {
    && SpanMatches(norm, best, cand, h, t)
    && forall h', t' :: SpanMatches(norm, best, cand, h', t') ==> h < h' || (h == h' && t <= t')
  }

  /** The first tail from `t0` on that matches with head `h`. */
  function FirstTail(norm: Normalizer, best: string, cand: string, h: nat, t0: nat): (r: Option<nat>)
    ensures r.Some? ==> t0 <= r.value && SpanMatches(norm, best, cand, h, r.value)
    ensures r.Some? ==> forall t' :: t0 <= t' < r.value ==> !SpanMatches(norm, best, cand, h, t')
    ensures r.None? ==> forall t' :: t0 <= t' ==> !SpanMatches(norm, best, cand, h, t')
    decreases |cand| - t0
  {
    if t0 >= |cand| then None
    else if SpanMatches(norm, best, cand, h, t0) then Some(t0)
    else FirstTail(norm, best, cand, h, t0 + 1)
  }

  /** The first matching pair whose head is at least `h0`. */
  function FirstSpanFrom(norm: Normalizer, best: string, cand: string, h0: nat): (r: Option<(nat, nat)>)
    ensures r.Some? ==> h0 <= r.value.0 && SpanMatches(norm, best, cand, r.value.0, r.value.1)
    ensures r.Some? ==> forall h', t' :: h0 <= h' && SpanMatches(norm, best, cand, h', t') ==>
              r.value.0 < h' || (r.value.0 == h' && r.value.1 <= t')
    ensures r.None? ==> forall h', t' :: h0 <= h' ==> !SpanMatches(norm, best, cand, h', t')
    decreases |cand| - h0
  {
    if h0 >= |cand| then None
    else
      match FirstTail(norm, best, cand, h0, 0)
      case Some(t) => Some((h0, t))
      case None => FirstSpanFrom(norm, best, cand, h0 + 1)
  }

  function FirstSpan(norm: Normalizer, best: string, cand: string): (r: Option<(nat, nat)>)
    ensures r.Some? ==> IsFirstSpan(norm, best, cand, r.value.0, r.value.1)
    ensures r.None? ==> forall h, t :: !SpanMatches(norm, best, cand, h, t)
  {
    FirstSpanFrom(norm, best, cand, 0)
  }

  /** There is at most one first pair, and the search finds it. */
  lemma FirstSpanUnique(norm: Normalizer, best: string, cand: string, h: nat, t: nat)
    requires IsFirstSpan(norm, best, cand, h, t)
    ensures FirstSpan(norm, best, cand) == Some((h, t))
  {
  }

  /** What `denormalize` returns, or the exception it raises. */
  function Denormalized(norm: Normalizer, best: string, cand: string): (r: Result<string>)
    ensures r.Err? ==> r.error == IndexError
    ensures best == [] ==> r == Err(IndexError)
    ensures best != [] && (forall h, t :: !SpanMatches(norm, best, cand, h, t)) ==> r == Ok(best)
  {
    if best == [] then Err(IndexError)
    else
      match FirstSpan(norm, best, cand)
      case None => Ok(best)
      case Some((h, t)) =>
        SpanOrdered(norm, best, cand, h, t);
        CutSpan(cand, h, t)
  }

  /** Lines 153-157: the span, with the next character kept when it is punctuation. */
  function CutSpan(cand: string, h: nat, t: nat): (r: Result<string>)
    requires h <= t < |cand|
    ensures r.Err? <==> t == |cand| - 1
    ensures r.Ok? ==> cand[h..t + 1] <= r.value && |r.value| <= t + 2 - h
  {
    if t + 1 >= |cand| then Err(IndexError)
    else if KeepsTrailing(cand[t + 1]) then Ok(cand[h..t + 2])
    else Ok(cand[h..t + 1])
  }

  /**
   * Given the first matching pair `(h, t)`: the result is `candidate[h:t+1]`,
   * which normalises to `best`, followed by the next character when that is
   * punctuation or a splitting character; and an IndexError when `t` is the
   * candidate's last position.
   */
  lemma DenormalizedSpan(norm: Normalizer, best: string, cand: string, h: nat, t: nat)
    requires IsFirstSpan(norm, best, cand, h, t)
    ensures var r := Denormalized(norm, best, cand);
            && h <= t < |cand|
            && (r.Err? <==> t == |cand| - 1)
            && (r.Ok? ==> norm(cand[h..t + 1]) == best)
            && (r.Ok? && KeepsTrailing(cand[t + 1]) ==> r.value == cand[h..t + 2])
            && (r.Ok? && !KeepsTrailing(cand[t + 1]) ==> r.value == cand[h..t + 1])
  {
    DenormalizedIsCut(norm, best, cand, h, t);
  }

  lemma DenormalizedIsCut(norm: Normalizer, best: string, cand: string, h: nat, t: nat)
    requires IsFirstSpan(norm, best, cand, h, t)
    ensures h <= t < |cand| && norm(cand[h..t + 1]) == best
    ensures Denormalized(norm, best, cand) == CutSpan(cand, h, t)
  {
    FirstSpanUnique(norm, best, cand, h, t);
    SpanOrdered(norm, best, cand, h, t);
    assert Slice(cand, h, t + 1) == cand[h..t + 1];
  }

  /**
   * `denormalize`, with the normalising function as a parameter: the nested
   * loops (`FindSpan`) look for the first span of the candidate that
   * normalises to `best`, which is then cut out.
   */
  method Denormalize(norm: Normalizer, best: string, candidate: string) returns (r: Result<string>)
    ensures r == Denormalized(norm, best, candidate)
  {
    if best == [] {
      return Err(IndexError);  // `best[0]`
    }
    var span := FindSpan(norm, best, candidate);
    match span {
      case None =>
        return Ok(best);
      case Some((h, t)) =>
        SpanOrdered(norm, best, candidate, h, t);
        if t + 1 >= |candidate| {
          return Err(IndexError);  // `candidate[t + 1]`
        }
        if KeepsTrailing(candidate[t + 1]) {
          return Ok(candidate[h..t + 2]);
        }
        return Ok(candidate[h..t + 1]);
    }
  }

  /**
   * The nested loops of `denormalize` over the positions of `best`'s first
   * and last characters: the first pair whose span normalises to `best`.
   */
  method FindSpan(norm: Normalizer, best: string, candidate: string) returns (span: Option<(nat, nat)>)
    requires best != []
    ensures span == FirstSpan(norm, best, candidate)
  {
    var head := best[0];
    var tail := best[|best| - 1];
    var headInds := Positions(candidate, head);
    var tailInds := Positions(candidate, tail);
    for a := 0 to |headInds|
      invariant forall x :: 0 <= x < a ==> NoSpanFrom(norm, best, candidate, headInds[x])
    {
      var t := TryHead(norm, best, candidate, headInds, tailInds, a);
      if t.Some? {
        return Some((headInds[a], t.value));
      }
    }
    NoHead(norm, best, candidate, headInds);
    return None;
  }

  /**
   * One turn of the outer loop, with head position `headInds[a]`: the tail
   * that closes the first matching pair, or none when no span from there
   * normalises to `best`.
   */
  method TryHead(norm: Normalizer, best: string, candidate: string, headInds: seq<nat>, tailInds: seq<nat>, a: nat)
    returns (t: Option<nat>)
    requires best != []
    requires headInds == Positions(candidate, best[0]) && tailInds == Positions(candidate, best[|best| - 1])
    requires a < |headInds|
    requires forall x :: 0 <= x < a ==> NoSpanFrom(norm, best, candidate, headInds[x])
    ensures t.Some? ==> FirstSpan(norm, best, candidate) == Some((headInds[a], t.value))
    ensures t.None? ==> NoSpanFrom(norm, best, candidate, headInds[a])
  {
    var h := headInds[a];
    var b := MatchTail(norm, best, candidate, h, tailInds);
    if b < |tailInds| {
      FoundIsFirst(norm, best, candidate, headInds, tailInds, a, b);
      FirstSpanUnique(norm, best, candidate, h, tailInds[b]);
      return Some(tailInds[b]);
    }
    NoTailFor(norm, best, candidate, tailInds, h);
    return None;
  }

  /**
   * The inner loop of `denormalize`: the first position in `tailInds` that
   * closes a span from `h` normalising to `best`, or `|tailInds|` if none does.
   */
  method MatchTail(norm: Normalizer, best: string, candidate: string, h: nat, tailInds: seq<nat>) returns (b: nat)
    requires forall k :: 0 <= k < |tailInds| ==> tailInds[k] < |candidate|
    ensures b <= |tailInds|
    ensures forall y :: 0 <= y < b ==> !SpanMatches(norm, best, candidate, h, tailInds[y])
    ensures b < |tailInds| ==> norm(Slice(candidate, h, tailInds[b] + 1)) == best
  {
    b := 0;
    while b < |tailInds|
      invariant b <= |tailInds|
      invariant forall y :: 0 <= y < b ==> !SpanMatches(norm, best, candidate, h, tailInds[y])
    {
      if norm(Slice(candidate, h, tailInds[b] + 1)) == best {
        return;
      }
      b := b + 1;
    }
  }

  /** The pair reached by the loops is the first matching pair. */
  lemma FoundIsFirst(norm: Normalizer, best: string, cand: string, headInds: seq<nat>, tailInds: seq<nat>, a: nat, b: nat)
    requires best != []
    requires headInds == Positions(cand, best[0]) && tailInds == Positions(cand, best[|best| - 1])
    requires a < |headInds| && b < |tailInds|
    requires forall x :: 0 <= x < a ==> NoSpanFrom(norm, best, cand, headInds[x])
    requires forall y :: 0 <= y < b ==> !SpanMatches(norm, best, cand, headInds[a], tailInds[y])
    requires norm(Slice(cand, headInds[a], tailInds[b] + 1)) == best
    ensures IsFirstSpan(norm, best, cand, headInds[a], tailInds[b])
  {
    var h, t := headInds[a], tailInds[b];
    forall h', t' | SpanMatches(norm, best, cand, h', t') ensures h < h' || (h == h' && t <= t') {
      NotBefore(headInds, a, h');
      if h' == h {
        NotBefore(tailInds, b, t');
      }
    }
  }

  /** In an ascending list, a member that none of the first `a` entries equals is at least entry `a`. */
  lemma NotBefore(ps: seq<nat>, a: nat, p: nat)
    requires forall i, j :: 0 <= i < j < |ps| ==> ps[i] < ps[j]
    requires a < |ps| && p in ps
    requires forall x :: 0 <= x < a ==> ps[x] != p
    ensures ps[a] <= p
  {
    var x :| 0 <= x < |ps| && ps[x] == p;
  }

  /** No span that starts at `h` normalises to `best`. */
  ghost predicate NoSpanFrom(norm: Normalizer, best: string, cand: string, h: nat)
  {
    forall t' :: !SpanMatches(norm, best, cand, h, t')
  }

  /** After the inner loop: no tail matches with head `h`. */
  lemma NoTailFor(norm: Normalizer, best: string, cand: string, tailInds: seq<nat>, h: nat)
    requires best != [] && tailInds == Positions(cand, best[|best| - 1])
    requires forall y :: 0 <= y < |tailInds| ==> !SpanMatches(norm, best, cand, h, tailInds[y])
    ensures NoSpanFrom(norm, best, cand, h)
  {
    forall t' | SpanMatches(norm, best, cand, h, t') ensures t' in tailInds {
    }
  }

  /** After the outer loop: no pair matches at all. */
  lemma NoHead(norm: Normalizer, best: string, cand: string, headInds: seq<nat>)
    requires best != [] && headInds == Positions(cand, best[0])
    requires forall x :: 0 <= x < |headInds| ==> NoSpanFrom(norm, best, cand, headInds[x])
    ensures forall h', t' :: !SpanMatches(norm, best, cand, h', t')
  {
    forall h': nat ensures NoSpanFrom(norm, best, cand, h') {
      if h' < |cand| && cand[h'] == best[0] {
        var x :| 0 <= x < |headInds| && headInds[x] == h';
      }
    }
  }

  // ---------------------------------------------------------------------------
  // findBestMatch (lines 162-182)
  // ---------------------------------------------------------------------------

  /**
   * What `findBestMatch` returns for the transcription `t` once its
   * candidates `cs` are known, or the exception it raises.
   */
  function BestMatch(env: Env, t: string, cs: seq<string>): (r: Result<string>)
    ensures r.Err? ==> r.error == IndexError
    ensures cs == [] ==> r == Ok("")
  {
    var normT := NormalizeSentence(env.nfkc, t);
    if |cs| == 0 then Ok("")
    else if |cs| == 1 && normT == NormalizeSentence(env.nfkc, cs[0]) then Ok(cs[0])
    else WindowMatch(env, t, cs)
  }

  /** The last branch of `findBestMatch`: the best window, denormalised when one was found. */
  function WindowMatch(env: Env, t: string, cs: seq<string>): (r: Result<string>)
    ensures r.Err? ==> r.error == IndexError
    ensures SearchWindows(env, t, cs).1 == -1 ==> r == Ok("")
  {
    var (best, source) := SearchWindows(env, t, cs);
    if source == -1 then Ok(best)
    else Denormalized(NormalizerOf(env.nfkc), best, cs[source])
  }

  /** `findBestMatch`, with the sentences of the source text as a parameter. */
  method FindBestMatch(env: Env, t: string, sentences: seq<string>) returns (r: Result<string>)
    ensures r == BestMatch(env, t, Candidates(env, t, sentences))
  {
    var cs := FindCandidates(env, t, sentences);
    var normT := NormalizeSentence(env.nfkc, t);
    var normCs := NormalizeAll(env.nfkc, cs);
    var best := "";
    var source := -1;
    if |normCs| == 0 {
      best := "";
    } else if |normCs| == 1 && normT == normCs[0] {
      best := cs[0];  // `cs.pop()`
    } else {
      var found := SearchWindows(env, t, cs);
      best, source := found.0, found.1;
    }
    if source != -1 {
      r := Denormalize(NormalizerOf(env.nfkc), best, cs[source]);
    } else {
      r := Ok(best);
    }
  }

  /** The result is a piece of one of the candidates, either as written or normalised. */
  ghost predicate PieceOfCandidate(env: Env, cs: seq<string>, v: string)
  {
    exists j, i :: 0 <= j < |cs| && (OccursAt(cs[j], v, i) || OccursAt(NormalizeSentence(env.nfkc, cs[j]), v, i))
  }

  /**
   * A non-empty best match is a piece of a candidate: the candidate itself for
   * a perfect match, a stretch of it recovered by `denormalize`, or the window
   * itself when no stretch normalises to it.
   */
  lemma BestMatchFromCandidate(env: Env, t: string, cs: seq<string>)
    ensures var r := BestMatch(env, t, cs);
            r.Ok? && r.value != [] ==> PieceOfCandidate(env, cs, r.value)
  {
    var r := BestMatch(env, t, cs);
    if r.Ok? && r.value != [] {
      if |cs| == 1 && NormalizeSentence(env.nfkc, t) == NormalizeSentence(env.nfkc, cs[0]) {
        assert OccursAt(cs[0], r.value, 0);
      } else {
        WindowMatchPiece(env, t, cs);
      }
    }
  }

  /** The denormalised window is a piece of a candidate. */
  lemma WindowMatchPiece(env: Env, t: string, cs: seq<string>)
    ensures var r := WindowMatch(env, t, cs);
            r.Ok? && r.value != [] ==> PieceOfCandidate(env, cs, r.value)
  {
    var found := SearchWindows(env, t, cs);
    if found.1 != -1 {
      SearchWindowsIsWindow(env, t, cs);
      var source := found.1 as nat;
      var r := Denormalized(NormalizerOf(env.nfkc), found.0, cs[source]);
      DenormalizedPiece(NormalizerOf(env.nfkc), found.0, cs[source]);
      if r.Ok? && r.value != [] {
        if r.value == found.0 {
          assert WindowOf(env, t, cs, (found.0, source));
          var i :| OccursAt(NormalizeSentence(env.nfkc, cs[source]), found.0, i);
          assert PieceOfCandidate(env, cs, r.value);
        } else {
          var i :| OccursAt(cs[source], r.value, i);
          assert PieceOfCandidate(env, cs, r.value);
        }
      }
    }
  }

  /** `denormalize` returns `best` itself or a stretch of the candidate. */
  lemma DenormalizedPiece(norm: Normalizer, best: string, cand: string)
    ensures var r := Denormalized(norm, best, cand);
            r.Ok? ==> r.value == best || exists i :: OccursAt(cand, r.value, i)
  {
    var r := Denormalized(norm, best, cand);
    if best != [] && r.Ok? {
      match FirstSpan(norm, best, cand)
      case None =>
      case Some((h, t)) =>
        DenormalizedSpan(norm, best, cand, h, t);
        assert OccursAt(cand, r.value, h);
    }
  }

  /** A transcription whose normal form has at most one character matches nothing unless it is the only candidate's normal form. */
  lemma BestMatchShort(env: Env, t: string, cs: seq<string>)
    requires |NormalizeSentence(env.nfkc, t)| <= 1
    ensures BestMatch(env, t, cs) ==
              if |cs| == 1 && NormalizeSentence(env.nfkc, t) == NormalizeSentence(env.nfkc, cs[0]) then Ok(cs[0]) else Ok("")
  {
    SearchWindowsShort(env, t, cs);
  }
}
