/**
 * The sentence-level matcher: the source text is cut into sentences, and a
 * transcription is matched to the sentence whose normal form and whose
 * normalised reading both rank among fuzzywuzzy's five best choices,
 * breaking ties between several such sentences by a weighted score.
 */
module NewMatch {
  import opened Wrappers
  import opened Seqs
  import opened Text
  import opened Collaborators
  import opened Normalize
  import FuzzyMatch

  // ---------------------------------------------------------------------
  // splitStrippedText
  // ---------------------------------------------------------------------

  /**
   * A character of the class `[ã€‚]`. The class was written as the UTF-8 bytes
   * of the ideographic full stop (E3 80 82) read back one byte per
   * Windows-1252 character, so it holds the three characters U+00E3, U+20AC
   * and U+201A and not U+3002 itself.
   */
  predicate IsSentenceMark(c: char)
    ensures IsSentenceMark(c) ==> c != '\n'
  {
    c == '\U{00E3}' || c == '\U{20AC}' || c == '\U{201A}'
  }

  /** The length of the first line of `u`: the position of its first `\n`, or `|u|`. */
  function LineLen(u: string): (r: nat)
    ensures r <= |u|
    ensures r < |u| ==> u[r] == '\n'
    ensures forall k :: 0 <= k < r ==> u[k] != '\n'
  {
    if u == [] || u[0] == '\n' then 0 else 1 + LineLen(u[1..])
  }

  /** The last position before `n` that holds a sentence mark. */
  function LastMark(u: string, n: nat): (r: Option<nat>)
    requires n <= |u|
    ensures r.Some? ==> r.value < n && IsSentenceMark(u[r.value])
    ensures r.Some? ==> forall k :: r.value < k < n ==> !IsSentenceMark(u[k])
    ensures r.None? ==> forall k :: 0 <= k < n ==> !IsSentenceMark(u[k])
  {
    if n == 0 then None
    else if IsSentenceMark(u[n - 1]) then Some(n - 1)
    else LastMark(u, n - 1)
  }

  /** `u[..m]` matches `.*[ã€‚]`: no line break, then a sentence mark. */
  predicate RegexMatch(u: string, m: nat)
    ensures RegexMatch(u, m) ==> m <= |u| && '\n' !in u[..m]
  {
    0 < m <= |u| && IsSentenceMark(u[m - 1]) && forall k :: 0 <= k < m - 1 ==> u[k] != '\n'
  }

  /**
   * The match of `.*[ã€‚]` at the start of `u`, as its length: the greedy
   * `.*` backtracks to the last sentence mark of the first line, so the match
   * is the longest one there is.
   */
  function MatchLen(u: string): (r: Option<nat>)
    ensures r.Some? ==> RegexMatch(u, r.value)
    ensures r.Some? ==> forall m: nat :: RegexMatch(u, m) ==> m <= r.value
    ensures r.None? ==> forall m: nat :: !RegexMatch(u, m)
  {
    var n := LineLen(u);
    assert forall m: nat :: RegexMatch(u, m) ==> m - 1 < n by {
      forall m: nat | RegexMatch(u, m) ensures m - 1 < n {
      }
    }
    match LastMark(u, n)
    case Some(k) => Some(k + 1)
    case None => None
  }

  /** `sentenceFinder.findall(u)`: matches found left to right, resuming after each one. */
  function FindAll(u: string): (r: seq<string>)
    ensures forall k :: 0 <= k < |r| ==> RegexMatch(r[k], |r[k]|)
    decreases |u|
  {
    if u == [] then []
    else match MatchLen(u)
      case Some(m) =>
        assert RegexMatch(u[..m], m);
        [u[..m]] + FindAll(u[m..])
      case None => FindAll(u[1..])
  }

  /** What one line contributes: its prefix up to and including its last sentence mark, if any. */
  function LinePiece(line: string): (r: seq<string>)
    ensures |r| <= 1
    ensures r == [] <==> forall k :: 0 <= k < |line| ==> !IsSentenceMark(line[k])
  {
    match LastMark(line, |line|)
    case Some(k) => [line[..k + 1]]
    case None => []
  }

  function LinePieces(lines: seq<string>): (r: seq<string>)
    ensures |r| <= |lines|
  {
    if lines == [] then [] else LinePiece(lines[0]) + LinePieces(lines[1..])
  }

  lemma {:induction false} LineLenSuffix(u: string, p: nat)
    requires p <= LineLen(u)
    ensures LineLen(u[p..]) == LineLen(u) - p
  {
    if p > 0 {
      assert u[p..] == u[1..][p - 1..];
      LineLenSuffix(u[1..], p - 1);
    }
  }

  lemma {:induction false} LastMarkSame(a: string, b: string, n: nat)
    requires n <= |a| && n <= |b|
    requires forall k :: 0 <= k < n ==> a[k] == b[k]
    ensures LastMark(a, n) == LastMark(b, n)
  {
    if n > 0 {
      LastMarkSame(a, b, n - 1);
    }
  }

  lemma PieceOfLine(line: string, k: nat)
    requires LastMark(line, |line|) == Some(k)
    ensures LinePiece(line) == [line[..k + 1]]
  {
  }

  /** Scanning a string finds the piece of its first line, then goes on after that line. */
  lemma {:induction false} ScanLine(v: string)
    ensures FindAll(v) == LinePiece(v[..LineLen(v)]) + FindAll(v[LineLen(v)..])
    decreases |v|
  {
    var n := LineLen(v);
    if n == 0 {
      assert v[..n] == [];
      assert v[n..] == v;
    } else {
      match LastMark(v, n)
      case Some(k) =>
        ScanLine(v[k + 1..]);
        ScanAtMark(v, k);
      case None =>
        ScanLine(v[1..]);
        ScanNoMark(v);
    }
  }

  /** A line with a last mark at `k`: the match ends there, and the rest of the line holds no match. */
  lemma ScanAtMark(v: string, k: nat)
    requires 0 < LineLen(v) && LastMark(v, LineLen(v)) == Some(k)
    requires var w := v[k + 1..]; FindAll(w) == LinePiece(w[..LineLen(w)]) + FindAll(w[LineLen(w)..])
    ensures FindAll(v) == LinePiece(v[..LineLen(v)]) + FindAll(v[LineLen(v)..])
  {
    var n := LineLen(v);
    var m := k + 1;
    var w := v[m..];
    LinePieceAtMark(v, k);
    FindAllAtMatch(v, m);
    LineRest(v, m);
    var tail := FindAll(v[n..]);
    assert FindAll(w) == [] + tail;
    assert [] + tail == tail;
  }

  lemma FindAllAtMatch(v: string, m: nat)
    requires v != [] && MatchLen(v) == Some(m)
    ensures m <= |v| && FindAll(v) == [v[..m]] + FindAll(v[m..])
  {
  }

  lemma LinePieceAtMark(v: string, k: nat)
    requires 0 < LineLen(v) && LastMark(v, LineLen(v)) == Some(k)
    ensures MatchLen(v) == Some(k + 1)
    ensures LinePiece(v[..LineLen(v)]) == [v[..k + 1]]
  {
    var n := LineLen(v);
    LastMarkSame(v, v[..n], n);
    PieceOfLine(v[..n], k);
    assert v[..n][..k + 1] == v[..k + 1];
  }

  /** A line without a mark: no match starts at its first character. */
  lemma ScanNoMark(v: string)
    requires 0 < LineLen(v) && LastMark(v, LineLen(v)) == None
    requires var w := v[1..]; FindAll(w) == LinePiece(w[..LineLen(w)]) + FindAll(w[LineLen(w)..])
    ensures FindAll(v) == LinePiece(v[..LineLen(v)]) + FindAll(v[LineLen(v)..])
  {
    var n := LineLen(v);
    assert MatchLen(v) == None;
    LineRest(v, 1);
    LastMarkSame(v, v[..n], n);
    assert LinePiece(v[..n]) == [];
  }

  /** After position `m` of its first line, when no mark follows there, the rest of the line contributes nothing. */
  lemma LineRest(v: string, m: nat)
    requires 0 < m <= LineLen(v)
    requires forall k :: m <= k < LineLen(v) ==> !IsSentenceMark(v[k])
    ensures var w := v[m..]; LinePiece(w[..LineLen(w)]) == [] && w[LineLen(w)..] == v[LineLen(v)..]
  {
    var w := v[m..];
    LineLenSuffix(v, m);
    var rest := w[..LineLen(w)];
    forall j | 0 <= j < |rest| ensures !IsSentenceMark(rest[j]) {
      assert rest[j] == v[m + j];
    }
  }

  /** A string without a line break is one line. */
  lemma SplitOneLine(u: string)
    requires LineLen(u) == |u|
    ensures Split(u, "\n") == [u]
  {
  }

  /** A string with a line break splits at its first one. */
  lemma SplitFirstLine(u: string)
    requires LineLen(u) < |u|
    ensures Split(u, "\n") == [u[..LineLen(u)]] + Split(u[LineLen(u) + 1..], "\n")
  {
    FirstNewline(u);
    SplitAt(u, "\n", LineLen(u));
  }

  /** The first line break `find` meets is the one that ends the first line. */
  lemma FirstNewline(u: string)
    requires LineLen(u) < |u|
    ensures Find(u, "\n") == Some(LineLen(u))
  {
    FindFirstChar(u, '\n', LineLen(u));
  }

  /** `findall` yields, for each line that holds a sentence mark, the line up to its last mark. */
  lemma {:induction false} FindAllByLines(u: string)
    ensures FindAll(u) == LinePieces(Split(u, "\n"))
    decreases |u|
  {
    var n := LineLen(u);
    ScanLine(u);
    if n == |u| {
      SplitOneLine(u);
      assert u[..n] == u;
      assert u[n..] == [];
    } else {
      SplitFirstLine(u);
      var w := u[n..];
      assert LineLen(w) == 0;
      assert MatchLen(w) == None;
      assert w[1..] == u[n + 1..];
      FindAllByLines(u[n + 1..]);
    }
  }

  /**
   * `splitStrippedText`: the sentences of the stripped source text, `None`
   * standing for a path that is not a file.
   */
  function SplitStrippedText(text: Option<string>): (r: seq<string>)
    ensures text.None? ==> r == []
    ensures text.Some? ==> r == LinePieces(Split(text.value, "\n"))
    ensures forall k :: 0 <= k < |r| ==> 0 < |r[k]| && IsSentenceMark(r[k][|r[k]| - 1]) && '\n' !in r[k]
  {
    match text
    case None => []
    case Some(s) =>
      FindAllByLines(s);
      var r := FindAll(s);
      forall k | 0 <= k < |r| ensures '\n' !in r[k] {
        MatchHasNoBreak(r[k]);
      }
      r
  }

  /** A whole match of `.*[ã€‚]` holds no line break. */
  lemma MatchHasNoBreak(x: string)
    requires RegexMatch(x, |x|)
    ensures '\n' !in x
  {
    forall j | 0 <= j < |x| ensures x[j] != '\n' {
      if j == |x| - 1 {
        assert IsSentenceMark(x[j]);
      }
    }
  }

  // ---------------------------------------------------------------------
  // getSurfIndexes and getYomiIndexes
  // ---------------------------------------------------------------------

  /**
   * The first position of `keys` holding `x` that is not yet in `used`: what
   * the inner loop of `getSurfIndexes` finds before it breaks.
   */
  function FirstUnused(keys: seq<string>, x: string, used: seq<nat>): (r: Option<nat>)
    ensures r.Some? ==> r.value < |keys| && keys[r.value] == x && r.value !in used
    ensures r.Some? ==> forall k :: 0 <= k < r.value ==> keys[k] != x || k in used
    ensures r.None? ==> forall k :: 0 <= k < |keys| ==> keys[k] != x || k in used
  {
    FirstUnusedFrom(keys, x, used, 0)
  }

  function FirstUnusedFrom(keys: seq<string>, x: string, used: seq<nat>, i: nat): (r: Option<nat>)
    requires i <= |keys|
    ensures r.Some? ==> i <= r.value < |keys| && keys[r.value] == x && r.value !in used
    ensures r.Some? ==> forall k :: i <= k < r.value ==> keys[k] != x || k in used
    ensures r.None? ==> forall k :: i <= k < |keys| ==> keys[k] != x || k in used
    decreases |keys| - i
  {
    if i == |keys| then None
    else if keys[i] == x && i !in used then Some(i)
    else FirstUnusedFrom(keys, x, used, i + 1)
  }

  /** The positions regained for the choices of `bests`, taken one after another. */
  function Picks(keys: seq<string>, bests: seq<(string, Score)>): (r: seq<nat>)
    ensures |r| <= |bests|
    ensures forall k :: 0 <= k < |r| ==> r[k] < |keys|
    ensures forall a, b :: 0 <= a < b < |r| ==> r[a] != r[b]
  {
    if bests == [] then []
    else
      var used := Picks(keys, bests[..|bests| - 1]);
      match FirstUnused(keys, bests[|bests| - 1].0, used)
      case Some(i) => used + [i]
      case None => used
  }

  /**
   * `getSurfIndexes(cands, bestSurfCands)` and `getYomiIndexes`, given the
   * normal forms `keys` of the candidates (or of their readings): nothing when
   * there are no candidates but there are choices; otherwise one position per
   * choice, and `RuntimeError` when some choice found no position.
   */
  function RegainedIndexes(keys: seq<string>, bests: seq<(string, Score)>): (r: Result<seq<nat>>)
    ensures r.Err? ==> r.error == RuntimeError
    ensures r.Ok? ==> forall k :: 0 <= k < |r.value| ==> r.value[k] < |keys|
  {
    if keys == [] && bests != [] then Ok([])
    else
      var picks := Picks(keys, bests);
      if |picks| == |bests| then Ok(picks) else Err(RuntimeError)
  }

  /** The loops of `getSurfIndexes` over the normal forms `keys` of the candidates. */
  method RegainIndexes(keys: seq<string>, bests: seq<(string, Score)>) returns (r: Result<seq<nat>>)
    ensures r == RegainedIndexes(keys, bests)
  {
    if |keys| == 0 && |bests| > 0 {
      return Ok([]);
    }
    var indexes: seq<nat> := [];
    for j := 0 to |bests|
      invariant indexes == Picks(keys, bests[..j])
    {
      var x := bests[j].0;
      var i := 0;
      while i < |keys|
        invariant 0 <= i <= |keys|
        invariant forall k :: 0 <= k < i ==> keys[k] != x || k in indexes
      {
        if keys[i] == x && i !in indexes {
          break;
        }
        i := i + 1;
      }
      assert bests[..j + 1][..j] == bests[..j];
      if i < |keys| {
        assert FirstUnused(keys, x, indexes) == Some(i);
        indexes := indexes + [i];
      } else {
        assert FirstUnused(keys, x, indexes) == None;
      }
    }
    assert bests[..|bests|] == bests;
    if |indexes| == |bests| {
      r := Ok(indexes);
    } else {
      r := Err(RuntimeError);
    }
  }

  /** When every choice found a position, each is the first one not taken by an earlier choice. */
  lemma {:induction false} PicksFirstUnused(keys: seq<string>, bests: seq<(string, Score)>)
    requires |Picks(keys, bests)| == |bests|
    ensures forall k :: 0 <= k < |bests| ==>
      FirstUnused(keys, bests[k].0, Picks(keys, bests)[..k]) == Some(Picks(keys, bests)[k])
  {
    if bests != [] {
      var n := |bests|;
      var pre := bests[..n - 1];
      var used := Picks(keys, pre);
      var all := Picks(keys, bests);
      assert all == used + [all[n - 1]];
      PicksFirstUnused(keys, pre);
      forall k | 0 <= k < n
        ensures FirstUnused(keys, bests[k].0, all[..k]) == Some(all[k])
      {
        if k < n - 1 {
          assert bests[k] == pre[k];
          assert all[..k] == used[..k];
        } else {
          assert all[..k] == used;
        }
      }
    }
  }

  /**
   * What `getSurfIndexes` returns when it does not raise and there are
   * candidates: one position per choice, in the order of the choices, each
   * the first position whose normal form is the choice and that no earlier
   * choice took; so the positions are distinct.
   */
  lemma RegainedPositions(keys: seq<string>, bests: seq<(string, Score)>)
    requires RegainedIndexes(keys, bests).Ok?
    requires keys != [] || bests == []
    ensures var idx := RegainedIndexes(keys, bests).value;
      |idx| == |bests| &&
      (forall k :: 0 <= k < |idx| ==> idx[k] < |keys| && keys[idx[k]] == bests[k].0) &&
      (forall a, b :: 0 <= a < b < |idx| ==> idx[a] != idx[b]) &&
      (forall k, i :: 0 <= k < |idx| && 0 <= i < idx[k] && keys[i] == bests[k].0 ==> i in idx[..k])
  {
    var idx := RegainedIndexes(keys, bests).value;
    PicksFirstUnused(keys, bests);
    RegainedHold(keys, bests, idx);
    RegainedFirst(keys, bests, idx);
    RegainedDistinct(keys, bests, idx);
  }

  /** Each regained position holds its choice. */
  lemma RegainedHold(keys: seq<string>, bests: seq<(string, Score)>, idx: seq<nat>)
    requires |idx| == |bests|
    requires forall k :: 0 <= k < |idx| ==> FirstUnused(keys, bests[k].0, idx[..k]) == Some(idx[k])
    ensures forall k :: 0 <= k < |idx| ==> idx[k] < |keys| && keys[idx[k]] == bests[k].0
  {
    forall k | 0 <= k < |idx| ensures idx[k] < |keys| && keys[idx[k]] == bests[k].0 {
      assert FirstUnused(keys, bests[k].0, idx[..k]) == Some(idx[k]);
    }
  }

  /** Each earlier position holding the same choice was taken by an earlier choice. */
  lemma RegainedFirst(keys: seq<string>, bests: seq<(string, Score)>, idx: seq<nat>)
    requires |idx| == |bests|
    requires forall k :: 0 <= k < |idx| ==> FirstUnused(keys, bests[k].0, idx[..k]) == Some(idx[k])
    requires forall k :: 0 <= k < |idx| ==> idx[k] < |keys|
    ensures forall k, i :: 0 <= k < |idx| && 0 <= i < idx[k] && keys[i] == bests[k].0 ==> i in idx[..k]
  {
    forall k, i | 0 <= k < |idx| && 0 <= i < idx[k] && keys[i] == bests[k].0 ensures i in idx[..k] {
      assert FirstUnused(keys, bests[k].0, idx[..k]) == Some(idx[k]);
    }
  }

  /** No position is regained twice. */
  lemma RegainedDistinct(keys: seq<string>, bests: seq<(string, Score)>, idx: seq<nat>)
    requires |idx| == |bests|
    requires forall k :: 0 <= k < |idx| ==> FirstUnused(keys, bests[k].0, idx[..k]) == Some(idx[k])
    ensures forall a, b :: 0 <= a < b < |idx| ==> idx[a] != idx[b]
  {
    forall a, b | 0 <= a < b < |idx| ensures idx[a] != idx[b] {
      assert FirstUnused(keys, bests[b].0, idx[..b]) == Some(idx[b]);
      assert idx[a] == idx[..b][a];
    }
  }

  /** With no candidates nothing is regained, whatever the choices, and nothing is raised. */
  lemma RegainedNoCandidates(bests: seq<(string, Score)>)
    ensures RegainedIndexes([], bests) == Ok([])
  {
  }

  /** The keys at the positions from `i` on that `used` does not hold. */
  function UnusedFrom(keys: seq<string>, used: seq<nat>, i: nat): multiset<string>
    decreases |keys| - i
  {
    if i >= |keys| then multiset{}
    else (if i in used then multiset{} else multiset{keys[i]}) + UnusedFrom(keys, used, i + 1)
  }

  lemma {:induction false} UnusedNone(keys: seq<string>, i: nat)
    requires i <= |keys|
    ensures UnusedFrom(keys, [], i) == multiset(keys[i..])
    decreases |keys| - i
  {
    if i < |keys| {
      UnusedNone(keys, i + 1);
      assert keys[i..] == [keys[i]] + keys[i + 1..];
    }
  }

  lemma {:induction false} UnusedHas(keys: seq<string>, used: seq<nat>, i: nat, x: string)
    requires x in UnusedFrom(keys, used, i)
    ensures exists k :: i <= k < |keys| && keys[k] == x && k !in used
    decreases |keys| - i
  {
    if !(i in used) && keys[i] == x {
    } else {
      UnusedHas(keys, used, i + 1, x);
    }
  }

  lemma {:induction false} UnusedContains(keys: seq<string>, used: seq<nat>, i: nat, p: nat)
    requires i <= p < |keys| && p !in used
    ensures keys[p] in UnusedFrom(keys, used, i)
    decreases |keys| - i
  {
    if i < p {
      UnusedContains(keys, used, i + 1, p);
    }
  }

  lemma {:induction false} UnusedAfter(keys: seq<string>, used: seq<nat>, i: nat, p: nat)
    requires p < i
    ensures UnusedFrom(keys, used + [p], i) == UnusedFrom(keys, used, i)
    decreases |keys| - i
  {
    if i < |keys| {
      UnusedAfter(keys, used, i + 1, p);
      assert i in used + [p] <==> i in used;
    }
  }

  /** Taking one more position removes its key from the unused ones. */
  lemma {:induction false} UnusedTake(keys: seq<string>, used: seq<nat>, i: nat, p: nat)
    requires i <= p < |keys| && p !in used
    ensures UnusedFrom(keys, used, i) == UnusedFrom(keys, used + [p], i) + multiset{keys[p]}
    decreases |keys| - i
  {
    if i == p {
      UnusedTakeHere(keys, used, p);
    } else {
      UnusedTake(keys, used, i + 1, p);
      UnusedTakeLater(keys, used, i, p);
    }
  }

  lemma UnusedTakeHere(keys: seq<string>, used: seq<nat>, p: nat)
    requires p < |keys| && p !in used
    ensures UnusedFrom(keys, used, p) == UnusedFrom(keys, used + [p], p) + multiset{keys[p]}
  {
    UnusedAfter(keys, used, p + 1, p);
    assert p in used + [p];
  }

  lemma UnusedTakeLater(keys: seq<string>, used: seq<nat>, i: nat, p: nat)
    requires i < p < |keys| && p !in used
    requires UnusedFrom(keys, used, i + 1) == UnusedFrom(keys, used + [p], i + 1) + multiset{keys[p]}
    ensures UnusedFrom(keys, used, i) == UnusedFrom(keys, used + [p], i) + multiset{keys[p]}
  {
    assert i in used + [p] <==> i in used;
  }

  /**
   * Under the contract of `extractBests`, the first `n` choices all find a
   * position, and the keys left unused are the keys less those choices.
   */
  lemma {:induction false} PicksAll(keys: seq<string>, bests: seq<(string, Score)>)
    requires multiset(Choices(bests)) <= multiset(keys)
    ensures |Picks(keys, bests)| == |bests|
    ensures UnusedFrom(keys, Picks(keys, bests), 0) == multiset(keys) - multiset(Choices(bests))
  {
    if bests == [] {
      UnusedNone(keys, 0);
      assert keys[0..] == keys;
    } else {
      var pre := bests[..|bests| - 1];
      var x := bests[|bests| - 1].0;
      ChoicesLast(bests);
      var before := multiset(Choices(pre));
      assert multiset(Choices(bests)) == before + multiset{x};
      PicksAll(keys, pre);
      var used := Picks(keys, pre);
      MultisetRemoveNext(multiset(keys), before, x);
      var f := PicksStep(keys, used, x);
      assert Picks(keys, bests) == used + [f];
      MultisetRemoveNextFrom(multiset(keys), before, x, UnusedFrom(keys, used + [f], 0));
    }
  }

  lemma ChoicesLast(bests: seq<(string, Score)>)
    requires bests != []
    ensures Choices(bests) == Choices(bests[..|bests| - 1]) + [bests[|bests| - 1].0]
  {
    var pre := bests[..|bests| - 1];
    assert forall k :: 0 <= k < |pre| ==> pre[k] == bests[k];
  }

  /** One more choice, whose key is among the unused ones, finds a position and uses it up. */
  lemma PicksStep(keys: seq<string>, used: seq<nat>, x: string) returns (f: nat)
    requires x in UnusedFrom(keys, used, 0)
    ensures FirstUnused(keys, x, used) == Some(f)
    ensures UnusedFrom(keys, used, 0) == UnusedFrom(keys, used + [f], 0) + multiset{x}
  {
    UnusedHas(keys, used, 0, x);
    var p :| 0 <= p < |keys| && keys[p] == x && p !in used;
    var r := FirstUnused(keys, x, used);
    assert r.Some?;
    f := r.value;
    UnusedTake(keys, used, 0, f);
  }

  lemma MultisetRemoveNext<T>(m: multiset<T>, before: multiset<T>, x: T)
    requires before + multiset{x} <= m
    ensures x in m - before
  {
    assert (m - before)[x] == m[x] - before[x];
  }

  lemma MultisetRemoveNextFrom<T>(m: multiset<T>, before: multiset<T>, x: T, u: multiset<T>)
    requires before + multiset{x} <= m
    requires m - before == u + multiset{x}
    ensures u == m - (before + multiset{x})
  {
    forall y ensures u[y] == (m - (before + multiset{x}))[y] {
      assert (m - before)[y] == m[y] - before[y];
    }
  }

  /**
   * Under the contract of `extractBests`, `getSurfIndexes` never raises: every
   * choice names a candidate, so every choice regains a position.
   */
  lemma RegainedSucceeds(keys: seq<string>, bests: seq<(string, Score)>)
    requires multiset(Choices(bests)) <= multiset(keys)
    ensures RegainedIndexes(keys, bests).Ok?
    ensures |RegainedIndexes(keys, bests).value| == |bests|
  {
    PicksAll(keys, bests);
    if keys == [] {
      assert |Choices(bests)| == |multiset(Choices(bests))|;
    }
  }

  /** `map(yomiTagger.parse, cands)`: MeCab's reading of each candidate. */
  function ReadAll(env: Env, cands: seq<string>): (r: seq<string>)
    ensures |r| == |cands|
    ensures forall k :: 0 <= k < |cands| ==> r[k] == env.reading(cands[k])
  {
    seq(|cands|, k requires 0 <= k < |cands| => env.reading(cands[k]))
  }

  /** `getSurfIndexes(cands, bestSurfCands)`. */
  method GetSurfIndexes(nfkc: Nfkc, cands: seq<string>, bestSurfCands: seq<(string, Score)>) returns (r: Result<seq<nat>>)
    ensures r == RegainedIndexes(FuzzyMatch.NormalizeAll(nfkc, cands), bestSurfCands)
  {
    var keys := FuzzyMatch.NormalizeAll(nfkc, cands);
    r := RegainIndexes(keys, bestSurfCands);
  }

  /** `getYomiIndexes(cands, bestYomiCands)`. */
  method GetYomiIndexes(env: Env, cands: seq<string>, bestYomiCands: seq<(string, Score)>) returns (r: Result<seq<nat>>)
    ensures r == RegainedIndexes(FuzzyMatch.NormalizeAll(env.nfkc, ReadAll(env, cands)), bestYomiCands)
  {
    var keys := FuzzyMatch.NormalizeAll(env.nfkc, ReadAll(env, cands));
    r := RegainIndexes(keys, bestYomiCands);
  }

  // ---------------------------------------------------------------------
  // judgePairs
  // ---------------------------------------------------------------------

  /** A `(position, choice, score)` triple built from a regained position and an `extractBests` pair. */
  datatype Triple = Triple(index: nat, choice: string, score: Score)

  /** The positions of a list of triples. */
  function Indexes(ts: seq<Triple>): (r: seq<nat>)
    ensures |r| == |ts|
    ensures forall k :: 0 <= k < |ts| ==> r[k] == ts[k].index
  {
    seq(|ts|, k requires 0 <= k < |ts| => ts[k].index)
  }

  predicate SortedByIndex(ts: seq<Triple>)
  {
    forall a, b :: 0 <= a < b < |ts| ==> ts[a].index <= ts[b].index
  }

  /** A rearrangement of `tail` and `t` keeps a lower bound of their positions. */
  lemma BoundAfterInsert(lo: nat, t: Triple, tail: seq<Triple>, rest: seq<Triple>)
    requires multiset(rest) == multiset(tail) + multiset{t}
    requires lo <= t.index
    requires forall k :: 0 <= k < |tail| ==> lo <= tail[k].index
    ensures forall k :: 0 <= k < |rest| ==> lo <= rest[k].index
  {
    forall k | 0 <= k < |rest| ensures lo <= rest[k].index {
      assert rest[k] in multiset(rest);
      if rest[k] != t {
        assert rest[k] in multiset(tail);
        var j :| 0 <= j < |tail| && tail[j] == rest[k];
      }
    }
  }

  /** Puts `t` into a sorted list after every triple whose position is not larger. */
  function Insert(t: Triple, ts: seq<Triple>): (r: seq<Triple>)
    requires SortedByIndex(ts)
    ensures SortedByIndex(r)
    ensures multiset(r) == multiset(ts) + multiset{t}
  {
    if ts == [] then [t]
    else if t.index < ts[0].index then
      SortedCons(t, ts);
      [t] + ts
    else
      SortedTail(ts);
      var rest := Insert(t, ts[1..]);
      assert ts == [ts[0]] + ts[1..];
      BoundAfterInsert(ts[0].index, t, ts[1..], rest);
      SortedCons(ts[0], rest);
      [ts[0]] + rest
  }

  lemma SortedTail(ts: seq<Triple>)
    requires SortedByIndex(ts) && ts != []
    ensures SortedByIndex(ts[1..])
  {
    var tl := ts[1..];
    forall a, b | 0 <= a < b < |tl| ensures tl[a].index <= tl[b].index {
      assert tl[a] == ts[a + 1] && tl[b] == ts[b + 1];
    }
  }

  /** A triple no later than the first of a sorted list goes in front of it. */
  lemma SortedCons(x: Triple, rest: seq<Triple>)
    requires SortedByIndex(rest)
    requires rest == [] || x.index <= rest[0].index
    ensures SortedByIndex([x] + rest)
  {
    var r := [x] + rest;
    forall a, b | 0 <= a < b < |r| ensures r[a].index <= r[b].index {
      assert r[b] == rest[b - 1];
      if a > 0 {
        assert r[a] == rest[a - 1];
      } else if rest != [] {
        assert rest[0].index <= rest[b - 1].index || b == 1;
      }
    }
  }

  /** `sorted(ts, key=lambda s: s[0])`: sorted by position, equal positions kept in their order. */
  function SortByIndex(ts: seq<Triple>): (r: seq<Triple>)
    ensures SortedByIndex(r)
    ensures multiset(r) == multiset(ts)
  {
    if ts == [] then []
    else
      var n := |ts|;
      assert ts == ts[..n - 1] + [ts[n - 1]];
      Insert(ts[n - 1], SortByIndex(ts[..n - 1]))
  }

  function Abs(x: real): (r: real)
    ensures r >= 0.0 && (r == x || r == -x)
  {
    if x < 0.0 then -x else x
  }

  /** `a / b` lies in [0, 1] when `0 <= a <= b`. */
  lemma RatioBounds(a: int, b: int)
    requires b != 0 && 0 <= a <= b
    ensures 0.0 <= a as real / b as real <= 1.0
  {
    var x := a as real / b as real;
    assert x * b as real == a as real;
  }

  /**
   * The weighted score of a (surface, reading) pair: the surface score, three
   * quarters of the reading score, and up to 5 for how close the relative
   * positions of transcription and candidate are, out of 180. When both
   * relative positions lie in [0, 1] the score is a fraction in [0, 1].
   */
  function PairScore(s: Triple, y: Triple, tInd: int, numTrans: int, numCands: int): (r: real)
    requires numTrans != 0 && numCands != 0
    ensures 0 <= tInd <= numTrans && s.index <= numCands ==> 0.0 <= r <= 1.0
  {
    var p := s.score as real;
    var q := 0.75 * y.score as real;
    var tRat := tInd as real / numTrans as real;
    var cRat := s.index as real / numCands as real;
    var closeness := 5.0 * (1.0 - Abs(tRat - cRat));
    RelativePositions(tInd, numTrans, s.index, numCands);
    (p + q + closeness) / 180.0
  }

  /** Both relative positions lie in [0, 1] when the positions lie within their counts. */
  lemma RelativePositions(tInd: int, numTrans: int, index: nat, numCands: int)
    requires numTrans != 0 && numCands != 0
    ensures 0 <= tInd <= numTrans && index <= numCands ==>
              && 0.0 <= tInd as real / numTrans as real <= 1.0
              && 0.0 <= index as real / numCands as real <= 1.0
  {
    if 0 <= tInd <= numTrans && index <= numCands {
      RatioBounds(tInd, numTrans);
      RatioBounds(index, numCands);
    }
  }

  /** The scores of the pairs, position by position. */
  function PairScores(ss: seq<Triple>, ys: seq<Triple>, tInd: int, numTrans: int, numCands: int): (r: seq<real>)
    requires |ss| == |ys| && numTrans != 0 && numCands != 0
    ensures |r| == |ss|
    ensures forall k :: 0 <= k < |ss| ==> r[k] == PairScore(ss[k], ys[k], tInd, numTrans, numCands)
  {
    seq(|ss|, k requires 0 <= k < |ss| => PairScore(ss[k], ys[k], tInd, numTrans, numCands))
  }

  /** `m` holds a maximum of `xs`, and no earlier position does. */
  predicate IsFirstMax(xs: seq<real>, m: int)
  {
    0 <= m < |xs| &&
    (forall k :: 0 <= k < |xs| ==> xs[k] <= xs[m]) &&
    (forall k :: 0 <= k < m ==> xs[k] < xs[m])
  }

  /** `xs.index(max(xs))`. */
  function FirstMax(xs: seq<real>): (m: nat)
    requires xs != []
    ensures IsFirstMax(xs, m)
  {
    if |xs| == 1 then 0
    else
      var init := xs[..|xs| - 1];
      var m := FirstMax(init);
      assert forall k :: 0 <= k < |init| ==> xs[k] == init[k];
      if xs[|xs| - 1] > xs[m] then |xs| - 1 else m
  }

  /** Both lists hold the same positions, in the same order. */
  predicate SameIndexes(ss: seq<Triple>, ys: seq<Triple>)
  {
    |ss| == |ys| && forall k :: 0 <= k < |ss| ==> ss[k].index == ys[k].index
  }

  /** An element of a rearrangement is an element of the original. */
  lemma PermutationMember(ts: seq<Triple>, ss: seq<Triple>, m: nat)
    requires multiset(ss) == multiset(ts) && m < |ss|
    ensures exists k :: 0 <= k < |ts| && ts[k] == ss[m]
  {
    assert ss[m] in multiset(ss);
    assert ss[m] in multiset(ts);
  }

  /**
   * The position chosen among sorted pairs: that of a pair whose weighted
   * score no other pair beats, while every pair at a smaller position scores
   * less.
   */
  function BestIndex(ss: seq<Triple>, ys: seq<Triple>, tInd: int, numTrans: int, numCands: int): (r: nat)
    requires SortedByIndex(ss) && SameIndexes(ss, ys) && ss != []
    requires numTrans != 0 && numCands != 0
    ensures var scores := PairScores(ss, ys, tInd, numTrans, numCands);
      exists m :: 0 <= m < |ss| && ss[m].index == r &&
        (forall k :: 0 <= k < |ss| ==> scores[k] <= scores[m]) &&
        (forall k :: 0 <= k < |ss| && ss[k].index < ss[m].index ==> scores[k] < scores[m])
  {
    var scores := PairScores(ss, ys, tInd, numTrans, numCands);
    var m := FirstMax(scores);
    FirstMaxBySortedIndex(ss, scores, m);
    ss[m].index
  }

  /**
   * `judgePairs`: both lists sorted by position must hold the same positions
   * (otherwise `RuntimeError`); an empty list has no maximum (`ValueError`);
   * the relative positions divide by `numTrans` and `numCands`
   * (`ZeroDivisionError`). The answer is one of the positions of `surf`.
   */
  function Judged(surf: seq<Triple>, yomi: seq<Triple>, tInd: int, numTrans: int, numCands: int): (r: Result<nat>)
    ensures r.Ok? ==> exists k :: 0 <= k < |surf| && surf[k].index == r.value
    ensures r.Ok? ==>
              var ss := SortByIndex(surf);
              var ys := SortByIndex(yomi);
              && SameIndexes(ss, ys) && ss != [] && numTrans != 0 && numCands != 0
              && r.value == BestIndex(ss, ys, tInd, numTrans, numCands)
  {
    var ss := SortByIndex(surf);
    var ys := SortByIndex(yomi);
    if !SameIndexes(ss, ys) then Err(RuntimeError)
    else if ss == [] then Err(ValueError)
    else if numTrans == 0 || numCands == 0 then Err(ZeroDivisionError)
    else
      var i := BestIndex(ss, ys, tInd, numTrans, numCands);
      var m :| 0 <= m < |ss| && ss[m].index == i;
      PermutationMember(surf, ss, m);
      Ok(i)
  }

  /** In a list sorted by position, the first maximum beats every pair at a smaller position. */
  lemma FirstMaxBySortedIndex(ss: seq<Triple>, scores: seq<real>, m: nat)
    requires SortedByIndex(ss) && |scores| == |ss| && IsFirstMax(scores, m)
    ensures forall k :: 0 <= k < |ss| && ss[k].index < ss[m].index ==> scores[k] < scores[m]
  {
    forall k | 0 <= k < |ss| && ss[k].index < ss[m].index ensures scores[k] < scores[m] {
      assert k < m;
    }
  }

  /** The loops of `judgePairs`. */
  method JudgePairs(surfTriples: seq<Triple>, yomiTriples: seq<Triple>, tInd: int, numTrans: int, numCands: int)
    returns (r: Result<nat>)
    ensures r == Judged(surfTriples, yomiTriples, tInd, numTrans, numCands)
  {
    var ss := SortByIndex(surfTriples);
    var ys := SortByIndex(yomiTriples);
    var agree := IndexesAgree(ss, ys);
    if !agree {
      return Err(RuntimeError);
    }
    var scored := ScorePairs(ss, ys, tInd, numTrans, numCands);
    if scored.Err? {
      return Err(scored.error);
    }
    var scores := scored.value;
    if scores == [] {
      return Err(ValueError);  // `max([])`
    }
    var m := FirstMax(scores);
    return Ok(ss[m].index);
  }

  /** The first loop of `judgePairs`: the lengths, then the positions, pair by pair. */
  method IndexesAgree(ss: seq<Triple>, ys: seq<Triple>) returns (agree: bool)
    ensures agree <==> SameIndexes(ss, ys)
  {
    if |ss| != |ys| {
      return false;
    }
    for i := 0 to |ss|
      invariant forall k :: 0 <= k < i ==> ss[k].index == ys[k].index
    {
      if ss[i].index != ys[i].index {
        return false;
      }
    }
    return true;
  }

  /**
   * The second loop of `judgePairs`: the weighted score of each pair, or
   * ZeroDivisionError at the first pair when either count is zero.
   */
  method ScorePairs(ss: seq<Triple>, ys: seq<Triple>, tInd: int, numTrans: int, numCands: int)
    returns (r: Result<seq<real>>)
    requires |ss| == |ys|
    ensures r.Err? <==> ss != [] && (numTrans == 0 || numCands == 0)
    ensures r.Err? ==> r.error == ZeroDivisionError
    ensures r.Ok? ==> |r.value| == |ss|
    ensures r.Ok? && ss != [] ==> numTrans != 0 && numCands != 0 && r.value == PairScores(ss, ys, tInd, numTrans, numCands)
  {
    var scores: seq<real> := [];
    for i := 0 to |ss|
      invariant |scores| == i
      invariant i > 0 ==> numTrans != 0 && numCands != 0
      invariant forall k :: 0 <= k < i ==>
        numTrans != 0 && numCands != 0 && scores[k] == PairScore(ss[k], ys[k], tInd, numTrans, numCands)
    {
      if numTrans == 0 || numCands == 0 {
        return Err(ZeroDivisionError);
      }
      scores := scores + [PairScore(ss[i], ys[i], tInd, numTrans, numCands)];
    }
    if ss != [] {
      assert scores == PairScores(ss, ys, tInd, numTrans, numCands);
    }
    return Ok(scores);
  }

  lemma MultisetCancel<T>(x: T, a: multiset<T>, b: multiset<T>)
    requires multiset{x} + a == multiset{x} + b
    ensures a == b
  {
    assert forall y :: a[y] == (multiset{x} + a)[y] - multiset{x}[y];
    assert forall y :: b[y] == (multiset{x} + b)[y] - multiset{x}[y];
  }

  lemma IndexesAppend(u: seq<Triple>, v: seq<Triple>)
    ensures Indexes(u + v) == Indexes(u) + Indexes(v)
  {
  }

  /** Taking the triple at `j` out of `b`. */
  lemma RemoveAt(b: seq<Triple>, j: nat)
    requires j < |b|
    ensures multiset(b) == multiset{b[j]} + multiset(b[..j] + b[j + 1..])
    ensures multiset(Indexes(b)) == multiset{b[j].index} + multiset(Indexes(b[..j] + b[j + 1..]))
  {
    var u, x, v := b[..j], b[j], b[j + 1..];
    assert b == u + [x] + v;
    assert multiset(b) == multiset(u) + multiset{x} + multiset(v);
    assert multiset(u + v) == multiset(u) + multiset(v);
    IndexesAppend(u + [x], v);
    IndexesAppend(u, [x]);
    IndexesAppend(u, v);
    assert Indexes([x]) == [x.index];
  }

  /** Rearranging triples rearranges their positions. */
  lemma {:induction false} IndexesPermutation(a: seq<Triple>, b: seq<Triple>)
    requires multiset(a) == multiset(b)
    ensures multiset(Indexes(a)) == multiset(Indexes(b))
    decreases |a|
  {
    if a == [] {
      assert |b| == |multiset(b)|;
    } else {
      var j := RemoveSame(a, b);
      var rest := b[..j] + b[j + 1..];
      IndexesPermutation(a[1..], rest);
    }
  }

  /** The first triple of `a` sits at some `j` in its rearrangement `b`; without it, both are still rearrangements. */
  lemma RemoveSame(a: seq<Triple>, b: seq<Triple>) returns (j: nat)
    requires a != [] && multiset(a) == multiset(b)
    ensures j < |b| && b[j] == a[0]
    ensures multiset(a[1..]) == multiset(b[..j] + b[j + 1..])
    ensures multiset(Indexes(a)) == multiset{a[0].index} + multiset(Indexes(a[1..]))
    ensures multiset(Indexes(b)) == multiset{a[0].index} + multiset(Indexes(b[..j] + b[j + 1..]))
  {
    var x := a[0];
    assert x in multiset(b);
    j :| 0 <= j < |b| && b[j] == x;
    RemoveAt(b, j);
    RemoveFirst(a);
    MultisetCancel(x, multiset(a[1..]), multiset(b[..j] + b[j + 1..]));
  }

  lemma RemoveFirst(a: seq<Triple>)
    requires a != []
    ensures multiset(a) == multiset{a[0]} + multiset(a[1..])
    ensures multiset(Indexes(a)) == multiset{a[0].index} + multiset(Indexes(a[1..]))
  {
    assert a == [a[0]] + a[1..];
    IndexesAppend([a[0]], a[1..]);
    assert Indexes([a[0]]) == [a[0].index];
  }

  predicate Ascending(xs: seq<nat>)
  {
    forall a, b :: 0 <= a < b < |xs| ==> xs[a] <= xs[b]
  }

  /** Two ascending lists holding the same positions are the same list. */
  lemma {:induction false} AscendingUnique(xs: seq<nat>, ys: seq<nat>)
    requires Ascending(xs) && Ascending(ys)
    requires multiset(xs) == multiset(ys)
    ensures xs == ys
    decreases |xs|
  {
    assert |xs| == |multiset(xs)| == |ys|;
    if xs != [] {
      SameSmallest(xs, ys);
      var xt, yt := xs[1..], ys[1..];
      assert xs == [xs[0]] + xt;
      assert ys == [ys[0]] + yt;
      MultisetCancel(xs[0], multiset(xt), multiset(yt));
      AscendingTail(xs);
      AscendingTail(ys);
      AscendingUnique(xt, yt);
    }
  }

  /** Two non-empty ascending lists with the same elements start with the same element. */
  lemma SameSmallest(xs: seq<nat>, ys: seq<nat>)
    requires Ascending(xs) && Ascending(ys) && xs != [] && ys != []
    requires multiset(xs) == multiset(ys)
    ensures xs[0] == ys[0]
  {
    assert xs[0] in multiset(ys);
    var j :| 0 <= j < |ys| && ys[j] == xs[0];
    assert ys[0] <= xs[0];
    assert ys[0] in multiset(xs);
    var i :| 0 <= i < |xs| && xs[i] == ys[0];
  }

  lemma AscendingTail(xs: seq<nat>)
    requires Ascending(xs) && xs != []
    ensures Ascending(xs[1..])
  {
    var xt := xs[1..];
    forall a, b | 0 <= a < b < |xt| ensures xt[a] <= xt[b] {
      assert xt[a] == xs[a + 1] && xt[b] == xs[b + 1];
    }
  }


  /**
   * When the surface and reading triples hold the same positions in some
   * order, `judgePairs` raises no `RuntimeError`; with at least one pair and
   * non-zero counts it answers.
   */
  lemma JudgedSucceeds(surf: seq<Triple>, yomi: seq<Triple>, tInd: int, numTrans: int, numCands: int)
    requires multiset(Indexes(surf)) == multiset(Indexes(yomi))
    ensures Judged(surf, yomi, tInd, numTrans, numCands) != Err(RuntimeError)
    ensures surf != [] ==> (Judged(surf, yomi, tInd, numTrans, numCands).Ok? <==> numTrans != 0 && numCands != 0)
    ensures surf != [] && (numTrans == 0 || numCands == 0) ==>
      Judged(surf, yomi, tInd, numTrans, numCands) == Err(ZeroDivisionError)
  {
    var ss, ys := SortByIndex(surf), SortByIndex(yomi);
    IndexesPermutation(ss, surf);
    IndexesPermutation(ys, yomi);
    AscendingUnique(Indexes(ss), Indexes(ys));
    assert SameIndexes(ss, ys) by {
      forall k | 0 <= k < |ss| ensures ss[k].index == ys[k].index {
        assert Indexes(ss)[k] == Indexes(ys)[k];
      }
    }
    if surf != [] {
      assert |ss| == |multiset(ss)| == |surf|;
    }
  }

  // ---------------------------------------------------------------------
  // sentenceLevelMatch
  // ---------------------------------------------------------------------

  /** The positions a list holds. */
  function Members(xs: seq<nat>): (r: set<nat>)
    ensures forall x :: x in r <==> x in xs
  {
    set x | x in xs
  }

  /** `s.pop()` on a set of one element. */
  function TheElement(s: set<nat>): (x: nat)
    requires |s| == 1
    ensures s == {x}
  {
    var x :| x in s;
    assert s == {x} by {
      assert |s - {x}| == 0;
    }
    x
  }

  /** The filter `s[0] in commonIndexes` of the list comprehensions. */
  function InCommon(common: set<nat>): (p: Triple -> bool)
    ensures forall t :: p(t) <==> t.index in common
  {
    (t: Triple) => t.index in common
  }

  /** `zip(indexes, choices, scores)`. */
  function Zip(idx: seq<nat>, bests: seq<(string, Score)>): (r: seq<Triple>)
    ensures |r| == if |idx| <= |bests| then |idx| else |bests|
    ensures forall k :: 0 <= k < |r| ==> r[k] == Triple(idx[k], bests[k].0, bests[k].1)
  {
    var n := if |idx| <= |bests| then |idx| else |bests|;
    seq(n, k requires 0 <= k < n => Triple(idx[k], bests[k].0, bests[k].1))
  }

  /**
   * The decision of `sentenceLevelMatch` once the normal forms `normCands` of
   * the candidates, the normalised readings `yomiCands` and the two
   * `extractBests` answers are known.
   */
  function Decided(cands: seq<string>, normCands: seq<string>, bestSurf: seq<(string, Score)>,
                   yomiCands: seq<string>, bestYomi: seq<(string, Score)>, tInd: int, numTrans: int)
    : (r: Result<(int, string)>)
    requires |normCands| == |cands|
    ensures r.Ok? && r.value.0 != -1 ==> 0 <= r.value.0 < |cands| && r.value.1 == cands[r.value.0]
    ensures r.Ok? && r.value.0 == -1 ==> r.value.1 == []
  {
    match RegainedIndexes(normCands, bestSurf)
    case Err(e) => Err(e)
    case Ok(surfIdx) =>
      match RegainedIndexes(yomiCands, bestYomi)
      case Err(e) => Err(e)
      case Ok(yomiIdx) =>
        var common := Members(surfIdx) * Members(yomiIdx);
        var nothing: (int, string) := (-1, "");
        if |common| == 0 then Ok(nothing)
        else if |common| == 1 then
          var c := TheElement(common);
          assert c in surfIdx;
          Ok(DecideOne(cands, normCands, bestSurf, surfIdx, c))
        else
          DecideMany(cands, surfIdx, bestSurf, yomiIdx, bestYomi, common, tInd, numTrans)
  }

  /**
   * The single common position `c`: the sentence of the first candidate whose
   * normal form is the choice regained at `c`, which is the normal form of candidate `c`.
   */
  function DecideOne(cands: seq<string>, normCands: seq<string>, bestSurf: seq<(string, Score)>,
                     surfIdx: seq<nat>, c: nat): (r: (int, string))
    requires |normCands| == |cands| && RegainedIndexes(normCands, bestSurf) == Ok(surfIdx) && c in surfIdx
    ensures c < |cands| && 0 <= r.0 <= c && r.1 == cands[r.0]
    ensures normCands[r.0] == normCands[c] && forall k :: 0 <= k < r.0 ==> normCands[k] != normCands[c]
  {
    var pos := FuzzyMatch.IndexOf(surfIdx, c);
    RegainedAt(normCands, bestSurf, pos);
    var commonSent := bestSurf[pos].0;
    assert normCands[c] == commonSent;
    var i := FuzzyMatch.IndexOf(normCands, commonSent);
    (i, cands[i])
  }

  /** Several common positions: `judgePairs` over the pairs at those positions picks one of them. */
  function DecideMany(cands: seq<string>, surfIdx: seq<nat>, bestSurf: seq<(string, Score)>,
                      yomiIdx: seq<nat>, bestYomi: seq<(string, Score)>, common: set<nat>, tInd: int, numTrans: int)
    : (r: Result<(int, string)>)
    requires forall k :: 0 <= k < |surfIdx| ==> surfIdx[k] < |cands|
    requires common == Members(surfIdx) * Members(yomiIdx)
    ensures r.Ok? ==> r.value.0 in common && 0 <= r.value.0 < |cands| && r.value.1 == cands[r.value.0]
  {
    var surfTriples := Filter(Zip(surfIdx, bestSurf), InCommon(common));
    var yomiTriples := Filter(Zip(yomiIdx, bestYomi), InCommon(common));
    match Judged(surfTriples, yomiTriples, tInd, numTrans, |cands|)
    case Err(e) => Err(e)
    case Ok(i) =>
      var k :| 0 <= k < |surfTriples| && surfTriples[k].index == i;
      assert i in common;
      assert i in surfIdx;
      Ok((i, cands[i]))
  }

  lemma MultisetOfSetWith(a: set<nat>, x: nat)
    requires x !in a
    ensures multiset(a + {x}) == multiset(a) + multiset{x}
  {
    assert forall y :: multiset(a + {x})[y] == (multiset(a) + multiset{x})[y];
  }

  /**
   * Keeping the zipped triples whose position is common keeps, once each, the
   * common positions the (distinct) regained positions hold.
   */
  lemma {:induction false} FilteredIndexes(idx: seq<nat>, bests: seq<(string, Score)>, common: set<nat>)
    requires |idx| == |bests|
    requires forall a, b :: 0 <= a < b < |idx| ==> idx[a] != idx[b]
    ensures multiset(Indexes(Filter(Zip(idx, bests), InCommon(common)))) == multiset(common * Members(idx))
  {
    if idx == [] {
      assert common * Members(idx) == {};
    } else {
      FilteredIndexes(idx[1..], bests[1..], common);
      var x := idx[0];
      assert x !in idx[1..];
      FilteredHead(idx, bests, common);
      CommonWithHead(idx, common);
      var restIdx := Indexes(Filter(Zip(idx[1..], bests[1..]), InCommon(common)));
      if x in common {
        assert multiset([x] + restIdx) == multiset{x} + multiset(restIdx);
      } else {
        assert multiset{} + multiset(common * Members(idx[1..])) == multiset(common * Members(idx[1..]));
      }
    }
  }

  /** The common positions of a list whose first position does not recur, split at that position. */
  lemma CommonWithHead(idx: seq<nat>, common: set<nat>)
    requires idx != [] && idx[0] !in idx[1..]
    ensures multiset(common * Members(idx))
      == (if idx[0] in common then multiset{idx[0]} else multiset{}) + multiset(common * Members(idx[1..]))
  {
    var x := idx[0];
    var restSet := common * Members(idx[1..]);
    assert x !in restSet;
    if x in common {
      assert common * Members(idx) == restSet + {x};
      MultisetOfSetWith(restSet, x);
    } else {
      assert common * Members(idx) == restSet;
    }
  }


  /** The first zipped triple is kept exactly when its position is common. */
  lemma FilteredHead(idx: seq<nat>, bests: seq<(string, Score)>, common: set<nat>)
    requires |idx| == |bests| && idx != []
    ensures var rest := Indexes(Filter(Zip(idx[1..], bests[1..]), InCommon(common)));
      Indexes(Filter(Zip(idx, bests), InCommon(common)))
        == (if idx[0] in common then [idx[0]] + rest else rest)
  {
    var p := InCommon(common);
    var zs := Zip(idx, bests);
    var tail := Zip(idx[1..], bests[1..]);
    assert zs[1..] == tail;
    var rest := Filter(tail, p);
    Seqs.FilterCons(zs, p);
    assert p(zs[0]) <==> idx[0] in common;
    if idx[0] in common {
      IndexesCons(zs[0], rest);
    } else {
      assert [] + rest == rest;
    }
  }

  lemma IndexesCons(t: Triple, rest: seq<Triple>)
    ensures Indexes([t] + rest) == [t.index] + Indexes(rest)
  {
  }


  /** Distinct positions, as `getSurfIndexes` regains them. */
  predicate Distinct(idx: seq<nat>)
  {
    forall a, b :: 0 <= a < b < |idx| ==> idx[a] != idx[b]
  }

  /** Under the contract of `extractBests`, the regained positions are one per choice and distinct. */
  lemma RegainedUnderContract(keys: seq<string>, bests: seq<(string, Score)>)
    requires multiset(Choices(bests)) <= multiset(keys)
    ensures RegainedIndexes(keys, bests).Ok?
    ensures |RegainedIndexes(keys, bests).value| == |bests|
    ensures Distinct(RegainedIndexes(keys, bests).value)
  {
    RegainedSucceeds(keys, bests);
    if keys == [] {
      assert |Choices(bests)| == |multiset(Choices(bests))|;
    }
    RegainedPositions(keys, bests);
  }

  /**
   * With at least two common positions, `judgePairs` receives the same
   * positions from both sides and at least one pair, so it can only fail on
   * the division by `numTrans`.
   */
  lemma JudgedInMatch(n: nat, surfIdx: seq<nat>, bestSurf: seq<(string, Score)>,
                      yomiIdx: seq<nat>, bestYomi: seq<(string, Score)>, tInd: int, numTrans: int)
    requires |surfIdx| == |bestSurf| && Distinct(surfIdx)
    requires |yomiIdx| == |bestYomi| && Distinct(yomiIdx)
    requires forall k :: 0 <= k < |surfIdx| ==> surfIdx[k] < n
    requires |Members(surfIdx) * Members(yomiIdx)| >= 2
    ensures var common := Members(surfIdx) * Members(yomiIdx);
      var j := Judged(Filter(Zip(surfIdx, bestSurf), InCommon(common)),
                      Filter(Zip(yomiIdx, bestYomi), InCommon(common)), tInd, numTrans, n);
      (j.Ok? <==> numTrans != 0) && (j.Err? ==> j.error == ZeroDivisionError)
  {
    var common := Members(surfIdx) * Members(yomiIdx);
    var surfTriples := Filter(Zip(surfIdx, bestSurf), InCommon(common));
    var yomiTriples := Filter(Zip(yomiIdx, bestYomi), InCommon(common));
    CommonTriples(surfIdx, bestSurf, common);
    CommonTriples(yomiIdx, bestYomi, common);
    var c :| c in common;
    assert n != 0 by {
      assert c in surfIdx;
    }
    JudgedSucceeds(surfTriples, yomiTriples, tInd, numTrans, n);
  }

  /** Keeping the zipped triples at common positions keeps every common position once, and some triple if there is one. */
  lemma CommonTriples(idx: seq<nat>, bests: seq<(string, Score)>, common: set<nat>)
    requires |idx| == |bests| && Distinct(idx) && common <= Members(idx)
    ensures multiset(Indexes(Filter(Zip(idx, bests), InCommon(common)))) == multiset(common)
    ensures common != {} ==> Filter(Zip(idx, bests), InCommon(common)) != []
  {
    FilteredIndexes(idx, bests, common);
    assert common * Members(idx) == common;
    if common != {} {
      var c :| c in common;
      assert c in multiset(common);
    }
  }

  /**
   * Under the contract of `extractBests`, `sentenceLevelMatch` raises neither
   * the `RuntimeError` of `getSurfIndexes`/`getYomiIndexes` nor those of
   * `judgePairs`: its only failure is the division by `numTrans` when that
   * is zero.
   */
  lemma DecidedNeverRaises(cands: seq<string>, normCands: seq<string>, bestSurf: seq<(string, Score)>,
                           yomiCands: seq<string>, bestYomi: seq<(string, Score)>, tInd: int, numTrans: int)
    requires |normCands| == |cands| && |yomiCands| == |cands|
    requires multiset(Choices(bestSurf)) <= multiset(normCands)
    requires multiset(Choices(bestYomi)) <= multiset(yomiCands)
    ensures numTrans != 0 ==> Decided(cands, normCands, bestSurf, yomiCands, bestYomi, tInd, numTrans).Ok?
    ensures Decided(cands, normCands, bestSurf, yomiCands, bestYomi, tInd, numTrans).Err? ==>
      Decided(cands, normCands, bestSurf, yomiCands, bestYomi, tInd, numTrans) == Err(ZeroDivisionError)
  {
    RegainedUnderContract(normCands, bestSurf);
    RegainedUnderContract(yomiCands, bestYomi);
    var surfIdx := RegainedIndexes(normCands, bestSurf).value;
    var yomiIdx := RegainedIndexes(yomiCands, bestYomi).value;
    var common := Members(surfIdx) * Members(yomiIdx);
    var r := Decided(cands, normCands, bestSurf, yomiCands, bestYomi, tInd, numTrans);
    if |common| >= 2 {
      JudgedInMatch(|cands|, surfIdx, bestSurf, yomiIdx, bestYomi, tInd, numTrans);
      assert r == DecideMany(cands, surfIdx, bestSurf, yomiIdx, bestYomi, common, tInd, numTrans);
    } else {
      assert r.Ok?;
    }
  }

  /** The position regained for the choice at `pos` holds that choice. */
  lemma RegainedAt(keys: seq<string>, bests: seq<(string, Score)>, pos: nat)
    requires RegainedIndexes(keys, bests).Ok? && pos < |RegainedIndexes(keys, bests).value|
    ensures pos < |bests|
    ensures RegainedIndexes(keys, bests).value[pos] < |keys|
    ensures keys[RegainedIndexes(keys, bests).value[pos]] == bests[pos].0
  {
    RegainedPositions(keys, bests);
  }

  /** A position regained for a choice holds that choice. */
  lemma RegainedChoice(keys: seq<string>, bests: seq<(string, Score)>, c: nat)
    requires RegainedIndexes(keys, bests).Ok? && c in RegainedIndexes(keys, bests).value
    ensures c < |keys| && keys[c] in Choices(bests)
  {
    var idx := RegainedIndexes(keys, bests).value;
    RegainedPositions(keys, bests);
    var q :| 0 <= q < |idx| && idx[q] == c;
    assert Choices(bests)[q] == keys[c];
  }

  /**
   * A sentence `(i, cands[i])` that `sentenceLevelMatch` finds has the normal
   * form of a candidate `c` at or after it whose normal form and whose
   * normalised reading both are among the choices `extractBests` returned.
   * With several common positions `c` is `i` itself; with one, `i` is the
   * first candidate with that normal form, which may lie before it.
   */
  lemma DecidedRanked(cands: seq<string>, normCands: seq<string>, bestSurf: seq<(string, Score)>,
                      yomiCands: seq<string>, bestYomi: seq<(string, Score)>, tInd: int, numTrans: int)
    requires |normCands| == |cands|
    requires Decided(cands, normCands, bestSurf, yomiCands, bestYomi, tInd, numTrans).Ok?
    requires Decided(cands, normCands, bestSurf, yomiCands, bestYomi, tInd, numTrans).value.0 != -1
    ensures var i := Decided(cands, normCands, bestSurf, yomiCands, bestYomi, tInd, numTrans).value.0;
      exists c :: i <= c < |cands| && normCands[c] == normCands[i] &&
        normCands[c] in Choices(bestSurf) && c < |yomiCands| && yomiCands[c] in Choices(bestYomi)
  {
    var r := Decided(cands, normCands, bestSurf, yomiCands, bestYomi, tInd, numTrans);
    var i := r.value.0;
    var surfIdx := RegainedIndexes(normCands, bestSurf).value;
    var yomiIdx := RegainedIndexes(yomiCands, bestYomi).value;
    var common := Members(surfIdx) * Members(yomiIdx);
    if |common| == 1 {
      var c := TheElement(common);
      RegainedChoice(normCands, bestSurf, c);
      RegainedChoice(yomiCands, bestYomi, c);
    } else {
      RegainedChoice(normCands, bestSurf, i);
      RegainedChoice(yomiCands, bestYomi, i);
    }
  }


  /**
   * With exactly one common position `c`, the sentence found is that of the
   * first candidate whose normal form is the normal form of candidate `c`.
   */
  lemma DecidedSingleton(cands: seq<string>, normCands: seq<string>, bestSurf: seq<(string, Score)>,
                         yomiCands: seq<string>, bestYomi: seq<(string, Score)>, tInd: int, numTrans: int, c: nat)
    requires |normCands| == |cands|
    requires RegainedIndexes(normCands, bestSurf).Ok? && RegainedIndexes(yomiCands, bestYomi).Ok?
    requires Members(RegainedIndexes(normCands, bestSurf).value) * Members(RegainedIndexes(yomiCands, bestYomi).value) == {c}
    ensures c < |cands|
    ensures var r := Decided(cands, normCands, bestSurf, yomiCands, bestYomi, tInd, numTrans);
      r.Ok? && 0 <= r.value.0 <= c && normCands[r.value.0] == normCands[c] &&
      forall k :: 0 <= k < r.value.0 ==> normCands[k] != normCands[c]
  {
    var surfIdx := RegainedIndexes(normCands, bestSurf).value;
    var yomiIdx := RegainedIndexes(yomiCands, bestYomi).value;
    var common := Members(surfIdx) * Members(yomiIdx);
    assert c in common;
    assert TheElement(common) == c;
  }

  /** `(-1, "")` comes back exactly when no position was regained on both sides. */
  lemma DecidedNothing(cands: seq<string>, normCands: seq<string>, bestSurf: seq<(string, Score)>,
                       yomiCands: seq<string>, bestYomi: seq<(string, Score)>, tInd: int, numTrans: int)
    requires |normCands| == |cands|
    requires Decided(cands, normCands, bestSurf, yomiCands, bestYomi, tInd, numTrans).Ok?
    ensures RegainedIndexes(normCands, bestSurf).Ok? && RegainedIndexes(yomiCands, bestYomi).Ok?
    ensures Decided(cands, normCands, bestSurf, yomiCands, bestYomi, tInd, numTrans).value.0 == -1 <==>
      Members(RegainedIndexes(normCands, bestSurf).value) * Members(RegainedIndexes(yomiCands, bestYomi).value) == {}
  {
  }

  /** `sentenceLevelMatch(trans, tInd, numTrans, cands)`, with MeCab and fuzzywuzzy taken from `env`. */
  function Matched(env: Env, trans: string, tInd: int, numTrans: int, cands: seq<string>): (r: Result<(int, string)>)
    ensures r.Ok? && r.value.0 != -1 ==> 0 <= r.value.0 < |cands| && r.value.1 == cands[r.value.0]
    ensures r.Ok? && r.value.0 == -1 ==> r.value.1 == []
  {
    var normCands := FuzzyMatch.NormalizeAll(env.nfkc, cands);
    var bestSurf := env.extractBests(NormalizeSentence(env.nfkc, trans), normCands, env.partialRatio);
    var yomiCands := FuzzyMatch.NormalizeAll(env.nfkc, ReadAll(env, cands));
    var bestYomi := env.extractBests(NormalizeSentence(env.nfkc, env.reading(trans)), yomiCands, env.ratio);
    Decided(cands, normCands, bestSurf, yomiCands, bestYomi, tInd, numTrans)
  }

  /**
   * What `sentenceLevelMatch` promises its caller: it raises only when
   * `numTrans` is zero, and then `ZeroDivisionError`; a sentence it returns
   * is a candidate `i` with the normal form of a candidate `c` at or after it
   * whose normal form ranks among the five best surface matches and whose
   * normalised reading ranks among the five best reading matches.
   */
  lemma MatchedOutcome(env: Env, trans: string, tInd: int, numTrans: int, cands: seq<string>)
    ensures numTrans != 0 ==> Matched(env, trans, tInd, numTrans, cands).Ok?
    ensures Matched(env, trans, tInd, numTrans, cands).Err? ==>
      Matched(env, trans, tInd, numTrans, cands) == Err(ZeroDivisionError)
    ensures var r := Matched(env, trans, tInd, numTrans, cands);
      var normCands := FuzzyMatch.NormalizeAll(env.nfkc, cands);
      var yomiCands := FuzzyMatch.NormalizeAll(env.nfkc, ReadAll(env, cands));
      r.Ok? && r.value.0 != -1 ==>
        exists c :: r.value.0 <= c < |cands| && normCands[c] == normCands[r.value.0] &&
          normCands[c] in Choices(env.extractBests(NormalizeSentence(env.nfkc, trans), normCands, env.partialRatio)) &&
          yomiCands[c] in Choices(env.extractBests(NormalizeSentence(env.nfkc, env.reading(trans)), yomiCands, env.ratio))
  {
    var normCands := FuzzyMatch.NormalizeAll(env.nfkc, cands);
    var bestSurf := env.extractBests(NormalizeSentence(env.nfkc, trans), normCands, env.partialRatio);
    var yomiCands := FuzzyMatch.NormalizeAll(env.nfkc, ReadAll(env, cands));
    var bestYomi := env.extractBests(NormalizeSentence(env.nfkc, env.reading(trans)), yomiCands, env.ratio);
    ExtractBestsAnswers(env.extractBests, NormalizeSentence(env.nfkc, trans), normCands, env.partialRatio);
    ExtractBestsAnswers(env.extractBests, NormalizeSentence(env.nfkc, env.reading(trans)), yomiCands, env.ratio);
    DecidedNeverRaises(cands, normCands, bestSurf, yomiCands, bestYomi, tInd, numTrans);
    var r := Decided(cands, normCands, bestSurf, yomiCands, bestYomi, tInd, numTrans);
    if r.Ok? && r.value.0 != -1 {
      DecidedRanked(cands, normCands, bestSurf, yomiCands, bestYomi, tInd, numTrans);
    }
  }

  /** The steps of `sentenceLevelMatch`. */
  method SentenceLevelMatch(env: Env, trans: string, tInd: int, numTrans: int, cands: seq<string>)
    returns (r: Result<(int, string)>)
    ensures r == Matched(env, trans, tInd, numTrans, cands)
  {
    var normCands := FuzzyMatch.NormalizeAll(env.nfkc, cands);
    var normTrans := NormalizeSentence(env.nfkc, trans);
    var bestSurfCands := env.extractBests(normTrans, normCands, env.partialRatio);
    var surfIndexes := GetSurfIndexes(env.nfkc, cands, bestSurfCands);
    var yomiCands := FuzzyMatch.NormalizeAll(env.nfkc, ReadAll(env, cands));
    var yomiTrans := NormalizeSentence(env.nfkc, env.reading(trans));
    var bestYomiCands := env.extractBests(yomiTrans, yomiCands, env.ratio);
    if surfIndexes.Err? {
      return Err(surfIndexes.error);
    }
    var yomiIndexes := GetYomiIndexes(env, cands, bestYomiCands);
    r := Decide(cands, normCands, bestSurfCands, surfIndexes, yomiCands, bestYomiCands, yomiIndexes, tInd, numTrans);
  }

  /** The part of `sentenceLevelMatch` after both lists of positions are regained. */
  method Decide(cands: seq<string>, normCands: seq<string>, bestSurf: seq<(string, Score)>, surfIndexes: Result<seq<nat>>,
                yomiCands: seq<string>, bestYomi: seq<(string, Score)>, yomiIndexes: Result<seq<nat>>,
                tInd: int, numTrans: int)
    returns (r: Result<(int, string)>)
    requires |normCands| == |cands|
    requires surfIndexes == RegainedIndexes(normCands, bestSurf)
    requires yomiIndexes == RegainedIndexes(yomiCands, bestYomi)
    ensures r == Decided(cands, normCands, bestSurf, yomiCands, bestYomi, tInd, numTrans)
  {
    if surfIndexes.Err? {
      return Err(surfIndexes.error);
    }
    if yomiIndexes.Err? {
      return Err(yomiIndexes.error);
    }
    var surfIdx, yomiIdx := surfIndexes.value, yomiIndexes.value;
    var common := Members(surfIdx) * Members(yomiIdx);
    if |common| == 0 {
      r := Ok((-1, ""));
    } else if |common| == 1 {
      var c := TheElement(common);
      var found := DecideSingle(cands, normCands, bestSurf, surfIdx, c);
      r := Ok(found);
    } else {
      r := DecideAmong(cands, surfIdx, bestSurf, yomiIdx, bestYomi, common, tInd, numTrans);
    }
  }

  /** Lines 131-136: the first candidate whose normal form is the choice regained at `c`. */
  method DecideSingle(cands: seq<string>, normCands: seq<string>, bestSurf: seq<(string, Score)>,
                      surfIdx: seq<nat>, c: nat) returns (r: (int, string))
    requires |normCands| == |cands| && RegainedIndexes(normCands, bestSurf) == Ok(surfIdx) && c in surfIdx
    ensures r == DecideOne(cands, normCands, bestSurf, surfIdx, c)
  {
    var pos := FuzzyMatch.IndexOf(surfIdx, c);
    RegainedAt(normCands, bestSurf, pos);
    var commonSent := bestSurf[pos].0;
    var i := 0;
    while normCands[i] != commonSent
      invariant 0 <= i <= c
      invariant forall k :: 0 <= k < i ==> normCands[k] != commonSent
      decreases c - i
    {
      i := i + 1;
    }
    r := (i, cands[i]);
  }

  /** Lines 137-160: `judgePairs` over the triples at the common positions. */
  method DecideAmong(cands: seq<string>, surfIdx: seq<nat>, bestSurf: seq<(string, Score)>,
                     yomiIdx: seq<nat>, bestYomi: seq<(string, Score)>, common: set<nat>, tInd: int, numTrans: int)
    returns (r: Result<(int, string)>)
    requires forall k :: 0 <= k < |surfIdx| ==> surfIdx[k] < |cands|
    requires common == Members(surfIdx) * Members(yomiIdx)
    ensures r == DecideMany(cands, surfIdx, bestSurf, yomiIdx, bestYomi, common, tInd, numTrans)
  {
    var surfTriples := Filter(Zip(surfIdx, bestSurf), InCommon(common));
    var yomiTriples := Filter(Zip(yomiIdx, bestYomi), InCommon(common));
    var j := JudgePairs(surfTriples, yomiTriples, tInd, numTrans, |cands|);
    if j.Err? {
      return Err(j.error);
    }
    var i := j.value;
    var k :| 0 <= k < |surfTriples| && surfTriples[k].index == i;
    assert i in surfIdx;
    r := Ok((i, cands[i]));
  }
}
