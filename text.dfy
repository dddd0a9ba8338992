/** The Python `str` operations the modelled code relies on. */
module Text {
  import opened Wrappers

  /** `str.isspace()`; also the class that `\s` matches in a `str` regular expression. */
  predicate IsSpace(c: char)
  {
    || ('\t' <= c <= '\r')
    || ('\U{1C}' <= c <= ' ')
    || c == '\U{85}' || c == '\U{A0}' || c == '\U{1680}'
    || ('\U{2000}' <= c <= '\U{200A}')
    || c == '\U{2028}' || c == '\U{2029}' || c == '\U{202F}' || c == '\U{205F}' || c == '\U{3000}'
  }

  /** Neither the first nor the last character is whitespace. */
  predicate NoEdgeSpace(s: string)
  {
    s == [] || (!IsSpace(s[0]) && !IsSpace(s[|s| - 1]))
  }

  /**
   * `r` is `s` with some (possibly none) of its whitespace characters deleted and
   * everything else kept in order.
   */
  predicate DeletesOnlySpaces(s: string, r: string)
    decreases |s|
  {
    if s == [] then r == []
    else if r != [] && r[0] == s[0] && DeletesOnlySpaces(s[1..], r[1..]) then true
    else IsSpace(s[0]) && DeletesOnlySpaces(s[1..], r)
  }

  lemma {:induction false} DeletesNothing(s: string)
    ensures DeletesOnlySpaces(s, s)
  {
    if s != [] { DeletesNothing(s[1..]); }
  }

  lemma {:induction false} DeletesConcat(a: string, a': string, b: string, b': string)
    requires DeletesOnlySpaces(a, a') && DeletesOnlySpaces(b, b')
    ensures DeletesOnlySpaces(a + b, a' + b')
  {
    if a == [] {
      assert a + b == b && a' + b' == b';
    } else {
      assert (a + b)[1..] == a[1..] + b;
      if a' != [] && a'[0] == a[0] && DeletesOnlySpaces(a[1..], a'[1..]) {
        DeletesConcat(a[1..], a'[1..], b, b');
        assert (a' + b')[1..] == a'[1..] + b';
      } else {
        DeletesConcat(a[1..], a', b, b');
      }
    }
  }

  lemma {:induction false} DeletesTransitive(s: string, t: string, u: string)
    requires DeletesOnlySpaces(s, t) && DeletesOnlySpaces(t, u)
    ensures DeletesOnlySpaces(s, u)
    decreases |s|
  {
    if s != [] {
      if t != [] && t[0] == s[0] && DeletesOnlySpaces(s[1..], t[1..]) {
        if u != [] && u[0] == t[0] && DeletesOnlySpaces(t[1..], u[1..]) {
          DeletesTransitive(s[1..], t[1..], u[1..]);
        } else {
          DeletesTransitive(s[1..], t[1..], u);
        }
      } else {
        DeletesTransitive(s[1..], t, u);
      }
    }
  }

  /** A deletion keeps only characters of the original. */
  lemma {:induction false} DeletesKeepsChars(s: string, r: string)
    requires DeletesOnlySpaces(s, r)
    ensures forall c :: c in r ==> c in s
    decreases |s|
  {
    if s != [] {
      if r != [] && r[0] == s[0] && DeletesOnlySpaces(s[1..], r[1..]) {
        DeletesKeepsChars(s[1..], r[1..]);
        assert r == [r[0]] + r[1..];
      } else {
        DeletesKeepsChars(s[1..], r);
      }
    }
  }

  /** Deleting whitespace never lengthens a string. */
  lemma {:induction false} DeletesShortens(s: string, r: string)
    requires DeletesOnlySpaces(s, r)
    ensures |r| <= |s|
    decreases |s|
  {
    if s != [] {
      if r != [] && r[0] == s[0] && DeletesOnlySpaces(s[1..], r[1..]) {
        DeletesShortens(s[1..], r[1..]);
      } else {
        DeletesShortens(s[1..], r);
      }
    }
  }

  /** A deletion of whitespace leaves the non-whitespace content unchanged. */
  lemma {:induction false} DeletesSameContent(s: string, r: string)
    requires DeletesOnlySpaces(s, r)
    ensures RemoveSpaces(r) == RemoveSpaces(s)
    decreases |s|
  {
    if s != [] {
      if r != [] && r[0] == s[0] && DeletesOnlySpaces(s[1..], r[1..]) {
        DeletesSameContent(s[1..], r[1..]);
      } else {
        DeletesSameContent(s[1..], r);
      }
    }
  }

  /** A result that begins with whitespace comes from an input that does. */
  lemma DeletesFirstSpace(s: string, r: string)
    requires DeletesOnlySpaces(s, r) && r != [] && IsSpace(r[0])
    ensures s != [] && IsSpace(s[0])
  {
  }

  /** `re.sub(r"\s+", "", s)`: every whitespace character removed. */
  function RemoveSpaces(s: string): (r: string)
    ensures DeletesOnlySpaces(s, r)
    ensures forall i :: 0 <= i < |r| ==> !IsSpace(r[i])
  {
    if s == [] then []
    else if IsSpace(s[0]) then RemoveSpaces(s[1..])
    else [s[0]] + RemoveSpaces(s[1..])
  }

  /** `s.lstrip()`. */
  function TrimStart(s: string): (r: string)
    ensures |r| <= |s| && r == s[|s| - |r|..]
    ensures forall i :: 0 <= i < |s| - |r| ==> IsSpace(s[i])
    ensures r == [] || !IsSpace(r[0])
  {
    if s != [] && IsSpace(s[0]) then
      var r := TrimStart(s[1..]);
      TrimStartStep(s, r);
      r
    else s
  }

  /** A leading space before a trimmed suffix of `s[1..]` is part of the trimmed prefix of `s`. */
  lemma TrimStartStep(s: string, r: string)
    requires s != [] && IsSpace(s[0])
    requires |r| <= |s| - 1 && r == s[1..][|s| - 1 - |r|..]
    requires forall i :: 0 <= i < |s| - 1 - |r| ==> IsSpace(s[1..][i])
    ensures r == s[|s| - |r|..]
    ensures forall i :: 0 <= i < |s| - |r| ==> IsSpace(s[i])
  {
    assert s[1..][|s| - 1 - |r|..] == s[|s| - |r|..];
    forall i | 0 < i < |s| - |r| ensures IsSpace(s[i]) {
      assert s[i] == s[1..][i - 1];
    }
  }

  /** `s.rstrip()`. */
  function TrimEnd(s: string): (r: string)
    ensures |r| <= |s| && r == s[..|r|]
    ensures forall i :: |r| <= i < |s| ==> IsSpace(s[i])
    ensures r == [] || !IsSpace(r[|r| - 1])
  {
    if s != [] && IsSpace(s[|s| - 1]) then TrimEnd(s[..|s| - 1]) else s
  }

  /** `s.strip()`: whitespace removed at both ends and nowhere else. */
  function Strip(s: string): (r: string)
    ensures NoEdgeSpace(r)
    ensures forall i :: 0 <= i < |s| && !IsSpace(s[i]) ==> |r| > 0
    ensures exists a, b :: 0 <= a <= b <= |s| && r == s[a..b]
  {
    var t := TrimStart(s);
    var r := TrimEnd(t);
    assert r == s[|s| - |t|..|s| - |t| + |r|];
    r
  }

  /** Whitespace in front of a string that does not start with whitespace is stripped away. */
  lemma {:induction false} TrimStartSpaces(a: string, x: string)
    requires forall i :: 0 <= i < |a| ==> IsSpace(a[i])
    requires x == [] || !IsSpace(x[0])
    ensures TrimStart(a + x) == x
    decreases |a|
  {
    if a == [] {
      assert a + x == x;
    } else {
      assert (a + x)[1..] == a[1..] + x;
      TrimStartSpaces(a[1..], x);
    }
  }

  /** Whitespace after a string that does not end with whitespace is stripped away. */
  lemma {:induction false} TrimEndSpaces(x: string, b: string)
    requires forall i :: 0 <= i < |b| ==> IsSpace(b[i])
    requires x == [] || !IsSpace(x[|x| - 1])
    ensures TrimEnd(x + b) == x
    decreases |b|
  {
    if b == [] {
      assert x + b == x;
    } else {
      var b' := b[..|b| - 1];
      assert (x + b)[..|x + b| - 1] == x + b';
      TrimEndSpaces(x, b');
    }
  }

  /** Stripping `j` surrounded by whitespace gives `j` when its own ends are not whitespace. */
  lemma StripAround(a: string, j: string, b: string)
    requires forall i :: 0 <= i < |a| ==> IsSpace(a[i])
    requires forall i :: 0 <= i < |b| ==> IsSpace(b[i])
    requires NoEdgeSpace(j)
    ensures Strip(a + j + b) == j
  {
    if j == [] {
      assert a + j + b == (a + b) + [];
      forall i | 0 <= i < |a + b| ensures IsSpace((a + b)[i]) {
        if i < |a| { assert (a + b)[i] == a[i]; } else { assert (a + b)[i] == b[i - |a|]; }
      }
      TrimStartSpaces(a + b, []);
    } else {
      assert a + j + b == a + (j + b);
      TrimStartSpaces(a, j + b);
      TrimEndSpaces(j, b);
    }
  }

  /** A non-empty string without whitespace. */
  predicate IsWord(w: string)
  {
    w != [] && forall i :: 0 <= i < |w| ==> !IsSpace(w[i])
  }

  /** The length of the run of non-whitespace characters that starts `s`. */
  function WordLen(s: string): (n: nat)
    ensures n <= |s|
    ensures forall i :: 0 <= i < n ==> !IsSpace(s[i])
    ensures n == |s| || IsSpace(s[n])
  {
    if s == [] || IsSpace(s[0]) then 0 else 1 + WordLen(s[1..])
  }

  /** `s.split()`: the maximal runs of non-whitespace characters, in order. */
  function Words(s: string): (ws: seq<string>)
    ensures forall k :: 0 <= k < |ws| ==> IsWord(ws[k])
    ensures ws == [] <==> forall i :: 0 <= i < |s| ==> IsSpace(s[i])
    decreases |s|
  {
    if s == [] then []
    else if IsSpace(s[0]) then Words(s[1..])
    else
      var n := WordLen(s);
      [s[..n]] + Words(s[n..])
  }

  /** The words of a string joined by single spaces neither start nor end with whitespace. */
  lemma {:induction false} JoinWordsNoEdge(ws: seq<string>)
    requires forall k :: 0 <= k < |ws| ==> IsWord(ws[k])
    ensures NoEdgeSpace(Join(ws, " "))
    ensures ws != [] ==> |Join(ws, " ")| >= 1
    decreases |ws|
  {
    if |ws| >= 2 {
      JoinWordsNoEdge(ws[1..]);
      var j := Join(ws[1..], " ");
      assert Join(ws, " ") == ws[0] + " " + j;
      assert (ws[0] + " " + j)[0] == ws[0][0];
      assert (ws[0] + " " + j)[|ws[0] + " " + j| - 1] == j[|j| - 1];
    }
  }

  /** Stripping only deletes whitespace. */
  lemma StripDeletes(s: string)
    ensures DeletesOnlySpaces(s, Strip(s))
  {
    TrimStartDeletes(s);
    TrimEndDeletes(TrimStart(s));
    DeletesTransitive(s, TrimStart(s), Strip(s));
  }

  lemma {:induction false} TrimStartDeletes(s: string)
    ensures DeletesOnlySpaces(s, TrimStart(s))
    decreases |s|
  {
    if s != [] && IsSpace(s[0]) {
      TrimStartDeletes(s[1..]);
      var r := TrimStart(s);
      assert !(r != [] && r[0] == s[0]);
    } else {
      DeletesNothing(s);
    }
  }

  lemma {:induction false} TrimEndDeletes(s: string)
    ensures DeletesOnlySpaces(s, TrimEnd(s))
    decreases |s|
  {
    if s != [] && IsSpace(s[|s| - 1]) {
      var s' := s[..|s| - 1];
      TrimEndDeletes(s');
      AllSpacesDeleted([s[|s| - 1]]);
      DeletesConcat(s', TrimEnd(s'), [s[|s| - 1]], []);
      assert s' + [s[|s| - 1]] == s;
      assert TrimEnd(s') + [] == TrimEnd(s');
    } else {
      DeletesNothing(s);
    }
  }

  /** A run of whitespace can be deleted entirely. */
  lemma {:induction false} AllSpacesDeleted(w: string)
    requires forall i :: 0 <= i < |w| ==> IsSpace(w[i])
    ensures DeletesOnlySpaces(w, [])
  {
    if w != [] { AllSpacesDeleted(w[1..]); }
  }

  /** Stripping a string whose ends are not whitespace changes nothing. */
  lemma StripNoEdgeSpace(s: string)
    requires NoEdgeSpace(s)
    ensures Strip(s) == s
  {
  }

  /** A line terminator after a stripped string is stripped away. */
  lemma StripNewline(s: string)
    requires NoEdgeSpace(s)
    ensures Strip(s + ['\n']) == s
  {
    if s == [] {
      assert TrimStart(['\n']) == [] by { assert ['\n'][1..] == []; }
    } else {
      assert TrimStart(s + ['\n']) == s + ['\n'];
      assert (s + ['\n'])[..|s|] == s;
    }
  }

  /** `pat` occurs in `s` starting at position `j`. */
  predicate OccursAt(s: string, pat: string, j: nat)
  {
    j + |pat| <= |s| && s[j..j + |pat|] == pat
  }

  lemma OccursShift(s: string, pat: string, j: nat)
    requires 1 <= j && |s| > 0
    ensures OccursAt(s, pat, j) <==> OccursAt(s[1..], pat, j - 1)
  {
    if j + |pat| <= |s| {
      assert s[1..][j - 1..j - 1 + |pat|] == s[j..j + |pat|];
    }
  }

  /** The first position of `sep` in `s` (`s.find(sep)`, with `None` for -1). */
  function Find(s: string, sep: string): (r: Option<nat>)
    requires |sep| > 0
    ensures r.Some? ==> OccursAt(s, sep, r.value)
    ensures r.Some? ==> forall j: nat :: j < r.value ==> !OccursAt(s, sep, j)
    ensures r.None? ==> forall j: nat :: !OccursAt(s, sep, j)
    decreases |s|
  {
    if |s| < |sep| then None
    else if s[..|sep|] == sep then Some(0)
    else
      var rest := Find(s[1..], sep);
      assert forall j: nat :: 1 <= j ==> (OccursAt(s, sep, j) <==> OccursAt(s[1..], sep, j - 1)) by {
        forall j: nat | 1 <= j ensures OccursAt(s, sep, j) <==> OccursAt(s[1..], sep, j - 1) {
          OccursShift(s, sep, j);
        }
      }
      assert !OccursAt(s, sep, 0);
      match rest
      case None => None
      case Some(i) => Some(i + 1)
  }

  /** `s.split(sep)`: the pieces between the occurrences of `sep` found left to right. */
  function Split(s: string, sep: string): (r: seq<string>)
    requires |sep| > 0
    ensures |r| >= 1
    ensures forall k :: 0 <= k < |r| ==> Find(r[k], sep).None?
    decreases |s|
  {
    match Find(s, sep)
    case None => [s]
    case Some(i) =>
      assert Find(s[..i], sep).None? by {
        forall j: nat ensures OccursAt(s[..i], sep, j) ==> OccursAt(s, sep, j) {
          if j + |sep| <= i { assert s[..i][j..j + |sep|] == s[j..j + |sep|]; }
        }
      }
      [s[..i]] + Split(s[i + |sep|..], sep)
  }

  /** `sep.join(ps)`. */
  function Join(ps: seq<string>, sep: string): (r: string)
  {
    if |ps| == 0 then []
    else if |ps| == 1 then ps[0]
    else ps[0] + sep + Join(ps[1..], sep)
  }

  /** Joining the pieces of a split with the same separator gives back the string. */
  lemma {:induction false} JoinSplit(s: string, sep: string)
    requires |sep| > 0
    ensures Join(Split(s, sep), sep) == s
    decreases |s|
  {
    match Find(s, sep)
    case None =>
    case Some(i) =>
      var rest := s[i + |sep|..];
      JoinSplit(rest, sep);
      SplitAt(s, sep, i);
      JoinCons(s[..i], Split(rest, sep), sep);
      Around(s, sep, i);
  }

  /** The split at the first occurrence `i` of `sep`. */
  lemma SplitAt(s: string, sep: string, i: nat)
    requires |sep| > 0 && Find(s, sep) == Some(i)
    ensures Split(s, sep) == [s[..i]] + Split(s[i + |sep|..], sep)
  {
  }

  /** Joining a list of two or more pieces: the first piece, the separator, the join of the rest. */
  lemma JoinCons(x: string, rest: seq<string>, sep: string)
    requires |rest| >= 1
    ensures Join([x] + rest, sep) == x + sep + Join(rest, sep)
  {
    assert ([x] + rest)[1..] == rest;
  }

  /** A string is the part before an occurrence, the occurrence, and the part after. */
  lemma Around(s: string, pat: string, i: nat)
    requires OccursAt(s, pat, i)
    ensures s == s[..i] + pat + s[i + |pat|..]
  {
    assert s == s[..i] + s[i..i + |pat|] + s[i + |pat|..];
  }

  /** Splitting on one character undoes a join on it when no piece holds it. */
  lemma {:induction false} SplitJoin(ps: seq<string>, c: char)
    requires |ps| >= 1
    requires forall k :: 0 <= k < |ps| ==> c !in ps[k]
    ensures Split(Join(ps, [c]), [c]) == ps
    decreases |ps|
  {
    var s := Join(ps, [c]);
    if |ps| == 1 {
      NoCharNoFind(ps[0], c);
    } else {
      SplitJoin(ps[1..], c);
      var rest := Join(ps[1..], [c]);
      JoinCons(ps[0], ps[1..], [c]);
      assert [ps[0]] + ps[1..] == ps;
      FindAfterFree(ps[0], c, rest);
      SplitAt(s, [c], |ps[0]|);
      assert s[..|ps[0]|] == ps[0];
      assert s[|ps[0]| + 1..] == rest;
    }
  }

  /** In `x + [c] + rest` with `c` not in `x`, the first `c` is right after `x`. */
  lemma FindAfterFree(x: string, c: char, rest: string)
    requires c !in x
    ensures Find(x + [c] + rest, [c]) == Some(|x|)
  {
    var s := x + [c] + rest;
    assert s[|x|..|x| + 1] == [c];
    forall j: nat | j < |x| ensures !OccursAt(s, [c], j) {
      assert s[j..j + 1] == [x[j]];
    }
    assert OccursAt(s, [c], |x|);
  }

  lemma NoCharNoFind(s: string, c: char)
    requires c !in s
    ensures Find(s, [c]).None?
  {
    forall i: nat ensures !OccursAt(s, [c], i) {
      if i + 1 <= |s| { assert s[i..i + 1] == [s[i]]; }
    }
  }

  /** `find` of a one-character string stops at the first position holding that character. */
  lemma FindFirstChar(s: string, c: char, n: nat)
    requires n < |s| && s[n] == c
    requires forall k :: 0 <= k < n ==> s[k] != c
    ensures Find(s, [c]) == Some(n)
  {
    assert c !in s[..n];
    assert s == s[..n] + [c] + s[n + 1..];
    FindAfterFree(s[..n], c, s[n + 1..]);
  }

  lemma FindNoneNoChar(s: string, c: char)
    requires Find(s, [c]).None?
    ensures c !in s
  {
  }

  /** `s.startswith(p)`. */
  predicate StartsWith(s: string, p: string)
  {
    |p| <= |s| && s[..|p|] == p
  }

  /** `s.replace(old, new)`, which Python defines as `new.join(s.split(old))`. */
  function ReplaceAll(s: string, pat: string, rep: string): (r: string)
    requires |pat| > 0
    ensures pat == rep ==> r == s
  {
    JoinSplit(s, pat);
    Join(Split(s, pat), rep)
  }

  /**
   * The partner of `ReplaceAll`: the result and the input share one list of
   * pieces, free of `pat`, joined by `rep` and by `pat` respectively.
   */
  lemma ReplaceAllPieces(s: string, pat: string, rep: string)
    requires |pat| > 0
    ensures var ps := Split(s, pat);
      && s == Join(ps, pat) && ReplaceAll(s, pat, rep) == Join(ps, rep)
      && forall k :: 0 <= k < |ps| ==> Find(ps[k], pat).None?
  {
    JoinSplit(s, pat);
  }

  lemma {:induction false} JoinDeletes(ps: seq<string>, a: string, b: string)
    requires DeletesOnlySpaces(a, b)
    ensures DeletesOnlySpaces(Join(ps, a), Join(ps, b))
    decreases |ps|
  {
    if |ps| == 0 {
    } else if |ps| == 1 {
      DeletesNothing(ps[0]);
    } else {
      JoinDeletes(ps[1..], a, b);
      DeletesNothing(ps[0]);
      DeletesConcat(ps[0], ps[0], a, b);
      DeletesConcat(ps[0] + a, ps[0] + b, Join(ps[1..], a), Join(ps[1..], b));
    }
  }

  /** Replacing a string by itself minus some whitespace only deletes whitespace. */
  lemma ReplaceDeletes(s: string, pat: string, rep: string)
    requires |pat| > 0 && DeletesOnlySpaces(pat, rep)
    ensures DeletesOnlySpaces(s, ReplaceAll(s, pat, rep))
  {
    JoinSplit(s, pat);
    JoinDeletes(Split(s, pat), pat, rep);
  }

  /** A string lacking some character of `pat` has no occurrence of `pat`. */
  lemma NoOccurrence(s: string, pat: string, c: char)
    requires |pat| > 0 && c in pat && c !in s
    ensures Find(s, pat).None?
  {
    forall j: nat ensures !OccursAt(s, pat, j) {
      if j + |pat| <= |s| {
        var k :| 0 <= k < |pat| && pat[k] == c;
        assert s[j..j + |pat|][k] == s[j + k] != c;
      }
    }
  }

  /** A string shorter than `pat` does not hold it. */
  lemma ShorterThanPattern(s: string, pat: string)
    requires 0 < |pat| && |s| < |pat|
    ensures Find(s, pat).None?
  {
  }

  /** `replace` leaves a string without occurrences unchanged. */
  lemma ReplaceNone(s: string, pat: string, rep: string)
    requires |pat| > 0 && Find(s, pat).None?
    ensures ReplaceAll(s, pat, rep) == s
  {
  }

  /** `replace` when the first occurrence of `pat` follows `a`. */
  lemma ReplaceAtFirst(a: string, b: string, pat: string, rep: string)
    requires |pat| > 0
    requires forall j: nat :: j < |a| ==> !OccursAt(a + pat + b, pat, j)
    ensures ReplaceAll(a + pat + b, pat, rep) == a + rep + ReplaceAll(b, pat, rep)
  {
    var s := a + pat + b;
    assert s[|a|..|a| + |pat|] == pat;
    assert OccursAt(s, pat, |a|);
    assert Find(s, pat) == Some(|a|);
    assert s[..|a|] == a;
    assert s[|a| + |pat|..] == b;
    var ps := Split(s, pat);
    assert ps == [a] + Split(b, pat);
    assert ps[1..] == Split(b, pat);
  }

  lemma {:induction false} JoinSnoc(ps: seq<string>, x: string, sep: string)
    requires |ps| >= 1
    ensures Join(ps + [x], sep) == Join(ps, sep) + sep + x
    decreases |ps|
  {
    if |ps| == 1 {
      assert (ps + [x])[1..] == [x];
    } else {
      assert (ps + [x])[1..] == ps[1..] + [x];
      JoinSnoc(ps[1..], x, sep);
    }
  }
}
