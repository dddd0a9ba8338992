/**
 * Handling of the recogniser's XML output (`python/call_julius.py`): the tag
 * constants, the quick fixes applied before the XML is parsed, and the state
 * machine that groups the stream of output lines into one chunk per input
 * file.
 */
module CallJulius {
  import opened Wrappers
  import opened Seqs
  import opened Text

  /** The line Julius prints when it starts listening for the next input. */
  const InputTag := "<INPUT STATUS=\"LISTEN\" "
  const RecogoutTag := "RECOGOUT"
  const EndTag := "</" + RecogoutTag + ">\n"

  /** `endRecogMatch`: the line closes a recognition result. */
  function EndRecogMatch(line: string): (r: bool)
    ensures r <==> line == "</RECOGOUT>\n"
  {
    line == EndTag
  }

  // ---------------------------------------------------------------------------
  // escapeAngleBrackets
  // ---------------------------------------------------------------------------

  /** The class names Julius writes unescaped inside attribute values. */
  const StartClassId := "\"<s>\""
  const EndClassId := "\"</s>\""
  const StartEscaped := "\"&lt;s&gt;\""
  const EndEscaped := "\"&lt;/s&gt;\""

  /**
   * `escapeAngleBrackets`: every `"<s>"` becomes `"&lt;s&gt;"`, then every
   * `"</s>"` becomes `"&lt;/s&gt;"`; a substitution of a literal pattern
   * replaces the occurrences found left to right without overlap, as
   * `str.replace` does. Text without either token is left alone.
   */
  function EscapeAngleBrackets(s: string): (r: string)
    ensures Find(s, StartClassId).None? && Find(s, EndClassId).None? ==> r == s
  {
    ReplaceAll(ReplaceAll(s, StartClassId, StartEscaped), EndClassId, EndEscaped)
  }

  /** No occurrence of a pattern opening with a quote starts inside quote-free text. */
  lemma QuoteFreePrefix(a: string, t: string, pat: string)
    requires |pat| > 0 && pat[0] == '"' && '"' !in a
    ensures forall j: nat :: j < |a| ==> !OccursAt(a + t, pat, j)
  {
    forall j: nat | j < |a| ensures !OccursAt(a + t, pat, j) {
      if j + |pat| <= |a + t| {
        assert (a + t)[j..j + |pat|][0] == a[j];
      }
    }
  }

  /** In a text quote-free but for two quotes around `m`, those are the only quotes. */
  lemma TwoQuotes(a: string, m: string, b: string)
    requires '"' !in a && '"' !in m && '"' !in b
    ensures var t := a + "\"" + m + "\"" + b;
      forall k :: 0 <= k < |t| && t[k] == '"' ==> k == |a| || k == |a| + |m| + 1
  {
    var t := a + "\"" + m + "\"" + b;
    forall k | 0 <= k < |t| && k != |a| && k != |a| + |m| + 1 ensures t[k] != '"' {
      if k < |a| {
        assert t[k] == a[k];
      } else if |a| < k <= |a| + |m| {
        assert t[k] == m[k - |a| - 1];
      } else if k > |a| + |m| + 1 {
        assert t[k] == b[k - |a| - |m| - 2];
      }
    }
  }

  /** A quoted token between two quote-free texts is its only occurrence there. */
  lemma ReplaceQuotedToken(a: string, b: string, pat: string, rep: string)
    requires |pat| > 0 && pat[0] == '"' && '"' !in a && '"' !in b
    ensures ReplaceAll(a + pat + b, pat, rep) == a + rep + b
  {
    QuoteFreePrefix(a, pat + b, pat);
    assert a + pat + b == a + (pat + b);
    ReplaceAtFirst(a, b, pat, rep);
    NoOccurrence(b, pat, '"');
    ReplaceNone(b, pat, rep);
  }

  /** Text whose only quotes are the two around `m` holds no quoted token of another length. */
  lemma NoOtherQuotedToken(a: string, m: string, b: string, pat: string)
    requires '"' !in a && '"' !in m && '"' !in b
    requires |pat| >= 2 && pat[0] == '"' && pat[|pat| - 1] == '"' && |pat| != |m| + 2
    ensures Find(a + "\"" + m + "\"" + b, pat).None?
  {
    var t := a + "\"" + m + "\"" + b;
    TwoQuotes(a, m, b);
    forall j: nat ensures !OccursAt(t, pat, j) {
      if j + |pat| <= |t| {
        var w := t[j..j + |pat|];
        assert w[0] == t[j] && w[|pat| - 1] == t[j + |pat| - 1];
      }
    }
  }

  /** A quoted `<s>` between two quote-free texts is escaped and nothing else changes. */
  lemma EscapeStartToken(a: string, b: string)
    requires '"' !in a && '"' !in b
    ensures EscapeAngleBrackets(a + StartClassId + b) == a + StartEscaped + b
  {
    ReplaceQuotedToken(a, b, StartClassId, StartEscaped);
    var t := a + StartEscaped + b;
    assert StartEscaped == "\"" + "&lt;s&gt;" + "\"";
    assert t == a + "\"" + "&lt;s&gt;" + "\"" + b;
    NoOtherQuotedToken(a, "&lt;s&gt;", b, EndClassId);
    ReplaceNone(t, EndClassId, EndEscaped);
  }

  /** A quoted `</s>` between two quote-free texts is escaped and nothing else changes. */
  lemma EscapeEndToken(a: string, b: string)
    requires '"' !in a && '"' !in b
    ensures EscapeAngleBrackets(a + EndClassId + b) == a + EndEscaped + b
  {
    var s := a + EndClassId + b;
    assert EndClassId == "\"" + "</s>" + "\"";
    assert s == a + "\"" + "</s>" + "\"" + b;
    NoOtherQuotedToken(a, "</s>", b, StartClassId);
    ReplaceNone(s, StartClassId, StartEscaped);
    ReplaceQuotedToken(a, b, EndClassId, EndEscaped);
  }

  /**
   * The output can still contain a quoted `<s>`: two tokens sharing a quote
   * are found as one, and the second is never seen.
   */
  lemma EscapeOverlapping()
    ensures EscapeAngleBrackets("\"<s>\"<s>\"") == "\"&lt;s&gt;\"<s>\""
    ensures Find(EscapeAngleBrackets("\"<s>\"<s>\""), StartClassId).Some?
  {
    var rest := "<s>\"";
    assert "\"<s>\"<s>\"" == StartClassId + rest;
    OverlapFirstPass(rest);
    var t := StartEscaped + rest;
    OverlapSpelled(t);
    NoOccurrence(t, EndClassId, '/');
    assert OccursAt(t, StartClassId, 10);
  }

  /** The first substitution finds the token at the start and none in what follows it. */
  lemma OverlapFirstPass(rest: string)
    requires rest == "<s>\""
    ensures ReplaceAll(StartClassId + rest, StartClassId, StartEscaped) == StartEscaped + rest
  {
    assert StartClassId + rest == [] + StartClassId + rest;
    ReplaceAtFirst([], rest, StartClassId, StartEscaped);
    ShorterThanPattern(rest, StartClassId);
    ReplaceNone(rest, StartClassId, StartEscaped);
    assert [] + StartEscaped + rest == StartEscaped + rest;
  }

  /** `"&lt;s&gt;"<s>"`: its last five characters are a quoted `<s>`, and it has no `/`. */
  lemma OverlapSpelled(t: string)
    requires t == StartEscaped + "<s>\""
    ensures t == "\"&lt;s&gt;\"<s>\""
    ensures |t| == 15 && t[10..15] == StartClassId && '/' !in t
  {
    assert t[10..15] == [t[10], t[11], t[12], t[13], t[14]];
  }

  // ---------------------------------------------------------------------------
  // deleteBadLines and fixXML
  // ---------------------------------------------------------------------------

  /** A line that is kept: neither a lone `.` nor empty. */
  predicate IsGoodLine(l: string)
    ensures IsGoodLine(l) ==> |l| >= 1
  {
    l != "." && l != ""
  }

  /** The lines of `s` that are kept, in order. */
  function GoodLines(s: string): (r: seq<string>)
    ensures forall k :: 0 <= k < |r| ==> IsGoodLine(r[k]) && '\n' !in r[k]
  {
    var ls := Filter(Split(s, "\n"), IsGoodLine);
    assert forall k :: 0 <= k < |ls| ==> '\n' !in ls[k] by {
      forall k | 0 <= k < |ls| ensures '\n' !in ls[k] {
        FindNoneNoChar(ls[k], '\n');
      }
    }
    ls
  }

  /** `deleteBadLines`: the kept lines joined with newlines. */
  function DeleteBadLines(s: string): (r: string)
    ensures GoodLines(s) == [] ==> r == ""
    ensures GoodLines(s) != [] ==> r != "" && Split(r, "\n") == GoodLines(s)
  {
    var r := Join(GoodLines(s), "\n");
    if GoodLines(s) != [] then
      SplitJoin(GoodLines(s), '\n');
      assert Split("", "\n") == [""];
      assert Split(r, "\n")[0] != "";
      r
    else
      r
  }

  /** Removing bad lines a second time changes nothing. */
  lemma DeleteBadLinesIdempotent(s: string)
    ensures DeleteBadLines(DeleteBadLines(s)) == DeleteBadLines(s)
  {
    var r := DeleteBadLines(s);
    if GoodLines(s) == [] {
      assert Split(r, "\n") == [""];
      assert GoodLines(r) == [];
    } else {
      FilterKeepsAll(GoodLines(s), IsGoodLine);
      assert GoodLines(r) == Filter(GoodLines(s), IsGoodLine);
    }
  }

  /** `fixXML`: escape the class names, drop bad lines, and wrap in a `CHUNK` element. */
  function FixXML(s: string): (r: string)
    ensures |r| >= 17 && r[..8] == "<CHUNK>\n" && r[|r| - 9..] == "\n</CHUNK>"
  {
    var body := DeleteBadLines(EscapeAngleBrackets(s));
    Wrapped(body);
    "<CHUNK>" + "\n" + body + "\n" + "</CHUNK>"
  }

  lemma Wrapped(body: string)
    ensures var r := "<CHUNK>" + "\n" + body + "\n" + "</CHUNK>";
      |r| >= 17 && r[..8] == "<CHUNK>\n" && r[|r| - 9..] == "\n</CHUNK>"
  {
  }

  /**
   * The lines of the wrapped document: the opening tag, the kept lines of
   * the escaped text (one empty line when none is kept), the closing tag.
   */
  lemma FixXMLLines(s: string)
    ensures var kept := GoodLines(EscapeAngleBrackets(s));
      Split(FixXML(s), "\n") == ["<CHUNK>"] + (if kept == [] then [""] else kept) + ["</CHUNK>"]
  {
    var kept := GoodLines(EscapeAngleBrackets(s));
    var body := if kept == [] then [""] else kept;
    var ls := ["<CHUNK>"] + body + ["</CHUNK>"];
    assert Join(body, "\n") == DeleteBadLines(EscapeAngleBrackets(s));
    WrapJoin("<CHUNK>", body, "</CHUNK>");
    forall k | 0 <= k < |ls| ensures '\n' !in ls[k] {
      if 1 <= k < |ls| - 1 {
        assert ls[k] == body[k - 1];
      }
    }
    SplitJoin(ls, '\n');
  }

  /** Lines wrapped between an opening and a closing line, joined with newlines. */
  lemma WrapJoin(open: string, body: seq<string>, close: string)
    requires body != []
    ensures Join([open] + body + [close], "\n") == open + "\n" + Join(body, "\n") + "\n" + close
  {
    var head := [open] + body;
    JoinSnoc(head, close, "\n");
    assert head[1..] == body;
  }

  // ---------------------------------------------------------------------------
  // Grouping the output lines into chunks (the body of `yieldSentences`)
  // ---------------------------------------------------------------------------

  /** The line opens a new chunk. */
  predicate IsInputLine(line: string)
  {
    StartsWith(line, InputTag)
  }

  /** The first position from `k` on holding an input line, or the end. */
  function NextInput(ls: seq<string>, k: nat): (r: nat)
    requires k <= |ls|
    ensures k <= r <= |ls|
    ensures r < |ls| ==> IsInputLine(ls[r])
    ensures forall m :: k <= m < r ==> !IsInputLine(ls[m])
    decreases |ls| - k
  {
    if k == |ls| || IsInputLine(ls[k]) then k else NextInput(ls, k + 1)
  }

  /**
   * The intended grouping of `ls[i..]`: lines before the first input line are
   * skipped, and each chunk is an input line with the lines that follow it up
   * to the next input line.
   */
  function ChunksFrom(ls: seq<string>, i: nat): (r: seq<seq<string>>)
    requires i <= |ls|
    ensures |r| <= |ls| - i
    decreases |ls| - i
  {
    if i == |ls| then []
    else if !IsInputLine(ls[i]) then ChunksFrom(ls, i + 1)
    else
      var j := NextInput(ls, i + 1);
      [ls[i..j]] + ChunksFrom(ls, j)
  }

  /** Each chunk is an input line followed by lines that are not input lines. */
  lemma {:induction false} ChunksShape(ls: seq<string>, i: nat)
    requires i <= |ls|
    ensures forall k :: 0 <= k < |ChunksFrom(ls, i)| ==>
      var c := ChunksFrom(ls, i)[k];
      |c| > 0 && IsInputLine(c[0]) && forall m :: 1 <= m < |c| ==> !IsInputLine(c[m])
    decreases |ls| - i
  {
    if i == |ls| {
    } else if !IsInputLine(ls[i]) {
      ChunksShape(ls, i + 1);
    } else {
      var j := NextInput(ls, i + 1);
      ChunksShape(ls, j);
      var cs := ChunksFrom(ls, i);
      assert cs[1..] == ChunksFrom(ls, j);
      forall m | 1 <= m < j - i ensures !IsInputLine(cs[0][m]) {
        assert cs[0][m] == ls[i + m];
      }
    }
  }

  /** The chunks hold, in order, every line from the first input line on. */
  lemma {:induction false} ChunksCover(ls: seq<string>, i: nat)
    requires i <= |ls|
    ensures Flatten(ChunksFrom(ls, i)) == ls[NextInput(ls, i)..]
    decreases |ls| - i
  {
    if i == |ls| {
    } else if !IsInputLine(ls[i]) {
      ChunksCover(ls, i + 1);
    } else {
      var j := NextInput(ls, i + 1);
      ChunksCover(ls, j);
      ChunkThenRest(ls, i);
    }
  }

  /** The chunk at an input line, then the chunks after it. */
  lemma ChunkThenRest(ls: seq<string>, i: nat)
    requires i < |ls| && IsInputLine(ls[i])
    requires var j := NextInput(ls, i + 1); Flatten(ChunksFrom(ls, j)) == ls[NextInput(ls, j)..]
    ensures Flatten(ChunksFrom(ls, i)) == ls[NextInput(ls, i)..]
  {
    var j := NextInput(ls, i + 1);
    ChunkAtInput(ls, i);
    FlattenCons(ls[i..j], ChunksFrom(ls, j));
    assert NextInput(ls, j) == j;
    assert NextInput(ls, i) == i;
    assert ls[i..j] + ls[j..] == ls[i..];
  }

  lemma ChunkAtInput(ls: seq<string>, i: nat)
    requires i < |ls| && IsInputLine(ls[i])
    ensures var j := NextInput(ls, i + 1); ChunksFrom(ls, i) == [ls[i..j]] + ChunksFrom(ls, j)
  {
  }

  /** The text of each chunk: its lines concatenated. */
  function ChunkTexts(cs: seq<seq<string>>): (r: seq<string>)
    ensures |r| == |cs|
    ensures forall k :: 0 <= k < |cs| ==> r[k] == Flatten(cs[k])
  {
    if cs == [] then [] else [Flatten(cs[0])] + ChunkTexts(cs[1..])
  }

  /** The position from which the chunks are still to be yielded. */
  function Pending(i: nat, flag: bool): int
  {
    if flag then i - 1 else i
  }

  /**
   * The inner loop of `yieldSentences`: starting from the input line at
   * `start`, append the following lines until the next input line, which is
   * read and saved, or the end of the lines.
   */
  method ReadChunk(lines: seq<string>, start: nat) returns (newSent: string, i: nat, saved: bool)
    requires start < |lines|
    ensures var j := NextInput(lines, start + 1);
      && newSent == Flatten(lines[start..j])
      && (saved <==> j < |lines|)
      && i == (if saved then j + 1 else j)
    ensures start < i <= |lines|
    ensures saved ==> IsInputLine(lines[i - 1])
  {
    i := start + 1;
    newSent := lines[start];
    saved := false;
    assert lines[start..i] == [lines[start]];
    while i < |lines|
      invariant start < i <= |lines|
      invariant NextInput(lines, start + 1) == NextInput(lines, i)
      invariant newSent == Flatten(lines[start..i])
    {
      var line := lines[i];
      i := i + 1;
      if IsInputLine(line) {
        saved := true;
        return;
      }
      FlattenSnoc(lines[start..i - 1], line);
      assert lines[start..i] == lines[start..i - 1] + [line];
      newSent := newSent + line;
    }
  }

  /**
   * One pass of the outer loop of `yieldSentences`, with the flag cleared
   * once the line it saved is taken up again: `stop` when the lines are
   * exhausted at the top of the loop, otherwise the new position, flag and
   * last line, and the chunk text yielded, if any.
   */
  method Pass(lines: seq<string>, i: nat, flag: bool, line: string)
    returns (stop: bool, i': nat, flag': bool, line': string, yielded: seq<string>)
    requires i <= |lines|
    requires flag ==> 1 <= i && line == lines[i - 1] && IsInputLine(line)
    ensures stop <==> !flag && i == |lines|
    ensures !stop ==> i' <= |lines| && (flag' ==> 1 <= i' && line' == lines[i' - 1] && IsInputLine(line'))
    ensures !stop ==> i' > i || (i' == i && flag && !flag')
    ensures !stop ==> ChunkTexts(ChunksFrom(lines, Pending(i, flag))) == yielded + ChunkTexts(ChunksFrom(lines, Pending(i', flag')))
  {
    stop, i', flag', line', yielded := false, i, flag, line, [];
    if !flag {
      if i == |lines| {
        stop := true;
        return;
      }
      line' := lines[i];
      i' := i + 1;
    } else {
      flag' := false;
    }
    var start := i' - 1;
    assert start == Pending(i, flag) && line' == lines[start];
    if !IsInputLine(line') {
      SkipLine(lines, start);
      return;
    }
    i', flag', line', yielded := YieldChunk(lines, start);
  }

  /** The chunk that starts at the input line `start` is read and yielded. */
  method YieldChunk(lines: seq<string>, start: nat) returns (i': nat, flag': bool, line': string, yielded: seq<string>)
    requires start < |lines| && IsInputLine(lines[start])
    ensures start < i' <= |lines| && line' == lines[i' - 1] && (flag' ==> start + 2 <= i' && IsInputLine(line'))
    ensures ChunkTexts(ChunksFrom(lines, start)) == yielded + ChunkTexts(ChunksFrom(lines, Pending(i', flag')))
  {
    var newSent;
    newSent, i', flag' := ReadChunk(lines, start);
    NextChunk(lines, start);
    assert Pending(i', flag') == NextInput(lines, start + 1);
    line' := lines[i' - 1];
    yielded := [newSent];
  }

  /** A line that is not an input line before any chunk is skipped. */
  lemma SkipLine(lines: seq<string>, k: nat)
    requires k < |lines| && !IsInputLine(lines[k])
    ensures ChunkTexts(ChunksFrom(lines, k)) == ChunkTexts(ChunksFrom(lines, k + 1))
  {
  }

  /**
   * Grouping with the flag cleared once the line it saved has been used. It
   * collects the text of every chunk instead of passing it to the XML parser.
   */
  method GroupChunks(lines: seq<string>) returns (texts: seq<string>)
    ensures texts == ChunkTexts(ChunksFrom(lines, 0))
  {
    var i := 0;
    var flag := false;
    var line := "";
    texts := [];
    while true
      invariant 0 <= i <= |lines|
      invariant flag ==> 1 <= i && line == lines[i - 1] && IsInputLine(line)
      invariant texts + ChunkTexts(ChunksFrom(lines, Pending(i, flag))) == ChunkTexts(ChunksFrom(lines, 0))
      decreases |lines| - i, flag
    {
      var stop, i', flag', line', yielded := Pass(lines, i, flag, line);
      if stop {
        break;
      }
      ghost var rest := ChunkTexts(ChunksFrom(lines, Pending(i', flag')));
      Seqs.AppendAssoc(texts, yielded, rest);
      texts := texts + yielded;
      i, flag, line := i', flag', line';
    }
  }

  /** The chunk that starts at an input line, and the rest. */
  lemma NextChunk(lines: seq<string>, start: nat)
    requires start < |lines| && IsInputLine(lines[start])
    ensures var j := NextInput(lines, start + 1);
      ChunkTexts(ChunksFrom(lines, start)) == [Flatten(lines[start..j])] + ChunkTexts(ChunksFrom(lines, j))
  {
    var j := NextInput(lines, start + 1);
    var cs := ChunksFrom(lines, start);
    assert cs == [lines[start..j]] + ChunksFrom(lines, j);
    assert cs[1..] == ChunksFrom(lines, j);
  }

  /**
   * Where the loop of `yieldSentences` stands between two passes: the next
   * line to read, the last line read, and whether that line is an input line
   * saved for the next pass.
   */
  datatype Reader = Reader(pos: nat, line: string, flag: bool)

  /**
   * One pass of the outer loop of `yieldSentences` as written: nothing when
   * reading the next line stops the generator, otherwise the new state and
   * the chunk text yielded, if any. The flag is only reset inside the branch
   * that runs when it is already clear, so once set it stays set. While the
   * stream lasts each inner loop saves a fresh input line and the chunks come
   * out right; once the stream is exhausted the loop never ends: when the last
   * line is an input line its chunk is yielded again on every pass, and
   * otherwise the loop keeps skipping the saved non-input line without
   * yielding anything.
   */
  function AsWrittenPass(ls: seq<string>, st: Reader): (r: Option<(Reader, Option<string>)>)
    requires st.pos <= |ls|
    ensures r.Some? ==> r.value.0.pos <= |ls|
    ensures st.flag ==> r.Some? && r.value.0.flag
    ensures r.None? ==> st.pos == |ls|
  {
    if !st.flag && st.pos == |ls| then None
    else
      var pos := if st.flag then st.pos else st.pos + 1;
      var line := if st.flag then st.line else ls[st.pos];
      if !IsInputLine(line) then Some((Reader(pos, line, st.flag), None))
      else
        var j := NextInput(ls, pos);
        var text := line + Flatten(ls[pos..j]);
        if j < |ls| then Some((Reader(j + 1, ls[j], true), Some(text)))
        else Some((Reader(|ls|, if pos < |ls| then ls[|ls| - 1] else line, st.flag), Some(text)))
  }

  /**
   * Two input lines in a row: the first pass sets the flag, and from then on
   * every pass yields the second chunk again without reading anything.
   */
  lemma AsWrittenRepeats()
    ensures var ls := [InputTag, InputTag];
      var st := Reader(2, InputTag, true);
      && AsWrittenPass(ls, Reader(0, "", false)) == Some((st, Some(InputTag)))
      && AsWrittenPass(ls, st) == Some((st, Some(InputTag)))
  {
    var ls := [InputTag, InputTag];
    assert IsInputLine(InputTag);
    assert Flatten<char>([]) == [] && InputTag + [] == InputTag;
    assert NextInput(ls, 1) == 1;
    assert ls[1..1] == [];
    assert NextInput(ls, 2) == 2;
    assert ls[2..2] == [];
  }
}
