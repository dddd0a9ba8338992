/**
 * The chunk-merging rule of `python/split_audio_on_silence.py`, over chunk
 * durations in milliseconds: consecutive chunks shorter than two seconds are
 * joined, with 300 ms of silence between them, until the joined chunk is two
 * seconds long; each result is padded with 300 ms on both sides and exported
 * under the next number of a counter shared by all files of one work.
 */
module SplitAudio {
  import opened Seqs

  /** The duration of the silence placed between and around chunks. */
  const Padding: nat := 300
  /** The duration a chunk must reach to be exported on its own. */
  const MinLength: nat := 2000

  /**
   * The duration of a group of chunks joined with padding between them, built
   * the way the loop builds it: each further chunk adds the padding and itself.
   */
  function Merged(g: seq<nat>): (r: nat)
    requires |g| > 0
    ensures r >= g[0] && r >= g[|g| - 1]
  {
    if |g| == 1 then g[0] else Merged(g[..|g| - 1]) + Padding + g[|g| - 1]
  }

  /** A merged group lasts as long as its members plus the padding between them. */
  lemma {:induction false} MergedLength(g: seq<nat>)
    requires |g| > 0
    ensures Merged(g) == Sum(g) + Padding * (|g| - 1)
    decreases |g|
  {
    if |g| > 1 {
      var init := g[..|g| - 1];
      MergedLength(init);
      assert g == init + [g[|g| - 1]];
      SumAppend(init, [g[|g| - 1]]);
      assert Sum([g[|g| - 1]]) == g[|g| - 1];
    }
  }

  /** Extending a group with the chunk that follows it. */
  lemma MergedSnoc(ds: seq<nat>, s: nat, m: nat)
    requires s < m < |ds|
    ensures Merged(ds[s..m + 1]) == Merged(ds[s..m]) + Padding + ds[m]
  {
    assert ds[s..m + 1][..m - s] == ds[s..m];
  }

  /**
   * Where a group whose first `k` chunks have merged duration `acc` ends: the
   * inner loop absorbs the next chunk while the duration is short and chunks
   * remain.
   */
  function MergeEnd(ds: seq<nat>, k: nat, acc: int): (r: nat)
    requires k <= |ds|
    ensures k <= r <= |ds|
    decreases |ds| - k
  {
    if acc >= MinLength || k == |ds| then k else MergeEnd(ds, k + 1, acc + Padding + ds[k])
  }

  /** A group of chunks exported together; never empty. */
  type Group = g: seq<nat> | |g| > 0 witness [0]

  /** Every group holds at least one chunk. */
  predicate NoEmptyGroup(gs: seq<Group>)
  {
    forall k :: 0 <= k < |gs| ==> gs[k] != []
  }

  /**
   * The groups the loop exports from `ds[i..]`, in order: each starts at the
   * first chunk not yet exported and runs to where merging stops.
   */
  function GroupsFrom(ds: seq<nat>, i: nat): (r: seq<Group>)
    requires i <= |ds|
    ensures NoEmptyGroup(r)
    decreases |ds| - i
  {
    if i == |ds| then []
    else
      var j := MergeEnd(ds, i + 1, ds[i]);
      [ds[i..j]] + GroupsFrom(ds, j)
  }

  /** The groups cover every chunk exactly once, in order. */
  lemma {:induction false} GroupsPartition(ds: seq<nat>, i: nat)
    requires i <= |ds|
    ensures Flatten(GroupsFrom(ds, i)) == ds[i..]
    decreases |ds| - i
  {
    if i < |ds| {
      var j := MergeEnd(ds, i + 1, ds[i]);
      GroupsPartition(ds, j);
      var gs := GroupsFrom(ds, i);
      assert gs[0] == ds[i..j] && gs[1..] == GroupsFrom(ds, j);
      assert ds[i..j] + ds[j..] == ds[i..];
    }
  }

  /**
   * What merging stops at, for a group that starts at `s` and has absorbed
   * the chunks before `k`: every shorter group from `s` was under the
   * minimum, and the group is at the minimum or takes the last chunk.
   */
  lemma {:induction false} MergeEndStops(ds: seq<nat>, s: nat, k: nat)
    requires s < k <= |ds|
    ensures var r := MergeEnd(ds, k, Merged(ds[s..k]));
      && (r == |ds| || Merged(ds[s..r]) >= MinLength)
      && forall m :: k <= m < r ==> Merged(ds[s..m]) < MinLength
    decreases |ds| - k
  {
    if Merged(ds[s..k]) < MinLength && k < |ds| {
      MergedSnoc(ds, s, k);
      MergeEndStops(ds, s, k + 1);
    }
  }

  /** The first group of `ds[i..]`, and the ones after it. */
  lemma FirstGroup(ds: seq<nat>, i: nat)
    requires i < |ds|
    ensures var j := MergeEnd(ds, i + 1, ds[i]);
      && GroupsFrom(ds, i)[0] == ds[i..j]
      && GroupsFrom(ds, i)[1..] == GroupsFrom(ds, j)
      && (j == |ds| || Merged(ds[i..j]) >= MinLength)
      && forall m :: i + 1 <= m < j ==> Merged(ds[i..m]) < MinLength
  {
    assert ds[i..i + 1] == [ds[i]];
    MergeEndStops(ds, i, i + 1);
  }

  /**
   * How a group is formed: one that starts with a chunk of at least the
   * minimum is that chunk alone, and one that starts shorter absorbs chunks
   * exactly until it reaches the minimum or the chunks run out.
   */
  lemma {:induction false} GroupsFormed(ds: seq<nat>, i: nat)
    requires i <= |ds|
    ensures var gs := GroupsFrom(ds, i);
      forall k :: 0 <= k < |gs| ==>
        && (gs[k][0] >= MinLength ==> |gs[k]| == 1)
        && (forall m :: 1 <= m < |gs[k]| ==> Merged(gs[k][..m]) < MinLength)
        && (k < |gs| - 1 ==> Merged(gs[k]) >= MinLength)
    decreases |ds| - i
  {
    if i < |ds| {
      var j := MergeEnd(ds, i + 1, ds[i]);
      FirstGroupFormed(ds, i);
      GroupsFormed(ds, j);
      var gs := GroupsFrom(ds, i);
      assert gs[1..] == GroupsFrom(ds, j);
      forall k | 1 <= k < |gs| ensures gs[k] == GroupsFrom(ds, j)[k - 1] {
      }
    }
  }

  /** The first group of `ds[i..]` is formed as `GroupsFormed` states. */
  lemma FirstGroupFormed(ds: seq<nat>, i: nat)
    requires i < |ds|
    ensures var gs := GroupsFrom(ds, i);
      && |gs| >= 1
      && (gs[0][0] >= MinLength ==> |gs[0]| == 1)
      && (forall m :: 1 <= m < |gs[0]| ==> Merged(gs[0][..m]) < MinLength)
      && (1 < |gs| ==> Merged(gs[0]) >= MinLength)
  {
    var j := MergeEnd(ds, i + 1, ds[i]);
    FirstGroup(ds, i);
    var gs := GroupsFrom(ds, i);
    var g := gs[0];
    assert g == ds[i..j];
    forall m | 1 <= m < |g| ensures Merged(g[..m]) < MinLength {
      SlicePrefix(ds, i, j, m);
    }
    if ds[i] >= MinLength {
      assert Merged(ds[i..i + 1]) >= MinLength by { assert ds[i..i + 1] == [ds[i]]; }
    }
    if 1 < |gs| {
      assert j < |ds| by { assert GroupsFrom(ds, j) != []; }
    }
  }

  // ---------------------------------------------------------------------------
  // Export numbering
  // ---------------------------------------------------------------------------

  /** The `yieldInts` generator: the next number it yields. */
  class Counter {
    var next: nat

    /** A fresh generator, as made for each work. */
    constructor ()
      ensures next == 0
    {
      next := 0;
    }

    /** `next(ints)`: the current number, after which the count goes up by one. */
    method Next() returns (j: nat)
      modifies this
      ensures j == old(next) && next == old(next) + 1
    {
      j := next;
      next := next + 1;
    }
  }

  function DigitChar(d: nat): (c: char)
    requires d < 10
    ensures '0' <= c <= '9'
  {
    (('0' as int) + d) as char
  }

  function DigitValue(c: char): (d: nat)
    requires '0' <= c <= '9'
    ensures d < 10 && DigitChar(d) == c
  {
    (c as int) - ('0' as int)
  }

  predicate AllDigits(s: string)
  {
    forall k :: 0 <= k < |s| ==> '0' <= s[k] <= '9'
  }

  /** The decimal digits of `n`, without leading zeros. */
  function Decimal(n: nat): (r: string)
    ensures |r| >= 1 && AllDigits(r)
  {
    if n < 10 then [DigitChar(n)] else Decimal(n / 10) + [DigitChar(n % 10)]
  }

  /** The number a string of digits denotes. */
  function ParseDecimal(s: string): nat
    requires AllDigits(s)
  {
    if s == [] then 0 else ParseDecimal(s[..|s| - 1]) * 10 + DigitValue(s[|s| - 1])
  }

  lemma {:induction false} DecimalRoundTrip(n: nat)
    ensures ParseDecimal(Decimal(n)) == n
  {
    if n >= 10 {
      DecimalRoundTrip(n / 10);
      var r := Decimal(n);
      assert r[..|r| - 1] == Decimal(n / 10);
    }
  }

  /** Leading zeros do not change the number. */
  lemma {:induction false} LeadingZeros(z: nat, s: string)
    requires AllDigits(s)
    ensures AllDigits(seq(z, _ => '0') + s)
    ensures ParseDecimal(seq(z, _ => '0') + s) == ParseDecimal(s)
    decreases |s|
  {
    var zs: string := seq(z, _ => '0');
    var t := zs + s;
    assert forall k :: 0 <= k < |t| ==> '0' <= t[k] <= '9' by {
      forall k | 0 <= k < |t| ensures '0' <= t[k] <= '9' {
        if k < z { assert t[k] == zs[k]; } else { assert t[k] == s[k - z]; }
      }
    }
    if s == [] {
      assert t == zs;
      AllZeros(z);
    } else {
      var init := s[..|s| - 1];
      LeadingZeros(z, init);
      assert t[..|t| - 1] == zs + init;
    }
  }

  lemma {:induction false} AllZeros(z: nat)
    ensures AllDigits(seq(z, _ => '0'))
    ensures ParseDecimal(seq(z, _ => '0')) == 0
  {
    if z > 0 {
      AllZeros(z - 1);
      var zs: string := seq(z, _ => '0');
      assert zs[..z - 1] == seq(z - 1, _ => '0');
    }
  }

  /** `f"{j:06}"`: the decimal digits of `j`, padded with zeros to six characters. */
  function Padded(j: nat): (r: string)
    ensures AllDigits(r) && |r| >= 6
  {
    var d := Decimal(j);
    if |d| >= 6 then d
    else
      LeadingZeros(6 - |d|, d);
      seq(6 - |d|, _ => '0') + d
  }

  /** The file name an export numbered `j` is written under. */
  function ExportName(j: nat): (r: string)
    ensures |r| >= 10 && r[|r| - 4..] == ".wav"
  {
    Padded(j) + ".wav"
  }

  /** The number can be read back from the file name, so names never collide. */
  lemma ExportNameRoundTrip(j: nat)
    ensures var r := ExportName(j);
      && |r| >= 10 && r[|r| - 4..] == ".wav"
      && AllDigits(r[..|r| - 4]) && ParseDecimal(r[..|r| - 4]) == j
  {
    var p := Padded(j);
    PaddedRoundTrip(j);
    var r := p + ".wav";
    assert r[..|r| - 4] == p;
    assert r[|r| - 4..] == ".wav";
  }

  /** The padded digits denote the number. */
  lemma PaddedRoundTrip(j: nat)
    ensures ParseDecimal(Padded(j)) == j
  {
    DecimalRoundTrip(j);
    var d := Decimal(j);
    if |d| < 6 {
      LeadingZeros(6 - |d|, d);
    }
  }

  lemma ExportNamesDistinct(i: nat, j: nat)
    requires i != j
    ensures ExportName(i) != ExportName(j)
  {
    ExportNameRoundTrip(i);
    ExportNameRoundTrip(j);
  }

  /** Numbers below a million have at most six digits. */
  lemma {:induction false} DecimalLength(n: nat, w: nat, p: nat)
    requires 1 <= w && p >= 1 && n < p * 10 && p == Power10(w - 1)
    ensures |Decimal(n)| <= w
    decreases w
  {
    if n >= 10 {
      assert w > 1;
      DecimalLength(n / 10, w - 1, p / 10);
    }
  }

  function Power10(k: nat): (r: nat)
    ensures r >= 1
  {
    if k == 0 then 1 else 10 * Power10(k - 1)
  }

  /** Below a million the name is exactly six digits and the extension. */
  lemma ExportNameWidth(j: nat)
    requires j < 1000000
    ensures |ExportName(j)| == 10
  {
    assert Power10(5) == 100000;
    DecimalLength(j, 6, 100000);
  }

  // ---------------------------------------------------------------------------
  // The loop
  // ---------------------------------------------------------------------------

  /** One exported file: its number, which names it through `ExportName`, and its duration. */
  datatype Export = Export(number: nat, duration: nat)

  /**
   * The exports of a list of groups numbered from `n`: each is the merged
   * group with the padding on both sides.
   */
  function Exports(n: nat, gs: seq<Group>): (r: seq<Export>)
    ensures |r| == |gs|
    decreases |gs|
  {
    if gs == [] then []
    else [Export(n, Padding + Merged(gs[0]) + Padding)] + Exports(n + 1, gs[1..])
  }

  /**
   * Export `k` is numbered `n + k` and lasts as long as its group's members
   * with the padding between and around them.
   */
  lemma {:induction false} ExportsNumbered(n: nat, gs: seq<Group>)
    ensures forall k :: 0 <= k < |gs| ==>
      && Exports(n, gs)[k].number == n + k
      && Exports(n, gs)[k].duration == Sum(gs[k]) + Padding * (|gs[k]| + 1)
    decreases |gs|
  {
    if gs != [] {
      var es := Exports(n, gs);
      ExportsNumbered(n + 1, gs[1..]);
      assert es[1..] == Exports(n + 1, gs[1..]);
      forall k | 0 <= k < |gs|
        ensures es[k].number == n + k
        ensures es[k].duration == Sum(gs[k]) + Padding * (|gs[k]| + 1)
      {
        if k == 0 {
          MergedLength(gs[0]);
        } else {
          assert es[k] == es[1..][k - 1] && gs[k] == gs[1..][k - 1];
        }
      }
    }
  }

  lemma {:induction false} ExportsAppend(n: nat, a: seq<Group>, b: seq<Group>)
    ensures Exports(n, a + b) == Exports(n, a) + Exports(n + |a|, b)
    decreases |a|
  {
    if a == [] {
      assert a + b == b;
    } else {
      var ab := a + b;
      assert ab[1..] == a[1..] + b;
      assert ab[0] == a[0];
      ExportsAppend(n + 1, a[1..], b);
      var e := [Export(n, Padding + Merged(a[0]) + Padding)];
      var rest, later := Exports(n + 1, a[1..]), Exports(n + |a|, b);
      assert Exports(n, ab) == e + (rest + later);
      assert Exports(n, a) == e + rest;
      assert e + (rest + later) == (e + rest) + later;
    }
  }

  /**
   * The inner loop: starting from a short chunk, absorb the following chunks
   * with padding until the duration reaches the minimum or the chunks run out.
   */
  method Absorb(chunks: seq<nat>, start: nat) returns (chunk: nat, i: nat)
    requires start < |chunks|
    ensures i == MergeEnd(chunks, start + 1, chunks[start])
    ensures chunk == Merged(chunks[start..i])
  {
    chunk := chunks[start];
    i := start + 1;
    assert chunks[start..i] == [chunks[start]];
    while chunk < MinLength && i < |chunks|
      invariant start < i <= |chunks|
      invariant chunk == Merged(chunks[start..i])
      invariant MergeEnd(chunks, i, chunk) == MergeEnd(chunks, start + 1, chunks[start])
      decreases |chunks| - i
    {
      MergedSnoc(chunks, start, i);
      chunk := chunk + Padding + chunks[i];
      i := i + 1;
    }
  }

  /**
   * One turn of the loop over the chunks of one file: form the group that
   * starts at `i`, pad it, and export it under the counter's next number.
   */
  method ExportGroup(ints: Counter, chunks: seq<nat>, i: nat) returns (e: Export, i': nat)
    requires i < |chunks|
    modifies ints
    ensures i' == MergeEnd(chunks, i + 1, chunks[i])
    ensures e == Export(old(ints.next), Padding + Merged(chunks[i..i']) + Padding)
    ensures ints.next == old(ints.next) + 1
  {
    i' := i;
    var flag := false;
    var chunk := chunks[i'];
    if chunk < MinLength {
      chunk, i' := Absorb(chunks, i');
      flag := true;
    } else {
      assert chunks[i..i + 1] == [chunks[i]];
    }
    var audioChunk := Padding + chunk + Padding;
    var j := ints.Next();
    e := Export(j, audioChunk);
    if !flag {
      i' := i' + 1;
    }
  }

  /**
   * The loop over the chunks of one file: every group is exported, padded,
   * under the next number of the counter.
   */
  method SplitFile(ints: Counter, chunks: seq<nat>) returns (exports: seq<Export>)
    modifies ints
    ensures exports == Exports(old(ints.next), GroupsFrom(chunks, 0))
    ensures ints.next == old(ints.next) + |GroupsFrom(chunks, 0)|
  {
    ghost var n0 := ints.next;
    ghost var total := Exports(n0, GroupsFrom(chunks, 0));
    exports := [];
    var i := 0;
    while i < |chunks|
      invariant i <= |chunks|
      invariant ints.next == n0 + |exports|
      invariant exports + Exports(n0 + |exports|, GroupsFrom(chunks, i)) == total
      decreases |chunks| - i
    {
      ghost var before, start := exports, i;
      var e;
      e, i := ExportGroup(ints, chunks, i);
      ExportStep(chunks, start, i, n0 + |before|, e, before, total);
      exports := exports + [e];
    }
    assert exports + [] == total;
  }

  /**
   * One turn of the loop keeps its invariant: the export of the first group
   * of `ds[i..]` moves from the exports still to come to those made.
   */
  lemma ExportStep(ds: seq<nat>, i: nat, i': nat, n: nat, e: Export, before: seq<Export>, total: seq<Export>)
    requires i < |ds| && i' == MergeEnd(ds, i + 1, ds[i])
    requires e == Export(n, Padding + Merged(ds[i..i']) + Padding)
    requires before + Exports(n, GroupsFrom(ds, i)) == total
    ensures (before + [e]) + Exports(n + 1, GroupsFrom(ds, i')) == total
  {
    var gs := GroupsFrom(ds, i);
    assert gs[0] == ds[i..i'] && gs[1..] == GroupsFrom(ds, i');
    var later := Exports(n + 1, GroupsFrom(ds, i'));
    assert Exports(n, gs) == [e] + later;
    assert before + ([e] + later) == (before + [e]) + later;
  }

  /**
   * The processing of one work: a fresh counter, then every audio file in
   * order. The exports are numbered 0, 1, 2, ... across all the files.
   */
  method SplitWork(files: seq<seq<nat>>) returns (exports: seq<Export>)
    ensures exports == Exports(0, AllGroups(files))
  {
    var ints := new Counter();
    exports := [];
    var f := 0;
    while f < |files|
      invariant f <= |files|
      invariant ints.next == |exports|
      invariant exports == Exports(0, AllGroups(files[..f]))
      invariant |AllGroups(files[..f])| == |exports|
    {
      var more := SplitFile(ints, files[f]);
      AllGroupsSnoc(files[..f], files[f]);
      assert files[..f + 1] == files[..f] + [files[f]];
      ExportsAppend(0, AllGroups(files[..f]), GroupsFrom(files[f], 0));
      exports := exports + more;
      f := f + 1;
    }
    assert files[..f] == files;
  }

  /** The groups of all files, one file after the other. */
  function AllGroups(files: seq<seq<nat>>): (r: seq<Group>)
    ensures NoEmptyGroup(r)
  {
    if files == [] then [] else AllGroups(files[..|files| - 1]) + GroupsFrom(files[|files| - 1], 0)
  }

  lemma AllGroupsSnoc(files: seq<seq<nat>>, f: seq<nat>)
    ensures AllGroups(files + [f]) == AllGroups(files) + GroupsFrom(f, 0)
  {
    assert (files + [f])[..|files|] == files;
  }

  /** The exports of a work are numbered consecutively from zero across all its files. */
  lemma WorkNumbering(files: seq<seq<nat>>)
    ensures forall k :: 0 <= k < |Exports(0, AllGroups(files))| ==>
      Exports(0, AllGroups(files))[k].number == k
  {
    ExportsNumbered(0, AllGroups(files));
  }
}
