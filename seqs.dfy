/** Generic sequence operations that the Python code writes as comprehensions. */
module Seqs {

  /** `[x for x in s if p(x)]`: the elements of `s` that satisfy `p`, in order. */
  function Filter<T>(s: seq<T>, p: T -> bool): (r: seq<T>)
    ensures |r| <= |s|
    ensures forall i :: 0 <= i < |r| ==> p(r[i]) && r[i] in s
    ensures forall i :: 0 <= i < |s| && p(s[i]) ==> s[i] in r
  {
    if s == [] then [] else (if p(s[0]) then [s[0]] else []) + Filter(s[1..], p)
  }

  /** Filtering a non-empty sequence: its first element, if it passes, then the filtered rest. */
  lemma FilterCons<T>(s: seq<T>, p: T -> bool)
    requires s != []
    ensures Filter(s, p) == (if p(s[0]) then [s[0]] else []) + Filter(s[1..], p)
  {
  }

  lemma {:induction false} FilterAppend<T>(a: seq<T>, b: seq<T>, p: T -> bool)
    ensures Filter(a + b, p) == Filter(a, p) + Filter(b, p)
  {
    if a == [] {
      assert a + b == b;
    } else {
      assert (a + b)[1..] == a[1..] + b;
      FilterAppend(a[1..], b, p);
    }
  }

  /** An element is kept exactly when it occurs and passes. */
  lemma FilterMembers<T>(s: seq<T>, p: T -> bool)
    ensures forall x :: x in Filter(s, p) <==> x in s && p(x)
  {
    var r := Filter(s, p);
    forall x | x in r ensures x in s && p(x) {
      var i :| 0 <= i < |r| && r[i] == x;
    }
    forall x | x in s && p(x) ensures x in r {
      var i :| 0 <= i < |s| && s[i] == x;
    }
  }

  /** Filtering one more element at the end. */
  lemma FilterSnoc<T>(a: seq<T>, x: T, p: T -> bool)
    ensures Filter(a + [x], p) == Filter(a, p) + (if p(x) then [x] else [])
  {
    FilterAppend(a, [x], p);
    assert [x][1..] == [];
  }

  /** Filtering keeps a sequence unchanged exactly when every element passes. */
  lemma {:induction false} FilterKeepsAll<T>(s: seq<T>, p: T -> bool)
    ensures Filter(s, p) == s <==> forall i :: 0 <= i < |s| ==> p(s[i])
  {
    if s != [] {
      FilterKeepsAll(s[1..], p);
      if !p(s[0]) {
        assert |Filter(s, p)| < |s| by { assert |Filter(s[1..], p)| <= |s[1..]|; }
      }
    }
  }

  lemma FilterIdempotent<T>(s: seq<T>, p: T -> bool)
    ensures Filter(Filter(s, p), p) == Filter(s, p)
  {
    FilterKeepsAll(Filter(s, p), p);
  }

  /** `"".join(ss)` on a list of strings, or list concatenation in general. */
  function Flatten<T>(ss: seq<seq<T>>): (r: seq<T>)
    ensures |ss| == 1 ==> r == ss[0]
  {
    if ss == [] then [] else ss[0] + Flatten(ss[1..])
  }

  lemma {:induction false} FlattenAppend<T>(a: seq<seq<T>>, b: seq<seq<T>>)
    ensures Flatten(a + b) == Flatten(a) + Flatten(b)
  {
    if a == [] {
      assert a + b == b;
    } else {
      assert (a + b)[1..] == a[1..] + b;
      FlattenAppend(a[1..], b);
    }
  }

  /** A prefix one longer is the prefix with the next element appended. */
  lemma TakeOneMore<T>(s: seq<T>, k: nat)
    requires k < |s|
    ensures s[..k + 1] == s[..k] + [s[k]]
  {
  }

  /** The empty sequence is the unit of concatenation. */
  lemma AppendNil<T>(a: seq<T>)
    ensures a + [] == a && [] + a == a
  {
  }

  /** Concatenation is associative. */
  lemma AppendAssoc<T>(a: seq<T>, b: seq<T>, c: seq<T>)
    ensures a + (b + c) == (a + b) + c
  {
  }

  /** A prefix of a slice is the shorter slice. */
  lemma SlicePrefix<T>(s: seq<T>, i: nat, j: nat, m: nat)
    requires i + m <= j <= |s|
    ensures s[i..j][..m] == s[i..i + m]
  {
  }

  /** An element of either part is an element of a concatenation. */
  lemma InAppend<T>(x: T, a: seq<T>, b: seq<T>)
    ensures x in a ==> x in a + b
    ensures x in b ==> x in a + b
  {
    if x in b {
      var k :| 0 <= k < |b| && b[k] == x;
      assert (a + b)[|a| + k] == x;
    }
  }

  lemma FlattenCons<T>(x: seq<T>, ss: seq<seq<T>>)
    ensures Flatten([x] + ss) == x + Flatten(ss)
  {
    assert ([x] + ss)[1..] == ss;
  }

  lemma FlattenSnoc<T>(ss: seq<seq<T>>, x: seq<T>)
    ensures Flatten(ss + [x]) == Flatten(ss) + x
  {
    FlattenAppend(ss, [x]);
  }

  function Sum(xs: seq<int>): int
  {
    if xs == [] then 0 else xs[0] + Sum(xs[1..])
  }

  lemma {:induction false} SumAppend(a: seq<int>, b: seq<int>)
    ensures Sum(a + b) == Sum(a) + Sum(b)
  {
    if a == [] {
      assert a + b == b;
    } else {
      assert (a + b)[1..] == a[1..] + b;
      SumAppend(a[1..], b);
    }
  }
}
