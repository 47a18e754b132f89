/**
 * Replacing spans of a sequence.  Several scripts rewrite a document by
 * collecting (start, end, replacement) edits and then either splicing them
 * one at a time from the last to the first, or rebuilding the document
 * front to back from the gaps between them.  This module defines both
 * readings and proves that they agree on sorted, disjoint edits.
 */
module Edits {
  import opened Strings

  /** Replace `s[start..end]` by `repl`. */
  datatype Edit<T> = Edit(start: nat, end: nat, repl: seq<T>)

  /** Edits are in order, do not overlap, start at or after `from` and end by `bound`. */
  ghost predicate Chain<T>(edits: seq<Edit<T>>, from: nat, bound: nat)
    decreases |edits|
  {
    if edits == [] then from <= bound
    else from <= edits[0].start <= edits[0].end && Chain(edits[1..], edits[0].end, bound)
  }

  /**
   * Front-to-back rebuild as Python does it: the gap `s[last:start]`, the
   * replacement, and so on, then `s[last:]`.  Gaps use Python's clamping
   * slices, so overlapping edits are also given their Python meaning.
   */
  function Interleave<T>(s: seq<T>, edits: seq<Edit<T>>, last: nat): (r: seq<T>)
    ensures edits == [] ==> r == PySlice(s, last, |s|)
  {
    if edits == [] then PySlice(s, last, |s|)
    else PySlice(s, last, edits[0].start) + edits[0].repl + Interleave(s, edits[1..], edits[0].end)
  }

  /** `s[:start] + repl + s[end:]` with Python's clamping slices. */
  function Splice<T>(s: seq<T>, e: Edit<T>): (r: seq<T>)
    ensures e.start <= e.end <= |s| ==> r == s[..e.start] + e.repl + s[e.end..]
  {
    PySlice(s, 0, e.start) + e.repl + PySlice(s, e.end, |s|)
  }

  /** Splice the edits one at a time, the last edit first. */
  function SpliceBackToFront<T>(s: seq<T>, edits: seq<Edit<T>>): seq<T>
    decreases |edits|
  {
    if edits == [] then s
    else SpliceBackToFront(Splice(s, edits[|edits| - 1]), edits[..|edits| - 1])
  }

  lemma {:induction false} ChainBounds<T>(edits: seq<Edit<T>>, from: nat, bound: nat)
    requires Chain(edits, from, bound)
    ensures from <= bound
    ensures forall i :: 0 <= i < |edits| ==> from <= edits[i].start <= edits[i].end <= bound
  {
    if edits != [] {
      ChainBounds(edits[1..], edits[0].end, bound);
      assert forall i :: 1 <= i < |edits| ==> edits[i] == edits[1..][i - 1];
    }
  }

  /** Dropping the last edit leaves a chain that ends where that edit starts. */
  lemma {:induction false} ChainDropLast<T>(edits: seq<Edit<T>>, from: nat, bound: nat)
    requires Chain(edits, from, bound) && edits != []
    ensures Chain(edits[..|edits| - 1], from, edits[|edits| - 1].start)
    ensures edits[|edits| - 1].start <= edits[|edits| - 1].end <= bound
  {
    var n := |edits|;
    if n == 1 {
      assert edits[..0] == [];
      ChainBounds(edits[1..], edits[0].end, bound);
    } else {
      ChainDropLast(edits[1..], edits[0].end, bound);
      assert edits[1..][..n - 2] == edits[..n - 1][1..];
      assert edits[1..][n - 2] == edits[n - 1];
    }
  }

  /** An edit after the last one extends a chain. */
  lemma {:induction false} ChainSnoc<T>(edits: seq<Edit<T>>, e: Edit<T>, from: nat, bound: nat)
    requires Chain(edits, from, e.start) && e.start <= e.end <= bound
    ensures Chain(edits + [e], from, bound)
    decreases |edits|
  {
    if edits != [] {
      assert (edits + [e])[1..] == edits[1..] + [e];
      ChainSnoc(edits[1..], e, edits[0].end, bound);
    }
  }

  lemma {:induction false} ChainWiden<T>(edits: seq<Edit<T>>, from: nat, bound: nat, bound': nat)
    requires Chain(edits, from, bound) && bound <= bound'
    ensures Chain(edits, from, bound')
  {
    if edits != [] {
      ChainWiden(edits[1..], edits[0].end, bound, bound');
    }
  }

  lemma {:induction false} ChainWidenFrom<T>(edits: seq<Edit<T>>, from: nat, from': nat, bound: nat)
    requires Chain(edits, from', bound) && from <= from'
    ensures Chain(edits, from, bound)
  {
  }

  /** Before the first edit, the rebuild copies the gap: starting earlier adds `s[a..b]` in front. */
  lemma InterleaveSkip<T>(s: seq<T>, edits: seq<Edit<T>>, a: nat, b: nat)
    requires a <= b <= |s| && Chain(edits, b, |s|)
    ensures Interleave(s, edits, a) == s[a..b] + Interleave(s, edits, b)
  {
    ChainBounds(edits, b, |s|);
    if edits == [] {
      assert s[a..] == s[a..b] + s[b..];
    } else {
      var e := edits[0];
      assert s[a..e.start] == s[a..b] + s[b..e.start];
      AppendAssoc(s[a..b], s[b..e.start], e.repl);
      AppendAssoc(s[a..b], s[b..e.start] + e.repl, Interleave(s, edits[1..], e.end));
    }
  }

  /** Edits that all end by `k` see only `s[..k]`; the rest of `s` follows unchanged. */
  lemma {:induction false} InterleaveSeesPrefix<T>(s: seq<T>, edits: seq<Edit<T>>, from: nat, k: nat)
    requires k <= |s| && Chain(edits, from, k)
    ensures Interleave(s, edits, from) == Interleave(s[..k], edits, from) + s[k..]
  {
    if edits == [] {
      assert s[from..] == s[..k][from..] + s[k..];
    } else {
      var e := edits[0];
      ChainBounds(edits[1..], e.end, k);
      InterleaveSeesPrefix(s, edits[1..], e.end, k);
      assert PySlice(s, from, e.start) == PySlice(s[..k], from, e.start);
      calc {
        Interleave(s, edits, from);
        PySlice(s, from, e.start) + e.repl + Interleave(s, edits[1..], e.end);
        PySlice(s[..k], from, e.start) + e.repl + (Interleave(s[..k], edits[1..], e.end) + s[k..]);
        (PySlice(s[..k], from, e.start) + e.repl + Interleave(s[..k], edits[1..], e.end)) + s[k..];
      }
    }
  }

  /** Rebuilding with one more edit at the end. */
  lemma {:induction false} InterleaveSnoc<T>(s: seq<T>, edits: seq<Edit<T>>, e: Edit<T>, from: nat)
    requires e.start <= e.end <= |s| && Chain(edits, from, e.start)
    ensures Interleave(s, edits + [e], from) == Interleave(s[..e.start], edits, from) + e.repl + s[e.end..]
    decreases |edits|
  {
    if edits == [] {
      InterleaveSingle(s, e, from);
    } else {
      var e0 := edits[0];
      assert Chain(edits[1..], e0.end, e.start);
      ChainBounds(edits[1..], e0.end, e.start);
      InterleaveSnoc(s, edits[1..], e, e0.end);
      InterleaveSnocStep(s, edits, e, from);
    }
  }

  /** The first edit and the gap before it come first on both sides of InterleaveSnoc. */
  lemma InterleaveSnocStep<T>(s: seq<T>, edits: seq<Edit<T>>, e: Edit<T>, from: nat)
    requires edits != [] && e.start <= e.end <= |s|
    requires from <= edits[0].start <= edits[0].end <= e.start
    requires Interleave(s, edits[1..] + [e], edits[0].end)
      == Interleave(s[..e.start], edits[1..], edits[0].end) + e.repl + s[e.end..]
    ensures Interleave(s, edits + [e], from) == Interleave(s[..e.start], edits, from) + e.repl + s[e.end..]
  {
    var e0 := edits[0];
    var tail := edits[1..];
    var p := s[..e.start];
    SnocFirst(edits, e);
    var A := PySlice(s, from, e0.start) + e0.repl;
    PySlicePrefix(s, e.start, from, e0.start);
    var X := Interleave(p, tail, e0.end);
    assert Interleave(s, edits + [e], from) == A + (X + e.repl + s[e.end..]);
    assert Interleave(p, edits, from) == A + X;
    ConcatAssoc(A, X, e.repl, s[e.end..]);
  }

  /** A slice of a prefix is the same slice of the whole. */
  lemma PySlicePrefix<T>(s: seq<T>, n: nat, a: nat, b: nat)
    requires a <= b <= n <= |s|
    ensures PySlice(s[..n], a, b) == PySlice(s, a, b)
  {
    assert s[..n][a..b] == s[a..b];
  }

  lemma SnocFirst<T>(edits: seq<Edit<T>>, e: Edit<T>)
    requires edits != []
    ensures (edits + [e])[0] == edits[0] && (edits + [e])[1..] == edits[1..] + [e]
  {
  }

  lemma ConcatAssoc<T>(a: seq<T>, x: seq<T>, b: seq<T>, c: seq<T>)
    ensures a + (x + b + c) == (a + x) + b + c
  {
  }

  lemma InterleaveSingle<T>(s: seq<T>, e: Edit<T>, from: nat)
    requires from <= e.start <= e.end <= |s|
    ensures Interleave(s, [e], from) == Interleave(s[..e.start], [], from) + e.repl + s[e.end..]
  {
    assert [e][1..] == [];
    assert Interleave(s, [e], from) == PySlice(s, from, e.start) + e.repl + Interleave(s, [], e.end);
    assert s[from..e.start] == s[..e.start][from..];
  }

  /**
   * Splicing sorted, disjoint edits from the last to the first keeps every
   * original offset valid: the outcome is the front-to-back rebuild.
   */
  lemma {:induction false} BackToFrontIsInterleave<T>(s: seq<T>, edits: seq<Edit<T>>)
    requires Chain(edits, 0, |s|)
    ensures SpliceBackToFront(s, edits) == Interleave(s, edits, 0)
    decreases |edits|
  {
    if edits != [] {
      var n := |edits|;
      var e := edits[n - 1];
      var rest := edits[..n - 1];
      ChainDropLast(edits, 0, |s|);
      var t := Splice(s, e);
      ChainWiden(rest, 0, e.start, |s[..e.start] + e.repl + s[e.end..]|);
      BackToFrontIsInterleave(t, rest);
      LastSpliceStep(s, rest, e);
      assert rest + [e] == edits;
    }
  }

  lemma {:induction false} LastSpliceStep<T>(s: seq<T>, rest: seq<Edit<T>>, e: Edit<T>)
    requires e.start <= e.end <= |s| && Chain(rest, 0, e.start)
    ensures Interleave(Splice(s, e), rest, 0) == Interleave(s, rest + [e], 0)
  {
    var t := Splice(s, e);
    var p := s[..e.start];
    var q := e.repl + s[e.end..];
    assert t == p + q;
    assert t[..e.start] == p;
    assert t[e.start..] == q;
    InterleaveSeesPrefix(t, rest, 0, e.start);
    InterleaveSnoc(s, rest, e, 0);
    var x := Interleave(p, rest, 0);
    assert Interleave(t, rest, 0) == x + q;
    assert Interleave(s, rest + [e], 0) == x + e.repl + s[e.end..];
  }

  /** Splicing a list back to front splices its first edit last. */
  lemma {:induction false} SpliceBackToFrontCons<T>(s: seq<T>, e: Edit<T>, edits: seq<Edit<T>>)
    ensures SpliceBackToFront(s, [e] + edits) == Splice(SpliceBackToFront(s, edits), e)
    decreases |edits|
  {
    if edits == [] {
      assert [e] + edits == [e];
      assert [e][..0] == [];
    } else {
      var n := |edits|;
      var both := [e] + edits;
      assert both[|both| - 1] == edits[n - 1];
      assert both[..|both| - 1] == [e] + edits[..n - 1];
      SpliceBackToFrontCons(Splice(s, edits[n - 1]), e, edits[..n - 1]);
    }
  }

  /** Output length: the original length plus, per edit, the growth of its span. */
  function Growth<T>(edits: seq<Edit<T>>): int
  {
    if edits == [] then 0 else |edits[0].repl| - (edits[0].end - edits[0].start) + Growth(edits[1..])
  }

  lemma {:induction false} InterleaveLength<T>(s: seq<T>, edits: seq<Edit<T>>, from: nat)
    requires Chain(edits, from, |s|)
    ensures |Interleave(s, edits, from)| == |s| - from + Growth(edits)
  {
    if edits != [] {
      ChainBounds(edits[1..], edits[0].end, |s|);
      InterleaveLength(s, edits[1..], edits[0].end);
    }
  }

  // ---- stable sorting by a key, as Python's sorted(xs, key=...) ----

  ghost predicate SortedBy<T>(xs: seq<T>, key: T -> int) {
    forall i, j :: 0 <= i < j < |xs| ==> key(xs[i]) <= key(xs[j])
  }

  /** Insert `x` after every element whose key is not larger (keeps equal keys in order). */
  function InsertBy<T>(x: T, xs: seq<T>, key: T -> int): (r: seq<T>)
    requires SortedBy(xs, key)
    ensures SortedBy(r, key)
    ensures multiset(r) == multiset(xs) + multiset{x}
    ensures |r| == |xs| + 1
  {
    if xs == [] then [x]
    else if key(xs[|xs| - 1]) <= key(x) then xs + [x]
    else
      var pre := xs[..|xs| - 1];
      var r := InsertBy(x, pre, key) + [xs[|xs| - 1]];
      assert xs == pre + [xs[|xs| - 1]];
      assert forall i :: 0 <= i < |r| - 1 ==> key(r[i]) <= key(xs[|xs| - 1]) by {
        forall i | 0 <= i < |r| - 1 ensures key(r[i]) <= key(xs[|xs| - 1]) {
          var p := InsertBy(x, pre, key);
          assert r[i] in multiset(p);
          assert r[i] == x || r[i] in multiset(pre);
          if r[i] != x {
            var k :| 0 <= k < |pre| && pre[k] == r[i];
            assert xs[k] == pre[k];
          }
        }
      }
      r
  }

  /** Stable insertion sort by key. */
  function SortBy<T>(xs: seq<T>, key: T -> int): (r: seq<T>)
    ensures SortedBy(r, key)
    ensures multiset(r) == multiset(xs)
    ensures |r| == |xs|
  {
    if xs == [] then []
    else
      assert xs == xs[..|xs| - 1] + [xs[|xs| - 1]];
      InsertBy(xs[|xs| - 1], SortBy(xs[..|xs| - 1], key), key)
  }

  /** The elements whose key is `v`, in their order in `xs`. */
  function WithKey<T>(xs: seq<T>, key: T -> int, v: int): seq<T>
  {
    if xs == [] then []
    else WithKey(xs[..|xs| - 1], key, v) + (if key(xs[|xs| - 1]) == v then [xs[|xs| - 1]] else [])
  }

  lemma WithKeySnoc<T>(xs: seq<T>, y: T, key: T -> int, v: int)
    ensures WithKey(xs + [y], key, v) == WithKey(xs, key, v) + (if key(y) == v then [y] else [])
  {
    assert (xs + [y])[..|xs|] == xs;
  }

  /** Inserting `x` puts it after every element with its key. */
  lemma {:induction false} InsertByWithKey<T>(x: T, xs: seq<T>, key: T -> int, v: int)
    requires SortedBy(xs, key)
    ensures WithKey(InsertBy(x, xs, key), key, v) == WithKey(xs, key, v) + (if key(x) == v then [x] else [])
    decreases |xs|
  {
    if xs == [] {
      assert InsertBy(x, xs, key) == [] + [x];
      WithKeySnoc([], x, key, v);
    } else if key(xs[|xs| - 1]) <= key(x) {
      assert InsertBy(x, xs, key) == xs + [x];
      WithKeySnoc(xs, x, key, v);
    } else {
      var pre := xs[..|xs| - 1];
      assert SortedBy(pre, key);
      InsertByWithKey(x, pre, key, v);
      InsertBeforeLast(x, xs, key, v);
    }
  }

  /** The step of InsertByWithKey where `x` goes before the last element, whose key is larger. */
  lemma InsertBeforeLast<T>(x: T, xs: seq<T>, key: T -> int, v: int)
    requires SortedBy(xs, key) && xs != [] && key(x) < key(xs[|xs| - 1])
    requires SortedBy(xs[..|xs| - 1], key)
    requires WithKey(InsertBy(x, xs[..|xs| - 1], key), key, v) == WithKey(xs[..|xs| - 1], key, v) + (if key(x) == v then [x] else [])
    ensures WithKey(InsertBy(x, xs, key), key, v) == WithKey(xs, key, v) + (if key(x) == v then [x] else [])
  {
    var pre := xs[..|xs| - 1];
    var last := xs[|xs| - 1];
    assert InsertBy(x, xs, key) == InsertBy(x, pre, key) + [last];
    WithKeySnoc(InsertBy(x, pre, key), last, key, v);
  }

  /** The sort is stable: the elements with any one key keep their input order. */
  lemma {:induction false} SortByStable<T>(xs: seq<T>, key: T -> int, v: int)
    ensures WithKey(SortBy(xs, key), key, v) == WithKey(xs, key, v)
  {
    if xs != [] {
      var pre := xs[..|xs| - 1];
      var last := xs[|xs| - 1];
      SortByStable(pre, key, v);
      InsertByWithKey(last, SortBy(pre, key), key, v);
    }
  }

  /** A list already sorted by key is returned as it is. */
  lemma {:induction false} SortBySorted<T>(xs: seq<T>, key: T -> int)
    requires SortedBy(xs, key)
    ensures SortBy(xs, key) == xs
  {
    if xs != [] {
      var pre := xs[..|xs| - 1];
      assert SortedBy(pre, key);
      SortBySorted(pre, key);
      assert xs == pre + [xs[|xs| - 1]];
    }
  }

  /** Every pair of elements, taken in order, is related by `R`. */
  ghost predicate Pairwise<T>(xs: seq<T>, R: (T, T) -> bool) {
    forall a, b :: 0 <= a < b < |xs| ==> R(xs[a], xs[b])
  }

  ghost predicate Symmetric<T(!new)>(R: (T, T) -> bool) {
    forall x, y :: R(x, y) == R(y, x)
  }

  lemma {:induction false} InsertByPairwise<T(!new)>(x: T, xs: seq<T>, key: T -> int, R: (T, T) -> bool)
    requires SortedBy(xs, key) && Symmetric(R) && Pairwise(xs, R)
    requires forall k :: 0 <= k < |xs| ==> R(xs[k], x)
    ensures Pairwise(InsertBy(x, xs, key), R)
    decreases |xs|
  {
    if xs != [] && key(x) < key(xs[|xs| - 1]) {
      var pre := xs[..|xs| - 1];
      var last := xs[|xs| - 1];
      assert SortedBy(pre, key);
      InsertByPairwise(x, pre, key, R);
      var p := InsertBy(x, pre, key);
      var r := p + [last];
      forall a, b | 0 <= a < b < |r| ensures R(r[a], r[b]) {
        if b == |r| - 1 {
          assert r[a] in multiset(p);
          if r[a] == x {
            assert R(last, x);
          } else {
            var k :| 0 <= k < |pre| && pre[k] == r[a];
            assert R(xs[k], xs[|xs| - 1]);
          }
        } else {
          assert R(p[a], p[b]);
        }
      }
    }
  }

  /** Sorting keeps every symmetric relation that held between all pairs. */
  lemma {:induction false} SortByPairwise<T(!new)>(xs: seq<T>, key: T -> int, R: (T, T) -> bool)
    requires Symmetric(R) && Pairwise(xs, R)
    ensures Pairwise(SortBy(xs, key), R)
  {
    if xs != [] {
      var pre := xs[..|xs| - 1];
      var last := xs[|xs| - 1];
      assert Pairwise(pre, R) by {
        assert forall a, b :: 0 <= a < b < |pre| ==> pre[a] == xs[a] && pre[b] == xs[b];
      }
      SortByPairwise(pre, key, R);
      var s := SortBy(pre, key);
      forall k | 0 <= k < |s| ensures R(s[k], last) {
        assert s[k] in multiset(pre);
        var j :| 0 <= j < |pre| && pre[j] == s[k];
        assert R(xs[j], xs[|xs| - 1]);
      }
      InsertByPairwise(last, s, key, R);
    }
  }

  /** An element of the sorted list is an element of the input. */
  lemma SortByMember<T>(xs: seq<T>, key: T -> int, k: nat)
    requires k < |SortBy(xs, key)|
    ensures exists j :: 0 <= j < |xs| && xs[j] == SortBy(xs, key)[k]
  {
    var r := SortBy(xs, key);
    assert r[k] in multiset(xs);
  }
}
