/**
 * Mapping offsets in a text to 1-based line and column numbers: a table of
 * line-start offsets, built line by line (only '\n' ends a line), and a
 * binary search over it.
 */
module LineMap {
  import opened Strings

  // ---- lines ----

  /** The end of the line starting at `i`: just past the next '\n', or the end of the text. */
  function LineEnd(text: string, i: nat): (r: nat)
    requires i <= |text|
    ensures i <= r <= |text|
    ensures i < |text| ==> i < r && (r == |text| || text[r - 1] == '\n')
    decreases |text| - i
  {
    if i == |text| then i else if text[i] == '\n' then i + 1 else LineEnd(text, i + 1)
  }

  /** No '\n' occurs inside a line, only possibly as its last character. */
  lemma {:induction false} LineEndNoBreak(text: string, i: nat)
    requires i <= |text|
    ensures forall q :: i <= q < LineEnd(text, i) - 1 ==> text[q] != '\n'
    ensures LineEnd(text, i) < |text| ==> text[LineEnd(text, i) - 1] == '\n'
    decreases |text| - i
  {
    if i < |text| && text[i] != '\n' {
      LineEndNoBreak(text, i + 1);
    }
  }

  /** The offsets just past each line from `i` on. */
  function LineEndsFrom(text: string, i: nat): seq<nat>
    requires i <= |text|
    decreases |text| - i
  {
    if i == |text| then [] else [LineEnd(text, i)] + LineEndsFrom(text, LineEnd(text, i))
  }

  /** The table build_line_offsets returns: 0, then the running total of the line lengths. */
  function LineOffsets(text: string): seq<nat> {
    [0] + LineEndsFrom(text, 0)
  }

  method BuildLineOffsets(text: string) returns (offsets: seq<nat>)
    ensures offsets == LineOffsets(text)
  {
    offsets := [0];
    var total := 0;
    while total < |text|
      invariant total <= |text|
      invariant offsets + LineEndsFrom(text, total) == LineOffsets(text)
      decreases |text| - total
    {
      var line := text[total..LineEnd(text, total)];
      assert offsets + LineEndsFrom(text, total) == (offsets + [total + |line|]) + LineEndsFrom(text, total + |line|);
      total := total + |line|;
      offsets := offsets + [total];
    }
  }

  /**
   * `t` lists line starts: consecutive entries increase, each entry after
   * the first follows a '\n' or is the end of the text, there is no '\n'
   * strictly inside a line, and the last entry is the end of the text.
   */
  ghost predicate LineTable(text: string, t: seq<nat>) {
    && |t| >= 1
    && t[|t| - 1] == |text|
    && forall k :: 0 < k < |t| ==>
         && t[k - 1] < t[k] <= |text|
         && (t[k] == |text| || text[t[k] - 1] == '\n')
         && (forall q :: t[k - 1] <= q < t[k] - 1 ==> text[q] != '\n')
  }

  lemma {:induction false} LineEndsFromTable(text: string, i: nat)
    requires i <= |text|
    ensures LineTable(text, [i] + LineEndsFrom(text, i))
    decreases |text| - i
  {
    if i < |text| {
      var e := LineEnd(text, i);
      LineEndsFromTable(text, e);
      LineEndNoBreak(text, i);
      assert LineEndsFrom(text, i) == [e] + LineEndsFrom(text, e);
      LineTableCons(text, i, [e] + LineEndsFrom(text, e));
    }
  }

  /** A line in front of a table that starts where the line ends. */
  lemma LineTableCons(text: string, i: nat, u: seq<nat>)
    requires LineTable(text, u) && i < u[0] <= |text|
    requires u[0] == |text| || text[u[0] - 1] == '\n'
    requires forall q :: i <= q < u[0] - 1 ==> text[q] != '\n'
    ensures LineTable(text, [i] + u)
  {
    var t := [i] + u;
    forall k | 0 < k < |t|
      ensures && t[k - 1] < t[k] <= |text|
              && (t[k] == |text| || text[t[k] - 1] == '\n')
              && (forall q :: t[k - 1] <= q < t[k] - 1 ==> text[q] != '\n')
    {
      assert t[k] == u[k - 1];
      if k > 1 {
        assert t[k - 1] == u[k - 2];
      }
    }
  }

  /** Strictly increasing. */
  ghost predicate Increasing(s: seq<int>) {
    forall a, b :: 0 <= a < b < |s| ==> s[a] < s[b]
  }

  lemma {:induction false} AdjacentIncreasing(s: seq<int>)
    requires forall k :: 0 < k < |s| ==> s[k - 1] < s[k]
    ensures Increasing(s)
    decreases |s|
  {
    if |s| > 1 {
      var p := s[..|s| - 1];
      assert forall k :: 0 < k < |p| ==> p[k - 1] < p[k];
      AdjacentIncreasing(p);
      assert forall a :: 0 <= a < |s| - 1 ==> s[a] == p[a];
      assert forall a :: 0 <= a < |s| - 1 ==> s[a] <= s[|s| - 2];
    }
  }

  /**
   * The offset table starts at 0, strictly increases and ends at the text's
   * length; every other entry follows a '\n'; and every '\n' is followed by an entry.
   */
  lemma LineOffsetsShape(text: string)
    ensures var o := LineOffsets(text);
      && o[0] == 0 && o[|o| - 1] == |text| && Increasing(o)
      && (forall k :: 0 < k < |o| - 1 ==> text[o[k] - 1] == '\n')
      && (forall p :: 0 < p <= |text| && text[p - 1] == '\n' ==> p in o)
  {
    var o := LineOffsets(text);
    LineEndsFromTable(text, 0);
    AdjacentIncreasing(o);
    forall p | 0 < p <= |text| && text[p - 1] == '\n'
      ensures p in o
    {
      var k := TableIndexAt(text, o, p - 1);
      assert o[k + 1] == p;
    }
  }

  /** The line of table `t` that holds offset `q`. */
  lemma {:induction false} TableIndexAt(text: string, t: seq<nat>, q: nat) returns (k: nat)
    requires LineTable(text, t) && t[0] <= q < |text|
    ensures k < |t| - 1 && t[k] <= q < t[k + 1]
    decreases |t|
  {
    if q < t[1] {
      k := 0;
    } else {
      var u := t[1..];
      assert LineTable(text, u) by {
        assert forall j :: 0 < j < |u| ==> u[j] == t[j + 1] && u[j - 1] == t[j];
      }
      var k' := TableIndexAt(text, u, q);
      k := k' + 1;
    }
  }

  // ---- binary search ----

  /** Python's bisect.bisect_right on a[lo:hi], step for step. */
  function BisectFrom(a: seq<int>, x: int, lo: nat, hi: nat): (r: nat)
    requires lo <= hi <= |a|
    ensures lo <= r <= hi
    decreases hi - lo
  {
    if lo < hi then
      var mid := (lo + hi) / 2;
      if x < a[mid] then BisectFrom(a, x, lo, mid) else BisectFrom(a, x, mid + 1, hi)
    else lo
  }

  function BisectRight(a: seq<int>, x: int): nat {
    BisectFrom(a, x, 0, |a|)
  }

  ghost predicate Sorted(a: seq<int>) {
    forall i, j :: 0 <= i < j < |a| ==> a[i] <= a[j]
  }

  lemma {:induction false} BisectFromSplits(a: seq<int>, x: int, lo: nat, hi: nat)
    requires lo <= hi <= |a| && Sorted(a)
    requires forall k :: 0 <= k < lo ==> a[k] <= x
    requires forall k :: hi <= k < |a| ==> x < a[k]
    ensures var r := BisectFrom(a, x, lo, hi);
      (forall k :: 0 <= k < r ==> a[k] <= x) && (forall k :: r <= k < |a| ==> x < a[k])
    decreases hi - lo
  {
    if lo < hi {
      var mid := (lo + hi) / 2;
      if x < a[mid] {
        BisectFromSplits(a, x, lo, mid);
      } else {
        BisectFromSplits(a, x, mid + 1, hi);
      }
    }
  }

  /** On a sorted list, bisect_right is the point that splits entries `<= x` from entries `> x`. */
  lemma BisectRightSplits(a: seq<int>, x: int)
    requires Sorted(a)
    ensures var r := BisectRight(a, x);
      r <= |a| && (forall k :: 0 <= k < r ==> a[k] <= x) && (forall k :: r <= k < |a| ==> x < a[k])
  {
    BisectFromSplits(a, x, 0, |a|);
  }

  // ---- line and column ----

  /**
   * index_to_line_column: bisect_right minus one picks the line, read with
   * Python's indexing (so -1 is the last entry); the column counts from 1.
   */
  function IndexToLineColumn(offsets: seq<int>, index: int): (lc: (int, int))
    requires |offsets| > 0
  {
    var line := BisectRight(offsets, index) - 1;
    var base := if line < 0 then offsets[|offsets| - 1] else offsets[line];
    (line + 1, index - base + 1)
  }

  /**
   * On a sorted table whose first entry is at most `index`, the line is at
   * least 1, its entry is the last one not after `index`, and the column is
   * the distance from it plus one.
   */
  lemma IndexToLineColumnBounds(offsets: seq<int>, index: int)
    requires |offsets| > 0 && Sorted(offsets) && offsets[0] <= index
    ensures var lc := IndexToLineColumn(offsets, index);
      && 1 <= lc.0 <= |offsets|
      && offsets[lc.0 - 1] <= index
      && (lc.0 < |offsets| ==> index < offsets[lc.0])
      && lc.1 == index - offsets[lc.0 - 1] + 1
  {
    BisectRightSplits(offsets, index);
  }

  /** The start of the line holding `index`: just past the last '\n' before it. */
  function LineStartOf(text: string, index: nat): nat {
    LastIndexBefore(text, '\n', index) + 1
  }

  /**
   * For an offset inside the text, the line is the number of '\n' before it
   * plus one, and the column counts from the start of its line.
   */
  lemma LineColumnOfIndex(text: string, index: nat)
    requires index < |text|
    ensures IndexToLineColumn(LineOffsets(text), index)
         == (CountChar(text[..index], '\n') + 1, index - LineStartOf(text, index) + 1)
  {
    var o := LineOffsets(text);
    var k := LineEntry(text, index);
    LineEntryCount(text, index, k);
    LineEntryStart(text, index, k);
  }

  /** The table entry of the line holding `index`. */
  lemma LineEntry(text: string, index: nat) returns (k: nat)
    requires index < |text|
    ensures var o := LineOffsets(text); var lc := IndexToLineColumn(o, index);
      k < |o| - 1 && o[k] <= index < o[k + 1] && lc == (k + 1, index - o[k] + 1)
  {
    var o := LineOffsets(text);
    LineOffsetsShape(text);
    IndexToLineColumnBounds(o, index);
    k := IndexToLineColumn(o, index).0 - 1;
  }

  lemma LineEntryCount(text: string, index: nat, k: nat)
    requires index < |text|
    requires var o := LineOffsets(text); k < |o| - 1 && o[k] <= index < o[k + 1]
    ensures k == CountChar(text[..index], '\n')
  {
    var o := LineOffsets(text);
    LineOffsetsShape(text);
    CountUpTo(text, 0, index);
    var ends := LineEndsFrom(text, 0);
    forall j | 0 <= j < |ends|
      ensures j < k ==> ends[j] <= index
      ensures k <= j ==> index < ends[j]
    {
      assert ends[j] == o[j + 1];
      if j + 1 < k {
        assert o[j + 1] < o[k];
      } else if k + 1 < j + 1 {
        assert o[k + 1] < o[j + 1];
      }
    }
    BelowSplit(ends, index, k);
  }

  lemma LineEntryStart(text: string, index: nat, k: nat)
    requires index < |text|
    requires var o := LineOffsets(text); k < |o| - 1 && o[k] <= index < o[k + 1]
    ensures LineStartOf(text, index) == LineOffsets(text)[k]
  {
    var o := LineOffsets(text);
    LineEndsFromTable(text, 0);
    assert o[k + 1] <= |text|;
    assert forall q :: o[k] <= q < index ==> text[q] != '\n';
    if k > 0 {
      assert o[k - 1] < o[k];
      assert text[o[k] - 1] == '\n';
    }
  }

  /**
   * Counting entries: among the line ends from `i`, those at most `index`
   * are as many as the '\n' in text[i..index].
   */
  lemma {:induction false} CountUpTo(text: string, i: nat, index: nat)
    requires i <= index < |text|
    ensures |Below(LineEndsFrom(text, i), index)| == CountChar(text[i..index], '\n')
    decreases |text| - i
  {
    var e := LineEnd(text, i);
    LineEndNoBreak(text, i);
    if e <= index {
      CountUpTo(text, e, index);
      CountFirstLine(text, i, index);
      assert LineEndsFrom(text, i) == [e] + LineEndsFrom(text, e);
    } else {
      assert CountChar(text[i..index], '\n') == 0;
      AboveAll(text, e, index);
    }
  }

  /** A line that ends before `index` holds the first '\n' of text[i..index]. */
  lemma CountFirstLine(text: string, i: nat, index: nat)
    requires i <= index < |text| && LineEnd(text, i) <= index
    ensures CountChar(text[i..index], '\n') == 1 + CountChar(text[LineEnd(text, i)..index], '\n')
  {
    var e := LineEnd(text, i);
    LineEndNoBreak(text, i);
    var t := text[i..index];
    var j := e - 1 - i;
    assert t[j] == text[e - 1];
    forall k | 0 <= k < j
      ensures t[k] != '\n'
    {
      assert t[k] == text[i + k];
    }
    CountAround(t, '\n', j);
    assert t[j + 1..] == text[e..index];
  }

  /** The entries of `s` that are at most `x`, in order. */
  function Below(s: seq<nat>, x: nat): seq<nat> {
    if s == [] then [] else (if s[0] <= x then [s[0]] else []) + Below(s[1..], x)
  }

  lemma {:induction false} BelowSplit(s: seq<nat>, x: nat, k: nat)
    requires k <= |s|
    requires forall j :: 0 <= j < k ==> s[j] <= x
    requires forall j :: k <= j < |s| ==> x < s[j]
    ensures |Below(s, x)| == k
    decreases |s|
  {
    if s != [] {
      if k == 0 {
        BelowSplit(s[1..], x, 0);
      } else {
        BelowSplit(s[1..], x, k - 1);
      }
    }
  }

  lemma {:induction false} AboveAll(text: string, e: nat, index: nat)
    requires index < e <= |text|
    ensures Below(LineEndsFrom(text, e), index) == []
    decreases |text| - e
  {
    if e < |text| {
      AboveAll(text, LineEnd(text, e), index);
    }
  }
}
