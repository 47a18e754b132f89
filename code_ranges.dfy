/**
 * The stretches of a Markdown text that link scanning skips: fenced code
 * blocks (line based) and inline code spans (backtick runs), and the two
 * membership tests over lists of such spans.
 */
module CodeRanges {
  import opened Strings
  import opened LineMap

  /** The half-open stretch text[start..end]. */
  datatype Span = Span(start: nat, end: nat)

  /** Spans that start at or after `from`, are non-empty, in order, disjoint and end by `bound`. */
  ghost predicate SpansInOrder(rs: seq<Span>, from: nat, bound: nat)
    decreases |rs|
  {
    rs == [] || (from <= rs[0].start < rs[0].end <= bound && SpansInOrder(rs[1..], rs[0].end, bound))
  }

  lemma {:induction false} SpansInOrderWeaken(rs: seq<Span>, from: nat, from': nat, bound: nat)
    requires SpansInOrder(rs, from, bound) && from' <= from
    ensures SpansInOrder(rs, from', bound)
  {
  }

  /** Ordered spans are pairwise disjoint and lie within [from, bound). */
  lemma {:induction false} SpansInOrderDisjoint(rs: seq<Span>, from: nat, bound: nat)
    requires SpansInOrder(rs, from, bound)
    ensures forall k :: 0 <= k < |rs| ==> from <= rs[k].start < rs[k].end <= bound
    ensures forall a, b :: 0 <= a < b < |rs| ==> rs[a].end <= rs[b].start
    decreases |rs|
  {
    if rs != [] {
      SpansInOrderDisjoint(rs[1..], rs[0].end, bound);
      assert forall k :: 1 <= k < |rs| ==> rs[k] == rs[1..][k - 1];
    }
  }

  // ---- membership tests ----

  /** in_ranges: some span holds `index`. */
  function InRanges(index: int, ranges: seq<Span>): (r: bool)
    ensures r <==> exists k :: 0 <= k < |ranges| && ranges[k].start <= index < ranges[k].end
  {
    if ranges == [] then false
    else if ranges[0].start <= index < ranges[0].end then true
    else
      assert forall k :: 1 <= k < |ranges| ==> ranges[k] == ranges[1..][k - 1];
      InRanges(index, ranges[1..])
  }

  /** overlaps_any: the stretch [start, end) shares a position with some span. */
  function OverlapsAny(start: int, end: int, ranges: seq<Span>): (r: bool)
    ensures r <==> exists k :: 0 <= k < |ranges| && start < ranges[k].end && end > ranges[k].start
  {
    if ranges == [] then false
    else if start < ranges[0].end && end > ranges[0].start then true
    else
      assert forall k :: 1 <= k < |ranges| ==> ranges[k] == ranges[1..][k - 1];
      OverlapsAny(start, end, ranges[1..])
  }

  // ---- fenced code ----

  /** Position `p` begins a line. */
  ghost predicate AtLineStart(text: string, p: nat) {
    p == 0 || (p <= |text| && text[p - 1] == '\n')
  }

  /** Position `p` ends a line: it follows a '\n' or is the end of the text. */
  ghost predicate AtLineEnd(text: string, p: nat) {
    p == |text| || (0 < p <= |text| && text[p - 1] == '\n')
  }

  /** The line matches `^\s*(```+|~~~+)`: after leading whitespace come three backticks or three tildes. */
  predicate OpensFence(line: string) {
    var k := SkipSpace(line, 0);
    k + 3 <= |line| && (line[k] == '`' || line[k] == '~') && line[k + 1] == line[k] && line[k + 2] == line[k]
  }

  /** The fence character: the first character of the stripped opening line. */
  function FenceChar(line: string): char
    requires OpensFence(line)
  {
    line[SkipSpace(line, 0)]
  }

  /** A fence closes on a line whose stripped form begins with three fence characters. */
  predicate ClosesFence(line: string, c: char) {
    var a := SkipSpace(line, 0);
    a + 3 <= TrimEnd(line, |line|) && line[a] == c && line[a + 1] == c && line[a + 2] == c
  }

  /** ClosesFence is line.strip().startswith(c * 3). */
  lemma ClosesFenceStrip(line: string, c: char)
    ensures ClosesFence(line, c) <==> StartsWith(Strip(line), [c, c, c])
  {
    var a := SkipSpace(line, 0);
    var b := TrimEnd(line, |line|);
    if ClosesFence(line, c) {
      var t := Strip(line);
      assert t == line[a..b];
      assert t[0] == line[a] && t[1] == line[a + 1] && t[2] == line[a + 2];
      assert t[..3] == [c, c, c];
    }
    if StartsWith(Strip(line), [c, c, c]) {
      var t := Strip(line);
      assert t != [];
      assert b > a && t == line[a..b];
      assert t[0] == line[a] && t[1] == line[a + 1] && t[2] == line[a + 2];
      assert t[..3][0] == t[0] && t[..3][1] == t[1] && t[..3][2] == t[2];
    }
  }

  datatype FenceState = Outside | Inside(fenceChar: char, fenceStart: nat)

  /** What the fence loop does with the line text[offset..e]: the range it closes, if any, and the next state. */
  function FenceStep(line: string, offset: nat, e: nat, st: FenceState): (seq<Span>, FenceState) {
    match st
    case Outside =>
      ([], if OpensFence(line) then Inside(FenceChar(line), offset) else Outside)
    case Inside(c, start) =>
      if ClosesFence(line, c) then ([Span(start, e)], Outside) else ([], st)
  }

  /** The fence scanner from line start `offset` in state `st`. */
  function FenceScan(text: string, offset: nat, st: FenceState): seq<Span>
    requires offset <= |text|
    decreases |text| - offset
  {
    if offset == |text| then
      if st.Inside? then [Span(st.fenceStart, |text|)] else []
    else
      var e := LineEnd(text, offset);
      var step := FenceStep(text[offset..e], offset, e, st);
      step.0 + FenceScan(text, e, step.1)
  }

  /** find_code_fence_ranges. */
  method FindCodeFenceRanges(text: string) returns (ranges: seq<Span>)
    ensures ranges == FenceScan(text, 0, Outside)
  {
    ranges := [];
    var inFence := false;
    var fenceChar := ' ';
    var fenceStart := 0;
    var offset := 0;
    while offset < |text|
      invariant offset <= |text|
      invariant ranges + FenceScan(text, offset, if inFence then Inside(fenceChar, fenceStart) else Outside)
             == FenceScan(text, 0, Outside)
      decreases |text| - offset
    {
      var e := LineEnd(text, offset);
      var line := text[offset..e];
      ghost var st := if inFence then Inside(fenceChar, fenceStart) else Outside;
      ghost var step := FenceStep(line, offset, e, st);
      assert FenceScan(text, offset, st) == step.0 + FenceScan(text, e, step.1);
      ghost var before := ranges;
      var closed;
      closed, inFence, fenceChar, fenceStart := FenceLine(line, offset, e, inFence, fenceChar, fenceStart);
      ranges := ranges + closed;
      ghost var after := FenceScan(text, e, step.1);
      AppendAssoc(before, step.0, after);
      assert offset + |line| == e;
      offset := offset + |line|;
    }
    if inFence {
      ranges := ranges + [Span(fenceStart, |text|)];
    }
  }

  /** The body of the fence loop for the line text[offset..e]: open a fence, close the open one, or pass. */
  method FenceLine(line: string, offset: nat, e: nat, inFence: bool, fenceChar: char, fenceStart: nat)
    returns (closed: seq<Span>, inFence': bool, fenceChar': char, fenceStart': nat)
    requires e == offset + |line|
    ensures (closed, if inFence' then Inside(fenceChar', fenceStart') else Outside)
      == FenceStep(line, offset, e, if inFence then Inside(fenceChar, fenceStart) else Outside)
  {
    closed, inFence', fenceChar', fenceStart' := [], inFence, fenceChar, fenceStart;
    if !inFence {
      if OpensFence(line) {
        inFence' := true;
        fenceChar' := FenceChar(line);
        fenceStart' := offset;
      }
    } else {
      if ClosesFence(line, fenceChar) {
        closed := [Span(fenceStart, offset + |line|)];
        inFence' := false;
      }
    }
  }

  /**
   * Fence ranges are in order and disjoint; each starts at the start of a
   * line and ends at the end of a line (an unterminated fence at the end of the text).
   */
  lemma {:induction false} FenceScanShape(text: string, offset: nat, st: FenceState)
    requires offset <= |text| && (offset < |text| ==> AtLineStart(text, offset))
    requires st.Inside? ==> st.fenceStart < offset && AtLineStart(text, st.fenceStart)
    ensures var rs := FenceScan(text, offset, st);
      && SpansInOrder(rs, if st.Inside? then st.fenceStart else offset, |text|)
      && (forall k :: 0 <= k < |rs| ==> AtLineStart(text, rs[k].start) && AtLineEnd(text, rs[k].end))
    decreases |text| - offset
  {
    if offset < |text| {
      var e := LineEnd(text, offset);
      var step := FenceStep(text[offset..e], offset, e, st);
      FenceStepShape(text[offset..e], offset, e, st);
      FenceScanShape(text, e, step.1);
      var rest := FenceScan(text, e, step.1);
      var rs := FenceScan(text, offset, st);
      assert rs == step.0 + rest;
      if step.0 == [] {
        assert rs == rest;
        if step.1.Outside? {
          SpansInOrderWeaken(rest, e, offset, |text|);
        }
      } else {
        FenceCons(text, st.fenceStart, Span(st.fenceStart, e), rest);
      }
    }
  }

  /** A closed fence put in front of the fences after it. */
  lemma FenceCons(text: string, from: nat, s: Span, rest: seq<Span>)
    requires from <= s.start < s.end <= |text|
    requires AtLineStart(text, s.start) && AtLineEnd(text, s.end)
    requires SpansInOrder(rest, s.end, |text|)
    requires forall k :: 0 <= k < |rest| ==> AtLineStart(text, rest[k].start) && AtLineEnd(text, rest[k].end)
    ensures var rs := [s] + rest;
      && SpansInOrder(rs, from, |text|)
      && (forall k :: 0 <= k < |rs| ==> AtLineStart(text, rs[k].start) && AtLineEnd(text, rs[k].end))
  {
    var rs := [s] + rest;
    assert rs[1..] == rest;
    assert forall k :: 1 <= k < |rs| ==> rs[k] == rest[k - 1];
  }

  /** One line of the fence loop emits nothing, or closes the open fence and leaves it. */
  lemma FenceStepShape(line: string, offset: nat, e: nat, st: FenceState)
    ensures var step := FenceStep(line, offset, e, st);
      && (step.0 == [] || (st.Inside? && step.0 == [Span(st.fenceStart, e)] && step.1 == Outside))
      && (step.1.Inside? ==> step.1 == st || (st.Outside? && step.1.fenceStart == offset))
      && (st.Inside? && step.1.Outside? ==> step.0 != [])
  {
  }

  lemma FenceRangesShape(text: string)
    ensures var rs := FenceScan(text, 0, Outside);
      && SpansInOrder(rs, 0, |text|)
      && (forall k :: 0 <= k < |rs| ==> AtLineStart(text, rs[k].start) && AtLineEnd(text, rs[k].end))
  {
    FenceScanShape(text, 0, Outside);
  }

  // ---- inline code ----

  /** The number of backticks in the run starting at `i`. */
  function RunLength(text: string, i: nat): (n: nat)
    requires i <= |text|
    ensures i + n <= |text|
    ensures i < |text| && text[i] == '`' ==> n >= 1
    decreases |text| - i
  {
    if i < |text| && text[i] == '`' then 1 + RunLength(text, i + 1) else 0
  }

  lemma {:induction false} RunLengthShape(text: string, i: nat)
    requires i <= |text|
    ensures forall q :: i <= q < i + RunLength(text, i) ==> text[q] == '`'
    ensures i + RunLength(text, i) < |text| ==> text[i + RunLength(text, i)] != '`'
    decreases |text| - i
  {
    if i < |text| && text[i] == '`' {
      RunLengthShape(text, i + 1);
    }
  }

  /**
   * The search for the closing run: from `j`, step over other characters
   * one at a time and over backtick runs whole; the end of the first run of
   * exactly `run` backticks, or -1.
   */
  function CloseRun(text: string, j: nat, run: nat): (r: int)
    requires j <= |text|
    ensures r == -1 || j < r <= |text|
    decreases |text| - j
  {
    if j >= |text| then -1
    else if text[j] != '`' then CloseRun(text, j + 1, run)
    else
      var c := RunLength(text, j);
      if c == run then j + c else CloseRun(text, j + c, run)
  }

  /** Where the scanners stand: never between two backticks of one run. */
  ghost predicate ScanPoint(text: string, i: nat) {
    i <= |text| && (i == 0 || i == |text| || text[i - 1] != '`' || text[i] != '`')
  }

  /** A run that starts where the text before it is not a backtick. */
  ghost predicate RunStart(text: string, p: nat) {
    p < |text| && text[p] == '`' && (p == 0 || text[p - 1] != '`')
  }

  /**
   * The closing run found from `j` (not inside a run) is a whole run of
   * exactly `run` backticks, and no whole run of that length starts before it.
   */
  lemma {:induction false} CloseRunShape(text: string, j: nat, run: nat)
    requires ScanPoint(text, j) && run >= 1
    ensures var r := CloseRun(text, j, run);
      && (r != -1 ==> j <= r - run && RunStart(text, r - run) && RunLength(text, r - run) == run)
      && (forall p :: j <= p && RunStart(text, p) && (r == -1 || p < r - run) ==> RunLength(text, p) != run)
    decreases |text| - j
  {
    if j < |text| {
      if text[j] != '`' {
        CloseRunShape(text, j + 1, run);
      } else {
        var c := RunLength(text, j);
        RunLengthShape(text, j);
        if c != run {
          CloseRunShape(text, j + c, run);
          forall p | j <= p < j + c
            ensures !RunStart(text, p) || RunLength(text, p) != run
          {
            if p > j {
              assert text[p - 1] == '`';
            }
          }
        }
      }
    }
  }

  /**
   * An inline-code range: it opens on a whole run of one or two backticks
   * and ends right after the next whole run of the same length.
   */
  ghost predicate CodeSpan(text: string, s: Span) {
    && s.start < s.end <= |text|
    && RunStart(text, s.start)
    && var run := RunLength(text, s.start);
    && 1 <= run <= 2
    && s.start + 2 * run <= s.end
    && RunStart(text, s.end - run) && RunLength(text, s.end - run) == run
    && forall p :: s.start + run <= p < s.end - run && RunStart(text, p) ==> RunLength(text, p) != run
  }

  /** The inline-code scanner from `i`. */
  function InlineCodeFrom(text: string, i: nat): seq<Span>
    requires i <= |text|
    decreases |text| - i
  {
    if i == |text| then []
    else if text[i] != '`' then InlineCodeFrom(text, i + 1)
    else
      var run := RunLength(text, i);
      if run >= 3 then InlineCodeFrom(text, i + run)
      else
        var e := CloseRun(text, i + run, run);
        if e == -1 then InlineCodeFrom(text, i + run) else [Span(i, e)] + InlineCodeFrom(text, e)
  }

  /** find_inline_code_ranges; the search for the closing run is FindCloseRun. */
  method FindInlineCodeRanges(text: string) returns (ranges: seq<Span>)
    ensures ranges == InlineCodeFrom(text, 0)
  {
    ranges := [];
    var i := 0;
    var length := |text|;
    while i < length
      invariant i <= length
      invariant ranges + InlineCodeFrom(text, i) == InlineCodeFrom(text, 0)
      decreases length - i
    {
      if text[i] != '`' {
        i := i + 1;
        continue;
      }
      var run := CountRun(text, i);
      if run >= 3 {
        i := i + run;
        continue;
      }
      var e := FindCloseRun(text, i + run, run);
      if e != -1 {
        assert InlineCodeFrom(text, i) == [Span(i, e)] + InlineCodeFrom(text, e);
        ranges := ranges + [Span(i, e)];
        i := e;
      } else {
        i := i + run;
      }
    }
  }

  /** The run-counting loop: how many backticks follow from the one at `i`. */
  method CountRun(text: string, i: nat) returns (run: nat)
    requires i < |text| && text[i] == '`'
    ensures run == RunLength(text, i)
  {
    run := 1;
    while i + run < |text| && text[i + run] == '`'
      invariant 1 <= run && i + run <= |text|
      invariant RunLength(text, i) == run + RunLength(text, i + run)
      decreases |text| - i - run
    {
      run := run + 1;
    }
  }

  /**
   * The inner loop of find_inline_code_ranges: from `j`, the end of the
   * first run of exactly `run` backticks, or -1 when the text runs out.
   */
  method FindCloseRun(text: string, j0: nat, run: nat) returns (r: int)
    requires j0 <= |text|
    ensures r == CloseRun(text, j0, run)
  {
    var j := j0;
    while j < |text|
      invariant j0 <= j <= |text|
      invariant CloseRun(text, j, run) == CloseRun(text, j0, run)
      decreases |text| - j
    {
      if text[j] != '`' {
        j := j + 1;
        continue;
      }
      var closeRun := CountRun(text, j);
      if closeRun == run {
        return j + closeRun;
      }
      j := j + closeRun;
    }
    return -1;
  }

  /** Inline-code ranges are in order and disjoint, and each is a code span. */
  lemma {:induction false} InlineCodeShape(text: string, i: nat)
    requires ScanPoint(text, i)
    ensures var rs := InlineCodeFrom(text, i);
      SpansInOrder(rs, i, |text|) && forall k :: 0 <= k < |rs| ==> CodeSpan(text, rs[k])
    decreases |text| - i
  {
    if i < |text| {
      if text[i] != '`' {
        InlineCodeShape(text, i + 1);
        SpansInOrderWeaken(InlineCodeFrom(text, i + 1), i + 1, i, |text|);
      } else {
        var run := RunLength(text, i);
        RunLengthShape(text, i);
        if run >= 3 {
          InlineCodeShape(text, i + run);
          SpansInOrderWeaken(InlineCodeFrom(text, i + run), i + run, i, |text|);
        } else {
          var e := CloseRun(text, i + run, run);
          if e == -1 {
            InlineCodeShape(text, i + run);
            SpansInOrderWeaken(InlineCodeFrom(text, i + run), i + run, i, |text|);
          } else {
            ClosedCodeSpan(text, i, e);
            InlineCodeShape(text, e);
            ConsCodeSpan(text, i, Span(i, e), InlineCodeFrom(text, e));
          }
        }
      }
    }
  }

  /** A code span put in front of ordered code spans that follow it. */
  lemma ConsCodeSpan(text: string, from: nat, s: Span, rest: seq<Span>)
    requires CodeSpan(text, s) && from <= s.start
    requires SpansInOrder(rest, s.end, |text|) && forall k :: 0 <= k < |rest| ==> CodeSpan(text, rest[k])
    ensures var rs := [s] + rest;
      SpansInOrder(rs, from, |text|) && forall k :: 0 <= k < |rs| ==> CodeSpan(text, rs[k])
  {
    var rs := [s] + rest;
    assert rs[1..] == rest;
    assert forall k :: 1 <= k < |rs| ==> rs[k] == rest[k - 1];
  }

  /** A run of one or two backticks and the closing run found for it make a code span. */
  lemma ClosedCodeSpan(text: string, i: nat, e: int)
    requires RunStart(text, i) && RunLength(text, i) <= 2
    requires e == CloseRun(text, i + RunLength(text, i), RunLength(text, i)) && e != -1
    ensures CodeSpan(text, Span(i, e)) && ScanPoint(text, e)
  {
    var run := RunLength(text, i);
    RunLengthShape(text, i);
    CloseRunShape(text, i + run, run);
    RunLengthShape(text, e - run);
  }

  lemma InlineCodeRangesShape(text: string)
    ensures var rs := InlineCodeFrom(text, 0);
      SpansInOrder(rs, 0, |text|) && forall k :: 0 <= k < |rs| ==> CodeSpan(text, rs[k])
  {
    InlineCodeShape(text, 0);
  }
}
