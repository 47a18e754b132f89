/**
 * Renumbering ordered Markdown lists.  Each item `N.` or `N)` is given the
 * next number for its indentation, counting from 1; an item forgets the
 * counters of deeper indentations.  Lines in fenced code are left alone,
 * and fence lines and unindented prose lines end every list in progress.
 */
module OrderedLists {
  import opened Strings

  // ---- lines ----

  /** No line holds a line break. */
  ghost predicate NoBreaks(lines: seq<string>) {
    forall k, i :: 0 <= k < |lines| && 0 <= i < |lines[k]| ==> lines[k][i] != '\n'
  }

  /** str.splitlines() with `\n` as the only break: a final break ends the last line and starts none. */
  function SplitLines(text: string): (r: seq<string>)
    ensures NoBreaks(r)
  {
    if text == [] then []
    else if text[|text| - 1] == '\n' then Split(text[..|text| - 1], '\n')
    else Split(text, '\n')
  }

  // ---- the two line patterns ----

  /** An ordered-list item `indent number delimiter rest`. */
  datatype Item = Item(indent: string, number: string, delim: char, rest: string)

  predicate IsDelimiter(c: char) { c == '.' || c == ')' }

  /**
   * LIST_ITEM_PATTERN `^(\s*)(\d+)([\.).])(.*)$`.  Whitespace and digits are
   * disjoint and the delimiter is not a digit, so both runs are maximal.
   */
  function ParseItem(line: string): (r: Option<Item>)
    ensures r.Some? ==> AllDigits(r.value.number)
  {
    var a := SkipSpace(line, 0);
    var b := DigitsEnd(line, a);
    if a < b < |line| && IsDelimiter(line[b]) then Some(Item(line[..a], line[a..b], line[b], line[b + 1..]))
    else None
  }

  /** FENCE_PATTERN `^\s*(```|~~~)`, matched against the left-stripped line. */
  predicate IsFence(stripped: string) {
    StartsWith(stripped, "```") || StartsWith(stripped, "~~~")
  }

  /** An item with `n` in place of its number. */
  function Renumbered(it: Item, n: nat): string {
    it.indent + NatToString(n) + [it.delim] + it.rest
  }

  /** The value of an item line's number, or 0 for a line that is not an item. */
  function NumberOf(line: string): nat {
    match ParseItem(line)
    case Some(it) => DigitsValue(it.number)
    case None => 0
  }

  /** A parsed item is the line cut in four: blank indent, digits, delimiter, rest. */
  lemma ParseItemShape(line: string)
    requires ParseItem(line).Some?
    ensures var it := ParseItem(line).value;
      line == it.indent + it.number + [it.delim] + it.rest &&
      IsBlank(it.indent) && it.number != [] && IsDelimiter(it.delim) &&
      |it.indent| == SkipSpace(line, 0)
  {
    var a := SkipSpace(line, 0);
    var b := DigitsEnd(line, a);
    SkipSpaceBlank(line, 0);
    assert line[0..a] == line[..a];
    assert line == line[..a] + line[a..b] + [line[b]] + line[b + 1..];
  }

  /** Conversely, every line of that shape parses back into its four parts. */
  lemma ParseItemOf(indent: string, number: string, d: char, rest: string)
    requires IsBlank(indent) && number != [] && AllDigits(number) && IsDelimiter(d)
    ensures ParseItem(indent + number + [d] + rest) == Some(Item(indent, number, d, rest))
  {
    var line := indent + number + [d] + rest;
    var a := |indent|;
    var b := a + |number|;
    assert line[..a] == indent;
    assert line[a] == number[0];
    SkipSpaceAt(line, a);
    assert forall k :: a <= k < b ==> line[k] == number[k - a];
    assert line[b] == d;
    DigitsEndAt(line, a, b);
    assert line[a..b] == number;
    assert line[b + 1..] == rest;
  }

  /** An item line is neither blank nor a fence once stripped. */
  lemma ItemNotFence(line: string)
    requires ParseItem(line).Some?
    ensures !IsFence(LStrip(line)) && LStrip(line) != []
  {
    var a := SkipSpace(line, 0);
    assert LStrip(line)[0] == line[a];
  }

  /** Renumbering an item gives an item with the same indent, delimiter and rest, and the new number. */
  lemma RenumberedParses(it: Item, n: nat)
    requires IsBlank(it.indent) && IsDelimiter(it.delim)
    ensures ParseItem(Renumbered(it, n)) == Some(it.(number := NatToString(n)))
    ensures NumberOf(Renumbered(it, n)) == n
  {
    ParseItemOf(it.indent, NatToString(n), it.delim, it.rest);
    DigitsOfNat(n);
  }

  /** A rewritten item always differs from the line it was cut from. */
  lemma RenumberedDiffers(it: Item, n: nat)
    requires IsBlank(it.indent) && it.number != [] && AllDigits(it.number) && IsDelimiter(it.delim)
    requires DigitsValue(it.number) != n
    ensures Renumbered(it, n) != it.indent + it.number + [it.delim] + it.rest
  {
    RenumberedParses(it, n);
    ParseItemOf(it.indent, it.number, it.delim, it.rest);
  }

  /** Renumbering brings in no line break: the number is digits and the other parts come from the line. */
  lemma RenumberedNoBreaks(line: string, it: Item, n: nat)
    requires line == it.indent + it.number + [it.delim] + it.rest
    requires forall i :: 0 <= i < |line| ==> line[i] != '\n'
    ensures forall i :: 0 <= i < |Renumbered(it, n)| ==> Renumbered(it, n)[i] != '\n'
  {
    assert '\n' !in line;
    assert '\n' !in it.indent && '\n' !in it.rest && it.delim != '\n';
    var digits := NatToString(n);
    assert '\n' !in digits;
    assert '\n' !in Renumbered(it, n);
  }

  // ---- what the loop sees in a line ----

  /**
   * A line as the loop reads it: a fence line with the first three characters
   * of its stripped form, a list item, a line of unindented prose, or anything
   * else (a blank line or an indented line that is not an item).
   */
  datatype LineKind = FenceLine(token: string) | ItemLine(it: Item) | ProseLine | OtherLine

  /** An item's number is made of digits. */
  predicate Numeric(kind: LineKind) {
    kind.ItemLine? ==> AllDigits(kind.it.number)
  }

  /** The branch of the loop body a line takes. */
  function Classify(line: string): (r: LineKind)
    ensures Numeric(r)
  {
    var stripped := LStrip(line);
    if IsFence(stripped) then FenceLine(stripped[..3])
    else
      match ParseItem(line)
      case Some(it) => ItemLine(it)
      // leading_spaces == |line| - |stripped| == SkipSpace(line, 0)
      case None => if stripped == [] || SkipSpace(line, 0) > 0 then OtherLine else ProseLine
  }

  /** The kind of every line, in order. */
  function Kinds(lines: seq<string>): (r: seq<LineKind>)
    ensures |r| == |lines|
    ensures forall k :: 0 <= k < |r| ==> Numeric(r[k])
  {
    if lines == [] then [] else [Classify(lines[0])] + Kinds(lines[1..])
  }

  lemma {:induction false} KindAt(lines: seq<string>, k: nat)
    requires k < |lines|
    ensures Kinds(lines)[k] == Classify(lines[k])
    decreases k
  {
    if k > 0 {
      KindAt(lines[1..], k - 1);
    }
  }

  /** A line read as an item is that item's four parts, and the pattern finds it. */
  lemma ItemKindShape(line: string)
    requires Classify(line).ItemLine?
    ensures var it := Classify(line).it;
      ParseItem(line) == Some(it) && line == it.indent + it.number + [it.delim] + it.rest &&
      IsBlank(it.indent) && it.number != [] && IsDelimiter(it.delim)
  {
    ParseItemShape(line);
  }

  /** A renumbered item reads as the same item with the new number. */
  lemma ClassifyRenumbered(it: Item, n: nat)
    requires IsBlank(it.indent) && IsDelimiter(it.delim)
    ensures Classify(Renumbered(it, n)) == ItemLine(it.(number := NatToString(n)))
  {
    RenumberedParses(it, n);
    ItemNotFence(Renumbered(it, n));
  }

  // ---- the renumbering scan ----

  /** The loop's state: the lines so far, expected_by_indent, in_fence, fence_delimiter, changed. */
  datatype Renum = Renum(out: seq<string>, counters: map<nat, nat>, inFence: bool, fence: Option<string>, changed: bool)

  /** The counters left once those deeper than `indent` are dropped. */
  function Shallower(m: map<nat, nat>, indent: nat): map<nat, nat> {
    map k | k in m && k <= indent :: m[k]
  }

  /** expected_by_indent.get(indent, 1). */
  function Expected(m: map<nat, nat>, indent: nat): nat {
    if indent in m then m[indent] else 1
  }

  /** The number an item at `indent` is given, once the deeper counters are dropped. */
  function Next(m: map<nat, nat>, indent: nat): nat {
    Expected(Shallower(m, indent), indent)
  }

  /** One turn of the loop over the line at index `idx`, read as `kind`. */
  function Step(st: Renum, idx: nat, kind: LineKind): (r: Renum)
    requires idx < |st.out| && Numeric(kind)
    ensures |r.out| == |st.out|
  {
    if kind.FenceLine? then
      var st' :=
        if !st.inFence then st.(inFence := true, fence := Some(kind.token))
        else if st.fence == Some(kind.token) then st.(inFence := false, fence := None)
        else st;
      st'.(counters := map[])
    else if st.inFence then st
    else if kind.ItemLine? then ItemStep(st, idx, kind.it)
    else if kind.ProseLine? then st.(counters := map[])
    else st
  }

  /** A list item: rewrite its number when its value is not the expected one, then count on. */
  function ItemStep(st: Renum, idx: nat, it: Item): (r: Renum)
    requires idx < |st.out| && AllDigits(it.number)
    ensures |r.out| == |st.out|
  {
    var indent := |it.indent|;
    var kept := Shallower(st.counters, indent);
    var expected := Expected(kept, indent);
    var st' :=
      if DigitsValue(it.number) != expected then st.(out := st.out[idx := Renumbered(it, expected)], changed := true)
      else st;
    st'.(counters := kept[indent := expected + 1])
  }

  /** The state after the first `n` lines. */
  function Scan(lines: seq<string>, n: nat): (r: Renum)
    requires n <= |lines|
    ensures |r.out| == |lines|
  {
    if n == 0 then Renum(lines, map[], false, None, false)
    else Step(Scan(lines, n - 1), n - 1, Kinds(lines)[n - 1])
  }

  /** One more line seen: the step on that line's kind. */
  lemma ScanNext(lines: seq<string>, n: nat)
    requires n < |lines|
    ensures Scan(lines, n + 1) == Step(Scan(lines, n), n, Classify(lines[n]))
  {
    KindAt(lines, n);
  }

  /** The lines once every line has been seen. */
  function Output(lines: seq<string>): seq<string> {
    Scan(lines, |lines|).out
  }

  /** renumber_markdown_lists(text): the rejoined lines, with the final `\n` kept, and whether anything changed. */
  function Renumber(text: string): (string, bool) {
    var lines := SplitLines(text);
    var st := Scan(lines, |lines|);
    (Join(st.out, "\n") + (if EndsWith(text, "\n") then "\n" else ""), st.changed)
  }

  /** renumber_markdown_lists: the loop over the lines, rewriting the list in place. */
  method RenumberMarkdownLists(text: string) returns (result: string, changed: bool)
    ensures (result, changed) == Renumber(text)
  {
    var lines := SplitLines(text);
    lines, changed := RenumberLines(lines);
    result := Join(lines, "\n") + (if EndsWith(text, "\n") then "\n" else "");
  }

  /** The loop of renumber_markdown_lists over the split lines, rewriting them in place. */
  method RenumberLines(input: seq<string>) returns (lines: seq<string>, changed: bool)
    ensures lines == Output(input) && changed == Scan(input, |input|).changed
  {
    lines := input;
    ghost var original := lines;
    var expectedByIndent: map<nat, nat> := map[];
    var inFence := false;
    var fenceDelimiter: Option<string> := None;
    changed := false;
    var idx := 0;
    while idx < |lines|
      invariant idx <= |lines| == |original|
      invariant Renum(lines, expectedByIndent, inFence, fenceDelimiter, changed) == Scan(original, idx)
      invariant forall k :: idx <= k < |lines| ==> lines[k] == original[k]
    {
      ScanNext(original, idx);
      lines, expectedByIndent, inFence, fenceDelimiter, changed :=
        RenumberLine(lines, idx, expectedByIndent, inFence, fenceDelimiter, changed);
      idx := idx + 1;
    }
  }

  /** The body of the loop of renumber_markdown_lists, on line `idx`. */
  method RenumberLine(lines: seq<string>, idx: nat, expectedByIndent: map<nat, nat>, inFence: bool,
                      fenceDelimiter: Option<string>, changed: bool)
    returns (lines': seq<string>, expectedByIndent': map<nat, nat>, inFence': bool,
             fenceDelimiter': Option<string>, changed': bool)
    requires idx < |lines|
    ensures |lines'| == |lines| && forall k :: 0 <= k < |lines| && k != idx ==> lines'[k] == lines[k]
    ensures Renum(lines', expectedByIndent', inFence', fenceDelimiter', changed')
      == Step(Renum(lines, expectedByIndent, inFence, fenceDelimiter, changed), idx, Classify(lines[idx]))
  {
    lines', expectedByIndent', inFence', fenceDelimiter', changed' := lines, expectedByIndent, inFence, fenceDelimiter, changed;
    var line := lines[idx];
    var stripped := LStrip(line);
    var leadingSpaces := |line| - |stripped|;
    if IsFence(stripped) {
      var fenceToken := stripped[..3];
      if !inFence {
        inFence' := true;
        fenceDelimiter' := Some(fenceToken);
      } else if fenceDelimiter == Some(fenceToken) {
        inFence' := false;
        fenceDelimiter' := None;
      }
      expectedByIndent' := map[];
    } else if !inFence {
      var m := ParseItem(line);
      if m.Some? {
        var indent := |m.value.indent|;
        expectedByIndent' := DropDeeper(expectedByIndent, indent);
        var expected := if indent in expectedByIndent' then expectedByIndent'[indent] else 1;
        if DigitsValue(m.value.number) != expected {
          lines' := lines[idx := Renumbered(m.value, expected)];
          changed' := true;
        }
        expectedByIndent' := expectedByIndent'[indent := expected + 1];
      } else if stripped != [] && leadingSpaces == 0 {
        expectedByIndent' := map[];
      }
    }
  }

  /** The inner loop popping every counter deeper than `indent`. */
  method DropDeeper(m: map<nat, nat>, indent: nat) returns (r: map<nat, nat>)
    ensures r == Shallower(m, indent)
  {
    r := m;
    var keys := m.Keys;
    while keys != {}
      invariant keys <= m.Keys
      invariant forall k :: k in r <==> k in m && (k in keys || k <= indent)
      invariant forall k :: k in r ==> r[k] == m[k]
      decreases keys
    {
      var depth :| depth in keys;
      if depth > indent {
        r := r - {depth};
      }
      keys := keys - {depth};
    }
    assert r.Keys == Shallower(m, indent).Keys;
  }

  // ---- what the scan does to each line ----

  /** Lines not yet seen are as they were; a line seen keeps the form it was given when seen. */
  lemma {:induction false} ScanSettled(lines: seq<string>, n: nat)
    requires n <= |lines|
    ensures forall k :: n <= k < |lines| ==> Scan(lines, n).out[k] == lines[k]
    ensures forall k :: 0 <= k < n ==> Scan(lines, n).out[k] == Scan(lines, k + 1).out[k]
  {
    if n > 0 {
      ScanSettled(lines, n - 1);
    }
  }

  /**
   * What the output holds at line `k`: the line itself when it lies in a
   * fence, is not a list item (fence lines included), or already carries the
   * expected number; otherwise the item renumbered with the expected number
   * for its indent.
   */
  lemma OutputLine(lines: seq<string>, k: nat)
    requires k < |lines|
    ensures var st := Scan(lines, k); var kind := Classify(lines[k]);
      Output(lines)[k] ==
        if st.inFence || !kind.ItemLine? || DigitsValue(kind.it.number) == Next(st.counters, |kind.it.indent|) then lines[k]
        else Renumbered(kind.it, Next(st.counters, |kind.it.indent|))
  {
    ScanSettled(lines, |lines|);
    ScanSettled(lines, k);
    KindAt(lines, k);
  }

  /** The output has exactly as many lines as the input. */
  lemma OutputLength(lines: seq<string>)
    ensures |Output(lines)| == |lines|
  {
  }

  /** `changed` is set exactly when some line was rewritten. */
  lemma {:induction false} ChangedIffRewritten(lines: seq<string>, n: nat)
    requires n <= |lines|
    ensures Scan(lines, n).changed <==> Scan(lines, n).out != lines
  {
    if n > 0 {
      ChangedIffRewritten(lines, n - 1);
      ScanSettled(lines, n - 1);
      var st := Scan(lines, n - 1);
      var kind := Kinds(lines)[n - 1];
      StepOut(st, n - 1, kind);
      if !st.inFence && kind.ItemLine? {
        var e := Next(st.counters, |kind.it.indent|);
        if DigitsValue(kind.it.number) != e {
          KindAt(lines, n - 1);
          ItemKindShape(lines[n - 1]);
          RenumberedDiffers(kind.it, e);
          assert Scan(lines, n).out[n - 1] != lines[n - 1];
        }
      }
    }
  }

  /** A step rewrites its line, and sets `changed`, exactly when an item outside a fence has an unexpected number. */
  lemma StepOut(st: Renum, idx: nat, kind: LineKind)
    requires idx < |st.out| && Numeric(kind)
    ensures var r := Step(st, idx, kind);
      if !st.inFence && kind.ItemLine? && DigitsValue(kind.it.number) != Next(st.counters, |kind.it.indent|)
      then r.out == st.out[idx := Renumbered(kind.it, Next(st.counters, |kind.it.indent|))] && r.changed
      else r.out == st.out && r.changed == st.changed
  {
  }

  /** Putting a line without breaks in the place of another keeps the lines free of breaks. */
  lemma NoBreaksUpdate(lines: seq<string>, k: nat, s: string)
    requires NoBreaks(lines) && k < |lines|
    requires forall i :: 0 <= i < |s| ==> s[i] != '\n'
    ensures NoBreaks(lines[k := s])
  {
  }

  /** Every output line is free of line breaks. */
  lemma {:induction false} OutputNoBreaks(lines: seq<string>, n: nat)
    requires n <= |lines| && NoBreaks(lines)
    ensures NoBreaks(Scan(lines, n).out)
  {
    if n > 0 {
      OutputNoBreaks(lines, n - 1);
      var st := Scan(lines, n - 1);
      var kind := Kinds(lines)[n - 1];
      if !st.inFence && kind.ItemLine? {
        var line := lines[n - 1];
        KindAt(lines, n - 1);
        ItemKindShape(line);
        var e := Next(st.counters, |kind.it.indent|);
        RenumberedNoBreaks(line, kind.it, e);
        NoBreaksUpdate(st.out, n - 1, Renumbered(kind.it, e));
      }
    }
  }

  // ---- counting within a list ----

  /** Line `line` is an item at indent `d`, outside any fence line. */
  predicate ItemAt(line: string, d: nat) {
    Classify(line).ItemLine? && |Classify(line).it.indent| == d
  }

  /** A line that leaves the counter for indent `d` alone: a deeper item, a blank line or an indented line. */
  predicate Transparent(line: string, d: nat) {
    match Classify(line)
    case ItemLine(it) => |it.indent| > d
    case OtherLine => true
    case _ => false
  }

  /** An item outside a fence carries, in the output, the number it was given. */
  lemma ItemNumber(lines: seq<string>, k: nat)
    requires k < |lines| && !Scan(lines, k).inFence && Classify(lines[k]).ItemLine?
    ensures NumberOf(Output(lines)[k]) == Next(Scan(lines, k).counters, |Classify(lines[k]).it.indent|)
  {
    OutputLine(lines, k);
    var it := Classify(lines[k]).it;
    ItemKindShape(lines[k]);
    RenumberedParses(it, Next(Scan(lines, k).counters, |it.indent|));
  }

  /** After an item at indent `d` the counter for `d` is one past the number it was given, and nothing deeper is left. */
  lemma ItemCounters(lines: seq<string>, k: nat, d: nat)
    requires k < |lines| && !Scan(lines, k).inFence && ItemAt(lines[k], d)
    ensures d in Scan(lines, k + 1).counters
    ensures Scan(lines, k + 1).counters[d] == Next(Scan(lines, k).counters, d) + 1
    ensures Shallower(Scan(lines, k + 1).counters, d) == Scan(lines, k + 1).counters
    ensures !Scan(lines, k + 1).inFence
  {
    KindAt(lines, k);
  }

  /** Lines that leave indent `d` alone carry its counter, and no fence, from `k` to `j`. */
  lemma {:induction false} CounterCarried(lines: seq<string>, k: nat, j: nat, d: nat)
    requires k <= j <= |lines| && !Scan(lines, k).inFence && d in Scan(lines, k).counters
    requires forall m :: k <= m < j ==> Transparent(lines[m], d)
    ensures !Scan(lines, j).inFence && d in Scan(lines, j).counters
    ensures Scan(lines, j).counters[d] == Scan(lines, k).counters[d]
    decreases j - k
  {
    if k < j {
      CounterCarried(lines, k, j - 1, d);
      KindAt(lines, j - 1);
      TransparentStep(Scan(lines, j - 1), j - 1, Kinds(lines)[j - 1], d);
    }
  }

  /** A step over a deeper item or a blank or indented line keeps the counter for `d`, and no fence is opened. */
  lemma TransparentStep(st: Renum, idx: nat, kind: LineKind, d: nat)
    requires idx < |st.out| && Numeric(kind) && !st.inFence && d in st.counters
    requires (kind.ItemLine? && |kind.it.indent| > d) || kind.OtherLine?
    ensures !Step(st, idx, kind).inFence && d in Step(st, idx, kind).counters
    ensures Step(st, idx, kind).counters[d] == st.counters[d]
  {
    if kind.ItemLine? {
      assert d in Shallower(st.counters, |kind.it.indent|);
    }
  }

  /**
   * Two items at one indent with nothing in between that ends the list
   * (only deeper items, blank lines and indented lines) are numbered n
   * and n + 1.
   */
  lemma NumberedInTurn(lines: seq<string>, k: nat, j: nat, d: nat)
    requires k < j < |lines| && !Scan(lines, k).inFence
    requires ItemAt(lines[k], d) && ItemAt(lines[j], d)
    requires forall m :: k < m < j ==> Transparent(lines[m], d)
    ensures NumberOf(Output(lines)[j]) == NumberOf(Output(lines)[k]) + 1
  {
    ItemCounters(lines, k, d);
    CounterCarried(lines, k + 1, j, d);
    ItemNumber(lines, k);
    ItemNumber(lines, j);
    assert d in Shallower(Scan(lines, j).counters, d);
  }

  /** The first item of a list, with no counter for its indent, is numbered 1. */
  lemma FirstItemIsOne(lines: seq<string>, k: nat, d: nat)
    requires k < |lines| && !Scan(lines, k).inFence && ItemAt(lines[k], d)
    requires d !in Scan(lines, k).counters
    ensures NumberOf(Output(lines)[k]) == 1
  {
    ItemNumber(lines, k);
  }

  /** A fence line, and an unindented line of prose, leave no counters behind. */
  lemma ResetLines(lines: seq<string>, k: nat)
    requires k < |lines|
    requires IsFence(LStrip(lines[k])) ||
      (!Scan(lines, k).inFence && ParseItem(lines[k]).None? && LStrip(lines[k]) != [] && SkipSpace(lines[k], 0) == 0)
    ensures Scan(lines, k + 1).counters == map[]
  {
    KindAt(lines, k);
  }

  /** A fence line closes the open fence exactly when its first three characters are the opener's. */
  lemma FenceCloses(lines: seq<string>, k: nat)
    requires k < |lines| && IsFence(LStrip(lines[k])) && Scan(lines, k).inFence
    ensures !Scan(lines, k + 1).inFence <==> Scan(lines, k).fence == Some(LStrip(lines[k])[..3])
  {
    KindAt(lines, k);
  }

  /** Inside a fence, and on fence lines, nothing is rewritten. */
  lemma FencedLinesKept(lines: seq<string>, k: nat)
    requires k < |lines| && (Scan(lines, k).inFence || IsFence(LStrip(lines[k])))
    ensures Output(lines)[k] == lines[k]
  {
    OutputLine(lines, k);
  }

  /** The number is compared by value: `01.` where 1 is expected stays as written. */
  lemma LeadingZeroKept()
    ensures Output(["01. first"]) == ["01. first"]
  {
    var line := "01. first";
    ParseItemOf("", "01", '.', " first");
    assert "" + "01" + ['.'] + " first" == line;
    assert DigitsValue("01") == 1 by {
      assert "01"[..1] == "0";
      assert "0"[..0] == "";
    }
    assert LStrip(line) == line by {
      assert SkipSpace(line, 0) == 0;
    }
    KindAt([line], 0);
  }

  // ---- the text round trip ----

  /** Splitting a non-empty text that does not end in the separator leaves a non-empty last piece. */
  lemma {:induction false} SplitLastNonEmpty(s: string, c: char)
    requires s != [] && s[|s| - 1] != c
    ensures Split(s, c)[|Split(s, c)| - 1] != []
    decreases |s|
  {
    var i := IndexOfFrom(s, c, 0);
    if i != -1 {
      SplitUnfold(s, c, i);
      var t := s[i + 1..];
      assert t[|t| - 1] == s[|s| - 1];
      SplitLastNonEmpty(t, c);
    }
  }

  /** A join ends with its last part. */
  lemma JoinLast(parts: seq<string>, sep: string) returns (pre: string)
    requires parts != []
    ensures Join(parts, sep) == pre + parts[|parts| - 1]
  {
    var n := |parts|;
    if n > 1 {
      JoinAppend(parts[..n - 1], [parts[n - 1]], sep);
      assert parts[..n - 1] + [parts[n - 1]] == parts;
      pre := Join(parts[..n - 1], sep) + sep;
    } else {
      pre := [];
    }
  }

  /** Lines joined with a final `\n` split back into themselves. */
  lemma RejoinWithBreak(o: seq<string>)
    requires o != [] && NoBreaks(o)
    ensures SplitLines(Join(o, "\n") + "\n") == o
    ensures EndsWith(Join(o, "\n") + "\n", "\n")
  {
    var r := Join(o, "\n") + "\n";
    assert r[..|r| - 1] == Join(o, "\n");
    SplitJoin(o, '\n');
  }

  /** Lines whose last one is not empty, joined without a final `\n`, split back into themselves. */
  lemma RejoinWithoutBreak(o: seq<string>)
    requires o != [] && NoBreaks(o) && o[|o| - 1] != []
    ensures SplitLines(Join(o, "\n")) == o
    ensures !EndsWith(Join(o, "\n"), "\n")
  {
    var last := o[|o| - 1];
    assert last[|last| - 1] != '\n';
    var pre := JoinLast(o, "\n");
    NotEndingInBreak(pre, last);
    SplitJoin(o, '\n');
  }

  /** A text whose last part ends in something other than `\n` does not end in `\n`. */
  lemma NotEndingInBreak(pre: string, last: string)
    requires last != [] && last[|last| - 1] != '\n'
    ensures !EndsWith(pre + last, "\n")
  {
    var r := pre + last;
    assert r[|r| - 1] == last[|last| - 1];
  }

  /** Splitting the renumbered text gives back the renumbered lines, and the final `\n` is kept exactly when there was one. */
  lemma SplitRenumbered(text: string)
    ensures SplitLines(Renumber(text).0) == Output(SplitLines(text))
    ensures EndsWith(Renumber(text).0, "\n") <==> EndsWith(text, "\n")
  {
    var lines := SplitLines(text);
    var o := Output(lines);
    var result := Renumber(text).0;
    assert result == Join(o, "\n") + (if EndsWith(text, "\n") then "\n" else "");
    OutputNoBreaks(lines, |lines|);
    if text == [] {
      assert o == [];
      assert result == [];
    } else if text[|text| - 1] == '\n' {
      assert EndsWith(text, "\n");
      assert result == Join(o, "\n") + "\n";
      RejoinWithBreak(o);
    } else {
      assert !EndsWith(text, "\n");
      assert result == Join(o, "\n");
      assert lines == Split(text, '\n');
      SplitLastNonEmpty(text, '\n');
      OutputKeepsNonEmpty(lines, |lines| - 1);
      RejoinWithoutBreak(o);
    }
  }

  /** A non-empty line stays non-empty in the output. */
  lemma OutputKeepsNonEmpty(lines: seq<string>, k: nat)
    requires k < |lines| && lines[k] != []
    ensures Output(lines)[k] != []
  {
    OutputLine(lines, k);
  }

  /**
   * How output line `kind'` reads against input line `kind` seen in state
   * `st`: an item outside a fence is still an item at the same indent, now
   * carrying the expected number; every other line is unchanged.
   */
  predicate Reread(st: Renum, kind: LineKind, kind': LineKind)
    requires Numeric(kind')
  {
    if !st.inFence && kind.ItemLine? then
      kind'.ItemLine? && |kind'.it.indent| == |kind.it.indent| &&
      DigitsValue(kind'.it.number) == Next(st.counters, |kind.it.indent|)
    else kind' == kind
  }

  /** Every output line reads as its input line renumbered. */
  lemma OutputKind(lines: seq<string>, k: nat)
    requires k < |lines|
    ensures Reread(Scan(lines, k), Kinds(lines)[k], Kinds(Output(lines))[k])
  {
    var st := Scan(lines, k);
    OutputLine(lines, k);
    KindAt(lines, k);
    KindAt(Output(lines), k);
    var kind := Kinds(lines)[k];
    if !st.inFence && kind.ItemLine? {
      var e := Next(st.counters, |kind.it.indent|);
      if DigitsValue(kind.it.number) != e {
        ItemKindShape(lines[k]);
        ClassifyRenumbered(kind.it, e);
        DigitsOfNat(e);
      }
    }
  }

  /** A turn over a reread line, from the first pass's state with its output in place, gives that pass's next state. */
  lemma StepLockstep(a: Renum, idx: nat, kind: LineKind, kind': LineKind, o: seq<string>)
    requires idx < |a.out| == |o| && Numeric(kind) && Numeric(kind') && Reread(a, kind, kind')
    ensures Step(a.(out := o, changed := false), idx, kind') == Step(a, idx, kind).(out := o, changed := false)
  {
  }

  /** The second pass over the output passes through the very same states, with nothing left to rewrite. */
  lemma {:induction false} Lockstep(lines: seq<string>, n: nat)
    requires n <= |lines|
    ensures Scan(Output(lines), n) == Scan(lines, n).(out := Output(lines), changed := false)
  {
    if n > 0 {
      Lockstep(lines, n - 1);
      OutputKind(lines, n - 1);
      StepLockstep(Scan(lines, n - 1), n - 1, Kinds(lines)[n - 1], Kinds(Output(lines))[n - 1], Output(lines));
    }
  }

  /** Renumbering is idempotent: a second run changes nothing and reports no change. */
  lemma RenumberIdempotent(text: string)
    ensures Renumber(Renumber(text).0) == (Renumber(text).0, false)
  {
    var lines := SplitLines(text);
    var o := Output(lines);
    SplitRenumbered(text);
    Lockstep(lines, |lines|);
    assert Scan(o, |o|).out == o;
  }
}
