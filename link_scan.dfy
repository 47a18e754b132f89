/**
 * The inline-link part of the shared Markdown link scanner: a balanced
 * delimiter matcher that honours backslash escapes, the destination parser
 * and the scanner that finds `[text](destination)` links.
 */
module LinkScan {
  import opened Strings

  // ---- balanced delimiter matching ----

  /**
   * The matcher's loop from position `i` with nesting `depth`: a backslash
   * skips itself and the next character, an opener deepens, a closer that
   * brings the depth back to 0 is the answer.  -1 when the text runs out.
   */
  function Closing(text: string, i: nat, depth: int, opener: char, closer: char): (r: int)
    decreases |text| - i
    ensures r == -1 || (i <= r < |text| && text[r] == closer)
  {
    if i >= |text| then -1
    else if text[i] == '\\' then Closing(text, i + 2, depth, opener, closer)
    else if text[i] == opener then Closing(text, i + 1, depth + 1, opener, closer)
    else if text[i] == closer then (if depth - 1 == 0 then i else Closing(text, i + 1, depth - 1, opener, closer))
    else Closing(text, i + 1, depth, opener, closer)
  }

  /** The matcher itself: the index of the closer matching the opener at `start`, or -1. */
  method FindClosing(text: string, start: nat, opener: char, closer: char) returns (r: int)
    ensures r == Closing(text, start, 0, opener, closer)
    ensures r == -1 || (start <= r < |text| && text[r] == closer)
  {
    var depth := 0;
    var i := start;
    while i < |text|
      invariant start <= i && (i <= |text| + 1 || i == start)
      invariant Closing(text, i, depth, opener, closer) == Closing(text, start, 0, opener, closer)
      decreases |text| + 1 - i
    {
      var current := text[i];
      if current == '\\' {
        i := i + 2;
        continue;
      }
      if current == opener {
        depth := depth + 1;
      } else if current == closer {
        depth := depth - 1;
        if depth == 0 {
          return i;
        }
      }
      i := i + 1;
    }
    return -1;
  }

  /** Openers minus closers in `text[i..k]`: the nesting depth that stretch adds. */
  function Net(text: string, i: nat, k: nat, opener: char, closer: char): int
    requires i <= k <= |text|
    decreases k - i
  {
    if i == k then 0
    else (if text[i] == opener then 1 else 0) - (if text[i] == closer then 1 else 0)
         + Net(text, i + 1, k, opener, closer)
  }

  /** The depth a stretch adds is the opener count minus the closer count. */
  lemma {:induction false} NetCounts(text: string, i: nat, k: nat, opener: char, closer: char)
    requires i <= k <= |text|
    ensures Net(text, i, k, opener, closer) == CountChar(text[i..k], opener) - CountChar(text[i..k], closer)
    decreases k - i
  {
    if i < k {
      NetCounts(text, i + 1, k, opener, closer);
      assert text[i..k][1..] == text[i + 1..k];
    } else {
      assert text[i..k] == [];
    }
  }

  /**
   * Without backslashes the matcher is plain counting: the answer is the
   * first position where the running depth returns to 0, and -1 means the
   * depth never does.
   */
  lemma {:induction false} ClosingCounts(text: string, i: nat, depth: int, opener: char, closer: char)
    requires opener != closer && opener != '\\' && closer != '\\'
    requires i <= |text|
    requires forall k :: i <= k < |text| ==> text[k] != '\\'
    requires depth >= 1
    ensures var r := Closing(text, i, depth, opener, closer);
      && (r != -1 ==> depth + Net(text, i, r + 1, opener, closer) == 0
                      && forall k :: i <= k <= r ==> depth + Net(text, i, k, opener, closer) > 0)
      && (r == -1 ==> forall k :: i <= k <= |text| ==> depth + Net(text, i, k, opener, closer) > 0)
    decreases |text| - i
  {
    if i < |text| {
      var r := Closing(text, i, depth, opener, closer);
      var delta := (if text[i] == opener then 1 else 0) - (if text[i] == closer then 1 else 0);
      if text[i] == closer && depth - 1 == 0 {
        assert r == i;
        assert Net(text, i, i + 1, opener, closer) == -1;
      } else {
        ClosingCounts(text, i + 1, depth + delta, opener, closer);
        assert forall k :: i < k <= |text| ==> Net(text, i, k, opener, closer) == delta + Net(text, i + 1, k, opener, closer);
      }
    }
  }

  /** Matching from an opener at `start` is plain counting from `start` when no backslash follows. */
  lemma ClosingFromOpener(text: string, start: nat, opener: char, closer: char)
    requires opener != closer && opener != '\\' && closer != '\\'
    requires start < |text| && text[start] == opener
    requires forall k :: start < k < |text| ==> text[k] != '\\'
    ensures var r := Closing(text, start, 0, opener, closer);
      && (r != -1 ==> start < r && Net(text, start, r + 1, opener, closer) == 0
                      && forall k :: start < k <= r ==> Net(text, start, k, opener, closer) > 0)
      && (r == -1 ==> forall k :: start < k <= |text| ==> Net(text, start, k, opener, closer) > 0)
  {
    ClosingCounts(text, start + 1, 1, opener, closer);
    assert forall k :: start < k <= |text| ==> Net(text, start, k, opener, closer) == 1 + Net(text, start + 1, k, opener, closer);
  }

  function ShiftFrom(r: int, m: nat, delta: nat): int {
    if r == -1 || r < m then r else r + delta
  }

  /** From position `m` on, the matcher only looks at `text[m..]`. */
  lemma {:induction false} ClosingSuffix(text: string, m: nat, i: nat, depth: int, opener: char, closer: char)
    requires m <= i && m <= |text|
    ensures Closing(text, i, depth, opener, closer)
         == ShiftFrom(Closing(text[m..], i - m, depth, opener, closer), 0, m)
    decreases |text| - i
  {
    if i < |text| {
      assert text[m..][i - m] == text[i];
      if text[i] == '\\' {
        ClosingSuffix(text, m, i + 2, depth, opener, closer);
      } else if text[i] == opener {
        ClosingSuffix(text, m, i + 1, depth + 1, opener, closer);
      } else if text[i] == closer && depth - 1 != 0 {
        ClosingSuffix(text, m, i + 1, depth - 1, opener, closer);
      } else if text[i] != closer {
        ClosingSuffix(text, m, i + 1, depth, opener, closer);
      }
    }
  }

  /**
   * A backslash skips itself and exactly one following character: putting an
   * escaped pair `\c` into backslash-free text, whatever `c` is, only moves a
   * later answer two places to the right.
   */
  lemma {:induction false} EscapedPairIsSkipped(x: string, c: char, y: string, i: nat, depth: int, opener: char, closer: char)
    requires i <= |x|
    requires forall k :: i <= k < |x| ==> x[k] != '\\'
    ensures Closing(x + ['\\', c] + y, i, depth, opener, closer)
         == ShiftFrom(Closing(x + y, i, depth, opener, closer), |x|, 2)
    decreases |x| - i
  {
    var t := x + ['\\', c] + y;
    var u := x + y;
    if i == |x| {
      assert t[i] == '\\';
      ClosingSuffix(t, |x| + 2, |x| + 2, depth, opener, closer);
      ClosingSuffix(u, |x|, |x|, depth, opener, closer);
      assert t[|x| + 2..] == y;
      assert u[|x|..] == y;
    } else {
      assert t[i] == x[i] && u[i] == x[i];
      if x[i] == opener {
        EscapedPairIsSkipped(x, c, y, i + 1, depth + 1, opener, closer);
      } else if x[i] == closer && depth - 1 != 0 {
        EscapedPairIsSkipped(x, c, y, i + 1, depth - 1, opener, closer);
      } else if x[i] != closer {
        EscapedPairIsSkipped(x, c, y, i + 1, depth, opener, closer);
      }
    }
  }

  // ---- link destinations ----

  /** The first position at or after `i` holding whitespace, or the length. */
  function TokenEnd(s: string, i: nat): (r: nat)
    requires i <= |s|
    decreases |s| - i
    ensures i <= r <= |s|
    ensures r < |s| ==> IsSpace(s[r])
  {
    if i < |s| && !IsSpace(s[i]) then TokenEnd(s, i + 1) else i
  }

  lemma {:induction false} TokenEndNoSpace(s: string, i: nat)
    requires i <= |s|
    ensures forall k :: i <= k < TokenEnd(s, i) ==> !IsSpace(s[k])
    decreases |s| - i
  {
    if i < |s| && !IsSpace(s[i]) {
      TokenEndNoSpace(s, i + 1);
    }
  }

  /** The text before the first whitespace character (Python's s.split()[0] for `s` not starting with whitespace). */
  function FirstToken(s: string): string {
    s[..TokenEnd(s, 0)]
  }

  /**
   * The href inside a link destination: nothing for blank content; for
   * `<...>` with a `>` the trimmed text between `<` and the first `>`;
   * otherwise the first whitespace-delimited token.
   */
  function ExtractHref(destContent: string): string
  {
    var content := Strip(destContent);
    var closing := IndexOfFrom(content, '>', 0);
    if content == [] then []
    else if content[0] == '<' && closing != -1 then
      Strip(content[1..closing])
    else FirstToken(content)
  }

  lemma ExtractHrefCases(destContent: string)
    ensures IsBlank(destContent) ==> ExtractHref(destContent) == []
    ensures var c := Strip(destContent); var k := IndexOfFrom(c, '>', 0);
      c != [] && c[0] == '<' && k != -1 ==>
        0 < k && (forall j :: 0 <= j < k ==> c[j] != '>') && ExtractHref(destContent) == Strip(c[1..k])
    ensures var c := Strip(destContent); var r := ExtractHref(destContent);
      c != [] && !(c[0] == '<' && IndexOfFrom(c, '>', 0) != -1) ==>
        r != [] && |r| <= |c| && r == c[..|r|] && (forall k :: 0 <= k < |r| ==> !IsSpace(r[k])) && (|r| == |c| || IsSpace(c[|r|]))
  {
    StripEmpty(destContent);
    var c := Strip(destContent);
    var a, b := StripParts(destContent);
    TokenEndNoSpace(c, 0);
  }

  // ---- inline links ----

  /** A `[text](destination)` link found by the scanner. */
  datatype InlineLink = InlineLink(
    start: nat, end: nat, text: string, href: string,
    separator: string, destContent: string, segment: string)

  /** The link's span: it starts at a `[` not preceded by `!` and ends just after a `)`. */
  ghost predicate SpanShape(text: string, l: InlineLink) {
    && l.start < l.end <= |text|
    && text[l.start] == '['
    && (l.start == 0 || text[l.start - 1] != '!')
    && l.segment == text[l.start..l.end]
    && text[l.end - 1] == ')'
  }

  /** The link text is everything between the `[` and its matching `]`. */
  ghost predicate TextShape(text: string, l: InlineLink) {
    && l.start + 1 + |l.text| < l.end <= |text|
    && l.text == text[l.start + 1..l.start + 1 + |l.text|]
    && Closing(text, l.start, 0, '[', ']') == l.start + 1 + |l.text|
  }

  /**
   * Whitespace separates the `]` from the `(`; the destination runs from
   * there to the link's closing `)`, and the href is read from it.
   */
  ghost predicate SepShape(text: string, l: InlineLink) {
    && l.start + 2 + |l.text| + |l.separator| < l.end <= |text|
    && IsBlank(l.separator)
    && l.separator == text[l.start + 2 + |l.text|..l.start + 2 + |l.text| + |l.separator|]
    && text[l.start + 2 + |l.text| + |l.separator|] == '('
  }

  ghost predicate DestShape(text: string, l: InlineLink) {
    && l.start + 3 + |l.text| + |l.separator| < l.end <= |text|
    && l.destContent == text[l.start + 3 + |l.text| + |l.separator|..l.end - 1]
    && l.href == ExtractHref(l.destContent) && l.href != []
  }

  /** What the link `l` says about `text`. */
  ghost predicate WellFormed(text: string, l: InlineLink) {
    SpanShape(text, l) && TextShape(text, l) && SepShape(text, l) && DestShape(text, l)
  }

  /** The link built from the positions of its `[`, `]`, `(` and `)`. */
  function LinkAt(text: string, idx: nat, close: nat, j: nat, destEnd: nat, href: string): InlineLink
    requires idx < close < j < destEnd < |text|
  {
    InlineLink(idx, destEnd + 1, text[idx + 1..close], href,
               text[close + 1..j], text[j + 1..destEnd], text[idx..destEnd + 1])
  }

  lemma LinkAtWellFormed(text: string, idx: nat, close: nat, j: nat, destEnd: nat, href: string)
    requires idx < close < j < destEnd < |text|
    requires text[idx] == '[' && !(idx > 0 && text[idx - 1] == '!')
    requires Closing(text, idx, 0, '[', ']') == close
    requires IsBlank(text[close + 1..j]) && text[j] == '(' && text[destEnd] == ')'
    requires href == ExtractHref(text[j + 1..destEnd]) && href != []
    ensures WellFormed(text, LinkAt(text, idx, close, j, destEnd, href))
  {
    LinkAtSpan(text, idx, close, j, destEnd, href);
    LinkAtText(text, idx, close, j, destEnd, href);
    LinkAtSep(text, idx, close, j, destEnd, href);
    LinkAtDest(text, idx, close, j, destEnd, href);
  }

  lemma LinkAtSpan(text: string, idx: nat, close: nat, j: nat, destEnd: nat, href: string)
    requires idx < close < j < destEnd < |text|
    requires text[idx] == '[' && !(idx > 0 && text[idx - 1] == '!') && text[destEnd] == ')'
    ensures SpanShape(text, LinkAt(text, idx, close, j, destEnd, href))
  {
  }

  lemma LinkAtText(text: string, idx: nat, close: nat, j: nat, destEnd: nat, href: string)
    requires idx < close < j < destEnd < |text|
    requires Closing(text, idx, 0, '[', ']') == close
    ensures TextShape(text, LinkAt(text, idx, close, j, destEnd, href))
  {
    var l := LinkAt(text, idx, close, j, destEnd, href);
    assert l.start + 1 + |l.text| == close;
  }

  lemma LinkAtSep(text: string, idx: nat, close: nat, j: nat, destEnd: nat, href: string)
    requires idx < close < j < destEnd < |text|
    requires IsBlank(text[close + 1..j]) && text[j] == '('
    ensures SepShape(text, LinkAt(text, idx, close, j, destEnd, href))
  {
    var l := LinkAt(text, idx, close, j, destEnd, href);
    assert l.start + 2 + |l.text| == close + 1;
    assert l.start + 2 + |l.text| + |l.separator| == j;
  }

  lemma LinkAtDest(text: string, idx: nat, close: nat, j: nat, destEnd: nat, href: string)
    requires idx < close < j < destEnd < |text|
    requires href == ExtractHref(text[j + 1..destEnd]) && href != []
    ensures DestShape(text, LinkAt(text, idx, close, j, destEnd, href))
  {
    var l := LinkAt(text, idx, close, j, destEnd, href);
    assert l.start + 3 + |l.text| + |l.separator| == j + 1;
  }

  /** What one pass of the scanner's loop does at `idx`: where it resumes and what it yields. */
  datatype Step = Step(next: nat, found: Option<InlineLink>)

  function ScanStep(text: string, idx: nat): (st: Step)
    requires idx < |text|
    ensures idx < st.next
  {
    if text[idx] != '[' || (idx > 0 && text[idx - 1] == '!') then Step(idx + 1, None)
    else
      var close := Closing(text, idx, 0, '[', ']');
      if close == -1 then Step(idx + 1, None) else AfterText(text, idx, close)
  }

  /** The scanner has matched `[` at `idx` with `]` at `close`; it looks for `(` past any whitespace. */
  function AfterText(text: string, idx: nat, close: nat): (st: Step)
    requires idx < close < |text| && text[idx] == '['
    ensures close < st.next
  {
    var j := SkipSpace(text, close + 1);
    if j >= |text| || text[j] != '(' then Step(close + 1, None)
    else
      var destEnd := Closing(text, j, 0, '(', ')');
      if destEnd == -1 then Step(close + 1, None) else AtDestination(text, idx, close, j, destEnd)
  }

  /** The destination runs from `(` at `j` to `)` at `destEnd`; a link is yielded when it holds an href. */
  function AtDestination(text: string, idx: nat, close: nat, j: nat, destEnd: nat): (st: Step)
    requires idx < close < j < destEnd < |text|
    ensures st.next == destEnd + 1
  {
    var href := ExtractHref(text[j + 1..destEnd]);
    if href == [] then Step(destEnd + 1, None)
    else Step(destEnd + 1, Some(LinkAt(text, idx, close, j, destEnd, href)))
  }

  /** A link found at `idx` is well formed, starts at `idx`, and scanning resumes at its end. */
  lemma ScanStepFound(text: string, idx: nat)
    requires idx < |text|
    ensures var st := ScanStep(text, idx);
      st.found.Some? ==> WellFormed(text, st.found.value) && st.found.value.start == idx && st.found.value.end == st.next
  {
    if text[idx] == '[' && !(idx > 0 && text[idx - 1] == '!') {
      var close := Closing(text, idx, 0, '[', ']');
      if close != -1 {
        AfterTextFound(text, idx, close);
      }
    }
  }

  lemma AfterTextFound(text: string, idx: nat, close: nat)
    requires idx < close < |text| && text[idx] == '[' && !(idx > 0 && text[idx - 1] == '!')
    requires Closing(text, idx, 0, '[', ']') == close
    ensures var st := AfterText(text, idx, close);
      st.found.Some? ==> WellFormed(text, st.found.value) && st.found.value.start == idx && st.found.value.end == st.next
  {
    var j := SkipSpace(text, close + 1);
    if j < |text| && text[j] == '(' {
      var destEnd := Closing(text, j, 0, '(', ')');
      if destEnd != -1 {
        SkipSpaceBlank(text, close + 1);
        AtDestinationFound(text, idx, close, j, destEnd);
      }
    }
  }

  lemma AtDestinationFound(text: string, idx: nat, close: nat, j: nat, destEnd: nat)
    requires idx < close < j < destEnd < |text|
    requires text[idx] == '[' && !(idx > 0 && text[idx - 1] == '!')
    requires Closing(text, idx, 0, '[', ']') == close
    requires IsBlank(text[close + 1..j]) && text[j] == '(' && text[destEnd] == ')'
    ensures var st := AtDestination(text, idx, close, j, destEnd);
      st.found.Some? ==> WellFormed(text, st.found.value) && st.found.value.start == idx && st.found.value.end == st.next
  {
    var href := ExtractHref(text[j + 1..destEnd]);
    if href != [] {
      LinkAtWellFormed(text, idx, close, j, destEnd, href);
    }
  }


  /** The scanner's loop from `idx`, one pass per recursive call. */
  function ScanInline(text: string, idx: nat): (links: seq<InlineLink>)
    decreases |text| - idx
  {
    if idx >= |text| then []
    else
      var st := ScanStep(text, idx);
      (if st.found.Some? then [st.found.value] else []) + ScanInline(text, st.next)
  }

  /** Every link in `links` is well formed. */
  ghost predicate AllWellFormed(text: string, links: seq<InlineLink>)
  {
    forall k :: 0 <= k < |links| ==> WellFormed(text, links[k])
  }

  /** The links start at or after `from`, come in order and do not overlap. */
  ghost predicate InOrder(links: seq<InlineLink>, from: nat)
    decreases |links|
  {
    links == [] || (from <= links[0].start < links[0].end && InOrder(links[1..], links[0].end))
  }

  lemma {:induction false} InOrderDisjoint(links: seq<InlineLink>, from: nat)
    requires InOrder(links, from)
    ensures forall k :: 0 <= k < |links| ==> from <= links[k].start < links[k].end
    ensures forall a, b :: 0 <= a < b < |links| ==> links[a].end <= links[b].start
    decreases |links|
  {
    if links != [] {
      InOrderDisjoint(links[1..], links[0].end);
      assert forall k :: 1 <= k < |links| ==> links[k] == links[1..][k - 1];
    }
  }

  /**
   * Every link the scanner yields from `idx` is well formed, and the links
   * start at or after `idx`, come in order and do not overlap.
   */
  lemma {:induction false} ScanInlineWellFormed(text: string, idx: nat)
    ensures AllWellFormed(text, ScanInline(text, idx))
    ensures InOrder(ScanInline(text, idx), idx)
    decreases |text| - idx
  {
    if idx < |text| {
      var st := ScanStep(text, idx);
      var rest := ScanInline(text, st.next);
      ScanInlineWellFormed(text, st.next);
      ScanStepFound(text, idx);
      if st.found.Some? {
        var links := [st.found.value] + rest;
        assert links[1..] == rest;
        assert forall k :: 1 <= k < |links| ==> links[k] == rest[k - 1];
      } else {
        assert ScanInline(text, idx) == rest;
        InOrderFrom(rest, st.next, idx);
      }
    }
  }

  lemma {:induction false} InOrderFrom(links: seq<InlineLink>, from: nat, from': nat)
    requires InOrder(links, from) && from' <= from
    ensures InOrder(links, from')
  {
  }

  /** The inline-link generator, collecting what it yields in order. */
  method FindInlineLinks(text: string) returns (links: seq<InlineLink>)
    ensures links == ScanInline(text, 0)
  {
    links := [];
    var idx := 0;
    var length := |text|;
    while idx < length
      invariant idx <= length
      invariant links + ScanInline(text, idx) == ScanInline(text, 0)
      decreases length - idx
    {
      var st := ScanOne(text, idx);
      ghost var found := if st.found.Some? then [st.found.value] else [];
      assert ScanInline(text, idx) == found + ScanInline(text, st.next);
      AppendAssoc(links, found, ScanInline(text, st.next));
      if st.found.Some? {
        links := links + [st.found.value];
      }
      idx := st.next;
    }
  }

  /** One pass of the generator's loop at `idx`: move past a character that opens no link, or read one link. */
  method ScanOne(text: string, idx: nat) returns (st: Step)
    requires idx < |text|
    ensures st == ScanStep(text, idx)
  {
    if text[idx] != '[' || (idx > 0 && text[idx - 1] == '!') {
      return Step(idx + 1, None);
    }
    var close := FindClosing(text, idx, '[', ']');
    if close == -1 {
      return Step(idx + 1, None);
    }
    st := ReadDestination(text, idx, close);
  }

  /**
   * The part of the generator's loop after a `[` at `idx` has been matched
   * with `]` at `close`: skip whitespace, expect `(`, match it, read the href.
   */
  method ReadDestination(text: string, idx: nat, close: nat) returns (st: Step)
    requires idx < close < |text| && text[idx] == '['
    ensures st == AfterText(text, idx, close)
  {
    var length := |text|;
    var j := close + 1;
    while j < length && IsSpace(text[j])
      invariant close + 1 <= j <= length
      invariant SkipSpace(text, close + 1) == SkipSpace(text, j)
      decreases length - j
    {
      j := j + 1;
    }
    if j >= length || text[j] != '(' {
      return Step(close + 1, None);
    }
    var destEnd := FindClosing(text, j, '(', ')');
    if destEnd == -1 {
      return Step(close + 1, None);
    }
    st := AtDestination(text, idx, close, j, destEnd);
  }
}
