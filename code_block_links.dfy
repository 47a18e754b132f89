/**
 * Finding Markdown links to web pages that sit inside fenced code, where
 * they are shown as text rather than as links.  Fence lines
 * (```` ``` ```` with an optional lower-case language) are paired in
 * order of appearance, first with second, third with fourth, and every
 * `[text](http...)` link that starts inside a pair is reported with its
 * line, its text cut to 40 characters and its URL cut to 50.
 */
module CodeBlockLinks {
  import opened Strings
  import opened CodeRanges
  import LineMap
  import LinkExtract

  // ---- the fence pattern `^```[a-z]*\s*$` (re.MULTILINE) ----

  /** `^` in multi-line mode: the start of the text or just after a `\n`. */
  predicate BeginsLine(s: string, p: nat) {
    p == 0 || (0 < p <= |s| && s[p - 1] == '\n')
  }

  predicate IsLower(c: char) { 'a' <= c <= 'z' }

  /** The end of the run of lower-case letters starting at `i`. */
  function LowersEnd(s: string, i: nat): (r: nat)
    requires i <= |s|
    ensures i <= r <= |s|
    decreases |s| - i
  {
    if i < |s| && IsLower(s[i]) then LowersEnd(s, i + 1) else i
  }

  /**
   * `\s*$` from `i`: the whole whitespace run when it reaches the end of the
   * text; otherwise the run backs off to its last `\n`, before which `$`
   * holds; -1 when the run holds no `\n`.
   */
  function SpaceToLineEnd(s: string, i: nat): (r: int)
    requires i <= |s|
    ensures r == -1 || i <= r <= |s|
  {
    var q := SkipSpace(s, i);
    if q == |s| then q
    else
      var nl := LastIndexBefore(s, '\n', q);
      if nl >= i then nl else -1
  }

  /** Where the fence pattern matched at `p` ends, or -1. */
  function FenceMatchAt(s: string, p: nat): (r: int)
    requires p <= |s|
    ensures r == -1 || p + 3 <= r <= |s|
  {
    if BeginsLine(s, p) && OccursAt(s, "```", p) then SpaceToLineEnd(s, LowersEnd(s, p + 3)) else -1
  }

  /** Each span is where the fence pattern matched at the span's start. */
  ghost predicate AllFences(s: string, ms: seq<Span>) {
    forall k :: 0 <= k < |ms| ==> ms[k].start <= |s| && FenceMatchAt(s, ms[k].start) == ms[k].end
  }

  /** pattern.finditer(content) from `p`: try each position, and after a match resume at its end. */
  function FenceMatches(s: string, p: nat): (r: seq<Span>)
    requires p <= |s|
    ensures AllFences(s, r)
    ensures SpansInOrder(r, p, |s|)
    decreases |s| - p
  {
    if p == |s| then []
    else
      var e := FenceMatchAt(s, p);
      if e == -1 then
        var rest := FenceMatches(s, p + 1);
        SpansInOrderWeaken(rest, p + 1, p, |s|);
        rest
      else
        var rest := FenceMatches(s, e);
        var r := [Span(p, e)] + rest;
        assert r[1..] == rest;
        r
  }

  /** The whitespace matched by `\s*$` is whitespace, and the match stops at a line end. */
  lemma SpaceToLineEndShape(s: string, i: nat)
    requires i <= |s| && SpaceToLineEnd(s, i) != -1
    ensures var r := SpaceToLineEnd(s, i);
      IsBlank(s[i..r]) && (r == |s| || s[r] == '\n')
  {
    var q := SkipSpace(s, i);
    var r := SpaceToLineEnd(s, i);
    SkipSpaceSpaces(s, i);
    BlankSlice(s, i, r);
  }

  lemma {:induction false} LowersEndLetters(s: string, i: nat)
    requires i <= |s|
    ensures forall k :: i <= k < LowersEnd(s, i) ==> IsLower(s[k])
    decreases |s| - i
  {
    if i < |s| && IsLower(s[i]) {
      LowersEndLetters(s, i + 1);
    }
  }

  /**
   * A fence match is a whole fence line: it starts a line with three
   * backticks, goes on with lower-case letters and then whitespace only,
   * and ends at the end of a line.
   */
  lemma FenceMatchShape(s: string, p: nat)
    requires p <= |s| && FenceMatchAt(s, p) != -1
    ensures var e := FenceMatchAt(s, p);
      BeginsLine(s, p) && s[p..p + 3] == "```" && (e == |s| || s[e] == '\n') &&
      exists a :: p + 3 <= a <= e && (forall k :: p + 3 <= k < a ==> IsLower(s[k])) && IsBlank(s[a..e])
  {
    var a := LowersEnd(s, p + 3);
    LowersEndLetters(s, p + 3);
    SpaceToLineEndShape(s, a);
  }

  // ---- find_code_block_ranges ----

  /** The pairing loop's state: the ranges so far, in_block and block_start. */
  datatype Pairing = Pairing(ranges: seq<Span>, inBlock: bool, blockStart: nat)

  /** One fence match: open a block, or close the open one. */
  function PairStep(st: Pairing, m: Span): Pairing {
    if !st.inBlock then st.(blockStart := m.start, inBlock := true)
    else st.(ranges := st.ranges + [Span(st.blockStart, m.end)], inBlock := false)
  }

  /** The state after the first `n` matches. */
  function PairScan(ms: seq<Span>, n: nat): Pairing
    requires n <= |ms|
  {
    if n == 0 then Pairing([], false, 0) else PairStep(PairScan(ms, n - 1), ms[n - 1])
  }

  /** find_code_block_ranges(content). */
  function CodeBlockRanges(content: string): seq<Span> {
    var ms := FenceMatches(content, 0);
    PairScan(ms, |ms|).ranges
  }

  /** find_code_block_ranges: the loop over the fence matches. */
  method FindCodeBlockRanges(content: string) returns (ranges: seq<Span>)
    ensures ranges == CodeBlockRanges(content)
  {
    var ms := FenceMatches(content, 0);
    ranges := [];
    var inBlock := false;
    var blockStart: nat := 0;
    var i := 0;
    while i < |ms|
      invariant i <= |ms|
      invariant Pairing(ranges, inBlock, blockStart) == PairScan(ms, i)
    {
      var m := ms[i];
      if !inBlock {
        blockStart := m.start;
        inBlock := true;
      } else {
        ranges := ranges + [Span(blockStart, m.end)];
        inBlock := false;
      }
      i := i + 1;
    }
  }

  /** Matches are paired first with second, third with fourth, and so on; an odd one out opens a block that never closes. */
  lemma {:induction false} PairScanShape(ms: seq<Span>, n: nat)
    requires n <= |ms|
    ensures |PairScan(ms, n).ranges| == n / 2
    ensures PairScan(ms, n).inBlock <==> n % 2 == 1
    ensures PairScan(ms, n).inBlock ==> PairScan(ms, n).blockStart == ms[n - 1].start
    ensures forall k :: 0 <= k < n / 2 ==> PairScan(ms, n).ranges[k] == Span(ms[2 * k].start, ms[2 * k + 1].end)
  {
    if n > 0 {
      PairScanShape(ms, n - 1);
    }
  }

  /**
   * The code block ranges pair the fence lines in order: range k runs from
   * the start of fence line 2k to the end of fence line 2k + 1, and a last
   * fence line without a partner gives no range.
   */
  lemma PairedFences(content: string)
    ensures var ms := FenceMatches(content, 0);
      |CodeBlockRanges(content)| == |ms| / 2 &&
      forall k :: 0 <= k < |ms| / 2 ==> CodeBlockRanges(content)[k] == Span(ms[2 * k].start, ms[2 * k + 1].end)
  {
    var ms := FenceMatches(content, 0);
    PairScanShape(ms, |ms|);
  }

  /** The ranges are non-empty, ascending, disjoint and within the text, and each starts at a fence line. */
  lemma RangesInOrder(content: string)
    ensures var rs := CodeBlockRanges(content);
      (forall k :: 0 <= k < |rs| ==> rs[k].start < rs[k].end <= |content| && FenceMatchAt(content, rs[k].start) != -1) &&
      (forall a, b :: 0 <= a < b < |rs| ==> rs[a].end <= rs[b].start)
  {
    var ms := FenceMatches(content, 0);
    var rs := CodeBlockRanges(content);
    PairedFences(content);
    SpansInOrderDisjoint(ms, 0, |content|);
    PairsInOrder(ms, rs, |content|);
    forall k | 0 <= k < |rs| ensures FenceMatchAt(content, rs[k].start) != -1 {
      assert rs[k].start == ms[2 * k].start;
    }
  }

  /** Spans made of consecutive pairs of ordered, disjoint spans are ordered and disjoint too. */
  lemma PairsInOrder(ms: seq<Span>, rs: seq<Span>, bound: nat)
    requires |rs| == |ms| / 2
    requires forall k :: 0 <= k < |rs| ==> rs[k] == Span(ms[2 * k].start, ms[2 * k + 1].end)
    requires forall k :: 0 <= k < |ms| ==> ms[k].start < ms[k].end <= bound
    requires forall a, b :: 0 <= a < b < |ms| ==> ms[a].end <= ms[b].start
    ensures forall k :: 0 <= k < |rs| ==> rs[k].start < rs[k].end <= bound
    ensures forall a, b :: 0 <= a < b < |rs| ==> rs[a].end <= rs[b].start
  {
    forall k | 0 <= k < |rs| ensures rs[k].start < rs[k].end <= bound {
      assert ms[2 * k].end <= ms[2 * k + 1].start;
    }
    forall a, b | 0 <= a < b < |rs| ensures rs[a].end <= rs[b].start {
      assert 2 * a + 1 < 2 * b;
      assert ms[2 * a + 1].end <= ms[2 * b].start;
    }
  }

  /** in_code_block: the loop over the ranges, with a half-open test. */
  method InCodeBlock(pos: int, ranges: seq<Span>) returns (r: bool)
    ensures r == InRanges(pos, ranges)
    ensures r <==> exists k :: 0 <= k < |ranges| && ranges[k].start <= pos < ranges[k].end
  {
    var i := 0;
    while i < |ranges|
      invariant i <= |ranges|
      invariant forall k :: 0 <= k < i ==> !(ranges[k].start <= pos < ranges[k].end)
    {
      if ranges[i].start <= pos < ranges[i].end {
        return true;
      }
      i := i + 1;
    }
    return false;
  }

  // ---- the link pattern `\[([^\]]+)\]\((https?://[^)]+)\)` ----

  /** One match: its span, the bracketed text and the URL. */
  datatype HttpLink = HttpLink(start: nat, end: nat, text: string, url: string)

  /**
   * The link pattern at `p`.  `[^\]]+` can only stop at the first `]`, and
   * `[^)]+` at the first `)` after the scheme, so each has one way to match.
   */
  function HttpLinkAt(s: string, p: nat): (r: Option<HttpLink>)
    ensures r.Some? ==> r.value.start == p < r.value.end <= |s|
  {
    if p + 1 < |s| && s[p] == '[' then
      var c := IndexOfFrom(s, ']', p + 1);
      if c > p + 1 && c + 1 < |s| && s[c + 1] == '(' && LinkExtract.SchemeEnd(s, c + 2) != -1 then
        var q := LinkExtract.SchemeEnd(s, c + 2);
        var e := IndexOfFrom(s, ')', q);
        if e > q then Some(HttpLink(p, e + 1, s[p + 1..c], s[c + 2..e])) else None
      else None
    else None
  }

  /** A URL the pattern accepts: `http://` or `https://` and at least one more character, none of them `)`. */
  predicate HttpUrl(url: string) {
    ((StartsWith(url, "http://") && |url| > 7) || (StartsWith(url, "https://") && |url| > 8)) &&
    forall i :: 0 <= i < |url| ==> url[i] != ')'
  }

  /** The text of a match, read off the regular expression: `[`, text without `]`, `](`, URL, `)`. */
  ghost predicate IsHttpLink(s: string, m: HttpLink) {
    m.start <= m.end <= |s| && s[m.start..m.end] == "[" + m.text + "](" + m.url + ")" &&
    m.text != [] && (forall i :: 0 <= i < |m.text| ==> m.text[i] != ']') &&
    HttpUrl(m.url)
  }

  /** Every match found has the shape of the pattern. */
  lemma HttpLinkSound(s: string, p: nat)
    requires HttpLinkAt(s, p).Some?
    ensures IsHttpLink(s, HttpLinkAt(s, p).value)
  {
    var m := HttpLinkAt(s, p).value;
    var c := IndexOfFrom(s, ']', p + 1);
    var q := LinkExtract.SchemeEnd(s, c + 2);
    var e := IndexOfFrom(s, ')', q);
    UrlFound(s, c + 2, q, e);
    BracketJoin(s, p, c, e);
  }

  /** `[`, the text, `](`, the URL and `)`, read off by position. */
  lemma BracketJoin(s: string, p: nat, c: nat, e: nat)
    requires p < c && c + 2 <= e < |s|
    requires s[p] == '[' && s[c] == ']' && s[c + 1] == '(' && s[e] == ')'
    ensures s[p..e + 1] == "[" + s[p + 1..c] + "](" + s[c + 2..e] + ")"
  {
    assert s[p..e + 1] == [s[p]] + s[p + 1..c] + [s[c], s[c + 1]] + s[c + 2..e] + [s[e]];
  }

  /** The URL part of a match: the scheme the pattern found, then everything up to the first `)`. */
  lemma UrlFound(s: string, b: nat, q: int, e: int)
    requires q == LinkExtract.SchemeEnd(s, b) && q != -1 && e == IndexOfFrom(s, ')', q) && e > q
    ensures HttpUrl(s[b..e])
  {
    var url := s[b..e];
    assert url[..q - b] == s[b..q];
    assert forall k :: b <= k < q ==> s[k] != ')' by {
      forall k | b <= k < q ensures s[k] != ')' {
        assert s[k] == s[b..q][k - b];
      }
    }
    assert forall i :: 0 <= i < |url| ==> url[i] != ')' by {
      forall i | 0 <= i < |url| ensures url[i] != ')' {
        assert url[i] == s[b + i];
      }
    }
  }

  /** Every text of the pattern's shape is found where it starts. */
  lemma HttpLinkComplete(s: string, m: HttpLink)
    requires IsHttpLink(s, m)
    ensures HttpLinkAt(s, m.start) == Some(m)
  {
    HttpLinkParts(s, m);
    FoundFromParts(s, m.start, m.start + 1 + |m.text|, m.start + 3 + |m.text| + |m.url|, m);
  }

  /** A link laid out by position is found at its start. */
  lemma FoundFromParts(s: string, p: nat, c: nat, e: nat, m: HttpLink)
    requires p < c && c + 2 <= e < |s| && m.start == p && m.end == e + 1
    requires s[p] == '[' && s[c] == ']' && s[c + 1] == '(' && s[e] == ')'
    requires s[p + 1..c] == m.text && s[c + 2..e] == m.url
    requires m.text != [] && (forall i :: 0 <= i < |m.text| ==> m.text[i] != ']') && HttpUrl(m.url)
    ensures HttpLinkAt(s, p) == Some(m)
  {
    TextFound(s, p, m.text);
    var q := UrlScheme(s, c + 2, m.url);
    IndexFirst(s, ')', q, e);
    HttpLinkAtIs(s, p, c, q, e);
    HttpLinkFields(s, m, c, e);
  }

  lemma HttpLinkFields(s: string, m: HttpLink, c: nat, e: nat)
    requires m.start < c && c + 2 <= e < |s| && m.end == e + 1 && s[m.start + 1..c] == m.text && s[c + 2..e] == m.url
    ensures m == HttpLink(m.start, e + 1, s[m.start + 1..c], s[c + 2..e])
  {
  }

  /** The bracketed text ends at the first `]` after it starts. */
  lemma TextFound(s: string, p: nat, text: string)
    requires p + 2 + |text| <= |s| && s[p + 1..p + 1 + |text|] == text && s[p + 1 + |text|] == ']'
    requires forall i :: 0 <= i < |text| ==> text[i] != ']'
    ensures IndexOfFrom(s, ']', p + 1) == p + 1 + |text|
  {
    var c := p + 1 + |text|;
    forall k | p + 1 <= k < c ensures s[k] != ']' {
      assert s[k] == text[k - p - 1];
    }
    IndexFirst(s, ']', p + 1, c);
  }

  /** HttpLinkAt, once its three searches are known. */
  lemma HttpLinkAtIs(s: string, p: nat, c: nat, q: nat, e: nat)
    requires p + 1 < |s| && s[p] == '['
    requires IndexOfFrom(s, ']', p + 1) == c && c > p + 1 && c + 1 < |s| && s[c + 1] == '('
    requires LinkExtract.SchemeEnd(s, c + 2) == q && IndexOfFrom(s, ')', q) == e && e > q
    ensures HttpLinkAt(s, p) == Some(HttpLink(p, e + 1, s[p + 1..c], s[c + 2..e]))
  {
  }

  /** The pieces of a text of the pattern's shape, by position. */
  lemma HttpLinkParts(s: string, m: HttpLink)
    requires IsHttpLink(s, m)
    ensures var c := m.start + 1 + |m.text|; var e := c + 2 + |m.url|;
      m.end == e + 1 && e < |s| && s[m.start] == '[' && s[c] == ']' && s[c + 1] == '(' && s[e] == ')' &&
      s[m.start + 1..c] == m.text && s[c + 2..e] == m.url
  {
    BracketSplit(s, m.start, m.end, m.text, m.url);
  }

  lemma BracketSplit(s: string, p: nat, end: nat, text: string, url: string)
    requires p <= end <= |s| && s[p..end] == "[" + text + "](" + url + ")"
    ensures var c := p + 1 + |text|; var e := c + 2 + |url|;
      end == e + 1 && e < |s| && s[p] == '[' && s[c] == ']' && s[c + 1] == '(' && s[e] == ')' &&
      s[p + 1..c] == text && s[c + 2..e] == url
  {
    var c := p + 1 + |text|;
    var e := c + 2 + |url|;
    var w := s[p..end];
    assert |w| == |text| + |url| + 4;
    assert w[0] == '[' && w[c - p] == ']' && w[c + 1 - p] == '(' && w[e - p] == ')';
    assert s[p + 1..c] == text by {
      assert w[1..c - p] == text;
      forall k | 0 <= k < |text| ensures s[p + 1..c][k] == text[k] {
        assert s[p + 1 + k] == w[1 + k];
      }
    }
    assert s[c + 2..e] == url by {
      assert w[c + 2 - p..e - p] == url;
      forall k | 0 <= k < |url| ensures s[c + 2..e][k] == url[k] {
        assert s[c + 2 + k] == w[c + 2 - p + k];
      }
    }
  }

  /** Where the URL's scheme ends, and that no `)` comes before the URL's end. */
  lemma UrlScheme(s: string, b: nat, url: string) returns (q: nat)
    requires b + |url| <= |s| && s[b..b + |url|] == url && HttpUrl(url)
    ensures LinkExtract.SchemeEnd(s, b) == q && q < b + |url|
    ensures forall k :: q <= k < b + |url| ==> s[k] != ')'
  {
    assert forall k :: b <= k < b + |url| ==> s[k] == url[k - b] by {
      forall k | b <= k < b + |url| ensures s[k] == url[k - b] {
        assert s[k] == s[b..b + |url|][k - b];
      }
    }
    if StartsWith(url, "https://") {
      assert url[..8] == "https://";
      assert url[4] == 's' && url[5] == ':' && url[6] == '/' && url[7] == '/';
      q := b + 8;
    } else {
      assert url[..7] == "http://";
      assert url[4] == ':' && url[5] == '/' && url[6] == '/';
      q := b + 7;
    }
  }

  /** Links that are found where they start, in order, disjoint, and at or after `from`. */
  ghost predicate LinksInOrder(s: string, ls: seq<HttpLink>, from: nat)
    decreases |ls|
  {
    ls == [] || (from <= ls[0].start && HttpLinkAt(s, ls[0].start) == Some(ls[0]) && LinksInOrder(s, ls[1..], ls[0].end))
  }

  /** link_pattern.finditer(content) from `p`. */
  function LinkMatches(s: string, p: nat): (r: seq<HttpLink>)
    requires p <= |s|
    ensures LinksInOrder(s, r, p)
    decreases |s| - p
  {
    if p == |s| then []
    else
      match HttpLinkAt(s, p)
      case None =>
        var rest := LinkMatches(s, p + 1);
        LinksInOrderWeaken(s, rest, p + 1, p);
        rest
      case Some(m) =>
        var rest := LinkMatches(s, m.end);
        var r := [m] + rest;
        assert r[1..] == rest;
        r
  }

  lemma {:induction false} LinksInOrderWeaken(s: string, ls: seq<HttpLink>, from: nat, from': nat)
    requires LinksInOrder(s, ls, from) && from' <= from
    ensures LinksInOrder(s, ls, from')
  {
  }

  /** Links in order lie within the text, have the pattern's shape and do not overlap. */
  lemma {:induction false} LinksInOrderShape(s: string, ls: seq<HttpLink>, from: nat)
    requires LinksInOrder(s, ls, from)
    ensures forall k :: 0 <= k < |ls| ==> from <= ls[k].start < ls[k].end <= |s| && IsHttpLink(s, ls[k])
    ensures forall a, b :: 0 <= a < b < |ls| ==> ls[a].end <= ls[b].start
    decreases |ls|
  {
    LinksInOrderBounds(s, ls, from);
    forall k | 0 <= k < |ls| ensures IsHttpLink(s, ls[k]) {
      LinksInOrderAt(s, ls, from, k);
      HttpLinkSound(s, ls[k].start);
    }
  }

  lemma {:induction false} LinksInOrderBounds(s: string, ls: seq<HttpLink>, from: nat)
    requires LinksInOrder(s, ls, from)
    ensures forall k :: 0 <= k < |ls| ==> from <= ls[k].start < ls[k].end <= |s|
    ensures forall a, b :: 0 <= a < b < |ls| ==> ls[a].end <= ls[b].start
    decreases |ls|
  {
    if ls != [] {
      LinksInOrderBounds(s, ls[1..], ls[0].end);
      assert forall k :: 1 <= k < |ls| ==> ls[k] == ls[1..][k - 1];
    }
  }

  /** Each link of the list is found where it starts. */
  lemma {:induction false} LinksInOrderAt(s: string, ls: seq<HttpLink>, from: nat, i: nat)
    requires LinksInOrder(s, ls, from) && i < |ls|
    ensures HttpLinkAt(s, ls[i].start) == Some(ls[i])
    decreases i
  {
    if i > 0 {
      LinksInOrderAt(s, ls[1..], ls[0].end, i - 1);
    }
  }

  // ---- check_file ----

  /** The warning for a link inside a code block. */
  function Warning(file: string, content: string, m: HttpLink): string {
    file + ":" + NatToString(CountChar(PySlice(content, 0, m.start), '\n') + 1) +
    ": Link in code block won't be clickable: [" + PySlice(m.text, 0, 40) + "...](" + PySlice(m.url, 0, 50) + "...)"
  }

  /** The warnings for the first `n` links: one for each that starts inside a range. */
  function WarningsUpTo(file: string, content: string, ls: seq<HttpLink>, ranges: seq<Span>, n: nat): seq<string>
    requires n <= |ls|
  {
    if n == 0 then []
    else
      var here := if InRanges(ls[n - 1].start, ranges) then [Warning(file, content, ls[n - 1])] else [];
      WarningsUpTo(file, content, ls, ranges, n - 1) + here
  }

  /** What check_file reports for a file it could read. */
  function Warnings(file: string, content: string): seq<string> {
    var ls := LinkMatches(content, 0);
    WarningsUpTo(file, content, ls, CodeBlockRanges(content), |ls|)
  }

  /** check_file, once the file is read: the loop over the link matches. */
  method CheckFile(file: string, content: string) returns (warnings: seq<string>)
    ensures warnings == Warnings(file, content)
  {
    var codeRanges := FindCodeBlockRanges(content);
    var ls := LinkMatches(content, 0);
    warnings := [];
    var i := 0;
    while i < |ls|
      invariant i <= |ls|
      invariant warnings == WarningsUpTo(file, content, ls, codeRanges, i)
    {
      var m := ls[i];
      var inside := InCodeBlock(m.start, codeRanges);
      if inside {
        warnings := warnings + [Warning(file, content, m)];
      }
      i := i + 1;
    }
  }

  /** The number of the first `n` links that start inside a range. */
  function InsideCount(ls: seq<HttpLink>, ranges: seq<Span>, n: nat): nat
    requires n <= |ls|
  {
    if n == 0 then 0 else InsideCount(ls, ranges, n - 1) + (if InRanges(ls[n - 1].start, ranges) then 1 else 0)
  }

  /** There is one warning per link starting inside a range, and none for the others. */
  lemma {:induction false} OneWarningPerLink(file: string, content: string, ls: seq<HttpLink>, ranges: seq<Span>, n: nat)
    requires n <= |ls|
    ensures |WarningsUpTo(file, content, ls, ranges, n)| == InsideCount(ls, ranges, n)
  {
    if n > 0 {
      OneWarningPerLink(file, content, ls, ranges, n - 1);
    }
  }

  /** A text with no fenced block gets no warning. */
  lemma {:induction false} NoBlocksNoWarnings(file: string, content: string, ls: seq<HttpLink>, n: nat)
    requires n <= |ls|
    ensures WarningsUpTo(file, content, ls, [], n) == []
  {
    if n > 0 {
      NoBlocksNoWarnings(file, content, ls, n - 1);
    }
  }

  /** The line a warning gives is the line the position mapper gives for the link's start. */
  lemma WarningLine(content: string, m: HttpLink)
    requires m.start < |content|
    ensures CountChar(PySlice(content, 0, m.start), '\n') + 1 == LineMap.IndexToLineColumn(LineMap.LineOffsets(content), m.start).0
  {
    LineMap.LineColumnOfIndex(content, m.start);
  }

  /**
   * The warning ends with the link as shown: the first 40 characters of the
   * link text and the first 50 of the URL, each followed by `...`.
   */
  lemma WarningCuts(file: string, content: string, m: HttpLink)
    ensures EndsWith(Warning(file, content, m), "[" + PySlice(m.text, 0, 40) + "...](" + PySlice(m.url, 0, 50) + "...)")
    ensures |PySlice(m.text, 0, 40)| == if |m.text| < 40 then |m.text| else 40
    ensures |PySlice(m.url, 0, 50)| == if |m.url| < 50 then |m.url| else 50
    ensures StartsWith(m.text, PySlice(m.text, 0, 40)) && StartsWith(m.url, PySlice(m.url, 0, 50))
  {
    var head := file + ":" + NatToString(CountChar(PySlice(content, 0, m.start), '\n') + 1) +
      ": Link in code block won't be clickable: ";
    var shown := "[" + PySlice(m.text, 0, 40) + "...](" + PySlice(m.url, 0, 50) + "...)";
    assert Warning(file, content, m) == head + shown;
    assert (head + shown)[|head|..] == shown;
  }
}
