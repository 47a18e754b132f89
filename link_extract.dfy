/**
 * Collecting every link of a Markdown document: inline `[text](dest)`
 * links, `<https://...>` autolinks and bare `https://...` URLs, skipping
 * whatever lies in fenced or inline code, never letting two links share a
 * character, and reporting each with its line and column.
 */
module LinkExtract {
  import opened Strings
  import opened LineMap
  import opened CodeRanges
  import opened LinkScan
  import Edits

  // ---- the two URL patterns ----

  predicate HttpAt(text: string, p: nat) {
    p + 4 <= |text| && text[p] == 'h' && text[p + 1] == 't' && text[p + 2] == 't' && text[p + 3] == 'p'
  }

  predicate SlashesAt(text: string, q: nat) {
    q + 3 <= |text| && text[q] == ':' && text[q + 1] == '/' && text[q + 2] == '/'
  }

  /** Where `https?://` matched at `p` ends, or -1. */
  function SchemeEnd(text: string, p: nat): (r: int)
    ensures r == -1 || p + 7 <= r <= |text|
  {
    if !HttpAt(text, p) then -1
    else if p + 4 < |text| && text[p + 4] == 's' && SlashesAt(text, p + 5) then p + 8
    else if SlashesAt(text, p + 4) then p + 7
    else -1
  }

  /** A scheme match is `http://` or `https://`. */
  lemma SchemeEndText(text: string, p: nat)
    ensures var r := SchemeEnd(text, p);
      r != -1 ==> text[p..r] == "http://" || text[p..r] == "https://"
  {
  }

  /** `[^>\s]`, the characters of an autolink's URL. */
  predicate AutolinkChar(c: char) { c != '>' && !IsSpace(c) }

  /** `[^\s)<>"']`, the characters of a bare URL. */
  predicate BareChar(c: char) {
    !IsSpace(c) && c != ')' && c != '<' && c != '>' && c != '"' && c != '\''
  }

  datatype Pattern = AutolinkPattern | BarePattern

  predicate BodyChar(pat: Pattern, c: char) {
    if pat.AutolinkPattern? then AutolinkChar(c) else BareChar(c)
  }

  /** The end of the longest run of URL characters starting at `i`. */
  function BodyEnd(pat: Pattern, text: string, i: nat): (r: nat)
    requires i <= |text|
    ensures i <= r <= |text|
    ensures r < |text| ==> !BodyChar(pat, text[r])
    decreases |text| - i
  {
    if i < |text| && BodyChar(pat, text[i]) then BodyEnd(pat, text, i + 1) else i
  }

  lemma {:induction false} BodyEndChars(pat: Pattern, text: string, i: nat)
    requires i <= |text|
    ensures forall k :: i <= k < BodyEnd(pat, text, i) ==> BodyChar(pat, text[k])
    decreases |text| - i
  {
    if i < |text| && BodyChar(pat, text[i]) {
      BodyEndChars(pat, text, i + 1);
    }
  }

  /**
   * Where the pattern matched at `p` ends, or -1: `<(https?://[^>\s]+)>`
   * for autolinks, `https?://[^\s)<>"']+` for bare URLs.  The repetitions
   * are greedy and the character classes exclude what follows them, so the
   * regular expression matches exactly when the longest run does.
   */
  function MatchAt(pat: Pattern, text: string, p: nat): (r: int)
    ensures r == -1 || p < r <= |text|
  {
    match pat
    case AutolinkPattern =>
      if p < |text| && text[p] == '<' && SchemeEnd(text, p + 1) != -1 then
        var q := SchemeEnd(text, p + 1);
        var b := BodyEnd(pat, text, q);
        if q < b < |text| && text[b] == '>' then b + 1 else -1
      else -1
    case BarePattern =>
      if SchemeEnd(text, p) != -1 then
        var q := SchemeEnd(text, p);
        var b := BodyEnd(pat, text, q);
        if q < b then b else -1
      else -1
  }

  /** Each span is where the pattern matched at the span's start. */
  ghost predicate AllMatch(pat: Pattern, text: string, ms: seq<Span>) {
    forall k :: 0 <= k < |ms| ==> MatchAt(pat, text, ms[k].start) == ms[k].end
  }

  /**
   * re.finditer from `p`: try each position in turn, and after a match
   * resume at its end.
   */
  function FindIter(pat: Pattern, text: string, p: nat): (r: seq<Span>)
    requires p <= |text|
    ensures AllMatch(pat, text, r)
    ensures SpansInOrder(r, p, |text|)
    decreases |text| - p
  {
    if p == |text| then []
    else
      var e := MatchAt(pat, text, p);
      if e == -1 then
        var rest := FindIter(pat, text, p + 1);
        SpansInOrderWeaken(rest, p + 1, p, |text|);
        rest
      else
        var rest := FindIter(pat, text, e);
        var r := [Span(p, e)] + rest;
        assert r[1..] == rest;
        r
  }

  // ---- the collected links ----

  datatype LinkKind = Inline | Autolink | Bare

  datatype LinkMatch = LinkMatch(
    kind: LinkKind, start: nat, end: nat, text: string, href: string,
    line: int, column: int, segment: string, separator: string, destContent: string)

  /** `[(m.start, m.end) for m in matches]`. */
  function Spans(ms: seq<LinkMatch>): (r: seq<Span>)
    ensures |r| == |ms|
    ensures forall k :: 0 <= k < |ms| ==> r[k] == Span(ms[k].start, ms[k].end)
  {
    seq(|ms|, k requires 0 <= k < |ms| => Span(ms[k].start, ms[k].end))
  }

  lemma SpansAppend(ms: seq<LinkMatch>, m: LinkMatch)
    ensures Spans(ms + [m]) == Spans(ms) + [Span(m.start, m.end)]
  {
    assert forall k :: 0 <= k < |ms| ==> (ms + [m])[k] == ms[k];
  }

  /** A line-offset table, as build_line_offsets returns it: never empty. */
  type Offsets = s: seq<nat> | |s| > 0 witness [0]

  /** index_to_line_column over a fixed table, as a lookup from offsets to (line, column). */
  function LineColumnOf(offsets: Offsets): int -> (int, int) {
    i => IndexToLineColumn(offsets, i)
  }

  /** The lookup gives every offset inside the text its line and column. */
  ghost predicate Locates(text: string, at: int -> (int, int)) {
    forall i :: 0 <= i < |text| ==> at(i) == (CountChar(text[..i], '\n') + 1, i - LineStartOf(text, i) + 1)
  }

  lemma LineOffsetsLocate(text: string)
    ensures |LineOffsets(text)| > 0 && Locates(text, LineColumnOf(LineOffsets(text)))
  {
    var at := LineColumnOf(LineOffsets(text));
    forall i | 0 <= i < |text|
      ensures at(i) == (CountChar(text[..i], '\n') + 1, i - LineStartOf(text, i) + 1)
    {
      LineColumnOfIndex(text, i);
    }
  }

  /** The entry for an inline link. */
  function InlineEntry(at: int -> (int, int), l: InlineLink): LinkMatch {
    var lc := at(l.start);
    LinkMatch(Inline, l.start, l.end, l.text, l.href, lc.0, lc.1, l.segment, l.separator, l.destContent)
  }

  /** The inline links from the `k`-th on that lie outside code, in the scanner's order. */
  function InlinePhase(at: int -> (int, int), links: seq<InlineLink>, k: nat, skip: seq<Span>): seq<LinkMatch>
    decreases |links| - k
  {
    if k >= |links| then []
    else
      (if InRanges(links[k].start, skip) then [] else [InlineEntry(at, links[k])])
      + InlinePhase(at, links, k + 1, skip)
  }

  lemma InlinePhaseKeep(at: int -> (int, int), links: seq<InlineLink>, k: nat, skip: seq<Span>)
    requires k < |links| && !InRanges(links[k].start, skip)
    ensures InlinePhase(at, links, k, skip) == [InlineEntry(at, links[k])] + InlinePhase(at, links, k + 1, skip)
  {
  }

  lemma InlinePhaseDrop(at: int -> (int, int), links: seq<InlineLink>, k: nat, skip: seq<Span>)
    requires k < |links| && InRanges(links[k].start, skip)
    ensures InlinePhase(at, links, k, skip) == InlinePhase(at, links, k + 1, skip)
  {
  }

  /** The entry for an autolink matched at `m`: the text and the href are the URL inside the brackets. */
  function AutolinkEntry(text: string, at: int -> (int, int), m: Span): LinkMatch
    requires MatchAt(AutolinkPattern, text, m.start) == m.end
  {
    AutolinkMatchBounds(text, m);
    AutolinkEntryAt(text, m, at(m.start))
  }

  /** The entry for an autolink spanning `m` and found at line and column `lc`. */
  function AutolinkEntryAt(text: string, m: Span, lc: (int, int)): LinkMatch
    requires m.start + 2 <= m.end <= |text|
  {
    var href := text[m.start + 1..m.end - 1];
    LinkMatch(Autolink, m.start, m.end, href, href, lc.0, lc.1, text[m.start..m.end], [], [])
  }

  /**
   * The autolinks from the `k`-th on that lie outside code and overlap no
   * link kept so far; `used` holds the spans of the links kept so far.
   */
  function AutolinkPhase(text: string, at: int -> (int, int), ms: seq<Span>, k: nat, skip: seq<Span>, used: seq<Span>): seq<LinkMatch>
    requires AllMatch(AutolinkPattern, text, ms)
    decreases |ms| - k
  {
    if k >= |ms| then []
    else
      var m := ms[k];
      var keep := !InRanges(m.start, skip) && !OverlapsAny(m.start, m.end, used);
      (if keep then [AutolinkEntry(text, at, m)] else [])
      + AutolinkPhase(text, at, ms, k + 1, skip, if keep then used + [m] else used)
  }

  lemma AutolinkPhaseKeep(text: string, at: int -> (int, int), ms: seq<Span>, k: nat, skip: seq<Span>, used: seq<Span>, e: LinkMatch)
    requires AllMatch(AutolinkPattern, text, ms) && k < |ms|
    requires !InRanges(ms[k].start, skip) && !OverlapsAny(ms[k].start, ms[k].end, used)
    requires e == AutolinkEntry(text, at, ms[k])
    ensures AutolinkPhase(text, at, ms, k, skip, used) == [e] + AutolinkPhase(text, at, ms, k + 1, skip, used + [ms[k]])
  {
  }

  lemma AutolinkPhaseDrop(text: string, at: int -> (int, int), ms: seq<Span>, k: nat, skip: seq<Span>, used: seq<Span>)
    requires AllMatch(AutolinkPattern, text, ms) && k < |ms|
    requires InRanges(ms[k].start, skip) || OverlapsAny(ms[k].start, ms[k].end, used)
    ensures AutolinkPhase(text, at, ms, k, skip, used) == AutolinkPhase(text, at, ms, k + 1, skip, used)
  {
  }

  /** `.,;:!?`, dropped from the end of a bare URL. */
  predicate TrailingPunct(c: char) {
    c == '.' || c == ',' || c == ';' || c == ':' || c == '!' || c == '?'
  }

  /** The length of `s[..n]` once trailing punctuation is dropped. */
  function Trimmed(s: string, n: nat): (r: nat)
    requires n <= |s|
    ensures r <= n
    ensures r > 0 ==> !TrailingPunct(s[r - 1])
    ensures forall k :: r <= k < n ==> TrailingPunct(s[k])
  {
    if n > 0 && TrailingPunct(s[n - 1]) then Trimmed(s, n - 1) else n
  }

  /** The entry for a bare URL matched at `m`, or None when nothing is left after trimming. */
  function BareEntry(text: string, at: int -> (int, int), m: Span): Option<LinkMatch>
    requires MatchAt(BarePattern, text, m.start) == m.end
  {
    BareEntryAt(text, m, at(m.start))
  }

  /** The entry for a bare URL matched at `m` and found at line and column `lc`. */
  function BareEntryAt(text: string, m: Span, lc: (int, int)): Option<LinkMatch>
    requires m.start <= m.end <= |text|
  {
    var url := text[m.start..m.end];
    var n := Trimmed(url, |url|);
    if n == 0 then None
    else
      var end := m.end - (|url| - n);
      Some(LinkMatch(Bare, m.start, end, url[..n], url[..n], lc.0, lc.1, text[m.start..end], url[n..], []))
  }

  /** The bare URLs from the `k`-th on that lie outside code and overlap no link kept so far. */
  function BarePhase(text: string, at: int -> (int, int), ms: seq<Span>, k: nat, skip: seq<Span>, used: seq<Span>): seq<LinkMatch>
    requires AllMatch(BarePattern, text, ms)
    decreases |ms| - k
  {
    if k >= |ms| then []
    else
      var m := ms[k];
      var e := if InRanges(m.start, skip) || OverlapsAny(m.start, m.end, used) then None else BareEntry(text, at, m);
      (if e.Some? then [e.value] else [])
      + BarePhase(text, at, ms, k + 1, skip, if e.Some? then used + [Span(e.value.start, e.value.end)] else used)
  }

  lemma BarePhaseKeep(text: string, at: int -> (int, int), ms: seq<Span>, k: nat, skip: seq<Span>, used: seq<Span>, e: LinkMatch)
    requires AllMatch(BarePattern, text, ms) && k < |ms|
    requires !InRanges(ms[k].start, skip) && !OverlapsAny(ms[k].start, ms[k].end, used)
    requires BareEntry(text, at, ms[k]) == Some(e)
    ensures BarePhase(text, at, ms, k, skip, used) == [e] + BarePhase(text, at, ms, k + 1, skip, used + [Span(e.start, e.end)])
  {
  }

  lemma BarePhaseDrop(text: string, at: int -> (int, int), ms: seq<Span>, k: nat, skip: seq<Span>, used: seq<Span>)
    requires AllMatch(BarePattern, text, ms) && k < |ms|
    requires InRanges(ms[k].start, skip) || OverlapsAny(ms[k].start, ms[k].end, used) || BareEntry(text, at, ms[k]).None?
    ensures BarePhase(text, at, ms, k, skip, used) == BarePhase(text, at, ms, k + 1, skip, used)
  {
  }

  /** Fenced code blocks, then inline code spans. */
  function SkipRanges(text: string): seq<Span> {
    FenceScan(text, 0, Outside) + InlineCodeFrom(text, 0)
  }

  function StartKey(m: LinkMatch): int { m.start }

  function InlineLinks(text: string): seq<LinkMatch> {
    InlinePhase(LineColumnOf(LineOffsets(text)), ScanInline(text, 0), 0, SkipRanges(text))
  }

  function Autolinks(text: string): seq<LinkMatch> {
    AutolinkPhase(text, LineColumnOf(LineOffsets(text)), FindIter(AutolinkPattern, text, 0), 0, SkipRanges(text), Spans(InlineLinks(text)))
  }

  function BareUrls(text: string): seq<LinkMatch> {
    BarePhase(text, LineColumnOf(LineOffsets(text)), FindIter(BarePattern, text, 0), 0, SkipRanges(text),
              Spans(InlineLinks(text)) + Spans(Autolinks(text)))
  }

  /** Inline links, then autolinks, then bare URLs, each kind in text order. */
  function Collected(text: string): seq<LinkMatch> {
    InlineLinks(text) + Autolinks(text) + BareUrls(text)
  }

  /** All three kinds, stably sorted by start. */
  function Extracted(text: string): seq<LinkMatch> {
    Edits.SortBy(Collected(text), StartKey)
  }

  // ---- what the collected links satisfy ----

  /** The reported line is one plus the newlines before the link; the column counts from its line's start. */
  ghost predicate Located(text: string, m: LinkMatch) {
    && m.start < |text|
    && m.line == CountChar(text[..m.start], '\n') + 1
    && m.column == m.start - LineStartOf(text, m.start) + 1
  }

  ghost predicate InlineShaped(text: string, m: LinkMatch) {
    WellFormed(text, InlineLink(m.start, m.end, m.text, m.href, m.separator, m.destContent, m.segment))
  }

  /** `<`, a URL of at least `http://` and one more character, `>`; the href is the URL. */
  ghost predicate AutolinkShaped(text: string, m: LinkMatch) {
    MatchAt(AutolinkPattern, text, m.start) == m.end && BracketShaped(text, m)
  }

  /** The URL between the brackets is both the text and the href. */
  ghost predicate BracketShaped(text: string, m: LinkMatch) {
    && m.start + 10 <= m.end <= |text|
    && text[m.start] == '<' && text[m.end - 1] == '>'
    && m.href == text[m.start + 1..m.end - 1] && m.text == m.href
    && m.segment == text[m.start..m.end]
    && m.separator == [] && m.destContent == []
  }

  /**
   * The URL the pattern matched, less its trailing punctuation, which is
   * kept as the separator; the href, the text and the segment are the URL.
   */
  ghost predicate BareShaped(text: string, m: LinkMatch) {
    MatchAt(BarePattern, text, m.start) == m.end + |m.separator| && TrimmedShaped(text, m)
  }

  /** The URL less its trailing punctuation, which is kept as the separator. */
  ghost predicate TrimmedShaped(text: string, m: LinkMatch) {
    && m.start + 7 <= m.end && m.end + |m.separator| <= |text|
    && m.href == text[m.start..m.end] && m.text == m.href && m.segment == m.href
    && !TrailingPunct(text[m.end - 1])
    && m.separator == text[m.end..m.end + |m.separator|]
    && (forall k :: 0 <= k < |m.separator| ==> TrailingPunct(m.separator[k]))
    && m.destContent == []
  }

  ghost predicate Shaped(text: string, m: LinkMatch) {
    match m.kind
    case Inline => InlineShaped(text, m)
    case Autolink => AutolinkShaped(text, m)
    case Bare => BareShaped(text, m)
  }

  /** A reported link: outside code, shaped as its kind says, and located correctly. */
  ghost predicate Good(text: string, skip: seq<Span>, m: LinkMatch) {
    !InRanges(m.start, skip) && m.start < m.end && Shaped(text, m) && Located(text, m)
  }

  lemma InlineEntryGood(text: string, at: int -> (int, int), l: InlineLink, skip: seq<Span>)
    requires Locates(text, at) && WellFormed(text, l) && !InRanges(l.start, skip)
    ensures var m := InlineEntry(at, l);
      m.kind == Inline && m.start == l.start && m.end == l.end && Good(text, skip, m)
  {
    var m := InlineEntry(at, l);
    assert InlineLink(m.start, m.end, m.text, m.href, m.separator, m.destContent, m.segment) == l;
  }

  lemma AutolinkEntryGood(text: string, at: int -> (int, int), m: Span, skip: seq<Span>)
    requires Locates(text, at)
    requires MatchAt(AutolinkPattern, text, m.start) == m.end && !InRanges(m.start, skip)
    ensures var e := AutolinkEntry(text, at, m);
      e.kind == Autolink && e.start == m.start && e.end == m.end && Good(text, skip, e)
  {
    AutolinkMatchBounds(text, m);
    AutolinkEntryAtGood(text, m, at(m.start), skip);
  }

  lemma AutolinkEntryAtGood(text: string, m: Span, lc: (int, int), skip: seq<Span>)
    requires m.start + 10 <= m.end <= |text| && text[m.start] == '<' && text[m.end - 1] == '>'
    requires !InRanges(m.start, skip)
    requires lc == (CountChar(text[..m.start], '\n') + 1, m.start - LineStartOf(text, m.start) + 1)
    ensures var e := AutolinkEntryAt(text, m, lc);
      && e.kind == Autolink && e.start == m.start && e.end == m.end && !InRanges(e.start, skip)
      && BracketShaped(text, e) && Located(text, e)
  {
  }

  /** `<`, at least `http://` and one URL character, then `>`. */
  lemma AutolinkMatchBounds(text: string, m: Span)
    requires MatchAt(AutolinkPattern, text, m.start) == m.end
    ensures m.start + 10 <= m.end <= |text| && text[m.start] == '<' && text[m.end - 1] == '>'
  {
  }

  /** A bare match keeps at least its `http://`, so trimming never empties it. */
  lemma BareEntryGood(text: string, at: int -> (int, int), m: Span, skip: seq<Span>)
    requires Locates(text, at)
    requires MatchAt(BarePattern, text, m.start) == m.end && !InRanges(m.start, skip)
    ensures var e := BareEntry(text, at, m);
      && e.Some? && e.value.kind == Bare && e.value.start == m.start && e.value.end <= m.end
      && Good(text, skip, e.value)
  {
    BareEntrySome(text, at, m);
    BareEntryShaped(text, at, m);
  }

  lemma BareEntryShaped(text: string, at: int -> (int, int), m: Span)
    requires MatchAt(BarePattern, text, m.start) == m.end
    ensures BareEntry(text, at, m).Some? ==> BareShaped(text, BareEntry(text, at, m).value)
  {
    BareTrimmedLength(text, m);
    BareEntryAtShaped(text, m, at(m.start));
  }

  lemma BareEntryAtShaped(text: string, m: Span, lc: (int, int))
    requires m.start <= m.end <= |text| && Trimmed(text[m.start..m.end], m.end - m.start) >= 7
    ensures var e := BareEntryAt(text, m, lc);
      e.Some? && e.value.end + |e.value.separator| == m.end && TrimmedShaped(text, e.value)
  {
    var url := text[m.start..m.end];
    var n := Trimmed(url, |url|);
    var e := BareEntryAt(text, m, lc).value;
    SliceSplit(text, m.start, m.end, n);
    TrimmedTail(url);
    BareFieldsShaped(text, m, n, e);
  }

  lemma SliceSplit(text: string, a: nat, b: nat, n: nat)
    requires 0 < n && a + n <= b <= |text|
    ensures text[a..b][..n] == text[a..a + n] && text[a..b][n..] == text[a + n..b]
    ensures text[a + n - 1] == text[a..b][n - 1]
  {
  }

  lemma TrimmedTail(s: string)
    ensures forall k :: 0 <= k < |s| - Trimmed(s, |s|) ==> TrailingPunct(s[Trimmed(s, |s|)..][k])
  {
    var n := Trimmed(s, |s|);
    assert forall k :: 0 <= k < |s| - n ==> s[n..][k] == s[n + k];
  }

  /** The fields of a trimmed bare match, stated on the text alone. */
  lemma BareFieldsShaped(text: string, m: Span, n: nat, e: LinkMatch)
    requires 7 <= n && m.start + n <= m.end <= |text|
    requires !TrailingPunct(text[m.start + n - 1])
    requires e.start == m.start && e.end == m.start + n && e.destContent == []
    requires e.href == text[m.start..m.start + n] && e.text == e.href && e.segment == e.href
    requires e.separator == text[m.start + n..m.end]
    requires forall k :: 0 <= k < |e.separator| ==> TrailingPunct(e.separator[k])
    ensures TrimmedShaped(text, e)
  {
  }

  /** A kept bare URL is never empty. */
  lemma BareEntryWide(text: string, at: int -> (int, int), m: Span)
    requires MatchAt(BarePattern, text, m.start) == m.end
    ensures BareEntry(text, at, m).Some? && BareEntry(text, at, m).value.start < BareEntry(text, at, m).value.end
  {
    BareTrimmedLength(text, m);
  }

  /** Trimming never empties a bare match, so every match outside code and clear of other links is kept. */
  lemma BareEntrySome(text: string, at: int -> (int, int), m: Span)
    requires MatchAt(BarePattern, text, m.start) == m.end
    ensures BareEntry(text, at, m).Some?
    ensures BareEntry(text, at, m).value.start == m.start && BareEntry(text, at, m).value.end <= m.end
  {
    BareTrimmedLength(text, m);
  }

  /** The `://` of the scheme is never trailing punctuation, so at least seven characters survive the trimming. */
  lemma BareTrimmedLength(text: string, m: Span)
    requires MatchAt(BarePattern, text, m.start) == m.end
    ensures m.start < m.end <= |text| && Trimmed(text[m.start..m.end], m.end - m.start) >= 7
  {
    var url := text[m.start..m.end];
    var q := SchemeEnd(text, m.start);
    assert url[q - m.start - 1] == '/';
    TrimmedAtLeast(url, |url|, q - m.start);
  }

  lemma {:induction false} TrimmedAtLeast(s: string, n: nat, j: nat)
    requires 0 < j <= n <= |s| && !TrailingPunct(s[j - 1])
    ensures Trimmed(s, n) >= j
  {
    if n > j {
      TrimmedAtLeast(s, n - 1, j);
    }
  }

  /** No two spans share a position, and none is empty. */
  ghost predicate Apart(rs: seq<Span>) {
    && (forall k :: 0 <= k < |rs| ==> rs[k].start < rs[k].end)
    && (forall a, b :: 0 <= a < b < |rs| ==> rs[a].end <= rs[b].start || rs[b].end <= rs[a].start)
  }

  lemma ApartSnoc(rs: seq<Span>, s: Span)
    requires Apart(rs) && s.start < s.end && !OverlapsAny(s.start, s.end, rs)
    ensures Apart(rs + [s])
  {
    var t := rs + [s];
    forall a, b | 0 <= a < b < |t| ensures t[a].end <= t[b].start || t[b].end <= t[a].start {
      if b == |rs| {
        assert t[a] == rs[a];
      } else {
        assert t[a] == rs[a] && t[b] == rs[b];
      }
    }
  }

  lemma SpansConcat(xs: seq<LinkMatch>, ys: seq<LinkMatch>)
    ensures Spans(xs + ys) == Spans(xs) + Spans(ys)
  {
  }

  /** Every kept entry is the entry of a scanned link outside code. */
  lemma {:induction false} InlinePhaseMembers(at: int -> (int, int), links: seq<InlineLink>, k: nat, skip: seq<Span>)
    ensures forall i :: 0 <= i < |InlinePhase(at, links, k, skip)| ==>
      exists j :: k <= j < |links| && !InRanges(links[j].start, skip)
        && InlinePhase(at, links, k, skip)[i] == InlineEntry(at, links[j])
    decreases |links| - k
  {
    if k < |links| {
      InlinePhaseMembers(at, links, k + 1, skip);
      var rest := InlinePhase(at, links, k + 1, skip);
      if !InRanges(links[k].start, skip) {
        var r := [InlineEntry(at, links[k])] + rest;
        assert InlinePhase(at, links, k, skip) == r;
        forall i | 0 <= i < |r|
          ensures exists j :: k <= j < |links| && !InRanges(links[j].start, skip) && r[i] == InlineEntry(at, links[j])
        {
          if i == 0 {
            assert r[0] == InlineEntry(at, links[k]);
          } else {
            assert r[i] == rest[i - 1];
            var j :| k + 1 <= j < |links| && !InRanges(links[j].start, skip) && rest[i - 1] == InlineEntry(at, links[j]);
            assert k <= j;
          }
        }
      } else {
        assert InlinePhase(at, links, k, skip) == rest;
      }
    } else {
      assert InlinePhase(at, links, k, skip) == [];
    }
  }

  /** Entries start at or after the `k`-th link, are not empty, come in order and do not overlap. */
  ghost predicate InlineOrdered(links: seq<InlineLink>, k: nat, r: seq<LinkMatch>) {
    && (forall i :: 0 <= i < |r| ==> k < |links| && links[k].start <= r[i].start && r[i].start < r[i].end)
    && (forall a, b :: 0 <= a < b < |r| ==> r[a].end <= r[b].start)
  }

  /** Kept entries come in order and do not overlap, as the scanned links do. */
  lemma {:induction false} InlinePhaseOrdered(at: int -> (int, int), links: seq<InlineLink>, k: nat, skip: seq<Span>)
    requires forall j :: 0 <= j < |links| ==> links[j].start < links[j].end
    requires forall a, b :: 0 <= a < b < |links| ==> links[a].end <= links[b].start
    ensures InlineOrdered(links, k, InlinePhase(at, links, k, skip))
    decreases |links| - k
  {
    if k < |links| {
      var l := links[k];
      var rest := InlinePhase(at, links, k + 1, skip);
      InlinePhaseOrdered(at, links, k + 1, skip);
      if k + 1 < |links| {
        assert l.end <= links[k + 1].start;
      }
      var e := InlineEntry(at, l);
      assert e.start == l.start && e.end == l.end;
      InlineOrderedCons(links, k, e, rest);
      if !InRanges(l.start, skip) {
        InlinePhaseKeep(at, links, k, skip);
      } else {
        InlinePhaseDrop(at, links, k, skip);
      }
    }
  }

  lemma InlineOrderedCons(links: seq<InlineLink>, k: nat, e: LinkMatch, rest: seq<LinkMatch>)
    requires k < |links| && links[k].start <= e.start < e.end
    requires InlineOrdered(links, k + 1, rest)
    requires k + 1 < |links| ==> e.end <= links[k + 1].start
    requires forall j :: 0 <= j < |links| ==> links[j].start < links[j].end
    ensures InlineOrdered(links, k, [e] + rest)
    ensures InlineOrdered(links, k, rest)
  {
    var r := [e] + rest;
    assert forall i :: 1 <= i < |r| ==> r[i] == rest[i - 1];
  }

  /** Every entry satisfies `ok`. */
  ghost predicate AllOf(ok: LinkMatch -> bool, r: seq<LinkMatch>)
    decreases |r|
  {
    r == [] || (ok(r[0]) && AllOf(ok, r[1..]))
  }

  lemma {:induction false} AllOfAt(ok: LinkMatch -> bool, r: seq<LinkMatch>, i: nat)
    requires AllOf(ok, r) && i < |r|
    ensures ok(r[i])
    decreases i
  {
    if i > 0 {
      AllOfAt(ok, r[1..], i - 1);
    }
  }

  ghost function GoodOf(text: string, skip: seq<Span>, kind: LinkKind): LinkMatch -> bool {
    (m: LinkMatch) => m.kind == kind && Good(text, skip, m)
  }

  /** Every entry has the given kind and is a good report. */
  ghost predicate AllGood(text: string, skip: seq<Span>, kind: LinkKind, r: seq<LinkMatch>) {
    AllOf(GoodOf(text, skip, kind), r)
  }

  lemma AllGoodAt(text: string, skip: seq<Span>, kind: LinkKind, r: seq<LinkMatch>, i: nat)
    requires AllGood(text, skip, kind, r) && i < |r|
    ensures r[i].kind == kind && Good(text, skip, r[i])
  {
    AllOfAt(GoodOf(text, skip, kind), r, i);
  }

  lemma AllGoodIndex(text: string, skip: seq<Span>, kind: LinkKind, r: seq<LinkMatch>)
    requires AllGood(text, skip, kind, r)
    ensures forall i :: 0 <= i < |r| ==> Good(text, skip, r[i])
  {
    forall i | 0 <= i < |r| ensures Good(text, skip, r[i]) {
      AllGoodAt(text, skip, kind, r, i);
    }
  }

  lemma AutolinkPhaseProps(text: string, at: int -> (int, int), ms: seq<Span>, k: nat, skip: seq<Span>, used: seq<Span>)
    requires Locates(text, at) && AllMatch(AutolinkPattern, text, ms) && Apart(used)
    ensures var r := AutolinkPhase(text, at, ms, k, skip, used);
      && Apart(used + Spans(r))
      && AllGood(text, skip, Autolink, r)
  {
    AutolinkPhaseApart(text, at, ms, k, skip, used);
    AutolinkPhaseGood(text, at, ms, k, skip, used);
  }

  lemma {:induction false} AutolinkPhaseApart(text: string, at: int -> (int, int), ms: seq<Span>, k: nat, skip: seq<Span>, used: seq<Span>)
    requires AllMatch(AutolinkPattern, text, ms) && Apart(used)
    ensures Apart(used + Spans(AutolinkPhase(text, at, ms, k, skip, used)))
    decreases |ms| - k
  {
    if k < |ms| {
      var m := ms[k];
      assert MatchAt(AutolinkPattern, text, m.start) == m.end;
      if !InRanges(m.start, skip) && !OverlapsAny(m.start, m.end, used) {
        var e := AutolinkEntry(text, at, m);
        AutolinkPhaseKeep(text, at, ms, k, skip, used, e);
        AutolinkMatchBounds(text, m);
        ApartSnoc(used, m);
        AutolinkPhaseApart(text, at, ms, k + 1, skip, used + [m]);
        PhaseConsApart(used, m, e, AutolinkPhase(text, at, ms, k + 1, skip, used + [m]));
      } else {
        AutolinkPhaseDrop(text, at, ms, k, skip, used);
        AutolinkPhaseApart(text, at, ms, k + 1, skip, used);
      }
    }
  }

  lemma {:induction false} AutolinkPhaseGood(text: string, at: int -> (int, int), ms: seq<Span>, k: nat, skip: seq<Span>, used: seq<Span>)
    requires Locates(text, at) && AllMatch(AutolinkPattern, text, ms)
    ensures AllGood(text, skip, Autolink, AutolinkPhase(text, at, ms, k, skip, used))
    decreases |ms| - k
  {
    if k < |ms| {
      var m := ms[k];
      assert MatchAt(AutolinkPattern, text, m.start) == m.end;
      if !InRanges(m.start, skip) && !OverlapsAny(m.start, m.end, used) {
        var e := AutolinkEntry(text, at, m);
        AutolinkPhaseKeep(text, at, ms, k, skip, used, e);
        AutolinkPhaseGood(text, at, ms, k + 1, skip, used + [m]);
        AutolinkEntryGood(text, at, m, skip);
        PhaseConsGood(GoodOf(text, skip, Autolink), e, AutolinkPhase(text, at, ms, k + 1, skip, used + [m]));
      } else {
        AutolinkPhaseDrop(text, at, ms, k, skip, used);
        AutolinkPhaseGood(text, at, ms, k + 1, skip, used);
      }
    }
  }

  lemma BarePhaseProps(text: string, at: int -> (int, int), ms: seq<Span>, k: nat, skip: seq<Span>, used: seq<Span>)
    requires Locates(text, at) && AllMatch(BarePattern, text, ms) && Apart(used)
    ensures var r := BarePhase(text, at, ms, k, skip, used);
      && Apart(used + Spans(r))
      && AllGood(text, skip, Bare, r)
  {
    BarePhaseApart(text, at, ms, k, skip, used);
    BarePhaseGood(text, at, ms, k, skip, used);
  }

  lemma {:induction false} BarePhaseApart(text: string, at: int -> (int, int), ms: seq<Span>, k: nat, skip: seq<Span>, used: seq<Span>)
    requires AllMatch(BarePattern, text, ms) && Apart(used)
    ensures Apart(used + Spans(BarePhase(text, at, ms, k, skip, used)))
    decreases |ms| - k
  {
    if k < |ms| {
      var m := ms[k];
      assert MatchAt(BarePattern, text, m.start) == m.end;
      if !InRanges(m.start, skip) && !OverlapsAny(m.start, m.end, used) {
        BareEntrySome(text, at, m);
        BareEntryWide(text, at, m);
        var e := BareEntry(text, at, m).value;
        BarePhaseKeep(text, at, ms, k, skip, used, e);
        var sp := Span(e.start, e.end);
        ApartSnoc(used, sp);
        BarePhaseApart(text, at, ms, k + 1, skip, used + [sp]);
        PhaseConsApart(used, sp, e, BarePhase(text, at, ms, k + 1, skip, used + [sp]));
      } else {
        BarePhaseDrop(text, at, ms, k, skip, used);
        BarePhaseApart(text, at, ms, k + 1, skip, used);
      }
    }
  }

  lemma {:induction false} BarePhaseGood(text: string, at: int -> (int, int), ms: seq<Span>, k: nat, skip: seq<Span>, used: seq<Span>)
    requires Locates(text, at) && AllMatch(BarePattern, text, ms)
    ensures AllGood(text, skip, Bare, BarePhase(text, at, ms, k, skip, used))
    decreases |ms| - k
  {
    if k < |ms| {
      var m := ms[k];
      assert MatchAt(BarePattern, text, m.start) == m.end;
      if !InRanges(m.start, skip) && !OverlapsAny(m.start, m.end, used) {
        BareEntryGood(text, at, m, skip);
        var e := BareEntry(text, at, m).value;
        BarePhaseKeep(text, at, ms, k, skip, used, e);
        var sp := Span(e.start, e.end);
        BarePhaseGood(text, at, ms, k + 1, skip, used + [sp]);
        PhaseConsGood(GoodOf(text, skip, Bare), e, BarePhase(text, at, ms, k + 1, skip, used + [sp]));
      } else {
        BarePhaseDrop(text, at, ms, k, skip, used);
        BarePhaseGood(text, at, ms, k + 1, skip, used);
      }
    }
  }

  /** A kept entry in front of the rest of a phase keeps the spans apart. */
  lemma PhaseConsApart(used: seq<Span>, sp: Span, e: LinkMatch, rest: seq<LinkMatch>)
    requires e.start == sp.start && e.end == sp.end
    requires Apart(used + [sp] + Spans(rest))
    ensures Apart(used + Spans([e] + rest))
  {
    SpansConcat([e], rest);
    assert Spans([e]) == [sp];
    AppendAssoc(used, [sp], Spans(rest));
  }

  lemma PhaseConsGood(ok: LinkMatch -> bool, e: LinkMatch, rest: seq<LinkMatch>)
    requires ok(e) && AllOf(ok, rest)
    ensures AllOf(ok, [e] + rest)
  {
    assert ([e] + rest)[1..] == rest;
  }

  lemma InlineLinksGood(text: string)
    ensures Apart(Spans(InlineLinks(text)))
    ensures forall i :: 0 <= i < |InlineLinks(text)| ==> Good(text, SkipRanges(text), InlineLinks(text)[i])
  {
    InlineLinksApart(text);
    InlineLinksEach(text);
  }

  lemma InlineLinksApart(text: string)
    ensures Apart(Spans(InlineLinks(text)))
  {
    var links := ScanInline(text, 0);
    ScanInlineWellFormed(text, 0);
    InOrderDisjoint(links, 0);
    InlinePhaseOrdered(LineColumnOf(LineOffsets(text)), links, 0, SkipRanges(text));
    OrderedApart(InlineLinks(text));
  }

  lemma OrderedApart(r: seq<LinkMatch>)
    requires forall i :: 0 <= i < |r| ==> r[i].start < r[i].end
    requires forall a, b :: 0 <= a < b < |r| ==> r[a].end <= r[b].start
    ensures Apart(Spans(r))
  {
  }

  lemma InlineLinksEach(text: string)
    ensures forall i :: 0 <= i < |InlineLinks(text)| ==> Good(text, SkipRanges(text), InlineLinks(text)[i])
  {
    var skip := SkipRanges(text);
    var links := ScanInline(text, 0);
    var inl := InlineLinks(text);
    var at := LineColumnOf(LineOffsets(text));
    LineOffsetsLocate(text);
    InlinePhaseMembers(at, links, 0, skip);
    forall i | 0 <= i < |inl| ensures Good(text, skip, inl[i]) {
      var j :| 0 <= j < |links| && !InRanges(links[j].start, skip) && inl[i] == InlineEntry(at, links[j]);
      ScanInlineWellFormed(text, 0);
      InlineEntryGood(text, at, links[j], skip);
    }
  }

  /** Every collected link is a good report, and no two share a position. */
  lemma CollectedGood(text: string)
    ensures Apart(Spans(Collected(text)))
    ensures forall i :: 0 <= i < |Collected(text)| ==> Good(text, SkipRanges(text), Collected(text)[i])
  {
    var skip := SkipRanges(text);
    var inl := InlineLinks(text);
    var auto := Autolinks(text);
    var bare := BareUrls(text);
    InlineLinksGood(text);
    LineOffsetsLocate(text);
    AutolinkPhaseProps(text, LineColumnOf(LineOffsets(text)), FindIter(AutolinkPattern, text, 0), 0, skip, Spans(inl));
    BarePhaseProps(text, LineColumnOf(LineOffsets(text)), FindIter(BarePattern, text, 0), 0, skip, Spans(inl) + Spans(auto));
    SpansConcat(inl, auto);
    SpansConcat(inl + auto, bare);
    AllGoodIndex(text, skip, Autolink, auto);
    AllGoodIndex(text, skip, Bare, bare);
    GoodConcat(text, skip, inl, auto);
    GoodConcat(text, skip, inl + auto, bare);
  }

  lemma GoodConcat(text: string, skip: seq<Span>, xs: seq<LinkMatch>, ys: seq<LinkMatch>)
    requires forall i :: 0 <= i < |xs| ==> Good(text, skip, xs[i])
    requires forall i :: 0 <= i < |ys| ==> Good(text, skip, ys[i])
    ensures forall i :: 0 <= i < |xs + ys| ==> Good(text, skip, (xs + ys)[i])
  {
    forall i | 0 <= i < |xs + ys| ensures Good(text, skip, (xs + ys)[i]) {
      if i < |xs| {
        assert (xs + ys)[i] == xs[i];
      } else {
        assert (xs + ys)[i] == ys[i - |xs|];
      }
    }
  }

  ghost predicate Separate(x: LinkMatch, y: LinkMatch) {
    x.end <= y.start || y.end <= x.start
  }

  /**
   * What extract_links returns: sorted by start, each link ending before the
   * next one begins, and every link outside code, shaped as its kind says
   * and located at its line and column.
   */
  lemma ExtractedProperties(text: string)
    ensures Edits.SortedBy(Extracted(text), StartKey)
    ensures forall a, b :: 0 <= a < b < |Extracted(text)| ==> Extracted(text)[a].end <= Extracted(text)[b].start
    ensures forall i :: 0 <= i < |Extracted(text)| ==> Good(text, SkipRanges(text), Extracted(text)[i])
  {
    CollectedGood(text);
    SortedReports(text, SkipRanges(text), Collected(text));
  }

  /** Sorting good, pairwise apart reports by start lines them up one after another. */
  lemma SortedReports(text: string, skip: seq<Span>, all: seq<LinkMatch>)
    requires Apart(Spans(all))
    requires forall i :: 0 <= i < |all| ==> Good(text, skip, all[i])
    ensures var r := Edits.SortBy(all, StartKey);
      && Edits.SortedBy(r, StartKey)
      && (forall a, b :: 0 <= a < b < |r| ==> r[a].end <= r[b].start)
      && (forall i :: 0 <= i < |r| ==> Good(text, skip, r[i]))
  {
    var r := Edits.SortBy(all, StartKey);
    var sep := (x: LinkMatch, y: LinkMatch) => Separate(x, y);
    assert Edits.Pairwise(all, sep) by {
      forall a, b | 0 <= a < b < |all| ensures sep(all[a], all[b]) {
        assert Spans(all)[a] == Span(all[a].start, all[a].end);
        assert Spans(all)[b] == Span(all[b].start, all[b].end);
      }
    }
    Edits.SortByPairwise(all, StartKey, sep);
    forall i | 0 <= i < |r| ensures Good(text, skip, r[i]) {
      Edits.SortByMember(all, StartKey, i);
    }
    forall a, b | 0 <= a < b < |r| ensures r[a].end <= r[b].start {
      assert sep(r[a], r[b]);
      assert StartKey(r[a]) <= StartKey(r[b]);
      assert Good(text, skip, r[b]);
    }
  }

  // ---- nothing is dropped without a reason ----

  lemma {:induction false} InlinePhaseKeeps(at: int -> (int, int), links: seq<InlineLink>, k: nat, skip: seq<Span>, j: nat)
    requires k <= j < |links| && !InRanges(links[j].start, skip)
    ensures InlineEntry(at, links[j]) in InlinePhase(at, links, k, skip)
    decreases j - k
  {
    var x := InlineEntry(at, links[j]);
    var rest := InlinePhase(at, links, k + 1, skip);
    if k < j {
      InlinePhaseKeeps(at, links, k + 1, skip, j);
      assert x in rest;
      if !InRanges(links[k].start, skip) {
        InlinePhaseKeep(at, links, k, skip);
        InCons(InlineEntry(at, links[k]), rest, x);
      } else {
        InlinePhaseDrop(at, links, k, skip);
      }
    } else {
      InlinePhaseKeep(at, links, k, skip);
      assert ([x] + rest)[0] == x;
    }
  }

  lemma InCons(e: LinkMatch, rest: seq<LinkMatch>, x: LinkMatch)
    requires x in rest
    ensures x in [e] + rest
  {
  }

  lemma OverlapsWiden(start: int, end: int, xs: seq<Span>, ys: seq<Span>)
    requires OverlapsAny(start, end, xs)
    ensures OverlapsAny(start, end, xs + ys)
  {
    var k :| 0 <= k < |xs| && start < xs[k].end && end > xs[k].start;
    assert (xs + ys)[k] == xs[k];
  }

  lemma {:induction false} AutolinkPhaseCovers(text: string, at: int -> (int, int), ms: seq<Span>, k: nat, skip: seq<Span>, used: seq<Span>, j: nat)
    requires AllMatch(AutolinkPattern, text, ms) && k <= j < |ms| && !InRanges(ms[j].start, skip)
    ensures AutolinkEntry(text, at, ms[j]) in AutolinkPhase(text, at, ms, k, skip, used)
         || OverlapsAny(ms[j].start, ms[j].end, used + Spans(AutolinkPhase(text, at, ms, k, skip, used)))
    decreases j - k
  {
    var m := ms[k];
    var r := AutolinkPhase(text, at, ms, k, skip, used);
    if !InRanges(m.start, skip) && !OverlapsAny(m.start, m.end, used) {
      var e := AutolinkEntry(text, at, m);
      AutolinkPhaseKeep(text, at, ms, k, skip, used, e);
      var rest := AutolinkPhase(text, at, ms, k + 1, skip, used + [m]);
      if k < j {
        AutolinkPhaseCovers(text, at, ms, k + 1, skip, used + [m], j);
        SpansConcat([e], rest);
        assert Spans([e]) == [m];
        AppendAssoc(used, [m], Spans(rest));
      }
    } else {
      AutolinkPhaseDrop(text, at, ms, k, skip, used);
      if k < j {
        AutolinkPhaseCovers(text, at, ms, k + 1, skip, used, j);
      } else {
        OverlapsWiden(m.start, m.end, used, Spans(r));
      }
    }
  }

  lemma {:induction false} BarePhaseCovers(text: string, at: int -> (int, int), ms: seq<Span>, k: nat, skip: seq<Span>, used: seq<Span>, j: nat)
    requires AllMatch(BarePattern, text, ms) && k <= j < |ms| && !InRanges(ms[j].start, skip)
    ensures BareEntry(text, at, ms[j]).Some?
    ensures BareEntry(text, at, ms[j]).value in BarePhase(text, at, ms, k, skip, used)
         || OverlapsAny(ms[j].start, ms[j].end, used + Spans(BarePhase(text, at, ms, k, skip, used)))
    decreases j - k
  {
    var m := ms[k];
    var r := BarePhase(text, at, ms, k, skip, used);
    assert MatchAt(BarePattern, text, ms[j].start) == ms[j].end;
    BareEntrySome(text, at, ms[j]);
    BareEntrySome(text, at, m);
    if !InRanges(m.start, skip) && !OverlapsAny(m.start, m.end, used) {
      var e := BareEntry(text, at, m).value;
      var sp := Span(e.start, e.end);
      BarePhaseKeep(text, at, ms, k, skip, used, e);
      var rest := BarePhase(text, at, ms, k + 1, skip, used + [sp]);
      if k < j {
        BarePhaseCovers(text, at, ms, k + 1, skip, used + [sp], j);
        SpansConcat([e], rest);
        assert Spans([e]) == [sp];
        AppendAssoc(used, [sp], Spans(rest));
      }
    } else {
      BarePhaseDrop(text, at, ms, k, skip, used);
      if k < j {
        BarePhaseCovers(text, at, ms, k + 1, skip, used, j);
      } else {
        OverlapsWiden(m.start, m.end, used, Spans(r));
      }
    }
  }

  /** A link of the collected list is a link of the sorted result. */
  lemma CollectedInExtracted(text: string, x: LinkMatch)
    requires x in Collected(text)
    ensures x in Extracted(text)
  {
    assert x in multiset(Collected(text));
  }

  lemma OverlapReported(text: string, start: int, end: int)
    requires OverlapsAny(start, end, Spans(Collected(text)))
    ensures exists x :: x in Extracted(text) && start < x.end && end > x.start
  {
    var all := Collected(text);
    var k :| 0 <= k < |Spans(all)| && start < Spans(all)[k].end && end > Spans(all)[k].start;
    CollectedInExtracted(text, all[k]);
  }

  /** Every scanned inline link outside code is reported. */
  lemma InlineLinkReported(text: string, j: nat)
    requires j < |ScanInline(text, 0)| && !InRanges(ScanInline(text, 0)[j].start, SkipRanges(text))
    ensures InlineEntry(LineColumnOf(LineOffsets(text)), ScanInline(text, 0)[j]) in Extracted(text)
  {
    InlinePhaseKeeps(LineColumnOf(LineOffsets(text)), ScanInline(text, 0), 0, SkipRanges(text), j);
    CollectedInExtracted(text, InlineEntry(LineColumnOf(LineOffsets(text)), ScanInline(text, 0)[j]));
  }

  /** An autolink outside code is reported, unless it overlaps a reported link. */
  lemma AutolinkReported(text: string, j: nat)
    requires j < |FindIter(AutolinkPattern, text, 0)|
    requires !InRanges(FindIter(AutolinkPattern, text, 0)[j].start, SkipRanges(text))
    ensures AutolinkEntry(text, LineColumnOf(LineOffsets(text)), FindIter(AutolinkPattern, text, 0)[j]) in Extracted(text)
         || exists x :: x in Extracted(text)
              && FindIter(AutolinkPattern, text, 0)[j].start < x.end && FindIter(AutolinkPattern, text, 0)[j].end > x.start
  {
    var ms := FindIter(AutolinkPattern, text, 0);
    var inl := InlineLinks(text);
    var auto := Autolinks(text);
    var at := LineColumnOf(LineOffsets(text));
    AutolinkPhaseCovers(text, at, ms, 0, SkipRanges(text), Spans(inl), j);
    var e := AutolinkEntry(text, at, ms[j]);
    if e in auto {
      CollectedInExtracted(text, e);
    } else {
      SpansConcat(inl, auto);
      OverlapsWiden(ms[j].start, ms[j].end, Spans(inl + auto), Spans(BareUrls(text)));
      SpansConcat(inl + auto, BareUrls(text));
      OverlapReported(text, ms[j].start, ms[j].end);
    }
  }

  /** A bare URL outside code is reported, unless it overlaps a reported link. */
  lemma BareUrlReported(text: string, j: nat)
    requires j < |FindIter(BarePattern, text, 0)|
    requires !InRanges(FindIter(BarePattern, text, 0)[j].start, SkipRanges(text))
    ensures BareEntry(text, LineColumnOf(LineOffsets(text)), FindIter(BarePattern, text, 0)[j]).Some?
    ensures BareEntry(text, LineColumnOf(LineOffsets(text)), FindIter(BarePattern, text, 0)[j]).value in Extracted(text)
         || exists x :: x in Extracted(text)
              && FindIter(BarePattern, text, 0)[j].start < x.end && FindIter(BarePattern, text, 0)[j].end > x.start
  {
    var ms := FindIter(BarePattern, text, 0);
    var inl := InlineLinks(text);
    var auto := Autolinks(text);
    var bare := BareUrls(text);
    var at := LineColumnOf(LineOffsets(text));
    BarePhaseCovers(text, at, ms, 0, SkipRanges(text), Spans(inl) + Spans(auto), j);
    var e := BareEntry(text, at, ms[j]).value;
    if e in bare {
      CollectedInExtracted(text, e);
    } else {
      SpansConcat(inl, auto);
      SpansConcat(inl + auto, bare);
      OverlapReported(text, ms[j].start, ms[j].end);
    }
  }

  // ---- anchors ----

  /**
   * An href split at its first `#`: the path before it and the decoded
   * anchor after it, or the whole href and no anchor.  `unquote` stands for
   * urllib's percent-decoding, which is not part of this model.
   */
  function SplitAnchor(href: string, unquote: string -> string): (r: (string, Option<string>))
    ensures r.1.None? <==> '#' !in href
    ensures r.1.None? ==> r.0 == href
    ensures '#' !in r.0
    ensures r.1.Some? ==> exists raw :: href == r.0 + "#" + raw && r.1.value == unquote(raw)
  {
    var i := IndexOfFrom(href, '#', 0);
    if i == -1 then (href, None)
    else
      assert href == href[..i] + "#" + href[i + 1..];
      (href[..i], Some(unquote(href[i + 1..])))
  }

  // ---- the imperative collector ----

  method ExtractLinks(text: string) returns (result: seq<LinkMatch>)
    ensures result == Extracted(text)
  {
    var codeRanges := FindCodeFenceRanges(text);
    var inlineCodeRanges := FindInlineCodeRanges(text);
    var skip := codeRanges + inlineCodeRanges;
    var offsets := BuildLineOffsets(text);
    var links := FindInlineLinks(text);
    var matches := CollectInline(links, skip, offsets);
    var used := Spans(matches);
    var autolinks;
    autolinks, used := CollectAutolinks(text, skip, offsets, used);
    var bare;
    bare, used := CollectBare(text, skip, offsets, used);
    result := Edits.SortBy(matches + autolinks + bare, StartKey);
  }

  method CollectInline(links: seq<InlineLink>, skip: seq<Span>, offsets: Offsets)
    returns (matches: seq<LinkMatch>)
    ensures matches == InlinePhase(LineColumnOf(offsets), links, 0, skip)
  {
    matches := [];
    var k := 0;
    while k < |links|
      invariant k <= |links|
      invariant matches + InlinePhase(LineColumnOf(offsets), links, k, skip) == InlinePhase(LineColumnOf(offsets), links, 0, skip)
    {
      var inline := links[k];
      if !InRanges(inline.start, skip) {
        var m := ReadInline(inline, offsets);
        InlinePhaseKeep(LineColumnOf(offsets), links, k, skip);
        AppendAssoc(matches, [m], InlinePhase(LineColumnOf(offsets), links, k + 1, skip));
        matches := matches + [m];
      } else {
        InlinePhaseDrop(LineColumnOf(offsets), links, k, skip);
      }
      k := k + 1;
    }
  }

  /** The entry for a scanned inline link, with its line and column. */
  method ReadInline(inline: InlineLink, offsets: Offsets) returns (m: LinkMatch)
    ensures m == InlineEntry(LineColumnOf(offsets), inline)
  {
    var lc := IndexToLineColumn(offsets, inline.start);
    m := LinkMatch(Inline, inline.start, inline.end, inline.text, inline.href, lc.0, lc.1,
                   inline.segment, inline.separator, inline.destContent);
  }

  method CollectAutolinks(text: string, skip: seq<Span>, offsets: Offsets, used0: seq<Span>)
    returns (found: seq<LinkMatch>, used: seq<Span>)
    ensures found == AutolinkPhase(text, LineColumnOf(offsets), FindIter(AutolinkPattern, text, 0), 0, skip, used0)
    ensures used == used0 + Spans(found)
  {
    var ms := FindIter(AutolinkPattern, text, 0);
    found, used := [], used0;
    var k := 0;
    while k < |ms|
      invariant k <= |ms|
      invariant found + AutolinkPhase(text, LineColumnOf(offsets), ms, k, skip, used) == AutolinkPhase(text, LineColumnOf(offsets), ms, 0, skip, used0)
      invariant used == used0 + Spans(found)
    {
      found, used := AutolinkAt(text, ms, k, skip, offsets, used0, found, used);
      k := k + 1;
    }
  }

  /** One autolink match: kept, and its span marked used, unless it is in code or overlaps a kept link. */
  method AutolinkAt(text: string, ms: seq<Span>, k: nat, skip: seq<Span>, offsets: Offsets, used0: seq<Span>,
                    found: seq<LinkMatch>, used: seq<Span>)
    returns (found': seq<LinkMatch>, used': seq<Span>)
    requires AllMatch(AutolinkPattern, text, ms) && k < |ms|
    requires used == used0 + Spans(found)
    ensures found' + AutolinkPhase(text, LineColumnOf(offsets), ms, k + 1, skip, used') == found + AutolinkPhase(text, LineColumnOf(offsets), ms, k, skip, used)
    ensures used' == used0 + Spans(found')
  {
    var m := ms[k];
    found', used' := found, used;
    if !(InRanges(m.start, skip) || OverlapsAny(m.start, m.end, used)) {
      var e := ReadAutolink(text, m, offsets);
      AutolinkPhaseKeep(text, LineColumnOf(offsets), ms, k, skip, used, e);
      AppendAssoc(found, [e], AutolinkPhase(text, LineColumnOf(offsets), ms, k + 1, skip, used + [m]));
      SpansAppend(found, e);
      found' := found + [e];
      used' := used + [m];
    } else {
      AutolinkPhaseDrop(text, LineColumnOf(offsets), ms, k, skip, used);
    }
  }

  /** The entry for the autolink matched at `m`. */
  method ReadAutolink(text: string, m: Span, offsets: Offsets) returns (e: LinkMatch)
    requires MatchAt(AutolinkPattern, text, m.start) == m.end
    ensures e == AutolinkEntry(text, LineColumnOf(offsets), m)
  {
    var href := text[m.start + 1..m.end - 1];
    var lc := IndexToLineColumn(offsets, m.start);
    e := LinkMatch(Autolink, m.start, m.end, href, href, lc.0, lc.1, text[m.start..m.end], [], []);
  }

  method CollectBare(text: string, skip: seq<Span>, offsets: Offsets, used0: seq<Span>)
    returns (found: seq<LinkMatch>, used: seq<Span>)
    ensures found == BarePhase(text, LineColumnOf(offsets), FindIter(BarePattern, text, 0), 0, skip, used0)
    ensures used == used0 + Spans(found)
  {
    var ms := FindIter(BarePattern, text, 0);
    ghost var at := LineColumnOf(offsets);
    found, used := [], used0;
    var k := 0;
    while k < |ms|
      invariant k <= |ms|
      invariant found + BarePhase(text, at, ms, k, skip, used) == BarePhase(text, at, ms, 0, skip, used0)
      invariant used == used0 + Spans(found)
    {
      found, used := BareAt(text, ms, k, skip, offsets, used0, found, used);
      k := k + 1;
    }
  }

  /** One bare URL match: trimmed and kept unless it is in code, overlaps a kept link or trims to nothing. */
  method BareAt(text: string, ms: seq<Span>, k: nat, skip: seq<Span>, offsets: Offsets, used0: seq<Span>,
                found: seq<LinkMatch>, used: seq<Span>)
    returns (found': seq<LinkMatch>, used': seq<Span>)
    requires AllMatch(BarePattern, text, ms) && k < |ms|
    requires used == used0 + Spans(found)
    ensures found' + BarePhase(text, LineColumnOf(offsets), ms, k + 1, skip, used') == found + BarePhase(text, LineColumnOf(offsets), ms, k, skip, used)
    ensures used' == used0 + Spans(found')
  {
    var m := ms[k];
    found', used' := found, used;
    if !(InRanges(m.start, skip) || OverlapsAny(m.start, m.end, used)) {
      var e := TrimBare(text, m, offsets);
      if e.Some? {
        var sp := Span(e.value.start, e.value.end);
        BarePhaseKeep(text, LineColumnOf(offsets), ms, k, skip, used, e.value);
        AppendAssoc(found, [e.value], BarePhase(text, LineColumnOf(offsets), ms, k + 1, skip, used + [sp]));
        SpansAppend(found, e.value);
        found' := found + [e.value];
        used' := used + [sp];
      } else {
        BarePhaseDrop(text, LineColumnOf(offsets), ms, k, skip, used);
      }
    } else {
      BarePhaseDrop(text, LineColumnOf(offsets), ms, k, skip, used);
    }
  }

  /** The entry for a bare URL: trailing punctuation dropped, and none when nothing is left. */
  method TrimBare(text: string, m: Span, offsets: Offsets) returns (e: Option<LinkMatch>)
    requires MatchAt(BarePattern, text, m.start) == m.end
    ensures e == BareEntry(text, LineColumnOf(offsets), m)
  {
    e := TrimBareAt(text, m, IndexToLineColumn(offsets, m.start));
  }

  method TrimBareAt(text: string, m: Span, lc: (int, int)) returns (e: Option<LinkMatch>)
    requires m.start <= m.end <= |text|
    ensures e == BareEntryAt(text, m, lc)
  {
    var url := text[m.start..m.end];
    var href, trailing, end := DropTrailing(url, m.end);
    if href == [] {
      return None;
    }
    e := Some(LinkMatch(Bare, m.start, end, href, href, lc.0, lc.1, text[m.start..end], trailing, []));
  }

  /** Drop trailing punctuation from a URL ending at `end0`, one character at a time. */
  method DropTrailing(url: string, end0: int) returns (href: string, trailing: string, end: int)
    ensures href == url[..Trimmed(url, |url|)] && trailing == url[Trimmed(url, |url|)..]
    ensures end == end0 - |trailing|
  {
    href := url;
    trailing := "";
    end := end0;
    while href != [] && TrailingPunct(href[|href| - 1])
      invariant |href| <= |url| && href == url[..|href|] && trailing == url[|href|..]
      invariant end == end0 - |trailing|
      invariant Trimmed(url, |href|) == Trimmed(url, |url|)
      decreases |href|
    {
      TrimmedDrop(url, |href|);
      trailing := [href[|href| - 1]] + trailing;
      href := href[..|href| - 1];
      end := end - 1;
    }
    TrimmedStop(url, |href|);
  }

  lemma TrimmedDrop(s: string, n: nat)
    requires 0 < n <= |s| && TrailingPunct(s[n - 1])
    ensures Trimmed(s, n - 1) == Trimmed(s, n)
  {
  }

  lemma TrimmedStop(s: string, n: nat)
    requires n <= |s| && (n == 0 || !TrailingPunct(s[n - 1]))
    ensures Trimmed(s, n) == n
  {
  }
}
