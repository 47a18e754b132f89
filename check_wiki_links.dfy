/**
 * The wiki link checker: it reads `[[Page|text]]` links back out of the
 * generated wiki pages, finds Markdown links to local `.md` files that were
 * left unconverted, and reports sidebar links to pages that do not exist.
 * Both patterns are modelled as scanners with the regex engine's
 * leftmost, non-overlapping match semantics.
 */
module CheckWikiLinks {
  import opened Strings
  import opened CodeRanges
  import LinkExtract

  datatype Severity = Critical | Warning

  function SeverityValue(s: Severity): string {
    match s
    case Critical => "CRITICAL"
    case Warning => "WARNING"
  }

  /** format_message: the severity's name, a colon and a space, then the message. */
  function FormatMessage(severity: Severity, message: string): (r: string)
    ensures StartsWith(r, SeverityValue(severity) + ": ")
    ensures r[|SeverityValue(severity)| + 2..] == message
  {
    SeverityValue(severity) + ": " + message
  }

  /** A formatted message determines its severity and its text. */
  lemma FormatMessageInjective(s1: Severity, m1: string, s2: Severity, m2: string)
    requires FormatMessage(s1, m1) == FormatMessage(s2, m2)
    ensures s1 == s2 && m1 == m2
  {
    var r := FormatMessage(s1, m1);
    assert r[0] == FormatMessage(s2, m2)[0];
    assert r[0] == SeverityValue(s1)[0];
    assert FormatMessage(s2, m2)[0] == SeverityValue(s2)[0];
  }

  // ---- the wiki-link pattern ----

  /** A character of the page field: not `]`, `|` or `#`. */
  predicate PageChar(c: char) { c != ']' && c != '|' && c != '#' }

  /** A character of the anchor field: not `]` or `|`. */
  predicate AnchorChar(c: char) { c != ']' && c != '|' }

  /** The end of the run of page characters from `i`. */
  function PageEnd(text: string, i: nat): (r: nat)
    requires i <= |text|
    ensures i <= r <= |text|
    ensures forall k :: i <= k < r ==> PageChar(text[k])
    ensures r < |text| ==> !PageChar(text[r])
    decreases |text| - i
  {
    if i < |text| && PageChar(text[i]) then PageEnd(text, i + 1) else i
  }

  /** The end of the run of anchor characters from `i`. */
  function AnchorEnd(text: string, i: nat): (r: nat)
    requires i <= |text|
    ensures i <= r <= |text|
    ensures forall k :: i <= k < r ==> AnchorChar(text[k])
    ensures r < |text| ==> !AnchorChar(text[r])
    decreases |text| - i
  {
    if i < |text| && AnchorChar(text[i]) then AnchorEnd(text, i + 1) else i
  }

  /**
   * A match of `\[\[([^\]|#]+)(#[^\]|]*)?\|?[^\]]*\]\]` at `p` ending at `e`:
   * `[[`, a page character, no `]` up to the closing `]]`.  Every way the
   * groups can split the text between `[[` and the first `]` gives this
   * same match.
   */
  ghost predicate WikiShape(text: string, p: nat, e: nat) {
    && p + 5 <= e <= |text|
    && text[p] == '[' && text[p + 1] == '[' && PageChar(text[p + 2])
    && text[e - 2] == ']' && text[e - 1] == ']'
    && forall k :: p + 2 <= k < e - 2 ==> text[k] != ']'
  }

  /** Where the wiki-link pattern matching at `p` ends, or -1 when it does not match there. */
  function WikiMatchAt(text: string, p: nat): (r: int)
    ensures r == -1 || (r >= p + 5 && WikiShape(text, p, r))
    ensures forall e: nat :: WikiShape(text, p, e) ==> r == e
  {
    if p + 2 < |text| && text[p] == '[' && text[p + 1] == '[' && PageChar(text[p + 2]) then
      var q := IndexOfFrom(text, ']', p + 2);
      if q != -1 && q + 1 < |text| && text[q + 1] == ']' then q + 2 else -1
    else -1
  }

  /** finditer over the wiki-link pattern from `p`: leftmost matches, each search resuming at the previous end. */
  function FindWiki(text: string, p: nat): (r: seq<Span>)
    ensures SpansInOrder(r, p, |text|)
    ensures forall k :: 0 <= k < |r| ==> WikiShape(text, r[k].start, r[k].end)
    decreases |text| - p
  {
    if p >= |text| then []
    else
      var e := WikiMatchAt(text, p);
      if e == -1 then FindWiki(text, p + 1)
      else
        var rest := FindWiki(text, e);
        assert forall k :: 1 <= k < |[Span(p, e)] + rest| ==> ([Span(p, e)] + rest)[k] == rest[k - 1];
        [Span(p, e)] + rest
  }

  /** finditer skips no match: each place the pattern matches is reported or lies inside a reported match. */
  lemma {:induction false} FindWikiCovers(text: string, p: nat, q: nat)
    requires p <= q && WikiMatchAt(text, q) != -1
    ensures exists k :: 0 <= k < |FindWiki(text, p)| && FindWiki(text, p)[k].start <= q < FindWiki(text, p)[k].end
    decreases |text| - p
  {
    var r := FindWiki(text, p);
    var e := WikiMatchAt(text, p);
    if e == -1 {
      assert p != q;
      FindWikiCovers(text, p + 1, q);
    } else if q < e {
      assert r[0] == Span(p, e);
    } else {
      FindWikiCovers(text, e, q);
      var rest := FindWiki(text, e);
      var k :| 0 <= k < |rest| && rest[k].start <= q < rest[k].end;
      assert r[k + 1] == rest[k];
    }
  }

  // ---- reading the links ----

  /** A link read back: the page name, the anchor (with its `#`, or empty) and the line. */
  datatype WikiRef = WikiRef(page: string, anchor: string, line: nat)

  /**
   * Group 1, stripped: the run of page characters from `i`, without its
   * outer whitespace, so it holds no `|`, `#` or `]` and no outer space.
   */
  function PageAt(text: string, i: nat): (r: string)
    requires i <= |text|
    ensures forall k :: 0 <= k < |r| ==> PageChar(r[k])
    ensures r != [] ==> !IsSpace(r[0]) && !IsSpace(r[|r| - 1])
  {
    var field := text[i..PageEnd(text, i)];
    StripInside(field, PageChar);
    Strip(field)
  }

  /** The page read is empty exactly when the page field is all whitespace. */
  lemma PageAtEmpty(text: string, i: nat)
    requires i <= |text|
    ensures PageAt(text, i) == [] <==> IsBlank(text[i..PageEnd(text, i)])
  {
    StripEmpty(text[i..PageEnd(text, i)]);
  }

  /** `anchor` is the text at `g`: a `#` and then the longest run of anchor characters. */
  ghost predicate AnchorField(text: string, g: nat, anchor: string) {
    && g + |anchor| <= |text| && anchor == text[g..g + |anchor|]
    && |anchor| >= 1 && anchor[0] == '#'
    && (forall k :: 1 <= k < |anchor| ==> AnchorChar(anchor[k]))
    && (g + |anchor| < |text| ==> !AnchorChar(text[g + |anchor|]))
  }

  /** Group 2, or empty when it did not take part: present exactly when a `#` follows the page field. */
  function AnchorAt(text: string, g: nat): (r: string)
    requires g <= |text|
    ensures r == [] <==> g == |text| || text[g] != '#'
    ensures r != [] ==> AnchorField(text, g, r)
  {
    if g < |text| && text[g] == '#' then
      var e := AnchorEnd(text, g + 1);
      assert forall k :: 1 <= k < e - g ==> text[g..e][k] == text[g + k];
      text[g..e]
    else ""
  }

  /** What extract_wiki_links reads from a match at `m.start`: the page and anchor groups and the line. */
  function RefAt(text: string, m: Span): WikiRef
    requires m.start + 2 <= |text|
  {
    WikiRef(PageAt(text, m.start + 2), AnchorAt(text, PageEnd(text, m.start + 2)), CountChar(text[..m.start], '\n') + 1)
  }

  /** RefAt on `text`, as a value to hand to WikiFrom. */
  function Reader(text: string): Span --> WikiRef {
    (m: Span) requires m.start + 2 <= |text| => RefAt(text, m)
  }

  /** The links `read` from `ms[k..]`, leaving out matches that start in code. */
  function WikiFrom(ms: seq<Span>, k: nat, skip: seq<Span>, read: Span --> WikiRef): seq<WikiRef>
    requires forall j :: 0 <= j < |ms| ==> read.requires(ms[j])
    decreases |ms| - k
  {
    if k >= |ms| then []
    else (if InRanges(ms[k].start, skip) then [] else [read(ms[k])]) + WikiFrom(ms, k + 1, skip, read)
  }

  lemma WikiFromStep(ms: seq<Span>, k: nat, skip: seq<Span>, read: Span --> WikiRef)
    requires forall j :: 0 <= j < |ms| ==> read.requires(ms[j])
    requires k < |ms|
    ensures !InRanges(ms[k].start, skip) ==> WikiFrom(ms, k, skip, read) == [read(ms[k])] + WikiFrom(ms, k + 1, skip, read)
    ensures InRanges(ms[k].start, skip) ==> WikiFrom(ms, k, skip, read) == WikiFrom(ms, k + 1, skip, read)
  {
  }

  lemma FindWikiReadable(text: string)
    ensures forall j :: 0 <= j < |FindWiki(text, 0)| ==> Reader(text).requires(FindWiki(text, 0)[j])
  {
    var ms := FindWiki(text, 0);
    assert forall j :: 0 <= j < |ms| ==> WikiShape(text, ms[j].start, ms[j].end);
  }

  /** extract_wiki_links: every match outside code, read. */
  function WikiLinks(content: string): seq<WikiRef> {
    FindWikiReadable(content);
    WikiFrom(FindWiki(content, 0), 0, LinkExtract.SkipRanges(content), Reader(content))
  }

  /** A link is read from `ms[k..]` exactly when some match there lies outside code and reads as it. */
  lemma {:induction false} WikiFromMembers(ms: seq<Span>, k: nat, skip: seq<Span>, read: Span --> WikiRef)
    requires forall j :: 0 <= j < |ms| ==> read.requires(ms[j])
    ensures forall w :: w in WikiFrom(ms, k, skip, read) <==>
      exists j :: k <= j < |ms| && !InRanges(ms[j].start, skip) && w == read(ms[j])
    decreases |ms| - k
  {
    if k < |ms| {
      WikiFromMembers(ms, k + 1, skip, read);
    }
  }

  /** The links come in the order of their matches: the first link read is that of the first match outside code. */
  lemma {:induction false} WikiFromFirst(ms: seq<Span>, k: nat, skip: seq<Span>, read: Span --> WikiRef, j: nat)
    requires forall i :: 0 <= i < |ms| ==> read.requires(ms[i])
    requires k <= j < |ms| && !InRanges(ms[j].start, skip)
    requires forall i :: k <= i < j ==> InRanges(ms[i].start, skip)
    ensures WikiFrom(ms, k, skip, read) != [] && WikiFrom(ms, k, skip, read)[0] == read(ms[j])
    decreases j - k
  {
    WikiFromStep(ms, k, skip, read);
    if k < j {
      WikiFromFirst(ms, k + 1, skip, read, j);
    }
  }

  /**
   * What extract_wiki_links returns: one entry per match of the pattern
   * that starts outside code, read as RefAt says, and nothing else.
   */
  lemma WikiLinksMembers(content: string)
    ensures forall w :: w in WikiLinks(content) <==>
      exists j :: 0 <= j < |FindWiki(content, 0)| && !InRanges(FindWiki(content, 0)[j].start, LinkExtract.SkipRanges(content))
        && w == RefAt(content, FindWiki(content, 0)[j])
  {
    FindWikiReadable(content);
    var ms, skip, rd := FindWiki(content, 0), LinkExtract.SkipRanges(content), Reader(content);
    assert WikiLinks(content) == WikiFrom(ms, 0, skip, rd);
    WikiFromMembers(ms, 0, skip, rd);
    forall j | 0 <= j < |ms|
      ensures rd(ms[j]) == RefAt(content, ms[j])
    {
    }
  }

  method ExtractWikiLinks(content: string) returns (links: seq<WikiRef>)
    ensures links == WikiLinks(content)
  {
    var codeRanges := FindCodeFenceRanges(content);
    var inlineCodeRanges := FindInlineCodeRanges(content);
    var matches := FindWiki(content, 0);
    FindWikiReadable(content);
    links := ReadWikiLinks(matches, codeRanges + inlineCodeRanges, Reader(content));
  }

  /** The loop of extract_wiki_links over the matches, reading each with `read`. */
  method ReadWikiLinks(matches: seq<Span>, skipRanges: seq<Span>, read: Span --> WikiRef) returns (links: seq<WikiRef>)
    requires forall j :: 0 <= j < |matches| ==> read.requires(matches[j])
    ensures links == WikiFrom(matches, 0, skipRanges, read)
  {
    links := [];
    for k := 0 to |matches|
      invariant links + WikiFrom(matches, k, skipRanges, read) == WikiFrom(matches, 0, skipRanges, read)
    {
      var m := matches[k];
      WikiFromStep(matches, k, skipRanges, read);
      if !InRanges(m.start, skipRanges) {
        links := links + [read(m)];
      }
    }
  }

  // ---- unconverted Markdown links ----

  /** `s` begins with `./` or `../`. */
  predicate DotRelative(s: string) {
    |s| >= 2 && s[0] == '.' && (s[1] == '/' || (|s| >= 3 && s[1] == '.' && s[2] == '/'))
  }

  /** `.md` occurs in `s`. */
  ghost predicate HasMd(s: string) {
    exists i :: 0 <= i && i + 3 <= |s| && MdAt(s, i)
  }

  predicate MdAt(s: string, i: nat) {
    i + 3 <= |s| && s[i] == '.' && s[i + 1] == 'm' && s[i + 2] == 'd'
  }

  lemma DotRelativeIsPrefix(s: string)
    ensures DotRelative(s) <==> StartsWith(s, "./") || StartsWith(s, "../")
  {
  }

  lemma HasMdIsContains(s: string)
    ensures HasMd(s) <==> Contains(s, ".md")
  {
    if HasMd(s) {
      var i :| 0 <= i && i + 3 <= |s| && MdAt(s, i);
      assert OccursAt(s, ".md", i);
    }
    if Contains(s, ".md") {
      var i: nat :| i <= |s| && OccursAt(s, ".md", i);
      assert s[i..i + 3][0] == s[i];
      assert s[i..i + 3][1] == s[i + 1];
      assert s[i..i + 3][2] == s[i + 2];
      assert MdAt(s, i);
    }
  }

  /** The end of `./` or `../` at `i`, or -1. */
  function DotPrefixEnd(text: string, i: nat): (r: int)
    requires i <= |text|
    ensures r == -1 || (i + 2 <= r <= |text| && DotRelative(text[i..]) && r == i + (if text[i + 1] == '/' then 2 else 3))
    ensures r == -1 ==> !DotRelative(text[i..])
  {
    if i + 3 <= |text| && text[i] == '.' && text[i + 1] == '.' && text[i + 2] == '/' then i + 3
    else if i + 2 <= |text| && text[i] == '.' && text[i + 1] == '/' then i + 2
    else -1
  }

  /** The first place `.md` occurs at or after `from` and ends by `limit`, or -1. */
  function FindMd(text: string, from: nat, limit: nat): (r: int)
    requires limit <= |text|
    ensures r == -1 ==> forall j :: from <= j && j + 3 <= limit ==> !MdAt(text, j)
    ensures r != -1 ==> from <= r && r + 3 <= limit && MdAt(text, r)
    decreases limit - from
  {
    if from + 3 > limit then -1
    else if MdAt(text, from) then from
    else FindMd(text, from + 1, limit)
  }

  /** An unconverted-link match: where it starts and ends, and its href (group 2). */
  datatype UMatch = UMatch(start: nat, end: nat, href: string)

  /**
   * What every unconverted-link match is: it runs from a `[` to a `)`, and
   * its href, the text just before that `)`, begins `./` or `../`, holds
   * `.md` and no `)`.
   */
  ghost predicate UShaped(text: string, m: UMatch) {
    && m.start + 5 + |m.href| <= m.end <= |text|
    && text[m.start] == '[' && text[m.end - 1] == ')'
    && DotRelative(m.href) && HasMd(m.href)
    && m.href == text[m.end - 1 - |m.href|..m.end - 1]
    && forall k :: 0 <= k < |m.href| ==> m.href[k] != ')'
  }

  /**
   * A match of `\[([^\]]+)\]\((\.\.?/[^)]+\.md[^)]*)\)` at `p`: the text up
   * to the first `]` (not empty), `(`, then `./` or `../`, then up to the
   * first `)` a stretch holding `.md` after at least one character.  The
   * href is everything between `(` and `)`.
   */
  function UnconvertedAt(text: string, p: nat): (r: Option<UMatch>)
    ensures r.Some? ==> r.value.start == p && UShaped(text, r.value)
  {
    if p < |text| && text[p] == '[' then
      var c := IndexOfFrom(text, ']', p + 1);
      if c == -1 || c == p + 1 || c + 1 >= |text| || text[c + 1] != '(' then None
      else
        var s := DotPrefixEnd(text, c + 2);
        if s == -1 then None
        else
          var d := IndexOfFrom(text, ')', s);
          if d == -1 then None
          else
            var j := FindMd(text, s + 1, d);
            if j == -1 then None
            else
              ShapedAt(text, p, c, s, d, j);
              Some(UMatch(p, d + 1, text[c + 2..d]))
    else None
  }

  /** The pieces UnconvertedAt finds make a match of the right shape. */
  lemma ShapedAt(text: string, p: nat, c: nat, s: nat, d: nat, j: nat)
    requires p < |text| && text[p] == '[' && p + 2 <= c && c + 2 <= |text|
    requires DotRelative(text[c + 2..]) && s == c + 2 + (if text[c + 3] == '/' then 2 else 3)
    requires s <= d < |text| && text[d] == ')' && forall k :: s <= k < d ==> text[k] != ')'
    requires s + 1 <= j && j + 3 <= d && MdAt(text, j)
    ensures UShaped(text, UMatch(p, d + 1, text[c + 2..d]))
  {
    var href := text[c + 2..d];
    assert forall k :: 0 <= k < |href| ==> href[k] == text[c + 2 + k];
    assert text[c + 2..][0] == text[c + 2] && text[c + 2..][1] == text[c + 3];
    assert MdAt(href, j - c - 2);
  }

  /** A matcher that, wherever it matches, matches a non-empty stretch starting there. */
  ghost predicate Advances(at: nat -> Option<UMatch>) {
    forall q: nat :: at(q).Some? ==> at(q).value.start == q < at(q).value.end
  }

  /** finditer with matcher `at` over positions `p` to `n`: leftmost matches, each search resuming at the previous end. */
  function FindAll(at: nat -> Option<UMatch>, n: nat, p: nat): (r: seq<UMatch>)
    requires Advances(at)
    ensures forall k :: 0 <= k < |r| ==> p <= r[k].start < n && at(r[k].start) == Some(r[k])
    ensures forall a, b :: 0 <= a < b < |r| ==> r[a].end <= r[b].start
    decreases n - p
  {
    if p >= n then []
    else
      match at(p)
      case None => FindAll(at, n, p + 1)
      case Some(m) =>
        var rest := FindAll(at, n, m.end);
        assert forall k :: 1 <= k < |[m] + rest| ==> ([m] + rest)[k] == rest[k - 1];
        [m] + rest
  }

  /** finditer skips no match: each place the matcher matches is reported or lies inside a reported match. */
  lemma {:induction false} FindAllCovers(at: nat -> Option<UMatch>, n: nat, p: nat, q: nat)
    requires Advances(at) && p <= q < n && at(q).Some?
    ensures exists k :: 0 <= k < |FindAll(at, n, p)| && FindAll(at, n, p)[k].start <= q < FindAll(at, n, p)[k].end
    decreases n - p
  {
    var r := FindAll(at, n, p);
    match at(p)
    case None =>
      FindAllCovers(at, n, p + 1, q);
    case Some(m) =>
      var rest := FindAll(at, n, m.end);
      if q < m.end {
        assert r[0].start <= q < r[0].end;
      } else {
        FindAllCovers(at, n, m.end, q);
        var k :| 0 <= k < |rest| && rest[k].start <= q < rest[k].end;
        assert r[k + 1] == rest[k];
      }
  }

  /** UnconvertedAt on `text`, as a value to hand to FindAll. */
  function Matcher(text: string): nat -> Option<UMatch> {
    (q: nat) => UnconvertedAt(text, q)
  }

  lemma MatcherAdvances(text: string)
    ensures Advances(Matcher(text))
  {
    forall q: nat | Matcher(text)(q).Some?
      ensures Matcher(text)(q).value.start == q < Matcher(text)(q).value.end
    {
      assert UShaped(text, UnconvertedAt(text, q).value);
    }
  }

  /** finditer over the unconverted-link pattern from `p`: matches of the right shape, in order, none overlapping. */
  function FindUnconverted(text: string, p: nat): (r: seq<UMatch>)
    ensures forall k :: 0 <= k < |r| ==> p <= r[k].start && UShaped(text, r[k])
    ensures forall a, b :: 0 <= a < b < |r| ==> r[a].end <= r[b].start
  {
    MatcherAdvances(text);
    var r := FindAll(Matcher(text), |text|, p);
    assert forall k :: 0 <= k < |r| ==> UnconvertedAt(text, r[k].start) == Some(r[k]);
    r
  }

  /** Each place the pattern matches is reported or lies inside a reported match. */
  lemma FindUnconvertedCovers(text: string, p: nat, q: nat)
    requires p <= q && UnconvertedAt(text, q).Some?
    ensures exists k :: 0 <= k < |FindUnconverted(text, p)| && FindUnconverted(text, p)[k].start <= q < FindUnconverted(text, p)[k].end
  {
    assert UShaped(text, UnconvertedAt(text, q).value);
    MatcherAdvances(text);
    assert Matcher(text)(q).Some?;
    FindAllCovers(Matcher(text), |text|, p, q);
    var all := FindAll(Matcher(text), |text|, p);
    assert FindUnconverted(text, p) == all;
    var k :| 0 <= k < |all| && all[k].start <= q < all[k].end;
    assert FindUnconverted(text, p)[k].start <= q < FindUnconverted(text, p)[k].end;
  }

  /** A reported unconverted link: its href and line. */
  datatype Unconverted = Unconverted(href: string, line: nat)

  predicate External(href: string) {
    StartsWith(href, "http://") || StartsWith(href, "https://") || StartsWith(href, "mailto:")
  }

  /** The external-URL filter never fires: a matched href begins with `.`. */
  lemma DotRelativeNotExternal(href: string)
    requires DotRelative(href)
    ensures !External(href)
  {
    assert href[0] == '.';
  }

  function UnconvertedFrom(text: string, ms: seq<UMatch>, k: nat, skip: seq<Span>): seq<Unconverted>
    requires forall j :: 0 <= j < |ms| ==> ms[j].start <= |text|
    decreases |ms| - k
  {
    if k >= |ms| then []
    else
      (if InRanges(ms[k].start, skip) || External(ms[k].href) then []
       else [Unconverted(ms[k].href, CountChar(text[..ms[k].start], '\n') + 1)])
      + UnconvertedFrom(text, ms, k + 1, skip)
  }

  lemma UnconvertedFromStep(text: string, ms: seq<UMatch>, k: nat, skip: seq<Span>)
    requires forall j :: 0 <= j < |ms| ==> ms[j].start <= |text|
    requires k < |ms|
    ensures !InRanges(ms[k].start, skip) && !External(ms[k].href) ==>
      UnconvertedFrom(text, ms, k, skip) == [Unconverted(ms[k].href, CountChar(text[..ms[k].start], '\n') + 1)] + UnconvertedFrom(text, ms, k + 1, skip)
    ensures InRanges(ms[k].start, skip) || External(ms[k].href) ==>
      UnconvertedFrom(text, ms, k, skip) == UnconvertedFrom(text, ms, k + 1, skip)
  {
  }

  lemma FindUnconvertedBounds(text: string)
    ensures forall j :: 0 <= j < |FindUnconverted(text, 0)| ==> FindUnconverted(text, 0)[j].start < |text|
  {
    var ms := FindUnconverted(text, 0);
    assert forall j :: 0 <= j < |ms| ==> UShaped(text, ms[j]);
  }

  /** find_unconverted_links: the matches outside code whose href is not external. */
  function UnconvertedLinks(content: string): seq<Unconverted> {
    FindUnconvertedBounds(content);
    UnconvertedFrom(content, FindUnconverted(content, 0), 0, LinkExtract.SkipRanges(content))
  }

  /**
   * Every link reported as unconverted has an href beginning `./` or `../`
   * that holds `.md`, comes from a match outside code, and carries the line
   * of that match; and every match outside code is reported.
   */
  lemma {:induction false} UnconvertedFromShape(text: string, ms: seq<UMatch>, k: nat, skip: seq<Span>)
    requires forall j :: 0 <= j < |ms| ==> ms[j].start <= |text|
    requires forall j :: 0 <= j < |ms| ==> UShaped(text, ms[j])
    ensures forall u :: u in UnconvertedFrom(text, ms, k, skip) ==> DotRelative(u.href) && HasMd(u.href)
    decreases |ms| - k
  {
    if k < |ms| {
      UnconvertedFromShape(text, ms, k + 1, skip);
    }
  }

  lemma {:induction false} UnconvertedFromMembers(text: string, ms: seq<UMatch>, k: nat, skip: seq<Span>)
    requires forall j :: 0 <= j < |ms| ==> ms[j].start <= |text|
    requires forall j :: 0 <= j < |ms| ==> DotRelative(ms[j].href)
    ensures forall u :: u in UnconvertedFrom(text, ms, k, skip) <==>
      exists j :: k <= j < |ms| && !InRanges(ms[j].start, skip)
        && u == Unconverted(ms[j].href, CountChar(text[..ms[j].start], '\n') + 1)
    decreases |ms| - k
  {
    if k < |ms| {
      UnconvertedFromMembers(text, ms, k + 1, skip);
      DotRelativeNotExternal(ms[k].href);
    }
  }

  lemma UnconvertedLinksShape(content: string)
    ensures forall u :: u in UnconvertedLinks(content) ==> DotRelative(u.href) && HasMd(u.href)
    ensures forall u :: u in UnconvertedLinks(content) <==>
      exists j :: 0 <= j < |FindUnconverted(content, 0)|
        && !InRanges(FindUnconverted(content, 0)[j].start, LinkExtract.SkipRanges(content))
        && u == Unconverted(FindUnconverted(content, 0)[j].href, CountChar(content[..FindUnconverted(content, 0)[j].start], '\n') + 1)
  {
    FindUnconvertedBounds(content);
    UnconvertedFromShape(content, FindUnconverted(content, 0), 0, LinkExtract.SkipRanges(content));
    UnconvertedFromMembers(content, FindUnconverted(content, 0), 0, LinkExtract.SkipRanges(content));
  }

  method FindUnconvertedLinks(content: string) returns (unconverted: seq<Unconverted>)
    ensures unconverted == UnconvertedLinks(content)
  {
    var codeRanges := FindCodeFenceRanges(content);
    var inlineCodeRanges := FindInlineCodeRanges(content);
    var matches := FindUnconverted(content, 0);
    FindUnconvertedBounds(content);
    unconverted := ReadUnconverted(content, matches, codeRanges + inlineCodeRanges);
  }

  /** The loop of find_unconverted_links over the matches. */
  method ReadUnconverted(content: string, matches: seq<UMatch>, skipRanges: seq<Span>) returns (unconverted: seq<Unconverted>)
    requires forall j :: 0 <= j < |matches| ==> matches[j].start <= |content|
    ensures unconverted == UnconvertedFrom(content, matches, 0, skipRanges)
  {
    unconverted := [];
    for k := 0 to |matches|
      invariant unconverted + UnconvertedFrom(content, matches, k, skipRanges) == UnconvertedFrom(content, matches, 0, skipRanges)
    {
      var m := matches[k];
      UnconvertedFromStep(content, matches, k, skipRanges);
      if !InRanges(m.start, skipRanges) && !External(m.href) {
        var u := Unconverted(m.href, CountChar(content[..m.start], '\n') + 1);
        assert (unconverted + [u]) + UnconvertedFrom(content, matches, k + 1, skipRanges)
          == unconverted + UnconvertedFrom(content, matches, k, skipRanges);
        unconverted := unconverted + [u];
      }
    }
  }

  // ---- sidebar ----

  function SidebarMessage(w: WikiRef): string {
    FormatMessage(Critical, "_Sidebar.md:" + NatToString(w.line) + ": Links to non-existent page '[[" + w.page + "]]'")
  }

  /** One message per link, in order, for each link whose page is not in `pages`. */
  function MissingPages(links: seq<WikiRef>, pages: set<string>): (r: seq<string>)
    ensures |r| <= |links|
  {
    if links == [] then []
    else (if links[0].page in pages then [] else [SidebarMessage(links[0])]) + MissingPages(links[1..], pages)
  }

  /** The number of links whose page is not in `pages`. */
  function CountMissing(links: seq<WikiRef>, pages: set<string>): nat {
    if links == [] then 0 else (if links[0].page in pages then 0 else 1) + CountMissing(links[1..], pages)
  }

  /** Every sidebar message is a CRITICAL one. */
  lemma SidebarMessageCritical(w: WikiRef)
    ensures StartsWith(SidebarMessage(w), "CRITICAL: ")
  {
    var m := SidebarMessage(w);
    assert m[..10] == (SeverityValue(Critical) + ": ")[..10];
  }

  lemma {:induction false} MissingPagesCount(links: seq<WikiRef>, pages: set<string>)
    ensures |MissingPages(links, pages)| == CountMissing(links, pages)
  {
    if links != [] {
      MissingPagesCount(links[1..], pages);
    }
  }

  lemma {:induction false} MissingPagesMembers(links: seq<WikiRef>, pages: set<string>)
    ensures forall e :: e in MissingPages(links, pages) <==> exists w :: w in links && w.page !in pages && e == SidebarMessage(w)
  {
    if links != [] {
      MissingPagesMembers(links[1..], pages);
      assert forall w :: w in links <==> w == links[0] || w in links[1..];
    }
  }

  /** Exactly one CRITICAL message per link to a missing page, and only those. */
  lemma MissingPagesExact(links: seq<WikiRef>, pages: set<string>)
    ensures |MissingPages(links, pages)| == CountMissing(links, pages)
    ensures forall i :: 0 <= i < |MissingPages(links, pages)| ==> StartsWith(MissingPages(links, pages)[i], "CRITICAL: ")
    ensures forall e :: e in MissingPages(links, pages) <==> exists w :: w in links && w.page !in pages && e == SidebarMessage(w)
    ensures (forall w :: w in links ==> w.page in pages) <==> MissingPages(links, pages) == []
  {
    MissingPagesCount(links, pages);
    MissingPagesMembers(links, pages);
    var r := MissingPages(links, pages);
    forall i | 0 <= i < |r|
      ensures StartsWith(r[i], "CRITICAL: ")
    {
      assert r[i] in r;
      var w :| w in links && w.page !in pages && r[i] == SidebarMessage(w);
      SidebarMessageCritical(w);
    }
    if r != [] {
      assert r[0] in r;
    }
  }

  /**
   * validate_sidebar_links on the sidebar's text (None when the file does
   * not exist): one CRITICAL message per link to a missing page.
   */
  function SidebarErrors(sidebar: Option<string>, pages: set<string>): seq<string> {
    match sidebar
    case None => [FormatMessage(Critical, "_Sidebar.md does not exist")]
    case Some(content) => MissingPages(WikiLinks(content), pages)
  }

  method ValidateSidebarLinks(sidebar: Option<string>, pages: set<string>) returns (errors: seq<string>)
    ensures errors == SidebarErrors(sidebar, pages)
  {
    if sidebar.None? {
      return [FormatMessage(Critical, "_Sidebar.md does not exist")];
    }
    var wikiLinks := ExtractWikiLinks(sidebar.value);
    errors := ReportMissing(wikiLinks, pages);
  }

  /** The loop of validate_sidebar_links over the links read. */
  method ReportMissing(wikiLinks: seq<WikiRef>, pages: set<string>) returns (errors: seq<string>)
    ensures errors == MissingPages(wikiLinks, pages)
  {
    errors := [];
    for k := 0 to |wikiLinks|
      invariant errors + MissingPages(wikiLinks[k..], pages) == MissingPages(wikiLinks, pages)
    {
      assert wikiLinks[k..][1..] == wikiLinks[k + 1..];
      var link := wikiLinks[k];
      var step := if link.page in pages then [] else [SidebarMessage(link)];
      assert MissingPages(wikiLinks[k..], pages) == step + MissingPages(wikiLinks[k + 1..], pages);
      errors := errors + step;
    }
  }
}
