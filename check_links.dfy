/**
 * The Markdown link checker: every link of a page is routed by its scheme
 * (skipped, checked remotely, checked against the page's own headings, or
 * checked as a local path), and a failed check becomes an issue.  Anchors
 * are compared with GitHub-style heading slugs, numbered per repeated
 * heading, and the slug table of each page is computed once and cached.
 */
module CheckLinks {
  import opened Strings
  import opened LinkExtract
  import FixLinkText

  // ---- _slugify ----

  /** `re.sub(r"[\s]+", "-", s)`: each maximal run of whitespace becomes one `-`. */
  function CollapseSpace(s: string): string
    decreases |s|
  {
    if s == [] then []
    else if IsSpace(s[0]) then "-" + CollapseSpace(s[SkipSpace(s, 1)..])
    else [s[0]] + CollapseSpace(s[1..])
  }

  predicate IsSlugChar(c: char) { 'a' <= c <= 'z' || IsDigit(c) || c == '-' }

  /** `re.sub(r"[^a-z0-9\-]", "", s)`. */
  function KeepSlugChars(s: string): string {
    if s == [] then []
    else if IsSlugChar(s[0]) then [s[0]] + KeepSlugChars(s[1..])
    else KeepSlugChars(s[1..])
  }

  /** The first position at or after `i` that does not hold `-`, or the length. */
  function DashStart(s: string, i: nat): (r: nat)
    requires i <= |s|
    ensures i <= r <= |s|
    ensures r < |s| ==> s[r] != '-'
    decreases |s| - i
  {
    if i < |s| && s[i] == '-' then DashStart(s, i + 1) else i
  }

  /** The end of `s[..e]` once trailing `-` are dropped. */
  function DashEnd(s: string, e: nat): (r: nat)
    requires e <= |s|
    ensures r <= e
    ensures r > 0 ==> s[r - 1] != '-'
  {
    if e > 0 && s[e - 1] == '-' then DashEnd(s, e - 1) else e
  }

  /** `s.strip("-")`. */
  function StripDashes(s: string): string {
    var a := DashStart(s, 0);
    var b := DashEnd(s, |s|);
    if b <= a then [] else s[a..b]
  }

  /** _slugify: strip, lower-case, whitespace runs to `-`, drop other characters, trim `-`. */
  function Slugify(text: string): string {
    StripDashes(KeepSlugChars(CollapseSpace(Lower(Strip(text)))))
  }

  /** Only slug characters survive the filter. */
  lemma {:induction false} KeptAreSlugChars(s: string)
    ensures forall i :: 0 <= i < |KeepSlugChars(s)| ==> IsSlugChar(KeepSlugChars(s)[i])
  {
    if s != [] {
      KeptAreSlugChars(s[1..]);
    }
  }

  /** A slug holds only `[a-z0-9-]` and neither starts nor ends with `-`. */
  lemma SlugShape(text: string)
    ensures forall i :: 0 <= i < |Slugify(text)| ==> IsSlugChar(Slugify(text)[i])
    ensures Slugify(text) != [] ==> Slugify(text)[0] != '-' && Slugify(text)[|Slugify(text)| - 1] != '-'
  {
    var kept := KeepSlugChars(CollapseSpace(Lower(Strip(text))));
    KeptAreSlugChars(CollapseSpace(Lower(Strip(text))));
    var a := DashStart(kept, 0);
    var b := DashEnd(kept, |kept|);
    if a < b {
      assert forall i :: 0 <= i < b - a ==> kept[a..b][i] == kept[a + i];
    }
  }

  /** Text ending in a non-blank character is collapsed on its own: runs do not reach across the join. */
  lemma {:induction false} CollapseAppend(a: string, b: string)
    requires a == [] || !IsSpace(a[|a| - 1])
    ensures CollapseSpace(a + b) == CollapseSpace(a) + CollapseSpace(b)
    decreases |a|
  {
    if a != [] {
      var ab := a + b;
      assert ab[0] == a[0];
      if IsSpace(a[0]) {
        var k := SkipSpace(a, 1);
        SkipSpaceWithin(a, b, 1);
        assert ab[k..] == a[k..] + b;
        assert a[k..][|a[k..]| - 1] == a[|a| - 1];
        CollapseAppend(a[k..], b);
        assert CollapseSpace(ab) == "-" + CollapseSpace(ab[k..]);
        AppendAssoc("-", CollapseSpace(a[k..]), CollapseSpace(b));
      } else {
        assert ab[1..] == a[1..] + b;
        assert a[1..] != [] ==> a[1..][|a[1..]| - 1] == a[|a| - 1];
        CollapseAppend(a[1..], b);
        assert CollapseSpace(ab) == [a[0]] + CollapseSpace(ab[1..]);
        AppendAssoc([a[0]], CollapseSpace(a[1..]), CollapseSpace(b));
      }
    } else {
      assert a + b == b;
    }
  }

  /** Skipping whitespace stops inside `a` when `a` ends in a non-blank character. */
  lemma {:induction false} SkipSpaceWithin(a: string, b: string, i: nat)
    requires i < |a| && !IsSpace(a[|a| - 1])
    ensures SkipSpace(a + b, i) == SkipSpace(a, i) < |a|
    decreases |a| - i
  {
    assert (a + b)[i] == a[i];
    if IsSpace(a[i]) {
      SkipSpaceWithin(a, b, i + 1);
    }
  }

  /** A whitespace run followed by a non-blank character (or the end) collapses to one `-`. */
  lemma {:induction false} CollapseRun(w: string, b: string)
    requires w != [] && IsBlank(w)
    requires b == [] || !IsSpace(b[0])
    ensures CollapseSpace(w + b) == "-" + CollapseSpace(b)
  {
    var wb := w + b;
    SkipSpaceRun(w, b, 1);
    assert wb[|w|..] == b;
  }

  lemma {:induction false} SkipSpaceRun(w: string, b: string, i: nat)
    requires i <= |w| && IsBlank(w)
    requires b == [] || !IsSpace(b[0])
    ensures SkipSpace(w + b, i) == |w|
    decreases |w| - i
  {
    if i < |w| {
      SkipSpaceRun(w, b, i + 1);
    }
  }

  /** Words separated by one whitespace run: `CollapseSpace(a + w + b)` puts a single `-` between them. */
  lemma WordsJoined(a: string, w: string, b: string)
    requires a == [] || !IsSpace(a[|a| - 1])
    requires w != [] && IsBlank(w)
    requires b == [] || !IsSpace(b[0])
    ensures CollapseSpace(a + w + b) == CollapseSpace(a) + "-" + CollapseSpace(b)
  {
    CollapseAppend(a, w + b);
    CollapseRun(w, b);
    AppendAssoc(a, w, b);
  }

  lemma {:induction false} CollapseNoSpace(s: string)
    requires forall i :: 0 <= i < |s| ==> !IsSpace(s[i])
    ensures CollapseSpace(s) == s
  {
    if s != [] {
      CollapseNoSpace(s[1..]);
    }
  }

  lemma {:induction false} KeepSlug(s: string)
    requires forall i :: 0 <= i < |s| ==> IsSlugChar(s[i])
    ensures KeepSlugChars(s) == s
  {
    if s != [] {
      KeepSlug(s[1..]);
    }
  }

  lemma {:induction false} LowerOfSlug(s: string)
    requires forall i :: 0 <= i < |s| ==> IsSlugChar(s[i])
    ensures Lower(s) == s
  {
    assert forall i :: 0 <= i < |s| ==> Lower(s)[i] == s[i];
  }

  /** A slug is its own slug. */
  lemma SlugifyIdempotent(text: string)
    ensures Slugify(Slugify(text)) == Slugify(text)
  {
    var r := Slugify(text);
    SlugShape(text);
    SlugOfSlug(r);
  }

  /** Text made of slug characters, with no `-` at either end, is left as it is. */
  lemma SlugOfSlug(r: string)
    requires forall i :: 0 <= i < |r| ==> IsSlugChar(r[i])
    requires r != [] ==> r[0] != '-' && r[|r| - 1] != '-'
    ensures Slugify(r) == r
  {
    StripTrimmed(r);
    LowerOfSlug(r);
    CollapseNoSpace(r);
    KeepSlug(r);
    assert StripDashes(r) == r;
  }

  // ---- headings ----

  /** The end of the run of `#` starting at `i`: `s[i..].lstrip("#")` starts there. */
  function HashEnd(s: string, i: nat): (r: nat)
    requires i <= |s|
    ensures i <= r <= |s|
    decreases |s| - i
  {
    if i < |s| && s[i] == '#' then HashEnd(s, i + 1) else i
  }

  /** A heading line: its left-stripped form starts with `#`; the text after the `#`s, trimmed, must be non-empty. */
  function HeadingText(line: string): Option<string> {
    var stripped := LStrip(line);
    if stripped == [] || stripped[0] != '#' then None
    else
      var t := Strip(stripped[HashEnd(stripped, 0)..]);
      if t == [] then None else Some(t)
  }

  /** An indented run of `#`s followed by a body that does not start with `#` is a heading with the trimmed body as its text. */
  lemma HeadingLine(indent: string, hashes: string, body: string)
    requires IsBlank(indent)
    requires hashes != [] && forall i :: 0 <= i < |hashes| ==> hashes[i] == '#'
    requires body == [] || body[0] != '#'
    ensures HeadingText(indent + hashes + body) == (if IsBlank(body) then None else Some(Strip(body)))
  {
    var line := indent + hashes + body;
    SkipPrefix(indent, hashes + body, 0);
    assert line == indent + (hashes + body);
    var stripped := LStrip(line);
    assert stripped == hashes + body;
    HashesDropped(hashes, body, 0);
    assert stripped[|hashes|..] == body;
    StripEmpty(body);
  }

  lemma {:induction false} SkipPrefix(w: string, rest: string, i: nat)
    requires i <= |w| && IsBlank(w)
    requires rest == [] || !IsSpace(rest[0])
    ensures SkipSpace(w + rest, i) == |w|
    decreases |w| - i
  {
    if i < |w| {
      SkipPrefix(w, rest, i + 1);
    }
  }

  lemma {:induction false} HashesDropped(hashes: string, body: string, i: nat)
    requires i <= |hashes| && forall k :: 0 <= k < |hashes| ==> hashes[k] == '#'
    requires body == [] || body[0] != '#'
    ensures HashEnd(hashes + body, i) == |hashes|
    decreases |hashes| - i
  {
    if i < |hashes| {
      HashesDropped(hashes, body, i + 1);
    }
  }

  /** A line whose first non-blank character is not `#` is not a heading. */
  lemma NotHeading(line: string)
    requires forall i :: 0 <= i < |line| && line[i] == '#' ==> exists j :: 0 <= j < i && !IsSpace(line[j])
    ensures HeadingText(line) == None
  {
    var k := SkipSpace(line, 0);
    if k < |line| && line[k] == '#' {
      var j :| 0 <= j < k && !IsSpace(line[j]);
      SkipSpaceBlankPrefix(line, 0, j);
    }
  }

  lemma {:induction false} SkipSpaceBlankPrefix(s: string, i: nat, j: nat)
    requires i <= |s| && i <= j < SkipSpace(s, i)
    ensures IsSpace(s[j])
    decreases |s| - i
  {
    if i < j {
      SkipSpaceBlankPrefix(s, i + 1, j);
    }
  }

  // ---- slug numbering ----

  /** The defaultdict of occurrences and the slug table, as the loop leaves them. */
  datatype SlugState = SlugState(counts: map<string, nat>, slugs: map<string, string>)

  /** `counts[base]` of a defaultdict(int). */
  function Seen(counts: map<string, nat>, base: string): nat {
    if base in counts then counts[base] else 0
  }

  /** The slug of the heading that is occurrence number `occurrence` of `base`. */
  function SlugName(base: string, occurrence: nat): string {
    if occurrence == 0 then base else base + "-" + NatToString(occurrence)
  }

  /** A heading as the loop sees it: its base slug and its text. */
  datatype Entry = Entry(base: string, text: string)

  /** One heading through the loop body. */
  function Record(st: SlugState, e: Entry): SlugState {
    var occurrence := Seen(st.counts, e.base);
    SlugState(st.counts[e.base := occurrence + 1], st.slugs[SlugName(e.base, occurrence) := e.text])
  }

  /** The headings of the lines, in order, each with its base slug. */
  function Entries(lines: seq<string>): seq<Entry> {
    if lines == [] then []
    else
      var here: seq<Entry> := match HeadingText(lines[|lines| - 1]) case Some(t) => [Entry(Slugify(t), t)] case None => [];
      Entries(lines[..|lines| - 1]) + here
  }

  /** The loop's state after the first `n` headings. */
  function SlugsUpTo(entries: seq<Entry>, n: nat): SlugState
    requires n <= |entries|
  {
    if n == 0 then SlugState(map[], map[]) else Record(SlugsUpTo(entries, n - 1), entries[n - 1])
  }

  /** The table _get_heading_slugs builds from a file's lines. */
  function SlugTable(lines: seq<string>): map<string, string> {
    SlugsAfter(lines).slugs
  }

  /** How many of the first `n` headings have base slug `base`. */
  function Occurrences(entries: seq<Entry>, n: nat, base: string): nat
    requires n <= |entries|
  {
    if n == 0 then 0
    else Occurrences(entries, n - 1, base) + (if entries[n - 1].base == base then 1 else 0)
  }

  /** The counter for a base slug is the number of headings so far with that base. */
  lemma {:induction false} CountsAreOccurrences(entries: seq<Entry>, n: nat, base: string)
    requires n <= |entries|
    ensures Seen(SlugsUpTo(entries, n).counts, base) == Occurrences(entries, n, base)
  {
    if n > 0 {
      CountsAreOccurrences(entries, n - 1, base);
    }
  }

  /** Heading `i` is entered under its base slug, numbered by the earlier headings with that base. */
  lemma HeadingSlug(entries: seq<Entry>, i: nat)
    requires i < |entries|
    ensures var e := entries[i]; var key := SlugName(e.base, Occurrences(entries, i, e.base));
      key in SlugsUpTo(entries, i + 1).slugs && SlugsUpTo(entries, i + 1).slugs[key] == e.text
  {
    CountsAreOccurrences(entries, i, entries[i].base);
  }

  /** The first heading with a given base gets the bare base; the k-th later one gets `base-k`. */
  lemma OccurrenceNumbering(base: string, k: nat)
    ensures SlugName(base, 0) == base
    ensures k > 0 ==> SlugName(base, k) == base + "-" + NatToString(k)
  {
  }

  /** Every slug of the table names some heading, numbered by its base's earlier occurrences, and maps to its text. */
  lemma {:induction false} SlugTableKeys(entries: seq<Entry>, n: nat, key: string) returns (i: nat)
    requires n <= |entries| && key in SlugsUpTo(entries, n).slugs
    ensures i < n
    ensures key == SlugName(entries[i].base, Occurrences(entries, i, entries[i].base))
    ensures SlugsUpTo(entries, n).slugs[key] == entries[i].text
  {
    var e := entries[n - 1];
    var st := SlugsUpTo(entries, n - 1);
    CountsAreOccurrences(entries, n - 1, e.base);
    var newest := SlugName(e.base, Occurrences(entries, n - 1, e.base));
    assert SlugsUpTo(entries, n).slugs == st.slugs[newest := e.text];
    if key != newest {
      i := SlugTableKeys(entries, n - 1, key);
    } else {
      i := n - 1;
    }
  }

  /** The slug loop of _get_heading_slugs over the file's lines. */
  method HeadingSlugs(lines: seq<string>) returns (slugs: map<string, string>)
    ensures slugs == SlugTable(lines)
  {
    var counts: map<string, nat> := map[];
    slugs := map[];
    var i := 0;
    while i < |lines|
      invariant i <= |lines|
      invariant SlugState(counts, slugs) == SlugsAfter(lines[..i])
    {
      SlugsStep(lines, i);
      counts, slugs := AddLine(counts, slugs, lines[i]);
      i := i + 1;
    }
    assert lines[..|lines|] == lines;
  }

  /** The loop body for one line: a heading is passed on to be numbered. */
  method AddLine(counts: map<string, nat>, slugs: map<string, string>, line: string) returns (counts': map<string, nat>, slugs': map<string, string>)
    ensures SlugState(counts', slugs') == match HeadingText(line)
      case Some(t) => Record(SlugState(counts, slugs), Entry(Slugify(t), t))
      case None => SlugState(counts, slugs)
  {
    counts', slugs' := counts, slugs;
    var stripped := LStrip(line);
    if stripped == [] || stripped[0] != '#' {
      assert HeadingText(line) == None;
    } else {
      var headingText := Strip(stripped[HashEnd(stripped, 0)..]);
      assert HeadingText(line) == if headingText == [] then None else Some(headingText);
      if headingText != [] {
        counts', slugs' := AddHeading(counts, slugs, headingText);
      }
    }
  }

  /** A heading is numbered by the occurrences of its base so far and entered in the table. */
  method AddHeading(counts: map<string, nat>, slugs: map<string, string>, headingText: string) returns (counts': map<string, nat>, slugs': map<string, string>)
    ensures SlugState(counts', slugs') == Record(SlugState(counts, slugs), Entry(Slugify(headingText), headingText))
  {
    var baseSlug := Slugify(headingText);
    var occurrence := Seen(counts, baseSlug);
    counts' := counts[baseSlug := occurrence + 1];
    var slug := SlugName(baseSlug, occurrence);
    slugs' := slugs[slug := headingText];
  }

  /** The loop's state after the given lines. */
  function SlugsAfter(lines: seq<string>): SlugState {
    SlugsUpTo(Entries(lines), |Entries(lines)|)
  }

  /** One more line adds its heading, if it has one, to the table. */
  lemma SlugsStep(lines: seq<string>, i: nat)
    requires i < |lines|
    ensures SlugsAfter(lines[..i + 1]) == match HeadingText(lines[i])
      case Some(t) => Record(SlugsAfter(lines[..i]), Entry(Slugify(t), t))
      case None => SlugsAfter(lines[..i])
  {
    var es := Entries(lines[..i]);
    assert lines[..i + 1][..i] == lines[..i];
    assert lines[..i + 1][i] == lines[i];
    var here: seq<Entry> := match HeadingText(lines[i]) case Some(t) => [Entry(Slugify(t), t)] case None => [];
    assert Entries(lines[..i + 1]) == es + here;
    match HeadingText(lines[i])
    case Some(t) =>
      var e := Entry(Slugify(t), t);
      SlugsPrefix(es, e, |es|);
      assert (es + [e])[|es|] == e;
      assert SlugsUpTo(es + [e], |es| + 1) == Record(SlugsUpTo(es + [e], |es|), e);
    case None =>
      assert es + here == es;
  }

  /** Appending a heading does not change the state after the earlier ones. */
  lemma {:induction false} SlugsPrefix(es: seq<Entry>, e: Entry, n: nat)
    requires n <= |es|
    ensures SlugsUpTo(es + [e], n) == SlugsUpTo(es, n)
  {
    if n > 0 {
      SlugsPrefix(es, e, n - 1);
      assert (es + [e])[n - 1] == es[n - 1];
    }
  }

  // ---- anchors ----

  /** The (ok, message) pair of a check. */
  datatype Check = Check(ok: bool, message: string)

  /** _check_local_anchor, given the target's slug table (None when the target is not Markdown). */
  function AnchorCheck(anchor: string, slugs: Option<map<string, string>>): (r: Check)
    ensures r.ok <==> !IsBlank(anchor) && (slugs.None? || Strip(anchor) in slugs.value)
    ensures IsBlank(anchor) ==> r == Check(false, "Empty anchor reference")
    ensures !IsBlank(anchor) && slugs.Some? && Strip(anchor) !in slugs.value ==>
      r == Check(false, "Missing anchor '#" + Strip(anchor) + "'")
    ensures r.ok ==> r.message == []
  {
    StripEmpty(anchor);
    var a := Strip(anchor);
    if a == [] then Check(false, "Empty anchor reference")
    else if slugs.None? then Check(true, "")
    else if a in slugs.value then Check(true, "")
    else Check(false, "Missing anchor '#" + a + "'")
  }

  /** Path.suffix: the last segment's text from its last `.`, unless that dot leads or ends it. */
  function Suffix(path: string): (r: string)
    ensures r != [] ==> r[0] == '.' && |r| >= 2 && EndsWith(PathName(path), r)
    ensures r != [] ==> '.' !in r[1..]
  {
    var name := PathName(path);
    var i := LastIndexBefore(name, '.', |name|);
    if 0 < i < |name| - 1 then name[i..] else ""
  }

  /** The suffixes whose files have headings. */
  predicate IsMarkdown(path: string) {
    var s := Lower(Suffix(path));
    s == ".md" || s == ".markdown" || s == ".mdx"
  }

  // ---- dispatch ----

  /** A scheme name: a letter, then letters, digits, `+`, `-` or `.`. */
  predicate SchemeName(s: string) {
    s != [] && IsLetter(s[0]) && forall k :: 0 <= k < |s| ==> FixLinkText.SchemeChar(s[k])
  }

  /** A scheme name followed by `:` is read back lower-cased. */
  lemma SchemeOf(name: string, rest: string)
    requires SchemeName(name)
    ensures FixLinkText.UrlScheme(name + ":" + rest) == Lower(name)
  {
    var href := name + ":" + rest;
    assert forall k :: 0 <= k < |name| ==> href[k] == name[k] && href[k] != ':';
    IndexFirst(href, ':', 0, |name|);
    assert href[..|name|] == name;
  }

  /** Where process_file sends a link. */
  datatype Route = Skip | Remote | SameFile(anchor: string) | LocalPath

  function RouteOf(href: string): (r: Route)
    ensures r == Skip <==> FixLinkText.UrlScheme(href) == "mailto" || FixLinkText.UrlScheme(href) == "tel"
    ensures r == Remote <==> FixLinkText.UrlScheme(href) == "http" || FixLinkText.UrlScheme(href) == "https"
    ensures r.SameFile? <==> FixLinkText.UrlScheme(href) !in {"mailto", "tel", "http", "https"} && StartsWith(href, "#")
    ensures r.SameFile? ==> href == "#" + r.anchor
  {
    var scheme := FixLinkText.UrlScheme(href);
    if scheme == "mailto" || scheme == "tel" then Skip
    else if scheme == "http" || scheme == "https" then Remote
    else if StartsWith(href, "#") then
      assert href == "#" + href[1..];
      SameFile(href[1..])
    else LocalPath
  }

  /** A fragment-only link has no scheme, so it is always checked against the page itself. */
  lemma FragmentRoute(anchor: string)
    ensures RouteOf("#" + anchor) == SameFile(anchor)
  {
    var href := "#" + anchor;
    assert forall j :: 0 < j <= |href| ==> href[..j][0] == '#';
  }

  /** One reported problem. */
  datatype LinkIssue = LinkIssue(path: string, line: int, column: int, href: string, message: string)

  /**
   * The check a link gets, with the page's own slug table for fragments and
   * the remote and local-path checks supplied by the caller; None when skipped.
   */
  function Verdict(href: string, own: Option<map<string, string>>, remote: string -> Check, local: string -> Check): Option<Check> {
    match RouteOf(href)
    case Skip => None
    case Remote => Some(remote(href))
    case SameFile(anchor) => Some(AnchorCheck(anchor, own))
    case LocalPath => Some(local(href))
  }

  /** The issue one link contributes, if any. */
  function LinkIssueOf(path: string, m: LinkMatch, own: Option<map<string, string>>, remote: string -> Check, local: string -> Check): Option<LinkIssue> {
    var href := Strip(m.href);
    match Verdict(href, own, remote, local)
    case Some(c) => if c.ok then None else Some(LinkIssue(path, m.line, m.column, href, c.message))
    case None => None
  }

  /** The present results of `f` over `xs`, in order. */
  function Collect<A, B>(xs: seq<A>, f: A -> Option<B>): seq<B> {
    if xs == [] then []
    else
      var here: seq<B> := match f(xs[|xs| - 1]) case Some(y) => [y] case None => [];
      Collect(xs[..|xs| - 1], f) + here
  }

  lemma CollectStep<A, B>(xs: seq<A>, f: A -> Option<B>, i: nat)
    requires i < |xs|
    ensures Collect(xs[..i + 1], f) == Collect(xs[..i], f) + match f(xs[i]) case Some(y) => [y] case None => []
  {
    assert xs[..i + 1][..i] == xs[..i];
    assert xs[..i + 1][i] == xs[i];
  }

  lemma {:induction false} CollectCount<A, B>(xs: seq<A>, f: A -> Option<B>)
    ensures |Collect(xs, f)| <= |xs|
  {
    if xs != [] {
      CollectCount(xs[..|xs| - 1], f);
    }
  }

  lemma {:induction false} CollectHas<A, B>(xs: seq<A>, f: A -> Option<B>, i: nat)
    requires i < |xs| && f(xs[i]).Some?
    ensures f(xs[i]).value in Collect(xs, f)
  {
    var init := xs[..|xs| - 1];
    if i < |xs| - 1 {
      assert init[i] == xs[i];
      CollectHas(init, f, i);
    }
  }

  lemma {:induction false} CollectFrom<A, B>(xs: seq<A>, f: A -> Option<B>, y: B) returns (i: nat)
    requires y in Collect(xs, f)
    ensures i < |xs| && f(xs[i]) == Some(y)
  {
    var init := xs[..|xs| - 1];
    if y in Collect(init, f) {
      i := CollectFrom(init, f, y);
      assert init[i] == xs[i];
    } else {
      i := |xs| - 1;
    }
  }

  /** process_file's issue list for the links of one page. */
  function FileIssues(path: string, links: seq<LinkMatch>, own: Option<map<string, string>>, remote: string -> Check, local: string -> Check): seq<LinkIssue> {
    Collect(links, m => LinkIssueOf(path, m, own, remote, local))
  }

  /** At most one issue per link. */
  lemma FileIssuesCount(path: string, links: seq<LinkMatch>, own: Option<map<string, string>>, remote: string -> Check, local: string -> Check)
    ensures |FileIssues(path, links, own, remote, local)| <= |links|
  {
    CollectCount(links, m => LinkIssueOf(path, m, own, remote, local));
  }

  /** Each failing link's issue is reported. */
  lemma FailingLinkReported(path: string, links: seq<LinkMatch>, own: Option<map<string, string>>, remote: string -> Check, local: string -> Check, i: nat)
    requires i < |links| && LinkIssueOf(path, links[i], own, remote, local).Some?
    ensures LinkIssueOf(path, links[i], own, remote, local).value in FileIssues(path, links, own, remote, local)
  {
    CollectHas(links, m => LinkIssueOf(path, m, own, remote, local), i);
  }

  /** Each reported issue is the issue of one of the links. */
  lemma IssueHasLink(path: string, links: seq<LinkMatch>, own: Option<map<string, string>>, remote: string -> Check, local: string -> Check, issue: LinkIssue) returns (i: nat)
    requires issue in FileIssues(path, links, own, remote, local)
    ensures i < |links| && LinkIssueOf(path, links[i], own, remote, local) == Some(issue)
  {
    i := CollectFrom(links, m => LinkIssueOf(path, m, own, remote, local), issue);
  }

  /** An issue carries the stripped href, the link's position and the failed check's message. */
  lemma IssueFields(path: string, m: LinkMatch, own: Option<map<string, string>>, remote: string -> Check, local: string -> Check)
    ensures match LinkIssueOf(path, m, own, remote, local)
      case Some(issue) =>
        var v := Verdict(Strip(m.href), own, remote, local);
        RouteOf(Strip(m.href)) != Skip && v.Some? && !v.value.ok
        && issue == LinkIssue(path, m.line, m.column, Strip(m.href), v.value.message)
      case None => true
  {
  }

  // ---- the checker and its heading cache ----

  class LinkChecker {
    /** The Markdown files that exist, each as its lines. */
    const files: map<string, seq<string>>
    /** heading_cache: the slug table computed for each path looked up so far. */
    var headingCache: map<string, map<string, string>>

    /** What _get_heading_slugs computes for a Markdown path: its table, or an empty one when the file does not exist. */
    function TableOf(path: string): map<string, string> {
      if path in files then SlugTable(files[path]) else map[]
    }

    /** The table lookup that the cache makes cheap: None for a path that is not Markdown. */
    function Slugs(path: string): Option<map<string, string>> {
      if IsMarkdown(path) then Some(TableOf(path)) else None
    }

    /** Every cached table is the one the file gives. */
    ghost predicate Valid()
      reads this
    {
      CacheValid(headingCache)
    }

    ghost predicate CacheValid(cache: map<string, map<string, string>>) {
      forall p | p in cache :: cache[p] == TableOf(p)
    }

    /** Entering a path's own table keeps every cached table right. */
    lemma CacheValidAdd(cache: map<string, map<string, string>>, path: string)
      requires CacheValid(cache)
      ensures CacheValid(cache[path := TableOf(path)])
    {
    }

    /** The cache once `path` has been looked up. */
    function CachedAfter(cache: map<string, map<string, string>>, path: string): map<string, map<string, string>> {
      if !IsMarkdown(path) || path in cache then cache else cache[path := TableOf(path)]
    }

    constructor(files: map<string, seq<string>>)
      ensures this.files == files && headingCache == map[]
      ensures Valid()
    {
      this.files := files;
      headingCache := map[];
    }

    /** _get_heading_slugs: a cached table is returned as it is; otherwise it is computed and cached. */
    method GetHeadingSlugs(path: string) returns (r: Option<map<string, string>>)
      requires Valid()
      modifies this
      ensures Valid()
      ensures r == Slugs(path)
      ensures IsMarkdown(path) && path in old(headingCache) ==> r == Some(old(headingCache)[path])
      ensures headingCache == CachedAfter(old(headingCache), path)
    {
      if !IsMarkdown(path) {
        return None;
      }
      if path in headingCache {
        return Some(headingCache[path]);
      }
      var slugs: map<string, string>;
      if path !in files {
        slugs := map[];
      } else {
        slugs := HeadingSlugs(files[path]);
      }
      CacheValidAdd(headingCache, path);
      headingCache := headingCache[path := slugs];
      return Some(slugs);
    }

    /** _check_local_anchor: a blank anchor fails before any lookup. */
    method CheckLocalAnchor(target: string, anchor: string) returns (r: Check)
      requires Valid()
      modifies this
      ensures Valid()
      ensures r == AnchorCheck(anchor, Slugs(target))
      ensures headingCache == if Strip(anchor) == [] then old(headingCache) else CachedAfter(old(headingCache), target)
    {
      var a := Strip(anchor);
      if a == [] {
        return Check(false, "Empty anchor reference");
      }
      var slugs := GetHeadingSlugs(target);
      if slugs.None? {
        return Check(true, "");
      }
      if a in slugs.value {
        return Check(true, "");
      }
      return Check(false, "Missing anchor '#" + a + "'");
    }

    /** The loop body of process_file for one link. */
    method CheckLink(path: string, m: LinkMatch, remote: string -> Check, local: string -> Check) returns (issue: Option<LinkIssue>)
      requires Valid()
      modifies this
      ensures Valid()
      ensures issue == LinkIssueOf(path, m, Slugs(path), remote, local)
      ensures headingCache == old(headingCache) || headingCache == CachedAfter(old(headingCache), path)
    {
      var href := Strip(m.href);
      var c := Dispatch(path, href, remote, local);
      if c.Some? && !c.value.ok {
        issue := Some(LinkIssue(path, m.line, m.column, href, c.value.message));
      } else {
        issue := None;
      }
    }

    /**
     * The scheme dispatch of process_file: None for a skipped link, otherwise
     * the check's result.  The cache frame is the model's: the path check is
     * the pure parameter `local`, while the script's path check can also fill
     * the cache with the table of a linked page.
     */
    method Dispatch(path: string, href: string, remote: string -> Check, local: string -> Check) returns (c: Option<Check>)
      requires Valid()
      modifies this
      ensures Valid()
      ensures c == Verdict(href, Slugs(path), remote, local)
      ensures headingCache == old(headingCache) || headingCache == CachedAfter(old(headingCache), path)
    {
      var scheme := FixLinkText.UrlScheme(href);
      if scheme == "mailto" || scheme == "tel" {
        return None;
      }
      if scheme == "http" || scheme == "https" {
        return Some(remote(href));
      } else if StartsWith(href, "#") {
        var r := CheckLocalAnchor(path, href[1..]);
        return Some(r);
      } else {
        return Some(local(href));
      }
    }

    /** process_file over the page's text: one issue per failing link, in order; only the page's own cache entry can be added. */
    method ProcessFile(path: string, text: string, remote: string -> Check, local: string -> Check) returns (issues: seq<LinkIssue>)
      requires Valid()
      modifies this
      ensures Valid()
      ensures issues == FileIssues(path, Extracted(text), Slugs(path), remote, local)
      ensures headingCache == old(headingCache) || headingCache == CachedAfter(old(headingCache), path)
    {
      var links := ExtractLinks(text);
      issues := CheckLinks(path, links, remote, local);
    }

    /** The loop of process_file over the extracted links. */
    method CheckLinks(path: string, links: seq<LinkMatch>, remote: string -> Check, local: string -> Check) returns (issues: seq<LinkIssue>)
      requires Valid()
      modifies this
      ensures Valid()
      ensures issues == FileIssues(path, links, Slugs(path), remote, local)
      ensures headingCache == old(headingCache) || headingCache == CachedAfter(old(headingCache), path)
    {
      issues := [];
      var i := 0;
      while i < |links|
        invariant i <= |links| && Valid()
        invariant issues == FileIssues(path, links[..i], Slugs(path), remote, local)
        invariant headingCache == old(headingCache) || headingCache == CachedAfter(old(headingCache), path)
      {
        var issue := CheckLink(path, links[i], remote, local);
        CollectStep(links, m => LinkIssueOf(path, m, Slugs(path), remote, local), i);
        if issue.Some? {
          issues := issues + [issue.value];
        }
        i := i + 1;
      }
      assert links[..|links|] == links;
    }
  }
}
