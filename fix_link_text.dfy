/**
 * The link-text fixer: which links it looks at, when link text counts as
 * human-readable, how a readable label is made from an anchor or a file
 * name, how a link is rewritten around a new label, and how the rewrites
 * are spliced into the document.
 */
module FixLinkText {
  import opened Strings
  import opened Edits
  import opened LinkExtract
  import LinkScan
  import CodeRanges

  // ---- the parts of urlparse the fixer reads ----

  /** A character urllib accepts in a scheme name. */
  predicate SchemeChar(c: char) { IsLetter(c) || IsDigit(c) || c == '+' || c == '-' || c == '.' }

  /** The index of the `:` that ends the href's scheme, or -1 when the href has no scheme. */
  function SchemeColon(href: string): (r: int)
    ensures r == -1 || (0 < r < |href| && href[r] == ':' && IsLetter(href[0]))
  {
    var i := IndexOfFrom(href, ':', 0);
    if i > 0 && IsLetter(href[0]) && forall k :: 0 <= k < i ==> SchemeChar(href[k]) then i else -1
  }

  /** urlparse(href).scheme: the scheme in lower case, or "". */
  function UrlScheme(href: string): string {
    var i := SchemeColon(href);
    if i == -1 then [] else Lower(href[..i])
  }

  /** The first `/`, `?` or `#` at or after `i`, or the length. */
  function AuthorityEnd(s: string, i: nat): (r: nat)
    requires i <= |s|
    decreases |s| - i
    ensures i <= r <= |s|
    ensures forall k :: i <= k < r ==> s[k] != '/' && s[k] != '?' && s[k] != '#'
  {
    if i == |s| || s[i] == '/' || s[i] == '?' || s[i] == '#' then i else AuthorityEnd(s, i + 1)
  }

  /** urlparse(href).netloc: after the scheme, the text between a leading `//` and the next `/`, `?` or `#`. */
  function UrlNetloc(href: string): string {
    var i := SchemeColon(href);
    var rest := if i == -1 then href else href[i + 1..];
    if StartsWith(rest, "//") then rest[2..AuthorityEnd(rest, 2)] else []
  }

  /** should_check: web links, scheme-less links and in-page anchors are checked; other schemes are not. */
  predicate ShouldCheck(href: string) {
    UrlScheme(href) in {"http", "https", ""} || StartsWith(href, "#")
  }

  // ---- is_human_readable ----

  predicate HasLetter(s: string) { exists i :: 0 <= i < |s| && IsLetter(s[i]) }

  /**
   * is_human_readable: the stripped text is not empty, is not itself a web
   * address, differs from the stripped href ignoring case, has an ASCII
   * letter and differs from the href's host.
   */
  predicate IsHumanReadable(text: string, href: string) {
    var stripped := Strip(text);
    var lowered := Lower(stripped);
    var domain := Lower(UrlNetloc(href));
    && stripped != []
    && !StartsWith(lowered, "http://") && !StartsWith(lowered, "https://")
    && lowered != Lower(Strip(href))
    && HasLetter(stripped)
    && !(domain != [] && lowered == domain)
  }

  /** Text that is only the href again, up to case and surrounding whitespace, is never readable. */
  lemma HrefAsTextNotReadable(text: string, href: string)
    requires Lower(Strip(text)) == Lower(Strip(href))
    ensures !IsHumanReadable(text, href)
  {
  }

  /** Readable text has something besides whitespace, and an ASCII letter. */
  lemma ReadableHasLetter(text: string, href: string)
    requires IsHumanReadable(text, href)
    ensures !IsBlank(text) && HasLetter(Strip(text))
  {
    StripEmpty(text);
  }

  /** Text that is itself a web address, in any case, is not readable. */
  lemma WebAddressNotReadable(text: string, href: string)
    requires StartsWith(Lower(Strip(text)), "http://") || StartsWith(Lower(Strip(text)), "https://")
    ensures !IsHumanReadable(text, href)
  {
  }

  /** Text naming the href's host, in any case, is not readable. */
  lemma HostAsTextNotReadable(text: string, href: string)
    requires UrlNetloc(href) != [] && Lower(Strip(text)) == Lower(UrlNetloc(href))
    ensures !IsHumanReadable(text, href)
  {
  }

  // ---- title case ----

  /** str.title() on one position: a letter after a letter is lowered, any other letter is raised. */
  function TitleChar(s: string, i: nat): char
    requires i < |s|
  {
    if IsLetter(s[i]) then (if i > 0 && IsLetter(s[i - 1]) then LowerChar(s[i]) else UpperChar(s[i]))
    else s[i]
  }

  /** Python's str.title() on ASCII. */
  function Title(s: string): (r: string)
    ensures |r| == |s|
  {
    seq(|s|, i requires 0 <= i < |s| => TitleChar(s, i))
  }

  /** Every word starts with a capital and continues in lower case. */
  ghost predicate Titled(s: string) {
    forall i :: 0 <= i < |s| && IsLetter(s[i]) ==>
      if i > 0 && IsLetter(s[i - 1]) then 'a' <= s[i] <= 'z' else 'A' <= s[i] <= 'Z'
  }

  lemma TitleAt(s: string, i: nat)
    requires i < |s|
    ensures Title(s)[i] == TitleChar(s, i)
  {
  }

  /** Title case keeps letters letters and leaves every other character as it was. */
  lemma TitleKeepsKinds(s: string)
    ensures forall i :: 0 <= i < |s| ==> (IsLetter(Title(s)[i]) <==> IsLetter(s[i]))
    ensures forall i :: 0 <= i < |s| && !IsLetter(s[i]) ==> Title(s)[i] == s[i]
  {
  }

  /** Title case gives title-cased text, agreeing with the input ignoring case. */
  lemma TitleProperties(s: string)
    ensures Titled(Title(s))
    ensures Lower(Title(s)) == Lower(s)
  {
    var r := Title(s);
    TitleKeepsKinds(s);
    forall i | 0 <= i < |s| && IsLetter(r[i])
      ensures if i > 0 && IsLetter(r[i - 1]) then 'a' <= r[i] <= 'z' else 'A' <= r[i] <= 'Z'
    {
      TitleAt(s, i);
    }
    forall i | 0 <= i < |s| ensures Lower(r)[i] == Lower(s)[i] {
      TitleAt(s, i);
    }
  }

  /** Title-cased text is left as it is: title case is idempotent. */
  lemma TitleFixed(s: string)
    requires Titled(s)
    ensures Title(s) == s
  {
    forall i | 0 <= i < |s| ensures Title(s)[i] == s[i] {
      TitleAt(s, i);
    }
  }

  // ---- humanize_anchor and humanize_file_name ----

  /** `.replace("-", " ").replace("_", " ")` */
  function Dashless(s: string): (r: string)
    ensures |r| == |s|
    ensures forall i :: 0 <= i < |s| ==> r[i] == (if s[i] == '-' || s[i] == '_' then ' ' else s[i])
  {
    seq(|s|, i requires 0 <= i < |s| => if s[i] == '-' || s[i] == '_' then ' ' else s[i])
  }

  /** No whitespace character but the plain space, never two in a row. */
  ghost predicate SingleSpaced(s: string) {
    forall i :: 0 <= i < |s| && IsSpace(s[i]) ==> s[i] == ' ' && (i + 1 < |s| ==> !IsSpace(s[i + 1]))
  }

  /** The characters of `s` other than whitespace, in order. */
  function Solid(s: string): string {
    if s == [] then [] else (if IsSpace(s[0]) then [] else [s[0]]) + Solid(s[1..])
  }

  /** `re.sub(r"\s+", " ", s)`: every maximal run of whitespace becomes one space. */
  function CollapseSpace(s: string): (r: string)
    decreases |s|
    ensures SingleSpaced(r)
    ensures r == [] <==> s == []
    ensures r != [] && s != [] ==> (IsSpace(r[0]) <==> IsSpace(s[0]))
  {
    if s == [] then []
    else if IsSpace(s[0]) then
      var j := SkipSpace(s, 0);
      " " + CollapseSpace(s[j..])
    else [s[0]] + CollapseSpace(s[1..])
  }

  /** Collapsing keeps the non-whitespace characters as they were, and adds only spaces. */
  lemma {:induction false} CollapseSpaceKeeps(s: string, P: char -> bool)
    requires P(' ') && forall i :: 0 <= i < |s| ==> P(s[i])
    ensures Solid(CollapseSpace(s)) == Solid(s)
    ensures forall i :: 0 <= i < |CollapseSpace(s)| ==> P(CollapseSpace(s)[i])
    decreases |s|
  {
    if s != [] {
      if IsSpace(s[0]) {
        var j := SkipSpace(s, 0);
        SkipSpaceBlank(s, 0);
        assert s[0..j] == s[..j];
        CollapseSpaceKeeps(s[j..], P);
        SolidBlankPrefix(s, j);
        assert (" " + CollapseSpace(s[j..]))[1..] == CollapseSpace(s[j..]);
      } else {
        CollapseSpaceKeeps(s[1..], P);
        assert ([s[0]] + CollapseSpace(s[1..]))[1..] == CollapseSpace(s[1..]);
      }
    }
  }

  /** A blank stretch at the front contributes nothing to the solid characters. */
  lemma {:induction false} SolidBlankPrefix(s: string, j: nat)
    requires j <= |s| && IsBlank(s[..j])
    ensures Solid(s) == Solid(s[j..])
  {
    if j > 0 {
      assert s[1..][..j - 1] == s[1..j];
      assert IsBlank(s[1..][..j - 1]);
      SolidBlankPrefix(s[1..], j - 1);
      assert s[1..][j - 1..] == s[j..];
    }
  }

  /** The readable form of a label: title case over the dash-free, whitespace-collapsed, stripped anchor. */
  function HumanizeAnchor(anchor: string): string {
    Title(Strip(CollapseSpace(Dashless(anchor))))
  }

  predicate NotDash(c: char) { c != '-' && c != '_' }

  /** A stretch of single-spaced text is single-spaced. */
  lemma SingleSpacedSlice(s: string, a: nat, b: nat)
    requires a <= b <= |s| && SingleSpaced(s)
    ensures SingleSpaced(s[a..b])
  {
    assert forall i :: 0 <= i < b - a ==> s[a..b][i] == s[a + i];
  }

  /** Title case keeps text single-spaced and keeps its first and last characters' whitespace status. */
  lemma TitleKeepsSpacing(s: string)
    requires SingleSpaced(s)
    ensures SingleSpaced(Title(s))
    ensures forall i :: 0 <= i < |s| ==> (IsSpace(Title(s)[i]) <==> IsSpace(s[i]))
  {
    TitleKeepsKinds(s);
    forall i | 0 <= i < |s| ensures IsSpace(Title(s)[i]) <==> IsSpace(s[i]) {
      if IsLetter(s[i]) {
        assert IsLetter(Title(s)[i]);
      }
    }
  }

  /**
   * humanize_anchor gives a title-cased label with no `-` or `_`, single
   * spaces between its words, none at either end, and the anchor's other
   * characters in order up to case.
   */
  lemma HumanizeAnchorShape(anchor: string)
    ensures var r := HumanizeAnchor(anchor);
      && Titled(r) && SingleSpaced(r)
      && (forall i :: 0 <= i < |r| ==> NotDash(r[i]))
      && (r != [] ==> !IsSpace(r[0]) && !IsSpace(r[|r| - 1]))
  {
    var d := Dashless(anchor);
    var c := CollapseSpace(d);
    CollapseSpaceKeeps(d, NotDash);
    var st := Strip(c);
    StripInside(c, NotDash);
    var a, b := StripParts(c);
    SingleSpacedSlice(c, a, b);
    TitleProperties(st);
    TitleKeepsKinds(st);
    TitleKeepsSpacing(st);
    var r := Title(st);
    forall i | 0 <= i < |r| ensures NotDash(r[i]) {
      if IsLetter(st[i]) {
        assert IsLetter(r[i]);
      }
    }
  }

  /**
   * os.path.splitext(name)[0]: the name up to its last `.`, when that dot
   * follows the last `/` and something other than dots comes before it in
   * the final component; otherwise the whole name.
   */
  function Stem(name: string): (r: string)
    ensures |r| <= |name| && r == name[..|r|]
  {
    var sep := LastIndexBefore(name, '/', |name|);
    var dot := LastIndexBefore(name, '.', |name|);
    if dot > sep && exists k :: sep + 1 <= k < dot && name[k] != '.' then name[..dot] else name
  }

  /** A file name with an extension loses just its extension. */
  lemma StemDropsExtension(base: string, ext: string)
    requires forall i :: 0 <= i < |base| ==> base[i] != '/'
    requires exists k :: 0 <= k < |base| && base[k] != '.'
    requires forall i :: 0 <= i < |ext| ==> ext[i] != '.' && ext[i] != '/'
    ensures Stem(base + "." + ext) == base
  {
    var name := base + "." + ext;
    var dot := LastIndexBefore(name, '.', |name|);
    assert name[|base|] == '.';
    assert forall i :: |base| < i < |name| ==> name[i] == ext[i - |base| - 1];
    assert dot == |base|;
    assert LastIndexBefore(name, '/', |name|) == -1 by {
      assert forall i :: 0 <= i < |name| ==> name[i] != '/' by {
        assert forall i :: 0 <= i < |base| ==> name[i] == base[i];
      }
    }
    var k :| 0 <= k < |base| && base[k] != '.';
    assert name[k] == base[k];
    assert name[..dot] == base;
  }

  /** `re.sub(r"^\d+[-_]?", "", stem)`: drop a leading number and at most one `-` or `_` after it. */
  function DropNumber(stem: string): (r: string)
    ensures |r| <= |stem| && r == stem[|stem| - |r|..]
    ensures stem == [] || !IsDigit(stem[0]) ==> r == stem
  {
    if stem != [] && IsDigit(stem[0]) then
      var k := DigitsEnd(stem, 0);
      if k < |stem| && (stem[k] == '-' || stem[k] == '_') then stem[k + 1..] else stem[k..]
    else stem
  }

  /** A numbered prefix such as `01-` comes off whole, and only it. */
  lemma DropNumberPrefix(digits: string, sep: string, rest: string)
    requires digits != [] && AllDigits(digits)
    requires sep == "-" || sep == "_" || sep == ""
    requires rest != [] ==> !IsDigit(rest[0]) && (sep == "" ==> rest[0] != '-' && rest[0] != '_')
    ensures DropNumber(digits + sep + rest) == rest
  {
    var s := digits + sep + rest;
    var n := |digits|;
    assert forall i :: 0 <= i < n ==> s[i] == digits[i];
    if sep != "" {
      assert s[n] == sep[0];
    } else if rest != [] {
      assert s[n] == rest[0];
    }
    DropNumberAt(s, n);
    if sep != "" {
      assert s[n + 1..] == rest;
    } else {
      assert s[n..] == rest;
    }
  }

  /** With the leading run of digits ending at `n`, what DropNumber keeps. */
  lemma DropNumberAt(s: string, n: nat)
    requires 0 < n <= |s|
    requires forall i :: 0 <= i < n ==> IsDigit(s[i])
    requires n < |s| ==> !IsDigit(s[n])
    ensures DropNumber(s) == if n < |s| && (s[n] == '-' || s[n] == '_') then s[n + 1..] else s[n..]
  {
    DigitsEndAt(s, 0, n);
  }

  /** The readable form of a file name: its stem less any number prefix, dashes as spaces, stripped, in title case. */
  function HumanizeFileName(name: string): string {
    Title(Strip(Dashless(DropNumber(Stem(name)))))
  }

  /** humanize_file_name gives a title-cased label with no `-` or `_` and no whitespace at either end. */
  lemma HumanizeFileNameShape(name: string)
    ensures var r := HumanizeFileName(name);
      && Titled(r)
      && (forall i :: 0 <= i < |r| ==> NotDash(r[i]))
      && (r != [] ==> !IsSpace(r[0]) && !IsSpace(r[|r| - 1]))
  {
    var d := Dashless(DropNumber(Stem(name)));
    var st := Strip(d);
    StripInside(d, NotDash);
    TitleProperties(st);
    TitleKeepsKinds(st);
    var r := Title(st);
    forall i | 0 <= i < |r| ensures NotDash(r[i]) && (IsSpace(r[i]) ==> IsSpace(st[i])) {
      if IsLetter(st[i]) {
        assert IsLetter(r[i]);
      }
    }
  }

  // ---- build_replacement ----

  /**
   * The link rewritten around a new label: an inline link keeps its
   * separator and destination text, an autolink or bare URL becomes an
   * inline link to its href.  None when the stripped label is empty.
   */
  function BuildReplacement(m: LinkMatch, newText: string): (r: Option<string>)
    ensures r.None? <==> IsBlank(newText)
    ensures r.Some? ==> StartsWith(r.value, "[" + Strip(newText) + "]")
  {
    StripEmpty(newText);
    var t := Strip(newText);
    if t == [] then None
    else
      var head := "[" + t + "]";
      var r := if m.kind == Inline then head + m.separator + "(" + m.destContent + ")"
        else head + "(" + m.href + ")";
      assert r[..|head|] == head;
      Some(r)
  }

  /** No bracket, parenthesis or backslash: characters the link scanner reads past. */
  predicate Plain(c: char) { c != '[' && c != ']' && c != '(' && c != ')' && c != '\\' }

  /**
   * A rewritten link reads back as what it was built from: scanning
   * `[t]sep(dest)`, with a plain label, a blank separator and a plain
   * destination holding an href, yields exactly one inline link, spanning
   * the whole text, whose text is `t` and whose separator and destination
   * are the ones put in.
   */
  lemma RewrittenLinkScans(t: string, sep: string, dest: string)
    requires forall i :: 0 <= i < |t| ==> Plain(t[i])
    requires IsBlank(sep)
    requires forall i :: 0 <= i < |dest| ==> Plain(dest[i])
    requires LinkScan.ExtractHref(dest) != []
    ensures var r := "[" + t + "]" + sep + "(" + dest + ")";
      LinkScan.ScanInline(r, 0) == [LinkScan.InlineLink(0, |r|, t, LinkScan.ExtractHref(dest), sep, dest, r)]
  {
    var r := "[" + t + "]" + sep + "(" + dest + ")";
    var close, j := RewrittenLayout(r, t, sep, dest);
    ScanLaidOutWhole(r, close, j, t, sep, dest);
  }

  /** A text laid out as one link, `[`, plain characters, `]`, blanks, `(`, plain characters, `)`, scans as that link. */
  lemma ScanLaidOutWhole(r: string, close: nat, j: nat, t: string, sep: string, dest: string)
    requires 0 < close < j < |r| - 1
    requires r[0] == '[' && r[close] == ']' && r[j] == '(' && r[|r| - 1] == ')'
    requires forall k :: 1 <= k < close ==> Plain(r[k])
    requires forall k :: close < k < j ==> IsSpace(r[k])
    requires forall k :: j < k < |r| - 1 ==> Plain(r[k])
    requires r[1..close] == t && r[close + 1..j] == sep && r[j + 1..|r| - 1] == dest
    requires LinkScan.ExtractHref(dest) != []
    ensures LinkScan.ScanInline(r, 0) == [LinkScan.InlineLink(0, |r|, t, LinkScan.ExtractHref(dest), sep, dest, r)]
  {
    ScanLaidOut(r, close, j, t, sep, dest);
    ScanIsOneStep(r, LinkScan.InlineLink(0, |r|, t, LinkScan.ExtractHref(dest), sep, dest, r));
  }

  /** The scan of a text laid out as `[`, plain characters, `]`, blanks, `(`, plain characters, `)`. */
  lemma ScanLaidOut(r: string, close: nat, j: nat, t: string, sep: string, dest: string)
    requires 0 < close < j < |r| - 1
    requires r[0] == '[' && r[close] == ']' && r[j] == '(' && r[|r| - 1] == ')'
    requires forall k :: 1 <= k < close ==> Plain(r[k])
    requires forall k :: close < k < j ==> IsSpace(r[k])
    requires forall k :: j < k < |r| - 1 ==> Plain(r[k])
    requires r[1..close] == t && r[close + 1..j] == sep && r[j + 1..|r| - 1] == dest
    requires LinkScan.ExtractHref(dest) != []
    ensures LinkScan.ScanStep(r, 0) == LinkScan.Step(|r|, Some(LinkScan.InlineLink(0, |r|, t, LinkScan.ExtractHref(dest), sep, dest, r)))
  {
    var destEnd := |r| - 1;
    LaidOutClosings(r, close, j);
    var h := LinkScan.ExtractHref(dest);
    StepOneLink(r, close, j, destEnd, dest, h);
    LinkAtPieces(r, close, j, destEnd, h, t, sep, dest);
  }

  /** Where the scanner finds the closers of a text laid out as one link. */
  lemma LaidOutClosings(r: string, close: nat, j: nat)
    requires 0 < close < j < |r| - 1
    requires r[close] == ']' && r[j] == '(' && r[|r| - 1] == ')'
    requires forall k :: 1 <= k < close ==> Plain(r[k])
    requires forall k :: close < k < j ==> IsSpace(r[k])
    requires forall k :: j < k < |r| - 1 ==> Plain(r[k])
    ensures LinkScan.Closing(r, 1, 1, '[', ']') == close
    ensures SkipSpace(r, close + 1) == j
    ensures LinkScan.Closing(r, j + 1, 1, '(', ')') == |r| - 1
  {
    PlainRunCloses(r, 1, close, '[', ']');
    SkipBlankRun(r, close + 1, j);
    PlainRunCloses(r, j + 1, |r| - 1, '(', ')');
  }

  lemma LinkAtPieces(r: string, close: nat, j: nat, destEnd: nat, h: string, t: string, sep: string, dest: string)
    requires 0 < close < j < destEnd && destEnd + 1 == |r|
    requires r[1..close] == t && r[close + 1..j] == sep && r[j + 1..destEnd] == dest
    ensures LinkScan.LinkAt(r, 0, close, j, destEnd, h) == LinkScan.InlineLink(0, |r|, t, h, sep, dest, r)
  {
    assert r[0..destEnd + 1] == r;
  }

  /** Where the pieces of `[t]sep(dest)` sit. */
  lemma RewrittenLayout(r: string, t: string, sep: string, dest: string) returns (close: nat, j: nat)
    requires r == "[" + t + "]" + sep + "(" + dest + ")"
    requires forall i :: 0 <= i < |t| ==> Plain(t[i])
    requires IsBlank(sep)
    requires forall i :: 0 <= i < |dest| ==> Plain(dest[i])
    ensures 0 < close < j < |r| - 1
    ensures r[0] == '[' && r[close] == ']' && r[j] == '(' && r[|r| - 1] == ')'
    ensures forall k :: 1 <= k < close ==> Plain(r[k])
    ensures forall k :: close < k < j ==> IsSpace(r[k])
    ensures forall k :: j < k < |r| - 1 ==> Plain(r[k])
    ensures r[1..close] == t && r[close + 1..j] == sep && r[j + 1..|r| - 1] == dest
  {
    close := |t| + 1;
    j := |t| + 2 + |sep|;
    assert forall k :: 1 <= k < close ==> r[k] == t[k - 1];
    assert forall k :: close < k < j ==> r[k] == sep[k - close - 1];
    assert forall k :: j < k < |r| - 1 ==> r[k] == dest[k - j - 1];
    assert r[1..close] == t;
    assert r[close + 1..j] == sep;
    assert r[j + 1..|r| - 1] == dest;
  }

  /** At a text that is exactly one link, `[`…`]`, blanks, `(`…`)`, the scanner yields that link and moves to the end. */
  lemma StepOneLink(r: string, close: nat, j: nat, destEnd: nat, dest: string, href: string)
    requires 0 < close < j < destEnd && destEnd + 1 == |r|
    requires r[0] == '[' && LinkScan.Closing(r, 1, 1, '[', ']') == close
    requires SkipSpace(r, close + 1) == j && r[j] == '('
    requires LinkScan.Closing(r, j + 1, 1, '(', ')') == destEnd
    requires r[j + 1..destEnd] == dest && href == LinkScan.ExtractHref(dest) && href != []
    ensures LinkScan.ScanStep(r, 0) == LinkScan.Step(|r|, Some(LinkScan.LinkAt(r, 0, close, j, destEnd, href)))
  {
    StepAtOpener(r, close);
    AfterTextAtParen(r, close, j, destEnd);
  }

  lemma StepAtOpener(r: string, close: nat)
    requires 0 < close < |r| && r[0] == '[' && LinkScan.Closing(r, 1, 1, '[', ']') == close
    ensures LinkScan.ScanStep(r, 0) == LinkScan.AfterText(r, 0, close)
  {
    assert LinkScan.Closing(r, 0, 0, '[', ']') == close;
  }

  lemma AfterTextAtParen(r: string, close: nat, j: nat, destEnd: nat)
    requires 0 < close < j < destEnd < |r| && r[0] == '['
    requires SkipSpace(r, close + 1) == j && r[j] == '('
    requires LinkScan.Closing(r, j + 1, 1, '(', ')') == destEnd
    ensures LinkScan.AfterText(r, 0, close) == LinkScan.AtDestination(r, 0, close, j, destEnd)
  {
    assert LinkScan.Closing(r, j, 0, '(', ')') == destEnd;
  }

  /** A first step that yields a link and reaches the end is the whole scan. */
  lemma ScanIsOneStep(r: string, l: LinkScan.InlineLink)
    requires r != [] && LinkScan.ScanStep(r, 0) == LinkScan.Step(|r|, Some(l))
    ensures LinkScan.ScanInline(r, 0) == [l]
  {
    assert LinkScan.ScanInline(r, |r|) == [];
  }

  /** A run of plain characters is read straight through to the closer after it. */
  lemma {:induction false} PlainRunCloses(text: string, i: nat, j: nat, opener: char, closer: char)
    requires i <= j < |text| && text[j] == closer && opener != closer && closer != '\\'
    requires forall k :: i <= k < j ==> text[k] != opener && text[k] != closer && text[k] != '\\'
    ensures LinkScan.Closing(text, i, 1, opener, closer) == j
    decreases j - i
  {
    if i < j {
      PlainRunCloses(text, i + 1, j, opener, closer);
    }
  }

  lemma {:induction false} SkipBlankRun(text: string, i: nat, j: nat)
    requires i <= j < |text| && !IsSpace(text[j])
    requires forall k :: i <= k < j ==> IsSpace(text[k])
    ensures SkipSpace(text, i) == j
    decreases j - i
  {
    if i < j {
      SkipBlankRun(text, i + 1, j);
    }
  }

  /** An href without whitespace that does not open with `<` is its own destination. */
  lemma HrefIsOwnDestination(href: string)
    requires href != [] && href[0] != '<' && forall i :: 0 <= i < |href| ==> !IsSpace(href[i])
    ensures LinkScan.ExtractHref(href) == href
  {
    assert !IsSpace(href[0]) && !IsSpace(href[|href| - 1]);
    StripTrimmed(href);
    assert LinkScan.TokenEnd(href, 0) == |href|;
    assert LinkScan.FirstToken(href) == href;
  }

  /**
   * An autolink or bare URL rewritten around a plain label reads back,
   * through the inline-link scanner, as one link with that label and the
   * original href.
   */
  lemma ReplacementScans(m: LinkMatch, newText: string)
    requires m.kind != Inline
    requires forall i :: 0 <= i < |Strip(newText)| ==> Plain(Strip(newText)[i])
    requires !IsBlank(newText)
    requires m.href != [] && m.href[0] != '<'
    requires forall i :: 0 <= i < |m.href| ==> !IsSpace(m.href[i]) && Plain(m.href[i])
    ensures var r := BuildReplacement(m, newText).value;
      LinkScan.ScanInline(r, 0) == [LinkScan.InlineLink(0, |r|, Strip(newText), m.href, "", m.href, r)]
  {
    var t := Strip(newText);
    HrefIsOwnDestination(m.href);
    RewrittenLinkScans(t, "", m.href);
    ReplacementLayout(m, newText);
  }

  /** A bare or autolink rewrite is `[t](href)`, with an empty separator. */
  lemma ReplacementLayout(m: LinkMatch, newText: string)
    requires m.kind != Inline && !IsBlank(newText)
    ensures BuildReplacement(m, newText) == Some("[" + Strip(newText) + "]" + "" + "(" + m.href + ")")
  {
    var t := Strip(newText);
    assert "[" + t + "]" + "" == "[" + t + "]";
  }

  /** An inline rewrite is `[t]`, then the original separator, then the original destination text in parentheses. */
  lemma InlineReplacementLayout(m: LinkMatch, newText: string)
    requires m.kind == Inline && !IsBlank(newText)
    ensures BuildReplacement(m, newText) == Some("[" + Strip(newText) + "]" + m.separator + "(" + m.destContent + ")")
  {
  }

  /**
   * An inline link rewritten around a plain label, with a blank separator
   * and a plain destination, reads back through the inline-link scanner as
   * one link with the new label and the href of the original destination.
   */
  lemma InlineReplacementScans(m: LinkMatch, newText: string)
    requires m.kind == Inline && !IsBlank(newText)
    requires forall i :: 0 <= i < |Strip(newText)| ==> Plain(Strip(newText)[i])
    requires IsBlank(m.separator)
    requires forall i :: 0 <= i < |m.destContent| ==> Plain(m.destContent[i])
    requires LinkScan.ExtractHref(m.destContent) != []
    ensures var r := BuildReplacement(m, newText).value;
      LinkScan.ScanInline(r, 0) == [LinkScan.InlineLink(0, |r|, Strip(newText), LinkScan.ExtractHref(m.destContent), m.separator, m.destContent, r)]
  {
    InlineReplacementLayout(m, newText);
    RewrittenLinkScans(Strip(newText), m.separator, m.destContent);
  }

  // ---- apply_modifications ----

  function EditStart(e: Edit<char>): int { e.start }

  /**
   * apply_modifications: the edits sorted by start, then the gap before each
   * and its replacement in turn, then the rest of the text.
   */
  method ApplyModifications(text: string, modifications: seq<Edit<char>>) returns (r: string)
    ensures r == Interleave(text, SortBy(modifications, EditStart), 0)
  {
    var sorted := SortBy(modifications, EditStart);
    r := Rebuild(text, sorted);
  }

  /** The loop of apply_modifications over edits already in order. */
  method Rebuild(text: string, edits: seq<Edit<char>>) returns (r: string)
    ensures r == Interleave(text, edits, 0)
  {
    var out: string := [];
    var last: nat := 0;
    for k := 0 to |edits|
      invariant out + Interleave(text, edits[k..], last) == Interleave(text, edits, 0)
    {
      var e := edits[k];
      InterleaveAt(text, edits, k, last);
      var chunk := PySlice(text, last, e.start) + e.repl;
      assert out + Interleave(text, edits[k..], last) == (out + chunk) + Interleave(text, edits[k + 1..], e.end);
      out := out + chunk;
      last := e.end;
    }
    r := out + PySlice(text, last, |text|);
  }

  lemma InterleaveAt(text: string, edits: seq<Edit<char>>, k: nat, last: nat)
    requires k < |edits|
    ensures Interleave(text, edits[k..], last)
         == PySlice(text, last, edits[k].start) + edits[k].repl + Interleave(text, edits[k + 1..], edits[k].end)
  {
    assert edits[k..][1..] == edits[k + 1..];
  }

  /** With no edits the text comes back unchanged. */
  lemma NoModifications(text: string)
    ensures Interleave(text, SortBy([], EditStart), 0) == text
  {
  }

  /** Ordered, disjoint edits need no sorting, and splicing them front to back is splicing them back to front. */
  lemma DisjointModifications(text: string, modifications: seq<Edit<char>>)
    requires Chain(modifications, 0, |text|)
    ensures Interleave(text, SortBy(modifications, EditStart), 0) == SpliceBackToFront(text, modifications)
    ensures |Interleave(text, SortBy(modifications, EditStart), 0)| == |text| + Growth(modifications)
  {
    ChainSorted(modifications, 0, |text|);
    SortBySorted(modifications, EditStart);
    BackToFrontIsInterleave(text, modifications);
    InterleaveLength(text, modifications, 0);
  }

  lemma ChainSorted(edits: seq<Edit<char>>, from: nat, bound: nat)
    requires Chain(edits, from, bound)
    ensures SortedBy(edits, EditStart)
  {
    ChainOrder(edits, from, bound);
  }

  lemma {:induction false} ChainOrder(edits: seq<Edit<char>>, from: nat, bound: nat)
    requires Chain(edits, from, bound)
    ensures forall a, b :: 0 <= a < b < |edits| ==> edits[a].end <= edits[b].start
    ensures forall a :: 0 <= a < |edits| ==> edits[a].start <= edits[a].end
  {
    if edits != [] {
      ChainOrder(edits[1..], edits[0].end, bound);
      ChainBounds(edits[1..], edits[0].end, bound);
      assert forall a :: 1 <= a < |edits| ==> edits[a] == edits[1..][a - 1];
    }
  }

  // ---- the per-link decision ----

  datatype Outcome = Unchecked | Modified(edit: Edit<char>) | Reported(link: LinkMatch)

  /**
   * One turn of the loop over a file's links.  `suggest` stands for
   * suggest_text on this file, which reads the filesystem; `fix` is the
   * `--fix` flag.
   */
  function Review(m: LinkMatch, fix: bool, suggest: string -> Option<string>): Outcome {
    if !ShouldCheck(m.href) || IsHumanReadable(m.text, m.href) then Unchecked
    else if fix && suggest(m.href).Some? && suggest(m.href).value != [] && BuildReplacement(m, suggest(m.href).value).Some? then
      Modified(Edit(m.start, m.end, BuildReplacement(m, suggest(m.href).value).value))
    else Reported(m)
  }

  /** A link is flagged when it is checked and its text is not readable. */
  predicate Flagged(m: LinkMatch) { ShouldCheck(m.href) && !IsHumanReadable(m.text, m.href) }

  /** Each link: flagged ones give exactly one modification or one issue, the rest give neither. */
  lemma ReviewExclusive(m: LinkMatch, fix: bool, suggest: string -> Option<string>)
    ensures Review(m, fix, suggest).Unchecked? <==> !Flagged(m)
    ensures Review(m, fix, suggest).Modified? ==> fix && Review(m, fix, suggest).edit.start == m.start && Review(m, fix, suggest).edit.end == m.end
    ensures Review(m, fix, suggest).Reported? ==> Review(m, fix, suggest).link == m
  {
  }

  function Issues(ms: seq<LinkMatch>, fix: bool, suggest: string -> Option<string>): seq<LinkMatch> {
    if ms == [] then []
    else
      var o := Review(ms[|ms| - 1], fix, suggest);
      Issues(ms[..|ms| - 1], fix, suggest) + (if o.Reported? then [o.link] else [])
  }

  function Modifications(ms: seq<LinkMatch>, fix: bool, suggest: string -> Option<string>): seq<Edit<char>> {
    if ms == [] then []
    else
      var o := Review(ms[|ms| - 1], fix, suggest);
      Modifications(ms[..|ms| - 1], fix, suggest) + (if o.Modified? then [o.edit] else [])
  }

  function CountFlagged(ms: seq<LinkMatch>): nat {
    if ms == [] then 0 else CountFlagged(ms[..|ms| - 1]) + (if Flagged(ms[|ms| - 1]) then 1 else 0)
  }

  /**
   * Over a file: the issues and modifications together number the flagged
   * links, without `--fix` there are no modifications, and every
   * modification uses a link's span.
   */
  lemma {:induction false} ReviewCounts(ms: seq<LinkMatch>, fix: bool, suggest: string -> Option<string>)
    ensures |Issues(ms, fix, suggest)| + |Modifications(ms, fix, suggest)| == CountFlagged(ms)
    ensures !fix ==> Modifications(ms, fix, suggest) == []
    ensures forall k :: 0 <= k < |Modifications(ms, fix, suggest)| ==>
      exists j :: 0 <= j < |ms| && Modifications(ms, fix, suggest)[k].start == ms[j].start && Modifications(ms, fix, suggest)[k].end == ms[j].end
  {
    if ms != [] {
      var init := ms[..|ms| - 1];
      var m := ms[|ms| - 1];
      ReviewCounts(init, fix, suggest);
      ReviewExclusive(m, fix, suggest);
      var mods := Modifications(ms, fix, suggest);
      forall k | 0 <= k < |mods|
        ensures exists j :: 0 <= j < |ms| && mods[k].start == ms[j].start && mods[k].end == ms[j].end
      {
        if k < |Modifications(init, fix, suggest)| {
          var j :| 0 <= j < |init| && Modifications(init, fix, suggest)[k].start == init[j].start && Modifications(init, fix, suggest)[k].end == init[j].end;
          assert init[j] == ms[j];
        } else {
          assert mods[k].start == ms[|ms| - 1].start;
        }
      }
    }
  }

  /** Links in order and apart give edits in order and apart, so the rewrite is well defined. */
  lemma {:induction false} ModificationsChain(ms: seq<LinkMatch>, fix: bool, suggest: string -> Option<string>, n: nat)
    requires forall i :: 0 <= i < |ms| ==> ms[i].start <= ms[i].end <= n
    requires forall a, b :: 0 <= a < b < |ms| ==> ms[a].end <= ms[b].start
    ensures Chain(Modifications(ms, fix, suggest), 0, n)
  {
    if ms != [] {
      var init := ms[..|ms| - 1];
      var m := ms[|ms| - 1];
      var before := Modifications(init, fix, suggest);
      ModificationsChain(init, fix, suggest, m.start);
      ReviewExclusive(m, fix, suggest);
      var o := Review(m, fix, suggest);
      if o.Modified? {
        assert Modifications(ms, fix, suggest) == before + [o.edit];
        ChainSnoc(before, 0, m.start, o.edit);
        ChainWiden(before + [o.edit], 0, m.end, n);
      } else {
        assert Modifications(ms, fix, suggest) == before;
        ChainWiden(before, 0, m.start, n);
      }
    }
  }

  lemma {:induction false} ChainSnoc(edits: seq<Edit<char>>, from: nat, bound: nat, e: Edit<char>)
    requires Chain(edits, from, bound) && bound <= e.start <= e.end
    ensures Chain(edits + [e], from, e.end)
  {
    if edits != [] {
      assert (edits + [e])[1..] == edits[1..] + [e];
      ChainSnoc(edits[1..], edits[0].end, bound, e);
    }
  }

  /** The decision loop over one file's links. */
  method ReviewLinks(matches: seq<LinkMatch>, fix: bool, suggest: string -> Option<string>)
    returns (issues: seq<LinkMatch>, modifications: seq<Edit<char>>)
    ensures issues == Issues(matches, fix, suggest)
    ensures modifications == Modifications(matches, fix, suggest)
  {
    issues := [];
    modifications := [];
    for k := 0 to |matches|
      invariant issues == Issues(matches[..k], fix, suggest)
      invariant modifications == Modifications(matches[..k], fix, suggest)
    {
      var m := matches[k];
      assert matches[..k + 1][..k] == matches[..k];
      if !ShouldCheck(m.href) {
        continue;
      }
      if IsHumanReadable(m.text, m.href) {
        continue;
      }
      if fix {
        var suggestion := suggest(m.href);
        if suggestion.Some? && suggestion.value != [] {
          var replacement := BuildReplacement(m, suggestion.value);
          if replacement.Some? {
            modifications := modifications + [Edit(m.start, m.end, replacement.value)];
            continue;
          }
        }
      }
      issues := issues + [m];
    }
    assert matches[..|matches|] == matches;
  }

  /**
   * One file under `--fix`: its links are extracted, reviewed, and the
   * modifications applied; the result is the document with each rewritten
   * link spliced in place and nothing else changed.
   */
  method FixFile(text: string, suggest: string -> Option<string>) returns (fixed: string, issues: seq<LinkMatch>)
    ensures var ms := Extracted(text);
      && issues == Issues(ms, true, suggest)
      && fixed == SpliceBackToFront(text, Modifications(ms, true, suggest))
  {
    var matches := ExtractLinks(text);
    var modifications;
    issues, modifications := ReviewLinks(matches, true, suggest);
    ExtractedBounds(text);
    ModificationsChain(matches, true, suggest, |text|);
    DisjointModifications(text, modifications);
    fixed := text;
    if modifications != [] {
      fixed := ApplyModifications(text, modifications);
    }
  }

  /** A reported link lies inside the text. */
  lemma GoodEnd(text: string, skip: seq<CodeRanges.Span>, m: LinkMatch)
    requires Good(text, skip, m)
    ensures m.start <= m.end <= |text|
  {
  }

  lemma ExtractedBounds(text: string)
    ensures forall i :: 0 <= i < |Extracted(text)| ==> Extracted(text)[i].start <= Extracted(text)[i].end <= |text|
    ensures forall a, b :: 0 <= a < b < |Extracted(text)| ==> Extracted(text)[a].end <= Extracted(text)[b].start
  {
    ExtractedProperties(text);
    forall i | 0 <= i < |Extracted(text)| ensures Extracted(text)[i].start <= Extracted(text)[i].end <= |text| {
      GoodEnd(text, SkipRanges(text), Extracted(text)[i]);
    }
  }
}
