/**
 * The link rules of the MkDocs validator: which files the navigation tree
 * names, which links break on the published site (a `docs/` prefix in a
 * page that is copied without it) and which do not follow MkDocs
 * conventions (site-absolute paths), and how an issue is printed.
 */
module MkDocsLinks {
  import opened Strings
  import opened LinkExtract

  // ---- the navigation tree ----

  /** The YAML values a navigation tree is made of; a mapping is given by its values, in order. */
  datatype Yaml = YStr(s: string) | YList(items: seq<Yaml>) | YDict(values: seq<Yaml>) | YOther

  /** The files one navigation entry names: a string, or the strings and nested lists among a mapping's values. */
  function ItemFiles(item: Yaml): set<string>
    decreases item, 1
  {
    match item
    case YStr(s) => {s}
    case YDict(values) => DictFiles(values)
    case _ => {}
  }

  function DictFiles(values: seq<Yaml>): set<string>
    decreases values, 0
  {
    if values == [] then {}
    else
      var v := values[0];
      (match v
       case YStr(s) => {s}
       case YList(items) => NavFiles(items)
       case _ => {})
      + DictFiles(values[1..])
  }

  /** The set extract_nav_files returns for a list of entries. */
  function NavFiles(nav: seq<Yaml>): set<string>
    decreases nav, 2
  {
    if nav == [] then {} else ItemFiles(nav[0]) + NavFiles(nav[1..])
  }

  /** extract_nav_files: walk the entries, adding to the accumulator and recursing into list values. */
  method ExtractNavFiles(nav: seq<Yaml>, files: set<string>) returns (r: set<string>)
    ensures r == files + NavFiles(nav)
    decreases nav, 2
  {
    r := files;
    for i := 0 to |nav|
      invariant r == files + NavFiles(nav[..i])
    {
      var item := nav[i];
      NavFilesSnoc(nav[..i], item);
      assert nav[..i + 1] == nav[..i] + [item];
      if item.YStr? {
        r := r + {item.s};
      } else if item.YDict? {
        r := DictInto(item.values, r);
      }
    }
    assert nav[..|nav|] == nav;
  }

  /** The inner loop of extract_nav_files over a mapping's values. */
  method DictInto(values: seq<Yaml>, files: set<string>) returns (r: set<string>)
    ensures r == files + DictFiles(values)
    decreases values, 1
  {
    r := files;
    for j := 0 to |values|
      invariant r == files + DictFiles(values[..j])
    {
      var v := values[j];
      DictFilesSnoc(values[..j], v);
      assert values[..j + 1] == values[..j] + [v];
      if v.YStr? {
        r := r + {v.s};
      } else if v.YList? {
        r := ExtractNavFiles(v.items, r);
      }
    }
    assert values[..|values|] == values;
  }

  lemma {:induction false} NavFilesSnoc(nav: seq<Yaml>, item: Yaml)
    ensures NavFiles(nav + [item]) == NavFiles(nav) + ItemFiles(item)
  {
    if nav == [] {
      assert [item][1..] == [];
    } else {
      assert (nav + [item])[1..] == nav[1..] + [item];
      NavFilesSnoc(nav[1..], item);
    }
  }

  lemma {:induction false} DictFilesSnoc(values: seq<Yaml>, v: Yaml)
    ensures DictFiles(values + [v]) == DictFiles(values) + DictFiles([v])
  {
    if values == [] {
      assert values + [v] == [v];
    } else {
      assert (values + [v])[1..] == values[1..] + [v];
      DictFilesSnoc(values[1..], v);
    }
  }

  /**
   * A file is named exactly when it is a string entry, a string value of a
   * mapping entry, or named inside a list value of a mapping entry; nothing
   * else contributes.
   */
  lemma {:induction false} NavFilesMember(nav: seq<Yaml>, f: string)
    ensures f in NavFiles(nav) <==> exists i :: 0 <= i < |nav| && f in ItemFiles(nav[i])
  {
    if nav != [] {
      NavFilesMember(nav[1..], f);
      if f in NavFiles(nav[1..]) {
        var i :| 0 <= i < |nav[1..]| && f in ItemFiles(nav[1..][i]);
        assert f in ItemFiles(nav[i + 1]);
      }
      forall i | 1 <= i < |nav| && f in ItemFiles(nav[i])
        ensures f in NavFiles(nav[1..])
      {
        assert nav[1..][i - 1] == nav[i];
      }
    }
  }

  lemma {:induction false} DictFilesMember(values: seq<Yaml>, f: string)
    ensures f in DictFiles(values) <==>
      exists j :: 0 <= j < |values| && (values[j] == YStr(f) || (values[j].YList? && f in NavFiles(values[j].items)))
  {
    if values != [] {
      DictFilesMember(values[1..], f);
      if f in DictFiles(values[1..]) {
        var j :| 0 <= j < |values[1..]| && (values[1..][j] == YStr(f) || (values[1..][j].YList? && f in NavFiles(values[1..][j].items)));
        assert values[j + 1] == values[1..][j];
      }
      forall j | 1 <= j < |values| && (values[j] == YStr(f) || (values[j].YList? && f in NavFiles(values[j].items)))
        ensures f in DictFiles(values[1..])
      {
        assert values[1..][j - 1] == values[j];
      }
    }
  }

  // ---- issues ----

  datatype IssueKind = DocsPrefix | AbsolutePath

  function KindName(k: IssueKind): string {
    match k
    case DocsPrefix => "docs-prefix"
    case AbsolutePath => "absolute-path"
  }

  /** ValidationIssue; the message is fixed by the kind. */
  datatype Issue = Issue(filePath: string, line: int, column: int, kind: IssueKind, href: string)

  function Message(k: IssueKind): string {
    match k
    case DocsPrefix => "Link has 'docs/' prefix which breaks on GitHub Pages. Use relative path without 'docs/' prefix."
    case AbsolutePath => "Absolute paths may not work correctly on GitHub Pages. Consider using relative paths instead."
  }

  /** Python's str() of an int. */
  function IntToString(n: int): string {
    if n < 0 then "-" + NatToString(-n) else NatToString(n)
  }

  /** ValidationIssue.__str__: `path:line:column: [type] message`. */
  function Render(issue: Issue): string {
    Located(issue.filePath, issue.line, issue.column, " [" + KindName(issue.kind) + "] " + Message(issue.kind))
  }

  function Located(filePath: string, line: int, column: int, tail: string): string {
    filePath + ":" + IntToString(line) + ":" + IntToString(column) + ":" + tail
  }

  /** The location of a rendered issue reads back: path, line and column are its first three `:` fields. */
  lemma RenderFields(issue: Issue)
    requires ':' !in issue.filePath && issue.line >= 0 && issue.column >= 0
    ensures var fs := Split(Render(issue), ':');
      && |fs| >= 4 && fs[0] == issue.filePath
      && AllDigits(fs[1]) && DigitsValue(fs[1]) == issue.line
      && AllDigits(fs[2]) && DigitsValue(fs[2]) == issue.column
  {
    LocatedFields(issue.filePath, issue.line, issue.column, " [" + KindName(issue.kind) + "] " + Message(issue.kind));
  }

  lemma LocatedFields(filePath: string, line: nat, column: nat, tail: string)
    requires ':' !in filePath
    ensures var fs := Split(Located(filePath, line, column, tail), ':');
      && |fs| >= 4 && fs[0] == filePath
      && AllDigits(fs[1]) && DigitsValue(fs[1]) == line
      && AllDigits(fs[2]) && DigitsValue(fs[2]) == column
  {
    var l := NatToString(line);
    var c := NatToString(column);
    assert Located(filePath, line, column, tail) == filePath + [':'] + (l + [':'] + (c + [':'] + tail));
    DigitsHaveNoColon(l);
    DigitsHaveNoColon(c);
    SplitAround(filePath, l + [':'] + (c + [':'] + tail), ':');
    SplitAround(l, c + [':'] + tail, ':');
    SplitAround(c, tail, ':');
    SplitCount(tail, ':');
    DigitsOfNat(line);
    DigitsOfNat(column);
  }

  lemma DigitsHaveNoColon(s: string)
    requires AllDigits(s)
    ensures forall i :: 0 <= i < |s| ==> s[i] != ':'
  {
    forall i | 0 <= i < |s| ensures s[i] != ':' {
      assert IsDigit(s[i]);
    }
  }

  /** External URLs, mail and phone links and same-page anchors, which neither check looks at. */
  predicate Exempt(href: string) {
    StartsWith(href, "http://") || StartsWith(href, "https://") || StartsWith(href, "mailto:")
    || StartsWith(href, "tel:") || StartsWith(href, "#")
  }

  /** `docs/` at `i`. */
  predicate DocsAt(s: string, i: nat) {
    i + 5 <= |s| && s[i] == 'd' && s[i + 1] == 'o' && s[i + 2] == 'c' && s[i + 3] == 's' && s[i + 4] == '/'
  }

  /** re.match(r"^\.?/?docs/", href): an optional `.`, an optional `/`, then `docs/`. */
  predicate HasDocsPrefix(href: string) {
    var i := if href != [] && href[0] == '.' then 1 else 0;
    var j := if i < |href| && href[i] == '/' then i + 1 else i;
    DocsAt(href, j)
  }

  /** The pattern matches exactly the four prefixes `docs/`, `.docs/`, `/docs/` and `./docs/`. */
  lemma HasDocsPrefixCases(href: string)
    ensures HasDocsPrefix(href) <==>
      StartsWith(href, "docs/") || StartsWith(href, ".docs/") || StartsWith(href, "/docs/") || StartsWith(href, "./docs/")
  {
    if StartsWith(href, "docs/") {
      assert href[..5] == "docs/";
      assert DocsAt(href, 0);
    }
    if StartsWith(href, ".docs/") {
      assert href[..6] == ".docs/";
      assert href[0] == '.' && DocsAt(href, 1);
    }
    if StartsWith(href, "/docs/") {
      assert href[..6] == "/docs/";
      assert href[0] == '/' && DocsAt(href, 1);
    }
    if StartsWith(href, "./docs/") {
      assert href[..7] == "./docs/";
      assert href[0] == '.' && href[1] == '/' && DocsAt(href, 2);
    }
    if HasDocsPrefix(href) {
      var i := if href != [] && href[0] == '.' then 1 else 0;
      var j := if i < |href| && href[i] == '/' then i + 1 else i;
      assert href[j..j + 5] == "docs/";
      assert href[..j + 5] == href[..j] + "docs/";
      if j == 0 {
        assert StartsWith(href, "docs/");
      } else if j == 2 {
        assert href[..2] == "./";
        assert StartsWith(href, "./docs/");
      } else if i == 1 {
        assert href[..1] == ".";
        assert StartsWith(href, ".docs/");
      } else {
        assert href[..1] == "/";
        assert StartsWith(href, "/docs/");
      }
    }
  }

  /** The files whose links are rewritten at build time when no set is given. */
  function DefaultTransformed(): set<string> {
    {"README.md", "CHANGELOG.md"}
  }

  /**
   * check_github_pages_compatibility: in a page under the docs directory, a
   * link with a `docs/` prefix is an issue, unless the link is exempt or the
   * file is one whose links are rewritten at build time.
   */
  function PagesCompatibility(filePath: string, link: LinkMatch, isInDocs: bool, transformed: Option<set<string>>): Option<Issue>
  {
    var href := Strip(link.href);
    if Exempt(href) then None
    else
      var names := if transformed.Some? then transformed.value else DefaultTransformed();
      if PathName(filePath) in names then None
      else if isInDocs && HasDocsPrefix(href) then
        Some(Issue(filePath, link.line, link.column, DocsPrefix, href))
      else None
  }

  /** check_mkdocs_link_format: a non-exempt link starting with `/` but not `//` is an issue. */
  function LinkFormat(filePath: string, link: LinkMatch): Option<Issue>
  {
    var href := Strip(link.href);
    if Exempt(href) then None
    else if StartsWith(href, "/") && !StartsWith(href, "//") then
      Some(Issue(filePath, link.line, link.column, AbsolutePath, href))
    else None
  }

  /** Without a given set, README.md and CHANGELOG.md never get a docs-prefix issue. */
  lemma TransformedFilesExempt(filePath: string, link: LinkMatch, isInDocs: bool)
    requires PathName(filePath) == "README.md" || PathName(filePath) == "CHANGELOG.md"
    ensures PagesCompatibility(filePath, link, isInDocs, None) == None
  {
  }

  /** Pages outside the docs directory never get a docs-prefix issue. */
  lemma OutsideDocsExempt(filePath: string, link: LinkMatch, transformed: Option<set<string>>)
    ensures PagesCompatibility(filePath, link, false, transformed) == None
  {
  }

  /**
   * A docs-prefix issue is reported exactly for a page in the docs directory,
   * not among the rewritten files, whose stripped link starts with one of the
   * four `docs/` prefixes; none of those is an exempt link.
   */
  lemma DocsPrefixIssue(filePath: string, link: LinkMatch, isInDocs: bool, transformed: Option<set<string>>)
    ensures var h := Strip(link.href);
      var names := if transformed.Some? then transformed.value else DefaultTransformed();
      PagesCompatibility(filePath, link, isInDocs, transformed).Some? <==>
        isInDocs && PathName(filePath) !in names
        && (StartsWith(h, "docs/") || StartsWith(h, ".docs/") || StartsWith(h, "/docs/") || StartsWith(h, "./docs/"))
    ensures PagesCompatibility(filePath, link, isInDocs, transformed).Some? ==>
      PagesCompatibility(filePath, link, isInDocs, transformed).value == Issue(filePath, link.line, link.column, DocsPrefix, Strip(link.href))
  {
    var h := Strip(link.href);
    HasDocsPrefixCases(h);
    ExemptFirst(h);
    if HasDocsPrefix(h) {
      var j := if h != [] && h[0] == '.' then 1 else 0;
      var k := if j < |h| && h[j] == '/' then j + 1 else j;
      assert DocsAt(h, k);
      assert h[0] == '.' || h[0] == '/' || h[0] == 'd';
    }
  }

  /** An exempt link starts with `h`, `m`, `t` or `#`. */
  lemma ExemptFirst(h: string)
    ensures Exempt(h) ==> h != [] && (h[0] == 'h' || h[0] == 'm' || h[0] == 't' || h[0] == '#')
  {
    if Exempt(h) {
      assert h[..1] == [h[0]];
    }
  }

  /** An absolute-path issue is reported exactly for a stripped link starting with one `/` but not two. */
  lemma AbsolutePathIssue(filePath: string, link: LinkMatch)
    ensures var h := Strip(link.href);
      LinkFormat(filePath, link).Some? <==> StartsWith(h, "/") && !StartsWith(h, "//")
    ensures LinkFormat(filePath, link).Some? ==>
      LinkFormat(filePath, link).value == Issue(filePath, link.line, link.column, AbsolutePath, Strip(link.href))
  {
    var h := Strip(link.href);
    ExemptFirst(h);
    if StartsWith(h, "/") {
      assert h[0] == '/';
    }
  }

  function OptionList(o: Option<Issue>): seq<Issue> {
    if o.Some? then [o.value] else []
  }

  /** The issues of one link: the compatibility issue (when enabled) before the format issue. */
  function LinkIssuesOf(filePath: string, link: LinkMatch, isInDocs: bool, compat: bool): seq<Issue> {
    (if compat then OptionList(PagesCompatibility(filePath, link, isInDocs, None)) else [])
    + OptionList(LinkFormat(filePath, link))
  }

  /** What `issuesOf` gives the links from the `k`-th on, link by link. */
  function IssuesFrom(links: seq<LinkMatch>, k: nat, issuesOf: LinkMatch -> seq<Issue>): seq<Issue>
    requires k <= |links|
    decreases |links| - k
  {
    if k == |links| then [] else issuesOf(links[k]) + IssuesFrom(links, k + 1, issuesOf)
  }

  /** The issues of a file's links. */
  function FileIssues(filePath: string, links: seq<LinkMatch>, isInDocs: bool, compat: bool): seq<Issue> {
    IssuesFrom(links, 0, l => LinkIssuesOf(filePath, l, isInDocs, compat))
  }

  /** The link loop of validate_markdown_file. */
  method ValidateLinks(filePath: string, links: seq<LinkMatch>, isInDocs: bool, compat: bool) returns (issues: seq<Issue>)
    ensures issues == FileIssues(filePath, links, isInDocs, compat)
  {
    ghost var issuesOf := l => LinkIssuesOf(filePath, l, isInDocs, compat);
    issues := [];
    var k := 0;
    while k < |links|
      invariant k <= |links|
      invariant issues + IssuesFrom(links, k, issuesOf) == IssuesFrom(links, 0, issuesOf)
    {
      IssuesStep(links, k, issuesOf, issues);
      assert issuesOf(links[k]) == LinkIssuesOf(filePath, links[k], isInDocs, compat);
      issues := CheckLink(filePath, links[k], isInDocs, compat, issues);
      k := k + 1;
    }
  }

  /** One more link's issues moved from what is left to what is collected. */
  lemma IssuesStep(links: seq<LinkMatch>, k: nat, issuesOf: LinkMatch -> seq<Issue>, issues: seq<Issue>)
    requires k < |links|
    ensures issues + IssuesFrom(links, k, issuesOf) == (issues + issuesOf(links[k])) + IssuesFrom(links, k + 1, issuesOf)
  {
    AppendAssoc(issues, issuesOf(links[k]), IssuesFrom(links, k + 1, issuesOf));
  }

  /** The loop body: append the compatibility issue (when enabled), then the format issue. */
  method CheckLink(filePath: string, link: LinkMatch, isInDocs: bool, compat: bool, issues: seq<Issue>) returns (r: seq<Issue>)
    ensures r == issues + LinkIssuesOf(filePath, link, isInDocs, compat)
  {
    r := issues;
    if compat {
      var issue := PagesCompatibility(filePath, link, isInDocs, None);
      if issue.Some? {
        r := r + [issue.value];
      }
    }
    var issue := LinkFormat(filePath, link);
    if issue.Some? {
      r := r + [issue.value];
    }
  }

  /** One link adds at most two issues, at its own line and column, and none when it is exempt. */
  lemma LinkIssuesShape(filePath: string, link: LinkMatch, isInDocs: bool, compat: bool)
    ensures |LinkIssuesOf(filePath, link, isInDocs, compat)| <= 2
    ensures Exempt(Strip(link.href)) ==> LinkIssuesOf(filePath, link, isInDocs, compat) == []
    ensures forall i :: 0 <= i < |LinkIssuesOf(filePath, link, isInDocs, compat)| ==>
      LinkIssuesOf(filePath, link, isInDocs, compat)[i].line == link.line
      && LinkIssuesOf(filePath, link, isInDocs, compat)[i].column == link.column
  {
  }

  /** Every issue sits at the line and column of one of the links from the `k`-th on. */
  ghost predicate LocatedIn(issues: seq<Issue>, links: seq<LinkMatch>, k: nat) {
    forall i :: 0 <= i < |issues| ==>
      exists j :: k <= j < |links| && issues[i].line == links[j].line && issues[i].column == links[j].column
  }

  /**
   * Each link adds at most two issues, reported at its own line and
   * column; a file whose links are all exempt gets none.
   */
  lemma IssuesShape(filePath: string, links: seq<LinkMatch>, isInDocs: bool, compat: bool)
    ensures |FileIssues(filePath, links, isInDocs, compat)| <= 2 * |links|
    ensures (forall j :: 0 <= j < |links| ==> Exempt(Strip(links[j].href))) ==> FileIssues(filePath, links, isInDocs, compat) == []
    ensures LocatedIn(FileIssues(filePath, links, isInDocs, compat), links, 0)
  {
    var issuesOf: LinkMatch -> seq<Issue> := l => LinkIssuesOf(filePath, l, isInDocs, compat);
    forall l: LinkMatch ensures |issuesOf(l)| <= 2 && (Exempt(Strip(l.href)) ==> issuesOf(l) == []) &&
      forall i :: 0 <= i < |issuesOf(l)| ==> issuesOf(l)[i].line == l.line && issuesOf(l)[i].column == l.column
    {
      LinkIssuesShape(filePath, l, isInDocs, compat);
    }
    IssuesCount(links, 0, issuesOf);
    ghost var exempt: LinkMatch -> bool := (l: LinkMatch) => Exempt(Strip(l.href));
    IssuesExempt(links, 0, issuesOf, exempt);
    assert (forall j :: 0 <= j < |links| ==> Exempt(Strip(links[j].href))) ==> forall j :: 0 <= j < |links| ==> exempt(links[j]);
    IssuesLocated(links, 0, issuesOf);
  }

  lemma {:induction false} IssuesCount(links: seq<LinkMatch>, k: nat, issuesOf: LinkMatch -> seq<Issue>)
    requires k <= |links| && forall l :: |issuesOf(l)| <= 2
    ensures |IssuesFrom(links, k, issuesOf)| <= 2 * (|links| - k)
    decreases |links| - k
  {
    if k < |links| {
      IssuesCount(links, k + 1, issuesOf);
    }
  }

  lemma {:induction false} IssuesExempt(links: seq<LinkMatch>, k: nat, issuesOf: LinkMatch -> seq<Issue>, exempt: LinkMatch -> bool)
    requires k <= |links| && forall l :: exempt(l) ==> issuesOf(l) == []
    ensures (forall j :: k <= j < |links| ==> exempt(links[j])) ==> IssuesFrom(links, k, issuesOf) == []
    decreases |links| - k
  {
    if k < |links| {
      IssuesExempt(links, k + 1, issuesOf, exempt);
    }
  }

  lemma {:induction false} IssuesLocated(links: seq<LinkMatch>, k: nat, issuesOf: LinkMatch -> seq<Issue>)
    requires k <= |links|
    requires forall l, i :: 0 <= i < |issuesOf(l)| ==> issuesOf(l)[i].line == l.line && issuesOf(l)[i].column == l.column
    ensures LocatedIn(IssuesFrom(links, k, issuesOf), links, k)
    decreases |links| - k
  {
    if k < |links| {
      IssuesLocated(links, k + 1, issuesOf);
      LocatedConcat(issuesOf(links[k]), IssuesFrom(links, k + 1, issuesOf), links, k);
    }
  }

  lemma LocatedConcat(here: seq<Issue>, rest: seq<Issue>, links: seq<LinkMatch>, k: nat)
    requires k < |links|
    requires forall i :: 0 <= i < |here| ==> here[i].line == links[k].line && here[i].column == links[k].column
    requires LocatedIn(rest, links, k + 1)
    ensures LocatedIn(here + rest, links, k)
  {
    var all := here + rest;
    forall i | 0 <= i < |all|
      ensures exists j :: k <= j < |links| && all[i].line == links[j].line && all[i].column == links[j].column
    {
      if i < |here| {
        assert all[i] == here[i];
        assert k <= k < |links| && all[i].line == links[k].line && all[i].column == links[k].column;
      } else {
        var x := rest[i - |here|];
        assert all[i] == x;
        var j :| k + 1 <= j < |links| && x.line == links[j].line && x.column == links[j].column;
        assert k <= j < |links| && all[i].line == links[j].line && all[i].column == links[j].column;
      }
    }
    assert forall i :: 0 <= i < |all| ==>
      exists j :: k <= j < |links| && all[i].line == links[j].line && all[i].column == links[j].column;
  }

  /** A link that gets both issues gets the docs-prefix one first. */
  lemma BothIssuesOrdered(filePath: string, link: LinkMatch, isInDocs: bool)
    requires PagesCompatibility(filePath, link, isInDocs, None).Some? && LinkFormat(filePath, link).Some?
    ensures LinkIssuesOf(filePath, link, isInDocs, true) ==
      [PagesCompatibility(filePath, link, isInDocs, None).value, LinkFormat(filePath, link).value]
    ensures LinkIssuesOf(filePath, link, isInDocs, true)[0].kind == DocsPrefix
    ensures LinkIssuesOf(filePath, link, isInDocs, true)[1].kind == AbsolutePath
  {
  }
}
