/**
 * The link conversion of the wiki sync script: relative Markdown links in a
 * documentation page become GitHub wiki links `[[Display|Page]]`, looked up
 * in a fixed table from documentation paths to wiki page names.  Links that
 * resolve outside the documentation root or have no wiki page are recorded
 * as unmapped.
 */
module SyncWiki {
  import opened Strings
  import opened CodeRanges
  import opened LinkExtract
  import Edits

  // ---- paths ----

  /** Drop a final `.md`, and nothing else. */
  function RemoveMdSuffix(path: string): string {
    if EndsWith(path, ".md") then path[..|path| - 3] else path
  }

  lemma RemoveMdSuffixCases(path: string)
    ensures EndsWith(path, ".md") ==> RemoveMdSuffix(path) + ".md" == path
    ensures !EndsWith(path, ".md") ==> RemoveMdSuffix(path) == path
  {
    if EndsWith(path, ".md") {
      assert path == path[..|path| - 3] + path[|path| - 3..];
    }
  }

  lemma RemoveMdSuffixOfAdded(stem: string)
    ensures RemoveMdSuffix(stem + ".md") == stem
  {
    assert (stem + ".md")[|stem|..] == ".md";
    assert (stem + ".md")[..|stem|] == stem;
  }

  /** The pieces of a `/`-split path that PurePosixPath keeps: neither empty nor `.`. */
  function Kept(pieces: seq<string>): (r: seq<string>)
    ensures forall k :: 0 <= k < |r| ==> r[k] != [] && r[k] != "."
    ensures forall k :: 0 <= k < |r| ==> r[k] in pieces
    ensures (forall k :: 0 <= k < |pieces| ==> pieces[k] != [] && pieces[k] != ".") ==> r == pieces
  {
    if pieces == [] then []
    else
      var rest := Kept(pieces[1..]);
      assert forall k :: 0 <= k < |rest| ==> rest[k] in pieces;
      assert pieces == [pieces[0]] + pieces[1..];
      if pieces[0] == [] || pieces[0] == "." then rest else [pieces[0]] + rest
  }

  /**
   * PurePosixPath(s).parts: `/` first for an absolute path, then the
   * segments that are neither empty nor `.`.
   */
  function PathParts(s: string): (r: seq<string>)
    ensures StartsWith(s, "/") <==> |r| > 0 && r[0] == "/"
    ensures forall k :: 0 <= k < |r| ==> r[k] != [] && r[k] != "."
    ensures forall k, i :: 0 <= k < |r| && 0 <= i < |r[k]| && (k > 0 || r[k] != "/") ==> r[k][i] != '/'
  {
    var pieces := Split(s, '/');
    var segs := Kept(pieces);
    assert forall k :: 0 <= k < |segs| ==> segs[k] in pieces;
    (if StartsWith(s, "/") then ["/"] else []) + segs
  }

  /** PurePosixPath(...).parent: the parts less the last one; the root is its own parent. */
  function Parent(parts: seq<string>): (r: seq<string>)
    ensures parts == ["/"] ==> r == parts
    ensures parts != ["/"] && parts != [] ==> r == parts[..|parts| - 1]
    ensures parts == [] ==> r == []
  {
    if parts == [] || parts == ["/"] then parts else parts[..|parts| - 1]
  }

  /** The rendered form of a relative path built from clean parts reads back as those parts. */
  lemma PathPartsOfJoined(parts: seq<string>)
    requires parts != []
    requires forall k :: 0 <= k < |parts| ==> parts[k] != [] && parts[k] != "."
    requires forall k, i :: 0 <= k < |parts| && 0 <= i < |parts[k]| ==> parts[k][i] != '/'
    ensures PathParts(Join(parts, "/")) == parts
  {
    SplitJoin(parts, '/');
    var s := Join(parts, "/");
    if StartsWith(s, "/") {
      JoinFirst(parts, "/");
      assert s[0] == parts[0][0];
    }
  }

  lemma {:induction false} JoinFirst(parts: seq<string>, sep: string)
    requires parts != [] && parts[0] != []
    ensures Join(parts, sep) != [] && Join(parts, sep)[0] == parts[0][0]
  {
  }

  /** The path a link names, seen from the directory of the page that holds it. */
  function ResolvedParts(sourceFile: string, link: string): seq<string> {
    var dir := Parent(PathParts(sourceFile));
    if dir == [] || StartsWith(link, "/") then PathParts(link) else dir + PathParts(link)
  }

  /** The normalising walk over the parts: a stack of kept parts and a count of `..` that found it empty. */
  datatype Walk = Walk(stack: seq<string>, escapes: nat)

  function StepWalk(w: Walk, part: string): Walk {
    if part == ".." then
      if w.stack != [] then Walk(w.stack[..|w.stack| - 1], w.escapes) else Walk(w.stack, w.escapes + 1)
    else if part != "." then Walk(w.stack + [part], w.escapes)
    else w
  }

  /** The walk after the first `n` parts. */
  function WalkTo(parts: seq<string>, n: nat): Walk
    requires n <= |parts|
  {
    if n == 0 then Walk([], 0) else StepWalk(WalkTo(parts, n - 1), parts[n - 1])
  }

  /** str(PurePosixPath(*parts)), or `.` for no parts. */
  function Rendered(stack: seq<string>): string {
    if stack == [] then "."
    else if stack[0] == "/" then "/" + Join(stack[1..], "/")
    else Join(stack, "/")
  }

  /** resolve_relative_path: the normalised path, or None when some `..` climbs above the root. */
  function ResolveRelative(sourceFile: string, link: string): Option<string> {
    var parts := ResolvedParts(sourceFile, link);
    var w := WalkTo(parts, |parts|);
    if w.escapes > 0 then None else Some(Rendered(w.stack))
  }

  /** Part `i` is a `..` that finds the stack empty. */
  ghost predicate EscapeAt(parts: seq<string>, i: nat) {
    i < |parts| && parts[i] == ".." && WalkTo(parts, i).stack == []
  }

  /** Some `..` escapes exactly when one arrives while the stack is empty. */
  lemma {:induction false} WalkEscapes(parts: seq<string>, n: nat)
    requires n <= |parts|
    ensures WalkTo(parts, n).escapes > 0 <==> exists i: nat :: i < n && EscapeAt(parts, i)
  {
    if n > 0 {
      WalkEscapes(parts, n - 1);
      var w := WalkTo(parts, n - 1);
      assert WalkTo(parts, n) == StepWalk(w, parts[n - 1]);
      if EscapeAt(parts, n - 1) {
        assert WalkTo(parts, n).escapes > 0;
      } else {
        assert WalkTo(parts, n).escapes == w.escapes;
        assert (exists i: nat :: i < n && EscapeAt(parts, i)) ==> exists i: nat :: i < n - 1 && EscapeAt(parts, i);
      }
    }
  }

  /** The stack holds no `.` and no `..`, and only parts of the path. */
  lemma {:induction false} WalkClean(parts: seq<string>, n: nat)
    requires n <= |parts|
    ensures forall k :: 0 <= k < |WalkTo(parts, n).stack| ==> WalkTo(parts, n).stack[k] != ".." && WalkTo(parts, n).stack[k] != "."
    ensures forall k :: 0 <= k < |WalkTo(parts, n).stack| ==> WalkTo(parts, n).stack[k] in parts[..n]
  {
    if n > 0 {
      WalkClean(parts, n - 1);
      assert parts[..n - 1] <= parts[..n];
    }
  }

  /** A path without `.` or `..` is its own normal form and never escapes. */
  lemma {:induction false} WalkPlain(parts: seq<string>, n: nat)
    requires n <= |parts|
    requires forall k :: 0 <= k < n ==> parts[k] != ".." && parts[k] != "."
    ensures WalkTo(parts, n) == Walk(parts[..n], 0)
  {
    if n > 0 {
      WalkPlain(parts, n - 1);
      assert parts[..n - 1] + [parts[n - 1]] == parts[..n];
    }
  }

  /** The walk over a prefix does not look beyond it. */
  lemma {:induction false} WalkPrefix(parts: seq<string>, more: seq<string>, n: nat)
    requires n <= |parts|
    ensures WalkTo(parts + more, n) == WalkTo(parts, n)
  {
    if n > 0 {
      WalkPrefix(parts, more, n - 1);
      assert (parts + more)[n - 1] == parts[n - 1];
    }
  }

  /** A part followed by `..` cancels out. */
  lemma WalkCancel(parts: seq<string>, x: string)
    requires x != ".." && x != "."
    ensures WalkTo(parts + [x, ".."], |parts| + 2) == WalkTo(parts, |parts|)
  {
    var ps := parts + [x, ".."];
    var n := |parts|;
    WalkPrefix(parts, [x, ".."], n);
    var w := WalkTo(parts, n);
    assert ps[n] == x && ps[n + 1] == "..";
    assert WalkTo(ps, n + 1) == StepWalk(w, x) == Walk(w.stack + [x], w.escapes);
    assert (w.stack + [x])[..|w.stack|] == w.stack;
    assert WalkTo(ps, n + 2) == StepWalk(Walk(w.stack + [x], w.escapes), "..");
  }

  /** A link is dropped as escaping exactly when a `..` of its resolved path finds nothing to cancel. */
  lemma ResolveRelativeNone(sourceFile: string, link: string)
    ensures ResolveRelative(sourceFile, link).None? <==>
      exists i: nat :: i < |ResolvedParts(sourceFile, link)| && EscapeAt(ResolvedParts(sourceFile, link), i)
  {
    var parts := ResolvedParts(sourceFile, link);
    WalkEscapes(parts, |parts|);
  }

  /** Without `..`, a relative link resolves to its parts joined onto the page's directory. */
  lemma ResolveRelativePlain(sourceFile: string, link: string)
    requires forall k :: 0 <= k < |ResolvedParts(sourceFile, link)| ==> ResolvedParts(sourceFile, link)[k] != ".."
    ensures ResolveRelative(sourceFile, link) == Some(Rendered(ResolvedParts(sourceFile, link)))
  {
    var parts := ResolvedParts(sourceFile, link);
    ResolvedPartsClean(sourceFile, link);
    WalkPlain(parts, |parts|);
    assert parts[..|parts|] == parts;
  }

  /** resolve_relative_path, normalising with an explicit stack. */
  method ResolveRelativePath(sourceFile: string, link: string) returns (r: Option<string>)
    ensures r == ResolveRelative(sourceFile, link)
  {
    var resolved := ResolvedParts(sourceFile, link);
    var parts: seq<string> := [];
    var escapeCount: nat := 0;
    for i := 0 to |resolved|
      invariant Walk(parts, escapeCount) == WalkTo(resolved, i)
    {
      parts, escapeCount := NormalizePart(parts, escapeCount, resolved[i]);
    }
    if escapeCount > 0 {
      return None;
    }
    return Some(if parts != [] then Rendered(parts) else ".");
  }

  /** One part of the walk in resolve_relative_path: `..` pops or counts an escape, `.` is skipped. */
  method NormalizePart(parts: seq<string>, escapeCount: nat, part: string) returns (parts': seq<string>, escapeCount': nat)
    ensures Walk(parts', escapeCount') == StepWalk(Walk(parts, escapeCount), part)
  {
    parts', escapeCount' := parts, escapeCount;
    if part == ".." {
      if parts != [] {
        parts' := parts[..|parts| - 1];
      } else {
        escapeCount' := escapeCount + 1;
      }
    } else if part != "." {
      parts' := parts + [part];
    }
  }

  // ---- table rows ----

  predicate SeparatorChar(c: char) { c == '|' || c == '-' || c == ':' || c == ' ' }

  /** A line that, stripped, starts with `|` and has some character besides `|`, `-`, `:` and space. */
  predicate TableRowLine(line: string) {
    var s := Strip(line);
    StartsWith(s, "|") && !(forall i :: 0 <= i < |s| ==> SeparatorChar(s[i]))
  }

  /** is_in_table_row: the line around `position`, found with rfind and find, is a table row. */
  function IsInTableRow(content: string, position: nat): bool {
    var lineStart := LastIndexBefore(content, '\n', position) + 1;
    var found := IndexOfFrom(content, '\n', position);
    var lineEnd := if found == -1 then |content| else found;
    TableRowLine(PySlice(content, lineStart, lineEnd))
  }

  /**
   * The line looked at is the newline-free stretch around `position`, from
   * just after a newline (or the start) to the next newline (or the end).
   */
  lemma IsInTableRowLine(content: string, position: nat) returns (a: nat, b: nat)
    requires position <= |content|
    ensures a <= position <= b <= |content|
    ensures a == 0 || content[a - 1] == '\n'
    ensures b == |content| || content[b] == '\n'
    ensures forall k :: a <= k < b ==> content[k] != '\n'
    ensures IsInTableRow(content, position) == TableRowLine(content[a..b])
  {
    a := LastIndexBefore(content, '\n', position) + 1;
    var found := IndexOfFrom(content, '\n', position);
    b := if found == -1 then |content| else found;
  }

  /** Positions on one line get one answer. */
  lemma IsInTableRowSameLine(content: string, p: nat, q: nat)
    requires p <= q <= |content|
    requires forall k :: p <= k < q ==> content[k] != '\n'
    ensures IsInTableRow(content, p) == IsInTableRow(content, q)
  {
    LastNewlineSame(content, p, q);
    NextNewlineSame(content, p, q);
  }

  lemma LastNewlineSame(content: string, p: nat, q: nat)
    requires p <= q <= |content|
    requires forall k :: p <= k < q ==> content[k] != '\n'
    ensures LastIndexBefore(content, '\n', p) == LastIndexBefore(content, '\n', q)
  {
    var rp := LastIndexBefore(content, '\n', p);
    var rq := LastIndexBefore(content, '\n', q);
    if rq != -1 {
      assert content[rq] == '\n';
      assert rq < p;
    }
    if rp != -1 {
      assert content[rp] == '\n' && rp < q;
    }
  }

  lemma NextNewlineSame(content: string, p: nat, q: nat)
    requires p <= q <= |content|
    requires forall k :: p <= k < q ==> content[k] != '\n'
    ensures IndexOfFrom(content, '\n', p) == IndexOfFrom(content, '\n', q)
  {
    var fp := IndexOfFrom(content, '\n', p);
    var fq := IndexOfFrom(content, '\n', q);
    if fp != -1 {
      assert content[fp] == '\n';
      assert fp >= q;
    }
    if fq != -1 {
      assert content[fq] == '\n' && fq >= p;
    }
  }

  /** A table row, as in the tests. */
  lemma TableRowExample()
    ensures TableRowLine("| [[Page]] | text |")
  {
    StripTrimmed("| [[Page]] | text |");
    assert "| [[Page]] | text |"[2] == '[';
  }

  /** An indented table row, as in the tests. */
  lemma IndentedTableRowExample()
    ensures TableRowLine("  | [[Page]] | Description |")
  {
    var indented := "  | [[Page]] | Description |";
    assert SkipSpace(indented, 2) == 2;
    assert SkipSpace(indented, 0) == 2;
    assert TrimEnd(indented, |indented|) == |indented|;
    assert Strip(indented) == indented[2..|indented|];
    assert indented[4] == '[';
    assert Strip(indented)[2] == indented[4];
  }

  /** Not table rows, as in the tests: separator rows, other lines, the empty line. */
  lemma NotTableRowExamples()
    ensures !TableRowLine("| --- | --- |")
    ensures !TableRowLine("| :---: |")
    ensures !TableRowLine("Cell1 | Cell2 |")
    ensures !TableRowLine("- [[Page]]")
    ensures !TableRowLine("")
  {
    StripTrimmed("| --- | --- |");
    StripTrimmed("| :---: |");
    StripTrimmed("Cell1 | Cell2 |");
    StripTrimmed("- [[Page]]");
  }

  // ---- wiki page names ----

  /** Documentation paths (relative to the docs directory) and their wiki pages, in table order. */
  function WikiStructure(): (r: seq<(string, string)>)
    ensures |r| == 71
  { [
    ("best-practices/README.md", "Best-Practices"),
    ("best-practices/01-lifecycle-methods.md", "Lifecycle-Methods"),
    ("best-practices/02-null-checks.md", "Null-Checks"),
    ("best-practices/03-component-access.md", "Component-Access"),
    ("best-practices/04-serialization.md", "Serialization"),
    ("best-practices/05-coroutines.md", "Coroutines"),
    ("best-practices/06-physics.md", "Physics"),
    ("best-practices/07-performance-memory.md", "Performance-and-Memory"),
    ("best-practices/08-scriptable-objects.md", "ScriptableObjects"),
    ("best-practices/09-object-pooling.md", "Object-Pooling"),
    ("best-practices/10-event-systems.md", "Event-Systems"),
    ("best-practices/11-addressables.md", "Addressables"),
    ("best-practices/12-scene-loading.md", "Scene-Loading"),
    ("best-practices/13-jobs-burst.md", "Jobs-and-Burst"),
    ("best-practices/14-async-await.md", "Async-Await"),
    ("best-practices/15-profiling.md", "Profiling"),
    ("best-practices/16-automated-testing-ci.md", "Testing-and-CI"),
    ("best-practices/17-input-architecture.md", "Input-Architecture"),
    ("best-practices/18-save-load.md", "Save-Load"),
    ("animancer/README.md", "Animancer"),
    ("animancer/01-getting-started.md", "Animancer-Getting-Started"),
    ("animancer/02-core-concepts.md", "Animancer-Core-Concepts"),
    ("animancer/03-advanced-techniques.md", "Animancer-Advanced"),
    ("animancer/04-best-practices.md", "Animancer-Best-Practices"),
    ("animancer/05-code-examples.md", "Animancer-Code-Examples"),
    ("primetween/README.md", "PrimeTween"),
    ("primetween/01-getting-started.md", "PrimeTween-Getting-Started"),
    ("primetween/02-why-primetween.md", "PrimeTween-Why"),
    ("primetween/03-api-reference.md", "PrimeTween-API"),
    ("primetween/04-common-patterns.md", "PrimeTween-Patterns"),
    ("primetween/05-anti-patterns.md", "PrimeTween-Anti-Patterns"),
    ("feel/README.md", "Feel"),
    ("feel/01-getting-started.md", "Feel-Getting-Started"),
    ("feel/02-why-feel.md", "Feel-Why"),
    ("feel/03-feedback-catalog.md", "Feel-Feedback-Catalog"),
    ("feel/04-advanced-techniques.md", "Feel-Advanced"),
    ("feel/05-troubleshooting.md", "Feel-Troubleshooting"),
    ("hot-reload/README.md", "Hot-Reload"),
    ("hot-reload/01-getting-started.md", "Hot-Reload-Getting-Started"),
    ("hot-reload/02-why-hot-reload.md", "Hot-Reload-Why"),
    ("hot-reload/03-how-to-use.md", "Hot-Reload-Usage"),
    ("hot-reload/04-troubleshooting.md", "Hot-Reload-Troubleshooting"),
    ("hot-reload/05-best-practices.md", "Hot-Reload-Best-Practices"),
    ("odin/README.md", "Odin-Inspector"),
    ("odin/01-getting-started.md", "Odin-Getting-Started"),
    ("odin/02-core-features.md", "Odin-Core-Features"),
    ("odin/03-advanced-techniques.md", "Odin-Advanced"),
    ("odin/04-common-patterns.md", "Odin-Patterns"),
    ("odin/05-best-practices.md", "Odin-Best-Practices"),
    ("assembly-definitions/README.md", "Assembly-Definitions"),
    ("assembly-definitions/01-getting-started.md", "Assembly-Definitions-Getting-Started"),
    ("assembly-definitions/02-core-concepts.md", "Assembly-Definitions-Core-Concepts"),
    ("assembly-definitions/03-advanced-techniques.md", "Assembly-Definitions-Advanced"),
    ("assembly-definitions/04-common-patterns.md", "Assembly-Definitions-Patterns"),
    ("assembly-definitions/05-best-practices.md", "Assembly-Definitions-Best-Practices"),
    ("input-system/README.md", "Input-System"),
    ("input-system/01-getting-started.md", "Input-System-Getting-Started"),
    ("input-system/02-core-concepts.md", "Input-System-Core-Concepts"),
    ("input-system/03-advanced-techniques.md", "Input-System-Advanced"),
    ("input-system/04-common-patterns.md", "Input-System-Patterns"),
    ("input-system/05-troubleshooting.md", "Input-System-Troubleshooting"),
    ("tooling/README.md", "Development-Tooling"),
    ("tooling/01-csharpier.md", "CSharpier"),
    ("tooling/02-editorconfig.md", "EditorConfig"),
    ("tooling/03-nuget-for-unity.md", "NuGet-for-Unity"),
    ("tooling/04-heap-allocation-viewer.md", "Heap-Allocation-Viewer"),
    ("dxmessaging/README.md", "DxMessaging"),
    ("graphy/README.md", "Graphy"),
    ("better-build-info/README.md", "Better-Build-Info"),
    ("asset-usage-finder/README.md", "Asset-Usage-Finder"),
    ("unity-helpers/README.md", "Unity-Helpers")
  ] }

  /** Root files and their wiki pages. */
  const RootWikiNames: map<string, string> := map["README" := "Home", "CONTRIBUTING" := "Contributing", "CHANGELOG" := "Changelog"]

  /** A resolved path without its `.md` and without one leading `docs/`. */
  function KeyStem(resolved: string): string {
    var stem := RemoveMdSuffix(resolved);
    if StartsWith(stem, "docs/") then stem[5..] else stem
  }

  /** The key looked up for a resolved path: its stem, with a trailing `/` read as its README. */
  function LookupKey(resolved: string): string {
    var key := KeyStem(resolved);
    if EndsWith(key, "/") then RStripChar(key, '/') + "/README" else key
  }

  /** Entry `k` is the first whose path, less `.md`, is the key. */
  predicate FirstMatch(entries: seq<(string, string)>, key: string, k: int) {
    && 0 <= k < |entries| && RemoveMdSuffix(entries[k].0) == key
    && (forall j :: 0 <= j < k ==> RemoveMdSuffix(entries[j].0) != key)
  }

  /** The page of the first entry whose path, less `.md`, is the key. */
  function FirstPage(entries: seq<(string, string)>, key: string): (r: Option<string>)
    ensures r.None? <==> forall k :: 0 <= k < |entries| ==> RemoveMdSuffix(entries[k].0) != key
    ensures r.Some? ==> exists k :: FirstMatch(entries, key, k) && entries[k].1 == r.value
  {
    if entries == [] then None
    else if RemoveMdSuffix(entries[0].0) == key then Some(entries[0].1)
    else
      var r := FirstPage(entries[1..], key);
      assert forall k :: 1 <= k < |entries| ==> entries[k] == entries[1..][k - 1];
      if r.Some? then
        var k :| FirstMatch(entries[1..], key, k) && entries[1..][k].1 == r.value;
        assert FirstMatch(entries, key, k + 1);
        r
      else r
  }

  /** The wiki page for a key: the table first, the root names only when no entry matches. */
  function WikiName(table: seq<(string, string)>, key: string): Option<string> {
    var page := FirstPage(table, key);
    if page.Some? then page else if key in RootWikiNames then Some(RootWikiNames[key]) else None
  }

  lemma WikiNameCases(table: seq<(string, string)>, key: string)
    ensures (exists k :: 0 <= k < |table| && RemoveMdSuffix(table[k].0) == key) ==>
      WikiName(table, key).Some? && exists k :: FirstMatch(table, key, k) && table[k].1 == WikiName(table, key).value
    ensures (forall k :: 0 <= k < |table| ==> RemoveMdSuffix(table[k].0) != key) ==>
      WikiName(table, key) == (if key in RootWikiNames then Some(RootWikiNames[key]) else None)
  {
    var page := FirstPage(table, key);
  }

  // ---- which resolved paths end in a slash ----

  /** Only the first part may hold a `/`, and then it is the root `/`; no part is empty. */
  ghost predicate RootFirst(xs: seq<string>) {
    && (forall k :: 0 <= k < |xs| ==> xs[k] != [])
    && (forall k, i :: 0 <= k < |xs| && 0 <= i < |xs[k]| && xs[k][i] == '/' ==> k == 0 && xs[k] == "/")
  }

  /** Parts as PurePosixPath keeps them: besides the root rule, none is `.`. */
  ghost predicate Clean(xs: seq<string>) {
    RootFirst(xs) && forall k :: 0 <= k < |xs| ==> xs[k] != "."
  }

  ghost predicate NoSlash(xs: seq<string>) {
    forall k, i :: 0 <= k < |xs| && 0 <= i < |xs[k]| ==> xs[k][i] != '/'
  }

  lemma PathPartsClean(s: string)
    ensures Clean(PathParts(s))
    ensures !StartsWith(s, "/") ==> NoSlash(PathParts(s))
  {
  }

  lemma CleanConcat(a: seq<string>, b: seq<string>)
    requires Clean(a) && Clean(b) && NoSlash(b)
    ensures Clean(a + b)
  {
    var r := a + b;
    assert forall k :: |a| <= k < |r| ==> r[k] == b[k - |a|];
    assert forall k :: 0 <= k < |a| ==> r[k] == a[k];
  }

  lemma ResolvedPartsClean(sourceFile: string, link: string)
    ensures Clean(ResolvedParts(sourceFile, link))
  {
    var src := PathParts(sourceFile);
    PathPartsClean(sourceFile);
    PathPartsClean(link);
    var dir := Parent(src);
    assert Clean(dir) by {
      if dir != src {
        assert forall k :: 0 <= k < |dir| ==> dir[k] == src[k];
      }
    }
    if !(dir == [] || StartsWith(link, "/")) {
      CleanConcat(dir, PathParts(link));
    }
  }

  lemma {:induction false} WalkRootFirst(parts: seq<string>, n: nat)
    requires n <= |parts| && RootFirst(parts)
    ensures RootFirst(WalkTo(parts, n).stack)
  {
    if n > 0 {
      WalkRootFirst(parts, n - 1);
      var w := WalkTo(parts, n - 1);
      var p := parts[n - 1];
      if p != ".." && p != "." {
        var st := w.stack + [p];
        assert forall k :: 0 <= k < |w.stack| ==> st[k] == w.stack[k];
        assert st[|w.stack|] == p;
        assert (exists i :: 0 <= i < |p| && p[i] == '/') ==> n - 1 == 0 && w.stack == [];
      }
    }
  }

  lemma {:induction false} JoinLast(xs: seq<string>, sep: string)
    requires xs != [] && xs[|xs| - 1] != []
    ensures Join(xs, sep) != [] && Join(xs, sep)[|Join(xs, sep)| - 1] == xs[|xs| - 1][|xs[|xs| - 1]| - 1]
  {
    if |xs| > 1 {
      JoinLast(xs[1..], sep);
      assert xs[1..][|xs| - 2] == xs[|xs| - 1];
    }
  }

  /**
   * A resolved path never ends in `/` unless it is `/`, so a link to a
   * directory (`./guide/`) is looked up without a README.
   */
  lemma OnlyRootEndsWithSlash(sourceFile: string, link: string, resolvedPath: string)
    requires ResolveRelative(sourceFile, link) == Some(resolvedPath)
    ensures EndsWith(resolvedPath, "/") ==> resolvedPath == "/"
  {
    var parts := ResolvedParts(sourceFile, link);
    ResolvedPartsClean(sourceFile, link);
    WalkRootFirst(parts, |parts|);
    var st := WalkTo(parts, |parts|).stack;
    assert resolvedPath == Rendered(st);
    if st != [] {
      if st[0] == "/" {
        var rest := st[1..];
        if rest != [] {
          assert rest[|rest| - 1] == st[|st| - 1];
          JoinLast(rest, "/");
          assert resolvedPath == "/" + Join(rest, "/");
          assert resolvedPath[|resolvedPath| - 1] != '/';
        }
      } else {
        JoinLast(st, "/");
        assert st[|st| - 1][|st[|st| - 1]| - 1] != '/';
      }
    }
  }
  /**
   * When the trailing-slash rule of the lookup key fires: for the root, and
   * for a resolved path whose last segment is the file name `.md` (but not
   * `docs/.md`, whose stem is empty).
   */
  lemma SlashRuleFires(sourceFile: string, link: string, resolvedPath: string)
    requires ResolveRelative(sourceFile, link) == Some(resolvedPath)
    ensures EndsWith(KeyStem(resolvedPath), "/") <==>
      resolvedPath == "/" || (EndsWith(resolvedPath, "/.md") && resolvedPath != "docs/.md")
  {
    OnlyRootEndsWithSlash(sourceFile, link, resolvedPath);
    KeyStemSlash(resolvedPath);
  }

  /** The same for any path that ends in `/` only when it is the root. */
  lemma KeyStemSlash(r: string)
    requires EndsWith(r, "/") ==> r == "/"
    ensures EndsWith(KeyStem(r), "/") <==> r == "/" || (EndsWith(r, "/.md") && r != "docs/.md")
  {
    var stem := RemoveMdSuffix(r);
    if EndsWith(r, ".md") {
      assert stem == r[..|r| - 3];
      if |r| >= 4 {
        assert r[|r| - 4..] == [r[|r| - 4]] + r[|r| - 3..];
      }
      assert EndsWith(stem, "/") <==> EndsWith(r, "/.md");
      if StartsWith(stem, "docs/") {
        if |stem| == 5 {
          assert stem == "docs/";
          assert r == stem + ".md";
        } else {
          assert stem[5..][|stem| - 6] == stem[|stem| - 1];
          assert r != "docs/.md";
        }
      }
    } else {
      assert stem == r;
      assert !EndsWith(r, "/.md") by {
        if |r| >= 4 { assert r[|r| - 4..][1..] == r[|r| - 3..]; }
      }
    }
  }

  /** A resolved `best-practices/.md` (the link `./.md` from a page of that section) is looked up as the section's README. */
  lemma DotMdIsSectionReadme()
    ensures LookupKey("best-practices/.md") == "best-practices/README"
  {
    var r := "best-practices/.md";
    assert r == "best-practices/" + ".md";
    assert RemoveMdSuffix(r) == "best-practices/";
    assert "best-practices/"[..5][0] != "docs/"[0];
    assert KeyStem(r) == "best-practices/";
    assert RStripChar("best-practices/", '/') == "best-practices";
  }

  // ---- converting the links of one page ----

  /** A link left unconverted: the page it is on, its href, and why. */
  datatype Unmapped = Unmapped(sourceFile: string, href: string, reason: string)

  /** What happens to one extracted link. */
  datatype Outcome = Keep | Replace(link: string) | Report(reason: string)

  predicate External(href: string) {
    StartsWith(href, "http://") || StartsWith(href, "https://") || StartsWith(href, "#") || StartsWith(href, "mailto:")
  }

  function WikiLink(display: string, separator: string, page: string, anchor: string): string {
    "[[" + display + separator + page + anchor + "]]"
  }

  function AnchorSuffix(anchor: Option<string>): string {
    if anchor.Some? && anchor.value != [] then "#" + anchor.value else ""
  }

  /** The decision convert_links takes for one link of `content`. */
  function Decide(content: string, sourceFile: string, skip: seq<Span>, m: LinkMatch, unquote: string -> string, table: seq<(string, string)>): Outcome {
    if InRanges(m.start, skip) || m.kind != Inline || External(m.href) then Keep
    else
      var split := SplitAnchor(m.href, unquote);
      if split.0 == [] then Keep
      else
        var resolved := ResolveRelative(sourceFile, split.0);
        if resolved.None? then Report("path escapes documentation root")
        else
          var name := WikiName(table, LookupKey(resolved.value));
          if name.None? then Report("no mapping found")
          else
            var display := if Strip(m.text) != [] then m.text else name.value;
            var separator := if IsInTableRow(content, m.start) then "\\|" else "|";
            Replace(WikiLink(display, separator, name.value, AnchorSuffix(split.1)))
  }

  /** Kept: code, links that are not inline, external hrefs and bare anchors. */
  lemma DecideKeep(content: string, sourceFile: string, skip: seq<Span>, m: LinkMatch, unquote: string -> string, table: seq<(string, string)>)
    ensures Decide(content, sourceFile, skip, m, unquote, table).Keep? <==>
      InRanges(m.start, skip) || m.kind != Inline || External(m.href) || SplitAnchor(m.href, unquote).0 == []
  {
  }

  /** Reported: a path that escapes the root, or one without a wiki page. */
  lemma DecideReport(content: string, sourceFile: string, skip: seq<Span>, m: LinkMatch, unquote: string -> string, table: seq<(string, string)>)
    requires !(InRanges(m.start, skip) || m.kind != Inline || External(m.href) || SplitAnchor(m.href, unquote).0 == [])
    ensures var resolved := ResolveRelative(sourceFile, SplitAnchor(m.href, unquote).0);
      && (Decide(content, sourceFile, skip, m, unquote, table) == Report("path escapes documentation root") <==> resolved.None?)
      && (Decide(content, sourceFile, skip, m, unquote, table) == Report("no mapping found") <==>
           resolved.Some? && WikiName(table, LookupKey(resolved.value)).None?)
  {
  }

  /**
   * Replaced: by a wiki link to the page, showing the link text unless it
   * is blank, with an escaped separator inside a table row, keeping the anchor.
   */
  lemma DecideReplace(content: string, sourceFile: string, skip: seq<Span>, m: LinkMatch, unquote: string -> string, table: seq<(string, string)>, resolved: string, page: string)
    requires !(InRanges(m.start, skip) || m.kind != Inline || External(m.href) || SplitAnchor(m.href, unquote).0 == [])
    requires ResolveRelative(sourceFile, SplitAnchor(m.href, unquote).0) == Some(resolved)
    requires WikiName(table, LookupKey(resolved)) == Some(page)
    ensures Decide(content, sourceFile, skip, m, unquote, table) ==
      Replace(WikiLink(if IsBlank(m.text) then page else m.text,
                       if IsInTableRow(content, m.start) then "\\|" else "|",
                       page, AnchorSuffix(SplitAnchor(m.href, unquote).1)))
  {
    StripEmpty(m.text);
  }

  /** The decision for the links of one page. */
  function Decider(content: string, sourceFile: string, skip: seq<Span>, unquote: string -> string, table: seq<(string, string)>): LinkMatch -> Outcome {
    m => Decide(content, sourceFile, skip, m, unquote, table)
  }

  /** The outcome for each of `links[i..]`. */
  function Outcomes(links: seq<LinkMatch>, decide: LinkMatch -> Outcome, i: nat): (r: seq<Outcome>)
    requires i <= |links|
    ensures |r| == |links| - i
    decreases |links| - i
  {
    if i == |links| then [] else [decide(links[i])] + Outcomes(links, decide, i + 1)
  }

  lemma {:induction false} OutcomeAt(links: seq<LinkMatch>, decide: LinkMatch -> Outcome, i: nat, k: nat)
    requires i <= k < |links|
    ensures Outcomes(links, decide, i)[k - i] == decide(links[k])
    decreases k - i
  {
    if i < k {
      OutcomeAt(links, decide, i + 1, k);
    }
  }

  function Apply(result: string, m: LinkMatch, o: Outcome): string {
    if o.Replace? then Edits.Splice(result, Edits.Edit(m.start, m.end, o.link)) else result
  }

  function Record(sourceFile: string, m: LinkMatch, o: Outcome): seq<Unmapped> {
    if o.Report? then [Unmapped(sourceFile, m.href, o.reason)] else []
  }

  /** Handling link `i` appends its record after those of the links behind it. */
  lemma ReportsStep(prior: seq<Unmapped>, sourceFile: string, links: seq<LinkMatch>, outs: seq<Outcome>, i: nat)
    requires i < |links| == |outs|
    ensures prior + ReportsFrom(sourceFile, links, outs, i)
      == (prior + ReportsFrom(sourceFile, links, outs, i + 1)) + Record(sourceFile, links[i], outs[i])
  {
    AppendAssoc(prior, ReportsFrom(sourceFile, links, outs, i + 1), Record(sourceFile, links[i], outs[i]));
  }

  /** The text after handling `links[i..]`, the last link first. */
  function ConvertFrom(content: string, links: seq<LinkMatch>, outs: seq<Outcome>, i: nat): string
    requires i <= |links| == |outs|
    decreases |links| - i
  {
    if i == |links| then content else Apply(ConvertFrom(content, links, outs, i + 1), links[i], outs[i])
  }

  /** The records made while handling `links[i..]`, the last link first. */
  function ReportsFrom(sourceFile: string, links: seq<LinkMatch>, outs: seq<Outcome>, i: nat): seq<Unmapped>
    requires i <= |links| == |outs|
    decreases |links| - i
  {
    if i == |links| then [] else ReportsFrom(sourceFile, links, outs, i + 1) + Record(sourceFile, links[i], outs[i])
  }

  /** The replacements chosen for `links[i..]`, in text order. */
  function ReplacementsFrom(links: seq<LinkMatch>, outs: seq<Outcome>, i: nat): seq<Edits.Edit<char>>
    requires i <= |links| == |outs|
    decreases |links| - i
  {
    if i == |links| then []
    else if outs[i].Replace? then [Edits.Edit(links[i].start, links[i].end, outs[i].link)] + ReplacementsFrom(links, outs, i + 1)
    else ReplacementsFrom(links, outs, i + 1)
  }

  function PageOutcomes(content: string, sourceFile: string, unquote: string -> string, table: seq<(string, string)>): seq<Outcome> {
    Outcomes(Extracted(content), Decider(content, sourceFile, SkipRanges(content), unquote, table), 0)
  }

  function Converted(content: string, sourceFile: string, unquote: string -> string, table: seq<(string, string)>): string {
    ConvertFrom(content, Extracted(content), PageOutcomes(content, sourceFile, unquote, table), 0)
  }

  function UnmappedOf(content: string, sourceFile: string, unquote: string -> string, table: seq<(string, string)>): seq<Unmapped> {
    ReportsFrom(sourceFile, Extracted(content), PageOutcomes(content, sourceFile, unquote, table), 0)
  }

  function Replacements(content: string, sourceFile: string, unquote: string -> string, table: seq<(string, string)>): seq<Edits.Edit<char>> {
    ReplacementsFrom(Extracted(content), PageOutcomes(content, sourceFile, unquote, table), 0)
  }

  /** Handling the links from the last to the first is splicing their replacements back to front. */
  lemma {:induction false} ConvertFromSplices(content: string, links: seq<LinkMatch>, outs: seq<Outcome>, i: nat)
    requires i <= |links| == |outs|
    ensures ConvertFrom(content, links, outs, i) == Edits.SpliceBackToFront(content, ReplacementsFrom(links, outs, i))
    decreases |links| - i
  {
    if i < |links| {
      ConvertFromSplices(content, links, outs, i + 1);
      ConvertFromStep(content, links, outs, i);
    }
  }

  lemma ConvertFromStep(content: string, links: seq<LinkMatch>, outs: seq<Outcome>, i: nat)
    requires i < |links| == |outs|
    requires ConvertFrom(content, links, outs, i + 1) == Edits.SpliceBackToFront(content, ReplacementsFrom(links, outs, i + 1))
    ensures ConvertFrom(content, links, outs, i) == Edits.SpliceBackToFront(content, ReplacementsFrom(links, outs, i))
  {
    if outs[i].Replace? {
      var e := Edits.Edit(links[i].start, links[i].end, outs[i].link);
      Edits.SpliceBackToFrontCons(content, e, ReplacementsFrom(links, outs, i + 1));
    }
  }

  /** Links in order and apart give replacements in order and apart. */
  lemma {:induction false} ReplacementsChain(links: seq<LinkMatch>, outs: seq<Outcome>, i: nat, from: nat, bound: nat)
    requires i <= |links| == |outs| && from <= bound
    requires forall k :: i <= k < |links| ==> from <= links[k].start <= links[k].end <= bound
    requires forall a, b :: i <= a < b < |links| ==> links[a].end <= links[b].start
    ensures Edits.Chain(ReplacementsFrom(links, outs, i), from, bound)
    decreases |links| - i
  {
    if i < |links| {
      var rest := ReplacementsFrom(links, outs, i + 1);
      if outs[i].Replace? {
        ReplacementsChain(links, outs, i + 1, links[i].end, bound);
        var r := [Edits.Edit(links[i].start, links[i].end, outs[i].link)] + rest;
        assert r[1..] == rest;
      } else {
        ReplacementsChain(links, outs, i + 1, from, bound);
      }
    }
  }

  /** Every replacement is a replaced link's span and wiki link, and every replaced link has one. */
  lemma {:induction false} ReplacementsOfReplaced(links: seq<LinkMatch>, outs: seq<Outcome>, i: nat)
    requires i <= |links| == |outs|
    ensures forall e :: e in ReplacementsFrom(links, outs, i) <==>
      exists j :: i <= j < |links| && outs[j].Replace? && e == Edits.Edit(links[j].start, links[j].end, outs[j].link)
    decreases |links| - i
  {
    if i < |links| {
      ReplacementsOfReplaced(links, outs, i + 1);
    }
  }

  /** Records are made for the reported links, from the last to the first. */
  lemma {:induction false} ReportsOfReported(sourceFile: string, links: seq<LinkMatch>, outs: seq<Outcome>, i: nat)
    requires i <= |links| == |outs|
    ensures forall u :: u in ReportsFrom(sourceFile, links, outs, i) <==>
      exists j :: i <= j < |links| && outs[j].Report? && u == Unmapped(sourceFile, links[j].href, outs[j].reason)
    decreases |links| - i
  {
    if i < |links| {
      ReportsOfReported(sourceFile, links, outs, i + 1);
    }
  }

  /** Links that lie inside `[0, bound)`, in order and apart. */
  ghost predicate LaidOut(links: seq<LinkMatch>, bound: nat) {
    && (forall k :: 0 <= k < |links| ==> links[k].start <= links[k].end <= bound)
    && (forall a, b :: 0 <= a < b < |links| ==> links[a].end <= links[b].start)
  }

  /** The extracted links lie inside the text, in order and apart. */
  lemma ExtractedSpans(text: string)
    ensures LaidOut(Extracted(text), |text|)
  {
    var links := Extracted(text);
    ExtractedProperties(text);
    forall k | 0 <= k < |links| ensures links[k].start <= links[k].end <= |text| {
      var m := links[k];
      assert Good(text, SkipRanges(text), m);
      assert Shaped(text, m);
    }
  }

  /** Handling sorted, apart links from the last to the first rebuilds the text front to back. */
  lemma RebuildsFrontToBack(content: string, links: seq<LinkMatch>, outs: seq<Outcome>)
    requires |links| == |outs| && LaidOut(links, |content|)
    ensures Edits.Chain(ReplacementsFrom(links, outs, 0), 0, |content|)
    ensures ConvertFrom(content, links, outs, 0) == Edits.Interleave(content, ReplacementsFrom(links, outs, 0), 0)
  {
    ReplacementsChain(links, outs, 0, 0, |content|);
    ConvertFromSplices(content, links, outs, 0);
    Edits.BackToFrontIsInterleave(content, ReplacementsFrom(links, outs, 0));
  }

  /**
   * convert_links rebuilds the page front to back: the text between the
   * replaced links is kept and each replaced link becomes its wiki link,
   * because the extracted links are sorted and apart and are spliced from
   * the last to the first.
   */
  lemma ConvertedRebuilds(content: string, sourceFile: string, unquote: string -> string, table: seq<(string, string)>)
    ensures Edits.Chain(Replacements(content, sourceFile, unquote, table), 0, |content|)
    ensures Converted(content, sourceFile, unquote, table) == Edits.Interleave(content, Replacements(content, sourceFile, unquote, table), 0)
  {
    ExtractedSpans(content);
    RebuildsFrontToBack(content, Extracted(content), PageOutcomes(content, sourceFile, unquote, table));
  }

  /** convert_links's pages and records, as an object holding the list of unmapped links. */
  class WikiSync {
    var unmapped: seq<Unmapped>

    constructor ()
      ensures unmapped == []
    {
      unmapped := [];
    }

    /** convert_links: the converted page, with this page's unmapped links appended to the record.
        The script looks pages up in WikiStructure(); the table is a parameter here. */
    method ConvertLinks(content: string, sourceFile: string, unquote: string -> string, table: seq<(string, string)>) returns (result: string)
      modifies this
      ensures result == Converted(content, sourceFile, unquote, table)
      ensures unmapped == old(unmapped) + UnmappedOf(content, sourceFile, unquote, table)
    {
      var codeRanges := FindCodeFenceRanges(content);
      var inlineCodeRanges := FindInlineCodeRanges(content);
      var skipRanges := codeRanges + inlineCodeRanges;
      var links := ExtractLinks(content);
      result := RewriteLinks(content, sourceFile, skipRanges, links, unquote, table);
    }

    /** The loop of convert_links over the links, from the last to the first. */
    method RewriteLinks(content: string, sourceFile: string, skipRanges: seq<Span>, links: seq<LinkMatch>, unquote: string -> string, table: seq<(string, string)>)
      returns (result: string)
      modifies this
      ensures result == ConvertFrom(content, links, Outcomes(links, Decider(content, sourceFile, skipRanges, unquote, table), 0), 0)
      ensures unmapped == old(unmapped) + ReportsFrom(sourceFile, links, Outcomes(links, Decider(content, sourceFile, skipRanges, unquote, table), 0), 0)
    {
      ghost var outs := Outcomes(links, Decider(content, sourceFile, skipRanges, unquote, table), 0);
      result := content;
      var i := |links|;
      while i > 0
        invariant 0 <= i <= |links|
        invariant result == ConvertFrom(content, links, outs, i)
        invariant unmapped == old(unmapped) + ReportsFrom(sourceFile, links, outs, i)
      {
        i := i - 1;
        var m := links[i];
        var o := DecideAt(content, sourceFile, skipRanges, links, i, unquote, table);
        ReportsStep(old(unmapped), sourceFile, links, outs, i);
        result := HandleLink(result, sourceFile, m, o);
      }
    }

    /** One link's outcome: splice its replacement into the text, or record why it stayed unmapped. */
    method HandleLink(text: string, sourceFile: string, m: LinkMatch, o: Outcome) returns (result: string)
      modifies this
      ensures result == Apply(text, m, o)
      ensures unmapped == old(unmapped) + Record(sourceFile, m, o)
    {
      result := text;
      match o {
        case Replace(newLink) =>
          result := PySlice(text, 0, m.start) + newLink + PySlice(text, m.end, |text|);
        case Report(reason) =>
          unmapped := unmapped + [Unmapped(sourceFile, m.href, reason)];
        case Keep =>
      }
    }
  }

  /** The decision for the link at index `i`, as one entry of the page's outcomes. */
  method DecideAt(content: string, sourceFile: string, skipRanges: seq<Span>, links: seq<LinkMatch>, i: nat, unquote: string -> string, table: seq<(string, string)>)
    returns (o: Outcome)
    requires i < |links|
    ensures o == Outcomes(links, Decider(content, sourceFile, skipRanges, unquote, table), 0)[i]
  {
    o := DecideLink(content, sourceFile, skipRanges, links[i], unquote, table);
    OutcomeAt(links, Decider(content, sourceFile, skipRanges, unquote, table), 0, i);
  }

  /** The body of convert_links's loop for one link: skip it, convert it, or report it. */
  method DecideLink(content: string, sourceFile: string, skipRanges: seq<Span>, m: LinkMatch, unquote: string -> string, table: seq<(string, string)>)
    returns (o: Outcome)
    ensures o == Decide(content, sourceFile, skipRanges, m, unquote, table)
  {
    if InRanges(m.start, skipRanges) || m.kind != Inline || External(m.href) {
      return Keep;
    }
    var split := SplitAnchor(m.href, unquote);
    var anchor := AnchorSuffix(split.1);
    if split.0 == [] {
      return Keep;
    }
    var resolved := ResolveRelativePath(sourceFile, split.0);
    if resolved.None? {
      return Report("path escapes documentation root");
    }
    var name := LookupWikiName(table, LookupKey(resolved.value));
    if name.Some? {
      var display := if Strip(m.text) != [] then m.text else name.value;
      var separator := if IsInTableRow(content, m.start) then "\\|" else "|";
      return Replace(WikiLink(display, separator, name.value, anchor));
    }
    return Report("no mapping found");
  }

  /** The lookup loop over the table, stopping at the first entry matching the key. */
  method FindFirstPage(entries: seq<(string, string)>, key: string) returns (name: Option<string>)
    ensures name == FirstPage(entries, key)
  {
    name := None;
    for k := 0 to |entries|
      invariant forall j :: 0 <= j < k ==> RemoveMdSuffix(entries[j].0) != key
    {
      if RemoveMdSuffix(entries[k].0) == key {
        name := Some(entries[k].1);
        assert FirstMatch(entries, key, k);
        return;
      }
    }
  }

  /** The table first, then the root names. */
  method LookupWikiName(table: seq<(string, string)>, key: string) returns (name: Option<string>)
    ensures name == WikiName(table, key)
  {
    name := FindFirstPage(table, key);
    if name.None? && key in RootWikiNames {
      name := Some(RootWikiNames[key]);
    }
  }
}
