/**
 * Finding documents nothing links to.  Starting from the entry points (the
 * repository's README.md, CONTRIBUTING.md and AGENTS.md, and every
 * README.md under the documentation directory), the checker follows local
 * Markdown links from document to document with a worklist, and reports,
 * in sorted order, every Markdown file under the documentation directory
 * it never reached.
 *
 * The file system is a value: a map from file path to content and a set
 * of directory paths.  A path is the list of its segments from the file
 * system's root, and resolving a link is lexical.
 */
module OrphanedDocs {
  import opened Strings
  import FixLinkText

  // ---- extract_local_links ----

  /** One match of `\[(?:[^\]]*)\]\(([^)]+)\)`: where it ends and group 1. */
  datatype Found = Found(end: nat, href: string)

  /**
   * The link pattern at `p`.  `[^\]]*` can only stop at the first `]` and
   * `[^)]+` at the first `)`, so each has one way to match.
   */
  function LinkAt(s: string, p: nat): (r: Option<Found>)
    ensures r.Some? ==> p < r.value.end <= |s|
  {
    if p < |s| && s[p] == '[' then
      var c := IndexOfFrom(s, ']', p + 1);
      if c != -1 && c + 1 < |s| && s[c + 1] == '(' then
        var e := IndexOfFrom(s, ')', c + 2);
        if e > c + 2 then Some(Found(e + 1, s[c + 2..e])) else None
      else None
    else None
  }

  /** Group 1 of every match of re.finditer from `p`, in order. */
  function Hrefs(s: string, p: nat): seq<string>
    requires p <= |s|
    decreases |s| - p
  {
    if p == |s| then []
    else
      match LinkAt(s, p)
      case None => Hrefs(s, p + 1)
      case Some(f) => [f.href] + Hrefs(s, f.end)
  }

  /** Every href found is non-empty and holds no `)`. */
  lemma HrefsShape(s: string, p: nat)
    requires p <= |s|
    ensures forall k :: 0 <= k < |Hrefs(s, p)| ==>
      Hrefs(s, p)[k] != [] && forall i :: 0 <= i < |Hrefs(s, p)[k]| ==> Hrefs(s, p)[k][i] != ')'
  {
    forall k | 0 <= k < |Hrefs(s, p)|
      ensures Hrefs(s, p)[k] != [] && forall i :: 0 <= i < |Hrefs(s, p)[k]| ==> Hrefs(s, p)[k][i] != ')'
    {
      HrefAt(s, p, k);
    }
  }

  lemma {:induction false} HrefAt(s: string, p: nat, k: nat)
    requires p <= |s| && k < |Hrefs(s, p)|
    ensures Hrefs(s, p)[k] != [] && forall i :: 0 <= i < |Hrefs(s, p)[k]| ==> Hrefs(s, p)[k][i] != ')'
    decreases |s| - p
  {
    match LinkAt(s, p)
    case None =>
      assert Hrefs(s, p) == Hrefs(s, p + 1);
      HrefAt(s, p + 1, k);
    case Some(f) =>
      assert Hrefs(s, p) == [f.href] + Hrefs(s, f.end);
      if k == 0 {
        LinkHref(s, p);
      } else {
        HrefAt(s, f.end, k - 1);
      }
  }

  /** The href of a match is non-empty and holds no `)`. */
  lemma LinkHref(s: string, p: nat)
    requires LinkAt(s, p).Some?
    ensures var h := LinkAt(s, p).value.href; h != [] && forall i :: 0 <= i < |h| ==> h[i] != ')'
  {
    var c := IndexOfFrom(s, ']', p + 1);
    var e := IndexOfFrom(s, ')', c + 2);
    var h := LinkAt(s, p).value.href;
    forall i | 0 <= i < |h| ensures h[i] != ')' {
      assert h[i] == s[c + 2 + i];
    }
  }

  /** The schemes extract_local_links treats as external. */
  predicate External(scheme: string) {
    scheme in {"http", "https", "mailto", "tel"}
  }

  /**
   * What extract_local_links keeps of one href: nothing for an external
   * scheme or an empty path, otherwise the part before the first `#`,
   * decoded by `unquote` (urllib's percent-decoding).
   */
  function LocalPath(href: string, unquote: string -> string): Option<string> {
    var h := Strip(href);
    if External(FixLinkText.UrlScheme(h)) then None
    else
      var path := Split(h, '#')[0];
      if path == [] then None else Some(unquote(path))
  }

  /** The values `keep` gives the first `n` hrefs. */
  function Collected(hrefs: seq<string>, n: nat, keep: string -> Option<string>): set<string>
    requires n <= |hrefs|
  {
    if n == 0 then {}
    else
      var here := match keep(hrefs[n - 1]) case None => {} case Some(x) => {x};
      Collected(hrefs, n - 1, keep) + here
  }

  /** extract_local_links(content). */
  function LocalLinks(content: string, unquote: string -> string): set<string> {
    var hs := Hrefs(content, 0);
    Collected(hs, |hs|, h => LocalPath(h, unquote))
  }

  /** extract_local_links: the loop over the matches, adding to a set. */
  method ExtractLocalLinks(content: string, unquote: string -> string) returns (links: set<string>)
    ensures links == LocalLinks(content, unquote)
  {
    links := CollectLocal(Hrefs(content, 0), h => LocalPath(h, unquote));
  }

  /** The loop of extract_local_links over the hrefs found, adding what `keep` gives each. */
  method CollectLocal(hrefs: seq<string>, keep: string -> Option<string>) returns (links: set<string>)
    ensures links == Collected(hrefs, |hrefs|, keep)
  {
    links := {};
    var i := 0;
    while i < |hrefs|
      invariant i <= |hrefs|
      invariant links == Collected(hrefs, i, keep)
    {
      var kept := keep(hrefs[i]);
      if kept.Some? {
        links := links + {kept.value};
      }
      i := i + 1;
    }
  }

  /** A value is collected exactly when `keep` gives it for some href. */
  lemma {:induction false} CollectedMembers(hrefs: seq<string>, n: nat, keep: string -> Option<string>, x: string)
    requires n <= |hrefs|
    ensures x in Collected(hrefs, n, keep) <==> exists k :: 0 <= k < n && keep(hrefs[k]) == Some(x)
  {
    if n > 0 {
      CollectedMembers(hrefs, n - 1, keep, x);
    }
  }

  /** The local links of a text are exactly what its hrefs keep. */
  lemma LocalLinksMembers(content: string, unquote: string -> string, x: string)
    ensures x in LocalLinks(content, unquote) <==>
      exists k :: 0 <= k < |Hrefs(content, 0)| && LocalPath(Hrefs(content, 0)[k], unquote) == Some(x)
  {
    var hs := Hrefs(content, 0);
    CollectedMembers(hs, |hs|, h => LocalPath(h, unquote), x);
  }

  /** Anchor-only hrefs and hrefs with an external scheme contribute no link. */
  lemma LocalPathDropped(href: string, unquote: string -> string)
    requires StartsWith(Strip(href), "#") || External(FixLinkText.UrlScheme(Strip(href)))
    ensures LocalPath(href, unquote) == None
  {
    var h := Strip(href);
    if !External(FixLinkText.UrlScheme(h)) {
      assert h[0] == '#';
      assert IndexOfFrom(h, '#', 0) == 0;
    }
  }

  /** The anchor is cut off: `p#a` gives the same link as `p`, the decoded `p`, unless `p` is external. */
  lemma LocalPathDropsAnchor(p: string, a: string, unquote: string -> string)
    requires p != [] && !IsSpace(p[0]) && !IsSpace(p[|p| - 1]) && (a == [] || !IsSpace(a[|a| - 1]))
    requires forall i :: 0 <= i < |p| ==> p[i] != '#'
    ensures LocalPath(p + "#" + a, unquote) == LocalPath(p, unquote)
    ensures LocalPath(p, unquote) == if External(FixLinkText.UrlScheme(p)) then None else Some(unquote(p))
  {
    var h := p + "#" + a;
    assert h[|h| - 1] == if a == [] then '#' else a[|a| - 1];
    StripTrimmed(h);
    StripTrimmed(p);
    assert forall k :: 0 <= k < |p| ==> h[k] == p[k];
    IndexFirst(h, '#', 0, |p|);
    assert h[..|p|] == p;
    SchemeBeforeAnchor(p, a);
  }

  /** The scheme is read before any `#`, so an anchor does not change it. */
  lemma SchemeBeforeAnchor(p: string, a: string)
    requires p != [] && forall i :: 0 <= i < |p| ==> p[i] != '#'
    ensures FixLinkText.UrlScheme(p + "#" + a) == FixLinkText.UrlScheme(p)
  {
    var h := p + "#" + a;
    var i := IndexOfFrom(p, ':', 0);
    assert forall k :: 0 <= k < |p| ==> h[k] == p[k];
    if i != -1 {
      IndexFirst(h, ':', 0, i);
      assert h[..i] == p[..i];
    } else {
      var j := IndexOfFrom(h, ':', 0);
      assert j == -1 || j >= |p|;
      if j != -1 {
        assert !FixLinkText.SchemeChar(h[|p|]);
      }
    }
  }

  // ---- the file system and resolving links ----

  /** A path: its segments from the file system's root. */
  type Path = seq<string>

  datatype FileSystem = FileSystem(files: map<Path, string>, dirs: set<Path>)

  predicate Exists(fs: FileSystem, p: Path) { p in fs.files || p in fs.dirs }

  function Parent(p: Path): Path {
    if p == [] then [] else p[..|p| - 1]
  }

  /**
   * `base / segs`, resolved without symbolic links: empty and `.` segments
   * vanish, `..` drops the last segment (and stays at the root).
   */
  function Walk(base: Path, segs: seq<string>): Path
    decreases |segs|
  {
    if segs == [] then base
    else if segs[0] == "" || segs[0] == "." then Walk(base, segs[1..])
    else if segs[0] == ".." then Walk(Parent(base), segs[1..])
    else Walk(base + [segs[0]], segs[1..])
  }

  /** A resolved path: no empty, `.` or `..` segment. */
  predicate Clean(p: Path) {
    forall i :: 0 <= i < |p| ==> p[i] != "" && p[i] != "." && p[i] != ".."
  }

  /** A link resolves to a clean path when it starts from one. */
  lemma {:induction false} WalkClean(base: Path, segs: seq<string>)
    requires Clean(base)
    ensures Clean(Walk(base, segs))
    decreases |segs|
  {
    if segs != [] {
      if segs[0] == "" || segs[0] == "." {
        WalkClean(base, segs[1..]);
      } else if segs[0] == ".." {
        WalkClean(Parent(base), segs[1..]);
      } else {
        WalkClean(base + [segs[0]], segs[1..]);
      }
    }
  }

  /** Clean segments are simply appended. */
  lemma {:induction false} WalkPlain(base: Path, segs: seq<string>)
    requires Clean(segs)
    ensures Walk(base, segs) == base + segs
    decreases |segs|
  {
    if segs != [] {
      WalkPlain(base + [segs[0]], segs[1..]);
      assert base + [segs[0]] + segs[1..] == base + segs;
    }
  }

  /**
   * The path a link of `current` points to: a link starting with `/` from
   * the documentation directory's parent, any other from `current`'s
   * directory.
   */
  function Resolved(docs: Path, current: Path, link: string): Path {
    if StartsWith(link, "/") then Walk(Parent(docs), Split(LStripChar(link, '/'), '/'))
    else Walk(Parent(current), Split(link, '/'))
  }

  /** A link to a directory stands for the directory's README.md. */
  function Target(fs: FileSystem, docs: Path, current: Path, link: string): Path {
    var t := Resolved(docs, current, link);
    if t in fs.dirs then t + ["README.md"] else t
  }

  /**
   * Path.suffix, lowered, is `.md`: the name ends in `.`, `m`, `d`, the
   * letters in either case, after at least one other character.
   */
  predicate IsMarkdownName(name: string) {
    |name| >= 4 && name[|name| - 3] == '.' && LowerChar(name[|name| - 2]) == 'm' && LowerChar(name[|name| - 1]) == 'd'
  }

  /** What the worklist takes: something that exists and whose name has the suffix `.md`, in any case. */
  predicate Wanted(fs: FileSystem, t: Path) {
    Exists(fs, t) && t != [] && IsMarkdownName(t[|t| - 1])
  }

  /** The wanted targets of the given links of `current`. */
  function TargetsFrom(fs: FileSystem, docs: Path, current: Path, links: set<string>): set<Path> {
    set l | l in links && Wanted(fs, Target(fs, docs, current, l)) :: Target(fs, docs, current, l)
  }

  /** The wanted targets of a readable document. */
  function Targets(fs: FileSystem, docs: Path, unquote: string -> string, d: Path): set<Path>
    requires d in fs.files
  {
    TargetsFrom(fs, docs, d, LocalLinks(fs.files[d], unquote))
  }

  // ---- entry points ----

  /** `p` lies strictly inside directory `dir`. */
  predicate Below(p: Path, dir: Path) {
    |p| > |dir| && p[..|dir|] == dir
  }

  /** The root documents that exist: README.md, CONTRIBUTING.md and AGENTS.md beside the documentation directory. */
  function RootDocs(fs: FileSystem, docs: Path): set<Path> {
    var root := Parent(docs);
    (if Exists(fs, root + ["README.md"]) then {root + ["README.md"]} else {}) +
    (if Exists(fs, root + ["CONTRIBUTING.md"]) then {root + ["CONTRIBUTING.md"]} else {}) +
    (if Exists(fs, root + ["AGENTS.md"]) then {root + ["AGENTS.md"]} else {})
  }

  /** docs_dir.rglob("README.md"). */
  function Readmes(fs: FileSystem, docs: Path): set<Path> {
    set p | p in fs.files.Keys + fs.dirs && Below(p, docs) && p[|p| - 1] == "README.md"
  }

  /** The entry points. */
  function EntryPoints(fs: FileSystem, docs: Path): set<Path> {
    RootDocs(fs, docs) + Readmes(fs, docs)
  }

  /** docs_dir.rglob("*.md"): every path under the documentation directory whose name ends in `.md`. */
  function AllDocs(fs: FileSystem, docs: Path): set<Path> {
    set p | p in fs.files.Keys + fs.dirs && Below(p, docs) && EndsWith(p[|p| - 1], ".md")
  }

  /**
   * What the checker needs to run to the end: reading a path it visits
   * must not hit a directory, so no directory is named README.md, and the
   * root holds no directory named CONTRIBUTING.md or AGENTS.md.
   */
  predicate WellFormed(fs: FileSystem, docs: Path) {
    (forall d :: d in fs.dirs ==> d == [] || d[|d| - 1] != "README.md") &&
    Parent(docs) + ["CONTRIBUTING.md"] !in fs.dirs && Parent(docs) + ["AGENTS.md"] !in fs.dirs
  }

  /** The root documents are files: none of those names is a directory there. */
  lemma RootDocsAreFiles(fs: FileSystem, docs: Path)
    requires WellFormed(fs, docs)
    ensures RootDocs(fs, docs) <= fs.files.Keys
  {
    var root := Parent(docs);
    ReadmeNotDir(fs, docs, root + ["README.md"]);
    FileUnlessDir(fs, root + ["README.md"]);
    FileUnlessDir(fs, root + ["CONTRIBUTING.md"]);
    FileUnlessDir(fs, root + ["AGENTS.md"]);
    UnionOfThree(
      if Exists(fs, root + ["README.md"]) then {root + ["README.md"]} else {},
      if Exists(fs, root + ["CONTRIBUTING.md"]) then {root + ["CONTRIBUTING.md"]} else {},
      if Exists(fs, root + ["AGENTS.md"]) then {root + ["AGENTS.md"]} else {},
      fs.files.Keys);
  }

  lemma UnionOfThree<T>(a: set<T>, b: set<T>, c: set<T>, s: set<T>)
    requires a <= s && b <= s && c <= s
    ensures a + b + c <= s
  {
  }

  /** In a well-formed file system nothing named README.md is a directory. */
  lemma ReadmeNotDir(fs: FileSystem, docs: Path, p: Path)
    requires WellFormed(fs, docs) && p != [] && p[|p| - 1] == "README.md"
    ensures p !in fs.dirs
  {
  }

  /** What exists and is no directory is a file. */
  lemma FileUnlessDir(fs: FileSystem, p: Path)
    requires p !in fs.dirs
    ensures (if Exists(fs, p) then {p} else {}) <= fs.files.Keys
  {
  }

  /** The README.md files found are files. */
  lemma ReadmesAreFiles(fs: FileSystem, docs: Path)
    requires WellFormed(fs, docs)
    ensures Readmes(fs, docs) <= fs.files.Keys
  {
    forall e | e in Readmes(fs, docs) ensures e in fs.files {
      assert e[|e| - 1] == "README.md";
    }
  }

  /** Entry points are readable files. */
  lemma EntriesAreFiles(fs: FileSystem, docs: Path)
    requires WellFormed(fs, docs)
    ensures EntryPoints(fs, docs) <= fs.files.Keys
  {
    RootDocsAreFiles(fs, docs);
    ReadmesAreFiles(fs, docs);
  }

  /** The link graph: the wanted targets of a readable document, and nothing from anything else. */
  function Links(fs: FileSystem, docs: Path, unquote: string -> string): Path -> set<Path> {
    d => if d in fs.files then Targets(fs, docs, unquote, d) else {}
  }

  /** Wanted targets are readable files. */
  lemma TargetsAreFiles(fs: FileSystem, docs: Path, current: Path, links: set<string>)
    requires WellFormed(fs, docs)
    ensures TargetsFrom(fs, docs, current, links) <= fs.files.Keys
  {
    forall t | t in TargetsFrom(fs, docs, current, links) ensures t in fs.files {
      var l :| l in links && Wanted(fs, Target(fs, docs, current, l)) && Target(fs, docs, current, l) == t;
      TargetIsFile(fs, docs, current, l);
    }
  }

  /** A wanted target is a file: a directory stands for its README.md, which is no directory. */
  lemma TargetIsFile(fs: FileSystem, docs: Path, current: Path, l: string)
    requires WellFormed(fs, docs) && Wanted(fs, Target(fs, docs, current, l))
    ensures Target(fs, docs, current, l) in fs.files
  {
    var r := Resolved(docs, current, l);
    var t := Target(fs, docs, current, l);
    if r in fs.dirs {
      assert t == r + ["README.md"];
      ReadmeNotDir(fs, docs, t);
    } else {
      assert t == r;
    }
  }

  // ---- reachability in a graph ----

  /** A chain from an entry: each step goes to a successor of the one before. */
  ghost predicate IsChain(entries: set<Path>, next: Path -> set<Path>, c: seq<Path>) {
    |c| >= 1 && c[0] in entries && forall i :: 0 <= i < |c| - 1 ==> c[i + 1] in next(c[i])
  }

  /** `d` is reached: some chain from an entry ends at it. */
  ghost predicate Reached(entries: set<Path>, next: Path -> set<Path>, d: Path) {
    exists c :: IsChain(entries, next, c) && c[|c| - 1] == d
  }

  /** Every entry is reached. */
  lemma EntryReached(entries: set<Path>, next: Path -> set<Path>, e: Path)
    requires e in entries
    ensures Reached(entries, next, e)
  {
    assert IsChain(entries, next, [e]);
  }

  /** A successor of a reached node is reached. */
  lemma ReachedStep(entries: set<Path>, next: Path -> set<Path>, d: Path, t: Path)
    requires Reached(entries, next, d) && t in next(d)
    ensures Reached(entries, next, t)
  {
    var c :| IsChain(entries, next, c) && c[|c| - 1] == d;
    var c' := c + [t];
    assert forall i :: 0 <= i < |c| ==> c'[i] == c[i];
    assert IsChain(entries, next, c') && c'[|c'| - 1] == t;
  }

  /** A set holding the entries and the successors of each member holds every reached node. */
  lemma ClosedHoldsReached(entries: set<Path>, next: Path -> set<Path>, s: set<Path>, d: Path)
    requires entries <= s && forall x :: x in s ==> next(x) <= s
    requires Reached(entries, next, d)
    ensures d in s
  {
    var c :| IsChain(entries, next, c) && c[|c| - 1] == d;
    var i := 0;
    while i < |c| - 1
      invariant 0 <= i < |c| && c[i] in s
    {
      assert c[i + 1] in next(c[i]);
      i := i + 1;
    }
  }

  /** The last element split off. */
  lemma SplitLast(s: seq<Path>)
    requires s != []
    ensures s == s[..|s| - 1] + [s[|s| - 1]]
  {
  }

  /**
   * The worklist's invariant: everything seen lies in `universe`, the
   * entries are visited or queued, the successors of a visited node are
   * visited or queued, everything visited or queued is reached, and
   * `processed` lists the visited nodes once each.
   */
  ghost predicate Frontier(entries: set<Path>, next: Path -> set<Path>, universe: set<Path>,
                           visited: set<Path>, toVisit: seq<Path>, processed: seq<Path>)
  {
    visited <= universe && (forall t :: t in toVisit ==> t in universe) &&
    (forall e :: e in entries ==> e in visited || e in toVisit) &&
    (forall d, t {:trigger t in next(d)} :: d in visited && t in next(d) ==> t in visited || t in toVisit) &&
    (forall d :: d in visited ==> Reached(entries, next, d)) &&
    (forall t :: t in toVisit ==> Reached(entries, next, t)) &&
    NoRepeats(processed) && (forall d :: d in processed <==> d in visited)
  }

  /** The worklist starts with the entries queued and nothing visited. */
  lemma FrontierStart(entries: set<Path>, next: Path -> set<Path>, universe: set<Path>, toVisit: seq<Path>)
    requires entries <= universe && forall p :: p in toVisit <==> p in entries
    ensures Frontier(entries, next, universe, {}, toVisit, [])
  {
    forall e | e in entries ensures Reached(entries, next, e) {
      EntryReached(entries, next, e);
    }
  }

  /** Dropping a visited node from the end keeps the invariant. */
  lemma FrontierSkip(entries: set<Path>, next: Path -> set<Path>, universe: set<Path>,
                     visited: set<Path>, toVisit: seq<Path>, processed: seq<Path>)
    requires Frontier(entries, next, universe, visited, toVisit, processed)
    requires toVisit != [] && toVisit[|toVisit| - 1] in visited
    ensures Frontier(entries, next, universe, visited, toVisit[..|toVisit| - 1], processed)
  {
    SplitLast(toVisit);
  }

  /**
   * Visiting the last node and queueing its successors not yet visited
   * keeps the invariant, and leaves fewer nodes of `universe` unvisited.
   */
  lemma FrontierVisit(entries: set<Path>, next: Path -> set<Path>, universe: set<Path>,
                      visited: set<Path>, rest: seq<Path>, current: Path, processed: seq<Path>, toVisit': seq<Path>)
    requires Frontier(entries, next, universe, visited, rest + [current], processed)
    requires current !in visited && next(current) <= universe
    requires |toVisit'| >= |rest| && toVisit'[..|rest|] == rest
    requires forall t :: t in toVisit'[|rest|..] <==> t in next(current) && t !in visited + {current}
    ensures Frontier(entries, next, universe, visited + {current}, toVisit', processed + [current])
    ensures |universe - (visited + {current})| < |universe - visited|
  {
    var added := toVisit'[|rest|..];
    assert toVisit' == rest + added;
    forall t | t in added ensures Reached(entries, next, t) {
      ReachedStep(entries, next, current, t);
    }
    assert universe - (visited + {current}) < universe - visited;
  }

  /** With nothing left to visit, the visited nodes are exactly the reached ones. */
  lemma FrontierDone(entries: set<Path>, next: Path -> set<Path>, universe: set<Path>,
                     visited: set<Path>, processed: seq<Path>)
    requires Frontier(entries, next, universe, visited, [], processed)
    ensures forall d :: d in visited <==> Reached(entries, next, d)
  {
    forall d | Reached(entries, next, d) ensures d in visited {
      ClosedHoldsReached(entries, next, visited, d);
    }
  }

  // ---- the worklist in check_orphaned ----

  /** No path occurs twice. */
  predicate NoRepeats(xs: seq<Path>) {
    forall i, j :: 0 <= i < j < |xs| ==> xs[i] != xs[j]
  }

  /** list(s): the members of a set in some order, once each. */
  method ListOf(s: set<Path>) returns (xs: seq<Path>)
    ensures NoRepeats(xs) && forall p :: p in xs <==> p in s
  {
    xs := [];
    var rest := s;
    while rest != {}
      invariant rest <= s && NoRepeats(xs)
      invariant forall p :: p in xs <==> p in s && p !in rest
      decreases |rest|
    {
      var p :| p in rest;
      xs := xs + [p];
      rest := rest - {p};
    }
  }

  /**
   * The inner loop of check_orphaned: push every wanted target of the
   * links, in the set's order, that has not been visited.
   */
  method PushTargets(fs: FileSystem, docs: Path, current: Path, links: set<string>, visited: set<Path>, toVisit: seq<Path>)
    returns (toVisit': seq<Path>)
    ensures |toVisit'| >= |toVisit| && toVisit'[..|toVisit|] == toVisit
    ensures forall t :: t in toVisit'[|toVisit|..] <==> t in TargetsFrom(fs, docs, current, links) && t !in visited
  {
    toVisit' := toVisit;
    ghost var added: seq<Path> := [];
    var rest := links;
    while rest != {}
      invariant rest <= links
      invariant toVisit' == toVisit + added
      invariant forall t :: t in added <==> t in TargetsFrom(fs, docs, current, links - rest) && t !in visited
      decreases |rest|
    {
      var link :| link in rest;
      var target := LinkTarget(fs, docs, current, link);
      PushInvariant(fs, docs, current, links, rest, link, visited, added);
      if Exists(fs, target) && target != [] && IsMarkdownName(target[|target| - 1]) && target !in visited {
        toVisit' := toVisit' + [target];
        added := added + [target];
      }
      rest := rest - {link};
    }
    assert toVisit'[|toVisit|..] == added;
  }

  /** Pushing the target of one more link, when it is wanted and not visited, keeps the pushed paths those of the links done. */
  lemma PushInvariant(fs: FileSystem, docs: Path, current: Path, links: set<string>, rest: set<string>, link: string,
      visited: set<Path>, added: seq<Path>)
    requires link in rest && rest <= links
    requires forall t :: t in added <==> t in TargetsFrom(fs, docs, current, links - rest) && t !in visited
    ensures var target := Target(fs, docs, current, link);
      var added' := if Wanted(fs, target) && target !in visited then added + [target] else added;
      forall t :: t in added' <==> t in TargetsFrom(fs, docs, current, links - (rest - {link})) && t !in visited
  {
    TargetsFromAdd(fs, docs, current, links - rest, link);
    assert links - (rest - {link}) == (links - rest) + {link};
  }

  /** The path a link stands for: resolved, and a directory's README.md for a directory. */
  method LinkTarget(fs: FileSystem, docs: Path, current: Path, link: string) returns (target: Path)
    ensures target == Target(fs, docs, current, link)
  {
    if StartsWith(link, "/") {
      target := Walk(Parent(docs), Split(LStripChar(link, '/'), '/'));
    } else {
      target := Walk(Parent(current), Split(link, '/'));
    }
    if target in fs.dirs {
      target := target + ["README.md"];
    }
  }

  lemma TargetsFromAdd(fs: FileSystem, docs: Path, current: Path, done: set<string>, link: string)
    ensures TargetsFrom(fs, docs, current, done + {link}) ==
      TargetsFrom(fs, docs, current, done) +
      (if Wanted(fs, Target(fs, docs, current, link)) then {Target(fs, docs, current, link)} else {})
  {
  }

  /** The links the worklist reads from a readable document give exactly its successors, all readable. */
  lemma NextOf(fs: FileSystem, docs: Path, unquote: string -> string, current: Path, links: set<string>)
    requires WellFormed(fs, docs) && current in fs.files && links == LocalLinks(fs.files[current], unquote)
    ensures Links(fs, docs, unquote)(current) == TargetsFrom(fs, docs, current, links)
    ensures TargetsFrom(fs, docs, current, links) <= fs.files.Keys
  {
    TargetsAreFiles(fs, docs, current, links);
  }

  /**
   * The worklist: pop the last path, skip it when visited, otherwise mark
   * it visited and push the wanted targets of its links.  The visited set
   * is exactly the reached documents, and each is processed once.
   */
  method Visit(fs: FileSystem, docs: Path, unquote: string -> string) returns (visited: set<Path>, ghost processed: seq<Path>)
    requires WellFormed(fs, docs)
    ensures forall d :: d in visited <==> Reached(EntryPoints(fs, docs), Links(fs, docs, unquote), d)
    ensures NoRepeats(processed) && forall d :: d in processed <==> d in visited
  {
    var entries := EntryPoints(fs, docs);
    EntriesAreFiles(fs, docs);
    var toVisit := ListOf(entries);
    visited := {};
    processed := [];
    FrontierStart(entries, Links(fs, docs, unquote), fs.files.Keys, toVisit);
    while toVisit != []
      invariant Frontier(entries, Links(fs, docs, unquote), fs.files.Keys, visited, toVisit, processed)
      decreases |fs.files.Keys - visited|, |toVisit|
    {
      var current := toVisit[|toVisit| - 1];
      if current in visited {
        FrontierSkip(entries, Links(fs, docs, unquote), fs.files.Keys, visited, toVisit, processed);
        toVisit := toVisit[..|toVisit| - 1];
        continue;
      }
      visited, toVisit, processed := VisitLast(fs, docs, unquote, visited, toVisit, processed, entries);
    }
    FrontierDone(entries, Links(fs, docs, unquote), fs.files.Keys, visited, processed);
  }

  /** Visit the last path of the worklist, one not visited yet: mark it and queue its wanted targets. */
  method VisitLast(fs: FileSystem, docs: Path, unquote: string -> string,
                   visited: set<Path>, toVisit: seq<Path>, ghost processed: seq<Path>, ghost entries: set<Path>)
    returns (visited': set<Path>, toVisit': seq<Path>, ghost processed': seq<Path>)
    requires WellFormed(fs, docs) && toVisit != [] && toVisit[|toVisit| - 1] !in visited
    requires Frontier(entries, Links(fs, docs, unquote), fs.files.Keys, visited, toVisit, processed)
    ensures Frontier(entries, Links(fs, docs, unquote), fs.files.Keys, visited', toVisit', processed')
    ensures |fs.files.Keys - visited'| < |fs.files.Keys - visited|
  {
    var current := toVisit[|toVisit| - 1];
    var rest := toVisit[..|toVisit| - 1];
    SplitLast(toVisit);
    visited' := visited + {current};
    processed' := processed + [current];
    toVisit' := QueueTargets(fs, docs, unquote, current, visited', rest);
    FrontierVisit(entries, Links(fs, docs, unquote), fs.files.Keys, visited, rest, current, processed, toVisit');
  }

  /**
   * The rest of a visit: the wanted targets of the file's local links not
   * yet visited, pushed onto the worklist.  What is pushed is exactly the
   * file's unvisited successors.
   */
  method QueueTargets(fs: FileSystem, docs: Path, unquote: string -> string, current: Path, visited: set<Path>, toVisit: seq<Path>)
    returns (toVisit': seq<Path>)
    requires WellFormed(fs, docs) && current in fs.files
    ensures |toVisit'| >= |toVisit| && toVisit'[..|toVisit|] == toVisit
    ensures forall t :: t in toVisit'[|toVisit|..] <==> t in Links(fs, docs, unquote)(current) && t !in visited
    ensures Links(fs, docs, unquote)(current) <= fs.files.Keys
  {
    var links := ExtractLocalLinks(fs.files[current], unquote);
    toVisit' := PushTargets(fs, docs, current, links, visited, toVisit);
    NextOf(fs, docs, unquote, current, links);
  }

  // ---- sorted(all_docs) and the report ----

  /** Python's `<` on strings: by code point, a proper prefix first. */
  predicate StrLess(a: string, b: string)
    decreases |a|
  {
    b != [] && (a == [] || a[0] < b[0] || (a[0] == b[0] && StrLess(a[1..], b[1..])))
  }

  /** Python's `<` on paths: segment by segment, a proper prefix first. */
  predicate PathLess(a: Path, b: Path)
    decreases |a|
  {
    b != [] && (a == [] || StrLess(a[0], b[0]) || (a[0] == b[0] && PathLess(a[1..], b[1..])))
  }

  lemma {:induction false} StrLessIrreflexive(a: string)
    ensures !StrLess(a, a)
  {
    if a != [] {
      StrLessIrreflexive(a[1..]);
    }
  }

  lemma {:induction false} StrLessTrans(a: string, b: string, c: string)
    requires StrLess(a, b) && StrLess(b, c)
    ensures StrLess(a, c)
  {
    if a != [] && a[0] == b[0] && b[0] == c[0] {
      StrLessTrans(a[1..], b[1..], c[1..]);
    }
  }

  lemma {:induction false} StrLessTotal(a: string, b: string)
    requires a != b
    ensures StrLess(a, b) || StrLess(b, a)
  {
    if a != [] && b != [] && a[0] == b[0] {
      assert a == [a[0]] + a[1..] && b == [b[0]] + b[1..];
      StrLessTotal(a[1..], b[1..]);
    }
  }

  lemma {:induction false} PathLessIrreflexive(a: Path)
    ensures !PathLess(a, a)
  {
    if a != [] {
      StrLessIrreflexive(a[0]);
      PathLessIrreflexive(a[1..]);
    }
  }

  lemma {:induction false} PathLessTrans(a: Path, b: Path, c: Path)
    requires PathLess(a, b) && PathLess(b, c)
    ensures PathLess(a, c)
  {
    if a != [] {
      if StrLess(a[0], b[0]) && StrLess(b[0], c[0]) {
        StrLessTrans(a[0], b[0], c[0]);
      } else if a[0] == b[0] && b[0] == c[0] {
        PathLessTrans(a[1..], b[1..], c[1..]);
      }
    }
  }

  lemma {:induction false} PathLessTotal(a: Path, b: Path)
    requires a != b
    ensures PathLess(a, b) || PathLess(b, a)
  {
    if a != [] && b != [] {
      if a[0] != b[0] {
        StrLessTotal(a[0], b[0]);
      } else {
        assert a == [a[0]] + a[1..] && b == [b[0]] + b[1..];
        PathLessTotal(a[1..], b[1..]);
      }
    }
  }

  /** Every finite non-empty set of paths has a least member. */
  lemma {:induction false} LeastPath(s: set<Path>) returns (m: Path)
    requires s != {}
    ensures m in s && forall x :: x in s ==> x == m || PathLess(m, x)
    decreases |s|
  {
    var x :| x in s;
    if s == {x} {
      m := x;
    } else {
      var m' := LeastPath(s - {x});
      if PathLess(x, m') {
        m := x;
        forall y | y in s && y != x ensures PathLess(x, y) {
          if y != m' {
            PathLessTrans(x, m', y);
          }
        }
      } else {
        PathLessTotal(x, m');
        m := m';
      }
    }
  }

  /** Strictly ascending, so sorted and without repeats. */
  predicate Ascending(xs: seq<Path>) {
    forall i, j :: 0 <= i < j < |xs| ==> PathLess(xs[i], xs[j])
  }

  /**
   * check_orphaned: run the worklist, then go through the documents in
   * sorted order and report those never visited.  The report is sorted and
   * holds exactly the documents no chain of links reaches.
   */
  method CheckOrphaned(fs: FileSystem, docs: Path, unquote: string -> string) returns (orphaned: seq<Path>)
    requires WellFormed(fs, docs)
    ensures Ascending(orphaned)
    ensures forall p :: p in orphaned <==> p in AllDocs(fs, docs) && !Reached(EntryPoints(fs, docs), Links(fs, docs, unquote), p)
  {
    var allDocs := AllDocs(fs, docs);
    var visited, processed := Visit(fs, docs, unquote);
    orphaned := Unvisited(allDocs, visited);
  }

  /** The report loop: the documents in ascending order, keeping those not visited. */
  method Unvisited(allDocs: set<Path>, visited: set<Path>) returns (orphaned: seq<Path>)
    ensures Ascending(orphaned)
    ensures forall p :: p in orphaned <==> p in allDocs && p !in visited
  {
    orphaned := [];
    var rest := allDocs;
    while rest != {}
      invariant rest <= allDocs
      invariant Ascending(orphaned)
      invariant forall i, q :: 0 <= i < |orphaned| && q in rest ==> PathLess(orphaned[i], q)
      invariant forall p :: p in orphaned <==> p in allDocs && p !in rest && p !in visited
      decreases |rest|
    {
      ghost var least := LeastPath(rest);
      var doc :| doc in rest && forall x :: x in rest ==> x == doc || PathLess(doc, x);
      if doc !in visited {
        orphaned := orphaned + [doc];
      }
      rest := rest - {doc};
    }
  }

  /** Two ascending sequences with the same members are equal, so the report is determined. */
  lemma {:induction false} AscendingUnique(xs: seq<Path>, ys: seq<Path>)
    requires Ascending(xs) && Ascending(ys) && forall p :: p in xs <==> p in ys
    ensures xs == ys
    decreases |xs|
  {
    assert xs == [] <==> ys == [] by {
      if xs != [] {
        assert xs[0] in xs;
      }
      if ys != [] {
        assert ys[0] in ys;
      }
    }
    if xs != [] {
      assert xs[0] == ys[0] by {
        if xs[0] != ys[0] {
          assert ys[0] in ys && xs[0] in xs;
          var i :| 0 <= i < |xs| && xs[i] == ys[0];
          var j :| 0 <= j < |ys| && ys[j] == xs[0];
          PathLessTrans(xs[0], ys[0], xs[0]);
          PathLessIrreflexive(xs[0]);
        }
      }
      forall p ensures p in xs[1..] <==> p in ys[1..] {
        if p in xs[1..] {
          var i :| 1 <= i < |xs| && xs[i] == p;
          PathLessIrreflexive(xs[0]);
          assert p in xs;
          var j :| 0 <= j < |ys| && ys[j] == p;
          assert j != 0;
          assert ys[1..][j - 1] == p;
        }
        if p in ys[1..] {
          var j :| 1 <= j < |ys| && ys[j] == p;
          PathLessIrreflexive(ys[0]);
          assert p in ys;
          var i :| 0 <= i < |xs| && xs[i] == p;
          assert i != 0;
          assert xs[1..][i - 1] == p;
        }
      }
      AscendingUnique(xs[1..], ys[1..]);
    }
  }
}
