/**
 * The built-site checker: the index of paths a generated site serves,
 * normalisation of an href against the page it appears on, and the test of
 * whether an internal link resolves in the index.
 */
module CheckBuiltSite {
  import opened Strings

  // ---- site index ----

  /** The directory part of a relative file path, as Path.parent renders it ("." for a file at the top). */
  function ParentDir(relPath: string): string {
    var pieces := Split(relPath, '/');
    if |pieces| == 1 then "." else Join(pieces[..|pieces| - 1], "/")
  }

  /** The last component of a relative file path, as Path.name. */
  function FileName(relPath: string): string {
    var pieces := Split(relPath, '/');
    pieces[|pieces| - 1]
  }

  /**
   * The paths one file adds to the index: `/` and its relative path; for an
   * `index.html`, also its directory with and without a trailing `/`, or
   * just `/` for the one at the top.
   */
  function FileEntries(relPath: string): set<string> {
    var pathStr := "/" + relPath;
    if FileName(relPath) == "index.html" then
      var dirPath := "/" + ParentDir(relPath);
      if dirPath != "/." then {pathStr, dirPath, dirPath + "/"} else {pathStr, "/"}
    else {pathStr}
  }

  /** build_site_index over the site's files, given by their paths relative to the site root. */
  function SiteIndex(files: seq<string>): set<string> {
    if files == [] then {} else SiteIndex(files[..|files| - 1]) + FileEntries(files[|files| - 1])
  }

  /** A path is in the index exactly when some file adds it. */
  lemma {:induction false} SiteIndexMembers(files: seq<string>)
    ensures forall x :: x in SiteIndex(files) <==> exists i :: 0 <= i < |files| && x in FileEntries(files[i])
  {
    if files != [] {
      var init := files[..|files| - 1];
      SiteIndexMembers(init);
      assert forall i :: 0 <= i < |init| ==> init[i] == files[i];
    }
  }

  /** Every file's own path is in the index. */
  lemma SiteIndexHasFiles(files: seq<string>)
    ensures forall i :: 0 <= i < |files| ==> "/" + files[i] in SiteIndex(files)
  {
    SiteIndexMembers(files);
    forall i | 0 <= i < |files|
      ensures "/" + files[i] in SiteIndex(files)
    {
      assert "/" + files[i] in FileEntries(files[i]);
    }
  }

  lemma SiteIndexStep(files: seq<string>, k: nat)
    requires k < |files|
    ensures SiteIndex(files[..k + 1]) == SiteIndex(files[..k]) + FileEntries(files[k])
  {
    assert files[..k + 1][..k] == files[..k];
  }

  method BuildSiteIndex(files: seq<string>) returns (index: set<string>)
    ensures index == SiteIndex(files)
  {
    index := {};
    for k := 0 to |files|
      invariant index == SiteIndex(files[..k])
    {
      var relPath := files[k];
      SiteIndexStep(files, k);
      ghost var before := index;
      var pathStr := "/" + relPath;
      index := index + {pathStr};
      if FileName(relPath) == "index.html" {
        var dirPath := "/" + ParentDir(relPath);
        if dirPath != "/." {
          index := index + {dirPath};
          index := index + {dirPath + "/"};
        } else {
          index := index + {"/"};
        }
      }
      assert index == before + FileEntries(relPath);
    }
    assert files[..|files|] == files;
  }

  // ---- normalize_path ----

  /** href.split("#")[0]: the text before the first `#`. */
  function BeforeHash(href: string): (r: string)
    ensures |r| <= |href| && r == href[..|r|]
    ensures forall i :: 0 <= i < |r| ==> r[i] != '#'
    ensures |r| < |href| ==> href[|r|] == '#'
  {
    var i := IndexOfFrom(href, '#', 0);
    if i == -1 then href else href[..i]
  }

  predicate NotHash(c: char) { c != '#' }

  /** A segment the stack keeps: not empty, `.` or `..`, and free of `/`. */
  ghost predicate PlainSegment(s: string) {
    s != "" && s != "." && s != ".." && forall i :: 0 <= i < |s| ==> s[i] != '/'
  }

  /** One turn of the segment loop: `..` pops (and does nothing at the root), empty and `.` segments are dropped, others are pushed. */
  function PushPart(parts: seq<string>, part: string): seq<string> {
    if part == ".." then (if parts != [] then parts[..|parts| - 1] else parts)
    else if part != "" && part != "." then parts + [part]
    else parts
  }

  /** The stack after the first `n` segments. */
  function PartsAfter(segments: seq<string>, n: nat): seq<string>
    requires n <= |segments|
  {
    if n == 0 then [] else PushPart(PartsAfter(segments, n - 1), segments[n - 1])
  }

  /** The stack holds only plain segments, each one of the input's. */
  lemma {:induction false} PartsAfterPlain(segments: seq<string>, n: nat)
    requires n <= |segments|
    requires forall k, i :: 0 <= k < |segments| && 0 <= i < |segments[k]| ==> segments[k][i] != '/'
    ensures forall k :: 0 <= k < |PartsAfter(segments, n)| ==> PlainSegment(PartsAfter(segments, n)[k])
    ensures forall k :: 0 <= k < |PartsAfter(segments, n)| ==> PartsAfter(segments, n)[k] in segments
  {
    if n > 0 {
      PartsAfterPlain(segments, n - 1);
      var before := PartsAfter(segments, n - 1);
      var part := segments[n - 1];
      if part != ".." && part != "" && part != "." {
        assert PartsAfter(segments, n) == before + [part];
      }
    }
  }

  /** A plain segment followed by `..` leaves the stack as it was. */
  lemma PushPartCancel(parts: seq<string>, part: string)
    requires PlainSegment(part)
    ensures PushPart(PushPart(parts, part), "..") == parts
  {
    assert (parts + [part])[..|parts|] == parts;
  }

  /** `..` at the root is dropped: a path made only of `..` segments normalises to the root. */
  lemma {:induction false} PartsAfterOnlyUp(segments: seq<string>, n: nat)
    requires n <= |segments|
    requires forall k :: 0 <= k < |segments| ==> segments[k] == ".."
    ensures PartsAfter(segments, n) == []
  {
    if n > 0 {
      PartsAfterOnlyUp(segments, n - 1);
    }
  }

  /** "/".join(source_path.split("/")[:-1]) */
  function SourceDir(sourcePath: string): string {
    var pieces := Split(sourcePath, '/');
    Join(pieces[..|pieces| - 1], "/")
  }

  /** The href placed under the source page's directory. */
  function Combined(href: string, sourcePath: string): string {
    var dir := SourceDir(sourcePath);
    if dir != [] then dir + "/" + href else href
  }

  /** The path's segments run through the stack and joined under the root. */
  function Resolved(path: string): (r: string)
    ensures StartsWith(r, "/")
  {
    var segments := Split(path, '/');
    var r := "/" + Join(PartsAfter(segments, |segments|), "/");
    assert r[..1] == "/";
    r
  }

  /** normalize_path: "" for an empty href, an absolute href as it is, a relative one resolved and rooted. */
  function Normalized(href: string, sourcePath: string): string {
    var h := BeforeHash(href);
    if h == [] then []
    else if StartsWith(h, "/") then h
    else Resolved(Combined(h, sourcePath))
  }

  /** normalize_path drops the anchor; it gives "" exactly when nothing comes before the first `#`. */
  lemma NormalizedEmpty(href: string, sourcePath: string)
    ensures Normalized(href, sourcePath) == [] <==> BeforeHash(href) == []
  {
  }

  /** An absolute href comes back as it is, less its anchor. */
  lemma NormalizedAbsolute(href: string, sourcePath: string)
    requires StartsWith(BeforeHash(href), "/")
    ensures Normalized(href, sourcePath) == BeforeHash(href)
  {
  }

  /**
   * A relative href comes back rooted at `/`, and what follows the `/` is
   * either nothing or a path of plain segments: no empty, `.` or `..` one.
   */
  lemma NormalizedRelative(href: string, sourcePath: string)
    requires BeforeHash(href) != [] && !StartsWith(BeforeHash(href), "/")
    ensures var r := Normalized(href, sourcePath);
      && StartsWith(r, "/")
      && (r == "/" || forall k :: 0 <= k < |Split(r[1..], '/')| ==> PlainSegment(Split(r[1..], '/')[k]))
  {
    var segments := Split(Combined(BeforeHash(href), sourcePath), '/');
    var parts := PartsAfter(segments, |segments|);
    PartsAfterPlain(segments, |segments|);
    var r := Normalized(href, sourcePath);
    assert r == Resolved(Combined(BeforeHash(href), sourcePath)) == "/" + Join(parts, "/");
    assert r[1..] == Join(parts, "/");
    if parts != [] {
      SplitJoin(parts, '/');
    }
  }

  /** With no `#` in the source path, normalising twice is normalising once. */
  lemma NormalizedIdempotent(href: string, sourcePath: string)
    requires forall i :: 0 <= i < |sourcePath| ==> sourcePath[i] != '#'
    ensures Normalized(Normalized(href, sourcePath), sourcePath) == Normalized(href, sourcePath)
  {
    var h := BeforeHash(href);
    if h != [] && !StartsWith(h, "/") {
      CombinedNoHash(h, sourcePath);
      ResolvedNoHash(Combined(h, sourcePath));
      BeforeHashWhole(Resolved(Combined(h, sourcePath)));
    } else if h != [] {
      BeforeHashWhole(h);
    }
  }

  /** Text without `#` is all before the hash. */
  lemma BeforeHashWhole(s: string)
    requires forall i :: 0 <= i < |s| ==> s[i] != '#'
    ensures BeforeHash(s) == s
  {
    assert IndexOfFrom(s, '#', 0) == -1;
  }

  /** With no `#` in the href or the source path, there is none in the combined path. */
  lemma CombinedNoHash(h: string, sourcePath: string)
    requires forall i :: 0 <= i < |h| ==> h[i] != '#'
    requires forall i :: 0 <= i < |sourcePath| ==> sourcePath[i] != '#'
    ensures forall i :: 0 <= i < |Combined(h, sourcePath)| ==> Combined(h, sourcePath)[i] != '#'
  {
    var pieces := Split(sourcePath, '/');
    SplitChars(sourcePath, '/', NotHash);
    var dir := SourceDir(sourcePath);
    JoinChars(pieces[..|pieces| - 1], "/", NotHash);
    if dir != [] {
      assert forall i :: 0 <= i < |dir + "/"| ==> (dir + "/")[i] != '#';
      assert Combined(h, sourcePath) == (dir + "/") + h;
    }
  }

  /** Resolving a path without `#` gives one without `#`. */
  lemma ResolvedNoHash(path: string)
    requires forall i :: 0 <= i < |path| ==> path[i] != '#'
    ensures forall i :: 0 <= i < |Resolved(path)| ==> Resolved(path)[i] != '#'
  {
    var segments := Split(path, '/');
    SplitChars(path, '/', NotHash);
    var parts := PartsAfter(segments, |segments|);
    PartsAfterPlain(segments, |segments|);
    forall k, i | 0 <= k < |parts| && 0 <= i < |parts[k]|
      ensures parts[k][i] != '#'
    {
      var j :| 0 <= j < |segments| && segments[j] == parts[k];
    }
    JoinChars(parts, "/", NotHash);
    assert Resolved(path) == "/" + Join(parts, "/");
  }

  /** normalize_path, resolving the segments with an explicit stack. */
  method NormalizePath(href: string, sourcePath: string) returns (r: string)
    ensures r == Normalized(href, sourcePath)
  {
    var h := BeforeHash(href);
    if h == [] {
      return [];
    }
    if StartsWith(h, "/") {
      return h;
    }
    var combined := Combined(h, sourcePath);
    var segments := Split(combined, '/');
    var parts: seq<string> := [];
    for k := 0 to |segments|
      invariant parts == PartsAfter(segments, k)
    {
      var part := segments[k];
      if part == ".." {
        if parts != [] {
          parts := parts[..|parts| - 1];
        }
      } else if part != "" && part != "." {
        parts := parts + [part];
      }
    }
    return "/" + Join(parts, "/");
  }

  // ---- check_internal_link ----

  /** The hrefs the checker never looks up: external schemes and pure anchors. */
  predicate Skipped(href: string) {
    || StartsWith(href, "http://") || StartsWith(href, "https://") || StartsWith(href, "mailto:")
    || StartsWith(href, "tel:") || StartsWith(href, "javascript:") || StartsWith(href, "#")
  }

  /** The href with a leading site-url prefix removed and the rest rooted at `/`. */
  function Rerooted(href: string, siteUrlPath: string): (r: string)
    ensures siteUrlPath != [] && StartsWith(href, siteUrlPath) ==> StartsWith(r, "/")
    ensures siteUrlPath != [] && StartsWith(href, siteUrlPath) && StartsWith(href[|siteUrlPath|..], "/") ==>
      r == href[|siteUrlPath|..]
    ensures !(siteUrlPath != [] && StartsWith(href, siteUrlPath)) ==> r == href
  {
    if siteUrlPath != [] && StartsWith(href, siteUrlPath) then
      var rest := href[|siteUrlPath|..];
      if rest == [] then "/"
      else if !StartsWith(rest, "/") then "/" + rest
      else rest
    else href
  }

  /** The forms under which a decoded target may be served. */
  function Candidates(target: string): set<string> {
    {target, target + "/", target + "/index.html"}
    + (if EndsWith(target, "/") then {target[..|target| - 1]} else {})
    + (if EndsWith(target, ".md") then {target[..|target| - 3] + "/index.html", target[..|target| - 3] + "/"} else {})
  }

  function NotFound(target: string): string { "Target not found: " + target }

  /**
   * check_internal_link with the percent-decoding passed in as `unquote`:
   * None for a skipped href, an empty target, or when one of the
   * candidates is in the index, tried in the source's order; otherwise the
   * not-found message.
   */
  function CheckInternalLink(href: string, sourcePath: string, siteIndex: set<string>, siteUrlPath: string,
                             unquote: string -> string): (r: Option<string>)
    ensures Skipped(href) ==> r.None?
    ensures !Skipped(href) ==> var target := Normalized(Rerooted(href, siteUrlPath), sourcePath);
      && (r.None? <==> target == [] || Candidates(unquote(target)) * siteIndex != {})
      && (r.Some? ==> r.value == NotFound(unquote(target)))
  {
    if Skipped(href) then None
    else
      var target := Normalized(Rerooted(href, siteUrlPath), sourcePath);
      if target == [] then None
      else
        var decoded := unquote(target);
        if decoded in siteIndex then None
        else if decoded + "/" in siteIndex then None
        else if decoded + "/index.html" in siteIndex then None
        else if EndsWith(decoded, "/") && decoded[..|decoded| - 1] in siteIndex then None
        else if EndsWith(decoded, ".md") && decoded[..|decoded| - 3] + "/index.html" in siteIndex then None
        else if EndsWith(decoded, ".md") && decoded[..|decoded| - 3] + "/" in siteIndex then None
        else
          assert Candidates(decoded) * siteIndex == {} by {
            forall x | x in Candidates(decoded) ensures x !in siteIndex { }
          }
          Some(NotFound(decoded))
  }

  /** An absolute href without `#`, which the decoding leaves alone, resolves exactly when one of its candidates is in the index. */
  lemma AbsoluteHrefResolves(href: string, sourcePath: string, siteIndex: set<string>, unquote: string -> string)
    requires StartsWith(href, "/") && forall j :: 0 <= j < |href| ==> href[j] != '#'
    requires unquote(href) == href
    ensures CheckInternalLink(href, sourcePath, siteIndex, "", unquote).None? <==> Candidates(href) * siteIndex != {}
  {
    assert href[0] == '/';
    assert !Skipped(href);
    assert IndexOfFrom(href, '#', 0) == -1;
    assert BeforeHash(href) == href;
  }

  /**
   * Every file of a built site is a good link target from any page: its
   * absolute path, spelled without `#` and left alone by the decoding,
   * resolves in the index built from those files.
   */
  lemma BuiltFilesResolve(files: seq<string>, i: nat, sourcePath: string, unquote: string -> string)
    requires i < |files|
    requires forall j :: 0 <= j < |files[i]| ==> files[i][j] != '#'
    requires unquote("/" + files[i]) == "/" + files[i]
    ensures CheckInternalLink("/" + files[i], sourcePath, SiteIndex(files), "", unquote).None?
  {
    var href := "/" + files[i];
    SiteIndexHasFiles(files);
    assert href in Candidates(href);
    AbsoluteHrefResolves(href, sourcePath, SiteIndex(files), unquote);
  }

  /** A directory served through its index.html resolves when linked as the directory. */
  lemma IndexedDirectoryResolves(files: seq<string>, i: nat, dir: string, sourcePath: string, unquote: string -> string)
    requires i < |files| && files[i] == dir + "/index.html"
    requires forall j :: 0 <= j < |dir| ==> dir[j] != '#'
    requires unquote("/" + dir) == "/" + dir
    ensures CheckInternalLink("/" + dir, sourcePath, SiteIndex(files), "", unquote).None?
  {
    var href := "/" + dir;
    SiteIndexHasFiles(files);
    assert "/" + files[i] == href + "/index.html";
    assert href + "/index.html" in Candidates(href);
    AbsoluteHrefResolves(href, sourcePath, SiteIndex(files), unquote);
  }
}
