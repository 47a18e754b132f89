# Markdown maintenance scripts, modelled in Dafny

The repository keeps its documentation in Markdown under `docs/` and
publishes it twice: as a GitHub wiki and as an MkDocs site on GitHub Pages.
A set of scripts checks and repairs that documentation. This project models
their core logic and proves properties of it.

- **Shared link scanner** (`scripts/link_utils.py`). It holds:
  - the backslash-aware balanced-delimiter matcher;
  - the inline-link scanner and its destination reader;
  - the fenced-code and inline-code exclusion ranges;
  - the line-offset table with its binary-search line/column lookup;
  - `extract_links`, which merges inline links, `<http…>` autolinks and bare URLs into one sorted, non-overlapping list.

  Modules: `LinkScan`, `CodeRanges`, `LineMap` and `LinkExtract`.
- **Wiki sync** (`scripts/sync-wiki.py`), module `SyncWiki`. It:
  - resolves relative links with a segment stack that detects escapes from the documentation root;
  - looks pages up in the wiki structure table;
  - decides the table-row separator;
  - splices `[[Display|Page#anchor]]` links back to front;
  - records unmapped links in a `WikiSync` object.
- **Wiki-link checker** (`scripts/check_wiki_links.py`), module `CheckWikiLinks`: the `[[…]]` reader, unconverted-link detection and sidebar validation.
- **Built-site checker** (`scripts/check_built_site.py`), module `CheckBuiltSite`: site index, path normalisation and internal-link lookup.
- **Link-text fixer** (`scripts/fix_link_text.py`), module `FixLinkText`: readability test, humanised titles, replacement text, splicing of modifications and the per-link decision.
- **README transform for Pages** (`scripts/transform_readme_for_pages.py`), module `ReadmePages`: removal of the `docs/` prefix, written as an explicit scanner.
- **MkDocs link checker** (`scripts/check_mkdocs_links.py`), module `MkDocsLinks`: nav flattening, the two link rules, issue rendering and the per-file link loop.
- **Link checker** (`scripts/check_links.py`), module `CheckLinks`: slugs, numbered heading slugs, anchor checks and dispatch. A `LinkChecker` class holds the heading cache.
- **C# syntax checker** (`scripts/check_csharp_syntax.py`), module `CheckCSharpSyntax`: the delimiter-balance state machine, block extraction and balance issues.
- **C# block formatter** (`scripts/format_csharp_blocks.py`), module `FormatCSharpBlocks`: block extraction, the skip rule, line formatting, Allman braces, blank lines between members and the reverse block splice.
- **Ordered-list renumbering** (`scripts/fix_markdown_ordered_lists.py`), module `OrderedLists`.
- **Links in code blocks** (`scripts/check_links_in_code_blocks.py` and `scripts/fix_links_in_code_blocks.py`), modules `CodeBlockLinks` and `CodeBlockFix`: fence pairing, warnings, and the replacement of a linked block by its body.
- **Orphaned documents** (`scripts/check_orphaned_docs.py`), module `OrphanedDocs`: local-link extraction and the worklist reachability walk over a file system given as a map.

Shared helpers:
- `Strings`: ASCII character classes, Python-style `strip`, `split`, `join` and `find`, and `Option`.
- `Edits`: gaps interleaved with replacements, and back-to-front splicing, which every rewriting script uses.

Each regular expression is modelled as an explicit scanner that follows its
greedy or lazy semantics. Where a script loops and updates state, the model is a method with a loop, proved equal to a
recursive specification function, and the properties are lemmas about that
function.

Behaviour of the scripts worth noting:
- `convert_links` always writes the long form `[[Display|Page]]`. It never writes a short form and strips no emphasis.
- `is_in_table_row` treats any `|` line made only of `|-: ` as a separator row, whatever its dash count.
- Only the anchor of a wiki link is URL-decoded, never its path.
- Only fenced and inline code are excluded from link extraction, not HTML.

## Model

| member | source | states |
|---|---|---|
| LinkScan.FindClosing | scripts/link_utils.py:162-177 | returns the recursive matcher `Closing` from `start` at depth 0, and the answer is -1 or an index at or after `start` holding the closer |
| LinkScan.ClosingCounts | scripts/link_utils.py:162-177 | without backslashes the matcher is plain counting: the answer is the first position where the running depth (openers minus closers) returns to 0, and -1 means the depth never returns to 0 |
| LinkScan.ClosingFromOpener | scripts/link_utils.py:162-177 | from an opener at `start`, the answer is the first `r > start` where the opener/closer balance of `text[start..r+1]` is 0, with a positive balance before it; -1 means the balance stays positive to the end |
| LinkScan.ClosingSuffix | scripts/link_utils.py:165-176 | from position `m` on, the matcher reads only `text[m..]`: its answer is the answer on the suffix shifted by `m` |
| LinkScan.EscapedPairIsSkipped | scripts/link_utils.py:167-169 | a backslash skips itself and exactly one following character: inserting `\c` into backslash-free text, whatever `c` is, only moves the answer by two |
| LinkScan.ExtractHrefCases | scripts/link_utils.py:180-191 | blank content gives `""`; stripped content starting with `<` and holding a `>` gives the stripped text between `<` and the first `>`; any other stripped content gives its non-empty first whitespace-free token, followed by whitespace or the end |
| LinkScan.AfterText | scripts/link_utils.py:131-147 | after `]` at `close`, scanning resumes after `close`: at `close + 1` when no `(` follows the whitespace or it has no matching `)` |
| LinkScan.AtDestination | scripts/link_utils.py:143-159 | at a destination, scanning resumes just after its `)` whether or not a link is yielded |
| LinkScan.ScanStepFound | scripts/link_utils.py:119-159 | a link found at `idx` is well formed (starts at a `[` not after `!`, text is the bracket contents, separator is the whitespace before `(`, destination and href as read, segment is `text[start:end]`, ends just after `)`), starts at `idx`, and scanning resumes at its end |
| LinkScan.AfterTextFound | scripts/link_utils.py:131-158 | after a `[` not after `!` and its matching `]`, any link yielded is well formed, starts at the `[` and ends where scanning resumes |
| LinkScan.InOrderDisjoint | scripts/link_utils.py:116-159 | links in order start at or after the starting point, are non-empty, and each ends at or before the next one starts |
| LinkScan.ScanInlineWellFormed | scripts/link_utils.py:116-159 | every yielded link is well formed, and the links start at or after `idx`, strictly increase and do not overlap |
| LinkScan.FindInlineLinks | scripts/link_utils.py:116-159 | the generator's loop collects exactly the links of the recursive scan `ScanInline(text, 0)` |
| LinkScan.ScanOne | scripts/link_utils.py:120-130 | one pass of the loop at `idx` equals `ScanStep` |
| LinkScan.ReadDestination | scripts/link_utils.py:131-159 | the part of the loop after a matched `]` equals `AfterText` |
| LineMap.LineEnd | scripts/link_utils.py:197 | a line from `i` ends after `i`, at the end of the text or just past a `\n` |
| LineMap.LineEndNoBreak | scripts/link_utils.py:197 | no `\n` occurs inside a line except as its last character |
| LineMap.BuildLineOffsets | scripts/link_utils.py:194-200 | the loop builds exactly `LineOffsets(text)`: 0 followed by the running totals of the line lengths |
| LineMap.LineEndsFromTable | scripts/link_utils.py:194-200 | the table from `i` starts at `i`, ends at the length, strictly increases, and each entry is just past a `\n` or the end, with no `\n` inside a line |
| LineMap.LineOffsetsShape | scripts/link_utils.py:194-200 | the offsets start at 0, strictly increase and end at `len(text)`; every inner entry follows a `\n`, and every position just past a `\n` is an entry |
| LineMap.BisectRightSplits | scripts/link_utils.py:204 | on a sorted list, `bisect_right` splits the entries `<= x` from the entries `> x` |
| LineMap.IndexToLineColumnBounds | scripts/link_utils.py:203-206 | on a sorted table whose first entry is at most `index`: `line >= 1`, `offsets[line-1] <= index` (and `index < offsets[line]` when there is a next entry), and `column = index - offsets[line-1] + 1` |
| LineMap.LineColumnOfIndex | scripts/link_utils.py:194-206 | for an offset inside the text, the line is the number of `\n` before it plus one, and the column counts from the start of that line |
| CodeRanges.InRanges | scripts/link_utils.py:266-270 | true iff some range holds the index, half-open |
| CodeRanges.OverlapsAny | scripts/link_utils.py:273-277 | true iff `[start, end)` shares a position with some range |
| CodeRanges.ClosesFenceStrip | scripts/link_utils.py:224 | the closing test is exactly `line.strip().startswith(fence_char * 3)` |
| CodeRanges.FindCodeFenceRanges | scripts/link_utils.py:209-230 | the loop over the lines returns exactly the recursive fence scan from offset 0, outside a fence |
| CodeRanges.FenceLine | scripts/link_utils.py:218-226 | one line of the loop: open a fence (recording its character and start), close the open fence on a line closing it, or pass, as `FenceStep` says |
| CodeRanges.FenceScanShape | scripts/link_utils.py:209-230 | fence ranges are in order and disjoint within the text; each starts at a line start and ends at a line end or at `len(text)` |
| CodeRanges.FenceRangesShape | scripts/link_utils.py:209-230 | the ranges of the whole text are sorted and disjoint, start at line starts and end at line ends or at `len(text)` |
| CodeRanges.CountRun | scripts/link_utils.py:241-243 | the counting loop returns `RunLength` |
| CodeRanges.CloseRunShape | scripts/link_utils.py:249-262 | the closing run found is a whole run of exactly `run` backticks, and no whole run of that length starts before it |
| CodeRanges.FindCloseRun | scripts/link_utils.py:249-262 | the inner loop returns `CloseRun` |
| CodeRanges.FindInlineCodeRanges | scripts/link_utils.py:233-263 | the loop returns exactly the recursive inline-code scan from 0 |
| CodeRanges.InlineCodeShape | scripts/link_utils.py:233-263 | ranges are ascending and disjoint; each starts at a whole run of 1 or 2 backticks and ends right after the first later whole run of the same length |
| CodeRanges.InlineCodeRangesShape | scripts/link_utils.py:233-263 | the same for the whole text: runs of three or more never open a range, and an unterminated run opens none |
| LinkExtract.SchemeEndText | scripts/link_utils.py:65-85 | a match of `https?://` is exactly `http://` or `https://` |
| LinkExtract.FindIter | scripts/link_utils.py:65-86 | `re.finditer`: every span is a match of the pattern at its start, and the spans are in order and disjoint |
| LinkExtract.Trimmed | scripts/link_utils.py:92-95 | trimming stops at a character that is not one of `.,;:!?` and every dropped character is one |
| LinkExtract.LineOffsetsLocate | scripts/link_utils.py:42-98 | the offset table maps every offset inside the text to (newlines before it + 1, offset from its line start + 1) |
| LinkExtract.BareEntrySome | scripts/link_utils.py:92-97 | trimming never empties a bare match, so every bare match outside code and clear of kept links is kept, starting where it matched |
| LinkExtract.BareTrimmedLength | scripts/link_utils.py:85-95 | the `://` of the scheme is never trailing punctuation, so at least seven characters survive trimming |
| LinkExtract.ExtractedProperties | scripts/link_utils.py:37-113 | the result is sorted by start, each link ends before the next begins, and every link starts outside code, is shaped as its kind says (inline: as the scanner yields it; autolink: `<url>` with text = href = url; bare: the URL less its trailing `.,;:!?`, which becomes the separator) and carries its correct line and column |
| LinkExtract.SortedReports | scripts/link_utils.py:113 | sorting good, pairwise disjoint reports by start lines them up one after another |
| LinkExtract.InlineLinkReported | scripts/link_utils.py:44-61 | every scanned inline link that starts outside code is in the result |
| LinkExtract.AutolinkReported | scripts/link_utils.py:65-83 | every autolink outside code is in the result unless it overlaps a reported link |
| LinkExtract.BareUrlReported | scripts/link_utils.py:85-112 | every bare URL outside code is kept after trimming and is in the result unless it overlaps a reported link |
| LinkExtract.SplitAnchor | scripts/link_utils.py:280-284 | no anchor iff there is no `#`, and then the path is the href; the path never holds `#`; with an anchor the href is path + `#` + raw and the anchor is `unquote(raw)` |
| LinkExtract.ExtractLinks | scripts/link_utils.py:37-113 | the three collecting loops and the sort return exactly `Extracted(text)` |
| LinkExtract.CollectInline | scripts/link_utils.py:44-61 | the inline loop keeps exactly the scanned links outside code, with their line and column |
| LinkExtract.CollectAutolinks | scripts/link_utils.py:63-83 | the autolink loop keeps matches outside code that overlap no kept link, and the used ranges grow by exactly their spans |
| LinkExtract.CollectBare | scripts/link_utils.py:85-112 | the bare loop keeps trimmed matches outside code that overlap no kept span, and the used ranges grow by exactly their spans |
| LinkExtract.TrimBare | scripts/link_utils.py:90-111 | the entry for one bare match is `BareEntry`: trailing punctuation dropped, none when nothing is left |
| LinkExtract.DropTrailing | scripts/link_utils.py:91-95 | the trimming loop leaves the URL less its trailing `.,;:!?`, the trailing part, and the end moved back by its length |
| SyncWiki.RemoveMdSuffixCases | scripts/sync-wiki.py:131-133 | a path ending in `.md` loses exactly that suffix; any other path is returned unchanged |
| SyncWiki.RemoveMdSuffixOfAdded | scripts/sync-wiki.py:131-133 | removing the suffix from `stem + ".md"` gives back `stem` |
| SyncWiki.PathParts | scripts/sync-wiki.py:142-152 | `PurePosixPath(s).parts`: `/` comes first exactly for an absolute path; no part is empty or `.`, and no part other than the root holds `/` |
| SyncWiki.PathPartsOfJoined | scripts/sync-wiki.py:166 | a relative path rendered from clean parts reads back as those parts |
| SyncWiki.WalkEscapes | scripts/sync-wiki.py:149-164 | the escape count is positive exactly when some `..` arrives while the stack is empty |
| SyncWiki.WalkClean | scripts/sync-wiki.py:152-160 | the stack holds no `.` and no `..`, only parts of the path |
| SyncWiki.WalkPlain | scripts/sync-wiki.py:152-160 | a path with no `.` or `..` is its own normal form and never escapes |
| SyncWiki.WalkCancel | scripts/sync-wiki.py:153-155 | a part followed by `..` cancels out |
| SyncWiki.ResolveRelativeNone | scripts/sync-wiki.py:136-166 | the result is None exactly when some `..` of the resolved path meets an empty stack |
| SyncWiki.ResolveRelativePlain | scripts/sync-wiki.py:142-166 | without `..`, a link resolves to the surviving parts of the page's directory joined with the link's parts, or `.` when none survive |
| SyncWiki.ResolveRelativePath | scripts/sync-wiki.py:136-166 | the stack loop returns `ResolveRelative` |
| SyncWiki.NormalizePart | scripts/sync-wiki.py:153-160 | one part of the loop: `..` pops or counts an escape, `.` is skipped, anything else is pushed |
| SyncWiki.IsInTableRowLine | scripts/sync-wiki.py:169-197 | the line inspected is the newline-free stretch around `position`, bounded by a `\n` or the text's ends, and the answer is whether its stripped form starts with a bar and holds a character other than a bar, `-`, `:` or a space |
| SyncWiki.IsInTableRowSameLine | scripts/sync-wiki.py:176-184 | positions on one line get one answer |
| SyncWiki.TableRowExample | scripts/test_sync_wiki.py:25-30 | a line of two bar-delimited cells holding a wiki link and text is a table row |
| SyncWiki.IndentedTableRowExample | scripts/test_sync_wiki.py:63-67 | an indented row is a table row |
| SyncWiki.NotTableRowExamples | scripts/test_sync_wiki.py:38-111 | separator rows (with or without alignment colons), a row without a leading bar, a list item and the empty line are not table rows |
| SyncWiki.FirstPage | scripts/sync-wiki.py:261-267 | None iff no table entry, less `.md`, equals the key; otherwise the page of the first entry that does |
| SyncWiki.FindFirstPage | scripts/sync-wiki.py:261-267 | the loop with its `break` returns `FirstPage` |
| SyncWiki.WikiNameCases | scripts/sync-wiki.py:261-271 | when some entry matches the key exactly, the page is that of the first such entry; only when none does are the root names consulted |
| SyncWiki.LookupWikiName | scripts/sync-wiki.py:261-271 | the table loop and the root-name fallback return `WikiName` |
| SyncWiki.WikiStructure | scripts/sync-wiki.py:31-113 | the table of documentation paths and wiki pages holds the script's 71 entries, in source order |
| SyncWiki.OnlyRootEndsWithSlash | scripts/sync-wiki.py:136-166 | a resolved path ends in `/` only when it is `/` itself |
| SyncWiki.SlashRuleFires | scripts/sync-wiki.py:248-257 | the trailing-slash rule of the lookup fires exactly for the root and for a resolved path whose last segment is the name `.md`, other than `docs/.md` |
| SyncWiki.KeyStemSlash | scripts/sync-wiki.py:248-253 | for a path that ends in `/` only when it is the root, the key without `.md` and `docs/` ends in `/` exactly in those cases |
| SyncWiki.DotMdIsSectionReadme | scripts/sync-wiki.py:248-257 | a resolved `best-practices/.md` is looked up as `best-practices/README` |
| SyncWiki.DecideKeep | scripts/sync-wiki.py:213-236 | a link is left alone iff it starts in code, is not inline, has an href starting `http://`, `https://`, `#` or `mailto:`, or has an empty path before `#` |
| SyncWiki.DecideReport | scripts/sync-wiki.py:239-299 | a link that is not left alone is reported as "path escapes documentation root" iff its path does not resolve, and as "no mapping found" iff it resolves to a key with no wiki page |
| SyncWiki.DecideReplace | scripts/sync-wiki.py:249-296 | a link that resolves to a page becomes `[[display SEP page anchor]]`: the link text unless blank, else the page; SEP is a backslash and a bar inside a table row, else a bar; `#` plus the decoded anchor when non-empty |
| SyncWiki.DecideLink | scripts/sync-wiki.py:213-299 | the body of the loop for one link returns `Decide` |
| SyncWiki.DecideAt | scripts/sync-wiki.py:212-299 | the decision for link `i` is entry `i` of the page's outcomes |
| SyncWiki.ReplacementsOfReplaced | scripts/sync-wiki.py:296 | every replacement is a replaced link's span with its wiki link, and every replaced link has one |
| SyncWiki.ReportsOfReported | scripts/sync-wiki.py:243-299 | a record `(file, href, reason)` is made exactly for each reported link, from the last link to the first |
| SyncWiki.ReplacementsChain | scripts/sync-wiki.py:210-296 | links in order and apart give replacements in order and apart |
| SyncWiki.ConvertFromSplices | scripts/sync-wiki.py:211-296 | handling the links from the last to the first is splicing their replacements back to front |
| SyncWiki.ExtractedSpans | scripts/sync-wiki.py:208 | the extracted links lie inside the text, in order and apart |
| SyncWiki.RebuildsFrontToBack | scripts/sync-wiki.py:210-296 | splicing sorted, apart links from the last to the first rebuilds the text front to back: the text outside the rewritten spans is unchanged |
| SyncWiki.ConvertedRebuilds | scripts/sync-wiki.py:200-301 | the replacements of a page are in order within the text, and the converted page is the original gaps interleaved with the wiki links |
| SyncWiki.WikiSync.ConvertLinks | scripts/sync-wiki.py:200-301 | returns `Converted(content, ...)` and appends exactly the page's unmapped records to the accumulator, nothing else |
| SyncWiki.WikiSync.RewriteLinks | scripts/sync-wiki.py:211-301 | the reversed loop returns the back-to-front conversion and appends the records of the reported links |
| SyncWiki.WikiSync.HandleLink | scripts/sync-wiki.py:242-299 | one link's outcome: its replacement is spliced in, or its record is appended |
| Edits.BackToFrontIsInterleave | scripts/sync-wiki.py:210-296 | splicing sorted, disjoint edits from the last to the first keeps every original offset valid: the outcome is the front-to-back rebuild |
| Edits.SortBySorted | scripts/link_utils.py:113 | a list already sorted by key is returned unchanged by the stable sort |
| Edits.SortByPairwise | scripts/link_utils.py:113 | sorting keeps every symmetric relation that held between all pairs |
| Edits.SortByMember | scripts/link_utils.py:113 | an element of the sorted list is an element of the input |
| Edits.InterleaveLength | scripts/fix_link_text.py:169-177 | the rebuilt length is the original length plus, per edit, the growth of its span |
| Edits.SortBy | scripts/link_utils.py:113 | `sorted(..., key=...)`: the result is sorted by key and is a permutation of the input |
| Edits.SortByStable | scripts/link_utils.py:113 | `sorted` is stable: for every key value, the elements with that key come out in their input order |
| CheckWikiLinks.FormatMessage | scripts/check_wiki_links.py:37-39 | the message starts with the severity's value and `": "`, and the rest is the message itself |
| CheckWikiLinks.FormatMessageInjective | scripts/check_wiki_links.py:37-39 | a formatted message determines its severity and its text |
| CheckWikiLinks.WikiMatchAt | scripts/check_wiki_links.py:71 | the pattern matches at `p` exactly where `[[`, a page character, a stretch with no `]` and `]]` end; that end is the only one possible |
| CheckWikiLinks.FindWiki | scripts/check_wiki_links.py:73 | `finditer`: the matches are in order, disjoint, and each is a wiki-link match |
| CheckWikiLinks.FindWikiCovers | scripts/check_wiki_links.py:73 | `finditer` skips no match: every place the pattern matches is reported or lies inside a reported match |
| CheckWikiLinks.PageEnd | scripts/check_wiki_links.py:71 | group 1 is the longest run of characters other than `]`, `#` and the bar |
| CheckWikiLinks.PageAt | scripts/check_wiki_links.py:76 | the page name holds no `]`, `#` or bar and, when not empty, neither starts nor ends with whitespace |
| CheckWikiLinks.PageAtEmpty | scripts/check_wiki_links.py:76 | the page name is empty exactly when group 1 is all whitespace |
| CheckWikiLinks.AnchorAt | scripts/check_wiki_links.py:71-77 | the anchor is empty exactly when no `#` follows the page field; otherwise it is `#` and the longest run of characters other than `]` and the bar |
| CheckWikiLinks.WikiLinksMembers | scripts/check_wiki_links.py:57-82 | a link is returned exactly when some match starts outside code and reads as it: page, anchor, and the number of `\n` before the match plus one |
| CheckWikiLinks.WikiFromFirst | scripts/check_wiki_links.py:73-80 | links come in match order: the first link returned is that of the first match outside code |
| CheckWikiLinks.ExtractWikiLinks | scripts/check_wiki_links.py:57-82 | the method returns `WikiLinks(content)` |
| CheckWikiLinks.ReadWikiLinks | scripts/check_wiki_links.py:73-80 | the loop keeps, in order, the matches outside code, each read into a link |
| CheckWikiLinks.DotRelativeIsPrefix | scripts/check_wiki_links.py:98 | the href test is "starts with `./` or `../`" |
| CheckWikiLinks.HasMdIsContains | scripts/check_wiki_links.py:98 | the `.md` test is "contains `.md`" |
| CheckWikiLinks.UnconvertedAt | scripts/check_wiki_links.py:98 | a match at `p` starts at `p`, runs from `[` to `)`, and its href (the text before that `)`) starts with `./` or `../`, holds `.md` and no `)` |
| CheckWikiLinks.ShapedAt | scripts/check_wiki_links.py:98 | the positions of `]`, `(`, the `./`/`../`, `.md` and `)` make a match of that shape |
| CheckWikiLinks.FindUnconverted | scripts/check_wiki_links.py:100 | `finditer`: matches of that shape, in order, none overlapping |
| CheckWikiLinks.FindUnconvertedCovers | scripts/check_wiki_links.py:100 | every place the pattern matches is reported or lies inside a reported match |
| CheckWikiLinks.DotRelativeNotExternal | scripts/check_wiki_links.py:104-106 | the external-URL filter never fires on a matched href, which begins with `.` |
| CheckWikiLinks.UnconvertedFromShape | scripts/check_wiki_links.py:100-108 | every reported href starts with `./` or `../` and contains `.md` |
| CheckWikiLinks.UnconvertedLinksShape | scripts/check_wiki_links.py:85-110 | reported links have such hrefs, and a link is reported exactly when some match starts outside code, with its href and the number of `\n` before it plus one |
| CheckWikiLinks.FindUnconvertedLinks | scripts/check_wiki_links.py:85-110 | the method returns `UnconvertedLinks(content)` |
| CheckWikiLinks.ReadUnconverted | scripts/check_wiki_links.py:100-108 | the loop keeps, in order, the matches outside code whose href is not external |
| CheckWikiLinks.SidebarMessageCritical | scripts/check_wiki_links.py:225-230 | every missing-page message starts with `CRITICAL: ` |
| CheckWikiLinks.MissingPagesCount | scripts/check_wiki_links.py:223-231 | there are as many messages as links whose page is not in the page set |
| CheckWikiLinks.MissingPagesMembers | scripts/check_wiki_links.py:223-231 | a message is emitted exactly for the links to missing pages |
| CheckWikiLinks.MissingPagesExact | scripts/check_wiki_links.py:223-231 | exactly one CRITICAL message per link to a missing page, only those, and none exactly when every page exists |
| CheckWikiLinks.ValidateSidebarLinks | scripts/check_wiki_links.py:209-233 | a missing sidebar gives the single CRITICAL "does not exist" message; otherwise the result is `MissingPages` of the sidebar's links |
| CheckWikiLinks.ReportMissing | scripts/check_wiki_links.py:223-231 | the loop appends, in order, one message per link whose page is missing |
| CheckBuiltSite.SiteIndexMembers | scripts/check_built_site.py:57-80 | a path is in the index exactly when some file adds it: `/`+its path, and for an `index.html` its directory with and without `/`, or `/` at the top |
| CheckBuiltSite.SiteIndexHasFiles | scripts/check_built_site.py:67-69 | every file's own `/`-rooted path is in the index |
| CheckBuiltSite.BuildSiteIndex | scripts/check_built_site.py:57-80 | the loop builds `SiteIndex(files)` |
| CheckBuiltSite.BeforeHash | scripts/check_built_site.py:86 | `split("#")[0]` is the longest prefix without `#`, and a `#` follows it when it is not the whole href |
| CheckBuiltSite.PartsAfterPlain | scripts/check_built_site.py:102-108 | the parts stack only holds segments of the input that are not empty, `.` or `..` |
| CheckBuiltSite.PushPartCancel | scripts/check_built_site.py:104-108 | pushing a plain segment and then `..` leaves the stack as it was |
| CheckBuiltSite.PartsAfterOnlyUp | scripts/check_built_site.py:104-106 | a `..` at the root is dropped: a path of `..` segments only leaves the stack empty |
| CheckBuiltSite.NormalizedEmpty | scripts/check_built_site.py:86-88 | the result is `""` exactly when nothing comes before the first `#` |
| CheckBuiltSite.NormalizedAbsolute | scripts/check_built_site.py:90-92 | an absolute href comes back unchanged, less its anchor |
| CheckBuiltSite.NormalizedRelative | scripts/check_built_site.py:95-110 | a relative href gives a path starting with `/` whose segments are all plain (no empty, `.` or `..` segment) |
| CheckBuiltSite.NormalizedIdempotent | scripts/check_built_site.py:83-110 | when the source path has no `#`, normalising a normalised path changes nothing |
| CheckBuiltSite.NormalizePath | scripts/check_built_site.py:83-110 | the stack loop computes `Normalized(href, sourcePath)` |
| CheckBuiltSite.Rerooted | scripts/check_built_site.py:135-140 | a leading site-url prefix is removed and the rest begins with `/`; an href without the prefix is kept as it is |
| CheckBuiltSite.CheckInternalLink | scripts/check_built_site.py:113-174 | None for the skipped schemes and pure anchors; otherwise None exactly when the target is empty or one of its candidate forms is in the index, and else `Target not found: ` and the decoded target |
| CheckBuiltSite.AbsoluteHrefResolves | scripts/check_built_site.py:150-174 | an absolute href without `#` resolves exactly when the target, `target/`, `target/index.html`, the target less a final `/`, or for `.md` `base/index.html` or `base/`, is in the index |
| CheckBuiltSite.BuiltFilesResolve | scripts/check_built_site.py:64-152 | a link to any file of the built site, spelled `/`+its path, resolves |
| CheckBuiltSite.IndexedDirectoryResolves | scripts/check_built_site.py:72-152 | a link to a directory with an `index.html` resolves |
| FixLinkText.HrefAsTextNotReadable | scripts/fix_link_text.py:98-99 | text equal to the href, ignoring case and surrounding whitespace, is never readable |
| FixLinkText.ReadableHasLetter | scripts/fix_link_text.py:93-101 | readable text is not blank and has an ASCII letter |
| FixLinkText.WebAddressNotReadable | scripts/fix_link_text.py:96-97 | text that is itself an `http://` or `https://` address, in any case, is not readable |
| FixLinkText.HostAsTextNotReadable | scripts/fix_link_text.py:102-105 | text naming the href's host, in any case, is not readable |
| FixLinkText.Title | scripts/fix_link_text.py:148-155 | `str.title()` keeps the length |
| FixLinkText.TitleKeepsKinds | scripts/fix_link_text.py:148-155 | title case keeps letters letters and other characters as they were |
| FixLinkText.TitleProperties | scripts/fix_link_text.py:148-155 | title case gives words that start with a capital and go on in lower case, and agrees with the input ignoring case |
| FixLinkText.TitleFixed | scripts/fix_link_text.py:148-155 | title case is idempotent: title-cased text is left as it is |
| FixLinkText.CollapseSpace | scripts/fix_link_text.py:147 | `re.sub(r"\s+", " ", …)` leaves no whitespace but single spaces, is empty only for empty input, and keeps whether the text starts with whitespace |
| FixLinkText.CollapseSpaceKeeps | scripts/fix_link_text.py:147 | collapsing keeps every non-whitespace character in order and adds only spaces |
| FixLinkText.HumanizeAnchorShape | scripts/fix_link_text.py:145-148 | the label is title-cased and single-spaced, holds no `-` or `_`, and has no whitespace at either end |
| FixLinkText.Stem | scripts/fix_link_text.py:152 | `splitext(name)[0]` is a prefix of the name |
| FixLinkText.StemDropsExtension | scripts/fix_link_text.py:152 | a file name with an extension loses just the extension |
| FixLinkText.DropNumber | scripts/fix_link_text.py:153 | `re.sub(r"^\d+[-_]?", "", …)` removes a prefix, and only when the name starts with a digit |
| FixLinkText.DropNumberPrefix | scripts/fix_link_text.py:153 | a number and at most one `-` or `_` after it come off whole, and nothing more |
| FixLinkText.HumanizeFileNameShape | scripts/fix_link_text.py:151-155 | the label is title-cased, holds no `-` or `_`, and has no whitespace at either end |
| FixLinkText.BuildReplacement | scripts/fix_link_text.py:158-166 | None exactly for a blank suggestion; else the result begins with `[`, the stripped suggestion and `]` |
| FixLinkText.ReplacementLayout | scripts/fix_link_text.py:164-165 | an autolink or bare URL becomes `[t](href)` |
| FixLinkText.InlineReplacementLayout | scripts/fix_link_text.py:162-163 | an inline link becomes `[t]`, its original separator, then `(`, its original destination text and `)` |
| FixLinkText.InlineReplacementScans | scripts/fix_link_text.py:162-163 | an inline rewrite with a plain label and destination reads back as one inline link with the new label and the original href, separator and destination |
| FixLinkText.RewrittenLinkScans | scripts/fix_link_text.py:162-163 | an inline rewrite `[t]sep(dest)` reads back through the inline-link scanner as one link with label `t`, the same separator, destination and href |
| FixLinkText.ReplacementScans | scripts/fix_link_text.py:164-165 | an autolink or bare rewrite reads back as one inline link with the new label and the original href |
| FixLinkText.ApplyModifications | scripts/fix_link_text.py:169-177 | the result is the gaps of the text interleaved with the replacements, with the edits taken in start order |
| FixLinkText.Rebuild | scripts/fix_link_text.py:170-177 | the chunk loop computes that interleaving over edits already in order |
| FixLinkText.NoModifications | scripts/fix_link_text.py:169-177 | with no edits the text comes back unchanged |
| FixLinkText.DisjointModifications | scripts/fix_link_text.py:169-177 | for ordered, disjoint edits the result equals splicing them back to front, and its length grows by what the edits add |
| FixLinkText.ReviewExclusive | scripts/fix_link_text.py:56-68 | a link not flagged gives nothing; a flagged link gives one modification over its own span (only with `--fix`) or one issue, the link itself |
| FixLinkText.ReviewCounts | scripts/fix_link_text.py:56-68 | issues and modifications together number the flagged links, without `--fix` there are no modifications, and each modification uses a link's span |
| FixLinkText.ModificationsChain | scripts/fix_link_text.py:66-71 | links in order and apart give modifications in order and apart |
| FixLinkText.ReviewLinks | scripts/fix_link_text.py:53-68 | the loop returns the issues and the modifications of the links in order |
| FixLinkText.FixFile | scripts/fix_link_text.py:51-72 | under `--fix` the document becomes the original with each modification spliced into its link's span, and the issues are those of the review |
| ReadmePages.MatchAt | scripts/transform_readme_for_pages.py:26 | a match found at `p` has its `docs/` after `[`, `](` and an optional `./`, and ends after at least one more character and the `)` |
| ReadmePages.DeletionsShape | scripts/transform_readme_for_pages.py:26-34 | the substitution's edits are in order and apart, and each deletes exactly the five characters `docs/` |
| ReadmePages.DeletionAt | scripts/transform_readme_for_pages.py:28-32 | each single edit removes a `docs/` and inserts nothing |
| ReadmePages.TransformIsDeletion | scripts/transform_readme_for_pages.py:28-34 | the output is the input with those edits made and everything else kept in order |
| ReadmePages.TransformLinksDeletes | scripts/transform_readme_for_pages.py:22-34 | the whole substitution deletes one `docs/` per match, keeps the rest verbatim, and shortens the text by five per match |
| ReadmePages.ChangedIffMatched | scripts/transform_readme_for_pages.py:53-66 | a change is reported exactly when the pattern matched somewhere |
| ReadmePages.NoDocsUnchanged | scripts/transform_readme_for_pages.py:26-34 | content without `docs/` comes back unchanged |
| ReadmePages.DotDocsLink | scripts/transform_readme_for_pages.py:6-32 | `[t](./docs/P)` becomes `[t](./P)` |
| ReadmePages.DocsLink | scripts/transform_readme_for_pages.py:7-32 | `[t](docs/P)` becomes `[t](P)` |
| ReadmePages.WholeLinkRewritten | scripts/transform_readme_for_pages.py:26-32 | a text that is one matching link loses exactly its `docs/` |
| ReadmePages.EmptyPathUnchanged | scripts/transform_readme_for_pages.py:26 | `[t](docs/)` is left alone: one character other than `)` must follow `docs/` |
| ReadmePages.NoMatchHere | scripts/transform_readme_for_pages.py:26 | no position of `[t](docs/)` starts a match |
| MkDocsLinks.NavFilesMember | scripts/check_mkdocs_links.py:97-112 | a file is collected exactly when it is a string entry, a string value of a mapping entry, or collected from a list value of one; nothing else is |
| MkDocsLinks.ExtractNavFiles | scripts/check_mkdocs_links.py:97-112 | the walk adds exactly `NavFiles(nav)` to the accumulator |
| MkDocsLinks.DictInto | scripts/check_mkdocs_links.py:106-110 | the inner loop adds exactly the files of a mapping's values |
| MkDocsLinks.RenderFields | scripts/check_mkdocs_links.py:66-68 | a rendered issue's first three `:` fields read back as its path, line and column |
| MkDocsLinks.HasDocsPrefixCases | scripts/check_mkdocs_links.py:216-217 | `^\.?/?docs/` matches exactly the prefixes `docs/`, `.docs/`, `/docs/` and `./docs/` |
| MkDocsLinks.DocsPrefixIssue | scripts/check_mkdocs_links.py:198-228 | a docs-prefix issue, at the link's line and column, is reported exactly for a page in the docs directory, not among the rewritten files, whose stripped href has one of those prefixes |
| MkDocsLinks.TransformedFilesExempt | scripts/check_mkdocs_links.py:205-210 | with no set given, `README.md` and `CHANGELOG.md` never get a docs-prefix issue |
| MkDocsLinks.OutsideDocsExempt | scripts/check_mkdocs_links.py:214 | a page outside the docs directory never gets a docs-prefix issue |
| MkDocsLinks.AbsolutePathIssue | scripts/check_mkdocs_links.py:238-258 | an absolute-path issue, at the link's line and column, is reported exactly for a stripped href starting with `/` but not `//` |
| MkDocsLinks.LinkIssuesShape | scripts/check_mkdocs_links.py:294-306 | one link adds at most two issues, at its own line and column, and none when it is exempt |
| MkDocsLinks.BothIssuesOrdered | scripts/check_mkdocs_links.py:294-306 | a link with both issues gets the docs-prefix one first |
| MkDocsLinks.IssuesShape | scripts/check_mkdocs_links.py:294-308 | a file gets at most two issues per link, each at some link's place, and none when all links are exempt |
| MkDocsLinks.CheckLink | scripts/check_mkdocs_links.py:295-306 | the loop body appends the link's issues, compatibility first |
| MkDocsLinks.ValidateLinks | scripts/check_mkdocs_links.py:294-308 | the loop returns `FileIssues` of the file's links |
| CheckLinks.KeptAreSlugChars | scripts/check_links.py:145 | only `[a-z0-9-]` characters survive the filter |
| CheckLinks.SlugShape | scripts/check_links.py:141-146 | a slug holds only `[a-z0-9-]` and neither starts nor ends with `-` |
| CheckLinks.WordsJoined | scripts/check_links.py:144 | two words separated by one whitespace run are joined by a single `-` |
| CheckLinks.SlugifyIdempotent | scripts/check_links.py:141-146 | a slug is its own slug |
| CheckLinks.SlugOfSlug | scripts/check_links.py:141-146 | text of slug characters with no `-` at either end is left as it is |
| CheckLinks.HeadingLine | scripts/check_links.py:127-132 | an indented run of `#` and a body not starting with `#` is a heading whose text is the trimmed body, and none when the body is blank |
| CheckLinks.NotHeading | scripts/check_links.py:127-129 | a line whose first non-blank character is not `#` is not a heading |
| CheckLinks.CountsAreOccurrences | scripts/check_links.py:134-135 | the counter of a base slug is the number of headings so far with that base |
| CheckLinks.OccurrenceNumbering | scripts/check_links.py:136 | occurrence 0 of a base gets the bare base, occurrence `k` gets `base-k` |
| CheckLinks.HeadingSlug | scripts/check_links.py:133-137 | the `k`-th heading with base slug `s` is entered under `s` or `s-k` with its text |
| CheckLinks.SlugTableKeys | scripts/check_links.py:124-137 | every slug in the table names some heading, numbered by the earlier headings with its base, and maps to that heading's text |
| CheckLinks.SlugsStep | scripts/check_links.py:126-137 | one more line adds its heading, numbered, to the table, and a line that is not a heading changes nothing |
| CheckLinks.HeadingSlugs | scripts/check_links.py:124-137 | the loop builds `SlugTable(lines)` |
| CheckLinks.AnchorCheck | scripts/check_links.py:104-113 | a blank anchor fails with "Empty anchor reference"; with no table the check passes; otherwise it passes exactly when the stripped anchor is a slug, and fails with "Missing anchor '#…'" |
| CheckLinks.Suffix | scripts/check_links.py:116 | a suffix, when there is one, starts with `.`, has a character after it, and ends the file name; its dot is the last `.` of the name |
| CheckLinks.SchemeOf | scripts/check_links.py:41 | urlparse's scheme (`FixLinkText.UrlScheme`, shared with the link-text fixer) of a scheme name followed by `:` is that name in lower case |
| CheckLinks.RouteOf | scripts/check_links.py:40-49 | `mailto`/`tel` are skipped, `http`/`https` go to the remote check, other links starting with `#` are checked against the page, and the rest go to the path check |
| CheckLinks.FragmentRoute | scripts/check_links.py:46-47 | a link `#x` is always checked against the page itself, with anchor `x` |
| CheckLinks.FileIssuesCount | scripts/check_links.py:39-60 | there is at most one issue per link |
| CheckLinks.FailingLinkReported | scripts/check_links.py:50-59 | every failing link's issue is reported |
| CheckLinks.IssueHasLink | scripts/check_links.py:39-60 | every reported issue is the issue of one of the links |
| CheckLinks.IssueFields | scripts/check_links.py:40-59 | an issue exists only for a link that is not skipped and whose check failed, and holds the link's line, column, stripped href and the check's message |
| CheckLinks.LinkChecker.GetHeadingSlugs | scripts/check_links.py:115-139 | returns the table of a Markdown path (empty for a missing file) or None; a cached table is returned as it was; only that path's entry is added |
| CheckLinks.LinkChecker.CheckLocalAnchor | scripts/check_links.py:104-113 | returns `AnchorCheck` of the target's table; a blank anchor looks nothing up |
| CheckLinks.LinkChecker.Dispatch | scripts/check_links.py:40-49 | the check the route selects, None for a skipped link |
| CheckLinks.LinkChecker.CheckLink | scripts/check_links.py:40-59 | one link's issue, if any |
| CheckLinks.LinkChecker.CheckLinks | scripts/check_links.py:39-60 | the loop returns `FileIssues` of the links |
| CheckLinks.LinkChecker.ProcessFile | scripts/check_links.py:36-60 | the issues of the page's extracted links, in order; in the model, where `local` is a pure parameter, at most the page's own cache entry is added |
| CheckCSharpSyntax.VerbatimEnd | scripts/check_csharp_syntax.py:124-131 | a verbatim string's body ends at the first `"` that is not doubled, or at the end of the code |
| CheckCSharpSyntax.SkipVerbatim | scripts/check_csharp_syntax.py:124-131 | the inner loop stops at `VerbatimEnd` |
| CheckCSharpSyntax.CheckBalanced | scripts/check_csharp_syntax.py:72-153 | the scan loop returns `Balance(code, open, close)` |
| CheckCSharpSyntax.StepShape | scripts/check_csharp_syntax.py:82-153 | a turn of the loop keeps the depth non-negative, and every answer is `(depth == 0, depth)` with depth at least -1 |
| CheckCSharpSyntax.BalancedIffZero | scripts/check_csharp_syntax.py:148-153 | the first component is true exactly when the depth is 0 |
| CheckCSharpSyntax.NegativeDepthIsMinusOne | scripts/check_csharp_syntax.py:146-149 | the scan returns as soon as closers exceed openers, so a negative depth is always -1 |
| CheckCSharpSyntax.PlainBalance | scripts/check_csharp_syntax.py:143-153 | in code with no literal or comment characters, the answer is openers minus closers when no prefix closes more than it opens, and `(false, -1)` otherwise |
| CheckCSharpSyntax.StringSkipped | scripts/check_csharp_syntax.py:120-136 | a `"…"` literal without quote or backslash inside is skipped whole, delimiters and all |
| CheckCSharpSyntax.CharSkipped | scripts/check_csharp_syntax.py:138-141 | a `'…'` literal without apostrophe or backslash inside is skipped whole |
| CheckCSharpSyntax.EscapeInLiteral | scripts/check_csharp_syntax.py:85-93 | inside a string or char literal a backslash skips itself and the next character |
| CheckCSharpSyntax.BackslashOutside | scripts/check_csharp_syntax.py:90 | outside literals a backslash is an ordinary character |
| CheckCSharpSyntax.BlockCommentSkipped | scripts/check_csharp_syntax.py:106-117 | a `/* … */` comment is skipped up to the first `*/` after the `/*` |
| CheckCSharpSyntax.LineCommentSkipped | scripts/check_csharp_syntax.py:99-105 | a `//` comment is skipped to just past the next newline |
| CheckCSharpSyntax.LineCommentEndsScan | scripts/check_csharp_syntax.py:101-153 | a `//` with no later newline ends the scan with the depth reached |
| CheckCSharpSyntax.VerbatimSkipped | scripts/check_csharp_syntax.py:120-133 | a `"` right after `@` skips to just past the first undoubled `"` |
| CheckCSharpSyntax.VerbatimDoubledQuote | scripts/check_csharp_syntax.py:126-129 | a doubled quote does not end a verbatim string |
| CheckCSharpSyntax.ExtractCSharpBlocks | scripts/check_csharp_syntax.py:38-69 | the line loop returns `CSharpBlocks(content, file)` |
| CheckCSharpSyntax.BlockCut | scripts/check_csharp_syntax.py:51-67 | every block's code is the lines strictly between a `` ```csharp ``/`` ```cs `` opener and the next fence line, joined with `\n`, and its line is the opener's plus one |
| CheckCSharpSyntax.BlockFound | scripts/check_csharp_syntax.py:51-65 | every terminated block is extracted: a `` ```csharp ``/`` ```cs `` opener, no fence until a closing fence that is not an opener, gives exactly one block of the lines between, starting one line after the opener |
| CheckCSharpSyntax.BlocksGrow | scripts/check_csharp_syntax.py:58-65 | blocks already extracted never change: later lines only append |
| CheckCSharpSyntax.UnterminatedDropped | scripts/check_csharp_syntax.py:51-69 | a block with no closing fence before the end is dropped |
| CheckCSharpSyntax.Snippet | scripts/check_csharp_syntax.py:174 | code of up to 100 characters is shown whole; longer code as its first 100 and `...` |
| CheckCSharpSyntax.CheckCodeBlock | scripts/check_csharp_syntax.py:156-229 | returns the brace, parenthesis and bracket issues in that order |
| CheckCSharpSyntax.BlankBlockClean | scripts/check_csharp_syntax.py:161-163 | a blank block has no issues |
| CheckCSharpSyntax.PairReported | scripts/check_csharp_syntax.py:165-229 | each pair gives at most one issue, and gives one exactly when its depth is not 0 |
| CheckCSharpSyntax.AtMostThree | scripts/check_csharp_syntax.py:165-229 | a block has at most three balance issues |
| CheckCSharpSyntax.ExtraReportsOne | scripts/check_csharp_syntax.py:177-185 | too many closers is always reported as one extra closer |
| FormatCSharpBlocks.ExtractCSharpBlocks | scripts/format_csharp_blocks.py:31-60 | the line loop returns `Blocks(content)` |
| FormatCSharpBlocks.BlocksInPlace | scripts/format_csharp_blocks.py:41-58 | every block has an opener at its 1-based `line_start`, a fence at `line_end` and the lines between as content; blocks are in file order and apart |
| FormatCSharpBlocks.SameBlocks | scripts/format_csharp_blocks.py:41-58 | the formatter's blocks are the syntax checker's blocks, whose code line is one after the opener |
| FormatCSharpBlocks.FormatLine | scripts/format_csharp_blocks.py:121-142 | blank lines and `//`, `/*`, `*` comment lines come back unchanged; any other line keeps its indentation |
| FormatCSharpBlocks.FormatLineTrims | scripts/format_csharp_blocks.py:126-142 | when the spacing passes change nothing, a code line only loses its trailing whitespace |
| FormatCSharpBlocks.FormatEachLine | scripts/format_csharp_blocks.py:89-94 | the loop formats each line on its own and keeps the number of lines |
| FormatCSharpBlocks.FormatBracesAllman | scripts/format_csharp_blocks.py:206-244 | the loop returns `Allman(code)` |
| FormatCSharpBlocks.BraceLinesSplitIff | scripts/format_csharp_blocks.py:218-240 | a line is split exactly when its stripped form ends in ` {`, is not `{`, does not end in `= {`, holds none of ` = new `, `=> {`, `= new(` and does not start with `[`; every other line is copied |
| FormatCSharpBlocks.SplitHasContent | scripts/format_csharp_blocks.py:233-238 | a selected line always has content before ` {`, so the fallback at line 237-238 never fires |
| FormatCSharpBlocks.BraceLinesForm | scripts/format_csharp_blocks.py:232-236 | a split line becomes the indentation and the content, then the indentation and `{` |
| FormatCSharpBlocks.BraceLinesKeepText | scripts/format_csharp_blocks.py:232-236 | splitting only moves whitespace: the non-whitespace characters stay, in order |
| FormatCSharpBlocks.AllmanKeepsText | scripts/format_csharp_blocks.py:206-244 | the whole pass keeps every non-whitespace character in order |
| FormatCSharpBlocks.AllmanLength | scripts/format_csharp_blocks.py:206-244 | the pass adds one line per split line |
| FormatCSharpBlocks.EnsureBlankLinesBetweenMembers | scripts/format_csharp_blocks.py:246-268 | the loop returns `MembersSpaced(code)` |
| FormatCSharpBlocks.SpacedOnlyInserts | scripts/format_csharp_blocks.py:252-266 | only empty lines are inserted; the input lines stay in order |
| FormatCSharpBlocks.SpacedLength | scripts/format_csharp_blocks.py:252-266 | exactly one line is inserted per `}` line followed by a member line |
| FormatCSharpBlocks.ShortCodeUnspaced | scripts/format_csharp_blocks.py:249-250 | code of fewer than three lines is returned as it is |
| FormatCSharpBlocks.ShortLineSkipped | scripts/format_csharp_blocks.py:116-117 | a single stripped line under 40 characters is skipped |
| FormatCSharpBlocks.BlankSkipped | scripts/format_csharp_blocks.py:106-108 | blank code is skipped |
| FormatCSharpBlocks.NoCarriageReturnUnchanged | scripts/format_csharp_blocks.py:86 | the line-ending normalisation leaves text without `\r` alone |
| FormatCSharpBlocks.Formatted | scripts/format_csharp_blocks.py:76-83 | blank or skipped code is returned unchanged |
| FormatCSharpBlocks.FormatCode | scripts/format_csharp_blocks.py:76-101 | the method computes `Formatted(code, passes)` |
| FormatCSharpBlocks.FormatBlock | scripts/format_csharp_blocks.py:288-303 | a block's formatted body is spliced between its fences exactly when formatting changed it |
| FormatCSharpBlocks.FormatMarkdownFile | scripts/format_csharp_blocks.py:271-310 | the reverse loop returns `FormatFile(original, passes)`: changed flag, count and new text |
| FormatCSharpBlocks.SpliceKeepsPrefix | scripts/format_csharp_blocks.py:298-303 | a splice keeps every line up to and including the opener |
| FormatCSharpBlocks.ReverseOrderKeepsLines | scripts/format_csharp_blocks.py:286-303 | working from the last block back leaves all lines up to each earlier block's closing fence as they were |
| FormatCSharpBlocks.BlockStillInPlace | scripts/format_csharp_blocks.py:286-303 | each block, when its turn comes, is still found at its original lines |
| FormatCSharpBlocks.CountBound | scripts/format_csharp_blocks.py:290-291 | only changed blocks are counted, and the count is 0 exactly when no block changes |
| FormatCSharpBlocks.NothingChangedKeepsFile | scripts/format_csharp_blocks.py:287-303 | when no block changes, the file is left as it is |
| FormatCSharpBlocks.ModifiedMeansCounted | scripts/format_csharp_blocks.py:305-310 | a reported modification means at least one block was counted |
| OrderedLists.SplitLines | scripts/fix_markdown_ordered_lists.py:17 | `splitlines()` over `\n` gives lines without line breaks |
| OrderedLists.ParseItem | scripts/fix_markdown_ordered_lists.py:12-45 | a parsed item's number is made of digits |
| OrderedLists.ParseItemShape | scripts/fix_markdown_ordered_lists.py:12-46 | a parsed item is the line cut in four: blank indent (all of the leading whitespace), a non-empty number, a `.` or `)` delimiter, the rest |
| OrderedLists.ParseItemOf | scripts/fix_markdown_ordered_lists.py:12 | every line of that shape parses back into its four parts |
| OrderedLists.ItemNotFence | scripts/fix_markdown_ordered_lists.py:26-59 | an item line is neither blank nor a fence line |
| OrderedLists.RenumberedParses | scripts/fix_markdown_ordered_lists.py:55 | `indent + expected + delimiter + rest` parses as the same item with the new number |
| OrderedLists.RenumberedDiffers | scripts/fix_markdown_ordered_lists.py:54-56 | a rewritten line always differs from the line it replaces |
| OrderedLists.RenumberedNoBreaks | scripts/fix_markdown_ordered_lists.py:55 | a rewritten line holds no line break |
| OrderedLists.Classify | scripts/fix_markdown_ordered_lists.py:26-64 | every item a line is read as has a numeric number |
| OrderedLists.ScanNext | scripts/fix_markdown_ordered_lists.py:23-64 | the state after one more line is the loop body applied to that line |
| OrderedLists.StepOut | scripts/fix_markdown_ordered_lists.py:40-57 | a turn rewrites its line, and sets `changed`, exactly when an item outside a fence has a number other than the expected one; otherwise neither the lines nor `changed` move |
| OrderedLists.RenumberLine | scripts/fix_markdown_ordered_lists.py:24-64 | the loop body changes at most line `idx`, and its new state is one turn of the scan |
| OrderedLists.DropDeeper | scripts/fix_markdown_ordered_lists.py:49-51 | the inner loop drops exactly the counters deeper than the item's indent |
| OrderedLists.RenumberLines | scripts/fix_markdown_ordered_lists.py:18-64 | the loop over the lines returns the scan's output lines and `changed` flag |
| OrderedLists.RenumberMarkdownLists | scripts/fix_markdown_ordered_lists.py:16-66 | the method returns `Renumber(text)` |
| OrderedLists.ScanSettled | scripts/fix_markdown_ordered_lists.py:23-57 | lines not yet reached are as they were; a line keeps the form it was given when reached |
| OrderedLists.OutputLength | scripts/fix_markdown_ordered_lists.py:23-66 | the output has as many lines as the input |
| OrderedLists.OutputLine | scripts/fix_markdown_ordered_lists.py:29-57 | an output line is the input line inside a fence, for a non-item or an item already correctly numbered; otherwise the item renumbered to the expected value |
| OrderedLists.ChangedIffRewritten | scripts/fix_markdown_ordered_lists.py:54-56 | `changed` is true exactly when some line was rewritten |
| OrderedLists.OutputNoBreaks | scripts/fix_markdown_ordered_lists.py:55 | every output line is free of line breaks |
| OrderedLists.ItemNumber | scripts/fix_markdown_ordered_lists.py:53-56 | an item outside a fence carries, in the output, the number it was expected to have |
| OrderedLists.ItemCounters | scripts/fix_markdown_ordered_lists.py:49-57 | after an item, its indent's counter is one past its number and no deeper counter is left |
| OrderedLists.CounterCarried | scripts/fix_markdown_ordered_lists.py:48-63 | deeper items, blank lines and indented lines keep an indent's counter and open no fence |
| OrderedLists.NumberedInTurn | scripts/fix_markdown_ordered_lists.py:48-63 | two items at one indent with only deeper items, blank or indented lines between are numbered consecutively |
| OrderedLists.FirstItemIsOne | scripts/fix_markdown_ordered_lists.py:53 | an item with no counter for its indent is numbered 1 |
| OrderedLists.ResetLines | scripts/fix_markdown_ordered_lists.py:37-64 | a fence line, and an unindented non-blank line that is not an item, clear the counters |
| OrderedLists.FenceCloses | scripts/fix_markdown_ordered_lists.py:30-36 | inside a fence, a fence line closes it exactly when its first three characters are the opener's |
| OrderedLists.FencedLinesKept | scripts/fix_markdown_ordered_lists.py:29-41 | lines inside a fence, and fence lines, are never rewritten |
| OrderedLists.LeadingZeroKept | scripts/fix_markdown_ordered_lists.py:54 | the comparison is by value: `01.` where 1 is expected is kept as written |
| OrderedLists.SplitRenumbered | scripts/fix_markdown_ordered_lists.py:17-66 | the result's lines are the output lines, and it ends in `\n` exactly when the input did |
| OrderedLists.OutputKind | scripts/fix_markdown_ordered_lists.py:26-64 | every output line is read the same way as its input line, with the number it was given |
| OrderedLists.Lockstep | scripts/fix_markdown_ordered_lists.py:23-64 | a second pass over the output goes through the same states and rewrites nothing |
| OrderedLists.RenumberIdempotent | scripts/fix_markdown_ordered_lists.py:16-66 | running the renumbering on its own result changes nothing and reports no change |
| CodeBlockLinks.SpaceToLineEndShape | scripts/check_links_in_code_blocks.py:27 | what `\s*$` takes is whitespace, and it stops at a line end or the end of the text |
| CodeBlockLinks.FenceMatchShape | scripts/check_links_in_code_blocks.py:27 | a fence match starts a line with three backticks, goes on with lower-case letters, then whitespace, and ends at a line end |
| CodeBlockLinks.FenceMatches | scripts/check_links_in_code_blocks.py:32 | `finditer` gives fence matches in order, disjoint and within the text |
| CodeBlockLinks.FindCodeBlockRanges | scripts/check_links_in_code_blocks.py:19-40 | the loop returns `CodeBlockRanges(content)` |
| CodeBlockLinks.PairScanShape | scripts/check_links_in_code_blocks.py:29-38 | after `n` matches there are `n / 2` ranges pairing match `2k` with `2k+1`, and a block is open exactly when `n` is odd |
| CodeBlockLinks.PairedFences | scripts/check_links_in_code_blocks.py:32-40 | range `k` runs from the start of fence match `2k` to the end of match `2k+1`; a final unpaired opener yields nothing |
| CodeBlockLinks.RangesInOrder | scripts/check_links_in_code_blocks.py:32-40 | the ranges are non-empty, ascending, disjoint, within the text, and each starts at a fence line |
| CodeBlockLinks.PairsInOrder | scripts/check_links_in_code_blocks.py:37 | pairing ordered, disjoint matches gives ordered, disjoint ranges |
| CodeBlockLinks.InCodeBlock | scripts/check_links_in_code_blocks.py:43-48 | true exactly when some range has `start <= pos < end` |
| CodeBlockLinks.HttpLinkSound | scripts/check_links_in_code_blocks.py:66 | every link match is `[`, text without `]`, `](`, an `http://` or `https://` URL without `)`, and `)` |
| CodeBlockLinks.HttpLinkComplete | scripts/check_links_in_code_blocks.py:66 | every text of that shape is matched where it starts |
| CodeBlockLinks.LinksInOrderShape | scripts/check_links_in_code_blocks.py:68 | `finditer`'s links lie in the text, have the pattern's shape and do not overlap |
| CodeBlockLinks.LinksInOrderAt | scripts/check_links_in_code_blocks.py:68 | each link listed is the match at its start |
| CodeBlockLinks.CheckFile | scripts/check_links_in_code_blocks.py:62-81 | the loop returns `Warnings(file, content)` |
| CodeBlockLinks.OneWarningPerLink | scripts/check_links_in_code_blocks.py:68-79 | there is one warning per link starting inside a range, and none for the others |
| CodeBlockLinks.NoBlocksNoWarnings | scripts/check_links_in_code_blocks.py:68-69 | with no code ranges there are no warnings |
| CodeBlockLinks.WarningLine | scripts/check_links_in_code_blocks.py:70 | the newlines before the link, plus one, is the line the line/column mapper gives |
| CodeBlockLinks.WarningCuts | scripts/check_links_in_code_blocks.py:71-72 | a warning ends with `[`, the first 40 characters of the link text, `...](`, the first 50 characters of the URL and `...)` |
| CodeBlockFix.BodyStart | scripts/fix_links_in_code_blocks.py:38 | the body of a block opened at `p` begins after the backticks and at least one `\n`, or there is none |
| CodeBlockFix.BodyStartShape | scripts/fix_links_in_code_blocks.py:38 | the opening fence line is three backticks at a line start, then whitespace up to the `\n` before the body |
| CodeBlockFix.CloserShape | scripts/fix_links_in_code_blocks.py:38 | a closing fence line is three backticks at a line start, then whitespace up to a line end or the end of the text |
| CodeBlockFix.FirstCloser | scripts/fix_links_in_code_blocks.py:38 | the lazy body stops at a closing fence line, or there is none |
| CodeBlockFix.FirstCloserFirst | scripts/fix_links_in_code_blocks.py:38 | no closing fence line comes before the one the lazy body stops at |
| CodeBlockFix.BlockAt | scripts/fix_links_in_code_blocks.py:38 | a match at `p` starts at `p` and ends within the text |
| CodeBlockFix.NoLanguage | scripts/fix_links_in_code_blocks.py:33-38 | a block never opens at a fence naming a language: whitespace follows the backticks |
| CodeBlockFix.BlockShape | scripts/fix_links_in_code_blocks.py:38-45 | a match is an opening fence line, the body (group 1), and the first closing fence line after it |
| CodeBlockFix.BlockMatches | scripts/fix_links_in_code_blocks.py:44 | `finditer` gives block matches in order, each found where it starts |
| CodeBlockFix.BlocksInOrderShape | scripts/fix_links_in_code_blocks.py:44 | the matches lie in the text, each is the match at its start, and each ends before the next starts |
| CodeBlockFix.HasLinkIff | scripts/fix_links_in_code_blocks.py:41-47 | the link search succeeds exactly when the body holds a `[text](http(s)://…)` of the pattern's shape |
| CodeBlockFix.FindCodeBlocksWithLinks | scripts/fix_links_in_code_blocks.py:23-50 | the loop returns `BlocksWithLinks(content)` |
| CodeBlockFix.Selected | scripts/fix_links_in_code_blocks.py:44-48 | a block is selected exactly when it is a block match whose body holds such a link |
| CodeBlockFix.FixCodeBlocks | scripts/fix_links_in_code_blocks.py:53-83 | the reverse splice loop returns `Fixed(content)`; with no selected block that is `(content, 0)` |
| CodeBlockFix.SelectedInOrder | scripts/fix_links_in_code_blocks.py:44-48 | the selected blocks, as edits, are ascending, disjoint and within the text |
| CodeBlockFix.FixedIsInterleave | scripts/fix_links_in_code_blocks.py:64-83 | the result keeps the text between selected blocks and replaces each block, fences included, by its body without trailing whitespace; the count is the number of selected blocks |
| CodeBlockFix.FixedShrinks | scripts/fix_links_in_code_blocks.py:68-81 | each fix removes at least seven characters: the two fences and the `\n` after the first |
| CodeBlockFix.SelectedSpans | scripts/fix_links_in_code_blocks.py:48 | each selected block spans its body and at least seven more characters |
| OrphanedDocs.LinkAt | scripts/check_orphaned_docs.py:18-19 | a match of the link pattern at `p` ends after `p` and within the text |
| OrphanedDocs.LinkHref | scripts/check_orphaned_docs.py:18 | group 1 of a match is non-empty and holds no `)` |
| OrphanedDocs.HrefsShape | scripts/check_orphaned_docs.py:18-19 | every href the `finditer` loop yields is non-empty and free of `)` |
| OrphanedDocs.ExtractLocalLinks | scripts/check_orphaned_docs.py:14-29 | the loop over the matches returns `LocalLinks(content)` |
| OrphanedDocs.CollectLocal | scripts/check_orphaned_docs.py:19-28 | adding each kept href to a set gives the set of kept hrefs |
| OrphanedDocs.CollectedMembers | scripts/check_orphaned_docs.py:19-28 | a path is collected exactly when some href keeps to it |
| OrphanedDocs.LocalLinksMembers | scripts/check_orphaned_docs.py:14-29 | a path is a local link exactly when some match's href, stripped, unanchored and unquoted, is it |
| OrphanedDocs.LocalPathDropped | scripts/check_orphaned_docs.py:22-27 | an anchor-only href and an href whose scheme is http, https, mailto or tel give no local link |
| OrphanedDocs.LocalPathDropsAnchor | scripts/check_orphaned_docs.py:26-28 | the `#…` part of an href is dropped, and the path before it is kept, unquoted, unless its scheme is external |
| OrphanedDocs.SchemeBeforeAnchor | scripts/check_orphaned_docs.py:22 | an anchor does not change the scheme the path before it has |
| OrphanedDocs.WalkClean | scripts/check_orphaned_docs.py:86-88 | resolving a link from a clean path gives a clean path: no empty, `.` or `..` segment |
| OrphanedDocs.WalkPlain | scripts/check_orphaned_docs.py:86-88 | a link of plain segments is appended to the directory it is resolved against |
| OrphanedDocs.RootDocsAreFiles | scripts/check_orphaned_docs.py:61-68 | the root documents that exist are files |
| OrphanedDocs.ReadmesAreFiles | scripts/check_orphaned_docs.py:47-48 | every README.md found under the documentation directory is a file |
| OrphanedDocs.EntriesAreFiles | scripts/check_orphaned_docs.py:37-68 | every entry point is a file |
| OrphanedDocs.TargetsAreFiles | scripts/check_orphaned_docs.py:90-98 | every target queued from a document is an existing Markdown file |
| OrphanedDocs.TargetIsFile | scripts/check_orphaned_docs.py:90-95 | a queued target, a directory replaced by its README.md, is a file |
| OrphanedDocs.EntryReached | scripts/check_orphaned_docs.py:71-72 | every entry point is reached by a chain of one document |
| OrphanedDocs.ReachedStep | scripts/check_orphaned_docs.py:84-98 | a target linked from a reached document is reached |
| OrphanedDocs.ClosedHoldsReached | scripts/check_orphaned_docs.py:70-98 | a set holding the entry points and closed under links holds every reached document |
| OrphanedDocs.FrontierStart | scripts/check_orphaned_docs.py:71-72 | the worklist invariant holds with nothing visited and the entry points queued |
| OrphanedDocs.FrontierSkip | scripts/check_orphaned_docs.py:75-77 | popping an already visited document keeps the invariant |
| OrphanedDocs.FrontierVisit | scripts/check_orphaned_docs.py:75-98 | visiting a new document and queueing its unvisited targets keeps the invariant and strictly shrinks the unvisited files |
| OrphanedDocs.FrontierDone | scripts/check_orphaned_docs.py:74 | when the worklist is empty, the visited documents are exactly the reached ones |
| OrphanedDocs.ListOf | scripts/check_orphaned_docs.py:72 | `list(entry_points)` holds each entry point once |
| OrphanedDocs.PushTargets | scripts/check_orphaned_docs.py:84-98 | the inner loop appends, after the old worklist, exactly the wanted targets not yet visited |
| OrphanedDocs.PushInvariant | scripts/check_orphaned_docs.py:84-98 | one link's step keeps the inner loop's invariant |
| OrphanedDocs.LinkTarget | scripts/check_orphaned_docs.py:85-91 | a link starting with `/` resolves from the repository root, any other from the document's directory, and a directory becomes its README.md |
| OrphanedDocs.TargetsFromAdd | scripts/check_orphaned_docs.py:93-98 | one more link adds its target exactly when the target is a wanted file |
| OrphanedDocs.NextOf | scripts/check_orphaned_docs.py:83-98 | the targets pushed from a document are its links' targets, all of them files |
| OrphanedDocs.Visit | scripts/check_orphaned_docs.py:70-98 | the worklist ends with the visited set equal to the documents reached from the entry points, each processed once |
| OrphanedDocs.VisitLast | scripts/check_orphaned_docs.py:75-98 | one iteration keeps the invariant and strictly shrinks the unvisited files |
| OrphanedDocs.QueueTargets | scripts/check_orphaned_docs.py:83-98 | reading a document and pushing its targets appends exactly its unvisited link targets |
| OrphanedDocs.StrLessIrreflexive | scripts/check_orphaned_docs.py:102 | string order is irreflexive |
| OrphanedDocs.StrLessTrans | scripts/check_orphaned_docs.py:102 | string order is transitive |
| OrphanedDocs.StrLessTotal | scripts/check_orphaned_docs.py:102 | string order is total |
| OrphanedDocs.PathLessIrreflexive | scripts/check_orphaned_docs.py:102 | path order, segment by segment, is irreflexive |
| OrphanedDocs.PathLessTrans | scripts/check_orphaned_docs.py:102 | path order is transitive |
| OrphanedDocs.PathLessTotal | scripts/check_orphaned_docs.py:102 | path order is total |
| OrphanedDocs.LeastPath | scripts/check_orphaned_docs.py:102 | a non-empty set of paths has a least member |
| OrphanedDocs.CheckOrphaned | scripts/check_orphaned_docs.py:53-107 | the report is sorted and holds exactly the Markdown files under the documentation directory that no chain of links from an entry point reaches |
| OrphanedDocs.Unvisited | scripts/check_orphaned_docs.py:100-107 | going through the documents in sorted order gives, sorted, exactly those not visited |
| OrphanedDocs.AscendingUnique | scripts/check_orphaned_docs.py:102 | two sorted lists with the same members are equal, so the report is determined |

## Left out

- Command-line handling is not modelled because it is I/O plumbing: every `main` and `parse_args`, printing, exit codes, file reads and writes, directory walks (`rglob`, `find_markdown_files`), and the wiki-directory cleaning and page writing of `scripts/sync-wiki.py`. Each model works on the text or the list of paths those steps produce.
- `LinkChecker._check_remote`, its `remote_cache`, and `LinkChecker._check_local_path` are network access and file-system lookups. They are the function parameters `remote` and `local` of `CheckLinks.LinkChecker.ProcessFile`. The parameter `local` also hides the heading-cache work of `_check_local_path`: for a `file.md#anchor` link the script looks up, and stores, the heading table of the target file (scripts/check_links.py:101, 108, 122, 138). So one `process_file` call can add cache entries for many files. The cache frame of `Dispatch`, `CheckLink`, `CheckLinks` and `ProcessFile` (unchanged, or extended with the page's own table) holds of the model only. Results are the same either way, because every cached table is the one the file gives.
- `load_mkdocs_config`, the YAML loader and `validate_nav_files` are left out because they use a foreign parser and the file system. The nav tree is a datatype given to `MkDocsLinks.ExtractNavFiles`. The set of transformed files is a parameter.
- `LinkExtractor`, `extract_html_links`, `validate_html_file` and `validate_site` are left out because they wrap the standard HTML parser and walk the site. The page's links and the site's file list are inputs.
- `urllib.parse.unquote`, the percent-decoding of section 2.1 of RFC 3986, is the function parameter `unquote`. The model never interprets it.
- `urlparse` is reduced to the parts the scripts read: the scheme by its character rule and the network location after `//`. Its other fields and error cases are not modelled. The model reads the raw text: `urlsplit` first removes tab, CR and LF anywhere in the URL, so `ht\ttp://x` has the scheme `http` in the script but not in `CheckLinks.SchemeOf` or `FixLinkText.UrlScheme`.
- `normalize_path` of `scripts/sync-wiki.py` is the identity on forward-slash paths. It depends on the operating system's path rules.
- The wiki structure table (`WIKI_STRUCTURE` with `ROOT_WIKI_NAMES`) is written out as `SyncWiki.WikiStructure()` and `SyncWiki.RootWikiNames`. `WikiSync.ConvertLinks` takes the table as a parameter so its contract holds for any table. The contract of `WikiStructure` states only the number of entries; lookups in it go through `SyncWiki.FirstPage` and `SyncWiki.WikiNameCases`.
- The regular-expression spacing passes of `scripts/format_csharp_blocks.py` (keywords, operators, commas, the inheritance colon, the space before `;`) are the parameter `passes`. Their behaviour depends on the regex engine's `\b`, `\w` and substitution.
- The typo list of `check_code_block` is left out for the same reason. Only the balance part of `check_code_block` is modelled.
- `suggest_text` reads the file system to find a target's title and calls `humanize_url`. It is the parameter `suggest` of `FixLinkText.ReviewLinks`, so `humanize_url` is not modelled. `humanize_anchor` and `humanize_file_name` are.
- `get_wiki_pages`, `validate_critical_pages`, `validate_home_links` and `validate_wiki` of `scripts/check_wiki_links.py` list or read wiki files and print. `ValidateSidebarLinks` takes the sidebar text and the page set.
- `generate_sidebar`, the fallback text of `generate_home` and `scripts/create_index_md.py` are left out because they only emit constant text.
- `scripts/validate_wiki_links.py` only runs other programs, so it is not modelled.
- `scripts/test_sync_wiki.py` is a test harness and is not modelled. Its table-row cases appear as the example lemmas `SyncWiki.TableRowExample`, `SyncWiki.IndentedTableRowExample` and `SyncWiki.NotTableRowExamples`.
- Text is ASCII. The line break is `\n` only, `isspace` is the ASCII whitespace set, and `lower`, `upper` and `title` act on ASCII letters. Full Unicode `splitlines`, `isspace` and case mapping are left out.
- Paths are lists of segments, resolved lexically: `Path.resolve` is modelled without symbolic links or a current directory.
- Strings.PathName: a path ending in `/` gives the empty name, whereas `Path.name` ignores a trailing `/` and gives the last segment. This matters only for `CheckLinks.Suffix` and the README/CHANGELOG exemption of `MkDocsLinks`, whose inputs are file paths.
- SyncWiki.PathParts: a path beginning with exactly two slashes (`//a`) is read with the root `/`, whereas `PurePosixPath` keeps `//` as its root. Such a path is resolved here as the absolute path `/a`.
- CheckLinks.LinkChecker.ProcessFile: the page text is a parameter, because reading the file is I/O. The contract does not state that this text is the text whose lines `files` holds for `path`. Heading tables come from `files`, and links are extracted from the text that is passed in.
- In `check_orphaned`, `current.exists()` holds of every path the model visits: each entry point exists, and a target is pushed only after the same test, so the `continue` at scripts/check_orphaned_docs.py:80-81 is not modelled. `read_text` on a directory raises an error in the script. `OrphanedDocs.WellFormed` therefore requires that no directory is named `README.md` and that the root has no directory named `CONTRIBUTING.md` or `AGENTS.md`, so every visited path is a readable file.
- OrphanedDocs.CheckOrphaned: `sorted` on `Path` objects is modelled as a segment-by-segment lexicographic order on the code points of ASCII strings, which is the order of POSIX paths. Windows path ordering is not modelled.
- IsHumanReadable is a predicate without its own contract. Its cases are stated by `FixLinkText.WebAddressNotReadable`, `FixLinkText.HrefAsTextNotReadable`, `FixLinkText.ReadableHasLetter` and `FixLinkText.HostAsTextNotReadable`.
- FixLinkText.BuildReplacement: its own `ensures` states only the blank-suggestion case and the `[t]` head. The full layout is stated by `FixLinkText.InlineReplacementLayout` for an inline link and `FixLinkText.ReplacementLayout` for an autolink or bare URL. `FixLinkText.InlineReplacementScans` and `FixLinkText.ReplacementScans` state that each kind of replacement reads back through the inline-link scanner.
- CheckLinks.LinkChecker.Dispatch: states the new heading cache only as either unchanged or extended with the page's own table, a frame of the model in which `local` is pure (the script can also add the target files' tables, see the `_check_local_path` line above). The same holds for `CheckLink`, `CheckLinks` and `ProcessFile`. It does not say which of the two happens for a given link.

Quirks of the code that the model keeps as written:
- `check_balanced` stops at the first negative depth, so that depth is always -1 (`CheckCSharpSyntax.NegativeDepthIsMinusOne`).
- The split fallback of `_format_braces_allman` at scripts/format_csharp_blocks.py:237-238 can never be reached (`FormatCSharpBlocks.SplitHasContent`).
- In `_ensure_blank_lines_between_members`, the test that the last output line is not blank always holds where it is reached.
- A resolved wiki path never ends in `/` except the root (`SyncWiki.OnlyRootEndsWithSlash`). The `/README` rule of `convert_links` tests the key after `.md` and `docs/` are removed, so it fires for the root and for a path whose last segment is a file named `.md`, other than `docs/.md` (`SyncWiki.SlashRuleFires`). A link `./.md` from a page in `best-practices/` is therefore looked up as `best-practices/README` (`SyncWiki.DotMdIsSectionReadme`). A link to a directory, such as `./guide/`, is looked up as `guide`.
- `convert_links` writes the display text before the page name, while `extract_wiki_links` reads the first field as the page name. Both are modelled as written.
