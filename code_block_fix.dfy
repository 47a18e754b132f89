/**
 * Unwrapping fenced blocks that hold web links.  A block opened by a bare
 * ```` ``` ```` line (no language named) whose body holds a
 * `[text](http...)` link is replaced, fences included, by its body with
 * trailing whitespace removed, so that the links become clickable again.
 * Blocks that name a language are left alone.
 */
module CodeBlockFix {
  import opened Strings
  import opened Edits
  import CodeBlockLinks

  // ---- the block pattern `^```\s*\n(.*?)^```\s*$` (MULTILINE | DOTALL) ----

  /**
   * Where the body of a block opened at `p` begins, or -1.  `\s*\n` has one
   * way to match: the whitespace run after the backticks backs off to its
   * last `\n`, and the body starts after it.
   */
  function BodyStart(s: string, p: nat): (r: int)
    requires p <= |s|
    ensures r == -1 || p + 4 <= r <= |s|
  {
    if CodeBlockLinks.BeginsLine(s, p) && OccursAt(s, "```", p) then
      var j := LastIndexBefore(s, '\n', SkipSpace(s, p + 3));
      if j >= p + 3 then j + 1 else -1
    else -1
  }

  /** `^```\s*$` at `k`: where a closing fence line starting at `k` ends, or -1. */
  function CloserAt(s: string, k: nat): (r: int)
    requires k <= |s|
    ensures r == -1 || k + 3 <= r <= |s|
  {
    if CodeBlockLinks.BeginsLine(s, k) && OccursAt(s, "```", k) then CodeBlockLinks.SpaceToLineEnd(s, k + 3) else -1
  }

  /** The lazy `(.*?)`: the first closing fence line at or after `k`, or -1. */
  function FirstCloser(s: string, k: nat): (r: int)
    requires k <= |s|
    ensures r == -1 || (k <= r <= |s| && CloserAt(s, r) != -1)
    decreases |s| - k
  {
    if CloserAt(s, k) != -1 then k
    else if k == |s| then -1
    else FirstCloser(s, k + 1)
  }

  /** One match: its span and group 1, the body. */
  datatype Block = Block(start: nat, end: nat, body: string)

  /**
   * The block pattern at `p`.  When no closing line follows the body,
   * giving the opening `\s*` back to an earlier `\n` cannot help: the
   * positions it adds to the body are whitespace, where no fence starts.
   */
  function BlockAt(s: string, p: nat): (r: Option<Block>)
    requires p <= |s|
    ensures r.Some? ==> r.value.start == p < r.value.end <= |s|
  {
    var b := BodyStart(s, p);
    if b == -1 then None
    else
      var k := FirstCloser(s, b);
      if k == -1 then None else Some(Block(p, CloserAt(s, k), s[b..k]))
  }

  /** Blocks found where they start, in order, disjoint, and at or after `from`. */
  ghost predicate BlocksInOrder(s: string, bs: seq<Block>, from: nat)
    decreases |bs|
  {
    bs == [] || (from <= bs[0].start <= |s| && BlockAt(s, bs[0].start) == Some(bs[0]) && BlocksInOrder(s, bs[1..], bs[0].end))
  }

  lemma {:induction false} BlocksInOrderWeaken(s: string, bs: seq<Block>, from: nat, from': nat)
    requires BlocksInOrder(s, bs, from) && from' <= from
    ensures BlocksInOrder(s, bs, from')
  {
  }

  /** pattern.finditer(content) from `p`: after a match the search resumes at its end. */
  function BlockMatches(s: string, p: nat): (r: seq<Block>)
    requires p <= |s|
    ensures BlocksInOrder(s, r, p)
    decreases |s| - p
  {
    if p == |s| then []
    else
      match BlockAt(s, p)
      case None =>
        var rest := BlockMatches(s, p + 1);
        BlocksInOrderWeaken(s, rest, p + 1, p);
        rest
      case Some(m) =>
        var rest := BlockMatches(s, m.end);
        var r := [m] + rest;
        assert r[1..] == rest;
        r
  }

  /** Blocks in order lie within the text, each is a match, and each ends before the next starts. */
  lemma {:induction false} BlocksInOrderShape(s: string, bs: seq<Block>, from: nat)
    requires BlocksInOrder(s, bs, from)
    ensures forall k :: 0 <= k < |bs| ==> from <= bs[k].start < bs[k].end <= |s| && BlockAt(s, bs[k].start) == Some(bs[k])
    ensures forall k :: 0 <= k < |bs| - 1 ==> bs[k].end <= bs[k + 1].start
    decreases |bs|
  {
    BlocksInOrderBounds(s, bs, from);
    forall k | 0 <= k < |bs| ensures BlockAt(s, bs[k].start) == Some(bs[k]) {
      BlocksInOrderAt(s, bs, from, k);
    }
  }

  lemma {:induction false} BlocksInOrderBounds(s: string, bs: seq<Block>, from: nat)
    requires BlocksInOrder(s, bs, from)
    ensures forall k :: 0 <= k < |bs| ==> from <= bs[k].start < bs[k].end <= |s|
    ensures forall k :: 0 <= k < |bs| - 1 ==> bs[k].end <= bs[k + 1].start
    decreases |bs|
  {
    if bs != [] {
      BlocksInOrderBounds(s, bs[1..], bs[0].end);
      assert forall k :: 1 <= k < |bs| ==> bs[k] == bs[1..][k - 1];
    }
  }

  /** Each block of the list is the match where it starts. */
  lemma {:induction false} BlocksInOrderAt(s: string, bs: seq<Block>, from: nat, i: nat)
    requires BlocksInOrder(s, bs, from) && i < |bs|
    ensures bs[i].start <= |s| && BlockAt(s, bs[i].start) == Some(bs[i])
    decreases i
  {
    if i > 0 {
      BlocksInOrderAt(s, bs[1..], bs[0].end, i - 1);
    }
  }

  // ---- what a match is ----

  /** A block never opens at a fence that names a language: the opening backticks are followed by whitespace. */
  lemma NoLanguage(s: string, p: nat)
    requires p <= |s| && BlockAt(s, p).Some?
    ensures p + 3 < |s| && IsSpace(s[p + 3])
  {
    SkipSpaceSpaces(s, p + 3);
  }

  /**
   * A match read off the pattern: an opening fence line of backticks and
   * whitespace, the body, and the first closing fence line after it, made
   * of backticks and whitespace up to the end of a line.
   */
  lemma BlockShape(s: string, p: nat) returns (b: nat, k: nat)
    requires p <= |s| && BlockAt(s, p).Some?
    ensures var m := BlockAt(s, p).value;
      CodeBlockLinks.BeginsLine(s, p) && OccursAt(s, "```", p) &&
      p + 4 <= b <= k && k + 3 <= m.end <= |s| &&
      s[b - 1] == '\n' && IsBlank(s[p + 3..b]) &&
      m.body == s[b..k] &&
      CodeBlockLinks.BeginsLine(s, k) && OccursAt(s, "```", k) && IsBlank(s[k + 3..m.end]) && (m.end == |s| || s[m.end] == '\n')
    ensures forall j :: b <= j < k ==> CloserAt(s, j) == -1
  {
    b := BodyStart(s, p);
    k := FirstCloser(s, b);
    BodyStartShape(s, p);
    BlockParts(s, p);
    CloserShape(s, k);
    FirstCloserFirst(s, b);
  }

  /** A closing fence line: backticks at the start of a line, then whitespace up to the end of that line. */
  lemma CloserShape(s: string, k: nat)
    requires k <= |s| && CloserAt(s, k) != -1
    ensures var e := CloserAt(s, k);
      CodeBlockLinks.BeginsLine(s, k) && OccursAt(s, "```", k) && k + 3 <= e <= |s| &&
      IsBlank(s[k + 3..e]) && (e == |s| || s[e] == '\n')
  {
    CodeBlockLinks.SpaceToLineEndShape(s, k + 3);
  }

  lemma BlockParts(s: string, p: nat)
    requires p <= |s| && BlockAt(s, p).Some?
    ensures var b := BodyStart(s, p);
      b != -1 && FirstCloser(s, b) != -1 &&
      BlockAt(s, p).value == Block(p, CloserAt(s, FirstCloser(s, b)), s[b..FirstCloser(s, b)])
  {
  }

  /** The opening fence line: backticks at the start of a line, then whitespace up to the `\n` before the body. */
  lemma BodyStartShape(s: string, p: nat)
    requires p <= |s| && BodyStart(s, p) != -1
    ensures var b := BodyStart(s, p);
      CodeBlockLinks.BeginsLine(s, p) && OccursAt(s, "```", p) &&
      s[b - 1] == '\n' && IsBlank(s[p + 3..b])
  {
    var q := SkipSpace(s, p + 3);
    var j := LastIndexBefore(s, '\n', q);
    SkipSpaceSpaces(s, p + 3);
    BlankSlice(s, p + 3, j + 1);
  }

  /** No closing fence line comes before the one the lazy body stops at. */
  lemma {:induction false} FirstCloserFirst(s: string, k: nat)
    requires k <= |s|
    ensures var r := FirstCloser(s, k);
      forall j :: k <= j < (if r == -1 then |s| + 1 else r) && j <= |s| ==> CloserAt(s, j) == -1
    decreases |s| - k
  {
    if CloserAt(s, k) == -1 && k < |s| {
      FirstCloserFirst(s, k + 1);
    }
  }

  // ---- find_code_blocks_with_links ----

  /** link_pattern.search(s[p:]): a link starts at `p` or later. */
  function HasLinkFrom(s: string, p: nat): bool
    requires p <= |s|
    decreases |s| - p
  {
    p < |s| && (CodeBlockLinks.HttpLinkAt(s, p).Some? || HasLinkFrom(s, p + 1))
  }

  lemma {:induction false} HasLinkFound(s: string, p: nat) returns (q: nat)
    requires p <= |s| && HasLinkFrom(s, p)
    ensures p <= q < |s| && CodeBlockLinks.HttpLinkAt(s, q).Some?
    decreases |s| - p
  {
    if CodeBlockLinks.HttpLinkAt(s, p).Some? {
      q := p;
    } else {
      q := HasLinkFound(s, p + 1);
    }
  }

  lemma {:induction false} HasLinkAt(s: string, p: nat, q: nat)
    requires p <= q < |s| && CodeBlockLinks.HttpLinkAt(s, q).Some?
    ensures HasLinkFrom(s, p)
    decreases q - p
  {
    if p < q {
      HasLinkAt(s, p + 1, q);
    }
  }

  /** The search succeeds exactly when the text holds a piece of the link pattern's shape. */
  lemma HasLinkIff(s: string)
    ensures HasLinkFrom(s, 0) <==> exists m :: CodeBlockLinks.IsHttpLink(s, m)
  {
    if HasLinkFrom(s, 0) {
      var q := HasLinkFound(s, 0);
      CodeBlockLinks.HttpLinkSound(s, q);
    }
    if m :| CodeBlockLinks.IsHttpLink(s, m) {
      CodeBlockLinks.HttpLinkComplete(s, m);
      HasLinkAt(s, 0, m.start);
    }
  }

  /** The first `n` matches, keeping those whose body holds a link. */
  function WithLinks(bs: seq<Block>, n: nat): seq<Block>
    requires n <= |bs|
  {
    if n == 0 then []
    else
      var here := if HasLinkFrom(bs[n - 1].body, 0) then [bs[n - 1]] else [];
      WithLinks(bs, n - 1) + here
  }

  /** find_code_blocks_with_links(content). */
  function BlocksWithLinks(content: string): seq<Block> {
    var bs := BlockMatches(content, 0);
    WithLinks(bs, |bs|)
  }

  /** find_code_blocks_with_links: the loop over the block matches. */
  method FindCodeBlocksWithLinks(content: string) returns (blocks: seq<Block>)
    ensures blocks == BlocksWithLinks(content)
  {
    var ms := BlockMatches(content, 0);
    blocks := [];
    var i := 0;
    while i < |ms|
      invariant i <= |ms|
      invariant blocks == WithLinks(ms, i)
    {
      var m := ms[i];
      if HasLinkFrom(m.body, 0) {
        blocks := blocks + [m];
      }
      i := i + 1;
    }
  }

  lemma {:induction false} WithLinksMembers(bs: seq<Block>, n: nat, b: Block)
    requires n <= |bs|
    ensures b in WithLinks(bs, n) <==> b in bs[..n] && HasLinkFrom(b.body, 0)
  {
    if n > 0 {
      WithLinksMembers(bs, n - 1, b);
      assert bs[..n] == bs[..n - 1] + [bs[n - 1]];
    }
  }

  /** A block is selected exactly when it is a match of the block pattern whose body holds a link. */
  lemma Selected(content: string, b: Block)
    ensures b in BlocksWithLinks(content) <==>
      b in BlockMatches(content, 0) && exists m :: CodeBlockLinks.IsHttpLink(b.body, m)
  {
    var bs := BlockMatches(content, 0);
    WithLinksMembers(bs, |bs|, b);
    assert bs[..|bs|] == bs;
    HasLinkIff(b.body);
  }

  // ---- fix_code_blocks ----

  /** A selected block becomes its body without trailing whitespace. */
  function FixEdit(b: Block): Edit<char> {
    Edit(b.start, b.end, RStrip(b.body))
  }

  function ToEdits(bs: seq<Block>): (r: seq<Edit<char>>)
    ensures |r| == |bs| && forall k :: 0 <= k < |bs| ==> r[k] == FixEdit(bs[k])
  {
    seq(|bs|, k requires 0 <= k < |bs| => FixEdit(bs[k]))
  }

  /** fix_code_blocks(content): the new text and the number of blocks fixed. */
  function Fixed(content: string): (string, nat) {
    var bs := BlocksWithLinks(content);
    if bs == [] then (content, 0) else (SpliceBackToFront(content, ToEdits(bs)), |bs|)
  }

  /** fix_code_blocks: splice the selected blocks from the last to the first. */
  method FixCodeBlocks(content: string) returns (result: string, fixes: nat)
    ensures (result, fixes) == Fixed(content)
  {
    var blocks := FindCodeBlocksWithLinks(content);
    if blocks == [] {
      return content, 0;
    }
    ghost var edits := ToEdits(blocks);
    result := content;
    fixes := 0;
    var i := |blocks|;
    assert edits[..i] == edits;
    while i > 0
      invariant 0 <= i <= |blocks|
      invariant SpliceBackToFront(result, edits[..i]) == SpliceBackToFront(content, edits)
      invariant fixes == |blocks| - i
    {
      i := i - 1;
      var b := blocks[i];
      var fixedBlock := RStrip(b.body);
      assert edits[..i + 1][..i] == edits[..i] && edits[..i + 1][i] == Edit(b.start, b.end, fixedBlock);
      result := PySlice(result, 0, b.start) + fixedBlock + PySlice(result, b.end, |result|);
      fixes := fixes + 1;
    }
  }

  /** The selected blocks, as edits, are ascending, disjoint and within the text. */
  lemma SelectedInOrder(content: string)
    ensures Chain(ToEdits(BlocksWithLinks(content)), 0, |content|)
  {
    var bs := BlockMatches(content, 0);
    BlocksInOrderShape(content, bs, 0);
    WithLinksChain(content, bs, |bs|);
  }

  lemma {:induction false} WithLinksChain(s: string, bs: seq<Block>, n: nat)
    requires n <= |bs|
    requires forall k :: 0 <= k < |bs| ==> bs[k].start < bs[k].end <= |s|
    requires forall k :: 0 <= k < |bs| - 1 ==> bs[k].end <= bs[k + 1].start
    ensures Chain(ToEdits(WithLinks(bs, n)), 0, if n < |bs| then bs[n].start else |s|)
  {
    var bound := if n < |bs| then bs[n].start else |s|;
    if n > 0 {
      WithLinksChain(s, bs, n - 1);
      var prev := WithLinks(bs, n - 1);
      if HasLinkFrom(bs[n - 1].body, 0) {
        assert ToEdits(prev + [bs[n - 1]]) == ToEdits(prev) + [FixEdit(bs[n - 1])];
        ChainSnoc(ToEdits(prev), FixEdit(bs[n - 1]), 0, bound);
      } else {
        assert WithLinks(bs, n) == prev;
        ChainWiden(ToEdits(prev), 0, bs[n - 1].start, bound);
      }
    }
  }

  /**
   * The fixed text, read front to back: the text between selected blocks
   * is kept, each selected block is replaced by its stripped body, and the
   * count is the number of selected blocks.  With no selected block the
   * text comes back unchanged with a count of 0.
   */
  lemma FixedIsInterleave(content: string)
    ensures Fixed(content).0 == Interleave(content, ToEdits(BlocksWithLinks(content)), 0)
    ensures Fixed(content).1 == |BlocksWithLinks(content)|
  {
    SelectedInOrder(content);
    BackToFrontIsInterleave(content, ToEdits(BlocksWithLinks(content)));
  }

  /** The fixed text is shorter than the original by at least seven characters, two fences' worth, per fix. */
  lemma FixedShrinks(content: string)
    ensures |Fixed(content).0| + 7 * Fixed(content).1 <= |content|
  {
    var sel := BlocksWithLinks(content);
    SelectedSpans(content);
    FixedIsInterleave(content);
    SelectedInOrder(content);
    InterleaveLength(content, ToEdits(sel), 0);
    GrowthOfFixes(sel);
  }

  /** Each selected block spans its body and at least seven more characters. */
  lemma SelectedSpans(content: string)
    ensures var sel := BlocksWithLinks(content);
      forall k :: 0 <= k < |sel| ==> sel[k].end - sel[k].start >= |sel[k].body| + 7
  {
    var bs := BlockMatches(content, 0);
    var sel := BlocksWithLinks(content);
    assert bs[..|bs|] == bs;
    forall k | 0 <= k < |sel| ensures sel[k].end - sel[k].start >= |sel[k].body| + 7 {
      WithLinksMembers(bs, |bs|, sel[k]);
      var j :| 0 <= j < |bs| && bs[j] == sel[k];
      BlocksInOrderAt(content, bs, 0, j);
      BlockSpan(content, bs[j].start);
    }
  }

  /** A match holds its body and at least seven more characters: two fences and the `\n` after the first. */
  lemma BlockSpan(s: string, p: nat)
    requires p <= |s| && BlockAt(s, p).Some?
    ensures BlockAt(s, p).value.end - BlockAt(s, p).value.start >= |BlockAt(s, p).value.body| + 7
  {
    var b, k := BlockShape(s, p);
  }

  lemma {:induction false} GrowthOfFixes(bs: seq<Block>)
    requires forall k :: 0 <= k < |bs| ==> bs[k].end - bs[k].start >= |bs[k].body| + 7
    ensures Growth(ToEdits(bs)) <= -7 * |bs|
  {
    if bs != [] {
      assert ToEdits(bs)[1..] == ToEdits(bs[1..]);
      assert forall k :: 1 <= k < |bs| ==> bs[k] == bs[1..][k - 1];
      GrowthOfFixes(bs[1..]);
      assert |RStrip(bs[0].body)| <= |bs[0].body|;
    }
  }
}
