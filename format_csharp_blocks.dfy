/**
 * The C# snippet formatter: each ```` ```csharp ```` block of a Markdown file
 * is reformatted line by line (the regular-expression spacing passes are a
 * parameter `passes` applied to a line's stripped content), K&R braces are
 * moved to their own line, and a blank line is put between a closing brace
 * and a following member declaration.  Changed bodies are spliced back into
 * the file from the last block to the first, so that the line numbers of
 * the blocks not yet handled stay valid.
 */
module FormatCSharpBlocks {
  import opened Strings
  import CheckCSharpSyntax

  // ---- the blocks of a file ----

  /** A C# block: the 1-based lines of its opening and closing fences, and the lines between. */
  datatype Block = Block(lineStart: nat, lineEnd: nat, content: string)

  datatype Scan = Scan(inBlock: bool, blockStart: nat, blockLines: seq<string>, blocks: seq<Block>)

  /** One line, numbered `n` from 1. */
  function ScanLine(st: Scan, line: string, n: nat): Scan {
    if CheckCSharpSyntax.IsOpener(line) then st.(inBlock := true, blockStart := n, blockLines := [])
    else if st.inBlock && CheckCSharpSyntax.IsFence(line) then
      st.(inBlock := false, blocks := st.blocks + [Block(st.blockStart, n, Join(st.blockLines, "\n"))])
    else if st.inBlock then st.(blockLines := st.blockLines + [line])
    else st
  }

  function ScanLines(lines: seq<string>, n: nat): Scan
    requires n <= |lines|
  {
    if n == 0 then Scan(false, 0, [], []) else ScanLine(ScanLines(lines, n - 1), lines[n - 1], n)
  }

  /** extract_csharp_blocks. */
  function Blocks(content: string): seq<Block> {
    var lines := Split(content, '\n');
    ScanLines(lines, |lines|).blocks
  }

  /** extract_csharp_blocks: the loop over the lines. */
  method ExtractCSharpBlocks(content: string) returns (blocks: seq<Block>)
    ensures blocks == Blocks(content)
  {
    var lines := Split(content, '\n');
    blocks := [];
    var inBlock := false;
    var blockStart: nat := 0;
    var blockLines: seq<string> := [];
    var i := 0;
    while i < |lines|
      invariant i <= |lines|
      invariant Scan(inBlock, blockStart, blockLines, blocks) == ScanLines(lines, i)
    {
      var line := lines[i];
      if CheckCSharpSyntax.IsOpener(line) {
        inBlock, blockStart, blockLines := true, i + 1, [];
      } else if inBlock && CheckCSharpSyntax.IsFence(line) {
        inBlock := false;
        blocks := blocks + [Block(blockStart, i + 1, Join(blockLines, "\n"))];
      } else if inBlock {
        blockLines := blockLines + [line];
      }
      i := i + 1;
    }
  }

  /** The blocks come in file order, each inside the lines, apart from the next. */
  predicate Ordered(blocks: seq<Block>, n: nat) {
    (forall j :: 0 <= j < |blocks| ==> 1 <= blocks[j].lineStart < blocks[j].lineEnd <= n) &&
    (forall j :: 0 <= j < |blocks| - 1 ==> blocks[j].lineEnd < blocks[j + 1].lineStart)
  }

  /** Block `b` sits in the lines: an opener at lineStart, a fence at lineEnd, its content the lines between. */
  predicate InPlace(lines: seq<string>, b: Block) {
    1 <= b.lineStart < b.lineEnd <= |lines| &&
    CheckCSharpSyntax.IsOpener(lines[b.lineStart - 1]) && CheckCSharpSyntax.IsFence(lines[b.lineEnd - 1]) &&
    b.content == Join(lines[b.lineStart..b.lineEnd - 1], "\n")
  }

  predicate ScanShaped(lines: seq<string>, n: nat, st: Scan)
    requires n <= |lines|
  {
    Ordered(st.blocks, n) &&
    (forall j :: 0 <= j < |st.blocks| ==> InPlace(lines, st.blocks[j])) &&
    (st.inBlock ==>
      1 <= st.blockStart <= n && CheckCSharpSyntax.IsOpener(lines[st.blockStart - 1]) &&
      st.blockLines == lines[st.blockStart..n] &&
      (st.blocks != [] ==> st.blocks[|st.blocks| - 1].lineEnd < st.blockStart))
  }

  lemma {:induction false} ScanShape(lines: seq<string>, n: nat)
    requires n <= |lines|
    ensures ScanShaped(lines, n, ScanLines(lines, n))
  {
    if n > 0 {
      ScanShape(lines, n - 1);
      var st := ScanLines(lines, n - 1);
      var line := lines[n - 1];
      if CheckCSharpSyntax.IsOpener(line) {
        ShapeOpen(lines, n, st);
      } else if st.inBlock && CheckCSharpSyntax.IsFence(line) {
        ShapeClose(lines, n, st);
      } else if st.inBlock {
        ShapeAdd(lines, n, st);
      } else {
        ShapeOther(lines, n, st);
      }
    }
  }

  lemma ShapeOpen(lines: seq<string>, n: nat, st: Scan)
    requires 0 < n <= |lines| && ScanShaped(lines, n - 1, st) && CheckCSharpSyntax.IsOpener(lines[n - 1])
    ensures ScanShaped(lines, n, ScanLine(st, lines[n - 1], n))
  {
    assert lines[n..n] == [];
  }

  lemma ShapeClose(lines: seq<string>, n: nat, st: Scan)
    requires 0 < n <= |lines| && ScanShaped(lines, n - 1, st)
    requires !CheckCSharpSyntax.IsOpener(lines[n - 1]) && st.inBlock && CheckCSharpSyntax.IsFence(lines[n - 1])
    ensures ScanShaped(lines, n, ScanLine(st, lines[n - 1], n))
  {
    var b := Block(st.blockStart, n, Join(st.blockLines, "\n"));
    assert InPlace(lines, b);
    assert ScanLine(st, lines[n - 1], n) == Scan(false, st.blockStart, st.blockLines, st.blocks + [b]);
    OrderedAppend(st.blocks, b, n - 1, n);
    InPlaceAppend(lines, st.blocks, b);
  }

  lemma OrderedAppend(blocks: seq<Block>, b: Block, m: nat, n: nat)
    requires Ordered(blocks, m) && m <= n && 1 <= b.lineStart < b.lineEnd <= n
    requires blocks != [] ==> blocks[|blocks| - 1].lineEnd < b.lineStart
    ensures Ordered(blocks + [b], n)
  {
    var bs := blocks + [b];
    assert forall j :: 0 <= j < |blocks| ==> bs[j] == blocks[j];
  }

  lemma InPlaceAppend(lines: seq<string>, blocks: seq<Block>, b: Block)
    requires forall j :: 0 <= j < |blocks| ==> InPlace(lines, blocks[j])
    requires InPlace(lines, b)
    ensures forall j :: 0 <= j < |blocks + [b]| ==> InPlace(lines, (blocks + [b])[j])
  {
    var bs := blocks + [b];
    assert forall j :: 0 <= j < |blocks| ==> bs[j] == blocks[j];
  }

  lemma ShapeAdd(lines: seq<string>, n: nat, st: Scan)
    requires 0 < n <= |lines| && ScanShaped(lines, n - 1, st)
    requires !CheckCSharpSyntax.IsOpener(lines[n - 1]) && st.inBlock && !CheckCSharpSyntax.IsFence(lines[n - 1])
    ensures ScanShaped(lines, n, ScanLine(st, lines[n - 1], n))
  {
    assert lines[st.blockStart..n] == lines[st.blockStart..n - 1] + [lines[n - 1]];
  }

  lemma ShapeOther(lines: seq<string>, n: nat, st: Scan)
    requires 0 < n <= |lines| && ScanShaped(lines, n - 1, st)
    requires !CheckCSharpSyntax.IsOpener(lines[n - 1]) && !st.inBlock
    ensures ScanShaped(lines, n, ScanLine(st, lines[n - 1], n))
  {
  }

  /** Every block sits in the file's lines, and the blocks are in order and apart. */
  lemma BlocksInPlace(content: string)
    ensures Ordered(Blocks(content), |Split(content, '\n')|)
    ensures forall j :: 0 <= j < |Blocks(content)| ==> InPlace(Split(content, '\n'), Blocks(content)[j])
  {
    var lines := Split(content, '\n');
    ScanShape(lines, |lines|);
  }

  /** The checker's blocks and the formatter's are the same, the checker's code starting one line later. */
  lemma {:induction false} SameBlocks(lines: seq<string>, n: nat, file: string)
    requires n <= |lines|
    ensures |ScanLines(lines, n).blocks| == |CheckCSharpSyntax.ScanLines(lines, n, file).blocks|
    ensures forall j :: 0 <= j < |ScanLines(lines, n).blocks| ==>
      CheckCSharpSyntax.ScanLines(lines, n, file).blocks[j] ==
        CheckCSharpSyntax.CodeBlock(file, ScanLines(lines, n).blocks[j].lineStart + 1, ScanLines(lines, n).blocks[j].content)
    ensures ScanLines(lines, n).inBlock == CheckCSharpSyntax.ScanLines(lines, n, file).inBlock
    ensures ScanLines(lines, n).blockStart == CheckCSharpSyntax.ScanLines(lines, n, file).blockStart
    ensures ScanLines(lines, n).blockLines == CheckCSharpSyntax.ScanLines(lines, n, file).blockLines
  {
    if n > 0 {
      SameBlocks(lines, n - 1, file);
    }
  }

  // ---- one line ----

  /** A stripped line that is a comment: it starts with two slashes, slash-star, or a star. */
  predicate CommentLine(content: string) {
    content != [] && (content[0] == '*' || (|content| >= 2 && content[0] == '/' && (content[1] == '/' || content[1] == '*')))
  }

  /** The leading whitespace of a line. */
  function Indent(line: string): string {
    line[..SkipSpace(line, 0)]
  }

  /**
   * _format_line: blank and comment lines are kept; any other line keeps its
   * indentation and has its stripped content rewritten by the spacing passes.
   */
  function FormatLine(line: string, passes: string -> string): (r: string)
    ensures IsBlank(line) || CommentLine(Strip(line)) ==> r == line
    ensures StartsWith(r, Indent(line))
  {
    if IsBlank(line) then line
    else
      var content := Strip(line);
      if CommentLine(content) then line else Indent(line) + passes(content)
  }

  /** With passes that change nothing, a code line only loses its trailing whitespace. */
  lemma FormatLineTrims(line: string)
    requires !IsBlank(line) && !CommentLine(Strip(line))
    ensures FormatLine(line, s => s) == RStrip(line)
  {
    var a, b := StripParts(line);
    SkipSpaceBlank(line, 0);
    TrimEndBlank(line, |line|);
    if a < b {
      assert SkipSpace(line, 0) == a by { SkipSpaceAt(line, a); }
      assert TrimEnd(line, |line|) == b by { TrimEndAt(line, b); }
    } else {
      StripEmpty(line);
    }
  }

  lemma TrimEndAt(s: string, b: nat)
    requires 0 < b <= |s| && IsBlank(s[b..]) && !IsSpace(s[b - 1])
    ensures TrimEnd(s, |s|) == b
  {
    TrimEndDownTo(s, |s|, b);
  }

  lemma {:induction false} TrimEndDownTo(s: string, e: nat, b: nat)
    requires 0 < b <= e <= |s| && IsBlank(s[b..]) && !IsSpace(s[b - 1])
    ensures TrimEnd(s, e) == b
    decreases e - b
  {
    if e > b {
      assert s[b..][e - 1 - b] == s[e - 1];
      TrimEndDownTo(s, e - 1, b);
    }
  }

  /** The per-line pass over a block's lines. */
  function FormattedLines(lines: seq<string>, passes: string -> string): (r: seq<string>)
    ensures |r| == |lines|
  {
    seq(|lines|, k requires 0 <= k < |lines| => FormatLine(lines[k], passes))
  }

  /** format_code's loop over the lines: each line formatted on its own. */
  method FormatEachLine(lines: seq<string>, passes: string -> string) returns (result: seq<string>)
    ensures |result| == |lines|
    ensures forall k :: 0 <= k < |lines| ==> result[k] == FormatLine(lines[k], passes)
    ensures result == FormattedLines(lines, passes)
  {
    result := [];
    for i := 0 to |lines|
      invariant |result| == i
      invariant forall k :: 0 <= k < i ==> result[k] == FormatLine(lines[k], passes)
    {
      result := result + [FormatLine(lines[i], passes)];
    }
    assert forall k :: 0 <= k < |lines| ==> result[k] == FormattedLines(lines, passes)[k];
  }

  // ---- K&R braces to Allman ----

  /** The two-character ending ` {`, and `= {`. */
  predicate EndsWithOpenBrace(s: string) {
    |s| >= 2 && s[|s| - 2] == ' ' && s[|s| - 1] == '{'
  }

  predicate EndsWithAssignBrace(s: string) {
    |s| >= 3 && s[|s| - 3] == '=' && EndsWithOpenBrace(s)
  }

  /** An initializer or lambda opening: ` = new `, `=> {` or `= new(`. */
  predicate InitializerLine(s: string) {
    Contains(s, " = new ") || Contains(s, "=> {") || Contains(s, "= new(")
  }

  /** The stripped lines _format_braces_allman splits. */
  predicate SplitsBrace(stripped: string) {
    EndsWithOpenBrace(stripped) && stripped != "{" && !EndsWithAssignBrace(stripped) &&
    !InitializerLine(stripped) && !(stripped != [] && stripped[0] == '[')
  }

  function Spaces(n: nat): (r: string)
    ensures |r| == n && forall k :: 0 <= k < n ==> r[k] == ' '
  {
    if n == 0 then [] else Spaces(n - 1) + " "
  }

  /** What one line becomes: itself, or its content and then `{` on a line of its own. */
  function BraceLines(line: string): (r: seq<string>)
    ensures 1 <= |r| <= 2
  {
    var stripped := Strip(line);
    var indent := Spaces(SkipSpace(line, 0));
    if SplitsBrace(stripped) then
      var content := RStrip(stripped[..|stripped| - 2]);
      if content != [] then [indent + content, indent + "{"] else [line]
    else [line]
  }

  /** All lines through BraceLines, in order. */
  function AllmanLines(lines: seq<string>): seq<string> {
    if lines == [] then [] else AllmanLines(lines[..|lines| - 1]) + BraceLines(lines[|lines| - 1])
  }

  /** _format_braces_allman. */
  function Allman(code: string): string {
    Join(AllmanLines(Split(code, '\n')), "\n")
  }

  /** _format_braces_allman: the while loop over the lines. */
  method FormatBracesAllman(code: string) returns (r: string)
    ensures r == Allman(code)
  {
    var lines := Split(code, '\n');
    var result: seq<string> := [];
    var i := 0;
    while i < |lines|
      invariant i <= |lines|
      invariant result == AllmanLines(lines[..i])
    {
      var next := BraceStep(lines[i]);
      AllmanStep(lines, i);
      result := result + next;
      i := i + 1;
    }
    assert lines[..i] == lines;
    r := Join(result, "\n");
  }

  lemma AllmanStep(lines: seq<string>, i: nat)
    requires i < |lines|
    ensures AllmanLines(lines[..i + 1]) == AllmanLines(lines[..i]) + BraceLines(lines[i])
  {
    assert lines[..i + 1][..i] == lines[..i];
  }

  /** The body of the brace loop: one line, kept or split. */
  method BraceStep(line: string) returns (next: seq<string>)
    ensures next == BraceLines(line)
  {
    var stripped := Strip(line);
    var indentStr := Spaces(SkipSpace(line, 0));
    if EndsWithOpenBrace(stripped) && stripped != "{" && !EndsWithAssignBrace(stripped) {
      if InitializerLine(stripped) {
        return [line];
      }
      if stripped != [] && stripped[0] == '[' {
        return [line];
      }
      var content := RStrip(stripped[..|stripped| - 2]);
      if content != [] {
        return [indentStr + content, indentStr + "{"];
      }
      return [line];
    }
    return [line];
  }

  /** A line that ends in ` {` always has content before it, so a split never falls back to the line. */
  lemma SplitHasContent(line: string)
    requires SplitsBrace(Strip(line))
    ensures var s := Strip(line); RStrip(s[..|s| - 2]) != []
    ensures |BraceLines(line)| == 2
  {
    var s := Strip(line);
    var a, b := StripParts(line);
    assert s[0] == line[a] && !IsSpace(s[0]);
    assert |s| >= 3;
    var c := s[..|s| - 2];
    assert c[0] == s[0];
    NonBlankRStrip(c);
  }

  lemma NonBlankRStrip(c: string)
    requires c != [] && !IsSpace(c[0])
    ensures RStrip(c) != []
  {
    TrimEndAbove(c, |c|, 0);
  }

  /** Only the lines SplitsBrace selects are split; every other line is copied. */
  lemma BraceLinesSplitIff(line: string)
    ensures |BraceLines(line)| == 2 <==> SplitsBrace(Strip(line))
    ensures !SplitsBrace(Strip(line)) ==> BraceLines(line) == [line]
  {
    if SplitsBrace(Strip(line)) {
      SplitHasContent(line);
    }
  }

  // ---- Allman keeps the text ----

  /** The text without its whitespace. */
  function NonSpace(s: string): string {
    if s == [] then [] else NonSpace(s[..|s| - 1]) + (if IsSpace(s[|s| - 1]) then [] else [s[|s| - 1]])
  }

  lemma {:induction false} NonSpaceAppend(a: string, b: string)
    ensures NonSpace(a + b) == NonSpace(a) + NonSpace(b)
    decreases |b|
  {
    if b == [] {
      assert a + b == a;
    } else {
      var b' := b[..|b| - 1];
      assert (a + b)[..|a + b| - 1] == a + b';
      NonSpaceAppend(a, b');
    }
  }

  lemma {:induction false} NonSpaceBlank(s: string)
    requires IsBlank(s)
    ensures NonSpace(s) == []
  {
    if s != [] {
      assert IsBlank(s[..|s| - 1]);
      NonSpaceBlank(s[..|s| - 1]);
    }
  }

  /** Joining lines, with the line breaks as whitespace. */
  function Concat(lines: seq<string>): string {
    if lines == [] then [] else Concat(lines[..|lines| - 1]) + lines[|lines| - 1]
  }

  lemma NonSpaceStrip(line: string)
    ensures NonSpace(Strip(line)) == NonSpace(line)
  {
    var a, b := StripParts(line);
    var head, mid, tail := line[..a], line[a..b], line[b..];
    Thirds(line, a, b);
    NonSpaceAppend(head + mid, tail);
    NonSpaceAppend(head, mid);
    NonSpaceBlank(head);
    NonSpaceBlank(tail);
    assert NonSpace(line) == ([] + NonSpace(mid)) + [];
  }

  lemma NonSpaceRStrip(s: string)
    ensures NonSpace(RStrip(s)) == NonSpace(s)
  {
    var e := TrimEnd(s, |s|);
    TrimEndBlank(s, |s|);
    assert s[e..] == s[e..|s|];
    Halves(s, e);
    BlankTailIgnored(s[..e], s[e..]);
  }

  lemma BlankTailIgnored(head: string, tail: string)
    requires IsBlank(tail)
    ensures NonSpace(head + tail) == NonSpace(head)
  {
    NonSpaceAppend(head, tail);
    NonSpaceBlank(tail);
    assert NonSpace(head) + [] == NonSpace(head);
  }

  lemma Thirds<T>(s: seq<T>, a: nat, b: nat)
    requires a <= b <= |s|
    ensures s == s[..a] + s[a..b] + s[b..]
  {
  }

  lemma Halves<T>(s: seq<T>, e: nat)
    requires e <= |s|
    ensures s == s[..e] + s[e..]
  {
  }

  /** What BraceLines gives: the line itself, or the two lines of a split. */
  lemma BraceLinesForm(line: string)
    ensures var s := Strip(line); var indent := Spaces(SkipSpace(line, 0));
      BraceLines(line) == [line] ||
      (EndsWithOpenBrace(s) && BraceLines(line) == [indent + RStrip(s[..|s| - 2]), indent + "{"])
  {
  }

  /** Splitting a brace line only moves whitespace: the text of the two lines is the text of the line. */
  lemma BraceLinesKeepText(line: string)
    ensures NonSpace(Concat(BraceLines(line))) == NonSpace(line)
  {
    BraceLinesForm(line);
    var r := BraceLines(line);
    if r == [line] {
      ConcatOne(line);
    } else {
      var s := Strip(line);
      var indent := Spaces(SkipSpace(line, 0));
      NonSpaceRStrip(s[..|s| - 2]);
      TwoLinesText(indent, RStrip(s[..|s| - 2]), s[..|s| - 2]);
      BraceEnd(s);
      NonSpaceStrip(line);
    }
  }

  lemma TwoLinesText(indent: string, content: string, t: string)
    requires forall k :: 0 <= k < |indent| ==> indent[k] == ' '
    requires NonSpace(content) == NonSpace(t)
    ensures NonSpace(Concat([indent + content, indent + "{"])) == NonSpace((t + [' ']) + ['{'])
  {
    var brace: string := ['{'];
    var x, y := indent + content, indent + brace;
    ConcatTwo(x, y);
    assert IsBlank(indent);
    NonSpaceBlank(indent);
    NonSpaceChar('{');
    NonSpaceChar(' ');
    var nc := NonSpace(content);
    NonSpaceAppend(indent, content);
    assert NonSpace(x) == nc;
    NonSpaceAppend(indent, brace);
    assert NonSpace(y) == brace;
    NonSpaceAppend(x, y);
    assert NonSpace(x + y) == nc + brace;
    NonSpaceAppend(t, [' ']);
    assert NonSpace(t + [' ']) == nc;
    NonSpaceAppend(t + [' '], brace);
    assert NonSpace((t + [' ']) + brace) == nc + brace;
  }

  lemma BraceEnd(s: string)
    requires EndsWithOpenBrace(s)
    ensures s == (s[..|s| - 2] + [' ']) + ['{']
  {
  }

  lemma NonSpaceChar(c: char)
    ensures NonSpace([c]) == if IsSpace(c) then [] else [c]
  {
    assert [c][..0] == [];
  }

  lemma ConcatTwo(x: string, y: string)
    ensures Concat([x, y]) == x + y
  {
    ConcatOne(x);
    assert [x, y][..1] == [x];
    assert Concat([x, y]) == Concat([x]) + y;
  }

  lemma ConcatOne(x: string)
    ensures Concat([x]) == x
  {
    assert [x][..0] == [];
    assert Concat([x]) == Concat([]) + x;
  }

  lemma {:induction false} ConcatAppend(a: seq<string>, b: seq<string>)
    ensures Concat(a + b) == Concat(a) + Concat(b)
    decreases |b|
  {
    if b == [] {
      assert a + b == a;
    } else {
      var ab := a + b;
      var init := b[..|b| - 1];
      var x := b[|b| - 1];
      assert ab[..|ab| - 1] == a + init;
      assert ab[|ab| - 1] == x;
      assert Concat(ab) == Concat(a + init) + x;
      ConcatAppend(a, init);
      assert Concat(b) == Concat(init) + x;
      AppendAssoc(Concat(a), Concat(init), x);
    }
  }

  /** The whole pass keeps every non-whitespace character, in order. */
  lemma {:induction false} AllmanKeepsText(lines: seq<string>)
    ensures NonSpace(Concat(AllmanLines(lines))) == NonSpace(Concat(lines))
  {
    if lines != [] {
      var init := lines[..|lines| - 1];
      var last := lines[|lines| - 1];
      AllmanKeepsText(init);
      ConcatAppend(AllmanLines(init), BraceLines(last));
      NonSpaceAppend(Concat(AllmanLines(init)), Concat(BraceLines(last)));
      BraceLinesKeepText(last);
      NonSpaceAppend(Concat(init), last);
    }
  }

  /** The number of lines grows by one per split line. */
  function SplitCount(lines: seq<string>): nat {
    if lines == [] then 0
    else SplitCount(lines[..|lines| - 1]) + (if SplitsBrace(Strip(lines[|lines| - 1])) then 1 else 0)
  }

  lemma {:induction false} AllmanLength(lines: seq<string>)
    ensures |AllmanLines(lines)| == |lines| + SplitCount(lines)
  {
    if lines != [] {
      AllmanLength(lines[..|lines| - 1]);
      BraceLinesSplitIff(lines[|lines| - 1]);
    }
  }

  // ---- blank lines between members ----

  /** A stripped line that starts a member declaration. */
  predicate MemberStart(s: string) {
    StartsWith(s, "public ") || StartsWith(s, "private ") || StartsWith(s, "protected ") ||
    StartsWith(s, "internal ") || StartsWith(s, "static ") || StartsWith(s, "void ") || StartsWith(s, "async ")
  }

  /** A closing brace line followed by a member line. */
  predicate Gap(prev: string, curr: string) {
    Strip(prev) == "}" && Strip(curr) != [] && MemberStart(Strip(curr))
  }

  /** The first `n` lines, with a blank line put between each two that `gap` selects. */
  function Spaced(lines: seq<string>, n: nat, gap: (string, string) -> bool): seq<string>
    requires 1 <= n <= |lines|
  {
    if n == 1 then [lines[0]]
    else Spaced(lines, n - 1, gap) + (if gap(lines[n - 2], lines[n - 1]) then [""] else []) + [lines[n - 1]]
  }

  /** _ensure_blank_lines_between_members. */
  function MembersSpaced(code: string): string {
    var lines := Split(code, '\n');
    if |lines| < 3 then code else Join(Spaced(lines, |lines|, Gap), "\n")
  }

  /**
   * _ensure_blank_lines_between_members: the loop over the lines.  Its test
   * that the last output line is not already blank always passes, because
   * that line is the previous input line, a `}`.
   */
  method EnsureBlankLinesBetweenMembers(code: string) returns (r: string)
    ensures r == MembersSpaced(code)
  {
    var lines := Split(code, '\n');
    if |lines| < 3 {
      return code;
    }
    var result := [lines[0]];
    for i := 1 to |lines|
      invariant result == Spaced(lines, i, Gap)
      invariant result[|result| - 1] == lines[i - 1]
    {
      result := SpaceStep(lines, i, result);
    }
    r := Join(result, "\n");
  }

  /** One turn of the loop: the blank line when the gap rule fires, then line `i`. */
  method SpaceStep(lines: seq<string>, i: nat, result: seq<string>) returns (next: seq<string>)
    requires 1 <= i < |lines|
    requires result == Spaced(lines, i, Gap) && result[|result| - 1] == lines[i - 1]
    ensures next == Spaced(lines, i + 1, Gap) && next[|next| - 1] == lines[i]
  {
    SpacedStep(lines, i, Gap);
    next := result;
    var prevLine := Strip(lines[i - 1]);
    var currLine := Strip(lines[i]);
    if prevLine == "}" && currLine != [] && MemberStart(currLine) {
      if next != [] && Strip(next[|next| - 1]) != [] {
        next := next + [""];
      }
    }
    next := next + [lines[i]];
  }

  lemma SpacedStep(lines: seq<string>, i: nat, gap: (string, string) -> bool)
    requires 1 <= i < |lines|
    ensures Spaced(lines, i + 1, gap) == Spaced(lines, i, gap) + (if gap(lines[i - 1], lines[i]) then [""] else []) + [lines[i]]
  {
  }

  /** The lines with the empty ones taken out. */
  function Erase(lines: seq<string>): seq<string> {
    if lines == [] then [] else Erase(lines[..|lines| - 1]) + (if lines[|lines| - 1] == [] then [] else [lines[|lines| - 1]])
  }

  lemma {:induction false} EraseAppend(a: seq<string>, b: seq<string>)
    ensures Erase(a + b) == Erase(a) + Erase(b)
    decreases |b|
  {
    if b == [] {
      assert a + b == a;
    } else {
      var ab := a + b;
      var init := b[..|b| - 1];
      var x := b[|b| - 1];
      var tail: seq<string> := if x == [] then [] else [x];
      assert ab[..|ab| - 1] == a + init;
      assert ab[|ab| - 1] == x;
      assert Erase(ab) == Erase(a + init) + tail;
      EraseAppend(a, init);
      assert Erase(b) == Erase(init) + tail;
      AppendAssoc(Erase(a), Erase(init), tail);
    }
  }

  /** The number of gaps among the first `n` lines. */
  function GapCount(lines: seq<string>, n: nat, gap: (string, string) -> bool): nat
    requires 1 <= n <= |lines|
  {
    if n == 1 then 0 else GapCount(lines, n - 1, gap) + (if gap(lines[n - 2], lines[n - 1]) then 1 else 0)
  }

  /** Only empty lines are inserted; the input lines stay, in order. */
  lemma {:induction false} SpacedOnlyInserts(lines: seq<string>, n: nat, gap: (string, string) -> bool)
    requires 1 <= n <= |lines|
    ensures Erase(Spaced(lines, n, gap)) == Erase(lines[..n])
  {
    if n == 1 {
      assert lines[..1] == [lines[0]];
      assert Erase([lines[0]]) == Erase([]) + Erase([lines[0]]);
    } else {
      SpacedOnlyInserts(lines, n - 1, gap);
      var gapLines: seq<string> := if gap(lines[n - 2], lines[n - 1]) then [""] else [];
      var prev := Spaced(lines, n - 1, gap);
      var last := [lines[n - 1]];
      assert Spaced(lines, n, gap) == prev + gapLines + last;
      EraseGapStep(prev, gapLines, last);
      EraseAppend(lines[..n - 1], last);
      SliceLast(lines, n);
    }
  }

  /** An inserted blank line leaves no trace once the empty lines are taken out. */
  lemma EraseGapStep(prev: seq<string>, gapLines: seq<string>, last: seq<string>)
    requires gapLines == [] || gapLines == [""]
    ensures Erase(prev + gapLines + last) == Erase(prev) + Erase(last)
  {
    var front := prev + gapLines;
    EraseAppend(front, last);
    assert Erase(front + last) == Erase(front) + Erase(last);
    EraseAppend(prev, gapLines);
    EraseGap(gapLines);
    assert Erase(front) == Erase(prev);
  }

  lemma SliceLast<T>(xs: seq<T>, n: nat)
    requires 1 <= n <= |xs|
    ensures xs[..n] == xs[..n - 1] + [xs[n - 1]]
  {
  }

  lemma EraseGap(gapLines: seq<string>)
    requires gapLines == [] || gapLines == [""]
    ensures Erase(gapLines) == []
  {
    if gapLines != [] {
      assert gapLines[..0] == [];
    }
  }

  /** One inserted line per gap. */
  lemma {:induction false} SpacedLength(lines: seq<string>, n: nat, gap: (string, string) -> bool)
    requires 1 <= n <= |lines|
    ensures |Spaced(lines, n, gap)| == n + GapCount(lines, n, gap)
  {
    if n > 1 {
      SpacedLength(lines, n - 1, gap);
    }
  }

  /** Code of fewer than three lines is returned as it is. */
  lemma ShortCodeUnspaced(code: string)
    requires |Split(code, '\n')| < 3
    ensures MembersSpaced(code) == code
  {
  }

  // ---- format_code ----

  /** The first characters of a shell command or configuration line. */
  predicate ShellLine(s: string) {
    StartsWith(s, "dotnet ") || StartsWith(s, "git ") || StartsWith(s, "mkdir ") ||
    StartsWith(s, "cat ") || StartsWith(s, "pip ") || StartsWith(s, "npm ")
  }

  /** The non-blank lines, stripped. */
  function NonBlankStripped(lines: seq<string>): (r: seq<string>)
    ensures |r| <= |lines|
  {
    if lines == [] then []
    else
      var last := lines[|lines| - 1];
      NonBlankStripped(lines[..|lines| - 1]) + (if IsBlank(last) then [] else [Strip(last)])
  }

  /** _should_skip_block: no code, a shell command, or a single short line. */
  predicate ShouldSkip(code: string) {
    var trimmed := Strip(code);
    var lines := NonBlankStripped(Split(trimmed, '\n'));
    lines == [] || ShellLine(lines[0]) || (|lines| <= 1 && |trimmed| < 40)
  }

  /** One line of fewer than 40 characters is left alone. */
  lemma ShortLineSkipped(code: string)
    requires |Strip(code)| < 40 && forall k :: 0 <= k < |Strip(code)| ==> Strip(code)[k] != '\n'
    ensures ShouldSkip(code)
  {
    assert IndexOfFrom(Strip(code), '\n', 0) == -1;
    assert Split(Strip(code), '\n') == [Strip(code)];
  }

  /** Blank code is skipped. */
  lemma BlankSkipped(code: string)
    requires IsBlank(code)
    ensures ShouldSkip(code)
  {
    StripEmpty(code);
    assert Split([], '\n') == [[]];
    assert NonBlankStripped([[]]) == NonBlankStripped([]) + [];
  }

  /** `\r\n` to `\n`, left to right. */
  function ReplaceCRLF(s: string): (r: string)
    ensures |r| <= |s|
  {
    if |s| >= 2 && s[0] == '\r' && s[1] == '\n' then "\n" + ReplaceCRLF(s[2..])
    else if s == [] then [] else [s[0]] + ReplaceCRLF(s[1..])
  }

  /** Every remaining `\r` to `\n`. */
  function ReplaceCR(s: string): (r: string)
    ensures |r| == |s| && forall k :: 0 <= k < |r| ==> r[k] != '\r'
  {
    if s == [] then [] else [if s[0] == '\r' then '\n' else s[0]] + ReplaceCR(s[1..])
  }

  /** The line-ending normalisation of format_code. */
  function NormalizeNewlines(s: string): string {
    ReplaceCR(ReplaceCRLF(s))
  }

  /** Text without `\r` is left as it is. */
  lemma {:induction false} NoCarriageReturnUnchanged(s: string)
    requires forall k :: 0 <= k < |s| ==> s[k] != '\r'
    ensures NormalizeNewlines(s) == s
  {
    CRLFUnchanged(s);
    CRUnchanged(s);
  }

  lemma {:induction false} CRLFUnchanged(s: string)
    requires forall k :: 0 <= k < |s| ==> s[k] != '\r'
    ensures ReplaceCRLF(s) == s
  {
    if s != [] {
      assert forall k :: 0 <= k < |s[1..]| ==> s[1..][k] == s[k + 1];
      CRLFUnchanged(s[1..]);
    }
  }

  lemma {:induction false} CRUnchanged(s: string)
    requires forall k :: 0 <= k < |s| ==> s[k] != '\r'
    ensures ReplaceCR(s) == s
  {
    if s != [] {
      assert forall k :: 0 <= k < |s[1..]| ==> s[1..][k] == s[k + 1];
      CRUnchanged(s[1..]);
    }
  }

  /** format_code: blank or skipped code is returned as it is. */
  function Formatted(code: string, passes: string -> string): (r: string)
    ensures IsBlank(code) || ShouldSkip(code) ==> r == code
  {
    if IsBlank(code) || ShouldSkip(code) then code
    else
      var lines := Split(NormalizeNewlines(code), '\n');
      MembersSpaced(Allman(Join(FormattedLines(lines, passes), "\n")))
  }

  /** format_code, with its line loop and the two multi-line passes. */
  method FormatCode(code: string, passes: string -> string) returns (r: string)
    ensures r == Formatted(code, passes)
  {
    if IsBlank(code) {
      return code;
    }
    if ShouldSkip(code) {
      return code;
    }
    var normalized := NormalizeNewlines(code);
    var lines := Split(normalized, '\n');
    var resultLines := FormatEachLine(lines, passes);
    r := Join(resultLines, "\n");
    r := FormatBracesAllman(r);
    r := EnsureBlankLinesBetweenMembers(r);
  }

  // ---- putting the formatted blocks back ----

  /** Python's `xs[i:]`, a negative `i` counting from the end. */
  function PyFrom<T>(xs: seq<T>, i: int): (r: seq<T>)
    ensures 0 <= i <= |xs| ==> r == xs[i..]
  {
    if i >= 0 then (if i <= |xs| then xs[i..] else [])
    else if |xs| + i >= 0 then xs[|xs| + i..] else xs
  }

  /** The lines up to and including the opener, the formatted body, then the lines from the closer on. */
  function Splice(content: string, b: Block, formatted: string): string {
    var lines := Split(content, '\n');
    Join(PySlice(lines, 0, b.lineStart) + [formatted] + PyFrom(lines, b.lineEnd - 1), "\n")
  }

  /** format_code with the given passes, as a function value. */
  function FormatOf(passes: string -> string): string -> string {
    c => Formatted(c, passes)
  }

  /** One block's turn: spliced in only when formatting (`format`, format_code) changed it. */
  function Replaced(content: string, b: Block, format: string -> string): string {
    var formatted := format(b.content);
    if formatted != b.content then Splice(content, b, formatted) else content
  }

  /** The content once blocks[k-1], ..., blocks[t] have had their turn, last first. */
  function After(content: string, blocks: seq<Block>, k: nat, t: nat, format: string -> string): string
    requires t <= k <= |blocks|
    decreases k - t
  {
    if t == k then content else Replaced(After(content, blocks, k, t + 1, format), blocks[t], format)
  }

  /** The blocks among blocks[t..k] that formatting changes. */
  function ChangedCount(blocks: seq<Block>, k: nat, t: nat, format: string -> string): nat
    requires t <= k <= |blocks|
    decreases k - t
  {
    if t == k then 0
    else ChangedCount(blocks, k, t + 1, format) + (if format(blocks[t].content) != blocks[t].content then 1 else 0)
  }

  /** format_markdown_file: whether the file changed, how many blocks were reformatted, and the new text. */
  function FormatFile(content: string, passes: string -> string): (bool, nat, string) {
    var blocks := Blocks(content);
    if blocks == [] then (false, 0, content)
    else
      var format := FormatOf(passes);
      var out := After(content, blocks, |blocks|, 0, format);
      (out != content, ChangedCount(blocks, |blocks|, 0, format), out)
  }

  /** format_markdown_file: the reverse loop over the blocks. */
  method FormatMarkdownFile(original: string, passes: string -> string) returns (modified: bool, count: nat, content: string)
    ensures (modified, count, content) == FormatFile(original, passes)
  {
    content := original;
    var blocks := ExtractCSharpBlocks(original);
    if blocks == [] {
      return false, 0, content;
    }
    count := 0;
    var k: nat := |blocks|;
    while k > 0
      invariant k <= |blocks|
      invariant content == After(original, blocks, |blocks|, k, FormatOf(passes))
      invariant count == ChangedCount(blocks, |blocks|, k, FormatOf(passes))
    {
      k := k - 1;
      var changed;
      content, changed := FormatBlock(content, blocks[k], passes);
      if changed {
        count := count + 1;
      }
    }
    modified := content != original;
  }

  /** The loop body of format_markdown_file: one block formatted and, when changed, spliced in. */
  method FormatBlock(content: string, b: Block, passes: string -> string) returns (next: string, changed: bool)
    ensures next == Replaced(content, b, FormatOf(passes))
    ensures changed == (FormatOf(passes)(b.content) != b.content)
  {
    var formatted := FormatCode(b.content, passes);
    FormatOfApplies(passes, b.content);
    ReplacedBy(content, b, FormatOf(passes), formatted);
    changed := formatted != b.content;
    next := content;
    if changed {
      next := Splice(content, b, formatted);
    }
  }

  lemma FormatOfApplies(passes: string -> string, c: string)
    ensures FormatOf(passes)(c) == Formatted(c, passes)
  {
  }

  lemma ReplacedBy(content: string, b: Block, format: string -> string, formatted: string)
    requires format(b.content) == formatted
    ensures Replaced(content, b, format) == if formatted != b.content then Splice(content, b, formatted) else content
  {
  }

  /** Splitting a join of lines free of line breaks, followed by more, gives those lines back first. */
  lemma {:induction false} SplitJoinPrefix(a: seq<string>, rest: seq<string>)
    requires rest != []
    requires forall k, i :: 0 <= k < |a| && 0 <= i < |a[k]| ==> a[k][i] != '\n'
    ensures Split(Join(a + rest, "\n"), '\n') == a + Split(Join(rest, "\n"), '\n')
  {
    if a == [] {
      assert a + rest == rest;
    } else {
      var back := Split(Join(rest, "\n"), '\n');
      NoBreakInRest(a);
      SplitJoinPrefix(a[1..], rest);
      NoBreakInFirst(a);
      calc {
        Split(Join(a + rest, "\n"), '\n');
        { assert a + rest == [a[0]] + (a[1..] + rest); }
        Split(Join([a[0]] + (a[1..] + rest), "\n"), '\n');
        { SplitJoinStep(a[0], a[1..], rest, back); }
        ([a[0]] + a[1..]) + back;
        { assert [a[0]] + a[1..] == a; }
        a + back;
      }
    }
  }

  lemma SplitJoinStep(head: string, more: seq<string>, rest: seq<string>, back: seq<string>)
    requires rest != []
    requires forall i :: 0 <= i < |head| ==> head[i] != '\n'
    requires Split(Join(more + rest, "\n"), '\n') == more + back
    ensures Split(Join([head] + (more + rest), "\n"), '\n') == ([head] + more) + back
  {
    var tail := more + rest;
    JoinCons(head, tail, "\n");
    SplitAround(head, Join(tail, "\n"), '\n');
    AppendAssoc([head], more, back);
  }

  lemma NoBreakInFirst(a: seq<string>)
    requires a != []
    requires forall k, i :: 0 <= k < |a| && 0 <= i < |a[k]| ==> a[k][i] != '\n'
    ensures forall i :: 0 <= i < |a[0]| ==> a[0][i] != '\n'
  {
  }

  lemma NoBreakInRest(a: seq<string>)
    requires a != []
    requires forall k, i :: 0 <= k < |a| && 0 <= i < |a[k]| ==> a[k][i] != '\n'
    ensures forall k, i :: 0 <= k < |a[1..]| && 0 <= i < |a[1..][k]| ==> a[1..][k][i] != '\n'
  {
    forall k, i | 0 <= k < |a[1..]| && 0 <= i < |a[1..][k]|
      ensures a[1..][k][i] != '\n'
    {
      assert a[1..][k] == a[k + 1];
    }
  }

  /** A splice keeps every line before the body: the opener and all above it. */
  lemma SpliceKeepsPrefix(content: string, b: Block, formatted: string)
    requires b.lineStart <= |Split(content, '\n')|
    ensures |Split(Splice(content, b, formatted), '\n')| > b.lineStart
    ensures Split(Splice(content, b, formatted), '\n')[..b.lineStart] == Split(content, '\n')[..b.lineStart]
  {
    var lines := Split(content, '\n');
    var a := lines[..b.lineStart];
    var rest := [formatted] + PyFrom(lines, b.lineEnd - 1);
    assert PySlice(lines, 0, b.lineStart) == a;
    assert PySlice(lines, 0, b.lineStart) + [formatted] + PyFrom(lines, b.lineEnd - 1) == a + rest;
    forall k, i | 0 <= k < |a| && 0 <= i < |a[k]|
      ensures a[k][i] != '\n'
    {
      assert a[k] == lines[k];
    }
    SplitJoinPrefix(a, rest);
    var r := Split(Splice(content, b, formatted), '\n');
    assert r == a + Split(Join(rest, "\n"), '\n');
    assert r[..b.lineStart] == a;
  }

  /**
   * Working from the last block back keeps every block still to do where it
   * was: when blocks[t] has its turn, the lines up to its closing fence are
   * those of the original file.
   */
  lemma {:induction false} ReverseOrderKeepsLines(content: string, blocks: seq<Block>, t: nat, format: string -> string)
    requires Ordered(blocks, |Split(content, '\n')|)
    requires t < |blocks|
    ensures |Split(After(content, blocks, |blocks|, t + 1, format), '\n')| >= blocks[t].lineEnd
    ensures Split(After(content, blocks, |blocks|, t + 1, format), '\n')[..blocks[t].lineEnd] ==
      Split(content, '\n')[..blocks[t].lineEnd]
    decreases |blocks| - t
  {
    if t + 1 < |blocks| {
      ReverseOrderKeepsLines(content, blocks, t + 1, format);
      var before := After(content, blocks, |blocks|, t + 2, format);
      var next := blocks[t + 1];
      var e := blocks[t].lineEnd;
      assert e < next.lineStart < next.lineEnd;
      assert After(content, blocks, |blocks|, t + 1, format) == Replaced(before, next, format);
      ReplacedKeepsPrefix(before, next, format, e);
      PrefixOfPrefix(Split(before, '\n'), Split(content, '\n'), next.lineEnd, e);
    } else {
      assert After(content, blocks, |blocks|, t + 1, format) == content;
    }
  }

  /** A block's turn keeps every line above its opener. */
  lemma ReplacedKeepsPrefix(content: string, b: Block, format: string -> string, e: nat)
    requires e < b.lineStart <= b.lineEnd <= |Split(content, '\n')|
    ensures |Split(Replaced(content, b, format), '\n')| >= e
    ensures Split(Replaced(content, b, format), '\n')[..e] == Split(content, '\n')[..e]
  {
    var formatted := format(b.content);
    if formatted != b.content {
      SpliceKeepsPrefix(content, b, formatted);
      PrefixOfPrefix(Split(Splice(content, b, formatted), '\n'), Split(content, '\n'), b.lineStart, e);
    }
  }

  lemma PrefixOfPrefix(xs: seq<string>, ys: seq<string>, n: nat, e: nat)
    requires e <= n <= |xs| && n <= |ys| && xs[..n] == ys[..n]
    ensures xs[..e] == ys[..e]
  {
    assert xs[..e] == xs[..n][..e];
    assert ys[..e] == ys[..n][..e];
  }

  /** Each block, when its turn comes, is found at its original place: opener, body and closing fence. */
  lemma BlockStillInPlace(content: string, t: nat, format: string -> string)
    requires t < |Blocks(content)|
    ensures InPlace(Split(After(content, Blocks(content), |Blocks(content)|, t + 1, format), '\n'), Blocks(content)[t])
  {
    var blocks := Blocks(content);
    BlocksInPlace(content);
    ReverseOrderKeepsLines(content, blocks, t, format);
    InPlaceOfPrefix(Split(After(content, blocks, |blocks|, t + 1, format), '\n'), Split(content, '\n'), blocks[t]);
  }

  lemma InPlaceOfPrefix(now: seq<string>, lines: seq<string>, b: Block)
    requires InPlace(lines, b) && b.lineEnd <= |now| && now[..b.lineEnd] == lines[..b.lineEnd]
    ensures InPlace(now, b)
  {
    assert now[b.lineStart - 1] == now[..b.lineEnd][b.lineStart - 1];
    assert now[b.lineEnd - 1] == now[..b.lineEnd][b.lineEnd - 1];
    assert now[b.lineStart..b.lineEnd - 1] == now[..b.lineEnd][b.lineStart..b.lineEnd - 1];
    assert lines[b.lineStart..b.lineEnd - 1] == lines[..b.lineEnd][b.lineStart..b.lineEnd - 1];
  }

  /** Only changed blocks are counted. */
  lemma {:induction false} CountBound(blocks: seq<Block>, k: nat, t: nat, format: string -> string)
    requires t <= k <= |blocks|
    ensures ChangedCount(blocks, k, t, format) <= k - t
    ensures ChangedCount(blocks, k, t, format) == 0 <==>
      forall j :: t <= j < k ==> format(blocks[j].content) == blocks[j].content
    decreases k - t
  {
    if t < k {
      CountBound(blocks, k, t + 1, format);
    }
  }

  /** When no block is changed by formatting, the file is left as it is. */
  lemma {:induction false} NothingChangedKeepsFile(content: string, blocks: seq<Block>, k: nat, t: nat, format: string -> string)
    requires t <= k <= |blocks|
    requires ChangedCount(blocks, k, t, format) == 0
    ensures After(content, blocks, k, t, format) == content
    decreases k - t
  {
    if t < k {
      NothingChangedKeepsFile(content, blocks, k, t + 1, format);
    }
  }

  /** A reported modification means at least one block was reformatted. */
  lemma ModifiedMeansCounted(content: string, passes: string -> string)
    ensures FormatFile(content, passes).0 ==> FormatFile(content, passes).1 > 0
  {
    var blocks := Blocks(content);
    var format := FormatOf(passes);
    if blocks != [] && ChangedCount(blocks, |blocks|, 0, format) == 0 {
      NothingChangedKeepsFile(content, blocks, |blocks|, 0, format);
    }
  }
}
