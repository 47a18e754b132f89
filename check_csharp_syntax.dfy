/**
 * The C# snippet checker: it pulls the ```` ```csharp ```` blocks out of a
 * Markdown file and reports, for each of the three bracket pairs, whether
 * the block's brackets balance.  The balance scan is a small lexer that
 * ignores brackets inside string literals, character literals, `//` line
 * comments and block comments, and skips C# verbatim strings
 * `@"..."` whose only escape is a doubled quote.
 */
module CheckCSharpSyntax {
  import opened Strings

  // ---- the balance scan ----

  /** The scan's flags and bracket depth. */
  datatype Lexer = Lexer(depth: int, inString: bool, inChar: bool, inComment: bool, escapeNext: bool)

  /** What one turn of the scan does: go on at a later index, or return. */
  datatype Outcome = Next(at: nat, lx: Lexer) | Done(balanced: bool, depth: int)

  const Start := Lexer(0, false, false, false, false)

  /** Outside every literal and comment, with no escape pending. */
  predicate Neutral(lx: Lexer) {
    !lx.inString && !lx.inChar && !lx.inComment && !lx.escapeNext
  }

  /**
   * The end of a verbatim string whose body starts at `j`: the first `"` that
   * is not doubled, or the end of the code.
   */
  function VerbatimEnd(code: string, j: nat): (r: nat)
    requires j <= |code|
    ensures j <= r <= |code|
    ensures r < |code| ==> code[r] == '"' && (r + 1 == |code| || code[r + 1] != '"')
    decreases |code| - j
  {
    if j == |code| then j
    else if code[j] == '"' then
      if j + 1 < |code| && code[j + 1] == '"' then VerbatimEnd(code, j + 2) else j
    else VerbatimEnd(code, j + 1)
  }

  /** One turn of the scan at index `i`, in the order the checks are made. */
  function Step(code: string, open: char, close: char, i: nat, lx: Lexer): (r: Outcome)
    requires i < |code|
    ensures r.Next? ==> i < r.at <= |code| + 1
  {
    var ch := code[i];
    var literal := lx.inString || lx.inChar;
    if lx.escapeNext then Next(i + 1, lx.(escapeNext := false))
    else if ch == '\\' && literal then Next(i + 1, lx.(escapeNext := true))
    else if !literal && i + 1 < |code| && ch == '/' && code[i + 1] == '/' && !lx.inComment then
      var nl := IndexOfFrom(code, '\n', i);
      if nl == -1 then Done(lx.depth == 0, lx.depth) else Next(nl + 1, lx)
    else if !literal && i + 1 < |code| && ch == '/' && code[i + 1] == '*' && !lx.inComment then
      Next(i + 2, lx.(inComment := true))
    else if !literal && i + 1 < |code| && ch == '*' && code[i + 1] == '/' && lx.inComment then
      Next(i + 2, lx.(inComment := false))
    else if lx.inComment then Next(i + 1, lx)
    else if ch == '"' && !lx.inChar then
      if i > 0 && code[i - 1] == '@' then Next(VerbatimEnd(code, i + 1) + 1, lx)
      else Next(i + 1, lx.(inString := !lx.inString))
    else if ch == '\'' && !lx.inString then Next(i + 1, lx.(inChar := !lx.inChar))
    else if !literal && ch == open then Next(i + 1, lx.(depth := lx.depth + 1))
    else if !literal && ch == close then
      if lx.depth - 1 < 0 then Done(false, lx.depth - 1) else Next(i + 1, lx.(depth := lx.depth - 1))
    else Next(i + 1, lx)
  }

  /** The scan from index `i` on, to its answer (balanced, depth). */
  function BalanceFrom(code: string, open: char, close: char, i: nat, lx: Lexer): (bool, int)
    requires i <= |code| + 1
    decreases |code| + 1 - i
  {
    if i >= |code| then (lx.depth == 0, lx.depth)
    else
      match Step(code, open, close, i, lx)
      case Next(j, next) => BalanceFrom(code, open, close, j, next)
      case Done(b, d) => (b, d)
  }

  /** check_balanced(code, open, close). */
  function Balance(code: string, open: char, close: char): (bool, int) {
    BalanceFrom(code, open, close, 0, Start)
  }

  /** The inner loop over a verbatim string's body. */
  method SkipVerbatim(code: string, start: nat) returns (j: nat)
    requires start <= |code|
    ensures j == VerbatimEnd(code, start)
  {
    j := start;
    while j < |code|
      invariant start <= j <= |code|
      invariant VerbatimEnd(code, j) == VerbatimEnd(code, start)
      decreases |code| - j
    {
      if code[j] == '"' {
        if j + 1 < |code| && code[j + 1] == '"' {
          j := j + 2;
          continue;
        }
        break;
      }
      j := j + 1;
    }
  }

  /** check_balanced: the scan loop over the code. */
  method CheckBalanced(code: string, open: char, close: char) returns (balanced: bool, depth: int)
    ensures (balanced, depth) == Balance(code, open, close)
  {
    depth := 0;
    var inString, inChar, inComment, escapeNext := false, false, false, false;
    var i: nat := 0;
    while i < |code|
      invariant i <= |code| + 1
      invariant BalanceFrom(code, open, close, i, Lexer(depth, inString, inChar, inComment, escapeNext)) == Balance(code, open, close)
      decreases |code| + 1 - i
    {
      var lx := Lexer(depth, inString, inChar, inComment, escapeNext);
      var next := ScanStep(code, open, close, i, lx);
      if next.Done? {
        return next.balanced, next.depth;
      }
      i := next.at;
      depth, inString, inChar, inComment, escapeNext := next.lx.depth, next.lx.inString, next.lx.inChar, next.lx.inComment, next.lx.escapeNext;
    }
    balanced := depth == 0;
  }

  /** The body of the scan loop: one character, or one skipped comment or verbatim string. */
  method ScanStep(code: string, open: char, close: char, i: nat, lx: Lexer) returns (r: Outcome)
    requires i < |code|
    ensures r == Step(code, open, close, i, lx)
  {
    var ch := code[i];
    if lx.escapeNext {
      return Next(i + 1, lx.(escapeNext := false));
    }
    if ch == '\\' && (lx.inString || lx.inChar) {
      return Next(i + 1, lx.(escapeNext := true));
    }
    if !lx.inString && !lx.inChar && i + 1 < |code| {
      if ch == '/' && code[i + 1] == '/' && !lx.inComment {
        var nl := IndexOfFrom(code, '\n', i);
        if nl == -1 {
          return Done(lx.depth == 0, lx.depth);
        }
        return Next(nl + 1, lx);
      } else if ch == '/' && code[i + 1] == '*' && !lx.inComment {
        return Next(i + 2, lx.(inComment := true));
      } else if ch == '*' && code[i + 1] == '/' && lx.inComment {
        return Next(i + 2, lx.(inComment := false));
      }
    }
    if lx.inComment {
      return Next(i + 1, lx);
    }
    if ch == '"' && !lx.inChar {
      if i > 0 && code[i - 1] == '@' {
        var j := SkipVerbatim(code, i + 1);
        return Next(j + 1, lx);
      }
      return Next(i + 1, lx.(inString := !lx.inString));
    }
    if ch == '\'' && !lx.inString {
      return Next(i + 1, lx.(inChar := !lx.inChar));
    }
    if !lx.inString && !lx.inChar {
      if ch == open {
        return Next(i + 1, lx.(depth := lx.depth + 1));
      } else if ch == close {
        if lx.depth - 1 < 0 {
          return Done(false, lx.depth - 1);
        }
        return Next(i + 1, lx.(depth := lx.depth - 1));
      }
    }
    return Next(i + 1, lx);
  }

  // ---- what the answer looks like ----

  /** A turn keeps the depth non-negative, and a return is (depth == 0, depth) or (false, -1). */
  lemma StepShape(code: string, open: char, close: char, i: nat, lx: Lexer)
    requires i < |code| && lx.depth >= 0
    ensures match Step(code, open, close, i, lx)
      case Next(_, next) => next.depth >= 0
      case Done(b, d) => (b <==> d == 0) && d >= -1
  {
  }

  lemma {:induction false} BalanceFromShape(code: string, open: char, close: char, i: nat, lx: Lexer)
    requires i <= |code| + 1 && lx.depth >= 0
    ensures (BalanceFrom(code, open, close, i, lx).0 <==> BalanceFrom(code, open, close, i, lx).1 == 0)
    ensures BalanceFrom(code, open, close, i, lx).1 >= -1
    decreases |code| + 1 - i
  {
    if i < |code| {
      StepShape(code, open, close, i, lx);
      match Step(code, open, close, i, lx)
      case Next(j, next) => BalanceFromShape(code, open, close, j, next);
      case Done(_, _) =>
    }
  }

  /** check_balanced answers (depth == 0, depth). */
  lemma BalancedIffZero(code: string, open: char, close: char)
    ensures Balance(code, open, close).0 <==> Balance(code, open, close).1 == 0
  {
    BalanceFromShape(code, open, close, 0, Start);
  }

  /** A negative depth is returned the moment it appears, so it is always -1. */
  lemma NegativeDepthIsMinusOne(code: string, open: char, close: char)
    ensures Balance(code, open, close).1 >= -1
  {
    BalanceFromShape(code, open, close, 0, Start);
  }

  // ---- code without literals or comments: openers minus closers ----

  /** Characters that can start a literal, a comment or an escape. */
  predicate Special(ch: char) {
    ch == '"' || ch == '\'' || ch == '\\' || ch == '/'
  }

  /** Openers minus closers in `s`. */
  function Net(s: string, open: char, close: char): int {
    if s == [] then 0
    else
      var last := s[|s| - 1];
      Net(s[..|s| - 1], open, close) + (if last == open then 1 else if last == close then -1 else 0)
  }

  /** No prefix of `s` closes more than it opens. */
  predicate NeverNegative(s: string, open: char, close: char) {
    forall k :: 0 <= k <= |s| ==> Net(s[..k], open, close) >= 0
  }

  lemma NetStep(s: string, open: char, close: char, i: nat)
    requires i < |s|
    ensures Net(s[..i + 1], open, close) == Net(s[..i], open, close) + (if s[i] == open then 1 else if s[i] == close then -1 else 0)
  {
    assert s[..i + 1][..i] == s[..i];
  }

  lemma {:induction false} PlainFrom(code: string, open: char, close: char, i: nat)
    requires forall k :: 0 <= k < |code| ==> !Special(code[k])
    requires !Special(open) && !Special(close) && open != close
    requires i <= |code|
    requires forall k :: 0 <= k <= i ==> Net(code[..k], open, close) >= 0
    ensures BalanceFrom(code, open, close, i, Lexer(Net(code[..i], open, close), false, false, false, false)) ==
      if NeverNegative(code, open, close) then (Net(code, open, close) == 0, Net(code, open, close)) else (false, -1)
    decreases |code| - i
  {
    var d := Net(code[..i], open, close);
    if i == |code| {
      assert code[..i] == code;
    } else {
      NetStep(code, open, close, i);
      if code[i] == close && d - 1 < 0 {
        assert !NeverNegative(code, open, close) by {
          assert Net(code[..i + 1], open, close) < 0;
        }
      } else {
        PlainFrom(code, open, close, i + 1);
      }
    }
  }

  /**
   * Code with no quote, apostrophe, backslash or slash: the answer is the
   * count of openers minus closers, or (false, -1) once a prefix closes
   * more than it opens.
   */
  lemma PlainBalance(code: string, open: char, close: char)
    requires forall k :: 0 <= k < |code| ==> !Special(code[k])
    requires !Special(open) && !Special(close) && open != close
    ensures Balance(code, open, close) ==
      if NeverNegative(code, open, close) then (Net(code, open, close) == 0, Net(code, open, close)) else (false, -1)
  {
    assert code[..0] == [];
    PlainFrom(code, open, close, 0);
  }

  // ---- what the scan does not count ----

  /** A string literal with no quote or backslash inside is skipped whole, brackets and all. */
  lemma StringSkipped(code: string, open: char, close: char, i: nat, j: nat, lx: Lexer)
    requires Neutral(lx) && i < j < |code|
    requires code[i] == '"' && !(i > 0 && code[i - 1] == '@')
    requires code[j] == '"' && code[j - 1] != '@'
    requires forall k :: i < k < j ==> code[k] != '"' && code[k] != '\\'
    ensures BalanceFrom(code, open, close, i, lx) == BalanceFrom(code, open, close, j + 1, lx)
  {
    InsideString(code, open, close, i, j, i + 1, lx);
  }

  lemma {:induction false} InsideString(code: string, open: char, close: char, i: nat, j: nat, k: nat, lx: Lexer)
    requires Neutral(lx) && i < k <= j < |code|
    requires code[j] == '"' && code[j - 1] != '@'
    requires forall m :: i < m < j ==> code[m] != '"' && code[m] != '\\'
    ensures BalanceFrom(code, open, close, k, lx.(inString := true)) == BalanceFrom(code, open, close, j + 1, lx)
    decreases j - k
  {
    if k < j {
      InsideString(code, open, close, i, j, k + 1, lx);
    }
  }

  /** A character literal with no apostrophe or backslash inside is skipped whole. */
  lemma CharSkipped(code: string, open: char, close: char, i: nat, j: nat, lx: Lexer)
    requires Neutral(lx) && i < j < |code|
    requires code[i] == '\'' && code[j] == '\''
    requires forall k :: i < k < j ==> code[k] != '\'' && code[k] != '\\'
    ensures BalanceFrom(code, open, close, i, lx) == BalanceFrom(code, open, close, j + 1, lx)
  {
    InsideChar(code, open, close, i, j, i + 1, lx);
  }

  lemma {:induction false} InsideChar(code: string, open: char, close: char, i: nat, j: nat, k: nat, lx: Lexer)
    requires Neutral(lx) && i < k <= j < |code|
    requires code[j] == '\''
    requires forall m :: i < m < j ==> code[m] != '\'' && code[m] != '\\'
    ensures BalanceFrom(code, open, close, k, lx.(inChar := true)) == BalanceFrom(code, open, close, j + 1, lx)
    decreases j - k
  {
    if k < j {
      InsideChar(code, open, close, i, j, k + 1, lx);
    }
  }

  /** Inside a string or character literal a backslash takes the next character with it. */
  lemma EscapeInLiteral(code: string, open: char, close: char, k: nat, lx: Lexer)
    requires (lx.inString || lx.inChar) && !lx.escapeNext
    requires k + 1 < |code| && code[k] == '\\'
    ensures BalanceFrom(code, open, close, k, lx) == BalanceFrom(code, open, close, k + 2, lx)
  {
    var lx1 := lx.(escapeNext := true);
    assert Step(code, open, close, k, lx) == Next(k + 1, lx1);
    assert Step(code, open, close, k + 1, lx1) == Next(k + 2, lx);
  }

  /** Outside literals a backslash is an ordinary character. */
  lemma BackslashOutside(code: string, open: char, close: char, k: nat, lx: Lexer)
    requires Neutral(lx) && k < |code| && code[k] == '\\'
    requires open != '\\' && close != '\\'
    ensures BalanceFrom(code, open, close, k, lx) == BalanceFrom(code, open, close, k + 1, lx)
  {
    assert Step(code, open, close, k, lx) == Next(k + 1, lx);
  }

  /** A block comment is skipped up to the first star-slash after its slash-star. */
  lemma BlockCommentSkipped(code: string, open: char, close: char, i: nat, j: nat, lx: Lexer)
    requires Neutral(lx) && i + 2 <= j && j + 1 < |code|
    requires code[i] == '/' && code[i + 1] == '*'
    requires code[j] == '*' && code[j + 1] == '/'
    requires forall k :: i + 2 <= k < j ==> !(code[k] == '*' && code[k + 1] == '/')
    ensures BalanceFrom(code, open, close, i, lx) == BalanceFrom(code, open, close, j + 2, lx)
  {
    assert Step(code, open, close, i, lx) == Next(i + 2, lx.(inComment := true));
    InsideComment(code, open, close, i, j, i + 2, lx);
  }

  lemma {:induction false} InsideComment(code: string, open: char, close: char, i: nat, j: nat, k: nat, lx: Lexer)
    requires Neutral(lx) && i + 2 <= k <= j && j + 1 < |code|
    requires code[j] == '*' && code[j + 1] == '/'
    requires forall m :: i + 2 <= m < j ==> !(code[m] == '*' && code[m + 1] == '/')
    ensures BalanceFrom(code, open, close, k, lx.(inComment := true)) == BalanceFrom(code, open, close, j + 2, lx)
    decreases j - k
  {
    var lc := lx.(inComment := true);
    if k < j {
      assert Step(code, open, close, k, lc) == Next(k + 1, lc);
      InsideComment(code, open, close, i, j, k + 1, lx);
    } else {
      assert Step(code, open, close, k, lc) == Next(j + 2, lx);
    }
  }

  /** A line comment is skipped to just past the next newline. */
  lemma LineCommentSkipped(code: string, open: char, close: char, i: nat, n: nat, lx: Lexer)
    requires Neutral(lx) && i + 1 < n < |code|
    requires code[i] == '/' && code[i + 1] == '/'
    requires code[n] == '\n' && forall k :: i <= k < n ==> code[k] != '\n'
    ensures BalanceFrom(code, open, close, i, lx) == BalanceFrom(code, open, close, n + 1, lx)
  {
    IndexFound(code, '\n', i, n);
  }

  /** A line comment with no newline after it ends the scan with the depth reached so far. */
  lemma LineCommentEndsScan(code: string, open: char, close: char, i: nat, lx: Lexer)
    requires Neutral(lx) && i + 1 < |code|
    requires code[i] == '/' && code[i + 1] == '/'
    requires forall k :: i <= k < |code| ==> code[k] != '\n'
    ensures BalanceFrom(code, open, close, i, lx) == (lx.depth == 0, lx.depth)
  {
    IndexMissing(code, '\n', i);
  }

  /** A `"` right after `@` opens a verbatim string, skipped to its first undoubled `"`. */
  lemma VerbatimSkipped(code: string, open: char, close: char, i: nat, lx: Lexer)
    requires Neutral(lx) && 0 < i < |code|
    requires code[i] == '"' && code[i - 1] == '@'
    ensures BalanceFrom(code, open, close, i, lx) == BalanceFrom(code, open, close, VerbatimEnd(code, i + 1) + 1, lx)
  {
    assert Step(code, open, close, i, lx) == Next(VerbatimEnd(code, i + 1) + 1, lx);
  }

  /** A doubled quote inside a verbatim string does not end it. */
  lemma VerbatimDoubledQuote(code: string, j: nat)
    requires j + 1 < |code| && code[j] == '"' && code[j + 1] == '"'
    ensures VerbatimEnd(code, j) == VerbatimEnd(code, j + 2)
  {
  }

  lemma IndexFound(s: string, c: char, from: nat, at: nat)
    requires from <= at < |s| && s[at] == c
    requires forall k :: from <= k < at ==> s[k] != c
    ensures IndexOfFrom(s, c, from) == at
  {
  }

  lemma IndexMissing(s: string, c: char, from: nat)
    requires from <= |s|
    requires forall k :: from <= k < |s| ==> s[k] != c
    ensures IndexOfFrom(s, c, from) == -1
  {
  }

  // ---- the C# blocks of a Markdown file ----

  /** A C# snippet: the file it is in, the line its code starts on, and its code. */
  datatype CodeBlock = CodeBlock(file: string, lineStart: nat, content: string)

  /** A fence line opening a C# block: ```` ```csharp ```` or ```` ```cs ````, then only whitespace. */
  predicate IsOpener(line: string) {
    (|line| >= 9 && line[..9] == "```csharp" && IsBlank(line[9..])) ||
    (|line| >= 5 && line[..5] == "```cs" && IsBlank(line[5..]))
  }

  /** A line that starts with a fence. */
  predicate IsFence(line: string) {
    |line| >= 3 && line[0] == '`' && line[1] == '`' && line[2] == '`'
  }

  lemma OpenerIsFence(line: string)
    requires IsOpener(line)
    ensures IsFence(line)
  {
  }

  /** The extraction loop's state after some lines. */
  datatype BlockScan = BlockScan(inBlock: bool, blockStart: nat, blockLines: seq<string>, blocks: seq<CodeBlock>)

  /** One line, numbered `n` from 1: an opener (re)starts a block, a fence ends one, other lines join it. */
  function ScanLine(st: BlockScan, line: string, n: nat, file: string): BlockScan {
    if IsOpener(line) then st.(inBlock := true, blockStart := n, blockLines := [])
    else if st.inBlock && IsFence(line) then
      st.(inBlock := false, blocks := st.blocks + [CodeBlock(file, st.blockStart + 1, Join(st.blockLines, "\n"))])
    else if st.inBlock then st.(blockLines := st.blockLines + [line])
    else st
  }

  /** The state after the first `n` lines. */
  function ScanLines(lines: seq<string>, n: nat, file: string): BlockScan
    requires n <= |lines|
  {
    if n == 0 then BlockScan(false, 0, [], [])
    else ScanLine(ScanLines(lines, n - 1, file), lines[n - 1], n, file)
  }

  /** extract_csharp_blocks. */
  function CSharpBlocks(content: string, file: string): seq<CodeBlock> {
    var lines := Split(content, '\n');
    ScanLines(lines, |lines|, file).blocks
  }

  /** extract_csharp_blocks: the loop over the lines of the file. */
  method ExtractCSharpBlocks(content: string, file: string) returns (blocks: seq<CodeBlock>)
    ensures blocks == CSharpBlocks(content, file)
  {
    var lines := Split(content, '\n');
    blocks := [];
    var inBlock := false;
    var blockStart: nat := 0;
    var blockLines: seq<string> := [];
    var i := 0;
    while i < |lines|
      invariant i <= |lines|
      invariant BlockScan(inBlock, blockStart, blockLines, blocks) == ScanLines(lines, i, file)
    {
      var line := lines[i];
      if IsOpener(line) {
        inBlock := true;
        blockStart := i + 1;
        blockLines := [];
      } else if inBlock && IsFence(line) {
        inBlock := false;
        blocks := blocks + [CodeBlock(file, blockStart + 1, Join(blockLines, "\n"))];
      } else if inBlock {
        blockLines := blockLines + [line];
      }
      i := i + 1;
    }
  }

  /** While a block is open, its lines are exactly those after its opener, none of them a fence. */
  predicate OpenBlockShape(lines: seq<string>, n: nat, st: BlockScan)
    requires n <= |lines|
  {
    st.inBlock ==>
      1 <= st.blockStart <= n && IsOpener(lines[st.blockStart - 1]) &&
      st.blockLines == lines[st.blockStart..n] &&
      forall m :: st.blockStart <= m < n ==> !IsFence(lines[m])
  }

  /** Block `b` was cut from the lines: opener at line `s`, closing fence at line `e`, and nothing but code between. */
  predicate CutFrom(lines: seq<string>, b: CodeBlock, s: nat, e: nat, file: string) {
    1 <= s < e <= |lines| &&
    IsOpener(lines[s - 1]) && IsFence(lines[e - 1]) &&
    (forall m :: s <= m < e - 1 ==> !IsFence(lines[m])) &&
    b == CodeBlock(file, s + 1, Join(lines[s..e - 1], "\n"))
  }

  lemma {:induction false} ScanShape(lines: seq<string>, n: nat, file: string)
    requires n <= |lines|
    ensures OpenBlockShape(lines, n, ScanLines(lines, n, file))
  {
    if n > 0 {
      ScanShape(lines, n - 1, file);
      var st := ScanLines(lines, n - 1, file);
      var line := lines[n - 1];
      if IsOpener(line) {
        assert lines[n..n] == [];
      } else if st.inBlock && !IsFence(line) {
        assert lines[st.blockStart..n] == lines[st.blockStart..n - 1] + [line];
      }
    }
  }

  /**
   * Every extracted block was cut from the file: its code is the lines strictly
   * between a C# opener and the next fence, and its line_start is the line
   * after the opener.
   */
  lemma {:induction false} BlockCut(lines: seq<string>, n: nat, file: string, k: nat) returns (s: nat, e: nat)
    requires n <= |lines| && k < |ScanLines(lines, n, file).blocks|
    ensures e <= n && CutFrom(lines, ScanLines(lines, n, file).blocks[k], s, e, file)
  {
    var st := ScanLines(lines, n - 1, file);
    var line := lines[n - 1];
    if k < |st.blocks| {
      s, e := BlockCut(lines, n - 1, file, k);
      assert ScanLines(lines, n, file).blocks[k] == st.blocks[k];
    } else {
      ScanShape(lines, n - 1, file);
      assert st.inBlock && IsFence(line) && !IsOpener(line);
      s, e := st.blockStart, n;
    }
  }

  /** After an opener at line `s`, and while no fence follows, the block is open and holds the lines read since. */
  lemma {:induction false} OpenRun(lines: seq<string>, s: nat, n: nat, file: string)
    requires 1 <= s <= n <= |lines| && IsOpener(lines[s - 1])
    requires forall m :: s <= m < n ==> !IsFence(lines[m])
    ensures ScanLines(lines, n, file) == BlockScan(true, s, lines[s..n], ScanLines(lines, s - 1, file).blocks)
    decreases n
  {
    if n > s {
      OpenRun(lines, s, n - 1, file);
      assert !IsFence(lines[n - 1]);
      if IsOpener(lines[n - 1]) {
        OpenerIsFence(lines[n - 1]);
      }
      assert lines[s..n] == lines[s..n - 1] + [lines[n - 1]];
    } else {
      assert lines[s..s] == [];
    }
  }

  /**
   * Every terminated C# block is extracted: a C# opener at line `s`, no
   * fence after it until line `e`, and a fence at line `e` that is not itself
   * an opener give a block of the lines between, starting at line `s + 1`.
   */
  lemma BlockFound(lines: seq<string>, s: nat, e: nat, file: string)
    requires 1 <= s < e <= |lines| && IsOpener(lines[s - 1])
    requires forall m :: s <= m < e - 1 ==> !IsFence(lines[m])
    requires IsFence(lines[e - 1]) && !IsOpener(lines[e - 1])
    ensures ScanLines(lines, e, file).blocks ==
      ScanLines(lines, s - 1, file).blocks + [CodeBlock(file, s + 1, Join(lines[s..e - 1], "\n"))]
  {
    OpenRun(lines, s, e - 1, file);
  }

  /** The blocks already extracted are never changed by later lines. */
  lemma {:induction false} BlocksGrow(lines: seq<string>, m: nat, n: nat, file: string)
    requires m <= n <= |lines|
    ensures ScanLines(lines, m, file).blocks <= ScanLines(lines, n, file).blocks
    decreases n - m
  {
    if m < n {
      BlocksGrow(lines, m, n - 1, file);
    }
  }

  /** A block still open when the file ends is dropped: nothing after its opener is extracted. */
  lemma {:induction false} UnterminatedDropped(lines: seq<string>, s: nat, n: nat, file: string)
    requires s < n <= |lines| && IsOpener(lines[s])
    requires forall m :: s < m < n ==> !IsFence(lines[m])
    ensures ScanLines(lines, n, file).blocks == ScanLines(lines, s, file).blocks
    ensures ScanLines(lines, n, file).inBlock
  {
    if n > s + 1 {
      UnterminatedDropped(lines, s, n - 1, file);
      assert !IsFence(lines[n - 1]);
      if IsOpener(lines[n - 1]) {
        OpenerIsFence(lines[n - 1]);
      }
    }
  }

  // ---- the balance issues of one block ----

  datatype Pair = Braces | Parentheses | Brackets

  function Opener(p: Pair): char {
    match p
    case Braces => '{'
    case Parentheses => '('
    case Brackets => '['
  }

  function Closer(p: Pair): char {
    match p
    case Braces => '}'
    case Parentheses => ')'
    case Brackets => ']'
  }

  function PairName(p: Pair): string {
    match p
    case Braces => "braces"
    case Parentheses => "parentheses"
    case Brackets => "brackets"
  }

  /** One reported problem. */
  datatype SyntaxIssue = SyntaxIssue(file: string, line: nat, message: string, snippet: string)

  /** The code shown with an issue: its first 100 characters, marked when cut. */
  function Snippet(code: string): (r: string)
    ensures |code| <= 100 ==> r == code
    ensures |code| > 100 ==> |r| == 103 && r[..100] == code[..100]
  {
    if |code| > 100 then code[..100] + "..." else code
  }

  /** The message for a pair left at `depth`. */
  function BalanceMessage(p: Pair, depth: int): string {
    if depth > 0 then "Unbalanced " + PairName(p) + ": " + NatToString(depth) + " unclosed '" + [Opener(p)] + "' found"
    else "Unbalanced " + PairName(p) + ": " + NatToString(-depth) + " extra '" + [Closer(p)] + "' found"
  }

  /** The issue for one pair, when its scan does not balance. */
  function PairIssue(b: CodeBlock, p: Pair): seq<SyntaxIssue> {
    var r := Balance(b.content, Opener(p), Closer(p));
    if r.0 then [] else [SyntaxIssue(b.file, b.lineStart, BalanceMessage(p, r.1), Snippet(b.content))]
  }

  /** The bracket issues check_code_block reports for a block. */
  function BalanceIssues(b: CodeBlock): seq<SyntaxIssue> {
    if IsBlank(b.content) then []
    else PairIssue(b, Braces) + PairIssue(b, Parentheses) + PairIssue(b, Brackets)
  }

  /** check_code_block's bracket checks: braces, then parentheses, then brackets. */
  method CheckCodeBlock(b: CodeBlock) returns (issues: seq<SyntaxIssue>)
    ensures issues == BalanceIssues(b)
  {
    issues := [];
    if IsBlank(b.content) {
      return;
    }
    var braces := CheckPair(b, Braces);
    var parentheses := CheckPair(b, Parentheses);
    var brackets := CheckPair(b, Brackets);
    issues := braces + parentheses + brackets;
  }

  /** One pair's scan and, when it does not balance, its issue. */
  method CheckPair(b: CodeBlock, p: Pair) returns (issues: seq<SyntaxIssue>)
    ensures issues == PairIssue(b, p)
  {
    issues := [];
    var balanced, depth := CheckBalanced(b.content, Opener(p), Closer(p));
    if !balanced {
      var snippet := if |b.content| > 100 then b.content[..100] + "..." else b.content;
      issues := [SyntaxIssue(b.file, b.lineStart, BalanceMessage(p, depth), snippet)];
    }
  }

  /** A blank block has no issues. */
  lemma BlankBlockClean(b: CodeBlock)
    requires IsBlank(b.content)
    ensures BalanceIssues(b) == []
  {
  }

  /** Each pair is reported at most once, and exactly when its scan does not balance. */
  lemma PairReported(b: CodeBlock, p: Pair)
    requires !IsBlank(b.content)
    ensures |PairIssue(b, p)| <= 1
    ensures PairIssue(b, p) != [] <==> Balance(b.content, Opener(p), Closer(p)).1 != 0
  {
    BalancedIffZero(b.content, Opener(p), Closer(p));
  }

  /** At most three issues, one per pair. */
  lemma AtMostThree(b: CodeBlock)
    ensures |BalanceIssues(b)| <= 3
  {
  }

  /** Too many closers is always reported as one extra closer. */
  lemma ExtraReportsOne(b: CodeBlock, p: Pair)
    requires Balance(b.content, Opener(p), Closer(p)).1 < 0
    ensures BalanceMessage(p, Balance(b.content, Opener(p), Closer(p)).1) ==
      "Unbalanced " + PairName(p) + ": 1 extra '" + [Closer(p)] + "' found"
  {
    NegativeDepthIsMinusOne(b.content, Opener(p), Closer(p));
    MinusOneMessage(p);
  }

  lemma MinusOneMessage(p: Pair)
    ensures BalanceMessage(p, -1) == "Unbalanced " + PairName(p) + ": 1 extra '" + [Closer(p)] + "' found"
  {
    assert NatToString(1) == "1";
  }
}
