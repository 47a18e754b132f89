/**
 * The README transformation for the published site: a Markdown link whose
 * destination starts with `docs/` or `./docs/` loses the `docs/`, because
 * the documentation folder is published at the site root.  The script does
 * this with one regular-expression substitution,
 * `(\[[^\]]*\]\()(\./)?docs/([^)]+\))`, which is modelled here as an
 * explicit left-to-right scanner with the same backtracking outcome.
 */
module ReadmePages {
  import opened Strings
  import Edits

  /** `docs/` at `d`. */
  predicate DocsAt(text: string, d: nat) {
    d + 5 <= |text| && text[d] == 'd' && text[d + 1] == 'o' && text[d + 2] == 'c' && text[d + 3] == 's' && text[d + 4] == '/'
  }

  /** `./` at `i`. */
  predicate DotSlashAt(text: string, i: nat) {
    i + 2 <= |text| && text[i] == '.' && text[i + 1] == '/'
  }

  /** A match: where its `docs/` starts and where the whole match ends. */
  datatype Hit = Hit(docs: nat, end: nat)

  /**
   * The pattern tried at `p`.  `[^\]]*` stops at the first `]`, which must
   * be followed by `(`; the optional `./` is taken when `docs/` follows it;
   * then `[^)]+\)` needs at least one character before the first `)`.
   */
  function MatchAt(text: string, p: nat): (r: Option<Hit>)
    ensures r.Some? ==> p + 3 <= r.value.docs && DocsAt(text, r.value.docs) && r.value.docs + 7 <= r.value.end <= |text|
  {
    if p < |text| && text[p] == '[' then
      var q := IndexOfFrom(text, ']', p + 1);
      if q == -1 || q + 1 >= |text| || text[q + 1] != '(' then None
      else
        var d := if DotSlashAt(text, q + 2) && DocsAt(text, q + 4) then q + 4 else q + 2;
        if !DocsAt(text, d) then None
        else
          var c := IndexOfFrom(text, ')', d + 5);
          if c == -1 || c == d + 5 then None else Some(Hit(d, c + 1))
    else None
  }

  /** re.sub from `p` on: a match is replaced by itself less its `docs/`, and the scan resumes after it. */
  function TransformFrom(text: string, p: nat): string
    requires p <= |text|
    decreases |text| - p
  {
    if p == |text| then []
    else
      match MatchAt(text, p)
      case Some(h) => text[p..h.docs] + text[h.docs + 5..h.end] + TransformFrom(text, h.end)
      case None => [text[p]] + TransformFrom(text, p + 1)
  }

  /** transform_links. */
  function TransformLinks(content: string): string {
    TransformFrom(content, 0)
  }

  /** The deletions the substitution makes from `p` on: the five characters `docs/` of each match. */
  function Deletions(text: string, p: nat): seq<Edits.Edit<char>>
    requires p <= |text|
    decreases |text| - p
  {
    if p == |text| then []
    else
      match MatchAt(text, p)
      case Some(h) => [Edits.Edit(h.docs, h.docs + 5, [])] + Deletions(text, h.end)
      case None => Deletions(text, p + 1)
  }

  /** process_file's answer: whether the transformed text differs from the input. */
  predicate Changed(content: string) {
    TransformLinks(content) != content
  }

  // ---- the substitution only deletes `docs/` ----

  /** Every deletion removes a `docs/`, and the deletions are in order and apart. */
  lemma DeletionsShape(text: string, p: nat)
    requires p <= |text|
    ensures Edits.Chain(Deletions(text, p), p, |text|)
    ensures forall k :: 0 <= k < |Deletions(text, p)| ==>
      var e := Deletions(text, p)[k]; DocsAt(text, e.start) && e.end == e.start + 5 && e.repl == []
  {
    DeletionsChain(text, p);
    forall k | 0 <= k < |Deletions(text, p)|
      ensures var e := Deletions(text, p)[k]; DocsAt(text, e.start) && e.end == e.start + 5 && e.repl == []
    {
      DeletionAt(text, p, k);
    }
  }

  lemma {:induction false} DeletionsChain(text: string, p: nat)
    requires p <= |text|
    ensures Edits.Chain(Deletions(text, p), p, |text|)
    decreases |text| - p
  {
    if p < |text| {
      match MatchAt(text, p)
      case Some(h) =>
        DeletionsChain(text, h.end);
        var e := Edits.Edit(h.docs, h.docs + 5, []);
        var rest := Deletions(text, h.end);
        Edits.ChainWidenFrom(rest, h.docs + 5, h.end, |text|);
        assert Deletions(text, p) == [e] + rest;
        assert ([e] + rest)[1..] == rest;
      case None =>
        DeletionsChain(text, p + 1);
        Edits.ChainWidenFrom(Deletions(text, p + 1), p, p + 1, |text|);
    }
  }

  /** Deletion `k` from `p` on removes a `docs/`. */
  lemma {:induction false} DeletionAt(text: string, p: nat, k: nat)
    requires p <= |text| && k < |Deletions(text, p)|
    ensures var e := Deletions(text, p)[k]; DocsAt(text, e.start) && e.end == e.start + 5 && e.repl == []
    decreases |text| - p
  {
    match MatchAt(text, p)
    case Some(h) =>
      if k > 0 {
        DeletionAt(text, h.end, k - 1);
      }
    case None =>
      DeletionAt(text, p + 1, k);
  }

  /** The output is the input with the deleted spans cut out and everything else kept in order. */
  lemma {:induction false} TransformIsDeletion(text: string, p: nat)
    requires p <= |text|
    ensures TransformFrom(text, p) == Edits.Interleave(text, Deletions(text, p), p)
    decreases |text| - p
  {
    if p < |text| {
      match MatchAt(text, p)
      case Some(h) =>
        TransformIsDeletion(text, h.end);
        MatchStep(text, p, h);
      case None =>
        TransformIsDeletion(text, p + 1);
        NoMatchStep(text, p);
    }
  }

  lemma MatchStep(text: string, p: nat, h: Hit)
    requires p < |text| && MatchAt(text, p) == Some(h)
    requires TransformFrom(text, h.end) == Edits.Interleave(text, Deletions(text, h.end), h.end)
    ensures TransformFrom(text, p) == Edits.Interleave(text, Deletions(text, p), p)
  {
    var rest := Deletions(text, h.end);
    var e := Edits.Edit(h.docs, h.docs + 5, []);
    DeletionsShape(text, h.end);
    Edits.InterleaveSkip(text, rest, h.docs + 5, h.end);
    assert Deletions(text, p) == [e] + rest;
    assert ([e] + rest)[1..] == rest;
    assert Edits.Interleave(text, [e] + rest, p) == text[p..h.docs] + Edits.Interleave(text, rest, h.docs + 5);
    AppendAssoc(text[p..h.docs], text[h.docs + 5..h.end], Edits.Interleave(text, rest, h.end));
  }

  lemma NoMatchStep(text: string, p: nat)
    requires p < |text| && MatchAt(text, p).None?
    requires TransformFrom(text, p + 1) == Edits.Interleave(text, Deletions(text, p + 1), p + 1)
    ensures TransformFrom(text, p) == Edits.Interleave(text, Deletions(text, p), p)
  {
    DeletionsShape(text, p + 1);
    Edits.InterleaveSkip(text, Deletions(text, p + 1), p, p + 1);
    assert text[p..p + 1] == [text[p]];
  }

  /** transform_links as a whole: the input with each matched `docs/` deleted. */
  lemma TransformLinksDeletes(content: string)
    ensures Edits.Chain(Deletions(content, 0), 0, |content|)
    ensures TransformLinks(content) == Edits.Interleave(content, Deletions(content, 0), 0)
    ensures forall k :: 0 <= k < |Deletions(content, 0)| ==>
      var e := Deletions(content, 0)[k]; DocsAt(content, e.start) && e.end == e.start + 5 && e.repl == []
    ensures |TransformLinks(content)| == |content| - 5 * |Deletions(content, 0)|
  {
    DeletionsShape(content, 0);
    TransformIsDeletion(content, 0);
    Edits.InterleaveLength(content, Deletions(content, 0), 0);
    DeletionGrowth(Deletions(content, 0));
  }

  lemma {:induction false} DeletionGrowth(ds: seq<Edits.Edit<char>>)
    requires forall k :: 0 <= k < |ds| ==> ds[k].end == ds[k].start + 5 && ds[k].repl == []
    ensures Edits.Growth(ds) == -5 * |ds|
  {
    if ds != [] {
      assert forall k :: 0 <= k < |ds[1..]| ==> ds[1..][k] == ds[k + 1];
      DeletionGrowth(ds[1..]);
    }
  }

  /** process_file reports a change exactly when the pattern matched somewhere. */
  lemma ChangedIffMatched(content: string)
    ensures Changed(content) <==> Deletions(content, 0) != []
  {
    TransformLinksDeletes(content);
    if Deletions(content, 0) == [] {
      assert Edits.Interleave(content, [], 0) == content[0..|content|];
    }
  }

  /** Content without `docs/` is returned unchanged. */
  lemma NoDocsUnchanged(content: string)
    requires forall d :: 0 <= d < |content| ==> !DocsAt(content, d)
    ensures TransformLinks(content) == content
  {
    TransformLinksDeletes(content);
    ChangedIffMatched(content);
  }

  // ---- the two documented rewrites, and the empty path ----

  /** A link to `./docs/P` becomes a link to `./P`. */
  lemma DotDocsLink(t: string, path: string)
    requires ']' !in t && path != [] && ')' !in path
    ensures TransformLinks("[" + t + "](./docs/" + path + ")") == "[" + t + "](./" + path + ")"
  {
    var text := "[" + t + "](./docs/" + path + ")";
    var q, d := DotDocsLayout(text, t, path);
    WholeLinkRewritten(text, q, d);
  }

  /** A link to `docs/P` becomes a link to `P`. */
  lemma DocsLink(t: string, path: string)
    requires ']' !in t && path != [] && ')' !in path
    ensures TransformLinks("[" + t + "](docs/" + path + ")") == "[" + t + "](" + path + ")"
  {
    var text := "[" + t + "](docs/" + path + ")";
    var q, d := DocsLayout(text, t, path);
    WholeLinkRewritten(text, q, d);
  }

  /** Where the pieces of `[t](./docs/path)` sit. */
  lemma DotDocsLayout(text: string, t: string, path: string) returns (q: nat, d: nat)
    requires text == "[" + t + "](./docs/" + path + ")"
    requires ']' !in t && path != [] && ')' !in path
    ensures 0 < q && q + 2 <= d && d + 5 < |text| - 1
    ensures text[0] == '[' && text[q] == ']' && text[q + 1] == '('
    ensures forall k :: 1 <= k < q ==> text[k] != ']'
    ensures d == (if DotSlashAt(text, q + 2) && DocsAt(text, q + 4) then q + 4 else q + 2) && DocsAt(text, d)
    ensures text[|text| - 1] == ')' && forall k :: d + 5 <= k < |text| - 1 ==> text[k] != ')'
    ensures text[0..d] + text[d + 5..|text|] == "[" + t + "](./" + path + ")"
  {
    q := |t| + 1;
    d := q + 4;
    assert text == "[" + t + "](./" + "docs/" + path + ")";
    assert forall k :: 1 <= k < q ==> text[k] == t[k - 1];
    assert forall k :: d + 5 <= k < |text| - 1 ==> text[k] == path[k - d - 5];
    assert text[0..d] == "[" + t + "](./";
    assert text[d + 5..|text|] == path + ")";
  }

  /** Where the pieces of `[t](docs/path)` sit. */
  lemma DocsLayout(text: string, t: string, path: string) returns (q: nat, d: nat)
    requires text == "[" + t + "](docs/" + path + ")"
    requires ']' !in t && path != [] && ')' !in path
    ensures 0 < q && q + 2 <= d && d + 5 < |text| - 1
    ensures text[0] == '[' && text[q] == ']' && text[q + 1] == '('
    ensures forall k :: 1 <= k < q ==> text[k] != ']'
    ensures d == (if DotSlashAt(text, q + 2) && DocsAt(text, q + 4) then q + 4 else q + 2) && DocsAt(text, d)
    ensures text[|text| - 1] == ')' && forall k :: d + 5 <= k < |text| - 1 ==> text[k] != ')'
    ensures text[0..d] + text[d + 5..|text|] == "[" + t + "](" + path + ")"
  {
    q := |t| + 1;
    d := q + 2;
    assert text == "[" + t + "](" + "docs/" + path + ")";
    assert forall k :: 1 <= k < q ==> text[k] == t[k - 1];
    assert forall k :: d + 5 <= k < |text| - 1 ==> text[k] == path[k - d - 5];
    assert text[0..d] == "[" + t + "](";
    assert text[d + 5..|text|] == path + ")";
  }

  /**
   * A text that is one link, `[`, no `]`, `](`, an optional `./`, `docs/`,
   * at least one character other than `)`, then `)`, loses its `docs/`.
   */
  lemma WholeLinkRewritten(text: string, q: nat, d: nat)
    requires 0 < q && q + 2 <= d && d + 5 < |text| - 1
    requires text[0] == '[' && text[q] == ']' && text[q + 1] == '('
    requires forall k :: 1 <= k < q ==> text[k] != ']'
    requires d == (if DotSlashAt(text, q + 2) && DocsAt(text, q + 4) then q + 4 else q + 2) && DocsAt(text, d)
    requires text[|text| - 1] == ')' && forall k :: d + 5 <= k < |text| - 1 ==> text[k] != ')'
    ensures TransformLinks(text) == text[0..d] + text[d + 5..|text|]
  {
    IndexAfter(text, ']', 1, q);
    IndexAfter(text, ')', d + 5, |text| - 1);
    assert MatchAt(text, 0) == Some(Hit(d, |text|));
    assert TransformFrom(text, |text|) == [];
  }

  /** `find` lands on the given index when the character is there and nowhere between. */
  lemma IndexAfter(s: string, c: char, from: nat, at: nat)
    requires from <= at < |s| && s[at] == c
    requires forall k :: from <= k < at ==> s[k] != c
    ensures IndexOfFrom(s, c, from) == at
  {
  }

  /** With nothing between `docs/` and `)`, the link is left alone. */
  lemma EmptyPathUnchanged(t: string)
    requires ']' !in t
    ensures TransformLinks("[" + t + "](docs/)") == "[" + t + "](docs/)"
  {
    var text := "[" + t + "](docs/)";
    NoMatchHere(text, t, 0);
  }

  /** No position of `[t](docs/)` starts a match. */
  lemma {:induction false} NoMatchHere(text: string, t: string, p: nat)
    requires text == "[" + t + "](docs/)" && ']' !in t && p <= |text|
    ensures TransformFrom(text, p) == text[p..]
    decreases |text| - p
  {
    if p < |text| {
      NoMatchHere(text, t, p + 1);
      if p < |text| && text[p] == '[' {
        assert p <= |t|;
        IndexAfter(text, ']', p + 1, |t| + 1);
        IndexAfter(text, ')', |t| + 8, |t| + 8);
      }
      assert MatchAt(text, p).None?;
      assert text[p..] == [text[p]] + text[p + 1..];
    }
  }
}
