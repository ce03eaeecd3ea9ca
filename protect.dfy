/** Protection of code before the rewrite passes and its restoration after them
    (format-wechat.js:37-49 and 103-115).

    A scan of the text is a sequence of pieces: single characters that stay,
    and regions matched by the protecting pattern. Protection writes a
    placeholder `\0KIND<i>\0` for the i-th region and pushes that region's code
    onto a list; restoration replaces, for i = 0, 1, ..., the first occurrence
    of placeholder i by the rendered code, with the rendered code used as a
    JavaScript replacement string (so `$$`, `$&`, `` $` `` and `$'` in it are
    expanded). */
module Protect {
  import opened Strings
  import Escape
  import opened Markup

  const Nul: char := '\0'
  const CodeBlockKind: string := "CODEBLOCK"
  const InlineKind: string := "INLINECODE"

  /** The placeholder of the i-th protected region of a kind. */
  function Token(kind: string, i: nat): (t: string)
    ensures |t| >= 2 && t[0] == Nul
  {
    [Nul] + kind + NatToString(i) + [Nul]
  }

  /** A piece of a scan: a character that stays, or a matched region with the
      code pushed for it. */
  datatype Piece = Lit(c: char) | Region(text: string, code: string)

  /** The text a scan was taken from. */
  function Original(ps: seq<Piece>): string {
    if ps == [] then []
    else (match ps[0] case Lit(c) => [c] case Region(t, _) => t) + Original(ps[1..])
  }

  /** The number of regions of a scan. */
  function Regions(ps: seq<Piece>): nat {
    if ps == [] then 0 else (if ps[0].Region? then 1 else 0) + Regions(ps[1..])
  }

  /** The pushed codes, in scan order (the `codeBlocks` / `inlineCodes` arrays). */
  function Codes(ps: seq<Piece>): (cs: seq<string>)
    ensures |cs| == Regions(ps)
  {
    if ps == [] then []
    else (match ps[0] case Lit(_) => [] case Region(_, code) => [code]) + Codes(ps[1..])
  }

  /** The text with the region numbered `k + j` replaced by its placeholder,
      where j counts the regions before it. */
  function Protected(ps: seq<Piece>, kind: string, k: nat): string {
    if ps == [] then []
    else match ps[0]
      case Lit(c) => [c] + Protected(ps[1..], kind, k)
      case Region(_, _) => Token(kind, k) + Protected(ps[1..], kind, k + 1)
  }

  /** The text with the j-th region replaced by `rs[j]`: what protection followed
      by restoration is meant to produce. */
  function Substituted(ps: seq<Piece>, rs: seq<string>): string
    requires |rs| == Regions(ps)
  {
    if ps == [] then []
    else match ps[0]
      case Lit(c) => [c] + Substituted(ps[1..], rs)
      case Region(_, _) => rs[0] + Substituted(ps[1..], rs[1..])
  }

  // ---------------------------------------------------------------------
  // Fenced code blocks: /```[\s\S]*?```/g

  /** The scan of the fenced-block pattern: at each position, three backticks
      followed by the nearest later three backticks form a region. */
  function FencedPieces(s: string): seq<Piece>
    decreases |s|
  {
    if s == [] then []
    else if |s| >= 3 && s[..3] == "```" then
      match IndexOf(s[3..], "```")
        case Some(j) => [Region(s[..j + 6], s[..j + 6])] + FencedPieces(s[j + 6..])
        case None => [Lit(s[0])] + FencedPieces(s[1..])
    else [Lit(s[0])] + FencedPieces(s[1..])
  }

  /** A fenced block as the pattern matches it: it opens with three backticks
      and the first closing triple after them is its last three characters. */
  predicate IsFence(b: string) {
    |b| >= 6 && b[..3] == "```" && IndexOf(b[3..], "```") == Some(|b| - 6)
  }

  /** Every region of a fence scan is a fence, and its code is the whole match. */
  predicate FenceRegions(ps: seq<Piece>) {
    forall k :: 0 <= k < |ps| && ps[k].Region? ==> IsFence(ps[k].code) && ps[k].code == ps[k].text
  }

  /** The fence scan cuts the text into pieces without losing or reordering anything. */
  lemma {:induction false} FencedOriginal(s: string)
    ensures Original(FencedPieces(s)) == s
    decreases |s|
  {
    if s != [] {
      if |s| >= 3 && s[..3] == "```" && IndexOf(s[3..], "```").Some? {
        var j := IndexOf(s[3..], "```").value;
        FencedOriginal(s[j + 6..]);
        assert s == s[..j + 6] + s[j + 6..];
      } else {
        FencedOriginal(s[1..]);
        assert s == [s[0]] + s[1..];
      }
    }
  }

  /** Each region of the fence scan is a whole fenced block, shortest match first. */
  lemma {:induction false} FencedAreFences(s: string)
    ensures FenceRegions(FencedPieces(s))
    decreases |s|
  {
    if s != [] {
      if |s| >= 3 && s[..3] == "```" && IndexOf(s[3..], "```").Some? {
        var j := IndexOf(s[3..], "```").value;
        var b := s[..j + 6];
        FencedBlockStep(s, j);
        BlockIsFence(s, j);
        FencedAreFences(s[j + 6..]);
        RegionsCons(Region(b, b), FencedPieces(s[j + 6..]));
      } else {
        FencedLitStep(s);
        FencedAreFences(s[1..]);
        RegionsCons(Lit(s[0]), FencedPieces(s[1..]));
      }
    }
  }

  lemma {:induction false} FencedBlockStep(s: string, j: nat)
    requires |s| >= 3 && s[..3] == "```" && IndexOf(s[3..], "```") == Some(j)
    ensures j + 6 <= |s| && FencedPieces(s) == [Region(s[..j + 6], s[..j + 6])] + FencedPieces(s[j + 6..])
  {
  }

  lemma {:induction false} FencedLitStep(s: string)
    requires s != [] && !(|s| >= 3 && s[..3] == "```" && IndexOf(s[3..], "```").Some?)
    ensures FencedPieces(s) == [Lit(s[0])] + FencedPieces(s[1..])
  {
  }

  /** The block the scan takes at a triple backtick is a fence. */
  lemma {:induction false} BlockIsFence(s: string, j: nat)
    requires |s| >= 3 && s[..3] == "```" && IndexOf(s[3..], "```") == Some(j)
    ensures j + 6 <= |s| && IsFence(s[..j + 6])
  {
    var b := s[..j + 6];
    assert b[..3] == "```";
    assert b[3..] == s[3..][..j + 3];
    IndexOfPrefix(s[3..], "```", j + 3);
  }

  lemma {:induction false} RegionsCons(p: Piece, ps: seq<Piece>)
    requires FenceRegions(ps)
    requires p.Region? ==> IsFence(p.code) && p.code == p.text
    ensures FenceRegions([p] + ps)
  {
    assert forall k :: 1 <= k < |ps| + 1 ==> ([p] + ps)[k] == ps[k - 1];
  }

  /** Protection of fenced blocks: the protected text and the `codeBlocks` list. */
  function ExtractFenced(s: string): (string, seq<string>) {
    var ps := FencedPieces(s);
    (Protected(ps, CodeBlockKind, 0), Codes(ps))
  }

  // ---------------------------------------------------------------------
  // Inline code spans: /`([^`]+)`/g

  /** The scan of the inline-code pattern: a backtick, at least one other
      character, and the next backtick form a region whose code is the part
      between the backticks. */
  function InlinePieces(s: string): seq<Piece>
    decreases |s|
  {
    if s == [] then []
    else if s[0] == '`' && FindChar(s[1..], '`').Some? && FindChar(s[1..], '`').value >= 1 then
      var j := FindChar(s[1..], '`').value;
      [Region(s[..j + 2], s[1..j + 1])] + InlinePieces(s[j + 2..])
    else [Lit(s[0])] + InlinePieces(s[1..])
  }

  /** Every region of an inline scan is a backtick, a non-empty code without
      backticks, and a backtick. */
  predicate InlineRegions(ps: seq<Piece>) {
    forall k :: 0 <= k < |ps| && ps[k].Region? ==>
      ps[k].code != [] && '`' !in ps[k].code && ps[k].text == "`" + ps[k].code + "`"
  }

  /** The inline scan cuts the text into pieces without losing or reordering anything. */
  lemma {:induction false} InlineOriginal(s: string)
    ensures Original(InlinePieces(s)) == s
    decreases |s|
  {
    if s != [] {
      if s[0] == '`' && FindChar(s[1..], '`').Some? && FindChar(s[1..], '`').value >= 1 {
        var j := FindChar(s[1..], '`').value;
        InlineOriginal(s[j + 2..]);
        assert s == s[..j + 2] + s[j + 2..];
      } else {
        InlineOriginal(s[1..]);
        assert s == [s[0]] + s[1..];
      }
    }
  }

  /** Each region of the inline scan is a code span with its backticks. */
  lemma {:induction false} InlineAreSpans(s: string)
    ensures InlineRegions(InlinePieces(s))
    decreases |s|
  {
    if s != [] {
      var ps := InlinePieces(s);
      if s[0] == '`' && FindChar(s[1..], '`').Some? && FindChar(s[1..], '`').value >= 1 {
        var j := FindChar(s[1..], '`').value;
        assert s[1..j + 1] == s[1..][..j];
        assert s[..j + 2] == "`" + s[1..j + 1] + "`";
        InlineAreSpans(s[j + 2..]);
        assert ps == [Region(s[..j + 2], s[1..j + 1])] + InlinePieces(s[j + 2..]);
      } else {
        InlineAreSpans(s[1..]);
        assert ps == [Lit(s[0])] + InlinePieces(s[1..]);
      }
    }
  }

  /** Protection of inline spans: the protected text and the `inlineCodes` list. */
  function ExtractInline(s: string): (string, seq<string>) {
    var ps := InlinePieces(s);
    (Protected(ps, InlineKind, 0), Codes(ps))
  }

  // ---------------------------------------------------------------------
  // Rendering of the protected code


  /** `\w` of a JavaScript regular expression. */
  predicate IsWordChar(c: char) {
    ('a' <= c <= 'z') || ('A' <= c <= 'Z') || ('0' <= c <= '9') || c == '_'
  }

  /** The length of the longest prefix of word characters. */
  function WordRun(s: string): (n: nat)
    ensures n <= |s| && (n == |s| || !IsWordChar(s[n]))
    ensures forall i :: 0 <= i < n ==> IsWordChar(s[i])
  {
    if s != [] && IsWordChar(s[0]) then 1 + WordRun(s[1..]) else 0
  }

  /** Where the content of a fence starts, counted from just after the opening
      backticks: after the language word and one optional newline. */
  function ContentStart(after: string): (p: nat)
    ensures p <= |after|
  {
    var w := WordRun(after);
    if w < |after| && after[w] == '\n' then w + 1 else w
  }

  /** The `<pre>` element of a fence's content: escaped and trimmed. */
  function PreElement(content: string): string {
    PreOpen + Escape.EscapeHtml(Trim(content)) + PreClose
  }

  /** The pattern /```(\w*)\n?([\s\S]*?)```/ tried at the start of `b`: on a
      match, the `<pre>` element of the escaped, trimmed content followed by
      what comes after the match. */
  function FenceMatchAt(b: string): Option<string> {
    if |b| >= 3 && b[..3] == "```" then
      var rest := b[3..][ContentStart(b[3..])..];
      match IndexOf(rest, "```")
        case Some(k) => Some(PreElement(rest[..k]) + rest[k + 3..])
        case None => None
    else None
  }

  /** `block.replace(/```(\w*)\n?([\s\S]*?)```/, ...)`: the first match is
      replaced by a `<pre>` element holding the escaped, trimmed content. */
  function RenderFence(b: string): string
    decreases |b|
  {
    if b == [] then []
    else match FenceMatchAt(b)
      case Some(r) => r
      case None => [b[0]] + RenderFence(b[1..])
  }

  /** For a block that the fence scan produced, the pattern matches the whole
      block: the result is the `<pre>` element of the trimmed content between
      the language word (and newline) and the closing backticks. */
  lemma RenderWholeFence(b: string)
    requires IsFence(b)
    ensures ContentStart(b[3..]) <= |b| - 6
    ensures RenderFence(b) == PreElement(b[3..][ContentStart(b[3..])..|b| - 6])
  {
    ContentBeforeClose(b);
    FenceMatchWhole(b);
  }

  /** The language word and newline end before the closing backticks. */
  lemma ContentBeforeClose(b: string)
    requires IsFence(b)
    ensures ContentStart(b[3..]) <= |b| - 6
  {
    var after := b[3..];
    var n := |b| - 6;
    assert after[n] == b[|b| - 3..][0] == '`';
    assert !IsWordChar(after[n]);
  }

  lemma {:induction false} FenceMatchWhole(b: string)
    requires IsFence(b) && ContentStart(b[3..]) <= |b| - 6
    ensures FenceMatchAt(b) == Some(PreElement(b[3..][ContentStart(b[3..])..|b| - 6]))
  {
    var after := b[3..];
    var n := |b| - 6;
    var p := ContentStart(after);
    var rest := after[p..];
    FenceRest(after, n, p);
    FenceMatchSplit(b, n - p);
    FenceResult(FenceMatchAt(b), rest[..n - p], rest[n - p + 3..], after[p..n]);
  }

  /** After the language word, the closing backticks are the first ones and
      end the block. */
  lemma {:induction false} FenceRest(after: string, n: nat, p: nat)
    requires IndexOf(after, "```") == Some(n) && p <= n && |after| == n + 3
    ensures IndexOf(after[p..], "```") == Some(n - p)
    ensures after[p..][..n - p] == after[p..n] && after[p..][n - p + 3..] == []
  {
    IndexOfSuffix(after, "```", p);
  }

  lemma {:induction false} FenceResult(r: Option<string>, x: string, y: string, z: string)
    requires r == Some(PreElement(x) + y) && y == [] && x == z
    ensures r == Some(PreElement(z))
  {
    AppendEmpty(PreElement(x));
  }

  /** The match at a fence, given where the closing backticks are found. */
  lemma {:induction false} FenceMatchSplit(b: string, k: nat)
    requires |b| >= 3 && b[..3] == "```"
    requires IndexOf(b[3..][ContentStart(b[3..])..], "```") == Some(k)
    ensures var rest := b[3..][ContentStart(b[3..])..];
      FenceMatchAt(b) == Some(PreElement(rest[..k]) + rest[k + 3..])
  {
  }

  lemma {:induction false} AppendEmpty(x: string)
    ensures x + [] == x
  {
  }

  /** An inline span is rendered as a `<code>` element of its escaped text. */
  function RenderInline(code: string): string {
    CodeOpen + Escape.EscapeHtml(code) + CodeClose
  }

  // ---------------------------------------------------------------------
  // Restoration

  /** JavaScript's expansion of a replacement string (GetSubstitution with no
      capture groups): `$$` is a dollar, `$&` the matched text, `` $` `` the
      text before the match, `$'` the text after it; any other `$` stays. */
  function Expand(rep: string, before: string, matched: string, after: string): string
    decreases |rep|
  {
    if rep == [] then []
    else if rep[0] == '$' && |rep| >= 2 && rep[1] == '$' then "$" + Expand(rep[2..], before, matched, after)
    else if rep[0] == '$' && |rep| >= 2 && rep[1] == '&' then matched + Expand(rep[2..], before, matched, after)
    else if rep[0] == '$' && |rep| >= 2 && rep[1] == '`' then before + Expand(rep[2..], before, matched, after)
    else if rep[0] == '$' && |rep| >= 2 && rep[1] == '\'' then after + Expand(rep[2..], before, matched, after)
    else [rep[0]] + Expand(rep[1..], before, matched, after)
  }

  /** A replacement string without `$` is inserted literally. */
  lemma {:induction false} ExpandLiteral(rep: string, before: string, matched: string, after: string)
    requires '$' !in rep
    ensures Expand(rep, before, matched, after) == rep
    decreases |rep|
  {
    if rep != [] {
      ExpandLiteral(rep[1..], before, matched, after);
    }
  }

  /** Characters before the first `$` are inserted as they are. */
  lemma {:induction false} ExpandLiteralPrefix(x: string, r: string, before: string, matched: string, after: string)
    requires '$' !in x
    ensures Expand(x + r, before, matched, after) == x + Expand(r, before, matched, after)
    decreases |x|
  {
    if x != [] {
      assert (x + r)[0] == x[0] && (x + r)[1..] == x[1..] + r;
      ExpandLiteralPrefix(x[1..], r, before, matched, after);
      assert x == [x[0]] + x[1..];
    } else {
      assert x + r == r;
    }
  }

  /** The four `$` forms of a replacement string. */
  lemma {:induction false} ExpandForms(r: string, before: string, matched: string, after: string)
    ensures Expand("$$" + r, before, matched, after) == "$" + Expand(r, before, matched, after)
    ensures Expand("$&" + r, before, matched, after) == matched + Expand(r, before, matched, after)
    ensures Expand("$`" + r, before, matched, after) == before + Expand(r, before, matched, after)
    ensures Expand("$'" + r, before, matched, after) == after + Expand(r, before, matched, after)
  {
    assert ("$$" + r)[2..] == r && ("$&" + r)[2..] == r;
    assert ("$`" + r)[2..] == r && ("$'" + r)[2..] == r;
  }

  /** Restoring a placeholder that no NUL precedes by a rendering that holds
      one `$` form: `$$` leaves one dollar, `$&` puts the placeholder back,
      `` $` `` inserts the text before it and `$'` the text after it. */
  lemma {:induction false} RestoreExpands(a: string, tok: string, b: string, x: string, y: string)
    requires Nul !in a && |tok| >= 1 && tok[0] == Nul && '$' !in x && '$' !in y
    ensures ReplaceFirst(a + tok + b, tok, x + "$$" + y) == a + x + "$" + y + b
    ensures ReplaceFirst(a + tok + b, tok, x + "$&" + y) == a + x + tok + y + b
    ensures ReplaceFirst(a + tok + b, tok, x + "$`" + y) == a + x + a + y + b
    ensures ReplaceFirst(a + tok + b, tok, x + "$'" + y) == a + x + b + y + b
  {
    ExpandForms(y, a, tok, b);
    ExpandLiteral(y, a, tok, b);
    ReplaceForm(a, tok, b, x, y, "$$", "$");
    ReplaceForm(a, tok, b, x, y, "$&", tok);
    ReplaceForm(a, tok, b, x, y, "$`", a);
    ReplaceForm(a, tok, b, x, y, "$'", b);
  }

  /** Replacing the placeholder by `x + form + y`, where `form + y` expands to `v + y`. */
  lemma {:induction false} ReplaceForm(a: string, tok: string, b: string, x: string, y: string, form: string, v: string)
    requires Nul !in a && |tok| >= 1 && tok[0] == Nul && '$' !in x
    requires Expand(form + y, a, tok, b) == v + y
    ensures ReplaceFirst(a + tok + b, tok, x + form + y) == a + x + v + y + b
  {
    assert x + form + y == x + (form + y);
    ReplaceAtPlaceholder(a, tok, b, x + (form + y));
    ExpandLiteralPrefix(x, form + y, a, tok, b);
  }

  /** The placeholder that no NUL precedes is the one replaced, by the
      expansion of the replacement string. */
  lemma {:induction false} ReplaceAtPlaceholder(a: string, tok: string, b: string, rep: string)
    requires Nul !in a && |tok| >= 1 && tok[0] == Nul
    ensures ReplaceFirst(a + tok + b, tok, rep) == a + Expand(rep, a, tok, b) + b
  {
    var s := a + tok + b;
    IndexOfAfterNulFree(a, tok, b);
    assert s[..|a|] == a && s[|a| + |tok|..] == b;
    ReplaceFirstUnfold(s, tok, rep, |a|);
  }

  /** `s.replace(pat, rep)` with a string pattern: only the first occurrence is
      replaced, and `rep` is expanded. */
  function ReplaceFirst(s: string, pat: string, rep: string): string {
    match IndexOf(s, pat)
      case None => s
      case Some(i) => s[..i] + Expand(rep, s[..i], pat, s[i + |pat|..]) + s[i + |pat|..]
  }

  /** The restoration loop from index `k` on: placeholder k is replaced, then
      k + 1, and so on to the end of `rs`. */
  function RestoreFrom(s: string, kind: string, rs: seq<string>, k: nat): string
    decreases |rs| - k
  {
    if k >= |rs| then s else RestoreFrom(ReplaceFirst(s, Token(kind, k), rs[k]), kind, rs, k + 1)
  }

  function FenceRenders(blocks: seq<string>): (rs: seq<string>)
    ensures |rs| == |blocks| && forall i :: 0 <= i < |blocks| ==> rs[i] == RenderFence(blocks[i])
  {
    seq(|blocks|, i requires 0 <= i < |blocks| => RenderFence(blocks[i]))
  }

  function InlineRenders(codes: seq<string>): (rs: seq<string>)
    ensures |rs| == |codes| && forall i :: 0 <= i < |codes| ==> rs[i] == RenderInline(codes[i])
  {
    seq(|codes|, i requires 0 <= i < |codes| => RenderInline(codes[i]))
  }

  /** `codeBlocks.forEach(...)`: each block is rendered and replaces the first
      occurrence of its placeholder, in index order. */
  method RestoreCodeBlocks(html0: string, codeBlocks: seq<string>) returns (html: string)
    ensures html == RestoreFrom(html0, CodeBlockKind, FenceRenders(codeBlocks), 0)
  {
    ghost var rs := FenceRenders(codeBlocks);
    html := html0;
    for i := 0 to |codeBlocks|
      invariant RestoreFrom(html, CodeBlockKind, rs, i) == RestoreFrom(html0, CodeBlockKind, rs, 0)
    {
      var code := RenderFence(codeBlocks[i]);
      html := ReplaceFirst(html, Token(CodeBlockKind, i), code);
    }
  }

  /** `inlineCodes.forEach(...)`: each span replaces the first occurrence of its
      placeholder, in index order. */
  method RestoreInlineCodes(html0: string, inlineCodes: seq<string>) returns (html: string)
    ensures html == RestoreFrom(html0, InlineKind, InlineRenders(inlineCodes), 0)
  {
    ghost var rs := InlineRenders(inlineCodes);
    html := html0;
    for i := 0 to |inlineCodes|
      invariant RestoreFrom(html, InlineKind, rs, i) == RestoreFrom(html0, InlineKind, rs, 0)
    {
      html := ReplaceFirst(html, Token(InlineKind, i), RenderInline(inlineCodes[i]));
    }
  }

  /** A placeholder is first found where it stands when no NUL precedes it. */
  lemma IndexOfAfterNulFree(a: string, tok: string, b: string)
    requires Nul !in a && |tok| >= 1 && tok[0] == Nul
    ensures IndexOf(a + tok + b, tok) == Some(|a|)
  {
    var s := a + tok + b;
    assert s[|a|..|a| + |tok|] == tok;
    forall j | 0 <= j < |a| ensures !OccursAt(s, tok, j) {
      assert s[j] == a[j];
      if j + |tok| <= |s| { assert s[j..j + |tok|][0] == s[j]; }
    }
    IndexOfIs(s, tok, |a|);
  }

  /** Restoration puts rendered code back exactly where protection took it out,
      region i receiving the i-th rendering, provided the scanned text holds no
      NUL and the renderings hold no NUL and no `$`. */
  lemma {:induction false} RestoreProtected(a: string, ps: seq<Piece>, kind: string, rs: seq<string>, k: nat)
    requires Nul !in a && Nul !in Original(ps)
    requires |rs| == k + Regions(ps)
    requires forall i :: k <= i < |rs| ==> Nul !in rs[i] && '$' !in rs[i]
    ensures RestoreFrom(a + Protected(ps, kind, k), kind, rs, k) == a + Substituted(ps, rs[k..])
    decreases |ps|
  {
    if ps == [] {
      assert a + [] == a;
    } else if ps[0].Lit? {
      RestoreLit(a, ps, kind, rs, k);
    } else {
      var tail := Original(ps[1..]);
      var t := ps[0].text;
      assert Original(ps) == t + tail;
      assert Nul !in tail by { assert Original(ps)[|t|..] == tail; }
      RestoreRegion(a, ps, kind, rs, k);
    }
  }

  lemma {:induction false} RestoreLit(a: string, ps: seq<Piece>, kind: string, rs: seq<string>, k: nat)
    requires ps != [] && ps[0].Lit?
    requires Nul !in a && Nul !in Original(ps)
    requires |rs| == k + Regions(ps)
    requires forall i :: k <= i < |rs| ==> Nul !in rs[i] && '$' !in rs[i]
    ensures RestoreFrom(a + Protected(ps, kind, k), kind, rs, k) == a + Substituted(ps, rs[k..])
    decreases |ps|, 0
  {
    var c := ps[0].c;
    var tail := Original(ps[1..]);
    assert Original(ps) == [c] + tail;
    assert c != Nul && Nul !in tail by { assert Original(ps)[0] == c; assert Original(ps)[1..] == tail; }
    var prot := Protected(ps[1..], kind, k);
    var sub := Substituted(ps[1..], rs[k..]);
    LitPiece(ps, kind, rs[k..], k);
    calc {
      RestoreFrom(a + Protected(ps, kind, k), kind, rs, k);
    == { ConcatAssoc(a, [c], prot); }
      RestoreFrom((a + [c]) + prot, kind, rs, k);
    == { RestoreProtected(a + [c], ps[1..], kind, rs, k); }
      (a + [c]) + sub;
    == { ConcatAssoc(a, [c], sub); }
      a + Substituted(ps, rs[k..]);
    }
  }

  lemma {:induction false} LitPiece(ps: seq<Piece>, kind: string, rs: seq<string>, k: nat)
    requires ps != [] && ps[0].Lit? && |rs| == Regions(ps)
    ensures Regions(ps[1..]) == Regions(ps)
    ensures Protected(ps, kind, k) == [ps[0].c] + Protected(ps[1..], kind, k)
    ensures Substituted(ps, rs) == [ps[0].c] + Substituted(ps[1..], rs)
  {
  }

  lemma {:induction false} RestoreRegion(a: string, ps: seq<Piece>, kind: string, rs: seq<string>, k: nat)
    requires ps != [] && ps[0].Region?
    requires Nul !in a && Nul !in Original(ps[1..])
    requires |rs| == k + Regions(ps)
    requires forall i :: k <= i < |rs| ==> Nul !in rs[i] && '$' !in rs[i]
    ensures RestoreFrom(a + Protected(ps, kind, k), kind, rs, k) == a + Substituted(ps, rs[k..])
    decreases |ps|, 0
  {
    var tok := Token(kind, k);
    var rest := Protected(ps[1..], kind, k + 1);
    var r := rs[k];
    assert Nul !in r && '$' !in r;
    assert Nul !in a + r;
    calc {
      RestoreFrom(a + Protected(ps, kind, k), kind, rs, k);
    == { ProtectedRegion(ps, kind, k); ConcatAssoc(a, tok, rest); }
      RestoreFrom(a + tok + rest, kind, rs, k);
    == { RestoreFromStep(a + tok + rest, kind, rs, k); }
      RestoreFrom(ReplaceFirst(a + tok + rest, tok, r), kind, rs, k + 1);
    == { ReplaceFirstAt(a, tok, rest, r); }
      RestoreFrom(a + r + rest, kind, rs, k + 1);
    == { RestoreProtected(a + r, ps[1..], kind, rs, k + 1); }
      a + r + Substituted(ps[1..], rs[k + 1..]);
    == { ConcatAssoc(a, r, Substituted(ps[1..], rs[k + 1..])); }
      a + (r + Substituted(ps[1..], rs[k + 1..]));
    == { SubstitutedRegion(ps, rs[k..]); assert rs[k..][1..] == rs[k + 1..]; }
      a + Substituted(ps, rs[k..]);
    }
  }

  lemma {:induction false} ConcatAssoc(a: string, b: string, c: string)
    ensures a + (b + c) == a + b + c
  {
  }

  lemma {:induction false} RestoreFromStep(s: string, kind: string, rs: seq<string>, k: nat)
    requires k < |rs|
    ensures RestoreFrom(s, kind, rs, k) == RestoreFrom(ReplaceFirst(s, Token(kind, k), rs[k]), kind, rs, k + 1)
  {
  }

  lemma {:induction false} ProtectedRegion(ps: seq<Piece>, kind: string, k: nat)
    requires ps != [] && ps[0].Region?
    ensures Protected(ps, kind, k) == Token(kind, k) + Protected(ps[1..], kind, k + 1)
  {
  }

  lemma {:induction false} SubstitutedRegion(ps: seq<Piece>, rs: seq<string>)
    requires ps != [] && ps[0].Region? && |rs| == Regions(ps)
    ensures Regions(ps) == 1 + Regions(ps[1..])
    ensures |rs| >= 1 && Substituted(ps, rs) == rs[0] + Substituted(ps[1..], rs[1..])
  {
  }

  /** Replacing a placeholder that no NUL precedes, by a `$`-free rendering,
      inserts the rendering in its place. */
  lemma ReplaceFirstAt(a: string, tok: string, rest: string, r: string)
    requires Nul !in a && |tok| >= 1 && tok[0] == Nul && '$' !in r
    ensures ReplaceFirst(a + tok + rest, tok, r) == a + r + rest
  {
    var s := a + tok + rest;
    IndexOfAfterNulFree(a, tok, rest);
    assert s[..|a|] == a;
    assert s[|a| + |tok|..] == rest;
    ExpandLiteral(r, a, tok, rest);
  }

  // ---------------------------------------------------------------------
  // Placeholders of the two kinds can overlap

  /** An inline placeholder followed by the text `CODEBLOCK<j>` and then the
      placeholder of code block j: the code-block placeholder is first found
      one character early, at the closing NUL of the inline placeholder. The
      block is put there, and the inline placeholder cannot be found any more. */
  lemma {:induction false} CrossKindCollision(i: nat, j: nat, r: string)
    requires Nul !in r && '$' !in r
    ensures var ti := Token(InlineKind, i);
            var tb := Token(CodeBlockKind, j);
            var t := ti + (CodeBlockKind + NatToString(j)) + tb;
            IndexOf(t, tb) == Some(|ti| - 1)
            && ReplaceFirst(t, tb, r) == ti[..|ti| - 1] + r + (CodeBlockKind + NatToString(j)) + [Nul]
            && IndexOf(ReplaceFirst(t, tb, r), ti) == None
  {
    KindsCollide(InlineKind, CodeBlockKind, i, j, r);
  }

  /** The collision for any two kinds that differ in their first letter. */
  lemma {:induction false} KindsCollide(ki: string, kb: string, i: nat, j: nat, r: string)
    requires Nul !in ki && Nul !in kb && ki != [] && kb != [] && ki[0] != kb[0]
    requires Nul !in r && '$' !in r
    ensures var ti := Token(ki, i);
            var tb := Token(kb, j);
            var t := ti + (kb + NatToString(j)) + tb;
            IndexOf(t, tb) == Some(|ti| - 1)
            && ReplaceFirst(t, tb, r) == ti[..|ti| - 1] + r + (kb + NatToString(j)) + [Nul]
            && IndexOf(ReplaceFirst(t, tb, r), ti) == None
  {
    var ti := Token(ki, i);
    var m := kb + NatToString(j);
    var tb := Token(kb, j);
    TokensMeet(ki, kb, i, j);
    FoundAtInnerNul(ti, m, tb, r, ti + m + tb);
  }

  lemma {:induction false} TokensMeet(ki: string, kb: string, i: nat, j: nat)
    requires Nul !in ki && Nul !in kb && ki != [] && kb != [] && ki[0] != kb[0]
    ensures var ti := Token(ki, i);
            var m := kb + NatToString(j);
            |ti| >= 3 && ti[0] == Nul && ti[|ti| - 1] == Nul && Nul !in ti[1..|ti| - 1]
            && |m| >= 1 && ti[1] != m[0] && Nul !in m
            && Token(kb, j) == [Nul] + m + [Nul]
  {
    var ti := Token(ki, i);
    TokenShape(ki, i);
    TokenShape(kb, j);
    assert ti[1] == (ki + NatToString(i))[0] == ki[0];
    assert (kb + NatToString(j))[0] == kb[0];
  }

  /** A placeholder is NUL, its kind and index, NUL, with no other NUL. */
  lemma {:induction false} TokenShape(kind: string, i: nat)
    requires Nul !in kind
    ensures var t := Token(kind, i);
            |t| == |kind| + |NatToString(i)| + 2 && t[|t| - 1] == Nul
            && t[1..|t| - 1] == kind + NatToString(i) && Nul !in kind + NatToString(i)
            && t == [Nul] + (kind + NatToString(i)) + [Nul]
  {
    var t := Token(kind, i);
    assert t[1..|t| - 1] == kind + NatToString(i);
  }

  /** The general shape of the overlap: a NUL-delimited placeholder `ti`, then
      text `m`, then `NUL m NUL`. */
  lemma {:induction false} FoundAtInnerNul(ti: string, m: string, tb: string, r: string, t: string)
    requires |ti| >= 3 && ti[0] == Nul && ti[|ti| - 1] == Nul && Nul !in ti[1..|ti| - 1]
    requires |m| >= 1 && ti[1] != m[0] && Nul !in m
    requires tb == [Nul] + m + [Nul] && t == ti + m + tb
    requires Nul !in r && '$' !in r
    ensures IndexOf(t, tb) == Some(|ti| - 1)
    ensures ReplaceFirst(t, tb, r) == ti[..|ti| - 1] + r + m + [Nul]
    ensures IndexOf(ti[..|ti| - 1] + r + m + [Nul], ti) == None
  {
    var p := |ti| - 1;
    InnerNulFirst(ti, m, tb, t);
    OverlapParts(ti, m, tb, t);
    ReplaceFirstIs(t, tb, r, p);
    LostAfterOverlap(ti, m, r);
  }

  lemma {:induction false} InnerNulFirst(ti: string, m: string, tb: string, t: string)
    requires |ti| >= 3 && ti[0] == Nul && ti[|ti| - 1] == Nul && Nul !in ti[1..|ti| - 1]
    requires |m| >= 1 && ti[1] != m[0] && Nul !in m
    requires tb == [Nul] + m + [Nul] && t == ti + m + tb
    ensures IndexOf(t, tb) == Some(|ti| - 1)
  {
    var p := |ti| - 1;
    assert t[p..p + |tb|] == tb;
    forall q | 0 <= q < p ensures !OccursAt(t, tb, q) {
      if q == 0 {
        NotOccursAt(t, tb, q, 1);
      } else {
        assert t[q] == ti[1..|ti| - 1][q - 1];
        NotOccursAt(t, tb, q, 0);
      }
    }
    IndexOfIs(t, tb, p);
  }

  lemma {:induction false} OverlapParts(ti: string, m: string, tb: string, t: string)
    requires |ti| >= 1 && tb == [Nul] + m + [Nul] && t == ti + m + tb
    ensures t[..|ti| - 1] == ti[..|ti| - 1] && t[|ti| - 1 + |tb|..] == m + [Nul]
  {
  }

  /** Replacing an occurrence found by `IndexOf` with a text free of `$`. */
  lemma {:induction false} ReplaceFirstIs(s: string, pat: string, rep: string, i: nat)
    requires IndexOf(s, pat) == Some(i) && '$' !in rep
    ensures ReplaceFirst(s, pat, rep) == s[..i] + rep + s[i + |pat|..]
  {
    ReplaceFirstUnfold(s, pat, rep, i);
    ExpandLiteral(rep, s[..i], pat, s[i + |pat|..]);
  }

  lemma {:induction false} ReplaceFirstUnfold(s: string, pat: string, rep: string, i: nat)
    requires IndexOf(s, pat) == Some(i)
    ensures ReplaceFirst(s, pat, rep) == s[..i] + Expand(rep, s[..i], pat, s[i + |pat|..]) + s[i + |pat|..]
  {
  }

  lemma LostAfterOverlap(ti: string, m: string, r: string)
    requires |ti| >= 3 && ti[0] == Nul && ti[|ti| - 1] == Nul && Nul !in ti[1..|ti| - 1]
    requires |m| >= 1 && Nul !in m && Nul !in r
    ensures IndexOf(ti[..|ti| - 1] + r + m + [Nul], ti) == None
  {
    var p := |ti| - 1;
    var u := ti[..p] + r + m + [Nul];
    forall q | 0 <= q <= |u| ensures !OccursAt(u, ti, q) {
      if q == 0 {
        if r != [] { assert u[p] == r[0]; } else { assert u[p] == m[0]; }
        NotOccursAt(u, ti, q, p);
      } else if q < p {
        assert u[q] == ti[1..|ti| - 1][q - 1];
        NotOccursAt(u, ti, q, 0);
      } else if q < p + |r| {
        assert u[q] == r[q - p];
        NotOccursAt(u, ti, q, 0);
      } else if q < p + |r| + |m| {
        assert u[q] == m[q - p - |r|];
        NotOccursAt(u, ti, q, 0);
      } else {
        NotOccursAt(u, ti, q, 1);
      }
    }
  }

  /** The digits of a placeholder index hold no NUL. */
  lemma NatToStringDigits(n: nat)
    ensures Nul !in NatToString(n)
  {
  }
}
