/** Both protections followed by both restorations (format-wechat.js:37-49 and
    103-115), taken together.

    The fence scan runs over the markdown; the inline scan then runs over the
    text holding the fence placeholders. When no inline span takes in a fence
    placeholder, the two scans cut the markdown into parts: characters that
    stay, fenced blocks, and inline spans between the blocks. Code blocks are
    restored first, then inline spans; each placeholder is found where it was
    put unless the closing NUL of an inline placeholder followed by the text
    `CODEBLOCK<j>` and a further placeholder is taken for a code-block
    placeholder (see Protect.CrossKindCollision). No span directly followed by
    the letter C rules that out. */
module Restore {
  import opened Strings
  import opened Protect
  import Escape
  import opened Markup

  /** A part of the markdown once both scans have run: a character that stays,
      a fenced block, or an inline code span, each region with the text it
      took and the code pushed for it. */
  datatype Part = Ch(c: char) | Block(text: string, code: string) | Span(text: string, code: string)

  /** The text the parts were cut from. */
  function Whole(qs: seq<Part>): string {
    if qs == [] then []
    else (match qs[0] case Ch(c) => [c] case Block(t, _) => t case Span(t, _) => t) + Whole(qs[1..])
  }

  /** The codes of the fenced blocks, in order (the `codeBlocks` array). */
  function BlockCodes(qs: seq<Part>): seq<string> {
    if qs == [] then [] else (if qs[0].Block? then [qs[0].code] else []) + BlockCodes(qs[1..])
  }

  /** The codes of the inline spans, in order (the `inlineCodes` array). */
  function SpanCodes(qs: seq<Part>): seq<string> {
    if qs == [] then [] else (if qs[0].Span? then [qs[0].code] else []) + SpanCodes(qs[1..])
  }

  /** A piece of an inline scan read as a part. */
  function PartOf(p: Piece): Part {
    match p case Lit(c) => Ch(c) case Region(t, code) => Span(t, code)
  }

  /** An inline scan read as parts. */
  function AsParts(ps: seq<Piece>): seq<Part> {
    if ps == [] then [] else [PartOf(ps[0])] + AsParts(ps[1..])
  }

  /** The parts of a text whose fence scan is `ps`: the characters between two
      blocks, collected in `run`, are cut by the inline scan. */
  function Mix(ps: seq<Piece>, run: string): seq<Part>
    decreases |ps|
  {
    if ps == [] then AsParts(InlinePieces(run))
    else match ps[0]
      case Lit(c) => Mix(ps[1..], run + [c])
      case Region(t, code) => AsParts(InlinePieces(run)) + [Block(t, code)] + Mix(ps[1..], [])
  }

  /** The parts of the markdown. */
  function Cut(markdown: string): seq<Part> {
    Mix(FencedPieces(markdown), [])
  }

  /** Every block is a fence whose code is its text, every span is its code
      between backticks, and no part holds a NUL. */
  predicate Sound(qs: seq<Part>) {
    qs == [] ||
    ((match qs[0]
        case Ch(c) => c != Nul
        case Block(t, code) => IsFence(code) && code == t && Nul !in t
        case Span(t, code) => t == "`" + code + "`" && Nul !in t)
     && Sound(qs[1..]))
  }

  /** No inline span is directly followed by the letter C, the first letter of `CODEBLOCK`. */
  predicate NoCAfterSpan(qs: seq<Part>) {
    forall i :: 0 <= i < |qs| - 1 && qs[i].Span? ==> qs[i + 1] != Ch(CodeBlockKind[0])
  }

  /** No region of a scan takes in a NUL, that is, a placeholder character. */
  predicate NulFreeRegions(ps: seq<Piece>) {
    forall k :: 0 <= k < |ps| && ps[k].Region? ==> Nul !in ps[k].text
  }

  /** The characters of a text, each a piece of its own. */
  function Chars(s: string): seq<Piece> {
    if s == [] then [] else [Lit(s[0])] + Chars(s[1..])
  }

  /** The inline scan of the text holding the fence placeholders numbered from
      `k`, as the parts predict it: a block's placeholder is characters, a span
      a region. */
  function View(qs: seq<Part>, k: nat): seq<Piece>
    decreases |qs|
  {
    if qs == [] then []
    else match qs[0]
      case Ch(c) => [Lit(c)] + View(qs[1..], k)
      case Span(t, code) => [Region(t, code)] + View(qs[1..], k)
      case Block(_, _) => Chars(Token(CodeBlockKind, k)) + View(qs[1..], k + 1)
  }

  /** The text holding both kinds of placeholder: blocks numbered from `kb`,
      spans from `ki`. */
  function Both(qs: seq<Part>, kb: nat, ki: nat): string
    decreases |qs|
  {
    if qs == [] then []
    else match qs[0]
      case Ch(c) => [c] + Both(qs[1..], kb, ki)
      case Block(_, _) => Token(CodeBlockKind, kb) + Both(qs[1..], kb + 1, ki)
      case Span(_, _) => Token(InlineKind, ki) + Both(qs[1..], kb, ki + 1)
  }

  /** The text with the blocks replaced by `rb` in order and the span
      placeholders, numbered from `ki`, still in place. */
  function Half(qs: seq<Part>, rb: seq<string>, ki: nat): string
    requires |rb| == |BlockCodes(qs)|
    decreases |qs|
  {
    if qs == [] then []
    else match qs[0]
      case Ch(c) => [c] + Half(qs[1..], rb, ki)
      case Block(_, _) => rb[0] + Half(qs[1..], rb[1..], ki)
      case Span(_, _) => Token(InlineKind, ki) + Half(qs[1..], rb, ki + 1)
  }

  /** The text with the blocks replaced by `rb` and the spans by `ri`, each in order. */
  function Rendered(qs: seq<Part>, rb: seq<string>, ri: seq<string>): string
    requires |rb| == |BlockCodes(qs)| && |ri| == |SpanCodes(qs)|
    decreases |qs|
  {
    if qs == [] then []
    else match qs[0]
      case Ch(c) => [c] + Rendered(qs[1..], rb, ri)
      case Block(_, _) => rb[0] + Rendered(qs[1..], rb[1..], ri)
      case Span(_, _) => ri[0] + Rendered(qs[1..], rb, ri[1..])
  }

  // ---------------------------------------------------------------------
  // The theorem

  /** Protecting fenced blocks, then inline spans, then restoring code blocks
      and then inline spans, puts the i-th block's rendering in place of the
      i-th fenced block and the j-th span's rendering in place of the j-th
      span, the rest of the markdown unchanged: provided the markdown holds no
      NUL, no inline span takes in a fence placeholder, no span is directly
      followed by the letter C, and no rendering holds a `$`. */
  lemma {:induction false} RestoreBothKinds(markdown: string)
    requires Nul !in markdown
    requires NulFreeRegions(InlinePieces(ExtractFenced(markdown).0))
    requires NoCAfterSpan(Cut(markdown))
    requires var codeBlocks := ExtractFenced(markdown).1;
             forall i :: 0 <= i < |codeBlocks| ==> '$' !in RenderFence(codeBlocks[i])
    requires var inlineCodes := ExtractInline(ExtractFenced(markdown).0).1;
             forall i :: 0 <= i < |inlineCodes| ==> '$' !in RenderInline(inlineCodes[i])
    ensures var (fenced, codeBlocks) := ExtractFenced(markdown);
            var (spanned, inlineCodes) := ExtractInline(fenced);
            var qs := Cut(markdown);
            Whole(qs) == markdown && Sound(qs) &&
            BlockCodes(qs) == codeBlocks && SpanCodes(qs) == inlineCodes &&
            RestoreFrom(RestoreFrom(spanned, CodeBlockKind, FenceRenders(codeBlocks), 0),
                        InlineKind, InlineRenders(inlineCodes), 0)
              == Rendered(qs, FenceRenders(codeBlocks), InlineRenders(inlineCodes))
  {
    var qs := Cut(markdown);
    CutBothKinds(markdown);
    var rb := FenceRenders(BlockCodes(qs));
    var ri := InlineRenders(SpanCodes(qs));
    RendersFit(qs);
    RestoreBlocks([], qs, rb, 0, 0);
    assert [] + Both(qs, 0, 0) == Both(qs, 0, 0);
    assert rb[0..] == rb;
    RestoreSpans([], qs, rb, ri, 0);
    assert [] + Half(qs, rb, 0) == Half(qs, rb, 0);
    assert ri[0..] == ri;
  }

  /** The two scans cut a NUL-free markdown, none of whose spans takes in a
      fence placeholder, into sound parts; the protected text holds both kinds
      of placeholder in their places. */
  lemma {:induction false} CutBothKinds(markdown: string)
    requires Nul !in markdown
    requires NulFreeRegions(InlinePieces(ExtractFenced(markdown).0))
    ensures var (fenced, codeBlocks) := ExtractFenced(markdown);
            var (spanned, inlineCodes) := ExtractInline(fenced);
            var qs := Cut(markdown);
            Whole(qs) == markdown && Sound(qs) &&
            BlockCodes(qs) == codeBlocks && SpanCodes(qs) == inlineCodes && spanned == Both(qs, 0, 0)
  {
    var fps := FencedPieces(markdown);
    var fenced := Protected(fps, CodeBlockKind, 0);
    assert [] + fenced == fenced;
    MixView(fps, [], 0);
    ProtectedView(Cut(markdown), 0, 0);
    SpanCodesView(Cut(markdown), 0);
    BlockCodesMix(fps, []);
    FencedOriginal(markdown);
    WholeMix(fps, []);
    FencedAreFences(markdown);
    assert [] + Original(fps) == markdown;
    SoundMix(fps, []);
  }

  /** The renderings of sound parts fit: the blocks' start with `<`, and none holds a NUL. */
  lemma {:induction false} RendersFit(qs: seq<Part>)
    requires Sound(qs)
    requires var rb := FenceRenders(BlockCodes(qs)); forall i :: 0 <= i < |rb| ==> '$' !in rb[i]
    requires var ri := InlineRenders(SpanCodes(qs)); forall i :: 0 <= i < |ri| ==> '$' !in ri[i]
    ensures var rb := FenceRenders(BlockCodes(qs)); forall i :: 0 <= i < |rb| ==> FitBlock(rb[i])
    ensures var ri := InlineRenders(SpanCodes(qs)); forall i :: 0 <= i < |ri| ==> Nul !in ri[i] && '$' !in ri[i]
  {
    var rb := FenceRenders(BlockCodes(qs));
    var ri := InlineRenders(SpanCodes(qs));
    BlockCodesFit(qs);
    SpanCodesFree(qs);
    forall i | 0 <= i < |rb| ensures FitBlock(rb[i]) {
      assert rb[i] == RenderFence(BlockCodes(qs)[i]) && '$' !in rb[i];
      FenceRenderFits(BlockCodes(qs)[i]);
    }
    forall i | 0 <= i < |ri| ensures Nul !in ri[i] && '$' !in ri[i] {
      assert ri[i] == RenderInline(SpanCodes(qs)[i]) && '$' !in ri[i];
      InlineRenderFree(SpanCodes(qs)[i]);
    }
  }

  // ---------------------------------------------------------------------
  // Restoring code blocks, then inline spans

  /** A rendered code block that can stand in the text: non-empty, not starting
      with C, and holding no NUL and no `$`. */
  predicate FitBlock(r: string) {
    r != [] && r[0] != CodeBlockKind[0] && Nul !in r && '$' !in r
  }

  /** No NUL of `a` is followed by the letter C. */
  predicate NoFalseStart(a: string) {
    forall p :: 0 <= p < |a| - 1 && a[p] == Nul ==> a[p + 1] != CodeBlockKind[0]
  }

  /** The code-block restoration loop from block `kb` on, over a text whose
      beginning `a` has had its placeholders dealt with. */
  lemma {:induction false} RestoreBlocks(a: string, qs: seq<Part>, rb: seq<string>, kb: nat, ki: nat)
    requires NoFalseStart(a) && (a != [] && a[|a| - 1] == Nul && qs != [] ==> qs[0] != Ch(CodeBlockKind[0]))
    requires Sound(qs) && NoCAfterSpan(qs)
    requires |rb| == kb + |BlockCodes(qs)| && forall i :: kb <= i < |rb| ==> FitBlock(rb[i])
    ensures RestoreFrom(a + Both(qs, kb, ki), CodeBlockKind, rb, kb) == a + Half(qs, rb[kb..], ki)
    decreases |qs|, 1
  {
    if qs == [] {
      assert a + [] == a;
    } else if qs[0].Ch? {
      BlocksAfterChar(a, qs, rb, kb, ki);
    } else if qs[0].Span? {
      BlocksAfterSpan(a, qs, rb, kb, ki);
    } else {
      BlocksAtBlock(a, qs, rb, kb, ki);
    }
  }

  lemma {:induction false} BlocksAfterChar(a: string, qs: seq<Part>, rb: seq<string>, kb: nat, ki: nat)
    requires qs != [] && qs[0].Ch?
    requires NoFalseStart(a) && (a != [] && a[|a| - 1] == Nul ==> qs[0] != Ch(CodeBlockKind[0]))
    requires Sound(qs) && NoCAfterSpan(qs)
    requires |rb| == kb + |BlockCodes(qs)| && forall i :: kb <= i < |rb| ==> FitBlock(rb[i])
    ensures RestoreFrom(a + Both(qs, kb, ki), CodeBlockKind, rb, kb) == a + Half(qs, rb[kb..], ki)
    decreases |qs|, 0
  {
    var c := qs[0].c;
    var rest := qs[1..];
    NoCAfterSpanTail(qs);
    CharPart(qs, rb[kb..], kb, ki);
    CharClean(a, c);
    RestoreBlocks(a + [c], rest, rb, kb, ki);
    ConcatAssoc(a, [c], Both(rest, kb, ki));
    ConcatAssoc(a, [c], Half(rest, rb[kb..], ki));
  }

  lemma {:induction false} CharPart(qs: seq<Part>, rb: seq<string>, kb: nat, ki: nat)
    requires qs != [] && qs[0].Ch? && Sound(qs) && |rb| == |BlockCodes(qs)|
    ensures qs[0].c != Nul && Sound(qs[1..]) && BlockCodes(qs) == BlockCodes(qs[1..])
    ensures Both(qs, kb, ki) == [qs[0].c] + Both(qs[1..], kb, ki)
    ensures Half(qs, rb, ki) == [qs[0].c] + Half(qs[1..], rb, ki)
  {
  }

  /** A character other than NUL keeps a text free of NULs followed by C, if it
      is not C where it follows a NUL. */
  lemma {:induction false} CharClean(a: string, c: char)
    requires NoFalseStart(a) && c != Nul && (a != [] && a[|a| - 1] == Nul ==> Ch(c) != Ch(CodeBlockKind[0]))
    ensures NoFalseStart(a + [c]) && (a + [c])[|a + [c]| - 1] != Nul
  {
    var s := a + [c];
    forall p | 0 <= p < |s| - 1 ensures s[p] == Nul ==> s[p + 1] != CodeBlockKind[0] {
      assert s[p] == a[p];
      if p + 1 < |a| { assert s[p + 1] == a[p + 1]; } else { assert s[p + 1] == c; }
    }
  }

  lemma {:induction false} BlocksAfterSpan(a: string, qs: seq<Part>, rb: seq<string>, kb: nat, ki: nat)
    requires qs != [] && qs[0].Span?
    requires NoFalseStart(a)
    requires Sound(qs) && NoCAfterSpan(qs)
    requires |rb| == kb + |BlockCodes(qs)| && forall i :: kb <= i < |rb| ==> FitBlock(rb[i])
    ensures RestoreFrom(a + Both(qs, kb, ki), CodeBlockKind, rb, kb) == a + Half(qs, rb[kb..], ki)
    decreases |qs|, 0
  {
    var tok := Token(InlineKind, ki);
    var rest := qs[1..];
    NoCAfterSpanTail(qs);
    assert BlockCodes(qs) == BlockCodes(rest);
    InlineTokenClean(a, ki);
    assert rest != [] ==> rest[0] != Ch(CodeBlockKind[0]) by {
      if rest != [] { assert qs[1] == rest[0]; }
    }
    RestoreBlocks(a + tok, rest, rb, kb, ki + 1);
    ConcatAssoc(a, tok, Both(rest, kb, ki + 1));
    ConcatAssoc(a, tok, Half(rest, rb[kb..], ki + 1));
  }

  lemma {:induction false} BlocksAtBlock(a: string, qs: seq<Part>, rb: seq<string>, kb: nat, ki: nat)
    requires qs != [] && qs[0].Block?
    requires NoFalseStart(a) && Sound(qs) && NoCAfterSpan(qs)
    requires |rb| == kb + |BlockCodes(qs)| && forall i :: kb <= i < |rb| ==> FitBlock(rb[i])
    ensures RestoreFrom(a + Both(qs, kb, ki), CodeBlockKind, rb, kb) == a + Half(qs, rb[kb..], ki)
    decreases |qs|, 0
  {
    var tok := Token(CodeBlockKind, kb);
    var rest := qs[1..];
    var r := rb[kb];
    var tail := Both(rest, kb + 1, ki);
    NoCAfterSpanTail(qs);
    assert |BlockCodes(qs)| == 1 + |BlockCodes(rest)|;
    assert FitBlock(r);
    calc {
      RestoreFrom(a + Both(qs, kb, ki), CodeBlockKind, rb, kb);
    == { ConcatAssoc(a, tok, tail); }
      RestoreFrom(a + tok + tail, CodeBlockKind, rb, kb);
    == { RestoreFromStep(a + tok + tail, CodeBlockKind, rb, kb); }
      RestoreFrom(ReplaceFirst(a + tok + tail, tok, r), CodeBlockKind, rb, kb + 1);
    == { ReplaceBlockAt(a, kb, tail, r); }
      RestoreFrom(a + r + tail, CodeBlockKind, rb, kb + 1);
    == { BlockClean(a, r); RestoreBlocks(a + r, rest, rb, kb + 1, ki); }
      a + r + Half(rest, rb[kb + 1..], ki);
    == { ConcatAssoc(a, r, Half(rest, rb[kb + 1..], ki)); assert rb[kb..][1..] == rb[kb + 1..]; }
      a + Half(qs, rb[kb..], ki);
    }
  }

  /** The inline restoration loop from span `ki` on, the blocks already restored. */
  lemma {:induction false} RestoreSpans(a: string, qs: seq<Part>, rb: seq<string>, ri: seq<string>, ki: nat)
    requires Nul !in a && Sound(qs)
    requires |rb| == |BlockCodes(qs)| && forall i :: 0 <= i < |rb| ==> Nul !in rb[i]
    requires |ri| == ki + |SpanCodes(qs)| && forall i :: ki <= i < |ri| ==> Nul !in ri[i] && '$' !in ri[i]
    ensures RestoreFrom(a + Half(qs, rb, ki), InlineKind, ri, ki) == a + Rendered(qs, rb, ri[ki..])
    decreases |qs|, 1
  {
    if qs == [] {
      assert a + [] == a;
    } else if qs[0].Span? {
      SpansAtSpan(a, qs, rb, ri, ki);
    } else {
      SpansAfterOther(a, qs, rb, ri, ki);
    }
  }

  lemma {:induction false} SpansAfterOther(a: string, qs: seq<Part>, rb: seq<string>, ri: seq<string>, ki: nat)
    requires qs != [] && !qs[0].Span?
    requires Nul !in a && Sound(qs)
    requires |rb| == |BlockCodes(qs)| && forall i :: 0 <= i < |rb| ==> Nul !in rb[i]
    requires |ri| == ki + |SpanCodes(qs)| && forall i :: ki <= i < |ri| ==> Nul !in ri[i] && '$' !in ri[i]
    ensures RestoreFrom(a + Half(qs, rb, ki), InlineKind, ri, ki) == a + Rendered(qs, rb, ri[ki..])
    decreases |qs|, 0
  {
    var rest := qs[1..];
    assert SpanCodes(qs) == SpanCodes(rest);
    var x, rb' := if qs[0].Ch? then [qs[0].c] else rb[0], if qs[0].Ch? then rb else rb[1..];
    assert |rb'| == |BlockCodes(rest)|;
    assert Half(qs, rb, ki) == x + Half(rest, rb', ki);
    assert Rendered(qs, rb, ri[ki..]) == x + Rendered(rest, rb', ri[ki..]);
    assert Nul !in a + x;
    assert forall i :: 0 <= i < |rb'| ==> Nul !in rb'[i] by {
      if qs[0].Block? { assert forall i :: 0 <= i < |rb'| ==> rb'[i] == rb[i + 1]; }
    }
    RestoreSpans(a + x, rest, rb', ri, ki);
    ConcatAssoc(a, x, Half(rest, rb', ki));
    ConcatAssoc(a, x, Rendered(rest, rb', ri[ki..]));
  }

  lemma {:induction false} SpansAtSpan(a: string, qs: seq<Part>, rb: seq<string>, ri: seq<string>, ki: nat)
    requires qs != [] && qs[0].Span?
    requires Nul !in a && Sound(qs)
    requires |rb| == |BlockCodes(qs)| && forall i :: 0 <= i < |rb| ==> Nul !in rb[i]
    requires |ri| == ki + |SpanCodes(qs)| && forall i :: ki <= i < |ri| ==> Nul !in ri[i] && '$' !in ri[i]
    ensures RestoreFrom(a + Half(qs, rb, ki), InlineKind, ri, ki) == a + Rendered(qs, rb, ri[ki..])
    decreases |qs|, 0
  {
    var tok := Token(InlineKind, ki);
    var rest := qs[1..];
    var r := ri[ki];
    var tail := Half(rest, rb, ki + 1);
    assert |SpanCodes(qs)| == 1 + |SpanCodes(rest)|;
    assert Nul !in r && '$' !in r;
    calc {
      RestoreFrom(a + Half(qs, rb, ki), InlineKind, ri, ki);
    == { ConcatAssoc(a, tok, tail); }
      RestoreFrom(a + tok + tail, InlineKind, ri, ki);
    == { RestoreFromStep(a + tok + tail, InlineKind, ri, ki); }
      RestoreFrom(ReplaceFirst(a + tok + tail, tok, r), InlineKind, ri, ki + 1);
    == { ReplaceFirstAt(a, tok, tail, r); }
      RestoreFrom(a + r + tail, InlineKind, ri, ki + 1);
    == { assert Nul !in a + r; RestoreSpans(a + r, rest, rb, ri, ki + 1); }
      a + r + Rendered(rest, rb, ri[ki + 1..]);
    == { ConcatAssoc(a, r, Rendered(rest, rb, ri[ki + 1..])); assert ri[ki..][1..] == ri[ki + 1..]; }
      a + Rendered(qs, rb, ri[ki..]);
    }
  }

  lemma {:induction false} NoCAfterSpanTail(qs: seq<Part>)
    requires qs != [] && NoCAfterSpan(qs)
    ensures NoCAfterSpan(qs[1..])
  {
    assert forall i :: 0 <= i < |qs| - 1 ==> qs[1..][i] == qs[i + 1];
  }

  /** An inline placeholder keeps a text free of NULs followed by C; it ends in a NUL. */
  lemma {:induction false} InlineTokenClean(a: string, i: nat)
    requires NoFalseStart(a)
    ensures NoFalseStart(a + Token(InlineKind, i))
    ensures var s := a + Token(InlineKind, i); s != [] && s[|s| - 1] == Nul
  {
    var t := Token(InlineKind, i);
    var d := NatToString(i);
    var s := a + t;
    assert t == [Nul] + InlineKind + d + [Nul];
    forall p | 0 <= p < |s| - 1 ensures s[p] == Nul ==> s[p + 1] != CodeBlockKind[0] {
      if p + 1 < |a| {
        assert s[p] == a[p] && s[p + 1] == a[p + 1];
      } else if p + 1 == |a| {
        assert s[p + 1] == Nul;
      } else if p + 1 < |a| + 1 + |InlineKind| {
        assert s[p + 1] == InlineKind[p - |a|];
      } else {
        assert s[p + 1] == t[p + 1 - |a|];
        assert p + 1 - |a| - 1 - |InlineKind| < |d| ==> t[p + 1 - |a|] == d[p - |a| - |InlineKind|];
      }
    }
  }

  /** A rendered block keeps a text free of NULs followed by C, and ends in no NUL. */
  lemma {:induction false} BlockClean(a: string, r: string)
    requires NoFalseStart(a) && FitBlock(r)
    ensures NoFalseStart(a + r)
    ensures var s := a + r; s != [] && s[|s| - 1] != Nul
  {
    var s := a + r;
    forall p | 0 <= p < |s| - 1 ensures s[p] == Nul ==> s[p + 1] != CodeBlockKind[0] {
      if p < |a| {
        assert s[p] == a[p];
        if p + 1 < |a| { assert s[p + 1] == a[p + 1]; } else { assert s[p + 1] == r[0]; }
      } else {
        assert s[p] == r[p - |a|];
      }
    }
    assert s[|s| - 1] == r[|r| - 1];
  }

  /** A code-block placeholder that no NUL followed by C precedes is first found
      where it stands, and a `$`-free rendering takes its place. */
  lemma {:induction false} ReplaceBlockAt(a: string, kb: nat, b: string, r: string)
    requires NoFalseStart(a) && '$' !in r
    ensures var tok := Token(CodeBlockKind, kb); ReplaceFirst(a + tok + b, tok, r) == a + r + b
  {
    var tok := Token(CodeBlockKind, kb);
    var s := a + tok + b;
    assert tok[1] == CodeBlockKind[0];
    assert s[|a|..|a| + |tok|] == tok;
    forall j | 0 <= j < |a| ensures !OccursAt(s, tok, j) {
      assert s[j] == a[j];
      if j + |tok| <= |s| {
        assert s[j..j + |tok|][0] == s[j] && s[j..j + |tok|][1] == s[j + 1];
        if j + 1 < |a| { assert s[j + 1] == a[j + 1]; } else { assert s[j + 1] == tok[0]; }
      }
    }
    IndexOfIs(s, tok, |a|);
    assert s[..|a|] == a && s[|a| + |tok|..] == b;
    ExpandLiteral(r, a, tok, b);
  }

  // ---------------------------------------------------------------------
  // The renderings

  /** The fixed markup around rendered code holds no NUL; a `<pre>` starts with `<`. */
  lemma MarkupNulFree()
    ensures Nul !in PreOpen && Nul !in PreClose && Nul !in CodeOpen && Nul !in CodeClose
    ensures PreOpen[0] == '<'
  {
    PreOpenNulFree();
    CodeOpenNulFree();
  }

  lemma PreOpenNulFree()
    ensures Nul !in PreOpen && PreOpen[0] == '<'
  {
    var decls := ["background:#f5f5f5;", "padding:1em;", "border-radius:4px;", "overflow-x:auto;",
                  "font-family:Consolas,Monaco,monospace;", "font-size:14px;", "line-height:1.5;", "margin:1em 0;"];
    BoxDeclsNulFree();
    FontDeclsNulFree();
    PreDeclsNulFree();
    StyledNulFree("pre", decls);
    var p := Styled("pre", decls);
    assert PreOpen == p + "<code>";
    assert (p + "<code>")[0] == p[0];
  }

  lemma CodeOpenNulFree()
    ensures Nul !in CodeOpen
  {
    var decls := ["background:#f5f5f5;", "padding:0.2em 0.4em;", "border-radius:3px;",
                  "font-family:Consolas,Monaco,monospace;", "font-size:0.9em;"];
    BoxDeclsNulFree();
    FontDeclsNulFree();
    StyledNulFree("code", decls);
  }

  lemma BoxDeclsNulFree()
    ensures Nul !in "background:#f5f5f5;" && Nul !in "padding:1em;" && Nul !in "padding:0.2em 0.4em;"
    ensures Nul !in "border-radius:4px;" && Nul !in "border-radius:3px;" && Nul !in "overflow-x:auto;"
  {
  }

  lemma FontDeclsNulFree()
    ensures Nul !in "font-family:Consolas,Monaco,monospace;" && Nul !in "font-size:0.9em;"
  {
  }

  lemma PreDeclsNulFree()
    ensures Nul !in "font-size:14px;" && Nul !in "line-height:1.5;" && Nul !in "margin:1em 0;"
  {
  }

  lemma StyledNulFree(tag: string, decls: seq<string>)
    requires Nul !in tag && forall i :: 0 <= i < |decls| ==> Nul !in decls[i]
    ensures Nul !in Styled(tag, decls) && Styled(tag, decls)[0] == '<'
  {
    JoinNulFree(decls, " ");
  }

  lemma {:induction false} JoinNulFree(xs: seq<string>, sep: string)
    requires Nul !in sep && forall i :: 0 <= i < |xs| ==> Nul !in xs[i]
    ensures Nul !in Join(xs, sep)
    decreases |xs|
  {
    if |xs| >= 2 {
      JoinNulFree(xs[1..], sep);
    }
  }

  /** Escaping brings in no NUL. */
  lemma {:induction false} EscapeNulFree(s: string)
    requires Nul !in s
    ensures Nul !in Escape.EscapeHtml(s)
  {
    Escape.EscapeHtmlIsPerChar(s);
    EscapeCharsNulFree(s);
  }

  lemma {:induction false} EscapeCharsNulFree(s: string)
    requires Nul !in s
    ensures Nul !in Escape.EscapeChars(s)
    decreases |s|
  {
    if s != [] {
      assert s[0] != Nul && Nul !in s[1..];
      EscapeCharsNulFree(s[1..]);
    }
  }

  /** The rendering of a NUL-free fence starts with `<` and holds no NUL. */
  lemma FenceRenderFits(b: string)
    requires IsFence(b) && Nul !in b && '$' !in RenderFence(b)
    ensures FitBlock(RenderFence(b))
  {
    RenderWholeFence(b);
    var c := b[3..][ContentStart(b[3..])..|b| - 6];
    assert Nul !in c by {
      NotInSlice(b, Nul, 3, |b|);
      NotInSlice(b[3..], Nul, ContentStart(b[3..]), |b| - 6);
    }
    TrimKeepsOut(c, Nul);
    EscapeNulFree(Trim(c));
    MarkupNulFree();
  }

  /** The rendering of a NUL-free inline code holds no NUL. */
  lemma InlineRenderFree(code: string)
    requires Nul !in code && '$' !in RenderInline(code)
    ensures Nul !in RenderInline(code) && '$' !in RenderInline(code)
  {
    EscapeNulFree(code);
    MarkupNulFree();
  }

  /** The block codes of sound parts are fences without NUL. */
  lemma {:induction false} BlockCodesFit(qs: seq<Part>)
    requires Sound(qs)
    ensures forall i :: 0 <= i < |BlockCodes(qs)| ==> IsFence(BlockCodes(qs)[i]) && Nul !in BlockCodes(qs)[i]
    decreases |qs|
  {
    if qs != [] {
      BlockCodesFit(qs[1..]);
      var h := if qs[0].Block? then [qs[0].code] else [];
      assert BlockCodes(qs) == h + BlockCodes(qs[1..]);
      assert forall i :: |h| <= i < |BlockCodes(qs)| ==> BlockCodes(qs)[i] == BlockCodes(qs[1..])[i - |h|];
    }
  }

  /** The span codes of sound parts hold no NUL. */
  lemma {:induction false} SpanCodesFree(qs: seq<Part>)
    requires Sound(qs)
    ensures forall i :: 0 <= i < |SpanCodes(qs)| ==> Nul !in SpanCodes(qs)[i]
    decreases |qs|
  {
    if qs != [] {
      SpanCodesFree(qs[1..]);
      var h := if qs[0].Span? then [qs[0].code] else [];
      assert SpanCodes(qs) == h + SpanCodes(qs[1..]);
      if qs[0].Span? {
        var t := qs[0].text;
        assert t[1..|t| - 1] == qs[0].code;
        NotInSlice(t, Nul, 1, |t| - 1);
      }
      assert forall i :: |h| <= i < |SpanCodes(qs)| ==> SpanCodes(qs)[i] == SpanCodes(qs[1..])[i - |h|];
    }
  }

  // ---------------------------------------------------------------------
  // The two scans cut the markdown into parts

  /** Where the inline pattern tried at the start of `s` closes, if it matches there. */
  function SpanAt(s: string): Option<nat> {
    if s != [] && s[0] == '`' && FindChar(s[1..], '`').Some? && FindChar(s[1..], '`').value >= 1
    then FindChar(s[1..], '`') else None
  }

  lemma {:induction false} SpanStep(s: string)
    requires s != []
    ensures SpanAt(s).Some? ==>
              SpanAt(s).value + 2 <= |s| &&
              InlinePieces(s) == [Region(s[..SpanAt(s).value + 2], s[1..SpanAt(s).value + 1])] + InlinePieces(s[SpanAt(s).value + 2..])
    ensures SpanAt(s).None? ==> InlinePieces(s) == [Lit(s[0])] + InlinePieces(s[1..])
  {
    var f := FindChar(s[1..], '`');
    if SpanAt(s).Some? {
      var j := f.value;
      assert SpanAt(s) == Some(j) && j + 2 <= |s|;
      assert InlinePieces(s) == [Region(s[..j + 2], s[1..j + 1])] + InlinePieces(s[j + 2..]);
    } else {
      assert InlinePieces(s) == [Lit(s[0])] + InlinePieces(s[1..]);
    }
  }

  /** The first occurrence of a character in a text is its first occurrence in
      any longer text, and one found early enough lies in the shorter text. */
  lemma {:induction false} FindCharConcat(a: string, b: string, c: char)
    ensures FindChar(a, c).Some? ==> FindChar(a + b, c) == FindChar(a, c)
    ensures FindChar(a + b, c).Some? && FindChar(a + b, c).value < |a| ==> FindChar(a, c) == FindChar(a + b, c)
    decreases |a|
  {
    if a != [] {
      assert (a + b)[0] == a[0] && (a + b)[1..] == a[1..] + b;
      FindCharConcat(a[1..], b, c);
    }
  }

  /** A span found at the start of `x` is found at the start of `x + z`, and
      one found at the start of `x + z` that closes inside `x` is found in `x`. */
  lemma {:induction false} SpanAtConcat(x: string, z: string)
    requires x != []
    ensures SpanAt(x).Some? ==> SpanAt(x + z) == SpanAt(x)
    ensures SpanAt(x + z).Some? && SpanAt(x + z).value + 2 <= |x| ==> SpanAt(x) == SpanAt(x + z)
  {
    assert (x + z)[0] == x[0] && (x + z)[1..] == x[1..] + z;
    FindCharConcat(x[1..], z, '`');
  }

  /** A span that starts before a placeholder and does not close before it
      takes in the placeholder's NUL. */
  lemma {:induction false} Straddles(x: string, t: string, y: string, j: nat)
    requires t != [] && t[0] == Nul && j + 2 <= |x + t + y|
    ensures |x| < j + 2 ==> Nul in (x + t + y)[..j + 2]
  {
    var s := x + t + y;
    if |x| < j + 2 {
      assert s[..j + 2][|x|] == t[0];
    }
  }

  lemma {:induction false} NulFreeTail(ps: seq<Piece>, n: nat)
    requires n <= |ps| && NulFreeRegions(ps)
    ensures NulFreeRegions(ps[n..])
  {
    assert forall k :: 0 <= k < |ps| - n ==> ps[n..][k] == ps[k + n];
  }

  lemma {:induction false} NulFreeSuffix(a: seq<Piece>, b: seq<Piece>)
    requires NulFreeRegions(a + b)
    ensures NulFreeRegions(b)
  {
    NulFreeTail(a + b, |a|);
    assert (a + b)[|a|..] == b;
  }

  /** Text without a backtick scans as single characters. */
  lemma {:induction false} CharsScan(t: string, y: string)
    requires '`' !in t
    ensures InlinePieces(t + y) == Chars(t) + InlinePieces(y)
    decreases |t|
  {
    if t == [] {
      assert t + y == y;
    } else {
      var s := t + y;
      assert s[0] == t[0] && s[1..] == t[1..] + y;
      SpanStep(s);
      CharsScan(t[1..], y);
    }
  }

  /** When no span takes in a NUL, the inline scan of a text holding a
      backtick-free placeholder is the scan before it, the placeholder's
      characters, and the scan after it. */
  lemma {:induction false} InlineOverToken(x: string, t: string, y: string)
    requires t != [] && t[0] == Nul && '`' !in t
    requires NulFreeRegions(InlinePieces(x + t + y))
    ensures InlinePieces(x + t + y) == InlinePieces(x) + Chars(t) + InlinePieces(y)
    decreases |x|, 1
  {
    if x == [] {
      assert x + t + y == t + y;
      CharsScan(t, y);
    } else if SpanAt(x + t + y).Some? {
      OverTokenSpan(x, t, y);
    } else {
      OverTokenChar(x, t, y);
    }
  }

  lemma {:induction false} OverTokenSpan(x: string, t: string, y: string)
    requires x != [] && SpanAt(x + t + y).Some?
    requires t != [] && t[0] == Nul && '`' !in t
    requires NulFreeRegions(InlinePieces(x + t + y))
    ensures InlinePieces(x + t + y) == InlinePieces(x) + Chars(t) + InlinePieces(y)
    decreases |x|, 0
  {
    var j := SpanHead(x, t, y);
    var r := Region(x[..j + 2], x[1..j + 1]);
    InlineOverToken(x[j + 2..], t, y);
    SeqAssoc4([r], InlinePieces(x[j + 2..]), Chars(t), InlinePieces(y));
  }

  /** A span at the start of a text holding a placeholder lies before the
      placeholder, and is the span at the start of the text before it. */
  lemma {:induction false} SpanHead(x: string, t: string, y: string) returns (j: nat)
    requires x != [] && SpanAt(x + t + y).Some?
    requires t != [] && t[0] == Nul
    requires NulFreeRegions(InlinePieces(x + t + y))
    ensures j + 2 <= |x|
    ensures InlinePieces(x + t + y) == [Region(x[..j + 2], x[1..j + 1])] + InlinePieces(x[j + 2..] + t + y)
    ensures InlinePieces(x) == [Region(x[..j + 2], x[1..j + 1])] + InlinePieces(x[j + 2..])
    ensures NulFreeRegions(InlinePieces(x[j + 2..] + t + y))
  {
    j := SpanInside(x, t, y);
    ConcatAssoc(x, t, y);
    SpanHeadOf(x, t + y, j);
    ConcatAssoc(x[j + 2..], t, y);
    NulFreeRest(InlinePieces(x + t + y), [Region(x[..j + 2], x[1..j + 1])], InlinePieces(x[j + 2..] + t + y));
  }

  /** A span of `x + z` that closes inside `x` is the span at the start of `x`. */
  lemma {:induction false} SpanHeadOf(x: string, z: string, j: nat)
    requires x != [] && SpanAt(x + z) == Some(j) && j + 2 <= |x|
    ensures InlinePieces(x + z) == [Region(x[..j + 2], x[1..j + 1])] + InlinePieces(x[j + 2..] + z)
    ensures InlinePieces(x) == [Region(x[..j + 2], x[1..j + 1])] + InlinePieces(x[j + 2..])
  {
    SpanOfWhole(x, z, j);
    SpanAtConcat(x, z);
    SpanOfPart(x, j);
  }

  lemma {:induction false} SpanOfPart(x: string, j: nat)
    requires x != [] && SpanAt(x) == Some(j)
    ensures InlinePieces(x) == [Region(x[..j + 2], x[1..j + 1])] + InlinePieces(x[j + 2..])
  {
    assert x + [] == x && x[j + 2..] + [] == x[j + 2..];
    SpanOfWhole(x, [], j);
  }

  lemma {:induction false} SpanOfWhole(x: string, z: string, j: nat)
    requires x != [] && SpanAt(x + z) == Some(j) && j + 2 <= |x|
    ensures InlinePieces(x + z) == [Region(x[..j + 2], x[1..j + 1])] + InlinePieces(x[j + 2..] + z)
  {
    var s := x + z;
    SpanStep(s);
    assert InlinePieces(s) == [Region(s[..j + 2], s[1..j + 1])] + InlinePieces(s[j + 2..]);
    PrefixSlices(x, z, j + 2);
  }

  /** The span at the start of a text holding a placeholder closes before the placeholder. */
  lemma {:induction false} SpanInside(x: string, t: string, y: string) returns (j: nat)
    requires SpanAt(x + t + y).Some?
    requires t != [] && t[0] == Nul
    requires NulFreeRegions(InlinePieces(x + t + y))
    ensures SpanAt(x + t + y) == Some(j) && j + 2 <= |x|
  {
    var s := x + t + y;
    j := SpanAt(s).value;
    SpanStep(s);
    assert InlinePieces(s)[0].text == s[..j + 2];
    Straddles(x, t, y, j);
  }

  lemma {:induction false} PrefixSlices(x: string, z: string, n: nat)
    requires 2 <= n <= |x|
    ensures (x + z)[..n] == x[..n] && (x + z)[1..n - 1] == x[1..n - 1] && (x + z)[n..] == x[n..] + z
  {
  }

  lemma {:induction false} OverTokenChar(x: string, t: string, y: string)
    requires x != [] && SpanAt(x + t + y).None?
    requires t != [] && t[0] == Nul && '`' !in t
    requires NulFreeRegions(InlinePieces(x + t + y))
    ensures InlinePieces(x + t + y) == InlinePieces(x) + Chars(t) + InlinePieces(y)
    decreases |x|, 0
  {
    CharHead(x, t, y);
    InlineOverToken(x[1..], t, y);
    SeqAssoc4([Lit(x[0])], InlinePieces(x[1..]), Chars(t), InlinePieces(y));
  }

  /** A character at the start of a text holding a placeholder, where no span
      starts, is a character of the text before the placeholder too. */
  lemma {:induction false} CharHead(x: string, t: string, y: string)
    requires x != [] && SpanAt(x + t + y).None?
    requires NulFreeRegions(InlinePieces(x + t + y))
    ensures InlinePieces(x + t + y) == [Lit(x[0])] + InlinePieces(x[1..] + t + y)
    ensures InlinePieces(x) == [Lit(x[0])] + InlinePieces(x[1..])
    ensures NulFreeRegions(InlinePieces(x[1..] + t + y))
  {
    var z := t + y;
    ConcatAssoc(x, t, y);
    SpanAtConcat(x, z);
    SpanStep(x);
    SpanStep(x + z);
    HeadSlices(x, z);
    ConcatAssoc(x[1..], t, y);
    NulFreeRest(InlinePieces(x + t + y), [Lit(x[0])], InlinePieces(x[1..] + t + y));
  }

  lemma {:induction false} HeadSlices(x: string, z: string)
    requires x != []
    ensures (x + z)[0] == x[0] && (x + z)[1..] == x[1..] + z
  {
  }

  lemma {:induction false} NulFreeRest(ps: seq<Piece>, a: seq<Piece>, b: seq<Piece>)
    requires NulFreeRegions(ps) && ps == a + b
    ensures NulFreeRegions(b)
  {
    NulFreeSuffix(a, b);
  }

  lemma {:induction false} SeqAssoc4(a: seq<Piece>, b: seq<Piece>, c: seq<Piece>, d: seq<Piece>)
    ensures a + (b + c + d) == (a + b) + c + d
  {
  }

  /** A placeholder holds no backtick. */
  lemma TokenNoBacktick(kind: string, k: nat)
    requires '`' !in kind
    ensures '`' !in Token(kind, k)
  {
    var d := NatToString(k);
    assert '`' !in d;
  }

  lemma {:induction false} ViewCons(q: Part, x: seq<Part>, k: nat)
    ensures View([q] + x, k) ==
      match q
      case Ch(c) => [Lit(c)] + View(x, k)
      case Span(t, code) => [Region(t, code)] + View(x, k)
      case Block(_, _) => Chars(Token(CodeBlockKind, k)) + View(x, k + 1)
  {
    assert ([q] + x)[0] == q && ([q] + x)[1..] == x;
  }

  /** Reading the part list and then the fence placeholders gives back an inline scan. */
  lemma {:induction false} ViewAsParts(ps: seq<Piece>, rest: seq<Part>, k: nat)
    ensures View(AsParts(ps) + rest, k) == ps + View(rest, k)
    decreases |ps|, 1
  {
    if ps == [] {
      assert AsParts(ps) + rest == rest;
    } else {
      ViewAsPartsCons(ps, rest, k);
    }
  }

  lemma {:induction false} ViewAsPartsCons(ps: seq<Piece>, rest: seq<Part>, k: nat)
    requires ps != []
    ensures View(AsParts(ps) + rest, k) == ps + View(rest, k)
    decreases |ps|, 0
  {
    var p := ps[0];
    var x := AsParts(ps[1..]) + rest;
    calc {
      View(AsParts(ps) + rest, k);
    == { assert AsParts(ps) + rest == [PartOf(p)] + x; }
      View([PartOf(p)] + x, k);
    == { ViewPart(p, x, k); }
      [p] + View(x, k);
    == { ViewAsParts(ps[1..], rest, k); }
      [p] + (ps[1..] + View(rest, k));
    == { assert [p] + ps[1..] == ps; }
      ps + View(rest, k);
    }
  }

  lemma {:induction false} ViewPart(p: Piece, x: seq<Part>, k: nat)
    ensures View([PartOf(p)] + x, k) == [p] + View(x, k)
  {
    assert ([PartOf(p)] + x)[0] == PartOf(p) && ([PartOf(p)] + x)[1..] == x;
  }

  lemma {:induction false} MixLit(ps: seq<Piece>, run: string)
    requires ps != [] && ps[0].Lit?
    ensures Mix(ps, run) == Mix(ps[1..], run + [ps[0].c])
  {
  }

  lemma {:induction false} MixRegion(ps: seq<Piece>, run: string)
    requires ps != [] && ps[0].Region?
    ensures Mix(ps, run) == AsParts(InlinePieces(run)) + ([Block(ps[0].text, ps[0].code)] + Mix(ps[1..], []))
  {
  }

  /** When no span takes in a NUL, the inline scan of the text with fence
      placeholders is the one the parts predict. */
  lemma {:induction false} MixView(ps: seq<Piece>, run: string, k: nat)
    requires NulFreeRegions(InlinePieces(run + Protected(ps, CodeBlockKind, k)))
    ensures InlinePieces(run + Protected(ps, CodeBlockKind, k)) == View(Mix(ps, run), k)
    decreases |ps|, 1
  {
    if ps == [] {
      MixViewEmpty(run, k);
    } else if ps[0].Lit? {
      MixViewLit(ps, run, k);
    } else {
      MixViewBlock(ps, run, k);
    }
  }

  lemma {:induction false} MixViewEmpty(run: string, k: nat)
    ensures InlinePieces(run + Protected([], CodeBlockKind, k)) == View(Mix([], run), k)
  {
    assert run + Protected([], CodeBlockKind, k) == run;
    ViewAsParts(InlinePieces(run), [], k);
    assert AsParts(InlinePieces(run)) + [] == AsParts(InlinePieces(run));
  }

  lemma {:induction false} MixViewLit(ps: seq<Piece>, run: string, k: nat)
    requires ps != [] && ps[0].Lit?
    requires NulFreeRegions(InlinePieces(run + Protected(ps, CodeBlockKind, k)))
    ensures InlinePieces(run + Protected(ps, CodeBlockKind, k)) == View(Mix(ps, run), k)
    decreases |ps|, 0
  {
    var c := ps[0].c;
    assert Protected(ps, CodeBlockKind, k) == [c] + Protected(ps[1..], CodeBlockKind, k);
    assert run + Protected(ps, CodeBlockKind, k) == (run + [c]) + Protected(ps[1..], CodeBlockKind, k);
    MixView(ps[1..], run + [c], k);
    MixLit(ps, run);
  }

  lemma {:induction false} MixViewBlock(ps: seq<Piece>, run: string, k: nat)
    requires ps != [] && ps[0].Region?
    requires NulFreeRegions(InlinePieces(run + Protected(ps, CodeBlockKind, k)))
    ensures InlinePieces(run + Protected(ps, CodeBlockKind, k)) == View(Mix(ps, run), k)
    decreases |ps|, 0
  {
    var rest := Protected(ps[1..], CodeBlockKind, k + 1);
    BlockSplit(ps, run, k);
    assert [] + rest == rest;
    MixView(ps[1..], [], k + 1);
    BlockJoin(ps, run, k);
  }

  /** The view of the predicted scan past a fenced block, put back together. */
  lemma {:induction false} BlockJoin(ps: seq<Piece>, run: string, k: nat)
    requires ps != [] && ps[0].Region?
    ensures InlinePieces(run) + Chars(Token(CodeBlockKind, k)) + View(Mix(ps[1..], []), k + 1) == View(Mix(ps, run), k)
  {
    var b := Block(ps[0].text, ps[0].code);
    var tok := Token(CodeBlockKind, k);
    var m := Mix(ps[1..], []);
    var u := InlinePieces(run);
    calc {
      u + Chars(tok) + View(m, k + 1);
    == { ViewCons(b, m, k); }
      u + View([b] + m, k);
    == { ViewAsParts(u, [b] + m, k); }
      View(AsParts(u) + ([b] + m), k);
    == { MixRegion(ps, run); }
      View(Mix(ps, run), k);
    }
  }

  /** The inline scan of a text whose next piece is a fenced block stops at its placeholder. */
  lemma {:induction false} BlockSplit(ps: seq<Piece>, run: string, k: nat)
    requires ps != [] && ps[0].Region?
    requires NulFreeRegions(InlinePieces(run + Protected(ps, CodeBlockKind, k)))
    ensures var tok, rest := Token(CodeBlockKind, k), Protected(ps[1..], CodeBlockKind, k + 1);
            InlinePieces(run + Protected(ps, CodeBlockKind, k)) == InlinePieces(run) + Chars(tok) + InlinePieces(rest)
            && NulFreeRegions(InlinePieces(rest))
  {
    var tok := Token(CodeBlockKind, k);
    var rest := Protected(ps[1..], CodeBlockKind, k + 1);
    assert run + Protected(ps, CodeBlockKind, k) == run + tok + rest;
    TokenNoBacktick(CodeBlockKind, k);
    InlineOverToken(run, tok, rest);
    NulFreeSuffix(InlinePieces(run) + Chars(tok), InlinePieces(rest));
  }

  /** Protecting the inline spans of the predicted scan writes both kinds of placeholder. */
  lemma {:induction false} ProtectedView(qs: seq<Part>, kb: nat, ki: nat)
    ensures Protected(View(qs, kb), InlineKind, ki) == Both(qs, kb, ki)
    decreases |qs|
  {
    if qs != [] {
      ProtectedView(qs[1..], kb + (if qs[0].Block? then 1 else 0), ki + (if qs[0].Span? then 1 else 0));
      match qs[0]
      case Ch(c) =>
        assert ([Lit(c)] + View(qs[1..], kb))[1..] == View(qs[1..], kb);
      case Span(t, code) =>
        assert ([Region(t, code)] + View(qs[1..], kb))[1..] == View(qs[1..], kb);
      case Block(_, _) =>
        ProtectedChars(Token(CodeBlockKind, kb), View(qs[1..], kb + 1), ki);
    }
  }

  lemma {:induction false} ProtectedChars(t: string, rest: seq<Piece>, ki: nat)
    ensures Protected(Chars(t) + rest, InlineKind, ki) == t + Protected(rest, InlineKind, ki)
    decreases |t|
  {
    if t != [] {
      assert (Chars(t) + rest)[0] == Lit(t[0]) && (Chars(t) + rest)[1..] == Chars(t[1..]) + rest;
      ProtectedChars(t[1..], rest, ki);
      assert t + Protected(rest, InlineKind, ki) == [t[0]] + (t[1..] + Protected(rest, InlineKind, ki));
    }
    else {
      assert Chars(t) + rest == rest && t + Protected(rest, InlineKind, ki) == Protected(rest, InlineKind, ki);
    }
  }

  /** The codes of the predicted scan are the span codes. */
  lemma {:induction false} SpanCodesView(qs: seq<Part>, kb: nat)
    ensures Codes(View(qs, kb)) == SpanCodes(qs)
    decreases |qs|
  {
    if qs != [] {
      SpanCodesView(qs[1..], kb + (if qs[0].Block? then 1 else 0));
      match qs[0]
      case Ch(c) =>
        assert ([Lit(c)] + View(qs[1..], kb))[1..] == View(qs[1..], kb);
      case Span(t, code) =>
        assert ([Region(t, code)] + View(qs[1..], kb))[1..] == View(qs[1..], kb);
      case Block(_, _) =>
        CodesChars(Token(CodeBlockKind, kb), View(qs[1..], kb + 1));
    }
  }

  lemma {:induction false} CodesChars(t: string, rest: seq<Piece>)
    ensures Codes(Chars(t) + rest) == Codes(rest)
    decreases |t|
  {
    if t != [] {
      assert (Chars(t) + rest)[0] == Lit(t[0]) && (Chars(t) + rest)[1..] == Chars(t[1..]) + rest;
      CodesChars(t[1..], rest);
    } else {
      assert Chars(t) + rest == rest;
    }
  }

  lemma {:induction false} BlockCodesConcat(a: seq<Part>, b: seq<Part>)
    ensures BlockCodes(a + b) == BlockCodes(a) + BlockCodes(b)
    decreases |a|
  {
    if a != [] {
      assert (a + b)[0] == a[0] && (a + b)[1..] == a[1..] + b;
      BlockCodesConcat(a[1..], b);
    } else {
      assert a + b == b;
    }
  }

  lemma {:induction false} NoBlocksInSpans(ps: seq<Piece>)
    ensures BlockCodes(AsParts(ps)) == []
    decreases |ps|
  {
    if ps != [] {
      NoBlocksInSpans(ps[1..]);
    }
  }

  /** The block codes of the parts are the codes of the fence scan. */
  lemma {:induction false} BlockCodesMix(ps: seq<Piece>, run: string)
    ensures BlockCodes(Mix(ps, run)) == Codes(ps)
    decreases |ps|, 1
  {
    if ps == [] {
      NoBlocksInSpans(InlinePieces(run));
    } else if ps[0].Lit? {
      MixLit(ps, run);
      BlockCodesMix(ps[1..], run + [ps[0].c]);
    } else {
      BlockCodesMixBlock(ps, run);
    }
  }

  lemma {:induction false} BlockCodesMixBlock(ps: seq<Piece>, run: string)
    requires ps != [] && ps[0].Region?
    ensures BlockCodes(Mix(ps, run)) == Codes(ps)
    decreases |ps|, 0
  {
    var b := Block(ps[0].text, ps[0].code);
    var m := Mix(ps[1..], []);
    var u := AsParts(InlinePieces(run));
    MixRegion(ps, run);
    NoBlocksInSpans(InlinePieces(run));
    BlockCodesMix(ps[1..], []);
    BlockCodesConcat(u, [b] + m);
    BlockCodesConcat([b], m);
    assert BlockCodes([b]) == [ps[0].code];
    assert Codes(ps) == [ps[0].code] + Codes(ps[1..]);
  }

  lemma {:induction false} WholeConcat(a: seq<Part>, b: seq<Part>)
    ensures Whole(a + b) == Whole(a) + Whole(b)
    decreases |a|
  {
    if a != [] {
      assert (a + b)[0] == a[0] && (a + b)[1..] == a[1..] + b;
      WholeConcat(a[1..], b);
    } else {
      assert a + b == b;
    }
  }

  lemma {:induction false} WholeAsParts(ps: seq<Piece>)
    ensures Whole(AsParts(ps)) == Original(ps)
    decreases |ps|
  {
    if ps != [] {
      WholeAsParts(ps[1..]);
    }
  }

  /** The parts put together are the text they were cut from. */
  lemma {:induction false} WholeMix(ps: seq<Piece>, run: string)
    ensures Whole(Mix(ps, run)) == run + Original(ps)
    decreases |ps|, 1
  {
    if ps == [] {
      WholeMixEmpty(run);
    } else if ps[0].Lit? {
      WholeMixLit(ps, run);
    } else {
      WholeMixBlock(ps, run);
    }
  }

  lemma {:induction false} WholeMixEmpty(run: string)
    ensures Whole(Mix([], run)) == run + Original([])
  {
    WholeAsParts(InlinePieces(run));
    InlineOriginal(run);
    assert run + [] == run;
  }

  lemma {:induction false} WholeMixLit(ps: seq<Piece>, run: string)
    requires ps != [] && ps[0].Lit?
    ensures Whole(Mix(ps, run)) == run + Original(ps)
    decreases |ps|, 0
  {
    var c := ps[0].c;
    MixLit(ps, run);
    WholeMix(ps[1..], run + [c]);
    assert Original(ps) == [c] + Original(ps[1..]);
    ConcatAssoc(run, [c], Original(ps[1..]));
  }

  lemma {:induction false} WholeMixBlock(ps: seq<Piece>, run: string)
    requires ps != [] && ps[0].Region?
    ensures Whole(Mix(ps, run)) == run + Original(ps)
    decreases |ps|, 0
  {
    var t := ps[0].text;
    var b := Block(t, ps[0].code);
    var m := Mix(ps[1..], []);
    var u := AsParts(InlinePieces(run));
    MixRegion(ps, run);
    WholeAsParts(InlinePieces(run));
    InlineOriginal(run);
    WholeMix(ps[1..], []);
    WholeConcat(u, [b] + m);
    WholeConcat([b], m);
    assert Whole([b]) == t;
    assert [] + Original(ps[1..]) == Original(ps[1..]);
    assert Original(ps) == t + Original(ps[1..]);
    ConcatAssoc(run, t, Original(ps[1..]));
  }

  lemma {:induction false} SoundConcat(a: seq<Part>, b: seq<Part>)
    requires Sound(a) && Sound(b)
    ensures Sound(a + b)
    decreases |a|
  {
    if a != [] {
      assert (a + b)[0] == a[0] && (a + b)[1..] == a[1..] + b;
      SoundConcat(a[1..], b);
    } else {
      assert a + b == b;
    }
  }

  /** The spans of a NUL-free inline scan are sound parts. */
  lemma {:induction false} SoundSpans(ps: seq<Piece>)
    requires InlineRegions(ps) && Nul !in Original(ps)
    ensures Sound(AsParts(ps))
    decreases |ps|
  {
    if ps != [] {
      var h := match ps[0] case Lit(c) => [c] case Region(t, _) => t;
      assert Original(ps) == h + Original(ps[1..]);
      assert Nul !in h && Nul !in Original(ps[1..]) by {
        assert Original(ps)[..|h|] == h && Original(ps)[|h|..] == Original(ps[1..]);
      }
      assert InlineRegions(ps[1..]) by {
        assert forall k :: 0 <= k < |ps| - 1 ==> ps[1..][k] == ps[k + 1];
      }
      SoundSpans(ps[1..]);
    }
  }

  /** The parts of a NUL-free text are sound. */
  lemma {:induction false} SoundMix(ps: seq<Piece>, run: string)
    requires FenceRegions(ps) && Nul !in run + Original(ps)
    ensures Sound(Mix(ps, run))
    decreases |ps|, 1
  {
    if ps == [] {
      assert run + Original(ps) == run;
      SoundRun(run);
    } else if ps[0].Lit? {
      SoundMixLit(ps, run);
    } else {
      SoundMixBlock(ps, run);
    }
  }

  /** The inline scan of a NUL-free run gives sound parts. */
  lemma {:induction false} SoundRun(run: string)
    requires Nul !in run
    ensures Sound(AsParts(InlinePieces(run)))
  {
    InlineAreSpans(run);
    InlineOriginal(run);
    SoundSpans(InlinePieces(run));
  }

  lemma {:induction false} FenceRegionsTail(ps: seq<Piece>)
    requires ps != [] && FenceRegions(ps)
    ensures FenceRegions(ps[1..])
  {
    assert forall k :: 0 <= k < |ps| - 1 ==> ps[1..][k] == ps[k + 1];
  }

  lemma {:induction false} SoundMixLit(ps: seq<Piece>, run: string)
    requires ps != [] && ps[0].Lit?
    requires FenceRegions(ps) && Nul !in run + Original(ps)
    ensures Sound(Mix(ps, run))
    decreases |ps|, 0
  {
    var c := ps[0].c;
    FenceRegionsTail(ps);
    assert Original(ps) == [c] + Original(ps[1..]);
    ConcatAssoc(run, [c], Original(ps[1..]));
    MixLit(ps, run);
    SoundMix(ps[1..], run + [c]);
  }

  lemma {:induction false} SoundMixBlock(ps: seq<Piece>, run: string)
    requires ps != [] && ps[0].Region?
    requires FenceRegions(ps) && Nul !in run + Original(ps)
    ensures Sound(Mix(ps, run))
    decreases |ps|, 0
  {
    var b := Block(ps[0].text, ps[0].code);
    var m := Mix(ps[1..], []);
    BlockNulFree(ps, run);
    SoundRun(run);
    FenceRegionsTail(ps);
    SoundMix(ps[1..], []);
    assert Sound([b]);
    SoundConcat([b], m);
    SoundConcat(AsParts(InlinePieces(run)), [b] + m);
    MixRegion(ps, run);
  }

  lemma {:induction false} BlockNulFree(ps: seq<Piece>, run: string)
    requires ps != [] && ps[0].Region? && Nul !in run + Original(ps)
    ensures Nul !in run && Nul !in ps[0].text && Nul !in [] + Original(ps[1..])
  {
    var t := ps[0].text;
    var u := run + Original(ps);
    assert u == run + t + Original(ps[1..]);
    assert u[..|run|] == run && u[|run|..|run| + |t|] == t && u[|run| + |t|..] == [] + Original(ps[1..]);
    NotInSlice(u, Nul, 0, |run|);
    NotInSlice(u, Nul, |run|, |run| + |t|);
    NotInSlice(u, Nul, |run| + |t|, |u|);
  }

}
