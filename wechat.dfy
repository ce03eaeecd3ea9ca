/** `convertMarkdownToWechat` (format-wechat.js:34-173): the stages in the
    order of the converter, over one buffer that each stage replaces. */
module Wechat {
  import opened Strings
  import Protect
  import opened Rewrite
  import Reflow
  import Cleanup

  /** The text after protection, the rewrite passes and restoration. */
  function Restored(markdown: string): string {
    var (fenced, codeBlocks) := Protect.ExtractFenced(markdown);
    var (spanned, inlineCodes) := Protect.ExtractInline(fenced);
    var rewritten := Rewritten(spanned);
    var withBlocks := Protect.RestoreFrom(rewritten, Protect.CodeBlockKind, Protect.FenceRenders(codeBlocks), 0);
    Protect.RestoreFrom(withBlocks, Protect.InlineKind, Protect.InlineRenders(inlineCodes), 0)
  }

  /** The entries of the paragraph stage joined by blank lines. */
  function Joined(markdown: string): string {
    Join(Reflow.RenderAll(Reflow.Group(Split(Restored(markdown), '\n'))), "\n\n")
  }

  /** What `convertMarkdownToWechat(markdown)` returns. */
  function Converted(markdown: string): string {
    Cleanup.Cleaned(Joined(markdown))
  }

  /** The converter, stage by stage. */
  method ConvertMarkdownToWechat(markdown: string) returns (output: string)
    ensures output == Converted(markdown)
  {
    var html := markdown;

    // 1-2. protect fenced blocks, then inline spans
    var codeBlocks, inlineCodes;
    html, codeBlocks := Protect.ExtractFenced(html).0, Protect.ExtractFenced(html).1;
    html, inlineCodes := Protect.ExtractInline(html).0, Protect.ExtractInline(html).1;

    // 3-10. the rewrite passes
    ghost var spanned := html;
    html := Pass(Image, html);
    html := Pass(Line(H3), html);
    html := Pass(Line(H2), html);
    html := Pass(Line(H1), html);
    html := Pass(BoldItalicStars, html);
    html := Pass(BoldItalicUnders, html);
    html := Pass(BoldStars, html);
    html := Pass(BoldUnders, html);
    html := Pass(Italic('*'), html);
    html := Pass(Italic('_'), html);
    html := Pass(Link, html);
    html := Pass(Line(Bullet), html);
    html := Pass(Line(Numbered), html);
    html := Pass(Line(Quote), html);
    html := Pass(Rule, html);
    assert html == Rewritten(spanned);

    // 11-12. restore the code
    html := Protect.RestoreCodeBlocks(html, codeBlocks);
    html := Protect.RestoreInlineCodes(html, inlineCodes);

    // 13. paragraphs
    var result := Reflow.Reflow(Split(html, '\n'));
    output := Join(result, "\n\n");

    // 14-16. quotes, asterisks, heading breaks
    output := ReplaceChar(output, '「', "\"");
    output := ReplaceChar(output, '」', "\"");
    output := ReplaceChar(output, '*', []);
    output := Cleanup.OpenBreaks(output);
    output := Cleanup.CloseBreaks(output);
  }

  /** No `*`, `「` or `」` survives the converter, not even inside code. */
  lemma ConvertedHasNoMarks(markdown: string)
    ensures '*' !in Converted(markdown) && '「' !in Converted(markdown) && '」' !in Converted(markdown)
  {
    Cleanup.CleanedHasNoMarks(Joined(markdown));
  }

  /** Every closing heading tag of the result is followed by a newline; every
      opening one is preceded by a newline when no opening tag holds a
      second `<`. */
  lemma ConvertedHeadingBreaks(markdown: string)
    ensures Cleanup.NewlineAfter(Converted(markdown))
    ensures Cleanup.LoneOpen(Cleanup.Unmarked(Joined(markdown))) ==> Cleanup.NewlineBefore(Converted(markdown), None)
  {
    Cleanup.CleanedHeadingBreaks(Joined(markdown));
  }

  /** The entries joined into the result are never empty, and they hold the
      non-blank lines of the restored text, trimmed, each once and in order. */
  lemma ConvertedEntries(markdown: string)
    ensures var g := Reflow.Group(Split(Restored(markdown), '\n'));
            Reflow.Flatten(g) == Reflow.Kept(Split(Restored(markdown), '\n'))
            && forall i :: 0 <= i < |Reflow.RenderAll(g)| ==> Reflow.RenderAll(g)[i] != []
  {
    Reflow.GroupKeepsLines(Split(Restored(markdown), '\n'));
    Reflow.NoEmptyEntry(Split(Restored(markdown), '\n'));
  }
}
