# WeChat article formatter, modelled in Dafny

`format-wechat.js` turns a Markdown article into HTML for a WeChat official
account. Every element of that HTML carries its own inline `style`
attribute. The script also has a Markdown tidier, `formatMarkdown`, and a
preview page. The page splits the converted HTML into a title and a body and
shows counts computed from the raw Markdown. This project models those
text transformations and proves what they do:

- **`strings.dfy` (`Strings`)**: the JavaScript string operations the script
  relies on. These are `trim`, with the full ECMAScript whitespace set;
  `indexOf`; `split`; `join`; a global replace of one character; and decimal
  `String(n)`.
- **`config.dfy` and `markup.dfy` (`Config`, `Markup`)**: the `CONFIG`
  settings and the fixed tags written with them.
- **`protect.dfy` (`Protect`)**: how code is protected before the rewrite
  passes and restored after them.
  - Fenced blocks are taken out first, then inline spans. Each becomes a
    `\0KIND<i>\0` placeholder, and its code is pushed onto a list.
  - On restoration, the first occurrence of placeholder `i` is replaced, for
    i = 0, 1, … in order. The replacement follows JavaScript's rules for a
    replacement string, so `$$`, `$&`, `` $` `` and `$'` in it are expanded.
- **`restore.dfy` (`Restore`)**: both protections followed by both
  restorations, taken together. The two scans cut the Markdown into
  characters that stay, fenced blocks and inline spans. Restoring code blocks
  first and inline spans second puts each rendering back where its code was
  taken from.
- **`escape.dfy` (`Escape`)**: `escapeHtml`, exactly as the script chains its
  five replacements.
- **`rewrite.dfy` (`Rewrite`)**: the regular-expression passes, from images
  to horizontal rules. Each pass is a scanner over the text. It carries the
  character before the current position, which `^` and the lookbehind of the
  italic patterns need.
- **`reflow.dfy` (`Reflow`)**: the paragraph loop and `wrapParagraph`.
- **`cleanup.dfy` (`Cleanup`)**: the last passes.
  - The corner brackets `「` and `」` become `"`.
  - Every `*` is removed.
  - A newline is added before each opening and after each closing heading
    tag of levels 1 to 3.
- **`wechat.dfy` (`Wechat`)**: `convertMarkdownToWechat`, stage by stage.
- **`normalize.dfy` (`Normalize`)**: `formatMarkdown`.
- **`stats.dfy` (`Stats`)**: two parts of `wrapFullHtml`.
  - The title split takes the first `<h1 …>…</h1>` element as the title and
    the rest, trimmed, as the body.
  - The counts are taken over the Markdown with its markers stripped.

Where the source updates a buffer step by step, the model does the same. The
restoration loops, the paragraph loop and the `formatMarkdown` line loop are
methods with a loop, each proved against a fold function. The converter is a
method that reassigns its buffer stage by stage, proved against the
composition of the stages. The regex passes, `escapeHtml`, `wrapParagraph` and
the statistics are pure functions.

The model keeps two behaviours of the script as they are:

- **Code loses its asterisks.** The global `*` removal runs after code has
  been restored, so the asterisks inside code are removed too.
- **`$` in code is expanded.** The rendered code is passed to `replace` as a
  replacement string, and `escapeHtml` does not escape `$`. The model
  implements that expansion (`Protect.Expand`) instead of excluding `$`.

## Model

| member | source | states |
|---|---|---|
| Strings.TrimShape | format-wechat.js:122 | `trim` removes a whitespace prefix and a whitespace suffix, and keeps everything between them |
| Strings.TrimEmptyIff | format-wechat.js:122-125 | a line trims to the empty string exactly when it is all whitespace |
| Strings.TrimIdempotent | format-wechat.js:122 | trimming twice is the same as trimming once |
| Strings.IndexOf | format-wechat.js:108 | the index found is an occurrence of the pattern, and no occurrence starts earlier |
| Strings.Split | format-wechat.js:118 | `split` gives at least one piece, and no piece holds the separator |
| Strings.JoinSplit | format-wechat.js:118 | joining the pieces of a split with the same separator gives the text back |
| Strings.SplitJoin | format-wechat.js:159 | splitting joined pieces that hold no separator gives the pieces back |
| Strings.ReplaceCharChars | format-wechat.js:162-166 | after a global replace of `c` by a text without `c`, no `c` is left, and each remaining character comes from the input or the replacement |
| Strings.NatToString | format-wechat.js:41 | the index in a placeholder is a non-empty string of decimal digits |
| Markup.HeadingTagsOneLine | format-wechat.js:56-64 | the three styled heading tags hold no line break |
| Escape.EscapeHtmlIsPerChar | format-wechat.js:193-200 | because `&` is replaced first, the five replacements in a row give the same result as replacing each character once by its entity |
| Escape.EscapedHasNoMarkup | format-wechat.js:193-200 | the escaped text contains no `<`, `>`, `"` or `'` |
| Escape.UnescapeEscape | format-wechat.js:193-200 | decoding the five entities of the escaped text gives the input back exactly |
| Protect.Token | format-wechat.js:41 | a placeholder begins with NUL and is at least two characters long |
| Protect.FencedOriginal | format-wechat.js:39-42 | the fenced-block scan divides the text into pieces; nothing is lost and the order is kept |
| Protect.FencedAreFences | format-wechat.js:39-42 | each region taken is a whole fenced block: three backticks, then the nearest later three backticks (lazy match) |
| Protect.InlineOriginal | format-wechat.js:46-49 | the inline-code scan divides the text into pieces; nothing is lost and the order is kept |
| Protect.InlineAreSpans | format-wechat.js:46-49 | each region taken is a backtick, code that is not empty and holds no backtick, and a backtick; the code pushed is the part between the backticks |
| Protect.WordRun | format-wechat.js:105 | `\w*` takes the longest run of word characters |
| Protect.RenderWholeFence | format-wechat.js:105-107 | an extracted block renders to one `<pre>` element. It holds the escaped, trimmed content between the language word (with one optional newline) and the closing backticks |
| Protect.ExpandLiteral | format-wechat.js:108-114 | a replacement string without `$` is inserted as it is |
| Protect.ExpandForms | format-wechat.js:108-114 | in a replacement string, `$$` gives one `$`, `$&` the matched text, `` $` `` the text before the match and `$'` the text after it |
| Protect.RestoreExpands | format-wechat.js:108-114 | restoring a placeholder by a rendering that holds one `$` form expands it. `$$` leaves one dollar, `$&` puts the placeholder back, `` $` `` inserts the text before it and `$'` the text after it |
| Protect.RestoreCodeBlocks | format-wechat.js:104-109 | the `forEach` loop replaces the first occurrence of placeholder i by block i's rendering, for i in increasing order |
| Protect.RestoreInlineCodes | format-wechat.js:112-115 | the `forEach` loop replaces the first occurrence of placeholder i by span i's rendering, for i in increasing order |
| Protect.IndexOfAfterNulFree | format-wechat.js:108 | a placeholder is found where it stands when no NUL comes before it |
| Protect.RestoreProtected | format-wechat.js:38-49 | after protection and then restoration, region i holds the i-th rendering, in the place the code was taken from (for text and renderings as stated under Left out) |
| Protect.CrossKindCollision | format-wechat.js:41-48 | take an inline placeholder, then the text `CODEBLOCK<j>`, then block j's placeholder. Block j's placeholder is found one character early; the block is put there, and the inline placeholder can no longer be found |
| Restore.CutBothKinds | format-wechat.js:37-49 | the two scans cut a NUL-free Markdown into parts that give the Markdown back. Every block part is a whole fence and every span part is backtick, code, backtick. The parts' codes are the `codeBlocks` and `inlineCodes` lists, and the protected text holds each placeholder in its part's place |
| Restore.RestoreBlocks | format-wechat.js:103-109 | the code-block loop from block `k` on replaces each remaining block placeholder by its rendering in place, and leaves the inline placeholders as they are |
| Restore.RestoreSpans | format-wechat.js:111-115 | the inline loop from span `k` on replaces each remaining inline placeholder by its rendering in place |
| Restore.RestoreBothKinds | format-wechat.js:37-115 | protecting both kinds and then restoring code blocks and inline spans gives the Markdown with each block and each span replaced, in place, by its rendering (under the conditions stated under Left out) |
| Protect.KindsCollide | format-wechat.js:108 | the same overlap for any two placeholder kinds whose names begin with different letters |
| Rewrite.ScanNoMatch | format-wechat.js:51-101 | a global replace whose pattern matches nowhere leaves the text unchanged |
| Rewrite.PassWithoutLead | format-wechat.js:51-101 | a text holding none of the characters a pattern's match can begin with is left unchanged |
| Rewrite.ImageWhole | format-wechat.js:52 | `![alt](url)` is deleted |
| Rewrite.LineWhole | format-wechat.js:55-97 | a line that opens with a line rule's prefix and holds more than it becomes that rule's element around the trimmed rest |
| Rewrite.LineSkips | format-wechat.js:55-97 | a one-line text that does not open with the rule's prefix is left unchanged |
| Rewrite.LineSkipsMidLine | format-wechat.js:55-97 | a line-anchored pass finds no match inside a line |
| Rewrite.ScanSplit | format-wechat.js:51-101 | where no match starting in `a` looks past it, a pass over `a + b` is the pass over `a` followed by the pass over `b`; the second sees the last character of `a` before it |
| Rewrite.PassParts | format-wechat.js:55-101 | a line-anchored pass (a heading, quote, list or rule pattern) over whole lines `m` between the rest of the text is the pass over each part on its own |
| Rewrite.LineInText | format-wechat.js:55-97 | a prefixed line anywhere in a text becomes the rule's element around its trimmed rest, in place; the text before and after is passed on its own |
| Rewrite.RuleInText | format-wechat.js:100-101 | a line of three or more rule marks anywhere in a text becomes the styled `<hr>` in place |
| Rewrite.HeadingLevel3 | format-wechat.js:55-65 | a `### x` line anywhere in a text becomes an `<h3>` of the trimmed `x` in place. The `##` and `#` passes then leave that heading unchanged, and the text around it goes through the three passes on its own |
| Rewrite.HeadingLevel2 | format-wechat.js:55-65 | a `## x` line anywhere in a text is skipped by the `###` pass and becomes an `<h2>` in place. The `#` pass leaves it, and the text around it goes through the three passes on its own |
| Rewrite.HeadingLevel1 | format-wechat.js:55-65 | a `# x` line anywhere in a text is skipped by the `###` and `##` passes and becomes an `<h1>` in place. The text around it goes through the three passes on its own |
| Rewrite.HeadingOneLine | format-wechat.js:55-65 | a heading made from one line is one line and begins with `<` |
| Rewrite.HeadingSkips | format-wechat.js:55-65 | a heading made from one line is left unchanged by every heading pass |
| Rewrite.DelimWhole | format-wechat.js:68-73 | `***x***`, `___x___`, `**x**` and `__x__`, where `x` is one line without the delimiter's character, become the `<strong>` markup around `x` |
| Rewrite.ItalicWhole | format-wechat.js:77-78 | `*x*` and `_x_`, where `x` is not empty and holds neither the mark nor a newline, become `<em>x</em>` |
| Rewrite.ItalicLone | format-wechat.js:77-78 | a text with at most one mark is left unchanged by that mark's italic pass |
| Rewrite.ItalicLeavesProduct | format-wechat.js:77 | `2 * 3 = 6` passes through the `*` italic pass unchanged |
| Rewrite.LinkWhole | format-wechat.js:81-82 | `[text](url)` becomes `<a href="url" …>text</a>` |
| Rewrite.RuleWhole | format-wechat.js:100-101 | a line of three or more of `-`, `*`, `_` becomes the styled `<hr>` |
| Reflow.StartsWithAny | format-wechat.js:183-186 | the prefix test succeeds exactly when the text starts with one of the listed tags |
| Reflow.WrapParagraph | format-wechat.js:178-188 | an all-whitespace text gives `""`. A text whose trimmed form starts with a listed block tag is returned unchanged. Anything else is the styled `<p>`, then the untrimmed text, then `</p>` |
| Reflow.WrapParagraphNonEmpty | format-wechat.js:179-187 | a text that is not blank never wraps to the empty string |
| Reflow.Reflow | format-wechat.js:118-157 | the paragraph loop emits the rendered entries of the left fold `Group`, in order |
| Reflow.GroupKeepsLines | format-wechat.js:121-157 | the lines in the entries are exactly the non-blank lines of the input, trimmed, each once and in order |
| Reflow.GroupWellFormed | format-wechat.js:121-157 | every entry is either a trimmed block line, or a non-empty paragraph of trimmed, non-blank lines that are not block lines |
| Reflow.NoEmptyEntry | format-wechat.js:118-157 | no entry of the result is the empty string |
| Reflow.BlankSeparates | format-wechat.js:124-130 | a blank line ends the pending paragraph; the lines on each side are grouped independently |
| Reflow.BlockSeparates | format-wechat.js:133-148 | a block line ends the pending paragraph and becomes an entry of its own, trimmed |
| Reflow.RunIsOneParagraph | format-wechat.js:146-157 | a run of lines that are neither blank nor block lines becomes one paragraph of the trimmed lines, flushed at the end |
| Cleanup.OpenAt | format-wechat.js:169 | an opening tag that is found begins with `<`, ends with `>` and is at least four characters long |
| Cleanup.CleanedHasNoMarks | format-wechat.js:162-170 | the result of the last passes holds no `*`, `「` or `」`, whatever the input |
| Cleanup.CloseBreaksFollow | format-wechat.js:170 | every closing heading tag of the closing pass's result is followed directly by a newline |
| Cleanup.CloseFound | format-wechat.js:170 | a closing tag at the start of the result was a closing tag of the input |
| Cleanup.OpenBreaksFirst | format-wechat.js:169 | the opening pass's result never begins with an opening tag |
| Cleanup.OpenBreaksPrecede | format-wechat.js:169 | every opening tag of the opening pass's result comes directly after a newline, provided no opening tag of the input holds a second `<` |
| Cleanup.CloseKeepsNewlineBefore | format-wechat.js:169-170 | the closing pass keeps the newline before every opening tag |
| Cleanup.CleanedHeadingBreaks | format-wechat.js:162-170 | every closing heading tag is followed by a newline. Every opening heading tag is preceded by one, when no opening tag holds a second `<` |
| Cleanup.NestedOpenMissed | format-wechat.js:169 | `<h1 <h2>` gets a newline only before `<h1`; the inner `<h2>` it holds gets none |
| Wechat.ConvertMarkdownToWechat | format-wechat.js:34-173 | the converter's stages, in the script's order over one buffer, compute `Converted(markdown)` |
| Wechat.ConvertedHasNoMarks | format-wechat.js:161-166 | the converter's output holds no `*`, `「` or `」`, not even inside restored code |
| Wechat.ConvertedHeadingBreaks | format-wechat.js:168-170 | in the output, every `</h1>`, `</h2>`, `</h3>` is followed by a newline. Every opening heading tag is preceded by one, when no opening tag holds a second `<` |
| Wechat.ConvertedEntries | format-wechat.js:118-159 | the entries joined into the output are never empty, and they hold the non-blank lines of the restored text, trimmed, each once and in order |
| Normalize.LfPlain | format-wechat.js:391 | a text without carriage returns is left unchanged |
| Normalize.LfSplit | format-wechat.js:391 | each `\r\n` becomes `\n`, and the text on each side is converted independently |
| Normalize.SpaceBeforeAddsNewlines | format-wechat.js:394 | the pass that adds a blank line before headings only adds newlines |
| Normalize.SpaceAfterAddsNewlines | format-wechat.js:395 | the pass that adds a blank line after headings only adds newlines |
| Normalize.SpaceBeforeHeading | format-wechat.js:394 | `a\n# b` becomes `a\n\n# b` |
| Normalize.SpaceAfterHeading | format-wechat.js:395 | `# a\nb` becomes `# a\n\nb` |
| Normalize.AfterAtHeading | format-wechat.js:395 | for a run `h` of one to six `#`, a non-empty one-line text `x` and a character `c` that is neither `\n` nor `#`, the pattern matches `h x\n` and `c` at the start of a text, whatever follows. The match is `|h| + |x| + 3` characters long, and its replacement puts a blank line before `c` |
| Normalize.SpaceAfterHeadingLine | format-wechat.js:395 | the pass over a text that starts with such a heading line gives the heading line, a blank line and `c`, then the pass over the rest |
| Normalize.AfterAtBreak | format-wechat.js:395 | a match starting in a text that ends a line does not look past it when the next text is empty or starts with `#`: `.+` stops at the line terminator and `[^\n#]` refuses the `#` |
| Normalize.SpaceAfterSplit | format-wechat.js:395 | the pass over `a + t` is the pass over `a` followed by the pass over `t`, when `a` is empty or ends in a line terminator and `t` is empty or starts with `#` |
| Normalize.SpaceAfterInText | format-wechat.js:395 | a heading line that starts a line anywhere in a text, followed by a line starting with neither `\n` nor `#`, gets a blank line after it in place. The text before it and the text after `c` go through the pass on their own |
| Normalize.SpaceAfterMissesHashLine | format-wechat.js:395 | `# a\n#b` is left unchanged: a next line that starts with `#` gets no blank line, even when it is no heading |
| Normalize.SpaceBeforeNoHash | format-wechat.js:394 | the pass that adds a blank line before headings leaves a text without `#` unchanged |
| Normalize.SpaceAfterNoHash | format-wechat.js:395 | the pass that adds a blank line after headings leaves a text without `#` unchanged |
| Normalize.FormatLines | format-wechat.js:398-427 | the line loop, with its `prevLineEmpty` flag, computes the left fold `FoldLines` |
| Normalize.FormatMarkdown | format-wechat.js:387-436 | the method computes `Formatted(markdown)`: CRLF unified, the heading passes, the line loop, then trim and one final newline |
| Normalize.FoldLinesOk | format-wechat.js:403-427 | the kept lines hold no line break and there are never two empty lines in a row. Every heading but a first one follows an empty line, and `prevLineEmpty` holds exactly when the last kept line is empty or none is kept |
| Normalize.FoldLinesKeeps | format-wechat.js:403-427 | the loop drops blank lines and adds only empty ones. Every line that is not blank is kept unchanged, in order |
| Normalize.FormattedShape | format-wechat.js:398-434 | the output ends in `\n` after a text with no whitespace at either end. No two lines in a row are blank, and every heading line but a first one comes after an empty line |
| Normalize.FormattedEndsOnce | format-wechat.js:430-434 | the output ends in one newline, never in a blank line |
| Normalize.LfLastCr | format-wechat.js:391 | a carriage return at the end of a text without any other carriage return is kept |
| Normalize.FirstLf | format-wechat.js:391 | for one-line words `x` and `y`, `x\r\r\ny` becomes `x\r\ny`: the single pass of `/\r\n/g` converts only the last two characters of `\r\r\n` |
| Normalize.FoldTwo | format-wechat.js:403-427 | two lines whose trims are not empty and do not start with `#` are kept as they are, with no empty line added, and `prevLineEmpty` ends false |
| Normalize.FirstLoop | format-wechat.js:403-427 | the loop keeps the line `x\r` with its carriage return: it tests the trimmed line but pushes the line itself |
| Normalize.FirstFormat | format-wechat.js:387-436 | for one-line words `x` and `y` (no whitespace at either end, no `\r`, `\n` or `#`), formatting `x\r\r\ny` gives `x\r\ny\n` |
| Normalize.SecondFormat | format-wechat.js:387-436 | formatting `x\r\ny\n` gives `x\ny\n` |
| Normalize.FormatTwiceDiffers | format-wechat.js:387-436 | formatting is not idempotent: for all such `x` and `y`, formatting the output of `x\r\r\ny` again changes it |
| Normalize.FormatTwiceExample | format-wechat.js:387-436 | formatting `a\r\r\nb` twice gives a different text from formatting it once |
| Stats.CloseAtShortest | format-wechat.js:207 | the lazy `(.*?)` stops at the first `</h1>` and never crosses a line terminator |
| Stats.AttrsEndFirst | format-wechat.js:207 | the attributes `[^>]*` hold no `>` |
| Stats.FirstTitleLeftmost | format-wechat.js:207 | the title found is a title element and none starts earlier; when none is found, none starts anywhere |
| Stats.TitleFirstOccurrence | format-wechat.js:207-209 | the matched title's first occurrence is where it was matched, so the string `replace` removes that very element |
| Stats.SplitTitleMissing | format-wechat.js:208-209 | without a title element, the title is empty and the body is the content, untrimmed |
| Stats.SplitTitleFound | format-wechat.js:207-209 | the title is the leftmost `<h1…>…</h1>` element, and the body is the remaining text around it, trimmed |
| Stats.TitleExample | format-wechat.js:207-209 | `<h1 a>T</h1>\nx` splits into the title `<h1 a>T</h1>` and the body `x` |
| Stats.StripScan | format-wechat.js:213-219 | no strip pass makes the text longer |
| Stats.StripWithoutLead | format-wechat.js:213-219 | a text holding none of the characters a strip pass's match can begin with is left unchanged |
| Stats.HashesAtLineStart | format-wechat.js:213 | at a line start, a run of `#` and all the whitespace after it, line breaks included, are removed |
| Stats.AnchoredMidLine | format-wechat.js:213-218 | the heading and ordinal strip passes remove nothing inside a line |
| Stats.BoldStripped | format-wechat.js:214 | `**x**`, for a one-line `x` without `*`, becomes `x` |
| Stats.EmStripped | format-wechat.js:215 | `*x*`, for a one-line `x` without `*`, becomes `x` |
| Stats.LinkTextStripped | format-wechat.js:216 | `[t](u)` becomes `t` |
| Stats.MarkerAnywhere | format-wechat.js:217 | a `-`, `*` or `+` followed by a space is removed wherever it stands, not only at a line start |
| Stats.OrdinalAtLineStart | format-wechat.js:218 | at a line start, digits followed by `. ` are removed |
| Stats.PlainText | format-wechat.js:212-220 | the plain text is never longer than the Markdown |
| Stats.NewlinesMerged | format-wechat.js:219 | merging newline runs leaves no two line feeds in a row, and keeps the first character |
| Stats.PlainTextNoBlankLine | format-wechat.js:212-220 | the plain text holds no two line feeds in a row |
| Stats.HashesExample | format-wechat.js:213 | `# a` loses its heading marker and becomes `a` |
| Stats.RemoveWs | format-wechat.js:223 | the text with its `\s` removed holds no whitespace |
| Stats.RemoveWsLength | format-wechat.js:223 | removing whitespace removes exactly the whitespace characters |
| Stats.WordsAreRunStarts | format-wechat.js:227 | the number of `[a-zA-Z]+` matches is the number of maximal runs of Latin letters |
| Stats.WordsNotSpace | format-wechat.js:225-228 | ideographs plus Latin runs are at most the characters that are not whitespace |
| Stats.CountBounds | format-wechat.js:222-228 | `charCountNoSpace` is `charCount` minus the whitespace characters. `wordCount` is the U+4E00–U+9FA5 ideographs plus the maximal `[a-zA-Z]` runs. And wordCount ≤ charCountNoSpace ≤ charCount ≤ the Markdown's length |

## Left out

- `main` (format-wechat.js:439-511) is left out: it is argument handling, file I/O, console output and `process.exit`.
- The preview page template (format-wechat.js:230-381) is left out: it is static markup and CSS, plus a browser script using the DOM, `execCommand` and `setTimeout`. Only the title split and the counts are modelled.
- The loop flags `isList`, `isBlockquote`, `isCodeBlock` and `prevLineIsListOrHeading` in `formatMarkdown` (format-wechat.js:401, 408-410, 417, 425) are left out: the script computes them and never reads them.
- Lengths are counted in Dafny characters, which are Unicode scalar values. JavaScript counts UTF-16 code units, so a character outside the Basic Multilingual Plane counts twice in `charCount` there and once here.
- `CONFIG` (format-wechat.js:12-29) is a set of constant strings interpolated into the markup. They are not read from anywhere else.
- Regular expressions are not modelled in general. Each pattern is a hand-written matcher of what that pattern accepts: lazy groups take the shortest match, `.` stops at the four JavaScript line terminators, and `^` with the `m` flag also matches after them.
- The `codeBlocks` and `inlineCodes` pushes inside the `replace` callbacks (format-wechat.js:39-49) are modelled as functions. `Protect.ExtractFenced` and `Protect.ExtractInline` return the protected text together with the list the callbacks would have built.
- The title is removed with `ReplaceFirst` and an empty replacement. That is what `content.replace(titleMatch[0], '')` does: a plain-string pattern, first occurrence only.
- Protect.RestoreProtected: holds only when the protected text contains no NUL, and each rendering contains neither NUL nor `$`. A NUL in the input can fake a placeholder. `Protect.CrossKindCollision` shows that overlapping placeholders mislead the search even without a NUL in the input. A `$` in a rendering is expanded (`Protect.Expand`).
- Restore.RestoreBothKinds: requires that no inline span is directly followed by the letter `C`. The collision only needs such a span to be followed by `CODEBLOCK<j>` and a further placeholder, so the condition is stronger than needed. The renderings must hold no `$`, and the regions of the inline scan no NUL. The theorem relates protection directly to restoration; the rewrite passes that run in between are not part of it.
- Rewrite.DelimWhole, Rewrite.ItalicWhole, Rewrite.LinkWhole, Rewrite.ImageWhole: each is proved for a match that makes up the whole text. Only the line-anchored passes (headings, quotes, lists, rules) are also proved for a match inside a larger text, through `Rewrite.PassParts`.
- Cleanup.CleanedHeadingBreaks: the newline before opening heading tags is proved only when no opening tag holds a second `<`. `Cleanup.NestedOpenMissed` shows the input `<h1 <h2>`, whose inner tag gets no newline. The newline after closing tags is proved for every input.
- Wechat.ConvertedHeadingBreaks: the newline before opening heading tags has the same condition as in `Cleanup.CleanedHeadingBreaks`, for the same reason.
- Normalize.FormatMarkdown: idempotence is not proved, because the script is not idempotent. `/\r\n/g` makes one pass, so `\r\r\n` keeps its first `\r`, and the loop pushes each line untrimmed, so that `\r` survives the loop. `a\r\r\nb` gives `a\r\nb\n`, and a second run gives `a\nb\n` (`Normalize.FormatTwiceDiffers`).
- Normalize.SpaceAfterInText: proved for a heading that starts a line. The pattern has no `^`, so it also matches a `#` run inside a line; the model computes those matches, but no lemma describes them.
