/** The fixed markup the converter writes: elements with inline `style`
    attributes, the settings interpolated (format-wechat.js:56-114, 187). */
module Markup {
  import opened Strings
  import opened Config

  /** ` style="d1 d2 ..."` for CSS declarations that each end in `;`. */
  function StyleAttr(decls: seq<string>): string {
    " style=\"" + Join(decls, " ") + "\""
  }

  /** The opening tag `<tag style="...">`. */
  function Styled(tag: string, decls: seq<string>): string {
    "<" + tag + StyleAttr(decls) + ">"
  }

  function HeadingDecls(size: string, margin: string): seq<string> {
    ["color:" + HeadingColor + ";", "font-size:" + size + ";", "font-weight:bold;", "margin:" + margin + ";", "line-height:1.4;"]
  }

  const H3Open: string := Styled("h3", HeadingDecls(H3Size, "1.2em 0 0.8em 0"))
  const H2Open: string := Styled("h2", HeadingDecls(H2Size, "1.5em 0 0.8em 0"))
  const H1Open: string := Styled("h1", HeadingDecls(H1Size, "0 0 1em 0"))

  /** A list item, flattened to a paragraph. */
  const ItemOpen: string :=
    Styled("p", ["color:" + TextColor + ";", "font-size:" + FontSize + ";", "line-height:" + LineHeight + ";",
                 "margin:0 0 0.8em 0;", "text-align:justify;"])

  /** The paragraph `wrapParagraph` writes. */
  const ParaOpen: string :=
    Styled("p", ["color:" + TextColor + ";", "font-size:" + FontSize + ";", "line-height:" + LineHeight + ";",
                 "margin:0 0 " + ParagraphMargin + " 0;", "text-align:justify;"])

  const QuoteOpen: string :=
    Styled("blockquote", ["border-left:4px solid " + HeadingColor + ";", "padding-left:1em;", "margin:1em 0;",
                          "color:#666;", "font-style:italic;"])

  const StrongOpen: string := Styled("strong", ["color:" + BoldColor + ";"])

  const HrTag: string := Styled("hr", ["border:none;", "border-top:1px solid #e0e0e0;", "margin:2em 0;"])

  /** `<a href="url" style="...">text</a>`. */
  function Anchor(text: string, url: string): string {
    "<a href=\"" + url + "\"" + AnchorStyle + ">" + text + "</a>"
  }

  const AnchorStyle: string := StyleAttr(["color:#3b82f6;", "text-decoration:none;"])

  const PreOpen: string :=
    Styled("pre", ["background:#f5f5f5;", "padding:1em;", "border-radius:4px;", "overflow-x:auto;",
                   "font-family:Consolas,Monaco,monospace;", "font-size:14px;", "line-height:1.5;", "margin:1em 0;"])
    + "<code>"
  const PreClose: string := "</code></pre>"

  const CodeOpen: string :=
    Styled("code", ["background:#f5f5f5;", "padding:0.2em 0.4em;", "border-radius:3px;",
                    "font-family:Consolas,Monaco,monospace;", "font-size:0.9em;"])
  const CodeClose: string := "</code>"

  /** A tag whose name and declarations are one line each is one line. */
  lemma StyledOneLine(tag: string, decls: seq<string>)
    requires OneLine(tag) && forall i :: 0 <= i < |decls| ==> OneLine(decls[i])
    ensures OneLine(Styled(tag, decls))
  {
    JoinOneLine(decls, " ");
    OneLineConcat("<", tag);
    OneLineConcat(" style=\"", Join(decls, " "));
    OneLineConcat(" style=\"" + Join(decls, " "), "\"");
    OneLineConcat("<" + tag, StyleAttr(decls));
    OneLineConcat("<" + tag + StyleAttr(decls), ">");
  }

  lemma HeadingOneLine(tag: string, size: string, margin: string)
    requires OneLine(tag) && OneLine(size) && OneLine(margin)
    ensures OneLine(Styled(tag, HeadingDecls(size, margin)))
  {
    OneLineConcat("color:", HeadingColor);
    OneLineConcat("color:" + HeadingColor, ";");
    OneLineConcat("font-size:", size);
    OneLineConcat("font-size:" + size, ";");
    OneLineConcat("margin:", margin);
    OneLineConcat("margin:" + margin, ";");
    StyledOneLine(tag, HeadingDecls(size, margin));
  }

  /** The heading tags hold no line break. */
  lemma HeadingTagsOneLine()
    ensures OneLine(H3Open) && OneLine(H2Open) && OneLine(H1Open)
  {
    HeadingOneLine("h3", H3Size, "1.2em 0 0.8em 0");
    HeadingOneLine("h2", H2Size, "1.5em 0 0.8em 0");
    HeadingOneLine("h1", H1Size, "0 0 1em 0");
  }
}
