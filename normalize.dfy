/** `formatMarkdown` (format-wechat.js:387-436): line endings are unified,
    blank lines are put around headings, runs of blank lines are collapsed by
    a line loop, and the document is trimmed and ended with one newline. */
module Normalize {
  import opened Strings
  import Rewrite

  // ---------------------------------------------------------------------
  // 1. line endings: /\r\n/g -> '\n'

  function Lf(s: string): string
    decreases |s|
  {
    if s == [] then []
    else if |s| >= 2 && s[0] == '\r' && s[1] == '\n' then "\n" + Lf(s[2..])
    else [s[0]] + Lf(s[1..])
  }

  /** A text without carriage returns is left as it is. */
  lemma {:induction false} LfPlain(s: string)
    requires '\r' !in s
    ensures Lf(s) == s
    decreases |s|
  {
    if s != [] {
      assert '\r' !in s[1..] by { assert forall k :: 0 <= k < |s[1..]| ==> s[1..][k] == s[k + 1]; }
      LfPlain(s[1..]);
    }
  }

  /** Each `\r\n` becomes `\n` and the text on both sides is treated apart:
      two occurrences cannot overlap. */
  lemma {:induction false} LfSplit(a: string, b: string)
    ensures Lf(a + "\r\n" + b) == Lf(a) + "\n" + Lf(b)
    decreases |a|, 1
  {
    if a == [] {
      var s := a + "\r\n" + b;
      assert s == "\r\n" + b && s[2..] == b;
    } else if |a| >= 2 && a[0] == '\r' && a[1] == '\n' {
      LfPairRest(a, b);
      LfSplitRest(a, b, 2, "\n");
    } else {
      LfCharRest(a, b);
      LfSplitRest(a, b, 1, [a[0]]);
    }
  }

  lemma {:induction false} LfSplitRest(a: string, b: string, n: nat, head: string)
    requires 1 <= n <= |a| && Lf(a) == head + Lf(a[n..])
    requires Lf(a + "\r\n" + b) == head + Lf(a[n..] + "\r\n" + b)
    ensures Lf(a + "\r\n" + b) == Lf(a) + "\n" + Lf(b)
    decreases |a|, 0
  {
    LfSplit(a[n..], b);
    Rewrite.ConcatAssoc(head, Lf(a[n..]), "\n" + Lf(b));
  }

  lemma LfPairRest(a: string, b: string)
    requires |a| >= 2 && a[0] == '\r' && a[1] == '\n'
    ensures Lf(a) == "\n" + Lf(a[2..])
    ensures Lf(a + "\r\n" + b) == "\n" + Lf(a[2..] + "\r\n" + b)
  {
    var s := a + "\r\n" + b;
    assert s[0] == '\r' && s[1] == '\n' && s[2..] == a[2..] + "\r\n" + b;
  }

  lemma LfCharRest(a: string, b: string)
    requires a != [] && !(|a| >= 2 && a[0] == '\r' && a[1] == '\n')
    ensures Lf(a) == [a[0]] + Lf(a[1..])
    ensures Lf(a + "\r\n" + b) == [a[0]] + Lf(a[1..] + "\r\n" + b)
  {
    var s := a + "\r\n" + b;
    assert s[0] == a[0] && s[1] == (if |a| >= 2 then a[1] else '\r');
    assert s[1..] == a[1..] + "\r\n" + b;
  }

  // ---------------------------------------------------------------------
  // 2. blank lines around headings

  predicate IsHash(c: char) { c == '#' }

  /** `([^\n])\n(#{1,6} )` at the start of `s`: the length of the match and
      `$1\n\n$2`. */
  function BeforeAt(s: string): (r: Option<(nat, string)>)
    ensures r.Some? ==> 1 <= r.value.0 <= |s|
  {
    if |s| >= 2 && s[0] != '\n' && s[1] == '\n' then
      var h := Run(s[2..], IsHash);
      if 1 <= h <= 6 && 2 + h < |s| && s[2 + h] == ' '
      then Some((h + 3, [s[0]] + "\n\n" + s[2..h + 3]))
      else None
    else None
  }

  /** `(#{1,6} .+)\n([^\n#])` at the start of `s`: the length of the match and
      `$1\n\n$2`. `.+` takes the rest of the line, which must end in `\n`. */
  function AfterAt(s: string): (r: Option<(nat, string)>)
    ensures r.Some? ==> 1 <= r.value.0 <= |s|
  {
    var h := Run(s, IsHash);
    if 1 <= h <= 6 && h < |s| && s[h] == ' '
    then AfterLine(s, h, Run(s[h + 1..], NotLineTerm))
    else None
  }

  /** The rest of the after-heading match, once `#{1,6} ` has taken `h + 1`
      characters and `.+` has taken `n` more. */
  function AfterLine(s: string, h: nat, n: nat): (r: Option<(nat, string)>)
    requires h + 1 + n <= |s|
    ensures r.Some? ==> 1 <= r.value.0 <= |s|
  {
    var e := h + 1 + n;
    if n >= 1 && e + 1 < |s| && s[e] == '\n' && s[e + 1] != '\n' && s[e + 1] != '#'
    then Some((e + 2, s[..e] + "\n\n" + [s[e + 1]]))
    else None
  }

  /** `s.replace(/([^\n])\n(#{1,6} )/g, '$1\n\n$2')`. */
  function SpaceBefore(s: string): string
    decreases |s|
  {
    if s == [] then []
    else match BeforeAt(s)
      case Some((n, rep)) => rep + SpaceBefore(s[n..])
      case None => [s[0]] + SpaceBefore(s[1..])
  }

  /** `s.replace(/(#{1,6} .+)\n([^\n#])/g, '$1\n\n$2')`. */
  function SpaceAfter(s: string): string
    decreases |s|, 1
  {
    if s == [] then [] else AfterStep(s, AfterAt(s))
  }

  /** One step of the after-heading pass, `m` being the match at the start of `s`. */
  function AfterStep(s: string, m: Option<(nat, string)>): string
    requires s != [] && (m.Some? ==> 1 <= m.value.0 <= |s|)
    decreases |s|, 0
  {
    match m
      case Some((n, rep)) => rep + SpaceAfter(s[n..])
      case None => [s[0]] + SpaceAfter(s[1..])
  }

  /** `s` without its newlines. */
  function NoNl(s: string): string {
    ReplaceChar(s, '\n', [])
  }

  lemma NoNlStep(rep: string, s: string, n: nat, t: string)
    requires n <= |s| && NoNl(rep) == NoNl(s[..n]) && NoNl(t) == NoNl(s[n..])
    ensures NoNl(rep + t) == NoNl(s)
  {
    ReplaceCharConcat(rep, t, '\n', []);
    ReplaceCharConcat(s[..n], s[n..], '\n', []);
    assert s[..n] + s[n..] == s;
  }

  /** A match of the before-heading pattern differs from its replacement
      only by the added newline. */
  lemma BeforeAtNewline(s: string)
    requires BeforeAt(s).Some?
    ensures NoNl(BeforeAt(s).value.1) == NoNl(s[..BeforeAt(s).value.0])
  {
    var (n, rep) := BeforeAt(s).value;
    var hs := s[2..n];
    assert rep == [s[0]] + "\n" + ("\n" + hs);
    assert s[..n] == [s[0]] + ("\n" + hs);
    ReplaceCharConcat([s[0]] + "\n", "\n" + hs, '\n', []);
    ReplaceCharConcat([s[0]], "\n", '\n', []);
    ReplaceCharConcat([s[0]], "\n" + hs, '\n', []);
    ReplaceCharConcat("\n", hs, '\n', []);
  }

  lemma AfterAtNewline(s: string)
    requires AfterAt(s).Some?
    ensures NoNl(AfterAt(s).value.1) == NoNl(s[..AfterAt(s).value.0])
  {
    var (n, rep) := AfterAt(s).value;
    var e := n - 2;
    var line, c := s[..e], [s[e + 1]];
    assert rep == line + "\n" + ("\n" + c);
    assert s[..n] == line + ("\n" + c);
    ReplaceCharConcat(line + "\n", "\n" + c, '\n', []);
    ReplaceCharConcat(line, "\n", '\n', []);
    ReplaceCharConcat(line, "\n" + c, '\n', []);
    ReplaceCharConcat("\n", c, '\n', []);
  }

  /** The before-heading pass adds newlines and nothing else. */
  lemma {:induction false} SpaceBeforeAddsNewlines(s: string)
    ensures NoNl(SpaceBefore(s)) == NoNl(s)
    decreases |s|
  {
    if s != [] {
      match BeforeAt(s)
        case Some((n, rep)) =>
          SpaceBeforeAddsNewlines(s[n..]);
          BeforeAtNewline(s);
          NoNlStep(rep, s, n, SpaceBefore(s[n..]));
        case None =>
          SpaceBeforeAddsNewlines(s[1..]);
          assert s[..1] == [s[0]];
          NoNlStep([s[0]], s, 1, SpaceBefore(s[1..]));
    }
  }

  /** The after-heading pass adds newlines and nothing else. */
  lemma {:induction false} SpaceAfterAddsNewlines(s: string)
    ensures NoNl(SpaceAfter(s)) == NoNl(s)
    decreases |s|
  {
    if s != [] {
      match AfterAt(s)
        case Some((n, rep)) =>
          SpaceAfterAddsNewlines(s[n..]);
          AfterAtNewline(s);
          NoNlStep(rep, s, n, SpaceAfter(s[n..]));
        case None =>
          SpaceAfterAddsNewlines(s[1..]);
          assert s[..1] == [s[0]];
          NoNlStep([s[0]], s, 1, SpaceAfter(s[1..]));
    }
  }

  /** A heading right after a line of text gets a blank line before it. */
  lemma SpaceBeforeHeading()
    ensures SpaceBefore("a\n# b") == "a\n\n# b"
  {
    var s := "a\n# b";
    assert s[2..] == "# b";
    assert s[2..][1..] == " b";
    assert Run(s[2..][1..], IsHash) == 0;
    assert Run(s[2..], IsHash) == 1;
    assert s[2..4] == "# ";
    assert s[0] != '\n' && s[1] == '\n' && s[3] == ' ';
    assert [s[0]] + "\n\n" + s[2..4] == "a\n\n# ";
    assert BeforeAt(s) == Some((4, "a\n\n# "));
    assert s[4..] == "b";
    assert SpaceBefore("b") == "b";
  }

  /** A line of text right after a heading gets a blank line before it. */
  lemma SpaceAfterHeading()
    ensures SpaceAfter("# a\nb") == "# a\n\nb"
  {
    var s := "# a\nb";
    assert s[1..] == " a\nb";
    assert Run(s[1..], IsHash) == 0;
    assert Run(s, IsHash) == 1;
    assert s[2..] == "a\nb";
    assert s[2..][1..] == "\nb";
    assert Run(s[2..][1..], NotLineTerm) == 0;
    assert Run(s[2..], NotLineTerm) == 1;
    assert s[..3] + "\n\n" + [s[4]] == "# a\n\nb";
    assert AfterAt(s) == Some((5, "# a\n\nb"));
    assert s[5..] == [];
  }

  /** A heading line followed by a character that is neither a newline nor
      `#` is matched up to that character, and a blank line is put between. */
  lemma {:induction false} AfterAtHeading(h: string, x: string, c: char, y: string)
    requires 1 <= |h| <= 6 && forall k :: 0 <= k < |h| ==> h[k] == '#'
    requires x != [] && OneLine(x) && c != '\n' && c != '#'
    ensures AfterAt(h + " " + x + "\n" + [c] + y) == Some((|h| + |x| + 3, h + " " + x + "\n\n" + [c]))
  {
    HeadingRuns(h, x, c, y);
    HeadingLineRest(h, x, c, y);
  }

  /** `#{1,6}` takes the hashes and `.+` the heading's text. */
  lemma HeadingRuns(h: string, x: string, c: char, y: string)
    requires forall k :: 0 <= k < |h| ==> h[k] == '#'
    requires OneLine(x)
    ensures var s := h + " " + x + "\n" + [c] + y;
      Run(s, IsHash) == |h| && s[|h|] == ' ' && Run(s[|h| + 1..], NotLineTerm) == |x|
  {
    var s := h + " " + x + "\n" + [c] + y;
    forall k | 0 <= k < |h| ensures IsHash(s[k]) {
      assert s[k] == h[k];
    }
    assert s[|h|] == ' ';
    RunIs(s, IsHash, |h|);
    var u := s[|h| + 1..];
    assert u == x + "\n" + [c] + y;
    forall k | 0 <= k < |x| ensures NotLineTerm(u[k]) {
      assert u[k] == x[k];
    }
    assert u[|x|] == '\n';
    RunIs(u, NotLineTerm, |x|);
  }

  /** After the heading's text come `\n` and `c`, which `[^\n#]` takes. */
  lemma HeadingLineRest(h: string, x: string, c: char, y: string)
    requires x != [] && c != '\n' && c != '#'
    ensures AfterLine(h + " " + x + "\n" + [c] + y, |h|, |x|) == Some((|h| + |x| + 3, h + " " + x + "\n\n" + [c]))
  {
    var s := h + " " + x + "\n" + [c] + y;
    var e := |h| + 1 + |x|;
    assert s[e] == '\n' && s[e + 1] == c;
    assert s[..e] == h + " " + x;
  }

  /** No match starting in a text that ends a line runs past its end, when
      the text after it starts with `#`: `.+` stops at the line terminator,
      and `[^\n#]` refuses the `#`. */
  lemma {:induction false} AfterAtBreak(u: string, v: string)
    requires u != [] && IsLineTerm(u[|u| - 1]) && (v == [] || v[0] == '#')
    ensures AfterAt(u + v) == AfterAt(u)
  {
    HashRunBreak(u, v);
    var h := Run(u, IsHash);
    if 1 <= h <= 6 && u[h] == ' ' {
      HeadingRestBreak(u, v, h);
    }
  }

  /** Past `#{1,6} `, the rest of the match is the same over `u + v` as
      over `u`. */
  lemma HeadingRestBreak(u: string, v: string, h: nat)
    requires h < |u| && u[h] == ' ' && IsLineTerm(u[|u| - 1]) && (v == [] || v[0] == '#')
    ensures h + 1 <= |u| && AfterLine(u + v, h, Run((u + v)[h + 1..], NotLineTerm)) == AfterLine(u, h, Run(u[h + 1..], NotLineTerm))
  {
    assert h + 1 < |u|;
    LineRunBreak(u, v, h);
    AfterLineBreak(u, v, h, Run(u[h + 1..], NotLineTerm));
  }

  /** `#{1,6}` stops inside a text that ends a line. */
  lemma HashRunBreak(u: string, v: string)
    requires u != [] && IsLineTerm(u[|u| - 1])
    ensures Run(u + v, IsHash) == Run(u, IsHash) < |u|
    ensures (u + v)[Run(u, IsHash)] == u[Run(u, IsHash)]
  {
    assert !IsHash(u[|u| - 1]);
    RunBreak(u, v, IsHash);
  }

  /** `.+` stops at the line terminator that ends the text. */
  lemma LineRunBreak(u: string, v: string, h: nat)
    requires h + 1 < |u| && IsLineTerm(u[|u| - 1])
    ensures h + 1 + Run(u[h + 1..], NotLineTerm) < |u|
    ensures IsLineTerm(u[h + 1 + Run(u[h + 1..], NotLineTerm)])
    ensures Run((u + v)[h + 1..], NotLineTerm) == Run(u[h + 1..], NotLineTerm)
  {
    var w := u[h + 1..];
    assert w[|w| - 1] == u[|u| - 1] && !NotLineTerm(w[|w| - 1]);
    assert (u + v)[h + 1..] == w + v;
    RunBreak(w, v, NotLineTerm);
    assert w[Run(w, NotLineTerm)] == u[h + 1 + Run(w, NotLineTerm)];
  }

  /** The line part of the match does not look past a line terminator
      followed by `#` or by nothing. */
  lemma AfterLineBreak(u: string, v: string, h: nat, n: nat)
    requires h + 1 + n < |u| && IsLineTerm(u[h + 1 + n])
    requires IsLineTerm(u[|u| - 1]) && (v == [] || v[0] == '#')
    ensures AfterLine(u + v, h, n) == AfterLine(u, h, n)
  {
    var s, e := u + v, h + 1 + n;
    assert s[e] == u[e];
    if e + 1 < |u| {
      assert s[e + 1] == u[e + 1] && s[..e] == u[..e];
    } else if v != [] {
      assert s[e + 1] == v[0];
    }
  }

  lemma {:induction false} AfterMatch(s: string, n: nat, rep: string)
    requires s != [] && AfterAt(s) == Some((n, rep))
    ensures 1 <= n <= |s| && SpaceAfter(s) == rep + SpaceAfter(s[n..])
  {
  }

  lemma {:induction false} AfterMiss(s: string)
    requires s != [] && AfterAt(s).None?
    ensures SpaceAfter(s) == [s[0]] + SpaceAfter(s[1..])
  {
  }

  /** The after-heading pass over a text that ends a line and a text that
      starts with `#` is the pass over each on its own. */
  lemma {:induction false} SpaceAfterSplit(a: string, t: string)
    requires Rewrite.EndsLine(a) && (t == [] || t[0] == '#')
    ensures SpaceAfter(a + t) == SpaceAfter(a) + SpaceAfter(t)
    decreases |a|, 1
  {
    if a == [] {
      assert a + t == t;
    } else {
      AfterAtBreak(a, t);
      match AfterAt(a)
        case Some((n, rep)) =>
          AfterMatch(a, n, rep);
          AfterMatch(a + t, n, rep);
          AfterSplitRest(a, t, n, rep);
        case None =>
          AfterMiss(a);
          AfterMiss(a + t);
          AfterSplitRest(a, t, 1, [a[0]]);
    }
  }

  lemma {:induction false} AfterSplitRest(a: string, t: string, n: nat, rep: string)
    requires 1 <= n <= |a| && Rewrite.EndsLine(a) && (t == [] || t[0] == '#')
    requires SpaceAfter(a) == rep + SpaceAfter(a[n..])
    requires SpaceAfter(a + t) == rep + SpaceAfter((a + t)[n..])
    ensures SpaceAfter(a + t) == SpaceAfter(a) + SpaceAfter(t)
    decreases |a|, 0
  {
    var u := a[n..];
    EndsLineDrop(a, n);
    Rewrite.DropOfConcat(a, t, n);
    SpaceAfterSplit(u, t);
    Rewrite.ConcatAssoc(rep, SpaceAfter(u), SpaceAfter(t));
  }

  lemma EndsLineDrop(a: string, n: nat)
    requires n <= |a| && Rewrite.EndsLine(a)
    ensures Rewrite.EndsLine(a[n..])
  {
    if n < |a| {
      assert a[n..][|a| - n - 1] == a[|a| - 1];
    }
  }

  /** A heading line anywhere in a text, followed by a line that starts with
      neither a newline nor `#`, gets a blank line after it in place; the
      text before the heading and the text after that character are passed
      on their own. */
  lemma {:induction false} SpaceAfterInText(a: string, h: string, x: string, c: char, y: string)
    requires Rewrite.EndsLine(a)
    requires 1 <= |h| <= 6 && forall k :: 0 <= k < |h| ==> h[k] == '#'
    requires x != [] && OneLine(x) && c != '\n' && c != '#'
    ensures SpaceAfter(a + (h + " " + x + "\n" + [c] + y))
         == SpaceAfter(a) + (h + " " + x + "\n\n" + [c]) + SpaceAfter(y)
  {
    var t := h + " " + x + "\n" + [c] + y;
    assert t[0] == h[0];
    SpaceAfterSplit(a, t);
    SpaceAfterHeadingLine(h, x, c, y);
    Rewrite.ConcatAssoc(SpaceAfter(a), h + " " + x + "\n\n" + [c], SpaceAfter(y));
  }

  /** The pass over a text that starts with such a heading line. */
  lemma {:induction false} SpaceAfterHeadingLine(h: string, x: string, c: char, y: string)
    requires 1 <= |h| <= 6 && forall k :: 0 <= k < |h| ==> h[k] == '#'
    requires x != [] && OneLine(x) && c != '\n' && c != '#'
    ensures SpaceAfter(h + " " + x + "\n" + [c] + y) == h + " " + x + "\n\n" + [c] + SpaceAfter(y)
  {
    var t := h + " " + x + "\n" + [c] + y;
    AfterAtHeading(h, x, c, y);
    AfterMatch(t, |h| + |x| + 3, h + " " + x + "\n\n" + [c]);
    assert t[|h| + |x| + 3..] == y;
  }

  /** The passes find nothing in a text without `#`. */
  lemma {:induction false} SpaceAfterNoHash(s: string)
    requires '#' !in s
    ensures SpaceAfter(s) == s
    decreases |s|
  {
    if s != [] {
      assert !IsHash(s[0]);
      AfterMiss(s);
      assert '#' !in s[1..];
      SpaceAfterNoHash(s[1..]);
    }
  }

  lemma {:induction false} SpaceBeforeNoHash(s: string)
    requires '#' !in s
    ensures SpaceBefore(s) == s
    decreases |s|
  {
    if s != [] {
      if |s| >= 3 {
        assert s[2..][0] == s[2] && !IsHash(s[2]);
      }
      assert BeforeAt(s).None?;
      assert '#' !in s[1..];
      SpaceBeforeNoHash(s[1..]);
    }
  }

  /** The case the after-heading pattern misses: the next line starts with
      `#` but is no heading, so `[^\n#]` refuses it and no blank line comes
      between. */
  lemma SpaceAfterMissesHashLine()
    ensures SpaceAfter("# a\n#b") == "# a\n#b"
  {
    var a, t := "# a\n", "#b";
    assert a + t == "# a\n#b";
    SpaceAfterSplit(a, t);
    HeadingAloneKept();
    HashWordKept();
  }

  /** A heading line with nothing after it is left alone. */
  lemma HeadingAloneKept()
    ensures SpaceAfter("# a\n") == "# a\n"
  {
    var a := "# a\n";
    assert Run(a, IsHash) == 1 by {
      assert a[1..] == " a\n";
    }
    assert a[2..] == "a\n" && a[2..][1..] == "\n";
    assert Run(a[2..], NotLineTerm) == 1;
    AfterMiss(a);
    SpaceAfterNoHash(a[1..]);
    assert a == [a[0]] + a[1..];
  }

  /** `#b` is no heading, and the pass leaves it alone. */
  lemma HashWordKept()
    ensures SpaceAfter("#b") == "#b"
  {
    var t := "#b";
    assert Run(t, IsHash) == 1 by {
      assert t[1..] == "b";
    }
    AfterMiss(t);
    SpaceAfterNoHash(t[1..]);
    assert t == [t[0]] + t[1..];
  }

  // ---------------------------------------------------------------------
  // 3. the line loop

  /** `/^#{1,6} /.test(trimmed)`. */
  predicate IsHeading(t: string) {
    var h := Run(t, IsHash);
    1 <= h <= 6 && h < |t| && t[h] == ' '
  }

  /** A line whose trimmed text is a heading. */
  predicate HeadingLine(x: string) {
    IsHeading(Trim(x))
  }

  /** The state of the loop: the lines kept so far and `prevLineEmpty`. */
  datatype LineState = LineState(formatted: seq<string>, prevEmpty: bool)

  /** One line of the loop: a blank line is kept, as an empty line, only
      after a line that is not blank; a heading after a line that is not
      blank gets an empty line first; other lines are kept as they are. */
  function StepLine(st: LineState, line: string): LineState {
    var trimmed := Trim(line);
    if trimmed == [] then
      LineState(if st.prevEmpty then st.formatted else st.formatted + [""], true)
    else
      LineState((if IsHeading(trimmed) && !st.prevEmpty then st.formatted + [""] else st.formatted) + [line], false)
  }

  function FoldLines(lines: seq<string>): LineState
    decreases |lines|
  {
    if lines == [] then LineState([], true)
    else StepLine(FoldLines(lines[..|lines| - 1]), lines[|lines| - 1])
  }

  lemma FoldLinesNext(lines: seq<string>, i: nat)
    requires i < |lines|
    ensures FoldLines(lines[..i + 1]) == StepLine(FoldLines(lines[..i]), lines[i])
  {
    assert lines[..i + 1][..i] == lines[..i];
  }

  /** The loop of `formatMarkdown` over the lines. */
  method FormatLines(lines: seq<string>) returns (formatted: seq<string>)
    ensures formatted == FoldLines(lines).formatted
  {
    formatted := [];
    var prevLineEmpty := true;
    for i := 0 to |lines|
      invariant FoldLines(lines[..i]) == LineState(formatted, prevLineEmpty)
    {
      FoldLinesNext(lines, i);
      var line := lines[i];
      var trimmed := Trim(line);
      var isEmpty := trimmed == [];
      var isHeading := IsHeading(trimmed);
      if isEmpty {
        if !prevLineEmpty {
          formatted := formatted + [""];
        }
        prevLineEmpty := true;
      } else {
        if isHeading && !prevLineEmpty {
          formatted := formatted + [""];
        }
        formatted := formatted + [line];
        prevLineEmpty := false;
      }
    }
    assert lines[..|lines|] == lines;
  }

  /** What `formatMarkdown(markdown)` returns. */
  function Formatted(markdown: string): string {
    var lines := Split(SpaceAfter(SpaceBefore(Lf(markdown))), '\n');
    Trim(Join(FoldLines(lines).formatted, "\n")) + "\n"
  }

  method FormatMarkdown(markdown: string) returns (result: string)
    ensures result == Formatted(markdown)
  {
    result := markdown;
    result := Lf(result);
    result := SpaceBefore(result);
    result := SpaceAfter(result);
    var lines := Split(result, '\n');
    var formatted := FormatLines(lines);
    result := Trim(Join(formatted, "\n"));
    result := result + "\n";
  }

  // ---------------------------------------------------------------------
  // What the loop keeps

  /** A kept line: the empty line of a blank run, or a line that is not blank. */
  predicate KeptLine(x: string) {
    '\n' !in x && (x == [] || !AllWs(x))
  }

  /** The lines the loop keeps: no line break inside one, the first not
      empty, never two empty lines in a row, and an empty line before every
      heading but a first one. */
  predicate Tidy(f: seq<string>) {
    (forall i :: 0 <= i < |f| ==> KeptLine(f[i]))
    && (f == [] || f[0] != [])
    && (forall i, j :: 0 <= i && j == i + 1 < |f| ==> f[i] != [] || f[j] != [])
    && (forall i, j :: 0 <= i && j == i + 1 < |f| && HeadingLine(f[j]) ==> f[i] == [])
  }

  /** `prevLineEmpty` holds exactly when nothing is kept yet or the last kept
      line is the empty one. */
  predicate StateOk(st: LineState) {
    Tidy(st.formatted)
    && (st.prevEmpty <==> (st.formatted == [] || st.formatted[|st.formatted| - 1] == []))
  }

  lemma TidySnoc(f: seq<string>, x: string)
    requires Tidy(f) && KeptLine(x)
    requires f == [] ==> x != []
    requires x == [] ==> f[|f| - 1] != []
    requires HeadingLine(x) && f != [] ==> f[|f| - 1] == []
    ensures Tidy(f + [x])
  {
    var g := f + [x];
    assert forall i :: 0 <= i < |f| ==> g[i] == f[i];
    assert g[|f|] == x;
    forall i | 0 <= i < |g| ensures KeptLine(g[i]) {
    }
    forall i, j | 0 <= i && j == i + 1 < |g| ensures g[i] != [] || g[j] != [] {
    }
    forall i, j | 0 <= i && j == i + 1 < |g| && HeadingLine(g[j]) ensures g[i] == [] {
    }
  }

  lemma StepLineOk(st: LineState, line: string)
    requires StateOk(st) && '\n' !in line
    ensures StateOk(StepLine(st, line))
  {
    var trimmed := Trim(line);
    TrimEmptyIff(line);
    if trimmed == [] {
      if !st.prevEmpty {
        TidySnoc(st.formatted, []);
      }
    } else {
      StepTextOk(st, line);
    }
  }

  /** A line that is not blank keeps the state sound. */
  lemma StepTextOk(st: LineState, line: string)
    requires StateOk(st) && '\n' !in line && Trim(line) != []
    ensures StateOk(StepLine(st, line))
  {
    TrimEmptyIff(line);
    if IsHeading(Trim(line)) && !st.prevEmpty {
      StepHeadingOk(st, line);
    } else {
      StepPlainOk(st, line);
    }
  }

  /** A heading after a kept line gets its empty line. */
  lemma StepHeadingOk(st: LineState, line: string)
    requires StateOk(st) && KeptLine(line) && line != []
    requires IsHeading(Trim(line)) && !st.prevEmpty
    ensures StateOk(StepLine(st, line))
  {
    var f := st.formatted;
    assert Trim(line) != [];
    TidySnoc(f, []);
    TidySnoc(f + [""], line);
  }

  /** Any other line that is not blank is pushed as it is. */
  lemma StepPlainOk(st: LineState, line: string)
    requires StateOk(st) && KeptLine(line) && line != [] && Trim(line) != []
    requires !(IsHeading(Trim(line)) && !st.prevEmpty)
    ensures StateOk(StepLine(st, line))
  {
    TidySnoc(st.formatted, line);
  }

  lemma {:induction false} FoldLinesOk(lines: seq<string>)
    requires forall i :: 0 <= i < |lines| ==> '\n' !in lines[i]
    ensures StateOk(FoldLines(lines))
    decreases |lines|
  {
    if lines != [] {
      var init := lines[..|lines| - 1];
      assert forall i :: 0 <= i < |init| ==> init[i] == lines[i];
      FoldLinesOk(init);
      StepLineOk(FoldLines(init), lines[|lines| - 1]);
    }
  }

  /** The lines that are not blank, in order. */
  function NonBlank(xs: seq<string>): seq<string>
    decreases |xs|
  {
    if xs == [] then []
    else NonBlank(xs[..|xs| - 1]) + (if AllWs(xs[|xs| - 1]) then [] else [xs[|xs| - 1]])
  }

  lemma NonBlankSnoc(xs: seq<string>, x: string)
    ensures NonBlank(xs + [x]) == NonBlank(xs) + (if AllWs(x) then [] else [x])
  {
    assert (xs + [x])[..|xs|] == xs;
  }

  /** The loop drops blank lines and adds empty ones, and it keeps every line
      that is not blank, unchanged and in order. */
  lemma {:induction false} FoldLinesKeeps(lines: seq<string>)
    ensures NonBlank(FoldLines(lines).formatted) == NonBlank(lines)
    decreases |lines|
  {
    if lines != [] {
      var init, line := lines[..|lines| - 1], lines[|lines| - 1];
      FoldLinesKeeps(init);
      StepLineKeeps(FoldLines(init), line);
    }
  }

  /** One step keeps the line when it is not blank and adds only empty ones. */
  lemma StepLineKeeps(st: LineState, line: string)
    ensures NonBlank(StepLine(st, line).formatted) == NonBlank(st.formatted) + (if AllWs(line) then [] else [line])
  {
    var f := st.formatted;
    TrimEmptyIff(line);
    NonBlankSnoc(f, "");
    NonBlankSnoc(f, line);
    NonBlankSnoc(f + [""], line);
  }

  // ---------------------------------------------------------------------
  // Trimming the kept lines

  /** Line `i` of the kept lines once the text is trimmed: the first loses
      its leading whitespace, the last its trailing whitespace. */
  function EdgeOf(f: seq<string>, i: nat): string
    requires i < |f|
  {
    if |f| == 1 then Trim(f[0])
    else if i == 0 then TrimStart(f[0])
    else if i == |f| - 1 then TrimEnd(f[i])
    else f[i]
  }

  function Edges(f: seq<string>): (e: seq<string>)
    ensures |e| == |f|
  {
    seq(|f|, i requires 0 <= i < |f| => EdgeOf(f, i))
  }

  lemma JoinSnoc(xs: seq<string>, x: string, sep: string)
    requires xs != []
    ensures Join(xs + [x], sep) == Join(xs, sep) + sep + x
    decreases |xs|
  {
    if |xs| > 1 {
      assert (xs + [x])[1..] == xs[1..] + [x];
      JoinSnoc(xs[1..], x, sep);
    }
  }

  /** What lies between the first and the last of at least two joined texts. */
  function Between(xs: seq<string>, sep: string): string
    requires |xs| >= 2
  {
    if |xs| == 2 then sep else sep + Join(xs[1..|xs| - 1], sep) + sep
  }

  lemma JoinEnds(xs: seq<string>, sep: string)
    requires |xs| >= 2
    ensures Join(xs, sep) == xs[0] + Between(xs, sep) + xs[|xs| - 1]
  {
    if |xs| == 2 {
      assert Join(xs, sep) == xs[0] + sep + xs[1] by {
        assert xs[1..] == [xs[1]];
      }
    } else {
      JoinEndsLong(xs, sep);
    }
  }

  lemma JoinEndsLong(xs: seq<string>, sep: string)
    requires |xs| > 2
    ensures Join(xs, sep) == xs[0] + (sep + Join(xs[1..|xs| - 1], sep) + sep) + xs[|xs| - 1]
  {
    var z := xs[|xs| - 1];
    var m := xs[1..|xs| - 1];
    assert Join(xs, sep) == xs[0] + sep + Join(m + [z], sep) by {
      assert xs[1..] == m + [z];
    }
    JoinSnoc(m, z, sep);
    var j := Join(m, sep);
    assert xs[0] + sep + (j + sep + z) == xs[0] + (sep + j + sep) + z;
  }

  lemma BetweenSame(f: seq<string>, e: seq<string>, sep: string)
    requires |f| == |e| >= 2 && forall i :: 0 < i < |f| - 1 ==> e[i] == f[i]
    ensures Between(e, sep) == Between(f, sep)
  {
    if |f| > 2 {
      assert e[1..|e| - 1] == f[1..|f| - 1];
    }
  }

  /** Trimming the joined lines trims the first and the last of them, when
      both are not blank. */
  lemma TrimJoin(f: seq<string>)
    requires f != [] && !AllWs(f[0]) && !AllWs(f[|f| - 1])
    ensures Trim(Join(f, "\n")) == Join(Edges(f), "\n")
  {
    if |f| == 1 {
      assert Edges(f)[0] == EdgeOf(f, 0);
    } else {
      var n := |f|;
      var b := Between(f, "\n");
      assert Join(f, "\n") == f[0] + b + f[n - 1] by { JoinEnds(f, "\n"); }
      EdgesJoin(f);
      TrimBetween(f[0], b, f[n - 1]);
    }
  }

  /** The trimmed lines joined: the first and last trimmed around what the
      untrimmed lines hold between them. */
  lemma EdgesJoin(f: seq<string>)
    requires |f| >= 2
    ensures Join(Edges(f), "\n") == TrimStart(f[0]) + Between(f, "\n") + TrimEnd(f[|f| - 1])
  {
    var e := Edges(f);
    var n := |f|;
    assert e[0] == EdgeOf(f, 0);
    assert e[n - 1] == EdgeOf(f, n - 1);
    forall i | 0 < i < n - 1 ensures e[i] == f[i] {
      assert e[i] == EdgeOf(f, i);
    }
    BetweenSame(f, e, "\n");
    JoinEnds(e, "\n");
  }

  /** The trimmed edges hold no line break when the kept lines hold none. */
  lemma EdgesOneLine(f: seq<string>)
    requires forall i :: 0 <= i < |f| ==> '\n' !in f[i]
    ensures forall i :: 0 <= i < |Edges(f)| ==> '\n' !in Edges(f)[i]
  {
    forall i | 0 <= i < |f| ensures '\n' !in Edges(f)[i] {
      TrimKeepsOut(f[i], '\n');
    }
  }

  /** The properties of the output, stated on its lines. */
  predicate Spaced(ls: seq<string>) {
    (forall i, j :: 0 <= i && j == i + 1 < |ls| ==> !(AllWs(ls[i]) && AllWs(ls[j])))
    && (forall i, j :: 0 <= i && j == i + 1 < |ls| && HeadingLine(ls[j]) ==> ls[i] == [])
  }

  /** One trimmed edge against the kept line it comes from: the same
      line once trimmed. */
  lemma EdgeAt(f: seq<string>, i: nat)
    requires i < |f|
    ensures 0 < i < |f| - 1 ==> Edges(f)[i] == f[i]
    ensures Trim(Edges(f)[i]) == Trim(f[i])
  {
    assert Edges(f)[i] == EdgeOf(f, i);
    if |f| == 1 {
      TrimIdempotent(f[0]);
    } else if i == 0 {
      TrimAfterTrimStart(f[0]);
    } else if i == |f| - 1 {
      TrimAfterTrimEnd(f[i]);
    }
  }

  lemma EdgeBlank(f: seq<string>, i: nat)
    requires i < |f|
    ensures 0 < i < |f| - 1 ==> Edges(f)[i] == f[i]
    ensures AllWs(Edges(f)[i]) == AllWs(f[i]) && HeadingLine(Edges(f)[i]) == HeadingLine(f[i])
  {
    EdgeAt(f, i);
    TrimEmptyIff(f[i]);
    TrimEmptyIff(Edges(f)[i]);
  }

  lemma EdgesSpaced(f: seq<string>)
    requires Tidy(f) && f != [] && f[|f| - 1] != []
    ensures Spaced(Edges(f))
  {
    var e := Edges(f);
    forall i, j | 0 <= i && j == i + 1 < |e| ensures !(AllWs(e[i]) && AllWs(e[j])) {
      EdgeBlank(f, i);
      EdgeBlank(f, j);
    }
    forall i, j | 0 <= i && j == i + 1 < |e| && HeadingLine(e[j]) ensures e[i] == [] {
      EdgeBlank(f, i);
      EdgeBlank(f, j);
    }
  }

  /** What is left after trimming: the kept lines without a final empty one. */
  function DropLastEmpty(f: seq<string>): (g: seq<string>)
    ensures g <= f
  {
    if f != [] && f[|f| - 1] == [] then f[..|f| - 1] else f
  }

  lemma TidyPrefix(f: seq<string>, n: nat)
    requires Tidy(f) && n <= |f|
    ensures Tidy(f[..n])
  {
    var g := f[..n];
    assert forall i :: 0 <= i < n ==> g[i] == f[i];
  }

  lemma DropLastEmptyTidy(f: seq<string>)
    requires Tidy(f)
    ensures var g := DropLastEmpty(f); Tidy(g) && (g == [] || g[|g| - 1] != [])
  {
    var g := DropLastEmpty(f);
    TidyPrefix(f, |g|);
    if g != f {
      assert |f| >= 2 && g[|g| - 1] == f[|f| - 2];
    }
  }

  lemma DropLastEmptyTrim(f: seq<string>)
    requires Tidy(f)
    ensures Trim(Join(f, "\n")) == Trim(Join(DropLastEmpty(f), "\n"))
  {
    var g := DropLastEmpty(f);
    if g != f {
      assert |f| >= 2;
      assert f == g + [[]];
      JoinSnoc(g, [], "\n");
      assert Join(f, "\n") == Join(g, "\n") + "\n";
      TrimAppendWs(Join(g, "\n"), "\n");
    }
  }

  /** The split of the joined edges is the edges. */
  lemma SplitEdges(g: seq<string>)
    requires Tidy(g) && g != [] && g[|g| - 1] != []
    ensures Split(Trim(Join(g, "\n")), '\n') == Edges(g)
  {
    assert !AllWs(g[0]) && !AllWs(g[|g| - 1]);
    TrimJoin(g);
    assert forall i :: 0 <= i < |g| ==> '\n' !in g[i];
    EdgesOneLine(g);
    SplitJoin(Edges(g), '\n');
  }

  lemma SpacedEmpty()
    ensures Spaced(Split(Trim(Join([], "\n")), '\n'))
  {
    assert Split([], '\n') == [[]];
  }

  /** The lines of a trimmed text are the trimmed edges of its lines. */
  lemma TrimmedLines(f: seq<string>)
    requires Tidy(f)
    ensures Spaced(Split(Trim(Join(f, "\n")), '\n'))
  {
    var g := DropLastEmpty(f);
    var t := Trim(Join(f, "\n"));
    assert t == Trim(Join(g, "\n")) by { DropLastEmptyTrim(f); }
    if g == [] {
      assert Spaced(Split(t, '\n')) by {
        assert f == [];
        SpacedEmpty();
      }
    } else {
      assert Split(t, '\n') == Edges(g) && Spaced(Edges(g)) by {
        DropLastEmptyTidy(f);
        SplitEdges(g);
        EdgesSpaced(g);
      }
    }
  }

  // ---------------------------------------------------------------------
  // The output

  /** The result ends in exactly one newline after a text that neither starts
      nor ends with whitespace; no two of its lines in a row are blank, and
      every heading line but a first one comes after an empty line. */
  lemma FormattedShape(markdown: string)
    ensures var out := Formatted(markdown);
            |out| >= 1 && out[|out| - 1] == '\n'
            && var body := out[..|out| - 1];
               (body == [] || (!IsWs(body[0]) && !IsWs(body[|body| - 1])))
               && Spaced(Split(body, '\n'))
  {
    var lines := Split(SpaceAfter(SpaceBefore(Lf(markdown))), '\n');
    FoldLinesOk(lines);
    var out := Formatted(markdown);
    var body := Trim(Join(FoldLines(lines).formatted, "\n"));
    assert out[..|out| - 1] == body;
    TrimmedLines(FoldLines(lines).formatted);
  }

  /** The result ends in a single newline, never in a blank line. */
  lemma FormattedEndsOnce(markdown: string)
    ensures var out := Formatted(markdown);
            |out| < 2 || out[|out| - 2] != '\n'
  {
    var out := Formatted(markdown);
    var body := out[..|out| - 1];
    FormattedShape(markdown);
    if |out| >= 2 {
      assert out[|out| - 2] == body[|body| - 1];
      LineTermIsWs('\n');
    }
  }

  // ---------------------------------------------------------------------
  // Formatting twice

  /** A word of one line: not empty, no whitespace at either end, and no
      carriage return, line feed or `#`. */
  predicate Word(x: string) {
    x != [] && !IsWs(x[0]) && !IsWs(x[|x| - 1]) && '\r' !in x && '\n' !in x && '#' !in x
  }

  /** A carriage return at the end of a text without one stays. */
  lemma {:induction false} LfLastCr(x: string)
    requires '\r' !in x
    ensures Lf(x + "\r") == x + "\r"
    decreases |x|
  {
    var s := x + "\r";
    if x == [] {
      assert s[1..] == [];
    } else {
      assert s[0] == x[0] && s[1..] == x[1..] + "\r";
      assert '\r' !in x[1..] by { assert forall k :: 0 <= k < |x[1..]| ==> x[1..][k] == x[k + 1]; }
      LfLastCr(x[1..]);
    }
  }

  /** `/\r\n/g` is one pass: of `\r\r\n` only the last two characters
      form a match, and the first `\r` stays. */
  lemma FirstLf(x: string, y: string)
    requires Word(x) && Word(y)
    ensures Lf(x + "\r\r\n" + y) == x + "\r\n" + y
  {
    assert x + "\r\r\n" + y == x + "\r" + "\r\n" + y;
    LfSplit(x + "\r", y);
    LfLastCr(x);
    LfPlain(y);
    assert x + "\r" + "\n" + y == x + "\r\n" + y;
  }

  lemma SecondLf(x: string, y: string)
    requires Word(x) && Word(y)
    ensures Lf(x + "\r\n" + y + "\n") == x + "\n" + y + "\n"
  {
    assert x + "\r\n" + y + "\n" == x + "\r\n" + (y + "\n");
    LfSplit(x, y + "\n");
    LfPlain(x);
    LfPlain(y + "\n");
    assert x + "\n" + (y + "\n") == x + "\n" + y + "\n";
  }

  /** The heading passes leave a text without `#` alone. */
  lemma NoHashPasses(s: string)
    requires '#' !in s
    ensures SpaceAfter(SpaceBefore(s)) == s
  {
    SpaceBeforeNoHash(s);
    SpaceAfterNoHash(s);
  }

  lemma FirstSplit(x: string, y: string)
    requires Word(x) && Word(y)
    ensures Join([x + "\r", y], "\n") == x + "\r\n" + y
    ensures Split(x + "\r\n" + y, '\n') == [x + "\r", y]
  {
    var xs := [x + "\r", y];
    assert Join(xs, "\n") == x + "\r\n" + y by {
      assert xs[1..] == [y];
    }
    SplitJoin(xs, '\n');
  }

  lemma SecondSplit(x: string, y: string)
    requires Word(x) && Word(y)
    ensures Join([x, y, ""], "\n") == x + "\n" + y + "\n"
    ensures Split(x + "\n" + y + "\n", '\n') == [x, y, ""]
  {
    var xs := [x, y, ""];
    assert Join(xs, "\n") == x + "\n" + y + "\n" by {
      assert xs[1..] == [y, ""] && xs[1..][1..] == [""];
      assert Join([y, ""], "\n") == y + "\n" + "";
      assert x + "\n" + (y + "\n" + "") == x + "\n" + y + "\n";
    }
    SplitJoin(xs, '\n');
  }

  /** A text with no whitespace at either end is its own trim. */
  lemma TrimPlain(s: string)
    requires s != [] && !IsWs(s[0]) && !IsWs(s[|s| - 1])
    ensures Trim(s) == s
  {
    assert TrimStart(s) == s;
  }

  /** Trimming drops one whitespace character at the end. */
  lemma TrimLast(x: string, c: char)
    requires x != [] && !IsWs(x[0]) && !IsWs(x[|x| - 1]) && IsWs(c)
    ensures Trim(x + [c]) == x
  {
    assert (x + [c])[0] == x[0];
    TrimStartKeeps(x + [c]);
    TrimEndDrops(x, c);
  }

  lemma TrimStartKeeps(s: string)
    requires s != [] && !IsWs(s[0])
    ensures TrimStart(s) == s
  {
  }

  lemma TrimEndDrops(x: string, c: char)
    requires x != [] && !IsWs(x[|x| - 1]) && IsWs(c)
    ensures TrimEnd(x + [c]) == x
  {
    var s := x + [c];
    assert s[|s| - 1] == c && s[..|s| - 1] == x;
    assert TrimEnd(x) == x;
  }

  /** A line that trims to a text not starting with `#`: the loop keeps it
      as it is, with no empty line before it. */
  lemma TextLine(st: LineState, line: string, trimmed: string)
    requires Trim(line) == trimmed && trimmed != [] && trimmed[0] != '#'
    ensures StepLine(st, line) == LineState(st.formatted + [line], false)
  {
    assert Run(trimmed, IsHash) == 0;
  }

  /** An empty line after a kept line is kept once. */
  lemma EmptyLine(st: LineState)
    requires !st.prevEmpty
    ensures StepLine(st, "") == LineState(st.formatted + [""], true)
  {
    assert TrimStart("") == "";
  }

  /** The loop over one more line is one more step. */
  lemma FoldLinesSnoc(lines: seq<string>, line: string)
    ensures FoldLines(lines + [line]) == StepLine(FoldLines(lines), line)
  {
    assert (lines + [line])[..|lines|] == lines;
  }

  /** Two lines that trim to texts not starting with `#` are kept as they
      are, with no empty line before either. */
  lemma FoldTwo(a: string, ta: string, b: string, tb: string)
    requires Trim(a) == ta && ta != [] && ta[0] != '#'
    requires Trim(b) == tb && tb != [] && tb[0] != '#'
    ensures FoldLines([a, b]) == LineState([a, b], false)
  {
    FoldLinesSnoc([], a);
    assert [] + [a] == [a];
    assert FoldLines([]) == LineState([], true);
    TextLine(LineState([], true), a, ta);
    FoldLinesSnoc([a], b);
    assert [a] + [b] == [a, b];
    TextLine(LineState([a], false), b, tb);
  }

  /** The loop pushes `line`, not `trimmed`, so the `\r` it trims away for
      its tests stays in the output. */
  lemma FirstLoop(x: string, y: string)
    requires Word(x) && Word(y)
    ensures FoldLines([x + "\r", y]).formatted == [x + "\r", y]
  {
    TrimLast(x, '\r');
    TrimPlain(y);
    FoldTwo(x + "\r", x, y, y);
  }

  lemma SecondLoop(x: string, y: string)
    requires Word(x) && Word(y)
    ensures FoldLines([x, y, ""]).formatted == [x, y, ""]
  {
    TrimPlain(x);
    TrimPlain(y);
    FoldTwo(x, x, y, y);
    FoldLinesSnoc([x, y], "");
    assert [x, y] + [""] == [x, y, ""];
    EmptyLine(LineState([x, y], false));
  }

  /** `Formatted` from the results of its stages. */
  lemma FormattedFrom(markdown: string, t: string, lines: seq<string>, f: seq<string>)
    requires SpaceAfter(SpaceBefore(Lf(markdown))) == t
    requires Split(t, '\n') == lines && FoldLines(lines).formatted == f
    ensures Formatted(markdown) == Trim(Join(f, "\n")) + "\n"
  {
  }

  /** The first run keeps a carriage return before the line break. */
  lemma FirstFormat(x: string, y: string)
    requires Word(x) && Word(y)
    ensures Formatted(x + "\r\r\n" + y) == x + "\r\n" + y + "\n"
  {
    var t := x + "\r\n" + y;
    FirstLf(x, y);
    NoHashPasses(t);
    FirstSplit(x, y);
    FirstLoop(x, y);
    FormattedFrom(x + "\r\r\n" + y, t, [x + "\r", y], [x + "\r", y]);
    TrimPlain(t);
  }

  /** The second run turns that `\r\n` into `\n`. */
  lemma SecondFormat(x: string, y: string)
    requires Word(x) && Word(y)
    ensures Formatted(x + "\r\n" + y + "\n") == x + "\n" + y + "\n"
  {
    var t := x + "\n" + y + "\n";
    SecondPasses(x, y);
    SecondSplit(x, y);
    SecondLoop(x, y);
    SecondTrim(x, y);
    FormattedFrom(x + "\r\n" + y + "\n", t, [x, y, ""], [x, y, ""]);
  }

  lemma SecondPasses(x: string, y: string)
    requires Word(x) && Word(y)
    ensures SpaceAfter(SpaceBefore(Lf(x + "\r\n" + y + "\n"))) == x + "\n" + y + "\n"
  {
    SecondLf(x, y);
    NoHashPasses(x + "\n" + y + "\n");
  }

  lemma SecondTrim(x: string, y: string)
    requires Word(x) && Word(y)
    ensures Trim(x + "\n" + y + "\n") == x + "\n" + y
  {
    var b := x + "\n" + y;
    assert b[0] == x[0] && b[|b| - 1] == y[|y| - 1];
    TrimLast(b, '\n');
  }

  /** Formatting is not idempotent: for any two words, a second run changes
      the first run's output. */
  lemma FormatTwiceDiffers(x: string, y: string)
    requires Word(x) && Word(y)
    ensures Formatted(x + "\r\r\n" + y) == x + "\r\n" + y + "\n"
    ensures Formatted(Formatted(x + "\r\r\n" + y)) == x + "\n" + y + "\n"
    ensures Formatted(Formatted(x + "\r\r\n" + y)) != Formatted(x + "\r\r\n" + y)
  {
    FirstFormat(x, y);
    SecondFormat(x, y);
    assert (x + "\n" + y + "\n")[|x|] != (x + "\r\n" + y + "\n")[|x|];
  }

  /** The smallest such text. */
  lemma FormatTwiceExample(m: string)
    requires m == "a\r\r\nb"
    ensures Formatted(Formatted(m)) != Formatted(m)
  {
    var x, y := [m[0]], [m[4]];
    assert m == x + "\r\r\n" + y;
    FormatTwiceDiffers(x, y);
  }
}
