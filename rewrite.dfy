/** The regular-expression passes of the converter (format-wechat.js:51-100).

    Every pass is a global `replace`: the text is scanned from the left; where
    the pattern matches, the match is replaced and the scan resumes after it,
    elsewhere one character is kept. Anchors and lookbehind look at the
    original text, so the scan carries the character before the current
    position. Each pattern is modelled by a matcher that, given the rest of
    the text and the character before it, says how long the match is and
    what replaces it. */
module Rewrite {
  import opened Strings
  import opened Markup

  /** The line-anchored passes `^<prefix> (.+)$`, with the element each
      produces. */
  datatype LineRule = H3 | H2 | H1 | Bullet | Numbered | Quote

  /** A pass: its pattern, with what the replacement makes of a match. */
  datatype Pattern =
    | Image                                  // /!\[([^\]]*)\]\([^)]+\)/g -> ''
    | Line(rule: LineRule)                   // /^... (.+)$/gm -> tag(title.trim())
    | Delim(d: string, open: string, close: string)   // /<d>(.+?)<d>/g -> open $1 close
    | Italic(m: char)                        // /(?<!m)m([^m\n]+?)m(?!m)/g -> <em>$1</em>
    | Link                                   // /\[([^\]]+)\]\(([^)]+)\)/g -> <a href="$2" ...>$1</a>
    | Rule                                   // /^[-*_]{3,}$/gm -> <hr ...>

  /** The element a line rule wraps its trimmed text in. */
  function Wrap(rule: LineRule, t: string): (r: string)
    ensures |r| > |t|
  {
    match rule
      case H3 => H3Open + t + "</h3>"
      case H2 => H2Open + t + "</h2>"
      case H1 => H1Open + t + "</h1>"
      case Bullet => ItemOpen + t + "</p>"
      case Numbered => ItemOpen + t + "</p>"
      case Quote => QuoteOpen + t + "</blockquote>"
  }

  /** `^` of a multiline pattern: at the start of the text or after a line terminator. */
  predicate AtLineStart(prev: Option<char>) {
    prev.None? || IsLineTerm(prev.value)
  }

  predicate IsDigit(c: char) { '0' <= c <= '9' }
  predicate IsRuleMark(c: char) { c == '-' || c == '*' || c == '_' }

  /** The length of the line prefix of a rule at the start of `s`, if it is there. */
  function PrefixLen(rule: LineRule, s: string): (r: Option<nat>)
    ensures r.Some? ==> 2 <= r.value <= |s| && LineLead(rule, s[0])
  {
    match rule
      case H3 => if StartsWith(s, "### ") then Some(4) else None
      case H2 => if StartsWith(s, "## ") then Some(3) else None
      case H1 => if StartsWith(s, "# ") then Some(2) else None
      case Bullet => if |s| >= 2 && (s[0] == '-' || s[0] == '*' || s[0] == '+') && s[1] == ' ' then Some(2) else None
      case Numbered =>
        var d := Run(s, IsDigit);
        if d >= 1 && StartsWith(s[d..], ". ") then Some(d + 2) else None
      case Quote => if StartsWith(s, "> ") then Some(2) else None
  }

  /** The match of a pattern at the start of `s`, `prev` being the character
      before it: the length of the match and its replacement. */
  function MatchAt(p: Pattern, s: string, prev: Option<char>): (r: Option<(nat, string)>)
    ensures r.Some? ==> 1 <= r.value.0 <= |s| && Lead(p, s[0])
  {
    match p
      case Image => ImageAt(s)
      case Line(rule) => if AtLineStart(prev) then LineAt(rule, s) else None
      case Delim(d, open, close) => DelimAt(d, open, close, s)
      case Italic(m) => if prev == Some(m) then None else ItalicAt(m, s)
      case Link => LinkAt(s)
      case Rule => if AtLineStart(prev) then RuleAt(s) else None
  }

  /** `![alt](url)`: the alt text runs to the first `]`, which `(` must follow;
      the url is at least one character up to the first `)`. */
  function ImageAt(s: string): (r: Option<(nat, string)>)
    ensures r.Some? ==> 1 <= r.value.0 <= |s| && s[0] == '!'
  {
    if |s| >= 2 && s[0] == '!' && s[1] == '[' then
      match FindChar(s[2..], ']')
        case None => None
        case Some(a) =>
          var o := a + 3;
          if o < |s| && s[o] == '(' then
            match FindChar(s[o + 1..], ')')
              case None => None
              case Some(b) => if b >= 1 then Some((o + b + 2, [])) else None
          else None
    else None
  }

  /** A line rule at a line start: the prefix and at least one character up
      to the end of the line, replaced by the rule's element. */
  function LineAt(rule: LineRule, s: string): (r: Option<(nat, string)>)
    ensures r.Some? ==> 1 <= r.value.0 <= |s| && LineLead(rule, s[0])
  {
    match LineTitle(rule, s)
      case None => None
      case Some((n, t)) => Some((n, Wrap(rule, t)))
  }

  /** The length of a line rule's match and its text after the prefix,
      trimmed. */
  function LineTitle(rule: LineRule, s: string): (r: Option<(nat, string)>)
    ensures r.Some? ==> 1 <= r.value.0 <= |s| && LineLead(rule, s[0])
  {
    match PrefixLen(rule, s)
      case None => None
      case Some(q) => LineText(s, q)
  }

  /** `(.+)$` from position `q`: at least one character, up to the end of
      the line, and the text trimmed. */
  function LineText(s: string, q: nat): (r: Option<(nat, string)>)
    requires q <= |s|
    ensures r.Some? ==> q + 1 <= r.value.0 <= |s|
  {
    var n := Run(s[q..], NotLineTerm);
    if n >= 1 then Some((q + n, Trim(s[q..q + n]))) else None
  }

  /** `<d>(.+?)<d>`: the content is the shortest non-empty one-line text
      followed by the delimiter. */
  function DelimAt(d: string, open: string, close: string, s: string): (r: Option<(nat, string)>)
    ensures r.Some? ==> 1 <= r.value.0 <= |s| && |d| >= 1 && s[0] == d[0]
    ensures r.Some? ==> 2 * |d| < r.value.0 && |r.value.1| == |open| + (r.value.0 - 2 * |d|) + |close|
  {
    if |d| >= 1 && StartsWith(s, d) && |s| > |d| then
      match IndexOf(s[|d| + 1..], d)
        case None => None
        case Some(j) =>
          var content := s[|d|..|d| + 1 + j];
          if OneLine(content) then Some((2 * |d| + 1 + j, open + content + close)) else None
    else None
  }

  /** `m([^m\n]+?)m(?!m)`: the content runs to the next `m`, holds no newline,
      is not empty, and the closing `m` is not followed by another. */
  function ItalicAt(m: char, s: string): (r: Option<(nat, string)>)
    ensures r.Some? ==> 1 <= r.value.0 <= |s| && s[0] == m
  {
    if s != [] && s[0] == m then
      match FindChar(s[1..], m)
        case None => None
        case Some(k) =>
          if k >= 1 && '\n' !in s[1..k + 1] && (k + 2 == |s| || s[k + 2] != m)
          then Some((k + 2, "<em>" + s[1..k + 1] + "</em>"))
          else None
    else None
  }

  /** `[text](url)`: both parts non-empty, each up to the first `]` / `)`. */
  function LinkAt(s: string): (r: Option<(nat, string)>)
    ensures r.Some? ==> 1 <= r.value.0 <= |s| && s[0] == '['
  {
    if s != [] && s[0] == '[' then
      match FindChar(s[1..], ']')
        case None => None
        case Some(a) =>
          if a >= 1 && a + 2 < |s| && s[a + 2] == '(' then
            match FindChar(s[a + 3..], ')')
              case None => None
              case Some(b) =>
                if b >= 1 then Some((a + b + 4, Anchor(s[1..a + 1], s[a + 3..a + 3 + b]))) else None
          else None
    else None
  }

  /** `^[-*_]{3,}$`: a whole line of at least three rule marks. */
  function RuleAt(s: string): (r: Option<(nat, string)>)
    ensures r.Some? ==> 1 <= r.value.0 <= |s| && IsRuleMark(s[0])
  {
    var n := Run(s, IsRuleMark);
    if n >= 3 && (n == |s| || IsLineTerm(s[n])) then Some((n, HrTag)) else None
  }

  /** `s.replace(pattern, replacement)` with the global flag, `prev` being the
      character of the original text before `s`. */
  function Scan(p: Pattern, s: string, prev: Option<char>): string
    decreases |s|, 1
  {
    if s == [] then [] else ScanStep(p, s, MatchAt(p, s, prev))
  }

  /** One step of the scan, `m` being the match at the start of `s`. */
  function ScanStep(p: Pattern, s: string, m: Option<(nat, string)>): string
    requires s != [] && (m.Some? ==> 1 <= m.value.0 <= |s|)
    decreases |s|, 0
  {
    match m
      case Some((n, rep)) => rep + Scan(p, s[n..], Some(s[n - 1]))
      case None => [s[0]] + Scan(p, s[1..], Some(s[0]))
  }

  /** A pass over a whole text. */
  function Pass(p: Pattern, s: string): string {
    Scan(p, s, None)
  }

  // ---------------------------------------------------------------------
  // The passes in the order of the converter

  const BoldItalicStars: Pattern := Delim("***", StrongOpen + "<em>", "</em></strong>")
  const BoldItalicUnders: Pattern := Delim("___", StrongOpen + "<em>", "</em></strong>")
  const BoldStars: Pattern := Delim("**", StrongOpen, "</strong>")
  const BoldUnders: Pattern := Delim("__", StrongOpen, "</strong>")

  /** Steps 3 to 10 of the converter: the passes one after another. */
  function Rewritten(s: string): string {
    var s1 := Pass(Image, s);
    var s2 := Pass(Line(H1), Pass(Line(H2), Pass(Line(H3), s1)));
    var s3 := Pass(BoldUnders, Pass(BoldStars, Pass(BoldItalicUnders, Pass(BoldItalicStars, s2))));
    var s4 := Pass(Link, Pass(Italic('_'), Pass(Italic('*'), s3)));
    Pass(Rule, Pass(Line(Quote), Pass(Line(Numbered), Pass(Line(Bullet), s4))))
  }

  // ---------------------------------------------------------------------
  // What a pass leaves alone

  /** The pattern matches at no position of `s`. */
  predicate NoMatch(p: Pattern, s: string, prev: Option<char>) {
    forall k :: 0 <= k < |s| ==> MatchAt(p, s[k..], PrevAt(s, k, prev)).None?
  }

  /** Where the pattern matches nowhere, the pass changes nothing. */
  lemma {:induction false} ScanNoMatch(p: Pattern, s: string, prev: Option<char>)
    requires NoMatch(p, s, prev)
    ensures Scan(p, s, prev) == s
    decreases |s|
  {
    if s != [] {
      assert MatchAt(p, s[0..], PrevAt(s, 0, prev)).None?;
      assert s[0..] == s;
      forall k | 0 <= k < |s[1..]|
        ensures MatchAt(p, s[1..][k..], PrevAt(s[1..], k, Some(s[0]))).None?
      {
        assert s[1..][k..] == s[k + 1..];
        assert PrevAt(s[1..], k, Some(s[0])) == PrevAt(s, k + 1, prev);
        assert MatchAt(p, s[k + 1..], PrevAt(s, k + 1, prev)).None?;
      }
      ScanNoMatch(p, s[1..], Some(s[0]));
      assert s == [s[0]] + s[1..];
    }
  }

  /** The characters a match of each pattern can begin with. */
  predicate Lead(p: Pattern, c: char) {
    match p
      case Image => c == '!'
      case Line(rule) => LineLead(rule, c)
      case Delim(d, _, _) => |d| >= 1 && c == d[0]
      case Italic(m) => c == m
      case Link => c == '['
      case Rule => IsRuleMark(c)
  }

  predicate LineLead(rule: LineRule, c: char) {
    match rule
      case H3 => c == '#'
      case H2 => c == '#'
      case H1 => c == '#'
      case Bullet => c == '-' || c == '*' || c == '+'
      case Numbered => IsDigit(c)
      case Quote => c == '>'
  }

  /** A text holding none of a pattern's lead characters is left as it is. */
  lemma PassWithoutLead(p: Pattern, s: string, prev: Option<char>)
    requires forall k :: 0 <= k < |s| ==> !Lead(p, s[k])
    ensures Scan(p, s, prev) == s
  {
    forall k | 0 <= k < |s| ensures MatchAt(p, s[k..], PrevAt(s, k, prev)).None? {
      assert s[k..][0] == s[k];
    }
    ScanNoMatch(p, s, prev);
  }

  // ---------------------------------------------------------------------
  // What a pass makes of one whole match

  /** A match that covers the whole text is replaced and nothing is added. */
  lemma ScanWhole(p: Pattern, s: string, prev: Option<char>)
    requires MatchAt(p, s, prev).Some? && MatchAt(p, s, prev).value.0 == |s|
    ensures Scan(p, s, prev) == MatchAt(p, s, prev).value.1
  {
    var rep := MatchAt(p, s, prev).value.1;
    ScanMatch(p, s, prev, |s|, rep);
    assert s[|s|..] == [];
    assert rep + [] == rep;
  }

  /** The matcher of a line rule takes a whole line. */
  lemma LineTitleWhole(rule: LineRule, s: string)
    requires PrefixLen(rule, s).Some? && PrefixLen(rule, s).value < |s| && OneLine(s)
    ensures LineTitle(rule, s) == Some((|s|, Trim(s[PrefixLen(rule, s).value..])))
  {
    var q := PrefixLen(rule, s).value;
    assert LineTitle(rule, s) == LineText(s, q);
    LineTextWhole(s, q);
  }

  lemma LineTextWhole(s: string, q: nat)
    requires q < |s| && OneLine(s)
    ensures LineText(s, q) == Some((|s|, Trim(s[q..])))
  {
    var n := Run(s[q..], NotLineTerm);
    assert n == |s| - q by { RestOfLine(s, q); }
    LineTextIs(s, q, n);
    TrimSame(s[q..q + n], s[q..]);
  }

  lemma TrimSame(a: string, b: string)
    requires a == b
    ensures Trim(a) == Trim(b)
  {
  }

  lemma LineTextIs(s: string, q: nat, n: nat)
    requires q <= |s| && n == Run(s[q..], NotLineTerm) >= 1
    ensures LineText(s, q) == Some((q + n, Trim(s[q..q + n])))
  {
  }

  /** The rest of a line runs to its end. */
  lemma RestOfLine(s: string, q: nat)
    requires OneLine(s) && q <= |s|
    ensures Run(s[q..], NotLineTerm) == |s| - q
  {
    var t := s[q..];
    assert forall k :: 0 <= k < |t| ==> t[k] == s[q + k];
    RunAll(t, NotLineTerm);
  }

  /** A line that the rule's prefix opens and that holds more than the prefix
      becomes the rule's element of its trimmed rest. */
  lemma LineWhole(rule: LineRule, s: string)
    requires PrefixLen(rule, s).Some? && PrefixLen(rule, s).value < |s| && OneLine(s)
    ensures Pass(Line(rule), s) == Wrap(rule, Trim(s[PrefixLen(rule, s).value..]))
  {
    var t := Trim(s[PrefixLen(rule, s).value..]);
    LineTitleWhole(rule, s);
    LineAtIs(rule, s, |s|, t);
    ScanWhole(Line(rule), s, None);
  }

  lemma LineAtIs(rule: LineRule, s: string, n: nat, t: string)
    requires LineTitle(rule, s) == Some((n, t))
    ensures MatchAt(Line(rule), s, None) == Some((n, Wrap(rule, t)))
  {
  }

  /** `***text***`, `**text**` and the underscore forms: a one-line text that
      does not hold the delimiter's first character is wrapped. */
  lemma DelimWhole(d: string, open: string, close: string, x: string)
    requires |d| >= 1 && x != [] && OneLine(x) && d[0] !in x
    ensures Pass(Delim(d, open, close), d + x + d) == open + x + close
  {
    var s := d + x + d;
    DelimParts(d, x);
    DelimAtIs(d, open, close, s, |x| - 1, x);
    ScanWhole(Delim(d, open, close), s, None);
  }

  /** Where the delimiters of `d + x + d` are found. */
  lemma {:induction false} DelimParts(d: string, x: string)
    requires |d| >= 1 && x != [] && d[0] !in x
    ensures var s := d + x + d;
            |s| == 2 * |d| + |x| && StartsWith(s, d) && |s| > |d|
            && IndexOf(s[|d| + 1..], d) == Some(|x| - 1) && s[|d|..|d| + |x|] == x
  {
    var s := d + x + d;
    var t := s[|d| + 1..];
    assert t == x[1..] + d;
    assert t[|x| - 1..|x| - 1 + |d|] == d;
    forall q | 0 <= q < |x| - 1 ensures !OccursAt(t, d, q) {
      assert t[q] == x[q + 1];
      NotOccursAt(t, d, q, 0);
    }
    IndexOfIs(t, d, |x| - 1);
    assert s[|d|..|d| + |x|] == x;
    assert s[..|d|] == d;
  }

  lemma {:induction false} DelimAtIs(d: string, open: string, close: string, s: string, j: nat, x: string)
    requires |d| >= 1 && StartsWith(s, d) && |s| > |d| && IndexOf(s[|d| + 1..], d) == Some(j)
    requires |d| + 1 + j <= |s| && s[|d|..|d| + 1 + j] == x && OneLine(x)
    requires 2 * |d| + 1 + j == |s|
    ensures MatchAt(Delim(d, open, close), s, None) == Some((|s|, open + x + close))
  {
    DelimFound(d, open, close, s, j);
  }

  lemma {:induction false} DelimFound(d: string, open: string, close: string, s: string, j: nat)
    requires |d| >= 1 && StartsWith(s, d) && |s| > |d| && IndexOf(s[|d| + 1..], d) == Some(j)
    requires |d| + 1 + j <= |s| && OneLine(s[|d|..|d| + 1 + j])
    ensures DelimAt(d, open, close, s) == Some((2 * |d| + 1 + j, open + s[|d|..|d| + 1 + j] + close))
  {
  }

  /** `*text*` and `_text_`: a non-empty text holding neither the mark nor a
      newline is put in `<em>`. */
  lemma ItalicWhole(m: char, x: string)
    requires x != [] && m !in x && '\n' !in x
    ensures Pass(Italic(m), [m] + x + [m]) == "<em>" + x + "</em>"
  {
    var s := [m] + x + [m];
    assert s[1..] == x + [m] + [];
    FindCharAfter(x, m, []);
    assert s[1..|x| + 1] == x;
    ScanWhole(Italic(m), s, None);
  }

  /** A text with at most one mark is left alone by that mark's italic pass:
      `2 * 3 = 6` stays as it is. */
  lemma ItalicLone(m: char, s: string, prev: Option<char>)
    requires forall i, j :: 0 <= i < j < |s| && s[i] == m ==> s[j] != m
    ensures Scan(Italic(m), s, prev) == s
  {
    forall k | 0 <= k < |s| ensures MatchAt(Italic(m), s[k..], PrevAt(s, k, prev)).None? {
      if s[k] == m {
        assert s[k..][1..] == s[k + 1..];
        var t := s[k + 1..];
        forall j | 0 <= j < |t| ensures t[j] != m {
          assert t[j] == s[k + 1 + j];
        }
      }
    }
    ScanNoMatch(Italic(m), s, prev);
  }

  lemma ItalicLeavesProduct()
    ensures Pass(Italic('*'), "2 * 3 = 6") == "2 * 3 = 6"
  {
    var s := "2 * 3 = 6";
    forall i, j | 0 <= i < j < |s| && s[i] == '*' ensures s[j] != '*' {
      assert i == 2;
    }
    ItalicLone('*', s, None);
  }

  /** `![alt](url)` is removed. */
  lemma ImageWhole(alt: string, url: string)
    requires ']' !in alt && ')' !in url && url != []
    ensures Pass(Image, "![" + alt + "](" + url + ")") == []
  {
    var s := "![" + alt + "](" + url + ")";
    assert s[2..] == alt + [']'] + ("(" + url + ")");
    FindCharAfter(alt, ']', "(" + url + ")");
    var o := |alt| + 3;
    assert s[o] == '(';
    assert s[o + 1..] == url + [')'] + [];
    FindCharAfter(url, ')', []);
    ScanWhole(Image, s, None);
  }

  /** `[text](url)` becomes an anchor to the url around the text. */
  lemma {:induction false} LinkWhole(text: string, url: string)
    requires text != [] && ']' !in text && ')' !in url && url != []
    ensures Pass(Link, "[" + text + "](" + url + ")") == Anchor(text, url)
  {
    var s := "[" + text + "](" + url + ")";
    LinkParts(text, url);
    LinkFound(s, |text|, |url|, |s|, text, url);
    ScanWhole(Link, s, None);
  }

  /** Where the brackets of `[text](url)` are found. */
  lemma {:induction false} LinkParts(text: string, url: string)
    requires ']' !in text && ')' !in url
    ensures var s := "[" + text + "](" + url + ")";
            var o := |text| + 2;
            |s| == |text| + |url| + 4 && s[0] == '[' && FindChar(s[1..], ']') == Some(|text|)
            && s[o] == '(' && FindChar(s[o + 1..], ')') == Some(|url|)
            && s[1..|text| + 1] == text && s[o + 1..o + 1 + |url|] == url
  {
    var s := "[" + text + "](" + url + ")";
    assert s[1..] == text + [']'] + ("(" + url + ")");
    FindCharAfter(text, ']', "(" + url + ")");
    var o := |text| + 2;
    assert s[o] == '(';
    assert s[o + 1..] == url + [')'] + [];
    FindCharAfter(url, ')', []);
    assert s[1..|text| + 1] == text;
    assert s[o + 1..o + 1 + |url|] == url;
  }

  lemma {:induction false} LinkFound(s: string, a: nat, b: nat, n: nat, x: string, y: string)
    requires s != [] && s[0] == '[' && FindChar(s[1..], ']') == Some(a) && a >= 1
    requires a + 2 < |s| && s[a + 2] == '(' && FindChar(s[a + 3..], ')') == Some(b) && b >= 1
    requires n == a + b + 4 && x == s[1..a + 1] && y == s[a + 3..a + 3 + b]
    ensures MatchAt(Link, s, None) == Some((n, Anchor(x, y)))
  {
    MatchLink(s);
    LinkAtIs(s, a, b, n, x, y);
  }

  lemma {:induction false} MatchLink(s: string)
    ensures MatchAt(Link, s, None) == LinkAt(s)
  {
  }

  lemma {:induction false} LinkAtIs(s: string, a: nat, b: nat, n: nat, x: string, y: string)
    requires s != [] && s[0] == '[' && FindChar(s[1..], ']') == Some(a) && a >= 1
    requires a + 2 < |s| && s[a + 2] == '(' && FindChar(s[a + 3..], ')') == Some(b) && b >= 1
    requires n == a + b + 4 && x == s[1..a + 1] && y == s[a + 3..a + 3 + b]
    ensures LinkAt(s) == Some((n, Anchor(x, y)))
  {
  }

  /** A line of three or more of `-`, `*`, `_` becomes a horizontal rule. */
  lemma RuleWhole(s: string)
    requires |s| >= 3 && forall k :: 0 <= k < |s| ==> IsRuleMark(s[k])
    ensures Pass(Rule, s) == HrTag
  {
    RunAll(s, IsRuleMark);
    ScanWhole(Rule, s, None);
  }

  // ---------------------------------------------------------------------
  // A pass over a text in parts

  /** No match that starts in `a` sees what follows it: at every position of
      `a`, the pattern matches in `a + b` as it does in `a` alone. */
  predicate Local(p: Pattern, a: string, b: string, prev: Option<char>) {
    forall k :: 0 <= k < |a| ==> MatchAt(p, a[k..] + b, PrevAt(a, k, prev)) == MatchAt(p, a[k..], PrevAt(a, k, prev))
  }

  /** Where no match starting in `a` looks past it, the pass over `a + b` is
      the pass over `a` followed by the pass over `b`, which sees the last
      character of `a` before it. */
  lemma {:induction false} ScanSplit(p: Pattern, a: string, b: string, prev: Option<char>)
    requires Local(p, a, b, prev)
    ensures Scan(p, a + b, prev) == Scan(p, a, prev) + Scan(p, b, PrevAt(a, |a|, prev))
    decreases |a|, 1
  {
    if a == [] {
      assert a + b == b;
    } else {
      LocalHead(p, a, b, prev);
      match MatchAt(p, a, prev)
        case Some((n, rep)) =>
          ScanMatch(p, a, prev, n, rep);
          ScanMatch(p, a + b, prev, n, rep);
          SplitRest(p, a, b, prev, n, rep);
        case None =>
          ScanMiss(p, a, prev);
          ScanMiss(p, a + b, prev);
          SplitRest(p, a, b, prev, 1, [a[0]]);
    }
  }

  lemma {:induction false} SplitRest(p: Pattern, a: string, b: string, prev: Option<char>, n: nat, rep: string)
    requires 1 <= n <= |a| && Local(p, a, b, prev)
    requires Scan(p, a, prev) == rep + Scan(p, a[n..], Some(a[n - 1]))
    requires Scan(p, a + b, prev) == rep + Scan(p, (a + b)[n..], Some((a + b)[n - 1]))
    ensures Scan(p, a + b, prev) == Scan(p, a, prev) + Scan(p, b, PrevAt(a, |a|, prev))
    decreases |a|, 0
  {
    var t, c := a[n..], a[n - 1];
    LocalDrop(p, a, b, prev, n);
    DropOfConcat(a, b, n);
    ScanSplit(p, t, b, Some(c));
    ConcatAssoc(rep, Scan(p, t, Some(c)), Scan(p, b, PrevAt(a, |a|, prev)));
  }

  lemma {:induction false} DropOfConcat(a: string, b: string, n: nat)
    requires 1 <= n <= |a|
    ensures (a + b)[n..] == a[n..] + b && (a + b)[n - 1] == a[n - 1]
  {
  }

  lemma {:induction false} LocalHead(p: Pattern, a: string, b: string, prev: Option<char>)
    requires a != [] && Local(p, a, b, prev)
    ensures MatchAt(p, a + b, prev) == MatchAt(p, a, prev)
  {
    assert a[0..] == a;
  }

  lemma {:induction false} ScanMatch(p: Pattern, s: string, prev: Option<char>, n: nat, rep: string)
    requires s != [] && MatchAt(p, s, prev) == Some((n, rep))
    ensures 1 <= n <= |s| && Scan(p, s, prev) == rep + Scan(p, s[n..], Some(s[n - 1]))
  {
  }

  lemma {:induction false} ScanMiss(p: Pattern, s: string, prev: Option<char>)
    requires s != [] && MatchAt(p, s, prev).None?
    ensures Scan(p, s, prev) == [s[0]] + Scan(p, s[1..], Some(s[0]))
  {
  }

  lemma {:induction false} ConcatAssoc(a: string, b: string, c: string)
    ensures a + (b + c) == a + b + c
  {
  }

  /** Locality survives dropping the first `n` characters of `a`. */
  lemma {:induction false} LocalDrop(p: Pattern, a: string, b: string, prev: Option<char>, n: nat)
    requires 1 <= n <= |a| && Local(p, a, b, prev)
    ensures Local(p, a[n..], b, Some(a[n - 1]))
    ensures PrevAt(a[n..], |a| - n, Some(a[n - 1])) == PrevAt(a, |a|, prev)
  {
    forall k | 0 <= k < |a| - n
      ensures MatchAt(p, a[n..][k..] + b, PrevAt(a[n..], k, Some(a[n - 1])))
           == MatchAt(p, a[n..][k..], PrevAt(a[n..], k, Some(a[n - 1])))
    {
      assert a[n..][k..] == a[n + k..];
      assert PrevAt(a[n..], k, Some(a[n - 1])) == PrevAt(a, n + k, prev);
    }
  }

  /** Where the pattern's match does not depend on the character before, the
      pass does not either. */
  lemma {:induction false} ScanSamePrev(p: Pattern, s: string, p1: Option<char>, p2: Option<char>)
    requires s == [] || MatchAt(p, s, p1) == MatchAt(p, s, p2)
    ensures Scan(p, s, p1) == Scan(p, s, p2)
  {
  }

  /** The text is empty or its last character ends a line. */
  predicate EndsLine(a: string) {
    a == [] || IsLineTerm(a[|a| - 1])
  }

  /** The text is empty or its first character ends a line. */
  predicate StartsLine(b: string) {
    b == [] || IsLineTerm(b[0])
  }

  /** A line ends where `u` meets `b`. */
  predicate BreakBetween(u: string, b: string) {
    EndsLine(u) || StartsLine(b)
  }

  /** A one-line prefix is found or not found alike in `u` and in `u + b`. */
  lemma StartsWithBreak(u: string, b: string, w: string)
    requires u != [] && BreakBetween(u, b) && OneLine(w)
    ensures StartsWith(u + b, w) == StartsWith(u, w)
  {
    if |w| <= |u| {
      assert (u + b)[..|w|] == u[..|w|];
    } else if IsLineTerm(u[|u| - 1]) {
      assert (u + b)[|u| - 1] == u[|u| - 1];
      NotPrefixAt(u + b, w, |u| - 1);
    } else if b != [] {
      assert (u + b)[|u|] == b[0];
      NotPrefixAt(u + b, w, |u|);
    }
  }

  lemma NotPrefixAt(s: string, w: string, i: nat)
    requires i < |w| && (i < |s| ==> s[i] != w[i])
    ensures !StartsWith(s, w)
  {
    if |w| <= |s| {
      assert s[..|w|][i] == s[i];
    }
  }

  /** Every line prefix ends in a space. */
  lemma PrefixEndsInSpace(rule: LineRule, s: string)
    requires PrefixLen(rule, s).Some?
    ensures s[PrefixLen(rule, s).value - 1] == ' '
  {
    match rule
      case Numbered =>
        var d := Run(s, IsDigit);
        assert s[d..][..2] == ". ";
        assert s[d + 1] == s[d..][..2][1];
      case H3 => assert s[..4][3] == ' ';
      case H2 => assert s[..3][2] == ' ';
      case H1 => assert s[..2][1] == ' ';
      case Quote => assert s[..2][1] == ' ';
      case Bullet =>
  }

  /** The prefix of a line rule is decided before the line ends. */
  lemma PrefixBreak(rule: LineRule, u: string, b: string)
    requires u != [] && BreakBetween(u, b)
    ensures PrefixLen(rule, u + b) == PrefixLen(rule, u)
  {
    match rule
      case H3 => StartsWithBreak(u, b, "### ");
      case H2 => StartsWithBreak(u, b, "## ");
      case H1 => StartsWithBreak(u, b, "# ");
      case Quote => StartsWithBreak(u, b, "> ");
      case Bullet => BulletBreak(u, b);
      case Numbered => NumberedBreak(u, b);
  }

  lemma BulletBreak(u: string, b: string)
    requires u != [] && BreakBetween(u, b)
    ensures PrefixLen(Bullet, u + b) == PrefixLen(Bullet, u)
  {
    assert (u + b)[0] == u[0];
    if |u| >= 2 { assert (u + b)[1] == u[1]; }
    else if b != [] { assert (u + b)[1] == b[0]; }
  }

  lemma NumberedBreak(u: string, b: string)
    requires u != [] && BreakBetween(u, b)
    ensures PrefixLen(Numbered, u + b) == PrefixLen(Numbered, u)
  {
    RunBreak(u, b, IsDigit);
    var d := Run(u, IsDigit);
    assert (u + b)[d..] == u[d..] + b;
    if d < |u| {
      BreakSuffix(u, b, d);
      StartsWithBreak(u[d..], b, ". ");
    } else {
      AllDigitsBreak(u, b);
    }
  }

  /** A line of digits only is followed by a line break, never by `. `. */
  lemma AllDigitsBreak(u: string, b: string)
    requires u != [] && BreakBetween(u, b) && Run(u, IsDigit) == |u|
    ensures !StartsWith(u[|u|..], ". ") && !StartsWith(u[|u|..] + b, ". ")
  {
    assert u[|u|..] == [] && u[|u|..] + b == b;
    assert !IsLineTerm(u[|u| - 1]) by { assert IsDigit(u[|u| - 1]); }
    if b != [] {
      NotPrefixAt(b, ". ", 0);
    }
  }

  /** Cutting a non-empty front off `u` keeps a line break between it and `b`. */
  lemma BreakSuffix(u: string, b: string, d: nat)
    requires d < |u| && BreakBetween(u, b)
    ensures u[d..] != [] && BreakBetween(u[d..], b)
  {
    assert u[d..][|u| - d - 1] == u[|u| - 1];
  }

  /** A line rule matches in `u + b` exactly as in `u` when a line ends
      between them. */
  lemma {:induction false} LineAtBreak(rule: LineRule, u: string, b: string)
    requires u != [] && BreakBetween(u, b)
    ensures LineAt(rule, u + b) == LineAt(rule, u)
  {
    LineTitleBreak(rule, u, b);
  }

  lemma {:induction false} LineTitleBreak(rule: LineRule, u: string, b: string)
    requires u != [] && BreakBetween(u, b)
    ensures LineTitle(rule, u + b) == LineTitle(rule, u)
  {
    PrefixBreak(rule, u, b);
    if PrefixLen(rule, u).Some? {
      var q := PrefixLen(rule, u).value;
      PrefixEndsInSpace(rule, u);
      LineTextBreak(u, b, q);
    }
  }

  /** The rest of a line is the same in `u` and in `u + b`. */
  lemma {:induction false} LineTextBreak(u: string, b: string, q: nat)
    requires q <= |u| && BreakBetween(u, b) && (q < |u| || StartsLine(b))
    ensures LineText(u + b, q) == LineText(u, q)
  {
    var t := u[q..];
    assert (u + b)[q..] == t + b;
    if q < |u| {
      assert t[|t| - 1] == u[|u| - 1];
    }
    RunBreak(t, b, NotLineTerm);
    var n := Run(t, NotLineTerm);
    if n >= 1 {
      assert (u + b)[q..q + n] == u[q..q + n];
      LineTextIs(u + b, q, n);
      LineTextIs(u, q, n);
      TrimSame((u + b)[q..q + n], u[q..q + n]);
    } else {
      LineTextNone(u + b, q);
      LineTextNone(u, q);
    }
  }

  lemma {:induction false} LineTextNone(s: string, q: nat)
    requires q <= |s| && Run(s[q..], NotLineTerm) == 0
    ensures LineText(s, q).None?
  {
  }

  /** A rule line is decided before the line ends. */
  lemma RuleAtBreak(u: string, b: string)
    requires u != [] && BreakBetween(u, b)
    ensures RuleAt(u + b) == RuleAt(u)
  {
    RunBreak(u, b, IsRuleMark);
    var n := Run(u, IsRuleMark);
    if n < |u| {
      assert (u + b)[n] == u[n];
    } else if b != [] {
      assert (u + b)[n] == b[0];
    }
  }

  /** A line-anchored pattern never looks past the end of a line. */
  lemma LocalLines(p: Pattern, a: string, b: string, prev: Option<char>)
    requires (p.Line? || p.Rule?) && BreakBetween(a, b)
    ensures Local(p, a, b, prev)
  {
    forall k | 0 <= k < |a|
      ensures MatchAt(p, a[k..] + b, PrevAt(a, k, prev)) == MatchAt(p, a[k..], PrevAt(a, k, prev))
    {
      var u := a[k..];
      assert u[|u| - 1] == a[|a| - 1];
      if p.Line? {
        LineAtBreak(p.rule, u, b);
      } else {
        RuleAtBreak(u, b);
      }
    }
  }

  /** A line-anchored pass sees only whether a line starts. */
  lemma LineStartPrev(p: Pattern, s: string, p1: Option<char>, p2: Option<char>)
    requires (p.Line? || p.Rule?) && AtLineStart(p1) == AtLineStart(p2)
    ensures Scan(p, s, p1) == Scan(p, s, p2)
  {
    ScanSamePrev(p, s, p1, p2);
  }

  /** A text that begins with a line terminator is passed alike after any
      character. */
  lemma StartsLinePrev(p: Pattern, b: string, prev: Option<char>)
    requires (p.Line? || p.Rule?) && StartsLine(b)
    ensures Scan(p, b, prev) == Pass(p, b)
  {
    if b != [] {
      TermNoMatch(p, b, prev);
      TermNoMatch(p, b, None);
      ScanSamePrev(p, b, prev, None);
    }
  }

  /** A line-anchored pass works line by line: over whole lines `m` between
      a text `a` that ends a line and a text `b` that starts with a line
      terminator, it is the pass over each part on its own. */
  lemma {:induction false} PassParts(p: Pattern, a: string, m: string, b: string)
    requires (p.Line? || p.Rule?) && EndsLine(a) && StartsLine(b)
    ensures Pass(p, a + m + b) == Pass(p, a) + Pass(p, m) + Pass(p, b)
  {
    LocalLines(p, a + m, b, None);
    ScanSplit(p, a + m, b, None);
    StartsLinePrev(p, b, PrevAt(a + m, |a + m|, None));
    LocalLines(p, a, m, None);
    ScanSplit(p, a, m, None);
    LineStartPrev(p, m, PrevAt(a, |a|, None), None);
  }

  /** A line-anchored pass keeps the line terminator that ends a text. */
  lemma {:induction false} PassEndsLine(p: Pattern, a: string)
    requires (p.Line? || p.Rule?) && EndsLine(a)
    ensures EndsLine(Pass(p, a))
  {
    if a != [] {
      var a' := a[..|a| - 1];
      var t := [a[|a| - 1]];
      assert a == a' + t;
      LocalLines(p, a', t, None);
      ScanSplit(p, a', t, None);
      var pv := PrevAt(a', |a'|, None);
      TermNoMatch(p, t, pv);
      ScanMiss(p, t, pv);
      assert t[1..] == [];
    }
  }

  /** A line-anchored pass keeps the line terminator that starts a text. */
  lemma {:induction false} PassStartsLine(p: Pattern, b: string)
    requires (p.Line? || p.Rule?) && StartsLine(b)
    ensures StartsLine(Pass(p, b))
  {
    if b != [] {
      TermNoMatch(p, b, None);
      ScanMiss(p, b, None);
    }
  }

  /** No line-anchored match begins with a line terminator. */
  lemma {:induction false} TermNoMatch(p: Pattern, s: string, prev: Option<char>)
    requires (p.Line? || p.Rule?) && s != [] && IsLineTerm(s[0])
    ensures MatchAt(p, s, prev).None?
  {
    assert !Lead(p, s[0]);
  }

  /** A prefixed line inside a text becomes the rule's element in place; the
      lines around it are passed on their own. */
  lemma LineInText(rule: LineRule, a: string, s: string, b: string)
    requires EndsLine(a) && StartsLine(b)
    requires PrefixLen(rule, s).Some? && PrefixLen(rule, s).value < |s| && OneLine(s)
    ensures Pass(Line(rule), a + s + b)
         == Pass(Line(rule), a) + Wrap(rule, Trim(s[PrefixLen(rule, s).value..])) + Pass(Line(rule), b)
  {
    PassParts(Line(rule), a, s, b);
    LineWhole(rule, s);
  }

  /** A rule line inside a text becomes a horizontal rule in place. */
  lemma RuleInText(a: string, s: string, b: string)
    requires EndsLine(a) && StartsLine(b)
    requires |s| >= 3 && forall k :: 0 <= k < |s| ==> IsRuleMark(s[k])
    ensures Pass(Rule, a + s + b) == Pass(Rule, a) + HrTag + Pass(Rule, b)
  {
    PassParts(Rule, a, s, b);
    RuleWhole(s);
  }

  // ---------------------------------------------------------------------
  // Headings are tried from the deepest level up

  lemma OneLineTrim(x: string)
    requires OneLine(x)
    ensures OneLine(Trim(x))
  {
    var t := TrimStart(x);
    OneLineFrom(x, |x| - |t|);
    OneLineUpTo(t, |TrimEnd(t)|);
  }

  /** A heading made from one line is one line and starts with `<`. */
  lemma HeadingOneLine(rule: LineRule, t: string)
    requires rule == H3 || rule == H2 || rule == H1
    requires OneLine(t)
    ensures OneLine(Wrap(rule, t)) && Wrap(rule, t)[0] == '<'
  {
    HeadingTagsOneLine();
    var (open, close) := match rule case H3 => (H3Open, "</h3>") case H2 => (H2Open, "</h2>") case _ => (H1Open, "</h1>");
    assert Wrap(rule, t) == open + t + close;
    OneLineConcat(open, t);
    OneLineConcat(open + t, close);
  }

  /** A line-anchored pass finds no line start inside one line. */
  lemma LineSkipsMidLine(rule: LineRule, s: string, prev: Option<char>)
    requires prev.Some? && !IsLineTerm(prev.value) && OneLine(s)
    ensures Scan(Line(rule), s, prev) == s
  {
    ScanNoMatch(Line(rule), s, prev);
  }

  /** A one-line text that does not open with the rule's prefix is left alone. */
  lemma LineSkips(rule: LineRule, s: string)
    requires OneLine(s) && PrefixLen(rule, s).None?
    ensures Pass(Line(rule), s) == s
  {
    if s != [] {
      ScanMiss(Line(rule), s, None);
      LineSkipsMidLine(rule, s[1..], Some(s[0]));
      assert s == [s[0]] + s[1..];
    }
  }

  /** The three heading passes, deepest first. */
  function Headings(s: string): string {
    Pass(Line(H1), Pass(Line(H2), Pass(Line(H3), s)))
  }

  /** A `### t` line inside a text becomes a level-3 heading in place, which
      the later heading passes leave alone; the lines around it are passed on
      their own. */
  lemma HeadingLevel3(a: string, x: string, b: string)
    requires EndsLine(a) && StartsLine(b) && x != [] && OneLine(x)
    ensures Headings(a + ("### " + x) + b) == Headings(a) + Wrap(H3, Trim(x)) + Headings(b)
  {
    var s := "### " + x;
    var w := Wrap(H3, Trim(x));
    OneLineConcat("### ", x);
    PrefixOf3(x);
    LineWholeAt(H3, s, 4, x);
    HeadingSkips(H2, H3, x);
    HeadingSkips(H1, H3, x);
    HeadingsInText(a, s, w, w, w, b);
  }

  /** A `## t` line inside a text is not taken by the level-3 pass and
      becomes a level-2 heading in place. */
  lemma HeadingLevel2(a: string, x: string, b: string)
    requires EndsLine(a) && StartsLine(b) && x != [] && OneLine(x)
    ensures Headings(a + ("## " + x) + b) == Headings(a) + Wrap(H2, Trim(x)) + Headings(b)
  {
    var s := "## " + x;
    var w := Wrap(H2, Trim(x));
    OneLineConcat("## ", x);
    PrefixOf2(x);
    LineSkips(H3, s);
    LineWholeAt(H2, s, 3, x);
    HeadingSkips(H1, H2, x);
    HeadingsInText(a, s, s, w, w, b);
  }

  /** A `# t` line inside a text is taken by neither deeper pass and becomes
      a level-1 heading in place. */
  lemma HeadingLevel1(a: string, x: string, b: string)
    requires EndsLine(a) && StartsLine(b) && x != [] && OneLine(x)
    ensures Headings(a + ("# " + x) + b) == Headings(a) + Wrap(H1, Trim(x)) + Headings(b)
  {
    var s := "# " + x;
    OneLineConcat("# ", x);
    PrefixOf1(x);
    LineSkips(H3, s);
    LineSkips(H2, s);
    LineWholeAt(H1, s, 2, x);
    HeadingsInText(a, s, s, s, Wrap(H1, Trim(x)), b);
  }

  /** The heading passes over a line between whole lines: each pass works on
      the line and on the text around it separately. */
  lemma {:induction false} HeadingsInText(a: string, s: string, l3: string, l2: string, l1: string, b: string)
    requires EndsLine(a) && StartsLine(b)
    requires Pass(Line(H3), s) == l3 && Pass(Line(H2), l3) == l2 && Pass(Line(H1), l2) == l1
    ensures Headings(a + s + b) == Headings(a) + l1 + Headings(b)
  {
    var a3, b3 := Pass(Line(H3), a), Pass(Line(H3), b);
    PassParts(Line(H3), a, s, b);
    PassEndsLine(Line(H3), a);
    PassStartsLine(Line(H3), b);
    var a2, b2 := Pass(Line(H2), a3), Pass(Line(H2), b3);
    PassParts(Line(H2), a3, l3, b3);
    PassEndsLine(Line(H2), a3);
    PassStartsLine(Line(H2), b3);
    PassParts(Line(H1), a2, l2, b2);
  }

  lemma PrefixOf3(x: string)
    ensures PrefixLen(H3, "### " + x) == Some(4) && ("### " + x)[4..] == x
  {
  }

  lemma PrefixOf2(x: string)
    ensures PrefixLen(H3, "## " + x).None?
    ensures PrefixLen(H2, "## " + x) == Some(3) && ("## " + x)[3..] == x
  {
    var s := "## " + x;
    assert s[2] == ' ';
    if |s| >= 4 { assert s[..4][2] == ' '; }
  }

  lemma PrefixOf1(x: string)
    ensures PrefixLen(H3, "# " + x).None? && PrefixLen(H2, "# " + x).None?
    ensures PrefixLen(H1, "# " + x) == Some(2) && ("# " + x)[2..] == x
  {
    var s := "# " + x;
    assert s[1] == ' ';
    if |s| >= 3 { assert s[..3][1] == ' '; }
    if |s| >= 4 { assert s[..4][1] == ' '; }
  }

  /** A line-anchored pass with the whole one-line text after its prefix. */
  lemma LineWholeAt(rule: LineRule, s: string, q: nat, x: string)
    requires PrefixLen(rule, s) == Some(q) && q <= |s| && s[q..] == x && x != [] && OneLine(s)
    ensures Pass(Line(rule), s) == Wrap(rule, Trim(x))
  {
    LineWhole(rule, s);
  }

  /** A heading made from one line is left alone by every heading pass. */
  lemma HeadingSkips(pass: LineRule, rule: LineRule, x: string)
    requires pass == H3 || pass == H2 || pass == H1
    requires rule == H3 || rule == H2 || rule == H1
    requires OneLine(x)
    ensures Pass(Line(pass), Wrap(rule, Trim(x))) == Wrap(rule, Trim(x))
  {
    OneLineTrim(x);
    var w := Wrap(rule, Trim(x));
    HeadingOneLine(rule, Trim(x));
    TagNoHeadingPrefix(pass, w);
    LineSkips(pass, w);
  }

  lemma TagNoHeadingPrefix(pass: LineRule, w: string)
    requires pass == H3 || pass == H2 || pass == H1
    requires w != [] && w[0] == '<'
    ensures PrefixLen(pass, w).None?
  {
    if |w| >= 2 { assert w[..2][0] == '<'; }
    if |w| >= 3 { assert w[..3][0] == '<'; }
    if |w| >= 4 { assert w[..4][0] == '<'; }
  }
}
