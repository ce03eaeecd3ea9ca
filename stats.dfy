/** The title split and the statistics of `wrapFullHtml`
    (format-wechat.js:205-228): the first `<h1>` element of the converted
    HTML is the title and the rest the body; the raw Markdown without its
    markers is counted. */
module Stats {
  import opened Strings
  import Rewrite
  import Protect

  // ---------------------------------------------------------------------
  // The title: content.match(/<h1[^>]*>(.*?)<\/h1>/)

  /** `<h1` at the start of `t`. */
  predicate OpensH1(t: string) {
    |t| >= 3 && t[0] == '<' && t[1] == 'h' && t[2] == '1'
  }

  /** `</h1>` at the start of `r`. */
  predicate ClosesH1(r: string) {
    |r| >= 5 && r[0] == '<' && r[1] == '/' && r[2] == 'h' && r[3] == '1' && r[4] == '>'
  }

  /** `(.*?)<\/h1>` at the start of `r`: the lazy group grows one character
      at a time, never over a line terminator, until `</h1>` follows it. */
  function CloseAt(r: string): (k: Option<nat>)
    ensures k.Some? ==> k.value + 5 <= |r| && ClosesH1(r[k.value..])
    decreases |r|
  {
    if ClosesH1(r) then Some(0)
    else if r == [] || IsLineTerm(r[0]) then None
    else match CloseAt(r[1..])
      case None => None
      case Some(k) => Some(k + 1)
  }

  /** The text before the closing tag is the shortest one: it is on one line
      and `</h1>` occurs nowhere earlier. */
  lemma {:induction false} CloseAtShortest(r: string)
    requires CloseAt(r).Some?
    ensures var k := CloseAt(r).value;
            OneLine(r[..k]) && forall q :: 0 <= q < k ==> !ClosesH1(r[q..])
    decreases |r|
  {
    var k := CloseAt(r).value;
    if k > 0 {
      CloseAtShortest(r[1..]);
      forall q | 0 <= q < k ensures !ClosesH1(r[q..]) {
        if q > 0 {
          assert r[q..] == r[1..][q - 1..];
        }
      }
      assert r[..k] == [r[0]] + r[1..][..k - 1];
    }
  }

  /** The closing tag is found again in a text that agrees up to its end. */
  lemma {:induction false} CloseAtSame(a: string, b: string, k: nat)
    requires CloseAt(a) == Some(k) && k + 5 <= |b| && forall q :: 0 <= q < k + 5 ==> b[q] == a[q]
    ensures CloseAt(b) == Some(k)
    decreases k
  {
    if k > 0 {
      CloseAtSame(a[1..], b[1..], k - 1);
    }
  }

  /** `[^>]*>` at the start of `r`: the position of the first `>`. */
  function AttrsEnd(r: string): (k: Option<nat>)
    ensures k.Some? ==> k.value < |r| && r[k.value] == '>'
  {
    if r == [] then None
    else if r[0] == '>' then Some(0)
    else match AttrsEnd(r[1..])
      case None => None
      case Some(k) => Some(k + 1)
  }

  /** The attributes hold no `>`. */
  lemma {:induction false} AttrsEndFirst(r: string)
    requires AttrsEnd(r).Some?
    ensures forall q :: 0 <= q < AttrsEnd(r).value ==> r[q] != '>'
  {
    if r[0] != '>' {
      AttrsEndFirst(r[1..]);
    }
  }

  lemma {:induction false} AttrsEndSame(a: string, b: string, j: nat)
    requires AttrsEnd(a) == Some(j) && j < |b| && forall q :: 0 <= q <= j ==> b[q] == a[q]
    ensures AttrsEnd(b) == Some(j)
    decreases j
  {
    if j > 0 {
      AttrsEndSame(a[1..], b[1..], j - 1);
    }
  }

  /** The length of a title element at the start of `t`: `<h1`, the
      attributes up to the first `>`, then the shortest text on one line up
      to `</h1>`. */
  function TitleAt(t: string): (r: Option<nat>)
    ensures r.Some? ==> 9 <= r.value <= |t|
  {
    if !OpensH1(t) then None
    else match AttrsEnd(t[3..])
      case None => None
      case Some(j) =>
        match CloseAt(t[4 + j..])
          case None => None
          case Some(k) => Some(4 + j + k + 5)
  }

  /** No title element starts at position `j` of `s`. */
  predicate NoTitleAt(s: string, j: nat)
    requires j <= |s|
  {
    TitleAt(s[j..]).None?
  }

  /** The leftmost title element from position `i` on: where it starts and
      how long it is. */
  function FirstTitle(s: string, i: nat): (r: Option<(nat, nat)>)
    requires i <= |s|
    ensures r.Some? ==> i <= r.value.0 && 9 <= r.value.1 && r.value.0 + r.value.1 <= |s|
    decreases |s| - i
  {
    match TitleAt(s[i..])
      case Some(n) => Some((i, n))
      case None => if i == |s| then None else FirstTitle(s, i + 1)
  }

  /** `r` is the leftmost title element of `s` from position `i` on: a title
      element with none starting earlier, or nothing when none starts
      anywhere from `i` on. */
  predicate Leftmost(s: string, i: nat, r: Option<(nat, nat)>)
    requires i <= |s|
  {
    (r.None? ==> forall j :: i <= j <= |s| ==> NoTitleAt(s, j))
    && (r.Some? ==> i <= r.value.0 <= |s| && TitleAt(s[r.value.0..]) == Some(r.value.1)
                    && forall j :: i <= j < r.value.0 ==> NoTitleAt(s, j))
  }

  /** What `FirstTitle` finds is the leftmost title element. */
  lemma {:induction false} FirstTitleLeftmost(s: string, i: nat)
    requires i <= |s|
    ensures Leftmost(s, i, FirstTitle(s, i))
    decreases |s| - i
  {
    match TitleAt(s[i..])
      case Some(n) =>
        FirstTitleHit(s, i, n);
      case None =>
        if i == |s| {
          FirstTitleEnd(s, i);
        } else {
          FirstTitleMiss(s, i);
          FirstTitleLeftmost(s, i + 1);
          LeftmostBack(s, i, FirstTitle(s, i + 1));
        }
  }

  lemma {:induction false} FirstTitleHit(s: string, i: nat, n: nat)
    requires i <= |s| && TitleAt(s[i..]) == Some(n)
    ensures FirstTitle(s, i) == Some((i, n)) && Leftmost(s, i, Some((i, n)))
  {
  }

  lemma {:induction false} FirstTitleEnd(s: string, i: nat)
    requires i == |s| && TitleAt(s[i..]).None?
    ensures FirstTitle(s, i).None? && Leftmost(s, i, None)
  {
  }

  lemma {:induction false} FirstTitleMiss(s: string, i: nat)
    requires i < |s| && TitleAt(s[i..]).None?
    ensures FirstTitle(s, i) == FirstTitle(s, i + 1)
  {
  }

  lemma {:induction false} LeftmostBack(s: string, i: nat, r: Option<(nat, nat)>)
    requires i < |s| && NoTitleAt(s, i) && Leftmost(s, i + 1, r)
    ensures Leftmost(s, i, r)
  {
  }

  /** The preview page's two parts. */
  datatype Page = Page(title: string, body: string)

  /** `title = match[0]`; `body = content.replace(match[0], '').trim()`, or the
      content unchanged when there is no title. */
  function SplitTitle(content: string): Page {
    match FirstTitle(content, 0)
      case None => Page([], content)
      case Some(m) => CutTitle(content, m.0, m.1)
  }

  /** The page of a title found at `i`, `n` characters long. */
  function CutTitle(content: string, i: nat, n: nat): Page
    requires i + n <= |content|
  {
    var title := content[i..i + n];
    Page(title, Trim(Protect.ReplaceFirst(content, title, [])))
  }

  /** The parts of a title element at the start of `t`. */
  lemma {:induction false} TitleAtParts(t: string, n: nat)
    requires TitleAt(t) == Some(n)
    ensures OpensH1(t) && AttrsEnd(t[3..]).Some?
    ensures var j := AttrsEnd(t[3..]).value;
            CloseAt(t[4 + j..]).Some? && n == 4 + j + CloseAt(t[4 + j..]).value + 5
  {
  }

  lemma {:induction false} TitleAtIs(t: string, j: nat, k: nat, n: nat)
    requires OpensH1(t) && AttrsEnd(t[3..]) == Some(j) && CloseAt(t[4 + j..]) == Some(k)
    requires n == 4 + j + k + 5
    ensures TitleAt(t) == Some(n)
  {
  }

  /** A text holding the characters of a title element at its start has that
      element there too: the match looks at nothing past its own end. */
  lemma {:induction false} TitleAtSame(t: string, u: string, n: nat)
    requires TitleAt(t) == Some(n) && n <= |u| && forall q :: 0 <= q < n ==> u[q] == t[q]
    ensures TitleAt(u) == Some(n)
  {
    TitleAtParts(t, n);
    var j := AttrsEnd(t[3..]).value;
    var k := CloseAt(t[4 + j..]).value;
    PartsSame(t, u, j, k);
    TitleAtIs(u, j, k, n);
  }

  lemma {:induction false} PartsSame(t: string, u: string, j: nat, k: nat)
    requires OpensH1(t) && AttrsEnd(t[3..]) == Some(j) && CloseAt(t[4 + j..]) == Some(k)
    requires 4 + j + k + 5 <= |u| && forall q :: 0 <= q < 4 + j + k + 5 ==> u[q] == t[q]
    ensures OpensH1(u) && AttrsEnd(u[3..]) == Some(j) && CloseAt(u[4 + j..]) == Some(k)
  {
    AttrsEndSame(t[3..], u[3..], j);
    CloseAtSame(t[4 + j..], u[4 + j..], k);
  }

  /** The matched title first occurs where it was matched, so the string
      `replace` removes that very element. */
  lemma {:induction false} TitleFirstOccurrence(s: string, i: nat, n: nat)
    requires FirstTitle(s, 0) == Some((i, n))
    ensures IndexOf(s, s[i..i + n]) == Some(i)
  {
    var title := s[i..i + n];
    forall j | 0 <= j < i ensures !OccursAt(s, title, j) {
      NotEarlier(s, i, n, j, title);
    }
    IndexOfIs(s, title, i);
  }

  lemma {:induction false} NotEarlier(s: string, i: nat, n: nat, j: nat, title: string)
    requires FirstTitle(s, 0) == Some((i, n)) && j < i && title == s[i..i + n]
    ensures !OccursAt(s, title, j)
  {
    FirstTitleFacts(s, i, n, j);
    if OccursAt(s, title, j) {
      assert forall q :: 0 <= q < n ==> s[j..][q] == title[q] == s[i..][q];
      TitleAtSame(s[i..], s[j..], n);
      assert false;
    }
  }

  /** The facts of a found title: it is there, and none starts at `j` before it. */
  lemma {:induction false} FirstTitleFacts(s: string, i: nat, n: nat, j: nat)
    requires FirstTitle(s, 0) == Some((i, n)) && j < i
    ensures TitleAt(s[i..]) == Some(n) && NoTitleAt(s, j)
  {
    FirstTitleLeftmost(s, 0);
  }

  lemma {:induction false} FirstTitleThere(s: string, i: nat, n: nat)
    requires FirstTitle(s, 0) == Some((i, n))
    ensures TitleAt(s[i..]) == Some(n)
  {
    FirstTitleLeftmost(s, 0);
  }

  /** Without a title element the content is the body, untrimmed. */
  lemma SplitTitleMissing(content: string)
    requires FirstTitle(content, 0).None?
    ensures SplitTitle(content) == Page([], content)
  {
  }

  /** The title is the leftmost `<h1 …>…</h1>` element, and the body is what
      is left around it, trimmed. */
  lemma {:induction false} SplitTitleFound(content: string, i: nat, n: nat)
    requires FirstTitle(content, 0) == Some((i, n))
    ensures var page := SplitTitle(content);
            page.title == content[i..i + n]
            && OpensH1(page.title) && ClosesH1(page.title[n - 5..])
            && page.body == Trim(content[..i] + content[i + n..])
  {
    var t := content[i..i + n];
    FirstTitleThere(content, i, n);
    TitleShapeAt(content, i, n, t);
    TitleFirstOccurrence(content, i, n);
    SplitTitleIs(content, i, n);
    CutTitleBody(content, i, n, t);
  }

  lemma SplitTitleIs(content: string, i: nat, n: nat)
    requires FirstTitle(content, 0) == Some((i, n))
    ensures i + n <= |content| && SplitTitle(content) == CutTitle(content, i, n)
  {
  }

  lemma CutTitleBody(content: string, i: nat, n: nat, t: string)
    requires i + n <= |content| && t == content[i..i + n] && IndexOf(content, t) == Some(i)
    ensures CutTitle(content, i, n) == Page(t, Trim(content[..i] + content[i + n..]))
  {
    var r := Protect.ReplaceFirst(content, t, []);
    assert r == content[..i] + content[i + n..] by {
      assert |t| == n;
      RemoveFirstAt(content, t, i);
    }
    assert CutTitle(content, i, n) == Page(t, Trim(r));
  }

  lemma {:induction false} TitleShapeAt(s: string, i: nat, n: nat, t: string)
    requires i <= |s| && TitleAt(s[i..]) == Some(n) && t == s[i..i + n]
    ensures OpensH1(t) && ClosesH1(t[n - 5..])
  {
    TitleShape(s[i..], n);
    assert s[i..][..n] == t;
  }

  lemma TitleShape(t: string, n: nat)
    requires TitleAt(t) == Some(n)
    ensures OpensH1(t[..n]) && ClosesH1(t[..n][n - 5..])
  {
    TitleAtParts(t, n);
    var j := AttrsEnd(t[3..]).value;
    var r := t[4 + j..];
    var k := CloseAt(r).value;
    assert ClosesH1(r[k..]);
    assert forall q :: 0 <= q < 3 ==> t[..n][q] == t[q];
    var c := t[..n][n - 5..];
    assert forall q :: 0 <= q < 5 ==> c[q] == r[k..][q];
  }

  /** Replacing the first occurrence of a text by nothing cuts it out. */
  lemma RemoveFirstAt(s: string, p: string, i: nat)
    requires IndexOf(s, p) == Some(i)
    ensures Protect.ReplaceFirst(s, p, []) == s[..i] + s[i + |p|..]
  {
    assert Protect.Expand([], s[..i], p, s[i + |p|..]) == [];
  }

  /** A heading element with an attribute is found whole. */
  lemma {:induction false} TitleExample(s: string)
    requires s == "<h1 a>T</h1>\nx"
    ensures SplitTitle(s) == Page("<h1 a>T</h1>", "x")
  {
    FirstTitleExample(s);
    ExampleParts(s);
    PageIs(s, 0, 12, "<h1 a>T</h1>", "x");
  }

  lemma {:induction false} PageIs(content: string, i: nat, n: nat, title: string, body: string)
    requires FirstTitle(content, 0) == Some((i, n))
    requires title == content[i..i + n] && body == Trim(content[..i] + content[i + n..])
    ensures SplitTitle(content) == Page(title, body)
  {
    SplitTitleFound(content, i, n);
  }

  lemma {:induction false} FirstTitleExample(s: string)
    requires s == "<h1 a>T</h1>\nx"
    ensures FirstTitle(s, 0) == Some((0, 12))
  {
    TitleAtExample(s);
    assert s[0..] == s;
  }

  lemma {:induction false} ExampleParts(s: string)
    requires s == "<h1 a>T</h1>\nx"
    ensures "<h1 a>T</h1>" == s[0..0 + 12] && "x" == Trim(s[..0] + s[0 + 12..])
  {
    ExampleSlices(s);
    TrimExample();
  }

  lemma {:induction false} ExampleSlices(s: string)
    requires s == "<h1 a>T</h1>\nx"
    ensures s[0..0 + 12] == "<h1 a>T</h1>" && s[..0] + s[0 + 12..] == "\nx"
  {
  }

  lemma TitleAtExample(s: string)
    requires s == "<h1 a>T</h1>\nx"
    ensures TitleAt(s) == Some(12)
  {
    assert OpensH1(s);
    assert s[3..] == " a>T</h1>\nx";
    assert AttrsEnd(s[3..]) == Some(2) by {
      assert s[3..][1..] == "a>T</h1>\nx";
      assert s[3..][1..][1..] == ">T</h1>\nx";
      assert AttrsEnd(s[3..][1..][1..]) == Some(0);
      assert AttrsEnd(s[3..][1..]) == Some(1);
    }
    var rest := s[6..];
    assert rest == "T</h1>\nx";
    assert CloseAt(rest) == Some(1) by {
      assert rest[1..] == "</h1>\nx";
      assert ClosesH1(rest[1..]);
      assert !ClosesH1(rest);
    }
  }

  lemma TrimExample()
    ensures Trim("\nx") == "x"
  {
    assert "\n" + "x" == "\nx";
    assert AllWs("\n");
    TrimStartWs("\n", "x");
    TrimOfTrimmed("x");
  }

  // ---------------------------------------------------------------------
  // The plain text: the marker-stripping chain

  /** The strip passes, in the order they run. */
  datatype Strip =
    | Hashes      // /^#+\s+/gm -> ''
    | Bold        // /\*\*(.+?)\*\*/g -> '$1'
    | Em          // /\*(.+?)\*/g -> '$1'
    | LinkText    // /\[([^\]]+)\]\([^)]+\)/g -> '$1'
    | Marker      // /[-*+] /gm -> '' (no anchor: anywhere in a line)
    | Ordinal     // /^\d+\. /gm -> ''
    | Newlines    // /\n+/g -> '\n'

  predicate IsHash(c: char) { c == '#' }
  predicate IsNewline(c: char) { c == '\n' }

  /** The match of a strip pass at the start of `s`, `prev` being the
      character before it: its length and its replacement, never longer
      than the match. */
  function StripAt(p: Strip, s: string, prev: Option<char>): (r: Option<(nat, string)>)
    ensures r.Some? ==> 1 <= r.value.0 <= |s| && |r.value.1| <= r.value.0
    ensures r.Some? ==> StripLead(p, s[0])
  {
    match p
      case Hashes => HashesAt(s, prev)
      case Bold => Rewrite.DelimAt("**", [], [], s)
      case Em => Rewrite.DelimAt("*", [], [], s)
      case LinkText => LinkTextAt(s)
      case Marker =>
        if |s| >= 2 && (s[0] == '-' || s[0] == '*' || s[0] == '+') && s[1] == ' ' then Some((2, [])) else None
      case Ordinal => OrdinalAt(s, prev)
      case Newlines =>
        var n := Run(s, IsNewline);
        if n >= 1 then Some((n, "\n")) else None
  }

  /** The characters a match of each strip pass can begin with. */
  predicate StripLead(p: Strip, c: char) {
    match p
      case Hashes => c == '#'
      case Bold => c == '*'
      case Em => c == '*'
      case LinkText => c == '['
      case Marker => c == '-' || c == '*' || c == '+'
      case Ordinal => Rewrite.IsDigit(c)
      case Newlines => c == '\n'
  }

  /** `^#+\s+` */
  function HashesAt(s: string, prev: Option<char>): (r: Option<(nat, string)>)
    ensures r.Some? ==> 1 <= r.value.0 <= |s| && r.value.1 == []
  {
    var h := Run(s, IsHash);
    var w := Run(s[h..], IsWs);
    if Rewrite.AtLineStart(prev) && h >= 1 && w >= 1 then Some((h + w, [])) else None
  }

  /** `\[([^\]]+)\]\([^)]+\)` replaced by its text. */
  function LinkTextAt(s: string): (r: Option<(nat, string)>)
    ensures r.Some? ==> 1 <= r.value.0 <= |s| && |r.value.1| < r.value.0 && s[0] == '['
  {
    match Rewrite.LinkAt(s)
      case None => None
      case Some((n, _)) =>
        var a := FindChar(s[1..], ']');
        if a.Some? && a.value + 1 <= n then Some((n, s[1..a.value + 1])) else None
  }

  /** `^\d+\. ` */
  function OrdinalAt(s: string, prev: Option<char>): (r: Option<(nat, string)>)
    ensures r.Some? ==> 2 <= r.value.0 <= |s| && r.value.1 == []
  {
    var d := Run(s, Rewrite.IsDigit);
    if Rewrite.AtLineStart(prev) && d >= 1 && StartsWith(s[d..], ". ") then Some((d + 2, [])) else None
  }

  /** A global replace of a strip pass, scanned as the rewrite passes are. */
  function StripScan(p: Strip, s: string, prev: Option<char>): (r: string)
    ensures |r| <= |s|
    decreases |s|, 1
  {
    if s == [] then [] else StripStep(p, s, StripAt(p, s, prev))
  }

  /** One step of the scan, `m` being the match at the start of `s`. */
  function StripStep(p: Strip, s: string, m: Option<(nat, string)>): (r: string)
    requires s != [] && (m.Some? ==> 1 <= m.value.0 <= |s| && |m.value.1| <= m.value.0)
    ensures |r| <= |s|
    decreases |s|, 0
  {
    match m
      case Some((n, rep)) => rep + StripScan(p, s[n..], Some(s[n - 1]))
      case None => [s[0]] + StripScan(p, s[1..], Some(s[0]))
  }

  function StripPass(p: Strip, s: string): string {
    StripScan(p, s, None)
  }

  /** `plainText`: the Markdown without heading, emphasis, link and list
      markers, blank runs merged, trimmed. */
  function PlainText(markdown: string): (r: string)
    ensures |r| <= |markdown|
  {
    Trim(StripPass(Newlines, Unlisted(Unemphasised(markdown))))
  }

  /** The first three passes: heading markers, bold and italic. */
  function Unemphasised(markdown: string): string {
    StripPass(Em, StripPass(Bold, StripPass(Hashes, markdown)))
  }

  /** The next three passes: links, list markers and ordinals. */
  function Unlisted(s: string): string {
    StripPass(Ordinal, StripPass(Marker, StripPass(LinkText, s)))
  }

  /** No two line feeds in a row. */
  predicate NoBlankLine(s: string) {
    forall i, j :: 0 <= i && j == i + 1 < |s| ==> !(s[i] == '\n' && s[j] == '\n')
  }

  /** Merging newline runs leaves no two line feeds in a row, and keeps the
      first character. */
  lemma {:induction false} NewlinesMerged(s: string, prev: Option<char>)
    ensures var r := StripScan(Newlines, s, prev);
            NoBlankLine(r) && (s != [] ==> r != [] && r[0] == s[0])
    decreases |s|
  {
    var r := StripScan(Newlines, s, prev);
    if s != [] {
      match StripAt(Newlines, s, prev)
        case Some((n, rep)) =>
          var t := s[n..];
          NewlinesMerged(t, Some(s[n - 1]));
          var rt := StripScan(Newlines, t, Some(s[n - 1]));
          assert r == "\n" + rt;
          assert t != [] ==> t[0] != '\n';
          forall i, j | 0 <= i && j == i + 1 < |r| ensures !(r[i] == '\n' && r[j] == '\n') {
            if i > 0 {
              assert r[i] == rt[i - 1] && r[j] == rt[j - 1];
            }
          }
        case None =>
          var t := s[1..];
          NewlinesMerged(t, Some(s[0]));
          var rt := StripScan(Newlines, t, Some(s[0]));
          StripMiss(Newlines, s, prev);
          assert s[0] != '\n';
          forall i, j | 0 <= i && j == i + 1 < |r| ensures !(r[i] == '\n' && r[j] == '\n') {
            if i > 0 {
              assert r[i] == rt[i - 1] && r[j] == rt[j - 1];
            }
          }
    }
  }

  lemma NoBlankLineSlice(s: string, a: nat, b: nat)
    requires NoBlankLine(s) && a <= b <= |s|
    ensures NoBlankLine(s[a..b])
  {
    var t := s[a..b];
    forall i, j | 0 <= i && j == i + 1 < |t| ensures !(t[i] == '\n' && t[j] == '\n') {
      assert t[i] == s[a + i] && t[j] == s[a + j];
    }
  }

  lemma TrimNoBlankLine(m: string)
    requires NoBlankLine(m)
    ensures NoBlankLine(Trim(m))
  {
    var t := TrimStart(m);
    NoBlankLineSlice(m, |m| - |t|, |m|);
    NoBlankLineSlice(t, 0, |TrimEnd(t)|);
  }

  /** The plain text holds no empty line. */
  lemma PlainTextNoBlankLine(markdown: string)
    ensures NoBlankLine(PlainText(markdown))
  {
    var u := Unlisted(Unemphasised(markdown));
    NewlinesMerged(u, None);
    TrimNoBlankLine(StripPass(Newlines, u));
  }

  /** A heading line loses its hashes and the whitespace after them. */
  lemma HashesExample()
    ensures StripPass(Hashes, "# a") == "a"
  {
    var s := "# a";
    assert s[1..] == " a" && s[1..][1..] == "a";
    assert Run(s[1..][1..], IsHash) == 0;
    assert Run(s[1..], IsHash) == 0;
    assert Run(s, IsHash) == 1;
    assert s[1..][1..][..0] == [];
    assert Run(s[1..][1..], IsWs) == 0;
    assert Run(s[1..], IsWs) == 1;
    assert StripAt(Hashes, s, None) == Some((2, []));
    assert s[2..] == "a";
    assert StripAt(Hashes, "a", Some(' ')).None?;
    assert StripScan(Hashes, "a", Some(' ')) == "a";
  }

  // ---------------------------------------------------------------------
  // What each strip pass removes

  lemma {:induction false} StripMatch(p: Strip, s: string, prev: Option<char>, n: nat, rep: string)
    requires s != [] && StripAt(p, s, prev) == Some((n, rep))
    ensures 1 <= n <= |s| && StripScan(p, s, prev) == rep + StripScan(p, s[n..], Some(s[n - 1]))
  {
  }

  lemma {:induction false} StripMiss(p: Strip, s: string, prev: Option<char>)
    requires s != [] && StripAt(p, s, prev).None?
    ensures StripScan(p, s, prev) == [s[0]] + StripScan(p, s[1..], Some(s[0]))
  {
  }

  /** Text holding none of a pass's lead characters is kept, and the scan
      goes on after it. */
  lemma {:induction false} StripKeeps(p: Strip, x: string, y: string, prev: Option<char>)
    requires forall k :: 0 <= k < |x| ==> !StripLead(p, x[k])
    ensures StripScan(p, x + y, prev) == x + StripScan(p, y, PrevAt(x, |x|, prev))
    decreases |x|
  {
    if x == [] {
      assert x + y == y;
    } else {
      var s, c, x1 := x + y, x[0], x[1..];
      assert s[0] == c && s[1..] == x1 + y;
      StripNoLead(p, s, prev);
      StripMiss(p, s, prev);
      forall k | 0 <= k < |x1| ensures !StripLead(p, x1[k]) {
        assert x1[k] == x[k + 1];
      }
      StripKeeps(p, x1, y, Some(c));
      assert PrevAt(x1, |x1|, Some(c)) == PrevAt(x, |x|, prev);
      var z := StripScan(p, y, PrevAt(x, |x|, prev));
      assert x == [c] + x1;
      Rewrite.ConcatAssoc([c], x1, z);
    }
  }

  lemma {:induction false} StripNoLead(p: Strip, s: string, prev: Option<char>)
    requires s != [] && !StripLead(p, s[0])
    ensures StripAt(p, s, prev).None?
  {
  }

  /** A text without a pass's lead characters is left as it is. */
  lemma StripWithoutLead(p: Strip, s: string, prev: Option<char>)
    requires forall k :: 0 <= k < |s| ==> !StripLead(p, s[k])
    ensures StripScan(p, s, prev) == s
  {
    StripKeeps(p, s, [], prev);
    assert s + [] == s;
  }

  /** `**text**` loses its asterisks, for a one-line text without `*`. */
  lemma BoldStripped(x: string)
    requires x != [] && OneLine(x) && '*' !in x
    ensures StripPass(Bold, "**" + x + "**") == x
  {
    DelimStripped("**", Bold, x);
  }

  /** `*text*` loses its asterisks, for a one-line text without `*`. */
  lemma EmStripped(x: string)
    requires x != [] && OneLine(x) && '*' !in x
    ensures StripPass(Em, "*" + x + "*") == x
  {
    DelimStripped("*", Em, x);
  }

  lemma {:induction false} DelimStripped(d: string, p: Strip, x: string)
    requires (d == "**" && p == Bold) || (d == "*" && p == Em)
    requires x != [] && OneLine(x) && d[0] !in x
    ensures StripPass(p, d + x + d) == x
  {
    var s := d + x + d;
    DelimWholeMatch(d, x);
    StripDelimIs(p, d, s, |s|, x);
    StripMatch(p, s, None, |s|, x);
    assert s[|s|..] == [];
    assert x + [] == x;
  }

  lemma {:induction false} DelimWholeMatch(d: string, x: string)
    requires |d| >= 1 && x != [] && OneLine(x) && d[0] !in x
    ensures Rewrite.DelimAt(d, [], [], d + x + d) == Some((|d + x + d|, x))
  {
    Rewrite.DelimParts(d, x);
    DelimSpans(d, x, d + x + d);
  }

  lemma {:induction false} DelimSpans(d: string, x: string, s: string)
    requires |d| >= 1 && x != [] && OneLine(x)
    requires |s| == 2 * |d| + |x| && StartsWith(s, d) && |s| > |d|
    requires IndexOf(s[|d| + 1..], d) == Some(|x| - 1) && s[|d|..|d| + |x|] == x
    ensures Rewrite.DelimAt(d, [], [], s) == Some((|s|, x))
  {
    Rewrite.DelimFound(d, [], [], s, |x| - 1);
    assert [] + x + [] == x;
  }

  lemma {:induction false} StripDelimIs(p: Strip, d: string, s: string, n: nat, x: string)
    requires (d == "**" && p == Bold) || (d == "*" && p == Em)
    requires Rewrite.DelimAt(d, [], [], s) == Some((n, x))
    ensures StripAt(p, s, None) == Some((n, x))
  {
  }

  /** `[text](url)` is replaced by its text. */
  lemma {:induction false} LinkTextStripped(t: string, u: string)
    requires t != [] && ']' !in t && ')' !in u && u != []
    ensures StripPass(LinkText, "[" + t + "](" + u + ")") == t
  {
    var s := "[" + t + "](" + u + ")";
    var n := |t| + |u| + 4;
    Rewrite.LinkParts(t, u);
    Rewrite.LinkAtIs(s, |t|, |u|, n, t, u);
    LinkTextIs(s, n, t);
    StripMatch(LinkText, s, None, n, t);
    assert s[n..] == [];
    assert t + [] == t;
  }

  lemma {:induction false} LinkTextIs(s: string, n: nat, t: string)
    requires Rewrite.LinkAt(s).Some? && Rewrite.LinkAt(s).value.0 == n
    requires 1 <= |t| + 1 <= n <= |s| && FindChar(s[1..], ']') == Some(|t|) && s[1..|t| + 1] == t
    ensures StripAt(LinkText, s, None) == Some((n, t))
  {
  }

  /** A list marker and its space are removed wherever they stand, not only
      at a line start: the pattern has no anchor. */
  lemma {:induction false} MarkerAnywhere(x: string, m: char, y: string, prev: Option<char>)
    requires m == '-' || m == '*' || m == '+'
    requires forall k :: 0 <= k < |x| ==> !StripLead(Marker, x[k])
    ensures StripScan(Marker, x + [m, ' '] + y, prev) == x + StripScan(Marker, y, Some(' '))
  {
    var t := [m, ' '] + y;
    assert x + [m, ' '] + y == x + t;
    StripKeeps(Marker, x, t, prev);
    var pv := PrevAt(x, |x|, prev);
    assert StripAt(Marker, t, pv) == Some((2, []));
    StripMatch(Marker, t, pv, 2, []);
    assert t[2..] == y;
  }

  /** At a line start, a number, a dot and a space are removed. */
  lemma {:induction false} OrdinalAtLineStart(ds: string, y: string, prev: Option<char>)
    requires ds != [] && (forall k :: 0 <= k < |ds| ==> Rewrite.IsDigit(ds[k]))
    requires Rewrite.AtLineStart(prev)
    ensures StripScan(Ordinal, ds + ". " + y, prev) == StripScan(Ordinal, y, Some(' '))
  {
    var s := ds + ". " + y;
    var d := |ds|;
    forall k | 0 <= k < d ensures Rewrite.IsDigit(s[k]) {
      assert s[k] == ds[k];
    }
    assert s[d] == '.';
    RunIs(s, Rewrite.IsDigit, d);
    assert s[d..][..2] == ". ";
    var n: nat := d + 2;
    assert StripAt(Ordinal, s, prev) == Some((n, []));
    StripMatch(Ordinal, s, prev, n, []);
    assert s[d + 2..] == y && s[d + 1] == ' ';
  }

  /** At a line start, a run of `#` and the whitespace after it, line breaks
      included, are removed. */
  lemma {:induction false} HashesAtLineStart(h: string, w: string, y: string, prev: Option<char>)
    requires h != [] && (forall k :: 0 <= k < |h| ==> h[k] == '#')
    requires w != [] && (forall k :: 0 <= k < |w| ==> IsWs(w[k])) && (y == [] || !IsWs(y[0]))
    requires Rewrite.AtLineStart(prev)
    ensures StripScan(Hashes, h + w + y, prev) == StripScan(Hashes, y, Some(w[|w| - 1]))
  {
    var s := h + w + y;
    HashesParts(h, w, y);
    var n: nat := |h| + |w|;
    assert StripAt(Hashes, s, prev) == Some((n, []));
    StripMatch(Hashes, s, prev, n, []);
    assert s[|h| + |w|..] == y && s[|h| + |w| - 1] == w[|w| - 1];
  }

  lemma {:induction false} HashesParts(h: string, w: string, y: string)
    requires h != [] && (forall k :: 0 <= k < |h| ==> h[k] == '#')
    requires w != [] && (forall k :: 0 <= k < |w| ==> IsWs(w[k])) && (y == [] || !IsWs(y[0]))
    ensures Run(h + w + y, IsHash) == |h| && Run((h + w + y)[|h|..], IsWs) == |w|
  {
    var s := h + w + y;
    forall k | 0 <= k < |h| ensures IsHash(s[k]) {
      assert s[k] == h[k];
    }
    assert s[|h|] == w[0];
    RunIs(s, IsHash, |h|);
    var t := s[|h|..];
    assert t == w + y;
    forall k | 0 <= k < |w| ensures IsWs(t[k]) {
      assert t[k] == w[k];
    }
    if y != [] {
      assert t[|w|] == y[0];
    }
    RunIs(t, IsWs, |w|);
  }

  /** The anchored strip passes find nothing inside a line. */
  lemma {:induction false} AnchoredMidLine(p: Strip, s: string, prev: Option<char>)
    requires p == Hashes || p == Ordinal
    requires prev.Some? && !IsLineTerm(prev.value) && OneLine(s)
    ensures StripScan(p, s, prev) == s
    decreases |s|
  {
    if s != [] {
      assert StripAt(p, s, prev).None?;
      StripMiss(p, s, prev);
      OneLineFrom(s, 1);
      AnchoredMidLine(p, s[1..], Some(s[0]));
      assert s == [s[0]] + s[1..];
    }
  }

  // ---------------------------------------------------------------------
  // The counts

  /** `plainText.replace(/\s/g, '')`. */
  function RemoveWs(s: string): (r: string)
    ensures forall k :: 0 <= k < |r| ==> !IsWs(r[k])
    decreases |s|
  {
    if s == [] then []
    else (if IsWs(s[0]) then [] else [s[0]]) + RemoveWs(s[1..])
  }

  /** Removing whitespace removes exactly the whitespace characters. */
  lemma {:induction false} RemoveWsLength(s: string)
    ensures |RemoveWs(s)| == |s| - CountIf(s, IsWs)
    decreases |s|
  {
    if s != [] {
      RemoveWsLength(s[1..]);
    }
  }

  /** `[一-龥]`. */
  predicate IsCjk(c: char) { '\U{4E00}' <= c <= '\U{9FA5}' }

  /** `[a-zA-Z]`. */
  predicate IsLatin(c: char) { ('a' <= c <= 'z') || ('A' <= c <= 'Z') }

  /** The number of matches of `/[a-zA-Z]+/g`: a match is a longest run of
      Latin letters, and the scan resumes after it. */
  function Words(s: string): nat
    decreases |s|
  {
    if s == [] then 0
    else if IsLatin(s[0]) then 1 + Words(s[Run(s, IsLatin)..])
    else Words(s[1..])
  }

  /** The positions that start a run of Latin letters, `prevLatin` telling
      whether the character before `s` is a Latin letter. */
  function RunStarts(s: string, prevLatin: bool): nat
    decreases |s|
  {
    if s == [] then 0
    else (if IsLatin(s[0]) && !prevLatin then 1 else 0) + RunStarts(s[1..], IsLatin(s[0]))
  }

  lemma {:induction false} RunStartsInRun(s: string, n: nat)
    requires n <= |s| && forall k :: 0 <= k < n ==> IsLatin(s[k])
    ensures RunStarts(s, true) == RunStarts(s[n..], true)
    decreases n
  {
    if n > 0 {
      assert s[1..][n - 1..] == s[n..];
      RunStartsInRun(s[1..], n - 1);
    }
  }

  /** The word count of the page is the number of maximal runs of Latin letters. */
  lemma {:induction false} WordsAreRunStarts(s: string)
    ensures Words(s) == RunStarts(s, false)
    decreases |s|
  {
    if s != [] {
      if IsLatin(s[0]) {
        var n := Run(s, IsLatin);
        var t := s[n..];
        assert s[1..][n - 1..] == t;
        RunStartsInRun(s[1..], n - 1);
        WordsAreRunStarts(t);
        assert RunStarts(t, true) == RunStarts(t, false);
      } else {
        WordsAreRunStarts(s[1..]);
      }
    }
  }

  /** The statistics shown on the preview page. */
  datatype Statistics = Statistics(wordCount: nat, charCount: nat, charCountNoSpace: nat)

  function Count(markdown: string): Statistics {
    var plain := PlainText(markdown);
    var chineseChars := CountIf(plain, IsCjk);
    var englishWords := Words(plain);
    Statistics(chineseChars + englishWords, |plain|, |RemoveWs(plain)|)
  }

  /** Every ideograph and every word has a character that is not whitespace
      of its own. */
  lemma {:induction false} WordsNotSpace(s: string, prevLatin: bool)
    ensures CountIf(s, IsCjk) + RunStarts(s, prevLatin) <= |s| - CountIf(s, IsWs)
    decreases |s|
  {
    if s != [] {
      WordsNotSpace(s[1..], IsLatin(s[0]));
    }
  }

  /** The counts of the page: the characters without whitespace are the
      characters less the whitespace ones, the word count is ideographs plus
      runs of Latin letters and is at most the non-whitespace characters, and
      no count exceeds the length of the Markdown. */
  lemma CountBounds(markdown: string)
    ensures var st := Count(markdown);
            var plain := PlainText(markdown);
            st.charCountNoSpace == st.charCount - CountIf(plain, IsWs)
            && st.wordCount == CountIf(plain, IsCjk) + RunStarts(plain, false)
            && st.wordCount <= st.charCountNoSpace <= st.charCount <= |markdown|
  {
    var plain := PlainText(markdown);
    RemoveWsLength(plain);
    WordsAreRunStarts(plain);
    WordsNotSpace(plain, false);
  }
}
