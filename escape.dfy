/** HTML escaping of code text before it is put back into the page
    (`escapeHtml`, format-wechat.js:193-200). */
module Escape {
  import opened Strings

  /** The entity that stands for one character of code text. */
  function Entity(c: char): string {
    if c == '&' then "&amp;"
    else if c == '<' then "&lt;"
    else if c == '>' then "&gt;"
    else if c == '"' then "&quot;"
    else if c == '\'' then "&#39;"
    else [c]
  }

  /** Escaping character by character: the reference meaning of `escapeHtml`. */
  function EscapeChars(s: string): string {
    if s == [] then [] else Entity(s[0]) + EscapeChars(s[1..])
  }

  /** `escapeHtml` as the source writes it: five global replacements, `&` first. */
  function EscapeHtml(s: string): string {
    var s1 := ReplaceChar(s, '&', "&amp;");
    var s2 := ReplaceChar(s1, '<', "&lt;");
    var s3 := ReplaceChar(s2, '>', "&gt;");
    var s4 := ReplaceChar(s3, '"', "&quot;");
    ReplaceChar(s4, '\'', "&#39;")
  }

  /** Because each entity introduced by an earlier replacement contains none of
      the characters replaced later, the chain of replacements is the same as
      escaping each character once. */
  lemma {:induction false} EscapeHtmlIsPerChar(s: string)
    ensures EscapeHtml(s) == EscapeChars(s)
    decreases |s|
  {
    if s != [] {
      var x, t := s[0], s[1..];
      assert s == [x] + t;
      var s1 := ReplaceChar(s, '&', "&amp;");
      ReplaceCharConcat([x], t, '&', "&amp;");
      var a1, b1 := ReplaceChar([x], '&', "&amp;"), ReplaceChar(t, '&', "&amp;");
      ReplaceCharConcat(a1, b1, '<', "&lt;");
      var a2, b2 := ReplaceChar(a1, '<', "&lt;"), ReplaceChar(b1, '<', "&lt;");
      ReplaceCharConcat(a2, b2, '>', "&gt;");
      var a3, b3 := ReplaceChar(a2, '>', "&gt;"), ReplaceChar(b2, '>', "&gt;");
      ReplaceCharConcat(a3, b3, '"', "&quot;");
      var a4, b4 := ReplaceChar(a3, '"', "&quot;"), ReplaceChar(b3, '"', "&quot;");
      ReplaceCharConcat(a4, b4, '\'', "&#39;");
      EntityChain(x);
      EscapeHtmlIsPerChar(t);
    }
  }

  lemma EntityChain(x: char)
    ensures var a1 := ReplaceChar([x], '&', "&amp;");
            var a2 := ReplaceChar(a1, '<', "&lt;");
            var a3 := ReplaceChar(a2, '>', "&gt;");
            var a4 := ReplaceChar(a3, '"', "&quot;");
            ReplaceChar(a4, '\'', "&#39;") == Entity(x)
  {
    var e := Entity(x);
    ReplaceCharSingle(x, '&', "&amp;");
    var a1 := ReplaceChar([x], '&', "&amp;");
    assert x != '&' ==> a1 == [x];
    StageAfter(x, a1, '<', "&lt;");
    var a2 := ReplaceChar(a1, '<', "&lt;");
    StageAfter(x, a2, '>', "&gt;");
    var a3 := ReplaceChar(a2, '>', "&gt;");
    StageAfter(x, a3, '"', "&quot;");
    var a4 := ReplaceChar(a3, '"', "&quot;");
    StageAfter(x, a4, '\'', "&#39;");
  }

  /** One later stage of the chain: it leaves an entity alone and turns its own
      character into its entity. */
  lemma StageAfter(x: char, a: string, c: char, r: string)
    requires (c == '<' || c == '>' || c == '"' || c == '\'') && r == Entity(c)
    requires a == Entity(x) || a == [x]
    requires a == [x] ==> x != '&'
    ensures ReplaceChar(a, c, r) == (if x == c then Entity(x) else a)
  {
    if a == [x] {
      ReplaceCharSingle(x, c, r);
    } else {
      EntityLacks(x, c);
      ReplaceCharNone(a, c, r);
    }
  }

  lemma EntityLacks(x: char, c: char)
    requires c == '<' || c == '>' || c == '"' || c == '\''
    requires Entity(x) != [x]
    ensures c !in Entity(x)
  {
  }

  lemma ReplaceCharSingle(x: char, c: char, r: string)
    ensures ReplaceChar([x], c, r) == if x == c then r else [x]
  {
    assert [x][1..] == [];
  }

  /** Replacing a character that does not occur changes nothing. */
  lemma {:induction false} ReplaceCharNone(s: string, c: char, r: string)
    requires c !in s
    ensures ReplaceChar(s, c, r) == s
    decreases |s|
  {
    if s != [] {
      ReplaceCharNone(s[1..], c, r);
    }
  }

  /** Escaped text contains no `<`, `>`, `"` or `'`. */
  lemma {:induction false} EscapedHasNoMarkup(s: string)
    ensures var e := EscapeHtml(s); '<' !in e && '>' !in e && '"' !in e && '\'' !in e
  {
    EscapeHtmlIsPerChar(s);
    EscapeCharsNoMarkup(s);
  }

  lemma {:induction false} EscapeCharsNoMarkup(s: string)
    ensures var e := EscapeChars(s); '<' !in e && '>' !in e && '"' !in e && '\'' !in e
    decreases |s|
  {
    if s != [] {
      EscapeCharsNoMarkup(s[1..]);
      EntityNoMarkup(s[0]);
      NoMarkupConcat(Entity(s[0]), EscapeChars(s[1..]));
    }
  }

  /** None of the characters that HTML markup needs escaped. */
  predicate NoMarkup(e: string) {
    '<' !in e && '>' !in e && '"' !in e && '\'' !in e
  }

  lemma {:induction false} EntityNoMarkup(c: char)
    ensures NoMarkup(Entity(c))
  {
  }

  lemma {:induction false} NoMarkupConcat(a: string, b: string)
    requires NoMarkup(a) && NoMarkup(b)
    ensures NoMarkup(a + b)
  {
  }

  /** The character and length of the entity that `s` begins with, if any. */
  function DecodeEntity(s: string): (r: Option<(char, nat)>)
    ensures r.Some? ==> 1 <= r.value.1 <= |s|
  {
    if StartsWith(s, "&amp;") then Some(('&', 5))
    else if StartsWith(s, "&lt;") then Some(('<', 4))
    else if StartsWith(s, "&gt;") then Some(('>', 4))
    else if StartsWith(s, "&quot;") then Some(('"', 6))
    else if StartsWith(s, "&#39;") then Some(('\'', 5))
    else None
  }

  /** Decoding of the five entities; any other text is kept. */
  function Unescape(s: string): string
    decreases |s|
  {
    if s == [] then []
    else match DecodeEntity(s)
      case Some((c, n)) => [c] + Unescape(s[n..])
      case None => [s[0]] + Unescape(s[1..])
  }

  /** Decoding the entities after escaping gives the code text back. */
  lemma {:induction false} UnescapeEscape(s: string)
    ensures Unescape(EscapeHtml(s)) == s
  {
    EscapeHtmlIsPerChar(s);
    UnescapeEscapeChars(s);
  }

  lemma {:induction false} UnescapeEscapeChars(s: string)
    ensures Unescape(EscapeChars(s)) == s
    decreases |s|
  {
    if s != [] {
      UnescapeEscapeChars(s[1..]);
      UnescapeEntity(s[0], EscapeChars(s[1..]));
    }
  }

  /** Decoding undoes the entity of one character, whatever follows it. */
  lemma UnescapeEntity(c: char, rest: string)
    ensures Unescape(Entity(c) + rest) == [c] + Unescape(rest)
  {
    var t := Entity(c) + rest;
    assert t[|Entity(c)|..] == rest;
    if c == '&' || c == '<' || c == '>' || c == '"' || c == '\'' {
      DecodeEntityOf(c, rest);
    } else {
      assert t[0] == c && t[1..] == rest;
      assert DecodeEntity(t) == None by { assert t[0] != '&'; }
    }
  }

  lemma DecodeEntityOf(c: char, rest: string)
    requires c == '&' || c == '<' || c == '>' || c == '"' || c == '\''
    ensures DecodeEntity(Entity(c) + rest) == Some((c, |Entity(c)|))
  {
    var t := Entity(c) + rest;
    assert t[..|Entity(c)|] == Entity(c);
    if c == '<' {
      assert t[1] == 'l';
    } else if c == '>' {
      assert t[1] == 'g';
    } else if c == '"' {
      assert t[1] == 'q';
    } else if c == '\'' {
      assert t[1] == '#';
    }
  }
}
