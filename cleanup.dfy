/** The last passes of the converter over the joined result
    (format-wechat.js:161-170): the corner brackets become straight quotes,
    every `*` is removed, and newlines are put before each opening and after
    each closing heading tag of levels 1 to 3. */
module Cleanup {
  import opened Strings

  /** `output.replace(/「/g, '"').replace(/」/g, '"').replace(/\*\/g, '')`. */
  function Unmarked(output: string): string {
    ReplaceChar(ReplaceChar(ReplaceChar(output, '「', "\""), '」', "\""), '*', [])
  }

  // ---------------------------------------------------------------------
  // The tag passes

  /** `<h[1-3][^>]*>` at the start of `s`: the length of the tag. */
  function OpenAt(s: string): (r: Option<nat>)
    ensures r.Some? ==> 4 <= r.value <= |s| && s[0] == '<' && s[r.value - 1] == '>'
  {
    if |s| >= 3 && s[0] == '<' && s[1] == 'h' && '1' <= s[2] <= '3' then
      match FindChar(s[3..], '>')
        case Some(j) => Some(j + 4)
        case None => None
    else None
  }

  /** `</h[1-3]>` at the start of `s`. */
  predicate CloseAt(s: string) {
    |s| >= 5 && s[0] == '<' && s[1] == '/' && s[2] == 'h' && '1' <= s[3] <= '3' && s[4] == '>'
  }

  /** `s.replace(/(<h[1-3][^>]*>)/g, '\n$1')`. */
  function OpenBreaks(s: string): string
    decreases |s|
  {
    if s == [] then []
    else match OpenAt(s)
      case Some(n) => "\n" + s[..n] + OpenBreaks(s[n..])
      case None => [s[0]] + OpenBreaks(s[1..])
  }

  /** `s.replace(/(<\/h[1-3]>)/g, '$1\n')`. */
  function CloseBreaks(s: string): string
    decreases |s|
  {
    if s == [] then []
    else if CloseAt(s) then s[..5] + "\n" + CloseBreaks(s[5..])
    else [s[0]] + CloseBreaks(s[1..])
  }

  /** Steps 14 to 16 of the converter. */
  function Cleaned(output: string): string {
    CloseBreaks(OpenBreaks(Unmarked(output)))
  }

  // ---------------------------------------------------------------------
  // The tag passes only add newlines

  lemma {:induction false} OpenBreaksChars(s: string, x: char)
    ensures x in OpenBreaks(s) ==> x in s || x == '\n'
    decreases |s|
  {
    if s != [] {
      match OpenAt(s)
        case Some(n) =>
          OpenBreaksChars(s[n..], x);
          assert x in s[..n] ==> x in s;
          assert x in s[n..] ==> x in s;
        case None =>
          OpenBreaksChars(s[1..], x);
          assert x in s[1..] ==> x in s;
    }
  }

  lemma {:induction false} CloseBreaksChars(s: string, x: char)
    ensures x in CloseBreaks(s) ==> x in s || x == '\n'
    decreases |s|
  {
    if s != [] {
      if CloseAt(s) {
        CloseBreaksChars(s[5..], x);
        assert x in s[..5] ==> x in s;
        assert x in s[5..] ==> x in s;
      } else {
        CloseBreaksChars(s[1..], x);
        assert x in s[1..] ==> x in s;
      }
    }
  }

  /** The result holds no `*`, `「` or `」`, whatever the input, code included. */
  lemma CleanedHasNoMarks(output: string)
    ensures '*' !in Cleaned(output) && '「' !in Cleaned(output) && '」' !in Cleaned(output)
  {
    var a := ReplaceChar(output, '「', "\"");
    var b := ReplaceChar(a, '」', "\"");
    var c := ReplaceChar(b, '*', []);
    var d := OpenBreaks(c);
    forall x | x == '*' || x == '「' || x == '」' ensures x !in Cleaned(output) {
      ReplaceCharChars(output, '「', "\"", x);
      ReplaceCharChars(a, '」', "\"", x);
      ReplaceCharChars(b, '*', [], x);
      OpenBreaksChars(c, x);
      CloseBreaksChars(d, x);
    }
  }

  // ---------------------------------------------------------------------
  // Newlines after the closing tags

  /** Every closing heading tag is directly followed by a newline. */
  predicate NewlineAfter(u: string) {
    forall k :: 0 <= k < |u| && CloseAt(u[k..]) ==> k + 5 < |u| && u[k + 5] == '\n'
  }

  /** What the closing pass makes of a text that does not begin with `<`. */
  lemma CloseBreaksPlain(t: string)
    requires t != [] && t[0] != '<'
    ensures CloseBreaks(t) == [t[0]] + CloseBreaks(t[1..])
  {
  }

  /** A prefix without `<` of the closing pass's result is a prefix of its input. */
  lemma {:induction false} CloseBreaksPrefix(t: string, w: string)
    requires '<' !in w && StartsWith(CloseBreaks(t), w)
    ensures StartsWith(t, w) && CloseBreaks(t) == w + CloseBreaks(t[|w|..])
    decreases |w|
  {
    if w != [] {
      assert CloseBreaks(t) != [];
      assert t != [];
      assert CloseBreaks(t)[0] == t[0] == w[0];
      CloseBreaksPlain(t);
      assert StartsWith(CloseBreaks(t[1..]), w[1..]);
      CloseBreaksPrefix(t[1..], w[1..]);
      assert t[1..][|w| - 1..] == t[|w|..];
    }
  }

  /** A closing tag in the result was a closing tag of the input at the same place. */
  lemma CloseFound(t: string)
    requires t != [] && CloseAt(CloseBreaks(t))
    ensures CloseAt(t)
  {
    if !CloseAt(t) {
      var u := CloseBreaks(t);
      assert u == [t[0]] + CloseBreaks(t[1..]);
      var w := u[1..5];
      assert StartsWith(CloseBreaks(t[1..]), w);
      CloseBreaksPrefix(t[1..], w);
    }
  }

  /** The closing pass leaves a newline after every closing tag it produces. */
  lemma {:induction false} CloseBreaksFollow(t: string)
    ensures NewlineAfter(CloseBreaks(t))
    decreases |t|
  {
    if t != [] {
      var u := CloseBreaks(t);
      if CloseAt(t) {
        var b := CloseBreaks(t[5..]);
        CloseBreaksFollow(t[5..]);
        assert u == t[..5] + "\n" + b;
        forall k | 0 <= k < |u| && CloseAt(u[k..]) ensures k + 5 < |u| && u[k + 5] == '\n' {
          // inside the tag and its newline no `<` follows position 0
          if k >= 6 {
            assert u[k..] == b[k - 6..];
          }
        }
      } else {
        var b := CloseBreaks(t[1..]);
        CloseBreaksFollow(t[1..]);
        assert u == [t[0]] + b;
        forall k | 0 <= k < |u| && CloseAt(u[k..]) ensures k + 5 < |u| && u[k + 5] == '\n' {
          if k == 0 {
            assert u[0..] == u;
            CloseFound(t);
          } else {
            assert u[k..] == b[k - 1..];
          }
        }
      }
    }
  }

  // ---------------------------------------------------------------------
  // Newlines before the opening tags

  /** Every opening heading tag comes directly after a newline, `prev` being
      the character before `u`. */
  predicate NewlineBefore(u: string, prev: Option<char>) {
    forall k :: 0 <= k < |u| && OpenAt(u[k..]).Some? ==> PrevAt(u, k, prev) == Some('\n')
  }

  /** No opening heading tag holds a second `<`. The opening pass takes an
      opening tag up to its first `>`, so a `<h2` inside `<h1 ...>` is not
      found and gets no newline (`NestedOpenMissed`). */
  predicate LoneOpen(s: string) {
    forall k :: 0 <= k < |s| ==> match OpenAt(s[k..])
      case Some(n) => '<' !in s[k + 1..k + n]
      case None => true
  }

  lemma LoneOpenTail(s: string, d: nat)
    requires LoneOpen(s) && d <= |s|
    ensures LoneOpen(s[d..])
  {
    forall k | 0 <= k < |s[d..]| ensures match OpenAt(s[d..][k..])
      case Some(n) => '<' !in s[d..][k + 1..k + n]
      case None => true
    {
      assert s[d..][k..] == s[d + k..];
      match OpenAt(s[d + k..])
        case Some(n) => assert s[d..][k + 1..k + n] == s[d + k + 1..d + k + n];
        case None =>
    }
  }

  lemma OpenBreaksPlain(t: string)
    requires t != [] && t[0] != '<'
    ensures OpenBreaks(t) == [t[0]] + OpenBreaks(t[1..])
  {
  }

  /** A prefix without `<` or newline of the opening pass's result is a
      prefix of its input. */
  lemma {:induction false} OpenBreaksPrefix(t: string, w: string)
    requires '<' !in w && '\n' !in w && StartsWith(OpenBreaks(t), w)
    ensures StartsWith(t, w) && OpenBreaks(t) == w + OpenBreaks(t[|w|..])
    decreases |w|
  {
    if w != [] {
      PrefixFirst(t, w);
      OpenBreaksPrefix(t[1..], w[1..]);
      PrefixCons(t, w, OpenBreaks(t[1..][|w| - 1..]));
    }
  }

  /** The first character of such a prefix is a plain character of the input. */
  lemma {:induction false} PrefixFirst(t: string, w: string)
    requires w != [] && '<' !in w && '\n' !in w && StartsWith(OpenBreaks(t), w)
    ensures t != [] && t[0] == w[0] && OpenBreaks(t) == [t[0]] + OpenBreaks(t[1..])
    ensures '<' !in w[1..] && '\n' !in w[1..] && StartsWith(OpenBreaks(t[1..]), w[1..])
  {
    assert OpenBreaks(t) != [];
    assert t != [];
    assert OpenBreaks(t)[0] == w[0] != '\n';
    assert OpenAt(t).None?;
    OpenBreaksPlain(t);
    assert OpenBreaks(t)[1..] == OpenBreaks(t[1..]);
    assert OpenBreaks(t[1..])[..|w| - 1] == w[1..];
  }

  lemma {:induction false} PrefixCons(t: string, w: string, r: string)
    requires w != [] && t != [] && t[0] == w[0] && OpenBreaks(t) == [t[0]] + OpenBreaks(t[1..])
    requires StartsWith(t[1..], w[1..]) && OpenBreaks(t[1..]) == w[1..] + r
    ensures StartsWith(t, w) && OpenBreaks(t) == w + r
  {
    ConsSplit(t, w);
    assert [t[0]] + (w[1..] + r) == ([t[0]] + w[1..]) + r;
  }

  lemma {:induction false} ConsSplit(t: string, w: string)
    requires w != [] && t != [] && t[0] == w[0] && StartsWith(t[1..], w[1..])
    ensures StartsWith(t, w) && w == [t[0]] + w[1..]
  {
    assert t[..|w|] == [t[0]] + t[1..][..|w| - 1];
  }

  /** The opening pass's result never begins with an opening tag: one in the
      input is preceded by a newline, and none is made from other text. */
  lemma {:induction false} OpenBreaksFirst(s: string)
    ensures OpenAt(OpenBreaks(s)).None?
  {
    if s != [] {
      if OpenAt(s).Some? {
        OpenBreaksTag(s, OpenAt(s).value);
      } else {
        OpenBreaksLit(s);
        var u := OpenBreaks(s);
        if OpenAt(u).Some? {
          var w := u[1..3];
          TagHead(u, [s[0]], OpenBreaks(s[1..]));
          OpenBreaksPrefix(s[1..], w);
          TagRest(s, w, u);
          OpenBreaksChars(s[3..], '>');
        }
      }
    }
  }

  /** The second and third characters of a tag at the start of `a + b`, `a`
      being one character. */
  lemma {:induction false} TagHead(u: string, a: string, b: string)
    requires |a| == 1 && u == a + b && OpenAt(u).Some?
    ensures '<' !in u[1..3] && '\n' !in u[1..3] && StartsWith(b, u[1..3])
    ensures '>' in u[3..] && u[0] == '<'
  {
    var j :| 0 <= j < |u[3..]| && u[3..][j] == '>';
    assert u[1..3] == b[..2];
  }

  lemma {:induction false} TagRest(s: string, w: string, u: string)
    requires s != [] && OpenAt(s).None? && u == [s[0]] + OpenBreaks(s[1..]) && u[0] == '<'
    requires |u| >= 3 && |w| == 2 && w == u[1..3] && w[0] == 'h' && '1' <= w[1] <= '3'
    requires StartsWith(s[1..], w) && OpenBreaks(s[1..]) == w + OpenBreaks(s[1..][2..])
    ensures u[3..] == OpenBreaks(s[3..]) && '>' !in s[3..]
  {
    assert s[1..][2..] == s[3..];
    assert s[1] == w[0] && s[2] == w[1];
  }

  /** The opening pass puts a newline before every opening tag of its
      result, provided no opening tag holds another `<`. */
  lemma {:induction false} OpenBreaksPrecede(s: string)
    requires LoneOpen(s)
    ensures NewlineBefore(OpenBreaks(s), None)
    decreases |s|
  {
    if s != [] {
      match OpenAt(s)
        case Some(n) =>
          LoneOpenTail(s, n);
          OpenBreaksPrecede(s[n..]);
          OpenBreaksFirst(s[n..]);
          OpenBreaksTag(s, n);
          PrecedeTag(s, n, OpenBreaks(s[n..]), OpenBreaks(s));
        case None =>
          LoneOpenTail(s, 1);
          OpenBreaksPrecede(s[1..]);
          OpenBreaksFirst(s);
          OpenBreaksFirst(s[1..]);
          OpenBreaksLit(s);
          PrecedeShift(OpenBreaks(s), 1, OpenBreaks(s[1..]));
    }
  }

  lemma {:induction false} OpenBreaksTag(s: string, n: nat)
    requires s != [] && OpenAt(s) == Some(n)
    ensures OpenBreaks(s) == "\n" + s[..n] + OpenBreaks(s[n..])
  {
  }

  lemma {:induction false} OpenBreaksLit(s: string)
    requires s != [] && OpenAt(s).None?
    ensures OpenBreaks(s) == [s[0]] + OpenBreaks(s[1..])
  {
  }

  /** A newline goes before the tag the pass finds; the tag holds no other
      `<`, and the rest does not begin with a tag. */
  lemma {:induction false} PrecedeTag(s: string, n: nat, b: string, u: string)
    requires OpenAt(s) == Some(n) && LoneOpen(s)
    requires NewlineBefore(b, None) && OpenAt(b).None?
    requires u == "\n" + s[..n] + b
    ensures NewlineBefore(u, None)
  {
    assert OpenAt(s[0..]) == Some(n) by { assert s[0..] == s; }
    assert '<' !in s[1..n];
    assert u[n + 1..] == b;
    PrecedeShift(u, n + 1, b);
    forall k | 0 <= k <= n && OpenAt(u[k..]).Some? ensures PrevAt(u, k, None) == Some('\n') {
      if 2 <= k {
        // position k is inside the tag, which holds no `<`
        assert false;
      }
    }
  }

  /** Where the text after position `d` meets the property, so does the
      whole text after the first `d` positions, provided none of them starts
      a tag. */
  lemma {:induction false} PrecedeShift(u: string, d: nat, b: string)
    requires 1 <= d <= |u| && u[d..] == b && NewlineBefore(b, None)
    requires forall k :: 0 <= k <= d && k < |u| && OpenAt(u[k..]).Some? ==> PrevAt(u, k, None) == Some('\n')
    ensures NewlineBefore(u, None)
  {
    forall k | d < k < |u| && OpenAt(u[k..]).Some? ensures PrevAt(u, k, None) == Some('\n') {
      assert u[k..] == b[k - d..];
      assert u[k - 1] == b[k - d - 1];
    }
  }

  /** An opening tag after the closing pass was an opening tag before it. */
  lemma {:induction false} CloseKeepsOpen(t: string)
    requires OpenAt(CloseBreaks(t)).Some?
    ensures OpenAt(t).Some?
  {
    var u := CloseBreaks(t);
    if t == [] || CloseAt(t) {
      // the pass's result would start with nothing or with `</`
      assert false;
    } else {
      CloseBreaksLit(t);
      var w := u[1..3];
      TagHead(u, [t[0]], CloseBreaks(t[1..]));
      CloseBreaksPrefix(t[1..], w);
      CloseTagRest(t, w, u);
      CloseBreaksChars(t[3..], '>');
      assert FindChar(t[3..], '>').Some?;
    }
  }

  lemma {:induction false} CloseBreaksLit(t: string)
    requires t != [] && !CloseAt(t)
    ensures CloseBreaks(t) == [t[0]] + CloseBreaks(t[1..])
  {
  }

  lemma {:induction false} CloseTagRest(t: string, w: string, u: string)
    requires t != [] && u == [t[0]] + CloseBreaks(t[1..]) && u[0] == '<'
    requires |u| >= 3 && |w| == 2 && w == u[1..3] && w[0] == 'h' && '1' <= w[1] <= '3'
    requires StartsWith(t[1..], w) && CloseBreaks(t[1..]) == w + CloseBreaks(t[1..][2..])
    ensures u[3..] == CloseBreaks(t[3..]) && t[0] == '<' && t[1] == 'h' && '1' <= t[2] <= '3'
  {
    assert t[1..][2..] == t[3..];
    assert t[1] == w[0] && t[2] == w[1];
  }

  lemma NewlineBeforeTail(t: string, d: nat, prev: Option<char>)
    requires NewlineBefore(t, prev) && 1 <= d <= |t|
    ensures NewlineBefore(t[d..], Some(t[d - 1]))
  {
    forall k | 0 <= k < |t[d..]| && OpenAt(t[d..][k..]).Some? ensures PrevAt(t[d..], k, Some(t[d - 1])) == Some('\n') {
      assert t[d..][k..] == t[d + k..];
    }
  }

  /** The closing pass keeps the newline before every opening tag. */
  lemma {:induction false} CloseKeepsNewlineBefore(t: string, prev: Option<char>)
    requires NewlineBefore(t, prev)
    ensures NewlineBefore(CloseBreaks(t), prev)
    decreases |t|
  {
    if t != [] {
      var u := CloseBreaks(t);
      if CloseAt(t) {
        var b := CloseBreaks(t[5..]);
        NewlineBeforeTail(t, 5, prev);
        CloseKeepsNewlineBefore(t[5..], Some(t[4]));
        assert u == t[..5] + "\n" + b;
        forall k | 0 <= k < |u| && OpenAt(u[k..]).Some? ensures PrevAt(u, k, prev) == Some('\n') {
          // no opening tag starts in `</hN>` or its newline, and one just
          // after them follows the newline
          if k > 6 {
            assert u[k..] == b[k - 6..];
            assert u[k - 1] == b[k - 7];
          }
        }
      } else {
        var b := CloseBreaks(t[1..]);
        NewlineBeforeTail(t, 1, prev);
        CloseKeepsNewlineBefore(t[1..], Some(t[0]));
        assert u == [t[0]] + b;
        forall k | 0 <= k < |u| && OpenAt(u[k..]).Some? ensures PrevAt(u, k, prev) == Some('\n') {
          if k == 0 {
            assert u[0..] == u;
            CloseKeepsOpen(t);
            assert t[0..] == t;
          } else if k == 1 {
            assert u[k..] == b;
          } else {
            assert u[k..] == b[k - 1..];
            assert u[k - 1] == b[k - 2];
          }
        }
      }
    }
  }

  /** In the cleaned result every closing heading tag is followed by a
      newline, and every opening heading tag is preceded by one when no
      opening tag of the unmarked text holds another `<`. */
  lemma CleanedHeadingBreaks(output: string)
    ensures NewlineAfter(Cleaned(output))
    ensures LoneOpen(Unmarked(output)) ==> NewlineBefore(Cleaned(output), None)
  {
    CloseBreaksFollow(OpenBreaks(Unmarked(output)));
    if LoneOpen(Unmarked(output)) {
      OpenBreaksPrecede(Unmarked(output));
      CloseKeepsNewlineBefore(OpenBreaks(Unmarked(output)), None);
    }
  }

  /** `<h1 <h2>` is one opening tag to the pass: the inner `<h2>` gets no
      newline before it. */
  lemma NestedOpenMissed()
    ensures OpenBreaks("<h1 <h2>") == "\n<h1 <h2>"
    ensures OpenAt("\n<h1 <h2>"[5..]).Some? && "\n<h1 <h2>"[4] == ' '
  {
    var s := "<h1 <h2>";
    assert s[3..] == " <h2>";
    assert FindChar(s[3..], '>') == Some(4);
    assert OpenAt(s) == Some(8);
    assert s[8..] == [];
    assert "\n<h1 <h2>"[5..] == "<h2>";
    assert "<h2>"[3..] == ">";
    assert FindChar("<h2>"[3..], '>') == Some(0);
  }
}
