/** Text primitives shared by every stage of the converter: the whitespace and
    line-terminator classes of JavaScript, trimming, searching, splitting and
    joining, and the decimal rendering of a placeholder index. */
module Strings {

  datatype Option<T> = None | Some(value: T)

  /** The characters that `String.prototype.trim` removes and `\s` matches
      (WhiteSpace and LineTerminator of ECMAScript). */
  predicate IsWs(c: char) {
    c == ' ' || c == '\t' || c == '\n' || c == '\r' || c == '\U{B}' || c == '\U{C}'
    || c == '\U{A0}' || c == '\U{1680}' || ('\U{2000}' <= c <= '\U{200A}')
    || c == '\U{2028}' || c == '\U{2029}' || c == '\U{202F}' || c == '\U{205F}'
    || c == '\U{3000}' || c == '\U{FEFF}'
  }

  /** The characters that end a line for `^`, `$` (multiline) and `.` in a
      JavaScript regular expression. */
  predicate IsLineTerm(c: char) {
    c == '\n' || c == '\r' || c == '\U{2028}' || c == '\U{2029}'
  }

  lemma LineTermIsWs(c: char)
    requires IsLineTerm(c)
    ensures IsWs(c)
  {
  }

  predicate AllWs(s: string) {
    forall i :: 0 <= i < |s| ==> IsWs(s[i])
  }

  predicate StartsWith(s: string, p: string) {
    |p| <= |s| && s[..|p|] == p
  }

  /** The character before position `k` of `s`, `prev` being the one before `s`. */
  function PrevAt(s: string, k: nat, prev: Option<char>): Option<char>
    requires k <= |s|
  {
    if k == 0 then prev else Some(s[k - 1])
  }

  /** `s` with its leading whitespace removed. */
  function TrimStart(s: string): (r: string)
    ensures |r| <= |s| && r == s[|s| - |r|..]
    ensures AllWs(s[..|s| - |r|])
    ensures r == [] || !IsWs(r[0])
  {
    if s != [] && IsWs(s[0]) then
      var r := TrimStart(s[1..]);
      TrimStartStep(s, r);
      r
    else s
  }

  lemma TrimStartStep(s: string, r: string)
    requires s != [] && IsWs(s[0])
    requires |r| <= |s| - 1 && r == s[1..][|s| - 1 - |r|..]
    requires AllWs(s[1..][..|s| - 1 - |r|])
    ensures r == s[|s| - |r|..]
    ensures AllWs(s[..|s| - |r|])
  {
    assert forall q :: 0 <= q < |r| ==> r[q] == s[|s| - |r| + q];
    assert forall q :: 1 <= q < |s| - |r| ==> s[q] == s[1..][..|s| - 1 - |r|][q - 1];
  }

  /** `s` with its trailing whitespace removed. */
  function TrimEnd(s: string): (r: string)
    ensures |r| <= |s| && r == s[..|r|]
    ensures AllWs(s[|r|..])
    ensures r == [] || !IsWs(r[|r| - 1])
  {
    if s != [] && IsWs(s[|s| - 1]) then
      var r := TrimEnd(s[..|s| - 1]);
      TrimEndStep(s, r);
      r
    else s
  }

  lemma TrimEndStep(s: string, r: string)
    requires s != [] && IsWs(s[|s| - 1])
    requires |r| <= |s| - 1 && r == s[..|s| - 1][..|r|]
    requires AllWs(s[..|s| - 1][|r|..])
    ensures r == s[..|r|]
    ensures AllWs(s[|r|..])
  {
    assert forall q :: 0 <= q < |r| ==> r[q] == s[q];
    assert forall q :: |r| <= q < |s| - 1 ==> s[q] == s[..|s| - 1][|r|..][q - |r|];
  }

  /** `String.prototype.trim`. */
  function Trim(s: string): (r: string)
    ensures |r| <= |s|
    ensures r == [] || (!IsWs(r[0]) && !IsWs(r[|r| - 1]))
  {
    TrimEnd(TrimStart(s))
  }

  /** Trimming removes exactly a whitespace prefix and a whitespace suffix. */
  lemma TrimShape(s: string)
    ensures exists a, b :: 0 <= a <= b <= |s| && Trim(s) == s[a..b] && AllWs(s[..a]) && AllWs(s[b..])
  {
    var t := TrimStart(s);
    var a := |s| - |t|;
    var u := TrimEnd(t);
    var b := a + |u|;
    SuffixSlices(s, a, t, |u|);
    assert Trim(s) == u;
    assert 0 <= a <= b <= |s| && Trim(s) == s[a..b] && AllWs(s[..a]) && AllWs(s[b..]);
  }

  lemma SuffixSlices(s: string, a: nat, t: string, n: nat)
    requires a <= |s| && t == s[a..] && n <= |t|
    ensures t[..n] == s[a..a + n] && t[n..] == s[a + n..]
  {
  }

  /** A string is trimmed to nothing exactly when it is all whitespace. */
  lemma {:induction false} TrimEmptyIff(s: string)
    ensures Trim(s) == [] <==> AllWs(s)
  {
    var t := TrimStart(s);
    if t != [] {
      assert !IsWs(t[0]);
      assert t[0] == s[|s| - |t|];
      TrimEndNonWs(t);
    }
  }

  lemma TrimEndNonWs(t: string)
    requires t != [] && !IsWs(t[0])
    ensures TrimEnd(t) != []
    decreases |t|
  {
    if IsWs(t[|t| - 1]) {
      TrimEndNonWs(t[..|t| - 1]);
    }
  }

  /** Trimming a string that does not begin or end with whitespace changes nothing. */
  lemma TrimOfTrimmed(s: string)
    requires s == [] || (!IsWs(s[0]) && !IsWs(s[|s| - 1]))
    ensures Trim(s) == s
  {
  }

  /** Trimming twice is trimming once. */
  lemma TrimIdempotent(s: string)
    ensures Trim(Trim(s)) == Trim(s)
  {
    TrimOfTrimmed(Trim(s));
  }

  /** Leading text that is not all whitespace keeps what follows it from
      being trimmed at the front. */
  lemma {:induction false} TrimStartConcat(a: string, b: string)
    requires !AllWs(a)
    ensures TrimStart(a + b) == TrimStart(a) + b
    decreases |a|
  {
    if IsWs(a[0]) {
      assert (a + b)[1..] == a[1..] + b;
      TrimStartConcat(a[1..], b);
    }
  }

  lemma {:induction false} TrimStartWs(w: string, b: string)
    requires AllWs(w)
    ensures TrimStart(w + b) == TrimStart(b)
    decreases |w|
  {
    if w != [] {
      assert (w + b)[1..] == w[1..] + b;
      TrimStartWs(w[1..], b);
    } else {
      assert w + b == b;
    }
  }

  /** Trailing text that is not all whitespace keeps what precedes it from
      being trimmed at the back. */
  lemma {:induction false} TrimEndConcat(a: string, b: string)
    requires !AllWs(b)
    ensures TrimEnd(a + b) == a + TrimEnd(b)
    decreases |b|
  {
    if IsWs(b[|b| - 1]) {
      assert (a + b)[..|a + b| - 1] == a + b[..|b| - 1];
      TrimEndConcat(a, b[..|b| - 1]);
    }
  }

  lemma {:induction false} TrimEndWs(a: string, w: string)
    requires AllWs(w)
    ensures TrimEnd(a + w) == TrimEnd(a)
    decreases |w|
  {
    if w != [] {
      assert (a + w)[..|a + w| - 1] == a + w[..|w| - 1];
      TrimEndWs(a, w[..|w| - 1]);
    } else {
      assert a + w == a;
    }
  }

  /** Whitespace appended to a text does not change its trimmed form. */
  lemma TrimAppendWs(a: string, w: string)
    requires AllWs(w)
    ensures Trim(a + w) == Trim(a)
  {
    var t := TrimStart(a);
    if AllWs(a) {
      assert AllWs(a + w);
      TrimEmptyIff(a);
      TrimEmptyIff(a + w);
    } else {
      TrimStartConcat(a, w);
      TrimEndWs(t, w);
    }
  }

  /** Trimming after having trimmed one end is trimming. */
  lemma TrimAfterTrimStart(x: string)
    ensures Trim(TrimStart(x)) == Trim(x)
  {
    var t := TrimStart(x);
    assert TrimStart(t) == t;
  }

  lemma TrimAfterTrimEnd(x: string)
    ensures Trim(TrimEnd(x)) == Trim(x)
  {
    if AllWs(x) {
      TrimEndBlank(x);
      TrimEmptyIff(x);
    } else {
      var y := TrimStart(x);
      var w := x[..|x| - |y|];
      assert x == w + y;
      assert y != [];
      TrimEndFront(w, y);
    }
  }

  lemma TrimEndBlank(x: string)
    requires AllWs(x)
    ensures TrimEnd(x) == []
  {
  }

  /** Whitespace before a text that starts with a non-whitespace character. */
  lemma TrimEndFront(w: string, y: string)
    requires AllWs(w) && y != [] && !IsWs(y[0])
    ensures TrimStart(TrimEnd(w + y)) == TrimEnd(TrimStart(y))
  {
    assert !AllWs(y);
    TrimEndConcat(w, y);
    TrimStartWs(w, TrimEnd(y));
    TrimEndNonWs(y);
    assert TrimEnd(y)[0] == y[0];
  }

  /** One end trimmed, a text that was not blank is still not blank. */
  lemma TrimEndsNotBlank(x: string)
    requires !AllWs(x)
    ensures !AllWs(TrimStart(x)) && !AllWs(TrimEnd(x)) && !AllWs(Trim(x))
  {
    TrimEmptyIff(x);
    TrimAfterTrimStart(x);
    TrimAfterTrimEnd(x);
    TrimEmptyIff(TrimStart(x));
    TrimEmptyIff(TrimEnd(x));
    TrimEmptyIff(Trim(x));
  }

  /** A text that is not blank at either end keeps its middle when trimmed. */
  lemma TrimBetween(a: string, m: string, z: string)
    requires !AllWs(a) && !AllWs(z)
    ensures Trim(a + m + z) == TrimStart(a) + m + TrimEnd(z)
  {
    assert a + m + z == a + (m + z);
    TrimStartConcat(a, m + z);
    assert TrimStart(a) + (m + z) == (TrimStart(a) + m) + z;
    TrimEndConcat(TrimStart(a) + m, z);
  }

  /** Trimming removes characters and adds none. */
  lemma TrimKeepsOut(x: string, c: char)
    requires c !in x
    ensures c !in TrimStart(x) && c !in TrimEnd(x) && c !in Trim(x)
  {
    var t := TrimStart(x);
    assert c !in t by { NotInSlice(x, c, |x| - |t|, |x|); }
    assert c !in TrimEnd(x) by { NotInSlice(x, c, 0, |TrimEnd(x)|); }
    assert c !in TrimEnd(t) by { NotInSlice(t, c, 0, |TrimEnd(t)|); }
  }

  /** A slice holds no character its text does not hold. */
  lemma NotInSlice(x: string, c: char, a: nat, b: nat)
    requires c !in x && a <= b <= |x|
    ensures c !in x[a..b]
  {
    assert forall k :: 0 <= k < b - a ==> x[a..b][k] == x[a + k];
  }

  /** The index of the first `c` in `s`. */
  function FindChar(s: string, c: char): (r: Option<nat>)
    ensures r.None? ==> c !in s
    ensures r.Some? ==> r.value < |s| && s[r.value] == c && c !in s[..r.value]
  {
    if s == [] then None
    else if s[0] == c then Some(0)
    else match FindChar(s[1..], c)
      case None => None
      case Some(i) => Some(i + 1)
  }

  /** Whether `p` occurs in `s` at position `i`. */
  predicate OccursAt(s: string, p: string, i: int) {
    0 <= i && i + |p| <= |s| && s[i..i + |p|] == p
  }

  /** The index of the first occurrence of `p` in `s` (`String.prototype.indexOf`). */
  function IndexOf(s: string, p: string): (r: Option<nat>)
    ensures r.Some? ==> OccursAt(s, p, r.value) && forall j :: 0 <= j < r.value ==> !OccursAt(s, p, j)
    ensures r.None? ==> forall j :: 0 <= j <= |s| ==> !OccursAt(s, p, j)
  {
    if |s| < |p| then None
    else if s[..|p|] == p then Some(0)
    else
      var r := IndexOf(s[1..], p);
      assert forall j :: 1 <= j <= |s| ==> (OccursAt(s, p, j) <==> OccursAt(s[1..], p, j - 1)) by {
        forall j | 1 <= j <= |s| { OccursShift(s, p, j); }
      }
      match r
        case None => None
        case Some(i) => Some(i + 1)
  }

  /** The first occurrence is the one with no occurrence before it. */
  lemma IndexOfIs(s: string, p: string, i: nat)
    requires OccursAt(s, p, i)
    requires forall j :: 0 <= j < i ==> !OccursAt(s, p, j)
    ensures IndexOf(s, p) == Some(i)
  {
    match IndexOf(s, p)
      case None =>
      case Some(v) => assert !(v < i) && !(i < v);
  }

  /** Cutting the text after its first occurrence of `p` keeps that occurrence first. */
  lemma IndexOfPrefix(s: string, p: string, n: nat)
    requires IndexOf(s, p).Some? && IndexOf(s, p).value + |p| <= n <= |s|
    ensures IndexOf(s[..n], p) == IndexOf(s, p)
  {
    var i := IndexOf(s, p).value;
    assert s[..n][i..i + |p|] == s[i..i + |p|];
    forall j | 0 <= j < i ensures !OccursAt(s[..n], p, j) {
      assert !OccursAt(s, p, j);
      if j + |p| <= n { assert s[..n][j..j + |p|] == s[j..j + |p|]; }
    }
    IndexOfIs(s[..n], p, i);
  }

  /** Dropping text before the first occurrence of `p` moves that occurrence to the front accordingly. */
  lemma IndexOfSuffix(s: string, p: string, d: nat)
    requires IndexOf(s, p).Some? && d <= IndexOf(s, p).value
    ensures IndexOf(s[d..], p) == Some(IndexOf(s, p).value - d)
  {
    var i := IndexOf(s, p).value;
    OccursAfterDrop(s, p, d, i);
    IndexOfIs(s[d..], p, i - d);
  }

  lemma OccursAfterDrop(s: string, p: string, d: nat, i: nat)
    requires OccursAt(s, p, i) && d <= i
    requires forall j :: 0 <= j < i ==> !OccursAt(s, p, j)
    ensures OccursAt(s[d..], p, i - d)
    ensures forall j :: 0 <= j < i - d ==> !OccursAt(s[d..], p, j)
  {
    var t := s[d..];
    assert t[i - d..i - d + |p|] == s[i..i + |p|];
    forall j | 0 <= j < i - d ensures !OccursAt(t, p, j) {
      assert !OccursAt(s, p, j + d);
      if j + |p| <= |t| { assert t[j..j + |p|] == s[j + d..j + d + |p|]; }
    }
  }

  /** One differing character rules out an occurrence. */
  lemma NotOccursAt(s: string, p: string, q: int, k: int)
    requires 0 <= q && 0 <= k < |p| && (q + k < |s| ==> s[q + k] != p[k])
    ensures !OccursAt(s, p, q)
  {
  }

  lemma OccursShift(s: string, p: string, j: int)
    requires 1 <= j <= |s|
    ensures OccursAt(s, p, j) <==> OccursAt(s[1..], p, j - 1)
  {
    if j + |p| <= |s| {
      assert s[j..j + |p|] == s[1..][j - 1..j - 1 + |p|];
    }
  }

  /** `s.split(c)`: the pieces between the separators, in order. */
  function Split(s: string, c: char): (r: seq<string>)
    ensures |r| >= 1
    ensures forall k :: 0 <= k < |r| ==> c !in r[k]
    decreases |s|
  {
    match FindChar(s, c)
      case None => [s]
      case Some(i) => [s[..i]] + Split(s[i + 1..], c)
  }

  /** `xs.join(sep)`. */
  function Join(xs: seq<string>, sep: string): string
  {
    if |xs| == 0 then [] else if |xs| == 1 then xs[0] else xs[0] + sep + Join(xs[1..], sep)
  }

  /** Splitting and joining with the same separator gives the text back. */
  lemma {:induction false} JoinSplit(s: string, c: char)
    ensures Join(Split(s, c), [c]) == s
    decreases |s|
  {
    match FindChar(s, c)
      case None =>
      case Some(i) =>
        var r := Split(s[i + 1..], c);
        assert Join(Split(s, c), [c]) == s[..i] + [c] + Join(r, [c]) by {
          assert Split(s, c) == [s[..i]] + r;
          assert ([s[..i]] + r)[1..] == r;
        }
        JoinSplit(s[i + 1..], c);
        assert s == s[..i] + [c] + s[i + 1..];
  }

  /** Joining pieces that do not contain the separator and splitting again gives the pieces back. */
  lemma {:induction false} SplitJoin(xs: seq<string>, c: char)
    requires |xs| >= 1
    requires forall k :: 0 <= k < |xs| ==> c !in xs[k]
    ensures Split(Join(xs, [c]), c) == xs
    decreases |xs|
  {
    if |xs| == 1 {
    } else {
      var s := Join(xs, [c]);
      var rest := Join(xs[1..], [c]);
      assert s == xs[0] + [c] + rest;
      FindCharAfter(xs[0], c, rest);
      assert s[|xs[0]| + 1..] == rest;
      assert s[..|xs[0]|] == xs[0];
      SplitJoin(xs[1..], c);
    }
  }

  lemma FindCharAfter(a: string, c: char, b: string)
    requires c !in a
    ensures FindChar(a + [c] + b, c) == Some(|a|)
    decreases |a|
  {
    if a != [] {
      assert (a + [c] + b)[1..] == a[1..] + [c] + b;
      FindCharAfter(a[1..], c, b);
    }
  }

  /** Every occurrence of `c` in `s` replaced by `r` (`s.replace(/c/g, r)`). */
  function ReplaceChar(s: string, c: char, r: string): string
  {
    if s == [] then [] else (if s[0] == c then r else [s[0]]) + ReplaceChar(s[1..], c, r)
  }

  /** A replacement that does not contain `c` leaves no `c` behind, and adds
      only the characters of `r`. */
  lemma {:induction false} ReplaceCharChars(s: string, c: char, r: string, x: char)
    requires c !in r
    ensures x in ReplaceChar(s, c, r) ==> x != c && (x in s || x in r)
    decreases |s|
  {
    if s != [] {
      ReplaceCharChars(s[1..], c, r, x);
    }
  }

  /** Replacing a character is done piecewise over a concatenation. */
  lemma {:induction false} ReplaceCharConcat(a: string, b: string, c: char, r: string)
    ensures ReplaceChar(a + b, c, r) == ReplaceChar(a, c, r) + ReplaceChar(b, c, r)
    decreases |a|
  {
    if a == [] {
      assert a + b == b;
    } else {
      assert (a + b)[0] == a[0];
      assert (a + b)[1..] == a[1..] + b;
      ReplaceCharConcat(a[1..], b, c, r);
    }
  }

  /** The number of characters of `s` that satisfy `p`. */
  function CountIf(s: string, p: char -> bool): (n: nat)
    ensures n <= |s|
  {
    if s == [] then 0 else (if p(s[0]) then 1 else 0) + CountIf(s[1..], p)
  }

  function DigitChar(d: nat): char
    requires d < 10
  {
    "0123456789"[d]
  }

  /** `String(n)` for a natural number: its decimal digits, most significant first. */
  function NatToString(n: nat): (r: string)
    ensures |r| >= 1
    ensures forall k :: 0 <= k < |r| ==> '0' <= r[k] <= '9'
  {
    if n < 10 then [DigitChar(n)] else NatToString(n / 10) + [DigitChar(n % 10)]
  }

  /** The number of leading characters satisfying `p`. */
  function Run(s: string, p: char -> bool): (n: nat)
    ensures n <= |s| && (n == |s| || !p(s[n]))
    ensures forall k :: 0 <= k < n ==> p(s[k])
  {
    if s != [] && p(s[0]) then 1 + Run(s[1..], p) else 0
  }

  lemma RunAll(s: string, p: char -> bool)
    requires forall k :: 0 <= k < |s| ==> p(s[k])
    ensures Run(s, p) == |s|
  {
  }

  /** The run is the prefix of satisfying characters that ends at the text's
      end or at a character that fails. */
  lemma {:induction false} RunIs(s: string, p: char -> bool, n: nat)
    requires n <= |s| && (forall k :: 0 <= k < n ==> p(s[k])) && (n == |s| || !p(s[n]))
    ensures Run(s, p) == n
    decreases n
  {
    if n > 0 {
      assert p(s[0]);
      forall k | 0 <= k < n - 1 ensures p(s[1..][k]) {
        assert s[1..][k] == s[k + 1];
      }
      RunIs(s[1..], p, n - 1);
    }
  }

  /** A run stops at a failing last character of `u` or first character of
      `b`, so appending `b` does not lengthen it. */
  lemma RunBreak(u: string, b: string, p: char -> bool)
    requires (u != [] && !p(u[|u| - 1])) || b == [] || !p(b[0])
    ensures Run(u + b, p) == Run(u, p)
  {
    var n := Run(u, p);
    var s := u + b;
    forall k | 0 <= k < n ensures p(s[k]) {
      assert s[k] == u[k];
    }
    if n < |u| {
      assert s[n] == u[n];
    } else if b != [] {
      assert s[n] == b[0];
    }
    RunIs(s, p, n);
  }

  predicate NotLineTerm(c: char) { !IsLineTerm(c) }

  /** No character of `s` ends a line (every character is one `.` accepts). */
  predicate OneLine(s: string) {
    forall k :: 0 <= k < |s| ==> !IsLineTerm(s[k])
  }

  lemma OneLineFrom(s: string, a: nat)
    requires OneLine(s) && a <= |s|
    ensures OneLine(s[a..])
  {
    assert forall k :: 0 <= k < |s| - a ==> s[a..][k] == s[a + k];
  }

  lemma OneLineUpTo(s: string, b: nat)
    requires OneLine(s) && b <= |s|
    ensures OneLine(s[..b])
  {
    assert forall k :: 0 <= k < b ==> s[..b][k] == s[k];
  }

  lemma OneLineConcat(a: string, b: string)
    requires OneLine(a) && OneLine(b)
    ensures OneLine(a + b)
  {
    forall k | 0 <= k < |a + b| ensures !IsLineTerm((a + b)[k]) {
      if k < |a| { assert (a + b)[k] == a[k]; } else { assert (a + b)[k] == b[k - |a|]; }
    }
  }

  lemma {:induction false} JoinOneLine(xs: seq<string>, sep: string)
    requires OneLine(sep) && forall i :: 0 <= i < |xs| ==> OneLine(xs[i])
    ensures OneLine(Join(xs, sep))
    decreases |xs|
  {
    if |xs| >= 2 {
      JoinOneLine(xs[1..], sep);
      OneLineConcat(xs[0], sep);
      OneLineConcat(xs[0] + sep, Join(xs[1..], sep));
    }
  }
}
