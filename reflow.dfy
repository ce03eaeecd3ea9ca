/** The paragraph stage of the converter (format-wechat.js:117-159) and the
    paragraph wrapper it uses (format-wechat.js:178-188).

    The text is cut into lines. Each non-blank line is trimmed; a line that
    already opens a block element is emitted as it is, any other line is
    collected into a pending paragraph. The pending paragraph is flushed, its
    lines joined with `<br>` and wrapped in `<p>`, at a blank line, before a
    block line and at the end. The method `Reflow` does this with the
    source's loop; `Group` says which entries it makes, as a left fold. */
module Reflow {
  import opened Strings
  import opened Markup

  // ---------------------------------------------------------------------
  // wrapParagraph

  /** The tags `wrapParagraph` leaves without a `<p>`. */
  const BlockTags: seq<string> :=
    ["<h1", "<h2", "<h3", "<h4", "<h5", "<h6", "<ul", "<ol", "<li", "<blockquote", "<hr", "<pre", "<div", "<table"]

  /** Whether `s` starts with one of `tags`, tried in order. */
  function StartsWithAny(s: string, tags: seq<string>): (b: bool)
    ensures b <==> exists i :: 0 <= i < |tags| && StartsWith(s, tags[i])
  {
    if tags == [] then false
    else if StartsWith(s, tags[0]) then true
    else
      var b := StartsWithAny(s, tags[1..]);
      assert forall i :: 1 <= i < |tags| ==> tags[i] == tags[1..][i - 1];
      b
  }

  /** `wrapParagraph(text)`: nothing for a blank text, the text itself when
      its trimmed form opens a block element, otherwise a styled paragraph
      around the text as given (not trimmed). */
  function WrapParagraph(text: string): (r: string)
    ensures AllWs(text) ==> r == []
    ensures !AllWs(text) && (exists i :: 0 <= i < |BlockTags| && StartsWith(Trim(text), BlockTags[i])) ==> r == text
    ensures !AllWs(text) && (forall i :: 0 <= i < |BlockTags| ==> !StartsWith(Trim(text), BlockTags[i]))
            ==> r == ParaOpen + text + "</p>"
  {
    TrimEmptyIff(text);
    if Trim(text) == [] then []
    else if StartsWithAny(Trim(text), BlockTags) then text
    else ParaOpen + text + "</p>"
  }

  /** A text that is not blank is never wrapped into nothing. */
  lemma WrapParagraphNonEmpty(text: string)
    requires !AllWs(text)
    ensures WrapParagraph(text) != []
  {
  }

  // ---------------------------------------------------------------------
  // The entries of the reflow

  /** The prefixes that mark a trimmed line as a block element already. */
  predicate IsBlockLine(t: string) {
    StartsWith(t, "<h") || StartsWith(t, "<p") || StartsWith(t, "<ul") || StartsWith(t, "<ol")
    || StartsWith(t, "<li") || StartsWith(t, "<blockquote") || StartsWith(t, "<hr")
    || StartsWith(t, "<pre") || StartsWith(t, "</")
  }

  /** An entry of the result: a block line, or a paragraph of trimmed lines. */
  datatype Entry = Block(line: string) | Para(lines: seq<string>)

  /** The text an entry contributes to the result. */
  function Render(e: Entry): string {
    match e
      case Block(t) => t
      case Para(ls) => WrapParagraph(Join(ls, "<br>"))
  }

  function RenderAll(es: seq<Entry>): seq<string> {
    seq(|es|, i requires 0 <= i < |es| => Render(es[i]))
  }

  /** The state of the loop: the entries made so far and the pending paragraph. */
  datatype Pending = Pending(done: seq<Entry>, para: seq<string>)

  /** The entries once the pending paragraph, if any, has been emitted. */
  function Flush(st: Pending): seq<Entry> {
    if st.para == [] then st.done else st.done + [Para(st.para)]
  }

  /** One line of the loop. */
  function Step(st: Pending, line: string): Pending {
    var t := Trim(line);
    if t == [] then Pending(Flush(st), [])
    else if IsBlockLine(t) then Pending(Flush(st) + [Block(t)], [])
    else Pending(st.done, st.para + [t])
  }

  /** The lines taken one after another from a state. */
  function StepAll(st: Pending, lines: seq<string>): Pending
    decreases |lines|
  {
    if lines == [] then st else Step(StepAll(st, lines[..|lines| - 1]), lines[|lines| - 1])
  }

  function Fold(lines: seq<string>): Pending {
    StepAll(Pending([], []), lines)
  }

  /** The entries the reflow makes of `lines`. */
  function Group(lines: seq<string>): seq<Entry> {
    Flush(Fold(lines))
  }

  // ---------------------------------------------------------------------
  // The loop

  lemma StepAllNext(st: Pending, lines: seq<string>, i: nat)
    requires i < |lines|
    ensures StepAll(st, lines[..i + 1]) == Step(StepAll(st, lines[..i]), lines[i])
  {
    assert lines[..i + 1][..i] == lines[..i];
  }

  lemma RenderAllSnoc(es: seq<Entry>, e: Entry)
    ensures RenderAll(es + [e]) == RenderAll(es) + [Render(e)]
  {
  }

  /** The paragraph loop of `convertMarkdownToWechat`: the rendered entries
      of `lines`, in order. */
  method Reflow(lines: seq<string>) returns (result: seq<string>)
    ensures result == RenderAll(Group(lines))
  {
    result := [];
    var paragraph: seq<string> := [];
    ghost var done: seq<Entry> := [];
    for i := 0 to |lines|
      invariant Fold(lines[..i]) == Pending(done, paragraph)
      invariant result == RenderAll(done)
    {
      StepAllNext(Pending([], []), lines, i);
      var trimmed := Trim(lines[i]);
      if trimmed == [] {
        if |paragraph| > 0 {
          RenderAllSnoc(done, Para(paragraph));
          result := result + [WrapParagraph(Join(paragraph, "<br>"))];
          done := done + [Para(paragraph)];
          paragraph := [];
        }
      } else if IsBlockLine(trimmed) {
        if |paragraph| > 0 {
          RenderAllSnoc(done, Para(paragraph));
          result := result + [WrapParagraph(Join(paragraph, "<br>"))];
          done := done + [Para(paragraph)];
          paragraph := [];
        }
        RenderAllSnoc(done, Block(trimmed));
        result := result + [trimmed];
        done := done + [Block(trimmed)];
      } else {
        paragraph := paragraph + [trimmed];
      }
    }
    assert lines[..|lines|] == lines;
    if |paragraph| > 0 {
      RenderAllSnoc(done, Para(paragraph));
      result := result + [WrapParagraph(Join(paragraph, "<br>"))];
    }
  }

  // ---------------------------------------------------------------------
  // Every kept line lands in exactly one entry, in order

  /** The non-blank lines, trimmed, in order. */
  function Kept(lines: seq<string>): seq<string>
    decreases |lines|
  {
    if lines == [] then []
    else
      var t := Trim(lines[|lines| - 1]);
      Kept(lines[..|lines| - 1]) + (if t == [] then [] else [t])
  }

  /** The source lines an entry stands for. */
  function LinesOf(e: Entry): seq<string> {
    match e
      case Block(t) => [t]
      case Para(ls) => ls
  }

  function Flatten(es: seq<Entry>): seq<string>
    decreases |es|
  {
    if es == [] then [] else Flatten(es[..|es| - 1]) + LinesOf(es[|es| - 1])
  }

  lemma FlattenSnoc(es: seq<Entry>, e: Entry)
    ensures Flatten(es + [e]) == Flatten(es) + LinesOf(e)
  {
    assert (es + [e])[..|es|] == es;
  }

  lemma FlushFlatten(st: Pending)
    ensures Flatten(Flush(st)) == Flatten(st.done) + st.para
  {
    if st.para != [] {
      FlattenSnoc(st.done, Para(st.para));
    }
  }

  lemma {:induction false} FoldKeeps(lines: seq<string>)
    ensures Flatten(Fold(lines).done) + Fold(lines).para == Kept(lines)
    decreases |lines|
  {
    if lines != [] {
      var init, last := lines[..|lines| - 1], lines[|lines| - 1];
      FoldKeeps(init);
      var st := Fold(init);
      var t := Trim(last);
      assert Fold(lines) == Step(st, last);
      FlushFlatten(st);
      if t != [] && IsBlockLine(t) {
        FlattenSnoc(Flush(st), Block(t));
      }
    }
  }

  /** The lines the entries stand for are exactly the non-blank lines of the
      input, trimmed, each once and in their order. */
  lemma GroupKeepsLines(lines: seq<string>)
    ensures Flatten(Group(lines)) == Kept(lines)
  {
    FoldKeeps(lines);
    FlushFlatten(Fold(lines));
  }

  // ---------------------------------------------------------------------
  // The shape of every entry

  /** Neither end of `t` is whitespace, so trimming leaves it alone
      (`TrimOfTrimmed`). */
  predicate Trimmed(t: string) {
    t == [] || (!IsWs(t[0]) && !IsWs(t[|t| - 1]))
  }

  /** A line that a paragraph may hold: trimmed, not blank, not a block line. */
  predicate ParaLine(t: string) {
    t != [] && Trimmed(t) && !IsBlockLine(t)
  }

  predicate WellFormed(e: Entry) {
    match e
      case Block(t) => t != [] && Trimmed(t) && IsBlockLine(t)
      case Para(ls) => ls != [] && forall k :: 0 <= k < |ls| ==> ParaLine(ls[k])
  }

  predicate PendingOk(st: Pending) {
    (forall i :: 0 <= i < |st.done| ==> WellFormed(st.done[i]))
    && forall k :: 0 <= k < |st.para| ==> ParaLine(st.para[k])
  }

  lemma {:induction false} FoldWellFormed(lines: seq<string>)
    ensures PendingOk(Fold(lines))
    decreases |lines|
  {
    if lines != [] {
      var init, last := lines[..|lines| - 1], lines[|lines| - 1];
      FoldWellFormed(init);
      assert Fold(lines) == Step(Fold(init), last);
      StepOk(Fold(init), last);
    }
  }

  lemma {:induction false} StepOk(st: Pending, line: string)
    requires PendingOk(st)
    ensures PendingOk(Step(st, line))
  {
    var t := Trim(line);
    assert Trimmed(t);
    if t == [] {
      StepBlank(st, line, t);
      FlushOk(st);
    } else if IsBlockLine(t) {
      StepBlock(st, line, t);
      FlushOk(st);
      SnocOk(Flush(st), Block(t));
    } else {
      StepPlain(st, line, t);
      ParaSnocOk(st.para, t);
    }
  }

  lemma {:induction false} StepBlank(st: Pending, line: string, t: string)
    requires t == Trim(line) && t == []
    ensures Step(st, line) == Pending(Flush(st), [])
  {
  }

  lemma {:induction false} StepBlock(st: Pending, line: string, t: string)
    requires t == Trim(line) && t != [] && IsBlockLine(t)
    ensures Step(st, line) == Pending(Flush(st) + [Block(t)], [])
  {
  }

  lemma {:induction false} StepPlain(st: Pending, line: string, t: string)
    requires t == Trim(line) && t != [] && !IsBlockLine(t)
    ensures Step(st, line) == Pending(st.done, st.para + [t])
  {
  }

  lemma {:induction false} ParaSnocOk(para: seq<string>, t: string)
    requires forall k :: 0 <= k < |para| ==> ParaLine(para[k])
    requires ParaLine(t)
    ensures forall k :: 0 <= k < |para + [t]| ==> ParaLine((para + [t])[k])
  {
    assert forall k :: 0 <= k < |para + [t]| ==> (para + [t])[k] == t || (para + [t])[k] == para[k];
  }

  lemma {:induction false} FlushOk(st: Pending)
    requires PendingOk(st)
    ensures forall i :: 0 <= i < |Flush(st)| ==> WellFormed(Flush(st)[i])
  {
    if st.para != [] {
      assert WellFormed(Para(st.para));
      SnocOk(st.done, Para(st.para));
    }
  }

  lemma {:induction false} SnocOk(es: seq<Entry>, e: Entry)
    requires forall i :: 0 <= i < |es| ==> WellFormed(es[i])
    requires WellFormed(e)
    ensures forall i :: 0 <= i < |es + [e]| ==> WellFormed((es + [e])[i])
  {
    forall i | 0 <= i < |es + [e]| ensures WellFormed((es + [e])[i]) {
      if i < |es| {
        assert (es + [e])[i] == es[i];
      } else {
        assert (es + [e])[i] == e;
      }
    }
  }

  /** Every entry is a trimmed block line or a non-empty paragraph of trimmed,
      non-blank lines that are not block lines. */
  lemma GroupWellFormed(lines: seq<string>)
    ensures forall i :: 0 <= i < |Group(lines)| ==> WellFormed(Group(lines)[i])
  {
    FoldWellFormed(lines);
  }

  lemma JoinFirst(ls: seq<string>, sep: string)
    requires ls != [] && ls[0] != []
    ensures Join(ls, sep) != [] && Join(ls, sep)[0] == ls[0][0]
  {
  }

  /** A well-formed entry renders to something. */
  lemma RenderNonEmpty(e: Entry)
    requires WellFormed(e)
    ensures Render(e) != []
  {
    if e.Para? {
      var ls := e.lines;
      assert ParaLine(ls[0]);
      JoinFirst(ls, "<br>");
      assert !IsWs(Join(ls, "<br>")[0]);
      WrapParagraphNonEmpty(Join(ls, "<br>"));
    }
  }

  /** The reflow never emits an empty entry. */
  lemma NoEmptyEntry(lines: seq<string>)
    ensures forall i :: 0 <= i < |RenderAll(Group(lines))| ==> RenderAll(Group(lines))[i] != []
  {
    GroupWellFormed(lines);
    forall i | 0 <= i < |Group(lines)| ensures Render(Group(lines)[i]) != [] {
      RenderNonEmpty(Group(lines)[i]);
    }
  }

  // ---------------------------------------------------------------------
  // When the pending paragraph is flushed

  /** A step does not look at the entries already made. */
  lemma StepShift(d: seq<Entry>, st: Pending, line: string)
    ensures Step(Pending(d + st.done, st.para), line)
         == Pending(d + Step(st, line).done, Step(st, line).para)
  {
    var t := Trim(line);
    if st.para != [] {
      assert d + st.done + [Para(st.para)] == d + (st.done + [Para(st.para)]);
    }
    if t != [] && IsBlockLine(t) {
      assert d + Flush(st) + [Block(t)] == d + (Flush(st) + [Block(t)]);
    }
  }

  lemma {:induction false} StepAllFresh(d: seq<Entry>, b: seq<string>)
    ensures StepAll(Pending(d, []), b) == Pending(d + Fold(b).done, Fold(b).para)
    decreases |b|
  {
    if b == [] {
      assert d + [] == d;
    } else {
      var init, last := b[..|b| - 1], b[|b| - 1];
      StepAllFresh(d, init);
      assert Fold(b) == Step(Fold(init), last);
      StepShift(d, Fold(init), last);
    }
  }

  lemma {:induction false} StepAllConcat(st: Pending, a: seq<string>, b: seq<string>)
    ensures StepAll(st, a + b) == StepAll(StepAll(st, a), b)
    decreases |b|
  {
    if b == [] {
      assert a + b == a;
    } else {
      assert (a + b)[..|a + b| - 1] == a + b[..|b| - 1];
      StepAllConcat(st, a, b[..|b| - 1]);
    }
  }

  /** After a line that leaves the state without a pending paragraph, the
      rest is grouped as if it stood alone. */
  lemma RestartsAfter(a: seq<string>, x: string, b: seq<string>)
    requires Fold(a + [x]).para == []
    ensures Group(a + [x] + b) == Fold(a + [x]).done + Group(b)
  {
    StepAllConcat(Pending([], []), a + [x], b);
    StepAllFresh(Fold(a + [x]).done, b);
    var d, fb := Fold(a + [x]).done, Fold(b);
    if fb.para != [] {
      assert d + fb.done + [Para(fb.para)] == d + (fb.done + [Para(fb.para)]);
    }
  }

  lemma FoldSnoc(a: seq<string>, x: string)
    ensures Fold(a + [x]) == Step(Fold(a), x)
  {
    assert (a + [x])[..|a|] == a;
  }

  /** A blank line ends the paragraph before it: the text on each side is
      grouped on its own. */
  lemma BlankSeparates(a: seq<string>, x: string, b: seq<string>)
    requires AllWs(x)
    ensures Group(a + [x] + b) == Group(a) + Group(b)
  {
    TrimEmptyIff(x);
    FoldSnoc(a, x);
    RestartsAfter(a, x, b);
  }

  /** A block line ends the paragraph before it and becomes an entry of its
      own, trimmed. */
  lemma BlockSeparates(a: seq<string>, x: string, b: seq<string>)
    requires !AllWs(x) && IsBlockLine(Trim(x))
    ensures Group(a + [x] + b) == Group(a) + [Block(Trim(x))] + Group(b)
  {
    TrimEmptyIff(x);
    FoldSnoc(a, x);
    RestartsAfter(a, x, b);
  }

  /** The lines, trimmed. */
  function TrimAll(lines: seq<string>): seq<string> {
    seq(|lines|, i requires 0 <= i < |lines| => Trim(lines[i]))
  }

  /** A line that is neither blank nor, trimmed, a block line. */
  predicate Plain(line: string) {
    !AllWs(line) && !IsBlockLine(Trim(line))
  }

  lemma {:induction false} StepPara(st: Pending, line: string)
    requires Plain(line)
    ensures Step(st, line) == Pending(st.done, st.para + [Trim(line)])
  {
    TrimEmptyIff(line);
  }

  lemma {:induction false} TrimAllSnoc(init: seq<string>, last: string)
    ensures TrimAll(init + [last]) == TrimAll(init) + [Trim(last)]
  {
  }

  lemma {:induction false} RunPending(lines: seq<string>)
    requires forall i :: 0 <= i < |lines| ==> Plain(lines[i])
    ensures Fold(lines) == Pending([], TrimAll(lines))
    decreases |lines|
  {
    if lines != [] {
      var init, last := lines[..|lines| - 1], lines[|lines| - 1];
      assert forall i :: 0 <= i < |init| ==> init[i] == lines[i];
      RunPending(init);
      FoldLast(lines, init, last);
      StepPara(Fold(init), last);
      TrimAllSnoc(init, last);
    }
  }

  lemma {:induction false} FoldLast(lines: seq<string>, init: seq<string>, last: string)
    requires lines != [] && init == lines[..|lines| - 1] && last == lines[|lines| - 1]
    ensures Fold(lines) == Step(Fold(init), last) && lines == init + [last]
  {
  }

  /** A run of lines that are neither blank nor block lines becomes one
      paragraph of the trimmed lines. */
  lemma RunIsOneParagraph(lines: seq<string>)
    requires lines != []
    requires forall i :: 0 <= i < |lines| ==> Plain(lines[i])
    ensures Group(lines) == [Para(TrimAll(lines))]
  {
    RunPending(lines);
  }
}
