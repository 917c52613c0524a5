/** `read_html_file` once the content root is found: render the root's block
    children, collapse runs of blank lines, right-trim every line, trim the
    whole text, and fall back to a fixed message when nothing is left. */
module Normalise {
  import opened PyText
  import opened Markup

  /** What the reader returns when there is no content root or no content. */
  const NotFound: string := "Контент не найден."

  /** What the reader returns when rendering raised (bot.py:207-209 formats
      the `AttributeError` of bot.py:151). */
  const ReadFailed: string := ReadFailedPrefix + NoneHasNoStripMessage

  const ReadFailedPrefix: string := "Ошибка при чтении файла: "

  /** `str(e)` of the `AttributeError` raised by `None.strip()`. */
  const NoneHasNoStripMessage: string := "'NoneType' object has no attribute 'strip'"

  /** Line `i` survives the collapse: it is non-blank, or no blank line comes just before it. */
  predicate Kept(lines: seq<string>, i: nat)
    requires i < |lines|
  {
    !IsBlank(lines[i]) || i == 0 || !IsBlank(lines[i - 1])
  }

  /** What a surviving line becomes: `""` when blank, right-trimmed otherwise. */
  function Cleaned(line: string): string {
    if IsBlank(line) then "" else RStrip(line)
  }

  /** The collapse as a filter over positions: keep the lines that survive,
      cleaned, in order. */
  function Collapse(lines: seq<string>): seq<string>
    decreases |lines|
  {
    if lines == [] then []
    else
      var n := |lines| - 1;
      Collapse(lines[..n]) + (if Kept(lines, n) then [Cleaned(lines[n])] else [])
  }

  /** No two consecutive lines are both empty. */
  predicate NoBlankRun(lines: seq<string>) {
    forall i :: 0 <= i < |lines| - 1 ==> !EmptyPairAt(lines, i)
  }

  /** `lines[i]` and `lines[i + 1]` are both empty. */
  predicate EmptyPairAt(lines: seq<string>, i: nat)
    requires i + 1 < |lines|
  {
    lines[i] == [] && lines[i + 1] == []
  }

  /** Every line is `""`, or non-blank with no trailing whitespace. */
  predicate AllClean(lines: seq<string>) {
    forall i :: 0 <= i < |lines| ==> lines[i] == [] || (!IsBlank(lines[i]) && RStrip(lines[i]) == lines[i])
  }

  /** The non-blank lines, right-trimmed, in order: the text the collapse must not lose. */
  function TextLines(lines: seq<string>): seq<string>
    decreases |lines|
  {
    if lines == [] then []
    else
      var n := |lines| - 1;
      TextLines(lines[..n]) + (if IsBlank(lines[n]) then [] else [RStrip(lines[n])])
  }

  /** The loop at bot.py:193-202, with its `previous_line_empty` flag. */
  method CollapseBlankLines(lines: seq<string>) returns (cleaned: seq<string>)
    ensures cleaned == Collapse(lines)
    ensures NoBlankRun(cleaned)
    ensures AllClean(cleaned)
    ensures TextLines(cleaned) == TextLines(lines)
  {
    cleaned := [];
    var previousLineEmpty := false;
    for i := 0 to |lines|
      invariant cleaned == Collapse(lines[..i])
      invariant previousLineEmpty == (i > 0 && IsBlank(lines[i - 1]))
    {
      var line := lines[i];
      StripEmptyIffBlank(line);
      CollapseStep(lines, i);
      if Strip(line) != [] {
        cleaned := cleaned + [RStrip(line)];
        previousLineEmpty := false;
      } else if !previousLineEmpty {
        cleaned := cleaned + [""];
        previousLineEmpty := true;
      }
    }
    assert lines[..|lines|] == lines;
    CollapseProperties(lines);
  }

  /** The collapse of one more line of `lines`. */
  lemma CollapseStep(lines: seq<string>, i: nat)
    requires i < |lines|
    ensures Collapse(lines[..i + 1]) ==
      Collapse(lines[..i]) + (if Kept(lines, i) then [Cleaned(lines[i])] else [])
  {
    var p := lines[..i + 1];
    assert p[..i] == lines[..i];
    assert Kept(p, i) == Kept(lines, i);
  }

  /** The right-trimmed form of a non-blank line is non-blank and trimmed for good. */
  lemma RStripNonBlank(line: string)
    requires !IsBlank(line)
    ensures !IsBlank(RStrip(line)) && RStrip(RStrip(line)) == RStrip(line)
  {
    var r := RStrip(line);
    assert r != [];
  }

  /** The empty line is blank. */
  lemma EmptyIsBlank()
    ensures IsBlank([])
  {
  }

  /** The collapse is empty only for no lines, and its last line is empty
      exactly when the last input line is blank. */
  lemma {:induction false} CollapseLast(lines: seq<string>)
    ensures Collapse(lines) == [] <==> lines == []
    ensures lines != [] ==> (Collapse(lines)[|Collapse(lines)| - 1] == [] <==> IsBlank(lines[|lines| - 1]))
    decreases |lines|
  {
    if lines != [] {
      var n := |lines| - 1;
      CollapseLast(lines[..n]);
      if !IsBlank(lines[n]) {
        RStripNonBlank(lines[n]);
      } else if !Kept(lines, n) {
        assert lines[..n][n - 1] == lines[n - 1];
      }
    }
  }

  /** Appending a line keeps a list free of blank runs, unless both it and the
      last line are empty. */
  lemma NoBlankRunSnoc(lines: seq<string>, x: string)
    requires NoBlankRun(lines)
    requires x == [] && lines != [] ==> lines[|lines| - 1] != []
    ensures NoBlankRun(lines + [x])
  {
    var all := lines + [x];
    forall i | 0 <= i < |all| - 1 ensures !EmptyPairAt(all, i) {
      if i + 1 < |lines| {
        assert !EmptyPairAt(lines, i);
      }
    }
  }

  /** Dropping the first line keeps a list free of blank runs. */
  lemma NoBlankRunTail(lines: seq<string>)
    requires NoBlankRun(lines) && lines != []
    ensures NoBlankRun(lines[1..])
  {
    var rest := lines[1..];
    forall i | 0 <= i < |rest| - 1 ensures !EmptyPairAt(rest, i) {
      assert !EmptyPairAt(lines, i + 1);
    }
  }

  /** After the collapse no two empty lines are adjacent. */
  lemma {:induction false} CollapseNoBlankRun(lines: seq<string>)
    ensures NoBlankRun(Collapse(lines))
    decreases |lines|
  {
    if lines != [] {
      var n := |lines| - 1;
      var prev := Collapse(lines[..n]);
      CollapseNoBlankRun(lines[..n]);
      CollapseLast(lines[..n]);
      if Kept(lines, n) {
        if IsBlank(lines[n]) && n > 0 {
          assert lines[..n][n - 1] == lines[n - 1];
        } else if !IsBlank(lines[n]) {
          RStripNonBlank(lines[n]);
        }
        NoBlankRunSnoc(prev, Cleaned(lines[n]));
        assert Collapse(lines) == prev + [Cleaned(lines[n])];
      } else {
        assert Collapse(lines) == prev;
      }
    }
  }

  /** After the collapse every line is `""` or non-blank and right-trimmed. */
  lemma {:induction false} CollapseAllClean(lines: seq<string>)
    ensures AllClean(Collapse(lines))
    decreases |lines|
  {
    if lines != [] {
      var n := |lines| - 1;
      CollapseAllClean(lines[..n]);
      if !IsBlank(lines[n]) {
        RStripNonBlank(lines[n]);
      }
    }
  }

  /** The collapse keeps every non-blank line, right-trimmed, in order, and adds none. */
  lemma {:induction false} CollapseTextLines(lines: seq<string>)
    ensures TextLines(Collapse(lines)) == TextLines(lines)
    decreases |lines|
  {
    if lines != [] {
      var n := |lines| - 1;
      var prev := Collapse(lines[..n]);
      CollapseTextLines(lines[..n]);
      assert lines == lines[..n] + [lines[n]];
      TextLinesSnoc(lines[..n], lines[n]);
      if Kept(lines, n) {
        var c := Cleaned(lines[n]);
        assert Collapse(lines) == prev + [c];
        TextLinesSnoc(prev, c);
        if IsBlank(lines[n]) {
          EmptyIsBlank();
        } else {
          RStripNonBlank(lines[n]);
        }
      } else {
        assert Collapse(lines) == prev;
      }
    }
  }

  /** The text lines of a list with one more line at the end. */
  lemma TextLinesSnoc(lines: seq<string>, x: string)
    ensures TextLines(lines + [x]) == TextLines(lines) + (if IsBlank(x) then [] else [RStrip(x)])
  {
    assert (lines + [x])[..|lines|] == lines;
  }

  /** After the collapse: no blank run, every line clean, and the text lines unchanged. */
  lemma CollapseProperties(lines: seq<string>)
    ensures NoBlankRun(Collapse(lines))
    ensures AllClean(Collapse(lines))
    ensures TextLines(Collapse(lines)) == TextLines(lines)
  {
    CollapseNoBlankRun(lines);
    CollapseAllClean(lines);
    CollapseTextLines(lines);
  }

  /** A run of blank lines between text lines (or an end of the text) becomes
      exactly one empty line, and the text on either side is collapsed on its own. */
  lemma CollapseRun(xs: seq<string>, bs: seq<string>, ys: seq<string>)
    requires xs == [] || !IsBlank(xs[|xs| - 1])
    requires bs != [] && AllBlank(bs)
    requires ys == [] || !IsBlank(ys[0])
    ensures Collapse(xs + bs + ys) == Collapse(xs) + [""] + Collapse(ys)
  {
    CollapseBlanks(xs, bs);
    CollapseAppend(xs + bs, ys);
  }

  /** Blank lines after a text line (or at the start) leave one empty line. */
  lemma {:induction false} CollapseBlanks(xs: seq<string>, bs: seq<string>)
    requires xs == [] || !IsBlank(xs[|xs| - 1])
    requires bs != [] && AllBlank(bs)
    ensures Collapse(xs + bs) == Collapse(xs) + [""]
    decreases |bs|
  {
    var all := xs + bs;
    var n := |all| - 1;
    assert all[..n] == xs + bs[..|bs| - 1];
    assert IsBlank(all[n]) by {
      assert all[n] == bs[|bs| - 1];
    }
    if |bs| == 1 {
      assert all[..n] == xs;
      assert n > 0 ==> all[n - 1] == xs[|xs| - 1];
      assert Kept(all, n);
    } else {
      var init := bs[..|bs| - 1];
      assert AllBlank(init) by {
        forall k | 0 <= k < |init| ensures IsBlank(init[k]) {
          assert init[k] == bs[k];
        }
      }
      CollapseBlanks(xs, init);
      assert all[n - 1] == bs[|bs| - 2];
      assert !Kept(all, n);
    }
  }

  /** Lines that start with a text line are collapsed independently of what
      precedes them. */
  lemma {:induction false} CollapseAppend(xs: seq<string>, ys: seq<string>)
    requires ys == [] || !IsBlank(ys[0])
    ensures Collapse(xs + ys) == Collapse(xs) + Collapse(ys)
    decreases |ys|
  {
    if ys == [] {
      assert xs + ys == xs;
    } else {
      var all := xs + ys;
      var n := |all| - 1;
      var m := |ys| - 1;
      var init := ys[..m];
      assert all[..n] == xs + init;
      CollapseAppend(xs, init);
      assert all[n] == ys[m];
      assert Kept(all, n) == Kept(ys, m) by {
        if m > 0 {
          assert all[n - 1] == ys[m - 1];
        }
      }
    }
  }

  /** No three line feeds in a row: no two consecutive blank lines in the text. */
  predicate NoTripleBreak(s: string) {
    forall i :: 0 <= i < |s| - 2 ==> !TripleBreakAt(s, i)
  }

  /** Three line feeds start at `s[i]`. */
  predicate TripleBreakAt(s: string, i: nat)
    requires i + 2 < |s|
  {
    s[i] == '\n' && s[i + 1] == '\n' && s[i + 2] == '\n'
  }

  predicate AllNoLineBreak(lines: seq<string>) {
    forall k :: 0 <= k < |lines| ==> NoLineBreak(lines[k])
  }

  /** The collapse keeps lines free of line boundaries. */
  lemma {:induction false} CollapseNoLineBreak(lines: seq<string>)
    requires AllNoLineBreak(lines)
    ensures AllNoLineBreak(Collapse(lines))
    decreases |lines|
  {
    if lines != [] {
      var n := |lines| - 1;
      assert AllNoLineBreak(lines[..n]);
      CollapseNoLineBreak(lines[..n]);
    }
  }

  /** A newline-joined text starts with a line feed only when its first line
      is empty and another line follows. */
  lemma JoinStart(lines: seq<string>)
    requires AllNoLineBreak(lines)
    requires |Join(lines, '\n')| > 0 && Join(lines, '\n')[0] == '\n'
    ensures |lines| >= 2 && lines[0] == []
  {
  }

  /** Joining lines with no blank run gives a text with no three line feeds in a row. */
  lemma {:induction false} JoinNoTripleBreak(lines: seq<string>)
    requires AllNoLineBreak(lines) && NoBlankRun(lines)
    ensures NoTripleBreak(Join(lines, '\n'))
    decreases |lines|
  {
    if |lines| >= 2 {
      var x := lines[0];
      var rest := lines[1..];
      var j := Join(rest, '\n');
      var s := Join(lines, '\n');
      assert AllNoLineBreak(rest);
      NoBlankRunTail(lines);
      JoinNoTripleBreak(rest);
      assert s == x + "\n" + j;
      forall i | 0 <= i < |s| - 2
        ensures !TripleBreakAt(s, i)
      {
        if i < |x| {
          assert s[i] == x[i] && !IsLineBreak(x[i]);
        } else if i > |x| {
          assert !TripleBreakAt(j, i - |x| - 1);
          assert s[i] == j[i - |x| - 1] && s[i + 1] == j[i - |x|] && s[i + 2] == j[i - |x| + 1];
        } else if s[i + 1] == '\n' && s[i + 2] == '\n' {
          assert j[0] == '\n';
          JoinStart(rest);
          var j2 := Join(rest[1..], '\n');
          assert j == "" + "\n" + j2;
          assert j2[0] == '\n';
          assert AllNoLineBreak(rest[1..]);
          JoinStart(rest[1..]);
          assert EmptyPairAt(rest, 0);
          assert false;
        }
      }
    } else if |lines| == 1 {
      assert Join(lines, '\n') == lines[0];
      assert forall i :: 0 <= i < |lines[0]| ==> !IsLineBreak(lines[0][i]);
    }
  }

  /** A piece cut out of a text with no three line feeds in a row has none either. */
  lemma NoTripleBreakSlice(s: string, t: string, a: nat)
    requires a + |t| <= |s| && t == s[a..a + |t|] && NoTripleBreak(s)
    ensures NoTripleBreak(t)
  {
    forall i | 0 <= i < |t| - 2 ensures !TripleBreakAt(t, i) {
      assert !TripleBreakAt(s, a + i);
      assert t[i] == s[a + i] && t[i + 1] == s[a + i + 1] && t[i + 2] == s[a + i + 2];
    }
  }

  /** Stripping a text with no three line feeds in a row leaves none either. */
  lemma StripNoTripleBreak(s: string)
    requires NoTripleBreak(s)
    ensures NoTripleBreak(Strip(s))
  {
    NoTripleBreakSlice(s, Strip(s), |s| - |LStrip(s)|);
  }

  /** The normalisation at bot.py:193-204: split into lines, collapse,
      rejoin with `"\n"` and strip. */
  function Normalised(text: string): string {
    Strip(Join(Collapse(SplitLines(text)), '\n'))
  }

  /** The normalised text is trimmed and has no two consecutive blank lines. */
  lemma NormalisedShape(text: string)
    ensures Trimmed(Normalised(text))
    ensures NoTripleBreak(Normalised(text))
  {
    var joined := Join(Collapse(SplitLines(text)), '\n');
    CollapsedNoTripleBreak(text, joined);
    StripNoTripleBreak(joined);
    StripTrimmed(joined);
  }

  /** The collapsed lines, joined, hold no three line feeds in a row. */
  lemma CollapsedNoTripleBreak(text: string, joined: string)
    requires joined == Join(Collapse(SplitLines(text)), '\n')
    ensures NoTripleBreak(joined)
  {
    var lines := SplitLines(text);
    SplitLinesNoBreak(text);
    CollapseNoLineBreak(lines);
    CollapseNoBlankRun(lines);
    JoinNoTripleBreak(Collapse(lines));
  }

  /** Whatever `strip()` returns is trimmed. */
  lemma StripTrimmed(s: string)
    ensures Trimmed(Strip(s))
  {
  }

  predicate AllBlank(lines: seq<string>) {
    forall k :: 0 <= k < |lines| ==> IsBlank(lines[k])
  }

  /** A list of lines with one more in front is all blank exactly when both parts are. */
  lemma AllBlankCons(x: string, lines: seq<string>)
    ensures AllBlank([x] + lines) <==> IsBlank(x) && AllBlank(lines)
  {
    var all := [x] + lines;
    if AllBlank(all) {
      assert IsBlank(all[0]);
      forall k | 0 <= k < |lines| ensures IsBlank(lines[k]) {
        assert all[k + 1] == lines[k];
      }
    }
    if IsBlank(x) && AllBlank(lines) {
      forall k | 0 <= k < |all| ensures IsBlank(all[k]) {
        if k > 0 {
          assert all[k] == lines[k - 1];
        }
      }
    }
  }

  /** A concatenation is blank exactly when both parts are. */
  lemma BlankConcat(a: string, b: string)
    ensures IsBlank(a + b) <==> IsBlank(a) && IsBlank(b)
  {
    if IsBlank(a + b) {
      assert forall i :: 0 <= i < |a| ==> a[i] == (a + b)[i];
      assert forall i :: 0 <= i < |b| ==> b[i] == (a + b)[|a| + i];
    }
  }

  /** A line boundary, and whatever follows it, is blank exactly when the rest is. */
  lemma BreakBlank(text: string, i: nat)
    requires i < |text| && IsLineBreak(text[i])
    ensures IsBlank(text[i..]) <==> IsBlank(text[i + BreakWidth(text, i)..])
  {
    var w := BreakWidth(text, i);
    LineBreakIsSpace(text[i]);
    if w == 2 {
      assert text[i + 1] == '\n';
    }
    assert IsBlank(text[i..i + w]);
    assert text[i..] == text[i..i + w] + text[i + w..];
    BlankConcat(text[i..i + w], text[i + w..]);
  }

  /** A text is blank exactly when all of its lines are. */
  lemma {:induction false} BlankIffLinesBlank(text: string)
    ensures IsBlank(text) <==> AllBlank(SplitLines(text))
    decreases |text|
  {
    if text != [] {
      var i := FirstBreak(text);
      if i < |text| {
        var rest := text[i + BreakWidth(text, i)..];
        BlankIffLinesBlank(rest);
        BlankLinesStep(text, i, rest);
      } else {
        assert SplitLines(text) == [text];
        AllBlankCons(text, []);
      }
    }
  }

  /** The step of `BlankIffLinesBlank`: from the text after the first boundary
      to the whole text. */
  lemma BlankLinesStep(text: string, i: nat, rest: string)
    requires i == FirstBreak(text) && i < |text| && rest == text[i + BreakWidth(text, i)..]
    requires IsBlank(rest) <==> AllBlank(SplitLines(rest))
    ensures IsBlank(text) <==> AllBlank(SplitLines(text))
  {
    SplitLinesAt(text, i);
    AllBlankCons(text[..i], SplitLines(rest));
    BreakBlank(text, i);
    assert text == text[..i] + text[i..];
    BlankConcat(text[..i], text[i..]);
  }

  /** A newline-joined text is blank exactly when all of its lines are. */
  lemma {:induction false} JoinBlank(lines: seq<string>)
    ensures IsBlank(Join(lines, '\n')) <==> AllBlank(lines)
    decreases |lines|
  {
    if |lines| >= 2 {
      var rest := lines[1..];
      JoinBlank(rest);
      var j := Join(rest, '\n');
      assert Join(lines, '\n') == lines[0] + ("\n" + j);
      assert lines == [lines[0]] + rest;
      AllBlankCons(lines[0], rest);
      assert IsBlank("\n");
      BlankConcat(lines[0], "\n" + j);
      BlankConcat("\n", j);
    }
  }

  /** A list of lines with one more at the end is all blank exactly when both parts are. */
  lemma AllBlankSnoc(lines: seq<string>, x: string)
    ensures AllBlank(lines + [x]) <==> AllBlank(lines) && IsBlank(x)
  {
    var all := lines + [x];
    if AllBlank(all) {
      assert IsBlank(all[|lines|]);
      forall k | 0 <= k < |lines| ensures IsBlank(lines[k]) {
        assert all[k] == lines[k];
      }
    }
    if AllBlank(lines) && IsBlank(x) {
      forall k | 0 <= k < |all| ensures IsBlank(all[k]) {
        if k < |lines| {
          assert all[k] == lines[k];
        }
      }
    }
  }

  /** The text lines are gone exactly when every line is blank. */
  lemma {:induction false} TextLinesEmpty(lines: seq<string>)
    ensures TextLines(lines) == [] <==> AllBlank(lines)
    decreases |lines|
  {
    if lines != [] {
      var n := |lines| - 1;
      TextLinesEmpty(lines[..n]);
      assert lines == lines[..n] + [lines[n]];
      AllBlankSnoc(lines[..n], lines[n]);
    }
  }

  /** Normalisation leaves nothing exactly when the rendered text was blank. */
  lemma NormalisedEmptyIffBlank(text: string)
    ensures Normalised(text) == [] <==> IsBlank(text)
  {
    var lines := SplitLines(text);
    var collapsed := Collapse(lines);
    StripEmptyIffBlank(Join(collapsed, '\n'));
    JoinBlank(collapsed);
    CollapseProperties(lines);
    TextLinesEmpty(collapsed);
    TextLinesEmpty(lines);
    BlankIffLinesBlank(text);
  }

  /** The tags `read_html_file` renders when they are direct children of the root. */
  predicate IsBlockTag(c: Node) {
    IsTag(c, {"h1", "h2", "h3", "p", "ul", "ol"})
  }

  /** The renderings of the block children among the first `k` children of
      `root`, concatenated; the first failure stops it (bot.py:188-190). */
  function RenderBlocks(root: Node, k: nat): Rendered
    requires root.Element? && k <= |root.children|
  {
    if k == 0 then Rendered("")
    else
      match RenderBlocks(root, k - 1)
      case NoneHasNoStrip => NoneHasNoStrip
      case Rendered(acc) =>
        var c := root.children[k - 1];
        if IsBlockTag(c) then
          match Render(c, 0)
          case NoneHasNoStrip => NoneHasNoStrip
          case Rendered(t) => Rendered(acc + t)
        else Rendered(acc)
  }

  /** `read_html_file` from the located content root on (bot.py:184-209). */
  function ReadContent(root: Option<Node>): string
    requires root.Some? ==> root.value.Element?
  {
    match root
    case None => NotFound
    case Some(r) =>
      match RenderBlocks(r, |r.children|)
      case NoneHasNoStrip => ReadFailed
      case Rendered(text) =>
        var result := Normalised(text);
        if result == [] then NotFound else result
  }

  /** A text without newlines cannot hold three in a row. */
  lemma NoNewlineNoTripleBreak(s: string)
    requires '\n' !in s
    ensures NoTripleBreak(s)
  {
    forall i | 0 <= i < |s| - 2 ensures !TripleBreakAt(s, i) {
      assert s[i] in s;
    }
  }

  /** The not-found message is a non-empty single trimmed line. */
  lemma NotFoundShape()
    ensures NotFound != [] && Trimmed(NotFound) && NoTripleBreak(NotFound)
  {
    assert !IsSpace(NotFound[0]) && !IsSpace(NotFound[|NotFound| - 1]);
    assert '\n' !in NotFound;
    NoNewlineNoTripleBreak(NotFound);
  }

  /** The error message is a non-empty single trimmed line. */
  lemma ReadFailedShape()
    ensures ReadFailed != [] && Trimmed(ReadFailed) && NoTripleBreak(ReadFailed)
  {
    var a, b := ReadFailedPrefix, NoneHasNoStripMessage;
    PrefixShape();
    MessageShape();
    JoinedEnds(a, b);
    NoNewlineNoTripleBreak(ReadFailed);
  }

  lemma PrefixShape()
    ensures ReadFailedPrefix != [] && !IsSpace(ReadFailedPrefix[0]) && '\n' !in ReadFailedPrefix
  {
  }

  lemma MessageShape()
    ensures NoneHasNoStripMessage != [] && !IsSpace(NoneHasNoStripMessage[|NoneHasNoStripMessage| - 1])
    ensures '\n' !in NoneHasNoStripMessage
  {
  }

  /** The first and last characters of a concatenation, and its line feeds. */
  lemma JoinedEnds(a: string, b: string)
    requires a != [] && b != []
    ensures (a + b)[0] == a[0] && (a + b)[|a + b| - 1] == b[|b| - 1]
    ensures '\n' in a + b <==> '\n' in a || '\n' in b
  {
  }

  /** What the reader returns is never empty, never starts or ends with
      whitespace, and never holds two blank lines in a row; a blank rendering
      gives the not-found message. */
  lemma ReadContentShape(root: Option<Node>)
    requires root.Some? ==> root.value.Element?
    ensures ReadContent(root) != []
    ensures Trimmed(ReadContent(root))
    ensures NoTripleBreak(ReadContent(root))
    ensures root.Some? && RenderBlocks(root.value, |root.value.children|).Rendered? &&
            IsBlank(RenderBlocks(root.value, |root.value.children|).text)
            ==> ReadContent(root) == NotFound
  {
    NotFoundShape();
    match root
    case None =>
    case Some(r) =>
      match RenderBlocks(r, |r.children|)
      case NoneHasNoStrip =>
        ReadFailedShape();
      case Rendered(text) =>
        NormalisedShape(text);
        NormalisedEmptyIffBlank(text);
  }

  /** `read_html_file` as the source runs it: the loop over the root's block
      children (bot.py:188-190), then the collapse loop, the join and the strip. */
  method ReadHtmlFile(root: Option<Node>) returns (result: string)
    requires root.Some? ==> root.value.Element?
    ensures result == ReadContent(root)
  {
    if root.None? {
      return NotFound;
    }
    var content := root.value;
    var text := "";
    for i := 0 to |content.children|
      invariant RenderBlocks(content, i) == Rendered(text)
    {
      var c := content.children[i];
      if IsBlockTag(c) {
        var piece := ProcessElement(c, 0);
        if piece.NoneHasNoStrip? {
          BlocksFailureSticks(content, i + 1, |content.children|);
          return ReadFailed;
        }
        text := text + piece.text;
      }
    }
    var cleaned := CollapseBlankLines(SplitLines(text));
    result := Strip(Join(cleaned, '\n'));
    if result == [] {
      result := NotFound;
    }
  }

  /** Once a block fails, the document fails. */
  lemma {:induction false} BlocksFailureSticks(root: Node, k: nat, n: nat)
    requires root.Element? && k <= n <= |root.children|
    requires RenderBlocks(root, k) == NoneHasNoStrip
    ensures RenderBlocks(root, n) == NoneHasNoStrip
    decreases n - k
  {
    if k < n {
      BlocksFailureSticks(root, k + 1, n);
    }
  }
}
