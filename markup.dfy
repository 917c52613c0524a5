/** The markup renderer: `process_element` walks one parsed element and emits
    text with `<b>`/`<i>` tags, bullets for list items and blank lines after
    blocks. The parsed document is a closed tree of text nodes and elements. */
module Markup {
  import opened PyText

  /** A parsed node: a text node (`NavigableString`) or a tag with its children.
      Text nodes of a parsed document are non-empty; the type does not enforce it. */
  datatype Node = Text(s: string) | Element(name: string, children: seq<Node>)

  /** The result of rendering: the text, or the `AttributeError` raised when a
      list item with a nested list has no direct text child (bot.py:151
      calls `.strip()` on the `None` that `find` returns). */
  datatype Rendered = Rendered(text: string) | NoneHasNoStrip

  const Bullet: string := "\U{2022} "

  /** `"  " * level`. */
  function Indent(level: nat): (r: string)
    ensures |r| == 2 * level
    ensures forall i :: 0 <= i < |r| ==> r[i] == ' '
  {
    if level == 0 then "" else "  " + Indent(level - 1)
  }

  /** Whether `e` is a tag named one of `names`. */
  predicate IsTag(e: Node, names: set<string>) {
    e.Element? && e.name in names
  }

  /** `e.get_text(strip=True)`: the stripped text nodes below `e`, in document order. */
  function GetText(e: Node): string
    decreases e, 1, 0
  {
    match e
    case Text(s) => Strip(s)
    case Element(_, cs) => ChildrenText(e, |cs|)
  }

  /** The `get_text(strip=True)` of the first `k` children of `e`, joined. */
  function ChildrenText(e: Node, k: nat): string
    requires e.Element? && k <= |e.children|
    decreases e, 0, k
  {
    if k == 0 then ""
    else
      assert e.children[k - 1] in e.children;
      ChildrenText(e, k - 1) + GetText(e.children[k - 1])
  }

  /** `e.find(names)`: some tag strictly below `e` is named one of `names`. */
  predicate HasTagBelow(e: Node, names: set<string>)
    decreases e, 1, 0
  {
    match e
    case Text(_) => false
    case Element(_, cs) => SomeChildHasTag(e, |cs|, names)
  }

  /** Some tag among the first `k` children of `e`, or below them, is named one of `names`. */
  predicate SomeChildHasTag(e: Node, k: nat, names: set<string>)
    requires e.Element? && k <= |e.children|
    decreases e, 0, k
  {
    if k == 0 then false
    else
      var c := e.children[k - 1];
      assert c in e.children;
      SomeChildHasTag(e, k - 1, names) || IsTag(c, names) || HasTagBelow(c, names)
  }

  /** None of the first `i` children is a text node. */
  predicate NoTextBefore(cs: seq<Node>, i: nat)
    requires i <= |cs|
  {
    forall j :: 0 <= j < i ==> !cs[j].Text?
  }

  /** `e.find(text=True, recursive=False)`: the first text node among the children. */
  function FirstDirectText(cs: seq<Node>): (r: Option<string>)
    ensures r.Some? <==> exists i :: 0 <= i < |cs| && cs[i].Text?
    ensures r.Some? ==> Text(r.value) in cs
    ensures r.Some? ==> exists i :: 0 <= i < |cs| && cs[i] == Text(r.value) && NoTextBefore(cs, i)
  {
    if cs == [] then None
    else if cs[0].Text? then Some(cs[0].s)
    else
      var r := FirstDirectText(cs[1..]);
      assert forall i :: 1 <= i < |cs| ==> cs[i] == cs[1..][i - 1];
      r
  }

  /** What the paragraph loop (bot.py:138-144) emits for one child. */
  function InlinePiece(c: Node): string {
    if IsTag(c, {"strong"}) then "<b>" + GetText(c) + "</b>"
    else if IsTag(c, {"em"}) then "<i>" + GetText(c) + "</i>"
    else if c.Text? then Strip(c.s)
    else ""
  }

  /** The paragraph loop over the first `k` children of `e`. */
  function Inline(e: Node, k: nat): string
    requires e.Element? && k <= |e.children|
  {
    if k == 0 then "" else Inline(e, k - 1) + InlinePiece(e.children[k - 1])
  }

  /** `process_element(e, level)` (bot.py:125-164), as a value. */
  function Render(e: Node, level: nat): Rendered
    decreases e, 3, 0
  {
    match e
    case Text(s) => Rendered(Strip(s))
    case Element(name, cs) =>
      if name == "h1" || name == "h2" then Rendered("<b>" + GetText(e) + "</b>\n\n")
      else if name == "h3" then Rendered("<i>" + GetText(e) + "</i>\n\n")
      else if name == "p" then
        if HasTagBelow(e, {"strong", "em"}) then Rendered(Inline(e, |cs|) + "\n\n")
        else Rendered(GetText(e) + "\n\n")
      else if name == "li" then RenderItem(e, level)
      else if name == "ul" || name == "ol" then RenderList(e, level)
      else Rendered("")
  }

  /** The `li` branch (bot.py:148-156). */
  function RenderItem(e: Node, level: nat): Rendered
    requires e.Element?
    decreases e, 2, 0
  {
    if HasTagBelow(e, {"ul", "ol"}) then
      match FirstDirectText(e.children)
      case None => NoneHasNoStrip
      case Some(t) =>
        match Sublists(e, |e.children|, level + 1)
        case NoneHasNoStrip => NoneHasNoStrip
        case Rendered(sub) => Rendered(Indent(level) + Bullet + Strip(t) + "\n" + sub)
    else Rendered(Indent(level) + Bullet + GetText(e) + "\n")
  }

  /** The `ul`/`ol` branch (bot.py:157-162). */
  function RenderList(e: Node, level: nat): Rendered
    requires e.Element?
    decreases e, 2, 0
  {
    match Items(e, |e.children|, level)
    case NoneHasNoStrip => NoneHasNoStrip
    case Rendered(items) => Rendered(if level == 0 then items + "\n" else items)
  }

  /** The `ul`/`ol` children among the first `k` children of list item `e`,
      each rendered at `level` and concatenated (bot.py:152-154). */
  function Sublists(e: Node, k: nat, level: nat): Rendered
    requires e.Element? && k <= |e.children|
    decreases e, 1, k
  {
    if k == 0 then Rendered("")
    else
      match Sublists(e, k - 1, level)
      case NoneHasNoStrip => NoneHasNoStrip
      case Rendered(acc) =>
        var c := e.children[k - 1];
        assert c in e.children;
        if IsTag(c, {"ul", "ol"}) then
          match Render(c, level)
          case NoneHasNoStrip => NoneHasNoStrip
          case Rendered(t) => Rendered(acc + t)
        else Rendered(acc)
  }

  /** The `li` children among the first `k` children of list `e`, each
      rendered at `level` and concatenated (bot.py:158-160). */
  function Items(e: Node, k: nat, level: nat): Rendered
    requires e.Element? && k <= |e.children|
    decreases e, 1, k
  {
    if k == 0 then Rendered("")
    else
      match Items(e, k - 1, level)
      case NoneHasNoStrip => NoneHasNoStrip
      case Rendered(acc) =>
        var c := e.children[k - 1];
        assert c in e.children;
        if IsTag(c, {"li"}) then
          match Render(c, level)
          case NoneHasNoStrip => NoneHasNoStrip
          case Rendered(t) => Rendered(acc + t)
        else Rendered(acc)
  }

  /** `process_element`, accumulating `text` over the children as the source
      does, and recursing into nested lists and list items. */
  method ProcessElement(e: Node, level: nat) returns (r: Rendered)
    ensures r == Render(e, level)
    decreases e, 1
  {
    if e.Text? {
      return Rendered(Strip(e.s));
    }
    var name := e.name;
    if name == "h1" || name == "h2" {
      r := Rendered("<b>" + GetText(e) + "</b>\n\n");
    } else if name == "h3" {
      r := Rendered("<i>" + GetText(e) + "</i>\n\n");
    } else if name == "p" {
      var text := ProcessParagraph(e);
      r := Rendered(text);
    } else if name == "li" {
      r := ProcessItem(e, level);
    } else if name == "ul" || name == "ol" {
      r := ProcessList(e, level);
    } else {
      r := Rendered("");
    }
  }

  /** The paragraph branch: inline `strong`/`em` when the paragraph has any. */
  method ProcessParagraph(e: Node) returns (text: string)
    requires e.Element?
    ensures HasTagBelow(e, {"strong", "em"}) ==> text == Inline(e, |e.children|) + "\n\n"
    ensures !HasTagBelow(e, {"strong", "em"}) ==> text == GetText(e) + "\n\n"
  {
    if HasTagBelow(e, {"strong", "em"}) {
      text := ProcessInline(e);
    } else {
      text := GetText(e);
    }
    text := text + "\n\n";
  }

  /** The loop over a paragraph's children that keeps the inline markup. */
  method ProcessInline(e: Node) returns (text: string)
    requires e.Element?
    ensures text == Inline(e, |e.children|)
  {
    var cs := e.children;
    text := "";
    for i := 0 to |cs|
      invariant text == Inline(e, i)
    {
      text := text + InlinePiece(cs[i]);
    }
  }

  /** The list item branch: the bullet line, then each nested list one level deeper. */
  method ProcessItem(e: Node, level: nat) returns (r: Rendered)
    requires e.Element?
    ensures r == RenderItem(e, level)
    decreases e, 0
  {
    var cs := e.children;
    var indent := Indent(level);
    if !HasTagBelow(e, {"ul", "ol"}) {
      return Rendered(indent + Bullet + GetText(e) + "\n");
    }
    var first := FirstDirectText(cs);
    if first.None? {
      return NoneHasNoStrip;
    }
    var head := indent + Bullet + Strip(first.value) + "\n";
    var nested := "";
    for i := 0 to |cs|
      invariant Sublists(e, i, level + 1) == Rendered(nested)
    {
      var c := cs[i];
      assert c in e.children;
      if IsTag(c, {"ul", "ol"}) {
        var sub := ProcessElement(c, level + 1);
        if sub.NoneHasNoStrip? {
          SublistsFailureSticks(e, i + 1, |cs|, level + 1);
          return NoneHasNoStrip;
        }
        nested := nested + sub.text;
      }
    }
    r := Rendered(head + nested);
  }

  /** The list branch: every `li` child at this level, then one line break at level 0. */
  method ProcessList(e: Node, level: nat) returns (r: Rendered)
    requires e.Element?
    ensures r == RenderList(e, level)
    decreases e, 0
  {
    var cs := e.children;
    var text := "";
    var i := 0;
    while i < |cs|
      invariant 0 <= i <= |cs|
      invariant Items(e, i, level) == Rendered(text)
    {
      var c := cs[i];
      assert c in e.children;
      if IsTag(c, {"li"}) {
        var item := ProcessElement(c, level);
        if item.NoneHasNoStrip? {
          ItemsFailureSticks(e, i + 1, |cs|, level);
          return NoneHasNoStrip;
        }
        text := text + item.text;
      }
      i := i + 1;
    }
    if level == 0 {
      text := text + "\n";
    }
    r := Rendered(text);
  }

  /** Once a nested list fails, the rest of the loop cannot recover (the
      exception propagates). */
  lemma {:induction false} SublistsFailureSticks(e: Node, k: nat, n: nat, level: nat)
    requires e.Element? && k <= n <= |e.children|
    requires Sublists(e, k, level) == NoneHasNoStrip
    ensures Sublists(e, n, level) == NoneHasNoStrip
    decreases n - k
  {
    if k < n {
      SublistsFailureSticks(e, k + 1, n, level);
    }
  }

  /** Once a list item fails, the rest of the list loop cannot recover. */
  lemma {:induction false} ItemsFailureSticks(e: Node, k: nat, n: nat, level: nat)
    requires e.Element? && k <= n <= |e.children|
    requires Items(e, k, level) == NoneHasNoStrip
    ensures Items(e, n, level) == NoneHasNoStrip
    decreases n - k
  {
    if k < n {
      ItemsFailureSticks(e, k + 1, n, level);
    }
  }

  /** A string with no whitespace at either end (or empty), as `strip` leaves it. */
  predicate Trimmed(s: string) {
    s == [] || (!IsSpace(s[0]) && !IsSpace(s[|s| - 1]))
  }

  /** `get_text(strip=True)` never begins or ends with whitespace. */
  lemma {:induction false} GetTextTrimmed(e: Node)
    ensures Trimmed(GetText(e))
    decreases e, 1, 0
  {
    match e
    case Text(s) =>
      var r := Strip(s);
      assert r == [] || (!IsSpace(r[0]) && !IsSpace(r[|r| - 1]));
    case Element(_, cs) => ChildrenTextTrimmed(e, |cs|);
  }

  lemma {:induction false} ChildrenTextTrimmed(e: Node, k: nat)
    requires e.Element? && k <= |e.children|
    ensures Trimmed(ChildrenText(e, k))
    decreases e, 0, k
  {
    if k > 0 {
      var c := e.children[k - 1];
      assert c in e.children;
      ChildrenTextTrimmed(e, k - 1);
      GetTextTrimmed(c);
      TrimmedConcat(ChildrenText(e, k - 1), GetText(c));
    }
  }

  /** Two trimmed strings concatenate to a trimmed string. */
  lemma TrimmedConcat(a: string, b: string)
    requires Trimmed(a) && Trimmed(b)
    ensures Trimmed(a + b)
  {
    if a != [] && b != [] {
      assert (a + b)[0] == a[0] && (a + b)[|a + b| - 1] == b[|b| - 1];
    }
  }

  /** A block of bullet lines at `level`: it opens with the level's indent and
      a bullet and closes with a line break that does not end a blank line. */
  predicate BulletBlock(t: string, level: nat) {
    var lead := Indent(level) + Bullet;
    |lead| < |t| && t[..|lead|] == lead && t[|t| - 1] == '\n' && t[|t| - 2] != '\n'
  }

  /** Concatenating a bullet block with another (or nothing) keeps the first block's opening. */
  lemma BulletBlockAppend(a: string, b: string, level: nat, other: nat)
    requires BulletBlock(a, level)
    requires b == [] || BulletBlock(b, other)
    ensures BulletBlock(a + b, level)
  {
    var lead := Indent(level) + Bullet;
    assert (a + b)[..|lead|] == a[..|lead|];
  }

  /** A list item at `level` renders as `"  " * level + "• " + text + "\n"`, the
      item's text stripped; an item with a nested list is followed directly,
      with no blank line, by the nested lists' bullet lines at `level + 1`. */
  lemma {:induction false} ItemRendering(e: Node, level: nat)
    requires IsTag(e, {"li"})
    ensures !HasTagBelow(e, {"ul", "ol"}) ==>
      Render(e, level) == Rendered(Indent(level) + Bullet + GetText(e) + "\n")
    ensures HasTagBelow(e, {"ul", "ol"}) && Render(e, level).Rendered? ==>
      FirstDirectText(e.children).Some? &&
      var t := Render(e, level).text;
      var head := Indent(level) + Bullet + Strip(FirstDirectText(e.children).value) + "\n";
      |head| <= |t| && t[..|head|] == head && (t[|head|..] == [] || BulletBlock(t[|head|..], level + 1))
    ensures Render(e, level).Rendered? ==> BulletBlock(Render(e, level).text, level)
    decreases e, 3, 0
  {
    assert Render(e, level) == RenderItem(e, level);
    if HasTagBelow(e, {"ul", "ol"}) {
      NestedItemRendering(e, level);
    } else {
      PlainItemRendering(e, level);
    }
  }

  /** One bullet line whose text is stripped is a bullet block. */
  lemma BulletLine(level: nat, t: string)
    requires Trimmed(t)
    ensures BulletBlock(Indent(level) + Bullet + t + "\n", level)
  {
    var lead := Indent(level) + Bullet;
    var line := lead + t + "\n";
    assert line[..|lead|] == lead;
    assert line[|line| - 1] == '\n';
    if t == [] {
      assert line[|line| - 2] == ' ';
    } else {
      assert line[|line| - 2] == t[|t| - 1];
    }
  }

  lemma PlainItemRendering(e: Node, level: nat)
    requires e.Element? && !HasTagBelow(e, {"ul", "ol"})
    ensures RenderItem(e, level) == Rendered(Indent(level) + Bullet + GetText(e) + "\n")
    ensures BulletBlock(RenderItem(e, level).text, level)
  {
    GetTextTrimmed(e);
    BulletLine(level, GetText(e));
  }

  /** A bullet line followed by nothing or by deeper bullet lines is a bullet
      block whose first line is that bullet line. */
  lemma HeadThenSublists(level: nat, s: string, sub: string)
    requires Trimmed(s)
    requires sub == [] || BulletBlock(sub, level + 1)
    ensures var head := Indent(level) + Bullet + s + "\n";
      (head + sub)[..|head|] == head && (head + sub)[|head|..] == sub &&
      BulletBlock(head + sub, level)
  {
    var head := Indent(level) + Bullet + s + "\n";
    BulletLine(level, s);
    BulletBlockAppend(head, sub, level, level + 1);
    assert (head + sub)[..|head|] == head && (head + sub)[|head|..] == sub;
  }

  lemma {:induction false} NestedItemRendering(e: Node, level: nat)
    requires e.Element? && HasTagBelow(e, {"ul", "ol"})
    ensures RenderItem(e, level).Rendered? ==>
      FirstDirectText(e.children).Some? &&
      var t := RenderItem(e, level).text;
      var head := Indent(level) + Bullet + Strip(FirstDirectText(e.children).value) + "\n";
      |head| <= |t| && t[..|head|] == head && (t[|head|..] == [] || BulletBlock(t[|head|..], level + 1))
    ensures RenderItem(e, level).Rendered? ==> BulletBlock(RenderItem(e, level).text, level)
    decreases e, 2, 0
  {
    match FirstDirectText(e.children)
    case None =>
    case Some(t) =>
      SublistsShape(e, |e.children|, level + 1);
      match Sublists(e, |e.children|, level + 1)
      case NoneHasNoStrip =>
      case Rendered(sub) =>
        HeadThenSublists(level, Strip(t), sub);
  }

  /** The nested lists below a list item render as nothing or as a bullet block at `level`. */
  lemma {:induction false} SublistsShape(e: Node, k: nat, level: nat)
    requires e.Element? && k <= |e.children| && level >= 1
    ensures Sublists(e, k, level).Rendered? ==>
      Sublists(e, k, level).text == [] || BulletBlock(Sublists(e, k, level).text, level)
    decreases e, 1, k
  {
    if k > 0 {
      SublistsShape(e, k - 1, level);
      var c := e.children[k - 1];
      assert c in e.children;
      if IsTag(c, {"ul", "ol"}) {
        ListRendering(c, level);
        match Sublists(e, k - 1, level)
        case NoneHasNoStrip =>
        case Rendered(acc) =>
          match Render(c, level)
          case NoneHasNoStrip =>
          case Rendered(t) =>
            if acc != [] {
              BulletBlockAppend(acc, t, level, level);
            } else {
              assert acc + t == t;
            }
      }
    }
  }

  /** A list's items render as nothing or as a bullet block at `level`. */
  lemma {:induction false} ItemsShape(e: Node, k: nat, level: nat)
    requires e.Element? && k <= |e.children|
    ensures Items(e, k, level).Rendered? ==>
      Items(e, k, level).text == [] || BulletBlock(Items(e, k, level).text, level)
    decreases e, 1, k
  {
    if k > 0 {
      ItemsShape(e, k - 1, level);
      var c := e.children[k - 1];
      assert c in e.children;
      if IsTag(c, {"li"}) {
        ItemRendering(c, level);
        match Items(e, k - 1, level)
        case NoneHasNoStrip =>
        case Rendered(acc) =>
          match Render(c, level)
          case NoneHasNoStrip =>
          case Rendered(t) =>
            if acc != [] {
              BulletBlockAppend(acc, t, level, level);
            } else {
              assert acc + t == t;
            }
      }
    }
  }

  /** A `ul` or `ol` renders its items' bullet lines; only a top-level list
      (level 0) adds one more line break, so it alone ends in a blank line. */
  lemma {:induction false} ListRendering(e: Node, level: nat)
    requires IsTag(e, {"ul", "ol"})
    ensures Render(e, level).Rendered? ==>
      var t := Render(e, level).text;
      var body := if level == 0 && t != [] then t[..|t| - 1] else t;
      (level == 0 ==> t != [] && t[|t| - 1] == '\n') &&
      (body == [] || BulletBlock(body, level))
    decreases e, 3, 0
  {
    ItemsShape(e, |e.children|, level);
    assert Render(e, level) == RenderList(e, level);
    if Render(e, level).Rendered? && level == 0 {
      var body := Items(e, |e.children|, level).text;
      assert (body + "\n")[..|body|] == body;
    }
  }

  /** Headings and paragraphs always render, and end with a blank line;
      `h1`/`h2` are bold and `h3` italic, around the stripped heading text. */
  lemma BlockRendering(e: Node, level: nat)
    requires IsTag(e, {"h1", "h2", "h3", "p"})
    ensures Render(e, level).Rendered?
    ensures var t := Render(e, level).text; |t| >= 2 && t[|t| - 2..] == "\n\n"
    ensures IsTag(e, {"h1", "h2"}) ==> Render(e, level).text == "<b>" + GetText(e) + "</b>\n\n"
    ensures IsTag(e, {"h3"}) ==> Render(e, level).text == "<i>" + GetText(e) + "</i>\n\n"
  {
  }
}
