/** The parts of Python's `str` that the bot relies on: whitespace, `strip`,
    `rstrip`, `splitlines`, `split`/`join` on one separator, and `int()` on a
    string of ASCII digits. Strings are sequences of Unicode scalar values,
    which is what Python's `len` counts. */
module PyText {

  datatype Option<+T> = None | Some(value: T)

  /** The characters Python's `str.isspace` accepts: what `strip()` removes. */
  const SpaceChars: set<char> := {
    ' ', '\t', '\n', '\r', '\U{000B}', '\U{000C}', '\U{001C}', '\U{001D}', '\U{001E}', '\U{001F}',
    '\U{0085}', '\U{00A0}', '\U{1680}', '\U{2000}', '\U{2001}', '\U{2002}', '\U{2003}', '\U{2004}',
    '\U{2005}', '\U{2006}', '\U{2007}', '\U{2008}', '\U{2009}', '\U{200A}', '\U{2028}', '\U{2029}',
    '\U{202F}', '\U{205F}', '\U{3000}'
  }

  /** The line boundaries of `str.splitlines` (`\r\n` counts as one boundary). */
  const LineBreakChars: set<char> := {
    '\n', '\r', '\U{000B}', '\U{000C}', '\U{001C}', '\U{001D}', '\U{001E}', '\U{0085}', '\U{2028}', '\U{2029}'
  }

  predicate IsSpace(c: char) {
    c in SpaceChars
  }

  predicate IsLineBreak(c: char) {
    c in LineBreakChars
  }

  /** Every line boundary is whitespace. */
  lemma LineBreakIsSpace(c: char)
    requires IsLineBreak(c)
    ensures IsSpace(c)
  {
  }

  /** `not s.strip()`: the string holds whitespace only. */
  predicate IsBlank(s: string) {
    forall i :: 0 <= i < |s| ==> IsSpace(s[i])
  }

  /** `s.rstrip()`: the longest prefix that does not end in whitespace. */
  function RStrip(s: string): (r: string)
    ensures |r| <= |s| && r == s[..|r|]
    ensures r == [] || !IsSpace(r[|r| - 1])
    ensures forall i :: |r| <= i < |s| ==> IsSpace(s[i])
  {
    if s == [] || !IsSpace(s[|s| - 1]) then s else RStrip(s[..|s| - 1])
  }

  /** `s.lstrip()`: the longest suffix that does not start with whitespace. */
  function LStrip(s: string): (r: string)
    ensures |r| <= |s| && r == s[|s| - |r|..]
    ensures r == [] || !IsSpace(r[0])
    ensures forall i :: 0 <= i < |s| - |r| ==> IsSpace(s[i])
  {
    if s == [] || !IsSpace(s[0]) then s else LStrip(s[1..])
  }

  /** `s.strip()`: a contiguous piece of `s`, starting where `lstrip` starts,
      with no whitespace at either end. */
  function Strip(s: string): (r: string)
    ensures var k := |s| - |LStrip(s)|; k + |r| <= |s| && r == s[k..k + |r|]
    ensures r == [] || (!IsSpace(r[0]) && !IsSpace(r[|r| - 1]))
    ensures forall i :: |s| - |LStrip(s)| + |r| <= i < |s| ==> IsSpace(s[i])
  {
    var t := LStrip(s);
    var r := RStrip(t);
    SpaceTailOfSuffix(s, t, |r|);
    PrefixOfSuffix(s, t, r);
    r
  }

  /** A prefix `r` of a suffix `t` of `s` is the slice of `s` where `t` starts. */
  lemma PrefixOfSuffix(s: string, t: string, r: string)
    requires |t| <= |s| && t == s[|s| - |t|..] && |r| <= |t| && r == t[..|r|]
    ensures |s| - |t| + |r| <= |s| && r == s[|s| - |t|..|s| - |t| + |r|]
  {
  }

  /** Trailing whitespace of a suffix `t` of `s` is trailing whitespace of `s`. */
  lemma SpaceTailOfSuffix(s: string, t: string, n: nat)
    requires |t| <= |s| && t == s[|s| - |t|..] && n <= |t|
    requires forall j :: n <= j < |t| ==> IsSpace(t[j])
    ensures forall i :: |s| - |t| + n <= i < |s| ==> IsSpace(s[i])
  {
    forall i | |s| - |t| + n <= i < |s| ensures IsSpace(s[i]) {
      assert s[i] == t[i - (|s| - |t|)];
    }
  }

  /** `s.strip()` is empty exactly when `s` is blank. */
  lemma StripEmptyIffBlank(s: string)
    ensures Strip(s) == [] <==> IsBlank(s)
  {
    var t := LStrip(s);
    assert t != [] ==> RStrip(t) != [];
    assert IsBlank(s) ==> t == [];
  }

  /** Index of the first line boundary of `s`, or `|s|` when there is none. */
  function FirstBreak(s: string): (i: nat)
    ensures i <= |s|
    ensures i < |s| ==> IsLineBreak(s[i])
  {
    if s == [] || IsLineBreak(s[0]) then 0 else 1 + FirstBreak(s[1..])
  }

  /** No line boundary comes before the first one. */
  lemma {:induction false} BeforeFirstBreak(s: string)
    ensures NoLineBreak(s[..FirstBreak(s)])
    decreases |s|
  {
    if s != [] && !IsLineBreak(s[0]) {
      BeforeFirstBreak(s[1..]);
      assert s[..FirstBreak(s)] == [s[0]] + s[1..][..FirstBreak(s[1..])];
    }
  }

  predicate NoLineBreak(s: string) {
    forall i :: 0 <= i < |s| ==> !IsLineBreak(s[i])
  }

  /** Length of the line boundary at `s[i]`: two for `\r\n`, one otherwise. */
  function BreakWidth(s: string, i: nat): (w: nat)
    requires i < |s|
    ensures 1 <= w <= 2 && i + w <= |s|
  {
    if s[i] == '\r' && i + 1 < |s| && s[i + 1] == '\n' then 2 else 1
  }

  /** `s.splitlines()`: the lines of `s` without their boundaries; a boundary
      at the very end does not open an empty last line. */
  function SplitLines(s: string): seq<string>
    decreases |s|
  {
    if s == [] then []
    else
      var i := FirstBreak(s);
      if i == |s| then [s]
      else
        [s[..i]] + SplitLines(s[i + BreakWidth(s, i)..])
  }

  /** No line of `splitlines` holds a line boundary. */
  lemma {:induction false} SplitLinesNoBreak(s: string)
    ensures forall k :: 0 <= k < |SplitLines(s)| ==> NoLineBreak(SplitLines(s)[k])
    decreases |s|
  {
    var i := FirstBreak(s);
    BeforeFirstBreak(s);
    if i < |s| {
      var rest := s[i + BreakWidth(s, i)..];
      SplitLinesNoBreak(rest);
      SplitLinesAt(s, i);
      ConsAll(s[..i], SplitLines(rest));
    } else if s != [] {
      assert s[..i] == s;
    }
  }

  /** The elements of `[x] + xs`. */
  lemma ConsAll<T>(x: T, xs: seq<T>)
    ensures forall k :: 1 <= k < |xs| + 1 ==> ([x] + xs)[k] == xs[k - 1]
    ensures ([x] + xs)[0] == x
  {
  }

  /** The lines of a text with a boundary: the first line, then the lines
      after that boundary. */
  lemma SplitLinesAt(s: string, i: nat)
    requires i == FirstBreak(s) && i < |s|
    ensures SplitLines(s) == [s[..i]] + SplitLines(s[i + BreakWidth(s, i)..])
  {
  }

  /** `sep.join(parts)` for a one-character separator. */
  function Join(parts: seq<string>, sep: char): string {
    if parts == [] then []
    else if |parts| == 1 then parts[0]
    else parts[0] + [sep] + Join(parts[1..], sep)
  }

  /** Index of the first `sep` in `s`, or `|s|` when there is none. */
  function FirstIndex(s: string, sep: char): (i: nat)
    ensures i <= |s|
    ensures i < |s| ==> s[i] == sep
    ensures forall j :: 0 <= j < i ==> s[j] != sep
  {
    if s == [] || s[0] == sep then 0 else 1 + FirstIndex(s[1..], sep)
  }

  /** `s.split(sep)` for a one-character separator: the piece up to the first
      separator, then the split of what follows it; never an empty list. */
  function Split(s: string, sep: char): (parts: seq<string>)
    ensures |parts| >= 1
    decreases |s|
  {
    var i := FirstIndex(s, sep);
    if i == |s| then [s] else [s[..i]] + Split(s[i + 1..], sep)
  }

  /** `''.join(parts)`. */
  function Concat(parts: seq<string>): string {
    if parts == [] then [] else Concat(parts[..|parts| - 1]) + parts[|parts| - 1]
  }

  /** A split has more than one piece exactly when the separator occurs. */
  lemma SplitSeveralIff(s: string, sep: char)
    ensures |Split(s, sep)| > 1 <==> sep in s
  {
    var i := FirstIndex(s, sep);
    if sep in s {
      var j :| 0 <= j < |s| && s[j] == sep;
      assert i <= j;
    }
  }

  /** No piece of a split contains the separator. */
  lemma {:induction false} SplitPiecesFree(s: string, sep: char)
    ensures forall k :: 0 <= k < |Split(s, sep)| ==> sep !in Split(s, sep)[k]
    decreases |s|
  {
    var i := FirstIndex(s, sep);
    if i < |s| {
      var rest := Split(s[i + 1..], sep);
      SplitPiecesFree(s[i + 1..], sep);
      assert sep !in s[..i];
      assert forall k :: 1 <= k < |rest| + 1 ==> ([s[..i]] + rest)[k] == rest[k - 1];
    }
  }

  /** Joining a piece in front of a non-empty list of pieces. */
  lemma JoinCons(x: string, parts: seq<string>, sep: char)
    requires parts != []
    ensures Join([x] + parts, sep) == x + [sep] + Join(parts, sep)
  {
    assert ([x] + parts)[1..] == parts;
  }

  /** Joining the pieces of a split gives back the string. */
  lemma {:induction false} JoinSplit(s: string, sep: char)
    ensures Join(Split(s, sep), sep) == s
    decreases |s|
  {
    var i := FirstIndex(s, sep);
    if i < |s| {
      var rest := s[i + 1..];
      JoinSplit(rest, sep);
      JoinSplitStep(s, sep, i, rest);
    }
  }

  /** The step of `JoinSplit`: from the text after the first separator to the whole text. */
  lemma JoinSplitStep(s: string, sep: char, i: nat, rest: string)
    requires i == FirstIndex(s, sep) && i < |s| && rest == s[i + 1..]
    requires Join(Split(rest, sep), sep) == rest
    ensures Join(Split(s, sep), sep) == s
  {
    SplitAt(s, sep, i);
    JoinCons(s[..i], Split(rest, sep), sep);
    assert s == s[..i] + [sep] + rest;
  }

  /** Splitting distributes over a separator placed between two strings. */
  lemma {:induction false} SplitAround(a: string, sep: char, b: string)
    ensures Split(a + [sep] + b, sep) == Split(a, sep) + Split(b, sep)
    decreases |a|
  {
    var i := FirstIndex(a, sep);
    if i == |a| {
      SplitAroundFirst(a, sep, b, i);
    } else {
      SplitAround(a[i + 1..], sep, b);
      SplitAroundFirst(a, sep, b, i);
    }
  }

  /** The first separator of `a + [sep] + b` is the first one of `a`, or the
      one placed after `a`; the split continues from there. */
  lemma SplitAroundFirst(a: string, sep: char, b: string, i: nat)
    requires i == FirstIndex(a, sep)
    requires i < |a| ==>
      Split(a[i + 1..] + [sep] + b, sep) == Split(a[i + 1..], sep) + Split(b, sep)
    ensures Split(a + [sep] + b, sep) == Split(a, sep) + Split(b, sep)
  {
    var s := a + [sep] + b;
    FirstIndexOfAround(a, sep, b);
    if i == |a| {
      assert s[..|a|] == a && s[|a| + 1..] == b;
    } else {
      SplitAroundInner(a, sep, b, i);
    }
  }

  /** Where the first separator of `a + [sep] + b` sits. */
  lemma FirstIndexOfAround(a: string, sep: char, b: string)
    ensures FirstIndex(a + [sep] + b, sep) == FirstIndex(a, sep)
  {
    var s, i := a + [sep] + b, FirstIndex(a, sep);
    assert s[i] == sep;
  }

  /** `SplitAroundFirst` when `a` holds a separator. */
  lemma SplitAroundInner(a: string, sep: char, b: string, i: nat)
    requires i == FirstIndex(a, sep) == FirstIndex(a + [sep] + b, sep) && i < |a|
    requires Split(a[i + 1..] + [sep] + b, sep) == Split(a[i + 1..], sep) + Split(b, sep)
    ensures Split(a + [sep] + b, sep) == Split(a, sep) + Split(b, sep)
  {
    var s, a1 := a + [sep] + b, a[i + 1..];
    SlicesAround(a, sep, b, i);
    SplitSameHead(s, a, a1, a1 + [sep] + b, Split(b, sep), sep, i);
  }

  /** Two strings that agree up to a shared first separator split alike,
      up to what follows it. */
  lemma SplitSameHead(s: string, a: string, a1: string, t: string, rb: seq<string>, sep: char, i: nat)
    requires i == FirstIndex(a, sep) == FirstIndex(s, sep) && i < |a| && i < |s|
    requires s[..i] == a[..i] && a1 == a[i + 1..] && t == s[i + 1..]
    requires Split(t, sep) == Split(a1, sep) + rb
    ensures Split(s, sep) == Split(a, sep) + rb
  {
    SplitAt(s, sep, i);
    SplitAt(a, sep, i);
    AppendAfterHead(Split(s, sep), Split(a, sep), Split(t, sep), Split(a1, sep), rb, a[..i]);
  }

  /** Cutting `a + [x] + b` at a position inside `a`. */
  lemma SlicesAround<T>(a: seq<T>, x: T, b: seq<T>, i: nat)
    requires i < |a|
    ensures (a + [x] + b)[..i] == a[..i]
    ensures (a + [x] + b)[i + 1..] == a[i + 1..] + [x] + b
  {
  }

  /** Lists that share a head element, with tails related by an append, are
      related by the same append. */
  lemma AppendAfterHead<T>(xs: seq<T>, ys: seq<T>, xt: seq<T>, yt: seq<T>, zs: seq<T>, h: T)
    requires xs == [h] + xt && ys == [h] + yt && xt == yt + zs
    ensures xs == ys + zs
  {
  }

  /** A split at a separator: the piece before it, then the split of the rest. */
  lemma SplitAt(s: string, sep: char, i: nat)
    requires i == FirstIndex(s, sep) && i < |s|
    ensures Split(s, sep) == [s[..i]] + Split(s[i + 1..], sep)
  {
  }

  /** A string without the separator splits into itself alone. */
  lemma SplitFree(s: string, sep: char)
    requires sep !in s
    ensures Split(s, sep) == [s]
  {
    assert FirstIndex(s, sep) == |s|;
  }

  /** Joining two non-empty lists of pieces puts one separator between them. */
  lemma {:induction false} JoinAppend(xs: seq<string>, ys: seq<string>, sep: char)
    requires xs != [] && ys != []
    ensures Join(xs + ys, sep) == Join(xs, sep) + [sep] + Join(ys, sep)
    decreases |xs|
  {
    if |xs| > 1 {
      assert (xs + ys)[1..] == xs[1..] + ys;
      JoinAppend(xs[1..], ys, sep);
    }
  }

  predicate IsDigit(c: char) {
    '0' <= c <= '9'
  }

  predicate AllDigits(s: string) {
    forall i :: 0 <= i < |s| ==> IsDigit(s[i])
  }

  /** Decimal value of a string of ASCII digits. */
  function DigitsValue(s: string): nat
    requires AllDigits(s)
  {
    if s == [] then 0 else 10 * DigitsValue(s[..|s| - 1]) + (s[|s| - 1] - '0') as nat
  }

  /** `int(s)` on ASCII input: surrounding whitespace, an optional sign and at
      least one digit; anything else is a `ValueError`, here `None`. */
  function ParseInt(s: string): (r: Option<int>)
    ensures r.Some? ==> exists k :: 0 <= k < |s| && IsDigit(s[k])
  {
    var t := Strip(s);
    var r := ParseSigned(t);
    assert r.Some? ==> IsDigit(s[|s| - |LStrip(s)| + |t| - 1]);
    r
  }

  /** `int` on an already stripped string: an optional sign, then digits only. */
  function ParseSigned(t: string): (r: Option<int>)
    ensures r.Some? ==> t != [] && IsDigit(t[|t| - 1])
  {
    if |t| > 1 && (t[0] == '+' || t[0] == '-') && AllDigits(t[1..]) then
      var v: int := DigitsValue(t[1..]);
      assert IsDigit(t[1..][|t| - 2]);
      Some(if t[0] == '-' then -v else v)
    else if |t| > 0 && AllDigits(t) then
      Some(DigitsValue(t))
    else None
  }

  /** A single non-whitespace character strips to itself. */
  lemma StripSingle(c: char)
    requires !IsSpace(c)
    ensures Strip([c]) == [c]
  {
    assert LStrip([c]) == [c];
    assert RStrip([c]) == [c];
  }

  /** No digit is whitespace. */
  lemma DigitNotSpace(d: char)
    requires IsDigit(d)
    ensures !IsSpace(d)
  {
  }

  /** A lone digit parses to its value. */
  lemma ParseSignedDigit(d: char)
    requires IsDigit(d)
    ensures ParseSigned([d]) == Some((d - '0') as int)
  {
    var t := [d];
    assert AllDigits(t);
    assert t[..0] == [];
    assert DigitsValue(t) == (d - '0') as nat;
  }

  /** `int(d)` of one digit is that digit's value. */
  lemma ParseDigit(d: char)
    requires IsDigit(d)
    ensures ParseInt([d]) == Some((d - '0') as int)
  {
    DigitNotSpace(d);
    StripSingle(d);
    ParseSignedDigit(d);
  }

  /** `t` is what `int()` accepts once stripped, with value `v`: one or more
      ASCII digits, with or without a leading `+` or `-`. */
  predicate SignedDigits(t: string, v: int) {
    (|t| > 0 && AllDigits(t) && v == DigitsValue(t)) ||
    (|t| > 1 && t[0] == '+' && AllDigits(t[1..]) && v == DigitsValue(t[1..])) ||
    (|t| > 1 && t[0] == '-' && AllDigits(t[1..]) && v == -(DigitsValue(t[1..]) as int))
  }

  lemma ParseSignedIff(t: string, v: int)
    ensures ParseSigned(t) == Some(v) <==> SignedDigits(t, v)
  {
  }

  /** A piece with no whitespace at either end, between two blank stretches,
      is exactly what `strip()` keeps. */
  lemma StripBetweenBlanks(w1: string, t: string, w2: string)
    requires IsBlank(w1) && IsBlank(w2)
    requires t != [] && !IsSpace(t[0]) && !IsSpace(t[|t| - 1])
    ensures Strip(w1 + t + w2) == t
  {
    var s := w1 + t + w2;
    var a, b := |w1|, |w1| + |t|;
    assert forall i :: 0 <= i < a ==> IsSpace(s[i]) by {
      forall i | 0 <= i < a ensures IsSpace(s[i]) { assert s[i] == w1[i]; }
    }
    assert forall i :: b <= i < |s| ==> IsSpace(s[i]) by {
      forall i | b <= i < |s| ensures IsSpace(s[i]) { assert s[i] == w2[i - b]; }
    }
    assert s[a] == t[0] && s[b - 1] == t[|t| - 1];
    assert s[a..b] == t;
    var r := Strip(s);
    var k := |s| - |LStrip(s)|;
    assert k == a;
    assert k + |r| == b;
  }

  /** `int()` accepts blank padding around a signed run of digits and returns
      its value. */
  lemma ParseIntOf(w1: string, t: string, w2: string, v: int)
    requires IsBlank(w1) && IsBlank(w2) && SignedDigits(t, v)
    ensures ParseInt(w1 + t + w2) == Some(v)
  {
    assert IsDigit(t[|t| - 1]);
    assert IsDigit(t[0]) || t[0] == '+' || t[0] == '-';
    StripBetweenBlanks(w1, t, w2);
    ParseSignedIff(t, v);
  }

  /** Whatever `int()` accepts is blank padding around a signed run of digits
      with the value returned. */
  lemma ParseIntSound(s: string, v: int)
    requires ParseInt(s) == Some(v)
    ensures exists a, b :: 0 <= a <= b <= |s| && IsBlank(s[..a]) && IsBlank(s[b..]) && SignedDigits(s[a..b], v)
  {
    var t := Strip(s);
    var a := |s| - |LStrip(s)|;
    StripPadding(s, a, t);
    ParseSignedIff(t, v);
    assert SignedDigits(s[a..a + |t|], v);
  }

  /** What `strip()` cuts off on either side is blank. */
  lemma StripPadding(s: string, a: nat, t: string)
    requires a == |s| - |LStrip(s)| && t == Strip(s)
    ensures a + |t| <= |s| && s[a..a + |t|] == t
    ensures IsBlank(s[..a]) && IsBlank(s[a + |t|..])
  {
    assert forall i :: 0 <= i < a ==> s[..a][i] == s[i];
    var b := a + |t|;
    forall i | 0 <= i < |s| - b ensures IsSpace(s[b..][i]) {
      assert s[b..][i] == s[b + i];
    }
  }
}
