/** Sending a story that is too long for one Telegram message (bot.py:276,
    bot.py:386): the text is cut into consecutive slices of at most 4096
    characters, the first slice replaces the menu message, the others are sent
    as new messages, and only the last one carries the rating keyboard. */
module Paginate {
  import opened PyText

  /** The longest message the bot sends in one piece. */
  const MessageLimit: nat := 4096

  function Min(a: int, b: int): int {
    if a <= b then a else b
  }

  /** `len(range(0, n, size))`: how many slices the comprehension makes. */
  function PartCount(n: nat, size: nat): nat
    requires size > 0
  {
    (n + size - 1) / size
  }

  /** `[text[i:i+size] for i in range(0, len(text), size)]`: slice number `j`
      starts at `j * size` and is cut short by the end of the text. */
  function Parts(text: string, size: nat): seq<string>
    requires size > 0
  {
    seq(PartCount(|text|, size), j requires 0 <= j < PartCount(|text|, size) =>
      Part(text, size, j))
  }

  /** `text[j*size:j*size+size]`. */
  function Part(text: string, size: nat, j: nat): string
    requires size > 0 && j < PartCount(|text|, size)
  {
    SliceStartInside(|text|, size, j);
    text[j * size..Min(j * size + size, |text|)]
  }

  /** The pagination the bot applies to a story. */
  function Paginate(text: string): seq<string> {
    Parts(text, MessageLimit)
  }

  /** Where slice `j` starts lies inside the text. */
  lemma SliceStartInside(n: nat, size: nat, j: nat)
    requires size > 0 && j < PartCount(n, size)
    ensures j * size < n
  {
    var x := n + size - 1;
    var c, r := x / size, x % size;
    assert x == c * size + r && 0 <= r;
    MulMonotone(j + 1, c, size);
  }

  lemma MulMonotone(a: nat, b: nat, m: nat)
    requires a <= b
    ensures a * m <= b * m
  {
    assert b * m == a * m + (b - a) * m;
  }

  /** The slices cover the text exactly: the last one ends at its end. */
  lemma PartCountCovers(n: nat, size: nat)
    requires size > 0
    ensures n <= PartCount(n, size) * size < n + size
  {
    var c := PartCount(n, size);
    var q, r := (n + size - 1) / size, (n + size - 1) % size;
    assert n + size - 1 == q * size + r && 0 <= r < size;
  }

  /** Every slice holds between one and `size` characters. */
  lemma PartsBounded(text: string, size: nat)
    requires size > 0
    ensures forall j :: 0 <= j < |Parts(text, size)| ==> 0 < |Parts(text, size)[j]| <= size
  {
    var ps := Parts(text, size);
    forall j | 0 <= j < |ps| ensures 0 < |ps[j]| <= size {
      SliceStartInside(|text|, size, j);
    }
  }

  /** Every slice but the last holds exactly `size` characters. */
  lemma PartsFull(text: string, size: nat)
    requires size > 0
    ensures forall j :: 0 <= j < |Parts(text, size)| - 1 ==> |Parts(text, size)[j]| == size
  {
    var ps := Parts(text, size);
    forall j | 0 <= j < |ps| - 1 ensures |ps[j]| == size {
      SliceStartInside(|text|, size, j + 1);
    }
  }

  /** The number of slices is `ceil(len(text) / size)`: none for the empty text. */
  lemma PartsCount(text: string, size: nat)
    requires size > 0
    ensures |Parts(text, size)| * size >= |text|
    ensures |Parts(text, size)| == 0 || (|Parts(text, size)| - 1) * size < |text|
    ensures |Parts(text, size)| == 0 <==> text == []
  {
    var c := |Parts(text, size)|;
    PartCountCovers(|text|, size);
    if c > 0 {
      SliceStartInside(|text|, size, c - 1);
    }
  }

  /** The first `k` slices, joined, are the text up to where slice `k` starts. */
  lemma {:induction false} PartsPrefix(text: string, size: nat, k: nat)
    requires size > 0 && k <= |Parts(text, size)|
    ensures Concat(Parts(text, size)[..k]) == text[..Min(k * size, |text|)]
  {
    var ps := Parts(text, size);
    if k > 0 {
      PartsPrefix(text, size, k - 1);
      SliceStartInside(|text|, size, k - 1);
      assert ps[..k][..k - 1] == ps[..k - 1];
      var a, b := (k - 1) * size, Min(k * size, |text|);
      assert ps[k - 1] == text[a..b];
      assert text[..b] == text[..a] + text[a..b];
    }
  }

  /** Joining the slices in order gives back the text exactly. */
  lemma PartsConcat(text: string, size: nat)
    requires size > 0
    ensures Concat(Parts(text, size)) == text
  {
    var ps := Parts(text, size);
    PartsPrefix(text, size, |ps|);
    PartCountCovers(|text|, size);
    assert ps[..|ps|] == ps;
    assert text[..|text|] == text;
  }

  /** A text that fits in one message is one slice, itself. */
  lemma ShortTextOnePart(text: string, size: nat)
    requires 0 < |text| <= size
    ensures Parts(text, size) == [text]
  {
    var x := |text| + size - 1;
    assert size <= x < 2 * size;
    assert x / size == 1 by {
      var q, r := x / size, x % size;
      assert x == q * size + r && 0 <= r < size;
    }
    assert Part(text, size, 0) == text[0..|text|] == text;
  }

  /** One outgoing message of a long story. */
  datatype Delivery = Delivery(text: string, editsMenu: bool, hasKeyboard: bool)

  /** The loop over `enumerate(parts)`: part 0 edits the menu message, the rest
      are replies, and the keyboard goes on part `len(parts) - 1`. */
  function Deliveries(parts: seq<string>): (ds: seq<Delivery>)
    ensures |ds| == |parts|
  {
    seq(|parts|, i requires 0 <= i < |parts| =>
      Delivery(parts[i], i == 0, i == |parts| - 1))
  }

  /** The texts of the deliveries, in order. */
  function Texts(ds: seq<Delivery>): seq<string> {
    seq(|ds|, i requires 0 <= i < |ds| => ds[i].text)
  }

  /** How many of the deliveries carry the keyboard. */
  function KeyboardCount(ds: seq<Delivery>): nat {
    if ds == [] then 0
    else KeyboardCount(ds[..|ds| - 1]) + (if ds[|ds| - 1].hasKeyboard then 1 else 0)
  }

  /** The messages of a paginated story spell out the story, and exactly one
      of them, the last, carries the rating keyboard (none for an empty text). */
  lemma DeliveriesOfStory(text: string)
    ensures Concat(Texts(Deliveries(Paginate(text)))) == text
    ensures KeyboardCount(Deliveries(Paginate(text))) == if text == [] then 0 else 1
  {
    var ps := Paginate(text);
    var ds := Deliveries(ps);
    assert Texts(ds) == ps;
    PartsConcat(text, MessageLimit);
    PartsCount(text, MessageLimit);
    if ps != [] {
      NoKeyboardBeforeLast(ds, |ds| - 1);
      assert ds[..|ds| - 1 + 1] == ds;
    }
  }

  /** Before the last delivery, none carries the keyboard. */
  lemma {:induction false} NoKeyboardBeforeLast(ds: seq<Delivery>, k: nat)
    requires k <= |ds| && forall i :: 0 <= i < k ==> !ds[i].hasKeyboard
    ensures KeyboardCount(ds[..k]) == 0
    ensures k < |ds| && ds[k].hasKeyboard ==> KeyboardCount(ds[..k + 1]) == 1
  {
    if k > 0 {
      assert ds[..k][..k - 1] == ds[..k - 1];
      NoKeyboardBeforeLast(ds, k - 1);
    }
    if k < |ds| {
      assert ds[..k + 1][..k] == ds[..k];
    }
  }
}
