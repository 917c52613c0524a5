/** The stories menu layout of `create_keyboard` (bot.py:99-123): one button
    per story, in the order the stories were found, packed two to a row; a
    button whose label is longer than 20 characters gets a row of its own, and
    a half-filled row is closed early when such a button arrives. */
module Keyboard {

  /** An inline button: its label and the callback data it sends back. */
  datatype Button = Button(text: string, callbackData: string)

  /** Labels longer than this get a row of their own. */
  const WideLabel: nat := 20

  predicate Wide(b: Button) {
    |b.text| > WideLabel
  }

  /** The buttons for the `(callback data, label)` pairs, in order. */
  function Buttons(files: seq<(string, string)>): (bs: seq<Button>)
    ensures |bs| == |files|
  {
    seq(|files|, i requires 0 <= i < |files| => Button(files[i].1, files[i].0))
  }

  /** The buttons of the rows, row after row. */
  function Flatten(rows: seq<seq<Button>>): seq<Button> {
    if rows == [] then [] else Flatten(rows[..|rows| - 1]) + rows[|rows| - 1]
  }

  /** A row holds one button, or two buttons neither of which is wide. */
  predicate GoodRow(row: seq<Button>) {
    |row| == 1 || (|row| == 2 && !Wide(row[0]) && !Wide(row[1]))
  }

  /** A row holding a single short button. */
  predicate LoneShort(row: seq<Button>) {
    |row| == 1 && !Wide(row[0])
  }

  predicate StartsWide(row: seq<Button>) {
    |row| > 0 && Wide(row[0])
  }

  /** Row `r` was closed half-full only because a wide button came next. */
  predicate Flushed(rows: seq<seq<Button>>, r: nat)
    requires r + 1 < |rows|
  {
    LoneShort(rows[r]) ==> StartsWide(rows[r + 1])
  }

  predicate AllGoodRows(rows: seq<seq<Button>>) {
    forall r :: 0 <= r < |rows| ==> GoodRow(rows[r])
  }

  predicate AllFlushed(rows: seq<seq<Button>>) {
    forall r :: 0 <= r < |rows| - 1 ==> Flushed(rows, r)
  }

  /** The packing `create_keyboard` promises: rows of one or two buttons, wide
      buttons alone, and no row left half-full unless a wide button follows it
      or it is the last row. */
  predicate WellPacked(rows: seq<seq<Button>>) {
    AllGoodRows(rows) && AllFlushed(rows)
  }

  /** The loop of `create_keyboard` over the stories. */
  method CreateKeyboard(files: seq<(string, string)>) returns (keyboard: seq<seq<Button>>)
    ensures Flatten(keyboard) == Buttons(files)
    ensures WellPacked(keyboard)
  {
    var buttons := Buttons(files);
    keyboard := [];
    var row: seq<Button> := [];
    for i := 0 to |files|
      invariant Flatten(keyboard) + row == buttons[..i]
      invariant row == [] || LoneShort(row)
      invariant WellPacked(keyboard)
      invariant keyboard == [] || !LoneShort(keyboard[|keyboard| - 1])
    {
      var button := Button(files[i].1, files[i].0);
      assert buttons[..i + 1] == buttons[..i] + [button];
      if |button.text| > WideLabel {
        if row != [] {
          CloseRow(keyboard, row, buttons[..i]);
          keyboard := keyboard + [row];
          row := [];
        }
        AddWide(keyboard, button, buttons[..i + 1]);
        keyboard := keyboard + [[button]];
      } else {
        row := row + [button];
        if |row| == 2 {
          CloseRow(keyboard, row, buttons[..i + 1]);
          keyboard := keyboard + [row];
          row := [];
        }
      }
    }
    if row != [] {
      CloseRow(keyboard, row, buttons[..|files|]);
      keyboard := keyboard + [row];
    }
    assert buttons[..|files|] == buttons;
  }

  lemma FlattenSnoc(rows: seq<seq<Button>>, row: seq<Button>)
    ensures Flatten(rows + [row]) == Flatten(rows) + row
  {
    assert (rows + [row])[..|rows|] == rows;
  }

  /** Appending a good row after a row that was not left half-full keeps the
      packing. */
  lemma SnocPacked(rows: seq<seq<Button>>, row: seq<Button>)
    requires WellPacked(rows) && GoodRow(row)
    requires rows == [] || !LoneShort(rows[|rows| - 1])
    ensures WellPacked(rows + [row])
  {
    var rs := rows + [row];
    forall r | 0 <= r < |rs| - 1 ensures Flushed(rs, r) {
      if r < |rows| - 1 {
        assert Flushed(rows, r);
      }
    }
  }

  /** Closing the pending row keeps the packing and the buttons placed. */
  lemma CloseRow(rows: seq<seq<Button>>, row: seq<Button>, placed: seq<Button>)
    requires WellPacked(rows) && GoodRow(row)
    requires rows == [] || !LoneShort(rows[|rows| - 1])
    requires Flatten(rows) + row == placed
    ensures WellPacked(rows + [row]) && Flatten(rows + [row]) == placed
  {
    SnocPacked(rows, row);
    FlattenSnoc(rows, row);
  }

  /** Appending a wide button's row keeps the packing, whatever came before. */
  lemma FlushedBeforeWide(rows: seq<seq<Button>>, row: seq<Button>)
    requires WellPacked(rows) && GoodRow(row) && StartsWide(row)
    ensures WellPacked(rows + [row])
  {
    var rs := rows + [row];
    forall r | 0 <= r < |rs| - 1 ensures Flushed(rs, r) {
      if r < |rows| - 1 {
        assert Flushed(rows, r);
      }
    }
  }

  /** A wide button's own row closes the keyboard so far. */
  lemma AddWide(rows: seq<seq<Button>>, button: Button, placed: seq<Button>)
    requires WellPacked(rows) && Wide(button)
    requires Flatten(rows) + [button] == placed
    ensures WellPacked(rows + [[button]]) && Flatten(rows + [[button]]) == placed
    ensures !LoneShort([button])
  {
    FlushedBeforeWide(rows, [button]);
    FlattenSnoc(rows, [button]);
  }

  lemma FlattenCons(row: seq<Button>, rows: seq<seq<Button>>)
    ensures Flatten([row] + rows) == row + Flatten(rows)
    decreases |rows|
  {
    if rows != [] {
      var init := rows[..|rows| - 1];
      assert ([row] + rows)[..|rows|] == [row] + init;
      FlattenCons(row, init);
      assert rows == init + [rows[|rows| - 1]];
    }
  }

  lemma {:induction false} FlattenLength(rows: seq<seq<Button>>)
    requires AllGoodRows(rows)
    ensures |Flatten(rows)| >= |rows|
  {
    if rows != [] {
      var init := rows[..|rows| - 1];
      assert AllGoodRows(init) by {
        forall r | 0 <= r < |init| ensures GoodRow(init[r]) {
          assert init[r] == rows[r];
        }
      }
      FlattenLength(init);
    }
  }

  lemma TailPacked(rows: seq<seq<Button>>)
    requires WellPacked(rows) && rows != []
    ensures WellPacked(rows[1..])
  {
    var t := rows[1..];
    forall r | 0 <= r < |t| - 1 ensures Flushed(t, r) {
      assert Flushed(rows, r + 1);
    }
  }

  /** The first row of a packing is determined by the first buttons: two
      buttons exactly when the first two exist and are both short. */
  lemma FirstRow(rows: seq<seq<Button>>, bs: seq<Button>)
    requires WellPacked(rows) && rows != [] && Flatten(rows) == bs
    ensures |bs| > 0
    ensures |rows[0]| == 2 <==> |bs| >= 2 && !Wide(bs[0]) && !Wide(bs[1])
    ensures rows[0] == bs[..|rows[0]|]
  {
    var rest := rows[1..];
    assert rows == [rows[0]] + rest;
    FlattenCons(rows[0], rest);
    assert GoodRow(rows[0]);
    if |rows[0]| == 1 && |rest| > 0 {
      assert AllGoodRows(rest) by {
        forall r | 0 <= r < |rest| ensures GoodRow(rest[r]) {
          assert rest[r] == rows[r + 1];
        }
      }
      assert Flushed(rows, 0);
      assert GoodRow(rest[0]);
      var tail := rest[1..];
      assert rest == [rest[0]] + tail;
      FlattenCons(rest[0], tail);
      assert bs[1] == rest[0][0];
    }
    if |rows[0]| == 1 && |rest| == 0 {
      assert bs == rows[0];
    }
  }

  /** Only one packing has the promised shape: the layout `create_keyboard`
      returns is the unique well-packed arrangement of the buttons in order. */
  lemma {:induction false} PackingUnique(a: seq<seq<Button>>, b: seq<seq<Button>>)
    requires WellPacked(a) && WellPacked(b) && Flatten(a) == Flatten(b)
    ensures a == b
    decreases |a|
  {
    var bs := Flatten(a);
    if a == [] || b == [] {
      FlattenLength(a);
      FlattenLength(b);
    } else {
      FirstRow(a, bs);
      FirstRow(b, bs);
      assert a[0] == b[0];
      var n := |a[0]|;
      assert a == [a[0]] + a[1..];
      assert b == [b[0]] + b[1..];
      FlattenCons(a[0], a[1..]);
      FlattenCons(b[0], b[1..]);
      assert Flatten(a[1..]) == bs[n..] == Flatten(b[1..]);
      TailPacked(a);
      TailPacked(b);
      PackingUnique(a[1..], b[1..]);
    }
  }
}
