/**
 * The cursor logic of the editing text box, on values: a box state is the text
 * of the fragment the box is bound to and the cursor position over it.
 */
module TextBoxModel {

  /** Width of the box in characters (`textBox.MAX_CHARS`; the source also writes it as the literal 20). */
  const MAX_CHARS: nat := 20

  /** The bound fragment's text and the cursor; the cursor may sit one past the end (append position). */
  datatype BoxState = BoxState(text: string, cursor: nat) {
    predicate Valid() { cursor <= |text| }
  }

  /** The visible part of the text: `(startIndex, endIndex, textToDisplay)`. */
  datatype Window = Window(start: int, end: int, shown: string)

  function Min(a: int, b: int): int { if a <= b then a else b }

  function Max(a: int, b: int): int { if a <= b then b else a }

  /** A freshly bound box: the cursor at the end of the new text, the last position it may take. */
  function Bound(text: string): (b: BoxState)
    ensures b.Valid() && b.text == text
    ensures forall k: nat :: BoxState(text, k).Valid() ==> k <= b.cursor
  {
    BoxState(text, |text|)
  }

  /**
   * `incrementCursor`: the cursor moves by `increment`, wrapping around over the
   * `|text| + 1` positions: a move that stays in range is taken as it is, one
   * step left of the start lands on the end and one step right of the end on the start.
   */
  function Increment(b: BoxState, increment: int): (r: BoxState)
    ensures r.Valid() && r.text == b.text
    ensures 0 <= b.cursor + increment <= |b.text| ==> r.cursor == b.cursor + increment
    ensures b.cursor == 0 && increment == -1 ==> r.cursor == |b.text|
    ensures b.cursor == |b.text| && increment == 1 ==> r.cursor == 0
  {
    WrapStep(b.cursor + increment, |b.text| + 1);
    BoxState(b.text, (b.cursor + increment) % (|b.text| + 1))
  }

  /** Python's and Dafny's `%` agree for a positive divisor; this is the step-by-one case of both wraps. */
  lemma WrapStep(x: int, n: int)
    requires n > 0
    ensures 0 <= x < n ==> x % n == x
    ensures x == -1 ==> x % n == n - 1
    ensures x == n ==> x % n == 0
  {
    var q, r := x / n, x % n;
    assert x == q * n + r && 0 <= r < n;
    if 0 <= x < n {
      assert q == 0;
    } else if x == -1 {
      assert q == -1;
    } else if x == n {
      assert q == 1;
    }
  }

  /**
   * `deleteChar` (backspace): at cursor 0 nothing changes; otherwise exactly the
   * character just before the cursor goes and the cursor steps back onto its place.
   */
  function DeleteChar(b: BoxState): (r: BoxState)
    requires b.Valid()
    ensures r.Valid()
    ensures b.cursor == 0 ==> r == b
    ensures b.cursor > 0 ==> r.cursor == b.cursor - 1 && |r.text| == |b.text| - 1
    ensures b.cursor > 0 ==> forall i :: 0 <= i < b.cursor - 1 ==> r.text[i] == b.text[i]
    ensures b.cursor > 0 ==> forall i :: b.cursor - 1 <= i < |r.text| ==> r.text[i] == b.text[i + 1]
  {
    if b.cursor > 0 then
      BoxState(b.text[..b.cursor - 1] + b.text[b.cursor..], b.cursor - 1)
    else
      b
  }

  /**
   * `addChar`: the string `c` (one key's `unicode`, possibly empty or several
   * characters) is spliced in at the cursor, and the cursor moves past it.
   */
  function AddChar(b: BoxState, c: string): (r: BoxState)
    requires b.Valid()
    ensures r.Valid()
    ensures r.cursor == b.cursor + |c| && |r.text| == |b.text| + |c|
    ensures |r.text| == |b.text| + |c| && r.text[..b.cursor] == b.text[..b.cursor]
    ensures r.cursor == b.cursor + |c| && |r.text| == |b.text| + |c| && r.text[b.cursor..r.cursor] == c
    ensures r.cursor == b.cursor + |c| && |r.text| == |b.text| + |c| && r.text[r.cursor..] == b.text[b.cursor..]
    ensures c == [] ==> r == b
  {
    assert b.text[..b.cursor] + b.text[b.cursor..] == b.text;
    BoxState(b.text[..b.cursor] + c + b.text[b.cursor..], b.cursor + |c|)
  }

  /**
   * `n` backspaces in a row: they remove the `min(n, cursor)` characters just
   * before the cursor and nothing else.
   */
  function Backspaces(b: BoxState, n: nat): (r: BoxState)
    requires b.Valid()
    ensures r.Valid()
    ensures r.cursor == Max(0, b.cursor - n) && r.text == b.text[..r.cursor] + b.text[b.cursor..]
    decreases n
  {
    if n == 0 then
      assert b.text == b.text[..b.cursor] + b.text[b.cursor..];
      b
    else
      var d := DeleteChar(b);
      assert b.cursor > 0 ==> d.text == b.text[..d.cursor] + b.text[b.cursor..];
      Backspaces(d, n - 1)
  }

  /** Typing `c` and then pressing backspace `|c|` times restores both text and cursor. */
  lemma AddThenBackspaces(b: BoxState, c: string)
    requires b.Valid()
    ensures Backspaces(AddChar(b, c), |c|) == b
  {
    var a := AddChar(b, c);
    var r := Backspaces(a, |c|);
    assert r.cursor == b.cursor;
    assert r.text == a.text[..b.cursor] + a.text[a.cursor..];
    assert b.text[..b.cursor] + b.text[b.cursor..] == b.text;
  }

  /** For one character, `addChar` followed by `deleteChar` is the identity. */
  lemma AddThenDelete(b: BoxState, ch: char)
    requires b.Valid()
    ensures DeleteChar(AddChar(b, [ch])) == b
  {
    AddThenBackspaces(b, [ch]);
    assert Backspaces(AddChar(b, [ch]), 1) == Backspaces(DeleteChar(AddChar(b, [ch])), 0);
  }

  /** Conversely, retyping the character a backspace removed undoes the backspace. */
  lemma DeleteThenRetype(b: BoxState)
    requires b.Valid() && b.cursor > 0
    ensures AddChar(DeleteChar(b), [b.text[b.cursor - 1]]) == b
  {
    var d := DeleteChar(b);
    var a := AddChar(d, [b.text[b.cursor - 1]]);
    assert a.text == b.text[..b.cursor - 1] + [b.text[b.cursor - 1]] + b.text[b.cursor..];
    assert b.text[..b.cursor - 1] + [b.text[b.cursor - 1]] == b.text[..b.cursor];
    assert b.text[..b.cursor] + b.text[b.cursor..] == b.text;
  }

  /**
   * What the text box must show: a slice of the text as wide as the box allows,
   * containing the cursor, and scrolled no further right than the cursor needs.
   */
  predicate ShowsCursor(b: BoxState, w: Window)
    requires b.Valid()
  {
    && 0 <= w.start <= b.cursor <= w.end <= |b.text|
    && w.shown == b.text[w.start..w.end]
    && w.end - w.start == Min(MAX_CHARS, |b.text|)
    && (w.start > 0 ==> w.end == b.cursor)
  }

  /**
   * `getTextToDisplay`: with at least `MAX_CHARS` characters before the cursor,
   * the `MAX_CHARS` characters ending at the cursor; otherwise the first ones.
   */
  function TextToDisplay(b: BoxState): (w: Window)
    requires b.Valid()
    ensures ShowsCursor(b, w)
    ensures |w.shown| == w.end - w.start <= MAX_CHARS
  {
    var before := b.text[..b.cursor];
    var l := |before|;
    if l >= MAX_CHARS then
      assert before[l - MAX_CHARS..] == b.text[b.cursor - MAX_CHARS..b.cursor];
      Window(b.cursor - MAX_CHARS, b.cursor, before[l - MAX_CHARS..])
    else
      var m := Min(MAX_CHARS, |b.text|);
      assert b.text[..m] == b.text[0..m];
      Window(0, m, b.text[..m])
  }

  /** The windowing policy admits exactly one window, the one `TextToDisplay` computes. */
  lemma ShowsCursorUnique(b: BoxState, w: Window)
    requires b.Valid()
    ensures ShowsCursor(b, w) <==> w == TextToDisplay(b)
  {
    if ShowsCursor(b, w) {
      var v := TextToDisplay(b);
      if b.cursor >= MAX_CHARS {
        assert w.end == b.cursor by {
          if w.start == 0 { assert w.end == MAX_CHARS; }
        }
      }
      assert w.start == v.start && w.end == v.end;
    }
  }

  /**
   * The cursor's column inside the box in `display` (`cursorPos - startIndex`):
   * never left of the shown text and at most one past its last character.
   */
  function CursorColumn(b: BoxState): (col: int)
    requires b.Valid()
    ensures 0 <= col <= |TextToDisplay(b).shown| <= MAX_CHARS
    ensures TextToDisplay(b).start + col == b.cursor
  {
    b.cursor - TextToDisplay(b).start
  }
}
