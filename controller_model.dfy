/**
 * The controller part of the editor's main loop, on values: the prediction list,
 * the highlighted index, its copy from the previous frame, and the text box
 * (bound fragment index and cursor), with one function per key and the
 * once-per-frame re-synchronisation of the box.
 */
module ControllerModel {
  import opened Fragments
  import opened TextBoxModel

  /** One KEYDOWN event; `Other` is any other key and carries the event's `unicode` string. */
  datatype Key = Down | Up | Left | Right | Backspace | Delete | Other(unicode: string)

  /**
   * `fragments` is `predictions`, `highlight` and `hist` are `highlight` and
   * `highlight_hist`, and the text box is bound to `fragments[bound]` with its
   * cursor at `cursor`. The box holds an index where the source holds the very
   * dict that sits in the list, so every edit of the box is written back to that slot.
   */
  datatype Session = Session(fragments: seq<Fragment>, highlight: nat, hist: nat, bound: nat, cursor: nat) {

    /** Holds after every key, for the controller as written and as corrected. */
    predicate WellFormed()
    {
      && 0 < |fragments|
      && highlight < |fragments|
      && bound < |fragments|
      && cursor <= |fragments[bound].text|
    }

    /** The invariant of the corrected controller: the box is bound to the fragment `hist` names. */
    predicate Valid()
    {
      WellFormed() && hist == bound
    }

    /** The text box's own view: the bound fragment's text and the cursor. */
    function Box(): BoxState
      requires WellFormed()
    {
      BoxState(fragments[bound].text, cursor)
    }
  }

  /** The state before the first frame: the box bound to the first prediction, both indices 0. */
  function Start(predictions: seq<Fragment>): (s: Session)
    requires |predictions| > 0
    ensures s.Valid() && s.fragments == predictions
    ensures s.highlight == 0 && s.bound == 0
    ensures s.Box() == Bound(predictions[0].text)
  {
    Session(predictions, 0, 0, 0, |predictions[0].text|)
  }

  /** An edit made through the text box: the box's new text lands in the bound slot. */
  function WithBox(s: Session, b: BoxState): (r: Session)
    requires s.WellFormed() && b.Valid()
    ensures r.WellFormed() && r.Box() == b
    ensures r.fragments == WithText(s.fragments, s.bound, b.text)
    ensures r.highlight == s.highlight && r.hist == s.hist && r.bound == s.bound
  {
    s.(fragments := WithText(s.fragments, s.bound, b.text), cursor := b.cursor)
  }

  /** `textBoxEdit.setText(predictions[i])`: bind the box to fragment `i`, cursor at its end. */
  function Rebind(s: Session, i: nat): (r: Session)
    requires s.WellFormed() && i < |s.fragments|
    ensures r.WellFormed() && r.bound == i
    ensures r.Box() == Bound(s.fragments[i].text)
    ensures r.fragments == s.fragments && r.highlight == s.highlight && r.hist == s.hist
  {
    s.(bound := i, cursor := |s.fragments[i].text|)
  }

  /**
   * The start of every frame: when `highlight` differs from `highlight_hist` the
   * box is rebound to the highlighted fragment; either way `highlight_hist`
   * catches up with `highlight`.
   */
  function Tick(s: Session): (r: Session)
    requires s.WellFormed()
    ensures r.WellFormed()
    ensures r.fragments == s.fragments && r.highlight == s.highlight && r.hist == s.highlight
    ensures s.highlight != s.hist ==> r.bound == s.highlight && r.Box() == Bound(s.fragments[s.highlight].text)
    ensures s.highlight == s.hist ==> r.bound == s.bound && r.cursor == s.cursor
    ensures s.Valid() ==> r.Valid() && r.bound == r.highlight
  {
    var t := if s.highlight != s.hist then Rebind(s, s.highlight) else s;
    t.(hist := s.highlight)
  }

  /** `highlight = (highlight + d) % len(predictions)` for the DOWN (+1) and UP (-1) keys. */
  function MoveHighlight(s: Session, d: int): (r: Session)
    requires s.WellFormed()
    ensures r.WellFormed() && r == s.(highlight := r.highlight)
    ensures 0 <= s.highlight + d < |s.fragments| ==> r.highlight == s.highlight + d
    ensures s.highlight == 0 && d == -1 ==> r.highlight == |s.fragments| - 1
    ensures s.highlight == |s.fragments| - 1 && d == 1 ==> r.highlight == 0
    ensures s.Valid() ==> r.Valid()
  {
    WrapStep(s.highlight + d, |s.fragments|);
    s.(highlight := (s.highlight + d) % |s.fragments|)
  }

  /**
   * The DELETE key as the source has it: refused while only one prediction is
   * left; otherwise the highlighted prediction is removed, `highlight` steps
   * back to `max(0, highlight - 1)` and the box is rebound there, but
   * `highlight_hist` keeps its old value.
   */
  function DeleteFragmentAsWritten(s: Session): (r: Session)
    requires s.WellFormed()
    ensures r.WellFormed()
    ensures |s.fragments| == 1 ==> r == s
    ensures |s.fragments| > 1 ==> r.fragments == Remove(s.fragments, s.highlight)
    ensures |s.fragments| > 1 ==> r.highlight == Max(0, s.highlight - 1) && r.bound == r.highlight
    ensures |s.fragments| > 1 ==> r.Box() == Bound(r.fragments[r.highlight].text)
    ensures |s.fragments| > 1 ==> r.hist == s.hist
  {
    if |s.fragments| <= 1 then
      s
    else
      var fs := Remove(s.fragments, s.highlight);
      var h := Max(0, s.highlight - 1);
      Session(fs, h, s.hist, h, |fs[h].text|)
  }

  /**
   * The DELETE key, corrected so that `highlight_hist` is set to the new
   * `highlight` together with the rebinding (see `DeleteThenDownDesynchronises`).
   */
  function DeleteFragment(s: Session): (r: Session)
    requires s.WellFormed()
    ensures r.WellFormed()
    ensures |s.fragments| == 1 ==> r == s
    ensures |s.fragments| > 1 ==> r.fragments == Remove(s.fragments, s.highlight)
    ensures |s.fragments| > 1 ==> r.highlight == Max(0, s.highlight - 1)
    ensures |s.fragments| > 1 ==> r.bound == r.highlight == r.hist
    ensures |s.fragments| > 1 ==> r.Box() == Bound(r.fragments[r.highlight].text)
    ensures s.Valid() ==> r.Valid()
  {
    var r := DeleteFragmentAsWritten(s);
    if |s.fragments| <= 1 then r else r.(hist := r.highlight)
  }

  /** Every bounding box in `r` is one that `s` already had. */
  predicate BoxesFrom(s: Session, r: Session)
  {
    forall j :: 0 <= j < |r.fragments| ==> HasBox(s.fragments, r.fragments[j].box)
  }

  lemma BoxesFromTransitive(s: Session, p: Session, r: Session)
    requires BoxesFrom(s, p) && BoxesFrom(p, r)
    ensures BoxesFrom(s, r)
  {
    forall j | 0 <= j < |r.fragments|
      ensures HasBox(s.fragments, r.fragments[j].box)
    {
      var k :| 0 <= k < |p.fragments| && p.fragments[k].box == r.fragments[j].box;
      assert HasBox(s.fragments, p.fragments[k].box);
    }
  }

  lemma SameBoxes(s: Session, r: Session)
    requires |r.fragments| == |s.fragments|
    requires forall j :: 0 <= j < |s.fragments| ==> r.fragments[j].box == s.fragments[j].box
    ensures BoxesFrom(s, r)
  {
    forall j | 0 <= j < |r.fragments|
      ensures HasBox(s.fragments, r.fragments[j].box)
    {
      assert s.fragments[j].box == r.fragments[j].box;
    }
  }

  lemma RemovedBoxes(s: Session, r: Session)
    requires s.highlight < |s.fragments|
    requires r.fragments == Remove(s.fragments, s.highlight)
    ensures BoxesFrom(s, r)
  {
    forall j | 0 <= j < |r.fragments|
      ensures HasBox(s.fragments, r.fragments[j].box)
    {
      var i := if j < s.highlight then j else j + 1;
      assert s.fragments[i].box == r.fragments[j].box;
    }
  }

  /** An edit through the text box keeps the length, the other predictions and every bounding box. */
  lemma EditKeeps(s: Session, b: BoxState)
    requires s.WellFormed() && b.Valid()
    ensures var r := WithBox(s, b);
            && BoxesFrom(s, r)
            && (forall j :: 0 <= j < |s.fragments| ==> r.fragments[j].box == s.fragments[j].box)
  {
    SameBoxes(s, WithBox(s, b));
  }

  /** The dispatch of one KEYDOWN event in the main loop. */
  function HandleKey(s: Session, k: Key): (r: Session)
    requires s.WellFormed()
    ensures r.WellFormed()
    ensures s.Valid() ==> r.Valid()
    ensures 0 < |r.fragments| <= |s.fragments|
    ensures BoxesFrom(s, r)
    ensures k != Delete ==> |r.fragments| == |s.fragments| && r.bound == s.bound
    ensures k != Delete ==> forall j :: 0 <= j < |s.fragments| && j != s.bound ==> r.fragments[j] == s.fragments[j]
    ensures k != Delete ==> forall j :: 0 <= j < |s.fragments| ==> r.fragments[j].box == s.fragments[j].box
    ensures k == Down || k == Up ==> r.fragments == s.fragments && r.Box() == s.Box()
  {
    match k
    case Down =>
      SameBoxes(s, MoveHighlight(s, 1));
      MoveHighlight(s, 1)
    case Up =>
      SameBoxes(s, MoveHighlight(s, -1));
      MoveHighlight(s, -1)
    case Left =>
      EditKeeps(s, Increment(s.Box(), -1));
      WithBox(s, Increment(s.Box(), -1))
    case Right =>
      EditKeeps(s, Increment(s.Box(), 1));
      WithBox(s, Increment(s.Box(), 1))
    case Backspace =>
      EditKeeps(s, DeleteChar(s.Box()));
      WithBox(s, DeleteChar(s.Box()))
    case Delete =>
      var r := DeleteFragment(s);
      if |s.fragments| > 1 then
        RemovedBoxes(s, r);
        r
      else
        SameBoxes(s, r);
        r
    case Other(u) =>
      EditKeeps(s, AddChar(s.Box(), u));
      WithBox(s, AddChar(s.Box(), u))
  }

  /**
   * The dispatch of one KEYDOWN event as the source has it: the same as
   * `HandleKey` except that DELETE leaves `highlight_hist` alone.
   */
  function HandleKeyAsWritten(s: Session, k: Key): (r: Session)
    requires s.WellFormed()
    ensures r.WellFormed()
    ensures 0 < |r.fragments| <= |s.fragments|
    ensures k != Delete ==> r == HandleKey(s, k)
    ensures k == Delete ==> r == DeleteFragmentAsWritten(s)
  {
    if k == Delete then DeleteFragmentAsWritten(s) else HandleKey(s, k)
  }

  /** The two dispatches differ only in `highlight_hist`, and only after a DELETE that removed something. */
  lemma HandleKeyAsWrittenDiffers(s: Session, k: Key)
    requires s.WellFormed()
    ensures HandleKey(s, k) == HandleKeyAsWritten(s, k).(hist := HandleKey(s, k).hist)
    ensures HandleKey(s, k).hist != HandleKeyAsWritten(s, k).hist
            <==> k == Delete && |s.fragments| > 1 && Max(0, s.highlight - 1) != s.hist
  {
  }

  /** As written, DELETE breaks the corrected invariant: two predictions, the second highlighted and bound. */
  lemma AsWrittenDeleteBreaksValid(bb: BoundingBox)
    ensures var s := Session([Fragment("a", bb), Fragment("b", bb)], 1, 1, 1, 1);
            s.Valid() && !HandleKeyAsWritten(s, Delete).Valid()
  {
    var s := Session([Fragment("a", bb), Fragment("b", bb)], 1, 1, 1, 1);
    assert Remove(s.fragments, 1) == [Fragment("a", bb)];
    assert HandleKeyAsWritten(s, Delete) == Session([Fragment("a", bb)], 0, 1, 0, 1);
  }

  /**
   * A DELETE that is the only event of its frame does no harm as written: the
   * next frame's re-synchronisation reaches the same state as the corrected DELETE.
   */
  lemma DeleteAloneResynchronises(s: Session)
    requires s.Valid() && s.bound == s.highlight
    ensures Tick(HandleKeyAsWritten(s, Delete)) == Tick(HandleKey(s, Delete))
  {
  }

  /** The events of one frame, handled in order by the dispatch as written. */
  function HandleKeysAsWritten(s: Session, keys: seq<Key>): (r: Session)
    requires s.WellFormed()
    ensures r.WellFormed()
    ensures 0 < |r.fragments| <= |s.fragments|
    ensures Delete !in keys ==> r == HandleKeys(s, keys)
    decreases |keys|
  {
    if keys == [] then
      s
    else
      assert Delete !in keys ==> Delete !in keys[..|keys| - 1] && keys[|keys| - 1] != Delete;
      HandleKeyAsWritten(HandleKeysAsWritten(s, keys[..|keys| - 1]), keys[|keys| - 1])
  }

  /** The events of one frame, handled in order. */
  function HandleKeys(s: Session, keys: seq<Key>): (r: Session)
    requires s.WellFormed()
    ensures r.WellFormed()
    ensures s.Valid() ==> r.Valid()
    ensures 0 < |r.fragments| <= |s.fragments|
    ensures BoxesFrom(s, r)
    decreases |keys|
  {
    if keys == [] then
      s
    else
      var p := HandleKeys(s, keys[..|keys| - 1]);
      var r := HandleKey(p, keys[|keys| - 1]);
      BoxesFromTransitive(s, p, r);
      r
  }

  /**
   * The controller as written loses the box: from five predictions, synchronised
   * on the third, DELETE and then DOWN within one frame leave `highlight` equal to
   * `highlight_hist`, so the next frame does not rebind and the box stays on
   * another prediction than the highlighted one.
   */
  lemma DeleteThenDownDesynchronises(bb: BoundingBox)
    ensures var s := Session([Fragment("a", bb), Fragment("b", bb), Fragment("c", bb),
                              Fragment("d", bb), Fragment("e", bb)], 2, 2, 2, 1);
            var r := Tick(MoveHighlight(DeleteFragmentAsWritten(s), 1));
            r.highlight == 2 && r.bound == 1 && r.Box().text == "b" && r.fragments[r.highlight].text == "d"
  {
    var fs := [Fragment("a", bb), Fragment("b", bb), Fragment("c", bb), Fragment("d", bb), Fragment("e", bb)];
    var left := [Fragment("a", bb), Fragment("b", bb), Fragment("d", bb), Fragment("e", bb)];
    var s := Session(fs, 2, 2, 2, 1);
    assert Remove(fs, 2) == left;
    var d := Session(left, 1, 2, 1, 1);
    assert DeleteFragmentAsWritten(s) == d;
    var m := Session(left, 2, 2, 1, 1);
    assert MoveHighlight(d, 1) == m;
    assert Tick(m) == m;
  }

  /** Handling one more key of a sequence is handling it on the result of the keys before it. */
  lemma HandleKeysPrefix(s: Session, keys: seq<Key>, i: nat)
    requires s.WellFormed() && i < |keys|
    ensures HandleKeys(s, keys[..i + 1]) == HandleKey(HandleKeys(s, keys[..i]), keys[i])
  {
    assert keys[..i + 1][..i] == keys[..i];
  }

  /** The scenario up to the edits: DOWN, then the next frame binds the box to "dog". */
  lemma CatDogSelect(bc: BoundingBox, bd: BoundingBox)
    ensures Tick(HandleKey(Tick(Start([Fragment("cat", bc), Fragment("dog", bd)])), Down))
            == Session([Fragment("cat", bc), Fragment("dog", bd)], 1, 1, 1, 3)
  {
    var fs := [Fragment("cat", bc), Fragment("dog", bd)];
    assert Tick(Start(fs)) == Session(fs, 0, 0, 0, 3);
    assert HandleKey(Session(fs, 0, 0, 0, 3), Down) == Session(fs, 1, 0, 0, 3);
  }

  /** Typing "!" at the end of "dog". */
  lemma CatDogType(bc: BoundingBox, bd: BoundingBox)
    ensures HandleKey(Session([Fragment("cat", bc), Fragment("dog", bd)], 1, 1, 1, 3), Other("!"))
            == Session([Fragment("cat", bc), Fragment("dog!", bd)], 1, 1, 1, 4)
  {
    var s := Session([Fragment("cat", bc), Fragment("dog", bd)], 1, 1, 1, 3);
    assert AddChar(s.Box(), "!") == BoxState("dog!", 4) by {
      assert "dog"[..3] + "!" + "dog"[3..] == "dog!";
    }
  }

  /** A backspace after it: "dog!" becomes "dog" again. */
  lemma CatDogFirstBackspace(bc: BoundingBox, bd: BoundingBox)
    ensures HandleKey(Session([Fragment("cat", bc), Fragment("dog!", bd)], 1, 1, 1, 4), Backspace)
            == Session([Fragment("cat", bc), Fragment("dog", bd)], 1, 1, 1, 3)
  {
    assert DeleteChar(BoxState("dog!", 4)) == BoxState("dog", 3) by {
      assert "dog!"[..3] + "dog!"[4..] == "dog";
    }
  }

  /** A second backspace: "dog" becomes "do". */
  lemma CatDogSecondBackspace(bc: BoundingBox, bd: BoundingBox)
    ensures HandleKey(Session([Fragment("cat", bc), Fragment("dog", bd)], 1, 1, 1, 3), Backspace)
            == Session([Fragment("cat", bc), Fragment("do", bd)], 1, 1, 1, 2)
  {
    assert DeleteChar(BoxState("dog", 3)) == BoxState("do", 2) by {
      assert "dog"[..2] + "dog"[3..] == "do";
    }
  }

  /** Deleting "do" leaves "cat" alone, highlighted and bound with the cursor at its end. */
  lemma CatDogDelete(bc: BoundingBox, bd: BoundingBox)
    ensures HandleKey(Session([Fragment("cat", bc), Fragment("do", bd)], 1, 1, 1, 2), Delete)
            == Session([Fragment("cat", bc)], 0, 0, 0, 3)
  {
    assert Remove([Fragment("cat", bc), Fragment("do", bd)], 1) == [Fragment("cat", bc)];
  }

  /**
   * The editing scenario: predictions "cat" and "dog"; DOWN, then "!", two
   * backspaces and DELETE leave only "cat", highlighted and bound with the
   * cursor at its end.
   */
  lemma CatDogScenario(bc: BoundingBox, bd: BoundingBox)
    ensures var s := Tick(HandleKey(Tick(Start([Fragment("cat", bc), Fragment("dog", bd)])), Down));
            && s.highlight == 1 && s.Box() == BoxState("dog", 3)
            && HandleKey(s, Other("!")).Box() == BoxState("dog!", 4)
            && HandleKey(HandleKey(HandleKey(s, Other("!")), Backspace), Backspace).Box() == BoxState("do", 2)
            && HandleKey(HandleKey(HandleKey(HandleKey(s, Other("!")), Backspace), Backspace), Delete)
               == Session([Fragment("cat", bc)], 0, 0, 0, 3)
  {
    CatDogSelect(bc, bd);
    CatDogType(bc, bd);
    CatDogFirstBackspace(bc, bd);
    CatDogSecondBackspace(bc, bd);
    CatDogDelete(bc, bd);
  }
}
