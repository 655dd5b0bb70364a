/**
 * The editor's objects: the prediction list shared by the main loop and the
 * text box, the text box whose methods move its cursor and edit the bound
 * prediction in place, and the controller holding `highlight` and
 * `highlight_hist`. Every method is tied to the value-level functions of
 * `TextBoxModel` and `ControllerModel`.
 */
module Editor {
  import opened Fragments
  import opened TextBoxModel
  import opened ControllerModel

  /** The `predictions` list; the text box and the main loop both hold this one object. */
  class FragmentStore {
    var fragments: seq<Fragment>

    constructor (predictions: seq<Fragment>)
      ensures fragments == predictions
    {
      fragments := predictions;
    }

    /** Assigning `DetectedText` of prediction `i`, which the text box does through its dict. */
    method SetText(i: nat, t: string)
      requires i < |fragments|
      modifies this
      ensures fragments == WithText(old(fragments), i, t)
    {
      fragments := WithText(fragments, i, t);
    }

    /** `del predictions[i]`. */
    method Remove(i: nat)
      requires i < |fragments|
      modifies this
      ensures fragments == Fragments.Remove(old(fragments), i)
    {
      fragments := Fragments.Remove(fragments, i);
    }
  }

  /**
   * `textBox`: bound to prediction `index` of `store` (where the source keeps the
   * prediction dict itself), with the cursor at `cursorPos`.
   */
  class TextBox {
    const store: FragmentStore
    var index: nat
    var cursorPos: nat

    /** The cursor lies within the bound prediction's text, one past its end at most. */
    ghost predicate Valid()
      reads this, store
    {
      index < |store.fragments| && cursorPos <= |store.fragments[index].text|
    }

    /** The box as a value: the bound text and the cursor. */
    function State(): BoxState
      reads this, store
      requires index < |store.fragments|
    {
      BoxState(store.fragments[index].text, cursorPos)
    }

    /** `textBox(..., pred, font)`: bound to prediction `index`, the cursor at the end of its text. */
    constructor (store: FragmentStore, index: nat)
      requires index < |store.fragments|
      ensures this.store == store && this.index == index
      ensures Valid() && State() == Bound(store.fragments[index].text)
    {
      this.store := store;
      this.index := index;
      cursorPos := |store.fragments[index].text|;
    }

    /** `setText`: rebind to prediction `i` and put the cursor at the end of its text, wherever it was. */
    method SetText(i: nat)
      requires i < |store.fragments|
      modifies this
      ensures Valid() && index == i
      ensures State() == Bound(store.fragments[i].text)
    {
      index := i;
      cursorPos := |store.fragments[i].text|;
    }

    /** `incrementCursor`: move the cursor with wrap-around; the text is untouched. */
    method IncrementCursor(increment: int)
      requires Valid()
      modifies this
      ensures Valid() && index == old(index)
      ensures State() == Increment(old(State()), increment)
    {
      cursorPos := (cursorPos + increment) % (|store.fragments[index].text| + 1);
    }

    /** `getText`: the bound prediction's text, which the cursor never passes. */
    function GetText(): (t: string)
      reads this, store
      requires Valid()
      ensures cursorPos <= |t|
    {
      store.fragments[index].text
    }

    /** `deleteChar`: backspace, written back to the bound prediction. */
    method DeleteChar()
      requires Valid()
      modifies this, store
      ensures Valid() && index == old(index)
      ensures State() == TextBoxModel.DeleteChar(old(State()))
      ensures store.fragments == WithText(old(store.fragments), index, GetText())
    {
      if cursorPos > 0 {
        var text := store.fragments[index].text;
        store.SetText(index, text[..cursorPos - 1] + text[cursorPos..]);
        cursorPos := cursorPos - 1;
      } else {
        assert store.fragments == WithText(store.fragments, index, GetText());
      }
    }

    /** `addChar`: splice `c` in at the cursor, written back to the bound prediction. */
    method AddChar(c: string)
      requires Valid()
      modifies this, store
      ensures Valid() && index == old(index)
      ensures State() == TextBoxModel.AddChar(old(State()), c)
      ensures store.fragments == WithText(old(store.fragments), index, GetText())
    {
      var text := store.fragments[index].text;
      store.SetText(index, text[..cursorPos] + c + text[cursorPos..]);
      cursorPos := cursorPos + |c|;
    }
  }

  /** The state `runPygameUI` keeps across frames: the list, the text box and the two indices. */
  class Controller {
    const store: FragmentStore
    const box: TextBox
    var highlight: nat
    var highlightHist: nat

    /** The controller as a value of `ControllerModel.Session`. */
    ghost function Model(): Session
      reads this, store, box
    {
      Session(store.fragments, highlight, highlightHist, box.index, box.cursorPos)
    }

    /** The box edits this controller's list, and the corrected session invariant holds. */
    ghost predicate Valid()
      reads this, store, box
    {
      box.store == store && Model().Valid()
    }

    /** The set-up before the loop: the box on `predictions[0]`, `highlight` and `highlight_hist` 0. */
    constructor (predictions: seq<Fragment>)
      requires |predictions| > 0
      ensures Valid() && fresh(store) && fresh(box)
      ensures Model() == Start(predictions)
    {
      var s := new FragmentStore(predictions);
      store := s;
      box := new TextBox(s, 0);
      highlight := 0;
      highlightHist := 0;
    }

    /** Each frame: rebind the box if the highlight moved since the previous frame. */
    method Tick()
      requires Valid()
      modifies this, box
      ensures Valid() && Model() == ControllerModel.Tick(old(Model()))
    {
      if highlight != highlightHist {
        box.SetText(highlight);
      }
      highlightHist := highlight;
    }

    /** One KEYDOWN event. */
    method HandleKey(k: Key)
      requires Valid()
      modifies this, box, store
      ensures Valid() && Model() == ControllerModel.HandleKey(old(Model()), k)
    {
      ghost var s := Model();
      match k
      case Down =>
        highlight := (highlight + 1) % |store.fragments|;
        assert Model() == MoveHighlight(s, 1);
      case Up =>
        highlight := (highlight - 1) % |store.fragments|;
        assert Model() == MoveHighlight(s, -1);
      case Left =>
        box.IncrementCursor(-1);
        assert Model() == WithBox(s, Increment(s.Box(), -1));
      case Right =>
        box.IncrementCursor(1);
        assert Model() == WithBox(s, Increment(s.Box(), 1));
      case Backspace =>
        box.DeleteChar();
        assert Model() == WithBox(s, TextBoxModel.DeleteChar(s.Box()));
      case Delete =>
        if |store.fragments| > 1 {
          store.Remove(highlight);
          highlight := Max(0, highlight - 1);
          box.SetText(highlight);
          highlightHist := highlight;
        }
        assert Model() == DeleteFragment(s);
      case Other(u) =>
        box.AddChar(u);
        assert Model() == WithBox(s, TextBoxModel.AddChar(s.Box(), u));
    }

    /** The events of one frame, in order. */
    method HandleKeys(keys: seq<Key>)
      requires Valid()
      modifies this, box, store
      ensures Valid() && Model() == ControllerModel.HandleKeys(old(Model()), keys)
    {
      ghost var s0 := Model();
      for i := 0 to |keys|
        invariant Valid()
        invariant Model() == ControllerModel.HandleKeys(s0, keys[..i])
      {
        HandleKeysPrefix(s0, keys, i);
        HandleKey(keys[i]);
      }
      assert keys[..|keys|] == keys;
    }
  }
}
