# Post-processing editor: text box and controller

This project models the editing core of the post-processing editor in `editor.py`. The editor lets a user correct text-detection results. An ordered list of predictions is loaded, each with a `DetectedText` string and a relative bounding box. One prediction is highlighted at a time, and the text box edits its text.

The model has two layers.

- **Values.**
  - `Fragments` holds the prediction record and the two list updates the editor makes: replacing a prediction's text and deleting a prediction.
  - `TextBoxModel` is the `textBox` cursor logic on a `BoxState` (the bound text and the cursor):
    - `incrementCursor` with wrap-around over `len + 1` positions;
    - `deleteChar` (backspace, a no-op at 0);
    - `addChar` (splices in any string);
    - `getTextToDisplay` (a window of at most `MAX_CHARS = 20` characters that contains the cursor);
    - the cursor column used by `display`.
  - `ControllerModel` is the main loop of `runPygameUI` on a `Session` value. It holds the prediction list, `highlight`, `highlight_hist` and the text box. It has one function per key and one for the re-synchronisation at the start of every frame.
- **Objects.** `Editor` holds three classes:
  - `FragmentStore` is the shared `predictions` list.
  - `TextBox` holds the store, the index of the bound prediction and `cursorPos`.
  - `Controller` holds `highlight` and `highlightHist`.

  Each method's `ensures` equates the object's new state with the value-level function applied to its old state. The properties are proved about those functions.

In the source, the text box holds the very dict that sits in `predictions`, so its edits land in the list through aliasing. Here the box holds the dict's index in the shared `FragmentStore`, and every edit writes the new text back to that slot (`Fragments.WithText`). The two agree because the list changes shape only on DELETE, and DELETE always rebinds the box straight away.

Python's `%` gives a non-negative result for a positive divisor. Dafny's `%` does the same, so both wrap-arounds (`len + 1` for the cursor, `len(predictions)` for the highlight) are written with `%` directly.

The refusal to delete the last prediction is in the key handler (`if not len(predictions) > 1: continue`, editor.py:171-172), not in the list. So `Fragments.Remove` only requires a valid index, and `ControllerModel.DeleteFragmentAsWritten`, `ControllerModel.DeleteFragment` and `Editor.Controller.HandleKey` make the check.

## Model

| member | source | states |
|---|---|---|
| `Fragments.WithText` | editor.py:62-63 | writing a prediction's text changes exactly that prediction's text; its box and every other prediction stay as they were |
| `Fragments.Remove` | editor.py:173 | `del predictions[i]`: one element fewer, the elements before `i` kept, the later ones shifted down by one, the multiset loses exactly the deleted prediction |
| `TextBoxModel.Bound` | editor.py:37-38 | a freshly bound box is valid over the new text, and its cursor is the last position the text allows (the end of the text) |
| `TextBoxModel.Increment` | editor.py:40-48 | the cursor stays in `[0, len]` and the text is unchanged; a move that stays in range is taken as it is; at 0 a step of -1 wraps to `len`, at `len` a step of +1 wraps to 0 |
| `TextBoxModel.DeleteChar` | editor.py:50-55 | at cursor 0 nothing changes; otherwise the text loses exactly the character at `cursor-1`, the characters before it keep their places, the ones after shift down by one, and the cursor steps back by one |
| `TextBoxModel.AddChar` | editor.py:60-64 | the new text is the old prefix up to the cursor, then `c`, then the old suffix; the cursor advances by `len(c)` and stays within the text; an empty `c` changes nothing |
| `TextBoxModel.Backspaces` | editor.py:50-55 | `n` backspaces in a row remove exactly the `min(n, cursor)` characters before the cursor and leave the cursor at `max(0, cursor-n)` |
| `TextBoxModel.AddThenBackspaces` | editor.py:60-64 | typing any string `c` and then pressing backspace `len(c)` times restores the original text and cursor |
| `TextBoxModel.AddThenDelete` | editor.py:50-64 | for one character, `addChar` followed by `deleteChar` restores the original text and cursor |
| `TextBoxModel.DeleteThenRetype` | editor.py:50-64 | retyping the character a backspace removed restores the text and cursor (the other direction of the inverse) |
| `TextBoxModel.TextToDisplay` | editor.py:66-72 | the window is a slice `text[start:end]` inside the text, as wide as `min(20, len)`, containing the cursor (`start <= cursorPos <= end`), and scrolled only when the cursor needs it (`start > 0` only when `end == cursorPos`); its length is at most 20 |
| `TextBoxModel.ShowsCursorUnique` | editor.py:66-72 | the window policy above has exactly one solution, the window `getTextToDisplay` computes (both directions) |
| `TextBoxModel.CursorColumn` | editor.py:77-83 | the cursor column `cursorPos - startIndex` lies in `[0, len(textToDisplay)]`, hence in `[0, 20]` |
| `ControllerModel.Start` | editor.py:133-141 | set-up: the list is the loaded predictions, the box is bound to `predictions[0]` with the cursor at its end, and both indices are 0 |
| `ControllerModel.Rebind` | editor.py:151 | `setText(predictions[i])` binds the box to `i` with the cursor at the end of that text, whatever it was, and changes nothing else |
| `ControllerModel.Tick` | editor.py:150-152 | afterwards `highlight_hist == highlight`; the box is rebound (cursor at end of text) exactly when `highlight != highlight_hist`, and is otherwise untouched; from a valid state the box is then bound to the highlighted prediction |
| `ControllerModel.MoveHighlight` | editor.py:160-163 | only `highlight` changes and it stays a valid index; an in-range move is taken as it is; UP at 0 wraps to the last index and DOWN at the last wraps to 0 |
| `ControllerModel.DeleteFragmentAsWritten` | editor.py:170-175 | DELETE as written: a no-op with one prediction; otherwise the highlighted prediction is removed, `highlight` becomes `max(0, h-1)`, the box is rebound there with the cursor at the end, and `highlight_hist` keeps its old value |
| `ControllerModel.DeleteFragment` | editor.py:170-175 | a no-op with one prediction; otherwise the highlighted prediction is removed, `highlight` becomes `max(0, h-1)`, a valid index, the box is rebound there with the cursor at the end, and `highlight_hist` is set to it (corrected, see Findings) |
| `ControllerModel.WithBox` | editor.py:50-64 | an edit through the text box: the box's new text is written into the bound prediction and nowhere else, the cursor is the box's, and both indices and the binding are kept |
| `ControllerModel.HandleKey` | editor.py:159-177 | (corrected DELETE, see Findings) every key keeps the list non-empty, `highlight` valid and the cursor within the bound text; no key makes up a bounding box; keys other than DELETE keep the length and change at most the bound prediction's text; UP and DOWN leave the list and the box alone |
| `ControllerModel.HandleKeyAsWritten` | editor.py:159-177 | the dispatch as written: DELETE goes to `DeleteFragmentAsWritten`, every other key behaves as in `HandleKey`; the state stays well formed and the list never grows or empties |
| `ControllerModel.HandleKeyAsWrittenDiffers` | editor.py:159-177 | the dispatch as written and the corrected one differ only in `highlight_hist`, and only after a DELETE that removes a prediction and moves `highlight` away from `highlight_hist` (both directions) |
| `ControllerModel.AsWrittenDeleteBreaksValid` | editor.py:170-175 | as written, two predictions with the second highlighted and bound: after DELETE, `highlight_hist` no longer names the bound prediction |
| `ControllerModel.DeleteAloneResynchronises` | editor.py:150-152 | a DELETE that is the only key of its frame, from a synchronised state, leads after the next frame's rebinding check to the same state as written and corrected |
| `ControllerModel.HandleKeysAsWritten` | editor.py:156-177 | a frame's keys handled by the dispatch as written keep the state well formed; without a DELETE among them the result is that of the corrected dispatch |
| `ControllerModel.HandleKeys` | editor.py:156-177 | (corrected DELETE, see Findings) any sequence of keys keeps the invariant; the list never grows, never becomes empty, and keeps only bounding boxes it already had |
| `ControllerModel.DeleteThenDownDesynchronises` | editor.py:150-175 | as written, five predictions synchronised on the third, then DELETE and DOWN in one frame: the next frame highlights prediction 2 while the box stays bound to prediction 1 |
| `ControllerModel.CatDogScenario` | editor.py:150-177 | "cat" and "dog": DOWN binds the box to "dog" with cursor 3; "!" gives "dog!" with cursor 4; two backspaces give "do" with cursor 2; DELETE leaves `["cat"]`, highlighted, bound, with cursor 3 |
| `Editor.FragmentStore.SetText` | editor.py:52-54 | the list is the old list with that prediction's text replaced |
| `Editor.FragmentStore.Remove` | editor.py:173 | the list is `Fragments.Remove` of the old list |
| `Editor.TextBox.constructor` | editor.py:15-28 | the box is bound to the given prediction with `cursorPos = len(DetectedText)` |
| `Editor.TextBox.SetText` | editor.py:31-38 | the box is rebound to prediction `i` with the cursor at the end of its text |
| `Editor.TextBox.IncrementCursor` | editor.py:40-48 | the box's new state is `Increment` of the old one; the list is not touched |
| `Editor.TextBox.GetText` | editor.py:57-58 | returns the bound prediction's text, which the cursor does not pass |
| `Editor.TextBox.DeleteChar` | editor.py:50-55 | the box's new state is `DeleteChar` of the old one, written back into the bound slot of the shared list and nowhere else |
| `Editor.TextBox.AddChar` | editor.py:60-64 | the box's new state is `AddChar` of the old one, written back into the bound slot of the shared list and nowhere else |
| `Editor.Controller.constructor` | editor.py:133-141 | the controller starts as `Start(predictions)`, over a fresh list and box |
| `Editor.Controller.Tick` | editor.py:150-152 | the controller's new state is `Tick` of the old one |
| `Editor.Controller.HandleKey` | editor.py:159-177 | (corrected DELETE, see Findings) the controller's new state is `HandleKey` of the old one, and the invariant is kept |
| `Editor.Controller.HandleKeys` | editor.py:156-177 | (corrected DELETE, see Findings) handling a frame's events in a loop gives `HandleKeys` of the old state |

## Left out

- Drawing: `display`'s rectangles, font rendering and the float `charWidth` pixel offset; `renderPredictions`, `renderTextEditor` and `makeImage`, which do floating-point scaling and drawing. Only the integer cursor column of `display` is modelled.
- The `pygame.Rect` base class of `textBox` and the font it keeps. Geometry plays no part in editing.
- Window set-up, the `while running` loop, `pygame.event.get()`, `QUIT` events, non-key events and `pygame.display.update()`. Events are passed in as a sequence of `Key` values, and the `unicode` of an unlisted key is an arbitrary string argument.
- `readData` and `main`: file I/O and JSON parsing. The model starts from an already loaded, non-empty prediction list. The source indexes `predictions[0]` unguarded, so an empty list is excluded by `requires`.
- The bounding box coordinates are carried as `real` numbers, uninterpreted. The editing logic never reads or changes them.
- Increment: the contract states the in-range moves and the two ±1 wrap-arounds, not the general congruence modulo `len + 1` for steps of size greater than one. The source only ever calls it with -1 and +1.

## Findings

| source | as written | input that shows it | evidently intended | confidence | as-written member | corrected member |
|---|---|---|---|---|---|---|
| editor.py:170-175 | the DELETE branch rebinds the box to `predictions[max(0, h-1)]` but leaves `highlight_hist` at the old `h` | five predictions, `highlight == highlight_hist == 2`, then DELETE and DOWN handled in the same frame: `highlight` is 2 again and equal to `highlight_hist`, so the next frame does not rebind, and the box keeps editing prediction 1 while prediction 2 is highlighted | set `highlight_hist = highlight` together with the rebinding, so the box always follows the highlight | likely (not executed; needs two key events in one frame) | `ControllerModel.DeleteFragmentAsWritten`, `ControllerModel.HandleKeyAsWritten`, `ControllerModel.DeleteThenDownDesynchronises` | `ControllerModel.DeleteFragment` |

The dispatch as written is `ControllerModel.HandleKeyAsWritten` and `ControllerModel.HandleKeysAsWritten`. The rest of the model, including `ControllerModel.HandleKey`, `ControllerModel.HandleKeys` and the `Editor.Controller` methods, uses the corrected DELETE. Under it, `Session.Valid()` holds after every key. That invariant says the box is bound to the prediction `highlight_hist` names, so `ControllerModel.Tick` always leaves the box on the highlighted prediction.
