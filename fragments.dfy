/**
 * The detected text fragments the editor works on: each one is the recognised
 * string of a prediction together with its relative bounding box.
 */
module Fragments {

  /** Relative image coordinates of a prediction; the editor never changes them. */
  datatype BoundingBox = BoundingBox(left: real, top: real, width: real, height: real)

  /** One prediction: its `DetectedText` and its `Geometry.BoundingBox`. */
  datatype Fragment = Fragment(text: string, box: BoundingBox)

  /** Some fragment of `fs` has bounding box `b`. */
  predicate HasBox(fs: seq<Fragment>, b: BoundingBox)
  {
    exists i :: 0 <= i < |fs| && fs[i].box == b
  }

  /** The list with fragment `i`'s text replaced by `t`; every other field and fragment is kept. */
  function WithText(fs: seq<Fragment>, i: nat, t: string): (r: seq<Fragment>)
    requires i < |fs|
    ensures |r| == |fs|
    ensures r[i].text == t && r[i].box == fs[i].box
    ensures forall j :: 0 <= j < |fs| && j != i ==> r[j] == fs[j]
  {
    fs[i := fs[i].(text := t)]
  }

  /** The list after `del fs[i]`: the fragments before `i` stay, the later ones shift down by one. */
  function Remove(fs: seq<Fragment>, i: nat): (r: seq<Fragment>)
    requires i < |fs|
    ensures |r| == |fs| - 1
    ensures forall j :: 0 <= j < i ==> r[j] == fs[j]
    ensures forall j :: i <= j < |r| ==> r[j] == fs[j + 1]
    ensures multiset(r) + multiset{fs[i]} == multiset(fs)
  {
    assert fs == fs[..i] + [fs[i]] + fs[i + 1..];
    fs[..i] + fs[i + 1..]
  }
}
