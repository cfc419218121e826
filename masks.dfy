/** Mask rectangles as the editor stores them (canvas coordinates, which
    may be fractional), the drag normalisation that builds them, and the
    list operations on the mask list: append on mouse-up, remove one entry,
    remove all. */
module Masks {
  import Pixels

  /** The effect every mask of the list applies. */
  datatype MaskType = Blur | Pixelate | Solid

  datatype Point = Point(x: real, y: real)

  /** A mask: top-left corner and size, in canvas pixels. */
  datatype Rect = Rect(x: real, y: real, width: real, height: real)

  function MinReal(a: real, b: real): (m: real) { if a < b then a else b }
  function MaxReal(a: real, b: real): (m: real) { if a < b then b else a }
  function Abs(a: real): (v: real) { if a < 0.0 then -a else a }

  /** The rectangle spanned by the drag from `start` to `cur`: whichever way
      the mouse moved, the corner is the top-left one and the size is
      non-negative. */
  function DragRect(start: Point, cur: Point): (r: Rect)
    ensures r.x == MinReal(start.x, cur.x) && r.x + r.width == MaxReal(start.x, cur.x)
    ensures r.y == MinReal(start.y, cur.y) && r.y + r.height == MaxReal(start.y, cur.y)
    ensures r.width >= 0.0 && r.height >= 0.0
  {
    var width := cur.x - start.x;
    var height := cur.y - start.y;
    Rect(if width > 0.0 then start.x else cur.x,
         if height > 0.0 then start.y else cur.y,
         Abs(width), Abs(height))
  }

  /** A drag becomes a mask only when it is more than 5 pixels in both directions. */
  predicate Admitted(m: Rect) {
    m.width > 5.0 && m.height > 5.0
  }

  /** The mask list after mouse-up with `current` as the rectangle drawn. */
  function AppendIfLarge(masks: seq<Rect>, current: Rect): (r: seq<Rect>)
    ensures Admitted(current) ==> r == masks + [current]
    ensures !Admitted(current) ==> r == masks
  {
    if current.width > 5.0 && current.height > 5.0 then masks + [current] else masks
  }

  /** Every mask in the list passed the size test. */
  predicate AllAdmitted(masks: seq<Rect>) {
    forall i :: 0 <= i < |masks| ==> Admitted(masks[i])
  }

  lemma AppendKeepsAdmitted(masks: seq<Rect>, current: Rect)
    requires AllAdmitted(masks)
    ensures AllAdmitted(AppendIfLarge(masks, current))
  {
  }

  /** The position `Array.prototype.splice(index, 1)` removes from a list of
      length `n`: a negative index counts from the end (clamped at 0), a
      non-negative one is clamped at `n`; nothing is removed at position `n`. */
  function SpliceStart(n: nat, index: int): (start: nat)
    ensures start <= n
    ensures 0 <= index ==> start == Pixels.Min(index, n)
    ensures index < 0 ==> start == Pixels.Max(n + index, 0)
  {
    if index < 0 then (if n + index < 0 then 0 else n + index)
    else if index < n then index else n
  }

  /** `clearMask(index)`: the list without the entry `splice(index, 1)` removes. */
  function RemoveAt(masks: seq<Rect>, index: int): (r: seq<Rect>)
    ensures var start := SpliceStart(|masks|, index);
      if start < |masks| then
        |r| == |masks| - 1 &&
        (forall j :: 0 <= j < start ==> r[j] == masks[j]) &&
        (forall j :: start <= j < |r| ==> r[j] == masks[j + 1])
      else r == masks
  {
    var start := SpliceStart(|masks|, index);
    if start < |masks| then masks[..start] + masks[start + 1..] else masks
  }

  /** On an index of the list, exactly that entry goes and nothing else: the
      remaining masks keep their order and every other entry survives. */
  lemma RemoveAtValidIndex(masks: seq<Rect>, index: int)
    requires 0 <= index < |masks|
    ensures RemoveAt(masks, index) == masks[..index] + masks[index + 1..]
    ensures multiset(RemoveAt(masks, index)) + multiset{masks[index]} == multiset(masks)
  {
    var r := RemoveAt(masks, index);
    assert masks == masks[..index] + [masks[index]] + masks[index + 1..];
    assert r == masks[..index] + masks[index + 1..];
  }

  lemma RemoveKeepsAdmitted(masks: seq<Rect>, index: int)
    requires AllAdmitted(masks)
    ensures AllAdmitted(RemoveAt(masks, index))
  {
  }
}
