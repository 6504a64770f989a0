/** Moving and resizing by the pointer: which edges are held, and the rectangle that follows. */
module AxDrag {
  import opened AxRects
  import opened AxViews
  import opened AxSteps

  /** How close to an edge the pointer holds it. */
  const HIT := 10

  datatype Edges = Edges(left: bool, right: bool, top: bool, bottom: bool)

  const NO_EDGES := Edges(false, false, false, false)

  /** The edges of a view a point is close to; a point outside holds none. */
  function EdgesAt(v: View, px: int, py: int): Edges {
    var lx, ly := px - v.x, py - v.y;
    if 0 <= lx < v.w && 0 <= ly < v.h then Edges(lx < HIT, lx >= v.w - HIT, ly < HIT, ly >= v.h - HIT) else NO_EDGES
  }

  /** The edges a resize moves: those held, or the right and the lower one. */
  function HeldEdges(v: View, px: int, py: int): Edges {
    if EdgesAt(v, px, py) == NO_EDGES then Edges(false, true, false, true) else EdgesAt(v, px, py)
  }

  /** One axis of a resize: where it starts and how long it is, for a pointer moved by d. */
  function Stretch(start: int, length: int, low: bool, high: bool, d: int, least: int): (int, int) {
    var s := if low then start + d else start;
    var l := length + (if high then d else 0) - (if low then d else 0);
    if l >= least then (s, l) else (if low then start + length - least else s, least)
  }

  function Stretched(r: Rect, e: Edges, dx: int, dy: int): Rect {
    var (x, w) := Stretch(r.x, r.w, e.left, e.right, dx, MIN_W);
    var (y, h) := Stretch(r.y, r.h, e.top, e.bottom, dy, MIN_H);
    Rect(x, y, w, h)
  }

  /**
   * An edge that is not held stays, unless the view was too small before; an edge held alone follows until
   * the minimum.
   */
  lemma StretchHolds(r: Rect, e: Edges, dx: int, dy: int)
    ensures var q := Stretched(r, e, dx, dy);
            && q.w >= MIN_W && q.h >= MIN_H
            && (!e.left ==> q.x == r.x) && (!e.top ==> q.y == r.y)
            && (e.left && !e.right ==> q.x + q.w == r.x + r.w) && (e.top && !e.bottom ==> q.y + q.h == r.y + r.h)
            && (!e.left && !e.right && r.w >= MIN_W ==> q.w == r.w)
               && (!e.top && !e.bottom && r.h >= MIN_H ==> q.h == r.h)
            && (e.right && !e.left && r.w + dx >= MIN_W ==> q.x + q.w == r.x + r.w + dx)
            && (e.left && !e.right && r.w - dx >= MIN_W ==> q.x == r.x + dx)
  {
  }
}
