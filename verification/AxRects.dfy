/** The rectangles axwm gives to the leaves of a tiling tree. */
module AxRects {
  import opened AxTree

  datatype Rect = Rect(x: int, y: int, w: int, h: int)

  /** Division by two as C does it, towards zero. */
  function Half(k: int): int {
    if k >= 0 then k / 2 else -((-k) / 2)
  }

  function Max(a: int, b: int): int {
    if a > b then a else b
  }

  /** The left or upper part of a split. */
  function First(r: Rect, vertical: bool, gap: int): Rect {
    if vertical then r.(w := Max(0, Half(r.w - gap))) else r.(h := Max(0, Half(r.h - gap)))
  }

  /** The right or lower part of a split, past the gap. */
  function Second(r: Rect, vertical: bool, gap: int): Rect {
    if vertical then
      var left := Max(0, Half(r.w - gap));
      Rect(r.x + left + gap, r.y, Max(0, (r.w - gap) - Half(r.w - gap)), r.h)
    else
      var top := Max(0, Half(r.h - gap));
      Rect(r.x, r.y + top + gap, r.w, Max(0, (r.h - gap) - Half(r.h - gap)))
  }

  /** A leaf's view and its rectangle. */
  datatype Spot = Spot(v: nat, r: Rect)

  function Spots(t: Tree, r: Rect, gap: int): seq<Spot> {
    match t
    case Leaf(_, v) => [Spot(v, r)]
    case Branch(_, d, a, b) => Spots(a, First(r, d, gap), gap) + Spots(b, Second(r, d, gap), gap)
  }

  predicate Solid(r: Rect) {
    r.w > 0 && r.h > 0
  }

  predicate Within(q: Rect, r: Rect) {
    r.x <= q.x && q.x + q.w <= r.x + r.w && r.y <= q.y && q.y + q.h <= r.y + r.h
  }

  /** No point is in both. */
  predicate Apart(q: Rect, r: Rect) {
    q.x + q.w <= r.x || r.x + r.w <= q.x || q.y + q.h <= r.y || r.y + r.h <= q.y
  }

  lemma SplitInside(r: Rect, d: bool, gap: int)
    requires gap >= 0 && r.w >= 0 && r.h >= 0
    ensures First(r, d, gap).w >= 0 && First(r, d, gap).h >= 0 && Second(r, d, gap).w >= 0 && Second(r, d, gap).h >= 0
    ensures Within(First(r, d, gap), r)
    ensures Solid(Second(r, d, gap)) ==> Within(Second(r, d, gap), r) && Apart(First(r, d, gap), Second(r, d, gap))
  {
  }

  /** Only a solid rectangle contains solid ones. */
  lemma SolidInside(q: Rect, r: Rect)
    requires Solid(q) && Within(q, r)
    ensures Solid(r)
  {
  }

  lemma {:induction false} SpotsInside(t: Tree, r: Rect, gap: int)
    requires gap >= 0 && r.w >= 0 && r.h >= 0
    ensures forall i :: 0 <= i < |Spots(t, r, gap)| && Solid(Spots(t, r, gap)[i].r) ==> Within(Spots(t, r, gap)[i].r, r)
  {
    if t.Branch? {
      var q1, q2 := First(r, t.vertical, gap), Second(r, t.vertical, gap);
      SplitInside(r, t.vertical, gap);
      SpotsInside(t.l, q1, gap);
      SpotsInside(t.r, q2, gap);
      var s1, s2 := Spots(t.l, q1, gap), Spots(t.r, q2, gap);
      var s := s1 + s2;
      forall i | 0 <= i < |s| && Solid(s[i].r) ensures Within(s[i].r, r) {
        if i >= |s1| {
          SolidInside(s2[i - |s1|].r, q2);
        }
      }
    }
  }

  /** Before the minimum size is applied, no two tiled windows overlap. */
  lemma {:induction false} SpotsApart(t: Tree, r: Rect, gap: int)
    requires gap >= 0 && r.w >= 0 && r.h >= 0
    ensures forall i, j :: (0 <= i < j < |Spots(t, r, gap)|
                            && Solid(Spots(t, r, gap)[i].r) && Solid(Spots(t, r, gap)[j].r)) ==>
              Apart(Spots(t, r, gap)[i].r, Spots(t, r, gap)[j].r)
  {
    if t.Branch? {
      var q1, q2 := First(r, t.vertical, gap), Second(r, t.vertical, gap);
      SplitInside(r, t.vertical, gap);
      SpotsApart(t.l, q1, gap);
      SpotsApart(t.r, q2, gap);
      SpotsInside(t.l, q1, gap);
      SpotsInside(t.r, q2, gap);
      var s1, s2 := Spots(t.l, q1, gap), Spots(t.r, q2, gap);
      var s := s1 + s2;
      forall i, j | 0 <= i < j < |s| && Solid(s[i].r) && Solid(s[j].r)
        ensures Apart(s[i].r, s[j].r)
      {
        if i < |s1| <= j {
          SolidInside(s2[j - |s1|].r, q2);
        }
      }
    }
  }

  /** Every view of the tree has exactly one spot, and nothing else has. */
  lemma {:induction false} SpotsAreViews(t: Tree, r: Rect, gap: int)
    requires Proper(t)
    ensures forall i :: 0 <= i < |Spots(t, r, gap)| ==> Spots(t, r, gap)[i].v in Views(t)
    ensures forall v :: v in Views(t) ==> exists i :: 0 <= i < |Spots(t, r, gap)| && Spots(t, r, gap)[i].v == v
    ensures forall i, j :: 0 <= i < j < |Spots(t, r, gap)| ==> Spots(t, r, gap)[i].v != Spots(t, r, gap)[j].v
  {
    if t.Branch? {
      var q1, q2 := First(r, t.vertical, gap), Second(r, t.vertical, gap);
      SpotsAreViews(t.l, q1, gap);
      SpotsAreViews(t.r, q2, gap);
      var s1, s2 := Spots(t.l, q1, gap), Spots(t.r, q2, gap);
      var s := s1 + s2;
      assert s == Spots(t, r, gap);
      forall v | v in Views(t) ensures exists i :: 0 <= i < |s| && s[i].v == v {
        if v in Views(t.l) {
          var i :| 0 <= i < |s1| && s1[i].v == v;
          assert s[i].v == v;
        } else {
          var i :| 0 <= i < |s2| && s2[i].v == v;
          assert s[|s1| + i].v == v;
        }
      }
      forall i | 0 <= i < |s| ensures s[i].v in Views(t) {
        assert if i < |s1| then s[i] == s1[i] else s[i] == s2[i - |s1|];
      }
      forall i, j | 0 <= i < j < |s| ensures s[i].v != s[j].v {
        if i < |s1| <= j {
          assert s1[i].v in Views(t.l) && s2[j - |s1|].v in Views(t.r);
        }
      }
    } else {
      assert Spots(t, r, gap)[0].v == t.v;
    }
  }

  // ---- the explicit stack of the traversal

  function Size(t: Tree): nat {
    match t
    case Leaf(_, _) => 1
    case Branch(_, _, l, r) => 1 + Size(l) + Size(r)
  }

  /** Nodes still to be visited. */
  function Weight(trees: seq<Tree>): nat {
    if trees == [] then 0 else Weight(trees[..|trees| - 1]) + Size(trees[|trees| - 1])
  }

  /** What the stack still stands for, from its top down. */
  function Remaining(trees: seq<Tree>, rects: seq<Rect>, gap: int): seq<Spot>
    requires |trees| == |rects|
  {
    if trees == [] then []
    else
      var top := |trees| - 1;
      Spots(trees[top], rects[top], gap) + Remaining(trees[..top], rects[..top], gap)
  }

  /** Every stacked tree has a node to its name, so the stack is never higher than its weight. */
  lemma {:induction false} StackFits(trees: seq<Tree>)
    ensures |trees| <= Weight(trees)
  {
    if trees != [] {
      StackFits(trees[..|trees| - 1]);
    }
  }

  lemma {:induction false} SizeIsNodes(t: Tree)
    requires Proper(t)
    ensures Size(t) == |Nodes(t)|
  {
    if t.Branch? {
      SizeIsNodes(t.l);
      SizeIsNodes(t.r);
      assert |Nodes(t.l) + Nodes(t.r)| == |Nodes(t.l)| + |Nodes(t.r)|;
      assert Nodes(t) == {t.n} + (Nodes(t.l) + Nodes(t.r));
    }
  }

  /** Popping a branch and pushing its parts, the first on top, keeps what remains. */
  lemma PushParts(trees: seq<Tree>, rects: seq<Rect>, gap: int)
    requires |trees| == |rects| > 0 && trees[|trees| - 1].Branch?
    ensures var t, r := trees[|trees| - 1], rects[|trees| - 1];
            var trees2 := trees[..|trees| - 1] + [t.r, t.l];
            var rects2 := rects[..|trees| - 1] + [Second(r, t.vertical, gap), First(r, t.vertical, gap)];
            Remaining(trees2, rects2, gap) == Remaining(trees, rects, gap) && Weight(trees2) == Weight(trees) - 1
  {
    var top := |trees| - 1;
    var t, r := trees[top], rects[top];
    var r1, r2 := First(r, t.vertical, gap), Second(r, t.vertical, gap);
    var mid, midRects := trees[..top] + [t.r], rects[..top] + [r2];
    var trees2, rects2 := trees[..top] + [t.r, t.l], rects[..top] + [r2, r1];
    assert trees2[..|trees2| - 1] == mid && rects2[..|trees2| - 1] == midRects;
    assert mid[..top] == trees[..top] && midRects[..top] == rects[..top];
    assert Remaining(mid, midRects, gap) == Spots(t.r, r2, gap) + Remaining(trees[..top], rects[..top], gap);
    assert Remaining(trees2, rects2, gap) == Spots(t.l, r1, gap) + Remaining(mid, midRects, gap);
  }
}
