/** What the tiling trees show, without the pool: which views stand beside which, and how they are split. */
module AxShape {
  import opened AxTree
  import opened AxPool

  datatype Shape = Nothing | One(v: nat) | Two(vertical: bool, l: Shape, r: Shape)

  ghost function ShapeOf(t: Tree): Shape {
    match t
    case Leaf(_, v) => One(v)
    case Branch(_, d, l, r) => Two(d, ShapeOf(l), ShapeOf(r))
  }

  ghost function SpaceShape(s: Space): Shape {
    if s.Bare? then Nothing else ShapeOf(s.t)
  }

  /** View w takes the second half of the place of view v. */
  function Beside(s: Shape, v: nat, vertical: bool, w: nat): Shape {
    match s
    case Nothing => Nothing
    case One(x) => if x == v then Two(vertical, One(v), One(w)) else s
    case Two(d, l, r) => Two(d, Beside(l, v, vertical, w), Beside(r, v, vertical, w))
  }

  /** View v leaves; what stood beside it takes the whole place. */
  function Gone(s: Shape, v: nat): Shape {
    match s
    case Nothing => Nothing
    case One(x) => if x == v then Nothing else s
    case Two(d, l, r) => Joined(d, Gone(l, v), Gone(r, v))
  }

  function Joined(d: bool, l: Shape, r: Shape): Shape {
    if l.Nothing? then r else if r.Nothing? then l else Two(d, l, r)
  }

  lemma {:induction false} Elsewhere(t: Tree, v: nat, d: bool, w: nat)
    requires v !in Views(t)
    ensures Beside(ShapeOf(t), v, d, w) == ShapeOf(t) && Gone(ShapeOf(t), v) == ShapeOf(t)
  {
    if t.Branch? {
      Elsewhere(t.l, v, d, w);
      Elsewhere(t.r, v, d, w);
    }
  }

  /** Splitting a leaf in the pool puts the new view beside the old one. */
  lemma {:induction false} SplitShape(t: Tree, n: nat, v: nat, d: bool, a: nat, b: nat, w: nat)
    requires Proper(t) && HasLeaf(t, n, v)
    ensures ShapeOf(SplitLeaf(t, n, d, a, b, w)) == Beside(ShapeOf(t), v, d, w)
  {
    if t.Branch? {
      if HasLeaf(t.l, n, v) {
        LeafInside(t.l, n, v);
        SplitShape(t.l, n, v, d, a, b, w);
        SplitElsewhere(t.r, n, d, a, b, w);
        Elsewhere(t.r, v, d, w);
      } else {
        LeafInside(t.r, n, v);
        SplitShape(t.r, n, v, d, a, b, w);
        SplitElsewhere(t.l, n, d, a, b, w);
        Elsewhere(t.l, v, d, w);
      }
    }
  }

  /** View v stands where view x stood. */
  function Renamed(s: Shape, x: nat, v: nat): Shape {
    match s
    case Nothing => Nothing
    case One(y) => if y == x then One(v) else s
    case Two(d, l, r) => Two(d, Renamed(l, x, v), Renamed(r, x, v))
  }

  lemma {:induction false} RenamedSelf(s: Shape, v: nat)
    ensures Renamed(s, v, v) == s
  {
    if s.Two? {
      RenamedSelf(s.l, v);
      RenamedSelf(s.r, v);
    }
  }

  lemma {:induction false} RenamedElsewhere(t: Tree, x: nat, v: nat)
    requires x !in Views(t)
    ensures Renamed(ShapeOf(t), x, v) == ShapeOf(t)
  {
    if t.Branch? {
      RenamedElsewhere(t.l, x, v);
      RenamedElsewhere(t.r, x, v);
    }
  }

  lemma {:induction false} RelabelShape(t: Tree, n: nat, x: nat, v: nat)
    requires Proper(t) && HasLeaf(t, n, x)
    ensures ShapeOf(Relabel(t, n, v)) == Renamed(ShapeOf(t), x, v)
  {
    if t.Branch? {
      var (here, other) := if HasLeaf(t.l, n, x) then (t.l, t.r) else (t.r, t.l);
      LeafInside(here, n, x);
      RelabelShape(here, n, x, v);
      RelabelElsewhere(other, n, v);
      RenamedElsewhere(other, x, v);
    }
  }

  /** Removing a leaf and its parent from the pool lets the sibling take their place. */
  lemma {:induction false} WithoutShape(t: Tree, n: nat, v: nat)
    requires Proper(t) && HasLeaf(t, n, v) && t.Branch?
    ensures ShapeOf(Without(t, n, v)) == Gone(ShapeOf(t), v)
  {
    if HasLeaf(t.l, n, v) {
      LeafInside(t.l, n, v);
      Elsewhere(t.r, v, false, v);
      if t.l.Branch? {
        WithoutShape(t.l, n, v);
      }
    } else {
      LeafInside(t.r, n, v);
      Elsewhere(t.l, v, false, v);
      if t.r.Branch? {
        WithoutShape(t.r, n, v);
      }
    }
  }

  /** A view that comes and goes leaves the arrangement as it was. */
  lemma {:induction false} ComesAndGoes(t: Tree, v: nat, d: bool, w: nat)
    requires w !in Views(t) && v != w
    ensures Gone(Beside(ShapeOf(t), v, d, w), w) == ShapeOf(t)
  {
    if t.Branch? {
      ComesAndGoes(t.l, v, d, w);
      ComesAndGoes(t.r, v, d, w);
    }
  }

  /** Leaving a workspace that does not tile the view changes nothing there. */
  lemma NotThere(s: Space, v: nat)
    requires v !in Tiles(s)
    ensures Gone(SpaceShape(s), v) == SpaceShape(s)
  {
    if s.Tiled? {
      Elsewhere(s.t, v, false, v);
    }
  }

  /** View w came to a workspace: alone, or beside the preferred view, or beside some view when none is preferred. */
  ghost predicate Came(s: Space, s2: Space, prefer: int, w: nat, vertical: nat -> bool) {
    if s.Bare? then SpaceShape(s2) == One(w)
    else
      exists v :: (v in Tiles(s) && (prefer >= 0 ==> v == prefer)
                   && SpaceShape(s2) == Beside(SpaceShape(s), v, vertical(v), w))
  }

  /** View v left every workspace; nothing else moved. */
  ghost predicate Left(spaces: seq<Space>, spaces2: seq<Space>, v: nat) {
    |spaces2| == |spaces| && forall ws :: 0 <= ws < |spaces| ==>
        SpaceShape(spaces2[ws]) == Gone(SpaceShape(spaces[ws]), v)
  }
}
