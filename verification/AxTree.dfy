/** The tiling trees of axwm: split trees drawn in a shared pool of linked nodes. */
module AxTree {
  const MAX_VIEWS := 64
  const MAX_WS := 5
  const MAX_NODES := 128

  /** A pool slot; links are slot numbers, -1 for none. */
  datatype Node = Node(used: bool, ws: nat, parent: int, a: int, b: int, split: bool, vertical: bool, view: int)

  const BLANK := Node(false, 0, -1, -1, -1, false, true, -1)

  /** A proper binary tree with the slot of every node and the view of every leaf. */
  datatype Tree = Leaf(n: nat, v: nat) | Branch(n: nat, vertical: bool, l: Tree, r: Tree)

  ghost function Nodes(t: Tree): set<nat> {
    match t
    case Leaf(n, _) => {n}
    case Branch(n, _, l, r) => {n} + Nodes(l) + Nodes(r)
  }

  ghost function Views(t: Tree): set<nat> {
    match t
    case Leaf(_, v) => {v}
    case Branch(_, _, l, r) => Views(l) + Views(r)
  }

  /** No slot and no view occurs twice. */
  ghost predicate Proper(t: Tree) {
    match t
    case Leaf(_, _) => true
    case Branch(n, _, l, r) =>
      && Proper(l) && Proper(r)
      && n !in Nodes(l) && n !in Nodes(r) && Nodes(l) !! Nodes(r) && Views(l) !! Views(r)
  }

  /** The pool holds the tree: child links down, parent links up, all slots in use for this workspace. */
  ghost predicate Drawn(nodes: seq<Node>, t: Tree, p: int, ws: nat) {
    && t.n < |nodes| && nodes[t.n].used && nodes[t.n].ws == ws && nodes[t.n].parent == p
    && match t
       case Leaf(n, v) => !nodes[n].split && nodes[n].view == v
       case Branch(n, d, l, r) =>
         && nodes[n].split && nodes[n].vertical == d && nodes[n].a == l.n && nodes[n].b == r.n
         && Drawn(nodes, l, n, ws) && Drawn(nodes, r, n, ws)
  }

  ghost predicate HasLeaf(t: Tree, n: nat, v: nat) {
    match t
    case Leaf(n2, v2) => n == n2 && v == v2
    case Branch(_, _, l, r) => HasLeaf(l, n, v) || HasLeaf(r, n, v)
  }

  lemma {:induction false} DrawnFrame(nodes: seq<Node>, nodes2: seq<Node>, t: Tree, p: int, ws: nat)
    requires Drawn(nodes, t, p, ws) && |nodes2| == |nodes|
    requires forall n :: n in Nodes(t) && n < |nodes| ==> nodes2[n] == nodes[n]
    ensures Drawn(nodes2, t, p, ws)
  {
    if t.Branch? {
      DrawnFrame(nodes, nodes2, t.l, t.n, ws);
      DrawnFrame(nodes, nodes2, t.r, t.n, ws);
    }
  }

  /** Only the root carries the upward link of the whole tree. */
  lemma DrawnReparent(nodes: seq<Node>, nodes2: seq<Node>, t: Tree, p: int, p2: int, ws: nat)
    requires Drawn(nodes, t, p, ws) && Proper(t) && |nodes2| == |nodes|
    requires forall n :: n in Nodes(t) && n < |nodes| ==>
               nodes2[n] == if n == t.n then nodes[n].(parent := p2) else nodes[n]
    ensures Drawn(nodes2, t, p2, ws)
  {
    if t.Branch? {
      DrawnFrame(nodes, nodes2, t.l, t.n, ws);
      DrawnFrame(nodes, nodes2, t.r, t.n, ws);
    }
  }

  lemma {:induction false} DrawnSlots(nodes: seq<Node>, t: Tree, p: int, ws: nat)
    requires Drawn(nodes, t, p, ws)
    ensures forall n :: n in Nodes(t) ==> n < |nodes| && nodes[n].used && nodes[n].ws == ws
    ensures t.n in Nodes(t)
  {
    if t.Branch? {
      DrawnSlots(nodes, t.l, t.n, ws);
      DrawnSlots(nodes, t.r, t.n, ws);
    }
  }

  /** A slot that looks like the leaf of a view is that leaf. */
  lemma {:induction false} SlotIsLeaf(nodes: seq<Node>, t: Tree, p: int, ws: nat, n: nat)
    requires Drawn(nodes, t, p, ws) && n in Nodes(t) && n < |nodes| && !nodes[n].split
    ensures nodes[n].view >= 0 && HasLeaf(t, n, nodes[n].view) && nodes[n].view in Views(t)
  {
    if t.Branch? {
      if n in Nodes(t.l) {
        SlotIsLeaf(nodes, t.l, t.n, ws, n);
      } else {
        SlotIsLeaf(nodes, t.r, t.n, ws, n);
      }
    }
  }

  /** Every view of the tree has its leaf in the pool. */
  lemma {:induction false} LeafOf(nodes: seq<Node>, t: Tree, p: int, ws: nat, v: nat) returns (n: nat)
    requires Drawn(nodes, t, p, ws) && v in Views(t)
    ensures HasLeaf(t, n, v) && n in Nodes(t) && n < |nodes|
    ensures nodes[n].used && nodes[n].ws == ws && !nodes[n].split && nodes[n].view == v
  {
    if t.Leaf? {
      n := t.n;
    } else if v in Views(t.l) {
      n := LeafOf(nodes, t.l, t.n, ws, v);
    } else {
      n := LeafOf(nodes, t.r, t.n, ws, v);
    }
  }

  lemma {:induction false} LeafInside(t: Tree, n: nat, v: nat)
    requires HasLeaf(t, n, v)
    ensures n in Nodes(t) && v in Views(t)
  {
    if t.Branch? {
      if HasLeaf(t.l, n, v) {
        LeafInside(t.l, n, v);
      } else {
        LeafInside(t.r, n, v);
      }
    }
  }

  // ---- splitting a leaf

  /** The leaf keeps its slot as a branch; its view moves to slot a, the new view takes slot b. */
  ghost function SplitLeaf(t: Tree, n: nat, d: bool, a: nat, b: nat, w: nat): Tree {
    match t
    case Leaf(m, v) => if m == n then Branch(n, d, Leaf(a, v), Leaf(b, w)) else t
    case Branch(m, e, l, r) => Branch(m, e, SplitLeaf(l, n, d, a, b, w), SplitLeaf(r, n, d, a, b, w))
  }

  function SplitNodes(nodes: seq<Node>, ws: nat, n: nat, d: bool, a: nat, b: nat, v: nat, w: nat): seq<Node>
    requires n < |nodes| && a < |nodes| && b < |nodes|
  {
    nodes[a := Node(true, ws, n, -1, -1, false, true, v)]
         [b := Node(true, ws, n, -1, -1, false, true, w)]
         [n := nodes[n].(split := true, view := -1, a := a, b := b, vertical := d)]
  }

  lemma {:induction false} SplitElsewhere(t: Tree, n: nat, d: bool, a: nat, b: nat, w: nat)
    requires n !in Nodes(t)
    ensures SplitLeaf(t, n, d, a, b, w) == t
  {
    if t.Branch? {
      SplitElsewhere(t.l, n, d, a, b, w);
      SplitElsewhere(t.r, n, d, a, b, w);
    }
  }

  lemma {:induction false} SplitContents(t: Tree, n: nat, v: nat, d: bool, a: nat, b: nat, w: nat)
    requires Proper(t) && HasLeaf(t, n, v) && w !in Views(t)
    requires a !in Nodes(t) && b !in Nodes(t) && a != b
    ensures var t2 := SplitLeaf(t, n, d, a, b, w);
            Proper(t2) && Nodes(t2) == Nodes(t) + {a, b} && Views(t2) == Views(t) + {w} && t2.n == t.n
  {
    if t.Branch? {
      if HasLeaf(t.l, n, v) {
        LeafInside(t.l, n, v);
        SplitContents(t.l, n, v, d, a, b, w);
        SplitElsewhere(t.r, n, d, a, b, w);
      } else {
        LeafInside(t.r, n, v);
        SplitContents(t.r, n, v, d, a, b, w);
        SplitElsewhere(t.l, n, d, a, b, w);
      }
    }
  }

  lemma {:induction false} SplitDrawn(nodes: seq<Node>, t: Tree, p: int, ws: nat, n: nat, v: nat, d: bool, a: nat,
                                      b: nat, w: nat)
    requires Drawn(nodes, t, p, ws) && Proper(t) && HasLeaf(t, n, v) && n < |nodes|
    requires a !in Nodes(t) && b !in Nodes(t) && a != b && a < |nodes| && b < |nodes|
    ensures Drawn(SplitNodes(nodes, ws, n, d, a, b, v, w), SplitLeaf(t, n, d, a, b, w), p, ws)
  {
    var nodes2 := SplitNodes(nodes, ws, n, d, a, b, v, w);
    if t.Branch? {
      SplitRoot(t.l, n, d, a, b, w);
      SplitRoot(t.r, n, d, a, b, w);
      if HasLeaf(t.l, n, v) {
        SplitFrame(nodes, t.l, t.r, t.n, ws, n, v, d, a, b, w);
        SplitDrawn(nodes, t.l, t.n, ws, n, v, d, a, b, w);
      } else {
        SplitFrame(nodes, t.r, t.l, t.n, ws, n, v, d, a, b, w);
        SplitDrawn(nodes, t.r, t.n, ws, n, v, d, a, b, w);
      }
      hide Nodes, HasLeaf, Proper;
    }
  }

  /** Splitting a leaf of one subtree changes neither the other subtree nor the slot above. */
  lemma SplitFrame(nodes: seq<Node>, t: Tree, other: Tree, up: nat, ws: nat, n: nat, v: nat, d: bool, a: nat, b: nat,
                   w: nat)
    requires Drawn(nodes, other, up, ws) && HasLeaf(t, n, v) && Nodes(t) !! Nodes(other) && up !in Nodes(t)
    requires n < |nodes| && a < |nodes| && b < |nodes| && up < |nodes| && up != a && up != b
    requires a !in Nodes(other) && b !in Nodes(other)
    ensures var nodes2 := SplitNodes(nodes, ws, n, d, a, b, v, w);
            Drawn(nodes2, SplitLeaf(other, n, d, a, b, w), up, ws) && nodes2[up] == nodes[up]
  {
    LeafInside(t, n, v);
    SplitElsewhere(other, n, d, a, b, w);
    DrawnFrame(nodes, SplitNodes(nodes, ws, n, d, a, b, v, w), other, up, ws);
  }

  lemma SplitRoot(t: Tree, n: nat, d: bool, a: nat, b: nat, w: nat)
    ensures SplitLeaf(t, n, d, a, b, w).n == t.n
  {
  }

  // ---- giving a leaf to another view

  ghost function Relabel(t: Tree, n: nat, v: nat): Tree {
    match t
    case Leaf(m, x) => if m == n then Leaf(n, v) else t
    case Branch(m, d, l, r) => Branch(m, d, Relabel(l, n, v), Relabel(r, n, v))
  }

  lemma {:induction false} RelabelElsewhere(t: Tree, n: nat, v: nat)
    requires n !in Nodes(t)
    ensures Relabel(t, n, v) == t
  {
    if t.Branch? {
      RelabelElsewhere(t.l, n, v);
      RelabelElsewhere(t.r, n, v);
    }
  }

  lemma {:induction false} RelabelContents(t: Tree, n: nat, x: nat, v: nat)
    requires Proper(t) && HasLeaf(t, n, x) && (v == x || v !in Views(t))
    ensures var t2 := Relabel(t, n, v);
            && Proper(t2) && HasLeaf(t2, n, v) && t2.n == t.n
            && Nodes(t2) == Nodes(t) && Views(t2) == Views(t) - {x} + {v}
  {
    if t.Branch? {
      if HasLeaf(t.l, n, x) {
        LeafInside(t.l, n, x);
        RelabelContents(t.l, n, x, v);
        RelabelElsewhere(t.r, n, v);
      } else {
        LeafInside(t.r, n, x);
        RelabelContents(t.r, n, x, v);
        RelabelElsewhere(t.l, n, v);
      }
    }
  }

  lemma {:induction false} RelabelDrawn(nodes: seq<Node>, t: Tree, p: int, ws: nat, n: nat, x: nat, v: nat)
    requires Drawn(nodes, t, p, ws) && Proper(t) && HasLeaf(t, n, x) && n < |nodes|
    ensures Drawn(nodes[n := nodes[n].(view := v)], Relabel(t, n, v), p, ws)
  {
    if t.Branch? {
      var nodes2 := nodes[n := nodes[n].(view := v)];
      var (here, other) := if HasLeaf(t.l, n, x) then (t.l, t.r) else (t.r, t.l);
      LeafInside(here, n, x);
      RelabelDrawn(nodes, here, t.n, ws, n, x, v);
      RelabelElsewhere(other, n, v);
      DrawnFrame(nodes, nodes2, other, t.n, ws);
      RelabelRoot(here, n, v);
    }
  }

  lemma RelabelRoot(t: Tree, n: nat, v: nat)
    ensures Relabel(t, n, v).n == t.n
  {
  }

  // ---- removing a leaf

  /** The leaf and its parent go; the sibling takes the parent's place. */
  ghost function Without(t: Tree, n: nat, v: nat): Tree
    requires HasLeaf(t, n, v) && t.Branch?
  {
    if HasLeaf(t.l, n, v) then
      if t.l.Leaf? then t.r else Branch(t.n, t.vertical, Without(t.l, n, v), t.r)
    else
      if t.r.Leaf? then t.l else Branch(t.n, t.vertical, t.l, Without(t.r, n, v))
  }

  /** The slot of the leaf's parent. */
  ghost function ParentOf(t: Tree, n: nat, v: nat): nat
    requires HasLeaf(t, n, v) && t.Branch?
  {
    if HasLeaf(t.l, n, v) then
      if t.l.Leaf? then t.n else ParentOf(t.l, n, v)
    else
      if t.r.Leaf? then t.n else ParentOf(t.r, n, v)
  }

  lemma {:induction false} WithoutContents(t: Tree, n: nat, v: nat)
    requires Proper(t) && HasLeaf(t, n, v) && t.Branch?
    ensures var t2 := Without(t, n, v);
            Proper(t2) && Views(t2) == Views(t) - {v} && Nodes(t2) == Nodes(t) - {n, ParentOf(t, n, v)}
    ensures n in Nodes(t) && ParentOf(t, n, v) in Nodes(t) && n != ParentOf(t, n, v)
  {
    if HasLeaf(t.l, n, v) {
      LeafInside(t.l, n, v);
      if t.l.Branch? {
        WithoutContents(t.l, n, v);
      }
    } else {
      LeafInside(t.r, n, v);
      if t.r.Branch? {
        WithoutContents(t.r, n, v);
      }
    }
  }

  /** The subtree beside the leaf. */
  ghost function Sibling(t: Tree, n: nat, v: nat): Tree
    requires HasLeaf(t, n, v) && t.Branch?
  {
    if HasLeaf(t.l, n, v) then
      if t.l.Leaf? then t.r else Sibling(t.l, n, v)
    else
      if t.r.Leaf? then t.l else Sibling(t.r, n, v)
  }

  /** The slot above the leaf's parent; p is the slot above the whole tree. */
  ghost function Grand(t: Tree, p: int, n: nat, v: nat): int
    requires HasLeaf(t, n, v) && t.Branch?
  {
    if HasLeaf(t.l, n, v) then
      if t.l.Leaf? then p else Grand(t.l, t.n, n, v)
    else
      if t.r.Leaf? then p else Grand(t.r, t.n, n, v)
  }

  ghost predicate Outside(t: Tree, p: int) {
    forall m :: m in Nodes(t) ==> m != p
  }

  /** What the pool says about the neighbourhood of a leaf is what the tree says. */
  lemma {:induction false} Neighbours(nodes: seq<Node>, t: Tree, p: int, ws: nat, n: nat, v: nat)
    requires Drawn(nodes, t, p, ws) && Proper(t) && HasLeaf(t, n, v) && t.Branch? && Outside(t, p)
    ensures n in Nodes(t) && n < |nodes| && nodes[n].parent == ParentOf(t, n, v) < |nodes|
    ensures var q := ParentOf(t, n, v);
            q in Nodes(t) && nodes[q].parent == Grand(t, p, n, v) && Sibling(t, n, v).n != n
            && Sibling(t, n, v).n == if nodes[q].a == n then nodes[q].b else nodes[q].a
    ensures var s := Sibling(t, n, v);
            s.n in Nodes(t) && s.n < |nodes| && s.n != ParentOf(t, n, v) && s.n != Grand(t, p, n, v)
    ensures Grand(t, p, n, v) == p || (Grand(t, p, n, v) >= 0 && Grand(t, p, n, v) in Nodes(t))
  {
    DrawnSlots(nodes, t, p, ws);
    DrawnSlots(nodes, t.l, t.n, ws);
    DrawnSlots(nodes, t.r, t.n, ws);
    if HasLeaf(t.l, n, v) {
      LeafInside(t.l, n, v);
      if t.l.Branch? {
        Neighbours(nodes, t.l, t.n, ws, n, v);
      }
    } else {
      LeafInside(t.r, n, v);
      if t.r.Branch? {
        Neighbours(nodes, t.r, t.n, ws, n, v);
      }
    }
  }

  /** The link of the grandparent that pointed at the parent now points at the sibling. */
  function Relinked(node: Node, from: nat, to: nat): Node {
    if node.a == from then node.(a := to) else if node.b == from then node.(b := to) else node
  }

  /** The pool after wm_layout_remove_view: one link down, one link up, two slots given back. */
  function Unlinked(nodes: seq<Node>, leaf: nat, parent: nat, sibling: nat, grand: int): seq<Node>
    requires leaf < |nodes| && parent < |nodes| && sibling < |nodes| && grand < |nodes|
  {
    var s1 := if grand < 0 then nodes else nodes[grand := Relinked(nodes[grand], parent, sibling)];
    s1[sibling := s1[sibling].(parent := grand)][leaf := BLANK][parent := BLANK]
  }

  lemma UnlinkedAt(nodes: seq<Node>, leaf: nat, parent: nat, sibling: nat, grand: int, n: nat)
    requires leaf < |nodes| && parent < |nodes| && sibling < |nodes| && grand < |nodes| && n < |nodes|
    requires leaf != parent && sibling != leaf && sibling != parent && sibling != grand && leaf != grand
             && parent != grand
    ensures Unlinked(nodes, leaf, parent, sibling, grand)[n]
         == if n == leaf || n == parent then BLANK
            else if n == sibling then nodes[n].(parent := grand)
            else if n == grand then Relinked(nodes[n], parent, sibling)
            else nodes[n]
  {
  }

  lemma {:induction false} UnlinkedDrawn(nodes: seq<Node>, nodes2: seq<Node>, t: Tree, p: int, ws: nat, n: nat, v: nat)
    requires Drawn(nodes, t, p, ws) && Proper(t) && HasLeaf(t, n, v) && t.Branch? && Outside(t, p)
    requires |nodes2| == |nodes|
    requires forall m :: m in Nodes(t) && m < |nodes| && m != n && m != ParentOf(t, n, v) ==>
               nodes2[m] == if m == Sibling(t, n, v).n then nodes[m].(parent := Grand(t, p, n, v))
                            else if m == Grand(t, p, n, v)
                              then Relinked(nodes[m], ParentOf(t, n, v), Sibling(t, n, v).n)
                            else nodes[m]
    ensures Drawn(nodes2, Without(t, n, v), p, ws)
  {
    Neighbours(nodes, t, p, ws, n, v);
    DrawnSlots(nodes, t, p, ws);
    if HasLeaf(t.l, n, v) {
      LeafInside(t.l, n, v);
      if t.l.Leaf? {
        DrawnReparent(nodes, nodes2, t.r, t.n, p, ws);
      } else {
        Neighbours(nodes, t.l, t.n, ws, n, v);
        assert Drawn(nodes2, Without(t.l, n, v), t.n, ws) by { UnlinkedDrawn(nodes, nodes2, t.l, t.n, ws, n, v); }
        assert Drawn(nodes2, t.r, t.n, ws) by { DrawnFrame(nodes, nodes2, t.r, t.n, ws); }
        WithoutRoot(t.l, n, v, t.n);
        assert nodes2[t.n] == nodes[t.n].(a := Without(t.l, n, v).n);
      }
    } else {
      LeafInside(t.r, n, v);
      if t.r.Leaf? {
        DrawnReparent(nodes, nodes2, t.l, t.n, p, ws);
      } else {
        Neighbours(nodes, t.r, t.n, ws, n, v);
        assert Drawn(nodes2, Without(t.r, n, v), t.n, ws) by { UnlinkedDrawn(nodes, nodes2, t.r, t.n, ws, n, v); }
        assert Drawn(nodes2, t.l, t.n, ws) by { DrawnFrame(nodes, nodes2, t.l, t.n, ws); }
        WithoutRoot(t.r, n, v, t.n);
        assert nodes2[t.n] == nodes[t.n].(b := Without(t.r, n, v).n);
      }
    }
    hide Nodes, Proper, Outside, Grand, Sibling, ParentOf, Relinked;
  }

  /** The root changes exactly when the parent was the root. */
  lemma WithoutRoot(t: Tree, n: nat, v: nat, p: int)
    requires HasLeaf(t, n, v) && t.Branch? && Proper(t) && Outside(t, p)
    ensures if Grand(t, p, n, v) == p then Without(t, n, v).n == Sibling(t, n, v).n && ParentOf(t, n, v) == t.n
            else Without(t, n, v).n == t.n
  {
    assert t.n in Nodes(t);
    if HasLeaf(t.l, n, v) && t.l.Branch? {
      GrandInside(t.l, t.n, n, v);
    } else if !HasLeaf(t.l, n, v) && t.r.Branch? {
      GrandInside(t.r, t.n, n, v);
    }
  }

  lemma {:induction false} GrandInside(t: Tree, p: int, n: nat, v: nat)
    requires HasLeaf(t, n, v) && t.Branch?
    ensures Grand(t, p, n, v) == p || (Grand(t, p, n, v) >= 0 && Grand(t, p, n, v) in Nodes(t))
  {
    assert t.n in Nodes(t);
    if HasLeaf(t.l, n, v) && t.l.Branch? {
      GrandInside(t.l, t.n, n, v);
    } else if !HasLeaf(t.l, n, v) && t.r.Branch? {
      GrandInside(t.r, t.n, n, v);
    }
  }
}
