/** The layout half of the axwm state: node pool, roots and the operations on them. */
module AxLayout {
  import opened AxTree
  import opened AxPool
  import opened AxShape
  import opened AxViews

  ghost predicate OneFree(nodes: seq<Node>) {
    exists n :: 0 <= n < |nodes| && !nodes[n].used
  }

  ghost predicate TwoFree(nodes: seq<Node>) {
    exists a, b :: 0 <= a < b < |nodes| && !nodes[a].used && !nodes[b].used
  }

  /** View v stands where x stood, with w beside it. */
  ghost predicate TookOver(s: Space, s2: Space, x: nat, v: nat, w: nat, vertical: bool) {
    && Tiles(s2) == Tiles(s) - {x} + {v, w}
    && SpaceShape(s2) == Beside(Renamed(SpaceShape(s), x, v), v, vertical, w)
  }

  /**
   * What splitting beside v does: on a bare workspace w stands alone; else v's leaf is split, or, when v has
   * none, some leaf, which v takes over. Without free slots nothing happens.
   */
  ghost predicate SplitIn(s: Space, s2: Space, nodes: seq<Node>, v: nat, w: nat, vertical: bool) {
    if s.Bare? then if OneFree(nodes) then SpaceShape(s2) == One(w) && Tiles(s2) == {w} else s2 == s
    else if TwoFree(nodes) then
      exists x :: x in Tiles(s) && (v in Tiles(s) ==> x == v) && TookOver(s, s2, x, v, w, vertical)
    else s2 == s
  }

  class LayoutState {
    const nodes: array<Node>
    const roots: array<int>
    /** The trees the pool draws. */
    ghost var spaces: seq<Space>

    ghost predicate Valid()
      reads this, nodes, roots
    {
      nodes as object != roots as object && Layout(nodes[..], roots[..], spaces)
    }

    constructor ()
      ensures Valid() && fresh(nodes) && fresh(roots)
      ensures spaces == [Bare, Bare, Bare, Bare, Bare]
    {
      nodes := new Node[MAX_NODES](_ => BLANK);
      roots := new int[MAX_WS](_ => -1);
      spaces := [Bare, Bare, Bare, Bare, Bare];
    }

    /** First fit; -1 only when every slot is taken. */
    method AllocNode(ws: nat) returns (n: int)
      modifies nodes
      ensures -1 <= n < nodes.Length
      ensures n >= 0 ==> !old(nodes[n]).used && nodes[..] == old(nodes[..])[n := LeafNode(ws, -1)]
      ensures n < 0 ==> nodes[..] == old(nodes[..]) && forall i :: 0 <= i < nodes.Length ==> nodes[i].used
    {
      for i := 0 to nodes.Length
        invariant nodes[..] == old(nodes[..]) && forall j :: 0 <= j < i ==> nodes[j].used
      {
        if !nodes[i].used {
          nodes[i] := LeafNode(ws, -1);
          return i;
        }
      }
      return -1;
    }

    method FreeNode(n: int)
      modifies nodes
      ensures nodes[..] == if 0 <= n < nodes.Length then old(nodes[..])[n := BLANK] else old(nodes[..])
    {
      if 0 <= n < nodes.Length {
        nodes[n] := BLANK;
      }
    }

    /** The slot of a view's leaf on a workspace; -1 when there is none. */
    method FindLeaf(ws: nat, v: int) returns (n: int)
      ensures -1 <= n < nodes.Length
      ensures n >= 0 ==> IsLeafFor(nodes[n], ws) && nodes[n].view == v
      ensures n < 0 ==> forall i :: 0 <= i < nodes.Length ==> !(IsLeafFor(nodes[i], ws) && nodes[i].view == v)
    {
      for i := 0 to nodes.Length
        invariant forall j :: 0 <= j < i ==> !(IsLeafFor(nodes[j], ws) && nodes[j].view == v)
      {
        if IsLeafFor(nodes[i], ws) && nodes[i].view == v {
          return i;
        }
      }
      return -1;
    }

    method FindAnyLeaf(ws: nat) returns (n: int)
      ensures -1 <= n < nodes.Length
      ensures n >= 0 ==> IsLeafFor(nodes[n], ws) && nodes[n].view >= 0
      ensures n < 0 ==> forall i :: 0 <= i < nodes.Length ==> !(IsLeafFor(nodes[i], ws) && nodes[i].view >= 0)
    {
      for i := 0 to nodes.Length
        invariant forall j :: 0 <= j < i ==> !(IsLeafFor(nodes[j], ws) && nodes[j].view >= 0)
      {
        if IsLeafFor(nodes[i], ws) && nodes[i].view >= 0 {
          return i;
        }
      }
      return -1;
    }

    /** Takes a view's leaf out of a workspace; a view without a leaf there changes nothing. */
    method RemoveView(ws: nat, v: nat)
      requires Valid() && ws < MAX_WS
      modifies nodes, roots, `spaces
      ensures Valid() && |spaces| == |old(spaces)| == MAX_WS
      ensures spaces == old(spaces)[ws := spaces[ws]] && Tiles(spaces[ws]) == Tiles(old(spaces)[ws]) - {v}
      ensures SpaceShape(spaces[ws]) == Gone(SpaceShape(old(spaces)[ws]), v)
    {
      hide Layout, SpaceShape, Gone;
      var leaf := FindLeaf(ws, v);
      LeafFound(nodes[..], roots[..], spaces, ws, v, leaf);
      if leaf < 0 {
        NotThere(spaces[ws], v);
        return;
      }
      GoneShape(nodes[..], roots[..], spaces, ws, leaf, v);
      var parent := nodes[leaf].parent;
      Surroundings(nodes[..], roots[..], spaces, ws, v, leaf);
      if parent < 0 {
        FreeNode(leaf);
        roots[ws] := -1;
        UprootLayout(old(nodes[..]), old(roots[..]), spaces, ws);
        spaces := spaces[ws := Bare];
        return;
      }
      var sibling := if nodes[parent].a == leaf then nodes[parent].b else nodes[parent].a;
      var grand := nodes[parent].parent;
      RemoveLayout(nodes[..], roots[..], spaces, ws, leaf, v, parent, sibling, grand);
      if grand < 0 {
        roots[ws] := sibling;
      } else if nodes[grand].a == parent {
        nodes[grand] := nodes[grand].(a := sibling);
      } else if nodes[grand].b == parent {
        nodes[grand] := nodes[grand].(b := sibling);
      }
      nodes[sibling] := nodes[sibling].(parent := grand);
      FreeNode(leaf);
      FreeNode(parent);
      assert nodes[..] == Unlinked(old(nodes[..]), leaf, parent, sibling, grand);
      assert roots[..] == if grand < 0 then old(roots[..])[ws := sibling] else old(roots[..]);
      spaces := spaces[ws := Tiled(Without(spaces[ws].t, leaf, v))];
    }

    /** Two free slots, one after the other; what it took goes back when there are not two. */
    method AllocTwo(ws: nat) returns (a: int, b: int)
      requires Valid()
      modifies nodes
      ensures -1 <= a < nodes.Length && -1 <= b < nodes.Length && (a < 0 || b < 0 ==> Valid())
      ensures a >= 0 && b >= 0 <==> TwoFree(old(nodes[..]))
      ensures a >= 0 && b >= 0 ==>
                a != b && !old(nodes[a]).used && !old(nodes[b]).used
                  && nodes[..] == old(nodes[..])[a := LeafNode(ws, -1)][b := LeafNode(ws, -1)]
    {
      hide Layout;
      SpacesAre(nodes[..], roots[..], spaces);
      a := AllocNode(ws);
      b := AllocNode(ws);
      if a < 0 || b < 0 {
        assert forall i :: 0 <= i < nodes.Length && i != a ==> nodes[i].used && nodes[i] == old(nodes[..])[i];
        FreeNode(a);
        FreeNode(b);
        if a >= 0 {
          SpareLayout(old(nodes[..]), roots[..], spaces, a);
          assert nodes[..] == old(nodes[..])[a := BLANK];
        } else {
          assert nodes[..] == old(nodes[..]);
        }
      } else {
        assert !old(nodes[..])[a].used && !old(nodes[..])[b].used;
      }
    }

    /** Splits a view's leaf in two, the view first and the new one second. */
    method InsertSplit(ws: nat, v: nat, w: nat, vertical: bool)
      requires Valid() && ws < MAX_WS && v != w && w !in Tiles(spaces[ws])
      modifies nodes, roots, `spaces
      ensures Valid() && |spaces| == |old(spaces)| == MAX_WS && spaces == old(spaces)[ws := spaces[ws]]
      ensures SplitIn(old(spaces)[ws], spaces[ws], old(nodes[..]), v, w, vertical)
    {
      hide Layout, Beside, Renamed, TwoFree, OneFree, TookOver;
      SpacesAre(nodes[..], roots[..], spaces);
      var leaf := FindLeaf(ws, v);
      LeafFound(nodes[..], roots[..], spaces, ws, v, leaf);
      if leaf < 0 {
        leaf := FindAnyLeaf(ws);
        SomeLeaf(nodes[..], roots[..], spaces, ws, leaf);
      }
      if leaf < 0 {
        Plant(ws, w);
      } else {
        SplitAt(ws, leaf, v, w, vertical);
      }
    }

    /** The first leaf of a bare workspace, if a slot is free. */
    method Plant(ws: nat, w: nat)
      requires Valid() && ws < MAX_WS && spaces[ws].Bare?
      modifies nodes, roots, `spaces
      ensures Valid() && |spaces| == |old(spaces)| == MAX_WS && spaces == old(spaces)[ws := spaces[ws]]
      ensures if OneFree(old(nodes[..])) then spaces[ws].Tiled? && spaces[ws].t.Leaf? && spaces[ws].t.v == w
              else spaces == old(spaces)
    {
      hide Layout;
      SpacesAre(nodes[..], roots[..], spaces);
      var n := AllocNode(ws);
      if n < 0 {
        return;
      }
      PlantLayout(old(nodes[..]), roots[..], spaces, ws, n, w);
      nodes[n] := nodes[n].(split := false, view := w);
      roots[ws] := n;
      assert nodes[..] == old(nodes[..])[n := LeafNode(ws, w)];
      assert roots[..] == old(roots[..])[ws := n];
      spaces := spaces[ws := Tiled(Leaf(n, w))];
    }

    /** Splits a leaf between two views, whatever view it had. */
    method SplitAt(ws: nat, leaf: nat, v: nat, w: nat, vertical: bool)
      requires Valid() && ws < MAX_WS && v != w && w !in Tiles(spaces[ws]) && spaces[ws].Tiled?
      requires leaf < nodes.Length && nodes[leaf].view >= 0 && HasLeaf(spaces[ws].t, leaf, nodes[leaf].view)
      requires v == nodes[leaf].view || v !in Tiles(spaces[ws])
      modifies nodes, `spaces
      ensures Valid() && |spaces| == |old(spaces)| == MAX_WS && spaces == old(spaces)[ws := spaces[ws]]
      ensures !TwoFree(old(nodes[..])) ==> spaces == old(spaces)
      ensures TwoFree(old(nodes[..])) ==> TookOver(old(spaces)[ws], spaces[ws], old(nodes[leaf]).view, v, w, vertical)
    {
      hide Layout, SpaceShape, Beside, Renamed, TwoFree;
      SpacesAre(nodes[..], roots[..], spaces);
      ghost var x := nodes[leaf].view;
      LeafSlot(nodes[..], roots[..], spaces, ws, leaf, x);
      var a, b := AllocTwo(ws);
      if a < 0 || b < 0 {
        return;
      }
      ghost var named := old(nodes[..])[leaf := old(nodes[leaf]).(view := v)];
      ghost var mid := Tiled(Relabel(spaces[ws].t, leaf, v));
      RelabelLayout(old(nodes[..]), roots[..], spaces, ws, leaf, x, v);
      TookOverIs(old(nodes[..]), roots[..], spaces, ws, leaf, x, v, vertical, a, b, w);
      SplitLayout(named, roots[..], spaces[ws := mid], ws, leaf, v, vertical, a, b, w);
      nodes[a] := nodes[a].(split := false, view := v, parent := leaf);
      nodes[b] := nodes[b].(split := false, view := w, parent := leaf);
      nodes[leaf] := nodes[leaf].(split := true, view := -1, a := a, b := b, vertical := vertical);
      assert nodes[..] == SplitNodes(named, ws, leaf, vertical, a, b, v, w);
      assert spaces[ws := mid][ws := Tiled(SplitLeaf(mid.t, leaf, vertical, a, b, w))]
             == spaces[ws := Tiled(SplitLeaf(mid.t, leaf, vertical, a, b, w))];
      spaces := spaces[ws := Tiled(SplitLeaf(mid.t, leaf, vertical, a, b, w))];
    }

    /**
     * Gives a view its leaf: as the root of a bare workspace, else beside the preferred view or
     * any tiled one. The pool has room, because at most 63 of the 64 views are tiled.
     */
    method Place(ws: nat, prefer: int, w: nat, vertical: nat -> bool, ghost views: seq<View>)
      requires Valid() && ws < MAX_WS && w < MAX_VIEWS && Exact(views, spaces, w)
      requires prefer == -1 || (0 <= prefer && prefer in Tiles(spaces[ws]))
      modifies nodes, roots, `spaces
      ensures Valid() && |spaces| == |old(spaces)| == MAX_WS
      ensures spaces == old(spaces)[ws := spaces[ws]] && Tiles(spaces[ws]) == Tiles(old(spaces)[ws]) + {w}
      ensures Came(old(spaces)[ws], spaces[ws], prefer, w, vertical)
    {
      hide Layout, Exact, Beside;
      Room(nodes[..], roots[..], spaces, views, w);
      RootMeans(nodes[..], roots[..], spaces, ws);
      if roots[ws] < 0 {
        Plant(ws, w);
      } else {
        var splitOn := prefer;
        if splitOn < 0 {
          var leaf := FindAnyLeaf(ws);
          AnyLeaf(nodes[..], roots[..], spaces, ws, leaf);
          splitOn := nodes[leaf].view;
        }
        InsertSplit(ws, splitOn, w, vertical(splitOn));
        SplitBeside(old(spaces)[ws], spaces[ws], old(nodes[..]), splitOn, w, vertical(splitOn));
      }
    }
  }

  predicate IsLeafFor(node: Node, ws: nat) {
    node.used && node.ws == ws && !node.split
  }

  lemma GoneShape(nodes: seq<Node>, roots: seq<int>, spaces: seq<Space>, ws: nat, leaf: nat, v: nat)
    requires Layout(nodes, roots, spaces) && ws < MAX_WS && spaces[ws].Tiled? && HasLeaf(spaces[ws].t, leaf, v)
    ensures spaces[ws].t.Leaf? ==> Gone(SpaceShape(spaces[ws]), v) == SpaceShape(Bare)
    ensures spaces[ws].t.Branch? ==>
              SpaceShape(Tiled(Without(spaces[ws].t, leaf, v))) == Gone(SpaceShape(spaces[ws]), v)
  {
    assert SpaceOk(nodes, roots[ws], spaces[ws], ws);
    hide Layout, Drawn;
    if spaces[ws].t.Branch? {
      WithoutShape(spaces[ws].t, leaf, v);
    }
  }

  lemma TookOverIs(nodes: seq<Node>, roots: seq<int>, spaces: seq<Space>, ws: nat, leaf: nat, x: nat, v: nat, d: bool,
                   a: nat, b: nat, w: nat)
    requires Layout(nodes, roots, spaces) && ws < MAX_WS && spaces[ws].Tiled? && HasLeaf(spaces[ws].t, leaf, x)
             && leaf < MAX_NODES
    requires (v == x || v !in Tiles(spaces[ws])) && w !in Tiles(spaces[ws]) && v != w
    requires a < MAX_NODES && b < MAX_NODES && a != b && !nodes[a].used && !nodes[b].used
    ensures TookOver(spaces[ws], Tiled(SplitLeaf(Relabel(spaces[ws].t, leaf, v), leaf, d, a, b, w)), x, v, w, d)
  {
    var t := spaces[ws].t;
    assert SpaceOk(nodes, roots[ws], spaces[ws], ws);
    SlotsUsed(nodes, roots[ws], spaces[ws], ws);
    hide Layout, Drawn;
    RelabelContents(t, leaf, x, v);
    RelabelShape(t, leaf, x, v);
    SplitContents(Relabel(t, leaf, v), leaf, v, d, a, b, w);
    SplitShape(Relabel(t, leaf, v), leaf, v, d, a, b, w);
  }

  /** Beside a view that has its leaf, nothing is taken over. */
  lemma SplitBeside(s: Space, s2: Space, nodes: seq<Node>, v: nat, w: nat, d: bool)
    requires SplitIn(s, s2, nodes, v, w, d) && v in Tiles(s) && TwoFree(nodes)
    ensures Tiles(s2) == Tiles(s) + {w} && SpaceShape(s2) == Beside(SpaceShape(s), v, d, w)
  {
    RenamedSelf(SpaceShape(s), v);
  }

  lemma SpacesAre(nodes: seq<Node>, roots: seq<int>, spaces: seq<Space>)
    requires Layout(nodes, roots, spaces)
    ensures |spaces| == MAX_WS == |roots| && |nodes| == MAX_NODES
  {
  }

  lemma LeafSlot(nodes: seq<Node>, roots: seq<int>, spaces: seq<Space>, ws: nat, leaf: nat, x: nat)
    requires Layout(nodes, roots, spaces) && ws < MAX_WS && spaces[ws].Tiled? && HasLeaf(spaces[ws].t, leaf, x)
             && leaf < |nodes|
    ensures nodes[leaf].used
  {
    SlotsUsed(nodes, roots[ws], spaces[ws], ws);
    LeafInside(spaces[ws].t, leaf, x);
  }

  /** Any leaf of the workspace, and none exactly when it is bare. */
  lemma SomeLeaf(nodes: seq<Node>, roots: seq<int>, spaces: seq<Space>, ws: nat, leaf: int)
    requires Layout(nodes, roots, spaces) && ws < MAX_WS && -1 <= leaf < |nodes|
    requires leaf >= 0 ==> IsLeafFor(nodes[leaf], ws) && nodes[leaf].view >= 0
    requires leaf < 0 ==> forall i :: 0 <= i < |nodes| ==> !(IsLeafFor(nodes[i], ws) && nodes[i].view >= 0)
    ensures leaf < 0 <==> spaces[ws].Bare?
    ensures leaf >= 0 ==>
              && spaces[ws].Tiled? && HasLeaf(spaces[ws].t, leaf, nodes[leaf].view)
              && nodes[leaf].view in Tiles(spaces[ws])
  {
    if leaf >= 0 {
      LeafFound(nodes, roots, spaces, ws, nodes[leaf].view, leaf);
    } else if spaces[ws].Tiled? {
      AnyLeaf(nodes, roots, spaces, ws, leaf);
    }
  }

  /** What the search for a leaf found: the view's leaf in the tree, or that it has none. */
  lemma LeafFound(nodes: seq<Node>, roots: seq<int>, spaces: seq<Space>, ws: nat, v: nat, leaf: int)
    requires Layout(nodes, roots, spaces) && ws < MAX_WS && -1 <= leaf < |nodes|
    requires leaf >= 0 ==> IsLeafFor(nodes[leaf], ws) && nodes[leaf].view == v
    requires leaf < 0 ==> forall i :: 0 <= i < |nodes| ==> !(IsLeafFor(nodes[i], ws) && nodes[i].view == v)
    ensures |spaces| == |roots| == MAX_WS && |nodes| == MAX_NODES
    ensures leaf >= 0 ==> spaces[ws].Tiled? && HasLeaf(spaces[ws].t, leaf, v)
    ensures leaf < 0 <==> v !in Tiles(spaces[ws])
  {
    assert SpaceOk(nodes, roots[ws], spaces[ws], ws);
    if leaf >= 0 {
      SlotIsLeaf(nodes, spaces[ws].t, -1, ws, leaf);
    } else if v in Tiles(spaces[ws]) {
      var n := LeafOf(nodes, spaces[ws].t, -1, ws, v);
    }
  }

  /** The slots around a leaf are the ones the tree names. */
  lemma Surroundings(nodes: seq<Node>, roots: seq<int>, spaces: seq<Space>, ws: nat, v: nat, leaf: nat)
    requires Layout(nodes, roots, spaces) && ws < MAX_WS && leaf < |nodes|
    requires spaces[ws].Tiled? && HasLeaf(spaces[ws].t, leaf, v)
    ensures nodes[leaf].parent < |nodes|
    ensures nodes[leaf].parent < 0 <==> spaces[ws].t.Leaf?
    ensures spaces[ws].t.Leaf? ==> leaf == spaces[ws].t.n && Tiles(spaces[ws]) == {v}
    ensures spaces[ws].t.Branch? ==>
              var t, q := spaces[ws].t, nodes[leaf].parent;
              q == ParentOf(t, leaf, v) && nodes[q].parent == Grand(t, -1, leaf, v)
              && Sibling(t, leaf, v).n == if nodes[q].a == leaf then nodes[q].b else nodes[q].a
  {
    assert SpaceOk(nodes, roots[ws], spaces[ws], ws);
    if spaces[ws].t.Branch? {
      Neighbours(nodes, spaces[ws].t, -1, ws, leaf, v);
    }
  }

  lemma Room(nodes: seq<Node>, roots: seq<int>, spaces: seq<Space>, views: seq<View>, w: nat)
    requires Layout(nodes, roots, spaces) && Exact(views, spaces, w) && w < MAX_VIEWS
    ensures TwoFree(nodes) && |nodes| == MAX_NODES && |roots| == |spaces| == MAX_WS
    ensures forall ws: nat :: ws < MAX_WS ==> w !in Tiles(spaces[ws])
  {
    ExactApart(views, spaces, w);
    var a, b := RoomForTwo(nodes, roots, spaces, w);
  }

  lemma RootMeans(nodes: seq<Node>, roots: seq<int>, spaces: seq<Space>, ws: nat)
    requires Layout(nodes, roots, spaces) && ws < MAX_WS
    ensures roots[ws] < 0 <==> spaces[ws].Bare?
  {
    assert SpaceOk(nodes, roots[ws], spaces[ws], ws);
  }

  /** A workspace with a root has a leaf to split. */
  lemma AnyLeaf(nodes: seq<Node>, roots: seq<int>, spaces: seq<Space>, ws: nat, leaf: int)
    requires Layout(nodes, roots, spaces) && ws < MAX_WS && spaces[ws].Tiled? && -1 <= leaf < |nodes|
    requires leaf >= 0 ==> IsLeafFor(nodes[leaf], ws) && nodes[leaf].view >= 0
    requires leaf < 0 ==> forall i :: 0 <= i < |nodes| ==> !(IsLeafFor(nodes[i], ws) && nodes[i].view >= 0)
    ensures leaf >= 0 && nodes[leaf].view in Tiles(spaces[ws])
  {
    var t := spaces[ws].t;
    assert SpaceOk(nodes, roots[ws], spaces[ws], ws);
    if leaf >= 0 {
      SlotIsLeaf(nodes, t, -1, ws, leaf);
    } else {
      var v := SomeView(t);
      var n := LeafOf(nodes, t, -1, ws, v);
    }
  }

  lemma {:induction false} SomeView(t: Tree) returns (v: nat)
    ensures v in Views(t)
  {
    if t.Leaf? {
      v := t.v;
    } else {
      v := SomeView(t.l);
    }
  }
}
