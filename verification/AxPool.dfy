/** The node pool of axwm as a whole: one tree per workspace, no leaked and no shared slot. */
module AxPool {
  import opened AxTree

  /** What a workspace tiles. */
  datatype Space = Bare | Tiled(t: Tree)

  ghost function SlotsOf(s: Space): set<nat> {
    if s.Bare? then {} else Nodes(s.t)
  }

  ghost function Tiles(s: Space): set<nat> {
    if s.Bare? then {} else Views(s.t)
  }

  ghost predicate SpaceOk(nodes: seq<Node>, root: int, s: Space, ws: nat) {
    match s
    case Bare => root == -1
    case Tiled(t) => root == t.n && Drawn(nodes, t, -1, ws) && Proper(t)
  }

  /** Each workspace's root draws its tree, and the slots in use are exactly the slots of the trees. */
  ghost predicate Layout(nodes: seq<Node>, roots: seq<int>, spaces: seq<Space>) {
    && |nodes| == MAX_NODES && |roots| == |spaces| == MAX_WS
    && (forall ws: nat :: ws < MAX_WS ==> SpaceOk(nodes, roots[ws], spaces[ws], ws))
    && (forall n :: 0 <= n < MAX_NODES && nodes[n].used ==> nodes[n].ws < MAX_WS && n in SlotsOf(spaces[nodes[n].ws]))
  }

  lemma SlotsUsed(nodes: seq<Node>, root: int, s: Space, ws: nat)
    requires SpaceOk(nodes, root, s, ws)
    ensures forall n :: n in SlotsOf(s) ==> n < |nodes| && nodes[n].used && nodes[n].ws == ws
  {
    if s.Tiled? {
      DrawnSlots(nodes, s.t, -1, ws);
    }
  }

  /** A workspace none of whose slots changed is still drawn. */
  lemma SpaceFrame(nodes: seq<Node>, nodes2: seq<Node>, root: int, s: Space, ws: nat)
    requires SpaceOk(nodes, root, s, ws) && |nodes2| == |nodes|
    requires forall n :: n in SlotsOf(s) && n < |nodes| ==> nodes2[n] == nodes[n]
    ensures SpaceOk(nodes2, root, s, ws)
  {
    if s.Tiled? {
      DrawnFrame(nodes, nodes2, s.t, -1, ws);
    }
  }

  /** Replacing one workspace: its own tree is drawn anew, the changed slots were its own or free. */
  lemma LayoutReplace(nodes: seq<Node>, nodes2: seq<Node>, roots: seq<int>, spaces: seq<Space>, ws: nat, root: int,
                      s: Space)
    requires Layout(nodes, roots, spaces) && ws < MAX_WS && |nodes2| == |nodes|
    requires SpaceOk(nodes2, root, s, ws)
    requires forall n :: 0 <= n < |nodes| && nodes[n].used && n !in SlotsOf(spaces[ws]) ==> nodes2[n] == nodes[n]
    requires forall n :: 0 <= n < |nodes| && nodes2[n].used && (!nodes[n].used || n in SlotsOf(spaces[ws])) ==>
               nodes2[n].ws == ws && n in SlotsOf(s)
    ensures Layout(nodes2, roots[ws := root], spaces[ws := s])
  {
    hide SpaceOk, SlotsOf;
    var roots2, spaces2 := roots[ws := root], spaces[ws := s];
    forall w: nat | w < MAX_WS ensures SpaceOk(nodes2, roots2[w], spaces2[w], w) {
      if w != ws {
        SlotsUsed(nodes, roots[w], spaces[w], w);
        SlotsUsed(nodes, roots[ws], spaces[ws], ws);
        SpaceFrame(nodes, nodes2, roots[w], spaces[w], w);
      }
    }
    forall n | 0 <= n < MAX_NODES && nodes2[n].used
      ensures nodes2[n].ws < MAX_WS && n in SlotsOf(spaces2[nodes2[n].ws])
    {
      if nodes[n].used && n !in SlotsOf(spaces[ws]) {
        assert nodes[n].ws != ws;
      }
    }
  }

  /** wm_layout_insert_split on a leaf of the workspace. */
  lemma SplitLayout(nodes: seq<Node>, roots: seq<int>, spaces: seq<Space>, ws: nat, n: nat, v: nat, d: bool, a: nat,
                    b: nat, w: nat)
    requires Layout(nodes, roots, spaces) && ws < MAX_WS && spaces[ws].Tiled? && n < MAX_NODES
    requires HasLeaf(spaces[ws].t, n, v) && w !in Tiles(spaces[ws])
    requires a < MAX_NODES && b < MAX_NODES && a != b && !nodes[a].used && !nodes[b].used
    ensures Layout(SplitNodes(nodes, ws, n, d, a, b, v, w), roots,
            spaces[ws := Tiled(SplitLeaf(spaces[ws].t, n, d, a, b, w))])
    ensures Tiles(Tiled(SplitLeaf(spaces[ws].t, n, d, a, b, w))) == Tiles(spaces[ws]) + {w}
  {
    var t := spaces[ws].t;
    var nodes2, t2 := SplitNodes(nodes, ws, n, d, a, b, v, w), SplitLeaf(t, n, d, a, b, w);
    SlotsUsed(nodes, roots[ws], spaces[ws], ws);
    LeafInside(t, n, v);
    SplitContents(t, n, v, d, a, b, w);
    SplitDrawn(nodes, t, -1, ws, n, v, d, a, b, w);
    LayoutReplace(nodes, nodes2, roots, spaces, ws, roots[ws], Tiled(t2));
    assert roots[ws := roots[ws]] == roots;
  }

  /** A leaf of the workspace goes to another view. */
  lemma RelabelLayout(nodes: seq<Node>, roots: seq<int>, spaces: seq<Space>, ws: nat, n: nat, x: nat, v: nat)
    requires Layout(nodes, roots, spaces) && ws < MAX_WS && spaces[ws].Tiled? && n < MAX_NODES
    requires HasLeaf(spaces[ws].t, n, x) && (v == x || v !in Tiles(spaces[ws]))
    ensures Layout(nodes[n := nodes[n].(view := v)], roots, spaces[ws := Tiled(Relabel(spaces[ws].t, n, v))])
    ensures HasLeaf(Relabel(spaces[ws].t, n, v), n, v)
    ensures Tiles(Tiled(Relabel(spaces[ws].t, n, v))) == Tiles(spaces[ws]) - {x} + {v}
  {
    var t := spaces[ws].t;
    var nodes2 := nodes[n := nodes[n].(view := v)];
    SlotsUsed(nodes, roots[ws], spaces[ws], ws);
    LeafInside(t, n, x);
    RelabelContents(t, n, x, v);
    RelabelDrawn(nodes, t, -1, ws, n, x, v);
    LayoutReplace(nodes, nodes2, roots, spaces, ws, roots[ws], Tiled(Relabel(t, n, v)));
    assert roots[ws := roots[ws]] == roots;
  }

  /** What an unused slot holds does not matter. */
  lemma SpareLayout(nodes: seq<Node>, roots: seq<int>, spaces: seq<Space>, n: nat)
    requires Layout(nodes, roots, spaces) && n < MAX_NODES && !nodes[n].used
    ensures Layout(nodes[n := BLANK], roots, spaces)
  {
    hide SpaceOk, SlotsOf;
    forall ws: nat | ws < MAX_WS ensures SpaceOk(nodes[n := BLANK], roots[ws], spaces[ws], ws) {
      SlotsUsed(nodes, roots[ws], spaces[ws], ws);
      SpaceFrame(nodes, nodes[n := BLANK], roots[ws], spaces[ws], ws);
    }
  }

  function LeafNode(ws: nat, v: int): Node {
    Node(true, ws, -1, -1, -1, false, true, v)
  }

  /** The first view of a bare workspace. */
  lemma PlantLayout(nodes: seq<Node>, roots: seq<int>, spaces: seq<Space>, ws: nat, n: nat, w: nat)
    requires Layout(nodes, roots, spaces) && ws < MAX_WS && spaces[ws].Bare? && n < MAX_NODES && !nodes[n].used
    ensures Layout(nodes[n := LeafNode(ws, w)], roots[ws := n], spaces[ws := Tiled(Leaf(n, w))])
    ensures Tiles(Tiled(Leaf(n, w))) == {w}
  {
    var nodes2 := nodes[n := LeafNode(ws, w)];
    LayoutReplace(nodes, nodes2, roots, spaces, ws, n, Tiled(Leaf(n, w)));
  }

  /** The last view of a workspace goes. */
  lemma UprootLayout(nodes: seq<Node>, roots: seq<int>, spaces: seq<Space>, ws: nat)
    requires Layout(nodes, roots, spaces) && ws < MAX_WS && spaces[ws].Tiled? && spaces[ws].t.Leaf?
    ensures spaces[ws].t.n < MAX_NODES
    ensures Layout(nodes[spaces[ws].t.n := BLANK], roots[ws := -1], spaces[ws := Bare])
  {
    SlotsUsed(nodes, roots[ws], spaces[ws], ws);
    LayoutReplace(nodes, nodes[spaces[ws].t.n := BLANK], roots, spaces, ws, -1, Bare);
  }

  /** wm_layout_remove_view on a workspace with more than one view. */
  lemma RemoveLayout(nodes: seq<Node>, roots: seq<int>, spaces: seq<Space>, ws: nat, n: nat, v: nat,
                     parent: nat, sibling: nat, grand: int)
    requires Layout(nodes, roots, spaces) && ws < MAX_WS && spaces[ws].Tiled? && spaces[ws].t.Branch?
    requires HasLeaf(spaces[ws].t, n, v)
    requires parent == ParentOf(spaces[ws].t, n, v) && sibling == Sibling(spaces[ws].t, n, v).n
    requires grand == Grand(spaces[ws].t, -1, n, v)
    ensures n < MAX_NODES && parent < MAX_NODES && sibling < MAX_NODES && grand < MAX_NODES
    ensures Layout(Unlinked(nodes, n, parent, sibling, grand), if grand < 0 then roots[ws := sibling] else roots,
                   spaces[ws := Tiled(Without(spaces[ws].t, n, v))])
    ensures Tiles(Tiled(Without(spaces[ws].t, n, v))) == Tiles(spaces[ws]) - {v}
  {
    var t := spaces[ws].t;
    Neighbours(nodes, t, -1, ws, n, v);
    SlotsUsed(nodes, roots[ws], spaces[ws], ws);
    WithoutContents(t, n, v);
    WithoutRoot(t, n, v, -1);
    var nodes2 := Unlinked(nodes, n, parent, sibling, grand);
    LeafIsNotGrand(nodes, t, -1, ws, n, v);
    forall m: nat | m < |nodes| ensures nodes2[m] == if m == n || m == parent then BLANK
            else if m == sibling then nodes[m].(parent := grand)
            else if m == grand then Relinked(nodes[m], parent, sibling)
            else nodes[m]
    {
      UnlinkedAt(nodes, n, parent, sibling, grand, m);
    }
    UnlinkedDrawn(nodes, nodes2, t, -1, ws, n, v);
    LayoutReplace(nodes, nodes2, roots, spaces, ws, Without(t, n, v).n, Tiled(Without(t, n, v)));
    assert roots[ws := roots[ws]] == roots;
  }

  lemma {:induction false} LeafIsNotGrand(nodes: seq<Node>, t: Tree, p: int, ws: nat, n: nat, v: nat)
    requires Drawn(nodes, t, p, ws) && Proper(t) && HasLeaf(t, n, v) && t.Branch? && Outside(t, p)
    ensures Grand(t, p, n, v) != n && Grand(t, p, n, v) != ParentOf(t, n, v)
  {
    LeafInside(t, n, v);
    WithoutContents(t, n, v);
    if HasLeaf(t.l, n, v) && t.l.Branch? {
      LeafIsNotGrand(nodes, t.l, t.n, ws, n, v);
    } else if !HasLeaf(t.l, n, v) && t.r.Branch? {
      LeafIsNotGrand(nodes, t.r, t.n, ws, n, v);
    }
  }

  // ---- why the pool never runs out

  lemma {:induction false} TreeCount(t: Tree)
    requires Proper(t)
    ensures |Nodes(t)| == 2 * |Views(t)| - 1
  {
    if t.Branch? {
      TreeCount(t.l);
      TreeCount(t.r);
      assert |Nodes(t.l) + Nodes(t.r)| == |Nodes(t.l)| + |Nodes(t.r)|;
      assert Nodes(t) == {t.n} + (Nodes(t.l) + Nodes(t.r));
    }
  }

  ghost function AllSlots(spaces: seq<Space>): set<nat> {
    if spaces == [] then {} else AllSlots(spaces[..|spaces| - 1]) + SlotsOf(spaces[|spaces| - 1])
  }

  ghost function AllTiles(spaces: seq<Space>): set<nat> {
    if spaces == [] then {} else AllTiles(spaces[..|spaces| - 1]) + Tiles(spaces[|spaces| - 1])
  }

  /** Every view is tiled on one workspace at most. */
  ghost predicate Apart(spaces: seq<Space>) {
    forall i, j, v :: 0 <= i < j < |spaces| && v in Tiles(spaces[i]) ==> v !in Tiles(spaces[j])
  }

  lemma {:induction false} AllTilesIn(spaces: seq<Space>)
    ensures forall v :: v in AllTiles(spaces) ==> exists i :: 0 <= i < |spaces| && v in Tiles(spaces[i])
    ensures forall i, v :: 0 <= i < |spaces| && v in Tiles(spaces[i]) ==> v in AllTiles(spaces)
    ensures forall i, n :: 0 <= i < |spaces| && n in SlotsOf(spaces[i]) ==> n in AllSlots(spaces)
  {
    if spaces != [] {
      var front := spaces[..|spaces| - 1];
      AllTilesIn(front);
      forall v | v in AllTiles(spaces) ensures exists i :: 0 <= i < |spaces| && v in Tiles(spaces[i]) {
        if v !in Tiles(spaces[|spaces| - 1]) {
          assert v in AllTiles(front);
          var i :| 0 <= i < |front| && v in Tiles(front[i]);
          assert v in Tiles(spaces[i]);
        }
      }
    }
  }

  lemma {:induction false} CountSpaces(spaces: seq<Space>)
    requires Apart(spaces) && forall i :: 0 <= i < |spaces| && spaces[i].Tiled? ==> Proper(spaces[i].t)
    ensures |AllSlots(spaces)| <= 2 * |AllTiles(spaces)|
  {
    if spaces != [] {
      var front, last := spaces[..|spaces| - 1], spaces[|spaces| - 1];
      CountSpaces(front);
      AllTilesIn(front);
      assert AllTiles(front) !! Tiles(last);
      if last.Tiled? {
        TreeCount(last.t);
      }
      assert |AllTiles(spaces)| == |AllTiles(front)| + |Tiles(last)|;
      assert |AllSlots(spaces)| <= |AllSlots(front)| + |SlotsOf(last)|;
    }
  }

  lemma {:induction false} Bounded(s: set<nat>, n: nat)
    requires forall x :: x in s ==> x < n
    ensures |s| <= n
  {
    if n > 0 {
      Bounded(s - {n - 1}, n - 1);
      assert |s| <= |s - {n - 1}| + 1;
    }
  }

  /** With one of the 64 views not yet tiled, at least two slots are free. */
  lemma RoomForTwo(nodes: seq<Node>, roots: seq<int>, spaces: seq<Space>, pending: nat) returns (a: nat, b: nat)
    requires Layout(nodes, roots, spaces) && Apart(spaces) && pending < MAX_VIEWS
    requires forall ws, v :: 0 <= ws < MAX_WS && v in Tiles(spaces[ws]) ==> v < MAX_VIEWS && v != pending
    ensures a < b < MAX_NODES && !nodes[a].used && !nodes[b].used
  {
    hide AllTiles, AllSlots, Tiles, SlotsOf, Drawn, Proper;
    AllTilesIn(spaces);
    assert forall ws: nat :: ws < MAX_WS ==> SpaceOk(nodes, roots[ws], spaces[ws], ws);
    CountSpaces(spaces);
    Bounded(AllTiles(spaces) + {pending}, MAX_VIEWS);
    assert |AllTiles(spaces) + {pending}| == |AllTiles(spaces)| + 1;
    a, b := TwoOutside(AllSlots(spaces), MAX_NODES);
  }

  lemma TwoOutside(s: set<nat>, n: nat) returns (a: nat, b: nat)
    requires |s| + 2 <= n
    ensures a < b < n && a !in s && b !in s
  {
    hide Upto;
    UptoSize(n);
    var free := Upto(n) - s;
    SubsetSize(Upto(n), free + s);
    a :| a in free;
    assert |free - {a}| == |free| - 1;
    b :| b in free - {a};
    if b < a {
      a, b := b, a;
    }
  }

  ghost function Upto(n: nat): set<nat> {
    if n == 0 then {} else Upto(n - 1) + {n - 1}
  }

  lemma {:induction false} UptoSize(n: nat)
    ensures |Upto(n)| == n && forall m: nat :: m in Upto(n) <==> m < n
  {
    if n > 0 {
      UptoSize(n - 1);
    }
  }

  lemma {:induction false} SubsetSize<T>(a: set<T>, b: set<T>)
    requires a <= b
    ensures |a| <= |b|
  {
    if x :| x in a {
      SubsetSize(a - {x}, b - {x});
    }
  }
}
