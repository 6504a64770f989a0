/** The view slots of axwm and how they relate to the tiling trees. */
module AxViews {
  import opened AxTree
  import AxPool

  const BAR := 0x8000_0001

  datatype View = View(client: nat, surface: nat, ws: nat, mapped: bool, floating: bool, focused: bool, hidden: bool,
    ui: bool,
                       x: int, y: int, w: nat, h: nat, lastX: int, lastY: int)

  /** An empty slot, all zero. */
  const NO_VIEW := View(0, 0, 0, false, false, false, false, false, 0, 0, 0, 0, 0, 0)

  predicate IsTiled(v: View) {
    v.mapped && !v.ui && !v.floating
  }

  /** Mapped views sit on a workspace; only the bar surface is marked as the user interface, and floats then. */
  predicate ViewOk(v: View) {
    v.mapped ==> v.ws < MAX_WS && v.surface != 0 && (v.ui ==> v.surface == BAR && v.floating)
  }

  ghost predicate ViewsOk(views: seq<View>) {
    |views| == MAX_VIEWS && forall i :: 0 <= i < MAX_VIEWS ==> ViewOk(views[i])
  }

  /** The leaves of each workspace are exactly its tiled views; one view may be on its way in or out. */
  ghost predicate Exact(views: seq<View>, spaces: seq<AxPool.Space>, pending: int) {
    && |views| == MAX_VIEWS && |spaces| == MAX_WS
    && forall ws: nat, i: nat {:trigger i in AxPool.Tiles(spaces[ws])} :: ws < MAX_WS ==>
         (i in AxPool.Tiles(spaces[ws]) <==> i < MAX_VIEWS && IsTiled(views[i]) && views[i].ws == ws && i != pending)
  }

  /** Only placement, visibility and the focus mark may differ. */
  predicate Alike(v: View, v2: View) {
    v2 == v.(x := v2.x, y := v2.y, w := v2.w, h := v2.h, lastX := v2.lastX, lastY := v2.lastY, hidden := v2.hidden,
      focused := v2.focused)
  }

  ghost predicate Same(views: seq<View>, views2: seq<View>) {
    |views| == |views2| && forall i :: 0 <= i < |views| ==> Alike(views[i], views2[i])
  }

  lemma SameTrans(views: seq<View>, views2: seq<View>, views3: seq<View>)
    requires Same(views, views2) && Same(views2, views3)
    ensures Same(views, views3)
  {
    assert forall i :: 0 <= i < |views| ==> Alike(views[i], views2[i]) && Alike(views2[i], views3[i]);
  }

  lemma SameUpdate(views: seq<View>, i: nat, v: View)
    requires i < |views| && Alike(views[i], v)
    ensures Same(views, views[i := v])
  {
  }

  lemma SameKeeps(views: seq<View>, views2: seq<View>, spaces: seq<AxPool.Space>, pending: int)
    requires Same(views, views2)
    ensures Exact(views, spaces, pending) <==> Exact(views2, spaces, pending)
    ensures ViewsOk(views) <==> ViewsOk(views2)
  {
    assert forall i :: 0 <= i < |views| ==> Alike(views[i], views2[i]);
  }

  lemma ExactApart(views: seq<View>, spaces: seq<AxPool.Space>, pending: int)
    requires Exact(views, spaces, pending)
    ensures AxPool.Apart(spaces)
    ensures forall ws, v :: 0 <= ws < MAX_WS && v in AxPool.Tiles(spaces[ws]) ==> v < MAX_VIEWS && v != pending
  {
  }

  /** A view on its way may become anything. */
  lemma ExactChange(views: seq<View>, spaces: seq<AxPool.Space>, i: nat, v: View)
    requires Exact(views, spaces, i) && i < MAX_VIEWS
    ensures Exact(views[i := v], spaces, i)
    ensures !IsTiled(v) ==> Exact(views[i := v], spaces, -1)
  {
  }

  lemma ExactUntiled(views: seq<View>, spaces: seq<AxPool.Space>, i: nat)
    requires i < |views| && !IsTiled(views[i])
    ensures Exact(views, spaces, -1) <==> Exact(views, spaces, i)
  {
  }

  lemma ExactRemoved(views: seq<View>, spaces: seq<AxPool.Space>, i: nat, s: AxPool.Space)
    requires Exact(views, spaces, -1) && i < MAX_VIEWS && views[i].ws < MAX_WS
    requires AxPool.Tiles(s) == AxPool.Tiles(spaces[views[i].ws]) - {i}
    ensures Exact(views, spaces[views[i].ws := s], i)
  {
  }

  lemma ExactPlaced(views: seq<View>, spaces: seq<AxPool.Space>, i: nat, s: AxPool.Space)
    requires Exact(views, spaces, i) && i < MAX_VIEWS && IsTiled(views[i]) && views[i].ws < MAX_WS
    requires AxPool.Tiles(s) == AxPool.Tiles(spaces[views[i].ws]) + {i}
    ensures Exact(views, spaces[views[i].ws := s], -1)
  {
  }

  /**
   * Taking a view out of tiling, by a mark or by emptying its slot, is sound without its leaf going exactly
   * when it has none.
   */
  lemma ExactMark(views: seq<View>, spaces: seq<AxPool.Space>, i: nat, v: View)
    requires Exact(views, spaces, -1) && i < MAX_VIEWS && ViewOk(views[i]) && !IsTiled(v)
    ensures Exact(views[i := v], spaces, -1) <==> !IsTiled(views[i])
  {
    if IsTiled(views[i]) {
      assert i in AxPool.Tiles(spaces[views[i].ws]);
    } else {
      ExactUntiled(views, spaces, i);
      ExactChange(views, spaces, i, v);
    }
  }

  /** Giving a view a leaf is sound exactly when it is tiled. */
  lemma ExactLeaf(views: seq<View>, spaces: seq<AxPool.Space>, i: nat, s: AxPool.Space)
    requires Exact(views, spaces, i) && i < MAX_VIEWS && views[i].ws < MAX_WS
    requires AxPool.Tiles(s) == AxPool.Tiles(spaces[views[i].ws]) + {i}
    ensures Exact(views, spaces[views[i].ws := s], -1) <==> IsTiled(views[i])
  {
    var spaces2 := spaces[views[i].ws := s];
    assert i in AxPool.Tiles(spaces2[views[i].ws]);
    if IsTiled(views[i]) {
      ExactPlaced(views, spaces, i, s);
    }
  }

  lemma ExactMissing(views: seq<View>, spaces: seq<AxPool.Space>, i: nat)
    requires Exact(views, spaces, i) && i < MAX_VIEWS && IsTiled(views[i]) && views[i].ws < MAX_WS
    ensures !Exact(views, spaces, -1)
  {
    assert i !in AxPool.Tiles(spaces[views[i].ws]);
  }
}
