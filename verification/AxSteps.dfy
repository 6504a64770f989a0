/** Steps on views as values: what hiding, focusing, adding, dropping and placing do to the invariant. */
module AxSteps {
  import opened AxTree
  import opened AxPool
  import opened AxShape
  import opened AxViews
  import opened AxRects

  const MIN_W := 240
  const MIN_H := 160

  function Hidden(v: View): View {
    if !v.mapped || v.ui || v.hidden then v
    else v.(hidden := true, lastX := v.x, lastY := v.y, x := -20000, y := -20000)
  }

  function Shown(v: View): View {
    if !v.mapped || v.ui || !v.hidden then v else v.(hidden := false, x := v.lastX, y := v.lastY)
  }

  predicate Visible(v: View, active: nat) {
    v.mapped && (v.ui || (v.ws == active && !v.hidden))
  }

  /** A new slot: on the active workspace, tiled. */
  function NewView(client: nat, surface: nat, active: nat): View {
    NO_VIEW.(client := client, surface := surface, ws := active, mapped := true)
  }

  function Bar(v: View, w: nat, h: nat): View {
    v.(ui := true, floating := true, hidden := false, x := 0, y := 0, w := w, h := h)
  }

  /** A slot that was empty takes a view: a tiled one is pending until it has its leaf. */
  lemma Added(views: seq<View>, spaces: seq<Space>, i: nat, v: View)
    requires Exact(views, spaces, -1) && ViewsOk(views) && i < MAX_VIEWS && !views[i].mapped && ViewOk(v)
    ensures Exact(views[i := v], spaces, i) && ViewsOk(views[i := v])
    ensures !IsTiled(v) ==> Exact(views[i := v], spaces, -1)
  {
    ExactUntiled(views, spaces, i);
    ExactChange(views, spaces, i, v);
  }

  /** A view on its way changes its mark, its workspace or its slot's owner. */
  lemma Changed(views: seq<View>, spaces: seq<Space>, i: nat, v: View)
    requires Exact(views, spaces, i) && ViewsOk(views) && i < MAX_VIEWS && ViewOk(v)
    ensures Exact(views[i := v], spaces, i) && ViewsOk(views[i := v])
    ensures !IsTiled(v) ==> Exact(views[i := v], spaces, -1)
  {
    ExactChange(views, spaces, i, v);
  }

  /** A view is marked, or its slot emptied, and the trees are left alone. */
  lemma Marked(views: seq<View>, spaces: seq<Space>, i: nat, v: View)
    requires Exact(views, spaces, -1) && ViewsOk(views) && i < MAX_VIEWS && ViewOk(v) && !IsTiled(v)
    ensures ViewsOk(views[i := v]) && (Exact(views[i := v], spaces, -1) <==> !IsTiled(views[i]))
  {
    ExactMark(views, spaces, i, v);
  }

  /** A leaf's view, if it is tiled on the workspace, takes the leaf's rectangle, at least the minimum size. */
  function Placed(v: View, r: Rect, ws: nat): View {
    if r.w <= 0 || r.h <= 0 || !IsTiled(v) || v.ws != ws then v
    else v.(x := r.x, y := r.y, w := Max(r.w, MIN_W), h := Max(r.h, MIN_H))
  }

  predicate AtSpot(v: View, r: Rect) {
    Solid(r) ==> v.x == r.x && v.y == r.y && v.w == Max(r.w, MIN_W) && v.h == Max(r.h, MIN_H)
  }

  ghost function PlaceAll(views: seq<View>, spots: seq<Spot>, ws: nat): (views2: seq<View>)
    ensures |views2| == |views|
  {
    if spots == [] then views
    else
      var s := spots[|spots| - 1];
      var before := PlaceAll(views, spots[..|spots| - 1], ws);
      if s.v < |views| then before[s.v := Placed(before[s.v], s.r, ws)] else before
  }

  lemma PlaceNone(views: seq<View>, ws: nat)
    ensures PlaceAll(views, [], ws) == views
  {
  }

  lemma PlaceNext(views: seq<View>, done: seq<Spot>, v: nat, r: Rect, ws: nat)
    ensures var now := PlaceAll(views, done, ws);
            PlaceAll(views, done + [Spot(v, r)], ws) == if v < |views| then now[v := Placed(now[v], r, ws)] else now
  {
    var next := done + [Spot(v, r)];
    assert next[|next| - 1] == Spot(v, r) && next[..|next| - 1] == done;
  }

  /** Visibility follows the active workspace. */
  function Arranged(views: seq<View>, active: nat): (views2: seq<View>)
    ensures |views2| == |views|
    ensures forall i :: 0 <= i < |views| ==>
              views2[i] == if views[i].ws != active then Hidden(views[i]) else Shown(views[i])
  {
    seq(|views|, i requires 0 <= i < |views| => if views[i].ws != active then Hidden(views[i]) else Shown(views[i]))
  }

  lemma ArrangedSame(views: seq<View>, active: nat)
    ensures Same(views, Arranged(views, active))
  {
  }

  /** Exactly the views of other workspaces are hidden; the bar never is. */
  ghost predicate Parted(views: seq<View>, active: nat) {
    forall i :: 0 <= i < |views| && views[i].mapped && !views[i].ui ==> (views[i].hidden <==> views[i].ws != active)
  }

  lemma {:induction false} PlacedParted(views: seq<View>, spots: seq<Spot>, active: nat)
    ensures Parted(PlaceAll(Arranged(views, active), spots, active), active)
    ensures Same(views, PlaceAll(Arranged(views, active), spots, active))
    decreases |spots|
  {
    if spots != [] {
      PlacedParted(views, spots[..|spots| - 1], active);
    }
  }

  ghost predicate Stacked(nodes: seq<Node>, t: Tree, ws: nat) {
    t.n < |nodes| && Drawn(nodes, t, nodes[t.n].parent, ws)
  }

  ghost predicate StackOk(slots: seq<int>, trees: seq<Tree>, nodes: seq<Node>, ws: nat) {
    |slots| == |trees| && forall i :: 0 <= i < |slots| ==> slots[i] == trees[i].n && Stacked(nodes, trees[i], ws)
  }

  lemma StackPop(slots: seq<int>, trees: seq<Tree>, nodes: seq<Node>, ws: nat)
    requires StackOk(slots, trees, nodes, ws) && |slots| > 0
    ensures StackOk(slots[..|slots| - 1], trees[..|slots| - 1], nodes, ws)
    ensures Stacked(nodes, trees[|slots| - 1], ws) && slots[|slots| - 1] == trees[|slots| - 1].n < |nodes|
  {
  }

  lemma StackPush(slots: seq<int>, trees: seq<Tree>, nodes: seq<Node>, ws: nat, t1: Tree, t2: Tree)
    requires StackOk(slots, trees, nodes, ws) && Stacked(nodes, t1, ws) && Stacked(nodes, t2, ws)
    ensures StackOk(slots + [t1.n, t2.n], trees + [t1, t2], nodes, ws)
  {
  }

  lemma RootDrawn(nodes: seq<Node>, roots: seq<int>, spaces: seq<Space>, ws: nat)
    requires Layout(nodes, roots, spaces) && ws < MAX_WS && spaces[ws].Tiled?
    ensures StackOk([roots[ws]], [spaces[ws].t], nodes, ws) && Size(spaces[ws].t) <= MAX_NODES
  {
    assert SpaceOk(nodes, roots[ws], spaces[ws], ws);
    DrawnSlots(nodes, spaces[ws].t, -1, ws);
    SizeIsNodes(spaces[ws].t);
    Bounded(Nodes(spaces[ws].t), MAX_NODES);
  }

  lemma StackDone(trees: seq<Tree>, rects: seq<Rect>, gap: int)
    requires trees == [] && rects == []
    ensures Remaining(trees, rects, gap) == []
  {
  }

  lemma StackStart(t: Tree, area: Rect, gap: int)
    ensures Remaining([t], [area], gap) == Spots(t, area, gap) && Weight([t]) == Size(t) >= 1
  {
    assert Remaining([t][..0], [area][..0], gap) == [];
    assert Weight([t][..0]) == 0;
  }

  /** The top of the stack as the pool shows it. */
  lemma StackTop(nodes: seq<Node>, trees: seq<Tree>, rects: seq<Rect>, ws: nat, gap: int, t: Tree, r: Rect)
    requires |trees| == |rects| > 0 && t == trees[|trees| - 1] && r == rects[|trees| - 1] && Stacked(nodes, t, ws)
    ensures nodes[t.n].used && nodes[t.n].ws == ws && (nodes[t.n].split <==> t.Branch?)
    ensures t.Leaf? ==> nodes[t.n].view == t.v
    ensures t.Leaf? ==>
              Remaining(trees, rects, gap)
              == [Spot(t.v, r)] + Remaining(trees[..|trees| - 1], rects[..|trees| - 1], gap)
    ensures t.Branch? ==> nodes[t.n].a == t.l.n && nodes[t.n].b == t.r.n && nodes[t.n].vertical == t.vertical
    ensures t.Branch? ==> Stacked(nodes, t.l, ws) && Stacked(nodes, t.r, ws)
    ensures Weight(trees[..|trees| - 1]) < Weight(trees)
  {
    if t.Branch? {
      assert Drawn(nodes, t.l, t.n, ws) && Drawn(nodes, t.r, t.n, ws);
    }
  }

  lemma {:induction false} PlacedOnce(views: seq<View>, spots: seq<Spot>, ws: nat)
    requires forall i, j :: 0 <= i < j < |spots| ==> spots[i].v != spots[j].v
    ensures forall v :: 0 <= v < |views| && (forall k :: 0 <= k < |spots| ==> spots[k].v != v) ==>
              PlaceAll(views, spots, ws)[v] == views[v]
    ensures forall k :: 0 <= k < |spots| && spots[k].v < |views| ==>
              PlaceAll(views, spots, ws)[spots[k].v] == Placed(views[spots[k].v], spots[k].r, ws)
  {
    if spots != [] {
      var front := spots[..|spots| - 1];
      PlacedOnce(views, front, ws);
      assert forall k :: 0 <= k < |front| ==> front[k] == spots[k];
    }
  }

  /** With exact trees every leaf's view is at its spot. */
  lemma AllAtSpots(views: seq<View>, nodes: seq<Node>, roots: seq<int>, spaces: seq<Space>, ws: nat, spots: seq<Spot>,
                   area: Rect, gap: int)
    requires Layout(nodes, roots, spaces) && Exact(views, spaces, -1) && ws < MAX_WS && spaces[ws].Tiled?
    requires spots == Spots(spaces[ws].t, area, gap)
    ensures forall k :: 0 <= k < |spots| ==>
              spots[k].v < |views| == MAX_VIEWS && AtSpot(PlaceAll(views, spots, ws)[spots[k].v], spots[k].r)
  {
    assert SpaceOk(nodes, roots[ws], spaces[ws], ws);
    SpotsAreViews(spaces[ws].t, area, gap);
    PlacedOnce(views, spots, ws);
    forall k | 0 <= k < |spots|
      ensures spots[k].v < |views| && AtSpot(PlaceAll(views, spots, ws)[spots[k].v], spots[k].r) {
      assert spots[k].v in Tiles(spaces[ws]);
    }
  }

  lemma HiddenAlike(v: View)
    ensures Alike(v, Hidden(v)) && Alike(v, Shown(v))
  {
  }

  /** Which way to split beside a view: the longer side, or the screen's when the view has no size yet. */
  function PickVertical(views: seq<View>, screenW: nat, screenH: nat, i: nat): bool {
    if i >= |views| then true
    else if views[i].w == 0 || views[i].h == 0 then screenW >= screenH
    else views[i].w >= views[i].h
  }

  lemma ViewAt(views: seq<View>, i: nat)
    requires ViewsOk(views) && i < MAX_VIEWS
    ensures |views| == MAX_VIEWS && ViewOk(views[i])
  {
  }

  /** The focused view was there before the new slot was taken, so it has its leaf. */
  lemma FocusedIsTiled(views2: seq<View>, spaces: seq<Space>, focused: nat, idx: nat, ws: nat)
    requires focused < MAX_VIEWS && focused != idx
    requires Exact(views2, spaces, idx) && IsTiled(views2[focused]) && views2[focused].ws == ws < MAX_WS
    ensures focused in Tiles(spaces[ws])
  {
  }

  predicate Matches(v: View, client: nat, surface: nat) {
    v.mapped && v.client == client && v.surface == surface
  }

  /** The slot the search for a surface finds. */
  ghost predicate FirstMatch(views: seq<View>, client: nat, surface: nat, i: int) {
    0 <= i < |views| && Matches(views[i], client, surface) && forall j :: 0 <= j < i ==>
        !Matches(views[j], client, surface)
  }

  /** The slot the search finds is tiled. */
  ghost predicate TiledFirst(views: seq<View>, client: nat, surface: nat) {
    exists i :: FirstMatch(views, client, surface, i) && IsTiled(views[i])
  }

  ghost predicate NoMatch(views: seq<View>, client: nat, surface: nat) {
    forall i :: 0 <= i < |views| ==> !Matches(views[i], client, surface)
  }

  /** The slot the next new surface takes. */
  ghost predicate FirstFree(views: seq<View>, i: int) {
    0 <= i < |views| && !views[i].mapped && forall j :: 0 <= j < i ==> views[j].mapped
  }

  lemma FreeIs(views: seq<View>, i: int)
    requires FirstFree(views, i)
    ensures 0 <= i < |views| && !views[i].mapped
  {
  }

  ghost predicate AllTaken(views: seq<View>) {
    forall i :: 0 <= i < |views| ==> views[i].mapped
  }

  /** One view was marked as the bar. */
  ghost predicate Barred(views: seq<View>, views2: seq<View>, i: int) {
    0 <= i < |views| && Same(views[i := views[i].(ui := true, floating := true)], views2)
  }

  /** A free slot now holds this surface; the other slots hold what they held. */
  ghost predicate Entered(views: seq<View>, views2: seq<View>, i: int, client: nat, surface: nat) {
    && FirstFree(views, i) && |views| == |views2| && Matches(views2[i], client, surface)
    && Same(views[i := views2[i]], views2)
  }

  /** At most this view started to float. */
  ghost predicate Floated(views: seq<View>, views2: seq<View>, i: int) {
    0 <= i < |views| && Same(views[i := views[i].(floating := true)], views2)
  }

  lemma FloatedSame(views: seq<View>, views2: seq<View>, views3: seq<View>, i: nat)
    requires Same(views, views2) && i < |views|
             && (Same(views2[i := views2[i].(floating := true)], views3) || views3 == views2)
    ensures Same(views, views3) || Floated(views, views3, i)
  {
    if views3 != views2 {
      assert Alike(views[i], views2[i]);
      forall j | 0 <= j < |views| ensures Alike(views[i := views[i].(floating := true)][j], views3[j]) {
        assert Alike(views[j], views2[j]) && Alike(views2[i := views2[i].(floating := true)][j], views3[j]);
      }
    }
  }

  lemma EnteredAt(views: seq<View>, views2: seq<View>, i: nat, client: nat, surface: nat)
    requires FirstFree(views, i) && |views2| == |views| && views2 == views[i := views2[i]]
             && Matches(views2[i], client, surface)
    ensures Entered(views, views2, i, client, surface)
  {
    SameSelf(views2);
  }

  lemma EnteredSame(views: seq<View>, views2: seq<View>, views3: seq<View>, i: nat, client: nat, surface: nat)
    requires Same(views2, views3)
    ensures Entered(views, views2, i, client, surface) ==> Entered(views, views3, i, client, surface)
    ensures Same(views, views2) ==> Same(views, views3)
  {
    if Entered(views, views2, i, client, surface) {
      assert Alike(views2[i], views3[i]);
      assert forall j :: 0 <= j < |views2| ==> Alike(views2[j], views3[j]);
      assert forall j :: 0 <= j < |views2| ==> Alike(views[i := views2[i]][j], views2[j]);
    }
    if Same(views, views2) {
      SameTrans(views, views2, views3);
    }
  }

  lemma BarredAt(views: seq<View>, views2: seq<View>, i: nat)
    requires i < |views| == |views2| && views2 == views[i := views2[i]]
    requires Alike(views[i].(ui := true, floating := true), views2[i])
    ensures Barred(views, views2, i)
  {
  }

  lemma BarredSame(views: seq<View>, views2: seq<View>, views3: seq<View>, i: nat)
    requires Same(views2, views3)
    ensures Barred(views, views2, i) ==> Barred(views, views3, i)
  {
    if Barred(views, views2, i) {
      SameTrans(views[i := views[i].(ui := true, floating := true)], views2, views3);
    }
  }

  /** What the search found is the only slot it could have found. */
  lemma OnlyMatch(views: seq<View>, client: nat, surface: nat, i: int)
    requires FirstMatch(views, client, surface, i)
    ensures 0 <= i < |views| && Matches(views[i], client, surface) && !NoMatch(views, client, surface)
    ensures TiledFirst(views, client, surface) <==> IsTiled(views[i])
  {
    forall j | FirstMatch(views, client, surface, j) ensures j == i {
    }
  }

  lemma NoneTiled(views: seq<View>, client: nat, surface: nat)
    requires NoMatch(views, client, surface)
    ensures !TiledFirst(views, client, surface)
  {
  }

  lemma MatchedOr(views: seq<View>, client: nat, surface: nat, i: int)
    requires if i < 0 then i == -1 && NoMatch(views, client, surface) else FirstMatch(views, client, surface, i)
    ensures i < |views| && (i < 0 <==> NoMatch(views, client, surface))
  {
    if i >= 0 {
      OnlyMatch(views, client, surface, i);
    }
  }

  lemma SameMatch(views: seq<View>, views2: seq<View>, client: nat, surface: nat, i: int)
    requires Same(views, views2)
    ensures FirstMatch(views, client, surface, i) <==> FirstMatch(views2, client, surface, i)
  {
    assert forall j :: 0 <= j < |views| ==> Alike(views[j], views2[j]);
  }

  lemma EnteredFirst(views: seq<View>, views2: seq<View>, client: nat, surface: nat, i: int)
    requires NoMatch(views, client, surface) && Entered(views, views2, i, client, surface)
    ensures FirstMatch(views2, client, surface, i)
  {
    assert forall j :: 0 <= j < |views| ==> Alike(views[i := views2[i]][j], views2[j]);
  }

  lemma MatchIsOne(views: seq<View>, client: nat, surface: nat, i: int, j: int)
    requires FirstMatch(views, client, surface, i)
             && (if j < 0 then NoMatch(views, client, surface) else FirstMatch(views, client, surface, j))
    ensures i == j
  {
  }

  lemma NoneFree(views: seq<View>, i: int)
    requires AllTaken(views)
    ensures !FirstFree(views, i)
  {
  }

  lemma FreeIsOne(views: seq<View>, i: int, j: int)
    requires FirstFree(views, i)
    ensures 0 <= i < |views| && !views[i].mapped && (FirstFree(views, j) <==> j == i)
  {
  }

  lemma SameReplaced(views: seq<View>, views2: seq<View>, i: nat, v: View)
    requires Same(views, views2) && i < |views|
    ensures Same(views[i := v], views2[i := v])
  {
  }

  lemma SameSelf(views: seq<View>)
    ensures Same(views, views)
  {
  }

  // ---- where the focus goes

  predicate Focusable(v: View, active: nat) {
    Visible(v, active) && !v.ui
  }

  /** The slot some steps on; slots go round in both directions. */
  function Slot(from: nat, dir: int, step: nat): (i: nat)
    ensures i < MAX_VIEWS
  {
    (from + dir * step) % MAX_VIEWS
  }

  /** The first view that can take the focus, going round from a slot and coming back to it last. */
  ghost predicate NextFocus(views: seq<View>, active: nat, from: nat, dir: int, idx: int) {
    exists step: nat :: 1 <= step <= MAX_VIEWS == |views| && idx == Slot(from, dir, step)
      && Focusable(views[idx], active)
                        && forall s: nat :: 1 <= s < step ==> !Focusable(views[Slot(from, dir, s)], active)
  }

  ghost predicate FirstFocus(views: seq<View>, active: nat, idx: int) {
    0 <= idx < |views| && Focusable(views[idx], active) && forall j :: 0 <= j < idx ==> !Focusable(views[j], active)
  }

  ghost predicate NoFocus(views: seq<View>, active: nat) {
    forall i :: 0 <= i < |views| ==> !Focusable(views[i], active)
  }

  /** Going round meets every slot. */
  lemma EverySlot(views: seq<View>, active: nat, from: nat, dir: int)
    requires |views| == MAX_VIEWS && from < MAX_VIEWS && (dir == 1 || dir == -1)
    requires forall s: nat :: 1 <= s <= MAX_VIEWS ==> !Focusable(views[Slot(from, dir, s)], active)
    ensures NoFocus(views, active)
  {
    hide Slot, Focusable;
    forall i: nat | i < |views| ensures !Focusable(views[i], active) {
      var s := StepTo(from, dir, i);
      assert !Focusable(views[Slot(from, dir, s)], active);
    }
  }

  lemma StepTo(from: nat, dir: int, i: nat) returns (s: nat)
    requires from < MAX_VIEWS && i < MAX_VIEWS && (dir == 1 || dir == -1)
    ensures 1 <= s <= MAX_VIEWS && Slot(from, dir, s) == i
  {
    if dir == 1 {
      s := if i > from then i - from else i - from + MAX_VIEWS;
      assert from + dir * s == i || from + dir * s == i + MAX_VIEWS;
    } else {
      s := if i < from then from - i else from - i + MAX_VIEWS;
      assert from + dir * s == i || from + dir * s == i - MAX_VIEWS;
    }
  }

  function StartOf(focused: int): nat {
    if 0 <= focused < MAX_VIEWS then focused else 0
  }

  /** Top-level windows of a workspace, shown or not. */
  predicate OnSpace(v: View, ws: nat) {
    v.mapped && !v.ui && v.ws == ws
  }

  ghost predicate FirstOn(views: seq<View>, ws: nat, idx: int) {
    || (0 <= idx < |views| && OnSpace(views[idx], ws) && forall j :: 0 <= j < idx ==> !OnSpace(views[j], ws))
    || (idx == -1 && forall j :: 0 <= j < |views| ==> !OnSpace(views[j], ws))
  }

  /** Once a workspace is shown, its first view is the first that can take the focus. */
  lemma ShownFirst(views: seq<View>, shown: seq<View>, now: seq<View>, ws: nat)
    requires Same(shown, now)
    requires shown == Arranged(views, ws)
    requires forall i :: 0 <= i < |views| ==> now[i].hidden == shown[i].hidden
    ensures forall i :: FirstFocus(now, ws, i) ==> FirstOn(views, ws, i)
    ensures NoFocus(now, ws) ==> FirstOn(views, ws, -1)
  {
    forall i | 0 <= i < |views| ensures Focusable(now[i], ws) <==> OnSpace(views[i], ws) {
      assert Alike(shown[i], now[i]);
    }
  }

  // ---- how the trees change

  /** The view beside which a new one goes: the focused one, if it is tiled on that workspace. */
  function Preferred(views: seq<View>, focused: int, ws: nat): int {
    if 0 <= focused < |views| && IsTiled(views[focused]) && views[focused].ws == ws then focused else -1
  }

  /** View w came to one workspace; the others kept their trees. */
  ghost predicate CameTo(spaces: seq<Space>, spaces2: seq<Space>, ws: nat, prefer: int, w: nat,
                         views: seq<View>, screenW: nat, screenH: nat) {
    && ws < |spaces| == |spaces2| && spaces2 == spaces[ws := spaces2[ws]]
    && Came(spaces[ws], spaces2[ws], prefer, w, (i: nat) => PickVertical(views, screenW, screenH, i))
  }

  /** View w left its workspace and came to another, or back to the same. */
  ghost predicate WentTo(spaces: seq<Space>, spaces2: seq<Space>, ws: nat, w: nat,
                         views: seq<View>, screenW: nat, screenH: nat) {
    exists mid :: Left(spaces, mid, w) && CameTo(mid, spaces2, ws, -1, w, views, screenW, screenH)
  }

  lemma WentVia(spaces: seq<Space>, mid: seq<Space>, spaces2: seq<Space>, ws: nat, w: nat,
                views: seq<View>, screenW: nat, screenH: nat)
    requires Left(spaces, mid, w) && CameTo(mid, spaces2, ws, -1, w, views, screenW, screenH)
    ensures WentTo(spaces, spaces2, ws, w, views, screenW, screenH)
  {
  }

  /** The split follows the views as they were: the new view is not among those it may be put beside. */
  lemma CameBefore(spaces: seq<Space>, spaces2: seq<Space>, ws: nat, prefer: int, w: nat,
                   views: seq<View>, now: seq<View>, screenW: nat, screenH: nat, vertical: nat -> bool)
    requires ws < |spaces| == |spaces2| && spaces2 == spaces[ws := spaces2[ws]]
    requires Came(spaces[ws], spaces2[ws], prefer, w, vertical)
    requires forall i: nat :: vertical(i) == PickVertical(now, screenW, screenH, i)
    requires |now| == |views| && w < |views| && now == views[w := now[w]] && w !in Tiles(spaces[ws])
    ensures CameTo(spaces, spaces2, ws, prefer, w, views, screenW, screenH)
  {
    hide Beside, SpaceShape;
    var s, s2 := spaces[ws], spaces2[ws];
    if s.Tiled? {
      var v :| v in Tiles(s) && (prefer >= 0 ==> v == prefer)
        && SpaceShape(s2) == Beside(SpaceShape(s), v, vertical(v), w);
      assert vertical(v) == PickVertical(views, screenW, screenH, v);
      var f := (i: nat) => PickVertical(views, screenW, screenH, i);
      assert f(v) == vertical(v);
    }
  }

  /** A view is tiled on no other workspace, so taking it off its own takes it off all. */
  lemma LeftAll(views: seq<View>, spaces: seq<Space>, spaces2: seq<Space>, i: nat)
    requires Exact(views, spaces, -1) && i < MAX_VIEWS && views[i].ws < MAX_WS
    requires |spaces2| == MAX_WS && spaces2 == spaces[views[i].ws := spaces2[views[i].ws]]
    requires SpaceShape(spaces2[views[i].ws]) == Gone(SpaceShape(spaces[views[i].ws]), i)
    ensures Left(spaces, spaces2, i)
  {
    hide SpaceShape, Gone;
    forall ws | 0 <= ws < |spaces| ensures SpaceShape(spaces2[ws]) == Gone(SpaceShape(spaces[ws]), i) {
      if ws != views[i].ws {
        NotThere(spaces[ws], i);
      }
    }
  }

  lemma LeftNone(views: seq<View>, spaces: seq<Space>, i: nat)
    requires Exact(views, spaces, -1) && i < MAX_VIEWS && !IsTiled(views[i])
    ensures Left(spaces, spaces, i)
  {
    hide SpaceShape, Gone;
    forall ws | 0 <= ws < |spaces| ensures SpaceShape(spaces[ws]) == Gone(SpaceShape(spaces[ws]), i) {
      NotThere(spaces[ws], i);
    }
  }

  /** What moving the focused view to a workspace does to slots and trees. */
  ghost predicate Moved(views: seq<View>, views2: seq<View>, spaces: seq<Space>, spaces2: seq<Space>,
                        focused: int, active: nat, ws: nat, screenW: nat, screenH: nat) {
    if ws < MAX_WS && 0 <= focused < |views| && Visible(views[focused], active) then
      && Same(views[focused := views[focused].(ws := ws)], views2)
      && (if views[focused].floating then spaces2 == spaces
         else WentTo(spaces, spaces2, ws, focused, views, screenW, screenH))
    else views2 == views && spaces2 == spaces
  }

  /** What toggling the focused view does to slots and trees. */
  ghost predicate Toggled(views: seq<View>, views2: seq<View>, spaces: seq<Space>, spaces2: seq<Space>,
                          focused: int, active: nat, screenW: nat, screenH: nat) {
    if 0 <= focused < |views| && Visible(views[focused], active) then
      && Same(views[focused := views[focused].(floating := !views[focused].floating)], views2)
      && (if views[focused].floating
         then CameTo(spaces, spaces2, views[focused].ws, -1, focused, views, screenW, screenH)
          else Left(spaces, spaces2, focused))
    else views2 == views && spaces2 == spaces
  }
}
