/** The axwm window manager: views, focus and layout under the events it receives. */
module AxWm {
  import opened AxTree
  import opened AxPool
  import opened AxShape
  import opened AxViews
  import opened AxRects
  import opened AxLayout
  import opened AxSteps
  import opened AxCalm
  import opened AxDrag

  const CLIENT_NONE := 0xFFFF_FFFF

  /** What the compositor reports; geometry is left, top, width and height. */
  datatype Event =
    | Map(client: nat, surface: nat, background: bool, replay: bool, x: int, y: int, w: nat, h: nat)
    | Unmap(client: nat, surface: nat)
    | Commit(client: nat, surface: nat, background: bool, x: int, y: int, w: nat, h: nat)
    | Click(client: nat, surface: nat, background: bool)
    | Key(code: nat)
    | Pointer(client: nat, surface: nat, background: bool, left: bool, right: bool, px: int, py: int, x: int)

  /** What an event does to the slots, seen from a calm state. */
  ghost predicate Stepped(views: seq<View>, views2: seq<View>, ev: Event) {
    match ev
    case Map(client, surface, background, _, _, _, _, _) => Took(views, views2, client, surface, background)
    case Commit(client, surface, background, _, _, _, _) => Took(views, views2, client, surface, background)
    case Unmap(client, surface) => Lost(views, views2, client, surface)
    case _ => Akin(views, views2)
  }

  class Wm {
    const layout: LayoutState
    const views: array<View>
    var active: nat
    var focused: int

    var screenW: nat
    var screenH: nat
    var gapOuter: int
    var gapInner: int

    /** The bar's client, CLIENT_NONE while there is no bar. */
    var barClient: nat
    var barSurface: nat
    var barH: nat

    var superDown: bool
    var leftDown: bool
    var rightDown: bool

    var dragActive: bool
    var dragView: int
    /** The button that ends the drag, whether the super key must stay down, and whether it resizes. */
    var dragRight: bool
    var dragSuper: bool
    var dragResize: bool
    /** Pointer to corner for a move; for a resize the edges, where pointer and view were, and the rectangle so far. */
    var dragOff: (int, int)
    var dragStart: (int, int)
    var dragEdges: Edges
    var dragFrom: Rect
    var dragRect: Rect

    ghost predicate Separate()
      reads this, layout
    {
      views as object != layout.nodes as object && views as object != layout.roots as object
    }

    ghost predicate Sound()
      reads this, views, layout, layout.nodes, layout.roots
    {
      Separate() && layout.Valid() && views.Length == MAX_VIEWS && active < MAX_WS && -1 <= focused < MAX_VIEWS
    }

    ghost predicate Valid()
      reads this, views, layout, layout.nodes, layout.roots
    {
      Sound() && ViewsOk(views[..]) && Exact(views[..], layout.spaces, -1)
    }

    /** What every event keeps but one: also, all views of the bar are marked and the focus is on a window or none. */
    ghost predicate Calm()
      reads this, views, layout, layout.nodes, layout.roots
    {
      Valid() && Settled(views[..], focused)
    }

    // ---- the events that leave a tree and the views out of step

    /** The next new surface takes a slot the focus was left on, and would be split off itself. */
    ghost predicate Unplaced(client: nat, surface: nat)
      reads this, views, layout, layout.roots
    {
      NoMatch(views[..], client, surface) && FirstFree(views[..], focused) && 0 <= active < layout.roots.Length
        && layout.roots[active] >= 0
    }

    ghost predicate MapBreaks(client: nat, surface: nat, background: bool)
      reads this, views, layout, layout.roots
    {
      surface != 0 && !background && if surface == BAR then TiledFirst(views[..], client, BAR)
        else Unplaced(client, surface)
    }

    ghost predicate CommitBreaks(client: nat, surface: nat, background: bool)
      reads this, views, layout, layout.roots
    {
      surface != 0 && !background
        && (Unplaced(client, surface) || (surface == BAR && TiledFirst(views[..], client, BAR)))
    }

    ghost predicate UnmapBreaks(client: nat, surface: nat)
      reads this, views
    {
      surface == BAR && TiledFirst(views[..], client, BAR)
    }

    /** Toggling tiles the focused view even when it has become the bar. */
    ghost predicate ToggleBreaks()
      reads this, views
    {
      0 <= focused < views.Length && views[focused].mapped && views[focused].ui
    }

    ghost predicate Breaks(ev: Event)
      reads this, views, layout, layout.roots
    {
      match ev
      case Map(client, surface, background, _, _, _, _, _) => MapBreaks(client, surface, background)
      case Unmap(client, surface) => UnmapBreaks(client, surface)
      case Commit(client, surface, background, _, _, _, _) => CommitBreaks(client, surface, background)
      case Key(code) => code == 0xAC && ToggleBreaks()
      case _ => false
    }

    /** The event behind all of these: a commit of the bar while it has no view and a slot is free. */
    ghost predicate Strays(ev: Event)
      reads this, views
    {
      ev.Commit? && ev.surface == BAR && Newcomer(views[..], ev.client, BAR, ev.background)
    }

    /** In a calm state no event breaks anything. */
    lemma CalmIsSafe(ev: Event)
      requires Calm()
      ensures !Breaks(ev)
    {
      WindowNotFree(views[..], focused);
      if ev.Map? || ev.Commit? || ev.Unmap? {
        MarkedUntiled(views[..], ev.client);
      }
    }

    constructor (screenW: nat, screenH: nat, gapOuter: int, gapInner: int)
      ensures Calm() && fresh(layout) && fresh(layout.nodes) && fresh(layout.roots) && fresh(views)
      ensures focused == -1 && active == 0 && forall i :: 0 <= i < views.Length ==> views[i] == NO_VIEW
    {
      this.screenW, this.screenH, this.gapOuter, this.gapInner := screenW, screenH, gapOuter, gapInner;
      layout := new LayoutState();
      views := new View[MAX_VIEWS](_ => NO_VIEW);
      active, focused := 0, -1;
      barClient, barSurface, barH := CLIENT_NONE, BAR, 0;
      superDown, leftDown, rightDown := false, false, false;
      dragActive, dragView, dragRight, dragSuper, dragResize := false, -1, false, false, false;
      dragOff, dragStart, dragEdges := (0, 0), (0, 0), NO_EDGES;
      dragFrom, dragRect := Rect(0, 0, 0, 0), Rect(0, 0, 0, 0);
    }

    // ---- view slots

    method FindView(client: nat, surface: nat) returns (idx: int)
      ensures if idx < 0 then idx == -1 && NoMatch(views[..], client, surface)
              else FirstMatch(views[..], client, surface, idx)
    {
      for i := 0 to views.Length
        invariant forall j :: 0 <= j < i ==> !Matches(views[j], client, surface)
      {
        if Matches(views[i], client, surface) {
          return i;
        }
      }
      return -1;
    }

    /** First fit; -1 only when every slot is taken. */
    method AllocView(client: nat, surface: nat) returns (idx: int)
      modifies views
      ensures -1 <= idx < views.Length
      ensures idx >= 0 ==>
                FirstFree(old(views[..]), idx) && views[..] == old(views[..])[idx := NewView(client, surface, active)]
      ensures idx < 0 ==> AllTaken(old(views[..])) && views[..] == old(views[..])
    {
      for i := 0 to views.Length
        invariant views[..] == old(views[..]) && forall j :: 0 <= j < i ==> views[j].mapped
      {
        if !views[i].mapped {
          views[i] := NewView(client, surface, active);
          return i;
        }
      }
      return -1;
    }

    // ---- focus and visibility: nothing here touches what is tiled where

    method ClearFocus()
      requires Sound()
      modifies views, `focused
      ensures Sound() && (Valid() <==> old(Valid())) && Same(old(views[..]), views[..]) && focused == -1
      ensures forall i :: 0 <= i < views.Length ==> views[i] == old(views[i]).(focused := false)
    {
      hide Exact, ViewsOk;
      for i := 0 to views.Length
        invariant focused == old(focused) && Same(old(views[..]), views[..])
        invariant forall j :: 0 <= j < i ==> views[j] == old(views[j]).(focused := false)
        invariant forall j :: i <= j < views.Length ==> views[j] == old(views[j])
      {
        views[i] := views[i].(focused := false);
      }
      SameKeeps(old(views[..]), views[..], layout.spaces, -1);
      focused := -1;
    }

    method FocusView(idx: int)
      requires Sound()
      modifies views, `focused
      ensures Sound() && (Valid() <==> old(Valid())) && Same(old(views[..]), views[..])
      ensures if 0 <= idx < views.Length && Visible(old(views[idx]), active) && !old(views[idx]).ui
              then focused == idx && forall i :: 0 <= i < views.Length ==>
                  views[i] == old(views[i]).(focused := i == idx)
              else focused == old(focused) && views[..] == old(views[..])
    {
      hide Exact, ViewsOk;
      SameSelf(views[..]);
      if 0 <= idx < views.Length && Visible(views[idx], active) && !views[idx].ui {
        ClearFocus();
        ghost var cleared := views[..];
        views[idx] := views[idx].(focused := true);
        SameUpdate(cleared, idx, views[idx]);
        assert views[..] == cleared[idx := views[idx]];
        SameKeeps(cleared, views[..], layout.spaces, -1);
        SameTrans(old(views[..]), cleared, views[..]);
        focused := idx;
      }
    }

    method PickNextFocus(start: int) returns (idx: int)
      requires views.Length == MAX_VIEWS
      ensures -1 <= idx < MAX_VIEWS
      ensures if idx >= 0 then NextFocus(views[..], active, StartOf(start), 1, idx) else NoFocus(views[..], active)
    {
      hide Focusable, Slot;
      var from := StartOf(start);
      for step := 1 to MAX_VIEWS + 1
        invariant forall s: nat :: 1 <= s < step ==> !Focusable(views[..][Slot(from, 1, s)], active)
      {
        idx := Slot(from, 1, step);
        if Focusable(views[idx], active) {
          return;
        }
      }
      EverySlot(views[..], active, from, 1);
      return -1;
    }

    /** Focuses the first view that can be focused. */
    method FocusFirst()
      requires Sound()
      modifies views, `focused
      ensures Sound() && (Valid() <==> old(Valid())) && Same(old(views[..]), views[..])
      ensures FirstFocus(old(views[..]), active, focused)
              || (NoFocus(old(views[..]), active) && focused == old(focused))
      ensures old(OnWindow(views[..], focused)) ==> OnWindow(views[..], focused)
    {
      hide Exact, ViewsOk, Same;
      SameSelf(views[..]);
      for i := 0 to views.Length
        invariant views[..] == old(views[..]) && focused == old(focused) && Sound() && (Valid() <==> old(Valid()))
        invariant forall j :: 0 <= j < i ==> !Focusable(old(views[..])[j], active)
      {
        if Visible(views[i], active) && !views[i].ui {
          FocusView(i);
          return;
        }
      }
    }

    // ---- layout

    /** The part of the screen that is tiled: inside the outer gap, below the bar. */
    function Area(): Rect
      reads this
    {
      var bar := if barClient != CLIENT_NONE then barH else 0;
      Rect(gapOuter, gapOuter + bar, screenW - 2 * gapOuter, screenH - 2 * gapOuter - bar)
    }

    /** The spots of the active workspace. */
    ghost function ActiveSpots(): seq<Spot>
      reads this, layout
      requires active < |layout.spaces|
    {
      if layout.spaces[active].Tiled? && Solid(Area())
        then Spots(layout.spaces[active].t, Area(), Max(0, gapInner)) else []
    }

    /**
     * Views of other workspaces are hidden, those of the active one shown, and its tiled views take their
     * leaves' spots. With exact trees every leaf's view is at its spot.
     */
    method ApplyLayout()
      requires Sound()
      modifies views
      ensures Sound() && (Valid() <==> old(Valid())) && Same(old(views[..]), views[..])
      ensures active < |layout.spaces| && Parted(views[..], active)
      ensures views[..] == PlaceAll(Arranged(old(views[..]), active), ActiveSpots(), active)
      ensures Valid() ==> forall k :: 0 <= k < |ActiveSpots()| ==>
                ActiveSpots()[k].v < MAX_VIEWS && AtSpot(views[ActiveSpots()[k].v], ActiveSpots()[k].r)
    {
      hide Exact, ViewsOk, Layout, Drawn, PlaceAll, Parted, Arranged;
      ShowActive();
      ghost var shown := views[..];
      SpacesAre(layout.nodes[..], layout.roots[..], layout.spaces);
      PlaceNone(shown, active);
      PlacedParted(old(views[..]), ActiveSpots(), active);
      var area := Area();
      if area.w <= 0 || area.h <= 0 {
        return;
      }
      RootMeans(layout.nodes[..], layout.roots[..], layout.spaces, active);
      var root := layout.roots[active];
      if root >= 0 {
        Tile(root, area);
        if Valid() {
          AllAtSpots(shown, layout.nodes[..], layout.roots[..], layout.spaces, active, ActiveSpots(), area,
            Max(0, gapInner));
        }
      }
    }

    /** The traversal with its explicit stack of 128 entries, which cannot overflow. */
    method Tile(root: int, area: Rect)
      requires Sound() && 0 <= root == layout.roots[..][active] && layout.spaces[active].Tiled?
      modifies views
      ensures Sound() && (Valid() <==> old(Valid())) && Same(old(views[..]), views[..])
      ensures views[..] == PlaceAll(old(views[..]), Spots(layout.spaces[active].t, area, Max(0, gapInner)), active)
    {
      hide Exact, ViewsOk, Layout, Spots, First, Second, Max, PlaceAll, StackOk, Stacked, Drawn, Same, Remaining,
           Weight;
      SpacesAre(layout.nodes[..], layout.roots[..], layout.spaces);
      var gap := Max(0, gapInner);
      ghost var t := layout.spaces[active].t;
      ghost var nodes := layout.nodes[..];
      var stackIdx, stackRect := new int[MAX_NODES], new Rect[MAX_NODES](_ => area);
      stackIdx[0] := root;
      var sp := 1;
      ghost var trees, done := [t], [];
      SameSelf(views[..]);
      RootDrawn(nodes, layout.roots[..], layout.spaces, active);
      StackStart(t, area, gap);
      PlaceNone(views[..], active);
      assert stackRect[..1] == [area] && stackIdx[..1] == [root];
      while sp > 0
        invariant 0 <= sp == |trees| <= Weight(trees) <= MAX_NODES && stackIdx.Length == stackRect.Length == MAX_NODES
        invariant StackOk(stackIdx[..sp], trees, nodes, active)
        invariant done + Remaining(trees, stackRect[..sp], gap) == Spots(t, area, gap)
        invariant Sound() && layout.nodes[..] == nodes && Same(old(views[..]), views[..])
        invariant views[..] == PlaceAll(old(views[..]), done, active)
        decreases Weight(trees)
      {
        sp := sp - 1;
        var n, r := stackIdx[sp], stackRect[sp];
        ghost var top, slots, rects := trees[sp], stackIdx[..sp + 1], stackRect[..sp + 1];
        assert rects[..sp] == stackRect[..sp] && slots[..sp] == stackIdx[..sp];
        StackPop(slots, trees, nodes, active);
        StackTop(nodes, trees, rects, active, gap, top, r);
        if 0 <= n < MAX_NODES && layout.nodes[n].used && layout.nodes[n].ws == active {
          if !layout.nodes[n].split {
            PlaceNext(old(views[..]), done, top.v, r, active);
            ghost var before := views[..];
            PlaceOne(layout.nodes[n].view, r);
            SameTrans(old(views[..]), before, views[..]);
            assert done + ([Spot(top.v, r)] + Remaining(trees[..sp], rects[..sp], gap))
                == done + [Spot(top.v, r)] + Remaining(trees[..sp], rects[..sp], gap);
            done := done + [Spot(top.v, r)];
            trees := trees[..sp];
            StackFits(trees);
          } else {
            var a, b := layout.nodes[n].a, layout.nodes[n].b;
            var vertical := layout.nodes[n].vertical;
            PushParts(trees, rects, gap);
            trees := trees[..sp] + [top.r, top.l];
            StackFits(trees);
            PushTwo(stackIdx, stackRect, sp, a, b, First(r, vertical, gap), Second(r, vertical, gap));
            sp := sp + 2;
            StackPush(slots[..sp - 2], trees[..sp - 2], nodes, active, top.r, top.l);
            assert trees[..sp - 2] + [top.r, top.l] == trees;
          }
        }
      }
      assert trees == [];
      StackDone(trees, stackRect[..sp], gap);
      assert done == Spots(t, area, gap);
      SameKeeps(old(views[..]), views[..], layout.spaces, -1);
    }

    /** The second part goes under the first, which is visited next. */
    static method PushTwo(slots: array<int>, rects: array<Rect>, sp: nat, a: int, b: int, ra: Rect, rb: Rect)
      requires slots.Length == rects.Length && sp + 1 < slots.Length && slots as object != rects as object
      modifies slots, rects
      ensures slots[..sp + 2] == old(slots[..sp]) + [b, a] && rects[..sp + 2] == old(rects[..sp]) + [rb, ra]
    {
      slots[sp], rects[sp] := b, rb;
      slots[sp + 1], rects[sp + 1] := a, ra;
    }

    /** One leaf's view goes to its spot, if it is tiled here and the spot has any room. */
    method PlaceOne(v: int, r: Rect)
      requires Sound()
      modifies views
      ensures Sound() && Same(old(views[..]), views[..])
      ensures views[..] == if 0 <= v < MAX_VIEWS then old(views[..])[v := Placed(old(views[v]), r, active)]
              else old(views[..])
    {
      hide Exact, ViewsOk, Layout, Max;
      SameSelf(views[..]);
      if !(0 <= v < MAX_VIEWS) || !views[v].mapped || views[v].ui || views[v].ws != active || views[v].floating {
        return;
      }
      if r.w > 0 && r.h > 0 {
        views[v] := Placed(views[v], r, active);
      }
      assert views[..] == old(views[..])[v := views[v]];
      SameUpdate(old(views[..]), v, views[v]);
    }

    method ShowActive()
      requires Sound()
      modifies views
      ensures Sound() && (Valid() <==> old(Valid())) && Same(old(views[..]), views[..])
      ensures views[..] == Arranged(old(views[..]), active)
    {
      hide Exact, ViewsOk, Hidden, Shown;
      for i := 0 to views.Length
        invariant forall j :: i <= j < views.Length ==> views[j] == old(views[j])
        invariant forall j :: 0 <= j < i ==>
                    views[j] == if old(views[j]).ws != active then Hidden(old(views[j])) else Shown(old(views[j]))
      {
        views[i] := if views[i].ws != active then Hidden(views[i]) else Shown(views[i]);
      }
      ArrangedSame(old(views[..]), active);
      assert views[..] == Arranged(old(views[..]), active);
      SameKeeps(old(views[..]), views[..], layout.spaces, -1);
    }

    /**
     * Gives a new tiled view its slot and its leaf, beside the focused view when that is tiled here. A view
     * in the very slot the focus was left on would be put beside itself, and gets no leaf unless it is the first.
     */
    method Adopt(client: nat, surface: nat, x: int, y: int, w: nat, h: nat) returns (idx: int)
      requires Valid() && surface != 0
      modifies views, layout, layout.nodes, layout.roots
      ensures Sound() && -1 <= idx < MAX_VIEWS
      ensures idx < 0 ==> AllTaken(old(views[..])) && views[..] == old(views[..])
      ensures idx >= 0 ==> FirstFree(old(views[..]), idx)
                           && views[..] == old(views[..])[idx := NewView(client, surface, active).(x := x, y := y,
                              w := w, h := h)]
      ensures Valid() <==> !(idx >= 0 && idx == focused && old(layout.roots[..])[active] >= 0)
      ensures if idx < 0 || (idx == focused && old(layout.roots[..])[active] >= 0)
              then layout.spaces == old(layout.spaces)
              else CameTo(old(layout.spaces), layout.spaces, active, Preferred(old(views[..]), focused, active), idx,
                          old(views[..]), screenW, screenH)
    {
      hide Layout, Exact, ViewsOk, Came, PickVertical, FirstFree;
      SpacesAre(layout.nodes[..], layout.roots[..], layout.spaces);
      idx := AllocView(client, surface);
      if idx < 0 {
        return;
      }
      FreeIs(old(views[..]), idx);
      views[idx] := views[idx].(x := x, y := y, w := w, h := h, hidden := false);
      ghost var added := NewView(client, surface, active).(x := x, y := y, w := w, h := h);
      assert views[..] == old(views[..])[idx := added];
      Added(old(views[..]), layout.spaces, idx, added);
      var prefer := -1;
      if 0 <= focused < MAX_VIEWS && IsTiled(views[focused]) && views[focused].ws == active {
        prefer := focused;
      }
      if prefer == idx {
        if layout.roots[active] >= 0 {
          ExactMissing(views[..], layout.spaces, idx);
          return;
        }
        prefer := -1;
      } else if prefer >= 0 {
        FocusedIsTiled(views[..], layout.spaces, prefer, idx, active);
      }
      var snapshot, sw, sh := views[..], screenW, screenH;
      var vertical := (i: nat) => PickVertical(snapshot, sw, sh, i);
      Room(layout.nodes[..], layout.roots[..], layout.spaces, views[..], idx);
      layout.Place(active, prefer, idx, vertical, views[..]);
      ExactPlaced(views[..], old(layout.spaces), idx, layout.spaces[active]);
      CameBefore(old(layout.spaces), layout.spaces, active, prefer, idx, old(views[..]), views[..], sw, sh, vertical);
    }

    /** A tiled view starts to float: the mark first, then its leaf goes. */
    method Float(idx: nat)
      requires Valid() && idx < MAX_VIEWS && IsTiled(views[idx])
      modifies views, layout, layout.nodes, layout.roots
      ensures Valid() && views[..] == old(views[..])[idx := old(views[idx]).(floating := true)]
      ensures Left(old(layout.spaces), layout.spaces, idx)
    {
      hide Layout, Exact, ViewsOk, Left;
      ViewAt(views[..], idx);
      views[idx] := views[idx].(floating := true);
      layout.RemoveView(views[idx].ws, idx);
      LeftAll(old(views[..]), old(layout.spaces), layout.spaces, idx);
      ExactRemoved(old(views[..]), old(layout.spaces), idx, layout.spaces[views[idx].ws]);
      assert views[..] == old(views[..])[idx := views[idx]];
      Changed(old(views[..]), layout.spaces, idx, views[idx]);
    }

    method ToggleFloating()
      requires Valid()
      modifies views, layout, layout.nodes, layout.roots
      ensures Sound() && (Valid() <==> !old(ToggleBreaks()))
      ensures Toggled(old(views[..]), views[..], old(layout.spaces), layout.spaces, focused, active, screenW, screenH)
    {
      hide Layout, Exact, ViewsOk, Left, CameTo;
      var idx := focused;
      if !(0 <= idx < MAX_VIEWS) || !Visible(views[idx], active) {
        return;
      }
      ViewAt(views[..], idx);
      if !views[idx].floating {
        Float(idx);
      } else {
        Sink(idx);
      }
      ApplyLayout();
    }

    /** A floating view is tiled again, beside any tiled view of its workspace; the bar would not be tiled for it. */
    method Sink(idx: nat)
      requires Valid() && idx < MAX_VIEWS && views[idx].mapped && views[idx].floating
      modifies views, layout, layout.nodes, layout.roots
      ensures Sound() && views[..] == old(views[..])[idx := old(views[idx]).(floating := false)]
      ensures Valid() <==> !old(views[idx]).ui
      ensures CameTo(old(layout.spaces), layout.spaces, old(views[idx]).ws, -1, idx, old(views[..]), screenW, screenH)
    {
      hide Layout, Exact, ViewsOk, CameTo;
      ViewAt(views[..], idx);
      views[idx] := views[idx].(floating := false);
      assert views[..] == old(views[..])[idx := views[idx]];
      ExactUntiled(old(views[..]), layout.spaces, idx);
      ExactChange(old(views[..]), layout.spaces, idx, views[idx]);
      if !views[idx].ui {
        Changed(old(views[..]), layout.spaces, idx, views[idx]);
      }
      TileAnywhere(idx, old(views[..]));
    }

    /** Places a view on its way beside any leaf of its workspace. */
    method TileAnywhere(idx: nat, ghost before: seq<View>)
      requires Separate() && layout.Valid() && views.Length == MAX_VIEWS && idx < MAX_VIEWS
      requires Exact(views[..], layout.spaces, idx) && views[idx].ws < MAX_WS
      requires |before| == MAX_VIEWS && views[..] == before[idx := views[idx]]
      modifies layout, layout.nodes, layout.roots
      ensures layout.Valid() && (Exact(views[..], layout.spaces, -1) <==> IsTiled(views[idx]))
      ensures CameTo(old(layout.spaces), layout.spaces, views[idx].ws, -1, idx, before, screenW, screenH)
    {
      hide Layout, Exact, Came, PickVertical;
      var snapshot, sw, sh := views[..], screenW, screenH;
      var vertical := (i: nat) => PickVertical(snapshot, sw, sh, i);
      Room(layout.nodes[..], layout.roots[..], layout.spaces, views[..], idx);
      layout.Place(views[idx].ws, -1, idx, vertical, views[..]);
      ExactLeaf(views[..], old(layout.spaces), idx, layout.spaces[views[idx].ws]);
      CameBefore(old(layout.spaces), layout.spaces, views[idx].ws, -1, idx, before, views[..], sw, sh, vertical);
    }

    // ---- drag

    /** Where the pointer puts the dragged view. */
    function DragTarget(px: int, py: int): Rect
      reads this
    {
      if dragResize then Stretched(dragFrom, dragEdges, px - dragStart.0, py - dragStart.1)
      else Rect(px - dragOff.0, py - dragOff.1, 0, 0)
    }

    /** A resize ends with the view at the corner of the rectangle it came to. */
    method StopDrag()
      requires Sound()
      modifies this`dragActive, this`dragView, this`dragRight, this`dragSuper, this`dragResize, this`dragEdges, views
      ensures Sound() && (Valid() <==> old(Valid())) && Same(old(views[..]), views[..]) && !dragActive
      ensures views[..] == if old(dragActive) && old(dragResize) && 0 <= old(dragView) < MAX_VIEWS
              && old(views[..])[old(dragView)].mapped
                              && old(views[..])[old(dragView)].surface != 0 && Solid(dragRect)
                           then old(views[..])[old(dragView) := old(views[..])[old(dragView)].(x := dragRect.x,
                             y := dragRect.y)]
                           else old(views[..])
    {
      hide Layout, Exact, ViewsOk;
      SameSelf(views[..]);
      if !dragActive {
        return;
      }
      var idx := dragView;
      if 0 <= idx < MAX_VIEWS && views[idx].mapped && views[idx].surface != 0
         && dragResize && dragRect.w > 0 && dragRect.h > 0 {
        MoveView(idx, dragRect.x, dragRect.y);
      }
      dragActive, dragView, dragRight, dragSuper, dragResize, dragEdges := false, -1, false, false, false, NO_EDGES;
    }

    method MoveView(idx: nat, x: int, y: int)
      requires Sound() && idx < MAX_VIEWS
      modifies views
      ensures Sound() && (Valid() <==> old(Valid())) && Same(old(views[..]), views[..])
      ensures views[..] == old(views[..])[idx := old(views[idx]).(x := x, y := y)]
    {
      hide Layout, Exact, ViewsOk;
      views[idx] := views[idx].(x := x, y := y);
      SameUpdate(old(views[..]), idx, views[idx]);
      assert views[..] == old(views[..])[idx := views[idx]];
      SameKeeps(old(views[..]), views[..], layout.spaces, -1);
    }

    /** A view to be dragged floats from now on. */
    method Detach(idx: nat)
      requires Valid() && idx < MAX_VIEWS && views[idx].mapped && !views[idx].ui
      modifies views, layout, layout.nodes, layout.roots
      ensures Valid() && Same(old(views[..])[idx := old(views[idx]).(floating := true)], views[..])
      ensures Left(old(layout.spaces), layout.spaces, idx)
    {
      hide Layout, Exact, ViewsOk, Left, PlaceAll, Arranged, Parted;
      SameSelf(views[..]);
      if !views[idx].floating {
        Float(idx);
        ApplyLayout();
      } else {
        assert old(views[..])[idx := old(views[idx]).(floating := true)] == views[..];
        LeftNone(views[..], layout.spaces, idx);
      }
    }

    /** What is remembered of a drag when it starts. */
    method BeginDrag(idx: nat, at: Rect, px: int, py: int, resize: bool, edges: Edges)
      modifies this`dragActive, this`dragView, this`dragRight, this`dragSuper, this`dragResize, this`dragEdges
      modifies this`dragOff, this`dragStart, this`dragFrom, this`dragRect
      ensures dragActive && dragView == idx && dragSuper && dragResize == dragRight == resize
      ensures resize ==> dragEdges == edges && dragStart == (px, py) && dragFrom == dragRect == at
      ensures !resize ==> DragTarget(px, py).x == at.x && DragTarget(px, py).y == at.y
    {
      dragActive, dragView, dragRight, dragSuper, dragResize := true, idx, resize, true, resize;
      dragStart := (px, py);
      if resize {
        dragOff, dragEdges, dragFrom, dragRect := (0, 0), edges, at, at;
      } else {
        dragOff, dragEdges := (px - at.x, py - at.y), NO_EDGES;
      }
    }

    /** Dragging or resizing a tiled view takes it out of the tree first; a move then starts where the view is. */
    method StartDrag(idx: int, px: int, py: int, resize: bool, edges: Edges)
      requires Valid()
      modifies this, views, layout, layout.nodes, layout.roots
      ensures Valid() && focused == old(focused) && active == old(active)
      ensures 0 <= idx < MAX_VIEWS && !old(views[idx]).ui && Visible(old(views[idx]), active) ==>
                && dragActive && dragView == idx && dragSuper && dragResize == dragRight == resize
                && Same(old(views[..])[idx := old(views[idx]).(floating := true)], views[..])
                && Left(old(layout.spaces), layout.spaces, idx)
                && (resize ==> dragEdges == edges && dragStart == (px, py)
                               && dragFrom == dragRect == Rect(views[idx].x, views[idx].y, views[idx].w, views[idx].h))
                && (!resize ==> DragTarget(px, py).x == views[idx].x && DragTarget(px, py).y == views[idx].y)
      ensures !(0 <= idx < MAX_VIEWS && !old(views[idx]).ui && Visible(old(views[idx]), active)) ==>
                views[..] == old(views[..]) && layout.spaces == old(layout.spaces)
    {
      hide Layout, Exact, ViewsOk, Left, Same, Stretched;
      if !(0 <= idx < MAX_VIEWS) || views[idx].ui || !Visible(views[idx], active) {
        return;
      }
      Detach(idx);
      BeginDrag(idx, Rect(views[idx].x, views[idx].y, views[idx].w, views[idx].h), px, py, resize, edges);
    }

    // ---- actions

    method FocusNext(dir: int)
      requires Valid() && (dir == 1 || dir == -1)
      modifies views, `focused
      ensures Valid() && Same(old(views[..]), views[..])
      ensures || NextFocus(old(views[..]), active, StartOf(old(focused)), dir, focused)
              || (NoFocus(old(views[..]), active) && focused == old(focused))
      ensures old(OnWindow(views[..], focused)) ==> OnWindow(views[..], focused)
    {
      hide Layout, Exact, ViewsOk, Same, Slot;
      SameSelf(views[..]);
      var start := StartOf(focused);
      for step := 1 to MAX_VIEWS + 1
        invariant views[..] == old(views[..]) && focused == old(focused) && Valid()
        invariant forall s: nat :: 1 <= s < step ==> !Focusable(old(views[..])[Slot(start, dir, s)], active)
      {
        var idx := Slot(start, dir, step);
        if Focusable(views[idx], active) {
          FocusView(idx);
          assert idx == Slot(start, dir, step) && Focusable(old(views[..])[idx], active);
          return;
        }
      }
      EverySlot(old(views[..]), active, start, dir);
    }

    method SwitchWorkspace(ws: nat)
      requires Valid()
      modifies views, `focused, `active
      ensures Valid() && Same(old(views[..]), views[..])
      ensures ws < MAX_WS ==> active == ws
      ensures ws >= MAX_WS || ws == old(active) ==>
                active == old(active) && focused == old(focused) && views[..] == old(views[..])
      ensures ws < MAX_WS && ws != old(active) ==> FirstOn(old(views[..]), ws, focused) && Parted(views[..], ws)
      ensures old(OnWindow(views[..], focused)) ==> OnWindow(views[..], focused)
    {
      hide Layout, Exact, ViewsOk, PlaceAll, Arranged, Parted;
      SameSelf(views[..]);
      if ws >= MAX_WS || active == ws {
        return;
      }
      active := ws;
      ShowActive();
      ghost var v1 := views[..];
      ClearFocus();
      ShownFirst(old(views[..]), v1, views[..], ws);
      SameTrans(old(views[..]), v1, views[..]);
      ghost var v2 := views[..];
      FocusFirst();
      SameTrans(old(views[..]), v2, views[..]);
      ghost var v3 := views[..];
      ApplyLayout();
      SameTrans(old(views[..]), v3, views[..]);
    }

    method MoveFocusedToWs(ws: nat)
      requires Valid()
      modifies views, `focused, layout, layout.nodes, layout.roots
      ensures Valid()
      ensures Moved(old(views[..]), views[..], old(layout.spaces), layout.spaces, old(focused), active, ws, screenW,
              screenH)
      ensures old(OnWindow(views[..], focused)) ==> OnWindow(views[..], focused)
    {
      hide Layout, Exact, ViewsOk, WentTo, PlaceAll, Arranged, Parted;
      var idx := focused;
      if ws >= MAX_WS || !(0 <= idx < MAX_VIEWS) || !Visible(views[idx], active) {
        return;
      }
      Transfer(idx, ws);
      ghost var moved := views[..];
      SameSelf(moved);
      if ws != active {
        HideView(idx);
        ClearFocus();
        FocusFirst();
      }
      ghost var shown := views[..];
      ApplyLayout();
      SameTrans(moved, shown, views[..]);
    }

    /** Out of the tree of one workspace and into another's; a floating view only changes its number. */
    method Transfer(idx: nat, ws: nat)
      requires Valid() && idx < MAX_VIEWS && ws < MAX_WS && views[idx].mapped
      modifies views, layout, layout.nodes, layout.roots
      ensures Valid() && views[..] == old(views[..])[idx := old(views[idx]).(ws := ws)]
      ensures if old(views[idx]).floating then layout.spaces == old(layout.spaces)
              else WentTo(old(layout.spaces), layout.spaces, ws, idx, old(views[..]), screenW, screenH)
    {
      hide Layout, Exact, ViewsOk, WentTo, CameTo, Left;
      ViewAt(views[..], idx);
      var from := views[idx].ws;
      if !views[idx].floating {
        layout.RemoveView(from, idx);
        LeftAll(old(views[..]), old(layout.spaces), layout.spaces, idx);
        ExactRemoved(old(views[..]), old(layout.spaces), idx, layout.spaces[from]);
      } else {
        ExactUntiled(old(views[..]), layout.spaces, idx);
      }
      Changed(old(views[..]), layout.spaces, idx, views[idx].(ws := ws));
      views[idx] := views[idx].(ws := ws);
      assert views[..] == old(views[..])[idx := views[idx]];
      if !views[idx].floating {
        ghost var mid := layout.spaces;
        TileAnywhere(idx, old(views[..]));
        WentVia(old(layout.spaces), mid, layout.spaces, ws, idx, old(views[..]), screenW, screenH);
      }
    }

    method HideView(idx: nat)
      requires Sound() && idx < MAX_VIEWS
      modifies views
      ensures Sound() && (Valid() <==> old(Valid())) && Same(old(views[..]), views[..])
    {
      hide Layout, Exact, ViewsOk, Hidden;
      HiddenAlike(views[idx]);
      views[idx] := Hidden(views[idx]);
      SameUpdate(old(views[..]), idx, views[idx]);
      assert views[..] == old(views[..])[idx := views[idx]];
      SameKeeps(old(views[..]), views[..], layout.spaces, -1);
    }

    /** Asks the focused view to close; the focus goes on to the next view, if there is one that can take it. */
    method CloseFocused()
      requires Valid()
      modifies views, `focused
      ensures Valid() && Same(old(views[..]), views[..])
      ensures if old(focused) >= 0 && Visible(old(views[focused]), active)
              then NextFocus(old(views[..]), active, old(focused), 1, focused)
                || (NoFocus(old(views[..]), active) && focused == old(focused))
              else focused == old(focused) && views[..] == old(views[..])
      ensures old(OnWindow(views[..], focused)) ==> OnWindow(views[..], focused)
    {
      hide Layout, Exact, ViewsOk, Same, Slot;
      SameSelf(views[..]);
      var idx := focused;
      if !(0 <= idx < MAX_VIEWS) || !Visible(views[idx], active) {
        return;
      }
      var next := PickNextFocus(idx);
      if next >= 0 {
        FocusView(next);
      }
    }

    // ---- events

    /** The bar's surface is mapped: its view is marked in its slot, or takes a free one. */
    method PlaceBar(client: nat, w: nat, h: nat) returns (ghost at: int)
      requires Valid()
      modifies views, `barClient, `barSurface, `barH
      ensures Sound() && barClient == client && barSurface == BAR && barH == if h != 0 then h else old(barH)
      ensures Valid() <==> !old(TiledFirst(views[..], client, BAR))
      ensures at < 0 ==>
                || (exists i :: FirstMatch(old(views[..]), client, BAR, i) && Barred(old(views[..]), views[..], i))
                || (NoMatch(old(views[..]), client, BAR) && AllTaken(old(views[..])) && views[..] == old(views[..]))
      ensures at >= 0 ==>
                && NoMatch(old(views[..]), client, BAR) && Entered(old(views[..]), views[..], at, client, BAR)
                && views[at].ui
    {
      hide Layout, Exact, ViewsOk, PlaceAll, Arranged, Parted, FirstFree, TiledFirst;
      at := -1;
      barClient, barSurface := client, BAR;
      if h != 0 {
        barH := h;
      }
      var idx := FindView(client, BAR);
      if idx >= 0 {
        OnlyMatch(views[..], client, BAR, idx);
        ViewAt(views[..], idx);
        views[idx] := Bar(views[idx], w, h);
        assert views[..] == old(views[..])[idx := views[idx]];
        Marked(old(views[..]), layout.spaces, idx, views[idx]);
        BarredAt(old(views[..]), views[..], idx);
      } else {
        NoneTiled(views[..], client, BAR);
        idx := AllocView(client, BAR);
        if idx < 0 {
          return;
        }
        FreeIs(old(views[..]), idx);
        views[idx] := Bar(views[idx], w, h);
        assert views[..] == old(views[..])[idx := views[idx]];
        Added(old(views[..]), layout.spaces, idx, views[idx]);
        at := idx;
        EnteredAt(old(views[..]), views[..], idx, client, BAR);
      }
      ghost var placed := views[..];
      ApplyLayout();
      EnteredSame(old(views[..]), placed, views[..], idx, client, BAR);
      BarredSame(old(views[..]), placed, views[..], idx);
      assert Alike(placed[idx], views[..][idx]);
    }

    /**
     * A new surface takes a slot and a leaf on the active workspace, unless it is the bar or no slot is free.
     * The trees stay exact if and only if the event is not one of those that break them.
     */
    method OnMap(client: nat, surface: nat, background: bool, replay: bool, x: int, y: int, w: nat, h: nat)
      returns (ghost at: int)
      requires Valid()
      modifies this, views, layout, layout.nodes, layout.roots
      ensures Sound() && active == old(active) && screenW == old(screenW) && screenH == old(screenH)
      ensures Valid() <==> !old(MapBreaks(client, surface, background))
      ensures surface == 0 || background ==> at < 0 && views[..] == old(views[..]) && focused == old(focused)
      ensures at < 0 ==> layout.spaces == old(layout.spaces) && (surface != BAR ==> Same(old(views[..]), views[..]))
      ensures surface != 0 && !background && at < 0 ==>
                || (NoMatch(old(views[..]), client, surface) && AllTaken(old(views[..])) && views[..] == old(views[..]))
                || (exists i :: (FirstMatch(old(views[..]), client, surface, i)
                                 && (surface == BAR ==> Barred(old(views[..]), views[..], i))))
      ensures at >= 0 ==>
                NoMatch(old(views[..]), client, surface) && Entered(old(views[..]), views[..], at, client, surface)
      ensures at >= 0 && surface == BAR ==> views[at].ui && layout.spaces == old(layout.spaces)
      ensures at >= 0 && surface != BAR ==>
                && IsTiled(views[at]) && views[at].ws == active && Parted(views[..], active)
                && if old(MapBreaks(client, surface, background)) then layout.spaces == old(layout.spaces)
                   else CameTo(old(layout.spaces), layout.spaces, active,
                     Preferred(old(views[..]), old(focused), active), at,
                               old(views[..]), screenW, screenH)
      ensures focused == old(focused)
              || (surface != BAR && 0 <= focused < views.Length && Matches(views[focused], client, surface))
      ensures at >= 0 && surface != BAR && !replay ==> focused == at
    {
      hide Layout, Exact, ViewsOk, Entered, CameTo, Preferred, FirstFree, FirstMatch, NoMatch, AllTaken, Barred,
           TiledFirst;
      SameSelf(views[..]);
      at := -1;
      if surface == 0 || background {
        return;
      }
      if surface == BAR {
        at := PlaceBar(client, w, h);
        return;
      }
      var idx := FindView(client, surface);
      MatchedOr(views[..], client, surface, idx);
      if idx >= 0 {
        Resume(idx, x, y, w, h);
        SameMatch(old(views[..]), views[..], client, surface, idx);
        Settle(client, surface, replay, idx);
        return;
      }
      idx := Admit(client, surface, replay, x, y, w, h);
      at := idx;
    }

    /** A new surface: slot and leaf, then layout and focus. */
    method Admit(client: nat, surface: nat, replay: bool, x: int, y: int, w: nat, h: nat) returns (idx: int)
      requires Valid() && surface != 0 && NoMatch(views[..], client, surface)
      modifies views, `focused, layout, layout.nodes, layout.roots
      ensures Sound() && -1 <= idx < MAX_VIEWS
      ensures Valid() <==> !old(Unplaced(client, surface))
      ensures idx < 0 ==> AllTaken(old(views[..])) && views[..] == old(views[..]) && layout.spaces == old(layout.spaces)
      ensures idx >= 0 ==>
                && Entered(old(views[..]), views[..], idx, client, surface)
                && IsTiled(views[idx]) && views[idx].ws == active && Parted(views[..], active)
                && if old(Unplaced(client, surface)) then layout.spaces == old(layout.spaces)
                   else CameTo(old(layout.spaces), layout.spaces, active,
                     Preferred(old(views[..]), old(focused), active), idx,
                               old(views[..]), screenW, screenH)
      ensures focused == old(focused) || (0 <= focused < views.Length && Matches(views[focused], client, surface))
      ensures idx >= 0 && !replay ==> focused == idx
    {
      hide Layout, Exact, ViewsOk, CameTo, Preferred, FirstFree, NoMatch, AllTaken, Entered, Parted;
      SpacesAre(layout.nodes[..], layout.roots[..], layout.spaces);
      idx := Adopt(client, surface, x, y, w, h);
      if idx < 0 {
        NoneFree(views[..], focused);
        return;
      }
      FreeIsOne(old(views[..]), idx, focused);
      EnteredAt(old(views[..]), views[..], idx, client, surface);
      ghost var entered := views[..];
      EnteredFirst(old(views[..]), entered, client, surface, idx);
      Settle(client, surface, replay, idx);
      assert Alike(entered[idx], views[..][idx]);
      EnteredSame(old(views[..]), entered, views[..], idx, client, surface);
    }

    method FocusOn(client: nat, surface: nat)
      requires Sound()
      modifies views, `focused
      ensures Sound() && (Valid() <==> old(Valid())) && Same(old(views[..]), views[..])
      ensures focused == old(focused) || (0 <= focused < views.Length && Matches(views[focused], client, surface))
      ensures forall i :: FirstMatch(old(views[..]), client, surface, i) && Focusable(old(views[..])[i], active) ==>
                focused == i
      ensures old(Parted(views[..], active)) ==> Parted(views[..], active)
    {
      hide Layout, Exact, ViewsOk, NoMatch;
      var at := FindView(client, surface);
      FocusView(at);
      if at >= 0 {
        assert Alike(old(views[..])[at], views[..][at]);
      }
      forall i | FirstMatch(old(views[..]), client, surface, i) ensures i == at {
        MatchIsOne(old(views[..]), client, surface, i, at);
      }
    }

    /** Layout and focus after a view was mapped; a replayed map takes the focus only when nobody has it. */
    method Settle(client: nat, surface: nat, replay: bool, idx: nat)
      requires Sound() && FirstMatch(views[..], client, surface, idx)
      modifies views, `focused
      ensures Sound() && (Valid() <==> old(Valid())) && Same(old(views[..]), views[..])
      ensures focused == old(focused) || (0 <= focused < views.Length && Matches(views[focused], client, surface))
      ensures idx < views.Length && (!replay && OnSpace(old(views[idx]), active) ==> focused == idx)
      ensures Parted(views[..], active)
    {
      hide Layout, Exact, ViewsOk, PlaceAll, Arranged, FirstMatch;
      SameSelf(views[..]);
      OnlyMatch(views[..], client, surface, idx);
      if !replay {
        ApplyLayout();
        assert Alike(old(views[..])[idx], views[..][idx]);
        SameMatch(old(views[..]), views[..], client, surface, idx);
        FocusOn(client, surface);
      } else {
        if views[idx].ws != active {
          HideView(idx);
        }
        if focused < 0 && views[idx].ws == active {
          FocusOn(client, surface);
        }
        ghost var before := views[..];
        ApplyLayout();
        if focused >= 0 {
          assert Alike(before[focused], views[..][focused]);
        }
      }
    }

    /** A view that is mapped again takes the reported geometry and is no longer hidden. */
    method Resume(idx: nat, x: int, y: int, w: nat, h: nat)
      requires Valid() && idx < MAX_VIEWS
      modifies views
      ensures Valid() && Same(old(views[..]), views[..])
    {
      hide Layout, Exact, ViewsOk;
      views[idx] := views[idx].(x := x, y := y, w := w, h := h, hidden := false);
      SameUpdate(old(views[..]), idx, views[idx]);
      assert views[..] == old(views[..])[idx := views[idx]];
      SameKeeps(old(views[..]), views[..], layout.spaces, -1);
    }

    /** Empties a slot; a tiled view's leaf goes with it. */
    method Discard(idx: nat)
      requires Valid() && idx < MAX_VIEWS && views[idx].mapped
      modifies `focused, views, layout, layout.nodes, layout.roots
      ensures Valid() && Same(old(views[..])[idx := NO_VIEW], views[..])
      ensures focused == if old(focused) == idx then -1 else old(focused)
      ensures Left(old(layout.spaces), layout.spaces, idx)
    {
      hide Layout, Exact, ViewsOk, Left;
      ViewAt(views[..], idx);
      if !views[idx].floating {
        layout.RemoveView(views[idx].ws, idx);
        LeftAll(old(views[..]), old(layout.spaces), layout.spaces, idx);
        ExactRemoved(old(views[..]), old(layout.spaces), idx, layout.spaces[views[idx].ws]);
      } else {
        LeftNone(views[..], layout.spaces, idx);
        ExactUntiled(views[..], layout.spaces, idx);
      }
      Changed(old(views[..]), layout.spaces, idx, NO_VIEW);
      views[idx] := NO_VIEW;
      assert views[..] == old(views[..])[idx := NO_VIEW];
      SameSelf(views[..]);
      if focused == idx {
        ClearFocus();
      }
    }

    /** Only empties the slot: neither a leaf nor the focus goes with it. */
    method DropBar(idx: nat, client: nat, surface: nat)
      requires Valid() && idx < MAX_VIEWS
      modifies views, `barClient
      ensures Sound() && views[..] == old(views[..])[idx := NO_VIEW]
      ensures Valid() <==> !IsTiled(old(views[idx]))
      ensures barClient == if old(barClient) == client && barSurface == surface then CLIENT_NONE else old(barClient)
    {
      hide Layout, Exact, ViewsOk;
      if barClient == client && barSurface == surface {
        barClient := CLIENT_NONE;
      }
      views[idx] := NO_VIEW;
      assert views[..] == old(views[..])[idx := NO_VIEW];
      Marked(old(views[..]), layout.spaces, idx, NO_VIEW);
    }

    /** The surface's slot is emptied; its leaf and the focus go too, unless it is the bar's. */
    method OnUnmap(client: nat, surface: nat) returns (ghost idx: int)
      requires Valid()
      modifies this, views, layout, layout.nodes, layout.roots
      ensures Sound() && active == old(active)
      ensures Valid() <==> !old(UnmapBreaks(client, surface))
      ensures idx < 0 ==>
                && NoMatch(old(views[..]), client, surface) && views[..] == old(views[..])
                && layout.spaces == old(layout.spaces) && focused == old(focused)
      ensures idx >= 0 ==>
                FirstMatch(old(views[..]), client, surface, idx) && Same(old(views[..])[idx := NO_VIEW], views[..])
      ensures idx >= 0 && surface == BAR ==> layout.spaces == old(layout.spaces) && focused == old(focused)
      ensures idx >= 0 && surface != BAR ==>
                && Left(old(layout.spaces), layout.spaces, idx) && focused != idx
                && (focused == old(focused) || OnWindow(views[..], focused))
    {
      hide Layout, Exact, ViewsOk, Left, NextFocus, NoFocus, FirstMatch, TiledFirst;
      var found := FindView(client, surface);
      idx := found;
      if found < 0 {
        NoneTiled(views[..], client, surface);
        return;
      }
      OnlyMatch(views[..], client, surface, found);
      ViewAt(views[..], found);
      if views[found].ui || surface == BAR {
        DropBar(found, client, surface);
        SameSelf(views[..]);
        return;
      }
      SameSelf(views[..]);
      if dragActive && dragView == found {
        StopDrag();
      }
      ghost var before := views[..];
      assert Alike(old(views[..])[found], before[found]);
      SameReplaced(old(views[..]), before, found, NO_VIEW);
      var wasFocused := focused == found;
      Discard(found);
      SameTrans(old(views[..])[found := NO_VIEW], before[found := NO_VIEW], views[..]);
      if wasFocused || focused < 0 {
        ghost var mid := views[..];
        assert Alike(old(views[..])[found := NO_VIEW][found], mid[found]);
        Refocus(found);
        SameTrans(old(views[..])[found := NO_VIEW], mid, views[..]);
      }
    }

    method Refocus(from: nat)
      requires Valid()
      modifies views, `focused
      ensures Valid() && Same(old(views[..]), views[..])
      ensures || NextFocus(old(views[..]), active, StartOf(from), 1, focused)
              || (NoFocus(old(views[..]), active) && focused == -1)
      ensures OnWindow(views[..], focused)
    {
      hide Layout, Exact, ViewsOk, Slot;
      var next := PickNextFocus(from);
      if next >= 0 {
        FocusView(next);
        assert Alike(old(views[..])[next], views[..][next]);
      } else {
        ClearFocus();
      }
    }

    /**
     * An unknown surface is taken in as by a map, the bar's too, as a tiled view. A known floating view
     * takes its new size, and the bar's is marked, whatever it was before.
     */
    method OnCommit(client: nat, surface: nat, background: bool, x: int, y: int, w: nat, h: nat) returns (ghost at: int)
      requires Valid()
      modifies this, views, layout, layout.nodes, layout.roots
      ensures Sound() && active == old(active) && screenW == old(screenW) && screenH == old(screenH)
      ensures Valid() <==> !old(CommitBreaks(client, surface, background))
      ensures surface == 0 || background ==> at < 0 && views[..] == old(views[..]) && focused == old(focused)
      ensures at < 0 ==> layout.spaces == old(layout.spaces) && (surface != BAR ==> Same(old(views[..]), views[..]))
      ensures surface != 0 && !background && at < 0 ==>
                || (NoMatch(old(views[..]), client, surface) && AllTaken(old(views[..])) && views[..] == old(views[..]))
                || (exists i :: (FirstMatch(old(views[..]), client, surface, i)
                                 && (surface == BAR ==> Barred(old(views[..]), views[..], i))))
      ensures at >= 0 ==>
                && NoMatch(old(views[..]), client, surface) && Entered(old(views[..]), views[..], at, client, surface)
                && IsTiled(views[at]) && views[at].ws == active && Parted(views[..], active)
                && if old(CommitBreaks(client, surface, background)) then layout.spaces == old(layout.spaces)
                   else CameTo(old(layout.spaces), layout.spaces, active,
                     Preferred(old(views[..]), old(focused), active), at,
                               old(views[..]), screenW, screenH)
      ensures if at >= 0 then focused == at else focused == old(focused)
    {
      hide Layout, Exact, ViewsOk, Entered, CameTo, Preferred, FirstFree, FirstMatch, NoMatch, AllTaken, Barred,
           TiledFirst;
      SameSelf(views[..]);
      at := -1;
      if surface == 0 || background {
        return;
      }
      var idx := FindView(client, surface);
      MatchedOr(views[..], client, surface, idx);
      if idx < 0 {
        NoneTiled(views[..], client, surface);
        idx := Admit(client, surface, false, x, y, w, h);
        at := idx;
        return;
      }
      CommitKnown(idx, client, surface, w, h);
    }

    /** A floating view takes its new size; the bar is marked and goes back to its place. */
    method CommitKnown(idx: nat, client: nat, surface: nat, w: nat, h: nat)
      requires Valid() && FirstMatch(views[..], client, surface, idx)
      modifies views, `barClient, `barSurface, `barH
      ensures Sound() && (Valid() <==> !(surface == BAR && old(TiledFirst(views[..], client, BAR))))
      ensures if surface == BAR then Barred(old(views[..]), views[..], idx) else Same(old(views[..]), views[..])
    {
      hide Layout, Exact, ViewsOk;
      OnlyMatch(views[..], client, surface, idx);
      ViewAt(views[..], idx);
      if views[idx].floating {
        views[idx] := views[idx].(w := w, h := h);
      }
      ghost var resized := views[..];
      assert resized == old(views[..])[idx := resized[idx]];
      SameUpdate(old(views[..]), idx, resized[idx]);
      SameKeeps(old(views[..]), resized, layout.spaces, -1);
      if surface == BAR || views[idx].ui {
        views[idx] := Bar(views[idx], views[idx].w, views[idx].h);
        barClient, barSurface := client, BAR;
        if views[idx].h != 0 {
          barH := views[idx].h;
        }
        assert views[..] == resized[idx := views[idx]];
        Marked(resized, layout.spaces, idx, views[idx]);
        BarredAt(resized, views[..], idx);
        assert views[..] == old(views[..])[idx := views[idx]];
        BarredAt(old(views[..]), views[..], idx);
      }
    }

    method OnClick(client: nat, surface: nat, background: bool)
      requires Valid()
      modifies views, `focused
      ensures Valid() && Same(old(views[..]), views[..])
      ensures focused == old(focused)
              || (surface != BAR && 0 <= focused < views.Length && Matches(views[focused], client, surface))
    {
      hide Layout, Exact, ViewsOk, Same;
      SameSelf(views[..]);
      if surface == 0 || background || surface == BAR {
        return;
      }
      FocusOn(client, surface);
    }

    method BarClick(x: int)
      requires Valid()
      modifies views, `focused, `active
      ensures Valid() && Same(old(views[..]), views[..])
      ensures active == if 6 <= x < 6 + 12 * MAX_WS then (x - 6) / 12 else old(active)
      ensures old(OnWindow(views[..], focused)) ==> OnWindow(views[..], focused)
    {
      hide Layout, Exact, ViewsOk, Same, Parted;
      SameSelf(views[..]);
      if x >= 6 {
        SwitchWorkspace((x - 6) / 12);
      }
    }

    /** An active drag follows the pointer until its button or the super key is let go or the view is gone. */
    method OnDrag(released: bool, px: int, py: int)
      requires Valid() && dragActive
      modifies views, `dragActive, `dragView, `dragRight, `dragSuper, `dragResize, `dragEdges, `dragRect
      ensures Valid() && Same(old(views[..]), views[..])
      ensures dragActive <==> !released && (old(dragSuper) ==> superDown) && 0 <= old(dragView) < MAX_VIEWS
                              && Visible(old(views[..])[old(dragView)], active)
                                 && old(views[..])[old(dragView)].floating
      ensures dragActive ==>
                && dragView == old(dragView) && dragResize == old(dragResize)
                && views[..] == old(views[..])[dragView := old(views[..])[dragView].(x := old(DragTarget(px, py)).x,
                   y := old(DragTarget(px, py)).y)]
                && (dragResize ==> dragRect == old(DragTarget(px, py)))
    {
      hide Layout, Exact, ViewsOk, Same, Stretched;
      SameSelf(views[..]);
      var idx := dragView;
      if released || (dragSuper && !superDown) || !(0 <= idx < MAX_VIEWS)
         || !Visible(views[idx], active) || !views[idx].floating {
        StopDrag();
        return;
      }
      var target := DragTarget(px, py);
      if dragResize {
        dragRect := target;
      }
      MoveView(idx, target.x, target.y);
    }

    /** Drags follow the pointer; super and a button start one; a click on the bar switches; else the focus follows. */
    method OnPointer(client: nat, surface: nat, background: bool, left: bool, right: bool, px: int, py: int, x: int)
      returns (ghost at: int)
      requires Valid()
      modifies this, views, layout, layout.nodes, layout.roots
      ensures Valid()
      ensures at < 0 ==> Same(old(views[..]), views[..]) && layout.spaces == old(layout.spaces)
      ensures at >= 0 ==> Floated(old(views[..]), views[..], at) && Left(old(layout.spaces), layout.spaces, at)
                          && dragActive && dragView == at
      ensures at >= 0 && dragResize ==> at < MAX_VIEWS && dragEdges == HeldEdges(old(views[at]), px, py)
      ensures old(dragActive) && dragActive && !(surface == BAR && !background && left && !old(leftDown)) ==>
                && 0 <= dragView == old(dragView) < MAX_VIEWS && dragResize == old(dragResize)
                && views[..] == old(views[..])[dragView := old(views[..])[dragView].(x := old(DragTarget(px, py)).x,
                   y := old(DragTarget(px, py)).y)]
                && (dragResize ==> dragRect == old(DragTarget(px, py)))
      ensures Akin(old(views[..]), views[..])
      ensures old(OnWindow(views[..], focused)) ==> OnWindow(views[..], focused)
    {
      hide Layout, Exact, ViewsOk, Left, FirstMatch, NoMatch, Stretched, HeldEdges;
      SameSelf(views[..]);
      at := -1;
      var leftPressed, rightPressed := left && !leftDown, right && !rightDown;
      var released := if dragRight then rightDown && !right else leftDown && !left;
      leftDown, rightDown := left, right;
      if surface == BAR && !background && leftPressed {
        BarClick(px - x);
        return;
      }
      if dragActive {
        OnDrag(released, px, py);
        return;
      }
      if (rightPressed || leftPressed) && superDown {
        if background || surface == 0 {
          return;
        }
        at := Grab(client, surface, px, py, rightPressed);
        return;
      }
      if surface != 0 && !background && surface != BAR {
        var idx := FindView(client, surface);
        if idx != focused {
          FocusView(idx);
        }
      }
    }

    /** Super and a button: the view under the pointer takes the focus and is moved, or resized by the edges held. */
    method Grab(client: nat, surface: nat, px: int, py: int, resize: bool) returns (ghost at: int)
      requires Valid()
      modifies this, views, layout, layout.nodes, layout.roots
      ensures Valid()
      ensures at < 0 ==> Same(old(views[..]), views[..]) && layout.spaces == old(layout.spaces)
      ensures at >= 0 ==> Floated(old(views[..]), views[..], at) && Left(old(layout.spaces), layout.spaces, at)
                          && dragActive && dragView == at && dragResize == resize
      ensures at >= 0 && resize ==> at < MAX_VIEWS && dragEdges == HeldEdges(old(views[at]), px, py)
      ensures Akin(old(views[..]), views[..])
      ensures old(OnWindow(views[..], focused)) ==> OnWindow(views[..], focused)
    {
      hide Layout, Exact, ViewsOk, Left, NoMatch, Stretched, HeldEdges;
      SameSelf(views[..]);
      at := -1;
      var idx := FindView(client, surface);
      if idx < 0 {
        return;
      }
      var edges := HeldEdges(views[idx], px, py);
      FocusView(idx);
      ghost var mid := views[..];
      StartDrag(idx, px, py, resize, edges);
      FloatedSame(old(views[..]), mid, views[..], idx);
      if !mid[idx].ui && Visible(mid[idx], active) {
        at := idx;
      }
    }

    /** Workspace keys count 1 to 5 with 0 behind them; the digits of both groups mean the same workspaces. */
    static function KeySpace(digit: nat): nat {
      if digit == 5 then 0 else digit
    }

    method OnKey(code: nat)
      requires Valid()
      modifies this, views, layout, layout.nodes, layout.roots
      ensures Sound() && (Valid() <==> !(code == 0xAC && old(ToggleBreaks())))
      ensures 0x90 <= code <= 0x95 ==> active == KeySpace(code - 0x90)
      ensures !(0x90 <= code <= 0x95) ==> active == old(active)
      ensures 0xA0 <= code <= 0xA5 ==>
                Moved(old(views[..]), views[..], old(layout.spaces), layout.spaces, old(focused), active,
                  KeySpace(code - 0xA0),
                      old(screenW), old(screenH))
      ensures code == 0xAC ==>
                && focused == old(focused)
                && Toggled(old(views[..]), views[..], old(layout.spaces), layout.spaces, old(focused), active,
                   old(screenW), old(screenH))
      ensures !(0xA0 <= code <= 0xA5) && code != 0xAC ==>
                Same(old(views[..]), views[..]) && layout.spaces == old(layout.spaces)
      ensures Akin(old(views[..]), views[..])
      ensures old(OnWindow(views[..], focused)) ==> OnWindow(views[..], focused)
    {
      hide Layout, Exact, ViewsOk, Same, Moved, Toggled, NextFocus, NoFocus, FirstOn, Parted, Akin, OnWindow;
      SameSelf(views[..]);
      if code == 0xC0 {
        superDown := true;
      } else if code == 0xC1 {
        superDown := false;
        StopDrag();
      } else if 0x90 <= code <= 0x95 {
        SwitchWorkspace(KeySpace(code - 0x90));
      } else if 0xA0 <= code <= 0xA5 {
        MoveFocusedToWs(KeySpace(code - 0xA0));
        MovedAkin(old(views[..]), views[..], old(layout.spaces), layout.spaces, old(focused), active,
                  KeySpace(code - 0xA0), screenW, screenH);
      } else if code == 0xA9 {
        CloseFocused();
      } else if code == 0xAC {
        ToggleFloating();
        ToggledAkin(old(views[..]), views[..], old(layout.spaces), layout.spaces, focused, active, screenW, screenH);
      } else if code == 0xB1 || code == 0xB3 {
        FocusNext(-1);
      } else if code == 0xB2 || code == 0xB4 {
        FocusNext(1);
      }
      if !(0xA0 <= code <= 0xA5) && code != 0xAC {
        SameAkin(old(views[..]), views[..]);
      }
      AkinKeeps(old(views[..]), views[..], focused);
    }

    method HandleMap(client: nat, surface: nat, background: bool, replay: bool, x: int, y: int, w: nat, h: nat)
      requires Valid()
      modifies this, views, layout, layout.nodes, layout.roots
      ensures Sound() && (Valid() <==> !old(MapBreaks(client, surface, background)))
      ensures old(Calm()) && Valid() ==> Calm() && Took(old(views[..]), views[..], client, surface, background)
    {
      hide Layout, Exact, ViewsOk, Same, MapBreaks, Parted, Settled, Akin, Entered, NoMatch, AllTaken, FirstMatch,
           Barred, Newcomer, Took, CameTo, Preferred;
      ghost var was, focus := views[..], focused;
      SettledMarked(was, focus);
      ghost var at := OnMap(client, surface, background, replay, x, y, w, h);
      if at >= 0 {
        TakenSlot(was, views[..], at, client, surface);
      }
      if old(Calm()) && Valid() {
        ReportedTook(was, views[..], at, client, surface, background, focus, focused);
        ReportedSettles(was, views[..], at, client, surface, background, focus, focused);
      }
    }

    method HandleCommit(client: nat, surface: nat, background: bool, x: int, y: int, w: nat, h: nat)
      requires Valid()
      modifies this, views, layout, layout.nodes, layout.roots
      ensures Sound() && (Valid() <==> !old(CommitBreaks(client, surface, background)))
      ensures old(Calm()) && Valid() ==>
                && (Calm() <==> !(surface == BAR && old(Newcomer(views[..], client, surface, background))))
                && Took(old(views[..]), views[..], client, surface, background)
    {
      hide Layout, Exact, ViewsOk, Same, CommitBreaks, Parted, Settled, Akin, Entered, NoMatch, AllTaken, FirstMatch,
           Barred, Newcomer, Took, CameTo, Preferred;
      ghost var was, focus := views[..], focused;
      SettledMarked(was, focus);
      ghost var at := OnCommit(client, surface, background, x, y, w, h);
      if at >= 0 {
        TakenSlot(was, views[..], at, client, surface);
      }
      if old(Calm()) && Valid() {
        ReportedTook(was, views[..], at, client, surface, background, focus, focused);
        ReportedSettles(was, views[..], at, client, surface, background, focus, focused);
      }
    }

    method HandleUnmap(client: nat, surface: nat)
      requires Valid()
      modifies this, views, layout, layout.nodes, layout.roots
      ensures Sound() && (Valid() <==> !old(UnmapBreaks(client, surface)))
      ensures old(Calm()) ==> Settled(views[..], focused) && Lost(old(views[..]), views[..], client, surface)
    {
      hide Layout, Exact, ViewsOk, Same, UnmapBreaks, PlaceAll, Arranged, Parted, Settled, Akin, NoMatch, FirstMatch,
           Left, OnWindow;
      ghost var was, focus := views[..], focused;
      SameSelf(was);
      ghost var idx := OnUnmap(client, surface);
      ghost var mid := views[..];
      ApplyLayout();
      if idx >= 0 {
        OnlyMatch(was, client, surface, idx);
        SameTrans(was[idx := NO_VIEW], mid, views[..]);
        LostSettles(was, mid, views[..], client, surface, idx, focus, focused);
      } else {
        SameAkin(mid, views[..]);
        SettledAkin(was, views[..], focus, focused);
      }
    }

    method HandleClick(client: nat, surface: nat, background: bool)
      requires Valid()
      modifies views, `focused
      ensures Valid() && Akin(old(views[..]), views[..]) && (old(Calm()) ==> Calm())
    {
      hide Layout, Exact, ViewsOk, Same, Settled, Akin, OnWindow;
      OnClick(client, surface, background);
      SameAkin(old(views[..]), views[..]);
      if focused != old(focused) {
        MatchedWindow(views[..], focused, client, surface);
      }
      SettledAkin(old(views[..]), views[..], old(focused), focused);
    }

    /**
     * Every event keeps the trees exact, if and only if it is not one of those that break them. From a calm
     * state none breaks them, and every event leaves a calm state, if and only if it is not a stray commit.
     */
    method HandleEvent(ev: Event)
      requires Valid()
      modifies this, views, layout, layout.nodes, layout.roots
      ensures Sound() && (Valid() <==> !old(Breaks(ev)))
      ensures old(Calm()) ==> Valid() && (Calm() <==> !old(Strays(ev))) && Stepped(old(views[..]), views[..], ev)
    {
      hide Layout, Exact, ViewsOk, Same, MapBreaks, CommitBreaks, UnmapBreaks, ToggleBreaks, PlaceAll, Arranged, Parted;
      hide Settled, Akin, Entered, NoMatch, AllTaken, FirstMatch, Barred, Reported, Newcomer, Took, Lost;
      if Calm() {
        CalmIsSafe(ev);
      }
      match ev {
        case Map(client, surface, background, replay, x, y, w, h) =>
          HandleMap(client, surface, background, replay, x, y, w, h);
        case Unmap(client, surface) =>
          HandleUnmap(client, surface);
        case Commit(client, surface, background, x, y, w, h) =>
          HandleCommit(client, surface, background, x, y, w, h);
        case Click(client, surface, background) =>
          HandleClick(client, surface, background);
        case Key(code) =>
          OnKey(code);
          SettledAkin(old(views[..]), views[..], old(focused), focused);
        case Pointer(client, surface, background, left, right, px, py, x) =>
          ghost var _ := OnPointer(client, surface, background, left, right, px, py, x);
          SettledAkin(old(views[..]), views[..], old(focused), focused);
      }
    }

    /** What the invariant says of one workspace, spelled out. */
    lemma WorkspaceIsExact(ws: nat)
      requires Valid() && ws < MAX_WS
      ensures |layout.spaces| == MAX_WS == layout.roots.Length
      ensures layout.spaces[ws].Bare? ==> layout.roots[ws] == -1
      ensures layout.spaces[ws].Tiled? ==> Proper(layout.spaces[ws].t) && layout.roots[ws] == layout.spaces[ws].t.n
                                           && Drawn(layout.nodes[..], layout.spaces[ws].t, -1, ws)
      ensures Tiles(layout.spaces[ws]) == set i | 0 <= i < MAX_VIEWS && IsTiled(views[i]) && views[i].ws == ws
    {
      assert SpaceOk(layout.nodes[..], layout.roots[..][ws], layout.spaces[ws], ws);
      assert views[..][..] == views[..];
      forall i: nat ensures i in Tiles(layout.spaces[ws]) <==> i < MAX_VIEWS && IsTiled(views[i]) && views[i].ws == ws {
        assert i in Tiles(layout.spaces[ws]) <==> i < MAX_VIEWS && IsTiled(views[..][i]) && views[..][i].ws == ws;
      }
    }

    /** The spots of the active workspace lie in the tiled area and do not overlap. */
    lemma SpotsAreSound()
      requires Valid()
      ensures active < |layout.spaces|
      ensures forall k :: 0 <= k < |ActiveSpots()| && Solid(ActiveSpots()[k].r) ==> Within(ActiveSpots()[k].r, Area())
      ensures forall j, k :: 0 <= j < k < |ActiveSpots()| && Solid(ActiveSpots()[j].r) && Solid(ActiveSpots()[k].r) ==>
                AxRects.Apart(ActiveSpots()[j].r, ActiveSpots()[k].r)
    {
      hide Exact, ViewsOk, Layout, Spots;
      SpacesAre(layout.nodes[..], layout.roots[..], layout.spaces);
      if layout.spaces[active].Tiled? && Solid(Area()) {
        SpotsInside(layout.spaces[active].t, Area(), Max(0, gapInner));
        SpotsApart(layout.spaces[active].t, Area(), Max(0, gapInner));
      }
    }
  }
}
