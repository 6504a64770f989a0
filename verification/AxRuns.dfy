/** Event runs of axwm, the bar's first event its map, that leave its trees and views out of step. */
module AxRuns {
  import opened AxTree
  import opened AxViews
  import opened AxSteps
  import opened AxWm
  import AxPool
  import AxLayout

  /** The tiled window of slot j. */
  ghost predicate Window(v: View, j: nat) {
    Matches(v, 0, j + 1) && IsTiled(v) && v.ws == 0
  }

  /** The first k slots hold the windows 1 to k of client 0, the others nothing. */
  ghost predicate Filled(views: seq<View>, k: nat) {
    && |views| == MAX_VIEWS
    && forall j :: 0 <= j < MAX_VIEWS ==> if j < k then Window(views[j], j) else !views[j].mapped
  }

  ghost predicate OtherWindows(views: seq<View>) {
    |views| == MAX_VIEWS && forall j :: 1 <= j < MAX_VIEWS ==> Window(views[j], j)
  }

  /** All slots but the first hold their windows. */
  ghost predicate Emptied(views: seq<View>) {
    OtherWindows(views) && !views[0].mapped
  }

  /** The first slot holds the bar's surface. */
  ghost predicate WithBar(views: seq<View>, floating: bool, ui: bool) {
    && OtherWindows(views) && Matches(views[0], 1, BAR) && views[0].ws == 0
    && views[0].floating == floating && views[0].ui == ui
  }

  ghost predicate OnView(views: seq<View>, focused: int) {
    0 <= focused < |views| ==> views[focused].mapped
  }

  lemma FilledNone(views: seq<View>)
    requires |views| == MAX_VIEWS && forall i :: 0 <= i < |views| ==> views[i] == NO_VIEW
    ensures Filled(views, 0) && OnView(views, -1)
  {
  }

  /** A surface that is not there yet takes slot k, which is not the focused one. */
  lemma FilledIs(views: seq<View>, k: nat, focused: int)
    requires Filled(views, k) && k < MAX_VIEWS && OnView(views, focused)
    ensures NoMatch(views, 0, k + 1) && !AllTaken(views) && !FirstFree(views, focused)
  {
    assert !views[k].mapped;
  }

  lemma FilledNext(views: seq<View>, views2: seq<View>, k: nat, at: int, focused: int, focused2: int)
    requires Filled(views, k) && k < MAX_VIEWS && Entered(views, views2, at, 0, k + 1) && OnView(views, focused)
    requires IsTiled(views2[at]) && views2[at].ws == 0
    requires focused2 == focused || (0 <= focused2 < |views2| && Matches(views2[focused2], 0, k + 1))
    ensures Filled(views2, k + 1) && OnView(views2, focused2)
  {
    assert !views[k].mapped && !views[at].mapped;
    assert at == k;
    assert forall j :: 0 <= j < MAX_VIEWS ==> Alike(views[at := views2[at]][j], views2[j]);
  }

  lemma FilledAll(views: seq<View>)
    requires Filled(views, MAX_VIEWS)
    ensures AllTaken(views) && NoMatch(views, 1, BAR) && FirstMatch(views, 0, 1, 0)
            && forall i :: !FirstFree(views, i)
  {
    assert Matches(views[0], 0, 1);
  }

  lemma EmptiedFirst(views: seq<View>, views2: seq<View>, i: int)
    requires Filled(views, MAX_VIEWS) && FirstMatch(views, 0, 1, i) && Same(views[i := NO_VIEW], views2)
    ensures i == 0 && Emptied(views2)
  {
    assert Matches(views[0], 0, 1);
    assert i == 0;
    assert forall j :: 0 <= j < MAX_VIEWS ==> Alike(views[i := NO_VIEW][j], views2[j]);
  }

  lemma EmptiedIs(views: seq<View>, client: nat, surface: nat)
    requires Emptied(views) && (client != 0 || surface > MAX_VIEWS)
    ensures NoMatch(views, client, surface) && !AllTaken(views) && FirstFree(views, 0)
            && forall i :: FirstFree(views, i) ==> i == 0
  {
  }

  lemma EmptiedSame(views: seq<View>, views2: seq<View>)
    requires Emptied(views) && Same(views, views2)
    ensures Emptied(views2)
  {
    assert forall j :: 0 <= j < MAX_VIEWS ==> Alike(views[j], views2[j]);
  }

  lemma BarComes(views: seq<View>, views2: seq<View>, at: int)
    requires Emptied(views) && Entered(views, views2, at, 1, BAR) && IsTiled(views2[at]) && views2[at].ws == 0
    ensures at == 0 && WithBar(views2, false, false)
  {
    assert at == 0;
    assert forall j :: 0 <= j < MAX_VIEWS ==> Alike(views[at := views2[at]][j], views2[j]);
  }

  lemma BarIs(views: seq<View>, floating: bool, ui: bool)
    requires WithBar(views, floating, ui)
    ensures FirstMatch(views, 1, BAR, 0) && !NoMatch(views, 1, BAR)
    ensures forall i :: FirstMatch(views, 1, BAR, i) ==> i == 0
    ensures TiledFirst(views, 1, BAR) <==> !floating && !ui
  {
    assert Matches(views[0], 1, BAR) && FirstMatch(views, 1, BAR, 0);
  }

  lemma BarBecomes(views: seq<View>, views2: seq<View>, floating: bool, ui: bool, floating2: bool, ui2: bool)
    requires WithBar(views, floating, ui) && Same(views[0 := views[0].(floating := floating2, ui := ui2)], views2)
    ensures WithBar(views2, floating2, ui2)
  {
    assert forall j :: 0 <= j < MAX_VIEWS ==>
             Alike(views[0 := views[0].(floating := floating2, ui := ui2)][j], views2[j]);
  }

  lemma BarGoes(views: seq<View>, views2: seq<View>, floating: bool, ui: bool)
    requires WithBar(views, floating, ui) && Same(views[0 := NO_VIEW], views2)
    ensures Emptied(views2)
  {
    assert forall j :: 0 <= j < MAX_VIEWS ==> Alike(views[0 := NO_VIEW][j], views2[j]);
  }

  lemma Unmatched(views: seq<View>, client: nat, surface: nat)
    requires NoMatch(views, client, surface)
    ensures forall i :: !FirstMatch(views, client, surface, i)
    ensures !TiledFirst(views, client, surface)
  {
  }

  lemma EnteredIs(views: seq<View>, views2: seq<View>, at: int, client: nat, surface: nat)
    ensures Entered(views, views2, at, client, surface) ==> FirstFree(views, at) && 0 <= at < |views2|
  {
  }

  lemma Rooted(wm: Wm)
    requires wm.Valid() && Emptied(wm.views[..])
    ensures 0 < wm.layout.roots.Length && wm.layout.roots[0] >= 0
  {
    assert Window(wm.views[..][1], 1);
    assert 1 in AxPool.Tiles(wm.layout.spaces[0]);
    AxLayout.RootMeans(wm.layout.nodes[..], wm.layout.roots[..], wm.layout.spaces, 0);
  }

  // ---- the steps

  /** Sixty-four windows. */
  method Fill(wm: Wm)
    requires wm.Valid() && wm.active == 0 && Filled(wm.views[..], 0) && OnView(wm.views[..], wm.focused)
    modifies wm, wm.views, wm.layout, wm.layout.nodes, wm.layout.roots
    ensures wm.Valid() && wm.active == 0 && Filled(wm.views[..], MAX_VIEWS)
  {
    hide Filled, NoMatch, AllTaken, FirstFree, Entered, Same, OnView, CameTo, Exact, ViewsOk, Parted;
    for k := 0 to MAX_VIEWS
      invariant wm.Valid() && wm.active == 0 && Filled(wm.views[..], k) && OnView(wm.views[..], wm.focused)
    {
      FilledIs(wm.views[..], k, wm.focused);
      ghost var before, was := wm.views[..], wm.focused;
      ghost var at := wm.OnMap(0, k + 1, false, false, 0, 0, 640, 480);
      Unmatched(before, 0, k + 1);
      EnteredIs(before, wm.views[..], at, 0, k + 1);
      assert wm.views[..][at] == wm.views[at];
      FilledNext(before, wm.views[..], k, at, was, wm.focused);
    }
  }

  /** No slot is left for the bar. */
  method MapBar(wm: Wm)
    requires wm.Valid() && Filled(wm.views[..], MAX_VIEWS)
    modifies wm, wm.views, wm.layout, wm.layout.nodes, wm.layout.roots
    ensures wm.Valid() && wm.active == old(wm.active) && wm.views[..] == old(wm.views[..])
  {
    hide Filled, NoMatch, AllTaken, FirstFree, FirstMatch, TiledFirst, Entered, Same, CameTo, Barred, Exact, ViewsOk;
    FilledAll(wm.views[..]);
    Unmatched(wm.views[..], 1, BAR);
    ghost var at := wm.OnMap(1, BAR, false, false, 0, 0, 1024, 20);
    EnteredIs(old(wm.views[..]), wm.views[..], at, 1, BAR);
  }

  /** The first window goes. */
  method UnmapFirst(wm: Wm)
    requires wm.Valid() && Filled(wm.views[..], MAX_VIEWS)
    modifies wm, wm.views, wm.layout, wm.layout.nodes, wm.layout.roots
    ensures wm.Valid() && wm.active == old(wm.active) && Emptied(wm.views[..]) && wm.focused != 0
  {
    hide Filled, Emptied, NoMatch, FirstMatch, TiledFirst, Same, Exact, ViewsOk, PlaceAll, Arranged, Parted;
    FilledAll(wm.views[..]);
    OnlyMatch(wm.views[..], 0, 1, 0);
    ghost var at := wm.OnUnmap(0, 1);
    ghost var mid := wm.views[..];
    EmptiedFirst(old(wm.views[..]), mid, at);
    wm.ApplyLayout();
    EmptiedSame(mid, wm.views[..]);
  }

  /** The bar's commit is taken in as a window. */
  method CommitBar(wm: Wm)
    requires wm.Valid() && wm.active == 0 && Emptied(wm.views[..]) && wm.focused != 0
    modifies wm, wm.views, wm.layout, wm.layout.nodes, wm.layout.roots
    ensures wm.Valid() && wm.active == 0 && wm.focused == 0 && WithBar(wm.views[..], false, false)
            && Parted(wm.views[..], 0)
  {
    hide Emptied, WithBar, NoMatch, AllTaken, FirstFree, FirstMatch, TiledFirst, Entered, Same, CameTo, Barred, Exact,
         ViewsOk, Parted;
    EmptiedIs(wm.views[..], 1, BAR);
    Unmatched(wm.views[..], 1, BAR);
    ghost var at := wm.OnCommit(1, BAR, false, 0, 0, 1024, 20);
    EnteredIs(old(wm.views[..]), wm.views[..], at, 1, BAR);
    assert wm.views[..][at] == wm.views[at];
    BarComes(old(wm.views[..]), wm.views[..], at);
  }

  /** 64 windows fill the table and the bar's map is dropped; one window goes and the bar's next commit is a window. */
  method TakeBarIn() returns (wm: Wm)
    ensures fresh(wm) && fresh(wm.views) && fresh(wm.layout) && fresh(wm.layout.nodes) && fresh(wm.layout.roots)
    ensures wm.Valid() && wm.active == 0 && wm.focused == 0 && WithBar(wm.views[..], false, false)
            && Parted(wm.views[..], 0)
  {
    hide Filled, Emptied, WithBar, Parted, Exact, ViewsOk, OnView;
    wm := new Wm(1024, 768, 10, 10);
    FilledNone(wm.views[..]);
    Fill(wm);
    MapBar(wm);
    UnmapFirst(wm);
    CommitBar(wm);
  }

  /** Toggled, then committed again: the bar floats, is marked, and keeps the focus. */
  method MarkFloating(wm: Wm)
    requires wm.Valid() && wm.active == 0 && wm.focused == 0 && WithBar(wm.views[..], false, false)
             && Parted(wm.views[..], 0)
    modifies wm, wm.views, wm.layout, wm.layout.nodes, wm.layout.roots
    ensures wm.Valid() && wm.active == 0 && wm.focused == 0 && WithBar(wm.views[..], true, true)
  {
    hide NoMatch, AllTaken, FirstFree, FirstMatch, TiledFirst, Entered, Same, CameTo, Exact, ViewsOk, OtherWindows;
    ghost var v0 := wm.views[..];
    wm.OnKey(0xAC);
    ghost var v1 := wm.views[..];
    BarBecomes(v0, v1, false, false, true, false);
    BarIs(v1, true, false);
    ghost var at := wm.OnCommit(1, BAR, false, 0, 0, 1024, 20);
    BarBecomes(v1, wm.views[..], true, false, true, true);
  }

  // ---- one run for each kind of break

  /** The next commit marks the tiled view as the bar: a leaf without its view. */
  method BarAfterFullTable() returns (wm: Wm)
    ensures fresh(wm) && wm.Sound() && !wm.Valid()
  {
    hide WithBar, TiledFirst, Exact, ViewsOk;
    wm := TakeBarIn();
    BarIs(wm.views[..], false, false);
    ghost var _ := wm.OnCommit(1, BAR, false, 0, 0, 1024, 20);
  }

  /** The bar's surface goes: its slot is emptied and its leaf stays. */
  method BarUnmapped() returns (wm: Wm)
    ensures fresh(wm) && wm.Sound() && !wm.Valid()
  {
    hide WithBar, TiledFirst, Exact, ViewsOk, PlaceAll, Arranged;
    wm := TakeBarIn();
    BarIs(wm.views[..], false, false);
    ghost var _ := wm.OnUnmap(1, BAR);
    wm.ApplyLayout();
  }

  /** Toggling the marked bar, which has the focus, tiles it. */
  method BarToggled() returns (wm: Wm)
    ensures fresh(wm) && wm.Sound() && !wm.Valid()
  {
    hide OtherWindows, Exact, ViewsOk;
    wm := TakeBarIn();
    MarkFloating(wm);
    wm.OnKey(0xAC);
  }

  /** The end of the marked bar leaves the focus on its slot; the next window takes that slot and is not tiled. */
  method FocusLeftBehind() returns (wm: Wm)
    ensures fresh(wm) && wm.Sound() && !wm.Valid()
  {
    hide Emptied, WithBar, NoMatch, FirstFree, FirstMatch, TiledFirst, Same, Exact, ViewsOk, PlaceAll, Arranged, Parted;
    wm := TakeBarIn();
    MarkFloating(wm);
    ghost var v := wm.views[..];
    BarIs(v, true, true);
    ghost var gone := wm.OnUnmap(1, BAR);
    ghost var mid := wm.views[..];
    BarGoes(v, mid, true, true);
    wm.ApplyLayout();
    EmptiedSame(mid, wm.views[..]);
    EmptiedIs(wm.views[..], 0, 100);
    Rooted(wm);
    ghost var at := wm.OnMap(0, 100, false, false, 0, 0, 640, 480);
  }
}
