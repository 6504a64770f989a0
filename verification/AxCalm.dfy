/** The states of axwm's view table from which no event parts views and trees, and how steps keep them. */
module AxCalm {
  import opened AxTree
  import opened AxPool
  import opened AxViews
  import opened AxSteps

  /** Every view of the bar's surface is marked as the bar. */
  ghost predicate BarsMarked(views: seq<View>) {
    forall i :: 0 <= i < |views| && views[i].mapped && views[i].surface == BAR ==> views[i].ui
  }

  /** The focus is on no view, or on one that is there and not the bar. */
  ghost predicate OnWindow(views: seq<View>, focused: int) {
    focused == -1 || (0 <= focused < |views| && views[focused].mapped && !views[focused].ui)
  }

  /** No surface has two slots. */
  ghost predicate Distinct(views: seq<View>) {
    forall i, j :: 0 <= i < j < |views| && views[i].mapped ==> !Matches(views[j], views[i].client, views[i].surface)
  }

  /** Every slot belongs to the surface it did, marked as it was. */
  ghost predicate Akin(views: seq<View>, views2: seq<View>) {
    && |views| == |views2|
    && forall i :: 0 <= i < |views| ==>
         views2[i].mapped == views[i].mapped && views2[i].client == views[i].client
         && views2[i].surface == views[i].surface && views2[i].ui == views[i].ui
  }

  lemma SameAkin(views: seq<View>, views2: seq<View>)
    requires Same(views, views2)
    ensures Akin(views, views2)
  {
    assert forall i :: 0 <= i < |views| ==> Alike(views[i], views2[i]);
  }

  lemma ChangedAkin(views: seq<View>, i: nat, v: View, views2: seq<View>)
    requires i < |views| && Same(views[i := v], views2)
    requires v == views[i].(ws := v.ws, floating := v.floating)
    ensures Akin(views, views2)
  {
    assert forall j :: 0 <= j < |views| ==> Alike(views[i := v][j], views2[j]);
  }

  lemma MovedAkin(views: seq<View>, views2: seq<View>, spaces: seq<Space>, spaces2: seq<Space>,
                  focused: int, active: nat, ws: nat, screenW: nat, screenH: nat)
    requires Moved(views, views2, spaces, spaces2, focused, active, ws, screenW, screenH)
    ensures Akin(views, views2)
  {
    if ws < MAX_WS && 0 <= focused < |views| && Visible(views[focused], active) {
      ChangedAkin(views, focused, views[focused].(ws := ws), views2);
    }
  }

  lemma ToggledAkin(views: seq<View>, views2: seq<View>, spaces: seq<Space>, spaces2: seq<Space>,
                    focused: int, active: nat, screenW: nat, screenH: nat)
    requires Toggled(views, views2, spaces, spaces2, focused, active, screenW, screenH)
    ensures Akin(views, views2)
  {
    if 0 <= focused < |views| && Visible(views[focused], active) {
      ChangedAkin(views, focused, views[focused].(floating := !views[focused].floating), views2);
    }
  }

  lemma AkinKeeps(views: seq<View>, views2: seq<View>, focused: int)
    requires Akin(views, views2)
    ensures BarsMarked(views) ==> BarsMarked(views2)
    ensures Distinct(views) ==> Distinct(views2)
    ensures OnWindow(views, focused) ==> OnWindow(views2, focused)
  {
  }

  /** A surface that was not there takes a slot. */
  lemma EnteredKeeps(views: seq<View>, views2: seq<View>, at: int, client: nat, surface: nat, focused: int)
    requires Entered(views, views2, at, client, surface) && NoMatch(views, client, surface)
    ensures BarsMarked(views) ==> (BarsMarked(views2) <==> surface == BAR ==> views2[at].ui)
    ensures Distinct(views) ==> Distinct(views2)
    ensures OnWindow(views, focused) ==> OnWindow(views2, focused)
  {
    var mid := views[at := views2[at]];
    SameAkin(mid, views2);
    assert forall j :: 0 <= j < |views| && j != at ==> mid[j] == views[j];
    assert Matches(mid[at], client, surface);
  }

  /** A surface leaves its slot. */
  lemma DroppedKeeps(views: seq<View>, views2: seq<View>, i: int, focused: int)
    requires 0 <= i < |views| && Same(views[i := NO_VIEW], views2)
    ensures BarsMarked(views) ==> BarsMarked(views2)
    ensures Distinct(views) ==> Distinct(views2)
    ensures OnWindow(views, focused) && focused != i ==> OnWindow(views2, focused)
  {
    SameAkin(views[i := NO_VIEW], views2);
  }

  /** Marking the bar again changes nothing that counts. */
  lemma BarredAgain(views: seq<View>, views2: seq<View>, i: int)
    requires ViewsOk(views) && BarsMarked(views) && Barred(views, views2, i)
    requires views[i].mapped && views[i].surface == BAR
    ensures Same(views, views2)
  {
    assert ViewOk(views[i]);
    assert views[i := views[i].(ui := true, floating := true)] == views;
  }

  /** The new focus is on a window: a surface that is there and not the bar's. */
  lemma MatchedWindow(views: seq<View>, focused: int, client: nat, surface: nat)
    requires ViewsOk(views) && surface != BAR && 0 <= focused < |views| && Matches(views[focused], client, surface)
    ensures OnWindow(views, focused)
  {
    assert ViewOk(views[focused]);
  }

  // ---- no event is one that breaks

  lemma MarkedUntiled(views: seq<View>, client: nat)
    requires BarsMarked(views)
    ensures !TiledFirst(views, client, BAR)
  {
  }

  lemma WindowNotFree(views: seq<View>, focused: int)
    requires OnWindow(views, focused)
    ensures !FirstFree(views, focused)
  {
  }

  // ---- what a handler did, seen from such a state

  ghost predicate Settled(views: seq<View>, focused: int) {
    Distinct(views) && BarsMarked(views) && OnWindow(views, focused)
  }

  /** A surface to be taken in: not known yet, and a slot is free. */
  ghost predicate Newcomer(views: seq<View>, client: nat, surface: nat, background: bool) {
    surface != 0 && !background && NoMatch(views, client, surface) && !AllTaken(views)
  }

  /** A surface was reported: a new one has a slot now, else every slot is as it was. */
  ghost predicate Took(views: seq<View>, views2: seq<View>, client: nat, surface: nat, background: bool) {
    if Newcomer(views, client, surface, background) then exists at :: Entered(views, views2, at, client, surface)
    else Akin(views, views2)
  }

  /** A surface went: its slot is empty. */
  ghost predicate Lost(views: seq<View>, views2: seq<View>, client: nat, surface: nat) {
    if NoMatch(views, client, surface) then Akin(views, views2)
    else exists i :: FirstMatch(views, client, surface, i) && Akin(views[i := NO_VIEW], views2)
  }

  /** What map and commit say of slots and focus; at is the slot that was taken, if one was. */
  ghost predicate Reported(views: seq<View>, views2: seq<View>, at: int, client: nat, surface: nat, background: bool,
                           focused: int, focused2: int) {
    && (surface == 0 || background ==> at < 0 && views2 == views)
    && (at < 0 && surface != BAR ==> Same(views, views2))
    && (surface != 0 && !background && at < 0 ==>
          || (NoMatch(views, client, surface) && AllTaken(views) && views2 == views)
          || (exists i :: FirstMatch(views, client, surface, i) && (surface == BAR ==> Barred(views, views2, i))))
    && (at >= 0 ==> NoMatch(views, client, surface) && Entered(views, views2, at, client, surface))
    && (|| focused2 == focused
        || (at == focused2 >= 0 && !views2[at].ui)
        || (surface != BAR && 0 <= focused2 < |views2| && Matches(views2[focused2], client, surface)))
  }

  lemma ReportedTook(views: seq<View>, views2: seq<View>, at: int, client: nat, surface: nat, background: bool,
                     focused: int, focused2: int)
    requires Reported(views, views2, at, client, surface, background, focused, focused2)
    requires ViewsOk(views) && BarsMarked(views)
    ensures at >= 0 <==> Newcomer(views, client, surface, background)
    ensures at < 0 ==> Akin(views, views2)
    ensures Took(views, views2, client, surface, background)
  {
    if at >= 0 {
      assert !views[at].mapped;
    } else if surface == 0 || background {
      SameSelf(views);
      SameAkin(views, views2);
    } else if NoMatch(views, client, surface) && AllTaken(views) && views2 == views {
      SameSelf(views);
      SameAkin(views, views2);
    } else {
      var i :| FirstMatch(views, client, surface, i) && (surface == BAR ==> Barred(views, views2, i));
      if surface == BAR {
        BarredAgain(views, views2, i);
      }
      SameAkin(views, views2);
    }
  }

  lemma ReportedSettles(views: seq<View>, views2: seq<View>, at: int, client: nat, surface: nat, background: bool,
                        focused: int, focused2: int)
    requires Reported(views, views2, at, client, surface, background, focused, focused2)
    requires ViewsOk(views) && ViewsOk(views2) && Settled(views, focused)
    ensures Settled(views2, focused2) <==> (at >= 0 && surface == BAR ==> views2[at].ui)
  {
    ReportedTook(views, views2, at, client, surface, background, focused, focused2);
    if at >= 0 {
      EnteredKeeps(views, views2, at, client, surface, focused);
    } else {
      AkinKeeps(views, views2, focused);
    }
    hide Entered, Same, Barred, FirstMatch, NoMatch, AllTaken, BarsMarked, Distinct;
    if focused2 != focused && !(at == focused2 >= 0 && !views2[at].ui) {
      MatchedWindow(views2, focused2, client, surface);
    }
  }

  lemma SettledMarked(views: seq<View>, focused: int)
    ensures Settled(views, focused) ==> BarsMarked(views)
  {
  }

  lemma SettledAkin(views: seq<View>, views2: seq<View>, focused: int, focused2: int)
    requires Akin(views, views2)
    requires focused2 == focused || (OnWindow(views, focused) ==> OnWindow(views2, focused2))
    ensures Settled(views, focused) ==> Settled(views2, focused2)
  {
    AkinKeeps(views, views2, focused);
  }

  lemma TakenSlot(views: seq<View>, views2: seq<View>, at: int, client: nat, surface: nat)
    requires Entered(views, views2, at, client, surface)
    ensures 0 <= at < |views2| == |views|
  {
  }

  lemma LostSettles(views: seq<View>, mid: seq<View>, views2: seq<View>, client: nat, surface: nat, i: int,
                    focused: int, focused2: int)
    requires ViewsOk(views) && FirstMatch(views, client, surface, i) && Same(mid, views2)
    requires Same(views[i := NO_VIEW], views2)
    requires if surface == BAR then focused2 == focused
             else focused2 != i && (focused2 == focused || OnWindow(mid, focused2))
    ensures Lost(views, views2, client, surface)
    ensures Settled(views, focused) ==> Settled(views2, focused2)
  {
    SameAkin(views[i := NO_VIEW], views2);
    SameAkin(mid, views2);
    AkinKeeps(mid, views2, focused2);
    DroppedKeeps(views, views2, i, focused);
    assert Matches(views[i], client, surface);
  }
}
