/** Whole runs of axwm, judged by the events alone. */
module AxSessions {
  import opened AxTree
  import opened AxViews
  import opened AxSteps
  import opened AxCalm
  import opened AxWm

  /** The surfaces that have a slot, each with its client. */
  ghost function Known(views: seq<View>): set<(nat, nat)> {
    set i | 0 <= i < |views| && views[i].mapped :: (views[i].client, views[i].surface)
  }

  /** Which surfaces have a slot after an event: whoever sends the events can keep this account. */
  function KnownAfter(known: set<(nat, nat)>, ev: Event): set<(nat, nat)> {
    match ev
    case Map(client, surface, background, _, _, _, _, _) =>
      if surface != 0 && !background && |known| < MAX_VIEWS then known + {(client, surface)} else known
    case Commit(client, surface, background, _, _, _, _) =>
      if surface != 0 && !background && |known| < MAX_VIEWS then known + {(client, surface)} else known
    case Unmap(client, surface) => known - {(client, surface)}
    case _ => known
  }

  /** A commit of the bar while it has no slot but could get one. */
  predicate Stray(known: set<(nat, nat)>, ev: Event) {
    ev.Commit? && ev.surface == BAR && !ev.background && (ev.client, BAR) !in known && |known| < MAX_VIEWS
  }

  /** No event of the run is a stray commit. */
  predicate Orderly(known: set<(nat, nat)>, evs: seq<Event>)
    decreases |evs|
  {
    evs == [] || (!Stray(known, evs[0]) && Orderly(KnownAfter(known, evs[0]), evs[1..]))
  }

  /** A run without commits of the bar is one. */
  lemma {:induction false} NoBarCommits(known: set<(nat, nat)>, evs: seq<Event>)
    requires forall k :: 0 <= k < |evs| && evs[k].Commit? ==> evs[k].surface != BAR || evs[k].background
    ensures Orderly(known, evs)
    decreases |evs|
  {
    if evs != [] {
      NoBarCommits(KnownAfter(known, evs[0]), evs[1..]);
    }
  }

  lemma KnownIs(views: seq<View>, client: nat, surface: nat)
    ensures (client, surface) in Known(views) <==> !NoMatch(views, client, surface)
  {
    if i :| 0 <= i < |views| && Matches(views[i], client, surface) {
      assert (views[i].client, views[i].surface) in Known(views);
    }
  }

  lemma TakenFront(views: seq<View>)
    requires views != []
    ensures AllTaken(views) <==> AllTaken(views[..|views| - 1]) && views[|views| - 1].mapped
  {
    var front := views[..|views| - 1];
    assert forall i :: 0 <= i < |front| ==> front[i] == views[i];
  }

  /** With one slot for each surface, all slots are taken exactly when as many surfaces are known. */
  lemma {:induction false} KnownSize(views: seq<View>)
    requires Distinct(views)
    ensures |Known(views)| <= |views| && (|Known(views)| == |views| <==> AllTaken(views))
  {
    if views != [] {
      var front, v := views[..|views| - 1], views[|views| - 1];
      KnownSize(front);
      if v.mapped {
        assert Known(views) == Known(front) + {(v.client, v.surface)};
        assert NoMatch(front, v.client, v.surface);
        KnownIs(front, v.client, v.surface);
      } else {
        assert Known(views) == Known(front);
      }
      TakenFront(views);
    }
  }

  lemma KnownAkin(views: seq<View>, views2: seq<View>)
    requires Akin(views, views2)
    ensures Known(views) == Known(views2)
  {
    assert forall i :: 0 <= i < |views| && views[i].mapped ==> views2[i].mapped;
  }

  lemma KnownEntered(views: seq<View>, views2: seq<View>, at: int, client: nat, surface: nat)
    requires Entered(views, views2, at, client, surface)
    ensures Known(views2) == Known(views) + {(client, surface)}
  {
    var mid := views[at := views2[at]];
    SameAkin(mid, views2);
    KnownAkin(mid, views2);
    assert mid[at] == views2[at] && forall i :: 0 <= i < |views| && i != at ==> mid[i] == views[i];
  }

  lemma KnownDropped(views: seq<View>, views2: seq<View>, i: int, client: nat, surface: nat)
    requires Distinct(views) && FirstMatch(views, client, surface, i) && Akin(views[i := NO_VIEW], views2)
    ensures Known(views2) == Known(views) - {(client, surface)}
  {
    var mid := views[i := NO_VIEW];
    KnownAkin(mid, views2);
    assert forall j :: 0 <= j < |views| && j != i ==> mid[j] == views[j] && !Matches(views[j], client, surface);
  }

  /** The account is right. */
  lemma KnownStep(views: seq<View>, views2: seq<View>, ev: Event)
    requires |views| == MAX_VIEWS && Distinct(views) && Stepped(views, views2, ev)
    ensures Known(views2) == KnownAfter(Known(views), ev)
  {
    hide Known, Akin, Entered, NoMatch, AllTaken, Distinct;
    match ev {
      case Map(client, surface, background, _, _, _, _, _) => KnownTook(views, views2, client, surface, background);
      case Commit(client, surface, background, _, _, _, _) => KnownTook(views, views2, client, surface, background);
      case Unmap(client, surface) =>
        KnownIs(views, client, surface);
        if NoMatch(views, client, surface) {
          KnownAkin(views, views2);
        } else {
          var i :| FirstMatch(views, client, surface, i) && Akin(views[i := NO_VIEW], views2);
          KnownDropped(views, views2, i, client, surface);
        }
      case _ => KnownAkin(views, views2);
    }
  }

  lemma KnownTook(views: seq<View>, views2: seq<View>, client: nat, surface: nat, background: bool)
    requires |views| == MAX_VIEWS && Distinct(views) && Took(views, views2, client, surface, background)
    ensures Known(views2) == if surface != 0 && !background && |Known(views)| < MAX_VIEWS
                             then Known(views) + {(client, surface)} else Known(views)
  {
    hide Known, Akin, Entered, NoMatch, AllTaken, Distinct;
    KnownSize(views);
    KnownIs(views, client, surface);
    if Newcomer(views, client, surface, background) {
      var at :| Entered(views, views2, at, client, surface);
      KnownEntered(views, views2, at, client, surface);
    } else {
      KnownAkin(views, views2);
    }
  }

  lemma StrayIs(wm: Wm, ev: Event)
    requires wm.Calm()
    ensures wm.Strays(ev) <==> Stray(Known(wm.views[..]), ev)
  {
    hide Known, NoMatch, AllTaken;
    KnownSize(wm.views[..]);
    if ev.Commit? {
      KnownIs(wm.views[..], ev.client, BAR);
    }
  }

  lemma OrderlyNext(known: set<(nat, nat)>, evs: seq<Event>, k: nat, n: nat)
    requires k < n <= |evs|
    ensures Orderly(known, evs[k..n]) <==>
              !Stray(known, evs[k]) && Orderly(KnownAfter(known, evs[k]), evs[k + 1..n])
  {
    assert evs[k..n][0] == evs[k] && evs[k..n][1..] == evs[k + 1..n];
  }

  /** One event of a run. */
  method Turn(wm: Wm, ev: Event)
    requires wm.Calm()
    modifies wm, wm.views, wm.layout, wm.layout.nodes, wm.layout.roots
    ensures wm.Valid() && (wm.Calm() <==> !Stray(Known(old(wm.views[..])), ev))
    ensures Known(wm.views[..]) == KnownAfter(Known(old(wm.views[..])), ev)
  {
    hide Known, Stray, KnownAfter, Stepped, Distinct, BarsMarked, OnWindow, Exact, ViewsOk;
    StrayIs(wm, ev);
    wm.HandleEvent(ev);
    KnownStep(old(wm.views[..]), wm.views[..], ev);
  }

  /**
   * Any run from a calm state, as long as no event before the last is a stray commit: the trees are exact, and
   * the state is calm again if and only if the last event is none either.
   */
  method Run(wm: Wm, evs: seq<Event>)
    requires wm.Calm() && (evs != [] ==> Orderly(Known(wm.views[..]), evs[..|evs| - 1]))
    modifies wm, wm.views, wm.layout, wm.layout.nodes, wm.layout.roots
    ensures wm.Valid() && (wm.Calm() <==> Orderly(Known(old(wm.views[..])), evs))
  {
    hide Known, Stray, KnownAfter, Orderly, Settled, Exact, ViewsOk;
    OrderlyNone(Known(wm.views[..]));
    if evs == [] {
      return;
    }
    var last := |evs| - 1;
    assert evs[0..last] == evs[..last] && evs[0..|evs|] == evs;
    for k := 0 to last
      invariant wm.Calm() && Orderly(Known(wm.views[..]), evs[k..last])
      invariant Orderly(Known(wm.views[..]), evs[k..|evs|]) <==> Orderly(Known(old(wm.views[..])), evs)
    {
      OrderlyNext(Known(wm.views[..]), evs, k, last);
      OrderlyNext(Known(wm.views[..]), evs, k, |evs|);
      Turn(wm, evs[k]);
    }
    OrderlyNext(Known(wm.views[..]), evs, last, |evs|);
    assert evs[last + 1..|evs|] == [];
    OrderlyNone(KnownAfter(Known(wm.views[..]), evs[last]));
    Turn(wm, evs[last]);
  }

  lemma OrderlyNone(known: set<(nat, nat)>)
    ensures Orderly(known, [])
  {
  }

  /** A whole session, from nothing. */
  method Session(screenW: nat, screenH: nat, gapOuter: int, gapInner: int, evs: seq<Event>) returns (wm: Wm)
    requires evs != [] ==> Orderly({}, evs[..|evs| - 1])
    ensures fresh(wm) && wm.Valid() && (wm.Calm() <==> Orderly({}, evs))
  {
    wm := new Wm(screenW, screenH, gapOuter, gapInner);
    assert Known(wm.views[..]) == {};
    hide Known, Orderly, Settled, Exact, ViewsOk;
    Run(wm, evs);
  }
}
