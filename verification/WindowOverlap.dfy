/** Smart hiding: a cached overlap flag per window, and the last overlap value that was announced,
    kept in step with the rectangles. */
module WindowOverlap {

  /** xcb_window_t */
  newtype Window = x: int | 0 <= x < 0x1_0000_0000

  /** The columns x .. x+w-1 and the rows y .. y+h-1. */
  datatype Rect = Rect(x: int, y: int, w: int, h: int)

  const NULL_RECT := Rect(0, 0, 0, 0)

  predicate Intersects(a: Rect, b: Rect) {
    && a.w > 0 && a.h > 0 && b.w > 0 && b.h > 0
    && a.x < b.x + b.w && b.x < a.x + a.w
    && a.y < b.y + b.h && b.y < a.y + a.h
  }

  predicate Covers(r: Rect, px: int, py: int) {
    r.x <= px < r.x + r.w && r.y <= py < r.y + r.h
  }

  /** Rectangles intersect when they share a pixel. */
  lemma IntersectsIffSharedPixel(a: Rect, b: Rect)
    ensures Intersects(a, b) <==> exists px, py :: Covers(a, px, py) && Covers(b, px, py)
  {
    if Intersects(a, b) {
      var px := if a.x < b.x then b.x else a.x;
      var py := if a.y < b.y then b.y else a.y;
      assert Covers(a, px, py) && Covers(b, px, py);
    }
  }

  datatype WindowData = WindowData(rect: Rect, isMinimized: bool, overlap: bool)

  const NEW_WINDOW := WindowData(NULL_RECT, false, false)

  /** What the X server answers while one event is handled. */
  datatype Server = Server(clients: seq<Window>, skipped: Window -> bool, minimized: Window -> bool,
                           geometry: Window -> Rect)

  predicate Overlaps(d: WindowData, area: Rect) {
    !d.isMinimized && Intersects(d.rect, area)
  }

  /** A window overlaps the dock when it is not minimised and shares a pixel with it. */
  lemma OverlapsIff(d: WindowData, area: Rect)
    ensures Overlaps(d, area) <==> !d.isMinimized && exists px, py :: Covers(d.rect, px, py) && Covers(area, px, py)
  {
    IntersectsIffSharedPixel(d.rect, area);
  }

  ghost predicate FlagsRight(windows: map<Window, WindowData>, area: Rect) {
    forall w | w in windows :: windows[w].overlap == Overlaps(windows[w], area)
  }

  predicate AnyFlag(windows: map<Window, WindowData>) {
    exists w | w in windows :: windows[w].overlap
  }

  /** Computed from the rectangles alone. */
  predicate FreshOverlap(windows: map<Window, WindowData>, area: Rect, showingDesktop: bool) {
    !showingDesktop && exists w | w in windows :: Overlaps(windows[w], area)
  }

  function Known(server: Server, w: Window, area: Rect): WindowData {
    var d := WindowData(server.geometry(w), server.minimized(w), false);
    d.(overlap := Overlaps(d, area))
  }

  class X11DockHelper {
    var windows: map<Window, WindowData>
    var dockArea: Rect
    var showingDesktop: bool
    var emitted: seq<bool>   // the values of isWindowOverlapChanged

    function LastAnnounced(): bool
      reads this
    {
      emitted != [] && emitted[|emitted| - 1]
    }

    /** What isWindowOverlap gives. */
    predicate IsOverlapped()
      reads this
    {
      !showingDesktop && AnyFlag(windows)
    }

    ghost predicate InStep()
      reads this
    {
      LastAnnounced() == IsOverlapped()
    }

    ghost predicate Valid()
      reads this
    {
      FlagsRight(windows, dockArea) && InStep()
    }

    lemma ValidMeansFresh()
      requires Valid()
      ensures LastAnnounced() == FreshOverlap(windows, dockArea, showingDesktop)
    {
      if AnyFlag(windows) {
        var w :| w in windows && windows[w].overlap;
        assert Overlaps(windows[w], dockArea);
      }
      if w :| w in windows && Overlaps(windows[w], dockArea) {
        assert windows[w].overlap;
      }
    }

    /** In terms of pixels. */
    lemma AnnouncedIff()
      requires Valid()
      ensures LastAnnounced() <==>
                && !showingDesktop
                && exists w, px, py :: w in windows && !windows[w].isMinimized
                                       && Covers(windows[w].rect, px, py) && Covers(dockArea, px, py)
    {
      ValidMeansFresh();
      forall w | w in windows { OverlapsIff(windows[w], dockArea); }
    }

    constructor (area: Rect, showing: bool)
      ensures Valid() && windows == map[] && dockArea == area && showingDesktop == showing
    {
      windows, dockArea, showingDesktop, emitted := map[], area, showing, [];
    }

    method IsWindowOverlap() returns (overlap: bool)
      ensures overlap == IsOverlapped()
    {
      if showingDesktop { return false; }
      overlap := false;
      var rest := windows.Keys;
      while rest != {}
        invariant rest <= windows.Keys
        invariant overlap <==> exists w | w in windows :: w !in rest && windows[w].overlap
        decreases |rest|
      {
        var w :| w in rest;
        overlap := overlap || windows[w].overlap;
        rest := rest - {w};
      }
    }

    /** Announces when and only when the window's flag changes. */
    method UpdateWindowHideState(window: Window)
      modifies this`windows, this`emitted
      ensures window !in old(windows) ==> windows == old(windows) && emitted == old(emitted)
      ensures window in old(windows) ==>
                && windows == Refreshed(old(windows), window, dockArea)
                && if windows[window].overlap == old(windows)[window].overlap
                   then windows == old(windows) && emitted == old(emitted)
                   else emitted == old(emitted) + [IsOverlapped()] && InStep()
    {
      if window !in windows { return; }
      var data := windows[window];
      var newOverlap := if !data.isMinimized then Intersects(data.rect, dockArea) else false;
      windows := windows[window := data.(overlap := newOverlap)];
      if data.overlap != newOverlap {
        assert windows[window] != old(windows)[window];
        var value := IsWindowOverlap();
        emitted := emitted + [value];
      } else {
        assert windows == old(windows);
      }
    }

    // ---------- events of one SmartHide period ----------

    /** Here and below: an announcement puts the announced value right, and only a changed flag causes one.
        Without one, a value left wrong by a mode change stays wrong. */
    method OnWindowMinimizedChanged(window: Window, minimized: bool)
      requires FlagsRight(windows, dockArea)
      modifies this`windows, this`emitted
      ensures FlagsRight(windows, dockArea) && windows.Keys == old(windows).Keys
      ensures InStep() <==> old(InStep()) || emitted != old(emitted)
      ensures emitted == old(emitted) + (if FlagChanged(old(windows), windows) then [IsOverlapped()] else [])
      ensures window in windows ==> windows[window].isMinimized == minimized
      ensures window in windows ==> windows[window].rect == old(windows)[window].rect
      ensures forall w | w in windows && w != window :: windows[w] == old(windows)[w]
    {
      if window in windows {
        StoreWindow(window, windows[window].(isMinimized := minimized));
        UpdateWindowHideState(window);
      }
    }

    method OnWindowGeometryChanged(window: Window, rect: Rect)
      requires FlagsRight(windows, dockArea)
      modifies this`windows, this`emitted
      ensures FlagsRight(windows, dockArea) && windows.Keys == old(windows).Keys
      ensures InStep() <==> old(InStep()) || emitted != old(emitted)
      ensures emitted == old(emitted) + (if FlagChanged(old(windows), windows) then [IsOverlapped()] else [])
      ensures window in windows ==> windows[window].rect == rect
      ensures window in windows ==> windows[window].isMinimized == old(windows)[window].isMinimized
      ensures forall w | w in windows && w != window :: windows[w] == old(windows)[w]
    {
      if window in windows {
        StoreWindow(window, windows[window].(rect := rect));
        UpdateWindowHideState(window);
      }
    }

    /** Overwrites everything but the flag of a known window. */
    method StoreWindow(window: Window, data: WindowData)
      requires window in windows && data.overlap == windows[window].overlap
      modifies this`windows
      ensures windows == old(windows)[window := data] && AnyFlag(windows) == AnyFlag(old(windows))
    {
      ghost var before := windows;
      windows := windows[window := data];
      SameFlags(before, windows);
    }

    method UpdateDockArea(rect: Rect)
      requires FlagsRight(windows, dockArea)
      modifies this`windows, this`emitted, this`dockArea
      ensures dockArea == rect
      ensures FlagsRight(windows, dockArea) && windows.Keys == old(windows).Keys
      ensures InStep() <==> old(InStep()) || emitted != old(emitted)
      ensures emitted != old(emitted) <==> FlagChanged(old(windows), windows)
      ensures forall w | w in windows :: windows[w] == old(windows)[w].(overlap := windows[w].overlap)
    {
      if dockArea != rect {
        dockArea := rect;
        ghost var before := windows;
        var rest := windows.Keys;
        while rest != {}
          invariant rest <= windows.Keys && dockArea == rect
          invariant Rechecked(before, windows, rest, rect)
          invariant if emitted == old(emitted) then windows == before else InStep() && old(emitted) < emitted
          invariant emitted != old(emitted) ==> FlagChanged(before, windows)
          decreases |rest|
        {
          var w :| w in rest;
          RecheckedOne(before, windows, rest, rect, w);
          UpdateWindowHideState(w);
          rest := rest - {w};
        }
      }
    }

    method OnShowingDesktopChanged(showing: bool)
      requires FlagsRight(windows, dockArea)
      modifies this`showingDesktop, this`emitted
      ensures Valid() && showingDesktop == showing
      ensures emitted == old(emitted) + [IsOverlapped()]
    {
      showingDesktop := showing;
      var value := IsWindowOverlap();
      emitted := emitted + [value];
    }

    /** New clients are taken in with their state and geometry, gone ones are forgotten. */
    method OnWindowClientListChanged(server: Server)
      requires FlagsRight(windows, dockArea)
      modifies this`windows, this`emitted
      ensures FlagsRight(windows, dockArea)
      ensures forall w :: w in windows <==> w in server.clients && (w in old(windows) || !server.skipped(w))
      ensures forall w | w in windows ::
                windows[w] == if w in old(windows) then old(windows)[w] else Known(server, w, dockArea)
      ensures old(InStep()) ==> InStep()
      ensures (exists w :: w in old(windows) && w !in server.clients) ==> InStep()
      ensures old(windows) == map[] ==> (InStep() <==> AnyFlag(windows) || !old(LastAnnounced()))
    {
      TakeInClients(server);
      var gone := set w | w in windows && w !in server.clients;
      if gone != {} {
        windows := windows - gone;
        var value := IsWindowOverlap();
        emitted := emitted + [value];
      } else {
        NoneGone(windows, server.clients, gone);
      }
      if old(windows) == map[] { assert gone == {}; }
    }

    method TakeInClients(server: Server)
      requires FlagsRight(windows, dockArea)
      modifies this`windows, this`emitted
      ensures FlagsRight(windows, dockArea)
      ensures TakenIn(old(windows), windows, server, server.clients, dockArea)
      ensures old(InStep()) ==> InStep()
      ensures !AnyFlag(old(windows)) ==> (InStep() <==> AnyFlag(windows) || !old(LastAnnounced()))
      ensures old(windows) == map[] ==> forall w | w in windows :: w in server.clients
    {
      var i := 0;
      ghost var before := windows;
      while i < |server.clients|
        invariant 0 <= i <= |server.clients|
        invariant FlagsRight(windows, dockArea)
        invariant TakenIn(before, windows, server, server.clients[..i], dockArea)
        invariant || (InStep() && AnyFlag(windows))
                  || (emitted == old(emitted) && AnyFlag(windows) == AnyFlag(old(windows)))
      {
        var window := server.clients[i];
        assert server.clients[..i + 1] == server.clients[..i] + [window];
        TakenInNext(before, windows, server, server.clients[..i], window, dockArea);
        if window !in windows && !server.skipped(window) {
          OnWindowAdded(server, window);
        }
        i := i + 1;
      }
      assert server.clients[..i] == server.clients;
    }

    method OnWindowAdded(server: Server, window: Window)
      requires FlagsRight(windows, dockArea) && window !in windows
      modifies this`windows, this`emitted
      ensures windows == old(windows)[window := Known(server, window, dockArea)] && FlagsRight(windows, dockArea)
      ensures (InStep() && AnyFlag(windows)) || (emitted == old(emitted) && AnyFlag(windows) == AnyFlag(old(windows)))
    {
      ghost var before := windows;
      TakeInState(server, window);
      StoreWindow(window, windows[window].(rect := server.geometry(window)));
      UpdateWindowHideState(window);
      assert windows == before[window := Known(server, window, dockArea)];
      AddedRight(before, window, server, dockArea);
    }

    /** The new window's state arrives before its geometry; a null rectangle overlaps nothing. */
    method TakeInState(server: Server, window: Window)
      requires window !in windows
      modifies this`windows, this`emitted
      ensures windows == old(windows)[window := WindowData(NULL_RECT, server.minimized(window), false)]
      ensures emitted == old(emitted) && AnyFlag(windows) == AnyFlag(old(windows))
    {
      ghost var before := windows;
      windows := windows[window := NEW_WINDOW];
      NoNewFlag(before, window);
      StoreWindow(window, windows[window].(isMinimized := server.minimized(window)));
      UpdateWindowHideState(window);
      assert windows[window] == WindowData(NULL_RECT, server.minimized(window), false);
    }

    /** Entering a hide mode: the windows are forgotten without an announcement. Afterwards the
        announced value is right exactly when it was false or some window overlaps. */
    method OnHideModeChanged(smartHide: bool, server: Server)
      modifies this`windows, this`emitted
      ensures FlagsRight(windows, dockArea)
      ensures InStep() <==> AnyFlag(windows) || !old(LastAnnounced())
      ensures !smartHide ==> windows == map[]
      ensures smartHide ==>
                && (forall w :: w in windows <==> w in server.clients && !server.skipped(w))
                && forall w | w in windows :: windows[w] == Known(server, w, dockArea)
    {
      windows := map[];
      if smartHide {
        OnWindowClientListChanged(server);
      }
    }
  }

  /** A window overlaps, the mode is entered anew with that window gone, and an event follows: the last
      announced value is still true although nothing overlaps. */
  method StaleAfterModeChange() returns (helper: X11DockHelper)
    ensures fresh(helper) && FlagsRight(helper.windows, helper.dockArea) && helper.windows == map[]
    ensures helper.LastAnnounced() && !AnyFlag(helper.windows) && !helper.InStep()
  {
    var area: Rect := Rect(0, 0, 10, 10);
    var window: Window := 1;
    var nobody := Server([], (w: Window) => false, (w: Window) => false, (w: Window) => area);
    var somebody := nobody.(clients := [window]);
    helper := new X11DockHelper(area, false);
    helper.OnHideModeChanged(true, somebody);
    assert window in helper.windows && helper.windows[window].overlap;
    helper.OnHideModeChanged(true, nobody);
    helper.OnWindowGeometryChanged(window, area);
  }

  /** The clients seen so far are known in addition to those known before. */
  ghost predicate TakenIn(before: map<Window, WindowData>, now: map<Window, WindowData>,
                          server: Server, clients: seq<Window>, area: Rect)
  {
    && (forall w :: w in now <==> w in before || (w in clients && !server.skipped(w)))
    && forall w | w in now :: now[w] == if w in before then before[w] else Known(server, w, area)
  }

  lemma TakenInNext(before: map<Window, WindowData>, now: map<Window, WindowData>,
                    server: Server, clients: seq<Window>, w: Window, area: Rect)
    requires TakenIn(before, now, server, clients, area)
    ensures var next := if w in now || server.skipped(w) then now else now[w := Known(server, w, area)];
            TakenIn(before, next, server, clients + [w], area)
  {
  }

  ghost predicate FlagChanged(before: map<Window, WindowData>, now: map<Window, WindowData>) {
    exists w :: w in before && w in now && now[w].overlap != before[w].overlap
  }

  /** Only flags may differ from `before`, only outside `rest`, and there they are right. */
  ghost predicate Rechecked(before: map<Window, WindowData>, now: map<Window, WindowData>, rest: set<Window>,
                            area: Rect)
  {
    && now.Keys == before.Keys
    && (forall w | w in now :: now[w] == before[w].(overlap := now[w].overlap))
    && forall w | w in now :: if w in rest then now[w] == before[w] else now[w].overlap == Overlaps(now[w], area)
  }

  lemma RecheckedOne(before: map<Window, WindowData>, now: map<Window, WindowData>, rest: set<Window>, area: Rect,
                     w: Window)
    requires Rechecked(before, now, rest, area) && w in now
    ensures Rechecked(before, Refreshed(now, w, area), rest - {w}, area)
  {
  }

  lemma SameFlags(a: map<Window, WindowData>, b: map<Window, WindowData>)
    requires a.Keys == b.Keys && forall w | w in a :: a[w].overlap == b[w].overlap
    ensures AnyFlag(a) == AnyFlag(b)
  {
    if w :| w in a && a[w].overlap { assert b[w].overlap; }
  }

  lemma NoneGone(windows: map<Window, WindowData>, clients: seq<Window>, gone: set<Window>)
    requires gone == {} && forall w :: w in gone <==> w in windows && w !in clients
    ensures forall w | w in windows :: w in clients
  {
    forall w | w in windows ensures w in clients {
      assert w !in gone;
    }
  }

  function Refreshed(windows: map<Window, WindowData>, w: Window, area: Rect): map<Window, WindowData>
    requires w in windows
  {
    windows[w := windows[w].(overlap := Overlaps(windows[w], area))]
  }

  lemma AddedRight(windows: map<Window, WindowData>, w: Window, server: Server, area: Rect)
    requires FlagsRight(windows, area)
    ensures FlagsRight(windows[w := Known(server, w, area)], area)
  {
  }

  lemma NoNewFlag(a: map<Window, WindowData>, w: Window)
    requires w !in a
    ensures AnyFlag(a[w := NEW_WINDOW]) == AnyFlag(a)
  {
    var b := a[w := NEW_WINDOW];
    if v :| v in a && a[v].overlap { assert b[v].overlap; }
  }
}
