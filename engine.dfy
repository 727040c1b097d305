/**
 * The state background.js keeps in its module-level maps, and the event
 * handlers that update it. Host calls are parameters: the live tabs of a
 * window, the set of tab ids an activation request succeeds for, and the
 * window and active tab an event carries. Each handler that asks the host
 * to activate a tab returns that tab's id; the `onActivated` event the
 * activation causes is a separate call.
 */
module Background {
  import opened Common
  import opened MruHistory
  import opened TabOrdering
  import opened Navigation

  /** The keyboard commands of the extension. */
  datatype Command = HistoryBack | HistoryForward | OpenTabManager

  /** The id of the last active tab of a list, or None when no tab is active. */
  function LastActive(ts: seq<Tab>): (r: Option<int>)
    ensures r.None? <==> forall i :: 0 <= i < |ts| ==> !ts[i].active
    ensures r.Some? ==> exists i :: LastActiveAt(ts, i, r.value)
  {
    if |ts| == 0 then None
    else if ts[|ts| - 1].active then
      assert LastActiveAt(ts, |ts| - 1, ts[|ts| - 1].id);
      Some(ts[|ts| - 1].id)
    else
      var p := ts[..|ts| - 1];
      var r := LastActive(p);
      LastActiveExtends(ts, p, r);
      r
  }

  /** Position `i` of `ts` holds an active tab with id `id`, and no later tab is active. */
  predicate LastActiveAt(ts: seq<Tab>, i: int, id: int) {
    && 0 <= i < |ts| && ts[i].active && ts[i].id == id
    && forall j :: i < j < |ts| ==> !ts[j].active
  }

  /** An inactive last tab leaves the answer for the tabs before it unchanged. */
  lemma LastActiveExtends(ts: seq<Tab>, p: seq<Tab>, r: Option<int>)
    requires |ts| > 0 && !ts[|ts| - 1].active && p == ts[..|ts| - 1]
    requires r.None? <==> forall i :: 0 <= i < |p| ==> !p[i].active
    requires r.Some? ==> exists i :: LastActiveAt(p, i, r.value)
    ensures r.None? <==> forall i :: 0 <= i < |ts| ==> !ts[i].active
    ensures r.Some? ==> exists i :: LastActiveAt(ts, i, r.value)
  {
    assert forall i :: 0 <= i < |p| ==> p[i] == ts[i];
    if r.Some? {
      var i :| LastActiveAt(p, i, r.value);
      assert LastActiveAt(ts, i, r.value);
    }
  }

  /** The active-tab map after recording the last active tab of `ts` for window `w`. */
  function WithLastActive(m: map<int, int>, w: int, ts: seq<Tab>): map<int, int> {
    match LastActive(ts)
    case None => m
    case Some(a) => m[w := a]
  }

  lemma IdsAppend(s: seq<Tab>, i: nat)
    requires i < |s|
    ensures Ids(s[..i + 1]) == Ids(s[..i]) + [s[i].id]
    ensures s[..i + 1][..i] == s[..i]
  {
    assert s[..i + 1][..i] == s[..i];
  }

  function HistoryIn(hs: map<int, seq<int>>, w: int): seq<int> {
    if w in hs then hs[w] else []
  }

  predicate AllUnique(hs: map<int, seq<int>>) {
    forall w :: w in hs ==> NoDup(hs[w])
  }

  predicate PointersFit(ps: map<int, int>, hs: map<int, seq<int>>) {
    forall w :: w in ps ==> 0 <= ps[w] && (ps[w] < |HistoryIn(hs, w)| || ps[w] == 0)
  }

  predicate Linked(byTarget: map<int, int>, byWindow: map<int, int>) {
    forall t :: t in byTarget ==> byTarget[t] in byWindow && byWindow[byTarget[t]] == t
  }

  /** Appending to one window's history keeps every stored pointer a position of its history. */
  lemma AppendKeepsPointers(ps: map<int, int>, hs: map<int, seq<int>>, w: int, extra: seq<int>)
    requires PointersFit(ps, hs)
    ensures PointersFit(ps, hs[w := HistoryIn(hs, w) + extra])
  {
    var hs' := hs[w := HistoryIn(hs, w) + extra];
    forall v | v in ps ensures 0 <= ps[v] && (ps[v] < |HistoryIn(hs', v)| || ps[v] == 0) {
      assert 0 <= ps[v] && (ps[v] < |HistoryIn(hs, v)| || ps[v] == 0);
      if v != w {
        assert HistoryIn(hs', v) == HistoryIn(hs, v);
      } else {
        assert HistoryIn(hs', w) == HistoryIn(hs, w) + extra;
      }
    }
  }

  /**
   * The loop of `onInstalled` over a window's tabs in install order: each
   * id is pushed onto the history, and each active tab is recorded as the
   * window's active tab.
   */
  method SeedHistory(start: seq<int>, active0: map<int, int>, w: int, order: seq<Tab>)
    returns (history: seq<int>, active: map<int, int>)
    ensures history == start + Ids(order)
    ensures active == WithLastActive(active0, w, order)
  {
    history := start;
    active := active0;
    assert order[..0] == [];
    for i := 0 to |order|
      invariant history == start + Ids(order[..i])
      invariant active == WithLastActive(active0, w, order[..i])
    {
      IdsAppend(order, i);
      history := history + [order[i].id];
      if order[i].active {
        active := active[w := order[i].id];
      }
    }
    assert order[..|order|] == order;
  }

  /** Some window among `among` is recorded as managed from window `w`. */
  predicate ManagedFrom(byTarget: map<int, int>, w: int, among: set<int>) {
    exists t :: t in among && t in byTarget && byTarget[t] == w
  }

  lemma ManagedFromStep(byTarget: map<int, int>, w: int, seen: set<int>, t: int)
    requires t in byTarget
    ensures ManagedFrom(byTarget, w, seen + {t}) <==> ManagedFrom(byTarget, w, seen) || byTarget[t] == w
  {
    if byTarget[t] == w {
      assert t in seen + {t};
    }
  }

  /** The pairings still kept while the keys in `pending` are unvisited: those pending or not managed from `w`. */
  function Kept(byTarget: map<int, int>, w: int, pending: set<int>): map<int, int> {
    map t | t in byTarget && (t in pending || byTarget[t] != w) :: byTarget[t]
  }

  /** Visiting key `t` drops its pairing exactly when it is managed from `w`. */
  lemma KeptStep(byTarget: map<int, int>, w: int, pending: set<int>, t: int)
    requires t in pending && t in byTarget
    ensures t in Kept(byTarget, w, pending) && Kept(byTarget, w, pending)[t] == byTarget[t]
    ensures Kept(byTarget, w, pending - {t})
      == if byTarget[t] == w then Kept(byTarget, w, pending) - {t} else Kept(byTarget, w, pending)
  {
  }

  /**
   * The loop of `windows.onRemoved` over the managed-window map: each
   * pairing whose manager window is `w` is dropped from both maps.
   */
  method DropPairingsOf(byTarget: map<int, int>, byWindow: map<int, int>, w: int)
    returns (remaining: map<int, int>, windows: map<int, int>)
    ensures remaining == map t | t in byTarget && byTarget[t] != w :: byTarget[t]
    ensures windows == if ManagedFrom(byTarget, w, byTarget.Keys) then byWindow - {w} else byWindow
  {
    remaining := byTarget;
    windows := byWindow;
    var pending := byTarget.Keys;
    ghost var seen: set<int> := {};
    while pending != {}
      invariant pending !! seen && pending + seen == byTarget.Keys
      invariant remaining == Kept(byTarget, w, pending)
      invariant windows == if ManagedFrom(byTarget, w, seen) then byWindow - {w} else byWindow
      decreases |pending|
    {
      NonEmptyHasMember(pending);
      var t :| t in pending;
      ManagedFromStep(byTarget, w, seen, t);
      KeptStep(byTarget, w, pending, t);
      if remaining[t] == w {
        remaining := remaining - {t};
        windows := windows - {w};
      }
      pending := pending - {t};
      seen := seen + {t};
    }
    assert remaining == Kept(byTarget, w, {});
  }

  class Engine {
    /** window id -> tab ids, most recent first */
    var historyByWindow: map<int, seq<int>>
    /** window id -> back/forward position in the history */
    var pointerByWindow: map<int, int>
    /** window id -> the tab whose next activation the extension caused itself */
    var suppressActivationByWindow: map<int, int>
    /** window id -> the tab last reported active */
    var activeByWindow: map<int, int>
    /** manager tab id -> the window it manages */
    var managerTabs: map<int, int>
    /** managed window id -> the manager's window id */
    var managerWindowByTarget: map<int, int>
    /** manager window id -> the window it manages */
    var managerTargetByWindow: map<int, int>

    /** A fresh service worker: every map empty. */
    constructor ()
      ensures historyByWindow == map[] && pointerByWindow == map[]
      ensures suppressActivationByWindow == map[] && activeByWindow == map[]
      ensures managerTabs == map[] && managerWindowByTarget == map[] && managerTargetByWindow == map[]
      ensures Valid()
    {
      historyByWindow := map[];
      pointerByWindow := map[];
      suppressActivationByWindow := map[];
      activeByWindow := map[];
      managerTabs := map[];
      managerWindowByTarget := map[];
      managerTargetByWindow := map[];
    }

    /** `getHistory`: a window without an entry reads as the empty history. */
    function History(w: int): seq<int>
      reads this
    {
      HistoryIn(historyByWindow, w)
    }

    function Pointer(w: int): Option<int>
      reads this
    {
      if w in pointerByWindow then Some(pointerByWindow[w]) else None
    }

    function Suppressed(w: int): Option<int>
      reads this
    {
      if w in suppressActivationByWindow then Some(suppressActivationByWindow[w]) else None
    }

    function Active(w: int): Option<int>
      reads this
    {
      if w in activeByWindow then Some(activeByWindow[w]) else None
    }

    /** Every history holds each tab once. */
    predicate HistoriesUnique()
      reads this
    {
      AllUnique(historyByWindow)
    }

    /** A stored pointer is a position of its history, or 0. */
    predicate PointersInRange()
      reads this
    {
      PointersFit(pointerByWindow, historyByWindow)
    }

    /** A managed window's manager window records that it manages it. */
    predicate ManagersLinked()
      reads this
    {
      Linked(managerWindowByTarget, managerTargetByWindow)
    }

    predicate Valid()
      reads this
    {
      HistoriesUnique() && PointersInRange() && ManagersLinked()
    }

    // -------------------------------------------------------------------
    // History and pointer updates
    // -------------------------------------------------------------------

    /** `rememberTab`. */
    method RememberTab(w: int, t: int)
      requires Valid()
      modifies this
      ensures historyByWindow == old(historyByWindow)[w := Remember(old(History(w)), t)]
      ensures pointerByWindow == old(pointerByWindow)
      ensures suppressActivationByWindow == old(suppressActivationByWindow)
      ensures activeByWindow == old(activeByWindow)
      ensures managerTabs == old(managerTabs)
      ensures managerWindowByTarget == old(managerWindowByTarget)
      ensures managerTargetByWindow == old(managerTargetByWindow)
      ensures HistoriesUnique() && ManagersLinked()
      ensures History(w)[0] == t && |History(w)| <= HISTORY_LIMIT
    {
      var h := History(w);
      RememberOrder(h, t);
      historyByWindow := historyByWindow[w := Remember(h, t)];
    }

    /** `forgetTab`. */
    method ForgetTab(w: int, t: int)
      requires HistoriesUnique()
      modifies this
      ensures historyByWindow == old(historyByWindow)[w := Forget(old(History(w)), t)]
      ensures pointerByWindow == old(pointerByWindow)
      ensures suppressActivationByWindow == old(suppressActivationByWindow)
      ensures activeByWindow == old(activeByWindow)
      ensures managerTabs == old(managerTabs)
      ensures managerWindowByTarget == old(managerWindowByTarget)
      ensures managerTargetByWindow == old(managerTargetByWindow)
      ensures HistoriesUnique()
      ensures t !in History(w)
    {
      var h := History(w);
      ForgetErases(h, t);
      historyByWindow := historyByWindow[w := Forget(h, t)];
    }

    /** `adjustPointerOnRemoval`, after the entry at `removedIndex` was forgotten. */
    method AdjustPointerOnRemoval(w: int, removedIndex: int)
      modifies this
      ensures var q := AdjustPointer(old(Pointer(w)), removedIndex, |History(w)|);
        pointerByWindow == if q.None? then old(pointerByWindow) - {w} else old(pointerByWindow)[w := q.value]
      ensures historyByWindow == old(historyByWindow)
      ensures suppressActivationByWindow == old(suppressActivationByWindow)
      ensures activeByWindow == old(activeByWindow)
      ensures managerTabs == old(managerTabs)
      ensures managerWindowByTarget == old(managerWindowByTarget)
      ensures managerTargetByWindow == old(managerTargetByWindow)
    {
      var q := AdjustPointer(Pointer(w), removedIndex, |History(w)|);
      if q.None? {
        pointerByWindow := pointerByWindow - {w};
      } else {
        pointerByWindow := pointerByWindow[w := q.value];
      }
    }

    /** `getOrderedTabs` for window `w`, whose live tabs the host reports as `tabs`. */
    method OrderedTabs(w: int, tabs: seq<Tab>) returns (ordered: seq<Tab>)
      ensures ordered == OrderedView(History(w), tabs)
      ensures UniqueIds(tabs) ==> multiset(ordered) == multiset(tabs)
    {
      ordered := GetOrderedTabs(History(w), tabs);
      if UniqueIds(tabs) {
        OrderedViewPermutation(History(w), tabs);
      }
    }

    // -------------------------------------------------------------------
    // Navigation
    // -------------------------------------------------------------------

    /**
     * `navigateHistory(w, delta)` with `active` the window's active tab:
     * when the step stays in the history, the pointer moves, the target's
     * next activation is marked as the extension's own, and the target is
     * returned as the tab to activate.
     */
    method NavigateHistory(w: int, delta: int, active: Option<int>) returns (request: Option<int>)
      requires Valid()
      modifies this
      ensures Valid()
      ensures var n := Navigate(old(History(w)), old(Pointer(w)), active, delta);
        && (n.None? ==>
              && request.None? && pointerByWindow == old(pointerByWindow)
              && suppressActivationByWindow == old(suppressActivationByWindow))
        && (n.Some? ==>
              && request == Some(old(History(w))[n.value])
              && pointerByWindow == old(pointerByWindow)[w := n.value]
              && suppressActivationByWindow == old(suppressActivationByWindow)[w := old(History(w))[n.value]])
      ensures historyByWindow == old(historyByWindow)
      ensures activeByWindow == old(activeByWindow)
      ensures managerTabs == old(managerTabs)
      ensures managerWindowByTarget == old(managerWindowByTarget)
      ensures managerTargetByWindow == old(managerTargetByWindow)
    {
      var h := History(w);
      var n := Navigate(h, Pointer(w), active, delta);
      if n.None? {
        return None;
      }
      var next := n.value;
      suppressActivationByWindow := suppressActivationByWindow[w := h[next]];
      pointerByWindow := pointerByWindow[w := next];
      request := Some(h[next]);
    }

    /**
     * `activateTabPreservingHistory(tabId)`, with `tabWindow` the window the
     * host reports for the tab (None when the tab is gone or has none).
     */
    method ActivateTabPreservingHistory(tabId: int, tabWindow: Option<int>) returns (request: Option<int>)
      requires Valid()
      modifies this
      ensures Valid()
      ensures tabWindow.None? ==>
        && request.None?
        && pointerByWindow == old(pointerByWindow)
        && suppressActivationByWindow == old(suppressActivationByWindow)
      ensures tabWindow.Some? ==>
        var w := tabWindow.value;
        var idx := IndexOf(old(History(w)), tabId);
        && request == Some(tabId)
        && pointerByWindow == old(pointerByWindow)[w := if idx == -1 then 0 else idx]
        && suppressActivationByWindow == old(suppressActivationByWindow)[w := tabId]
      ensures historyByWindow == old(historyByWindow)
      ensures activeByWindow == old(activeByWindow)
      ensures managerTabs == old(managerTabs)
      ensures managerWindowByTarget == old(managerWindowByTarget)
      ensures managerTargetByWindow == old(managerTargetByWindow)
    {
      if tabWindow.None? {
        return None;
      }
      var w := tabWindow.value;
      var idx := IndexOf(History(w), tabId);
      pointerByWindow := pointerByWindow[w := if idx == -1 then 0 else idx];
      suppressActivationByWindow := suppressActivationByWindow[w := tabId];
      request := Some(tabId);
    }

    // -------------------------------------------------------------------
    // Event handlers
    // -------------------------------------------------------------------

    /** `tabs.onActivated` for tab `t` of window `w`. */
    method OnActivated(t: int, w: int)
      requires Valid()
      modifies this
      ensures Valid()
      ensures var r := Reconcile(old(History(w)), old(Suppressed(w)), t);
        && historyByWindow == (if old(Suppressed(w)) == Some(t) then old(historyByWindow)
                               else old(historyByWindow)[w := r.history])
        && History(w) == r.history
        && pointerByWindow == old(pointerByWindow)[w := r.pointer]
        && Suppressed(w) == r.suppressed
        && suppressActivationByWindow - {w} == old(suppressActivationByWindow) - {w}
      ensures activeByWindow == old(activeByWindow)[w := t]
      ensures managerTabs == old(managerTabs)
      ensures managerWindowByTarget == old(managerWindowByTarget)
      ensures managerTargetByWindow == old(managerTargetByWindow)
    {
      var h := History(w);
      ReconcileKeepsInvariant(h, Suppressed(w), t);
      if Suppressed(w) == Some(t) {
        suppressActivationByWindow := suppressActivationByWindow - {w};
        activeByWindow := activeByWindow[w := t];
        var idx := IndexOf(h, t);
        pointerByWindow := pointerByWindow[w := if idx == -1 then 0 else idx];
      } else {
        RememberTab(w, t);
        activeByWindow := activeByWindow[w := t];
        pointerByWindow := pointerByWindow[w := 0];
      }
    }

    /**
     * The history `onInstalled` seeds window `w` with from its tabs: their
     * ids appended in install order, and the last active one recorded as
     * the window's active tab.
     */
    method OnInstalledWindow(w: int, tabs: seq<Tab>)
      requires Valid()
      modifies this
      ensures historyByWindow == old(historyByWindow)[w := old(History(w)) + Ids(InstallOrder(tabs))]
      ensures activeByWindow == WithLastActive(old(activeByWindow), w, InstallOrder(tabs))
      ensures pointerByWindow == old(pointerByWindow)
      ensures suppressActivationByWindow == old(suppressActivationByWindow)
      ensures managerTabs == old(managerTabs)
      ensures managerWindowByTarget == old(managerWindowByTarget)
      ensures managerTargetByWindow == old(managerTargetByWindow)
      ensures PointersInRange() && ManagersLinked()
      ensures UniqueIds(tabs) && old(History(w)) == [] ==> Valid()
    {
      var order := InstallOrder(tabs);
      var history, active := SeedHistory(History(w), activeByWindow, w, order);
      InstallKeepsInvariant(historyByWindow, pointerByWindow, w, tabs);
      StoreWindow(w, history, active);
    }

    /** Stores window `w`'s history and the active-tab map; nothing else changes. */
    method StoreWindow(w: int, history: seq<int>, active: map<int, int>)
      modifies this
      ensures historyByWindow == old(historyByWindow)[w := history]
      ensures activeByWindow == active
      ensures pointerByWindow == old(pointerByWindow)
      ensures suppressActivationByWindow == old(suppressActivationByWindow)
      ensures managerTabs == old(managerTabs)
      ensures managerWindowByTarget == old(managerWindowByTarget)
      ensures managerTargetByWindow == old(managerTargetByWindow)
    {
      historyByWindow := historyByWindow[w := history];
      activeByWindow := active;
    }

    /**
     * `tabs.onRemoved` for tab `tabId` of window `w`; `ok` is the set of tabs
     * an activation succeeds for. A closing window loses its history,
     * pointer, marker and active tab; otherwise the manager bookkeeping is
     * dropped, the tab is forgotten, the pointer adjusted, and when the tab
     * was the active one the most recent remaining tab that activates is
     * returned.
     */
    method OnTabRemoved(tabId: int, w: int, isWindowClosing: bool, ok: set<int>) returns (request: Option<int>)
      requires Valid()
      modifies this
      ensures Valid()
      ensures isWindowClosing ==>
        && historyByWindow == old(historyByWindow) - {w}
        && activeByWindow == old(activeByWindow) - {w}
        && pointerByWindow == old(pointerByWindow) - {w}
        && suppressActivationByWindow == old(suppressActivationByWindow) - {w}
        && managerTabs == old(managerTabs)
        && managerWindowByTarget == old(managerWindowByTarget)
        && managerTargetByWindow == old(managerTargetByWindow)
        && request.None?
      ensures !isWindowClosing ==>
        && historyByWindow == old(historyByWindow)[w := Forget(old(History(w)), tabId)]
        && (var q := AdjustPointer(old(Pointer(w)), IndexOf(old(History(w)), tabId), |History(w)|);
            pointerByWindow == if q.None? then old(pointerByWindow) - {w} else old(pointerByWindow)[w := q.value])
        && activeByWindow == old(activeByWindow)
        && suppressActivationByWindow == old(suppressActivationByWindow)
        && managerTabs == old(managerTabs) - {tabId}
        && (if tabId in old(managerTabs) && old(managerTabs)[tabId] in old(managerWindowByTarget)
              && old(managerWindowByTarget)[old(managerTabs)[tabId]] == w
            then
              && managerWindowByTarget == old(managerWindowByTarget) - {old(managerTabs)[tabId]}
              && managerTargetByWindow == old(managerTargetByWindow) - {w}
            else
              && managerWindowByTarget == old(managerWindowByTarget)
              && managerTargetByWindow == old(managerTargetByWindow))
        && request == (if old(Active(w)) == Some(tabId) then MostRecentCandidate(History(w), ok) else None)
      ensures !isWindowClosing ==> tabId !in History(w)
    {
      if isWindowClosing {
        historyByWindow := historyByWindow - {w};
        activeByWindow := activeByWindow - {w};
        pointerByWindow := pointerByWindow - {w};
        suppressActivationByWindow := suppressActivationByWindow - {w};
        return None;
      }
      DropManagerTab(tabId, Some(w));
      var wasActive := Active(w) == Some(tabId);
      var h := History(w);
      var removedIndex := IndexOf(h, tabId);
      var p := Pointer(w);
      ForgetTab(w, tabId);
      AdjustPointerOnRemoval(w, removedIndex);
      AdjustKeepsRange(h, tabId, p);
      request := None;
      if wasActive {
        request := SwitchToMostRecentAvailable(History(w), ok);
      }
    }

    /**
     * The manager bookkeeping shared by `onRemoved` and "unregister-manager":
     * forget the manager tab, and when the window it managed is recorded as
     * managed from `managerWindow`, drop that pairing in both directions.
     */
    method DropManagerTab(tabId: int, managerWindow: Option<int>)
      requires ManagersLinked()
      modifies this
      ensures ManagersLinked()
      ensures managerTabs == old(managerTabs) - {tabId}
      ensures
        if tabId in old(managerTabs) && old(managerTabs)[tabId] in old(managerWindowByTarget)
           && Some(old(managerWindowByTarget)[old(managerTabs)[tabId]]) == managerWindow
        then
          && managerWindowByTarget == old(managerWindowByTarget) - {old(managerTabs)[tabId]}
          && managerTargetByWindow == old(managerTargetByWindow) - {managerWindow.value}
        else
          && managerWindowByTarget == old(managerWindowByTarget)
          && managerTargetByWindow == old(managerTargetByWindow)
      ensures historyByWindow == old(historyByWindow)
      ensures pointerByWindow == old(pointerByWindow)
      ensures suppressActivationByWindow == old(suppressActivationByWindow)
      ensures activeByWindow == old(activeByWindow)
    {
      if tabId in managerTabs {
        var target := managerTabs[tabId];
        managerTabs := managerTabs - {tabId};
        if target in managerWindowByTarget && Some(managerWindowByTarget[target]) == managerWindow {
          var m := managerWindowByTarget[target];
          managerWindowByTarget := managerWindowByTarget - {target};
          managerTargetByWindow := managerTargetByWindow - {m};
        }
      }
    }

    /** `windows.onRemoved`: every pairing managed from window `w` is dropped. */
    method OnWindowRemoved(w: int)
      requires Valid()
      modifies this
      ensures Valid()
      ensures managerWindowByTarget ==
        map t | t in old(managerWindowByTarget) && old(managerWindowByTarget)[t] != w :: old(managerWindowByTarget)[t]
      ensures forall t :: t in managerWindowByTarget ==> managerWindowByTarget[t] != w
      ensures managerTargetByWindow ==
        if ManagedFrom(old(managerWindowByTarget), w, old(managerWindowByTarget).Keys) then old(managerTargetByWindow) - {w}
        else old(managerTargetByWindow)
      ensures historyByWindow == old(historyByWindow)
      ensures pointerByWindow == old(pointerByWindow)
      ensures suppressActivationByWindow == old(suppressActivationByWindow)
      ensures activeByWindow == old(activeByWindow)
      ensures managerTabs == old(managerTabs)
    {
      managerWindowByTarget, managerTargetByWindow := DropPairingsOf(managerWindowByTarget, managerTargetByWindow, w);
      WindowRemovedKeepsLinks(old(managerWindowByTarget), old(managerTargetByWindow), w);
    }

    /**
     * `action.onClicked` on tab `clicked` of window `window`: nothing on an
     * empty history; the previous tab when the clicked tab heads the
     * history; otherwise the head of the history, with the pointer reset
     * (its activation is requested whether or not it then succeeds).
     */
    method OnActionClicked(clicked: Option<int>, window: Option<int>, ok: set<int>) returns (request: Option<int>)
      requires Valid()
      modifies this
      ensures Valid()
      ensures window.None? ==> request.None? && pointerByWindow == old(pointerByWindow)
      ensures window.Some? ==>
        match ClickDecision(History(window.value), clicked)
        case Ignore => request.None? && pointerByWindow == old(pointerByWindow)
        case SwitchToPrevious =>
          request == PreviousCandidate(History(window.value), ok) && pointerByWindow == old(pointerByWindow)
        case ActivateFront(front) =>
          request == Some(front)
          && pointerByWindow == old(pointerByWindow)[window.value := 0]
      ensures historyByWindow == old(historyByWindow)
      ensures suppressActivationByWindow == old(suppressActivationByWindow)
      ensures activeByWindow == old(activeByWindow)
      ensures managerTabs == old(managerTabs)
      ensures managerWindowByTarget == old(managerWindowByTarget)
      ensures managerTargetByWindow == old(managerTargetByWindow)
    {
      if window.None? {
        return None;
      }
      var w := window.value;
      var h := History(w);
      match ClickDecision(h, clicked)
      case Ignore =>
        request := None;
      case SwitchToPrevious =>
        request := SwitchToPreviousTab(h, ok);
      case ActivateFront(front) =>
        request := Some(front);
        pointerByWindow := pointerByWindow[w := 0];
    }

    /**
     * The "register-manager" message from tab `senderTab` of window
     * `senderWindow`, naming window `target`. The pairing stays linked when
     * the sender's window manages no other window.
     */
    method RegisterManager(senderTab: Option<int>, senderWindow: Option<int>, target: Option<int>)
      requires Valid()
      modifies this
      ensures senderTab.None? || target.None? ==>
        && managerTabs == old(managerTabs)
        && managerWindowByTarget == old(managerWindowByTarget)
        && managerTargetByWindow == old(managerTargetByWindow)
      ensures senderTab.Some? && target.Some? ==>
        && managerTabs == old(managerTabs)[senderTab.value := target.value]
        && (senderWindow.None? ==>
              managerWindowByTarget == old(managerWindowByTarget)
              && managerTargetByWindow == old(managerTargetByWindow))
        && (senderWindow.Some? ==>
              managerWindowByTarget == old(managerWindowByTarget)[target.value := senderWindow.value]
              && managerTargetByWindow == old(managerTargetByWindow)[senderWindow.value := target.value])
      ensures historyByWindow == old(historyByWindow)
      ensures pointerByWindow == old(pointerByWindow)
      ensures suppressActivationByWindow == old(suppressActivationByWindow)
      ensures activeByWindow == old(activeByWindow)
      ensures HistoriesUnique() && PointersInRange()
      ensures (senderWindow.Some? ==> forall t :: t in old(managerWindowByTarget) && old(managerWindowByTarget)[t] == senderWindow.value ==> Some(t) == target)
        ==> ManagersLinked()
    {
      if senderTab.Some? && target.Some? {
        managerTabs := managerTabs[senderTab.value := target.value];
        if senderWindow.Some? {
          managerWindowByTarget := managerWindowByTarget[target.value := senderWindow.value];
          managerTargetByWindow := managerTargetByWindow[senderWindow.value := target.value];
        }
      }
    }

    /** The "unregister-manager" message from tab `senderTab` of window `senderWindow`. */
    method UnregisterManager(senderTab: Option<int>, senderWindow: Option<int>)
      requires Valid()
      modifies this
      ensures Valid()
      ensures senderTab.None? ==>
        && managerTabs == old(managerTabs)
        && managerWindowByTarget == old(managerWindowByTarget)
        && managerTargetByWindow == old(managerTargetByWindow)
      ensures senderTab.Some? ==>
        var id := senderTab.value;
        && managerTabs == old(managerTabs) - {id}
        && (if id in old(managerTabs) && old(managerTabs)[id] in old(managerWindowByTarget)
              && Some(old(managerWindowByTarget)[old(managerTabs)[id]]) == senderWindow
            then
              && managerWindowByTarget == old(managerWindowByTarget) - {old(managerTabs)[id]}
              && managerTargetByWindow == old(managerTargetByWindow) - {senderWindow.value}
            else
              && managerWindowByTarget == old(managerWindowByTarget)
              && managerTargetByWindow == old(managerTargetByWindow))
      ensures historyByWindow == old(historyByWindow)
      ensures pointerByWindow == old(pointerByWindow)
      ensures suppressActivationByWindow == old(suppressActivationByWindow)
      ensures activeByWindow == old(activeByWindow)
    {
      if senderTab.Some? {
        DropManagerTab(senderTab.value, senderWindow);
      }
    }

    /**
     * `commands.onCommand`: back and forward navigate the focused window,
     * or, from a manager window, the window it manages. `activeTabs` maps a
     * window to its active tab.
     */
    method OnCommand(command: Command, focused: Option<int>, isManager: bool, activeTabs: map<int, int>)
      returns (request: Option<int>)
      requires Valid()
      modifies this
      ensures Valid()
      ensures var target :=
          if focused.None? then None
          else if isManager then old(if focused.value in managerTargetByWindow then Some(managerTargetByWindow[focused.value]) else None)
          else focused;
        && (target.None? || command == OpenTabManager ==>
              && request.None? && pointerByWindow == old(pointerByWindow)
              && suppressActivationByWindow == old(suppressActivationByWindow))
        && (target.Some? && command != OpenTabManager ==>
              var w := target.value;
              var active := if w in activeTabs then Some(activeTabs[w]) else None;
              var n := Navigate(old(History(w)), old(Pointer(w)), active, if command == HistoryBack then 1 else -1);
              && (n.None? ==>
                    && request.None? && pointerByWindow == old(pointerByWindow)
                    && suppressActivationByWindow == old(suppressActivationByWindow))
              && (n.Some? ==>
                    && request == Some(old(History(w))[n.value])
                    && pointerByWindow == old(pointerByWindow)[w := n.value]
                    && suppressActivationByWindow == old(suppressActivationByWindow)[w := old(History(w))[n.value]]))
      ensures historyByWindow == old(historyByWindow)
      ensures activeByWindow == old(activeByWindow)
      ensures managerTabs == old(managerTabs)
      ensures managerWindowByTarget == old(managerWindowByTarget)
      ensures managerTargetByWindow == old(managerTargetByWindow)
    {
      if focused.None? {
        return None;
      }
      var target: Option<int> :=
        if isManager then (if focused.value in managerTargetByWindow then Some(managerTargetByWindow[focused.value]) else None)
        else focused;
      if target.None? || command == OpenTabManager {
        return None;
      }
      var w := target.value;
      var active := if w in activeTabs then Some(activeTabs[w]) else None;
      request := NavigateHistory(w, if command == HistoryBack then 1 else -1, active);
    }
  }

  /**
   * Seeding window `w` from its tabs keeps every pointer in range, and keeps
   * the histories duplicate-free when the window had none and the tab ids are unique.
   */
  lemma InstallKeepsInvariant(hs: map<int, seq<int>>, ps: map<int, int>, w: int, tabs: seq<Tab>)
    requires AllUnique(hs) && PointersFit(ps, hs)
    ensures var hs' := hs[w := HistoryIn(hs, w) + Ids(InstallOrder(tabs))];
      && PointersFit(ps, hs')
      && (UniqueIds(tabs) && HistoryIn(hs, w) == [] ==> AllUnique(hs'))
  {
    AppendKeepsPointers(ps, hs, w, Ids(InstallOrder(tabs)));
    if UniqueIds(tabs) && HistoryIn(hs, w) == [] {
      InstallIdsUnique(tabs);
      assert HistoryIn(hs, w) + Ids(InstallOrder(tabs)) == Ids(InstallOrder(tabs));
    }
  }

  /** The pointer stays a position of the history across a removal. */
  lemma AdjustKeepsRange(h: seq<int>, t: int, p: Option<int>)
    requires p.Some? ==> 0 <= p.value && (p.value < |h| || p.value == 0)
    ensures var q := AdjustPointer(p, IndexOf(h, t), |Forget(h, t)|);
      q.Some? ==> 0 <= q.value && (q.value < |Forget(h, t)| || q.value == 0)
  {
    if h != [] {
      AdjustStaysInRange(h, t, p);
    }
  }

  /** Dropping the pairings managed from `w` keeps the remaining ones linked. */
  lemma WindowRemovedKeepsLinks(byTarget: map<int, int>, byWindow: map<int, int>, w: int)
    requires forall t :: t in byTarget ==> byTarget[t] in byWindow && byWindow[byTarget[t]] == t
    ensures var b := map t | t in byTarget && byTarget[t] != w :: byTarget[t];
      var m := if ManagedFrom(byTarget, w, byTarget.Keys) then byWindow - {w} else byWindow;
      forall t :: t in b ==> b[t] in m && m[b[t]] == t
  {
  }

  /** Seeded from tabs with distinct ids, a window's history holds each tab once. */
  lemma InstallIdsUnique(tabs: seq<Tab>)
    requires UniqueIds(tabs)
    ensures NoDup(Ids(InstallOrder(tabs)))
  {
    PermutationKeepsIds(tabs, InstallOrder(tabs));
  }

  /**
   * A tab moved from window `a` to window `b` and activated there stays in
   * `a`'s history as well: no handler forgets a tab in any window but the
   * one it is removed from, so `Valid()` keeps each history duplicate-free
   * but does not keep a tab out of two histories.
   */
  method MovedTabStaysInOldWindow(e: Engine, t: int, a: int, b: int)
    requires e.Valid() && t in e.History(a) && a != b && e.Suppressed(b) != Some(t)
    modifies e
    ensures e.Valid() && t in e.History(a) && t in e.History(b)
  {
    ghost var before := e.History(b);
    e.OnActivated(t, b);
    assert e.History(b) == Remember(before, t);
    RememberOrder(before, t);
  }
}
