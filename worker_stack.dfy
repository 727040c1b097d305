/**
 * The stack variant of worker.js: per window a list of tab ids with the
 * most recent LAST, pushed without de-duplication and capped at 50, popped
 * from the top, and searched from the top for the next tab to activate.
 * A tab id reads as "no tab" when it is undefined or 0 (JavaScript
 * truthiness); None stands for undefined.
 */
module StackHistory {
  import opened Common
  import opened Navigation

  /** worker.js keeps at most this many entries per window. */
  const STACK_LIMIT := 50

  /** A tab id JavaScript treats as true: defined and not 0. */
  predicate Truthy(t: Option<int>) {
    t.Some? && t.value != 0
  }

  /** The tab a pop took (None for undefined) and the history it left. */
  datatype Taken = Taken(tab: Option<int>, history: seq<int>)

  /** `pushHistory` on a value: append, then drop the oldest entry past the limit. */
  function Push(h: seq<int>, t: int): (r: seq<int>)
    ensures |r| > 0 && r[|r| - 1] == t
    ensures |h| < STACK_LIMIT ==> r == h + [t]
    ensures |h| >= STACK_LIMIT ==> r == h[1..] + [t]
  {
    var pushed := h + [t];
    if |pushed| > STACK_LIMIT then pushed[1..] else pushed
  }

  /** `popHistory` on a value: with a tab to remove, filter it out; otherwise pop the top. */
  function Pop(h: seq<int>, rmTab: Option<int>): (r: Taken)
    ensures Truthy(rmTab) ==> r.tab == rmTab && r.history == Erase(h, rmTab.value)
    ensures !Truthy(rmTab) && |h| == 0 ==> r == Taken(None, [])
    ensures !Truthy(rmTab) && |h| > 0 ==> r.tab == Some(h[|h| - 1]) && r.history + [h[|h| - 1]] == h
  {
    if Truthy(rmTab) then Taken(rmTab, Erase(h, rmTab.value))
    else if |h| == 0 then Taken(None, [])
    else Taken(Some(h[|h| - 1]), h[..|h| - 1])
  }

  /** A push keeps a history within the limit within it. */
  lemma PushBound(h: seq<int>, t: int)
    requires |h| <= STACK_LIMIT
    ensures |Push(h, t)| <= STACK_LIMIT
  {
  }

  /** Popping right after pushing below the limit gives back the tab and the history. */
  lemma PushThenPop(h: seq<int>, t: int)
    requires |h| < STACK_LIMIT
    ensures Pop(Push(h, t), None) == Taken(Some(t), h)
  {
    assert (h + [t])[..|h|] == h;
  }

  // ---------------------------------------------------------------------
  // nextTab and lastTab
  // ---------------------------------------------------------------------

  /**
   * The host's answer for a candidate of window `w`: the tab exists, lies
   * in `w` (`tabWindow` maps tab ids to their windows) and activates
   * (`ok` holds the tab ids an activation succeeds for).
   */
  predicate Activates(t: int, w: int, tabWindow: map<int, int>, ok: set<int>) {
    t in tabWindow && tabWindow[t] == w && t in ok
  }

  /** What `nextTab` does once it has popped `t` and is left with `h`. */
  function Decide(h: seq<int>, t: Option<int>, w: int, tabWindow: map<int, int>, ok: set<int>): Taken
    decreases |h|, 1
  {
    if !Truthy(t) then Taken(None, h)
    else if Activates(t.value, w, tabWindow, ok) then Taken(t, h)
    else NextTabSpec(h, w, tabWindow, ok)
  }

  /**
   * `nextTab`: pop candidates off the top until one activates or a popped
   * id is no tab. Each failed candidate stays removed, and the history left
   * is what remains below the last one popped.
   */
  function NextTabSpec(h: seq<int>, w: int, tabWindow: map<int, int>, ok: set<int>): (r: Taken)
    ensures |r.history| <= |h| && r.history == h[..|r.history|]
    ensures |h| > 0 ==> |r.history| < |h|
    ensures |h| == 0 ==> r == Taken(None, [])
    ensures r.tab.Some? ==>
      r.tab.value == h[|r.history|] && r.tab.value != 0 && Activates(r.tab.value, w, tabWindow, ok)
    ensures r.tab.None? && |h| > 0 ==>
      h[|r.history|] == 0 || (r.history == [] && !Activates(h[0], w, tabWindow, ok))
    ensures forall j :: |r.history| < j < |h| ==> h[j] != 0 && !Activates(h[j], w, tabWindow, ok)
    decreases |h|, 0
  {
    if |h| == 0 then Taken(None, [])
    else
      var rest := h[..|h| - 1];
      var r := Decide(rest, Some(h[|h| - 1]), w, tabWindow, ok);
      assert rest[..|r.history|] == h[..|r.history|] by {
        if !Truthy(Some(h[|h| - 1])) || Activates(h[|h| - 1], w, tabWindow, ok) {
          assert r.history == rest;
        }
      }
      r
  }

  /**
   * The toolbar swap of `lastTab` with no tab given: pop the top two entries
   * and push them back in the other order (a popped 0 is not pushed back).
   * An empty history stays empty.
   */
  function SwapTop(h: seq<int>): (r: seq<int>)
    ensures forall x :: x in r ==> x in h
    ensures |h| <= STACK_LIMIT ==> |r| <= |h|
  {
    var first := Pop(h, None);
    if first.tab.None? then []
    else
      var second := Pop(first.history, None);
      var r := Push(second.history, first.tab.value);
      if Truthy(second.tab) then Push(r, second.tab.value) else r
  }

  /** The history `lastTab` hands to `nextTab`. */
  function Prepared(h: seq<int>, tabId: Option<int>): (r: seq<int>)
    ensures Truthy(tabId) ==> |r| > 0 && r[|r| - 1] == tabId.value
    ensures !Truthy(tabId) ==> forall x :: x in r ==> x in h
    ensures |h| <= STACK_LIMIT ==> |r| <= STACK_LIMIT
  {
    if Truthy(tabId) then Push(h, tabId.value) else SwapTop(h)
  }

  /** The swap turns `[..., t2, t1]` into `[..., t1, t2]`, and a single entry into itself. */
  lemma SwapTopShape(h: seq<int>)
    requires 0 < |h| <= STACK_LIMIT
    ensures |h| == 1 ==> SwapTop(h) == h
    ensures |h| >= 2 && h[|h| - 2] != 0 ==>
      SwapTop(h) == h[..|h| - 2] + [h[|h| - 1], h[|h| - 2]]
  {
    var first := Pop(h, None);
    assert first.history == h[..|h| - 1];
    if |h| >= 2 {
      var second := Pop(first.history, None);
      assert second.history == h[..|h| - 2];
    }
  }

  /** Swapping twice restores a history whose top two entries are tabs. */
  lemma SwapTopTwice(h: seq<int>)
    requires 2 <= |h| <= STACK_LIMIT && h[|h| - 1] != 0 && h[|h| - 2] != 0
    ensures SwapTop(SwapTop(h)) == h
  {
    SwapTopShape(h);
    var g := SwapTop(h);
    SwapTopShape(g);
    assert g[..|g| - 2] == h[..|h| - 2];
  }

  /**
   * The toolbar toggle on `p + [t2, t1]` (t1 active): the swap puts `t2` on
   * top, `nextTab` activates it and leaves `p + [t1]`, and the activation
   * pushes it back, giving `p + [t1, t2]`.
   */
  lemma ToolbarToggle(p: seq<int>, t1: int, t2: int, w: int, tabWindow: map<int, int>, ok: set<int>)
    requires |p| + 2 <= STACK_LIMIT && t1 != 0 && t2 != 0
    requires Activates(t2, w, tabWindow, ok)
    ensures var n := NextTabSpec(Prepared(p + [t2, t1], None), w, tabWindow, ok);
      && n == Taken(Some(t2), p + [t1])
      && Push(n.history, t2) == p + [t1, t2]
  {
    var h := p + [t2, t1];
    SwapTopShape(h);
    assert h[..|h| - 2] == p;
    var s := p + [t1, t2];
    assert s[..|s| - 1] == p + [t1];
  }

  /** `lastTab` keeps a history within the limit within it. */
  lemma LastTabBound(h: seq<int>, tabId: Option<int>, w: int, tabWindow: map<int, int>, ok: set<int>)
    requires |h| <= STACK_LIMIT
    ensures |NextTabSpec(Prepared(h, tabId), w, tabWindow, ok).history| <= STACK_LIMIT
  {
    if !Truthy(tabId) && |h| > 0 {
      var first := Pop(h, None);
      var second := Pop(first.history, None);
      assert |second.history| + (if second.tab.Some? then 1 else 0) == |first.history|;
    }
  }

  /**
   * After a removal the removed tab is neither in the window's history nor
   * the tab `nextTab` activates.
   */
  lemma RemovedTabGone(h: seq<int>, x: int, w: int, tabWindow: map<int, int>, ok: set<int>)
    requires x != 0
    ensures var r := NextTabSpec(Pop(h, Some(x)).history, w, tabWindow, ok);
      x !in r.history && r.tab != Some(x)
  {
    var e := Erase(h, x);
    var r := NextTabSpec(e, w, tabWindow, ok);
    assert forall i :: 0 <= i < |r.history| ==> r.history[i] == e[i];
    if r.tab.Some? {
      assert e[|r.history|] in e;
    }
  }

  /** Filtering a tab out of `p + [a]` for another tab `a` keeps `a` on top. */
  lemma {:induction false} EraseKeepsTop(p: seq<int>, a: int, x: int)
    requires a != x
    ensures Erase(p + [a], x) == Erase(p, x) + [a]
  {
    if |p| == 0 {
      assert Erase([a][1..], x) == [];
    } else {
      assert (p + [a])[1..] == p[1..] + [a];
      EraseKeepsTop(p[1..], a, x);
    }
  }

  /**
   * Closing a tab below the top: `nextTab` still pops the top entry `a` and,
   * when it activates, leaves the history without it. The tab that was
   * active stays active, so no activation pushes it back.
   */
  lemma RemovalBelowTopPopsTop(p: seq<int>, a: int, x: int, w: int, tabWindow: map<int, int>, ok: set<int>)
    requires x != 0 && a != 0 && a != x && Activates(a, w, tabWindow, ok)
    ensures NextTabSpec(Pop(p + [a], Some(x)).history, w, tabWindow, ok) == Taken(Some(a), Erase(p, x))
  {
    EraseKeepsTop(p, a, x);
    var e := Erase(p, x) + [a];
    assert e[..|e| - 1] == Erase(p, x);
  }

  // ---------------------------------------------------------------------
  // Context-menu ids and titles
  // ---------------------------------------------------------------------

  /** `s.split(c)`: the pieces between the separators, at least one. */
  function Split(s: string, c: char): (parts: seq<string>)
    ensures |parts| > 0
    ensures forall i :: 0 <= i < |parts| ==> c !in parts[i]
    decreases |s|
  {
    var i := IndexOf(s, c);
    if i == -1 then [s]
    else [s[..i]] + Split(s[i + 1..], c)
  }

  /** `parts.join(c)`. */
  function Join(parts: seq<string>, c: char): string
    requires |parts| > 0
  {
    if |parts| == 1 then parts[0] else parts[0] + [c] + Join(parts[1..], c)
  }

  /** Splitting a join of separator-free pieces gives the pieces back. */
  lemma {:induction false} SplitJoin(parts: seq<string>, c: char)
    requires |parts| > 0 && forall i :: 0 <= i < |parts| ==> c !in parts[i]
    ensures Split(Join(parts, c), c) == parts
  {
    var s := Join(parts, c);
    if |parts| == 1 {
      assert c !in parts[0];
    } else {
      var p := parts[0];
      var rest := Join(parts[1..], c);
      assert s == p + [c] + rest;
      assert c !in p;
      assert IndexOf(s, c) == |p| by {
        assert s[|p|] == c;
        assert s[..|p|] == p;
      }
      assert s[..|p|] == p;
      assert s[|p| + 1..] == rest;
      SplitJoin(parts[1..], c);
    }
  }

  /** The id of a tab's menu item: `tab_<window>_<tab>_<position>`. */
  function TabMenuId(w: int, t: int, position: int): (id: string)
    ensures |id| >= 4 && id[..4] == "tab_"
  {
    Join(["tab", IntToString(w), IntToString(t), IntToString(position)], '_')
  }

  /**
   * JavaScript's `parseInt` on a string: an optional sign and the longest
   * run of decimal digits after it, or None (NaN) when there is none.
   */
  function ParseIntPrefix(s: string): (r: Option<int>)
    ensures r.Some? <==>
      (|s| > 0 && IsDigit(s[0])) || (|s| > 1 && (s[0] == '-' || s[0] == '+') && IsDigit(s[1]))
    ensures r.Some? && |s| > 0 && IsDigit(s[0]) ==> 0 <= r.value
  {
    var signed := |s| > 0 && (s[0] == '-' || s[0] == '+');
    var body := if signed then s[1..] else s;
    var n := DigitRun(body);
    ParseNatDigits(body[..n]);
    if n == 0 then None
    else
      match ParseNat(body[..n])
      case None => None
      case Some(v) =>
        var x: int := if signed && s[0] == '-' then 0 - (v as int) else v as int;
        Some(x)
  }

  /** The length of the run of decimal digits `s` starts with. */
  function DigitRun(s: string): (n: nat)
    ensures n <= |s|
    ensures forall i :: 0 <= i < n ==> IsDigit(s[i])
    ensures n < |s| ==> !IsDigit(s[n])
  {
    if |s| == 0 || !IsDigit(s[0]) then 0 else 1 + DigitRun(s[1..])
  }

  /** The window and tab a clicked menu item names, as the click handler reads them. */
  datatype MenuTarget = MenuTarget(window: Option<int>, tab: Option<int>)

  /**
   * The click handler's reading of an id starting with `tab_`: pieces 1
   * and 2 of the split, through `parseInt` (a missing piece is NaN).
   */
  function ParseTabMenuId(id: string): (r: Option<MenuTarget>)
    ensures r.Some? <==> |id| >= 4 && id[..4] == "tab_"
  {
    if |id| >= 4 && id[..4] == "tab_" then
      var parts := Split(id, '_');
      Some(MenuTarget(
        if |parts| > 1 then ParseIntPrefix(parts[1]) else None,
        if |parts| > 2 then ParseIntPrefix(parts[2]) else None))
    else None
  }

  lemma DigitRunAll(s: string)
    requires forall i :: 0 <= i < |s| ==> IsDigit(s[i])
    ensures DigitRun(s) == |s|
  {
    if |s| > 0 {
      DigitRunAll(s[1..]);
    }
  }

  /** `parseInt` reads back the decimal form of any integer. */
  lemma ParseIntPrefixToString(n: int)
    ensures ParseIntPrefix(IntToString(n)) == Some(n)
  {
    var s := IntToString(n);
    if n < 0 {
      assert s[1..] == NatToString(-n);
      DigitRunAll(NatToString(-n));
      ParseNatToString(-n);
      assert s[1..][..|s[1..]|] == s[1..];
    } else {
      DigitRunAll(s);
      ParseNatToString(n);
      assert s[..|s|] == s;
    }
  }

  /** A decimal integer has no `_`. */
  lemma NoUnderscore(n: int)
    ensures '_' !in IntToString(n)
  {
    var s := IntToString(n);
    forall i | 0 <= i < |s| ensures s[i] != '_' {
    }
  }

  /** The click handler reads back the window and tab a menu item was built for. */
  lemma TabMenuIdRoundTrip(w: int, t: int, position: int)
    ensures ParseTabMenuId(TabMenuId(w, t, position)) == Some(MenuTarget(Some(w), Some(t)))
  {
    var parts := ["tab", IntToString(w), IntToString(t), IntToString(position)];
    NoUnderscore(w);
    NoUnderscore(t);
    NoUnderscore(position);
    assert '_' !in parts[0];
    SplitJoin(parts, '_');
    var id := TabMenuId(w, t, position);
    assert id == "tab" + "_" + Join(parts[1..], '_');
    assert id[..4] == "tab_";
    ParseIntPrefixToString(w);
    ParseIntPrefixToString(t);
  }

  /** The menu title of a tab: titles over 50 characters are cut to 47 and `...`. */
  function Truncate(title: string): (r: string)
    ensures |title| <= 50 ==> r == title
    ensures |title| > 50 ==> |r| == 50 && r[..47] == title[..47] && r[47..] == "..."
  {
    if |title| > 50 then title[..47] + "..." else title
  }

  // ---------------------------------------------------------------------
  // The worker's state
  // ---------------------------------------------------------------------

  /** The kind of window the host reports. */
  datatype WindowType = Normal | OtherType

  class TabStack {
    /** window id -> tab ids, most recent last */
    var tabHistories: map<int, seq<int>>

    constructor ()
      ensures tabHistories == map[]
    {
      tabHistories := map[];
    }

    /** `tabHistories.get(w) || []`. */
    function History(w: int): seq<int>
      reads this
    {
      if w in tabHistories then tabHistories[w] else []
    }

    /** `pushHistory`: returns the length right after the push, before any shift. */
    method PushHistory(w: int, t: int) returns (length: int)
      modifies this
      ensures tabHistories == old(tabHistories)[w := Push(old(History(w)), t)]
      ensures length == |old(History(w))| + 1
    {
      var history := History(w) + [t];
      length := |history|;
      if |history| > STACK_LIMIT {
        history := history[1..];
      }
      tabHistories := tabHistories[w := history];
    }

    /** `popHistory`. */
    method PopHistory(w: int, rmTab: Option<int>) returns (tab: Option<int>)
      modifies this
      ensures var r := Pop(old(History(w)), rmTab);
        tab == r.tab && tabHistories == old(tabHistories)[w := r.history]
    {
      var history := History(w);
      if Truthy(rmTab) {
        tab := rmTab;
        history := Erase(history, rmTab.value);
      } else if |history| == 0 {
        tab := None;
      } else {
        tab := Some(history[|history| - 1]);
        history := history[..|history| - 1];
      }
      tabHistories := tabHistories[w := history];
    }

    /**
     * `nextTab`, with its callback recursion written as the loop it is:
     * pop, and stop at a popped id that is no tab or at a tab that
     * activates in window `w`.
     */
    method NextTab(w: int, tabWindow: map<int, int>, ok: set<int>) returns (picked: Option<int>)
      modifies this
      ensures var r := NextTabSpec(old(History(w)), w, tabWindow, ok);
        picked == r.tab && tabHistories == old(tabHistories)[w := r.history]
    {
      var t := PopHistory(w, None);
      while Truthy(t) && !Activates(t.value, w, tabWindow, ok)
        invariant tabHistories == old(tabHistories)[w := History(w)]
        invariant Decide(History(w), t, w, tabWindow, ok) == NextTabSpec(old(History(w)), w, tabWindow, ok)
        decreases |History(w)| + (if t.Some? then 1 else 0)
      {
        t := PopHistory(w, None);
      }
      picked := if Truthy(t) then t else None;
    }

    /**
     * `lastTab`: push the given tab, or swap the top two entries when none
     * is given; then activate the next tab off the top.
     */
    method LastTab(w: int, tabId: Option<int>, tabWindow: map<int, int>, ok: set<int>) returns (picked: Option<int>)
      modifies this
      ensures var r := NextTabSpec(Prepared(old(History(w)), tabId), w, tabWindow, ok);
        picked == r.tab && tabHistories == old(tabHistories)[w := r.history]
    {
      ghost var before := tabHistories;
      ghost var prepared := Prepared(History(w), tabId);
      PrepareHistory(w, tabId);
      assert History(w) == prepared;
      picked := NextTab(w, tabWindow, ok);
      assert tabHistories == before[w := prepared][w := tabHistories[w]];
    }

    /** The first half of `lastTab`: push the given tab, or swap when none is given. */
    method PrepareHistory(w: int, tabId: Option<int>)
      modifies this
      ensures tabHistories == old(tabHistories)[w := Prepared(old(History(w)), tabId)]
    {
      if Truthy(tabId) {
        var _ := PushHistory(w, tabId.value);
      } else {
        SwapHistoryTop(w);
      }
    }

    /** The two pops that start the swap branch of `lastTab`. */
    method PopTwo(w: int) returns (t1: Option<int>, t2: Option<int>)
      modifies this
      ensures var first := Pop(old(History(w)), None);
        var second := Pop(first.history, None);
        t1 == first.tab && t2 == second.tab && tabHistories == old(tabHistories)[w := second.history]
    {
      t1 := PopHistory(w, None);
      t2 := PopHistory(w, None);
    }

    /** The swap branch of `lastTab`: two pops, then the pushes back in swapped order. */
    method SwapHistoryTop(w: int)
      modifies this
      ensures tabHistories == old(tabHistories)[w := SwapTop(old(History(w)))]
    {
      ghost var h := History(w);
      ghost var before := tabHistories;
      ghost var first := Pop(h, None);
      ghost var second := Pop(first.history, None);
      var t1, t2 := PopTwo(w);
      if t1.Some? {
        var _ := PushHistory(w, t1.value);
        assert tabHistories == before[w := Push(second.history, first.tab.value)];
      } else {
        assert t2.None? && tabHistories == before[w := []];
      }
      if Truthy(t2) {
        var _ := PushHistory(w, t2.value);
        assert tabHistories == before[w := Push(Push(second.history, first.tab.value), second.tab.value)];
      }
      assert tabHistories == before[w := SwapTop(h)];
    }

    /**
     * `tabs.onActivated` for tab `tabId`: `tabWindow` is the window the host
     * reports for it (None when the lookup fails) and `windowType` that
     * window's type (None when it cannot be found). Only tabs of normal
     * windows are pushed.
     */
    method OnActivated(tabId: int, tabWindow: Option<int>, windowType: Option<WindowType>)
      modifies this
      ensures Truthy(tabWindow) && windowType == Some(Normal) ==>
        tabHistories == old(tabHistories)[tabWindow.value := Push(old(History(tabWindow.value)), tabId)]
      ensures !(Truthy(tabWindow) && windowType == Some(Normal)) ==> tabHistories == old(tabHistories)
    {
      if Truthy(tabWindow) && windowType == Some(Normal) {
        var _ := PushHistory(tabWindow.value, tabId);
      }
    }

    /** `tabs.onRemoved`: filter the tab out of its window's history, then activate the next tab. */
    method OnRemoved(tabId: int, w: int, tabWindow: map<int, int>, ok: set<int>) returns (picked: Option<int>)
      modifies this
      ensures var r := NextTabSpec(Pop(old(History(w)), Some(tabId)).history, w, tabWindow, ok);
        picked == r.tab && tabHistories == old(tabHistories)[w := r.history]
    {
      var _ := PopHistory(w, Some(tabId));
      picked := NextTab(w, tabWindow, ok);
    }
  }
}
