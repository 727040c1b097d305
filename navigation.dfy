/**
 * The per-window decisions of background.js that read the history list:
 * where back/forward starts and lands, how an activation is reconciled with
 * the "suppress next activation" marker, what a toolbar click does, which
 * fallback tab is tried, and the ids (`tab-<id>`) and titles of the
 * context-menu items.
 */
module Navigation {
  import opened Common
  import opened MruHistory

  // ---------------------------------------------------------------------
  // navigateHistory
  // ---------------------------------------------------------------------

  /** `history[p]` in JavaScript: undefined (None) outside the array. */
  function At(h: seq<int>, p: int): Option<int> {
    if 0 <= p < |h| then Some(h[p]) else None
  }

  /**
   * The pointer `navigateHistory` starts from: the stored one when it reads
   * the active tab's id (both may be undefined), otherwise the active tab's
   * position, or 0 when the active tab is not in the history.
   */
  function ResolvePointer(h: seq<int>, stored: Option<int>, active: Option<int>): (p: int)
    ensures stored.Some? && At(h, stored.value) == active ==> p == stored.value
    ensures (stored.None? || At(h, stored.value) != active) ==>
      (if active.Some? && active.value in h then 0 <= p < |h| && h[p] == active.value else p == 0)
  {
    if stored.Some? && At(h, stored.value) == active then stored.value
    else if active.None? then 0
    else
      var idx := IndexOf(h, active.value);
      if idx == -1 then 0 else idx
  }

  /** Whenever the active tab is in the history, the resolved pointer designates it. */
  lemma ResolveFindsActive(h: seq<int>, stored: Option<int>, a: int)
    requires a in h
    ensures var p := ResolvePointer(h, stored, Some(a));
      0 <= p < |h| && h[p] == a
  {
  }

  /**
   * The index `navigateHistory` moves to, or None when the history is empty
   * or the step leaves the list (then nothing changes).
   */
  function Navigate(h: seq<int>, stored: Option<int>, active: Option<int>, delta: int): (r: Option<nat>)
    ensures r.None? <==> |h| == 0 || !(0 <= ResolvePointer(h, stored, active) + delta < |h|)
    ensures r.Some? ==> r.value < |h| && r.value == ResolvePointer(h, stored, active) + delta
  {
    if |h| == 0 then None
    else
      var next := ResolvePointer(h, stored, active) + delta;
      if next < 0 || next >= |h| then None else Some(next)
  }

  // ---------------------------------------------------------------------
  // onActivated
  // ---------------------------------------------------------------------

  /** A window's history, pointer and suppression marker after an activation. */
  datatype Activation = Activation(history: seq<int>, pointer: int, suppressed: Option<int>)

  /**
   * The `onActivated` handler for tab `t`: an activation the extension asked
   * for itself (the marker names `t`) consumes the marker and only moves the
   * pointer; any other activation is remembered and resets the pointer, and
   * a marker naming another tab is left in place.
   */
  function Reconcile(h: seq<int>, suppressed: Option<int>, t: int): (r: Activation)
    ensures suppressed == Some(t) ==>
      && r.history == h
      && r.suppressed.None?
      && (if t in h then 0 <= r.pointer < |h| && h[r.pointer] == t else r.pointer == 0)
    ensures suppressed != Some(t) ==>
      r.history == Remember(h, t) && r.pointer == 0 && r.suppressed == suppressed
  {
    if suppressed == Some(t) then
      var idx := IndexOf(h, t);
      Activation(h, if idx == -1 then 0 else idx, None)
    else
      Activation(Remember(h, t), 0, suppressed)
  }

  /**
   * An activation keeps a history duplicate-free (and within the limit when
   * it was), and afterwards the pointer designates the activated tab
   * whenever the history holds it.
   */
  lemma ReconcileKeepsInvariant(h: seq<int>, suppressed: Option<int>, t: int)
    requires NoDup(h)
    ensures var r := Reconcile(h, suppressed, t);
      && NoDup(r.history)
      && (|h| <= HISTORY_LIMIT ==> |r.history| <= HISTORY_LIMIT)
      && 0 <= r.pointer
      && (t in r.history ==> r.pointer < |r.history| && r.history[r.pointer] == t)
  {
    if suppressed != Some(t) {
      RememberOrder(h, t);
    }
  }

  /** A marker is consumed by the activation it names: activating the same tab again is remembered. */
  lemma SuppressionConsumedOnce(h: seq<int>, t: int)
    ensures var first := Reconcile(h, Some(t), t);
      var second := Reconcile(first.history, first.suppressed, t);
      && first.history == h
      && second.history == Remember(h, t)
      && second.pointer == 0
  {
  }

  /**
   * Back then forward: from a duplicate-free history whose active tab `a` it
   * holds, a step back, the activation it causes, a step forward and the
   * activation that causes bring the pointer back to `a` and leave the
   * history as it was.
   */
  lemma BackThenForward(h: seq<int>, stored: Option<int>, a: int)
    requires NoDup(h) && a in h
    requires Navigate(h, stored, Some(a), 1).Some?
    ensures var back := Navigate(h, stored, Some(a), 1).value;
      var s1 := Reconcile(h, Some(h[back]), h[back]);
      var fwd := Navigate(s1.history, Some(s1.pointer), Some(h[back]), -1);
      && fwd.Some?
      && var s2 := Reconcile(s1.history, Some(s1.history[fwd.value]), s1.history[fwd.value]);
      && s2.history == h
      && s2.history[s2.pointer] == a
  {
    var p := ResolvePointer(h, stored, Some(a));
    ResolveFindsActive(h, stored, a);
    var back := p + 1;
    var s1 := Reconcile(h, Some(h[back]), h[back]);
    NoDupIndexOf(h, back);
    assert s1.pointer == back;
    assert ResolvePointer(h, Some(back), Some(h[back])) == back;
    NoDupIndexOf(h, p);
  }

  /**
   * Forward then back: the mirror of `BackThenForward`, from a state where a
   * step forward exists.
   */
  lemma ForwardThenBack(h: seq<int>, stored: Option<int>, a: int)
    requires NoDup(h) && a in h
    requires Navigate(h, stored, Some(a), -1).Some?
    ensures var fwd := Navigate(h, stored, Some(a), -1).value;
      var s1 := Reconcile(h, Some(h[fwd]), h[fwd]);
      var back := Navigate(s1.history, Some(s1.pointer), Some(h[fwd]), 1);
      && back.Some?
      && var s2 := Reconcile(s1.history, Some(s1.history[back.value]), s1.history[back.value]);
      && s2.history == h
      && s2.history[s2.pointer] == a
  {
    var p := ResolvePointer(h, stored, Some(a));
    ResolveFindsActive(h, stored, a);
    var fwd := p - 1;
    var s1 := Reconcile(h, Some(h[fwd]), h[fwd]);
    NoDupIndexOf(h, fwd);
    assert s1.pointer == fwd;
    assert ResolvePointer(h, Some(fwd), Some(h[fwd])) == fwd;
    NoDupIndexOf(h, p);
  }

  /** In a duplicate-free list the position of the entry at `i` is `i`. */
  lemma NoDupIndexOf(h: seq<int>, i: nat)
    requires NoDup(h) && i < |h|
    ensures IndexOf(h, h[i]) == i
  {
    var k := IndexOf(h, h[i]);
    assert h[k] == h[i];
  }

  // ---------------------------------------------------------------------
  // Fallback candidates
  // ---------------------------------------------------------------------

  /**
   * The first position at or after `from` whose tab the host activates
   * (`ok` is the set of tab ids an activation request succeeds for), or None.
   */
  function FirstActivatable(h: seq<int>, from: nat, ok: set<int>): (r: Option<nat>)
    ensures r.Some? ==>
      && from <= r.value < |h| && h[r.value] in ok
      && (forall j :: from <= j < r.value ==> h[j] !in ok)
    ensures r.None? ==> forall j :: from <= j < |h| ==> h[j] !in ok
    decreases |h| - from
  {
    if from >= |h| then None
    else if h[from] in ok then Some(from)
    else FirstActivatable(h, from + 1, ok)
  }

  /** The tab `switchToPreviousTab` ends up activating, or None. */
  function PreviousCandidate(h: seq<int>, ok: set<int>): (r: Option<int>)
    ensures |h| < 2 ==> r.None?
    ensures r.Some? ==> r.value in ok && r.value in h[1..]
    ensures r.None? ==> forall i :: 1 <= i < |h| ==> h[i] !in ok
  {
    if |h| < 2 then None
    else
      match FirstActivatable(h, 1, ok)
      case None => None
      case Some(i) => Some(h[i])
  }

  /** The tab `switchToMostRecentAvailable` ends up activating, or None. */
  function MostRecentCandidate(h: seq<int>, ok: set<int>): (r: Option<int>)
    ensures r.Some? ==> r.value in ok && r.value in h
    ensures r.None? ==> forall i :: 0 <= i < |h| ==> h[i] !in ok
  {
    match FirstActivatable(h, 0, ok)
    case None => None
    case Some(i) => Some(h[i])
  }

  /** Try `h[from]`, `h[from + 1]`, … in order and stop at the first activation that succeeds. */
  method TryInOrder(h: seq<int>, from: nat, ok: set<int>) returns (picked: Option<int>)
    ensures picked == (match FirstActivatable(h, from, ok) case None => None case Some(i) => Some(h[i]))
  {
    var i := from;
    while i < |h|
      invariant from <= i
      invariant FirstActivatable(h, from, ok) == FirstActivatable(h, i, ok)
      decreases |h| - i
    {
      if h[i] in ok {
        return Some(h[i]);
      }
      i := i + 1;
    }
    return None;
  }

  /**
   * `switchToPreviousTab`: nothing with fewer than two entries; otherwise
   * `history[1]`, then `history[2..]` in order, until one activates.
   */
  method SwitchToPreviousTab(h: seq<int>, ok: set<int>) returns (picked: Option<int>)
    ensures picked == PreviousCandidate(h, ok)
    ensures |h| < 2 ==> picked.None?
    ensures picked.Some? ==> picked.value in ok && picked.value in h[1..]
  {
    if |h| < 2 {
      return None;
    }
    if h[1] in ok {
      return Some(h[1]);
    }
    picked := TryInOrder(h, 2, ok);
    if picked.Some? {
      var i := FirstActivatable(h, 2, ok).value;
      assert h[i] == h[1..][i - 1];
    }
  }

  /** `switchToMostRecentAvailable`: the history from the front, until one activates. */
  method SwitchToMostRecentAvailable(h: seq<int>, ok: set<int>) returns (picked: Option<int>)
    ensures picked == MostRecentCandidate(h, ok)
    ensures picked.Some? ==> picked.value in ok && picked.value in h
    ensures picked.None? <==> forall t :: t in h ==> t !in ok
  {
    picked := TryInOrder(h, 0, ok);
    var first := FirstActivatable(h, 0, ok);
    if first.Some? {
      var w := h[first.value];
      assert picked == Some(w);
      assert w in h && w in ok;
    } else {
      assert picked.None?;
      forall t | t in h ensures t !in ok {
        var j :| 0 <= j < |h| && h[j] == t;
      }
    }
  }

  // ---------------------------------------------------------------------
  // Toolbar click
  // ---------------------------------------------------------------------

  /** What `action.onClicked` does with the clicked tab. */
  datatype Click = Ignore | SwitchToPrevious | ActivateFront(tab: int)

  /**
   * Nothing on an empty history; back to the previous tab when the clicked
   * tab heads the history; otherwise to the head of the history (and the
   * pointer is reset).
   */
  function ClickDecision(h: seq<int>, clicked: Option<int>): (c: Click)
    ensures c == Ignore <==> |h| == 0
    ensures c == SwitchToPrevious <==> |h| > 0 && clicked == Some(h[0])
    ensures c.ActivateFront? ==> c.tab == h[0] && clicked != Some(h[0])
  {
    if |h| == 0 then Ignore
    else if clicked == Some(h[0]) then SwitchToPrevious
    else ActivateFront(h[0])
  }

  /** Remembering the second entry of a duplicate-free list swaps the first two. */
  lemma RememberSecond(h: seq<int>)
    requires NoDup(h) && 2 <= |h| <= HISTORY_LIMIT
    ensures Remember(h, h[1]) == [h[1], h[0]] + h[2..]
  {
    NoDupIndexOf(h, 1);
    assert RemoveAt(h, 1) == [h[0]] + h[2..];
  }

  /**
   * The toolbar toggle: clicking the button on the front tab of a
   * duplicate-free history activates the previous tab (when the host can),
   * and the activation swaps the first two entries; clicking again on that
   * tab swaps them back.
   */
  lemma ToolbarToggle(h: seq<int>, ok: set<int>, marker: Option<int>)
    requires NoDup(h) && 2 <= |h| <= HISTORY_LIMIT && h[0] in ok && h[1] in ok
    requires marker != Some(h[0]) && marker != Some(h[1])
    ensures ClickDecision(h, Some(h[0])) == SwitchToPrevious
    ensures PreviousCandidate(h, ok) == Some(h[1])
    ensures var s1 := Reconcile(h, marker, h[1]);
      && s1.history == [h[1], h[0]] + h[2..]
      && ClickDecision(s1.history, Some(h[1])) == SwitchToPrevious
      && PreviousCandidate(s1.history, ok) == Some(h[0])
      && Reconcile(s1.history, marker, h[0]).history == h
  {
    RememberSecond(h);
    var g := [h[1], h[0]] + h[2..];
    SwapFrontKeepsNoDup(h);
    RememberSecond(g);
    assert PreviousCandidate(h, ok) == Some(h[1]);
    assert PreviousCandidate(g, ok) == Some(g[1]);
  }

  /** Swapping the first two entries of a duplicate-free list keeps it duplicate-free, and swapping again restores it. */
  lemma SwapFrontKeepsNoDup(h: seq<int>)
    requires NoDup(h) && 2 <= |h|
    ensures var g := [h[1], h[0]] + h[2..];
      NoDup(g) && |g| == |h| && [g[1], g[0]] + g[2..] == h
  {
    var g := [h[1], h[0]] + h[2..];
    forall i, j | 0 <= i < j < |g| ensures g[i] != g[j] {
      var i' := if i == 0 then 1 else if i == 1 then 0 else i;
      var j' := if j == 0 then 1 else if j == 1 then 0 else j;
      assert g[i] == h[i'] && g[j] == h[j'];
    }
    assert [g[1], g[0]] + g[2..] == h;
  }

  // ---------------------------------------------------------------------
  // Context-menu ids
  // ---------------------------------------------------------------------

  /** background.js shows at most this many tabs in the toolbar menu. */
  const MENU_LIMIT := 20

  /** The menu item id of a tab: `tab-` and the id in decimal. */
  function TabMenuId(t: int): (id: string)
    ensures |id| > 4 && id[..4] == "tab-"
  {
    "tab-" + IntToString(t)
  }

  /**
   * The integer JavaScript's `Number` reads from a string of decimal digits,
   * optionally signed; the empty string reads as 0. Other forms are None.
   */
  function ParseInteger(s: string): (r: Option<int>)
    ensures |s| == 0 ==> r == Some(0)
    ensures r.Some? && |s| > 0 && s[0] != '-' && s[0] != '+' ==> 0 <= r.value
  {
    if |s| == 0 then Some(0)
    else if s[0] == '-' || s[0] == '+' then
      match ParseNat(s[1..])
      case None => None
      case Some(n) =>
        var v: int := if s[0] == '-' then 0 - (n as int) else n as int;
        Some(v)
    else
      match ParseNat(s)
      case None => None
      case Some(n) => Some(n)
  }

  /** The tab a clicked menu item names: `Number` of what follows `tab-`, when that is an integer. */
  function ParseTabMenuId(id: string): (r: Option<int>)
    ensures r.Some? ==> |id| >= 4 && id[..4] == "tab-"
    ensures |id| < 4 || id[..4] != "tab-" ==> r.None?
  {
    if |id| >= 4 && id[..4] == "tab-" then ParseInteger(id[4..]) else None
  }

  /** Reading back the decimal form of `n` gives `n`. */
  lemma ParseIntegerToString(n: int)
    ensures ParseInteger(IntToString(n)) == Some(n)
  {
    var s := IntToString(n);
    if n < 0 {
      var digits := NatToString(-n);
      assert s[1..] == digits;
      ParseNatToString(-n);
      assert ParseNat(s[1..]) == Some(-n);
    } else {
      ParseNatToString(n);
      assert s[0] != '-' && s[0] != '+' by { assert IsDigit(s[0]); }
    }
  }

  /** A tab's menu item id parses back to the tab's id. */
  lemma TabMenuIdRoundTrip(t: int)
    ensures ParseTabMenuId(TabMenuId(t)) == Some(t)
  {
    ParseIntegerToString(t);
    assert TabMenuId(t)[..4] == "tab-";
    assert TabMenuId(t)[4..] == IntToString(t);
  }

  /** The other fixed menu ids never read as a tab. */
  lemma FixedMenuIdsAreNotTabs()
    ensures ParseTabMenuId("open-tab-manager").None?
    ensures ParseTabMenuId("tab-history-root").None?
  {
    assert "tab-history-root"[4..] == "history-root";
    assert "open-tab-manager"[..4][0] == 'o';
  }

  /** The ids of the toolbar menu's tab items for an ordered list of tab ids, at most `MENU_LIMIT`. */
  function MenuIds(ordered: seq<int>): (ids: seq<string>)
    ensures |ids| == Min(|ordered|, MENU_LIMIT)
  {
    var shown := if |ordered| > MENU_LIMIT then ordered[..MENU_LIMIT] else ordered;
    seq(|shown|, i requires 0 <= i < |shown| => TabMenuId(shown[i]))
  }

  /** A string that JavaScript's `||` keeps: defined and not empty. */
  predicate Present(s: Option<string>) {
    s.Some? && |s.value| > 0
  }

  /** `cs[i]` is the first candidate `||` keeps. */
  predicate FirstPresentAt(cs: seq<Option<string>>, i: int) {
    0 <= i < |cs| && Present(cs[i]) && forall j :: 0 <= j < i ==> !Present(cs[j])
  }

  /** `cs[0] || cs[1] || … || fallback`. */
  function FirstPresent(cs: seq<Option<string>>, fallback: string): (r: string)
    ensures (forall i :: 0 <= i < |cs| ==> !Present(cs[i])) ==> r == fallback
    ensures (exists i :: 0 <= i < |cs| && Present(cs[i])) ==> exists i :: FirstPresentAt(cs, i) && r == cs[i].value
    decreases |cs|
  {
    if |cs| == 0 then fallback
    else if Present(cs[0]) then
      assert FirstPresentAt(cs, 0);
      cs[0].value
    else
      var tail := cs[1..];
      var r := FirstPresent(tail, fallback);
      FirstPresentShift(cs, tail, r, fallback);
      r
  }

  /** A candidate `||` skips at the front leaves the answer of the rest. */
  lemma FirstPresentShift(cs: seq<Option<string>>, tail: seq<Option<string>>, r: string, fallback: string)
    requires |cs| > 0 && !Present(cs[0]) && tail == cs[1..]
    requires (forall i :: 0 <= i < |tail| ==> !Present(tail[i])) ==> r == fallback
    requires (exists i :: 0 <= i < |tail| && Present(tail[i])) ==> exists i :: FirstPresentAt(tail, i) && r == tail[i].value
    ensures (forall i :: 0 <= i < |cs| ==> !Present(cs[i])) ==> r == fallback
    ensures (exists i :: 0 <= i < |cs| && Present(cs[i])) ==> exists i :: FirstPresentAt(cs, i) && r == cs[i].value
  {
    assert forall i :: 0 <= i < |tail| ==> tail[i] == cs[i + 1];
    if exists k :: 0 <= k < |cs| && Present(cs[k]) {
      var k :| 0 <= k < |cs| && Present(cs[k]);
      assert Present(tail[k - 1]);
      var i :| FirstPresentAt(tail, i) && r == tail[i].value;
      assert FirstPresentAt(cs, i + 1);
    }
  }

  /**
   * The title of a tab's menu item: the tab's title, else its pending URL,
   * else its URL, else "(Untitled)", with "> " before it for the active tab.
   */
  function MenuTitle(title: Option<string>, pendingUrl: Option<string>, url: Option<string>, active: bool): (t: string)
    ensures var caption := FirstPresent([title, pendingUrl, url], "(Untitled)");
      && |caption| > 0
      && (active ==> t == "> " + caption)
      && (!active ==> t == caption)
  {
    var caption := FirstPresent([title, pendingUrl, url], "(Untitled)");
    if active then "> " + caption else caption
  }

  /** The label is the title when the tab has one, and "(Untitled)" only when it has no title or URL. */
  lemma MenuTitleLabel(title: Option<string>, pendingUrl: Option<string>, url: Option<string>)
    ensures Present(title) ==> MenuTitle(title, pendingUrl, url, false) == title.value
    ensures !Present(title) && Present(pendingUrl) ==> MenuTitle(title, pendingUrl, url, false) == pendingUrl.value
    ensures !Present(title) && !Present(pendingUrl) && Present(url) ==> MenuTitle(title, pendingUrl, url, false) == url.value
    ensures !Present(title) && !Present(pendingUrl) && !Present(url) ==> MenuTitle(title, pendingUrl, url, false) == "(Untitled)"
  {
    var cs := [title, pendingUrl, url];
    assert cs[0] == title && cs[1] == pendingUrl && cs[2] == url;
    if Present(title) || Present(pendingUrl) || Present(url) {
      var i :| FirstPresentAt(cs, i) && FirstPresent(cs, "(Untitled)") == cs[i].value;
      assert FirstPresentAt(cs, i);
      assert Present(title) ==> Present(cs[0]);
      assert Present(pendingUrl) ==> Present(cs[1]);
    }
  }

  /** Every menu item parses back to the tab at the same position of the ordered list. */
  lemma MenuIdsRoundTrip(ordered: seq<int>)
    ensures forall i :: 0 <= i < |MenuIds(ordered)| ==> ParseTabMenuId(MenuIds(ordered)[i]) == Some(ordered[i])
  {
    forall i | 0 <= i < |MenuIds(ordered)| ensures ParseTabMenuId(MenuIds(ordered)[i]) == Some(ordered[i]) {
      TabMenuIdRoundTrip(ordered[i]);
    }
  }
}
