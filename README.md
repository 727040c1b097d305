# chrome-last-tab, modelled in Dafny

chrome-last-tab is a browser extension. For each window it keeps a list of the tabs used most recently, and it lets the user jump back to the previous tab or step back and forward through that list. The repository holds two independent implementations, and this project models both: their orderings are opposite and only one de-duplicates.

* **The MRU engine of `background.js`** keeps the list most recent FIRST. Remembering a tab keeps a window's list duplicate-free and at most 50 entries long; install-time seeding is the exception (see below). The lists of different windows are independent, so one tab can be in two of them.
  - The engine's state is the class `Background.Engine`, whose fields are the handlers' module-level maps:
    - `historyByWindow`
    - `pointerByWindow`
    - `suppressActivationByWindow`
    - `activeByWindow`
    - the three manager maps
  - Each event handler is a method that updates those maps. It is proved against pure functions on lists:
    - modules `MruHistory`, `Navigation`, `TabOrdering`;
    - the shared helpers in `Common`.
  - The invariant `Valid()` combines three parts:
    - each window's history is duplicate-free (a tab may still be in the histories of two windows);
    - back/forward pointers are in range;
    - every managed window's recorded manager window records that window as its target. This is one direction only; the source can leave stale reverse entries, for example when a second manager registers for a window that is already managed.
  - The event handlers keep `Valid()`, with two exceptions:
    - `RegisterManager` keeps it only when the sender's window manages no other window;
    - `OnInstalledWindow` keeps it only when it starts from an empty history with unique tab ids.
  - The helper methods `RememberTab`, `ForgetTab` and `AdjustPointerOnRemoval` promise only parts of `Valid()`. The handler that calls them re-establishes the rest.
* **The stack variant of `worker.js`** keeps the list most recent LAST (module `StackHistory`, class `TabStack` over `tabHistories`). Pushes are not de-duplicated, and the stack is capped at 50. The toolbar swaps the top two entries. `nextTab` then pops candidates until one activates; it is written as the loop its callback recursion amounts to.

The browser is replaced by values handed to each operation:
* the live tabs of a window, as a sequence of `Tab` records;
* the active tab;
* the window a tab belongs to;
* the set of tab ids for which an activation succeeds.

A handler that asks the browser to activate a tab returns a tab as `request` (or `picked`). Where the handler asks once (navigation, the toolbar's "activate the first history tab" branch), this is the tab asked for, whether or not its activation succeeds. Where it tries candidates in turn, this is the candidate whose activation succeeded. The `onActivated` event the activation causes is a separate call of the model's `OnActivated`. JavaScript's `undefined` is `None`. In the stack variant a tab id reads as "no tab" when it is `undefined` or `0` (predicate `Truthy`), as in the source's truthiness tests.

The model follows the code, which differs from a natural reading in three places:
* a suppression marker that names another tab is left in place on activation (`background.js:303-311`);
* the install-time seeding appends every tab of a window without applying the 50-entry cap (`background.js:281-286`);
* a tab id can be in more than one window's history. There is no `tabs.onAttached` or `tabs.onDetached` listener, `rememberTab` (`background.js:36-46`) touches only the activating window, and `tabs.onRemoved` forgets the tab only in its own window (`background.js:375-379`). A tab moved from window A to window B and activated there stays in A's history (`MovedTabStaysInOldWindow`), and A's fallback loop (`background.js:117-127`) can later activate it in B.

## Model

| member | source | states |
|---|---|---|
| MruHistory.Remember | background.js:36-46 | the remembered tab is first and the list holds at most 50 entries |
| MruHistory.RememberOrder | background.js:36-46 | on a duplicate-free list, remembering `t` gives `t`, then the other entries in their old order, cut at 50; no duplicate appears |
| MruHistory.RememberPresent | background.js:38-42 | remembering a tab already present keeps the same entries (as a multiset) and the same length |
| MruHistory.Forget | background.js:48-54 | the first occurrence is cut out with `RemoveAt`, the `splice(i, 1)` of background.js:40, 52 and 276; the length drops by one exactly when the tab was present; no new entry appears; an absent tab leaves the list as it was |
| MruHistory.ForgetErases | background.js:48-54 | on a duplicate-free list, forgetting is the order-preserving filter of the tab: the tab is absent and no duplicate appears |
| MruHistory.AdjustPointer | background.js:56-76 | an index of -1 or an unset pointer leaves the pointer unchanged; otherwise, if a pointer remains, it is non-negative and the list is not empty |
| MruHistory.AdjustClampsOnRemovedEntry | background.js:67-75 | removing the tab the pointer designates clamps the pointer to `min(pointer, len - 1)` of the shortened list, or unsets it when the list became empty; the pointer then reads the tab that followed |
| MruHistory.AdjustKeepsEntry | background.js:56-76 | removing a tab other than the one the pointer designates leaves the pointer on the same tab |
| MruHistory.AdjustStaysInRange | background.js:56-76 | an in-range pointer stays in range; it becomes unset only when it was unset or the list became empty |
| TabOrdering.GetOrderedTabs | background.js:78-94 | the loop builds exactly the ordered view: tracked tabs in history order, then untracked live tabs sorted by index |
| TabOrdering.OrderedView | background.js:78-94 | the view contains only live tabs |
| TabOrdering.OrderedViewPermutation | background.js:78-94 | with unique tab ids, the ordered view holds exactly the live tabs, each once |
| TabOrdering.OrderedViewShape | background.js:78-94 | the first part is in history order and contains only history tabs; the rest are untracked live tabs sorted by index |
| TabOrdering.TrackedUntrackedPartition | background.js:83-93 | tracked and untracked tabs together are the live tabs (as a multiset) |
| TabOrdering.TrackedOrder | background.js:83-89 | the tracked tabs appear in the order of their history positions |
| TabOrdering.SortTabs | background.js:92 | sorting is a permutation and its result is sorted by the given key; `Before` is the comparator: by index (background.js:92, 273), or most recently accessed first with index breaking ties (background.js:264-270) |
| TabOrdering.InsertSorted | background.js:264-273 | inserting into a sorted list keeps it sorted |
| TabOrdering.FindActive | background.js:274 | returns the first active tab's index, or -1 exactly when no tab is active |
| TabOrdering.InstallOrder | background.js:261-279 | the install order is a permutation of the window's tabs |
| TabOrdering.InstallOrderActiveFirst | background.js:272-278 | with no access times, the active tab comes first and the rest are in index order |
| TabOrdering.InstallOrderByIndex | background.js:272-273 | with no access times and no active tab, the install order is the index order |
| TabOrdering.PermutationKeepsIds | background.js:281-286 | a permutation of tabs with unique ids has a duplicate-free id list |
| Navigation.ResolvePointer | background.js:152-156 | the stored pointer is kept when it reads the active tab; otherwise it is the active tab's position, or 0 when that tab is absent |
| Navigation.Navigate | background.js:145-165 | no step when the history is empty or `pointer + delta` leaves `[0, len)`; otherwise the step lands on `pointer + delta` |
| Navigation.SuppressionConsumedOnce | background.js:297-311 | a marker that names the activated tab is used up by that activation: the history is unchanged, and activating the same tab again remembers it and resets the pointer to 0 |
| Navigation.Reconcile | background.js:297-311 | a matching marker is consumed, the history is unchanged and the pointer goes to the tab; otherwise the tab is remembered, the pointer becomes 0 and the marker stays |
| Navigation.ReconcileKeepsInvariant | background.js:297-311 | an activation keeps the history duplicate-free and within 50; the pointer then designates the activated tab |
| Navigation.BackThenForward | background.js:145-170 | a back step, its activation, a forward step and its activation restore both the history and the pointer's tab |
| Navigation.ForwardThenBack | background.js:145-170 | a forward step, its activation, a back step and its activation restore both the history and the pointer's tab |
| Navigation.PreviousCandidate | background.js:96-115 | none with fewer than 2 entries; otherwise a tab from `history[1..]` that activates, or none exactly when no tab there activates |
| Navigation.MostRecentCandidate | background.js:117-127 | a history tab that activates, or none exactly when no history tab activates |
| Navigation.FirstActivatable | background.js:104-113 | finds the first position from `from` on whose tab activates; when there is none, no such tab exists |
| Navigation.TryInOrder | background.js:106-112 | the loop picks the first tab, in history order, whose activation succeeds |
| Navigation.SwitchToPreviousTab | background.js:96-115 | nothing when the history has fewer than 2 entries; otherwise `history[1]`, then `history[2..]` in order, with the pick taken from `history[1..]` |
| Navigation.SwitchToMostRecentAvailable | background.js:117-127 | picks the first history tab that activates; picks none exactly when no history tab activates |
| Navigation.ClickDecision | background.js:402-421 | empty history: ignore; the clicked tab is first: switch to previous; otherwise activate the first history tab |
| Navigation.RememberSecond | background.js:36-46 | remembering the second entry swaps the first two entries |
| Navigation.ToolbarToggle | background.js:402-421 | clicking the toolbar on the active tab activates `history[1]`, and its activation swaps the first two entries |
| Navigation.TabMenuId | background.js:234 | a tab's menu id starts with `tab-` and has something after it |
| Navigation.ParseInteger | background.js:467 | the empty string reads as 0; an unsigned numeral reads as a non-negative number |
| Navigation.ParseTabMenuId | background.js:466-471 | only ids starting with `tab-` name a tab |
| Navigation.ParseIntegerToString | background.js:467 | the decimal form of any integer reads back as that integer |
| Navigation.TabMenuIdRoundTrip | background.js:234-236 | the id built for a tab, `tab-<id>`, parses back to that tab |
| Navigation.FixedMenuIdsAreNotTabs | background.js:214-248 | the root and tab-manager menu ids name no tab |
| Navigation.MenuIds | background.js:228-237 | the menu lists at most 20 tabs (`MENU_LIMIT`) |
| Navigation.MenuIdsRoundTrip | background.js:228-237 | every listed menu id parses back to the tab at its position |
| Navigation.FirstPresent | background.js:231 | JavaScript's logical-or chain over strings, ending in a fallback: the first defined, non-empty candidate, or the fallback exactly when there is none |
| Navigation.MenuTitle | background.js:231-236 | a tab item's title is its label, with `> ` before it exactly for the active tab; the label is never empty |
| Navigation.MenuTitleLabel | background.js:231 | the label is the title, else the pending URL, else the URL, else `(Untitled)` |
| Common.IndexOf | background.js:38 | `indexOf`: the first position of the value, or -1 exactly when it is absent |
| Common.Erase | worker.js:38 | `filter(id => id !== t)`: the tab is absent afterwards; all other entries are kept and no new entry appears |
| Common.RemoveFirstIsErase | background.js:50-53 | on a duplicate-free list, splicing out the first occurrence is the filter |
| Common.EraseNoDup | background.js:50-53 | erasing keeps a list duplicate-free and shortens it by one exactly when the tab was present |
| Common.ParseNatToString | background.js:467 | decimal digits read back as the number they print |
| Common.ParseNatDigits | worker.js:225 | every non-empty run of decimal digits reads as a number |
| Background.LastActive | background.js:281-286 | the id of an active tab with no active tab after it, or none exactly when no tab is active |
| Background.SeedHistory | background.js:281-286 | the loop appends the tabs' ids to the history in install order and records the last active tab |
| Background.InstallKeepsInvariant | background.js:281-286 | seeding a window keeps every stored pointer a position of its history, and keeps the histories duplicate-free when the window had none and the tab ids are unique |
| Background.DropPairingsOf | background.js:393-400 | removes every pairing whose manager window is `w`, together with that window's reverse entry, and nothing else |
| Background.AdjustKeepsRange | background.js:56-76 | a pointer satisfying the range invariant still satisfies it after a removal and adjustment |
| Background.InstallIdsUnique | background.js:261-286 | with unique tab ids, the seeded history is duplicate-free |
| Background.Engine.constructor | background.js:5-14 | all maps start empty, and the invariant holds |
| Background.Engine.RememberTab | background.js:36-46 | the window's history becomes `Remember` of the old one and nothing else changes; a window's history is read through `Engine.History`, which gives the empty list for a window without one, as `getHistory` (background.js:16-21) does |
| Background.Engine.ForgetTab | background.js:48-54 | the window's history becomes `Forget` of the old one; the tab is absent and nothing else changes |
| Background.Engine.AdjustPointerOnRemoval | background.js:56-76 | the pointer is replaced as `AdjustPointer` says (deleted when it becomes unset); nothing else changes |
| Background.Engine.OrderedTabs | background.js:78-94 | the window's ordered view, a permutation of the live tabs when their ids are unique |
| Background.Engine.NavigateHistory | background.js:145-170 | no step leaves state unchanged; a step sets the pointer and the marker to the target tab and requests its activation; the invariant is kept |
| Background.Engine.ActivateTabPreservingHistory | background.js:172-187 | when the tab's window is known, the pointer goes to the tab's position (or 0) and the marker names the tab; the history is untouched |
| Background.Engine.OnActivated | background.js:297-316 | state follows `Reconcile`; the active tab is recorded; the invariant is kept |
| Background.Engine.OnInstalledWindow | background.js:253-288 | the tabs' ids in install order are appended and the last active tab is recorded (stored through `StoreWindow`, which changes only those two maps); an empty history with unique tab ids yields a valid state |
| Background.Engine.OnTabRemoved | background.js:353-391 | a closing window loses its four entries; otherwise the tab and its manager entry are dropped, and the pairing too when the tab's window was the target's manager; the pointer is adjusted, and if the tab was active the most recent activatable tab is requested |
| Background.Engine.DropManagerTab | background.js:363-373 | the tab's manager entry is dropped; the pairing is dropped only when the removed tab's window was the target's manager |
| Background.Engine.OnWindowRemoved | background.js:393-400 | no pairing names the removed window any more; other pairings and all histories are unchanged |
| Background.WindowRemovedKeepsLinks | background.js:393-400 | after the pairings managed from the window are dropped, every remaining managed window is still linked to its manager window |
| Background.MovedTabStaysInOldWindow | background.js:297-311 | a tab in window `a`'s history that is activated in another window `b` ends up in both histories, and the state stays valid |
| Background.Engine.OnActionClicked | background.js:402-421 | follows `ClickDecision`: ignore, request the previous candidate, or request the first history tab (whether or not it activates) and reset the pointer to 0 |
| Background.Engine.RegisterManager | background.js:480-489 | records the sender tab's target and, when the sender's window is known, both pairing directions |
| Background.Engine.UnregisterManager | background.js:491-503 | drops the sender tab's entry, and the pairing in both directions exactly when the sender's window is the target's recorded manager; the invariant is kept |
| Background.Engine.OnCommand | background.js:550-563 | back and forward step through the target window's history as `Navigate` says (the manager window's target when a manager has focus); a refused step and the tab-manager command change nothing |
| StackHistory.Push | worker.js:44-51 | the tab is appended; below 50 nothing else changes; at 50 or more the oldest entry is dropped |
| StackHistory.PushBound | worker.js:44-51 | a history within 50 entries stays within 50 |
| StackHistory.PushThenPop | worker.js:35-51 | popping right after a push below the limit returns the tab and restores the history |
| StackHistory.Pop | worker.js:35-42 | with a tab to remove, every occurrence is filtered out and that tab is returned; otherwise the top is removed and returned, or none on an empty history |
| StackHistory.NextTabSpec | worker.js:67-92 | one step of the loop, after a pop, is `Decide`; result is a prefix of the history; tabs popped before the stop were non-zero and failed to activate; the picked tab activates in the window; none only after popping a 0 or when no entry activated |
| StackHistory.SwapTop | worker.js:54-59 | the swap uses only entries of the history and does not lengthen a history within 50 entries |
| StackHistory.Prepared | worker.js:53-59 | a given tab ends up on top; without one the history is only rearranged; a history within 50 entries stays within 50 |
| StackHistory.SwapTopShape | worker.js:54-59 | the swap turns `[..., t2, t1]` into `[..., t1, t2]`, and a single entry into itself |
| StackHistory.SwapTopTwice | worker.js:54-59 | swapping twice restores a history whose top two entries are tabs |
| StackHistory.ToolbarToggle | worker.js:53-65 | on `p + [t2, t1]`, the toolbar activates `t2` and leaves `p + [t1]`; the activation's push gives `p + [t1, t2]` |
| StackHistory.LastTabBound | worker.js:53-65 | `lastTab` keeps a history within 50 entries within 50 |
| StackHistory.RemovedTabGone | worker.js:99-103 | after a removal, the removed tab is neither in the history nor the tab `nextTab` activates |
| StackHistory.EraseKeepsTop | worker.js:38 | filtering out another tab keeps the top entry on top |
| StackHistory.RemovalBelowTopPopsTop | worker.js:99-103 | closing a tab below the top still pops the top entry and activates it, leaving it out of the history |
| StackHistory.Split | worker.js:223 | `split` gives at least one piece, and no piece contains the separator |
| StackHistory.SplitJoin | worker.js:204-223 | splitting a join of separator-free pieces gives the pieces back |
| StackHistory.TabMenuId | worker.js:204 | a tab's menu id starts with `tab_` |
| StackHistory.ParseIntPrefix | worker.js:225 | `parseInt` reads a number exactly when the string starts with a digit or a sign and a digit; an unsigned number is non-negative |
| StackHistory.ParseIntPrefixToString | worker.js:225 | `parseInt` reads back the decimal form of any integer |
| StackHistory.ParseTabMenuId | worker.js:221-225 | the handler reads a target exactly for ids that start with `tab_` |
| StackHistory.TabMenuIdRoundTrip | worker.js:204-225 | the id `tab_<window>_<tab>_<position>`, split on `_`, gives back the window and the tab |
| StackHistory.Truncate | worker.js:208 | titles of 50 characters or fewer are unchanged; longer ones become their first 47 characters and `...`, length 50 |
| StackHistory.TabStack.PushHistory | worker.js:44-51 | the window's history becomes `Push` of the old one; returns the length right after the push; the old history is `TabStack.History`, the empty list for a window without one, as the source's lookup with an empty-list fallback (worker.js:36, 45) reads it |
| StackHistory.TabStack.constructor | worker.js:1 | the history map starts empty |
| StackHistory.TabStack.PopTwo | worker.js:55-56 | the two returned tabs are the first and second `Pop` of the old history, and the window keeps the history left below them |
| StackHistory.TabStack.PopHistory | worker.js:35-42 | the window's history and the returned tab are as `Pop` says; the window always has an entry afterwards |
| StackHistory.TabStack.NextTab | worker.js:67-92 | the loop's pick and the history it leaves are exactly `NextTabSpec` of the old history |
| StackHistory.TabStack.SwapHistoryTop | worker.js:54-59 | the window's history becomes the swapped one |
| StackHistory.TabStack.LastTab | worker.js:53-65 | push the given tab, or swap when none is given; then `nextTab` on the result |
| StackHistory.TabStack.PrepareHistory | worker.js:54-58 | the window's history becomes `Prepared` of the old one: the given tab pushed, or the top two swapped; no other window changes |
| StackHistory.TabStack.OnActivated | worker.js:106-125 | the tab is pushed onto its window's history exactly when the window id is truthy and the window is normal |
| StackHistory.TabStack.OnRemoved | worker.js:99-103 | the tab is filtered out, then `nextTab` runs on what remains |

## Left out

- Browser calls (`chrome.tabs`, `chrome.windows`, `chrome.contextMenus`, `chrome.runtime`) are parameters. These are the live tabs, the active tab, a tab's window, whether a window is normal, and whether an activation succeeds. A requested activation is a returned tab id, and the event it causes is a separate `OnActivated` call.
- Session-storage persistence and lazy loading are not modelled (`persistHistory`, `loadHistory`, `ensureHistoryLoaded`, background.js:23-34, 129-133). A window's history is read as empty when it has no entry.
- `getHistory` creating an empty entry on first read is not modelled; only storage could observe it.
- Interleaving across `await` points, the `rebuildInFlight` menu mutex (background.js:207-251) and the worker's callbacks are concurrency and are not modelled. `nextTab` checks a candidate in a `chrome.tabs.get` callback and activates it in a `chrome.tabs.update` callback (worker.js:76-91), so `onActivated` pushes can run between its steps, while `TabStack.NextTab` runs as one atomic loop.
- Building the context-menu trees is not modelled: background.js's `rebuildContextMenu` (background.js:207-251) and its `onShown` handler (background.js:423-431), and the worker's menu code (worker.js:147-220). What is modelled: the item ids `tab-<id>` and `tab_<w>_<t>_<i>`, their parsing, the background items' titles (`MenuTitle`) and the worker's title truncation (`Truncate`).
- The worker's window-menu listing is not modelled. `Array.from(tabHistories.keys)` (worker.js:159) passes the method instead of calling it, so that listing is always empty.
- `notifyManagers` (background.js:189-205) is message fan-out and is not modelled.
- Opening or focusing the tab-manager window is not modelled (background.js:439-464, 564-589), and neither is its failure path, which deletes a pairing.
- `isManagerWindow` scans URLs, so it is a parameter of `OnCommand`.
- The manager-tab check in the `onClicked` handler is not modelled.
- The `get-history`, `activate-tab` and `close-tab` messages are plumbing around modelled operations (`OrderedTabs`, `ActivateTabPreservingHistory`) and are not modelled themselves. So is the worker's `getHistory` message.
- `onFocusChanged`, `onCreated` and `onUpdated` (background.js:318-351) are not modelled. They only load a window's history from storage, notify managers and rebuild menus. Apart from loading a stored history, which is left out above, none of them changes the modelled maps.
- The `onInstalled` loop over all windows, and the menu rebuild that follows it, are not modelled. `Background.Engine.OnInstalledWindow` is the loop body for one window.
- `Number`, `Number.isInteger` and `parseInt` are modelled on decimal forms only. Not modelled: surrounding whitespace, exponents, binary, octal and hexadecimal numerals, fractional numerals, and the reading of a `NaN` window id in the worker's menu handler.
- TabOrdering.OrderedView: lists every live tab whose id is still unseen, in query order. `Array.from(tabMap.values())` (background.js:92) yields one tab per id, so the two differ only when the host reports two live tabs with the same id, which it never does. The permutation lemma assumes unique ids.
- Tab ids, window ids and `lastAccessed` are unbounded integers, while JavaScript holds them as doubles. `lastAccessed` is only compared, and browser ids stay below 2^53. Navigation.ParseIntegerToString and StackHistory.ParseIntPrefixToString hold in the source only for integers up to double precision (magnitude at most 2^53).
- Strings are modelled as sequences of Unicode characters, not UTF-16 code units, so `Truncate` counts characters.
- StackHistory.SwapTop: does not push `undefined` when the history is empty. The code pushes it and `nextTab` pops it straight away, so the resulting history and outcome are identical.
- `lastTab`'s callback, the `success` reply to the popup, and all logging and timestamps are not modelled.
- Background.Engine.OnInstalledWindow: proves `Valid()` only when the window's history was empty and the tab ids unique. Seeding appends without de-duplication, so a window that already had a history may end up with duplicates.
