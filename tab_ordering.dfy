/**
 * The ordered tab list background.js serves to the popup, the context menu
 * and the manager window (`getOrderedTabs`), and the order in which it seeds a
 * window's history at install time.
 */
module TabOrdering {
  import opened Common

  /**
   * The fields of a host tab descriptor the engine reads. A missing
   * `lastAccessed` or `index` reads as 0, as the source's `typeof`/`?? 0`
   * checks make it.
   */
  datatype Tab = Tab(id: int, index: int, lastAccessed: int, active: bool)

  /** The two comparators of the source: by strip position, or most recently accessed first. */
  datatype SortKey = ByIndex | ByRecency

  /** `a` may stand before `b` under the comparator. */
  predicate Before(a: Tab, b: Tab, key: SortKey) {
    match key
    case ByIndex => a.index <= b.index
    case ByRecency =>
      a.lastAccessed > b.lastAccessed || (a.lastAccessed == b.lastAccessed && a.index <= b.index)
  }

  predicate Sorted(s: seq<Tab>, key: SortKey) {
    forall i, j :: 0 <= i < j < |s| ==> Before(s[i], s[j], key)
  }

  /** Insert `x` before the first element it may precede. */
  function Insert(x: Tab, s: seq<Tab>, key: SortKey): (r: seq<Tab>)
    ensures multiset(r) == multiset(s) + multiset{x}
  {
    if |s| == 0 then [x]
    else if Before(x, s[0], key) then
      assert s == [s[0]] + s[1..];
      [x] + s
    else
      assert s == [s[0]] + s[1..];
      [s[0]] + Insert(x, s[1..], key)
  }

  lemma {:induction false} InsertSorted(x: Tab, s: seq<Tab>, key: SortKey)
    requires Sorted(s, key)
    ensures Sorted(Insert(x, s, key), key)
  {
    if |s| > 0 && !Before(x, s[0], key) {
      var rest := Insert(x, s[1..], key);
      assert Sorted(s[1..], key) by {
        forall i, j | 0 <= i < j < |s[1..]| ensures Before(s[1..][i], s[1..][j], key) {
          assert s[1..][i] == s[i + 1] && s[1..][j] == s[j + 1];
        }
      }
      InsertSorted(x, s[1..], key);
      assert Before(s[0], x, key);
      forall e | e in rest ensures Before(s[0], e, key) {
        assert e in multiset(rest);
        if e != x {
          assert e in multiset(s[1..]);
          var j :| 0 <= j < |s[1..]| && s[1..][j] == e;
          assert s[j + 1] == e;
        }
      }
      var r := [s[0]] + rest;
      forall i, j | 0 <= i < j < |r| ensures Before(r[i], r[j], key) {
        if i == 0 {
          assert r[j] == rest[j - 1];
          assert rest[j - 1] in rest;
        } else {
          assert r[i] == rest[i - 1] && r[j] == rest[j - 1];
        }
      }
    }
  }

  /** The sort of the source (`Array.prototype.sort` with the chosen comparator), as an insertion sort. */
  function SortTabs(s: seq<Tab>, key: SortKey): (r: seq<Tab>)
    ensures multiset(r) == multiset(s)
    ensures Sorted(r, key)
  {
    if |s| == 0 then []
    else
      assert s == [s[0]] + s[1..];
      var rest := SortTabs(s[1..], key);
      InsertSorted(s[0], rest, key);
      Insert(s[0], rest, key)
  }

  // ---------------------------------------------------------------------
  // getOrderedTabs
  // ---------------------------------------------------------------------

  /** No two tabs of a query result share an id, as the host guarantees. */
  predicate UniqueIds(ts: seq<Tab>) {
    |ts| == 0 || ((forall t :: t in ts[1..] ==> t.id != ts[0].id) && UniqueIds(ts[1..]))
  }

  /** `new Map(tabs.map((tab) => [tab.id, tab]))`: a later tab with the same id wins. */
  function TabMap(ts: seq<Tab>): map<int, Tab> {
    if |ts| == 0 then map[] else map[ts[0].id := ts[0]] + TabMap(ts[1..])
  }

  /** Every live tab's id is a key, and every key holds a live tab with that id. */
  lemma {:induction false} TabMapKeys(ts: seq<Tab>)
    ensures forall t :: t in ts ==> t.id in TabMap(ts)
    ensures forall k :: k in TabMap(ts) ==> TabMap(ts)[k] in ts && TabMap(ts)[k].id == k
  {
    if |ts| > 0 {
      TabMapKeys(ts[1..]);
      assert forall t :: t in ts ==> t == ts[0] || t in ts[1..];
    }
  }

  /** Every key of the map is the id of the tab it holds. */
  predicate KeyedById(m: map<int, Tab>) {
    forall k :: k in m ==> m[k].id == k
  }

  /** The first loop of `getOrderedTabs`: history tabs that are live, in history order, each taken once. */
  function Tracked(h: seq<int>, m: map<int, Tab>): seq<Tab> {
    if |h| == 0 then []
    else if h[0] in m then [m[h[0]]] + Tracked(h[1..], m - {h[0]})
    else Tracked(h[1..], m)
  }

  /** The live tabs whose id is not in the history, in query order. */
  function Untracked(ts: seq<Tab>, h: seq<int>): (r: seq<Tab>)
    ensures forall t :: t in r ==> t in ts && t.id !in h
  {
    if |ts| == 0 then []
    else if ts[0].id in h then Untracked(ts[1..], h)
    else [ts[0]] + Untracked(ts[1..], h)
  }

  /** The tabs whose id the map still holds, in query order (`Array.from(tabMap.values())`). */
  function StillMapped(ts: seq<Tab>, m: map<int, Tab>): seq<Tab> {
    if |ts| == 0 then []
    else if ts[0].id in m then [ts[0]] + StillMapped(ts[1..], m)
    else StillMapped(ts[1..], m)
  }

  /** The view `getOrderedTabs` returns: tracked tabs first, the others by strip position. */
  function OrderedView(h: seq<int>, ts: seq<Tab>): (r: seq<Tab>)
    ensures forall t :: t in r ==> t in ts
  {
    TabMapKeys(ts);
    TrackedMembers(h, TabMap(ts));
    var sorted := SortTabs(Untracked(ts, h), ByIndex);
    assert forall t :: t in sorted ==> t in multiset(Untracked(ts, h));
    Tracked(h, TabMap(ts)) + sorted
  }

  /** The entries of `m` whose key is not in `h`. */
  function Unseen(m: map<int, Tab>, h: seq<int>): map<int, Tab> {
    map k | k in m && k !in h :: m[k]
  }

  lemma {:induction false} StillMappedIsUntracked(ts: seq<Tab>, all: seq<Tab>, h: seq<int>)
    requires forall t :: t in ts ==> t in all
    ensures StillMapped(ts, Unseen(TabMap(all), h)) == Untracked(ts, h)
  {
    if |ts| > 0 {
      assert ts[0] in all;
      TabMapKeys(all);
      assert forall t :: t in ts[1..] ==> t in ts;
      StillMappedIsUntracked(ts[1..], all, h);
    }
  }

  lemma TrackedStep(h: seq<int>, i: nat, m: map<int, Tab>)
    requires i < |h|
    ensures Tracked(h[i..], m) ==
      if h[i] in m then [m[h[i]]] + Tracked(h[i + 1..], m - {h[i]}) else Tracked(h[i + 1..], m)
  {
    assert h[i..][1..] == h[i + 1..];
  }

  lemma UnseenStep(m: map<int, Tab>, h: seq<int>, i: nat)
    requires i < |h|
    ensures Unseen(m, h[..i + 1]) == Unseen(m, h[..i]) - {h[i]}
  {
    assert h[..i + 1] == h[..i] + [h[i]];
  }

  lemma OrderedLoopEnd(history: seq<int>, tabs: seq<Tab>, tabMap: map<int, Tab>, result: seq<Tab>)
    requires result == Tracked(history, TabMap(tabs))
    requires tabMap == Unseen(TabMap(tabs), history)
    ensures result + SortTabs(StillMapped(tabs, tabMap), ByIndex) == OrderedView(history, tabs)
  {
    StillMappedIsUntracked(tabs, tabs, history);
  }

  /** `getOrderedTabs`, with the host's tab query given as `tabs`. */
  method GetOrderedTabs(history: seq<int>, tabs: seq<Tab>) returns (ordered: seq<Tab>)
    ensures ordered == OrderedView(history, tabs)
  {
    var tabMap := TabMap(tabs);
    var result: seq<Tab> := [];
    assert history[..0] == [];
    for i := 0 to |history|
      invariant result + Tracked(history[i..], tabMap) == Tracked(history, TabMap(tabs))
      invariant tabMap == Unseen(TabMap(tabs), history[..i])
    {
      TrackedStep(history, i, tabMap);
      UnseenStep(TabMap(tabs), history, i);
      var tabId := history[i];
      if tabId in tabMap {
        result := result + [tabMap[tabId]];
        tabMap := tabMap - {tabId};
      }
    }
    assert history[..|history|] == history;
    assert history[|history|..] == [];
    OrderedLoopEnd(history, tabs, tabMap, result);
    var remaining := SortTabs(StillMapped(tabs, tabMap), ByIndex);
    ordered := result + remaining;
  }

  /** The tabs of `ts` whose id is not `k`. */
  function Without(ts: seq<Tab>, k: int): (r: seq<Tab>)
    ensures forall t :: t in r ==> t in ts && t.id != k
  {
    if |ts| == 0 then []
    else if ts[0].id == k then Without(ts[1..], k)
    else [ts[0]] + Without(ts[1..], k)
  }

  lemma {:induction false} TabMapWithout(ts: seq<Tab>, k: int)
    ensures TabMap(Without(ts, k)) == TabMap(ts) - {k}
  {
    if |ts| > 0 {
      TabMapWithout(ts[1..], k);
      var rest := TabMap(ts[1..]);
      var a := TabMap(Without(ts, k));
      var b := TabMap(ts) - {k};
      if ts[0].id == k {
        assert a == rest - {k};
      } else {
        assert Without(ts, k) == [ts[0]] + Without(ts[1..], k);
        assert a == map[ts[0].id := ts[0]] + (rest - {k});
      }
      assert a.Keys == b.Keys;
      assert forall j :: j in a ==> a[j] == b[j];
    }
  }

  lemma {:induction false} WithoutUnique(ts: seq<Tab>, k: int)
    requires UniqueIds(ts)
    ensures UniqueIds(Without(ts, k))
  {
    if |ts| > 0 {
      WithoutUnique(ts[1..], k);
    }
  }

  lemma {:induction false} WithoutAbsent(ts: seq<Tab>, k: int)
    requires k !in TabMap(ts)
    ensures Without(ts, k) == ts
  {
    if |ts| > 0 {
      assert ts[0] in ts;
      assert forall t :: t in ts[1..] ==> t in ts;
      WithoutAbsent(ts[1..], k);
      assert ts == [ts[0]] + ts[1..];
    }
  }

  lemma {:induction false} WithoutPresent(ts: seq<Tab>, k: int)
    requires UniqueIds(ts) && k in TabMap(ts)
    ensures multiset(ts) == multiset(Without(ts, k)) + multiset{TabMap(ts)[k]}
  {
    assert ts == [ts[0]] + ts[1..];
    if ts[0].id == k {
      TabMapKeys(ts[1..]);
      assert k !in TabMap(ts[1..]);
      WithoutAbsent(ts[1..], k);
    } else {
      WithoutPresent(ts[1..], k);
    }
  }

  lemma {:induction false} UntrackedStep(ts: seq<Tab>, h: seq<int>)
    requires |h| > 0
    ensures Untracked(ts, h) == Untracked(Without(ts, h[0]), h[1..])
  {
    if |ts| > 0 {
      UntrackedStep(ts[1..], h);
      assert h == [h[0]] + h[1..];
    }
  }

  /** Tracked and untracked tabs together are exactly the live tabs. */
  lemma {:induction false} TrackedUntrackedPartition(ts: seq<Tab>, h: seq<int>)
    requires UniqueIds(ts)
    ensures multiset(Tracked(h, TabMap(ts))) + multiset(Untracked(ts, h)) == multiset(ts)
    decreases |h|
  {
    if |h| == 0 {
      UntrackedNone(ts, h);
    } else {
      var k := h[0];
      var ts' := Without(ts, k);
      var m := TabMap(ts);
      UntrackedStep(ts, h);
      WithoutUnique(ts, k);
      TabMapWithout(ts, k);
      TrackedUntrackedPartition(ts', h[1..]);
      var tail := multiset(Tracked(h[1..], TabMap(ts'))) + multiset(Untracked(ts', h[1..]));
      assert tail == multiset(ts');
      if k in m {
        WithoutPresent(ts, k);
        assert Tracked(h, m) == [m[k]] + Tracked(h[1..], TabMap(ts'));
      } else {
        WithoutAbsent(ts, k);
        assert Tracked(h, m) == Tracked(h[1..], TabMap(ts'));
      }
    }
  }

  lemma {:induction false} UntrackedNone(ts: seq<Tab>, h: seq<int>)
    requires |h| == 0
    ensures Untracked(ts, h) == ts
  {
    if |ts| > 0 {
      UntrackedNone(ts[1..], h);
      assert ts == [ts[0]] + ts[1..];
    }
  }

  /** The tracked part holds live tabs of the map whose ids are in the history. */
  lemma {:induction false} TrackedMembers(h: seq<int>, m: map<int, Tab>)
    requires KeyedById(m)
    ensures forall t :: t in Tracked(h, m) ==> t.id in h && t.id in m && m[t.id] == t
  {
    if |h| > 0 {
      var k := h[0];
      if k in m {
        TrackedMembers(h[1..], m - {k});
      } else {
        TrackedMembers(h[1..], m);
      }
    }
  }

  lemma IndexOfTail(h: seq<int>, x: int)
    requires |h| > 0 && h[0] != x && x in h
    ensures IndexOf(h, x) == 1 + IndexOf(h[1..], x)
  {
  }

  /** Positions in `h[1..]` shift by one in `h` for the ids the tail's tracked part holds. */
  lemma TrackedShift(h: seq<int>, m: map<int, Tab>)
    requires |h| > 0 && h[0] !in m && KeyedById(m)
    ensures forall i :: 0 <= i < |Tracked(h[1..], m)| ==>
      IndexOf(h, Tracked(h[1..], m)[i].id) == 1 + IndexOf(h[1..], Tracked(h[1..], m)[i].id)
  {
    var r := Tracked(h[1..], m);
    TrackedMembers(h[1..], m);
    forall i | 0 <= i < |r| ensures IndexOf(h, r[i].id) == 1 + IndexOf(h[1..], r[i].id) {
      assert r[i] in r;
      IndexOfTail(h, r[i].id);
    }
  }

  /** Tabs whose ids appear in `h` in strictly increasing positions. */
  predicate OrderedIn(h: seq<int>, r: seq<Tab>) {
    forall i, j :: 0 <= i < j < |r| ==> IndexOf(h, r[i].id) < IndexOf(h, r[j].id)
  }

  /** Putting the tab of `h[0]` in front of tabs found later in `h` keeps them ordered. */
  lemma OrderedCons(h: seq<int>, x: Tab, r: seq<Tab>)
    requires |h| > 0 && x.id == h[0] && OrderedIn(h, r)
    requires forall j :: 0 <= j < |r| ==> IndexOf(h, r[j].id) > 0
    ensures OrderedIn(h, [x] + r)
  {
    var s := [x] + r;
    forall i, j | 0 <= i < j < |s| ensures IndexOf(h, s[i].id) < IndexOf(h, s[j].id) {
      OrderedConsPair(h, x, r, i, j);
    }
  }

  /** One pair of positions of `OrderedCons`. */
  lemma OrderedConsPair(h: seq<int>, x: Tab, r: seq<Tab>, i: int, j: int)
    requires |h| > 0 && x.id == h[0] && OrderedIn(h, r)
    requires forall k :: 0 <= k < |r| ==> IndexOf(h, r[k].id) > 0
    requires 0 <= i < j < 1 + |r|
    ensures IndexOf(h, ([x] + r)[i].id) < IndexOf(h, ([x] + r)[j].id)
  {
    var s := [x] + r;
    assert s[j] == r[j - 1];
    if i == 0 {
      assert IndexOf(h, x.id) == 0;
    } else {
      assert s[i] == r[i - 1];
    }
  }

  /** Ordered in the tail of `h` means ordered, one position later, in `h`. */
  lemma OrderedShift(h: seq<int>, m: map<int, Tab>)
    requires |h| > 0 && h[0] !in m && KeyedById(m)
    requires OrderedIn(h[1..], Tracked(h[1..], m))
    ensures OrderedIn(h, Tracked(h[1..], m))
    ensures forall j :: 0 <= j < |Tracked(h[1..], m)| ==> IndexOf(h, Tracked(h[1..], m)[j].id) > 0
  {
    var r := Tracked(h[1..], m);
    TrackedShift(h, m);
    TrackedMembers(h[1..], m);
    forall j | 0 <= j < |r| ensures IndexOf(h, r[j].id) > 0 {
      assert r[j] in r;
    }
  }

  /** The tracked part is ordered by position in the history (so each id occurs once). */
  lemma {:induction false} TrackedOrder(h: seq<int>, m: map<int, Tab>)
    requires KeyedById(m)
    ensures OrderedIn(h, Tracked(h, m))
  {
    if |h| > 0 {
      var k := h[0];
      var m' := if k in m then m - {k} else m;
      TrackedOrder(h[1..], m');
      OrderedShift(h, m');
      if k in m {
        OrderedCons(h, m[k], Tracked(h[1..], m'));
      }
    }
  }

  /** `getOrderedTabs` returns exactly the live tabs: a permutation of the host's query result. */
  lemma OrderedViewPermutation(h: seq<int>, ts: seq<Tab>)
    requires UniqueIds(ts)
    ensures multiset(OrderedView(h, ts)) == multiset(ts)
  {
    TrackedUntrackedPartition(ts, h);
  }

  /**
   * The shape of the view: a first part of tabs the history tracks, in
   * history order, then the untracked tabs sorted by strip position.
   */
  lemma OrderedViewShape(h: seq<int>, ts: seq<Tab>)
    ensures var r := OrderedView(h, ts);
      var n := |Tracked(h, TabMap(ts))|;
      && n <= |r|
      && (forall i :: 0 <= i < n ==> r[i].id in h)
      && (forall i, j :: 0 <= i < j < n ==> IndexOf(h, r[i].id) < IndexOf(h, r[j].id))
      && (forall i :: n <= i < |r| ==> r[i].id !in h)
      && Sorted(r[n..], ByIndex)
  {
    var tr := Tracked(h, TabMap(ts));
    var un := SortTabs(Untracked(ts, h), ByIndex);
    var r := tr + un;
    assert KeyedById(TabMap(ts)) by {
      TabMapKeys(ts);
    }
    TrackedMembers(h, TabMap(ts));
    TrackedOrder(h, TabMap(ts));
    assert r[|tr|..] == un;
    forall i | 0 <= i < |tr| ensures r[i].id in h {
      assert r[i] == tr[i];
      assert tr[i] in tr;
    }
    forall i | |tr| <= i < |r| ensures r[i].id !in h {
      assert r[i] == un[i - |tr|];
      assert r[i] in multiset(un);
    }
  }

  // ---------------------------------------------------------------------
  // Install-time order
  // ---------------------------------------------------------------------

  /** Some tab carries a positive `lastAccessed` time. */
  predicate HasAccessed(ts: seq<Tab>) {
    exists t :: t in ts && t.lastAccessed > 0
  }

  /** `findIndex((tab) => tab.active)`. */
  function FindActive(s: seq<Tab>): (i: int)
    ensures -1 <= i < |s|
    ensures i == -1 <==> forall j :: 0 <= j < |s| ==> !s[j].active
    ensures 0 <= i ==> s[i].active && forall j :: 0 <= j < i ==> !s[j].active
  {
    if |s| == 0 then -1
    else if s[0].active then 0
    else
      var k := FindActive(s[1..]);
      if k == -1 then -1 else k + 1
  }

  /**
   * The order background.js seeds a window's history with at install
   * (background.js:261-279): most recently accessed first when any tab says
   * when it was accessed; otherwise by strip position with the active tab
   * moved to the front.
   */
  function InstallOrder(ts: seq<Tab>): (r: seq<Tab>)
    ensures multiset(r) == multiset(ts)
  {
    if HasAccessed(ts) then SortTabs(ts, ByRecency)
    else
      var s := SortTabs(ts, ByIndex);
      var k := FindActive(s);
      if k > 0 then MoveToFrontPermutation(s, k); [s[k]] + RemoveAt(s, k) else s
  }

  lemma SortedRemoveAt(s: seq<Tab>, k: nat, key: SortKey)
    requires k < |s| && Sorted(s, key)
    ensures Sorted(RemoveAt(s, k), key)
  {
    var r := RemoveAt(s, k);
    forall i, j | 0 <= i < j < |r| ensures Before(r[i], r[j], key) {
      var i' := if i < k then i else i + 1;
      var j' := if j < k then j else j + 1;
      assert r[i] == s[i'] && r[j] == s[j'];
    }
  }

  /** Some tab of `ts` is the window's active tab. */
  predicate HasActive(ts: seq<Tab>) {
    exists t :: t in ts && t.active
  }

  /** Moving the found active tab to the front keeps the entries. */
  lemma MoveToFrontPermutation(s: seq<Tab>, k: nat)
    requires k < |s|
    ensures multiset([s[k]] + RemoveAt(s, k)) == multiset(s)
  {
    assert s == s[..k] + [s[k]] + s[k + 1..];
    assert [s[k]] + RemoveAt(s, k) == [s[k]] + (s[..k] + s[k + 1..]);
  }

  /** The sorted strip holds an active tab exactly when the window does. */
  lemma FindActiveSorted(ts: seq<Tab>)
    ensures FindActive(SortTabs(ts, ByIndex)) == -1 <==> !HasActive(ts)
  {
    var s := SortTabs(ts, ByIndex);
    if HasActive(ts) {
      var t :| t in ts && t.active;
      assert t in multiset(s);
      var j :| 0 <= j < |s| && s[j] == t;
    } else {
      forall j | 0 <= j < |s| ensures !s[j].active {
        assert s[j] in multiset(ts);
      }
    }
  }

  /** Otherwise an active tab comes first, then the others by strip position. */
  lemma InstallOrderActiveFirst(ts: seq<Tab>)
    requires !HasAccessed(ts) && HasActive(ts)
    ensures |InstallOrder(ts)| > 0
    ensures InstallOrder(ts)[0].active && Sorted(InstallOrder(ts)[1..], ByIndex)
  {
    var s := SortTabs(ts, ByIndex);
    var k := FindActive(s);
    FindActiveSorted(ts);
    SortedRemoveAt(s, k, ByIndex);
    if k > 0 {
      var r := [s[k]] + RemoveAt(s, k);
      assert r[1..] == RemoveAt(s, k);
    } else {
      assert s[1..] == RemoveAt(s, 0);
    }
  }

  /** With neither access times nor an active tab, the install order is by strip position. */
  lemma InstallOrderByIndex(ts: seq<Tab>)
    requires !HasAccessed(ts) && !HasActive(ts)
    ensures InstallOrder(ts) == SortTabs(ts, ByIndex)
  {
    FindActiveSorted(ts);
  }

  /** The ids of a list of tabs, in order. */
  function Ids(ts: seq<Tab>): (r: seq<int>)
    ensures |r| == |ts| && forall i :: 0 <= i < |ts| ==> r[i] == ts[i].id
  {
    seq(|ts|, i requires 0 <= i < |ts| => ts[i].id)
  }

  /** With distinct ids, two tabs of the list that share an id are the same tab. */
  lemma {:induction false} UniqueIdsSame(ts: seq<Tab>, x: Tab, y: Tab)
    requires UniqueIds(ts) && x in ts && y in ts && x.id == y.id
    ensures x == y
  {
    if x != ts[0] && y != ts[0] {
      UniqueIdsSame(ts[1..], x, y);
    }
  }

  /** With distinct ids, no tab occurs twice. */
  lemma {:induction false} UniqueIdsOnce(ts: seq<Tab>, x: Tab)
    requires UniqueIds(ts)
    ensures multiset(ts)[x] <= 1
  {
    if |ts| > 0 {
      assert ts == [ts[0]] + ts[1..];
      UniqueIdsOnce(ts[1..], x);
      if x == ts[0] {
        assert x !in ts[1..];
      }
    }
  }

  /** A tab at two positions occurs at least twice. */
  lemma TwiceInMultiset(s: seq<Tab>, i: nat, j: nat)
    requires i < j < |s| && s[i] == s[j]
    ensures multiset(s)[s[i]] >= 2
  {
    assert s == s[..j] + [s[j]] + s[j + 1..];
    assert s[i] in s[..j];
  }

  /** A reordering of tabs with distinct ids lists each id once. */
  lemma PermutationKeepsIds(a: seq<Tab>, b: seq<Tab>)
    requires UniqueIds(a) && multiset(a) == multiset(b)
    ensures NoDup(Ids(b))
  {
    var ids := Ids(b);
    forall i, j | 0 <= i < j < |ids| ensures ids[i] != ids[j] {
      if ids[i] == ids[j] {
        assert b[i] in multiset(a) && b[j] in multiset(a);
        UniqueIdsSame(a, b[i], b[j]);
        TwiceInMultiset(b, i, j);
        UniqueIdsOnce(a, b[i]);
        assert false;
      }
    }
  }
}
