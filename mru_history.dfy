/**
 * The per-window most-recently-used list of background.js (most recent first)
 * and the back/forward pointer kept beside it, as operations on values.
 */
module MruHistory {
  import opened Common

  /** background.js keeps at most this many tab ids per window. */
  const HISTORY_LIMIT := 50

  function Min(a: int, b: int): int {
    if a <= b then a else b
  }

  /** `rememberTab`: move (or insert) `t` to the front and cut the list at the limit. */
  function Remember(h: seq<int>, t: int): (r: seq<int>)
    ensures |r| > 0 && r[0] == t
    ensures |r| <= HISTORY_LIMIT
  {
    var i := IndexOf(h, t);
    var rest := if i != -1 then RemoveAt(h, i) else h;
    var moved := [t] + rest;
    if |moved| > HISTORY_LIMIT then moved[..HISTORY_LIMIT] else moved
  }

  /** `forgetTab`: drop the first occurrence of `t`, if any. */
  function Forget(h: seq<int>, t: int): (r: seq<int>)
    ensures |r| == if t in h then |h| - 1 else |h|
    ensures forall x :: x in r ==> x in h
    ensures t !in h ==> r == h
  {
    var i := IndexOf(h, t);
    if i != -1 then
      assert forall x :: x in RemoveAt(h, i) ==> x in h by {
        assert RemoveAt(h, i) == h[..i] + h[i + 1..];
      }
      RemoveAt(h, i)
    else h
  }

  lemma MultisetRemoveAt(s: seq<int>, i: nat)
    requires i < |s|
    ensures multiset(RemoveAt(s, i)) + multiset{s[i]} == multiset(s)
  {
    assert s == s[..i] + [s[i]] + s[i + 1..];
  }

  /** On a duplicate-free list, forgetting `t` erases it, keeps the others in order and keeps the list duplicate-free. */
  lemma ForgetErases(h: seq<int>, t: int)
    requires NoDup(h)
    ensures Forget(h, t) == Erase(h, t)
    ensures t !in Forget(h, t)
    ensures NoDup(Forget(h, t))
  {
    if t in h {
      RemoveFirstIsErase(h, t);
    } else {
      EraseAbsent(h, t);
    }
    EraseNoDup(h, t);
  }

  /**
   * On a duplicate-free list, remembering `t` gives `t` followed by the other
   * entries in their old order, cut at the limit; no duplicate appears.
   */
  lemma RememberOrder(h: seq<int>, t: int)
    requires NoDup(h)
    ensures var r := Remember(h, t);
      && |r| == Min(|Erase(h, t)| + 1, HISTORY_LIMIT)
      && r[1..] == Erase(h, t)[..|r| - 1]
      && NoDup(r)
  {
    ForgetErases(h, t);
    var e := Erase(h, t);
    var r := Remember(h, t);
    assert Forget(h, t) == e;
    var moved := [t] + e;
    assert r == if |moved| > HISTORY_LIMIT then moved[..HISTORY_LIMIT] else moved;
    assert r[1..] == e[..|r| - 1];
    forall i, j | 0 <= i < j < |r| ensures r[i] != r[j] {
      assert r[i] == moved[i] && r[j] == moved[j];
      if i == 0 {
        assert moved[j] == e[j - 1];
        assert e[j - 1] in e;
      } else {
        assert moved[i] == e[i - 1] && moved[j] == e[j - 1];
      }
    }
  }

  /**
   * Remembering a tab that is already in a list within the limit keeps the
   * same entries (as a multiset) and the same length.
   */
  lemma RememberPresent(h: seq<int>, t: int)
    requires NoDup(h) && t in h && |h| <= HISTORY_LIMIT
    ensures |Remember(h, t)| == |h|
    ensures multiset(Remember(h, t)) == multiset(h)
  {
    var i := IndexOf(h, t);
    var rest := RemoveAt(h, i);
    MultisetRemoveAt(h, i);
    assert Remember(h, t) == [t] + rest;
  }

  /**
   * `adjustPointerOnRemoval`: the pointer after the entry at `removedIndex`
   * was forgotten; `len` is the length of the list after the removal.
   * None stands for "no pointer stored".
   */
  function AdjustPointer(pointer: Option<int>, removedIndex: int, len: int): (r: Option<int>)
    ensures removedIndex == -1 || pointer.None? ==> r == pointer
    ensures removedIndex != -1 && r.Some? ==> 0 <= r.value && len != 0
  {
    if removedIndex == -1 || pointer.None? then pointer
    else
      var p := pointer.value;
      var next :=
        if removedIndex < p then p - 1
        else if removedIndex == p then Min(p, len - 1)
        else p;
      if next < 0 || len == 0 then None else Some(next)
  }

  /**
   * Forgetting a tab other than the one the pointer designates leaves the
   * pointer on the same tab.
   */
  lemma AdjustKeepsEntry(h: seq<int>, t: int, k: int)
    requires NoDup(h) && t in h && 0 <= k < |h| && h[k] != t
    ensures var r := Forget(h, t);
      var p := AdjustPointer(Some(k), IndexOf(h, t), |r|);
      p.Some? && 0 <= p.value < |r| && r[p.value] == h[k]
  {
    var i := IndexOf(h, t);
    var r := Forget(h, t);
    assert r == RemoveAt(h, i);
    assert i != k;
  }

  /**
   * A pointer that is unset or within the list stays unset or within the
   * list; it becomes unset only when it was unset or the list became empty.
   */
  lemma AdjustStaysInRange(h: seq<int>, t: int, p: Option<int>)
    requires p.Some? ==> 0 <= p.value < |h|
    ensures var r := Forget(h, t);
      var q := AdjustPointer(p, IndexOf(h, t), |r|);
      && (q.Some? ==> 0 <= q.value < |r|)
      && (q.None? <==> p.None? || (t in h && |r| == 0))
  {
    var i := IndexOf(h, t);
    if p.Some? && i != -1 {
      var k := p.value;
      assert i < k ==> k - 1 <= |h| - 2;
      assert i > k ==> k <= |h| - 2;
    }
  }

  /**
   * Forgetting the tab the pointer designates clamps the pointer to the
   * last position of the shortened list, and the entry it then designates is
   * the one that followed the removed tab when there was one.
   */
  lemma AdjustClampsOnRemovedEntry(h: seq<int>, k: int)
    requires NoDup(h) && 0 <= k < |h|
    ensures var r := Forget(h, h[k]);
      && AdjustPointer(Some(k), IndexOf(h, h[k]), |r|) == (if |r| == 0 then None else Some(Min(k, |r| - 1)))
      && (k < |r| ==> r[k] == h[k + 1])
  {
    NoDupIndexOfAt(h, k);
    assert Forget(h, h[k]) == RemoveAt(h, k);
  }

  /** On a duplicate-free list, the first occurrence of `h[k]` is at `k`. */
  lemma NoDupIndexOfAt(h: seq<int>, k: int)
    requires NoDup(h) && 0 <= k < |h|
    ensures IndexOf(h, h[k]) == k
  {
    var i := IndexOf(h, h[k]);
    assert h[i] == h[k];
  }
}
