/** Sequence and string helpers shared by both variants of the extension. */
module Common {

  datatype Option<T> = None | Some(value: T)

  /** No value occurs twice in `s`. */
  predicate NoDup<T(==)>(s: seq<T>) {
    forall i, j :: 0 <= i < j < |s| ==> s[i] != s[j]
  }

  /** JavaScript's `Array.prototype.indexOf`: the first position of `x`, or -1. */
  function IndexOf<T(==)>(s: seq<T>, x: T): (i: int)
    ensures -1 <= i < |s|
    ensures i == -1 <==> x !in s
    ensures 0 <= i ==> s[i] == x && x !in s[..i]
  {
    if |s| == 0 then -1
    else if s[0] == x then 0
    else
      var k := IndexOf(s[1..], x);
      assert s[1..][..if k < 0 then 0 else k] == s[1..if k < 0 then 1 else k + 1];
      if k == -1 then -1 else k + 1
  }

  /** `s.splice(i, 1)`: the sequence without its element at position `i`. */
  function RemoveAt<T>(s: seq<T>, i: nat): (r: seq<T>)
    requires i < |s|
    ensures |r| == |s| - 1
    ensures forall k :: 0 <= k < i ==> r[k] == s[k]
    ensures forall k :: i <= k < |r| ==> r[k] == s[k + 1]
  {
    s[..i] + s[i + 1..]
  }

  /** Reference definition: `s` with every occurrence of `x` left out, the rest in order. */
  function Erase<T(==)>(s: seq<T>, x: T): (r: seq<T>)
    ensures x !in r
    ensures forall y :: y in r ==> y in s
    ensures forall y :: y in s && y != x ==> y in r
    ensures |r| <= |s|
  {
    if |s| == 0 then []
    else if s[0] == x then Erase(s[1..], x)
    else [s[0]] + Erase(s[1..], x)
  }

  lemma {:induction false} NoDupTail<T>(s: seq<T>)
    requires NoDup(s) && |s| > 0
    ensures NoDup(s[1..]) && s[0] !in s[1..]
  {
    forall i, j | 0 <= i < j < |s[1..]| ensures s[1..][i] != s[1..][j] {
      assert s[1..][i] == s[i + 1] && s[1..][j] == s[j + 1];
    }
    forall j | 0 <= j < |s[1..]| ensures s[1..][j] != s[0] {
      assert s[1..][j] == s[j + 1];
    }
  }

  /** Erasing a value that does not occur changes nothing. */
  lemma {:induction false} EraseAbsent<T>(s: seq<T>, x: T)
    requires x !in s
    ensures Erase(s, x) == s
  {
    if |s| > 0 {
      assert x !in s[1..];
      EraseAbsent(s[1..], x);
      assert s == [s[0]] + s[1..];
    }
  }

  /** On a duplicate-free sequence, removing the first occurrence is erasing. */
  lemma {:induction false} RemoveFirstIsErase<T>(s: seq<T>, x: T)
    requires NoDup(s) && x in s
    ensures RemoveAt(s, IndexOf(s, x)) == Erase(s, x)
  {
    NoDupTail(s);
    if s[0] == x {
      EraseAbsent(s[1..], x);
      assert RemoveAt(s, 0) == s[1..];
    } else {
      assert x in s[1..];
      RemoveFirstIsErase(s[1..], x);
      var k := IndexOf(s[1..], x);
      assert IndexOf(s, x) == k + 1;
      assert RemoveAt(s, k + 1) == [s[0]] + RemoveAt(s[1..], k);
    }
  }

  /** Erasing keeps a sequence duplicate-free and shortens it by the occurrences removed. */
  lemma {:induction false} EraseNoDup<T>(s: seq<T>, x: T)
    requires NoDup(s)
    ensures NoDup(Erase(s, x))
    ensures |Erase(s, x)| == if x in s then |s| - 1 else |s|
  {
    if |s| > 0 {
      NoDupTail(s);
      EraseNoDup(s[1..], x);
      if s[0] == x {
        EraseAbsent(s[1..], x);
      } else {
        var r := Erase(s[1..], x);
        assert s[0] !in r;
        forall i, j | 0 <= i < j < |[s[0]] + r| ensures ([s[0]] + r)[i] != ([s[0]] + r)[j] {
          if i == 0 {
            assert ([s[0]] + r)[j] == r[j - 1];
          } else {
            assert ([s[0]] + r)[i] == r[i - 1] && ([s[0]] + r)[j] == r[j - 1];
          }
        }
      }
    }
  }

  /** A set with no member is empty. */
  lemma EmptyIfNoMember(s: set<int>)
    ensures (forall x :: x !in s) ==> s == {}
  {
    if forall x :: x !in s {
      assert forall x :: x in s <==> x in {};
    }
  }

  /** A non-empty set has a member (what a `:|` choice over it needs). */
  lemma NonEmptyHasMember(s: set<int>)
    requires s != {}
    ensures exists x :: x in s
  {
    EmptyIfNoMember(s);
  }

  // ---------------------------------------------------------------------
  // Decimal strings
  // ---------------------------------------------------------------------

  predicate IsDigit(c: char) {
    '0' <= c <= '9'
  }

  function DigitChar(d: nat): (c: char)
    requires d < 10
    ensures IsDigit(c) && (c as int) - ('0' as int) == d
  {
    (('0' as int) + d) as char
  }

  /** The decimal form of a natural number, as JavaScript's template strings print it. */
  function NatToString(n: nat): (s: string)
    ensures |s| > 0
    ensures forall i :: 0 <= i < |s| ==> IsDigit(s[i])
  {
    if n < 10 then [DigitChar(n)] else NatToString(n / 10) + [DigitChar(n % 10)]
  }

  /** The decimal form of an integer: a `-` before the digits of a negative one. */
  function IntToString(n: int): (s: string)
    ensures |s| > 0
    ensures forall i :: 0 <= i < |s| ==> IsDigit(s[i]) || (i == 0 && s[i] == '-')
  {
    if n < 0 then "-" + NatToString(-n) else NatToString(n)
  }

  /** The value of a non-empty string of decimal digits, or None. */
  function ParseNat(s: string): (r: Option<nat>)
    ensures r.Some? ==> |s| > 0 && forall i :: 0 <= i < |s| ==> IsDigit(s[i])
  {
    if |s| == 0 || !IsDigit(s[|s| - 1]) then None
    else
      var d := (s[|s| - 1] as int) - ('0' as int);
      if |s| == 1 then Some(d)
      else
        match ParseNat(s[..|s| - 1])
        case None => None
        case Some(v) =>
          assert forall i :: 0 <= i < |s| - 1 ==> s[..|s| - 1][i] == s[i];
          Some(v * 10 + d)
  }

  /** Reading back the decimal form of `n` gives `n`. */
  lemma {:induction false} ParseNatToString(n: nat)
    ensures ParseNat(NatToString(n)) == Some(n)
  {
    if n >= 10 {
      ParseNatToString(n / 10);
      var s := NatToString(n);
      assert s[..|s| - 1] == NatToString(n / 10);
    }
  }

  /** A non-empty string of decimal digits always reads as a number. */
  lemma {:induction false} ParseNatDigits(s: string)
    ensures (|s| > 0 && forall i :: 0 <= i < |s| ==> IsDigit(s[i])) ==> ParseNat(s).Some?
  {
    if |s| > 1 && forall i :: 0 <= i < |s| ==> IsDigit(s[i]) {
      var p := s[..|s| - 1];
      assert forall i :: 0 <= i < |p| ==> p[i] == s[i];
      ParseNatDigits(p);
    }
  }
}
