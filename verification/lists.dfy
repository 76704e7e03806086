/** The two `java.util.List` mutations the adapter calls whose semantics
    are more than a sequence expression: `remove(Object)` and `add(int, E)`.
    (`add(E)` and `clear()` are plain appends and emptying.) `IndexOf`
    specifies the position where `remove(Object)` cuts. */
module Lists {

  /** The position of the first element equal to `x`, or -1 when there is
      none, as `List.indexOf` answers. */
  function IndexOf<T(==)>(s: seq<T>, x: T): (k: int)
    ensures -1 <= k < |s|
    ensures k == -1 <==> x !in s
    ensures 0 <= k ==> s[k] == x
    ensures forall j :: 0 <= j < k ==> s[j] != x
  {
    if |s| == 0 then -1
    else if s[0] == x then 0
    else
      var k := IndexOf(s[1..], x);
      if k == -1 then -1
      else k + 1
  }

  /** `List.remove(Object)`: drop the first element equal to `x`, if any. */
  function RemoveFirst<T(==)>(s: seq<T>, x: T): (r: seq<T>)
    ensures x !in s ==> r == s
    ensures x in s ==> |r| == |s| - 1
    ensures x in s ==> multiset(r) + multiset{x} == multiset(s)
  {
    if |s| == 0 then s
    else if s[0] == x then
      assert s == [x] + s[1..];
      s[1..]
    else
      assert s == [s[0]] + s[1..];
      var r := RemoveFirst(s[1..], x);
      assert multiset([s[0]] + r) == multiset{s[0]} + multiset(r);
      [s[0]] + r
  }

  /** Removing `x` splices out exactly the element at its first position and
      keeps every other element in its order. */
  lemma {:induction false} RemoveFirstSplices<T>(s: seq<T>, x: T)
    requires x in s
    ensures IndexOf(s, x) >= 0
    ensures RemoveFirst(s, x) == s[..IndexOf(s, x)] + s[IndexOf(s, x) + 1..]
  {
    if s[0] == x {
      assert s[..0] + s[1..] == s[1..];
    } else {
      var k := IndexOf(s[1..], x);
      RemoveFirstSplices(s[1..], x);
      SpliceOfTail(s, k);
    }
  }

  /** Cutting position `k + 1` out of `s` is keeping the head and cutting
      position `k` out of the tail. */
  lemma SpliceOfTail<T>(s: seq<T>, k: int)
    requires 0 <= k && k + 1 < |s|
    ensures s[..k + 1] + s[k + 2..] == [s[0]] + (s[1..][..k] + s[1..][k + 1..])
  {
  }

  /** Any position holding `x` with no `x` before it is what `IndexOf`
      reports. */
  lemma IndexOfIsFirst<T>(s: seq<T>, k: int, x: T)
    requires 0 <= k < |s| && s[k] == x && x !in s[..k]
    ensures IndexOf(s, x) == k
  {
  }

  /** `List.add(index, x)`: place `x` at `index`, shifting the elements from
      `index` on up by one. */
  function InsertAt<T>(s: seq<T>, i: int, x: T): (r: seq<T>)
    requires 0 <= i <= |s|
    ensures |r| == |s| + 1
    ensures r[i] == x
    ensures forall j :: 0 <= j < i ==> r[j] == s[j]
    ensures forall j :: i < j < |r| ==> r[j] == s[j - 1]
  {
    s[..i] + [x] + s[i..]
  }

  /** Deleting the inserted position again gives back the original list. */
  lemma InsertAtUndone<T>(s: seq<T>, i: int, x: T)
    requires 0 <= i <= |s|
    ensures InsertAt(s, i, x)[..i] + InsertAt(s, i, x)[i + 1..] == s
  {
  }

  /** Inserting `x` where no earlier element equals it, then removing `x`,
      is the identity: the removal finds the inserted copy first. */
  lemma InsertThenRemove<T>(s: seq<T>, i: int, x: T)
    requires 0 <= i <= |s|
    requires x !in s[..i]
    ensures IndexOf(InsertAt(s, i, x), x) == i
    ensures RemoveFirst(InsertAt(s, i, x), x) == s
  {
    var r := InsertAt(s, i, x);
    assert r[..i] == s[..i];
    IndexOfIsFirst(r, i, x);
    RemoveFirstSplices(r, x);
    InsertAtUndone(s, i, x);
  }
}
