/** The orderings the routes ask of the database (`.order(...)`) and of
    JavaScript's `Array.prototype.sort`. A result is stated to be sorted and
    a permutation of its input; the order among equal keys is not stated,
    since PostgreSQL leaves it open. Keys are named functions so that two
    uses of the same ordering are the same function. */
module Sorting {

  predicate SortedBy<T>(s: seq<T>, key: T -> int)
  {
    forall i, j :: 0 <= i < j < |s| ==> key(s[i]) <= key(s[j])
  }

  /** Puts x in front of the first element whose key is not smaller than its own. */
  function Insert<T>(x: T, s: seq<T>, key: T -> int): (r: seq<T>)
    ensures |r| == |s| + 1
    ensures multiset(r) == multiset(s) + multiset{x}
  {
    if s == [] then [x]
    else if key(x) <= key(s[0]) then [x] + s
    else
      assert s == [s[0]] + s[1..];
      [s[0]] + Insert(x, s[1..], key)
  }

  /** Every key of Insert(x, s) is at least the smaller of x's key and s's first key. */
  lemma {:induction false} InsertBound<T>(x: T, s: seq<T>, key: T -> int)
    requires SortedBy(s, key)
    requires s != []
    ensures forall k :: 0 <= k < |s| + 1 ==> key(Insert(x, s, key)[k]) >= Min(key(x), key(s[0]))
  {
    if key(x) > key(s[0]) && |s| > 1 {
      InsertBound(x, s[1..], key);
    }
  }

  lemma {:induction false} InsertSorted<T>(x: T, s: seq<T>, key: T -> int)
    requires SortedBy(s, key)
    ensures SortedBy(Insert(x, s, key), key)
  {
    if s != [] && key(x) > key(s[0]) {
      InsertSorted(x, s[1..], key);
      if |s| > 1 {
        InsertBound(x, s[1..], key);
      }
    }
  }

  function Min(a: int, b: int): int
  {
    if a <= b then a else b
  }

  /** Insertion sort: ascending by key, a permutation of the input. */
  function SortBy<T>(s: seq<T>, key: T -> int): (r: seq<T>)
    ensures SortedBy(r, key)
    ensures multiset(r) == multiset(s)
    ensures |r| == |s|
  {
    if s == [] then []
    else
      assert s == [s[0]] + s[1..];
      var rest := SortBy(s[1..], key);
      InsertSorted(s[0], rest, key);
      Insert(s[0], rest, key)
  }

  /** In-place insertion sort into non-increasing key order, as
      `array.sort((a, b) => key(b) - key(a))` does. */
  method SortDescending<T>(a: array<T>, key: T -> int)
    modifies a
    ensures forall i, j :: 0 <= i < j < a.Length ==> key(a[i]) >= key(a[j])
    ensures multiset(a[..]) == multiset(old(a[..]))
  {
    var i := 0;
    while i < a.Length
      invariant 0 <= i <= a.Length
      invariant forall p, q :: 0 <= p < q < i ==> key(a[p]) >= key(a[q])
      invariant multiset(a[..]) == multiset(old(a[..]))
    {
      SinkInto(a, i, key);
      i := i + 1;
    }
  }

  /** One insertion step: moves a[i] up past every smaller key before it, so
      that a[..i+1] becomes sorted; the cells after i are not touched. */
  method SinkInto<T>(a: array<T>, i: nat, key: T -> int)
    requires i < a.Length
    requires forall p, q :: 0 <= p < q < i ==> key(a[p]) >= key(a[q])
    modifies a
    ensures forall p, q :: 0 <= p < q <= i ==> key(a[p]) >= key(a[q])
    ensures multiset(a[..]) == multiset(old(a[..]))
    ensures a[i + 1..] == old(a[i + 1..])
  {
    var j := i;
    while j > 0 && key(a[j - 1]) < key(a[j])
      invariant 0 <= j <= i
      invariant forall p, q :: 0 <= p < q <= i && p != j && q != j ==> key(a[p]) >= key(a[q])
      invariant forall q :: j < q <= i ==> key(a[j]) > key(a[q])
      invariant multiset(a[..]) == multiset(old(a[..]))
      invariant a[i + 1..] == old(a[i + 1..])
    {
      Swap(a, j - 1, j);
      j := j - 1;
    }
  }

  method Swap<T>(a: array<T>, i: nat, j: nat)
    requires i < j < a.Length
    modifies a
    ensures a[..] == old(a[..])[i := old(a[j])][j := old(a[i])]
    ensures multiset(a[..]) == multiset(old(a[..]))
  {
    a[i], a[j] := a[j], a[i];
  }
}
