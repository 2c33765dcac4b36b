/** The sort and search of Go's sort package, and the order on strings, as the queues use them. */
module Sorting {

  ghost predicate TotalOrder<T(!new)>(le: (T, T) -> bool) {
    && (forall x, y :: le(x, y) || le(y, x))
    && (forall x, y, z :: le(x, y) && le(y, z) ==> le(x, z))
  }

  ghost predicate SortedBy<T>(s: seq<T>, le: (T, T) -> bool) {
    forall i, j :: 0 <= i < j < |s| ==> le(s[i], s[j])
  }

  /** sort.Slice: some sorted arrangement of the same elements. */
  method Sort<T(!new)>(s: seq<T>, le: (T, T) -> bool) returns (r: seq<T>)
    requires TotalOrder(le)
    ensures SortedBy(r, le) && multiset(r) == multiset(s)
  {
    r := [];
    for n := 0 to |s|
      invariant SortedBy(r, le) && multiset(r) == multiset(s[..n])
    {
      r := Insert(r, s[n], le);
      assert s[..n + 1] == s[..n] + [s[n]];
    }
    assert s[..|s|] == s;
  }

  method Insert<T(!new)>(s: seq<T>, x: T, le: (T, T) -> bool) returns (r: seq<T>)
    requires TotalOrder(le) && SortedBy(s, le)
    ensures SortedBy(r, le) && multiset(r) == multiset(s) + multiset{x}
  {
    var i := |s|;
    while i > 0 && !le(s[i - 1], x)
      invariant 0 <= i <= |s|
      invariant forall j :: i <= j < |s| ==> le(x, s[j])
    {
      i := i - 1;
    }
    r := s[..i] + [x] + s[i..];
    assert s == s[..i] + s[i..];
    forall a, b | 0 <= a < b < |r|
      ensures le(r[a], r[b])
    {
      if a < i && b >= i && i > 0 {
        assert a < i - 1 ==> le(s[a], s[i - 1]);
      }
    }
  }

  /** sort.Search over a sorted slice of numbers: the first position whose element exceeds x. */
  method SearchAbove(s: seq<int>, x: int) returns (n: nat)
    requires forall i, j :: 0 <= i < j < |s| ==> s[i] <= s[j]
    ensures n <= |s|
    ensures forall i :: 0 <= i < n ==> s[i] <= x
    ensures forall i :: n <= i < |s| ==> x < s[i]
  {
    var hi := |s|;
    n := 0;
    while n < hi
      invariant 0 <= n <= hi <= |s|
      invariant forall i :: 0 <= i < n ==> s[i] <= x
      invariant forall i :: hi <= i < |s| ==> x < s[i]
    {
      var mid := (n + hi) / 2;
      if s[mid] > x {
        hi := mid;
      } else {
        n := mid + 1;
      }
    }
  }

  /** Go's order on strings. */
  predicate StringLe(a: string, b: string) {
    a == [] || (b != [] && (a[0] < b[0] || (a[0] == b[0] && StringLe(a[1..], b[1..]))))
  }

  /** At the first place where they differ the smaller one has the smaller character, or has ended. */
  lemma {:induction false} StringLeIff(a: string, b: string, n: nat)
    requires n <= |a| && n <= |b| && a[..n] == b[..n]
    requires n == |a| || n == |b| || a[n] != b[n]
    ensures StringLe(a, b) <==> n == |a| || (n < |b| && a[n] < b[n])
  {
    if n > 0 {
      assert a[..n][0] == b[..n][0];
      assert a[1..][..n - 1] == a[..n][1..] && b[1..][..n - 1] == b[..n][1..];
      StringLeIff(a[1..], b[1..], n - 1);
    }
  }

  lemma StringLeTotal(a: string, b: string)
    ensures StringLe(a, b) || StringLe(b, a)
  {
    if a != [] && b != [] && a[0] == b[0] {
      StringLeTotal(a[1..], b[1..]);
    }
  }

  lemma StringLeTransitive(a: string, b: string, c: string)
    requires StringLe(a, b) && StringLe(b, c)
    ensures StringLe(a, c)
  {
    if a != [] && a[0] == b[0] == c[0] {
      StringLeTransitive(a[1..], b[1..], c[1..]);
    }
  }

  lemma StringOrder()
    ensures TotalOrder(StringLe)
  {
    forall a, b
      ensures StringLe(a, b) || StringLe(b, a)
    {
      StringLeTotal(a, b);
    }
    forall a, b, c | StringLe(a, b) && StringLe(b, c)
      ensures StringLe(a, c)
    {
      StringLeTransitive(a, b, c);
    }
  }
}
