/** Sequence operations the handlers use through Python list comprehensions
    and slices: `[x for x in s if p(x)]`, `s[:n]`, `s[0]`. */
module Seqs {

  function Min(a: int, b: int): int {
    if a <= b then a else b
  }

  /** `[x for x in s if p(x)]`. */
  function Filter<T>(s: seq<T>, p: T -> bool): (r: seq<T>)
    ensures |r| <= |s|
    ensures forall x :: x in r ==> x in s && p(x)
    ensures |r| == 0 <==> forall i :: 0 <= i < |s| ==> !p(s[i])
  {
    if |s| == 0 then []
    else if p(s[0]) then [s[0]] + Filter(s[1..], p)
    else Filter(s[1..], p)
  }

  /** The number of elements of s that satisfy p. */
  function Count<T>(s: seq<T>, p: T -> bool): nat {
    if |s| == 0 then 0
    else (if p(s[0]) then 1 else 0) + Count(s[1..], p)
  }

  /** The filtered list has one entry per element satisfying p. */
  lemma {:induction false} FilterLength<T>(s: seq<T>, p: T -> bool)
    ensures |Filter(s, p)| == Count(s, p)
  {
    if |s| > 0 {
      FilterLength(s[1..], p);
    }
  }

  /** Order preservation without skipping: the element at index i that
      satisfies p lands in the filtered list right after the elements
      before it that satisfy p. */
  lemma {:induction false} FilterPlaces<T>(s: seq<T>, p: T -> bool, i: nat)
    requires i < |s| && p(s[i])
    ensures Count(s[..i], p) < |Filter(s, p)|
    ensures Filter(s, p)[Count(s[..i], p)] == s[i]
  {
    if i > 0 {
      assert s[..i][1..] == s[1..][..i - 1];
      FilterPlaces(s[1..], p, i - 1);
    }
  }

  /** The head of the filtered list is the first element satisfying p. */
  lemma {:induction false} FilterHead<T>(s: seq<T>, p: T -> bool, i: nat)
    requires i < |s| && p(s[i])
    requires forall j :: 0 <= j < i ==> !p(s[j])
    ensures |Filter(s, p)| > 0 && Filter(s, p)[0] == s[i]
  {
    if i > 0 {
      FilterHead(s[1..], p, i - 1);
    }
  }

  /** Filtering keeps any relation that held between every earlier and
      every later element. */
  lemma {:induction false} FilterKeepsOrder<T>(s: seq<T>, p: T -> bool, rel: (T, T) -> bool)
    requires forall i, j :: 0 <= i < j < |s| ==> rel(s[i], s[j])
    ensures forall i, j :: 0 <= i < j < |Filter(s, p)| ==> rel(Filter(s, p)[i], Filter(s, p)[j])
  {
    if |s| > 0 {
      FilterKeepsOrder(s[1..], p, rel);
      var rest := Filter(s[1..], p);
      if p(s[0]) {
        forall j | 0 <= j < |rest|
          ensures rel(s[0], rest[j])
        {
          assert rest[j] in s[1..];
        }
      }
    }
  }

  lemma {:induction false} CountConcat<T>(a: seq<T>, b: seq<T>, p: T -> bool)
    ensures Count(a + b, p) == Count(a, p) + Count(b, p)
  {
    if |a| == 0 {
      assert a + b == b;
    } else {
      assert (a + b)[1..] == a[1..] + b;
      CountConcat(a[1..], b, p);
    }
  }

  /** Removing the element at index k removes one copy of it. */
  lemma MultisetRemove<T>(b: seq<T>, k: nat)
    requires k < |b|
    ensures multiset(b[..k] + b[k + 1..]) == multiset(b) - multiset{b[k]}
  {
    assert b == b[..k] + [b[k]] + b[k + 1..];
  }

  /** Removing the element at index k lowers the count by its own share. */
  lemma CountRemove<T>(b: seq<T>, k: nat, p: T -> bool)
    requires k < |b|
    ensures Count(b, p) == Count(b[..k] + b[k + 1..], p) + (if p(b[k]) then 1 else 0)
  {
    assert b == b[..k] + ([b[k]] + b[k + 1..]);
    CountConcat(b[..k], [b[k]] + b[k + 1..], p);
    CountConcat(b[..k], b[k + 1..], p);
    assert ([b[k]] + b[k + 1..])[1..] == b[k + 1..];
  }

  /** Counting does not depend on the order of the elements. */
  lemma {:induction false} CountPermutation<T>(a: seq<T>, b: seq<T>, p: T -> bool)
    requires multiset(a) == multiset(b)
    ensures Count(a, p) == Count(b, p)
    decreases |a|
  {
    if |a| == 0 {
      assert |b| == |multiset(b)|;
    } else {
      assert a[0] in multiset(b);
      var k :| 0 <= k < |b| && b[k] == a[0];
      MultisetRemove(a, 0);
      assert a[..0] + a[1..] == a[1..];
      MultisetRemove(b, k);
      CountRemove(b, k, p);
      CountPermutation(a[1..], b[..k] + b[k + 1..], p);
    }
  }

  /** When exactly the first m elements satisfy p, p counts m. */
  lemma {:induction false} CountPrefix<T>(s: seq<T>, p: T -> bool, m: nat)
    requires m <= |s|
    requires forall i :: 0 <= i < |s| ==> (p(s[i]) <==> i < m)
    ensures Count(s, p) == m
  {
    if |s| > 0 {
      CountPrefix(s[1..], p, if m == 0 then 0 else m - 1);
    }
  }
}
