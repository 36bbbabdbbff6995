module Sequences {

  ghost predicate NoDuplicates<T>(s: seq<T>) {
    forall i, j :: 0 <= i < j < |s| ==> s[i] != s[j]
  }

  lemma NoDuplicatesConcat<T>(s: seq<T>, t: seq<T>)
    requires NoDuplicates(s) && NoDuplicates(t) && forall x :: x in s ==> x !in t
    ensures NoDuplicates(s + t)
  {
    forall i, j | 0 <= i < j < |s + t| ensures (s + t)[i] != (s + t)[j] {
      if i < |s| <= j {
        assert s[i] in s && t[j - |s|] in t;
      }
    }
  }

  /** Moving the boundary between two halves by one element. */
  lemma MoveOne<T>(done: seq<T>, rest: seq<T>, i: nat)
    requires i < |rest|
    ensures done + rest[i..] == done + [rest[i]] + rest[i + 1..]
  {
  }

  /** The elements for which `keep` holds, in order. */
  function Filter<T(!new)>(s: seq<T>, keep: T -> bool): (r: seq<T>)
    ensures forall x :: x in r <==> x in s && keep(x)
  {
    if s == [] then
      []
    else
      var last := s[|s| - 1];
      Filter(s[..|s| - 1], keep) + (if keep(last) then [last] else [])
  }

  lemma {:induction false} FilterNoDuplicates<T(!new)>(s: seq<T>, keep: T -> bool)
    requires NoDuplicates(s)
    ensures NoDuplicates(Filter(s, keep))
  {
    if s != [] {
      var front, last := s[..|s| - 1], s[|s| - 1];
      FilterNoDuplicates(front, keep);
      if keep(last) {
        assert last !in front;
        NoDuplicatesConcat(Filter(front, keep), [last]);
      }
    }
  }

  function Without<T>(s: seq<T>, k: nat): seq<T>
    requires k < |s|
  {
    s[..k] + s[k + 1..]
  }

  /** Of two orders of the same elements, the last element of one can be taken out of both. */
  lemma TakeOutLast<T>(s: seq<T>, t: seq<T>) returns (k: nat)
    requires s != [] && multiset(s) == multiset(t)
    ensures k < |t| == |s| && t[k] == s[|s| - 1]
    ensures multiset(Without(t, k)) == multiset(s[..|s| - 1])
  {
    var n := |s| - 1;
    assert |s| == |multiset(s)| == |multiset(t)| == |t|;
    LastAside(s);
    assert s[n] in multiset(t);
    k :| 0 <= k < |t| && t[k] == s[n];
    OneAside(t, k);
    CancelOne(multiset(Without(t, k)), multiset(s[..n]), s[n]);
  }

  lemma LastAside<T>(s: seq<T>)
    requires s != []
    ensures multiset(s) == multiset(s[..|s| - 1]) + multiset{s[|s| - 1]}
  {
    assert s == s[..|s| - 1] + [s[|s| - 1]];
  }

  lemma OneAside<T>(s: seq<T>, k: nat)
    requires k < |s|
    ensures multiset(s) == multiset(Without(s, k)) + multiset{s[k]}
  {
    assert s == s[..k] + [s[k]] + s[k + 1..];
  }

  /** Two places of t are two places of any other order of its elements. */
  lemma PlacesOfBoth<T>(s: seq<T>, t: seq<T>, i: nat, j: nat) returns (k: nat, l: nat)
    requires multiset(s) == multiset(t) && i < j < |t|
    ensures k < |s| && l < |s| && k != l && s[k] == t[i] && s[l] == t[j]
  {
    assert t[i] in multiset(s);
    k :| 0 <= k < |s| && s[k] == t[i];
    OneAside(s, k);
    OneAside(t, i);
    CancelOne(multiset(Without(s, k)), multiset(Without(t, i)), t[i]);
    assert Without(t, i)[j - 1] == t[j] && t[j] in multiset(Without(s, k));
    var n :| 0 <= n < |s| - 1 && Without(s, k)[n] == t[j];
    l := if n < k then n else n + 1;
  }

  /** Two lists of the same elements, each once, are orders of one another. */
  lemma {:induction false} SameSet<T>(s: seq<T>, t: seq<T>)
    requires NoDuplicates(s) && NoDuplicates(t) && forall x :: x in s <==> x in t
    ensures multiset(s) == multiset(t)
  {
    forall x ensures multiset(s)[x] == multiset(t)[x] {
      CountedOnce(s, x);
      CountedOnce(t, x);
    }
  }

  lemma {:induction false} CountedOnce<T>(s: seq<T>, x: T)
    requires NoDuplicates(s)
    ensures multiset(s)[x] == if x in s then 1 else 0
  {
    if s != [] {
      var n := |s| - 1;
      CountedOnce(s[..n], x);
      LastAside(s);
    }
  }

  function Mapped<T, U>(f: T -> U, s: seq<T>): (r: seq<U>)
    ensures |r| == |s| && forall i :: 0 <= i < |r| ==> r[i] == f(s[i])
  {
    seq(|s|, i requires 0 <= i < |s| => f(s[i]))
  }

  lemma {:induction false} MappedPermute<T, U>(f: T -> U, s: seq<T>, t: seq<T>)
    requires multiset(s) == multiset(t)
    ensures multiset(Mapped(f, s)) == multiset(Mapped(f, t))
    decreases |s|
  {
    if s == [] {
      assert |multiset(t)| == |t|;
    } else {
      var n := |s| - 1;
      var k := TakeOutLast(s, t);
      MappedPermute(f, s[..n], Without(t, k));
      var x, y := Mapped(f, s), Mapped(f, t);
      assert x[..n] == Mapped(f, s[..n]) && x[n] == y[k];
      assert Mapped(f, Without(t, k)) == Without(y, k);
      LastAside(x);
      OneAside(y, k);
    }
  }

  lemma CancelOne<T>(a: multiset<T>, b: multiset<T>, x: T)
    requires a + multiset{x} == b + multiset{x}
    ensures a == b
  {
    assert a == (a + multiset{x}) - multiset{x};
    assert b == (b + multiset{x}) - multiset{x};
  }

  lemma {:induction false} BoundedSet(s: set<nat>, n: nat)
    requires forall x :: x in s ==> x < n
    ensures |s| <= n
  {
    if n > 0 {
      BoundedSet(s - {n - 1}, n - 1);
    } else {
      assert s == {};
    }
  }
}
