/** Generic sequence operations the storefront uses on its in-memory lists:
    `filter`, `map`, `find`, `reduce` with `+`, and their properties. */
module Seqs {

  /** The elements of `s` that satisfy `keep`, in their original order
      (JavaScript's `Array.prototype.filter`). */
  function Filter<T(!new)>(s: seq<T>, keep: T -> bool): (r: seq<T>)
    ensures |r| <= |s|
    ensures forall x :: x in r <==> x in s && keep(x)
    decreases |s|
  {
    if |s| == 0 then []
    else
      var init := s[..|s| - 1];
      assert s == init + [s[|s| - 1]];
      Filter(init, keep) + (if keep(s[|s| - 1]) then [s[|s| - 1]] else [])
  }

  /** `f` applied to every element (JavaScript's `Array.prototype.map`). */
  function Map<T, U>(s: seq<T>, f: T -> U): seq<U> {
    seq(|s|, i requires 0 <= i < |s| => f(s[i]))
  }

  /** Sum of `f` over the elements (a `reduce` that starts from 0). */
  function Sum<T>(s: seq<T>, f: T -> int): int
    decreases |s|
  {
    if |s| == 0 then 0 else Sum(s[..|s| - 1], f) + f(s[|s| - 1])
  }

  /** No two positions of `s` share a key. */
  ghost predicate DistinctBy<T, K>(s: seq<T>, key: T -> K) {
    forall i, j :: 0 <= i < j < |s| ==> key(s[i]) != key(s[j])
  }

  /** No value occurs twice in `s`. */
  ghost predicate Distinct<T>(s: seq<T>) {
    forall i, j :: 0 <= i < j < |s| ==> s[i] != s[j]
  }

  /** The first position of `x` in `s`. */
  function IndexOf<T(==)>(s: seq<T>, x: T): (r: nat)
    requires x in s
    ensures r < |s| && s[r] == x
    ensures forall k :: 0 <= k < r ==> s[k] != x
    decreases |s|
  {
    var init := s[..|s| - 1];
    assert s == init + [s[|s| - 1]];
    if x in init then IndexOf(init, x) else |s| - 1
  }

  /** `a` can be obtained from `b` by deleting elements. */
  ghost predicate IsSubsequence<T>(a: seq<T>, b: seq<T>)
    decreases |b|
  {
    if |a| == 0 then true
    else if |b| == 0 then false
    else (a[|a| - 1] == b[|b| - 1] && IsSubsequence(a[..|a| - 1], b[..|b| - 1]))
         || IsSubsequence(a, b[..|b| - 1])
  }

  lemma {:induction false} FilterAppend<T(!new)>(a: seq<T>, b: seq<T>, keep: T -> bool)
    ensures Filter(a + b, keep) == Filter(a, keep) + Filter(b, keep)
    decreases |b|
  {
    if |b| == 0 {
      assert a + b == a;
    } else {
      var init := b[..|b| - 1];
      assert (a + b)[..|a + b| - 1] == a + init;
      FilterAppend(a, init, keep);
    }
  }

  lemma {:induction false} FilterIsSubsequence<T(!new)>(s: seq<T>, keep: T -> bool)
    ensures IsSubsequence(Filter(s, keep), s)
    decreases |s|
  {
    if |s| > 0 {
      var init := s[..|s| - 1];
      FilterIsSubsequence(init, keep);
      var r := Filter(s, keep);
      if keep(s[|s| - 1]) {
        assert r[..|r| - 1] == Filter(init, keep);
      } else {
        assert r == Filter(init, keep);
        SubsequenceDropLast(r, s);
      }
    }
  }

  /** Lengthening the longer sequence keeps the subsequence relation; the
      case needed above, where `b` is `b[..|b|-1]` plus one element. */
  lemma SubsequenceDropLast<T>(a: seq<T>, b: seq<T>)
    requires |b| > 0 && IsSubsequence(a, b[..|b| - 1])
    ensures IsSubsequence(a, b)
  {
  }

  /** Keeping everything returns the sequence itself. */
  lemma {:induction false} FilterAll<T(!new)>(s: seq<T>, keep: T -> bool)
    requires forall x :: x in s ==> keep(x)
    ensures Filter(s, keep) == s
    decreases |s|
  {
    if |s| > 0 {
      var init := s[..|s| - 1];
      FilterAll(init, keep);
      assert s == init + [s[|s| - 1]];
    }
  }

  /** Keeping nothing returns the empty sequence. */
  lemma {:induction false} FilterNone<T(!new)>(s: seq<T>, keep: T -> bool)
    requires forall x :: x in s ==> !keep(x)
    ensures Filter(s, keep) == []
    decreases |s|
  {
    if |s| > 0 {
      var init := s[..|s| - 1];
      assert forall x :: x in init ==> x in s;
      FilterNone(init, keep);
    }
  }

  /** Two predicates that agree on the elements filter alike. */
  lemma {:induction false} FilterCongruent<T(!new)>(s: seq<T>, p: T -> bool, q: T -> bool)
    requires forall x :: x in s ==> p(x) == q(x)
    ensures Filter(s, p) == Filter(s, q)
    decreases |s|
  {
    if |s| > 0 {
      FilterCongruent(s[..|s| - 1], p, q);
    }
  }

  /** Filtering keeps distinct keys distinct. */
  lemma {:induction false} FilterDistinctBy<T(!new), K>(s: seq<T>, keep: T -> bool, key: T -> K)
    requires DistinctBy(s, key)
    ensures DistinctBy(Filter(s, keep), key)
    decreases |s|
  {
    if |s| > 0 {
      var init := s[..|s| - 1];
      var last := s[|s| - 1];
      FilterDistinctBy(init, keep, key);
      var fi := Filter(init, keep);
      forall x | x in fi
        ensures key(x) != key(last)
      {
        var k :| 0 <= k < |init| && init[k] == x;
        assert s[k] == x;
      }
      var r := Filter(s, keep);
      forall i, j | 0 <= i < j < |r|
        ensures key(r[i]) != key(r[j])
      {
        if j == |fi| {
          assert r[i] == fi[i];
          assert r[i] in fi;
        } else {
          assert r[i] == fi[i] && r[j] == fi[j];
        }
      }
    }
  }

  lemma {:induction false} SumAppend<T>(a: seq<T>, b: seq<T>, f: T -> int)
    ensures Sum(a + b, f) == Sum(a, f) + Sum(b, f)
    decreases |b|
  {
    if |b| == 0 {
      assert a + b == a;
    } else {
      var init := b[..|b| - 1];
      assert (a + b)[..|a + b| - 1] == a + init;
      SumAppend(a, init, f);
    }
  }

  /** Replacing one element changes the sum by the difference. */
  lemma {:induction false} SumUpdate<T>(s: seq<T>, k: nat, x: T, f: T -> int)
    requires k < |s|
    ensures Sum(s[k := x], f) == Sum(s, f) - f(s[k]) + f(x)
    decreases |s|
  {
    var init := s[..|s| - 1];
    if k == |s| - 1 {
      assert s[k := x][..|s| - 1] == init;
    } else {
      assert s[k := x][..|s| - 1] == init[k := x];
      SumUpdate(init, k, x, f);
    }
  }

  /** Filtering out exactly one position removes exactly its share. */
  lemma {:induction false} SumFilterOne<T(!new)>(s: seq<T>, keep: T -> bool, k: nat, f: T -> int)
    requires k < |s| && !keep(s[k])
    requires forall i :: 0 <= i < |s| && i != k ==> keep(s[i])
    ensures Sum(Filter(s, keep), f) == Sum(s, f) - f(s[k])
    decreases |s|
  {
    var init := s[..|s| - 1];
    if k == |s| - 1 {
      forall x | x in init
        ensures keep(x)
      {
        var i :| 0 <= i < |init| && init[i] == x;
        assert s[i] == x;
      }
      FilterAll(init, keep);
      assert Filter(s, keep) == Filter(init, keep);
    } else {
      SumFilterOne(init, keep, k, f);
    }
  }

  /** A second filter that implies the first makes the first redundant. */
  lemma {:induction false} FilterSubsumed<T(!new)>(s: seq<T>, p: T -> bool, q: T -> bool)
    requires forall x :: x in s && q(x) ==> p(x)
    ensures Filter(Filter(s, p), q) == Filter(s, q)
    decreases |s|
  {
    if |s| > 0 {
      var init := s[..|s| - 1];
      var last := s[|s| - 1];
      FilterSubsumed(init, p, q);
      FilterAppend(Filter(init, p), if p(last) then [last] else [], q);
      if p(last) {
        assert Filter([last], q) == Filter([], q) + (if q(last) then [last] else []);
      }
    }
  }

  /** A map that leaves the selected elements alone, and does not move any
      element in or out of the selection, is invisible through the filter. */
  lemma {:induction false} FilterMapInvisible<T(!new)>(s: seq<T>, f: T -> T, q: T -> bool)
    requires forall x :: x in s ==> q(f(x)) == q(x)
    requires forall x :: x in s && q(x) ==> f(x) == x
    ensures Filter(Map(s, f), q) == Filter(s, q)
    decreases |s|
  {
    if |s| > 0 {
      var init := s[..|s| - 1];
      assert Map(s, f)[..|s| - 1] == Map(init, f);
      FilterMapInvisible(init, f, q);
    }
  }

  lemma MapAppend<T, U>(a: seq<T>, b: seq<T>, f: T -> U)
    ensures Map(a + b, f) == Map(a, f) + Map(b, f)
  {
  }

  /** Selecting after a map is mapping after selecting, when the map keeps
      every element's selection. */
  lemma {:induction false} FilterMap<T(!new), U(!new)>(s: seq<T>, f: T -> U, p: T -> bool, q: U -> bool)
    requires forall x :: x in s ==> q(f(x)) == p(x)
    ensures Filter(Map(s, f), q) == Map(Filter(s, p), f)
    decreases |s|
  {
    if |s| > 0 {
      var init := s[..|s| - 1];
      var last := s[|s| - 1];
      assert Map(s, f)[..|s| - 1] == Map(init, f);
      assert Map(s, f)[|s| - 1] == f(last);
      FilterMap(init, f, p, q);
      MapAppend(Filter(init, p), if p(last) then [last] else [], f);
    }
  }

  /** Two filters commute. */
  lemma {:induction false} FilterCommute<T(!new)>(s: seq<T>, p: T -> bool, q: T -> bool)
    ensures Filter(Filter(s, p), q) == Filter(Filter(s, q), p)
    decreases |s|
  {
    if |s| > 0 {
      var init := s[..|s| - 1];
      var last := s[|s| - 1];
      FilterCommute(init, p, q);
      FilterAppend(Filter(init, p), if p(last) then [last] else [], q);
      FilterAppend(Filter(init, q), if q(last) then [last] else [], p);
      assert Filter([last], q) == Filter([], q) + (if q(last) then [last] else []);
      assert Filter([last], p) == Filter([], p) + (if p(last) then [last] else []);
    }
  }

  /** Two compositions of maps agree when they agree on every element. */
  lemma MapCompose<T, U, V, W>(s: seq<T>, f: T -> U, g: U -> W, h: T -> V, k: V -> W)
    requires forall x :: x in s ==> g(f(x)) == k(h(x))
    ensures Map(Map(s, f), g) == Map(Map(s, h), k)
  {
    forall i | 0 <= i < |s|
      ensures Map(Map(s, f), g)[i] == Map(Map(s, h), k)[i]
    {
      assert s[i] in s;
    }
  }

  lemma FilterSingleton<T(!new)>(y: T, keep: T -> bool)
    ensures Filter([y], keep) == if keep(y) then [y] else []
  {
    assert [y][..0] == [];
  }
}
