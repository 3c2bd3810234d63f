/**
 Sequence building blocks shared by the pages: Python's `sorted(set(xs))`
 (strictly increasing, duplicate-free, under a strict total order), the
 boolean-mask row selection `df[mask]` (keep the elements that pass, in order)
 and the first-match search.
 */
module Sequences {
  import opened Wrappers

  /** `lt` is irreflexive, transitive and connected: a strict total order. */
  ghost predicate StrictTotal<T(!new)>(lt: (T, T) -> bool) {
    && (forall x :: !lt(x, x))
    && (forall x, y, z :: lt(x, y) && lt(y, z) ==> lt(x, z))
    && (forall x, y :: x != y ==> lt(x, y) || lt(y, x))
  }

  /** Every element is below every later one; in particular there are no duplicates. */
  predicate StrictlySorted<T>(s: seq<T>, lt: (T, T) -> bool) {
    forall i, j :: 0 <= i < j < |s| ==> lt(s[i], s[j])
  }

  /** Insert `x` into the strictly sorted `s`, unless it is already there. */
  function Insert<T(==,!new)>(s: seq<T>, x: T, lt: (T, T) -> bool): (r: seq<T>)
    requires StrictTotal(lt)
    requires StrictlySorted(s, lt)
    ensures StrictlySorted(r, lt)
    ensures forall y :: y in r <==> y in s || y == x
  {
    if |s| == 0 then [x]
    else if x == s[0] then s
    else if lt(x, s[0]) then [x] + s
    else
      var t := Insert(s[1..], x, lt);
      assert forall y :: y in t ==> lt(s[0], y) by {
        forall y | y in t ensures lt(s[0], y) {
          if y != x {
            var k :| 1 <= k < |s| && s[k] == y;
          }
        }
      }
      [s[0]] + t
  }

  /** Python's `sorted(set(xs))`: the distinct elements of `xs` in increasing order. */
  function SortDistinct<T(==,!new)>(xs: seq<T>, lt: (T, T) -> bool): (r: seq<T>)
    requires StrictTotal(lt)
    ensures StrictlySorted(r, lt)
    ensures forall y :: y in r <==> y in xs
  {
    if |xs| == 0 then []
    else
      var r := Insert(SortDistinct(xs[..|xs| - 1], lt), xs[|xs| - 1], lt);
      assert xs == xs[..|xs| - 1] + [xs[|xs| - 1]];
      r
  }

  /** Two strictly sorted sequences with the same elements are equal, so `SortDistinct` is
      the only answer `sorted(set(xs))` can give. */
  lemma {:induction false} SortedUnique<T(!new)>(a: seq<T>, b: seq<T>, lt: (T, T) -> bool)
    requires StrictTotal(lt)
    requires StrictlySorted(a, lt) && StrictlySorted(b, lt)
    requires forall y :: y in a <==> y in b
    ensures a == b
  {
    assert forall i :: 0 <= i < |a| ==> a[i] in b;
    assert forall i :: 0 <= i < |b| ==> b[i] in a;
    if |a| > 0 && |b| > 0 {
      assert a[0] == b[0] by {
        var i :| 0 <= i < |b| && b[i] == a[0];
        var j :| 0 <= j < |a| && a[j] == b[0];
      }
      forall y ensures y in a[1..] <==> y in b[1..] {
        if y in a[1..] {
          var i :| 1 <= i < |a| && a[i] == y;
          assert lt(a[0], y);
          assert y in b;
        }
        if y in b[1..] {
          var i :| 1 <= i < |b| && b[i] == y;
          assert lt(b[0], y);
          assert y in a;
        }
      }
      SortedUnique(a[1..], b[1..], lt);
      assert a == [a[0]] + a[1..] && b == [b[0]] + b[1..];
    }
  }

  // ---------------------------------------------------------------------------
  // Row selection by a boolean mask
  // ---------------------------------------------------------------------------

  /** `[x for x in xs if p(x)]`, which is what `df[mask]` does to the rows of a table. */
  function KeepIf<T(!new)>(xs: seq<T>, p: T -> bool): (r: seq<T>)
    ensures |r| <= |xs|
    ensures forall x :: x in r <==> x in xs && p(x)
  {
    if |xs| == 0 then [] else (if p(xs[0]) then [xs[0]] else []) + KeepIf(xs[1..], p)
  }

  /** No element occurs twice. */
  predicate Distinct<T(==)>(xs: seq<T>) {
    forall i, j :: 0 <= i < j < |xs| ==> xs[i] != xs[j]
  }

  /** Selecting from a sequence without repeats gives a sequence without repeats. */
  lemma {:induction false} KeepIfDistinct<T(!new)>(xs: seq<T>, p: T -> bool)
    requires Distinct(xs)
    ensures Distinct(KeepIf(xs, p))
  {
    if |xs| > 0 {
      KeepIfDistinct(xs[1..], p);
      var rest := KeepIf(xs[1..], p);
      assert xs[0] !in xs[1..];
      assert xs[0] !in rest;
      if p(xs[0]) {
        var r := [xs[0]] + rest;
        forall i, j | 0 <= i < j < |r| ensures r[i] != r[j] {
          if i == 0 {
            assert r[j] == rest[j - 1];
          } else {
            assert r[i] == rest[i - 1] && r[j] == rest[j - 1];
          }
        }
      }
    }
  }

  /** `i` is the first index of `xs` whose element satisfies `p`. */
  predicate IsFirstWhere<T>(xs: seq<T>, p: T -> bool, i: int) {
    0 <= i < |xs| && p(xs[i]) && forall j :: 0 <= j < i ==> !p(xs[j])
  }

  /** Python's `for x in xs: if p(x): return x` followed by `return None`. */
  function FirstWhere<T(==)>(xs: seq<T>, p: T -> bool): (r: Option<T>)
    ensures r.None? <==> forall i :: 0 <= i < |xs| ==> !p(xs[i])
    ensures r.Some? ==> exists i :: IsFirstWhere(xs, p, i) && xs[i] == r.value
  {
    if |xs| == 0 then None
    else if p(xs[0]) then
      assert IsFirstWhere(xs, p, 0);
      Some(xs[0])
    else
      var r := FirstWhere(xs[1..], p);
      assert forall i :: 1 <= i < |xs| ==> xs[i] == xs[1..][i - 1];
      if r.Some? then
        var i :| IsFirstWhere(xs[1..], p, i) && xs[1..][i] == r.value;
        assert IsFirstWhere(xs, p, i + 1);
        r
      else r
  }

  /** Selection distributes over concatenation: together with the one-element case
      (`KeepIf([x], p)` is `[x]` or `[]`) this pins `KeepIf` down as order-preserving. */
  lemma {:induction false} KeepIfAppend<T(!new)>(a: seq<T>, b: seq<T>, p: T -> bool)
    ensures KeepIf(a + b, p) == KeepIf(a, p) + KeepIf(b, p)
  {
    if |a| == 0 {
      assert a + b == b;
    } else {
      assert (a + b)[1..] == a[1..] + b;
      KeepIfAppend(a[1..], b, p);
    }
  }

  /** Selecting by `p` and then by `q` is selecting by `p && q`. */
  lemma {:induction false} KeepIfKeepIf<T(!new)>(xs: seq<T>, p: T -> bool, q: T -> bool, pq: T -> bool)
    requires forall x :: pq(x) == (p(x) && q(x))
    ensures KeepIf(KeepIf(xs, p), q) == KeepIf(xs, pq)
  {
    if |xs| > 0 {
      KeepIfKeepIf(xs[1..], p, q, pq);
      var kp := KeepIf(xs, p);
      if p(xs[0]) {
        assert kp == [xs[0]] + KeepIf(xs[1..], p);
        assert kp[0] == xs[0] && kp[1..] == KeepIf(xs[1..], p);
      } else {
        assert kp == KeepIf(xs[1..], p);
      }
    }
  }

  /** Mapping `f` over the selected elements, one by one, gives exactly the images of the
      elements that pass. */
  lemma KeepIfMapMembers<T(!new), U(!new)>(xs: seq<T>, p: T -> bool, f: T -> U, r: seq<U>)
    requires |r| == |KeepIf(xs, p)|
    requires forall k :: 0 <= k < |r| ==> r[k] == f(KeepIf(xs, p)[k])
    ensures forall y :: y in r <==> exists i :: 0 <= i < |xs| && p(xs[i]) && f(xs[i]) == y
  {
    var kept := KeepIf(xs, p);
    forall y ensures y in r <==> exists i :: 0 <= i < |xs| && p(xs[i]) && f(xs[i]) == y {
      if y in r {
        var k :| 0 <= k < |r| && r[k] == y;
        assert kept[k] in kept;
        var i :| 0 <= i < |xs| && xs[i] == kept[k];
        assert p(xs[i]) && f(xs[i]) == y;
      }
      if exists i :: 0 <= i < |xs| && p(xs[i]) && f(xs[i]) == y {
        var i :| 0 <= i < |xs| && p(xs[i]) && f(xs[i]) == y;
        assert xs[i] in kept;
        var k :| 0 <= k < |kept| && kept[k] == xs[i];
        assert r[k] == y;
      }
    }
  }

  /** The selection depends only on the verdicts on the elements present. */
  lemma {:induction false} KeepIfCongruent<T(!new)>(xs: seq<T>, p: T -> bool, q: T -> bool)
    requires forall x :: x in xs ==> p(x) == q(x)
    ensures KeepIf(xs, p) == KeepIf(xs, q)
  {
    if |xs| > 0 {
      KeepIfCongruent(xs[1..], p, q);
    }
  }

  /** A mask that every element passes leaves the sequence unchanged. */
  lemma {:induction false} KeepIfAll<T(!new)>(xs: seq<T>, p: T -> bool)
    requires forall x :: x in xs ==> p(x)
    ensures KeepIf(xs, p) == xs
  {
    if |xs| > 0 {
      KeepIfAll(xs[1..], p);
    }
  }
}
