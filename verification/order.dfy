/** Python's ordering of `str` values (code point by code point, a proper prefix first), and
    `sorted` applied to a set of strings. */
module Order {

  /** `a <= b` on Python strings. */
  predicate Leq(a: string, b: string)
    ensures |a| <= |b| && b[..|a|] == a ==> Leq(a, b)
    decreases |a|
  {
    a == [] || (b != [] && (a[0] < b[0] || (a[0] == b[0] && Leq(a[1..], b[1..]))))
  }

  /** At the first position where two strings differ, the smaller code point comes first. */
  lemma {:induction false} LeqFirstDifference(a: string, b: string, i: nat)
    requires i < |a| && i < |b| && a[..i] == b[..i] && a[i] < b[i]
    ensures Leq(a, b) && !Leq(b, a)
    decreases i
  {
    if i > 0 {
      assert a[0] == a[..i][0] && b[0] == b[..i][0];
      assert a[1..][..i - 1] == a[..i][1..] && b[1..][..i - 1] == b[..i][1..];
      LeqFirstDifference(a[1..], b[1..], i - 1);
    }
  }

  lemma {:induction false} LeqReflexive(a: string)
    ensures Leq(a, a)
    decreases |a|
  {
    if a != [] {
      LeqReflexive(a[1..]);
    }
  }

  lemma {:induction false} LeqAntisymmetric(a: string, b: string)
    requires Leq(a, b) && Leq(b, a)
    ensures a == b
    decreases |a|
  {
    if a != [] {
      LeqAntisymmetric(a[1..], b[1..]);
      assert a == [a[0]] + a[1..] && b == [b[0]] + b[1..];
    }
  }

  lemma {:induction false} LeqTransitive(a: string, b: string, c: string)
    requires Leq(a, b) && Leq(b, c)
    ensures Leq(a, c)
    decreases |a|
  {
    if a != [] && a[0] == b[0] && b[0] == c[0] {
      LeqTransitive(a[1..], b[1..], c[1..]);
    }
  }

  lemma {:induction false} LeqTotal(a: string, b: string)
    ensures Leq(a, b) || Leq(b, a)
    decreases |a|
  {
    if a != [] && b != [] && a[0] == b[0] {
      LeqTotal(a[1..], b[1..]);
    }
  }

  /** Ascending and without repetitions. */
  predicate StrictlyIncreasing(xs: seq<string>)
  {
    forall i, j :: 0 <= i < j < |xs| ==> Leq(xs[i], xs[j]) && xs[i] != xs[j]
  }

  predicate IsLeast(m: string, s: set<string>)
  {
    m in s && forall x :: x in s ==> Leq(m, x)
  }

  /** Every non-empty finite set of strings has a least element. */
  lemma {:induction false} LeastExists(s: set<string>)
    requires s != {}
    ensures exists m :: IsLeast(m, s)
    decreases |s|
  {
    var x :| x in s;
    if s - {x} == {} {
      forall y | y in s ensures y == x {
        assert y !in s - {x};
      }
      LeqReflexive(x);
      assert IsLeast(x, s);
    } else {
      LeastExists(s - {x});
      var m :| IsLeast(m, s - {x});
      LeqTotal(m, x);
      if Leq(m, x) {
        forall y | y in s ensures Leq(m, y) {
          if y != x {
            assert y in s - {x};
          }
        }
        assert IsLeast(m, s);
      } else {
        forall y | y in s ensures Leq(x, y) {
          if y == x {
            LeqReflexive(x);
          } else {
            LeqTransitive(x, m, y);
          }
        }
        assert IsLeast(x, s);
      }
    }
  }

  /** The least element of a set is unique. */
  lemma LeastUnique(s: set<string>)
    ensures forall m, n :: IsLeast(m, s) && IsLeast(n, s) ==> m == n
  {
    forall m, n | IsLeast(m, s) && IsLeast(n, s) ensures m == n {
      LeqAntisymmetric(m, n);
    }
  }

  /** `sorted(s)` for a set of strings: every element once, in ascending order. */
  function SortedSet(s: set<string>): (r: seq<string>)
    ensures StrictlyIncreasing(r)
    ensures forall x :: x in r <==> x in s
    ensures |r| == |s|
    decreases |s|
  {
    if s == {} then []
    else
      LeastExists(s);
      LeastUnique(s);
      var m :| IsLeast(m, s);
      var rest := SortedSet(s - {m});
      assert forall j :: 0 <= j < |rest| ==> rest[j] in s - {m};
      [m] + rest
  }

  /** Ascending, repetitions allowed. */
  predicate Sorted(xs: seq<string>)
  {
    forall i, j :: 0 <= i < j < |xs| ==> Leq(xs[i], xs[j])
  }

  /** `m` is not above any element of `xs`. */
  predicate LowerBound(m: string, xs: seq<string>)
  {
    forall j :: 0 <= j < |xs| ==> Leq(m, xs[j])
  }

  lemma SortedCons(m: string, xs: seq<string>)
    requires Sorted(xs) && LowerBound(m, xs)
    ensures Sorted([m] + xs)
  {
  }

  /** A lower bound of `x` and of every element of `xs` bounds any arrangement of them. */
  lemma LowerBoundOfPermutation(m: string, x: string, xs: seq<string>, r: seq<string>)
    requires Leq(m, x) && LowerBound(m, xs)
    requires multiset(r) == multiset(xs) + multiset{x}
    ensures LowerBound(m, r)
  {
    forall j | 0 <= j < |r| ensures Leq(m, r[j]) {
      assert r[j] in multiset(r);
      if r[j] != x {
        assert r[j] in multiset(xs);
      }
    }
  }

  /** Places `x` into the sorted list `xs`, after every element not above it. */
  function Insert(x: string, xs: seq<string>): (r: seq<string>)
    requires Sorted(xs)
    ensures Sorted(r)
    ensures multiset(r) == multiset(xs) + multiset{x}
    decreases |xs|
  {
    if xs == [] then [x]
    else if Leq(x, xs[0]) then
      forall j | 0 < j < |xs| ensures Leq(x, xs[j]) {
        LeqTransitive(x, xs[0], xs[j]);
      }
      SortedCons(x, xs);
      [x] + xs
    else
      LeqTotal(x, xs[0]);
      var rest := Insert(x, xs[1..]);
      assert xs == [xs[0]] + xs[1..];
      LowerBoundOfPermutation(xs[0], x, xs[1..], rest);
      SortedCons(xs[0], rest);
      [xs[0]] + rest
  }

  /** `list.sort()` on a list of strings: the same elements, in ascending order. */
  function Sort(xs: seq<string>): (r: seq<string>)
    ensures Sorted(r)
    ensures multiset(r) == multiset(xs)
    decreases |xs|
  {
    if xs == [] then []
    else
      assert xs == xs[..|xs| - 1] + [xs[|xs| - 1]];
      Insert(xs[|xs| - 1], Sort(xs[..|xs| - 1]))
  }

  lemma SortedTail(a: seq<string>)
    requires Sorted(a) && a != []
    ensures Sorted(a[1..])
  {
    forall p, q | 0 <= p < q < |a[1..]| ensures Leq(a[1..][p], a[1..][q]) {
      assert a[1..][p] == a[p + 1] && a[1..][q] == a[q + 1];
    }
  }

  /** Two sorted lists holding the same non-empty multiset start with the same element. */
  lemma SortedHeads(a: seq<string>, b: seq<string>)
    requires Sorted(a) && Sorted(b) && multiset(a) == multiset(b) && a != []
    ensures b != [] && a[0] == b[0]
  {
    assert a[0] in multiset(b);
    assert b != [] by {
      assert |multiset(b)| == |multiset(a)|;
    }
    assert b[0] in multiset(a);
    var j :| 0 <= j < |b| && b[j] == a[0];
    var i :| 0 <= i < |a| && a[i] == b[0];
    if j == 0 { LeqReflexive(b[0]); }
    if i == 0 { LeqReflexive(a[0]); }
    LeqAntisymmetric(a[0], b[0]);
  }

  /** A sorted arrangement of a multiset of strings is unique: whatever order the strings
      arrive in, sorting them gives the same list. */
  lemma {:induction false} SortedUnique(a: seq<string>, b: seq<string>)
    requires Sorted(a) && Sorted(b) && multiset(a) == multiset(b)
    ensures a == b
    decreases |a|
  {
    if a != [] {
      SortedHeads(a, b);
      SortedTail(a);
      SortedTail(b);
      assert a == [a[0]] + a[1..] && b == [b[0]] + b[1..];
      assert multiset(a[1..]) == multiset(a) - multiset{a[0]};
      assert multiset(b[1..]) == multiset(b) - multiset{b[0]};
      SortedUnique(a[1..], b[1..]);
    } else {
      assert |multiset(b)| == 0;
    }
  }

  /** Sorting is insensitive to the order of its input. */
  lemma SortIgnoresOrder(xs: seq<string>, ys: seq<string>)
    requires multiset(xs) == multiset(ys)
    ensures Sort(xs) == Sort(ys)
  {
    SortedUnique(Sort(xs), Sort(ys));
  }
}
