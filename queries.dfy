/**
 * Queries over in-memory tables.
 *
 * A table is a sequence of rows in the store's enumeration order. A query
 * `Model.query.filter_by(...).all()` is the subsequence of the rows that
 * satisfy its condition, and `len([a for a in rows if p(a)])` is a count.
 */
module Queries {

  /** Number of rows of `xs` that satisfy `p`. */
  function CountWhere<T>(xs: seq<T>, p: T -> bool): (n: nat)
    ensures n <= |xs|
  {
    if |xs| == 0 then 0 else (if p(xs[0]) then 1 else 0) + CountWhere(xs[1..], p)
  }

  /** The rows of `xs` that satisfy `p`, in their original order. */
  function Filter<T>(xs: seq<T>, p: T -> bool): (r: seq<T>)
    ensures |r| == CountWhere(xs, p)
    ensures forall i :: 0 <= i < |r| ==> p(r[i]) && r[i] in xs
    ensures forall x :: x in xs && p(x) ==> x in r
  {
    if |xs| == 0 then [] else (if p(xs[0]) then [xs[0]] else []) + Filter(xs[1..], p)
  }

  /** Every row satisfies `p` exactly when all rows are counted. */
  lemma {:induction false} CountAllIff<T>(xs: seq<T>, p: T -> bool)
    ensures CountWhere(xs, p) == |xs| <==> forall i :: 0 <= i < |xs| ==> p(xs[i])
  {
    if |xs| > 0 {
      CountAllIff(xs[1..], p);
      if CountWhere(xs, p) == |xs| {
        forall i | 0 <= i < |xs| ensures p(xs[i]) {
          if i > 0 { assert xs[i] == xs[1..][i - 1]; }
        }
      }
      if forall i :: 0 <= i < |xs| ==> p(xs[i]) {
        assert forall i :: 0 <= i < |xs[1..]| ==> p(xs[1..][i]) by {
          forall i | 0 <= i < |xs[1..]| ensures p(xs[1..][i]) { assert xs[1..][i] == xs[i + 1]; }
        }
      }
    }
  }

  /** No row is counted exactly when no row satisfies `p`. */
  lemma {:induction false} CountNoneIff<T>(xs: seq<T>, p: T -> bool)
    ensures CountWhere(xs, p) == 0 <==> forall i :: 0 <= i < |xs| ==> !p(xs[i])
  {
    if |xs| > 0 {
      CountNoneIff(xs[1..], p);
      if CountWhere(xs, p) == 0 {
        forall i | 0 <= i < |xs| ensures !p(xs[i]) {
          if i > 0 { assert xs[i] == xs[1..][i - 1]; }
        }
      }
      if forall i :: 0 <= i < |xs| ==> !p(xs[i]) {
        assert forall i :: 0 <= i < |xs[1..]| ==> !p(xs[1..][i]) by {
          forall i | 0 <= i < |xs[1..]| ensures !p(xs[1..][i]) { assert xs[1..][i] == xs[i + 1]; }
        }
      }
    }
  }

  /** A weaker condition counts at least as many rows. */
  lemma {:induction false} CountMonotonic<T>(xs: seq<T>, p: T -> bool, q: T -> bool)
    requires forall x :: p(x) ==> q(x)
    ensures CountWhere(xs, p) <= CountWhere(xs, q)
  {
    if |xs| > 0 {
      CountMonotonic(xs[1..], p, q);
    }
  }

  /** Counting distributes over concatenation of tables. */
  lemma {:induction false} CountConcat<T>(a: seq<T>, b: seq<T>, p: T -> bool)
    ensures CountWhere(a + b, p) == CountWhere(a, p) + CountWhere(b, p)
  {
    if |a| == 0 {
      assert a + b == b;
    } else {
      assert (a + b)[1..] == a[1..] + b;
      CountConcat(a[1..], b, p);
    }
  }

  /** Removing the row at `k` removes its contribution, and nothing else, from a count. */
  lemma {:induction false} CountRemoveAt<T>(b: seq<T>, k: nat, p: T -> bool)
    requires k < |b|
    ensures CountWhere(b, p) == CountWhere(b[..k] + b[k + 1..], p) + (if p(b[k]) then 1 else 0)
  {
    var front, back := b[..k], b[k + 1..];
    var tail := [b[k]] + back;
    assert tail[0] == b[k] && tail[1..] == back;
    assert CountWhere(tail, p) == (if p(b[k]) then 1 else 0) + CountWhere(back, p);
    assert b == front + tail;
    CountConcat(front, tail, p);
    CountConcat(front, back, p);
  }

  /** A count does not depend on the order in which the rows are enumerated. */
  lemma {:induction false} CountPermutation<T>(a: seq<T>, b: seq<T>, p: T -> bool)
    requires multiset(a) == multiset(b)
    ensures CountWhere(a, p) == CountWhere(b, p)
    decreases |a|
  {
    if |a| == 0 {
      assert |b| == |multiset(b)| == 0;
    } else {
      var x := a[0];
      assert x in multiset(b);
      var k :| 0 <= k < |b| && b[k] == x;
      var rest := b[..k] + b[k + 1..];
      assert multiset(a[1..]) == multiset(rest) by {
        assert b == b[..k] + [x] + b[k + 1..];
        assert a == [x] + a[1..];
        assert multiset(b) == multiset(b[..k]) + multiset([x]) + multiset(b[k + 1..]);
        assert multiset(rest) == multiset(b[..k]) + multiset(b[k + 1..]);
        assert multiset(a[1..]) == multiset(a) - multiset([x]);
      }
      CountPermutation(a[1..], rest, p);
      CountRemoveAt(b, k, p);
    }
  }

  /** Filtering preserves the order of the table: it distributes over concatenation. */
  lemma {:induction false} FilterConcat<T>(a: seq<T>, b: seq<T>, p: T -> bool)
    ensures Filter(a + b, p) == Filter(a, p) + Filter(b, p)
  {
    if |a| == 0 {
      assert a + b == b;
    } else {
      assert (a + b)[1..] == a[1..] + b;
      FilterConcat(a[1..], b, p);
    }
  }
}
