/**
 * Cycle walking: a permutation `f` of the values below `n` is applied again
 * and again until a value lands in `[lo, hi]`. The source recurses without a
 * bound; here each walk carries `fuel`, the number of retries it may make,
 * and the lemmas show that `n - 1` retries always suffice when the walk can
 * succeed at all, and that an exhausted walk could never have succeeded.
 */
module CycleWalk {

  import opened Wrappers

  /** `f` applied `k` times to `x`. */
  function Iter(f: nat -> nat, k: nat, x: nat): nat
  {
    if k == 0 then x else f(Iter(f, k - 1, x))
  }

  predicate InRange(lo: int, hi: int, v: nat)
  {
    lo <= v <= hi
  }

  /**
   * Apply `f`; accept the image if it is in `[lo, hi]`, otherwise feed it back
   * in, at most `fuel` more times.
   */
  function Walk(f: nat -> nat, lo: int, hi: int, x: nat, fuel: nat): (r: Option<nat>)
    ensures r.Some? ==> InRange(lo, hi, r.value)
    decreases fuel
  {
    var y := f(x);
    if InRange(lo, hi, y) then Some(y)
    else if fuel == 0 then None
    else Walk(f, lo, hi, y, fuel - 1)
  }

  /** A walk that misses the range on its first step is the walk from the image with one retry fewer. */
  lemma WalkRetry(f: nat -> nat, lo: int, hi: int, x: nat, fuel: nat)
    requires fuel > 0 && !InRange(lo, hi, f(x))
    ensures Walk(f, lo, hi, x, fuel) == Walk(f, lo, hi, f(x), fuel - 1)
  {
  }

  /** `f` and `g` are mutually inverse permutations of the values below `n`. */
  ghost predicate Inverse(f: nat -> nat, g: nat -> nat, n: nat)
  {
    forall v: nat :: v < n ==> f(v) < n && g(v) < n && g(f(v)) == v && f(g(v)) == v
  }

  lemma {:induction false} IterAdd(f: nat -> nat, a: nat, b: nat, x: nat)
    ensures Iter(f, a + b, x) == Iter(f, a, Iter(f, b, x))
    decreases a
  {
    if a > 0 {
      IterAdd(f, a - 1, b, x);
    }
  }

  lemma IterFirst(f: nat -> nat, k: nat, x: nat)
    ensures Iter(f, k + 1, x) == Iter(f, k, f(x))
  {
    IterAdd(f, k, 1, x);
  }

  lemma {:induction false} IterBound(f: nat -> nat, g: nat -> nat, n: nat, k: nat, x: nat)
    requires Inverse(f, g, n) && x < n
    ensures Iter(f, k, x) < n
    decreases k
  {
    if k > 0 {
      IterBound(f, g, n, k - 1, x);
    }
  }

  /** `i` steps of the inverse undo the last `i` of `k` steps of `f`. */
  lemma {:induction false} IterCancel(f: nat -> nat, g: nat -> nat, n: nat, i: nat, k: nat, x: nat)
    requires Inverse(f, g, n) && x < n && i <= k
    ensures Iter(g, i, Iter(f, k, x)) == Iter(f, k - i, x)
    decreases i
  {
    if i > 0 {
      IterCancel(f, g, n, i - 1, k, x);
      IterBound(f, g, n, k - i, x);
      assert Iter(f, k - i + 1, x) == f(Iter(f, k - i, x));
    }
  }

  /** Among `n + 1` values all below `n`, two coincide. */
  lemma {:induction false} Pigeonhole(h: nat -> nat, n: nat)
    requires n >= 1
    requires forall i: nat :: i <= n ==> h(i) < n
    ensures exists i: nat, j: nat :: i < j <= n && h(i) == h(j)
    decreases n
  {
    if n == 1 {
      assert h(0) == 0 == h(1);
    } else {
      var v := h(n);
      if exists i: nat :: i < n && h(i) == v {
        var i: nat :| i < n && h(i) == v;
        assert h(i) == h(n);
      } else {
        // Fold the value n - 1 onto v: the first n values then stay below n - 1.
        var h': nat -> nat := (i: nat) => if h(i) == n - 1 then v else h(i);
        forall i: nat | i <= n - 1
          ensures h'(i) < n - 1
        {
          assert h(i) != v;
        }
        Pigeonhole(h', n - 1);
        var i: nat, j: nat :| i < j <= n - 1 && h'(i) == h'(j);
        assert h(i) != v && h(j) != v;
      }
    }
  }

  /** Every value below `n` returns to itself after at most `n` steps of the permutation. */
  lemma Orbit(f: nat -> nat, g: nat -> nat, n: nat, x: nat) returns (p: nat)
    requires Inverse(f, g, n) && x < n
    ensures 1 <= p <= n && Iter(f, p, x) == x
  {
    var h := (i: nat) => Iter(f, i, x);
    forall i: nat | i <= n
      ensures h(i) < n
    {
      IterBound(f, g, n, i, x);
    }
    Pigeonhole(h, n);
    var i: nat, j: nat :| i < j <= n && h(i) == h(j);
    IterCancel(f, g, n, i, j, x);
    IterCancel(f, g, n, i, i, x);
    p := j - i;
  }

  /** A first arrival in `[lo, hi]` exists at or before any arrival. */
  lemma {:induction false} FirstHit(f: nat -> nat, lo: int, hi: int, x: nat, k: nat) returns (first: nat)
    requires k >= 1 && InRange(lo, hi, Iter(f, k, x))
    ensures 1 <= first <= k && InRange(lo, hi, Iter(f, first, x))
    ensures forall j: nat :: 1 <= j < first ==> !InRange(lo, hi, Iter(f, j, x))
    decreases k
  {
    if exists j: nat :: 1 <= j < k && InRange(lo, hi, Iter(f, j, x)) {
      var j: nat :| 1 <= j < k && InRange(lo, hi, Iter(f, j, x));
      first := FirstHit(f, lo, hi, x, j);
    } else {
      first := k;
    }
  }

  /** With enough fuel, the walk returns the first arrival in `[lo, hi]`. */
  lemma {:induction false} WalkFirstHit(f: nat -> nat, lo: int, hi: int, x: nat, fuel: nat, k: nat)
    requires 1 <= k <= fuel + 1 && InRange(lo, hi, Iter(f, k, x))
    requires forall j: nat :: 1 <= j < k ==> !InRange(lo, hi, Iter(f, j, x))
    ensures Walk(f, lo, hi, x, fuel) == Some(Iter(f, k, x))
    decreases k
  {
    assert Iter(f, 1, x) == f(x);
    if k > 1 {
      forall j: nat | 1 <= j < k - 1
        ensures !InRange(lo, hi, Iter(f, j, f(x)))
      {
        IterFirst(f, j, x);
      }
      IterFirst(f, k - 1, x);
      WalkFirstHit(f, lo, hi, f(x), fuel - 1, k - 1);
    }
  }

  /** An exhausted walk saw no value in `[lo, hi]` among its `fuel + 1` steps. */
  lemma {:induction false} WalkNone(f: nat -> nat, lo: int, hi: int, x: nat, fuel: nat)
    requires Walk(f, lo, hi, x, fuel) == None
    ensures forall j: nat :: 1 <= j <= fuel + 1 ==> !InRange(lo, hi, Iter(f, j, x))
    decreases fuel
  {
    assert Iter(f, 1, x) == f(x);
    if fuel > 0 {
      WalkNone(f, lo, hi, f(x), fuel - 1);
      forall j: nat | 2 <= j <= fuel + 1
        ensures !InRange(lo, hi, Iter(f, j, x))
      {
        IterFirst(f, j - 1, x);
      }
    }
  }

  /** A walk started inside `[lo, hi]` comes back into it within `n` steps. */
  lemma WalkReturns(f: nat -> nat, g: nat -> nat, n: nat, lo: int, hi: int, x: nat, fuel: nat) returns (k: nat)
    requires Inverse(f, g, n) && x < n && InRange(lo, hi, x) && fuel + 1 >= n
    ensures 1 <= k <= n && Walk(f, lo, hi, x, fuel) == Some(Iter(f, k, x))
    ensures forall j: nat :: 1 <= j < k ==> !InRange(lo, hi, Iter(f, j, x))
  {
    var p := Orbit(f, g, n, x);
    k := FirstHit(f, lo, hi, x, p);
    WalkFirstHit(f, lo, hi, x, fuel, k);
  }

  /** Walking back with the inverse permutation from where a walk stopped returns to its start. */
  lemma WalkRoundTrip(f: nat -> nat, g: nat -> nat, n: nat, lo: int, hi: int, x: nat, fuel: nat, back: nat)
    requires Inverse(f, g, n) && x < n && InRange(lo, hi, x) && fuel + 1 >= n && back + 1 >= n
    ensures Walk(f, lo, hi, x, fuel).Some?
    ensures Walk(g, lo, hi, Walk(f, lo, hi, x, fuel).value, back) == Some(x)
  {
    var k := WalkReturns(f, g, n, lo, hi, x, fuel);
    var y := Iter(f, k, x);
    forall j: nat | 1 <= j <= k
      ensures Iter(g, j, y) == Iter(f, k - j, x)
    {
      IterCancel(f, g, n, j, k, x);
    }
    WalkFirstHit(g, lo, hi, y, back, k);
  }

  lemma {:induction false} NeverInRange(f: nat -> nat, lo: int, hi: int, x: nat, p: nat, j: nat)
    requires p >= 1 && Iter(f, p, x) == x
    requires forall i: nat :: 1 <= i <= p ==> !InRange(lo, hi, Iter(f, i, x))
    requires j >= 1
    ensures !InRange(lo, hi, Iter(f, j, x))
    decreases j
  {
    if j > p {
      IterAdd(f, j - p, p, x);
      NeverInRange(f, lo, hi, x, p, j - p);
    }
  }

  /**
   * A walk that exhausts `n - 1` retries would never have succeeded: no
   * number of further steps reaches `[lo, hi]`, so the unbounded recursion
   * of the source does not return.
   */
  lemma WalkExhaustedForever(f: nat -> nat, g: nat -> nat, n: nat, lo: int, hi: int, x: nat, fuel: nat)
    requires Inverse(f, g, n) && x < n && fuel + 1 >= n
    requires Walk(f, lo, hi, x, fuel) == None
    ensures forall j: nat :: j >= 1 ==> !InRange(lo, hi, Iter(f, j, x))
  {
    WalkNone(f, lo, hi, x, fuel);
    var p := Orbit(f, g, n, x);
    forall j: nat | j >= 1
      ensures !InRange(lo, hi, Iter(f, j, x))
    {
      NeverInRange(f, lo, hi, x, p, j);
    }
  }

  /** The inverse of a permutation is a permutation, with the roles swapped. */
  lemma InverseSymmetric(f: nat -> nat, g: nat -> nat, n: nat)
    requires Inverse(f, g, n)
    ensures Inverse(g, f, n)
  {
  }
}
