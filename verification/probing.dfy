/**
  The probe sequence of double hashing, `h, h + k, h + 2k, ...` modulo the
  table size, and the fact the open-addressing table relies on: when the
  size is a power of two and the step is odd, the first `size` probes visit
  every slot exactly once, and after that the sequence repeats.
 */
module Probing {
  import opened Arith

  predicate IsPow2(n: nat) {
    n == 1 || (n >= 2 && n % 2 == 0 && IsPow2(n / 2))
  }

  /** Position j of the probe sequence that starts at h with step k in a table of n slots. */
  function ProbeAt(h: nat, k: nat, n: nat, j: nat): (p: nat)
    requires n > 0
    ensures p < n
  {
    (h + j * k) % n
  }

  /** The C loop's update `i = (i + k) % size` moves from one probe position to the next. */
  lemma ProbeStep(h: nat, k: nat, n: nat, j: nat)
    requires n > 0
    ensures (ProbeAt(h, k, n, j) + k) % n == ProbeAt(h, k, n, j + 1)
  {
    ModAdd(h + j * k, k, n);
    assert h + j * k + k == h + (j + 1) * k;
  }

  /** The sequence starts at h itself when h is a slot index. */
  lemma ProbeStart(h: nat, k: nat, n: nat)
    requires h < n
    ensures ProbeAt(h, k, n, 0) == h
  {
  }

  /** After n steps the probe is back where it started: the sequence has period n. */
  lemma ProbePeriodic(h: nat, k: nat, n: nat, j: nat)
    requires n > 0
    ensures ProbeAt(h, k, n, j + n) == ProbeAt(h, k, n, j)
  {
    assert h + (j + n) * k == h + j * k + k * n;
    ShiftMod(h + j * k, k, n);
  }

  /** Every probe index equals one below n. */
  lemma ProbeReduce(h: nat, k: nat, n: nat, j: nat)
    requires n > 0
    ensures ProbeAt(h, k, n, j) == ProbeAt(h, k, n, j % n)
    decreases j
  {
    if j >= n {
      var j' := j - n;
      ProbeReduce(h, k, n, j');
      ProbePeriodic(h, k, n, j');
      assert j' % n == j % n by {
        ShiftMod(j', 1, n);
        assert j' + 1 * n == j;
      }
      assert ProbeAt(h, k, n, j) == ProbeAt(h, k, n, j' % n);
    } else {
      DivModUnique(j, 0, j, n);
    }
  }

  lemma EqualModDiff(a: int, b: int, n: int)
    requires n > 0 && a % n == b % n
    ensures (b - a) % n == 0
  {
    assert a == (a / n) * n + a % n;
    assert b == (b / n) * n + b % n;
    assert b - a == (b / n - a / n) * n;
    DivModUnique(b - a, b / n - a / n, 0, n);
  }

  lemma OddProduct(d: int, k: int)
    requires d % 2 == 1 && k % 2 == 1
    ensures (d * k) % 2 == 1
  {
    var d', k' := d / 2, k / 2;
    assert d == 2 * d' + 1 && k == 2 * k' + 1;
    assert d * k == 2 * (2 * d' * k' + d' + k') + 1;
    DivModUnique(d * k, 2 * d' * k' + d' + k', 1, 2);
  }

  /** An odd factor is invertible modulo a power of two: n | d*k implies n | d. */
  lemma {:induction false} Pow2DividesOddProduct(n: nat, k: int, d: int)
    requires IsPow2(n) && k % 2 == 1
    requires (d * k) % n == 0
    ensures d % n == 0
    decreases n
  {
    if n > 1 {
      var m := n / 2;
      var q := (d * k) / n;
      assert d * k == q * n;
      assert n == 2 * m;
      assert d * k == (q * m) * 2;
      DivModUnique(d * k, q * m, 0, 2);
      if d % 2 == 1 {
        OddProduct(d, k);
      }
      var d' := d / 2;
      assert d == 2 * d';
      assert 2 * (d' * k) == 2 * (q * m) by {
        assert d * k == 2 * (d' * k);
      }
      DivModUnique(d' * k, q, 0, m);
      Pow2DividesOddProduct(m, k, d');
      var p := d' / m;
      assert d' == p * m;
      assert d == p * n;
      DivModUnique(d, p, 0, n);
    }
  }

  lemma MulSub(a: int, b: int, k: int)
    ensures a * k - b * k == (a - b) * k
  {
  }

  /** Distinct probe indices below n reach distinct slots. */
  lemma ProbeInjective(h: nat, k: nat, n: nat, j1: nat, j2: nat)
    requires IsPow2(n) && k % 2 == 1
    requires j1 < j2 < n
    ensures ProbeAt(h, k, n, j1) != ProbeAt(h, k, n, j2)
  {
    if ProbeAt(h, k, n, j1) == ProbeAt(h, k, n, j2) {
      var d := j2 - j1;
      EqualModDiff(h + j1 * k, h + j2 * k, n);
      assert h + j2 * k - (h + j1 * k) == d * k by { MulSub(j2, j1, k); }
      Pow2DividesOddProduct(n, k, d);
      DivModUnique(d, 0, d, n);
    }
  }

  /** The slots reached by the first m probes. */
  function Visited(h: nat, k: nat, n: nat, m: nat): set<nat>
    requires n > 0
  {
    set j | 0 <= j < m :: ProbeAt(h, k, n, j)
  }

  lemma {:induction false} VisitedCard(h: nat, k: nat, n: nat, m: nat)
    requires IsPow2(n) && k % 2 == 1 && m <= n
    ensures |Visited(h, k, n, m)| == m
    decreases m
  {
    if m > 0 {
      VisitedCard(h, k, n, m - 1);
      var p := ProbeAt(h, k, n, m - 1);
      assert Visited(h, k, n, m) == Visited(h, k, n, m - 1) + {p};
      if p in Visited(h, k, n, m - 1) {
        var j :| 0 <= j < m - 1 && ProbeAt(h, k, n, j) == p;
        ProbeInjective(h, k, n, j, m - 1);
      }
    }
  }

  /** A set of slot indices below n has at most n elements. */
  lemma {:induction false} BoundedSetCard(a: set<nat>, n: nat)
    requires forall x :: x in a ==> x < n
    ensures |a| <= n
    decreases n
  {
    if n > 0 {
      BoundedSetCard(a - {n - 1}, n - 1);
    } else {
      assert a == {};
    }
  }

  /**
    Full coverage: with a power-of-two size and an odd step, every slot is
    reached within the first n probes.
   */
  lemma ProbeCovers(h: nat, k: nat, n: nat, s: nat)
    requires IsPow2(n) && k % 2 == 1 && s < n
    ensures exists j :: 0 <= j < n && ProbeAt(h, k, n, j) == s
  {
    var v := Visited(h, k, n, n);
    VisitedCard(h, k, n, n);
    if s !in v {
      BoundedSetCard(v + {s}, n);
    }
  }
}
