/** Arithmetic of the open-addressing probe sequence: bit masks, powers of two,
    and the fact that triangular probing modulo 2^n is a permutation of the slots. */
module Probing {

  function Pow2(n: nat): (r: nat)
    ensures r > 0
  {
    if n == 0 then 1 else 2 * Pow2(n - 1)
  }

  /** The C operator `x & y` on unsigned integers, bit by bit. */
  function BitAnd(x: nat, y: nat): (r: nat)
    ensures r <= x && r <= y
  {
    if x == 0 || y == 0 then 0
    else (if x % 2 == 1 && y % 2 == 1 then 1 else 0) + 2 * BitAnd(x / 2, y / 2)
  }

  /** Masking with 2^n - 1 is reduction modulo 2^n. */
  lemma MaskIsMod(x: nat, n: nat)
    ensures BitAnd(x, Pow2(n) - 1) == x % Pow2(n)
  {
    var q := MaskQuotient(x, n);
    ModUnique(x, Pow2(n), q, BitAnd(x, Pow2(n) - 1));
  }

  lemma {:induction false} MaskQuotient(x: nat, n: nat) returns (q: nat)
    ensures BitAnd(x, Pow2(n) - 1) < Pow2(n)
    ensures x == q * Pow2(n) + BitAnd(x, Pow2(n) - 1)
    decreases n
  {
    if n == 0 || x == 0 {
      q := x;
    } else {
      var p := Pow2(n - 1);
      q := MaskQuotient(x / 2, n - 1);
      assert (Pow2(n) - 1) / 2 == p - 1 && (Pow2(n) - 1) % 2 == 1;
      var r := BitAnd(x / 2, p - 1);
      assert BitAnd(x, Pow2(n) - 1) == x % 2 + 2 * r;
      MulAssoc(q, p);
    }
  }

  lemma MulAssoc(q: int, p: int)
    ensures q * (2 * p) == 2 * (q * p)
  {}

  lemma MulAtLeast(d: int, m: int)
    requires d >= 1 && m >= 0
    ensures d * m >= m
  {}

  lemma Distribute(a: int, b: int, m: int)
    ensures (a - b) * m == a * m - b * m
    ensures (a + b) * m == a * m + b * m
  {}

  lemma ModUnique(x: nat, m: nat, q: int, r: nat)
    requires r < m && x == q * m + r
    ensures x % m == r
  {
    var q', r' := x / m, x % m;
    assert x == q' * m + r';
    Distribute(q', q, m);
    Distribute(q, q', m);
    if q' > q {
      MulAtLeast(q' - q, m);
    } else if q' < q {
      MulAtLeast(q - q', m);
    }
  }

  /** Triangular numbers: the total displacement after k probe steps. */
  function Tri(k: nat): nat {
    if k == 0 then 0 else Tri(k - 1) + k
  }

  /** The slot inspected after k steps of the probe loop: step++, index += step,
      index &= mask. */
  function Probe(start: nat, k: nat, mask: nat): (r: nat)
    requires start <= mask
    ensures r <= mask
  {
    if k == 0 then start else BitAnd(Probe(start, k - 1, mask) + k, mask)
  }

  lemma ProbeStep(start: nat, k: nat, mask: nat)
    requires start <= mask
    ensures Probe(start, 0, mask) == start
    ensures Probe(start, k + 1, mask) == BitAnd(Probe(start, k, mask) + (k + 1), mask)
  {}

  /** The k-th probe is start plus the k-th triangular number, up to multiples of 2^n. */
  lemma {:induction false} ProbeIsTriangular(start: nat, k: nat, n: nat) returns (q: nat)
    requires start < Pow2(n)
    ensures start + Tri(k) == q * Pow2(n) + Probe(start, k, Pow2(n) - 1)
  {
    hide Pow2, BitAnd;
    if k == 0 {
      q := 0;
    } else {
      var q0 := ProbeIsTriangular(start, k - 1, n);
      var q1 := MaskQuotient(Probe(start, k - 1, Pow2(n) - 1) + k, n);
      q := q0 + q1;
      Distribute(q0, q1, Pow2(n));
    }
  }

  lemma {:induction false} TwiceTri(k: nat)
    ensures 2 * Tri(k) == k * (k + 1)
  {
    if k > 0 { TwiceTri(k - 1); }
  }

  /** An odd factor contributes nothing to divisibility by a power of two. */
  lemma {:induction false} OddFactor(a: nat, b: nat, n: nat, c: nat) returns (q: nat)
    requires a % 2 == 1 && a * b == c * Pow2(n)
    ensures b == q * Pow2(n)
    decreases n
  {
    if n == 0 {
      q := b;
    } else {
      var p := Pow2(n - 1);
      MulAssoc(c, p);
      var h := EvenFactor(a, b, c * p);
      q := OddFactor(a, h, n - 1, c);
      MulAssoc(q, p);
    }
  }

  lemma EvenFactor(a: nat, b: nat, t: nat) returns (h: nat)
    requires a % 2 == 1 && a * b == 2 * t
    ensures b == 2 * h && a * h == t
  {
    var i := a / 2;
    h := b / 2;
    assert a * b == 2 * (i * b) + b by {
      assert a == 2 * i + 1;
      Distribute(2 * i, 1, b);
      assert (2 * i) * b == 2 * (i * b);
    }
    MulAssoc(a, h);
  }

  lemma NotMultiple(a: nat, b: nat, n: nat, c: int)
    requires a % 2 == 1 && 0 < b < Pow2(n)
    ensures a * b != c * Pow2(n)
  {
    hide Pow2;
    if a * b == c * Pow2(n) {
      MulAtLeast(a, b);
      if c < 0 {
        MulAtLeast(-c, Pow2(n));
        Distribute(0, c, Pow2(n));
      } else {
        var q := OddFactor(a, b, n, c);
        if q > 0 { MulAtLeast(q, Pow2(n)); }
      }
    }
  }

  lemma DistinctSteps(i: nat, j: nat, n: nat, c: int)
    requires i < j < Pow2(n)
    ensures (j - i) * (j + i + 1) != 2 * (c * Pow2(n))
  {
    assert Pow2(n + 1) == 2 * Pow2(n);
    hide Pow2;
    MulAssoc(c, Pow2(n));
    OneFactorOdd(j - i, j + i + 1, j, n + 1, c);
  }

  lemma OneFactorOdd(a: nat, b: nat, h: nat, n: nat, c: int)
    requires a + b == 2 * h + 1 && 0 < a < Pow2(n) && 0 < b < Pow2(n)
    ensures a * b != c * Pow2(n)
  {
    hide Pow2;
    if a % 2 == 1 {
      NotMultiple(a, b, n, c);
    } else {
      NotMultiple(b, a, n, c);
    }
  }

  lemma TriDistinct(i: nat, j: nat, n: nat, q: int, r: int, start: nat, slot: nat)
    requires i < j < Pow2(n)
    requires start + Tri(i) == q * Pow2(n) + slot
    ensures start + Tri(j) != r * Pow2(n) + slot
  {
    hide Pow2, Tri;
    TwiceTri(i);
    TwiceTri(j);
    assert j * (j + 1) - i * (i + 1) == (j - i) * (j + i + 1);
    DistinctSteps(i, j, n, r - q);
    Distribute(r, q, Pow2(n));
  }

  /** The first 2^n probes are pairwise distinct slots. */
  lemma ProbeInjective(start: nat, i: nat, j: nat, n: nat, mask: nat)
    requires mask == Pow2(n) - 1 && start <= mask && i < j <= mask
    ensures Probe(start, i, mask) != Probe(start, j, mask)
  {
    if Probe(start, i, mask) == Probe(start, j, mask) {
      var q := ProbeIsTriangular(start, i, n);
      var r := ProbeIsTriangular(start, j, n);
      TriDistinct(i, j, n, q, r, start, Probe(start, i, mask));
    }
  }

  /** The slots visited by the first k probes. */
  ghost function Visited(start: nat, k: nat, mask: nat): set<nat>
    requires start <= mask
  {
    set j | 0 <= j < k :: Probe(start, j, mask)
  }

  lemma {:induction false} VisitedCount(start: nat, k: nat, n: nat, mask: nat)
    requires mask == Pow2(n) - 1 && start <= mask && k <= mask + 1
    ensures |Visited(start, k, mask)| == k
  {
    hide Pow2, Probe;
    if k > 0 {
      VisitedCount(start, k - 1, n, mask);
      forall j | 0 <= j < k - 1
        ensures Probe(start, j, mask) != Probe(start, k - 1, mask)
      {
        ProbeInjective(start, j, k - 1, n, mask);
      }
      assert Visited(start, k, mask) == Visited(start, k - 1, mask) + {Probe(start, k - 1, mask)};
    }
  }

  ghost function Below(n: nat): (r: set<nat>)
    ensures |r| == n && forall x: nat :: x in r <==> x < n
  {
    if n == 0 then {} else Below(n - 1) + {n - 1}
  }

  lemma SubsetEq<T>(a: set<T>, b: set<T>)
    requires a <= b && |a| == |b|
    ensures a == b
  {
    assert b == a + (b - a);
    assert |b| == |a| + |b - a|;
  }

  lemma SubsetSize<T>(a: set<T>, b: set<T>)
    requires a <= b
    ensures |a| <= |b|
  {
    assert b == a + (b - a);
    assert |b| == |a| + |b - a|;
  }

  /** Triangular probing modulo 2^n reaches every slot within its first 2^n probes. */
  lemma ProbeCovers(start: nat, slot: nat, n: nat, mask: nat)
    requires mask == Pow2(n) - 1 && start <= mask && slot <= mask
    ensures exists k :: 0 <= k <= mask && Probe(start, k, mask) == slot
  {
    var v := Visited(start, mask + 1, mask);
    VisitedCount(start, mask + 1, n, mask);
    assert v <= Below(mask + 1);
    SubsetEq(v, Below(mask + 1));
    assert slot in v;
  }
}
