/** Facts of integer arithmetic the other modules share. */
module Arithmetic {

  lemma MulBound(d: int, n: int)
    requires 0 < n
    ensures d >= 1 ==> d * n >= n
    ensures d <= -1 ==> d * n <= -n
  {
    if d >= 1 {
      assert (d - 1) * n >= 0;
    } else if d <= -1 {
      assert (-1 - d) * n >= 0;
    }
  }

  lemma ModUnique(x: int, q: int, r: int, n: int)
    requires 0 < n && 0 <= r < n && x == q * n + r
    ensures x % n == r
  {
    var d := x / n - q;
    assert d * n == r - x % n by {
      assert x == x / n * n + x % n;
      assert (x / n - q) * n == x / n * n - q * n;
    }
    MulBound(d, n);
  }

  /** Reducing the start of a sum first changes nothing. */
  lemma ModShift(x: nat, k: int, n: nat)
    requires 0 < n
    ensures (x % n + k) % n == (x + k) % n
  {
    var y := x % n + k;
    var q := x / n + y / n;
    assert x + k == q * n + y % n by {
      assert x == x / n * n + x % n;
      assert y == y / n * n + y % n;
      assert (x / n + y / n) * n == x / n * n + y / n * n;
    }
    ModUnique(x + k, q, y % n, n);
  }

  lemma ModOnce(x: int, n: nat)
    requires 0 < n && -(n as int) <= x < 2 * n
    ensures x % n == if x < 0 then x + n else if x < n then x else x - n
  {
    if x < 0 {
      ModUnique(x, -1, x + n, n);
    } else if x < n {
      ModUnique(x, 0, x, n);
    } else {
      ModUnique(x, 1, x - n, n);
    }
  }

  /** Less than a full turn is seen by the reduced positions. */
  lemma ReducedGap(base: nat, head: nat, n: nat)
    requires 0 < n && base <= head < base + n
    ensures (head % n - base % n) % n == head - base
    ensures head % n == base % n <==> head == base
  {
    ModShift(base, head - base, n);
    ModOnce(base % n + (head - base), n);
    ModOnce(head % n - base % n, n);
  }

  /** The room left on a ring, one place kept back, seen from a reduced start. */
  lemma ModGap(base: nat, head: nat, n: nat)
    requires 0 < n && base <= head < base + n
    ensures (base % n - head - 1) % n == n - 1 - (head - base)
  {
    var back: int := -1 - (head - base);
    var k: int := base / n;
    assert base == k * n + base % n;
    assert base % n - head - 1 == (-k - 1) * n + (n + back) by {
      assert (-k - 1) * n == -(k * n) - n;
    }
    ModUnique(base % n - head - 1, -k - 1, n + back, n);
  }

  /** Positions less than a full turn apart are different cells. */
  lemma ModDistinct(p: nat, q: nat, n: nat)
    requires 0 < n && p < q < p + n
    ensures p % n != q % n
  {
    ModShift(p, q - p, n);
    ModOnce(p % n + (q - p), n);
  }

  // ----- multiples of eight -----

  lemma EightsAdd(a: nat, b: nat)
    requires b % 8 == 0
    ensures (a + b) % 8 == a % 8
  {
  }

  lemma NextEight(a: nat, b: nat)
    requires a % 8 == 0 && b % 8 == 0 && a < b
    ensures a + 8 <= b
  {
  }

  // ----- powers of two -----

  function Pow2(k: nat): nat {
    if k == 0 then 1 else 2 * Pow2(k - 1)
  }

  lemma DoubleNotByThree(x: nat)
    requires x % 3 != 0
    ensures (2 * x) % 3 != 0
  {
    assert x == 3 * (x / 3) + x % 3;
    if x % 3 == 1 {
      ModUnique(2 * x, 2 * (x / 3), 2, 3);
    } else {
      ModUnique(2 * x, 2 * (x / 3) + 1, 1, 3);
    }
  }

  lemma {:induction false} Pow2NotByThree(k: nat)
    ensures Pow2(k) % 3 != 0
  {
    if k > 0 {
      Pow2NotByThree(k - 1);
      DoubleNotByThree(Pow2(k - 1));
    }
  }

  lemma {:induction false} Pow2Positive(k: nat)
    ensures Pow2(k) >= 1
  {
    if k > 0 {
      Pow2Positive(k - 1);
    }
  }
}
