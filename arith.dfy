/** Facts about Euclidean division and remainder that the codec's proofs need. */
module Arith {

  /** The remainder and quotient are determined by any decomposition x == q * k + m with 0 <= m < k. */
  lemma DivModUnique(x: int, q: int, m: int, k: int)
    requires k > 0 && 0 <= m < k && x == q * k + m
    ensures x % k == m && x / k == q
  {
    var d := q - x / k;
    assert d * k == x % k - m by {
      assert x == (x / k) * k + x % k;
    }
  }

  /** Euclidean division splits x into a multiple of k and a remainder in [0, k). */
  lemma DivMod(x: int, k: int)
    requires k > 0
    ensures x == (x / k) * k + x % k && 0 <= x % k < k
  {
  }

  /** Dividing by a radix of at least two strictly shrinks a positive number. */
  lemma DivShrinks(v: int, r: int)
    requires v >= 1 && r >= 2
    ensures 0 <= v / r < v
  {
    assert v == (v / r) * r + v % r;
  }

  /** a * b for naturals, by repeated addition of b. The mixed-radix proofs use it in place of
      `*` so that every step they take is linear. */
  function Mul(a: nat, b: nat): nat
    decreases a
  {
    if a == 0 then 0 else b + Mul(a - 1, b)
  }

  lemma {:induction false} MulIsTimes(a: nat, b: nat)
    ensures Mul(a, b) == a * b
    decreases a
  {
    if a > 0 {
      MulIsTimes(a - 1, b);
      assert a * b == (a - 1) * b + b;
    }
  }

  /** A larger first factor gives a larger product. */
  lemma {:induction false} MulMonotone(a: nat, b: nat, k: nat)
    requires a <= b
    ensures Mul(a, k) <= Mul(b, k)
    decreases b
  {
    if a < b {
      MulMonotone(a, b - 1, k);
    }
  }

  /** x mod k for non-negative x, by repeated subtraction. */
  function Wrap(x: nat, k: nat): (r: nat)
    requires k > 0
    ensures r < k
    decreases x
  {
    if x < k then x else Wrap(x - k, k)
  }

  lemma {:induction false} WrapIsMod(x: nat, k: nat)
    requires k > 0
    ensures Wrap(x, k) == x % k
    decreases x
  {
    if x < k {
      DivModUnique(x, 0, x, k);
    } else {
      WrapIsMod(x - k, k);
      DivMod(x - k, k);
      DivModUnique(x, (x - k) / k + 1, (x - k) % k, k);
    }
  }

  /** One step forward in a cycle of length k. */
  lemma {:induction false} WrapSucc(j: nat, k: nat)
    requires k > 0
    ensures Wrap(j + 1, k) == if Wrap(j, k) == k - 1 then 0 else Wrap(j, k) + 1
    decreases j
  {
    if j >= k {
      WrapSucc(j - k, k);
      assert Wrap(j + 1, k) == Wrap(j + 1 - k, k);
    }
  }

  /** Reducing one summand first does not change the sum modulo k. */
  lemma {:induction false} WrapAddWrap(a: nat, b: nat, k: nat)
    requires k > 0
    ensures Wrap(a + Wrap(b, k), k) == Wrap(a + b, k)
    decreases b
  {
    if b >= k {
      WrapAddWrap(a, b - k, k);
    }
  }

  /** x div k for non-negative x, by repeated subtraction. */
  function Quot(x: nat, k: nat): nat
    requires k > 0
    decreases x
  {
    if x < k then 0 else 1 + Quot(x - k, k)
  }

  /** Quot and Wrap split x into a multiple of k and a remainder. */
  lemma {:induction false} QuotWrap(x: nat, k: nat)
    requires k > 0
    ensures x == Mul(Quot(x, k), k) + Wrap(x, k)
    decreases x
  {
    if x >= k {
      QuotWrap(x - k, k);
    }
  }

  /** Quot and Wrap are Euclidean / and %. */
  lemma QuotWrapIsDivMod(x: nat, k: nat)
    requires k > 0
    ensures Quot(x, k) == x / k && Wrap(x, k) == x % k
  {
    QuotWrap(x, k);
    MulIsTimes(Quot(x, k), k);
    DivModUnique(x, Quot(x, k), Wrap(x, k), k);
  }

  /** Dividing by a radix of at least two strictly shrinks a positive number. */
  lemma {:induction false} QuotShrinks(x: nat, k: nat)
    requires x >= 1 && k >= 2
    ensures Quot(x, k) < x
    decreases x
  {
    if x >= k && x - k >= 1 {
      QuotShrinks(x - k, k);
    }
  }

  /** Any split of x into q multiples of k and a remainder below k is the one Quot and Wrap give. */
  lemma {:induction false} QuotWrapUnique(x: nat, q: nat, m: nat, k: nat)
    requires k > 0 && m < k && x == Mul(q, k) + m
    ensures Quot(x, k) == q && Wrap(x, k) == m
    decreases q
  {
    if q > 0 {
      QuotWrapUnique(x - k, q - 1, m, k);
    }
  }
}
