/** Facts about multiplication, division and remainder by a positive
    number that the solver does not find on its own. */
module Arith {
  /** Multiplying by a positive factor keeps order. */
  lemma MulMono(a: int, b: int, n: int)
    requires n > 0
    ensures a <= b ==> a * n <= b * n
    ensures a < b ==> a * n < b * n
  {
    if a < b {
      var d := b - a;
      assert b * n == a * n + d * n;
      assert d * n >= n;
    }
  }

  /** The floor quotient is the only `m` with `m * b <= a < m * b + b`, and
      the remainder is what is left. */
  lemma FloorUnique(a: int, m: int, b: int)
    requires b > 0 && m * b <= a < m * b + b
    ensures a / b == m && a % b == a - m * b
  {
    var q, r := a / b, a % b;
    assert a == q * b + r && 0 <= r < b;
    MulMono(q + 1, m, b);
    MulMono(m + 1, q, b);
    assert (q + 1) * b == q * b + b && (m + 1) * b == m * b + b;
  }

  /** `a` reduced modulo `m` by repeated subtraction, which keeps proofs
      about counting up free of multiplication. */
  function Wrap(a: nat, m: nat): (r: nat)
    requires m > 0
    ensures r < m
    decreases a
  {
    if a < m then a else Wrap(a - m, m)
  }

  /** Counting up by one wraps from `m - 1` to 0 and otherwise adds one. */
  lemma {:induction false} WrapSucc(a: nat, m: nat)
    requires m > 0
    ensures Wrap(a + 1, m) == if Wrap(a, m) + 1 < m then Wrap(a, m) + 1 else 0
    decreases a
  {
    if a + 1 == m {
      assert Wrap(a + 1, m) == Wrap(0, m);
    } else if a >= m {
      WrapSucc(a - m, m);
      assert a + 1 - m == (a - m) + 1;
    }
  }

  /** Repeated subtraction computes the remainder. */
  lemma {:induction false} WrapIsMod(a: nat, m: nat)
    requires m > 0
    ensures Wrap(a, m) == a % m
    decreases a
  {
    if a < m {
      FloorUnique(a, 0, m);
    } else {
      WrapIsMod(a - m, m);
      var q := (a - m) / m;
      assert a - m == q * m + (a - m) % m;
      assert (q + 1) * m == q * m + m;
      FloorUnique(a, q + 1, m);
    }
  }
}
