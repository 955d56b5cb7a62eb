/** Bitwise AND on naturals, and the two facts about it that masked ring indices rest on.
    Remainders are by repeated subtraction, which keeps the proofs free of division by a variable. */
module Bits {

  function And(a: nat, b: nat): (r: nat)
    ensures r <= a && r <= b
  {
    if a == 0 || b == 0 then 0
    else 2 * And(a / 2, b / 2) + (if a % 2 == 1 && b % 2 == 1 then 1 else 0)
  }

  function Pow2(k: nat): (p: nat)
    ensures p > 0
  {
    if k == 0 then 1 else 2 * Pow2(k - 1)
  }

  ghost predicate IsPow2(c: nat)
  {
    exists k: nat :: c == Pow2(k)
  }

  /** x modulo c. */
  function Rem(x: nat, c: nat): (r: nat)
    requires c > 0
    ensures r < c
  {
    if x < c then x else Rem(x - c, c)
  }

  lemma {:induction false} RemIsRemainder(x: nat, c: nat) returns (q: nat)
    requires c > 0
    ensures x == c * q + Rem(x, c)
  {
    if x < c {
      q := 0;
    } else {
      q := RemIsRemainder(x - c, c);
      assert c * (q + 1) == c * q + c;
      q := q + 1;
    }
  }

  /** Numbers less than c apart have different remainders. */
  lemma {:induction false} RemDistinct(a: nat, b: nat, c: nat)
    requires a < b < a + c
    ensures Rem(a, c) != Rem(b, c)
  {
    if a < c {
    } else {
      RemDistinct(a - c, b - c, c);
    }
  }

  /** Going on from a remainder wraps around at most once. */
  lemma {:induction false} RemSteps(n: nat, c: nat, i: nat)
    requires c > 0 && i < c
    ensures Rem(n + i, c) == if Rem(n, c) + i < c then Rem(n, c) + i else Rem(n, c) + i - c
  {
    if n < c {
    } else {
      RemSteps(n - c, c, i);
    }
  }

  lemma {:induction false} RemHalves(x: nat, c: nat)
    requires c > 0
    ensures Rem(x, 2 * c) == 2 * Rem(x / 2, c) + x % 2
  {
    if x < 2 * c {
    } else {
      RemHalves(x - 2 * c, c);
      assert (x - 2 * c) / 2 == x / 2 - c;
    }
  }

  /** A larger power of two vanishes modulo a smaller one. */
  lemma {:induction false} RemOfLarger(x: nat, k: nat, n: nat)
    requires k <= n
    ensures Rem(x + Pow2(n), Pow2(k)) == Rem(x, Pow2(k))
    decreases n
  {
    if k == n {
    } else {
      RemOfLarger(x, k, n - 1);
      RemOfLarger(x + Pow2(n - 1), k, n - 1);
    }
  }

  lemma AndOdd(x: nat, m: nat)
    ensures And(x, 2 * m + 1) == 2 * And(x / 2, m) + x % 2
  {
    assert (2 * m + 1) / 2 == m && (2 * m + 1) % 2 == 1;
  }

  /** Masking with a power of two less one is the remainder. */
  lemma {:induction false} MaskIsRemainder(x: nat, k: nat)
    ensures And(x, Pow2(k) - 1) == Rem(x, Pow2(k))
  {
    if k == 0 {
      assert Rem(x, 1) == 0;
    } else {
      hide And, Rem;
      var c := Pow2(k - 1);
      MaskIsRemainder(x / 2, k - 1);
      RemHalves(x, c);
      AndOdd(x, c - 1);
      assert Pow2(k) - 1 == 2 * (c - 1) + 1;
    }
  }

  /** The usual test for a power of two: no bit is shared with the predecessor. */
  lemma {:induction false} Pow2Test(c: nat)
    requires c > 0
    ensures And(c, c - 1) == 0 <==> IsPow2(c)
  {
    if c == 1 {
      assert c == Pow2(0);
    } else if c % 2 == 0 {
      Pow2Test(c / 2);
      assert (c - 1) / 2 == c / 2 - 1 && (c - 1) % 2 == 1;
      if IsPow2(c / 2) {
        var k: nat :| c / 2 == Pow2(k);
        assert c == Pow2(k + 1);
      }
      if IsPow2(c) {
        var k: nat :| c == Pow2(k);
        assert c / 2 == Pow2(k - 1);
      }
    } else {
      assert (c - 1) / 2 == c / 2;
      AndSelf(c / 2);
      forall k: nat
        ensures c != Pow2(k)
      {
        assert k > 0 ==> Pow2(k) == 2 * Pow2(k - 1);
      }
    }
  }

  lemma {:induction false} AndSelf(a: nat)
    ensures And(a, a) == a
  {
    if a == 0 {
    } else {
      AndSelf(a / 2);
    }
  }

  lemma {:induction false} Pow2Grows(k: nat, n: nat)
    requires k < n
    ensures Pow2(k) < Pow2(n)
  {
    if k == n - 1 {
    } else {
      Pow2Grows(k, n - 1);
    }
  }
}
