/** Integer arithmetic shared by the index maps: C++'s truncating remainder and
    the facts about Dafny's Euclidean division that the layout proofs rely on. */
module Arith {

  function Abs(a: int): (r: nat)
    ensures r == a || r == -a
  {
    if a < 0 then -a else a
  }

  /** The remainder of C++'s built-in `%` on `int`: the quotient is truncated
      toward zero, so the remainder takes the sign of the dividend. */
  function CRem(a: int, n: int): (r: int)
    requires n != 0
    ensures Abs(r) < Abs(n)
    ensures a >= 0 ==> 0 <= r
    ensures a <= 0 ==> r <= 0
    ensures (a - r) % Abs(n) == 0
  {
    DivMod(Abs(a), Abs(n));
    var m := Abs(a) % Abs(n);
    TruncatedCongruent(a, Abs(n));
    if a < 0 then -m else m
  }

  /** Removing the magnitude's remainder, with the dividend's sign, leaves a
      multiple of the modulus. */
  lemma TruncatedCongruent(a: int, n: int)
    requires n > 0
    ensures (a - (if a < 0 then -(Abs(a) % n) else Abs(a) % n)) % n == 0
  {
    DivMod(Abs(a), n);
    var q := Abs(a) / n;
    if a < 0 {
      assert a + Abs(a) % n == (-q) * n;
      DivModUnique((-q) * n, n, -q, 0);
    } else {
      assert a - Abs(a) % n == q * n;
      DivModUnique(q * n, n, q, 0);
    }
  }

  /** Dafny's `/` and `%` on a non-negative divisor satisfy the division equation. */
  lemma DivMod(x: int, n: int)
    requires n > 0
    ensures x == (x / n) * n + x % n && 0 <= x % n < n
  {
  }

  /** Quotient and remainder are determined by the division equation. */
  lemma {:induction false} DivModUnique(x: int, n: int, q: int, r: int)
    requires n > 0 && 0 <= r < n && x == q * n + r
    ensures x / n == q && x % n == r
  {
    DivMod(x, n);
    var q', r' := x / n, x % n;
    assert (q - q') * n == r' - r;
    if q > q' {
      MulMono(q - q', 1, n);
      assert false;
    } else if q < q' {
      MulMono(q' - q, 1, n);
      assert false;
    }
  }

  lemma Distribute(x: int, y: int, n: int)
    ensures (x + y) * n == x * n + y * n
  {
  }

  lemma MulMono(a: int, b: int, n: int)
    requires a >= b && n >= 0
    ensures a * n >= b * n
  {
  }

  /** For a non-negative dividend C++'s remainder is the Euclidean one. */
  lemma CRemNatural(a: int, n: int)
    requires a >= 0 && n > 0
    ensures CRem(a, n) == a % n
  {
  }

  /** The mixed-radix number with digits a, b, c, where b ranges over nb values
      and c over nc values: the shape of every row-major index of the exporter. */
  function MixedRadix(a: int, b: int, c: int, nb: int, nc: int): int
  {
    (a * nb + b) * nc + c
  }

  /** Digits in range give an index in [0, na * nb * nc). */
  lemma MixedRadixBound(a: int, b: int, c: int, na: int, nb: int, nc: int)
    requires 0 <= a < na && 0 <= b < nb && 0 <= c < nc
    ensures 0 <= MixedRadix(a, b, c, nb, nc) < na * nb * nc
  {
    var t := a * nb + b;
    assert 0 <= t < na * nb by {
      MulMono(a, 0, nb);
      MulMono(na, a + 1, nb);
    }
    MulMono(t, 0, nc);
    MulMono(na * nb, t + 1, nc);
  }

  /** The digits of an index are recovered by division and remainder. */
  lemma {:induction false} MixedRadixDigits(a: int, b: int, c: int, nb: int, nc: int)
    requires 0 <= a && 0 <= b < nb && 0 <= c < nc
    ensures var q := MixedRadix(a, b, c, nb, nc);
      q / nc == a * nb + b && q % nc == c &&
      (q / nc) / nb == a && (q / nc) % nb == b &&
      q / (nb * nc) == a
  {
    var q := MixedRadix(a, b, c, nb, nc);
    DivModUnique(q, nc, a * nb + b, c);
    DivModUnique(a * nb + b, nb, a, b);
    assert 0 <= b * nc + c < nb * nc by {
      MulMono(b, 0, nc);
      MulMono(nb, b + 1, nc);
    }
    calc {
      q;
      (a * nb + b) * nc + c;
      { Distribute(a * nb, b, nc); }
      (a * nb) * nc + b * nc + c;
      { assert (a * nb) * nc == a * (nb * nc); }
      a * (nb * nc) + (b * nc + c);
    }
    DivModUnique(q, nb * nc, a, b * nc + c);
  }

  /** One more digit: a prefix t below n in magnitude, followed by a digit c
      below nc in magnitude, stays below n * nc in magnitude. */
  lemma DigitMagnitude(t: int, c: int, n: int, nc: int)
    requires -n < t < n && -nc < c < nc
    ensures -(n * nc) < t * nc + c < n * nc
  {
    MulMono(n - 1, t, nc);
    MulMono(t, 1 - n, nc);
    Distribute(n, -1, nc);
    Distribute(1, -n, nc);
  }

  /** Digits smaller in magnitude than their radices, signs allowed, give an
      index smaller in magnitude than na * nb * nc. */
  lemma MixedRadixMagnitude(a: int, b: int, c: int, na: int, nb: int, nc: int)
    requires Abs(a) < na && Abs(b) < nb && Abs(c) < nc
    ensures -(na * nb * nc) < MixedRadix(a, b, c, nb, nc) < na * nb * nc
  {
    DigitMagnitude(a, b, na, nb);
    DigitMagnitude(a * nb + b, c, na * nb, nc);
  }

  /** Every index in [0, na * nb * nc) is the mixed-radix number of its digits. */
  lemma {:induction false} MixedRadixOnto(q: int, na: int, nb: int, nc: int)
    requires 0 <= q < na * nb * nc && 0 < nb && 0 < nc
    ensures var a, b, c := q / (nb * nc), (q / nc) % nb, q % nc;
      0 <= a < na && 0 <= b < nb && 0 <= c < nc && MixedRadix(a, b, c, nb, nc) == q
  {
    DivMod(q, nc);
    var t := q / nc;
    DivMod(t, nb);
    var a, b, c := t / nb, t % nb, q % nc;
    assert q == (a * nb + b) * nc + c;
    MulMono(nb, 1, nc);
    assert q >= 0;
    assert t >= 0 by {
      if t < 0 {
        MulMono(-1, t, nc);
        assert false;
      }
    }
    assert a >= 0 by {
      if a < 0 {
        MulMono(-1, a, nb);
        assert false;
      }
    }
    MixedRadixDigits(a, b, c, nb, nc);
    if a >= na {
      MixedRadixBound(0, b, c, 1, nb, nc);
      assert q == a * (nb * nc) + (b * nc + c);
      MulMono(a, na, nb * nc);
      assert false;
    }
  }

  /** Distinct digits in range give distinct indices. */
  lemma MixedRadixInjective(a: int, b: int, c: int, a': int, b': int, c': int, nb: int, nc: int)
    requires 0 <= a && 0 <= b < nb && 0 <= c < nc
    requires 0 <= a' && 0 <= b' < nb && 0 <= c' < nc
    requires MixedRadix(a, b, c, nb, nc) == MixedRadix(a', b', c', nb, nc)
    ensures a == a' && b == b' && c == c'
  {
    MixedRadixDigits(a, b, c, nb, nc);
    MixedRadixDigits(a', b', c', nb, nc);
  }

  /** Adding one period does not change the Euclidean remainder. */
  lemma {:induction false} ModPeriod(x: int, n: int)
    requires n > 0
    ensures (x + n) % n == x % n
  {
    DivMod(x, n);
    DivModUnique(x + n, n, x / n + 1, x % n);
  }

  /** -1 under C++'s `%` by a modulus above 1 stays -1. */
  lemma CRemMinusOne(n: int)
    requires n > 1
    ensures CRem(-1, n) == -1
  {
    DivModUnique(1, n, 0, 1);
  }
}
