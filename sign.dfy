/** The `sgn` helper of the utility header, instantiated at `real`. */
module Sign {

  /** `(0 < val) - (val < 0)`: each comparison counts as 1 when it holds and 0
      otherwise, so the difference is the sign of `val`. */
  function Sgn(x: real): (s: int)
    ensures s == 1 <==> x > 0.0
    ensures s == 0 <==> x == 0.0
    ensures s == -1 <==> x < 0.0
  {
    (if 0.0 < x then 1 else 0) - (if x < 0.0 then 1 else 0)
  }

  /** Multiplying a value by its sign gives its magnitude, and the sign is odd. */
  lemma SgnMagnitude(x: real)
    ensures Sgn(x) as real * x == (if x < 0.0 then -x else x)
    ensures Sgn(-x) == -Sgn(x)
  {
  }
}
