/** The periodic metric of the utility header: `toroidal_minus` and the
    per-axis image selection of `toroidal_norm`, on the unit torus [0,1)^d.
    Vectors are sequences of reals; `double` rounding is not modelled. */
module Toroidal {

  /** A point of the unit domain: every coordinate lies in [0,1). */
  ghost predicate InUnitCube(v: seq<real>)
  {
    forall i :: 0 <= i < |v| ==> 0.0 <= v[i] < 1.0
  }

  /** Reference definition of "x modulo 1": x minus the largest integer not above it. */
  function Frac(x: real): (y: real)
    ensures 0.0 <= y < 1.0
    ensures (x - y).Floor as real == x - y
  {
    x - x.Floor as real
  }

  // ---------------------------------------------------------------- toroidal_minus

  /** One component of `toroidal_minus`: start from the raw difference, replace it
      by raw+1 when that lies in [0,1), then by raw-1 when that lies in [0,1). */
  function MinusComponent(a: real, b: real): (r: real)
    ensures -1.0 <= a - b < 0.0 ==> r == a - b + 1.0
    ensures 1.0 <= a - b < 2.0 ==> r == a - b - 1.0
    ensures (a - b < -1.0 || 0.0 <= a - b < 1.0 || 2.0 <= a - b) ==> r == a - b
    ensures 0.0 <= r < 1.0 <==> -1.0 <= a - b < 2.0
  {
    var raw := a - b;
    var first := if 1.0 > raw + 1.0 && 0.0 <= raw + 1.0 then raw + 1.0 else raw;
    if 1.0 > raw - 1.0 && 0.0 <= raw - 1.0 then raw - 1.0 else first
  }

  /** The vector `toroidal_minus(v1, v2)`: one component per component of v1. */
  function Minus(v1: seq<real>, v2: seq<real>): seq<real>
    requires |v1| <= |v2|
  {
    seq(|v1|, i requires 0 <= i < |v1| => MinusComponent(v1[i], v2[i]))
  }

  /** `toroidal_minus`: the loop writes res[i] := raw and then overwrites it when
      one of the two range tests holds. */
  method ToroidalMinus(v1: seq<real>, v2: seq<real>) returns (r: seq<real>)
    requires |v1| <= |v2|
    ensures r == Minus(v1, v2)
  {
    var res := new real[|v1|];
    var i := 0;
    while i < |v1|
      invariant 0 <= i <= |v1|
      invariant forall k :: 0 <= k < i ==> res[k] == MinusComponent(v1[k], v2[k])
    {
      res[i] := v1[i] - v2[i];
      if 1.0 > v1[i] - v2[i] + 1.0 && 0.0 <= v1[i] - v2[i] + 1.0 {
        res[i] := v1[i] - v2[i] + 1.0;
      }
      if 1.0 > v1[i] - v2[i] - 1.0 && 0.0 <= v1[i] - v2[i] - 1.0 {
        res[i] := v1[i] - v2[i] - 1.0;
      }
      i := i + 1;
    }
    r := res[..];
  }

  /** On the unit domain a component of `toroidal_minus` is the difference taken
      modulo 1 (and not the minimum image). */
  lemma MinusComponentIsFrac(a: real, b: real)
    requires 0.0 <= a < 1.0 && 0.0 <= b < 1.0
    ensures MinusComponent(a, b) == Frac(a - b)
  {
  }

  /** For two points of the unit domain, `toroidal_minus` is again a point of the
      unit domain, obtained axis by axis as the difference modulo 1. */
  lemma MinusOnTorus(v1: seq<real>, v2: seq<real>)
    requires |v1| == |v2| && InUnitCube(v1) && InUnitCube(v2)
    ensures |Minus(v1, v2)| == |v1|
    ensures InUnitCube(Minus(v1, v2))
    ensures forall i :: 0 <= i < |v1| ==> Minus(v1, v2)[i] == Frac(v1[i] - v2[i])
  {
  }

  // ---------------------------------------------------------------- toroidal_norm

  /** One component chosen by `toroidal_norm`: start from the raw difference, take
      raw+1 when its square is strictly smaller, then raw-1 when its square is
      strictly smaller than that of the current choice. */
  function NormComponent(a: real, b: real): (r: real)
    ensures r == a - b || r == a - b + 1.0 || r == a - b - 1.0
    ensures r * r <= (a - b) * (a - b)
    ensures r * r <= (a - b + 1.0) * (a - b + 1.0)
    ensures r * r <= (a - b - 1.0) * (a - b - 1.0)
    // strict comparisons: on a tie the earlier candidate is kept
    ensures r == a - b <==>
      (a - b) * (a - b) <= (a - b + 1.0) * (a - b + 1.0) &&
      (a - b) * (a - b) <= (a - b - 1.0) * (a - b - 1.0)
  {
    var raw := a - b;
    var first := if raw * raw > (raw + 1.0) * (raw + 1.0) then raw + 1.0 else raw;
    if first * first > (raw - 1.0) * (raw - 1.0) then raw - 1.0 else first
  }

  /** The vector whose Euclidean norm `toroidal_norm` returns. */
  function NormSelect(v1: seq<real>, v2: seq<real>): seq<real>
    requires |v1| <= |v2|
  {
    seq(|v1|, i requires 0 <= i < |v1| => NormComponent(v1[i], v2[i]))
  }

  /** Sum of squares: the square of the Euclidean norm. */
  function SquaredNorm(s: seq<real>): (n: real)
    ensures n >= 0.0
  {
    if |s| == 0 then 0.0 else s[0] * s[0] + SquaredNorm(s[1..])
  }

  /** The loop of `toroidal_norm`, up to the final `res.norm()`. */
  method ToroidalNormSelect(v1: seq<real>, v2: seq<real>) returns (r: seq<real>)
    requires |v1| <= |v2|
    ensures r == NormSelect(v1, v2)
  {
    var res := new real[|v1|];
    var i := 0;
    while i < |v1|
      invariant 0 <= i <= |v1|
      invariant forall k :: 0 <= k < i ==> res[k] == NormComponent(v1[k], v2[k])
    {
      res[i] := v1[i] - v2[i];
      if res[i] * res[i] > (v1[i] - v2[i] + 1.0) * (v1[i] - v2[i] + 1.0) {
        res[i] := v1[i] - v2[i] + 1.0;
      }
      if res[i] * res[i] > (v1[i] - v2[i] - 1.0) * (v1[i] - v2[i] - 1.0) {
        res[i] := v1[i] - v2[i] - 1.0;
      }
      i := i + 1;
    }
    r := res[..];
  }

  /** Componentwise smaller squares give a smaller sum of squares. */
  lemma {:induction false} SquaredNormMono(x: seq<real>, y: seq<real>)
    requires |x| == |y|
    requires forall i :: 0 <= i < |x| ==> x[i] * x[i] <= y[i] * y[i]
    ensures SquaredNorm(x) <= SquaredNorm(y)
  {
    if |x| > 0 {
      assert x[0] * x[0] <= y[0] * y[0];
      SquaredNormMono(x[1..], y[1..]);
    }
  }

  /** An image of the difference: each axis shifted by -1, 0 or +1 period. */
  ghost predicate IsImage(w: seq<real>, v1: seq<real>, v2: seq<real>)
    requires |v1| <= |v2|
  {
    |w| == |v1| &&
    forall i :: 0 <= i < |w| ==>
      w[i] == v1[i] - v2[i] || w[i] == v1[i] - v2[i] + 1.0 || w[i] == v1[i] - v2[i] - 1.0
  }

  /** Minimum-image property of `toroidal_norm`: the vector it measures is one of
      the images of the difference, and no image has a smaller norm. */
  lemma MinimumImage(v1: seq<real>, v2: seq<real>, w: seq<real>)
    requires |v1| <= |v2| && IsImage(w, v1, v2)
    ensures IsImage(NormSelect(v1, v2), v1, v2)
    ensures SquaredNorm(NormSelect(v1, v2)) <= SquaredNorm(w)
  {
    var s := NormSelect(v1, v2);
    forall i | 0 <= i < |w|
      ensures s[i] * s[i] <= w[i] * w[i]
    {
      assert s[i] == NormComponent(v1[i], v2[i]);
    }
    SquaredNormMono(s, w);
  }

  /** On the unit domain the chosen component lies in [-1/2, 1/2]. */
  lemma NormComponentHalf(a: real, b: real)
    requires 0.0 <= a < 1.0 && 0.0 <= b < 1.0
    ensures -0.5 <= NormComponent(a, b) <= 0.5
  {
  }

  /** The two rules disagree: on the unit domain `toroidal_norm` keeps the
      `toroidal_minus` component when it is below 1/2 (or the raw difference is
      exactly 1/2) and otherwise moves it one period down. */
  lemma NormVersusMinus(a: real, b: real)
    requires 0.0 <= a < 1.0 && 0.0 <= b < 1.0
    ensures NormComponent(a, b) ==
      if MinusComponent(a, b) < 0.5 || a - b == 0.5 then MinusComponent(a, b)
      else MinusComponent(a, b) - 1.0
  {
  }

  /** Worked cases: a raw difference of -0.85 gives 0.15 under both rules; a raw
      difference of 0.7 is kept by `toroidal_minus` but becomes -0.3 under
      `toroidal_norm`. */
  lemma WorkedCases()
    ensures Minus([0.1], [0.95]) == NormSelect([0.1], [0.95]) == [0.15]
    ensures Minus([0.7], [0.0]) == [0.7]
    ensures NormSelect([0.7], [0.0]) == [-0.3]
  {
    assert Minus([0.1], [0.95])[0] == 0.15;
    assert NormSelect([0.1], [0.95])[0] == 0.15;
    assert Minus([0.7], [0.0])[0] == 0.7;
    assert NormSelect([0.7], [0.0])[0] == -0.3;
  }
}
