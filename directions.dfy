/** The two-dimensional direction policy of `chooseDirectionsND` and the
    function-static generator it draws from.

    The generator is abstracted as a stream: `stream(s, n)` is the n-th value
    that `uniform_real_distribution<double>(0, 1)` yields from an `mt19937`
    constructed with seed `s`. A direction (cos θ, sin θ) is recorded by its
    angle θ; the trigonometry and the final `normalize()` are not modelled. */
module Directions {

  const PI: real := 3.141592653589793238463

  /** A draw of the uniform distribution on [0,1). */
  type Unit = r: real | 0.0 <= r < 1.0 witness 0.0

  /** A value of `directions[k]` in two dimensions. */
  datatype Direction = Polar(theta: real) | Cartesian(x: real, y: real)

  const XAxis: Direction := Cartesian(1.0, 0.0)
  const YAxis: Direction := Cartesian(0.0, 1.0)

  /** Every direction written has unit length: a polar direction by
      cos² + sin² = 1, a Cartesian one by its coordinates. */
  predicate IsUnit(d: Direction)
  {
    d.Polar? || d.x * d.x + d.y * d.y == 1.0
  }

  /** The stratified angle `(k/m + u/m) * 2 * PI` of direction k: k bin
      widths of 2π/m, plus the fraction u of one more. */
  function Theta(k: int, m: int, u: real): (theta: real)
    requires m > 0
    ensures theta == (k as real + u) * (2.0 * PI / m as real)
  {
    (k as real / m as real + u / m as real) * 2.0 * PI
  }

  /** The angular bin of index k out of m: [2πk/m, 2π(k+1)/m). */
  ghost predicate InStratum(theta: real, k: int, m: int)
    requires m > 0
  {
    2.0 * PI * k as real / m as real <= theta < 2.0 * PI * (k + 1) as real / m as real
  }

  /** A jitter in [0,1) puts the angle of direction k in bin k. */
  lemma StratumOfTheta(k: int, m: int, u: Unit)
    requires m > 0
    ensures InStratum(Theta(k, m, u), k, m)
  {
  }

  /** Iteration k of the two-dimensional loop, with the generator at position
      `pos`: the direction written and the position after the draws taken. */
  function Step(stream: (int, nat) -> Unit, seed: int, pos: nat, k: int, m: int): (res: (Direction, nat))
    requires 0 <= k < m
    ensures res.0.Polar? <==> stream(seed, pos) < 0.7
    ensures res.0 == XAxis <==> 0.7 <= stream(seed, pos) < 0.85
    ensures res.0 == YAxis <==> 0.85 <= stream(seed, pos)
    ensures res.0.Polar? ==> res.0.theta == Theta(k, m, stream(seed, pos + 1))
    ensures res.1 == pos + (if res.0.Polar? then 2 else 1)
  {
    var rnd := stream(seed, pos);
    if rnd < 0.7 then
      (Polar(Theta(k, m, stream(seed, pos + 1))), pos + 2)
    else if rnd < 0.85 then
      (XAxis, pos + 1)
    else
      (YAxis, pos + 1)
  }

  /** The number of iterations of a call with count m: none when m is not positive. */
  function Count(m: int): nat
  {
    if m < 0 then 0 else m
  }

  /** The first k iterations of a call with count m, the generator starting at
      position `pos`: the directions written so far and the generator position. */
  function Run(stream: (int, nat) -> Unit, seed: int, pos: nat, k: nat, m: int): (res: (seq<Direction>, nat))
    requires k <= Count(m)
    ensures |res.0| == k
    ensures pos + k <= res.1 <= pos + 2 * k
  {
    if k == 0 then ([], pos)
    else
      var (done, p) := Run(stream, seed, pos, k - 1, m);
      var (d, q) := Step(stream, seed, p, k - 1, m);
      (done + [d], q)
  }

  /** One direction per stratum: every direction written has unit length, and
      direction i, when it is an angle, lies in bin i. */
  lemma {:induction false} RunStratified(stream: (int, nat) -> Unit, seed: int, pos: nat, k: nat, m: int)
    requires k <= Count(m)
    ensures forall i :: 0 <= i < k ==>
      IsUnit(Run(stream, seed, pos, k, m).0[i]) &&
      (Run(stream, seed, pos, k, m).0[i].Polar? ==> InStratum(Run(stream, seed, pos, k, m).0[i].theta, i, m))
  {
    if k > 0 {
      RunStratified(stream, seed, pos, k - 1, m);
      var prev := Run(stream, seed, pos, k - 1, m);
      var last := Step(stream, seed, prev.1, k - 1, m);
      assert Run(stream, seed, pos, k, m).0 == prev.0 + [last.0];
      if last.0.Polar? {
        StratumOfTheta(k - 1, m, stream(seed, prev.1 + 1));
      }
    }
  }

  /** The state `chooseDirectionsND` keeps across calls in its function-static
      generator: whether it has been constructed, with which seed, and how many
      draws have been taken from it. */
  class DirectionChooser {
    const stream: (int, nat) -> Unit
    var constructed: bool
    var engineSeed: int
    var drawn: nat

    ghost predicate Valid()
      reads this
    {
      !constructed ==> drawn == 0
    }

    /** The process before its first call: the generator does not exist yet. */
    constructor (stream: (int, nat) -> Unit)
      ensures Valid()
      ensures this.stream == stream && !constructed && drawn == 0
    {
      this.stream := stream;
      constructed := false;
      engineSeed := 0;
      drawn := 0;
    }

    /** One iteration of the two-dimensional loop: draw `rnd`; below 0.7 draw
        the jitter and return the stratified angle, below 0.85 the first axis,
        otherwise the second axis. */
    method NextDirection(k: int, m: int) returns (d: Direction)
      requires Valid() && constructed && 0 <= k < m
      modifies this`drawn
      ensures Valid()
      ensures (d, drawn) == Step(stream, engineSeed, old(drawn), k, m)
    {
      var rnd := stream(engineSeed, drawn);
      drawn := drawn + 1;
      if rnd < 0.7 {
        var u := stream(engineSeed, drawn);
        drawn := drawn + 1;
        var theta := (k as real / m as real + u / m as real) * 2.0 * PI;
        d := Polar(theta);
      } else if rnd < 0.85 {
        d := Cartesian(1.0, 0.0);
      } else {
        d := Cartesian(0.0, 1.0);
      }
    }

    /** The loop of `chooseDirectionsND` on two-dimensional directions: write
        directions 0 .. m-1 in place from the generator's current position and
        leave the rest of the array alone. */
    method WriteDirections(directions: array<Direction>, m: int)
      requires Valid() && constructed
      requires Count(m) <= directions.Length
      modifies this`drawn, directions
      ensures Valid()
      ensures (directions[..Count(m)], drawn) == Run(stream, engineSeed, old(drawn), Count(m), m)
      ensures directions[Count(m)..] == old(directions[Count(m)..])
    {
      var k := 0;
      while k < m
        invariant 0 <= k <= Count(m)
        invariant Valid()
        invariant (directions[..k], drawn) == Run(stream, engineSeed, old(drawn), k, m)
        invariant forall i :: k <= i < directions.Length ==> directions[i] == old(directions[i])
      {
        var d := NextDirection(k, m);
        directions[k] := d;
        assert directions[..k + 1] == directions[..k] + [d];
        k := k + 1;
      }
      assert directions[k..] == old(directions[k..]);
    }

    /** `chooseDirectionsND` on two-dimensional directions: the static
        generator is constructed with the seed of the first call only; then the
        loop writes directions 0 .. m-1. */
    method ChooseDirections(directions: array<Direction>, m: int, seed: int)
      requires Valid()
      requires 0 < directions.Length && m <= directions.Length
      modifies this, directions
      ensures Valid() && constructed
      ensures engineSeed == if old(constructed) then old(engineSeed) else seed
      // the first call draws from the start of a freshly seeded generator
      ensures !old(constructed) ==> (directions[..Count(m)], drawn) == Run(stream, seed, 0, Count(m), m)
      ensures (directions[..Count(m)], drawn) == Run(stream, engineSeed, old(drawn), Count(m), m)
      ensures directions[Count(m)..] == old(directions[Count(m)..])
    {
      if !constructed {
        constructed := true;
        engineSeed := seed;
      }
      WriteDirections(directions, m);
    }
  }

  /** Two runs with the same history: after a first call with seed s0, a
      second call writes the directions drawn from seed s0 whatever seed it is
      given, so the two runs agree although they pass s1 and s2. */
  method SeedAppliedOnce(stream: (int, nat) -> Unit, m: nat, s0: int, s1: int, s2: int)
    returns (first: seq<Direction>, second: seq<Direction>)
    requires m > 0
    ensures first == second
    ensures first == Run(stream, s0, Run(stream, s0, 0, m, m).1, m, m).0
  {
    var a := new DirectionChooser(stream);
    var b := new DirectionChooser(stream);
    var da := new Direction[m](_ => XAxis);
    var db := new Direction[m](_ => XAxis);
    a.ChooseDirections(da, m, s0);
    b.ChooseDirections(db, m, s0);
    ghost var after := Run(stream, s0, 0, m, m).1;
    a.ChooseDirections(da, m, s1);
    b.ChooseDirections(db, m, s2);
    assert da[..] == Run(stream, s0, after, m, m).0 == db[..];
    first, second := da[..], db[..];
  }
}
