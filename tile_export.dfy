/** The table that `export_sampler` writes and the `sample` accessor it emits.

    The exporter streams a C++ initializer for
    `const float tile[nb_frames][tile_size][tile_size * spp * dim]`; here that
    text is represented by the table it denotes, a sequence of frames of rows
    of reals. Opening, formatting and writing the file are not modelled. */
module TileExport {
  import opened Arith

  /** The point emitted for row i, column j, sample k: `(i * tile_size + j) * spp + k`. */
  function PointIndex(i: int, j: int, k: int, tileSize: int, spp: int): int
  {
    MixedRadix(i, j, k, tileSize, spp)
  }

  /** Where component d of sample k of column j sits in a row: `(j * spp + k) * dim + d`. */
  function RowOffset(j: int, k: int, d: int, spp: int, dim: int): int
  {
    MixedRadix(j, k, d, spp, dim)
  }

  /** The dimension the exporter takes from the first point. */
  function Dim(points: seq<seq<real>>): nat
    requires |points| > 0
  {
    |points[0]|
  }

  /** What the exporter needs of its input: a first point to take the dimension
      from, and `tile_size * tile_size * spp` points with that many components. */
  ghost predicate Exportable(points: seq<seq<real>>, tileSize: nat, spp: nat)
  {
    |points| > 0 && tileSize * tileSize * spp <= |points| &&
    forall q :: 0 <= q < tileSize * tileSize * spp ==> Dim(points) <= |points[q]|
  }

  /** The point indices of one frame lie in [0, tile_size² · spp) and are
      pairwise distinct. */
  lemma PointIndexInjective(tileSize: nat, spp: nat)
    ensures forall i, j, k :: 0 <= i < tileSize && 0 <= j < tileSize && 0 <= k < spp ==>
      0 <= PointIndex(i, j, k, tileSize, spp) < tileSize * tileSize * spp
    ensures forall i, j, k, i', j', k' ::
      0 <= i < tileSize && 0 <= j < tileSize && 0 <= k < spp &&
      0 <= i' < tileSize && 0 <= j' < tileSize && 0 <= k' < spp &&
      PointIndex(i, j, k, tileSize, spp) == PointIndex(i', j', k', tileSize, spp) ==>
      i == i' && j == j' && k == k'
  {
    forall i, j, k | 0 <= i < tileSize && 0 <= j < tileSize && 0 <= k < spp
      ensures 0 <= PointIndex(i, j, k, tileSize, spp) < tileSize * tileSize * spp
    {
      MixedRadixBound(i, j, k, tileSize, tileSize, spp);
    }
    forall i, j, k, i', j', k' |
      0 <= i < tileSize && 0 <= j < tileSize && 0 <= k < spp &&
      0 <= i' < tileSize && 0 <= j' < tileSize && 0 <= k' < spp &&
      PointIndex(i, j, k, tileSize, spp) == PointIndex(i', j', k', tileSize, spp)
      ensures i == i' && j == j' && k == k'
    {
      MixedRadixInjective(i, j, k, i', j', k', tileSize, spp);
    }
  }

  /** Every point index of one frame is emitted: each q below
      tile_size² · spp is the index of some row, column and sample. */
  lemma PointIndexOnto(q: int, tileSize: nat, spp: nat)
    requires 0 <= q < tileSize * tileSize * spp
    ensures exists i, j, k :: (0 <= i < tileSize && 0 <= j < tileSize && 0 <= k < spp &&
      PointIndex(i, j, k, tileSize, spp) == q)
  {
    MixedRadixOnto(q, tileSize, tileSize, spp);
    var i, j, k := q / (tileSize * spp), (q / spp) % tileSize, q % spp;
    assert PointIndex(i, j, k, tileSize, spp) == q;
  }

  /** Offset o of row i holds component `o % dim` of sample `(o / dim) % spp`
      of column `o / (spp * dim)`: the row layout read backwards. */
  function Entry(points: seq<seq<real>>, i: nat, o: nat, tileSize: nat, spp: nat): real
    requires Exportable(points, tileSize, spp) && i < tileSize
    requires o < tileSize * spp * Dim(points)
  {
    var dim := Dim(points);
    MixedRadixOnto(o, tileSize, spp, dim);
    var j, k, d := o / (spp * dim), (o / dim) % spp, o % dim;
    MixedRadixBound(i, j, k, tileSize, tileSize, spp);
    points[PointIndex(i, j, k, tileSize, spp)][d]
  }

  /** Row i of every frame of the table. */
  function Row(points: seq<seq<real>>, i: nat, tileSize: nat, spp: nat): seq<real>
    requires Exportable(points, tileSize, spp) && i < tileSize
  {
    seq(tileSize * spp * Dim(points), o requires 0 <= o < tileSize * spp * Dim(points) =>
      Entry(points, i, o, tileSize, spp))
  }

  /** One frame: rows 0 .. tile_size-1. */
  function Frame(points: seq<seq<real>>, tileSize: nat, spp: nat): seq<seq<real>>
    requires Exportable(points, tileSize, spp)
  {
    seq(tileSize, i requires 0 <= i < tileSize => Row(points, i, tileSize, spp))
  }

  /** The whole table: the frame index never enters the point index, so every
      frame is the same. */
  function Tile(points: seq<seq<real>>, tileSize: nat, spp: nat, nbFrames: nat): seq<seq<seq<real>>>
    requires Exportable(points, tileSize, spp)
  {
    seq(nbFrames, f => Frame(points, tileSize, spp))
  }

  /** The row layout: at offset `(j*spp+k)*dim+d`, row i holds component d
      of point `(i*tile_size+j)*spp+k`. */
  lemma RowAt(points: seq<seq<real>>, tileSize: nat, spp: nat, i: nat, j: nat, k: nat, d: nat)
    requires Exportable(points, tileSize, spp)
    requires i < tileSize && j < tileSize && k < spp && d < Dim(points)
    ensures 0 <= RowOffset(j, k, d, spp, Dim(points)) < |Row(points, i, tileSize, spp)|
    ensures 0 <= PointIndex(i, j, k, tileSize, spp) < tileSize * tileSize * spp
    ensures Row(points, i, tileSize, spp)[RowOffset(j, k, d, spp, Dim(points))] ==
            points[PointIndex(i, j, k, tileSize, spp)][d]
  {
    var dim := Dim(points);
    var o := RowOffset(j, k, d, spp, dim);
    MixedRadixBound(j, k, d, tileSize, spp, dim);
    MixedRadixBound(i, j, k, tileSize, tileSize, spp);
    MixedRadixDigits(j, k, d, spp, dim);
    assert Row(points, i, tileSize, spp)[o] == Entry(points, i, o, tileSize, spp);
  }

  /** The layout of the whole table: in every frame, row i, offset
      `(j*spp+k)*dim+d` holds component d of point `(i*tile_size+j)*spp+k`. */
  lemma TileAt(points: seq<seq<real>>, tileSize: nat, spp: nat, nbFrames: nat,
               f: nat, i: nat, j: nat, k: nat, d: nat)
    requires Exportable(points, tileSize, spp)
    requires f < nbFrames && i < tileSize && j < tileSize && k < spp && d < Dim(points)
    ensures |Tile(points, tileSize, spp, nbFrames)| == nbFrames
    ensures |Tile(points, tileSize, spp, nbFrames)[f]| == tileSize
    ensures 0 <= RowOffset(j, k, d, spp, Dim(points)) < |Tile(points, tileSize, spp, nbFrames)[f][i]|
    ensures 0 <= PointIndex(i, j, k, tileSize, spp) < tileSize * tileSize * spp
    ensures Tile(points, tileSize, spp, nbFrames)[f][i][RowOffset(j, k, d, spp, Dim(points))] ==
            points[PointIndex(i, j, k, tileSize, spp)][d]
  {
    RowAt(points, tileSize, spp, i, j, k, d);
  }

  /** The innermost loop of the exporter: the components of sample k of
      column j of row i, appended to the row emitted so far. */
  method EmitSample(points: seq<seq<real>>, i: nat, j: nat, k: nat, tileSize: nat, spp: nat,
                    row: seq<real>) returns (out: seq<real>)
    requires Exportable(points, tileSize, spp) && i < tileSize && j < tileSize && k < spp
    requires |row| == RowOffset(j, k, 0, spp, Dim(points)) <= |Row(points, i, tileSize, spp)|
    requires row == Row(points, i, tileSize, spp)[..|row|]
    ensures |out| == RowOffset(j, k + 1, 0, spp, Dim(points)) <= |Row(points, i, tileSize, spp)|
    ensures out == Row(points, i, tileSize, spp)[..|out|]
  {
    var dim := Dim(points);
    ghost var full := Row(points, i, tileSize, spp);
    out := row;
    var d := 0;
    while d < dim
      invariant 0 <= d <= dim
      invariant |out| == RowOffset(j, k, d, spp, dim) <= |full|
      invariant out == full[..|out|]
    {
      RowAt(points, tileSize, spp, i, j, k, d);
      out := out + [points[PointIndex(i, j, k, tileSize, spp)][d]];
      d := d + 1;
    }
    assert RowOffset(j, k, dim, spp, dim) == RowOffset(j, k + 1, 0, spp, dim);
  }

  /** Row i as the loops of the exporter emit it: column by column, sample by
      sample, component by component. */
  method EmitRow(points: seq<seq<real>>, i: nat, tileSize: nat, spp: nat) returns (row: seq<real>)
    requires Exportable(points, tileSize, spp) && i < tileSize
    ensures row == Row(points, i, tileSize, spp)
  {
    var dim := Dim(points);
    ghost var full := Row(points, i, tileSize, spp);
    row := [];
    var j := 0;
    while j < tileSize
      invariant 0 <= j <= tileSize
      invariant |row| == RowOffset(j, 0, 0, spp, dim) <= |full|
      invariant row == full[..|row|]
    {
      var k := 0;
      while k < spp
        invariant 0 <= k <= spp
        invariant |row| == RowOffset(j, k, 0, spp, dim) <= |full|
        invariant row == full[..|row|]
      {
        row := EmitSample(points, i, j, k, tileSize, spp, row);
        k := k + 1;
      }
      assert RowOffset(j, spp, 0, spp, dim) == RowOffset(j + 1, 0, 0, spp, dim);
      j := j + 1;
    }
    assert RowOffset(tileSize, 0, 0, spp, dim) == |full|;
  }

  /** `export_sampler`: for each frame, for each row, emit the row. */
  method ExportSampler(points: seq<seq<real>>, tileSize: nat, spp: nat, nbFrames: nat)
    returns (tile: seq<seq<seq<real>>>)
    requires Exportable(points, tileSize, spp)
    ensures tile == Tile(points, tileSize, spp, nbFrames)
  {
    tile := [];
    var f := 0;
    while f < nbFrames
      invariant 0 <= f <= nbFrames
      invariant tile == Tile(points, tileSize, spp, nbFrames)[..f]
    {
      var frame: seq<seq<real>> := [];
      var i := 0;
      while i < tileSize
        invariant 0 <= i <= tileSize
        invariant frame == Frame(points, tileSize, spp)[..i]
      {
        var row := EmitRow(points, i, tileSize, spp);
        frame := frame + [row];
        i := i + 1;
      }
      assert frame == Frame(points, tileSize, spp);
      tile := tile + [frame];
      f := f + 1;
    }
  }

  // ---------------------------------------------------------------- the emitted accessor

  /** A table of the exported shape `[nb_frames][tile_size][width]`. */
  ghost predicate IsTable(tile: seq<seq<seq<real>>>, nbFrames: nat, tileSize: nat, width: nat)
  {
    |tile| == nbFrames &&
    forall f :: 0 <= f < nbFrames ==>
      |tile[f]| == tileSize && forall i :: 0 <= i < tileSize ==> |tile[f][i]| == width
  }

  /** The row offset the emitted `sample` computes, with C++'s `%`:
      `(j % tile_size) * spp * dim + (s % spp) * dim + (d % dim)`. Each term
      keeps the sign of its argument, so the offset can fall before the start
      of the row but never past its end. */
  function SampleOffsetAsWritten(j: int, s: int, d: int, tileSize: int, spp: int, dim: int): (o: int)
    requires tileSize > 0 && spp > 0 && dim > 0
    ensures -(tileSize * spp * dim) < o < tileSize * spp * dim
  {
    var a, b, c := CRem(j, tileSize), CRem(s, spp), CRem(d, dim);
    MixedRadixMagnitude(a, b, c, tileSize, spp, dim);
    Distribute(a * spp, b, dim);
    a * spp * dim + b * dim + c
  }

  /** For non-negative arguments the emitted offset stays inside a row. */
  lemma SampleOffsetAsWrittenInRow(j: int, s: int, d: int, tileSize: int, spp: int, dim: int)
    requires tileSize > 0 && spp > 0 && dim > 0
    requires j >= 0 && s >= 0 && d >= 0
    ensures SampleOffsetAsWritten(j, s, d, tileSize, spp, dim) ==
      MixedRadix(j % tileSize, s % spp, d % dim, spp, dim)
    ensures 0 <= SampleOffsetAsWritten(j, s, d, tileSize, spp, dim) < tileSize * spp * dim
  {
    CRemNatural(j, tileSize);
    CRemNatural(s, spp);
    CRemNatural(d, dim);
    var a, b, c := j % tileSize, s % spp, d % dim;
    assert a * spp * dim + b * dim + c == (a * spp + b) * dim + c;
    MixedRadixBound(a, b, c, tileSize, spp, dim);
  }

  /** For non-negative arguments every index the emitted code computes is in range. */
  lemma AsWrittenIndicesInRange(nbFrames: nat, tileSize: nat, spp: nat, dim: nat,
                                f: int, i: int, j: int, s: int, d: int)
    requires nbFrames > 0 && tileSize > 0 && spp > 0 && dim > 0
    requires f >= 0 && i >= 0 && j >= 0 && s >= 0 && d >= 0
    ensures 0 <= CRem(f, nbFrames) < nbFrames && 0 <= CRem(i, tileSize) < tileSize
    ensures 0 <= SampleOffsetAsWritten(j, s, d, tileSize, spp, dim) < tileSize * spp * dim
  {
    SampleOffsetAsWrittenInRow(j, s, d, tileSize, spp, dim);
  }

  /** The emitted accessor as written. It is defined where every index the C++
      code computes lands inside the table; anywhere else the C++ read is out of
      bounds. For non-negative arguments it reads what the reduced accessor reads. */
  function SampleAsWritten(tile: seq<seq<seq<real>>>, nbFrames: nat, tileSize: nat, spp: nat, dim: nat,
                           f: int, i: int, j: int, s: int, d: int): (r: real)
    requires nbFrames > 0 && tileSize > 0 && spp > 0 && dim > 0
    requires IsTable(tile, nbFrames, tileSize, tileSize * spp * dim)
    requires 0 <= CRem(f, nbFrames) && 0 <= CRem(i, tileSize)
    requires 0 <= SampleOffsetAsWritten(j, s, d, tileSize, spp, dim)
    ensures f >= 0 && i >= 0 && j >= 0 && s >= 0 && d >= 0 ==>
      r == Sample(tile, nbFrames, tileSize, spp, dim, f, i, j, s, d)
  {
    var v := tile[CRem(f, nbFrames)][CRem(i, tileSize)][SampleOffsetAsWritten(j, s, d, tileSize, spp, dim)];
    if f >= 0 && i >= 0 && j >= 0 && s >= 0 && d >= 0 then
      SampleOffsetAsWrittenInRow(j, s, d, tileSize, spp, dim);
      CRemNatural(f, nbFrames);
      CRemNatural(i, tileSize);
      v
    else
      v
  }

  /** C++'s `%` keeps the sign of a negative argument: column -1 of a tile
      wider than one column gives the offset -spp*dim, before the start of the
      row, and frame -1 of more than one frame gives the index -1. */
  lemma AsWrittenNegativeIndex(nbFrames: int, tileSize: int, spp: int, dim: int)
    requires nbFrames > 1 && tileSize > 1 && spp > 0 && dim > 0
    ensures SampleOffsetAsWritten(-1, 0, 0, tileSize, spp, dim) == -(spp * dim) < 0
    ensures CRem(-1, nbFrames) == -1
  {
    CRemMinusOne(tileSize);
    CRemMinusOne(nbFrames);
    assert CRem(0, spp) == 0 && CRem(0, dim) == 0;
    assert (-1) * spp * dim == -(spp * dim);
    MulMono(spp, 1, dim);
  }

  /** The accessor with every index reduced into its range: defined for all
      integer arguments, so the tile repeats in every direction. On arguments
      already in range it reads the row-major entry without any wrap-around. */
  function Sample(tile: seq<seq<seq<real>>>, nbFrames: nat, tileSize: nat, spp: nat, dim: nat,
                  f: int, i: int, j: int, s: int, d: int): (r: real)
    requires nbFrames > 0 && tileSize > 0 && spp > 0 && dim > 0
    requires IsTable(tile, nbFrames, tileSize, tileSize * spp * dim)
    ensures 0 <= f < nbFrames && 0 <= i < tileSize && 0 <= j < tileSize && 0 <= s < spp && 0 <= d < dim ==>
      0 <= RowOffset(j, s, d, spp, dim) < tileSize * spp * dim &&
      r == tile[f][i][RowOffset(j, s, d, spp, dim)]
  {
    MixedRadixBound(j % tileSize, s % spp, d % dim, tileSize, spp, dim);
    var v := tile[f % nbFrames][i % tileSize][MixedRadix(j % tileSize, s % spp, d % dim, spp, dim)];
    if 0 <= f < nbFrames && 0 <= i < tileSize && 0 <= j < tileSize && 0 <= s < spp && 0 <= d < dim then
      DivModUnique(f, nbFrames, 0, f);
      DivModUnique(i, tileSize, 0, i);
      DivModUnique(j, tileSize, 0, j);
      DivModUnique(s, spp, 0, s);
      DivModUnique(d, dim, 0, d);
      v
    else
      v
  }

  /** Periodicity: shifting any argument by its extent gives the same value. */
  lemma SamplePeriodic(tile: seq<seq<seq<real>>>, nbFrames: nat, tileSize: nat, spp: nat, dim: nat,
                       f: int, i: int, j: int, s: int, d: int)
    requires nbFrames > 0 && tileSize > 0 && spp > 0 && dim > 0
    requires IsTable(tile, nbFrames, tileSize, tileSize * spp * dim)
    ensures var v := Sample(tile, nbFrames, tileSize, spp, dim, f, i, j, s, d);
      Sample(tile, nbFrames, tileSize, spp, dim, f + nbFrames, i, j, s, d) == v &&
      Sample(tile, nbFrames, tileSize, spp, dim, f, i + tileSize, j, s, d) == v &&
      Sample(tile, nbFrames, tileSize, spp, dim, f, i, j + tileSize, s, d) == v &&
      Sample(tile, nbFrames, tileSize, spp, dim, f, i, j, s + spp, d) == v &&
      Sample(tile, nbFrames, tileSize, spp, dim, f, i, j, s, d + dim) == v
  {
    ModPeriod(f, nbFrames);
    ModPeriod(i, tileSize);
    ModPeriod(j, tileSize);
    ModPeriod(s, spp);
    ModPeriod(d, dim);
  }

  /** Export then sample: the accessor reads back, for any integer arguments,
      the point of the reduced row, column and sample, in every frame. */
  lemma SampleRoundTrip(points: seq<seq<real>>, tileSize: nat, spp: nat, nbFrames: nat,
                        f: int, i: int, j: int, s: int, d: int)
    requires Exportable(points, tileSize, spp)
    requires nbFrames > 0 && tileSize > 0 && spp > 0 && Dim(points) > 0
    ensures IsTable(Tile(points, tileSize, spp, nbFrames), nbFrames, tileSize, tileSize * spp * Dim(points))
    ensures 0 <= PointIndex(i % tileSize, j % tileSize, s % spp, tileSize, spp) < tileSize * tileSize * spp
    ensures Sample(Tile(points, tileSize, spp, nbFrames), nbFrames, tileSize, spp, Dim(points), f, i, j, s, d) ==
            points[PointIndex(i % tileSize, j % tileSize, s % spp, tileSize, spp)][d % Dim(points)]
  {
    TileAt(points, tileSize, spp, nbFrames, f % nbFrames, i % tileSize, j % tileSize, s % spp, d % Dim(points));
  }

  /** C++'s `%` can also read a wrong entry without leaving the row: with more
      than one column and more than one component, `sample(0, 0, 1, 0, -1)`
      computes the offset `spp*dim - 1` and returns the last component of the
      last sample of column 0, where the periodic reading is the last
      component of the first sample of column 1, a different point. */
  lemma AsWrittenWrongEntry(points: seq<seq<real>>, tileSize: nat, spp: nat, nbFrames: nat)
    requires Exportable(points, tileSize, spp)
    requires nbFrames > 0 && tileSize > 1 && spp > 0 && Dim(points) > 1
    ensures IsTable(Tile(points, tileSize, spp, nbFrames), nbFrames, tileSize, tileSize * spp * Dim(points))
    ensures SampleOffsetAsWritten(1, 0, -1, tileSize, spp, Dim(points)) == spp * Dim(points) - 1
    ensures 0 <= CRem(0, nbFrames) && 0 <= CRem(0, tileSize)
    ensures 0 <= PointIndex(0, 0, spp - 1, tileSize, spp) < PointIndex(0, 1, 0, tileSize, spp) < tileSize * tileSize * spp
    ensures SampleAsWritten(Tile(points, tileSize, spp, nbFrames), nbFrames, tileSize, spp, Dim(points), 0, 0, 1, 0, -1) ==
            points[PointIndex(0, 0, spp - 1, tileSize, spp)][Dim(points) - 1]
    ensures Sample(Tile(points, tileSize, spp, nbFrames), nbFrames, tileSize, spp, Dim(points), 0, 0, 1, 0, -1) ==
            points[PointIndex(0, 1, 0, tileSize, spp)][Dim(points) - 1]
  {
    var dim := Dim(points);
    MixedRadixBound(0, 1, 0, tileSize, tileSize, spp);
    assert PointIndex(0, 1, 0, tileSize, spp) == spp;
    CRemMinusOne(dim);
    DivModUnique(1, tileSize, 0, 1);
    CRemNatural(1, tileSize);
    assert CRem(0, spp) == 0;
    assert SampleOffsetAsWritten(1, 0, -1, tileSize, spp, dim) == spp * dim - 1;
    assert RowOffset(0, spp - 1, dim - 1, spp, dim) == spp * dim - 1;
    TileAt(points, tileSize, spp, nbFrames, 0, 0, 0, spp - 1, dim - 1);
    DivModUnique(-1, dim, -1, dim - 1);
    SampleRoundTrip(points, tileSize, spp, nbFrames, 0, 0, 1, 0, -1);
  }
}
