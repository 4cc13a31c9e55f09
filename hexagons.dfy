// Integer coordinate algebra of the hexagon grid (hexagons.js).
// The grid is an "even-r" offset layout: a hex is a row pair (col, row),
// and every hex also has cube coordinates (x, y, z) with x + y + z == 0.

module Hexagons {
  import opened Utils

  type Row = (int, int)
  type Cube = (int, int, int)

  datatype Error = InvalidCoordinate
  datatype Result<T> = Ok(value: T) | Err(error: Error)

  predicate ZeroSum(c: Cube)
  {
    c.0 + c.1 + c.2 == 0
  }

  // ---------------------------------------------------------------------------
  // Conversions (hexagons.js:239-249)
  // ---------------------------------------------------------------------------

  /** The ceiling of z / 2, which is what the conversions compute as
      `(z + mod(z, 2)) / 2` (see `HalfIsSourceExpression`). */
  function Half(z: int): (h: int)
    ensures 2 * h - 1 <= z <= 2 * h
  {
    (z + 1) / 2
  }

  /** The source divides `z + mod(z, 2)`, which is always even, by 2 with
      exact division; the quotient is `Half(z)`. */
  lemma HalfIsSourceExpression(z: int)
    ensures z + Mod(z, 2) == 2 * Half(z)
  {
    ModIsFloored(z, 2);
  }

  /** The column is x + z / 2 rounded up; the row is z. */
  function CubeToRow(c: Cube): (h: Row)
    ensures h.1 == c.2
    ensures 2 * h.0 - 1 <= 2 * c.0 + c.2 <= 2 * h.0
  {
    (c.0 + Half(c.2), c.2)
  }

  function RowToCube(h: Row): (c: Cube)
    ensures ZeroSum(c)
    ensures c.2 == h.1
  {
    var x := h.0 - Half(h.1);
    var z := h.1;
    (x, -x - z, z)
  }

  /** Every row pair survives the trip through cube coordinates. */
  lemma RowCubeRoundTrip(h: Row)
    ensures CubeToRow(RowToCube(h)) == h
  {
  }

  /** A cube triple survives the trip through row coordinates exactly when it
      is zero-sum (the row pair cannot carry the third coordinate). */
  lemma CubeRowRoundTrip(c: Cube)
    ensures RowToCube(CubeToRow(c)) == c <==> ZeroSum(c)
  {
  }

  lemma RowToCubeInjective(a: Row, b: Row)
    ensures RowToCube(a) == RowToCube(b) <==> a == b
  {
    if RowToCube(a) == RowToCube(b) {
      RowCubeRoundTrip(a);
      RowCubeRoundTrip(b);
    }
  }

  // ---------------------------------------------------------------------------
  // Input dispatch (hexagons.js:119-128)
  // ---------------------------------------------------------------------------

  function RowArray(h: Row): seq<int>
  {
    [h.0, h.1]
  }

  function CubeArray(c: Cube): seq<int>
  {
    [c.0, c.1, c.2]
  }

  /** A two-element array is a row pair and is returned as it is; a
      three-element array is a cube triple and is converted; any other length
      is an error. */
  function ParseInputToRow(s: seq<int>): (r: Result<Row>)
    ensures r.Err? <==> |s| != 2 && |s| != 3
    ensures |s| == 2 ==> r == Ok((s[0], s[1]))
  {
    if |s| == 2 then Ok((s[0], s[1]))
    else if |s| == 3 then Ok(CubeToRow((s[0], s[1], s[2])))
    else Err(InvalidCoordinate)
  }

  /** The mirror image: triples are returned as they are, pairs converted. */
  function ParseInputToCube(s: seq<int>): (r: Result<Cube>)
    ensures r.Err? <==> |s| != 2 && |s| != 3
    ensures |s| == 3 ==> r == Ok((s[0], s[1], s[2]))
  {
    if |s| == 3 then Ok((s[0], s[1], s[2]))
    else if |s| == 2 then Ok(RowToCube((s[0], s[1])))
    else Err(InvalidCoordinate)
  }

  /** Both parsers accept the same inputs and name the same hex: the row form
      is always the conversion of the cube form, and the cube form is the
      conversion of the row form whenever the input is a row pair or a
      zero-sum triple. */
  lemma ParsersAgree(s: seq<int>)
    requires |s| == 2 || |s| == 3
    ensures ParseInputToRow(s).Ok? && ParseInputToCube(s).Ok?
    ensures CubeToRow(ParseInputToCube(s).value) == ParseInputToRow(s).value
    ensures (|s| == 2 || s[0] + s[1] + s[2] == 0) ==>
              RowToCube(ParseInputToRow(s).value) == ParseInputToCube(s).value
  {
    if |s| == 2 {
      RowCubeRoundTrip((s[0], s[1]));
    } else {
      CubeRowRoundTrip((s[0], s[1], s[2]));
    }
  }

  lemma ParseRowArray(h: Row)
    ensures ParseInputToRow(RowArray(h)) == Ok(h)
    ensures ParseInputToRow(CubeArray(RowToCube(h))) == Ok(h)
  {
    RowCubeRoundTrip(h);
  }

  // ---------------------------------------------------------------------------
  // Neighbours (hexagons.js:214-238)
  // ---------------------------------------------------------------------------

  /** The six row-form neighbours, in the order the source lists them:
      west, the two above, east, the two below. */
  function AdjacentRow(h: Row): (ns: seq<Row>)
    ensures |ns| == 6
  {
    Neighbours(h, Mod(h.1 + 1, 2))
  }

  /** The six row neighbours of `h`, west first and then clockwise, where
      `p` is the row parity bit `mod(y + 1, 2)`. */
  function Neighbours(h: Row, p: int): (ns: seq<Row>)
    ensures |ns| == 6
  {
    var (x, y) := h;
    [(x - 1, y), (x + p - 1, y - 1), (x + p, y - 1), (x + 1, y), (x + p, y + 1), (x + p - 1, y + 1)]
  }

  /** Cube-space offsets of the six neighbours, in the source's order. */
  const Directions: seq<Cube> := [(-1, 1, 0), (0, 1, -1), (1, 0, -1), (1, -1, 0), (0, -1, 1), (-1, 0, 1)]

  function CubeAdd(a: Cube, b: Cube): Cube
  {
    (a.0 + b.0, a.1 + b.1, a.2 + b.2)
  }

  /** The cube branch as evidently intended: the six offsets applied in order. */
  function AdjacentCube(c: Cube): (ns: seq<Cube>)
    ensures |ns| == 6
  {
    var (x, y, z) := c;
    [(x - 1, y + 1, z), (x, y + 1, z - 1), (x + 1, y, z - 1), (x + 1, y - 1, z), (x, y - 1, z + 1), (x - 1, y, z + 1)]
  }

  /** The corrected cube branch applies the six offsets in order. */
  lemma AdjacentCubeDirections(c: Cube, k: int)
    requires 0 <= k < 6
    ensures AdjacentCube(c)[k] == CubeAdd(c, Directions[k])
  {
  }

  /** The row branch and the (corrected) cube branch list the same hexes in
      the same order. */
  lemma AdjacentRowMatchesCube(h: Row, k: int)
    requires 0 <= k < 6
    ensures RowToCube(AdjacentRow(h)[k]) == AdjacentCube(RowToCube(h))[k]
  {
    HalfNeighbours(h.1);
    NeighboursMatchCube(h, Mod(h.1 + 1, 2), k);
  }

  /** The geometric core of `AdjacentRowMatchesCube`, for any parity bit
      that shifts `Half` the way the row parity does. */
  lemma NeighboursMatchCube(h: Row, p: int, k: int)
    requires 0 <= k < 6
    requires Half(h.1 - 1) == Half(h.1) - 1 + p && Half(h.1 + 1) == Half(h.1) + p
    ensures RowToCube(Neighbours(h, p)[k]) == AdjacentCube(RowToCube(h))[k]
  {
    var (x, y) := h;
    var half := Half(y);
    var c := RowToCube(h);
    assert c == (x - half, half - x - y, y);
    var ns, cs := Neighbours(h, p), AdjacentCube(c);
    if k == 0 {
      assert ns[0] == (x - 1, y) && cs[0] == (c.0 - 1, c.1 + 1, c.2);
    } else if k == 1 {
      assert ns[1] == (x + p - 1, y - 1) && cs[1] == (c.0, c.1 + 1, c.2 - 1);
    } else if k == 2 {
      assert ns[2] == (x + p, y - 1) && cs[2] == (c.0 + 1, c.1, c.2 - 1);
    } else if k == 3 {
      assert ns[3] == (x + 1, y) && cs[3] == (c.0 + 1, c.1 - 1, c.2);
    } else if k == 4 {
      assert ns[4] == (x + p, y + 1) && cs[4] == (c.0, c.1 - 1, c.2 + 1);
    } else {
      assert ns[5] == (x + p - 1, y + 1) && cs[5] == (c.0 - 1, c.1, c.2 + 1);
    }
  }

  /** Moving one row up or down shifts `Half` by the row parity bit that
      `AdjacentRow` uses. */
  lemma HalfNeighbours(y: int)
    ensures Half(y - 1) == Half(y) - 1 + Mod(y + 1, 2)
    ensures Half(y + 1) == Half(y) + Mod(y + 1, 2)
  {
    ModIsFloored(y + 1, 2);
  }

  /** One element of the cube branch as the source writes it. */
  datatype Entry = Coordinate(c: Cube) | Scalar(n: int) | Undefined

  /** The cube branch AS WRITTEN: the comma after `[x+1,y,z-1]` is missing,
      so the next bracket is read as an index `[x+1,y-1,z]`, whose comma
      expression evaluates to `z`. The third entry is therefore element `z`
      of `[x+1, y, z-1]` (undefined outside 0..2), and the list has five
      entries. */
  function AdjacentCubeAsWritten(c: Cube): (r: seq<Entry>)
    ensures |r| == 5
  {
    var (x, y, z) := c;
    var indexed := [x + 1, y, z - 1];
    var third := if 0 <= z < 3 then Scalar(indexed[z]) else Undefined;
    [Coordinate((x - 1, y + 1, z)), Coordinate((x, y + 1, z - 1)), third,
     Coordinate((x, y - 1, z + 1)), Coordinate((x - 1, y, z + 1))]
  }

  /** The as-written cube branch returns five entries, its third entry is no
      coordinate at all, and the neighbours in directions (1, 0, -1) and
      (1, -1, 0) never appear. */
  lemma AdjacentCubeAsWrittenLosesNeighbours(c: Cube)
    ensures |AdjacentCubeAsWritten(c)| == 5
    ensures !AdjacentCubeAsWritten(c)[2].Coordinate?
    ensures Coordinate(AdjacentCube(c)[2]) !in AdjacentCubeAsWritten(c)
    ensures Coordinate(AdjacentCube(c)[3]) !in AdjacentCubeAsWritten(c)
  {
  }

  /** The origin shows it: the third entry is the number 1 (x + 1), not a hex. */
  lemma AdjacentCubeAsWrittenAtOrigin()
    ensures AdjacentCubeAsWritten((0, 0, 0))[2] == Scalar(1)
    ensures |AdjacentCube((0, 0, 0))| == 6
  {
  }

  /** `adjacent` on an array: six pairs for a pair, six triples for a triple
      (the corrected cube branch), an error otherwise. */
  function Adjacent(s: seq<int>): (r: Result<seq<seq<int>>>)
    ensures r.Err? <==> |s| != 2 && |s| != 3
    ensures r.Ok? ==> |r.value| == 6 && forall k :: 0 <= k < 6 ==> |r.value[k]| == |s|
  {
    if |s| == 2 then
      var ns := AdjacentRow((s[0], s[1]));
      Ok(seq(6, k requires 0 <= k < 6 => RowArray(ns[k])))
    else if |s| == 3 then
      var ns := AdjacentCube((s[0], s[1], s[2]));
      Ok(seq(6, k requires 0 <= k < 6 => CubeArray(ns[k])))
    else Err(InvalidCoordinate)
  }

  /** Asking for the neighbours of a hex in row form or in cube form gives the
      same hexes in the same order. */
  lemma AdjacentFormsAgree(h: Row, k: int)
    requires 0 <= k < 6
    ensures Adjacent(RowArray(h)).Ok? && Adjacent(CubeArray(RowToCube(h))).Ok?
    ensures ParseInputToRow(Adjacent(RowArray(h)).value[k]) == Ok(AdjacentRow(h)[k])
    ensures ParseInputToRow(Adjacent(CubeArray(RowToCube(h))).value[k]) == Ok(AdjacentRow(h)[k])
  {
    AdjacentRowMatchesCube(h, k);
    RowCubeRoundTrip(AdjacentRow(h)[k]);
  }

  // ---------------------------------------------------------------------------
  // Distance (hexagons.js:189-195)
  // ---------------------------------------------------------------------------

  function L1(a: Cube, b: Cube): nat
  {
    Abs(a.0 - b.0) + Abs(a.1 - b.1) + Abs(a.2 - b.2)
  }

  /** Two zero-sum triples are an even L1 distance apart. */
  lemma {:induction false} L1EvenOnZeroSum(a: Cube, b: Cube)
    requires ZeroSum(a) && ZeroSum(b)
    ensures L1(a, b) % 2 == 0
  {
    var d0, d1 := a.0 - b.0, a.1 - b.1;
    var d2 := -d0 - d1;
    assert a.2 - b.2 == d2;
    if d0 >= 0 && d1 >= 0 {
      assert L1(a, b) == 2 * (d0 + d1);
    } else if d0 < 0 && d1 < 0 {
      assert L1(a, b) == 2 * (-d0 - d1);
    } else if d0 >= 0 {
      if d2 >= 0 {
        assert L1(a, b) == 2 * -d1;
      } else {
        assert L1(a, b) == 2 * d0;
      }
    } else {
      if d2 >= 0 {
        assert L1(a, b) == 2 * -d0;
      } else {
        assert L1(a, b) == 2 * d1;
      }
    }
  }

  /** The hex distance between two row pairs, as a whole number of steps. */
  function HexDistance(a: Row, b: Row): (d: nat)
    ensures 2 * d == L1(RowToCube(a), RowToCube(b))
  {
    L1EvenOnZeroSum(RowToCube(a), RowToCube(b));
    L1(RowToCube(a), RowToCube(b)) / 2
  }

  /** `distance`: half the cube-space L1 distance, as a JS number. */
  function Distance(from: seq<int>, to: seq<int>): (r: Result<real>)
    ensures r.Err? <==> ParseInputToCube(from).Err? || ParseInputToCube(to).Err?
    ensures r.Ok? ==> r.value >= 0.0
  {
    match (ParseInputToCube(from), ParseInputToCube(to))
    case (Ok(a), Ok(b)) => Ok(L1(a, b) as real * 0.5)
    case _ => Err(InvalidCoordinate)
  }

  /** On hexes (row pairs, or zero-sum triples) the distance is a whole number. */
  lemma DistanceOnHexes(s: seq<int>, t: seq<int>)
    requires |s| == 2 || (|s| == 3 && s[0] + s[1] + s[2] == 0)
    requires |t| == 2 || (|t| == 3 && t[0] + t[1] + t[2] == 0)
    ensures ParseInputToRow(s).Ok? && ParseInputToRow(t).Ok?
    ensures Distance(s, t) == Ok(HexDistance(ParseInputToRow(s).value, ParseInputToRow(t).value) as real)
  {
    ParsersAgree(s);
    ParsersAgree(t);
  }

  /** A triple that is not zero-sum can sit half a step away. */
  lemma DistanceOffLattice()
    ensures Distance([0, 0, 1], [0, 0, 0]) == Ok(0.5)
  {
  }

  lemma HexDistanceZeroIffEqual(a: Row, b: Row)
    ensures HexDistance(a, b) == 0 <==> a == b
  {
    RowToCubeInjective(a, b);
  }

  lemma HexDistanceSymmetric(a: Row, b: Row)
    ensures HexDistance(a, b) == HexDistance(b, a)
  {
  }

  lemma HexDistanceTriangle(a: Row, b: Row, c: Row)
    ensures HexDistance(a, c) <= HexDistance(a, b) + HexDistance(b, c)
  {
    var ca, cb, cc := RowToCube(a), RowToCube(b), RowToCube(c);
    assert L1(ca, cc) <= L1(ca, cb) + L1(cb, cc);
  }

  /** Every listed neighbour is one step away. */
  lemma AdjacentAtDistanceOne(h: Row, k: int)
    requires 0 <= k < 6
    ensures HexDistance(h, AdjacentRow(h)[k]) == 1
  {
    AdjacentRowMatchesCube(h, k);
    AdjacentCubeDirections(RowToCube(h), k);
  }

  /** A zero-sum cube offset of L1 length 2 is one of the six directions. */
  lemma DirectionOf(d: Cube) returns (k: int)
    requires Abs(d.0) + Abs(d.1) + Abs(d.2) == 2 && d.0 + d.1 + d.2 == 0
    ensures 0 <= k < 6 && Directions[k] == d
  {
    if d.2 == 0 {
      k := if d.0 < 0 then 0 else 3;
    } else if d.1 == 0 {
      k := if d.0 < 0 then 5 else 2;
    } else {
      k := if d.1 > 0 then 1 else 4;
    }
  }

  /** A hex one step away lies in one of the six cube directions. */
  lemma StepDirection(h: Row, n: Row) returns (k: int)
    requires HexDistance(h, n) == 1
    ensures 0 <= k < 6 && RowToCube(n) == CubeAdd(RowToCube(h), Directions[k])
  {
    var c, e := RowToCube(h), RowToCube(n);
    var d := (e.0 - c.0, e.1 - c.1, e.2 - c.2);
    assert Abs(d.0) + Abs(d.1) + Abs(d.2) == 2;
    k := DirectionOf(d);
  }

  /** Conversely, every hex one step away is listed. */
  lemma AtDistanceOneIsAdjacent(h: Row, n: Row)
    requires HexDistance(h, n) == 1
    ensures n in AdjacentRow(h)
  {
    var k := StepDirection(h, n);
    AdjacentRowMatchesCube(h, k);
    AdjacentCubeDirections(RowToCube(h), k);
    RowToCubeInjective(AdjacentRow(h)[k], n);
    assert AdjacentRow(h)[k] == n;
  }

  /** Adjacency is symmetric. */
  lemma AdjacentSymmetric(h: Row, n: Row)
    requires n in AdjacentRow(h)
    ensures h in AdjacentRow(n)
  {
    var k :| 0 <= k < 6 && AdjacentRow(h)[k] == n;
    AdjacentAtDistanceOne(h, k);
    HexDistanceSymmetric(h, n);
    AtDistanceOneIsAdjacent(n, h);
  }

  /** The six neighbours are six different hexes, none of them h itself. */
  lemma AdjacentDistinct(h: Row)
    ensures forall j, k :: 0 <= j < k < 6 ==> AdjacentRow(h)[j] != AdjacentRow(h)[k]
    ensures h !in AdjacentRow(h)
  {
  }

  /** A step to a neighbour changes the distance from any hex by at most one. */
  lemma HexDistanceStep(f: Row, h: Row, n: Row)
    requires n in AdjacentRow(h)
    ensures HexDistance(f, n) <= HexDistance(f, h) + 1
    ensures HexDistance(f, h) <= HexDistance(f, n) + 1
  {
    var k :| 0 <= k < 6 && AdjacentRow(h)[k] == n;
    AdjacentAtDistanceOne(h, k);
    HexDistanceTriangle(f, h, n);
    HexDistanceSymmetric(h, n);
    HexDistanceTriangle(f, n, h);
  }
}
