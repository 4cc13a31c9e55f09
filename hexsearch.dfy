// The two operations of hexagons.js that fill caller-owned containers: the
// bounding-box scan and the breadth-first path search with its backtrack.

module HexSearch {
  import opened Utils
  import opened Hexagons

  // ---------------------------------------------------------------------------
  // Bounding-box scan (hexagons.js:26-42)
  // ---------------------------------------------------------------------------

  /** A missing test function lets every cell through. */
  predicate Passes(testFn: Option<Row -> bool>, h: Row)
  {
    testFn.None? || testFn.value(h)
  }

  /** The cells of the half-open box [lx, ux) x [ly, uy) that pass the test. */
  ghost function BoxHexes(lx: int, ux: int, ly: int, uy: int, testFn: Option<Row -> bool>): set<Row>
  {
    set i: int, j: int | lx <= i < ux && ly <= j < uy && Passes(testFn, (i, j)) :: (i, j)
  }

  function Span(lo: int, hi: int): nat
  {
    if lo < hi then hi - lo else 0
  }

  lemma BoxAddColumn(lx: int, i: int, ly: int, uy: int, testFn: Option<Row -> bool>)
    requires lx <= i
    ensures BoxHexes(lx, i + 1, ly, uy, testFn) == BoxHexes(lx, i, ly, uy, testFn) + BoxHexes(i, i + 1, ly, uy, testFn)
  {
    forall x, y | lx <= x < i + 1 && ly <= y < uy && Passes(testFn, (x, y))
      ensures (x, y) in BoxHexes(lx, i, ly, uy, testFn) + BoxHexes(i, i + 1, ly, uy, testFn)
    {
      if x < i {
        assert (x, y) in BoxHexes(lx, i, ly, uy, testFn);
      } else {
        assert (x, y) in BoxHexes(i, i + 1, ly, uy, testFn);
      }
    }
  }

  lemma BoxAddCell(i: int, ly: int, j: int, testFn: Option<Row -> bool>)
    requires ly <= j
    ensures BoxHexes(i, i + 1, ly, j + 1, testFn)
         == BoxHexes(i, i + 1, ly, j, testFn) + (if Passes(testFn, (i, j)) then {(i, j)} else {})
  {
    forall y | ly <= y < j + 1 && Passes(testFn, (i, y))
      ensures (i, y) in BoxHexes(i, i + 1, ly, j, testFn) + (if Passes(testFn, (i, j)) then {(i, j)} else {})
    {
      if y < j {
        assert (i, y) in BoxHexes(i, i + 1, ly, j, testFn);
      }
    }
  }

  lemma BoxEmpty(lx: int, ux: int, ly: int, uy: int, testFn: Option<Row -> bool>)
    requires ux <= lx || uy <= ly
    ensures BoxHexes(lx, ux, ly, uy, testFn) == {}
  {
  }

  /** Clears `set2D`, then adds every cell of the box that passes `testFn`,
      column by column; returns the container it was given. */
  method GetHexesFromBoundingBox(set2D: Set2D, upperBoundY: int, upperBoundX: int, lowerBoundY: int, lowerBoundX: int,
                                 testFn: Option<Row -> bool>) returns (r: Set2D)
    requires set2D.Valid()
    modifies set2D
    ensures r == set2D && set2D.Valid()
    ensures set2D.Contents == BoxHexes(lowerBoundX, upperBoundX, lowerBoundY, upperBoundY, testFn)
  {
    set2D.Clear();
    var i := lowerBoundX;
    BoxEmpty(lowerBoundX, i, lowerBoundY, upperBoundY, testFn);
    while i < upperBoundX
      invariant set2D.Valid()
      invariant lowerBoundX <= i && (i <= upperBoundX || i == lowerBoundX)
      invariant set2D.Contents == BoxHexes(lowerBoundX, i, lowerBoundY, upperBoundY, testFn)
      decreases upperBoundX - i
    {
      var j := lowerBoundY;
      BoxEmpty(i, i + 1, lowerBoundY, j, testFn);
      while j < upperBoundY
        invariant set2D.Valid()
        invariant lowerBoundY <= j && (j <= upperBoundY || j == lowerBoundY)
        invariant set2D.Contents == BoxHexes(lowerBoundX, i, lowerBoundY, upperBoundY, testFn)
                                  + BoxHexes(i, i + 1, lowerBoundY, j, testFn)
        decreases upperBoundY - j
      {
        BoxAddCell(i, lowerBoundY, j, testFn);
        if Passes(testFn, (i, j)) {
          var _ := set2D.Add((i, j));
        }
        j := j + 1;
      }
      if j == lowerBoundY {
        BoxEmpty(i, i + 1, lowerBoundY, upperBoundY, testFn);
        BoxEmpty(i, i + 1, lowerBoundY, j, testFn);
      }
      BoxAddColumn(lowerBoundX, i, lowerBoundY, upperBoundY, testFn);
      i := i + 1;
    }
    if i == lowerBoundX {
      BoxEmpty(lowerBoundX, upperBoundX, lowerBoundY, upperBoundY, testFn);
    }
    r := set2D;
  }

  lemma {:induction false} ColumnCount(i: int, ly: int, uy: int)
    ensures |BoxHexes(i, i + 1, ly, uy, None)| == Span(ly, uy)
    decreases uy - ly
  {
    if uy <= ly {
      BoxEmpty(i, i + 1, ly, uy, None);
    } else {
      BoxAddCell(i, ly, uy - 1, None);
      ColumnCount(i, ly, uy - 1);
      assert (i, uy - 1) !in BoxHexes(i, i + 1, ly, uy - 1, None);
    }
  }

  /** Without a test the scan yields exactly width x height cells. */
  lemma {:induction false} BoxHexesCount(lx: int, ux: int, ly: int, uy: int)
    ensures |BoxHexes(lx, ux, ly, uy, None)| == Span(lx, ux) * Span(ly, uy)
    decreases ux - lx
  {
    if ux <= lx {
      BoxEmpty(lx, ux, ly, uy, None);
    } else {
      BoxAddColumn(lx, ux - 1, ly, uy, None);
      BoxHexesCount(lx, ux - 1, ly, uy);
      ColumnCount(ux - 1, ly, uy);
      var left, column := BoxHexes(lx, ux - 1, ly, uy, None), BoxHexes(ux - 1, ux, ly, uy, None);
      assert forall p :: p in left ==> p.0 < ux - 1;
      assert forall p :: p in column ==> p.0 == ux - 1;
      assert left * column == {};
      assert |left + column| == |left| + |column|;
      assert Span(lx, ux) == Span(lx, ux - 1) + 1;
      MulSucc(Span(lx, ux - 1), Span(ly, uy));
    }
  }

  lemma MulSucc(w: nat, h: nat)
    ensures (w + 1) * h == w * h + h
  {
  }

  /** A test only removes cells: the result is the untested box cut down to
      the cells that pass. */
  lemma BoxHexesWithTest(lx: int, ux: int, ly: int, uy: int, test: Row -> bool)
    ensures BoxHexes(lx, ux, ly, uy, Some(test)) <= BoxHexes(lx, ux, ly, uy, None)
    ensures forall p :: p in BoxHexes(lx, ux, ly, uy, None) ==> (p in BoxHexes(lx, ux, ly, uy, Some(test)) <==> test(p))
  {
  }

  // ---------------------------------------------------------------------------
  // Distances as JS numbers (hexagons.js:150-185)
  // ---------------------------------------------------------------------------

  /** A tentative distance in the search: a whole number or Infinity. */
  datatype Extended = Fin(value: int) | Infinity

  /** The value the backtrack writes: `Math.floor` of a stored distance,
      which is NaN when the hex has none. */
  datatype Number = Int(n: int) | NaN

  /** `a - b < 0` for the source's comparators; Infinity - Infinity is NaN,
      which compares as not below. */
  predicate Below(a: Extended, b: Extended)
  {
    match (a, b)
    case (Fin(x), Fin(y)) => x < y
    case (Fin(_), Infinity) => true
    case (Infinity, _) => false
  }

  /** `Map.get` on a distance map, with None for undefined. */
  function Lookup(d: map<Row, int>, h: Row): Option<int>
  {
    if h in d then Some(d[h]) else None
  }

  /** `distances.get(h) || Infinity`: a missing distance and a stored 0 both
      read as Infinity. */
  function OrInfinity(o: Option<int>): (e: Extended)
    ensures e.Infinity? <==> o.None? || o.value == 0
  {
    match o
    case None => Infinity
    case Some(v) => if v == 0 then Infinity else Fin(v)
  }

  /** `Math.min(oldDistance, currentDistance + 1)`, with the jitter taken as 0. */
  function RelaxedDistance(prior: Option<int>, cd: int): (r: int)
    ensures r <= cd + 1
    ensures r == cd + 1 || (prior.Some? && r == prior.value)
    ensures prior.Some? && prior.value != 0 ==> r <= prior.value
  {
    match OrInfinity(prior)
    case Infinity => cd + 1
    case Fin(v) => if v < cd + 1 then v else cd + 1
  }

  /** Relaxing twice through the same hex changes nothing, because the
      relaxed value is never 0 once the current distance is not negative. */
  lemma RelaxIdempotent(prior: Option<int>, cd: int)
    requires cd >= 0
    ensures RelaxedDistance(Some(RelaxedDistance(prior, cd)), cd) == RelaxedDistance(prior, cd)
  {
  }

  /** The start hex is stored with distance 0, which the relaxation reads as
      Infinity: relaxing it would overwrite the 0. */
  lemma RelaxForgetsZero(cd: int)
    ensures RelaxedDistance(Some(0), cd) == cd + 1
  {
  }

  /** `Math.floor` of a whole-number distance, or of undefined. */
  function Floor(o: Option<int>): Number
  {
    match o
    case None => NaN
    case Some(v) => Int(v)
  }

  /** What the backtrack records for a hex, given the final distances. */
  function Recorded(d: map<Row, int>, h: Row): Number
  {
    Floor(Lookup(d, h))
  }

  // ---------------------------------------------------------------------------
  // The backtrack's choice (hexagons.js:154-159)
  // ---------------------------------------------------------------------------

  /** The sort key of a hex in the backtrack's comparator. */
  function KeyOf(d: map<Row, int>, h: Row): Extended
  {
    OrInfinity(Lookup(d, h))
  }

  function KeysOf(d: map<Row, int>, ns: seq<Row>): (ks: seq<Extended>)
    ensures |ks| == |ns|
  {
    seq(|ns|, j requires 0 <= j < |ns| => KeyOf(d, ns[j]))
  }

  /** The sort keys, read through the distance container. */
  function DistanceKeys(ns: seq<Row>, distances: Map2D<int>): (ks: seq<Extended>)
    reads distances
    requires distances.Valid()
    ensures ks == KeysOf(distances.Contents, ns)
  {
    if ns == [] then []
    else [OrInfinity(distances.Get(ns[0]))] + DistanceKeys(ns[1..], distances)
  }

  /** The index of the element a stable sort by these keys puts first: a key
      nothing is below, and strictly below every key in front of it. */
  function FirstMinimalIndex(ks: seq<Extended>): (i: nat)
    requires |ks| > 0
    ensures i < |ks|
    ensures forall j :: 0 <= j < |ks| ==> !Below(ks[j], ks[i])
    ensures forall j :: 0 <= j < i ==> Below(ks[i], ks[j])
  {
    if |ks| == 1 then 0
    else
      var m := 1 + FirstMinimalIndex(ks[1..]);
      if Below(ks[m], ks[0]) then m else 0
  }

  /** The hex the backtrack moves to from h. */
  function BacktrackStep(d: map<Row, int>, h: Row): (n: Row)
    ensures n in AdjacentRow(h)
  {
    var ns := AdjacentRow(h);
    ns[FirstMinimalIndex(KeysOf(d, ns))]
  }

  /** No neighbour of h has a smaller key than the hex the backtrack picks,
      and every neighbour listed before it has a strictly larger key. */
  lemma BacktrackStepIsBest(d: map<Row, int>, h: Row, k: int)
    requires 0 <= k < 6
    ensures !Below(KeyOf(d, AdjacentRow(h)[k]), KeyOf(d, BacktrackStep(d, h)))
  {
    var ks := KeysOf(d, AdjacentRow(h));
    var i := FirstMinimalIndex(ks);
    assert ks[k] == KeyOf(d, AdjacentRow(h)[k]);
    assert ks[i] == KeyOf(d, BacktrackStep(d, h));
  }

  ghost function Elements(s: seq<Row>): set<Row>
  {
    set x | x in s
  }

  lemma {:induction false} ElementsCard(s: seq<Row>)
    ensures |Elements(s)| <= |s|
  {
    if s != [] {
      ElementsCard(s[..|s| - 1]);
      assert Elements(s) == Elements(s[..|s| - 1]) + {s[|s| - 1]} by {
        forall x | x in Elements(s) ensures x in Elements(s[..|s| - 1]) + {s[|s| - 1]} {
          var j :| 0 <= j < |s| && s[j] == x;
          if j < |s| - 1 {
            assert s[..|s| - 1][j] == x;
          }
        }
      }
    }
  }

  /** Hex j of the trail is the backtrack's step from hex j - 1. */
  ghost predicate BacktracksAt(d: map<Row, int>, trail: seq<Row>, j: int)
    requires 1 <= j < |trail|
  {
    trail[j] == BacktrackStep(d, trail[j - 1])
  }

  ghost predicate IsChain(d: map<Row, int>, trail: seq<Row>)
  {
    forall j {:trigger BacktracksAt(d, trail, j)} :: 1 <= j < |trail| ==> BacktracksAt(d, trail, j)
  }

  /** The hexes the backtrack visits: it starts at `to` and takes
      floor(d) - 1 steps (none when d <= 1). */
  ghost predicate IsTrail(d: map<Row, int>, to: Row, cd: int, trail: seq<Row>)
  {
    && |trail| == (if cd <= 1 then 1 else cd)
    && trail[0] == to
    && IsChain(d, trail)
  }

  /** The backtrack's step, read through the distance container. */
  function NextOnTrail(h: Row, distances: Map2D<int>): (n: Row)
    reads distances
    requires distances.Valid()
    ensures n == BacktrackStep(distances.Contents, h)
  {
    var ns := AdjacentRow(h);
    ns[FirstMinimalIndex(DistanceKeys(ns, distances))]
  }

  lemma TrailExtend(d: map<Row, int>, trail: seq<Row>, last: Row, n: Row)
    requires |trail| > 0 && trail[|trail| - 1] == last && IsChain(d, trail)
    requires n == BacktrackStep(d, last)
    ensures IsChain(d, trail + [n])
  {
    forall j | 1 <= j < |trail + [n]| ensures BacktracksAt(d, trail + [n], j) {
      if j < |trail| {
        assert BacktracksAt(d, trail, j);
      }
    }
  }

  /** The map the backtrack writes for a trail: each hex at its recorded
      distance, written in trail order. */
  ghost function TrailMap(d: map<Row, int>, trail: seq<Row>): map<Row, Number>
  {
    if trail == [] then map[]
    else TrailMap(d, trail[..|trail| - 1])[trail[|trail| - 1] := Recorded(d, trail[|trail| - 1])]
  }

  /** The trail map holds exactly the trail's hexes, each at its recorded
      distance. */
  lemma {:induction false} TrailMapMeaning(d: map<Row, int>, trail: seq<Row>)
    ensures TrailMap(d, trail).Keys == Elements(trail)
    ensures forall p :: p in TrailMap(d, trail) ==> TrailMap(d, trail)[p] == Recorded(d, p)
  {
    if trail != [] {
      var front := trail[..|trail| - 1];
      TrailMapMeaning(d, front);
      assert Elements(trail) == Elements(front) + {trail[|trail| - 1]} by {
        assert trail == front + [trail[|trail| - 1]];
        ElementsAppend(front, trail[|trail| - 1]);
      }
    }
  }

  lemma ElementsAppend(s: seq<Row>, x: Row)
    ensures Elements(s + [x]) == Elements(s) + {x}
  {
  }

  /** One step back (hexagons.js:154-160): moves to the best-ranked
      neighbour and records it at its floored distance. */
  method BacktrackOne(map2D: Map2D<Number>, distances: Map2D<int>, current: Row) returns (step: Row)
    requires map2D.Valid() && distances.Valid()
    requires map2D as object != distances as object
    modifies map2D
    ensures map2D.Valid()
    ensures step == BacktrackStep(distances.Contents, current)
    ensures map2D.Contents == old(map2D.Contents)[step := Recorded(distances.Contents, step)]
  {
    step := NextOnTrail(current, distances);
    var _ := map2D.Put(step, Floor(distances.Get(step)));
  }

  /** Writes the found path into `map2D`: `to` at its distance, floor(d) - 1
      hexes chosen one neighbour at a time, and `from` at 0. */
  method Backtrack(map2D: Map2D<Number>, distances: Map2D<int>, from: Row, to: Row, cd: int) returns (ghost trail: seq<Row>)
    requires map2D.Valid() && map2D.Contents == map[] && distances.Valid()
    requires map2D as object != distances as object
    requires Lookup(distances.Contents, to) == Some(cd)
    modifies map2D
    ensures map2D.Valid()
    ensures IsTrail(distances.Contents, to, cd, trail)
    ensures map2D.Contents == TrailMap(distances.Contents, trail)[from := Int(0)]
  {
    ghost var d := distances.Contents;
    var _ := map2D.Put(to, Int(cd));
    var current := to;
    trail := [to];
    assert trail[..0] == [];
    ghost var steps := if cd <= 1 then 1 else cd;
    var k := 1;
    while k < cd
      invariant 1 <= k <= steps
      invariant map2D.Valid() && distances.Valid() && distances.Contents == d
      invariant |trail| == k && trail[0] == to && current == trail[k - 1]
      invariant IsChain(d, trail)
      invariant map2D.Contents == TrailMap(d, trail)
    {
      ghost var before := trail;
      var step := BacktrackOne(map2D, distances, current);
      TrailExtend(d, trail, current, step);
      current := step;
      trail := trail + [current];
      assert trail[..|trail| - 1] == before;
      k := k + 1;
    }
    assert IsTrail(d, to, cd, trail);
    var _ := map2D.Put(from, Int(0));
    assert distances.Contents == d;
  }

  // ---------------------------------------------------------------------------
  // Expansion of one hex (hexagons.js:167-185)
  // ---------------------------------------------------------------------------

  ghost function ForbiddenSet(forbidden: Set2D?): set<Row>
    reads forbidden
  {
    if forbidden == null then {} else forbidden.Contents
  }

  /** The neighbour filter: drops forbidden hexes (when a forbidden set is
      given) and hexes already expanded. */
  function Unblocked(ns: seq<Row>, forbidden: Set2D?, closed: Set2D): (r: seq<Row>)
    reads forbidden, closed
    requires forbidden != null ==> forbidden.Valid()
    requires closed.Valid()
    ensures |r| <= |ns|
    ensures forall x :: x in r <==> x in ns && x !in ForbiddenSet(forbidden) && x !in closed.Contents
  {
    if ns == [] then []
    else
      var blocked := (forbidden != null && forbidden.Has(ns[0])) || closed.Has(ns[0]);
      (if blocked then [] else [ns[0]]) + Unblocked(ns[1..], forbidden, closed)
  }

  /** `queue` with `adjacent` pushed onto it `n` times. */
  function Pushes(queue: seq<Row>, adjacent: seq<Row>, n: nat): seq<Row>
  {
    if n == 0 then queue else Pushes(queue, adjacent, n - 1) + adjacent
  }

  lemma {:induction false} PushesMembers(queue: seq<Row>, adjacent: seq<Row>, n: nat, x: Row)
    ensures x in Pushes(queue, adjacent, n) <==> x in queue || (n > 0 && x in adjacent)
  {
    if n > 0 {
      PushesMembers(queue, adjacent, n - 1, x);
    }
  }

  /** The distances after relaxing each hex of `adjacent` in turn. */
  ghost function RelaxAll(d: map<Row, int>, adjacent: seq<Row>, cd: int): map<Row, int>
  {
    if adjacent == [] then d
    else
      var m := RelaxAll(d, adjacent[..|adjacent| - 1], cd);
      var a := adjacent[|adjacent| - 1];
      m[a := RelaxedDistance(Lookup(m, a), cd)]
  }

  /** How many of those relaxations land below `maxDistance`; each of them
      pushes the whole neighbour list. */
  ghost function PushCount(d: map<Row, int>, adjacent: seq<Row>, cd: int, maxDistance: Extended): nat
  {
    if adjacent == [] then 0
    else
      var front := adjacent[..|adjacent| - 1];
      var a := adjacent[|adjacent| - 1];
      PushCount(d, front, cd, maxDistance)
        + (if Below(Fin(RelaxedDistance(Lookup(RelaxAll(d, front, cd), a), cd)), maxDistance) then 1 else 0)
  }

  /** Relaxing a list touches exactly its hexes; each ends at its relaxed
      distance, however often it occurs in the list. */
  lemma {:induction false} RelaxAllMeaning(d: map<Row, int>, adjacent: seq<Row>, cd: int)
    requires cd >= 0
    ensures RelaxAll(d, adjacent, cd).Keys == d.Keys + Elements(adjacent)
    ensures forall p :: p in d && p !in adjacent ==> RelaxAll(d, adjacent, cd)[p] == d[p]
    ensures forall p :: p in adjacent ==> RelaxAll(d, adjacent, cd)[p] == RelaxedDistance(Lookup(d, p), cd)
  {
    if adjacent != [] {
      var front, a := adjacent[..|adjacent| - 1], adjacent[|adjacent| - 1];
      RelaxAllMeaning(d, front, cd);
      assert adjacent == front + [a];
      ElementsAppend(front, a);
      if a in front {
        RelaxIdempotent(Lookup(d, a), cd);
      }
      forall p | p in adjacent
        ensures RelaxAll(d, adjacent, cd)[p] == RelaxedDistance(Lookup(d, p), cd)
      {
        if p != a {
          assert p in front;
        }
      }
    }
  }

  /** Relaxation takes a minimum, so no recorded distance grows, except the
      start hex's 0 which the relaxation reads as Infinity. */
  lemma RelaxAllNeverIncreases(d: map<Row, int>, adjacent: seq<Row>, cd: int, p: Row)
    requires cd >= 0
    requires p in d && d[p] != 0
    ensures p in RelaxAll(d, adjacent, cd) && RelaxAll(d, adjacent, cd)[p] <= d[p]
  {
    RelaxAllMeaning(d, adjacent, cd);
  }

  /** Without a cut-off every relaxation pushes. */
  lemma {:induction false} PushCountInfinity(d: map<Row, int>, adjacent: seq<Row>, cd: int)
    ensures PushCount(d, adjacent, cd, Infinity) == |adjacent|
  {
    if adjacent != [] {
      PushCountInfinity(d, adjacent[..|adjacent| - 1], cd);
    }
  }

  /** One more relaxation: the folds over `adjacent[..j + 1]` in terms of
      those over `adjacent[..j]`. */
  lemma RelaxUnfold(d: map<Row, int>, adjacent: seq<Row>, j: int, cd: int, maxDistance: Extended)
    requires 0 <= j < |adjacent|
    ensures var m := RelaxAll(d, adjacent[..j], cd);
            var r := RelaxedDistance(Lookup(m, adjacent[j]), cd);
            && RelaxAll(d, adjacent[..j + 1], cd) == m[adjacent[j] := r]
            && PushCount(d, adjacent[..j + 1], cd, maxDistance)
               == PushCount(d, adjacent[..j], cd, maxDistance) + (if Below(Fin(r), maxDistance) then 1 else 0)
  {
    assert adjacent[..j + 1][..j] == adjacent[..j];
  }

  /** One relaxation (hexagons.js:177-179): `a` keeps the smaller of its
      known distance and cd + 1. */
  method RelaxNeighbour(distances: Map2D<int>, a: Row, cd: int) returns (newDistance: int)
    requires distances.Valid()
    modifies distances
    ensures distances.Valid()
    ensures newDistance == RelaxedDistance(Lookup(old(distances.Contents), a), cd)
    ensures distances.Contents == old(distances.Contents)[a := newDistance]
  {
    newDistance := RelaxedDistance(distances.Get(a), cd);
    var _ := distances.Put(a, newDistance);
  }

  /** The body of the relaxation loop for the hex at index `j`. */
  method RelaxStep(distances: Map2D<int>, adjacent: seq<Row>, j: int, cd: int, maxDistance: Extended,
                   ghost queue: seq<Row>, q: seq<Row>, ghost d0: map<Row, int>, ghost pushed: nat)
    returns (q': seq<Row>, ghost pushed': nat)
    requires 0 <= j < |adjacent| && distances.Valid()
    requires distances.Contents == RelaxAll(d0, adjacent[..j], cd)
    requires pushed == PushCount(d0, adjacent[..j], cd, maxDistance)
    requires q == Pushes(queue, adjacent, pushed)
    modifies distances
    ensures distances.Valid()
    ensures distances.Contents == RelaxAll(d0, adjacent[..j + 1], cd)
    ensures pushed' == PushCount(d0, adjacent[..j + 1], cd, maxDistance)
    ensures q' == Pushes(queue, adjacent, pushed')
  {
    RelaxUnfold(d0, adjacent, j, cd, maxDistance);
    var newDistance := RelaxNeighbour(distances, adjacent[j], cd);
    q', pushed' := q, pushed;
    if Below(Fin(newDistance), maxDistance) {
      q', pushed' := q + adjacent, pushed + 1;
    }
  }

  /** Relaxes each neighbour in turn; every relaxation that lands below the
      cut-off pushes the whole neighbour list onto the queue. */
  method Relax(distances: Map2D<int>, adjacent: seq<Row>, cd: int, maxDistance: Extended, queue: seq<Row>) returns (q: seq<Row>)
    requires distances.Valid()
    modifies distances
    ensures distances.Valid()
    ensures distances.Contents == RelaxAll(old(distances.Contents), adjacent, cd)
    ensures q == Pushes(queue, adjacent, PushCount(old(distances.Contents), adjacent, cd, maxDistance))
  {
    ghost var d0 := distances.Contents;
    ghost var pushed: nat := 0;
    q := queue;
    var j := 0;
    while j < |adjacent|
      invariant 0 <= j <= |adjacent|
      invariant distances.Valid()
      invariant distances.Contents == RelaxAll(d0, adjacent[..j], cd)
      invariant pushed == PushCount(d0, adjacent[..j], cd, maxDistance)
      invariant q == Pushes(queue, adjacent, pushed)
    {
      q, pushed := RelaxStep(distances, adjacent, j, cd, maxDistance, queue, q, d0, pushed);
      j := j + 1;
    }
    assert adjacent[..j] == adjacent;
  }

  // ---------------------------------------------------------------------------
  // The search (hexagons.js:129-188)
  // ---------------------------------------------------------------------------

  /** Every forbidden-free neighbour of a hex in `closed` is in `closed`. */
  ghost predicate ClosedUnderSteps(closed: set<Row>, forbidden: set<Row>)
  {
    forall h, k :: h in closed && 0 <= k < 6 ==> AdjacentRow(h)[k] in forbidden || AdjacentRow(h)[k] in closed
  }

  ghost predicate StepsAt(w: seq<Row>, forbidden: set<Row>, j: int)
    requires 1 <= j < |w|
  {
    w[j] in AdjacentRow(w[j - 1]) && w[j] !in forbidden
  }

  /** A walk from `from` through neighbouring hexes, none of them forbidden
      after the first. */
  ghost predicate IsWalk(w: seq<Row>, from: Row, forbidden: set<Row>)
  {
    && |w| > 0
    && w[0] == from
    && forall j {:trigger StepsAt(w, forbidden, j)} :: 1 <= j < |w| ==> StepsAt(w, forbidden, j)
  }

  /** Facts kept by the search loop about the distances and the expanded set. */
  ghost predicate SearchInvariant(from: Row, to: Row, forbidden: set<Row>, d: map<Row, int>, closed: set<Row>)
  {
    && from in d && d[from] == 0
    && (forall p :: p in d ==> d[p] >= HexDistance(from, p))
    && (forall p :: p in d && p != from ==> p !in forbidden)
    && closed <= d.Keys
    && to !in closed
    && Relaxed(from, forbidden, d, closed)
  }

  /** Neighbour n of the expanded hex h was relaxed through h: unless n is
      `from`, forbidden or expanded itself, its distance is at most one more
      than h's. */
  ghost predicate RelaxedAt(from: Row, forbidden: set<Row>, d: map<Row, int>, closed: set<Row>, h: Row, n: Row)
  {
    n == from || n in forbidden || n in closed || (h in d && n in d && d[n] <= d[h] + 1)
  }

  /** Every expansion relaxed all the open neighbours it saw, and no later
      relaxation undid that. */
  ghost predicate Relaxed(from: Row, forbidden: set<Row>, d: map<Row, int>, closed: set<Row>)
  {
    forall h, k :: h in closed && 0 <= k < 6 ==> RelaxedAt(from, forbidden, d, closed, h, AdjacentRow(h)[k])
  }

  /** Expanding `next` relaxes its open neighbours to at most d[next] + 1;
      the distances of expanded hexes do not move, and no other distance
      grows. */
  lemma RelaxedStep(from: Row, forbidden: set<Row>, d: map<Row, int>, closed: set<Row>, next: Row, adjacent: seq<Row>)
    requires Relaxed(from, forbidden, d, closed)
    requires closed <= d.Keys && next in d && d[next] >= 0
    requires forall p :: p in d && p != from ==> d[p] != 0
    requires ExpansionOf(adjacent, next, forbidden, closed + {next})
    ensures Relaxed(from, forbidden, RelaxAll(d, adjacent, d[next]), closed + {next})
  {
    var cd := d[next];
    var d' := RelaxAll(d, adjacent, cd);
    RelaxAllMeaning(d, adjacent, cd);
    forall h, k | h in closed + {next} && 0 <= k < 6
      ensures RelaxedAt(from, forbidden, d', closed + {next}, h, AdjacentRow(h)[k])
    {
      var n := AdjacentRow(h)[k];
      assert h !in adjacent;
      if h == next {
        if n != from && n !in forbidden && n !in closed + {next} {
          assert n in adjacent;
        }
      } else {
        assert RelaxedAt(from, forbidden, d, closed, h, n);
        if n != from && n !in forbidden && n !in closed + {next} && n in adjacent {
          assert d'[n] == RelaxedDistance(Lookup(d, n), cd);
        }
      }
    }
  }

  /** What a finished search leaves behind.
      `reached`: `to` was dequeued; `capped`: the expansion cap stopped it;
      `d` and `closed`: the final distances and expanded hexes;
      `trail`: the hexes the backtrack visited; `out`: the output map. */
  ghost predicate Outcome(from: Row, to: Row, forbidden: set<Row>, maxDistance: Extended, out: map<Row, Number>,
                          reached: bool, capped: bool, d: map<Row, int>, closed: set<Row>, trail: seq<Row>)
  {
    && SearchInvariant(from, to, forbidden, d, closed)
    && (!reached || from != to ==> from in closed)
    && (capped ==> !reached && |closed| == 40001)
    && (reached ==> && to in d
                    && IsTrail(d, to, d[to], trail)
                    && out == TrailMap(d, trail)[from := Int(0)])
    && (!reached ==> out == map[])
    && (!reached && !capped && maxDistance.Infinity? ==> ClosedUnderSteps(closed, forbidden))
  }

  /** Every hex on the queue has a distance. */
  ghost predicate Queued(queue: seq<Row>, d: map<Row, int>)
  {
    forall q :: q in queue ==> q in d
  }

  /** Every neighbour of an expanded hex is forbidden, expanded or waiting
      on the queue. */
  ghost predicate Frontier(closed: set<Row>, forbidden: set<Row>, queue: seq<Row>)
  {
    forall h, k :: h in closed && 0 <= k < 6 ==>
      AdjacentRow(h)[k] in forbidden || AdjacentRow(h)[k] in closed || AdjacentRow(h)[k] in queue
  }

  /** What one expansion hands to the relaxation loop: the neighbours of
      `next` that are neither forbidden nor expanded. */
  ghost predicate ExpansionOf(adjacent: seq<Row>, next: Row, forbidden: set<Row>, closed: set<Row>)
  {
    forall x :: x in adjacent <==> x in AdjacentRow(next) && x !in forbidden && x !in closed
  }

  /** A permutation keeps the members. */
  lemma OrderKeepsMembers(s: seq<Row>, t: seq<Row>)
    requires multiset(t) == multiset(s)
    ensures forall x :: x in t <==> x in s
  {
    forall x ensures x in t <==> x in s {
      assert x in t <==> x in multiset(t);
      assert x in s <==> x in multiset(s);
    }
  }

  /** Marks `next` expanded, relaxes its open neighbours in the order `order`
      gives them, and pushes them as `Relax` does (hexagons.js:166-185). */
  method Expand(distances: Map2D<int>, searchSpace: Set2D, forbidden: Set2D?, next: Row, cd: int,
                maxDistance: Extended, order: seq<Row> -> seq<Row>, queue: seq<Row>)
    returns (q: seq<Row>, ghost adjacent: seq<Row>)
    requires distances.Valid() && searchSpace.Valid()
    requires forbidden != null ==> forbidden.Valid() && forbidden != searchSpace
    requires forall s :: multiset(order(s)) == multiset(s)
    modifies distances, searchSpace
    ensures distances.Valid() && searchSpace.Valid()
    ensures searchSpace.Contents == old(searchSpace.Contents) + {next}
    ensures ExpansionOf(adjacent, next, ForbiddenSet(forbidden), searchSpace.Contents)
    ensures distances.Contents == RelaxAll(old(distances.Contents), adjacent, cd)
    ensures q == Pushes(queue, adjacent, PushCount(old(distances.Contents), adjacent, cd, maxDistance))
  {
    var _ := searchSpace.Add(next);
    var open := Unblocked(AdjacentRow(next), forbidden, searchSpace);
    var ordered := order(open);
    OrderKeepsMembers(open, ordered);
    adjacent := ordered;
    q := Relax(distances, ordered, cd, maxDistance, queue);
  }

  /** One expansion keeps the search invariant. */
  lemma StepPreservesInvariant(from: Row, to: Row, forbidden: set<Row>, d: map<Row, int>, closed: set<Row>,
                               next: Row, adjacent: seq<Row>)
    requires SearchInvariant(from, to, forbidden, d, closed)
    requires next in d && next != to && next !in closed
    requires from in closed + {next}
    requires ExpansionOf(adjacent, next, forbidden, closed + {next})
    ensures SearchInvariant(from, to, forbidden, RelaxAll(d, adjacent, d[next]), closed + {next})
  {
    var cd := d[next];
    var d' := RelaxAll(d, adjacent, cd);
    RelaxAllMeaning(d, adjacent, cd);
    forall p | p in d' ensures d'[p] >= HexDistance(from, p) {
      if p in adjacent {
        HexDistanceStep(from, next, p);
      }
    }
    assert from in d' && d'[from] == 0 by {
      assert from !in adjacent;
    }
    forall p | p in d && p != from ensures d[p] != 0 {
      HexDistanceZeroIffEqual(from, p);
    }
    RelaxedStep(from, forbidden, d, closed, next, adjacent);
  }

  /** An expansion keeps every queued hex distanced. */
  lemma QueuedStep(queue: seq<Row>, d: map<Row, int>, adjacent: seq<Row>, cd: int, n: nat)
    requires Queued(queue, d) && cd >= 0
    ensures Queued(Pushes(queue, adjacent, n), RelaxAll(d, adjacent, cd))
  {
    RelaxAllMeaning(d, adjacent, cd);
    forall x | x in Pushes(queue, adjacent, n) ensures x in RelaxAll(d, adjacent, cd) {
      PushesMembers(queue, adjacent, n, x);
    }
  }

  /** Dropping an already expanded hex from the queue keeps the frontier. */
  lemma FrontierSkip(closed: set<Row>, forbidden: set<Row>, queue: seq<Row>)
    requires queue != [] && queue[0] in closed
    requires Frontier(closed, forbidden, queue)
    ensures Frontier(closed, forbidden, queue[1..])
  {
    forall h, k | h in closed && 0 <= k < 6 && AdjacentRow(h)[k] in queue
      ensures AdjacentRow(h)[k] in closed || AdjacentRow(h)[k] in queue[1..]
    {
      assert queue == [queue[0]] + queue[1..];
    }
  }

  /** Expanding the head of the queue with every neighbour pushed keeps the
      frontier. */
  lemma FrontierExpand(closed: set<Row>, forbidden: set<Row>, queue: seq<Row>, adjacent: seq<Row>)
    requires queue != []
    requires Frontier(closed, forbidden, queue)
    requires ExpansionOf(adjacent, queue[0], forbidden, closed + {queue[0]})
    ensures Frontier(closed + {queue[0]}, forbidden, Pushes(queue[1..], adjacent, |adjacent|))
  {
    var next, q' := queue[0], Pushes(queue[1..], adjacent, |adjacent|);
    forall h, k | h in closed + {next} && 0 <= k < 6
      ensures AdjacentRow(h)[k] in forbidden || AdjacentRow(h)[k] in closed + {next} || AdjacentRow(h)[k] in q'
    {
      var n := AdjacentRow(h)[k];
      PushesMembers(queue[1..], adjacent, |adjacent|, n);
      if h == next {
        if n !in forbidden && n !in closed + {next} {
          assert n in adjacent;
        }
      } else if n in queue && n != next {
        assert queue == [next] + queue[1..];
      }
    }
  }

  /** The loop invariant of the search: `d` the distances, `closed` the
      expanded hexes, `queue` the waiting list, `i` the expansion counter,
      `found` and `stopped` the two ways the loop ends early, `cd` the
      distance of the hex dequeued last. */
  ghost predicate Searching(from: Row, to: Row, forbidden: set<Row>, maxDistance: Extended, d: map<Row, int>,
                            closed: set<Row>, queue: seq<Row>, i: int, found: bool, stopped: bool, cd: int)
  {
    && 0 <= i <= 40001 && i == |closed| + (if found then 1 else 0)
    && (stopped ==> !found && i == 40001)
    && Queued(queue, d)
    && SearchInvariant(from, to, forbidden, d, closed)
    && (i == 0 ==> queue == [from])
    && (i > 0 && !(found && from == to) ==> from in closed)
    && (found ==> Lookup(d, to) == Some(cd))
    && (!found && !stopped && maxDistance.Infinity? ==> Frontier(closed, forbidden, queue))
  }

  lemma SearchStart(from: Row, to: Row, forbidden: set<Row>, maxDistance: Extended)
    ensures Searching(from, to, forbidden, maxDistance, map[from := 0], {}, [from], 0, false, false, 0)
  {
    HexDistanceZeroIffEqual(from, from);
  }

  /** The head of the queue was expanded before: it is dropped. */
  lemma SearchSkip(from: Row, to: Row, forbidden: set<Row>, maxDistance: Extended, d: map<Row, int>,
                   closed: set<Row>, queue: seq<Row>, i: int, cd: int)
    requires Searching(from, to, forbidden, maxDistance, d, closed, queue, i, false, false, cd)
    requires queue != [] && queue[0] in closed
    ensures Searching(from, to, forbidden, maxDistance, d, closed, queue[1..], i, false, false, cd)
  {
    if maxDistance.Infinity? {
      FrontierSkip(closed, forbidden, queue);
    }
  }

  /** More than 40000 expansions: the cap stops the search. */
  lemma SearchCap(from: Row, to: Row, forbidden: set<Row>, maxDistance: Extended, d: map<Row, int>,
                  closed: set<Row>, queue: seq<Row>, i: int, cd: int)
    requires Searching(from, to, forbidden, maxDistance, d, closed, queue, i, false, false, cd)
    requires i > 40000
    ensures Searching(from, to, forbidden, maxDistance, d, closed, queue, i, false, true, cd)
  {
  }

  /** The target is dequeued. */
  lemma SearchFound(from: Row, to: Row, forbidden: set<Row>, maxDistance: Extended, d: map<Row, int>,
                    closed: set<Row>, queue: seq<Row>, i: int, cd: int)
    requires Searching(from, to, forbidden, maxDistance, d, closed, queue, i, false, false, cd)
    requires queue != [] && queue[0] == to && to !in closed && i <= 40000
    ensures to in d
    ensures Searching(from, to, forbidden, maxDistance, d, closed, queue, i + 1, true, false, d[to])
  {
  }

  /** Any other hex is expanded and its open neighbours relaxed. */
  lemma SearchExpand(from: Row, to: Row, forbidden: set<Row>, maxDistance: Extended, d: map<Row, int>,
                     closed: set<Row>, queue: seq<Row>, i: int, cd: int, adjacent: seq<Row>)
    requires Searching(from, to, forbidden, maxDistance, d, closed, queue, i, false, false, cd)
    requires queue != [] && queue[0] != to && queue[0] !in closed && i <= 40000
    requires ExpansionOf(adjacent, queue[0], forbidden, closed + {queue[0]})
    ensures queue[0] in d
    ensures Searching(from, to, forbidden, maxDistance, RelaxAll(d, adjacent, d[queue[0]]), closed + {queue[0]},
                      Pushes(queue[1..], adjacent, PushCount(d, adjacent, d[queue[0]], maxDistance)),
                      i + 1, false, false, d[queue[0]])
  {
    var next := queue[0];
    StepPreservesInvariant(from, to, forbidden, d, closed, next, adjacent);
    QueuedStep(queue[1..], d, adjacent, d[next], PushCount(d, adjacent, d[next], maxDistance));
    if maxDistance.Infinity? {
      PushCountInfinity(d, adjacent, d[next]);
      FrontierExpand(closed, forbidden, queue, adjacent);
    }
  }

  /** A hex that is about to be expanded has a distance. */
  lemma SearchExpandReady(from: Row, to: Row, forbidden: set<Row>, maxDistance: Extended, d: map<Row, int>,
                          closed: set<Row>, queue: seq<Row>, i: int, cd: int)
    requires Searching(from, to, forbidden, maxDistance, d, closed, queue, i, false, false, cd)
    requires queue != []
    ensures queue[0] in d
  {
  }

  /** When the loop ends, the backtrack's result is the outcome. */
  lemma SearchDone(from: Row, to: Row, forbidden: set<Row>, maxDistance: Extended, d: map<Row, int>,
                   closed: set<Row>, queue: seq<Row>, i: int, found: bool, stopped: bool, cd: int,
                   out: map<Row, Number>, trail: seq<Row>)
    requires Searching(from, to, forbidden, maxDistance, d, closed, queue, i, found, stopped, cd)
    requires queue == [] || found || stopped
    requires found ==> IsTrail(d, to, cd, trail) && out == TrailMap(d, trail)[from := Int(0)]
    requires !found ==> out == map[]
    ensures Outcome(from, to, forbidden, maxDistance, out, found, stopped, d, closed, trail)
  {
  }

  /** One turn of the search loop: dequeue a hex and skip it, stop at the
      cap, stop at the target, or expand it (hexagons.js:144-185). */
  method SearchStep(distances: Map2D<int>, searchSpace: Set2D, forbidden: Set2D?, from: Row, to: Row,
                    maxDistance: Extended, order: seq<Row> -> seq<Row>, ghost forbiddenHexes: set<Row>,
                    nextList: seq<Row>, i: int, currentDistance: int)
    returns (nextList': seq<Row>, i': int, found: bool, stopped: bool, currentDistance': int)
    requires distances.Valid() && searchSpace.Valid()
    requires forbidden != null ==> forbidden.Valid() && forbidden != searchSpace
    requires forbiddenHexes == ForbiddenSet(forbidden)
    requires forall s :: multiset(order(s)) == multiset(s)
    requires nextList != []
    requires Searching(from, to, forbiddenHexes, maxDistance, distances.Contents, searchSpace.Contents,
                       nextList, i, false, false, currentDistance)
    modifies distances, searchSpace
    ensures distances.Valid() && searchSpace.Valid()
    ensures Searching(from, to, forbiddenHexes, maxDistance, distances.Contents, searchSpace.Contents,
                      nextList', i', found, stopped, currentDistance')
    ensures i' == i + 1 || (i' == i && (stopped || |nextList'| < |nextList|))
  {
    var next := nextList[0];
    nextList', i', found, stopped, currentDistance' := nextList, i, false, false, currentDistance;
    if searchSpace.Has(next) {
      // an already expanded hex is skipped
      SearchSkip(from, to, forbiddenHexes, maxDistance, distances.Contents, searchSpace.Contents,
                 nextList, i, currentDistance);
      nextList' := nextList[1..];
    } else if i > 40000 {
      // the expansion cap stops the search
      SearchCap(from, to, forbiddenHexes, maxDistance, distances.Contents, searchSpace.Contents,
                nextList, i, currentDistance);
      stopped := true;
    } else if next == to {
      SearchFound(from, to, forbiddenHexes, maxDistance, distances.Contents, searchSpace.Contents,
                  nextList, i, currentDistance);
      i' := i + 1;
      currentDistance' := distances.Get(next).value;
      found := true;
    } else {
      ghost var d, c := distances.Contents, searchSpace.Contents;
      SearchExpandReady(from, to, forbiddenHexes, maxDistance, d, c, nextList, i, currentDistance);
      i' := i + 1;
      currentDistance' := distances.Get(next).value;
      ghost var adjacent;
      nextList', adjacent := Expand(distances, searchSpace, forbidden, next, currentDistance', maxDistance, order, nextList[1..]);
      SearchExpand(from, to, forbiddenHexes, maxDistance, d, c, nextList, i, currentDistance, adjacent);
    }
  }

  /** The search loop from `from` until the queue runs dry, the target is
      dequeued or the cap is hit (hexagons.js:136-147 and 164-185). */
  method Explore(from: Row, to: Row, forbidden: Set2D?, maxDistance: Extended, order: seq<Row> -> seq<Row>,
                 ghost forbiddenHexes: set<Row>)
    returns (distances: Map2D<int>, searchSpace: Set2D, nextList: seq<Row>, i: int, found: bool, stopped: bool,
             currentDistance: int)
    requires forbidden != null ==> forbidden.Valid()
    requires forbiddenHexes == ForbiddenSet(forbidden)
    requires forall s :: multiset(order(s)) == multiset(s)
    ensures fresh(distances) && fresh(searchSpace)
    ensures distances.Valid() && searchSpace.Valid()
    ensures Searching(from, to, forbiddenHexes, maxDistance, distances.Contents, searchSpace.Contents,
                      nextList, i, found, stopped, currentDistance)
    ensures nextList == [] || found || stopped
  {
    searchSpace := new Set2D();
    distances := new Map2D<int>();
    nextList := [from];
    var _ := distances.Put(from, 0);
    found, stopped := false, false;
    currentDistance := 0;
    i := 0;
    SearchStart(from, to, forbiddenHexes, maxDistance);
    while nextList != [] && !found && !stopped
      invariant distances.Valid() && searchSpace.Valid()
      invariant Searching(from, to, forbiddenHexes, maxDistance, distances.Contents, searchSpace.Contents,
                          nextList, i, found, stopped, currentDistance)
      modifies distances, searchSpace
      decreases 40001 - i + (if stopped then 0 else 1), |nextList|
    {
      nextList, i, found, stopped, currentDistance :=
        SearchStep(distances, searchSpace, forbidden, from, to, maxDistance, order, forbiddenHexes,
                   nextList, i, currentDistance);
    }
  }

  /** The search proper, on parsed row coordinates: explore, then backtrack
      from the target when it was reached (hexagons.js:136-188). */
  method Search(map2D: Map2D<Number>, from: Row, to: Row, forbidden: Set2D?, maxDistance: Extended,
                order: seq<Row> -> seq<Row>)
    returns (ghost reached: bool, ghost capped: bool, ghost dist: map<Row, int>, ghost closed: set<Row>, ghost trail: seq<Row>)
    requires map2D.Valid() && map2D.Contents == map[]
    requires forbidden != null ==> forbidden.Valid()
    requires forall s :: multiset(order(s)) == multiset(s)
    modifies map2D
    ensures map2D.Valid()
    ensures Outcome(from, to, ForbiddenSet(forbidden), maxDistance, map2D.Contents, reached, capped, dist, closed, trail)
  {
    ghost var forbiddenHexes := ForbiddenSet(forbidden);
    var distances, searchSpace, nextList, i, found, stopped, currentDistance :=
      Explore(from, to, forbidden, maxDistance, order, forbiddenHexes);
    ghost var d, c := distances.Contents, searchSpace.Contents;
    if found {
      trail := Backtrack(map2D, distances, from, to, currentDistance);
    } else {
      trail := [];
    }
    SearchDone(from, to, forbiddenHexes, maxDistance, d, c, nextList, i, found, stopped, currentDistance,
               map2D.Contents, trail);
    reached, capped, dist, closed := found, stopped, d, c;
  }

  /** `path`: clears the output, parses both ends, and runs the search. */
  method Path(map2D: Map2D<Number>, rowOrCubeFrom: seq<int>, rowOrCubeTo: seq<int>, forbidden: Set2D?,
              maxDistance: Extended, order: seq<Row> -> seq<Row>)
    returns (r: Result<Map2D<Number>>, ghost reached: bool, ghost capped: bool, ghost dist: map<Row, int>,
             ghost closed: set<Row>, ghost trail: seq<Row>)
    requires map2D.Valid()
    requires forbidden != null ==> forbidden.Valid()
    requires forall s :: multiset(order(s)) == multiset(s)
    modifies map2D
    ensures map2D.Valid()
    ensures r.Err? <==> ParseInputToRow(rowOrCubeFrom).Err? || ParseInputToRow(rowOrCubeTo).Err?
    ensures r.Err? ==> map2D.Contents == map[]
    ensures r.Ok? ==> r.value == map2D
    ensures r.Ok? ==> Outcome(ParseInputToRow(rowOrCubeFrom).value, ParseInputToRow(rowOrCubeTo).value,
                              ForbiddenSet(forbidden), maxDistance, map2D.Contents, reached, capped, dist, closed, trail)
  {
    map2D.Clear();
    reached, capped, dist, closed, trail := false, false, map[], {}, [];
    var from := ParseInputToRow(rowOrCubeFrom);
    if from.Err? {
      return Err(from.error), reached, capped, dist, closed, trail;
    }
    var to := ParseInputToRow(rowOrCubeTo);
    if to.Err? {
      return Err(to.error), reached, capped, dist, closed, trail;
    }
    reached, capped, dist, closed, trail := Search(map2D, from.value, to.value, forbidden, maxDistance, order);
    r := Ok(map2D);
  }

  // ---------------------------------------------------------------------------
  // What an outcome means
  // ---------------------------------------------------------------------------

  /** From a hex to itself the output is exactly { from: 0 }. */
  lemma OutcomeSameHex(from: Row, forbidden: set<Row>, maxDistance: Extended, out: map<Row, Number>,
                       reached: bool, capped: bool, d: map<Row, int>, closed: set<Row>, trail: seq<Row>)
    requires Outcome(from, from, forbidden, maxDistance, out, reached, capped, d, closed, trail)
    requires reached
    ensures out == map[from := Int(0)]
  {
    assert trail == [from];
    assert trail[..0] == [];
    assert TrailMap(d, trail) == map[from := Recorded(d, from)];
  }

  /** A found path holds `to` at its distance and `from` at 0, every other
      entry is a hex of the trail at its recorded distance, and there are
      at most d + 1 entries; the distance is never below the hex distance. */
  lemma OutcomeFound(from: Row, to: Row, forbidden: set<Row>, maxDistance: Extended, out: map<Row, Number>,
                     reached: bool, capped: bool, d: map<Row, int>, closed: set<Row>, trail: seq<Row>)
    requires Outcome(from, to, forbidden, maxDistance, out, reached, capped, d, closed, trail)
    requires reached
    ensures to in d && d[to] >= HexDistance(from, to)
    ensures to in out && out[to] == Int(d[to])
    ensures from in out && out[from] == Int(0)
    ensures forall p :: p in out && p != from ==> p in trail && out[p] == Recorded(d, p)
    ensures |out| <= d[to] + 1
  {
    TrailMapMeaning(d, trail);
    var keys := TrailMap(d, trail).Keys;
    assert trail[0] == to;
    assert to in Elements(trail);
    ElementsCard(trail);
    assert out.Keys == keys + {from};
    assert |out.Keys| <= |keys| + 1;
    if d[to] == 0 {
      HexDistanceZeroIffEqual(from, to);
      assert trail == [to];
      assert Elements(trail) == {to};
    }
  }

  /** Every expanded neighbour h of the target bounds its distance: the
      target was relaxed through h to at most d[h] + 1. */
  lemma OutcomeRelaxed(from: Row, to: Row, forbidden: set<Row>, maxDistance: Extended, out: map<Row, Number>,
                       reached: bool, capped: bool, d: map<Row, int>, closed: set<Row>, trail: seq<Row>, h: Row)
    requires Outcome(from, to, forbidden, maxDistance, out, reached, capped, d, closed, trail)
    requires reached && h in closed && to in AdjacentRow(h)
    ensures to in d && h in d && d[to] <= d[h] + 1
  {
    var k :| 0 <= k < 6 && AdjacentRow(h)[k] == to;
    assert RelaxedAt(from, forbidden, d, closed, h, AdjacentRow(h)[k]);
  }

  /** A target next to the start is recorded at distance 1, whatever the
      forbidden set, the cut-off and the expansion order. */
  lemma OutcomeNeighbour(from: Row, to: Row, forbidden: set<Row>, maxDistance: Extended, out: map<Row, Number>,
                         reached: bool, capped: bool, d: map<Row, int>, closed: set<Row>, trail: seq<Row>)
    requires Outcome(from, to, forbidden, maxDistance, out, reached, capped, d, closed, trail)
    requires reached && to in AdjacentRow(from)
    ensures to in d && d[to] == 1
    ensures to in out && out[to] == Int(1)
  {
    AdjacentDistinct(from);
    var k :| 0 <= k < 6 && AdjacentRow(from)[k] == to;
    AdjacentAtDistanceOne(from, k);
    OutcomeRelaxed(from, to, forbidden, maxDistance, out, reached, capped, d, closed, trail, from);
    OutcomeFound(from, to, forbidden, maxDistance, out, reached, capped, d, closed, trail);
  }

  /** From (0, 0) the hex (1, 0) to its east is recorded at 1. */
  lemma OutcomeEastOfOrigin(forbidden: set<Row>, maxDistance: Extended, out: map<Row, Number>,
                            reached: bool, capped: bool, d: map<Row, int>, closed: set<Row>, trail: seq<Row>)
    requires Outcome((0, 0), (1, 0), forbidden, maxDistance, out, reached, capped, d, closed, trail)
    requires reached
    ensures (1, 0) in out && out[(1, 0)] == Int(1)
  {
    assert AdjacentRow((0, 0))[3] == (1, 0);
    OutcomeNeighbour((0, 0), (1, 0), forbidden, maxDistance, out, reached, capped, d, closed, trail);
  }

  /** Hexes reached by walking from a hex of a step-closed set stay in it. */
  lemma {:induction false} NoWalkEscapes(w: seq<Row>, from: Row, forbidden: set<Row>, closed: set<Row>)
    requires ClosedUnderSteps(closed, forbidden) && from in closed
    requires IsWalk(w, from, forbidden)
    ensures w[|w| - 1] in closed
    decreases |w|
  {
    if |w| > 1 {
      var w' := w[..|w| - 1];
      forall j | 1 <= j < |w'| ensures StepsAt(w', forbidden, j) {
        assert StepsAt(w, forbidden, j);
      }
      NoWalkEscapes(w', from, forbidden, closed);
      var h, n := w[|w| - 2], w[|w| - 1];
      assert StepsAt(w, forbidden, |w| - 1);
      var k :| 0 <= k < 6 && AdjacentRow(h)[k] == n;
    }
  }

  /** A search that runs out of hexes without a cut-off proves that no walk
      avoiding the forbidden hexes leads from `from` to `to`. */
  lemma OutcomeNotFound(from: Row, to: Row, forbidden: set<Row>, out: map<Row, Number>,
                        reached: bool, capped: bool, d: map<Row, int>, closed: set<Row>, trail: seq<Row>, w: seq<Row>)
    requires Outcome(from, to, forbidden, Infinity, out, reached, capped, d, closed, trail)
    requires !reached && !capped
    requires IsWalk(w, from, forbidden)
    ensures w[|w| - 1] != to
  {
    NoWalkEscapes(w, from, forbidden, closed);
  }
}
