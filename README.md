# Hexagons: the integer core, in Dafny

This project models the integer part of the `hexagons` grid library:
- the two sparse containers of `utils.js` (`Map2D`, `Set2D`) and its small integer helpers (`mod`, `rotateLeft6`, `rotateRight6`);
- the coordinate algebra of `hexagons.js`: the conversions between even-r row coordinates `(col, row)` and cube coordinates `(x, y, z)` with `x + y + z == 0`, input dispatch, neighbours and hex distance;
- the two imperative operations of `HexagonGrid` that fill caller-owned containers: the bounding-box scan and the breadth-first path search with its greedy backtrack.

The project has three modules, one per concern:

- `Utils` (`utils.dfy`). `mod` on JavaScript's truncating `%`. The 6-bit rotations on 32-bit patterns with JavaScript's sign-propagating `>>`. `Map2D` and `Set2D` as classes:
  - the concrete field `space` (one bucket per first coordinate) is reassigned in place, as the methods of the source do;
  - a ghost `Contents` holds the map or set of pairs that `space` stands for, tied to it by `Valid()`;
  - `size` and the iterators are methods with loops over the buckets.
- `Hexagons` (`hexagons.dfy`). Pure functions over `Row = (int, int)` and `Cube = (int, int, int)`. Array inputs are `seq<int>`, so that dispatch on the array length can be modelled. A thrown error is an `Err` result.
- `HexSearch` (`hexsearch.dfy`). `getHexesFromBoundingBox` as nested loops adding to a `Set2D`. `path` as a `while` loop over the `nextList` queue:
  - the loop updates a `Set2D` of expanded hexes and a `Map2D` of distances;
  - an expansion counter caps the search at 40000;
  - a backtracking loop writes the result into the caller's `Map2D`.

  Its specifications are ghost functions and predicates:
  - `RelaxAll` and `PushCount` for the relaxation loop;
  - `Searching` for the search loop invariant;
  - `Outcome` for what a finished search leaves behind.

The search model follows the code rather than an idealised Dijkstra:
- `distances.get(a) || Infinity` reads a missing distance and a stored 0 (the start hex) alike as Infinity (`OrInfinity`, `RelaxForgetsZero`);
- when any neighbour relaxes below `maxDistance`, the whole neighbour list is pushed (`Pushes`, `PushCount`);
- a hex already expanded is skipped before the `i++ > 40000` check, so the loop's termination measure is lexicographic in the remaining budget and the queue length;
- the backtrack takes `floor(d) - 1` steps (`IsTrail`);
- each backtrack step picks the first neighbour with the least key, as a stable sort followed by `shift()` does (`FirstMinimalIndex`);
- it records `Math.floor(distances.get(current))`, so a hex with no distance is recorded as NaN (`Number`).

## Model

| member | source | states |
|---|---|---|
| Utils.JsRemainder | utils.js:2 | JavaScript's `%` keeps the dividend's sign and is smaller in magnitude than the divisor |
| Utils.Mod | utils.js:1-3 | `mod` lies in [0, m) for a positive modulus and in (m, 0] for a negative one; `ModIsFloored` and `ModNegativeDivisor` add the congruence |
| Utils.ModIsFloored | utils.js:1-3 | for m > 0, `mod(n, m)` lies in [0, m), is congruent to n modulo m, and equals the floored remainder |
| Utils.ModNegativeDivisor | utils.js:1-3 | for m < 0, `mod(n, m)` lies in (m, 0] and is congruent to n |
| Utils.SignedShiftRight | utils.js:5 | `>>` on a 32-bit value agrees with the logical shift when the sign bit is clear |
| Utils.RotateLeft6 | utils.js:4-6 | the left rotation always lands in 0..63 |
| Utils.RotateRight6 | utils.js:7-9 | the right rotation always lands in 0..63 |
| Utils.RotationsIgnoreSign | utils.js:4-9 | the 6-bit masks discard every bit the sign copy of `>>` sets |
| Utils.RotationsInverse | utils.js:4-9 | on 6-bit values the two rotations undo each other |
| Utils.RotateSixTimesIsIdentity | utils.js:4-6 | six left rotations of a 6-bit value give it back |
| Utils.Map2D.constructor | utils.js:11-13 | a new map is empty |
| Utils.Map2D.Put | utils.js:14-21 | `set` creates the bucket if it is missing, stores the value under the key, leaves every other key as it was, and returns the key |
| Utils.Map2D.Delete | utils.js:22-29 | `delete` answers true exactly when the key was present; afterwards the key is absent and every other key is unchanged |
| Utils.Map2D.Has | utils.js:30-33 | `has` is true exactly for stored keys |
| Utils.Map2D.Clear | utils.js:34-38 | after `clear` no key is stored; the empty buckets remain |
| Utils.Map2D.Size | utils.js:39-45 | the sum of the bucket sizes is the number of stored keys |
| Utils.Map2D.Get | utils.js:46-50 | `get` returns the stored value of a present key and the undefined sentinel otherwise |
| Utils.Map2D.ListsAppend | utils.js:53-54 | appending a new entry with its stored value keeps the listing exact |
| Utils.Map2D.Entries | utils.js:51-57 | iteration yields every stored key exactly once, with its value, and nothing else |
| Utils.Set2D.constructor | utils.js:61-63 | a new set is empty |
| Utils.Set2D.Add | utils.js:64-71 | `add` inserts the key and returns it; adding a present key changes nothing |
| Utils.Set2D.Delete | utils.js:72-79 | `delete` answers true exactly when the key was present; afterwards only that key is gone |
| Utils.Set2D.Clear | utils.js:80-84 | after `clear` the set is empty |
| Utils.Set2D.Size | utils.js:85-91 | the sum of the bucket sizes is the number of stored keys |
| Utils.Set2D.Has | utils.js:92-95 | `has` is true exactly for stored keys |
| Utils.Set2D.Elements | utils.js:96-102 | iteration yields every stored key exactly once and nothing else |
| Hexagons.Half | hexagons.js:240 | the halved quantity is the ceiling of z / 2 |
| Hexagons.HalfIsSourceExpression | hexagons.js:240 | `z + mod(z, 2)` is even and its exact half is `Half(z)` |
| Hexagons.CubeToRow | hexagons.js:239-243 | the row is z and the column is x + z / 2 rounded up; `RowCubeRoundTrip` and `CubeRowRoundTrip` make it the inverse of `rowToCube` |
| Hexagons.RowToCube | hexagons.js:244-249 | `rowToCube` gives a zero-sum triple whose z is the row |
| Hexagons.RowCubeRoundTrip | hexagons.js:239-249 | `cubeToRow(rowToCube(h)) == h` for every row pair |
| Hexagons.CubeRowRoundTrip | hexagons.js:239-249 | `rowToCube(cubeToRow(c)) == c` exactly when c is zero-sum |
| Hexagons.RowToCubeInjective | hexagons.js:244-249 | different row pairs have different cube coordinates |
| Hexagons.ParseInputToRow | hexagons.js:119-123 | a pair is returned unchanged, a triple is converted, and any other length is an error |
| Hexagons.ParseInputToCube | hexagons.js:124-128 | a triple is returned unchanged, a pair is converted, and any other length is an error |
| Hexagons.ParsersAgree | hexagons.js:119-128 | both parsers accept the same inputs and name the same hex |
| Hexagons.ParseRowArray | hexagons.js:119-123 | a row pair and its cube triple both parse back to the row pair |
| Hexagons.AdjacentRow | hexagons.js:214-225 | the row branch lists six coordinates |
| Hexagons.AdjacentCube | hexagons.js:226-236 | the corrected cube branch lists six triples |
| Hexagons.AdjacentCubeDirections | hexagons.js:228-235 | entry k of the corrected cube branch is the hex plus the k-th cube direction |
| Hexagons.AdjacentRowMatchesCube | hexagons.js:214-236 | the row branch and the corrected cube branch list the same hexes in the same order |
| Hexagons.NeighboursMatchCube | hexagons.js:217-224 | the row neighbours match the cube neighbours for any parity bit that shifts the halved row as the row parity does |
| Hexagons.HalfNeighbours | hexagons.js:219-223 | moving one row up or down shifts the halved row by the parity bit `mod(y + 1, 2)` |
| Hexagons.AdjacentCubeAsWritten | hexagons.js:226-236 | the cube branch as written returns five entries; `AdjacentCubeAsWrittenLosesNeighbours` shows which neighbours it loses |
| Hexagons.AdjacentCubeAsWrittenLosesNeighbours | hexagons.js:228-235 | as written, the cube branch has five entries, its third entry is no coordinate, and two neighbours are missing |
| Hexagons.AdjacentCubeAsWrittenAtOrigin | hexagons.js:231-232 | at the origin the third entry is the number 1 |
| Hexagons.Adjacent | hexagons.js:214-238 | six neighbours in the input's own form, and an error for any other length |
| Hexagons.AdjacentFormsAgree | hexagons.js:214-238 | asking in row form or in cube form gives the same neighbours in the same order |
| Hexagons.L1EvenOnZeroSum | hexagons.js:192-194 | the cube L1 sum of two zero-sum triples is even |
| Hexagons.HexDistance | hexagons.js:189-195 | the hex distance of two row pairs is half their cube L1 sum, a whole number |
| Hexagons.Distance | hexagons.js:189-195 | `distance` is non-negative, and it fails exactly when an input has neither 2 nor 3 entries |
| Hexagons.DistanceOnHexes | hexagons.js:189-195 | on row pairs and zero-sum triples `distance` is the whole-number hex distance |
| Hexagons.DistanceOffLattice | hexagons.js:192-194 | a triple that is not zero-sum can be half a step away |
| Hexagons.HexDistanceZeroIffEqual | hexagons.js:189-195 | the distance is 0 exactly between equal hexes |
| Hexagons.HexDistanceSymmetric | hexagons.js:189-195 | the distance is symmetric |
| Hexagons.HexDistanceTriangle | hexagons.js:189-195 | the distance obeys the triangle inequality |
| Hexagons.AdjacentAtDistanceOne | hexagons.js:214-225 | every listed neighbour is at distance 1 |
| Hexagons.DirectionOf | hexagons.js:228-235 | a zero-sum offset of L1 length 2 is one of the six directions |
| Hexagons.StepDirection | hexagons.js:189-195 | a hex at distance 1 differs from h by one of the six cube directions |
| Hexagons.AtDistanceOneIsAdjacent | hexagons.js:214-225 | every hex at distance 1 is listed |
| Hexagons.AdjacentSymmetric | hexagons.js:214-225 | h is a neighbour of each of its neighbours |
| Hexagons.AdjacentDistinct | hexagons.js:214-225 | the six neighbours are distinct and none is h |
| Hexagons.HexDistanceStep | hexagons.js:214-225 | one step changes the distance from any hex by at most 1 |
| HexSearch.GetHexesFromBoundingBox | hexagons.js:26-42 | clears the container, then leaves exactly the cells of the half-open box that pass the test (all cells when there is none); returns the same container |
| HexSearch.BoxHexesCount | hexagons.js:35-40 | without a test the box yields width × height cells |
| HexSearch.BoxHexesWithTest | hexagons.js:38 | a test only removes the cells that fail it |
| HexSearch.OrInfinity | hexagons.js:156-157 | `get(h) \|\| Infinity` is Infinity exactly when the distance is missing or 0 |
| HexSearch.RelaxedDistance | hexagons.js:180-181 | the relaxed distance is at most cd + 1, is either cd + 1 or the prior distance, and never exceeds a non-zero prior |
| HexSearch.RelaxIdempotent | hexagons.js:180-182 | relaxing the same hex twice at the same distance changes nothing |
| HexSearch.RelaxForgetsZero | hexagons.js:180-181 | a stored 0 is read as Infinity and overwritten by cd + 1 |
| HexSearch.DistanceKeys | hexagons.js:155-158 | the keys read through the distance container are the keys of its contents |
| HexSearch.FirstMinimalIndex | hexagons.js:155-159 | the hex a stable sort puts first: nothing is below its key, and it is strictly below every key in front of it |
| HexSearch.BacktrackStep | hexagons.js:154-159 | each backtrack step moves to a neighbour |
| HexSearch.BacktrackStepIsBest | hexagons.js:155-159 | no neighbour has a smaller key than the hex the backtrack picks |
| HexSearch.NextOnTrail | hexagons.js:154-159 | the step read through the container is the step on the contents |
| HexSearch.TrailExtend | hexagons.js:153-161 | one more backtrack step keeps the trail a chain of steps |
| HexSearch.TrailMapMeaning | hexagons.js:151-161 | the backtrack writes exactly the trail's hexes, each at its floored distance |
| HexSearch.ElementsCard | hexagons.js:153-161 | a trail has at most as many distinct hexes as entries |
| HexSearch.BacktrackOne | hexagons.js:154-160 | one step moves to the best-ranked neighbour and records it at its floored distance, writing nothing else |
| HexSearch.Backtrack | hexagons.js:150-163 | the output holds `to` at d, the floor(d) - 1 hexes of the backtrack trail at their floored distances, and `from` at 0 |
| HexSearch.Unblocked | hexagons.js:168-172 | the filter keeps exactly the neighbours that are neither forbidden nor expanded |
| HexSearch.PushesMembers | hexagons.js:183 | a hex is on the queue after the pushes exactly when it was queued before or is a pushed neighbour |
| HexSearch.RelaxAllMeaning | hexagons.js:179-185 | relaxation touches exactly the listed hexes, each ending at its relaxed distance, however often it is listed |
| HexSearch.RelaxAllNeverIncreases | hexagons.js:180-182 | no non-zero recorded distance grows |
| HexSearch.PushCountInfinity | hexagons.js:183 | without a cut-off every relaxed neighbour pushes the list |
| HexSearch.RelaxUnfold | hexagons.js:179-185 | one more relaxation, in terms of the folds so far |
| HexSearch.RelaxNeighbour | hexagons.js:180-182 | one relaxation stores the smaller of the known distance and cd + 1, and writes nothing else |
| HexSearch.RelaxStep | hexagons.js:179-185 | one turn of the relaxation loop extends both folds by one hex |
| HexSearch.Relax | hexagons.js:178-185 | the distances after the loop are the relaxation fold, and the queue gains the neighbour list once per relaxation below `maxDistance` |
| HexSearch.OrderKeepsMembers | hexagons.js:173-177 | a reordering keeps the neighbours |
| HexSearch.Expand | hexagons.js:167-185 | the expansion marks the hex expanded, relaxes exactly its open neighbours, and pushes them |
| HexSearch.StepPreservesInvariant | hexagons.js:166-185 | an expansion keeps each distance at least the hex distance from `from`, never gives a forbidden hex a distance, keeps `from` at 0, and keeps every open neighbour of an expanded hex within one of it |
| HexSearch.RelaxedStep | hexagons.js:166-185 | after an expansion every open neighbour of an expanded hex h sits at most one above h, because expanded hexes are never relaxed again and no other distance grows |
| HexSearch.QueuedStep | hexagons.js:183 | every queued hex keeps a distance |
| HexSearch.FrontierSkip | hexagons.js:145 | skipping an expanded hex keeps every open neighbour of an expanded hex on the queue |
| HexSearch.FrontierExpand | hexagons.js:167-185 | without a cut-off an expansion keeps every open neighbour of an expanded hex on the queue |
| HexSearch.SearchStart | hexagons.js:136-142 | the initial state satisfies the loop invariant |
| HexSearch.SearchSkip | hexagons.js:144-145 | the skip branch keeps the loop invariant |
| HexSearch.SearchCap | hexagons.js:146 | the cap branch stops the search after exactly 40001 expansion attempts |
| HexSearch.SearchFound | hexagons.js:147-150 | the target branch stops with the target's distance |
| HexSearch.SearchExpand | hexagons.js:166-185 | the expansion branch keeps the loop invariant |
| HexSearch.SearchExpandReady | hexagons.js:147 | the dequeued hex has a distance |
| HexSearch.SearchDone | hexagons.js:143-187 | at loop exit, with the backtrack's output, the outcome holds |
| HexSearch.SearchStep | hexagons.js:144-185 | one loop turn keeps the invariant and makes progress: the counter grows, or the queue shrinks, or the cap stops the search |
| HexSearch.Explore | hexagons.js:136-147 | the loop ends with the invariant and with the queue empty, the target found or the cap hit |
| HexSearch.Search | hexagons.js:136-188 | the output is the backtrack trail when `to` was reached and empty otherwise; no forbidden hex except `from` gets a distance |
| HexSearch.Path | hexagons.js:129-188 | `path` clears the output, fails exactly on unparseable ends, and returns the same container holding the search outcome |
| HexSearch.OutcomeSameHex | hexagons.js:150-163 | from a hex to itself the output is exactly `{from: 0}` |
| HexSearch.OutcomeFound | hexagons.js:150-163 | the output holds `to` at d ≥ its hex distance and `from` at 0; every other entry is a trail hex at its floored distance; there are at most d + 1 entries |
| HexSearch.OutcomeRelaxed | hexagons.js:166-185 | when `to` is reached, its distance is at most one more than that of any expanded neighbour |
| HexSearch.OutcomeNeighbour | hexagons.js:150-185 | a target next to `from` is recorded at 1, whatever the forbidden set, cut-off and expansion order |
| HexSearch.OutcomeEastOfOrigin | hexagons.js:150-185 | from (0, 0), the hex (1, 0) is recorded at 1 |
| HexSearch.NoWalkEscapes | hexagons.js:143-185 | a walk from inside a set closed under open steps stays in it |
| HexSearch.OutcomeNotFound | hexagons.js:143-187 | a search that runs dry without a cut-off proves that no walk avoiding the forbidden hexes reaches `to` |

## Left out

- `fromPoint`, `getCenter`, `realDistance`, `realDistance2`, `line`, `getHexesInCircle` and `getHexesInHexagon` (hexagons.js:43-118, 196-213): floating-point geometry with `Math.sqrt(3)` and rounding. `getHexesInHexagon` and `getHexesInCircle` are covered only as test functions passed to the bounding-box scan.
- The conversion of real-valued bounds to cell bounds at hexagons.js:28-34 is floating-point. `GetHexesFromBoundingBox` takes the four integer cell bounds directly.
- The constructor, `setRadius`, `getRadius` and `setOffset` of `HexagonGrid` only feed the float geometry. The grid is therefore not a class here: its integer operations do not read its fields.
- HexSearch.Expand: the heuristic sort on real distances (hexagons.js:173-177) is replaced by an `order` parameter that may return any permutation of the neighbours.
- HexSearch.RelaxNeighbour: the random jitter `Math.random()*adjacentIndex*1e-4` (hexagons.js:181) is taken as 0, so tentative distances are whole numbers.
- Non-integer inputs are not modelled: coordinates are integers, and `maxDistance` is a whole number or Infinity.
- HexSearch.Outcome: the closure property (no walk can reach `to` when the queue runs dry) is stated only when `maxDistance` is Infinity. With a finite cut-off the source does not push every neighbour, so that property does not hold.
- HexSearch.OutcomeFound: the recorded distance of `to` is not proved to be the length of a shortest open walk. It is bounded below by the hex distance, and above by one more than the distance of each expanded neighbour (`OutcomeRelaxed`), so it is exact only next to `from` (`OutcomeNeighbour`). The FIFO-order argument needed for the general claim is not modelled.
- HexSearch.Explore: the counter `i` is incremented even on the step where the cap breaks. The model raises a `stopped` flag at the same point, and the counter value after the loop is not observable in the source.
- The found branch returns from inside the loop in the source. The model ends the loop with a `found` flag and backtracks after it (`Explore`, then `Backtrack`); the output is the same.
- Utils.Mod: a modulus of 0 (NaN in JavaScript) is excluded by the precondition; the source only uses the moduli 2 and 3.
- Utils.Map2D.Entries, Utils.Set2D.Elements: the iterators are lazy generators whose order follows JavaScript's object-key order. They are modelled as the complete sequence of entries in an unspecified bucket order. `parseInt` of the stringified key is taken to return the integer key.
- Hexagons.Adjacent: the cube branch uses the corrected list (see Findings), not the as-written one.
- `main.js`, `environment.js` and `junk.old.js` are not part of this model. They are rendering, scene and shader plumbing.

## Findings

| source | as written | input that shows it | evidently intended | confidence | as-written member | corrected member |
|---|---|---|---|---|---|---|
| hexagons.js:231 | the comma after `[x+1,y,z-1]` is missing, so `[x+1,y-1,z]` indexes that array with the comma expression `z`; the cube branch returns five entries, the third a number or undefined | `adjacent([0,0,0])`: the third entry is `1`, and the neighbours `(1,0,-1)` and `(1,-1,0)` are absent | six neighbours, in the same order as the row branch | not executed | Hexagons.AdjacentCubeAsWritten (see AdjacentCubeAsWrittenLosesNeighbours, AdjacentCubeAsWrittenAtOrigin) | Hexagons.AdjacentCube (see AdjacentCubeDirections, AdjacentRowMatchesCube) |
