/**
 * The integer helpers and the two sparse containers of utils.js:
 * `mod`, `rotateLeft6`, `rotateRight6`, `Map2D` and `Set2D`.
 */
module Utils {

  datatype Option<T> = None | Some(value: T)

  function Abs(n: int): nat
  {
    if n < 0 then -n else n
  }

  // ---------------------------------------------------------------------------
  // mod (utils.js:1-3)
  // ---------------------------------------------------------------------------

  /** JavaScript's `%` on integers: division truncated toward zero, so the
      remainder takes the sign of the dividend. */
  function JsRemainder(n: int, m: int): (r: int)
    requires m != 0
    ensures Abs(r) < Abs(m)
    ensures n >= 0 ==> r >= 0
    ensures n <= 0 ==> r <= 0
  {
    if n >= 0 then n % Abs(m) else -((-n) % Abs(m))
  }

  /** `((n % m) + m) % m`, with JavaScript's `%`. */
  function Mod(n: int, m: int): (r: int)
    requires m != 0
    ensures m > 0 ==> 0 <= r < m
    ensures m < 0 ==> m < r <= 0
  {
    JsRemainder(JsRemainder(n, m) + m, m)
  }

  lemma {:induction false} MulAtLeast(m: int, d: int)
    requires m > 0 && d >= 1
    ensures m * d >= m
  {
    if d > 1 {
      MulAtLeast(m, d - 1);
      assert m * d == m * (d - 1) + m;
    }
  }

  lemma {:induction false} MulAtMost(m: int, d: int)
    requires m > 0 && d <= -1
    ensures m * d <= -m
    decreases -d
  {
    if d < -1 {
      MulAtMost(m, d + 1);
      assert m * d == m * (d + 1) - m;
    }
  }

  /** Euclidean division is determined by its quotient and remainder. */
  lemma EuclidUnique(a: int, m: int, q: int, r: int)
    requires m > 0 && 0 <= r < m && a == m * q + r
    ensures a % m == r && a / m == q
  {
    var q', r' := a / m, a % m;
    var d := q - q';
    assert m * d == r' - r;
    if d >= 1 {
      MulAtLeast(m, d);
    } else if d <= -1 {
      MulAtMost(m, d);
    }
  }

  /** For a positive modulus, `mod` is the floored remainder: it lies in
      [0, m), it is congruent to n, and it agrees with Dafny's `%`. */
  lemma {:induction false} ModIsFloored(n: int, m: int)
    requires m > 0
    ensures 0 <= Mod(n, m) < m
    ensures Mod(n, m) == n % m
    ensures (n - Mod(n, m)) % m == 0
  {
    if n >= 0 {
      var t := n % m;
      EuclidUnique(t + m, m, 1, t);
    } else {
      var p, u := (-n) / m, (-n) % m;
      assert -n == m * p + u;
      if u == 0 {
        EuclidUnique(m, m, 1, 0);
        EuclidUnique(n, m, -p, 0);
      } else {
        EuclidUnique(m - u, m, 0, m - u);
        EuclidUnique(n, m, -p - 1, m - u);
      }
    }
    var r := Mod(n, m);
    assert n == m * (n / m) + r;
    EuclidUnique(n - r, m, n / m, 0);
  }

  /** For a negative modulus the floored remainder takes the divisor's sign
      and is still congruent to n. */
  lemma {:induction false} ModNegativeDivisor(n: int, m: int)
    requires m < 0
    ensures m < Mod(n, m) <= 0
    ensures (n - Mod(n, m)) % (-m) == 0
  {
    var k := -m;
    if n >= 0 {
      var p, t := n / k, n % k;
      assert n == k * p + t;
      if t == 0 {
        EuclidUnique(k, k, 1, 0);
        assert Mod(n, m) == 0;
        EuclidUnique(n, k, p, 0);
      } else {
        EuclidUnique(k - t, k, 0, k - t);
        assert Mod(n, m) == t - k;
        EuclidUnique(n - (t - k), k, p + 1, 0);
      }
    } else {
      var p, u := (-n) / k, (-n) % k;
      assert -n == k * p + u;
      EuclidUnique(k + u, k, 1, u);
      assert Mod(n, m) == -u;
      EuclidUnique(n + u, k, -p, 0);
    }
  }

  // ---------------------------------------------------------------------------
  // rotateLeft6, rotateRight6 (utils.js:4-9)
  // ---------------------------------------------------------------------------

  /** JavaScript's `>>` on a 32-bit integer: the sign bit is copied in. */
  function SignedShiftRight(n: bv32, k: bv32): (r: bv32)
    requires k < 32
    ensures n & 0x8000_0000 == 0 ==> r == n >> k
  {
    if n & 0x8000_0000 == 0 then n >> k else (n >> k) | !(0xFFFF_FFFF >> k)
  }

  /** `((n << 1) | (n >> 5)) & 0b111111`, on the 32-bit pattern of n. */
  function RotateLeft6(n: bv32): (r: bv32)
    ensures r < 64
  {
    ((n << 1) | SignedShiftRight(n, 5)) & 0x3F
  }

  /** `((n >> 1) | (n << 5)) & 0b111111`, on the 32-bit pattern of n. */
  function RotateRight6(n: bv32): (r: bv32)
    ensures r < 64
  {
    (SignedShiftRight(n, 1) | (n << 5)) & 0x3F
  }

  /** The mask discards every bit that the sign copy of `>>` sets, so an
      unsigned shift gives the same rotations. */
  lemma RotationsIgnoreSign(n: bv32)
    ensures RotateLeft6(n) == (((n << 1) | (n >> 5)) & 0x3F)
    ensures RotateRight6(n) == (((n >> 1) | (n << 5)) & 0x3F)
  {
  }

  /** On six-bit values the two rotations undo each other. */
  lemma RotationsInverse(n: bv32)
    requires n < 64
    ensures RotateRight6(RotateLeft6(n)) == n
    ensures RotateLeft6(RotateRight6(n)) == n
  {
  }

  /** `k` successive left rotations. */
  function RotateLeft6Times(n: bv32, k: nat): bv32
  {
    if k == 0 then n else RotateLeft6(RotateLeft6Times(n, k - 1))
  }

  /** Six left rotations of a six-bit value give it back, so trying at most
      six rotations visits every rotation of a neighbour signature. */
  lemma RotateSixTimesIsIdentity(n: bv32)
    requires n < 64
    ensures RotateLeft6Times(n, 6) == n
  {
    var r1 := RotateLeft6(n);
    var r2 := RotateLeft6(r1);
    var r3 := RotateLeft6(r2);
    var r4 := RotateLeft6(r3);
    var r5 := RotateLeft6(r4);
    assert RotateLeft6Times(n, 1) == r1;
    assert RotateLeft6Times(n, 2) == r2;
    assert RotateLeft6Times(n, 3) == r3;
    assert RotateLeft6Times(n, 4) == r4;
    assert RotateLeft6Times(n, 5) == r5;
  }

  // ---------------------------------------------------------------------------
  // Shared reasoning about two-level stores
  // ---------------------------------------------------------------------------

  /** The keys (x, y) of a bucket map whose first coordinate lies in xs. */
  ghost function FlattenMap<V>(space: map<int, map<int, V>>, xs: set<int>): set<(int, int)>
  {
    set x, y | x in xs && x in space && y in space[x] :: (x, y)
  }

  /** The keys (x, y) of a bucket set whose first coordinate lies in xs. */
  ghost function FlattenSet(space: map<int, set<int>>, xs: set<int>): set<(int, int)>
  {
    set x, y | x in xs && x in space && y in space[x] :: (x, y)
  }

  /** A non-empty set has a member to pick. */
  lemma NonEmptyHasMember(s: set<int>)
    requires s != {}
    ensures exists x :: x in s
  {
    if forall x :: x !in s {
      assert false;
    }
  }

  ghost function Column(x: int, ys: set<int>): set<(int, int)>
  {
    set y | y in ys :: (x, y)
  }

  /** Pairing every member of ys with a fixed x loses nothing. */
  lemma {:induction false} ColumnSize(x: int, ys: set<int>)
    ensures |Column(x, ys)| == |ys|
  {
    if ys != {} {
      NonEmptyHasMember(ys);
      var y :| y in ys;
      ColumnSize(x, ys - {y});
      assert Column(x, ys) == Column(x, ys - {y}) + {(x, y)};
    }
  }

  lemma FlattenMapStep<V>(space: map<int, map<int, V>>, xs: set<int>, x: int)
    requires x in space && x !in xs
    ensures |FlattenMap(space, xs + {x})| == |FlattenMap(space, xs)| + |space[x]|
  {
    assert FlattenMap(space, xs + {x}) == FlattenMap(space, xs) + Column(x, space[x].Keys);
    assert FlattenMap(space, xs) !! Column(x, space[x].Keys);
    ColumnSize(x, space[x].Keys);
  }

  lemma FlattenSetStep(space: map<int, set<int>>, xs: set<int>, x: int)
    requires x in space && x !in xs
    ensures |FlattenSet(space, xs + {x})| == |FlattenSet(space, xs)| + |space[x]|
  {
    assert FlattenSet(space, xs + {x}) == FlattenSet(space, xs) + Column(x, space[x]);
    assert FlattenSet(space, xs) !! Column(x, space[x]);
    ColumnSize(x, space[x]);
  }

  // ---------------------------------------------------------------------------
  // Map2D (utils.js:10-58)
  // ---------------------------------------------------------------------------

  /** A map keyed by integer pairs, stored as one inner map (bucket) per first
      coordinate. `Contents` is the map of pairs it stands for. */
  class Map2D<V> {
    var space: map<int, map<int, V>>
    ghost var Contents: map<(int, int), V>

    ghost predicate Valid()
      reads this
    {
      && (forall p :: p in Contents ==> p.0 in space && p.1 in space[p.0] && space[p.0][p.1] == Contents[p])
      && (forall p: (int, int) :: p.0 in space && p.1 in space[p.0] ==> p in Contents)
    }

    constructor ()
      ensures Valid() && Contents == map[] && space == map[]
    {
      space := map[];
      Contents := map[];
    }

    /** Creates the bucket of key.0 when it is missing, stores the value and
        returns the key it was given. */
    method Put(key: (int, int), value: V) returns (r: (int, int))
      requires Valid()
      modifies this
      ensures Valid()
      ensures r == key
      ensures Contents == old(Contents)[key := value]
      ensures space.Keys == old(space.Keys) + {key.0}
    {
      if key.0 !in space {
        space := space[key.0 := map[]];
      }
      space := space[key.0 := space[key.0][key.1 := value]];
      Contents := Contents[key := value];
      r := key;
    }

    /** Removes the key; the answer says whether it was there. Buckets stay. */
    method Delete(key: (int, int)) returns (had: bool)
      requires Valid()
      modifies this
      ensures Valid()
      ensures had <==> key in old(Contents)
      ensures Contents == old(Contents) - {key}
      ensures space.Keys == old(space.Keys)
    {
      had := Has(key);
      if had {
        space := space[key.0 := space[key.0] - {key.1}];
        Contents := Contents - {key};
      }
    }

    function Has(key: (int, int)): (present: bool)
      reads this
      requires Valid()
      ensures present <==> key in Contents
    {
      key.0 in space && key.1 in space[key.0]
    }

    /** Empties every bucket; the buckets themselves are kept. */
    method Clear()
      requires Valid()
      modifies this
      ensures Valid()
      ensures Contents == map[]
      ensures space.Keys == old(space.Keys)
    {
      var buckets := space.Keys;
      while buckets != {}
        invariant buckets <= space.Keys
        invariant space.Keys == old(space.Keys)
        invariant forall p: (int, int) :: p.0 in space && p.1 in space[p.0] ==> p.0 in buckets
        decreases buckets
      {
        NonEmptyHasMember(buckets);
        var x :| x in buckets;
        space := space[x := map[]];
        buckets := buckets - {x};
      }
      Contents := map[];
    }

    /** Sums the sizes of the buckets: the number of stored keys. */
    method Size() returns (n: nat)
      requires Valid()
      ensures n == |Contents|
    {
      n := 0;
      var buckets := space.Keys;
      while buckets != {}
        invariant buckets <= space.Keys
        invariant n == |FlattenMap(space, space.Keys - buckets)|
        decreases buckets
      {
        NonEmptyHasMember(buckets);
        var x :| x in buckets;
        FlattenMapStep(space, space.Keys - buckets, x);
        assert (space.Keys - buckets) + {x} == space.Keys - (buckets - {x});
        n := n + |space[x]|;
        buckets := buckets - {x};
      }
      forall p | p in Contents
        ensures p in FlattenMap(space, space.Keys)
      {
        var (x, y) := p;
        assert x in space && y in space[x];
      }
      assert space.Keys - buckets == space.Keys;
      assert FlattenMap(space, space.Keys) == Contents.Keys;
    }

    /** The undefined sentinel (None) for an absent key. */
    function Get(key: (int, int)): (r: Option<V>)
      reads this
      requires Valid()
      ensures r.Some? <==> key in Contents
      ensures r.Some? ==> r.value == Contents[key]
    {
      if Has(key) then Some(space[key.0][key.1]) else None
    }

    /** `es` lists exactly the keys in `seen`, each once, with its stored value. */
    ghost predicate Lists(es: seq<((int, int), V)>, seen: set<(int, int)>)
      reads this
    {
      (forall k :: 0 <= k < |es| ==> es[k].0 in seen && es[k].0 in Contents && Contents[es[k].0] == es[k].1) &&
      (forall j, k :: 0 <= j < k < |es| ==> es[j].0 != es[k].0) &&
      (forall p :: p in seen ==> exists k :: 0 <= k < |es| && es[k].0 == p)
    }

    lemma ListsAppend(es: seq<((int, int), V)>, seen: set<(int, int)>, p: (int, int))
      requires Lists(es, seen) && p !in seen && p in Contents
      ensures Lists(es + [(p, Contents[p])], seen + {p})
    {
      var es' := es + [(p, Contents[p])];
      forall q | q in seen + {p}
        ensures exists k :: 0 <= k < |es'| && es'[k].0 == q
      {
        if q == p {
          assert es'[|es|].0 == q;
        } else {
          var k :| 0 <= k < |es| && es[k].0 == q;
          assert es'[k].0 == q;
        }
      }
    }

    /** Everything the iterator yields, bucket by bucket, in one sequence. */
    method Entries() returns (es: seq<((int, int), V)>)
      requires Valid()
      ensures forall k :: 0 <= k < |es| ==> es[k].0 in Contents && Contents[es[k].0] == es[k].1
      ensures forall j, k :: 0 <= j < k < |es| ==> es[j].0 != es[k].0
      ensures forall p :: p in Contents ==> exists k :: 0 <= k < |es| && es[k].0 == p
    {
      es := [];
      var buckets := space.Keys;
      ghost var seen: set<(int, int)> := {};
      while buckets != {}
        invariant buckets <= space.Keys
        invariant seen == FlattenMap(space, space.Keys - buckets)
        invariant Lists(es, seen)
        decreases buckets
      {
        NonEmptyHasMember(buckets);
        var x :| x in buckets;
        var bucket := space[x];
        var ys := bucket.Keys;
        while ys != {}
          invariant ys <= bucket.Keys
          invariant seen == FlattenMap(space, space.Keys - buckets) + Column(x, bucket.Keys - ys)
          invariant Lists(es, seen)
          decreases ys
        {
          NonEmptyHasMember(ys);
          var y :| y in ys;
          assert (x, y) !in seen;
          ListsAppend(es, seen, (x, y));
          es := es + [((x, y), bucket[y])];
          seen := seen + {(x, y)};
          ys := ys - {y};
        }
        assert FlattenMap(space, space.Keys - (buckets - {x})) == FlattenMap(space, space.Keys - buckets) + Column(x, bucket.Keys);
        buckets := buckets - {x};
      }
      forall p | p in Contents
        ensures p in seen
      {
        var (x, y) := p;
        assert x in space && y in space[x];
      }
    }
  }

  // ---------------------------------------------------------------------------
  // Set2D (utils.js:60-103)
  // ---------------------------------------------------------------------------

  /** A set of integer pairs, stored as one inner set (bucket) per first
      coordinate. `Contents` is the set of pairs it stands for. */
  class Set2D {
    var space: map<int, set<int>>
    ghost var Contents: set<(int, int)>

    ghost predicate Valid()
      reads this
    {
      forall p: (int, int) :: p in Contents <==> p.0 in space && p.1 in space[p.0]
    }

    constructor ()
      ensures Valid() && Contents == {} && space == map[]
    {
      space := map[];
      Contents := {};
    }

    /** Creates the bucket of key.0 when it is missing, adds the key and
        returns it. Adding a present key changes nothing. */
    method Add(key: (int, int)) returns (r: (int, int))
      requires Valid()
      modifies this
      ensures Valid()
      ensures r == key
      ensures Contents == old(Contents) + {key}
      ensures space.Keys == old(space.Keys) + {key.0}
    {
      if key.0 !in space {
        space := space[key.0 := {}];
      }
      space := space[key.0 := space[key.0] + {key.1}];
      Contents := Contents + {key};
      r := key;
    }

    /** Removes the key; the answer says whether it was there. Buckets stay. */
    method Delete(key: (int, int)) returns (had: bool)
      requires Valid()
      modifies this
      ensures Valid()
      ensures had <==> key in old(Contents)
      ensures Contents == old(Contents) - {key}
      ensures space.Keys == old(space.Keys)
    {
      had := Has(key);
      if had {
        space := space[key.0 := space[key.0] - {key.1}];
        Contents := Contents - {key};
      }
    }

    /** Empties every bucket; the buckets themselves are kept. */
    method Clear()
      requires Valid()
      modifies this
      ensures Valid()
      ensures Contents == {}
      ensures space.Keys == old(space.Keys)
    {
      var buckets := space.Keys;
      while buckets != {}
        invariant buckets <= space.Keys
        invariant space.Keys == old(space.Keys)
        invariant forall p: (int, int) :: p.0 in space && p.1 in space[p.0] ==> p.0 in buckets
        decreases buckets
      {
        NonEmptyHasMember(buckets);
        var x :| x in buckets;
        space := space[x := {}];
        buckets := buckets - {x};
      }
      Contents := {};
    }

    /** Sums the sizes of the buckets: the number of stored keys. */
    method Size() returns (n: nat)
      requires Valid()
      ensures n == |Contents|
    {
      n := 0;
      var buckets := space.Keys;
      while buckets != {}
        invariant buckets <= space.Keys
        invariant n == |FlattenSet(space, space.Keys - buckets)|
        decreases buckets
      {
        NonEmptyHasMember(buckets);
        var x :| x in buckets;
        FlattenSetStep(space, space.Keys - buckets, x);
        assert (space.Keys - buckets) + {x} == space.Keys - (buckets - {x});
        n := n + |space[x]|;
        buckets := buckets - {x};
      }
      forall p | p in Contents
        ensures p in FlattenSet(space, space.Keys)
      {
        var (x, y) := p;
        assert x in space && y in space[x];
      }
      assert space.Keys - buckets == space.Keys;
      assert FlattenSet(space, space.Keys) == Contents;
    }

    function Has(key: (int, int)): (present: bool)
      reads this
      requires Valid()
      ensures present <==> key in Contents
    {
      key.0 in space && key.1 in space[key.0]
    }

    /** Everything the iterator yields, bucket by bucket, in one sequence. */
    method Elements() returns (es: seq<(int, int)>)
      requires Valid()
      ensures forall k :: 0 <= k < |es| ==> es[k] in Contents
      ensures forall j, k :: 0 <= j < k < |es| ==> es[j] != es[k]
      ensures forall p :: p in Contents ==> p in es
    {
      es := [];
      var buckets := space.Keys;
      ghost var seen: set<(int, int)> := {};
      while buckets != {}
        invariant buckets <= space.Keys
        invariant seen == FlattenSet(space, space.Keys - buckets)
        invariant forall k :: 0 <= k < |es| ==> es[k] in seen && es[k] in Contents
        invariant forall j, k :: 0 <= j < k < |es| ==> es[j] != es[k]
        invariant forall p :: p in seen ==> p in es
        decreases buckets
      {
        NonEmptyHasMember(buckets);
        var x :| x in buckets;
        var bucket := space[x];
        var ys := bucket;
        while ys != {}
          invariant ys <= bucket
          invariant seen == FlattenSet(space, space.Keys - buckets) + Column(x, bucket - ys)
          invariant forall k :: 0 <= k < |es| ==> es[k] in seen && es[k] in Contents
          invariant forall j, k :: 0 <= j < k < |es| ==> es[j] != es[k]
          invariant forall p :: p in seen ==> p in es
          decreases ys
        {
          NonEmptyHasMember(ys);
          var y :| y in ys;
          assert (x, y) !in seen;
          es := es + [(x, y)];
          seen := seen + {(x, y)};
          ys := ys - {y};
        }
        assert FlattenSet(space, space.Keys - (buckets - {x})) == FlattenSet(space, space.Keys - buckets) + Column(x, bucket);
        buckets := buckets - {x};
      }
      forall p | p in Contents
        ensures p in seen
      {
        var (x, y) := p;
        assert x in space && y in space[x];
      }
    }
  }
}
