/** The exported Unicode tables: identifier ranges and the SimpleFold cycles
    (`validate_tables` in scripts/s05_tables.py). */
module FoldTables {

  const MAX_POINT := 0x10FFFF

  // --- identifier ranges ---------------------------------------------------------------

  /** Every `stride`-th code point from `lo` to `hi`. */
  datatype Range = Range(lo: int, hi: int, stride: int)
  {
    predicate Contains(point: int)
      requires stride > 0
    {
      lo <= point <= hi && (point - lo) % stride == 0
    }
  }

  predicate StrideOk(r: Range) {
    r.stride > 0 && (r.hi - r.lo) % r.stride == 0
  }

  predicate RangeOk(previous: int, r: Range) {
    previous < r.lo <= r.hi <= MAX_POINT && StrideOk(r)
  }

  /** `previous` when the loop reaches row `i`. */
  function LastPoint(rows: seq<Range>, i: nat): int
    requires i <= |rows|
  {
    if i == 0 then -1 else rows[i - 1].hi
  }

  /** Ranges ascend without overlap. */
  predicate RangesOk(rows: seq<Range>) {
    rows != [] && forall i | 0 <= i < |rows| :: RangeOk(LastPoint(rows, i), rows[i])
  }

  method ValidateRanges(rows: seq<Range>) returns (ok: bool)
    ensures ok <==> RangesOk(rows)
  {
    if rows == [] {
      return false;
    }
    var previous: int := -1;
    for i := 0 to |rows|
      invariant previous == LastPoint(rows, i)
      invariant forall k | 0 <= k < i :: RangeOk(LastPoint(rows, k), rows[k])
    {
      if !RangeOk(previous, rows[i]) {
        return false;
      }
      previous := rows[i].hi;
    }
    return true;
  }

  lemma {:induction false} RangesAscend(rows: seq<Range>, i: nat, j: nat)
    requires RangesOk(rows) && i < j < |rows|
    ensures 0 <= rows[i].lo && rows[i].hi < rows[j].lo
    decreases j
  {
    hide StrideOk;
    assert RangeOk(LastPoint(rows, i), rows[i]);
    assert RangeOk(LastPoint(rows, j), rows[j]);
    if i > 0 {
      RangesAscend(rows, 0, i);
    }
    if i + 1 < j {
      RangesAscend(rows, i, j - 1);
      assert RangeOk(LastPoint(rows, j - 1), rows[j - 1]);
    }
  }

  /** A code point is in at most one range, and each range ends on a point it contains. */
  lemma RangesDisjoint(rows: seq<Range>, point: int)
    requires RangesOk(rows)
    ensures forall i | 0 <= i < |rows| :: rows[i].stride > 0 && rows[i].Contains(rows[i].lo) && rows[i].Contains(rows[i].hi)
    ensures forall i, j | 0 <= i < |rows| && 0 <= j < |rows| ::
              rows[i].stride > 0 && rows[j].stride > 0 && rows[i].Contains(point) && rows[j].Contains(point) ==> i == j
  {
    forall i | 0 <= i < |rows|
      ensures rows[i].stride > 0 && rows[i].Contains(rows[i].lo) && rows[i].Contains(rows[i].hi)
    {
      assert RangeOk(LastPoint(rows, i), rows[i]);
    }
    forall i, j | 0 <= i < j < |rows| ensures rows[i].hi < rows[j].lo {
      RangesAscend(rows, i, j);
    }
  }

  ghost predicate Steps(r: Range, n: int) {
    n >= 0 && r.hi == r.lo + n * r.stride
  }

  /** A range of code points that ends a whole number of positive strides after its start. */
  ghost predicate RangeFits(r: Range) {
    0 <= r.lo && r.hi <= 0x10FFFF && r.stride >= 1 && exists n :: Steps(r, n)
  }

  lemma StrideIff(r: Range)
    requires r.stride >= 1
    ensures (exists n :: Steps(r, n)) <==> r.lo <= r.hi && StrideOk(r)
  {
    var d, s := r.hi - r.lo, r.stride;
    if d >= 0 && d % s == 0 {
      var n := d / s;
      assert d == s * n + d % s;
      assert Steps(r, n);
    }
    if n :| Steps(r, n) {
      MultipleDivides(n, s);
    }
  }

  lemma MultipleIsFar(s: int, t: int)
    requires s >= 1
    ensures (t >= 1 ==> s * t >= s) && (t <= -1 ==> s * t <= -s)
  {
    if t >= 1 {
      assert s * t == s + s * (t - 1) && s * (t - 1) >= 0;
    } else if t <= -1 {
      assert s * t == -s + s * (t + 1) && s * (t + 1) <= 0;
    }
  }

  lemma MultipleDivides(n: int, s: int)
    requires n >= 0 && s >= 1
    ensures n * s >= 0 && (n * s) % s == 0
  {
    var q, r := (n * s) / s, (n * s) % s;
    assert n * s == s * q + r && 0 <= r < s;
    assert s * (n - q) == n * s - s * q == r;
    MultipleIsFar(s, n - q);
  }

  /** Accepted tables are the nonempty lists of fitting ranges, each after the ones before it. */
  lemma RangesIff(rows: seq<Range>)
    ensures RangesOk(rows) <==>
            && rows != []
            && (forall i | 0 <= i < |rows| :: RangeFits(rows[i]))
            && forall i, j | 0 <= i < j < |rows| :: rows[i].hi < rows[j].lo
  {
    hide StrideOk, Steps;
    forall i | 0 <= i < |rows| && rows[i].stride >= 1
      ensures (exists n :: Steps(rows[i], n)) <==> rows[i].lo <= rows[i].hi && StrideOk(rows[i])
    {
      StrideIff(rows[i]);
    }
    if RangesOk(rows) {
      forall i | 0 <= i < |rows| ensures rows[i].stride >= 1 && 0 <= rows[i].lo <= rows[i].hi <= 0x10FFFF && StrideOk(rows[i]) {
        assert RangeOk(LastPoint(rows, i), rows[i]);
        StridePositive(rows[i]);
        if i > 0 {
          RangesAscend(rows, 0, i);
        }
      }
      forall i, j | 0 <= i < j < |rows| ensures rows[i].hi < rows[j].lo {
        RangesAscend(rows, i, j);
      }
    }
  }

  lemma StridePositive(r: Range)
    requires StrideOk(r)
    ensures r.stride >= 1
  {
  }

  // --- SimpleFold ------------------------------------------------------------------------

  predicate PairOk(previous: int, row: (int, int)) {
    previous < row.0 <= MAX_POINT && 0 <= row.1 <= MAX_POINT && row.0 != row.1
  }

  function LastKey(fold: seq<(int, int)>, i: nat): int
    requires i <= |fold|
  {
    if i == 0 then -1 else fold[i - 1].0
  }

  predicate PairsOk(fold: seq<(int, int)>) {
    fold != [] && forall i | 0 <= i < |fold| :: PairOk(LastKey(fold, i), fold[i])
  }

  /** `dict(fold)`. */
  function Mapping(fold: seq<(int, int)>): map<int, int> {
    if fold == [] then map[] else Mapping(fold[..|fold| - 1])[fold[|fold| - 1].0 := fold[|fold| - 1].1]
  }

  /** The table maps its keys one to one into themselves. */
  ghost predicate Permutes(m: map<int, int>) {
    && (forall k <- m :: m[k] in m)
    && (forall a, b | a in m && b in m && m[a] == m[b] :: a == b)
  }

  /** A walk from its first element that repeats nothing. */
  ghost predicate Walk(m: map<int, int>, path: seq<int>) {
    && path != []
    && (forall i | 0 <= i < |path| :: path[i] in m)
    && (forall i | 0 <= i < |path| - 1 :: m[path[i]] == path[i + 1])
    && (forall i, j | 0 <= i < j < |path| :: path[i] != path[j])
  }

  /** The walk comes back to where it started. */
  ghost predicate Orbit(m: map<int, int>, path: seq<int>) {
    Walk(m, path) && m[path[|path| - 1]] == path[0]
  }

  ghost predicate OnOrbit(m: map<int, int>, start: int) {
    exists path :: Orbit(m, path) && path[0] == start
  }

  /** The walk so far: it started at `start` and goes on at `current`. */
  ghost predicate Walked(m: map<int, int>, start: int, path: seq<int>, current: int) {
    if path == [] then current == start
    else Walk(m, path) && path[0] == start && m[path[|path| - 1]] == current
  }

  lemma WalkedNext(m: map<int, int>, start: int, path: seq<int>, current: int)
    requires Walked(m, start, path, current) && current in m && current !in path
    ensures Walked(m, start, path + [current], m[current])
  {
  }

  /** The inner loop: follows one key until it repeats. It terminates because
      the keys not yet seen run out. */
  method WalkFrom(m: map<int, int>, start: int) returns (ok: bool)
    requires start in m
    ensures ok <==> OnOrbit(m, start)
    ensures !ok ==> !Permutes(m)
  {
    hide Walk, Permutes;
    var seen: set<int> := {};
    var current := start;
    ghost var path: seq<int> := [];
    while current !in seen
      invariant seen <= m.Keys && forall k :: k in seen <==> k in path
      invariant Walked(m, start, path, current)
      decreases |m.Keys - seen|
    {
      if current !in m {
        LeavesTable(m, start, path, current);
        return false;
      }
      assert m.Keys - (seen + {current}) < m.Keys - seen by { assert current in m.Keys - seen; }
      FewerLeft(m.Keys - (seen + {current}), m.Keys - seen);
      WalkedNext(m, start, path, current);
      seen := seen + {current};
      path := path + [current];
      current := m[current];
    }
    ghost var i :| 0 <= i < |path| && path[i] == current;
    if current != start {
      RhoShaped(m, path, i);
      return false;
    }
    assert Orbit(m, path);
    return true;
  }

  lemma FewerLeft(a: set<int>, b: set<int>)
    requires a < b
    ensures |a| < |b|
  {
    assert |b| == |a| + |b - a| by {
      assert b == a + (b - a);
    }
    assert b - a == {} ==> b <= a;
  }

  lemma LeavesTable(m: map<int, int>, start: int, path: seq<int>, current: int)
    requires start in m && current !in m
    requires path != [] && Walk(m, path) && path[0] == start && m[path[|path| - 1]] == current
    ensures !OnOrbit(m, start) && !Permutes(m)
  {
    var n := |path| - 1;
    forall other | Orbit(m, other) ensures other[0] != start {
      if other[0] == start {
        OrbitContains(m, other, path, n);
        var j :| 0 <= j < |other| && other[j] == path[n];
        OrbitClosed(m, other, j);
        assert false;
      }
    }
    assert path[n] in m && m[path[n]] !in m;
  }

  /** An orbit is closed under the table. */
  lemma OrbitClosed(m: map<int, int>, orbit: seq<int>, j: nat)
    requires Orbit(m, orbit) && j < |orbit|
    ensures m[orbit[j]] in orbit && m[orbit[j]] in m
    ensures m[orbit[j]] == orbit[if j + 1 < |orbit| then j + 1 else 0]
  {
    if j + 1 < |orbit| {
      assert orbit[j + 1] in orbit;
    } else {
      assert orbit[0] in orbit;
    }
  }

  lemma {:induction false} OrbitContains(m: map<int, int>, orbit: seq<int>, path: seq<int>, i: nat)
    requires Orbit(m, orbit) && Walk(m, path) && path[0] in orbit && i < |path|
    ensures path[i] in orbit
  {
    if i > 0 {
      OrbitContains(m, orbit, path, i - 1);
      var j :| 0 <= j < |orbit| && orbit[j] == path[i - 1];
      OrbitClosed(m, orbit, j);
      assert m[path[i - 1]] == path[i - 1 + 1];
    }
  }

  /** A walk that comes back anywhere but to its start is not on an orbit. */
  lemma RhoShaped(m: map<int, int>, path: seq<int>, i: nat)
    requires Walk(m, path) && 0 < i < |path| && m[path[|path| - 1]] == path[i]
    ensures !OnOrbit(m, path[0]) && !Permutes(m)
  {
    var n := |path| - 1;
    assert m[path[i - 1]] == path[i - 1 + 1] == m[path[n]];
    assert path[i - 1] != path[n];
    forall orbit | Orbit(m, orbit) ensures orbit[0] != path[0] {
      if orbit[0] == path[0] {
        OrbitContains(m, orbit, path, n);
        OrbitContains(m, orbit, path, i - 1);
        OrbitInjective(m, orbit, path[i - 1], path[n]);
        assert false;
      }
    }
  }

  lemma OrbitInjective(m: map<int, int>, orbit: seq<int>, a: int, b: int)
    requires Orbit(m, orbit) && a in orbit && b in orbit && m[a] == m[b]
    ensures a == b
  {
    var i :| 0 <= i < |orbit| && orbit[i] == a;
    var j :| 0 <= j < |orbit| && orbit[j] == b;
    OrbitClosed(m, orbit, i);
    OrbitClosed(m, orbit, j);
  }

  lemma TailWalk(m: map<int, int>, path: seq<int>)
    requires Walk(m, path) && |path| > 1
    ensures Walk(m, path[1..])
  {
    var tail := path[1..];
    forall i | 0 <= i < |tail| - 1 ensures m[tail[i]] == tail[i + 1] {
      assert m[path[i + 1]] == path[i + 1 + 1];
    }
  }

  ghost predicate Preceded(m: map<int, int>, k: int) {
    exists before :: before in m && m[before] == k
  }

  lemma OrbitLinks(m: map<int, int>, k: int)
    requires OnOrbit(m, k)
    ensures k in m && m[k] in m && Preceded(m, k)
  {
    var path :| Orbit(m, path) && path[0] == k;
    OrbitClosed(m, path, 0);
    assert path[|path| - 1] in m;
  }

  /** A key whose image lies on an orbit that returns through it is itself on that orbit. */
  lemma SameOrbit(m: map<int, int>, orbit: seq<int>, b: int)
    requires Orbit(m, orbit) && OnOrbit(m, b) && m[b] in orbit
    ensures b in orbit
  {
    var other :| Orbit(m, other) && other[0] == b;
    OrbitClosed(m, other, 0);
    if |other| > 1 {
      var tail := other[1..];
      TailWalk(m, other);
      assert tail[0] == m[b];
      OrbitContains(m, orbit, tail, |tail| - 1);
      var j :| 0 <= j < |orbit| && orbit[j] == tail[|tail| - 1];
      OrbitClosed(m, orbit, j);
      assert m[tail[|tail| - 1]] == b;
    }
  }

  /** Every key on an orbit makes the table a permutation of its keys, onto as well as one to one. */
  lemma OrbitsPermute(m: map<int, int>)
    requires forall k <- m :: OnOrbit(m, k)
    ensures Permutes(m)
    ensures forall k <- m :: Preceded(m, k)
  {
    hide OnOrbit;
    forall k <- m ensures m[k] in m && Preceded(m, k) {
      OrbitLinks(m, k);
    }
    forall a, b | a in m && b in m && m[a] == m[b] ensures a == b {
      OnePredecessor(m, a, b);
    }
  }

  lemma OnePredecessor(m: map<int, int>, a: int, b: int)
    requires OnOrbit(m, a) && OnOrbit(m, b) && a in m && b in m && m[a] == m[b]
    ensures a == b
  {
    var orbit :| Orbit(m, orbit) && orbit[0] == a;
    OrbitClosed(m, orbit, 0);
    SameOrbit(m, orbit, b);
    assert orbit[0] in orbit;
    OrbitInjective(m, orbit, a, b);
  }

  lemma {:induction false} MappingKeys(fold: seq<(int, int)>)
    requires forall i, j | 0 <= i < j < |fold| :: fold[i].0 != fold[j].0
    ensures forall i | 0 <= i < |fold| :: fold[i].0 in Mapping(fold) && Mapping(fold)[fold[i].0] == fold[i].1
    ensures forall k <- Mapping(fold) :: HasKey(fold, k)
  {
    if fold != [] {
      var n := |fold| - 1;
      var front := fold[..n];
      MappingKeys(front);
      forall i | 0 <= i < |fold| ensures fold[i].0 in Mapping(fold) && Mapping(fold)[fold[i].0] == fold[i].1 {
        if i < n {
          assert front[i] == fold[i];
        }
      }
      forall k <- Mapping(fold) ensures HasKey(fold, k) {
        if k != fold[n].0 {
          assert HasKey(front, k);
          var i :| 0 <= i < n && front[i].0 == k;
          assert fold[i].0 == k;
        }
      }
    }
  }

  ghost predicate HasKey(fold: seq<(int, int)>, key: int) {
    exists i | 0 <= i < |fold| :: fold[i].0 == key
  }

  lemma PairsDistinct(fold: seq<(int, int)>)
    requires PairsOk(fold)
    ensures forall i, j | 0 <= i < j < |fold| :: fold[i].0 < fold[j].0
  {
    forall i, j | 0 <= i < j < |fold| ensures fold[i].0 < fold[j].0 {
      KeysAscend(fold, i, j);
    }
  }

  /** A fixed-point-free permutation of strictly ascending keys. */
  ghost predicate FoldOk(fold: seq<(int, int)>) {
    PairsOk(fold) && Permutes(Mapping(fold))
  }

  method PairsInOrder(fold: seq<(int, int)>) returns (ok: bool)
    ensures ok <==> PairsOk(fold)
  {
    if fold == [] {
      return false;
    }
    var previous: int := -1;
    for i := 0 to |fold|
      invariant previous == LastKey(fold, i)
      invariant forall k | 0 <= k < i :: PairOk(LastKey(fold, k), fold[k])
    {
      if !PairOk(previous, fold[i]) {
        return false;
      }
      previous := fold[i].0;
    }
    return true;
  }

  /** The SimpleFold checks: rows in order, then one walk from every key. They
      accept exactly the fixed-point-free permutations. */
  method ValidateFold(fold: seq<(int, int)>) returns (ok: bool)
    ensures ok <==> FoldOk(fold)
  {
    hide OnOrbit, Permutes, Mapping, PairsOk;
    var ordered := PairsInOrder(fold);
    if !ordered {
      return false;
    }
    var m := Mapping(fold);
    PairsDistinct(fold);
    MappingKeys(fold);
    for i := 0 to |fold|
      invariant forall k | 0 <= k < i :: OnOrbit(m, fold[k].0)
    {
      var cyclic := WalkFrom(m, fold[i].0);
      if !cyclic {
        return false;
      }
    }
    forall k <- m ensures OnOrbit(m, k) {
      assert HasKey(fold, k);
    }
    OrbitsPermute(m);
    return true;
  }

  /** In an accepted table every row moves its point, and every point of the
      table folds to it from exactly one other. */
  lemma FoldMeans(fold: seq<(int, int)>, i: nat)
    requires FoldOk(fold) && i < |fold|
    ensures fold[i].0 != fold[i].1
    ensures exists j | 0 <= j < |fold| :: fold[j].0 == fold[i].1
    ensures forall j | 0 <= j < |fold| && fold[j].1 == fold[i].1 :: j == i
  {
    PairsDistinct(fold);
    MappingKeys(fold);
    var m := Mapping(fold);
    assert PairOk(LastKey(fold, i), fold[i]);
    assert m[fold[i].0] == fold[i].1;
    forall j | 0 <= j < |fold| && fold[j].1 == fold[i].1 ensures j == i {
      assert m[fold[j].0] == fold[j].1;
      assert fold[j].0 == fold[i].0;
    }
    assert HasKey(fold, m[fold[i].0]);
  }

  lemma LastKeyIs(fold: seq<(int, int)>, i: nat)
    requires 0 < i <= |fold|
    ensures LastKey(fold, i) == fold[i - 1].0
  {
  }

  lemma {:induction false} KeysAscend(fold: seq<(int, int)>, i: nat, j: nat)
    requires PairsOk(fold) && i < j < |fold|
    ensures fold[i].0 < fold[j].0
    decreases j
  {
    hide LastKey;
    assert PairOk(LastKey(fold, j), fold[j]);
    LastKeyIs(fold, j);
    if i + 1 < j {
      KeysAscend(fold, i, j - 1);
    }
  }

  lemma {:induction false} FirstKeyLeast(fold: seq<(int, int)>, i: nat)
    requires PairsOk(fold) && i < |fold|
    ensures 0 <= fold[i].0 <= 0x10FFFF && fold[i].0 != fold[i].1
  {
    assert PairOk(LastKey(fold, i), fold[i]);
    assert PairOk(LastKey(fold, 0), fold[0]);
    if i > 0 {
      KeysAscend(fold, 0, i);
    }
  }

  /** A nonempty table of ascending code points in which every row moves its point to a
      key, and no two rows to the same one. */
  ghost predicate FoldFits(fold: seq<(int, int)>) {
    && fold != []
    && (forall i | 0 <= i < |fold| :: 0 <= fold[i].0 <= 0x10FFFF && fold[i].0 != fold[i].1 && HasKey(fold, fold[i].1))
    && (forall i, j | 0 <= i < j < |fold| :: fold[i].0 < fold[j].0)
    && forall i, j | 0 <= i < j < |fold| :: fold[i].1 != fold[j].1
  }

  /** The accepted folds are exactly those tables. */
  lemma FoldIff(fold: seq<(int, int)>)
    ensures FoldOk(fold) <==> FoldFits(fold)
  {
    hide FoldOk, FoldFits;
    if FoldOk(fold) {
      OkFits(fold);
    }
    if FoldFits(fold) {
      FitsPairs(fold);
      FitsPermutes(fold);
    }
  }

  lemma OkFits(fold: seq<(int, int)>)
    requires FoldOk(fold)
    ensures FoldFits(fold)
  {
    hide Mapping, Permutes, PairOk, LastKey;
    PairsDistinct(fold);
    forall i | 0 <= i < |fold|
      ensures 0 <= fold[i].0 <= 0x10FFFF && fold[i].0 != fold[i].1 && HasKey(fold, fold[i].1)
      ensures forall j | 0 <= j < |fold| && fold[j].1 == fold[i].1 :: j == i
    {
      FirstKeyLeast(fold, i);
      FoldMeans(fold, i);
    }
  }

  lemma FitsPair(fold: seq<(int, int)>, i: nat)
    requires FoldFits(fold) && i < |fold|
    ensures LastKey(fold, i) < fold[i].0 <= 0x10FFFF && 0 <= fold[i].1 <= 0x10FFFF && fold[i].0 != fold[i].1
  {
    hide HasKey;
    assert i > 0 ==> fold[i - 1].0 < fold[i].0;
    var j := KeyRow(fold, fold[i].1);
  }

  lemma KeyRow(fold: seq<(int, int)>, key: int) returns (j: nat)
    requires HasKey(fold, key)
    ensures j < |fold| && fold[j].0 == key
  {
    j :| 0 <= j < |fold| && fold[j].0 == key;
  }

  lemma FitsPairs(fold: seq<(int, int)>)
    requires FoldFits(fold)
    ensures PairsOk(fold)
  {
    assert fold != [];
    hide FoldFits, LastKey;
    forall i | 0 <= i < |fold| ensures PairOk(LastKey(fold, i), fold[i]) {
      FitsPair(fold, i);
    }
  }

  lemma RowOf(fold: seq<(int, int)>, k: int) returns (i: nat)
    requires FoldFits(fold) && k in Mapping(fold)
    ensures i < |fold| && fold[i].0 == k && Mapping(fold)[k] == fold[i].1
  {
    hide Mapping, HasKey;
    MappingKeys(fold);
    i := KeyRow(fold, k);
  }

  lemma FitsPermutes(fold: seq<(int, int)>)
    requires FoldFits(fold) && PairsOk(fold)
    ensures FoldOk(fold)
  {
    hide Mapping, PairsOk, HasKey;
    var m := Mapping(fold);
    MappingKeys(fold);
    forall k <- m ensures m[k] in m {
      var i := RowOf(fold, k);
      var j := KeyRow(fold, fold[i].1);
    }
    forall a, b | a in m && b in m && m[a] == m[b] ensures a == b {
      var i := RowOf(fold, a);
      var j := RowOf(fold, b);
      assert i == j;
    }
  }
}
