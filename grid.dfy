/** The road graph: an m-by-n grid of intersections with no turns.
    Roads 0..4v-1 (v = m*n) are the "train" roads, in four direction blocks of v roads:
    block 0 runs along a row towards larger columns, block 1 towards smaller columns,
    block 2 along a column towards larger rows, block 3 towards smaller rows. Road
    b*v + row*n + col of a block ends at intersection row*n + col. The 2n+2m roads after
    them are border roads through which cars leave the grid; they lead nowhere. */
module Grid {

  predicate Dims(m: int, n: int) {
    m >= 1 && n >= 1
  }

  function Intersections(m: int, n: int): int {
    m * n
  }

  function TrainRoads(m: int, n: int): int {
    4 * (m * n)
  }

  function Roads(m: int, n: int): int {
    4 * (m * n) + 2 * n + 2 * m
  }

  /** Direction block of a road (the `i // v` of the layout). */
  function Block(m: int, n: int, i: int): int
    requires Dims(m, n)
  {
    i / (m * n)
  }

  /** Grid row of a train road (the `(i % v) // n` of `next`). */
  function Row(m: int, n: int, i: int): int
    requires Dims(m, n)
  {
    (i % (m * n)) / n
  }

  /** Grid column of a train road (the `i % n` of `next`). */
  function Col(n: int, i: int): int
    requires n >= 1
  {
    i % n
  }

  // ---------------------------------------------------------------------------
  // Arithmetic on road indices

  lemma DivModUnique(x: int, d: int, q: int, r: int)
    requires d > 0 && 0 <= r < d && x == q * d + r
    ensures x / d == q && x % d == r
  {
    var q', r' := x / d, x % d;
    assert x == q' * d + r';
    if q' < q {
      MulMono(q' + 1, q, d);
      Distrib(q', 1, d);
      assert false;
    } else if q' > q {
      MulMono(q + 1, q', d);
      Distrib(q, 1, d);
      assert false;
    }
  }

  lemma MulMono(a: int, b: int, d: int)
    requires a <= b && d >= 0
    ensures a * d <= b * d
  {
    assert b * d - a * d == (b - a) * d;
  }

  lemma Distrib(a: int, b: int, d: int)
    ensures (a + b) * d == a * d + b * d
  {
  }

  lemma Assoc(a: int, b: int, c: int)
    ensures a * (b * c) == (a * b) * c
  {
  }

  /** Road `b*v + row*n + col` lies in block `b`, row `row`, column `col`. */
  lemma Join(m: int, n: int, b: int, row: int, col: int)
    requires Dims(m, n) && 0 <= b < 4 && 0 <= row < m && 0 <= col < n
    ensures var i := b * (m * n) + row * n + col;
      0 <= i < TrainRoads(m, n) && Block(m, n, i) == b && Row(m, n, i) == row && Col(n, i) == col
    ensures var i := b * (m * n) + row * n + col; b * (m * n) <= i < b * (m * n) + m * n
  {
    var v := m * n;
    var rn := row * n;
    var i := b * v + rn + col;
    MulMono(0, row, n);
    MulMono(row + 1, m, n);
    Distrib(row, 1, n);
    assert 0 <= rn + col < v;
    DivModUnique(i, v, b, rn + col);
    DivModUnique(rn + col, n, row, col);
    Assoc(b, m, n);
    Distrib(b * m, row, n);
    assert i == (b * m + row) * n + col;
    DivModUnique(i, n, b * m + row, col);
    MulMono(0, b, v);
    MulMono(b, 3, v);
  }

  /** Every train road is `b*v + row*n + col` for its block, row and column. */
  lemma Split(m: int, n: int, i: int)
    requires Dims(m, n) && 0 <= i < TrainRoads(m, n)
    ensures 0 <= Block(m, n, i) < 4 && 0 <= Row(m, n, i) < m && 0 <= Col(n, i) < n
    ensures i == Block(m, n, i) * (m * n) + Row(m, n, i) * n + Col(n, i)
  {
    var v := m * n;
    MulMono(1, m, n);
    var b, li := i / v, i % v;
    assert i == b * v + li;
    if b >= 4 {
      MulMono(4, b, v);
      assert false;
    }
    if b < 0 {
      MulMono(b + 1, 0, v);
      Distrib(b, 1, v);
      assert false;
    }
    var row, col := li / n, li % n;
    assert li == row * n + col;
    if row >= m {
      MulMono(m, row, n);
      assert false;
    }
    if row < 0 {
      MulMono(row + 1, 0, n);
      Distrib(row, 1, n);
      assert false;
    }
    Assoc(b, m, n);
    Distrib(b * m, row, n);
    assert i == (b * m + row) * n + col;
    DivModUnique(i, n, b * m + row, col);
  }

  // ---------------------------------------------------------------------------
  // Successor roads

  /** `GridRoad.next`: the road a car takes after road `i`, or -1 when `i` leaves the grid.
      A train road continues straight on; at the edge of the grid it runs into a border road. */
  function Next(m: int, n: int, i: int): (r: int)
    requires Dims(m, n)
    ensures 0 <= i ==> (r == -1 <==> i >= TrainRoads(m, n))
  {
    var v := m * n;
    if i >= 4 * v then -1
    else
      var col := i % n;
      var row := (i % v) / n;
      NextHint(m, n, i);
      if i < v then (if col < n - 1 then i + 1 else 4 * v + n + row)
      else if i < 2 * v then (if col > 0 then i - 1 else 4 * v + 2 * n + m + row)
      else if i < 3 * v then (if row < m - 1 then i + n else 4 * v + n + m + col)
      else (if row > 0 then i - n else 4 * v + col)
  }

  /** The facts about the coordinates of a train road that `Next`'s contract rests on. */
  lemma NextHint(m: int, n: int, i: int)
    requires Dims(m, n)
    ensures 0 <= i < TrainRoads(m, n) ==>
      1 <= m * n && 0 <= Row(m, n, i) && (Col(n, i) > 0 ==> i >= 1) && (Row(m, n, i) > 0 ==> i >= n)
  {
    if 0 <= i < TrainRoads(m, n) {
      Split(m, n, i);
      var b, row, col := Block(m, n, i), Row(m, n, i), Col(n, i);
      MulMono(1, m, n);
      MulMono(0, b, m * n);
      MulMono(0, row, n);
      if row > 0 {
        MulMono(1, row, n);
      }
    }
  }

  /** `next` of the train road in block `b`, row `row`, column `col`. */
  lemma NextAt(m: int, n: int, b: int, row: int, col: int)
    requires Dims(m, n) && 0 <= b < 4 && 0 <= row < m && 0 <= col < n
    ensures var v := m * n; var i := b * v + row * n + col;
      Next(m, n, i) ==
        if b == 0 then (if col < n - 1 then i + 1 else 4 * v + n + row)
        else if b == 1 then (if col > 0 then i - 1 else 4 * v + 2 * n + m + row)
        else if b == 2 then (if row < m - 1 then i + n else 4 * v + n + m + col)
        else (if row > 0 then i - n else 4 * v + col)
  {
    var v := m * n;
    Join(m, n, b, row, col);
    MulMono(0, b, v);
    if b >= 1 { MulMono(1, b, v); }
    if b >= 2 { MulMono(2, b, v); }
    if b >= 3 { MulMono(3, b, v); }
    if b < 3 { MulMono(b, 2, v); }
    if b < 2 { MulMono(b, 1, v); }
    if b < 1 { MulMono(b, 0, v); }
  }

  /** From a train road a car goes to another, existing road. Within the grid it stays in
      its direction block and moves one column or row the block's way; at the block's far
      edge it runs into a border road. */
  lemma NextMoves(m: int, n: int, i: int)
    requires Dims(m, n) && 0 <= i < TrainRoads(m, n)
    ensures var j := Next(m, n, i);
      0 <= j < Roads(m, n) && j != i &&
      (j < TrainRoads(m, n) ==> Block(m, n, j) == Block(m, n, i)) &&
      (Block(m, n, i) == 0 ==> if Col(n, i) < n - 1 then j < TrainRoads(m, n) && Row(m, n, j) == Row(m, n, i) && Col(n, j) == Col(n, i) + 1
                               else j >= TrainRoads(m, n)) &&
      (Block(m, n, i) == 1 ==> if Col(n, i) > 0 then j < TrainRoads(m, n) && Row(m, n, j) == Row(m, n, i) && Col(n, j) == Col(n, i) - 1
                               else j >= TrainRoads(m, n)) &&
      (Block(m, n, i) == 2 ==> if Row(m, n, i) < m - 1 then j < TrainRoads(m, n) && Row(m, n, j) == Row(m, n, i) + 1 && Col(n, j) == Col(n, i)
                               else j >= TrainRoads(m, n)) &&
      (Block(m, n, i) == 3 ==> if Row(m, n, i) > 0 then j < TrainRoads(m, n) && Row(m, n, j) == Row(m, n, i) - 1 && Col(n, j) == Col(n, i)
                               else j >= TrainRoads(m, n))
  {
    Split(m, n, i);
    var b, row, col := Block(m, n, i), Row(m, n, i), Col(n, i);
    var rn := row * n;
    assert i == b * (m * n) + rn + col;
    if b < 2 {
      NextAlongRow(m, n, b, row, col);
    } else {
      NextAlongColumn(m, n, b, row, col);
    }
  }

  /** `NextMoves` for an east- or westbound road (blocks 0 and 1), given by block, row and column. */
  lemma NextAlongRow(m: int, n: int, b: int, row: int, col: int)
    requires Dims(m, n) && 0 <= b < 2 && 0 <= row < m && 0 <= col < n
    ensures var i := b * (m * n) + row * n + col; var j := Next(m, n, i);
      0 <= j < Roads(m, n) && j != i &&
      (j < TrainRoads(m, n) ==> Block(m, n, j) == b) &&
      (b == 0 ==> if col < n - 1 then j < TrainRoads(m, n) && Row(m, n, j) == row && Col(n, j) == col + 1
                  else j >= TrainRoads(m, n)) &&
      (b == 1 ==> if col > 0 then j < TrainRoads(m, n) && Row(m, n, j) == row && Col(n, j) == col - 1
                  else j >= TrainRoads(m, n))
  {
    var v := m * n;
    var i := b * v + row * n + col;
    Join(m, n, b, row, col);
    NextAt(m, n, b, row, col);
    if b == 0 {
      if col < n - 1 { assert Next(m, n, i) == i + 1; Join(m, n, 0, row, col + 1); }
      else { assert Next(m, n, i) == 4 * v + n + row; }
    } else {
      if col > 0 { assert Next(m, n, i) == i - 1; Join(m, n, 1, row, col - 1); }
      else { assert Next(m, n, i) == 4 * v + 2 * n + m + row; }
    }
  }

  /** `NextMoves` for a south- or northbound road (blocks 2 and 3), given by block, row and column. */
  lemma NextAlongColumn(m: int, n: int, b: int, row: int, col: int)
    requires Dims(m, n) && 2 <= b < 4 && 0 <= row < m && 0 <= col < n
    ensures var i := b * (m * n) + row * n + col; var j := Next(m, n, i);
      0 <= j < Roads(m, n) && j != i &&
      (j < TrainRoads(m, n) ==> Block(m, n, j) == b) &&
      (b == 2 ==> if row < m - 1 then j < TrainRoads(m, n) && Row(m, n, j) == row + 1 && Col(n, j) == col
                  else j >= TrainRoads(m, n)) &&
      (b == 3 ==> if row > 0 then j < TrainRoads(m, n) && Row(m, n, j) == row - 1 && Col(n, j) == col
                  else j >= TrainRoads(m, n))
  {
    var v := m * n;
    var i := b * v + row * n + col;
    Join(m, n, b, row, col);
    NextAt(m, n, b, row, col);
    if b == 2 {
      if row < m - 1 {
        assert Next(m, n, i) == i + n;
        Join(m, n, 2, row + 1, col);
        Distrib(row, 1, n);
        assert i + n == 2 * v + (row + 1) * n + col;
      } else { assert Next(m, n, i) == 4 * v + n + m + col; }
    } else {
      if row > 0 {
        assert Next(m, n, i) == i - n;
        Join(m, n, 3, row - 1, col);
        Distrib(row - 1, 1, n);
        assert i - n == 3 * v + (row - 1) * n + col;
      } else { assert Next(m, n, i) == 4 * v + col; }
    }
  }

  /** Number of `next` steps from road `i` until -1 is reached. */
  function Rank(m: int, n: int, i: int): int
    requires Dims(m, n)
  {
    if i >= TrainRoads(m, n) then 1
    else if Block(m, n, i) == 0 then n - Col(n, i) + 1
    else if Block(m, n, i) == 1 then Col(n, i) + 2
    else if Block(m, n, i) == 2 then m - Row(m, n, i) + 1
    else Row(m, n, i) + 2
  }

  /** Each `next` step from a road brings it one step closer to leaving the grid. */
  lemma RankDecreases(m: int, n: int, i: int)
    requires Dims(m, n) && 0 <= i < Roads(m, n)
    ensures 1 <= Rank(m, n, i) <= (if m < n then n else m) + 1
    ensures Next(m, n, i) == -1 ==> Rank(m, n, i) == 1
    ensures Next(m, n, i) != -1 ==> Rank(m, n, Next(m, n, i)) == Rank(m, n, i) - 1
  {
    if i < TrainRoads(m, n) {
      Split(m, n, i);
      NextMoves(m, n, i);
      var j := Next(m, n, i);
      if j < TrainRoads(m, n) {
        Split(m, n, j);
      }
    }
  }

  /** The road reached from `i` after `k` steps of `next`, staying at -1 once there. */
  function Walk(m: int, n: int, i: int, k: nat): int
    requires Dims(m, n)
    decreases k
  {
    if k == 0 || i < 0 then i else Walk(m, n, Next(m, n, i), k - 1)
  }

  /** `next` chains terminate: from road `i` the walk reaches -1 after exactly Rank(i) steps,
      and Rank(i) is at most max(m, n) + 1. */
  lemma {:induction false} WalkTerminates(m: int, n: int, i: int, k: nat)
    requires Dims(m, n) && 0 <= i < Roads(m, n)
    ensures Walk(m, n, i, k) == -1 <==> k >= Rank(m, n, i)
    ensures Rank(m, n, i) <= (if m < n then n else m) + 1
    decreases k
  {
    RankDecreases(m, n, i);
    if k > 0 {
      var j := Next(m, n, i);
      if j != -1 {
        NextMoves(m, n, i);
        WalkTerminates(m, n, j, k - 1);
      }
    }
  }

  // ---------------------------------------------------------------------------
  // Entrypoints

  /** Bit `k` (k < 4) of the side mask is clear: side `k` admits arrivals.
      The source's `(choices >> k) & 1`, which is floor division and a non-negative remainder. */
  predicate SideOpen(choices: int, k: int)
    requires 0 <= k < 4
  {
    (choices / [1, 2, 4, 8][k]) % 2 == 0
  }

  /** The roads cars enter by from side `k`: column 0 of block 0, column n-1 of block 1,
      row 0 of block 2, row m-1 of block 3 (in this order of `k`). */
  function SideRoads(m: int, n: int, k: int): seq<int>
    requires Dims(m, n) && 0 <= k < 4
  {
    var v := m * n;
    if k == 0 then seq(m, r => n * r)
    else if k == 1 then seq(m, r => v + n * (r + 1) - 1)
    else if k == 2 then seq(n, c => 2 * v + c)
    else seq(n, c => 3 * v + n * (m - 1) + c)
  }

  /** `generate_entrypoints`: the roads of every side whose mask bit is clear. */
  function Entrypoints(m: int, n: int, choices: int): (es: seq<int>)
    requires Dims(m, n)
    ensures |es| == (if SideOpen(choices, 0) then m else 0) + (if SideOpen(choices, 1) then m else 0)
                  + (if SideOpen(choices, 2) then n else 0) + (if SideOpen(choices, 3) then n else 0)
  {
    (if SideOpen(choices, 0) then SideRoads(m, n, 0) else [])
    + (if SideOpen(choices, 1) then SideRoads(m, n, 1) else [])
    + (if SideOpen(choices, 2) then SideRoads(m, n, 2) else [])
    + (if SideOpen(choices, 3) then SideRoads(m, n, 3) else [])
  }

  /** Road `x` is the entry road of side `k`'s row or column. */
  predicate OnSide(m: int, n: int, k: int, x: int)
    requires Dims(m, n) && 0 <= k < 4
  {
    0 <= x < TrainRoads(m, n) && Block(m, n, x) == k &&
    if k == 0 then Col(n, x) == 0
    else if k == 1 then Col(n, x) == n - 1
    else if k == 2 then Row(m, n, x) == 0
    else Row(m, n, x) == m - 1
  }

  lemma SideRoadsAre(m: int, n: int, k: int, x: int)
    requires Dims(m, n) && 0 <= k < 4
    ensures x in SideRoads(m, n, k) <==> OnSide(m, n, k, x)
  {
    var s := SideRoads(m, n, k);
    if x in s {
      var r :| 0 <= r < |s| && s[r] == x;
      SideRoadAt(m, n, k, r);
    }
    if OnSide(m, n, k, x) {
      OnSideListed(m, n, k, x);
    }
  }

  /** A road on side `k` is one of that side's listed roads. */
  lemma OnSideListed(m: int, n: int, k: int, x: int)
    requires Dims(m, n) && 0 <= k < 4 && OnSide(m, n, k, x)
    ensures x in SideRoads(m, n, k)
  {
    var s := SideRoads(m, n, k);
    Split(m, n, x);
    var v, row, col := m * n, Row(m, n, x), Col(n, x);
    if k == 0 {
      assert s[row] == x by { assert n * row == row * n; }
    } else if k == 1 {
      assert s[row] == x by { Distrib(row, 1, n); assert n * (row + 1) == (row + 1) * n; }
    } else if k == 2 {
      assert s[col] == x;
    } else {
      assert s[col] == x by { assert n * (m - 1) == (m - 1) * n; }
    }
  }

  /** The `r`-th entry road of side `k` lies on that side. */
  lemma SideRoadAt(m: int, n: int, k: int, r: int)
    requires Dims(m, n) && 0 <= k < 4 && 0 <= r < |SideRoads(m, n, k)|
    ensures OnSide(m, n, k, SideRoads(m, n, k)[r])
  {
    if k == 0 { WestEntry(m, n, r); }
    else if k == 1 { EastEntry(m, n, r); }
    else if k == 2 { SouthEntry(m, n, r); }
    else { NorthEntry(m, n, r); }
  }

  /** Side 0 enters each row at column 0, heading east (block 0). */
  lemma WestEntry(m: int, n: int, r: int)
    requires Dims(m, n) && 0 <= r < m
    ensures OnSide(m, n, 0, SideRoads(m, n, 0)[r])
  {
    var x := SideRoads(m, n, 0)[r];
    assert x == r * n by { assert n * r == r * n; }
    Join(m, n, 0, r, 0);
  }

  /** Side 1 enters each row at column n-1, heading west (block 1). */
  lemma EastEntry(m: int, n: int, r: int)
    requires Dims(m, n) && 0 <= r < m
    ensures OnSide(m, n, 1, SideRoads(m, n, 1)[r])
  {
    var v := m * n;
    var x := SideRoads(m, n, 1)[r];
    assert x == v + r * n + (n - 1) by { Distrib(r, 1, n); }
    Join(m, n, 1, r, n - 1);
  }

  /** Side 2 enters each column at row 0, heading towards larger rows (block 2). */
  lemma SouthEntry(m: int, n: int, r: int)
    requires Dims(m, n) && 0 <= r < n
    ensures OnSide(m, n, 2, SideRoads(m, n, 2)[r])
  {
    Join(m, n, 2, 0, r);
  }

  /** Side 3 enters each column at row m-1, heading towards smaller rows (block 3). */
  lemma NorthEntry(m: int, n: int, r: int)
    requires Dims(m, n) && 0 <= r < n
    ensures OnSide(m, n, 3, SideRoads(m, n, 3)[r])
  {
    var v := m * n;
    var x := SideRoads(m, n, 3)[r];
    assert x == 3 * v + (m - 1) * n + r by { assert n * (m - 1) == (m - 1) * n; }
    Join(m, n, 3, m - 1, r);
  }

  /** A road is an entrypoint exactly when it is the entry road of a side whose mask bit
      is clear; in particular every entrypoint is a train road. */
  lemma EntrypointsAre(m: int, n: int, choices: int, x: int)
    requires Dims(m, n)
    ensures x in Entrypoints(m, n, choices) <==>
      exists k | 0 <= k < 4 :: SideOpen(choices, k) && OnSide(m, n, k, x)
    ensures x in Entrypoints(m, n, choices) ==> 0 <= x < TrainRoads(m, n)
  {
    SideRoadsAre(m, n, 0, x);
    SideRoadsAre(m, n, 1, x);
    SideRoadsAre(m, n, 2, x);
    SideRoadsAre(m, n, 3, x);
  }

  // ---------------------------------------------------------------------------
  // The graph object

  /** `GridRoad`: dimensions, road counts, the per-road phase tag and destination
      intersection (filled once at construction) and the entrypoints (chosen later). */
  class GridRoad {
    const m: int
    const n: int
    const len: real
    const intersections: int
    const trainRoads: int
    const roads: int
    const phases: seq<int>
    const dest: seq<int>
    /** `next` of every road, tabulated. */
    ghost const nexts: seq<int>
    var entrypoints: seq<int>

    ghost predicate Valid()
      reads this
    {
      Dims(m, n) && intersections == Intersections(m, n) && trainRoads == TrainRoads(m, n) &&
      roads == Roads(m, n) && |phases| == roads && |dest| == roads &&
      (forall i | 0 <= i < roads :: phases[i] == if i / intersections < 2 then 1 else 0) &&
      (forall i | 0 <= i < roads :: dest[i] == if i < trainRoads then i % intersections else -1) &&
      (forall i | 0 <= i < trainRoads :: 0 <= dest[i] < intersections) &&
      (forall i | 0 <= i < trainRoads :: 0 <= Next(m, n, i) < roads && Next(m, n, i) != i) &&
      |nexts| == roads && (forall i {:trigger Next(m, n, i)} | 0 <= i < roads :: nexts[i] == Next(m, n, i)) &&
      (forall i | 0 <= i < roads :: -1 <= nexts[i] < roads && nexts[i] != i) &&
      (forall k | 0 <= k < |entrypoints| :: 0 <= entrypoints[k] < trainRoads)
    }

    /** `GridRoad.__init__`. */
    constructor (m: int, n: int, l: real)
      requires Dims(m, n)
      ensures Valid() && this.m == m && this.n == n && len == l && entrypoints == []
    {
      var v := m * n;
      MulMono(1, m, n);
      var roads := 4 * v + 2 * n + 2 * m;
      this.m, this.n, len := m, n, l;
      intersections, trainRoads, this.roads := v, 4 * v, roads;
      phases := seq(roads, i => if i / v < 2 then 1 else 0);
      var d: seq<int> := [];
      for i := 0 to roads
        invariant |d| == i
        invariant forall k | 0 <= k < i :: d[k] == if k < 4 * v then k % v else -1
      {
        d := d + [if i < 4 * v then i % v else -1];
      }
      dest := d;
      entrypoints := [];
      nexts := seq(roads, i => Next(m, n, i));
      forall i | 0 <= i < roads
        ensures -1 <= Next(m, n, i) < roads && Next(m, n, i) != i
        ensures i < 4 * v ==> 0 <= Next(m, n, i)
      {
        if i < 4 * v {
          NextMoves(m, n, i);
        }
      }
    }

    /** `generate_entrypoints`. */
    method GenerateEntrypoints(choices: int)
      requires Valid()
      modifies this
      ensures Valid() && entrypoints == Entrypoints(m, n, choices)
    {
      var es := Entrypoints(m, n, choices);
      forall k | 0 <= k < |es|
        ensures 0 <= es[k] < trainRoads
      {
        EntrypointsAre(m, n, choices, es[k]);
      }
      entrypoints := es;
    }

    /** `length`: every road has the same length. */
    function Length(e: int): real {
      len
    }
  }
}
