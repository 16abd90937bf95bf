/** Addressing and neighbour counting on the row-major board of
    src/gameState.cpp: `rcToIndex`, the eight neighbour directions with their
    bounds checks, `countNeighborMines`, the classification of every non-mine
    tile, and `getFlaggedCount`. */
module Grid {
  import opened GameTypes

  /** A board of `rows` x `cols` tiles stored row by row. */
  predicate WellFormed(t: seq<Tile>, rows: int, cols: int) {
    1 <= rows && 1 <= cols && |t| == rows * cols
  }

  // ---------------------------------------------------------------------
  // Row-major addressing

  /** Fact about row-major addressing: row and column are recovered from the
      index by division and remainder. */
  lemma IndexRoundTrip(r: int, c: int, cols: int)
    requires 0 <= c < cols
    ensures (r * cols + c) / cols == r && (r * cols + c) % cols == c
  {
    var i := r * cols + c;
    var q, m := i / cols, i % cols;
    assert (r - q) * cols == m - c;
    if r > q {
      MulAtLeast(r - q, cols);
    } else if r < q {
      assert (q - r) * cols == c - m;
      MulAtLeast(q - r, cols);
    }
  }

  lemma MulAtLeast(k: int, n: int)
    requires 1 <= k && 0 <= n
    ensures k * n >= n
  {
    assert k * n == (k - 1) * n + n;
    assert (k - 1) * n >= 0;
  }

  /** The index of row `r`, column `c` (rcToIndex). */
  function RcToIndex(r: int, c: int, cols: int): (i: int)
    ensures 0 <= c < cols ==> i / cols == r && i % cols == c
  {
    if 0 <= c < cols then
      IndexRoundTrip(r, c, cols);
      r * cols + c
    else
      r * cols + c
  }

  /** An in-bounds row and column address a tile of the board. */
  lemma IndexInRange(rows: int, cols: int, r: int, c: int)
    requires 0 <= r < rows && 0 <= c < cols
    ensures 0 <= RcToIndex(r, c, cols) < rows * cols
  {
    MulLe(r + 1, rows, cols);
    assert (r + 1) * cols == r * cols + cols;
    assert r * cols >= 0;
  }

  lemma MulLe(a: int, b: int, n: int)
    requires a <= b && 0 <= n
    ensures a * n <= b * n
  {
    assert b * n - a * n == (b - a) * n;
    assert (b - a) * n >= 0;
  }

  /** Every index of the board lies at an in-bounds row and column. */
  lemma RowInRange(rows: int, cols: int, j: int)
    requires 1 <= cols && 0 <= j < rows * cols
    ensures 0 <= j / cols < rows && 0 <= j % cols < cols
  {
    assert j == (j / cols) * cols + j % cols;
    if j / cols >= rows {
      MulLe(rows, j / cols, cols);
    }
  }

  // ---------------------------------------------------------------------
  // Neighbours

  /** The eight directions, in the order the source visits them. */
  const DIRS: seq<(int, int)> :=
    [(-1, -1), (-1, 0), (-1, 1), (0, -1), (0, 1), (1, -1), (1, 0), (1, 1)]

  predicate InBounds(rows: int, cols: int, r: int, c: int) {
    0 <= r < rows && 0 <= c < cols
  }

  /** (r2, c2) is one of the eight positions around (r1, c1). */
  predicate Adjacent(r1: int, c1: int, r2: int, c2: int) {
    !(r1 == r2 && c1 == c2) && -1 <= r2 - r1 <= 1 && -1 <= c2 - c1 <= 1
  }

  /** The position of direction (dr, dc) in DIRS. */
  function DirIndex(dr: int, dc: int): int {
    var k := 3 * (dr + 1) + (dc + 1);
    if k > 4 then k - 1 else k
  }

  /** Each entry of DIRS is an adjacent offset sitting at its DirIndex. */
  lemma DirAt(k: int)
    requires 0 <= k < 8
    ensures Adjacent(0, 0, DIRS[k].0, DIRS[k].1) && DirIndex(DIRS[k].0, DIRS[k].1) == k
  {
  }

  /** Each adjacent offset is listed in DIRS, at its DirIndex. */
  lemma DirOf(dr: int, dc: int)
    requires Adjacent(0, 0, dr, dc)
    ensures 0 <= DirIndex(dr, dc) < 8 && DIRS[DirIndex(dr, dc)] == (dr, dc)
  {
  }

  /** The in-bounds neighbours of (r, c) reached through DIRS[k..], in the
      order the source's direction loops visit them. */
  function NeighborsFrom(rows: int, cols: int, r: int, c: int, k: nat): (ns: seq<int>)
    requires 1 <= cols && k <= 8
    ensures |ns| <= 8 - k
    ensures forall j :: j in ns ==> 0 <= j < rows * cols
    decreases 8 - k
  {
    if k == 8 then []
    else
      var nr, nc := r + DIRS[k].0, c + DIRS[k].1;
      var rest := NeighborsFrom(rows, cols, r, c, k + 1);
      if InBounds(rows, cols, nr, nc) then
        IndexInRange(rows, cols, nr, nc);
        [RcToIndex(nr, nc, cols)] + rest
      else
        rest
  }

  /** The in-bounds 8-neighbours of tile `i`, at row i / cols, column i % cols. */
  function Neighbors(rows: int, cols: int, i: int): seq<int>
    requires 1 <= cols
  {
    NeighborsFrom(rows, cols, i / cols, i % cols, 0)
  }

  /** Direction k contributes index j exactly when j is the adjacent board
      position in that direction. */
  lemma StepMember(rows: int, cols: int, r: int, c: int, k: int, j: int)
    requires 1 <= cols && 0 <= k < 8
    ensures (InBounds(rows, cols, r + DIRS[k].0, c + DIRS[k].1) && j == RcToIndex(r + DIRS[k].0, c + DIRS[k].1, cols)) <==>
      (0 <= j < rows * cols && Adjacent(r, c, j / cols, j % cols) && DirIndex(j / cols - r, j % cols - c) == k)
  {
    var nr, nc := r + DIRS[k].0, c + DIRS[k].1;
    if InBounds(rows, cols, nr, nc) && j == RcToIndex(nr, nc, cols) {
      StepSound(rows, cols, r, c, k);
    }
    if 0 <= j < rows * cols && Adjacent(r, c, j / cols, j % cols) && DirIndex(j / cols - r, j % cols - c) == k {
      StepComplete(rows, cols, r, c, k, j);
    }
  }

  /** The index direction k reaches is an adjacent board position in direction k. */
  lemma StepSound(rows: int, cols: int, r: int, c: int, k: int)
    requires 1 <= cols && 0 <= k < 8
    requires InBounds(rows, cols, r + DIRS[k].0, c + DIRS[k].1)
    ensures var j := RcToIndex(r + DIRS[k].0, c + DIRS[k].1, cols);
      0 <= j < rows * cols && j / cols == r + DIRS[k].0 && j % cols == c + DIRS[k].1
    ensures Adjacent(r, c, r + DIRS[k].0, c + DIRS[k].1) && DirIndex(DIRS[k].0, DIRS[k].1) == k
  {
    DirAt(k);
    IndexInRange(rows, cols, r + DIRS[k].0, c + DIRS[k].1);
  }

  /** An adjacent board position in direction k is the index direction k reaches. */
  lemma StepComplete(rows: int, cols: int, r: int, c: int, k: int, j: int)
    requires 1 <= cols && 0 <= k < 8
    requires 0 <= j < rows * cols && Adjacent(r, c, j / cols, j % cols)
    requires DirIndex(j / cols - r, j % cols - c) == k
    ensures InBounds(rows, cols, r + DIRS[k].0, c + DIRS[k].1)
    ensures j == RcToIndex(r + DIRS[k].0, c + DIRS[k].1, cols)
  {
    var jr, jc := j / cols, j % cols;
    DirOf(jr - r, jc - c);
    RowInRange(rows, cols, j);
    assert j == jr * cols + jc;
  }

  /** Membership in the directions from k on: exactly the adjacent board
      indices whose direction comes at position k or later. */
  lemma {:induction false} NeighborsFromMembers(rows: int, cols: int, r: int, c: int, k: nat, j: int)
    requires 1 <= cols && k <= 8
    ensures j in NeighborsFrom(rows, cols, r, c, k) <==>
      0 <= j < rows * cols && Adjacent(r, c, j / cols, j % cols) && DirIndex(j / cols - r, j % cols - c) >= k
    decreases 8 - k
  {
    if k == 8 {
      if Adjacent(r, c, j / cols, j % cols) {
        DirOf(j / cols - r, j % cols - c);
      }
    } else {
      NeighborsFromMembers(rows, cols, r, c, k + 1, j);
      StepMember(rows, cols, r, c, k, j);
    }
  }

  /** Index j is an in-bounds 8-neighbour of index i. */
  predicate IsNeighbor(rows: int, cols: int, i: int, j: int)
    requires 1 <= cols
  {
    0 <= j < rows * cols && Adjacent(i / cols, i % cols, j / cols, j % cols)
  }

  /** The neighbour list is exactly the set of in-bounds adjacent positions. */
  lemma NeighborsSpec(rows: int, cols: int, i: int, j: int)
    requires 1 <= cols
    ensures j in Neighbors(rows, cols, i) <==> IsNeighbor(rows, cols, i, j)
  {
    NeighborsFromMembers(rows, cols, i / cols, i % cols, 0, j);
  }

  predicate Distinct(s: seq<int>) {
    forall a, b :: 0 <= a < b < |s| ==> s[a] != s[b]
  }

  /** No neighbour is listed twice. */
  lemma {:induction false} NeighborsFromDistinct(rows: int, cols: int, r: int, c: int, k: nat)
    requires 1 <= cols && k <= 8
    ensures Distinct(NeighborsFrom(rows, cols, r, c, k))
    decreases 8 - k
  {
    if k < 8 {
      NeighborsFromDistinct(rows, cols, r, c, k + 1);
      if InBounds(rows, cols, r + DIRS[k].0, c + DIRS[k].1) {
        NeighborsFromStep(rows, cols, r, c, k);
      }
    }
  }

  /** Direction k adds an index that the later directions do not list. */
  lemma NeighborsFromStep(rows: int, cols: int, r: int, c: int, k: nat)
    requires 1 <= cols && k < 8
    requires InBounds(rows, cols, r + DIRS[k].0, c + DIRS[k].1)
    requires Distinct(NeighborsFrom(rows, cols, r, c, k + 1))
    ensures Distinct(NeighborsFrom(rows, cols, r, c, k))
  {
    var rest := NeighborsFrom(rows, cols, r, c, k + 1);
    var j := RcToIndex(r + DIRS[k].0, c + DIRS[k].1, cols);
    StepSound(rows, cols, r, c, k);
    NeighborsFromMembers(rows, cols, r, c, k + 1, j);
    ConsDistinct(j, rest);
    assert NeighborsFrom(rows, cols, r, c, k) == [j] + rest;
  }

  lemma ConsDistinct(j: int, rest: seq<int>)
    requires Distinct(rest) && j !in rest
    ensures Distinct([j] + rest)
  {
    var ns := [j] + rest;
    forall a, b | 0 <= a < b < |ns| ensures ns[a] != ns[b] {
      assert ns[b] == rest[b - 1];
      if a > 0 {
        assert ns[a] == rest[a - 1];
      }
    }
  }

  // ---------------------------------------------------------------------
  // Counting mines

  /** Number of positions of `js` holding a mine. */
  function CountMinesIn(t: seq<Tile>, js: seq<int>): (n: nat)
    requires forall j :: j in js ==> 0 <= j < |t|
    ensures n <= |js|
    ensures n == 0 <==> forall j :: j in js ==> t[j].symbol != MINE
  {
    if js == [] then 0
    else
      assert js[0] in js;
      assert forall j :: j in js[1..] ==> j in js;
      (if t[js[0]].symbol == MINE then 1 else 0) + CountMinesIn(t, js[1..])
  }

  /** countNeighborMines: the mines among the in-bounds 8-neighbours of (r, c). */
  function CountNeighborMines(t: seq<Tile>, rows: int, cols: int, r: int, c: int): (n: nat)
    requires WellFormed(t, rows, cols)
    ensures n <= 8
  {
    CountMinesIn(t, NeighborsFrom(rows, cols, r, c, 0))
  }

  /** The independent reference: the mines at adjacent board positions. */
  ghost function AdjacentMines(t: seq<Tile>, cols: int, r: int, c: int): set<int>
    requires 1 <= cols
  {
    set j | 0 <= j < |t| && Adjacent(r, c, j / cols, j % cols) && t[j].symbol == MINE
  }

  /** The positions of `js` holding a mine. */
  ghost function MinesAmong(t: seq<Tile>, js: seq<int>): set<int>
    requires forall j :: j in js ==> 0 <= j < |t|
  {
    set j | j in js && t[j].symbol == MINE
  }

  lemma {:induction false} CountMinesAsSet(t: seq<Tile>, js: seq<int>)
    requires forall j :: j in js ==> 0 <= j < |t|
    requires Distinct(js)
    ensures CountMinesIn(t, js) == |MinesAmong(t, js)|
  {
    if js != [] {
      DistinctTail(js);
      MinesAmongTail(t, js);
      CountMinesAsSet(t, js[1..]);
    }
  }

  /** The mines of js are those of its tail plus its head when that is one. */
  lemma MinesAmongTail(t: seq<Tile>, js: seq<int>)
    requires forall j :: j in js ==> 0 <= j < |t|
    requires js != []
    ensures 0 <= js[0] < |t| && forall j :: j in js[1..] ==> 0 <= j < |t|
    ensures MinesAmong(t, js) ==
      (if t[js[0]].symbol == MINE then {js[0]} else {}) + MinesAmong(t, js[1..])
  {
    var rest := js[1..];
    assert js[0] in js;
    assert forall j :: j in rest ==> j in js;
    forall x ensures x in js <==> x == js[0] || x in rest {
      assert js == [js[0]] + rest;
    }
  }

  /** The tail of a duplicate-free sequence is duplicate free and misses its head. */
  lemma DistinctTail(js: seq<int>)
    requires js != [] && Distinct(js)
    ensures Distinct(js[1..]) && js[0] !in js[1..]
  {
    var rest := js[1..];
    forall a, b | 0 <= a < b < |rest| ensures rest[a] != rest[b] {
      assert rest[a] == js[a + 1] && rest[b] == js[b + 1];
    }
    forall b | 0 <= b < |rest| ensures rest[b] != js[0] {
      assert rest[b] == js[b + 1];
    }
  }

  /** countNeighborMines counts exactly the mines adjacent to (r, c). */
  lemma CountNeighborMinesSpec(t: seq<Tile>, rows: int, cols: int, r: int, c: int)
    requires WellFormed(t, rows, cols)
    ensures CountNeighborMines(t, rows, cols, r, c) == |AdjacentMines(t, cols, r, c)|
  {
    var ns := NeighborsFrom(rows, cols, r, c, 0);
    NeighborsFromDistinct(rows, cols, r, c, 0);
    CountMinesAsSet(t, ns);
    forall j ensures j in MinesAmong(t, ns) <==> j in AdjacentMines(t, cols, r, c) {
      NeighborMine(t, rows, cols, r, c, j);
    }
    assert MinesAmong(t, ns) == AdjacentMines(t, cols, r, c);
  }

  /** A position is a listed neighbour holding a mine exactly when it is an
      adjacent mine. */
  lemma NeighborMine(t: seq<Tile>, rows: int, cols: int, r: int, c: int, j: int)
    requires WellFormed(t, rows, cols)
    ensures j in MinesAmong(t, NeighborsFrom(rows, cols, r, c, 0)) <==> j in AdjacentMines(t, cols, r, c)
  {
    var ns := NeighborsFrom(rows, cols, r, c, 0);
    var jr, jc := j / cols, j % cols;
    NeighborsFromMembers(rows, cols, r, c, 0, j);
    if Adjacent(r, c, jr, jc) {
      DirOf(jr - r, jc - c);
    }
    assert j in ns <==> 0 <= j < |t| && Adjacent(r, c, j / cols, j % cols);
  }

  // ---------------------------------------------------------------------
  // Classification

  /** Symbol s is what a non-mine tile with k adjacent mines shows: ' ' for
      none, the digit otherwise. */
  predicate ShowsCount(s: char, k: nat) {
    if k == 0 then s == ' ' else k <= 8 && s as int == '0' as int + k
  }

  /** The symbol generation writes for a non-mine tile with k adjacent mines. */
  function DigitSymbol(k: nat): (s: char)
    requires k <= 8
    ensures s != MINE && ShowsCount(s, k)
  {
    if k == 0 then ' ' else ('0' as int + k) as char
  }

  /** Every non-mine tile shows the number of mines adjacent to it. */
  ghost predicate Classified(t: seq<Tile>, rows: int, cols: int)
    requires WellFormed(t, rows, cols)
  {
    forall i :: 0 <= i < |t| && t[i].symbol != MINE ==>
      ShowsCount(t[i].symbol, |AdjacentMines(t, cols, i / cols, i % cols)|)
  }

  /** The positions of the mines. */
  ghost function MineSet(t: seq<Tile>): set<int> {
    set i | 0 <= i < |t| && t[i].symbol == MINE
  }

  /** Boards with their mines in the same places have the same adjacent mines. */
  lemma SameMinesSameAdjacent(t1: seq<Tile>, t2: seq<Tile>, cols: int, r: int, c: int)
    requires 1 <= cols && |t1| == |t2|
    requires forall i :: 0 <= i < |t1| ==> (t1[i].symbol == MINE) == (t2[i].symbol == MINE)
    ensures AdjacentMines(t1, cols, r, c) == AdjacentMines(t2, cols, r, c)
  {
  }

  /** Whether a board is classified depends on its symbols alone. */
  lemma ClassifiedBySymbols(t1: seq<Tile>, t2: seq<Tile>, rows: int, cols: int)
    requires WellFormed(t1, rows, cols) && |t2| == |t1|
    requires forall i :: 0 <= i < |t1| ==> t1[i].symbol == t2[i].symbol
    requires Classified(t1, rows, cols)
    ensures WellFormed(t2, rows, cols) && Classified(t2, rows, cols)
  {
    forall i | 0 <= i < |t2| && t2[i].symbol != MINE
      ensures ShowsCount(t2[i].symbol, |AdjacentMines(t2, cols, i / cols, i % cols)|)
    {
      SameMinesSameAdjacent(t1, t2, cols, i / cols, i % cols);
    }
  }

  /** A board whose symbols are all ' ' is classified. */
  lemma BlankIsClassified(t: seq<Tile>, rows: int, cols: int)
    requires WellFormed(t, rows, cols)
    requires forall i :: 0 <= i < |t| ==> t[i].symbol == ' '
    ensures Classified(t, rows, cols)
  {
    forall i | 0 <= i < |t| ensures AdjacentMines(t, cols, i / cols, i % cols) == {} {
      assert forall x :: x !in AdjacentMines(t, cols, i / cols, i % cols);
    }
  }

  /** On a classified board a ' ' tile has no mine among its neighbours. */
  lemma BlankHasNoMineAround(t: seq<Tile>, rows: int, cols: int, p: int)
    requires WellFormed(t, rows, cols) && Classified(t, rows, cols)
    requires 0 <= p < |t| && t[p].symbol == ' '
    ensures forall j :: IsNeighbor(rows, cols, p, j) ==> t[j].symbol != MINE
  {
    var around := AdjacentMines(t, cols, p / cols, p % cols);
    assert around == {};
    forall j | IsNeighbor(rows, cols, p, j) ensures t[j].symbol != MINE {
      assert j !in around;
    }
  }

  /** On a classified board a non-mine tile with no neighbouring mine is ' '. */
  lemma NoMineAroundIsBlank(t: seq<Tile>, rows: int, cols: int, p: int)
    requires WellFormed(t, rows, cols) && Classified(t, rows, cols)
    requires 0 <= p < |t| && t[p].symbol != MINE
    requires forall j :: IsNeighbor(rows, cols, p, j) ==> t[j].symbol != MINE
    ensures t[p].symbol == ' '
  {
    var around := AdjacentMines(t, cols, p / cols, p % cols);
    assert forall x :: x in around ==> IsNeighbor(rows, cols, p, x);
    assert around == {};
  }

  // ---------------------------------------------------------------------
  // Flags

  /** getFlaggedCount: the number of flagged tiles. */
  function FlaggedCount(t: seq<Tile>): (n: nat)
    ensures n <= |t|
  {
    if t == [] then 0 else (if t[0].flagged then 1 else 0) + FlaggedCount(t[1..])
  }

  /** Toggling one flag moves the count by exactly one. */
  lemma {:induction false} FlaggedCountToggle(t: seq<Tile>, i: int)
    requires 0 <= i < |t|
    ensures FlaggedCount(t[i := t[i].(flagged := !t[i].flagged)]) ==
      if t[i].flagged then FlaggedCount(t) - 1 else FlaggedCount(t) + 1
  {
    var u := t[i := t[i].(flagged := !t[i].flagged)];
    if i == 0 {
      assert u[1..] == t[1..];
    } else {
      FlaggedCountToggle(t[1..], i - 1);
      assert u[1..] == t[1..][i - 1 := t[1..][i - 1].(flagged := !t[1..][i - 1].flagged)];
    }
  }
}
