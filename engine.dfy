/** The board engine of MinesweeperGame (src/gameState.cpp): difficulty and
    reset, lazy mine placement on the first reveal, the breadth-first flood
    fill, win detection, the loss sweep and the guards of the input handler.
    The board is the `tiles` sequence and the configuration and phase are the
    `ctx` record, both owned by one MinesweeperGame object. */
module Engine {
  import opened GameTypes
  import opened Grid

  // ---------------------------------------------------------------------
  // Board predicates

  /** A revealed tile is never flagged. */
  ghost predicate NoRevealedFlag(t: seq<Tile>) {
    forall i :: 0 <= i < |t| ==> !(t[i].revealed && t[i].flagged)
  }

  /** No mine is showing. */
  ghost predicate NoRevealedMine(t: seq<Tile>) {
    forall i :: 0 <= i < |t| && t[i].revealed ==> t[i].symbol != MINE
  }

  ghost predicate NothingRevealed(t: seq<Tile>) {
    forall i :: 0 <= i < |t| ==> !t[i].revealed
  }

  /** The win condition: every tile that is not a mine is revealed. */
  ghost predicate AllSafeRevealed(t: seq<Tile>) {
    forall i :: 0 <= i < |t| && t[i].symbol != MINE ==> t[i].revealed
  }

  /** Tile i was hidden in t0 and is revealed in t. */
  ghost predicate NewlyRevealed(t0: seq<Tile>, t: seq<Tile>, i: int)
    requires 0 <= i < |t0| && 0 <= i < |t|
  {
    !t0[i].revealed && t[i].revealed
  }

  predicate IsNumber(s: char) {
    '1' <= s <= '8'
  }

  /** The clicked tile and its in-bounds 8-neighbours, as generation lists them. */
  function SafeZone(rows: int, cols: int, s: int): (z: seq<int>)
    requires 1 <= cols
    ensures 1 <= |z| <= 9 && z[0] == s
  {
    [s] + Neighbors(rows, cols, s)
  }

  // ---------------------------------------------------------------------
  // Mine counts

  /** The clamp of generateGameOnFirstClick: at most cells - 9 mines, and none
      when that bound or the request is not positive. */
  function MinesToPlace(requested: int, cells: int): (m: nat)
    ensures m == 0 || (m <= requested && m <= cells - 9)
    ensures 0 <= requested <= cells - 9 ==> m == requested
    ensures 0 <= cells - 9 <= requested ==> m == cells - 9
  {
    var target := if requested > cells - 9 then cells - 9 else requested;
    if target < 0 then 0 else target
  }

  /** The mine count revealTileAt passes to generation when the board holds
      no mine; (int)(cells * 0.15) is written as cells * 15 / 100. */
  function FallbackMineCount(cells: int): (m: int)
    ensures 0 <= cells ==> 0 <= m <= cells
  {
    if cells == 81 then 10
    else if cells == 256 then 40
    else if cells == 480 then 99
    else cells * 15 / 100
  }

  /** vector::resize: keeps the common prefix and value-initialises new tiles. */
  function Resized(t: seq<Tile>, n: nat): (r: seq<Tile>)
    ensures |r| == n
    ensures forall i :: 0 <= i < n && i < |t| ==> r[i] == t[i]
    ensures forall i :: |t| <= i < n ==> r[i] == Tile(0 as char, false, false)
  {
    if n <= |t| then t[..n] else t + seq(n - |t|, _ => Tile(0 as char, false, false))
  }

  // ---------------------------------------------------------------------
  // Loss sweep

  /** The board after processGameOver(k): the clicked tile, every unflagged
      mine and every unflagged numbered tile become revealed; nothing else
      changes. */
  function Sweep(ts: seq<Tile>, k: int): (r: seq<Tile>)
    ensures |r| == |ts|
  {
    seq(|ts|, i requires 0 <= i < |ts| =>
      ts[i].(revealed := ts[i].revealed || i == k ||
                         (!ts[i].flagged && (ts[i].symbol == MINE || IsNumber(ts[i].symbol)))))
  }

  /** What the sweep promises, tile by tile. */
  lemma SweepEffects(ts: seq<Tile>, k: int, i: int)
    requires 0 <= i < |ts|
    ensures Sweep(ts, k)[i].symbol == ts[i].symbol && Sweep(ts, k)[i].flagged == ts[i].flagged
    ensures ts[i].revealed ==> Sweep(ts, k)[i].revealed
    ensures i == k ==> Sweep(ts, k)[i].revealed
    ensures ts[i].symbol == MINE && !ts[i].flagged ==> Sweep(ts, k)[i].revealed
    ensures IsNumber(ts[i].symbol) && !ts[i].flagged ==> Sweep(ts, k)[i].revealed
    ensures i != k && ts[i].flagged && ts[i].symbol != MINE ==> Sweep(ts, k)[i].revealed == ts[i].revealed
    ensures i != k && ts[i].symbol == ' ' && !ts[i].revealed ==> !Sweep(ts, k)[i].revealed
  {
  }

  /** Running the sweep a second time changes nothing. */
  lemma SweepIdempotent(ts: seq<Tile>, k: int)
    ensures Sweep(Sweep(ts, k), k) == Sweep(ts, k)
  {
    var once := Sweep(ts, k);
    var twice := Sweep(once, k);
    forall i | 0 <= i < |ts| ensures twice[i] == once[i] {
      SweepEffects(ts, k, i);
      SweepEffects(once, k, i);
    }
  }

  // ---------------------------------------------------------------------
  // Counting facts used by generation and the flood fill

  /** The indices 0 .. n-1 as a set. */
  ghost function Indices(n: nat): (s: set<int>)
    ensures forall i :: i in s <==> 0 <= i < n
    ensures |s| == n
  {
    if n == 0 then {} else Indices(n - 1) + {n - 1}
  }

  lemma {:induction false} SeqSetCard(s: seq<int>)
    ensures |set x | x in s| <= |s|
  {
    if s != [] {
      SeqSetCard(s[1..]);
      assert (set x | x in s) == (set x | x in s[1..]) + {s[0]};
    }
  }

  /** t has the mines, flags and reveal marks of layout. */
  ghost predicate SameLayout(layout: seq<Tile>, t: seq<Tile>)
    requires |layout| == |t|
  {
    forall i :: 0 <= i < |t| ==>
      && (t[i].symbol == MINE) == (layout[i].symbol == MINE)
      && t[i].revealed == layout[i].revealed && t[i].flagged == layout[i].flagged
  }

  /** Every non-mine tile below index n shows its count on layout. */
  ghost predicate NumberedBelow(t: seq<Tile>, layout: seq<Tile>, rows: int, cols: int, n: int)
    requires WellFormed(layout, rows, cols) && |t| == |layout|
  {
    forall i :: 0 <= i < |t| && i < n && t[i].symbol != MINE ==>
      ShowsCount(t[i].symbol, |AdjacentMines(layout, cols, i / cols, i % cols)|)
  }

  /** Writing the count of tile i into a board with layout's mines extends
      the numbered prefix by one index. */
  lemma NumberOne(t: seq<Tile>, layout: seq<Tile>, rows: int, cols: int, i: int)
    requires WellFormed(layout, rows, cols) && |t| == |layout| && SameLayout(layout, t)
    requires 0 <= i < |t| && t[i].symbol != MINE
    requires NumberedBelow(t, layout, rows, cols, i)
    ensures var u := t[i := t[i].(symbol := DigitSymbol(CountNeighborMines(t, rows, cols, i / cols, i % cols)))];
      SameLayout(layout, u) && NumberedBelow(u, layout, rows, cols, i + 1)
  {
    var k := CountNeighborMines(t, rows, cols, i / cols, i % cols);
    CountNeighborMinesSpec(t, rows, cols, i / cols, i % cols);
    SameMinesSameAdjacent(t, layout, cols, i / cols, i % cols);
    NumberWrite(t, layout, rows, cols, i, DigitSymbol(k));
  }

  /** Writing into non-mine tile i a symbol that is no mine and shows the
      tile's count on layout extends the numbered prefix by one index. */
  lemma NumberWrite(t: seq<Tile>, layout: seq<Tile>, rows: int, cols: int, i: int, s: char)
    requires WellFormed(layout, rows, cols) && |t| == |layout| && SameLayout(layout, t)
    requires 0 <= i < |t| && t[i].symbol != MINE
    requires NumberedBelow(t, layout, rows, cols, i)
    requires s != MINE && ShowsCount(s, |AdjacentMines(layout, cols, i / cols, i % cols)|)
    ensures var u := t[i := t[i].(symbol := s)];
      SameLayout(layout, u) && NumberedBelow(u, layout, rows, cols, i + 1)
  {
    var u := t[i := t[i].(symbol := s)];
    forall j | 0 <= j < |u| && j < i + 1 && u[j].symbol != MINE
      ensures ShowsCount(u[j].symbol, |AdjacentMines(layout, cols, j / cols, j % cols)|)
    {
      if j != i {
        assert u[j] == t[j];
      }
    }
    assert SameLayout(layout, u);
  }

  /** A mine needs no number: the numbered prefix extends past it. */
  lemma NumberSkip(t: seq<Tile>, layout: seq<Tile>, rows: int, cols: int, i: int)
    requires WellFormed(layout, rows, cols) && |t| == |layout|
    requires 0 <= i < |t| && t[i].symbol == MINE
    requires NumberedBelow(t, layout, rows, cols, i)
    ensures NumberedBelow(t, layout, rows, cols, i + 1)
  {
  }

  /** A fully numbered board with layout's mines is classified. */
  lemma NumberedIsClassified(t: seq<Tile>, layout: seq<Tile>, rows: int, cols: int)
    requires WellFormed(layout, rows, cols) && |t| == |layout| && SameLayout(layout, t)
    requires NumberedBelow(t, layout, rows, cols, rows * cols)
    ensures WellFormed(t, rows, cols) && Classified(t, rows, cols)
  {
    forall i | 0 <= i < |t| && t[i].symbol != MINE
      ensures ShowsCount(t[i].symbol, |AdjacentMines(t, cols, i / cols, i % cols)|)
    {
      SameMinesSameAdjacent(t, layout, cols, i / cols, i % cols);
    }
  }

  /** The mine positions depend only on which tiles are mines. */
  lemma MineSetBySymbolClass(t1: seq<Tile>, t2: seq<Tile>)
    requires |t1| == |t2|
    requires forall i :: 0 <= i < |t1| ==> (t1[i].symbol == MINE) == (t2[i].symbol == MINE)
    ensures MineSet(t1) == MineSet(t2)
  {
  }

  /** Rejection sampling always has a candidate: while fewer mines are placed
      than cells outside the safe zone, some cell is neither a mine nor in it. */
  lemma EligibleExists(t: seq<Tile>, safe: seq<int>)
    requires |MineSet(t)| + |safe| < |t|
    ensures exists i :: 0 <= i < |t| && t[i].symbol != MINE && i !in safe
  {
    var all := Indices(|t|);
    var safeSet := set x | x in safe;
    var blocked := MineSet(t) + safeSet;
    SeqSetCard(safe);
    assert |blocked| <= |MineSet(t)| + |safeSet|;
    var free := all - blocked;
    assert all == free + (all * blocked);
    assert all * blocked <= blocked;
    assert blocked == (all * blocked) + (blocked - all);
    assert |free| > 0;
    var i :| i in free;
  }

  /** The number of true entries. */
  function CountTrue(s: seq<bool>): (n: nat)
    ensures n <= |s|
  {
    if s == [] then 0 else (if s[0] then 1 else 0) + CountTrue(s[1..])
  }

  /** Marking one more entry raises the count by one. */
  lemma {:induction false} CountTrueSet(s: seq<bool>, i: int)
    requires 0 <= i < |s| && !s[i]
    ensures CountTrue(s[i := true]) == CountTrue(s) + 1
  {
    if i == 0 {
      assert s[i := true][1..] == s[1..];
    } else {
      CountTrueSet(s[1..], i - 1);
      assert s[i := true][1..] == s[1..][i - 1 := true];
    }
  }

  /** The positions the neighbour loop queues, in list order: each listed
      position that is unvisited, hidden and unflagged when its turn comes. */
  function Fresh(t: seq<Tile>, nbrs: seq<int>, visited: seq<bool>): (f: seq<int>)
    requires |visited| == |t|
    requires forall m :: 0 <= m < |nbrs| ==> 0 <= nbrs[m] < |t|
    ensures |f| <= |nbrs|
    ensures forall k :: 0 <= k < |f| ==> f[k] in nbrs && !visited[f[k]]
    decreases |nbrs|
  {
    if nbrs == [] then []
    else
      var ni := nbrs[0];
      if !visited[ni] && !t[ni].revealed && !t[ni].flagged then
        [ni] + Fresh(t, nbrs[1..], visited[ni := true])
      else
        Fresh(t, nbrs[1..], visited)
  }

  /** One turn of the neighbour loop, seen from the queued positions. */
  lemma FreshStep(t: seq<Tile>, nbrs: seq<int>, k: int, visited: seq<bool>)
    requires |visited| == |t| && 0 <= k < |nbrs|
    requires forall m :: 0 <= m < |nbrs| ==> 0 <= nbrs[m] < |t|
    ensures var ni := nbrs[k];
      Fresh(t, nbrs[k..], visited) ==
        if !visited[ni] && !t[ni].revealed && !t[ni].flagged
        then [ni] + Fresh(t, nbrs[k + 1..], visited[ni := true])
        else Fresh(t, nbrs[k + 1..], visited)
  {
    assert nbrs[k..][1..] == nbrs[k + 1..];
  }

  /** What the neighbour loop keeps true once the first k listed positions
      are handled: the queue so far followed by what the rest would queue is
      the whole result, the visited marks are the old ones plus the handled
      fresh positions, and every new queue entry is one of those. */
  ghost predicate PushInv(t: seq<Tile>, nbrs: seq<int>, k: int, visited: seq<bool>, q: seq<int>,
                          visited': seq<bool>, q': seq<int>)
    requires |visited| == |t|
    requires forall m :: 0 <= m < |nbrs| ==> 0 <= nbrs[m] < |t|
  {
    && 0 <= k <= |nbrs| && |visited'| == |t| && |q| <= |q'|
    && (forall j :: 0 <= j < |q| ==> q'[j] == q[j])
    && q' + Fresh(t, nbrs[k..], visited') == q + Fresh(t, nbrs, visited)
    && (forall i :: 0 <= i < |t| ==>
          (visited'[i] <==> visited[i] || (i in nbrs[..k] && !t[i].revealed && !t[i].flagged)))
    && (forall j :: |q| <= j < |q'| ==> 0 <= q'[j] < |t| && !visited[q'[j]] && visited'[q'[j]])
    && (forall i :: 0 <= i < |t| && visited'[i] && !visited[i] ==> i in q')
    && CountTrue(visited') - CountTrue(visited) == |q'| - |q|
  }

  /** Handling a fresh position: it is marked and queued. */
  lemma PushTake(t: seq<Tile>, nbrs: seq<int>, k: int, visited: seq<bool>, q: seq<int>,
                 visited': seq<bool>, q': seq<int>)
    requires |visited| == |t|
    requires forall m :: 0 <= m < |nbrs| ==> 0 <= nbrs[m] < |t|
    requires PushInv(t, nbrs, k, visited, q, visited', q') && k < |nbrs|
    requires !visited'[nbrs[k]] && !t[nbrs[k]].revealed && !t[nbrs[k]].flagged
    ensures PushInv(t, nbrs, k + 1, visited, q, visited'[nbrs[k] := true], q' + [nbrs[k]])
  {
    var ni := nbrs[k];
    assert nbrs[..k + 1] == nbrs[..k] + [ni];
    FreshStep(t, nbrs, k, visited');
    CountTrueSet(visited', ni);
    var v2 := visited'[ni := true];
    assert (q' + [ni]) + Fresh(t, nbrs[k + 1..], v2) == q' + ([ni] + Fresh(t, nbrs[k + 1..], v2));
  }

  /** Handling a position that is visited, open or flagged changes nothing. */
  lemma PushSkip(t: seq<Tile>, nbrs: seq<int>, k: int, visited: seq<bool>, q: seq<int>,
                 visited': seq<bool>, q': seq<int>)
    requires |visited| == |t|
    requires forall m :: 0 <= m < |nbrs| ==> 0 <= nbrs[m] < |t|
    requires PushInv(t, nbrs, k, visited, q, visited', q') && k < |nbrs|
    requires visited'[nbrs[k]] || t[nbrs[k]].revealed || t[nbrs[k]].flagged
    ensures PushInv(t, nbrs, k + 1, visited, q, visited', q')
  {
    assert nbrs[..k + 1] == nbrs[..k] + [nbrs[k]];
    FreshStep(t, nbrs, k, visited');
  }

  /** The neighbour loop of revealTileAt's fill: every listed position that
      is unvisited, hidden and unflagged is marked visited and queued, in list
      order. */
  method PushNeighbors(t: seq<Tile>, nbrs: seq<int>, visited: seq<bool>, q: seq<int>)
    returns (visited': seq<bool>, q': seq<int>)
    requires |visited| == |t|
    requires forall m :: 0 <= m < |nbrs| ==> 0 <= nbrs[m] < |t|
    ensures |visited'| == |t| && |q| <= |q'|
    ensures forall k :: 0 <= k < |q| ==> q'[k] == q[k]
    ensures q' == q + Fresh(t, nbrs, visited)
    ensures forall i :: 0 <= i < |t| ==>
      (visited'[i] <==> visited[i] || (i in nbrs && !t[i].revealed && !t[i].flagged))
    ensures forall k :: |q| <= k < |q'| ==> 0 <= q'[k] < |t| && !visited[q'[k]] && visited'[q'[k]]
    ensures forall i :: 0 <= i < |t| && visited'[i] && !visited[i] ==> i in q'
    ensures CountTrue(visited') - CountTrue(visited) == |q'| - |q|
  {
    visited', q' := visited, q;
    var k := 0;
    assert nbrs[..0] == [] && nbrs[0..] == nbrs;
    while k < |nbrs|
      invariant PushInv(t, nbrs, k, visited, q, visited', q')
    {
      var ni := nbrs[k];
      if !visited'[ni] && !t[ni].revealed && !t[ni].flagged {
        PushTake(t, nbrs, k, visited, q, visited', q');
        visited' := visited'[ni := true];
        q' := q' + [ni];
      } else {
        PushSkip(t, nbrs, k, visited, q, visited', q');
      }
      k := k + 1;
    }
    assert nbrs[..k] == nbrs && nbrs[k..] == [];
  }

  /** What the flood fill keeps true between two pops, for a fill started at
      `index` on the board `t0`: only symbols-preserving reveals, every queued
      position visited, every visited position a hidden non-mine of `t0`
      that is either queued or done, and every opened ' ' tile with all its
      neighbours visited, open or flagged. */
  ghost predicate FillInv(t0: seq<Tile>, board: seq<Tile>, visited: seq<bool>, q: seq<int>,
                          index: int, rows: int, cols: int)
    requires WellFormed(t0, rows, cols)
  {
    var n := |t0|;
    && |board| == n && |visited| == n && 0 <= index < n && visited[index]
    && |q| <= CountTrue(visited)
    && (forall i :: 0 <= i < n ==>
          board[i].symbol == t0[i].symbol && board[i].flagged == t0[i].flagged)
    && (forall i :: 0 <= i < n && t0[i].revealed ==> board[i].revealed)
    && (forall k :: 0 <= k < |q| ==> 0 <= q[k] < n && visited[q[k]])
    && (forall i :: 0 <= i < n && visited[i] ==> !t0[i].revealed && t0[i].symbol != MINE)
    && (forall i :: 0 <= i < n && visited[i] && !board[i].revealed && !board[i].flagged ==> i in q)
    && (forall i :: 0 <= i < n && NewlyRevealed(t0, board, i) ==> visited[i] && !board[i].flagged)
    && (forall i, j ::
          (0 <= i < n && NewlyRevealed(t0, board, i) && board[i].symbol == ' ' &&
           IsNeighbor(rows, cols, i, j)) ==>
          (visited[j] || board[j].revealed || board[j].flagged))
  }

  /** Tile p was hidden in t0 and shows ' ' open on board: the fill queued
      its neighbours. */
  ghost predicate OpenedBlank(t0: seq<Tile>, board: seq<Tile>, p: int) {
    0 <= p < |t0| && p < |board| && !t0[p].revealed && board[p].revealed && board[p].symbol == ' '
  }

  /** Entry k of `order` is a neighbour of an earlier entry that is an
      opened ' ' tile. */
  ghost predicate ReachedAt(t0: seq<Tile>, board: seq<Tile>, order: seq<int>, k: int,
                            rows: int, cols: int) {
    1 <= cols && 0 <= k < |order| &&
    exists m :: 0 <= m < k && OpenedBlank(t0, board, order[m]) && IsNeighbor(rows, cols, order[m], order[k])
  }

  /** `order` starts at `index`, and every later entry is reached from an
      earlier one through an opened ' ' tile. */
  ghost predicate FillOrder(t0: seq<Tile>, board: seq<Tile>, order: seq<int>, index: int,
                            rows: int, cols: int) {
    && order != [] && order[0] == index
    && (forall k :: 0 < k < |order| ==> ReachedAt(t0, board, order, k, rows, cols))
  }

  /** Every tile opened on the way from t0 to board is listed in `order`, a
      chain from `index` through opened ' ' tiles: the fill opens the start
      tile and what its ' ' tiles reach, and nothing else. */
  ghost predicate OpenedFrom(t0: seq<Tile>, board: seq<Tile>, index: int, rows: int, cols: int,
                             order: seq<int>) {
    && FillOrder(t0, board, order, index, rows, cols)
    && (forall i :: 0 <= i < |t0| && i < |board| && !t0[i].revealed && board[i].revealed ==> i in order)
  }

  /** The trail the fill keeps beside its queue: every visited tile is
      listed in a chain from `index`. */
  ghost predicate FillTrail(t0: seq<Tile>, board: seq<Tile>, visited: seq<bool>, order: seq<int>,
                            index: int, rows: int, cols: int) {
    && FillOrder(t0, board, order, index, rows, cols)
    && (forall i :: 0 <= i < |visited| && visited[i] ==> i in order)
  }

  /** Opening more tiles without changing symbols keeps a chain valid. */
  lemma FillOrderGrow(t0: seq<Tile>, board: seq<Tile>, board': seq<Tile>, order: seq<int>,
                      index: int, rows: int, cols: int)
    requires FillOrder(t0, board, order, index, rows, cols)
    requires |board'| == |board|
    requires forall i :: 0 <= i < |board| ==>
      board'[i].symbol == board[i].symbol && (board[i].revealed ==> board'[i].revealed)
    ensures FillOrder(t0, board', order, index, rows, cols)
  {
    forall k | 0 < k < |order| ensures ReachedAt(t0, board', order, k, rows, cols) {
      assert ReachedAt(t0, board, order, k, rows, cols);
      var m :| 0 <= m < k && OpenedBlank(t0, board, order[m]) && IsNeighbor(rows, cols, order[m], order[k]);
      assert OpenedBlank(t0, board', order[m]);
    }
  }

  /** Appending neighbours of a listed opened ' ' tile keeps a chain valid. */
  lemma FillOrderPush(t0: seq<Tile>, board: seq<Tile>, order: seq<int>, cur: int, news: seq<int>,
                      index: int, rows: int, cols: int)
    requires 1 <= cols && FillOrder(t0, board, order, index, rows, cols)
    requires cur in order && OpenedBlank(t0, board, cur)
    requires forall k :: 0 <= k < |news| ==> IsNeighbor(rows, cols, cur, news[k])
    ensures FillOrder(t0, board, order + news, index, rows, cols)
  {
    var o := order + news;
    var mc :| 0 <= mc < |order| && order[mc] == cur;
    forall k | 0 < k < |o| ensures ReachedAt(t0, board, o, k, rows, cols) {
      if k < |order| {
        assert ReachedAt(t0, board, order, k, rows, cols);
      var m :| 0 <= m < k && OpenedBlank(t0, board, order[m]) && IsNeighbor(rows, cols, order[m], order[k]);
        assert o[m] == order[m] && o[k] == order[k];
      } else {
        assert o[mc] == cur && o[k] == news[k - |order|];
      }
    }
  }

  /** The trail after a ' ' tile's neighbours are queued: the newly queued
      tiles are appended to it. */
  lemma TrailAfterPush(t0: seq<Tile>, board: seq<Tile>, visited: seq<bool>, visited': seq<bool>,
                       rest: seq<int>, q': seq<int>, order: seq<int>, cur: int,
                       index: int, rows: int, cols: int)
    requires 1 <= cols && |visited'| == |visited| == |t0|
    requires FillTrail(t0, board, visited, order, index, rows, cols)
    requires OpenedBlank(t0, board, cur) && 0 <= cur < |visited| && visited[cur]
    requires |rest| <= |q'|
    requires forall k :: 0 <= k < |rest| ==> q'[k] == rest[k] && 0 <= rest[k] < |visited| && visited[rest[k]]
    requires forall k :: |rest| <= k < |q'| ==> IsNeighbor(rows, cols, cur, q'[k])
    requires forall i :: 0 <= i < |visited| && visited'[i] && !visited[i] ==> i in q'
    ensures FillTrail(t0, board, visited', order + q'[|rest|..], index, rows, cols)
  {
    var news := q'[|rest|..];
    FillOrderPush(t0, board, order, cur, news, index, rows, cols);
    forall i | 0 <= i < |visited| && visited'[i] ensures i in order + news {
      if !visited[i] {
        var k :| 0 <= k < |q'| && q'[k] == i;
        assert news[k - |rest|] == i;
      }
    }
  }

  /** A fill started on a tile that is not ' ' opens that tile alone. */
  lemma OpenedFromNumber(t0: seq<Tile>, board: seq<Tile>, index: int, rows: int, cols: int,
                         order: seq<int>)
    requires OpenedFrom(t0, board, index, rows, cols, order)
    requires 0 <= index < |board| && board[index].symbol != ' '
    ensures forall i :: 0 <= i < |t0| && i < |board| && !t0[i].revealed && board[i].revealed ==> i == index
  {
    assert |order| > 1 ==> ReachedAt(t0, board, order, 1, rows, cols);
  }

  /** The chain only looks at which tiles the start board had open. */
  lemma OpenedFromSameMarks(t0: seq<Tile>, t1: seq<Tile>, board: seq<Tile>, index: int,
                            rows: int, cols: int, order: seq<int>)
    requires OpenedFrom(t0, board, index, rows, cols, order)
    requires |t1| == |t0| && forall i :: 0 <= i < |t0| ==> t1[i].revealed == t0[i].revealed
    ensures OpenedFrom(t1, board, index, rows, cols, order)
  {
    forall k | 0 < k < |order| ensures ReachedAt(t1, board, order, k, rows, cols) {
      assert ReachedAt(t0, board, order, k, rows, cols);
      var m :| 0 <= m < k && OpenedBlank(t0, board, order[m]) && IsNeighbor(rows, cols, order[m], order[k]);
      assert OpenedBlank(t1, board, order[m]);
    }
  }

  /** No ' ' tile of t has a mine among its neighbours. */
  ghost predicate BlanksGuarded(t: seq<Tile>, rows: int, cols: int)
    requires WellFormed(t, rows, cols)
  {
    forall p, j :: 0 <= p < |t| && t[p].symbol == ' ' && IsNeighbor(rows, cols, p, j) ==>
      t[j].symbol != MINE
  }

  /** On a classified board a ' ' tile has no adjacent mine: the fill may
      open every neighbour of one. */
  lemma ClassifiedGuardsBlanks(t: seq<Tile>, rows: int, cols: int)
    requires WellFormed(t, rows, cols) && Classified(t, rows, cols)
    ensures BlanksGuarded(t, rows, cols)
  {
    forall p | 0 <= p < |t| && t[p].symbol == ' '
      ensures forall j :: IsNeighbor(rows, cols, p, j) ==> t[j].symbol != MINE
    {
      BlankHasNoMineAround(t, rows, cols, p);
    }
  }

  /** Popping a flagged tile drops it and keeps the fill invariant. */
  lemma FillPopFlagged(t0: seq<Tile>, board: seq<Tile>, visited: seq<bool>, q: seq<int>,
                       index: int, rows: int, cols: int)
    requires WellFormed(t0, rows, cols)
    requires q != [] && FillInv(t0, board, visited, q, index, rows, cols)
    requires board[q[0]].flagged
    ensures FillInv(t0, board, visited, q[1..], index, rows, cols)
  {
    assert forall i :: i in q && i != q[0] ==> i in q[1..];
  }

  /** Popping and opening a tile that is not ' ' keeps the fill invariant. */
  lemma FillPopNumber(t0: seq<Tile>, board: seq<Tile>, visited: seq<bool>, q: seq<int>,
                      index: int, rows: int, cols: int)
    requires WellFormed(t0, rows, cols)
    requires q != [] && FillInv(t0, board, visited, q, index, rows, cols)
    requires !board[q[0]].flagged && board[q[0]].symbol != ' '
    ensures FillInv(t0, board[q[0] := board[q[0]].(revealed := true)], visited, q[1..],
                    index, rows, cols)
  {
    assert forall i :: i in q && i != q[0] ==> i in q[1..];
  }

  /** Popping and opening a ' ' tile and queueing its fresh neighbours
      keeps the fill invariant. */
  lemma FillPopBlank(t0: seq<Tile>, board: seq<Tile>, visited: seq<bool>, q: seq<int>,
                     board': seq<Tile>, visited': seq<bool>, q': seq<int>,
                     index: int, rows: int, cols: int)
    requires WellFormed(t0, rows, cols) && BlanksGuarded(t0, rows, cols)
    requires q != [] && FillInv(t0, board, visited, q, index, rows, cols)
    requires !board[q[0]].flagged && board[q[0]].symbol == ' '
    requires board' == board[q[0] := board[q[0]].(revealed := true)]
    requires |visited'| == |t0| && |q| - 1 <= |q'|
    requires forall k :: 0 <= k < |q| - 1 ==> q'[k] == q[k + 1]
    requires forall i :: 0 <= i < |t0| ==>
      (visited'[i] <==> visited[i] || (IsNeighbor(rows, cols, q[0], i) && !board'[i].revealed && !board'[i].flagged))
    requires forall k :: |q| - 1 <= k < |q'| ==> 0 <= q'[k] < |t0| && !visited[q'[k]] && visited'[q'[k]]
    requires forall i :: 0 <= i < |t0| && visited'[i] && !visited[i] ==> i in q'
    requires CountTrue(visited') - CountTrue(visited) == |q'| - (|q| - 1)
    ensures FillInv(t0, board', visited', q', index, rows, cols)
  {
    var n := |board|;
    var cur := q[0];
    forall k | 0 <= k < |q'| ensures 0 <= q'[k] < n && visited'[q'[k]] {
      if k < |q| - 1 {
        assert q'[k] == q[k + 1];
      }
    }
    forall i | 0 <= i < n && visited'[i] && !board'[i].revealed && !board'[i].flagged
      ensures i in q'
    {
      if visited[i] {
        var k :| 0 <= k < |q| && q[k] == i;
        assert q'[k - 1] == i;
      }
    }
    forall i, j | (0 <= i < n && NewlyRevealed(t0, board', i) && board'[i].symbol == ' ' &&
                   IsNeighbor(rows, cols, i, j))
      ensures visited'[j] || board'[j].revealed || board'[j].flagged
    {
      if i != cur {
        assert NewlyRevealed(t0, board, i);
      }
    }
  }

  /** One turn of the fill loop: pop the head of the queue; a flagged tile is
      dropped, any other is revealed, and a ' ' tile pushes its neighbours.
      The invariant is kept and the visited count rises or the queue shrinks. */
  method FillStep(ghost t0: seq<Tile>, board: seq<Tile>, visited: seq<bool>, q: seq<int>,
                  ghost order: seq<int>, index: int, rows: int, cols: int)
    returns (board': seq<Tile>, visited': seq<bool>, q': seq<int>, ghost order': seq<int>)
    requires WellFormed(t0, rows, cols) && BlanksGuarded(t0, rows, cols)
    requires q != [] && FillInv(t0, board, visited, q, index, rows, cols)
    requires FillTrail(t0, board, visited, order, index, rows, cols)
    ensures FillInv(t0, board', visited', q', index, rows, cols)
    ensures FillTrail(t0, board', visited', order', index, rows, cols)
    ensures CountTrue(visited) < CountTrue(visited') ||
      (CountTrue(visited') == CountTrue(visited) && |q'| < |q|)
  {
    var n := |board|;
    var cur := q[0];
    q' := q[1..];
    visited' := visited;
    board' := board;
    order' := order;
    if board[cur].flagged {
      FillPopFlagged(t0, board, visited, q, index, rows, cols);
      return;
    }
    board' := board[cur := board[cur].(revealed := true)];
    FillOrderGrow(t0, board, board', order, index, rows, cols);
    if board'[cur].symbol != ' ' {
      FillPopNumber(t0, board, visited, q, index, rows, cols);
    } else {
      var nbrs := NeighborsFrom(rows, cols, cur / cols, cur % cols, 0);
      forall m | 0 <= m < |nbrs| ensures 0 <= nbrs[m] < n {
        assert nbrs[m] in nbrs;
      }
      var rest := q';
      visited', q' := PushNeighbors(board', nbrs, visited, rest);
      forall i | 0 <= i < n ensures i in nbrs <==> IsNeighbor(rows, cols, cur, i) {
        NeighborsSpec(rows, cols, cur, i);
      }
      FillPopBlank(t0, board, visited, q, board', visited', q', index, rows, cols);
      TrailAfterPush(t0, board', visited, visited', rest, q', order, cur, index, rows, cols);
      order' := order + q'[|rest|..];
    }
  }

  /** The breadth-first fill of revealTileAt, started at `index` on the board
      `t0`: a FIFO queue and a visited vector; flagged tiles are skipped,
      every popped tile is revealed, and only ' ' tiles enqueue their
      unvisited, hidden, unflagged neighbours. On a classified board it opens
      no mine, and it stops only when every opened ' ' tile has all its
      neighbours open or flagged. */
  method FloodFill(t0: seq<Tile>, rows: int, cols: int, index: int) returns (board: seq<Tile>)
    requires WellFormed(t0, rows, cols) && Classified(t0, rows, cols) && 0 <= index < |t0|
    requires !t0[index].flagged && !t0[index].revealed && t0[index].symbol != MINE
    ensures |board| == |t0|
    ensures forall i :: 0 <= i < |t0| ==>
      board[i].symbol == t0[i].symbol && board[i].flagged == t0[i].flagged
    ensures forall i :: 0 <= i < |t0| && t0[i].revealed ==> board[i].revealed
    ensures board[index].revealed
    ensures forall i :: 0 <= i < |t0| && NewlyRevealed(t0, board, i) ==>
      !board[i].flagged && board[i].symbol != MINE
    ensures forall i, j ::
      (0 <= i < |t0| && NewlyRevealed(t0, board, i) && board[i].symbol == ' ' &&
       IsNeighbor(rows, cols, i, j)) ==> (board[j].revealed || board[j].flagged)
    ensures exists order :: OpenedFrom(t0, board, index, rows, cols, order)
    ensures t0[index].symbol != ' ' ==> board == t0[index := t0[index].(revealed := true)]
  {
    ClassifiedGuardsBlanks(t0, rows, cols);
    board := t0;
    var n := |board|;
    var q: seq<int> := [index];
    var visited := seq(n, _ => false);
    CountTrueSet(visited, index);
    visited := visited[index := true];
    ghost var order := [index];
    while q != []
      invariant FillInv(t0, board, visited, q, index, rows, cols)
      invariant FillTrail(t0, board, visited, order, index, rows, cols)
      decreases n - CountTrue(visited), |q|
    {
      board, visited, q, order := FillStep(t0, board, visited, q, order, index, rows, cols);
    }
    assert OpenedFrom(t0, board, index, rows, cols, order);
    if t0[index].symbol != ' ' {
      OpenedFromNumber(t0, board, index, rows, cols, order);
      assert forall i :: 0 <= i < n ==> board[i] == t0[index := t0[index].(revealed := true)][i];
    }
  }

  /** On a board of at least 9 x 9 cells the first-click generation always
      places a mine. */
  lemma FallbackPlacesMine(cells: int)
    requires 81 <= cells
    ensures 1 <= MinesToPlace(FallbackMineCount(cells), cells)
  {
  }

  /** The mines the three menu sizes really get on the first reveal: 10, 40
      and 135, not the 20, 49 and 199 that setDifficulty stores in
      totalMines for the remaining-mines counter. */
  lemma PlacedOnMenuSizes()
    ensures MinesToPlace(FallbackMineCount(9 * 9), 9 * 9) == 10
    ensures MinesToPlace(FallbackMineCount(16 * 16), 16 * 16) == 40
    ensures MinesToPlace(FallbackMineCount(30 * 30), 30 * 30) == 135
  {
  }

  // ---------------------------------------------------------------------
  // The game object

  class MinesweeperGame {
    var ctx: GameContext
    var tiles: seq<Tile>

    /** The board has the size the context gives it. */
    ghost predicate Shaped()
      reads this
    {
      WellFormed(tiles, ctx.rows, ctx.cols)
    }

    /** The engine's invariant between commands. */
    ghost predicate Valid()
      reads this
    {
      && Shaped()
      && Classified(tiles, ctx.rows, ctx.cols)
      && NoRevealedFlag(tiles)
      && (ctx.state == Playing ==> NoRevealedMine(tiles))
      && (ctx.state == Won ==> AllSafeRevealed(tiles))
      && 9 <= ctx.rows && 9 <= ctx.cols
      && (MineSet(tiles) == {} ==> NothingRevealed(tiles))
      && (!ctx.gameStarted ==> ctx.state == Playing && MineSet(tiles) == {} && NothingRevealed(tiles))
      && (ctx.gameStarted ==> MineSet(tiles) != {})
    }

    /** handleInput acts on a left click on tile idx: the game is being
        played and the tile is hidden and unflagged. */
    ghost predicate Accepts(idx: int)
      requires 0 <= idx < |tiles|
      reads this
    {
      ctx.state == Playing && !tiles[idx].flagged && !tiles[idx].revealed
    }

    /** A new game object holds the default context and an empty board. */
    constructor ()
      ensures ctx == DEFAULT_CONTEXT && tiles == []
    {
      ctx := DEFAULT_CONTEXT;
      tiles := [];
    }

    /** setDifficulty: size the board for `d`, restart the phase and the clock,
        and blank every tile. */
    method SetDifficulty(d: Difficulty)
      modifies this
      ensures Valid()
      ensures ctx.difficulty == d && ctx.state == Playing && !ctx.gameStarted
      ensures ctx.startTime == 0.0 && ctx.finalTime == 0.0
      ensures d == Beginner ==> ctx.rows == 9 && ctx.cols == 9 && ctx.totalMines == 20
      ensures d == Intermediate ==> ctx.rows == 16 && ctx.cols == 16 && ctx.totalMines == 49
      ensures d == Expert ==> ctx.rows == 30 && ctx.cols == 30 && ctx.totalMines == 199
      ensures |tiles| == ctx.rows * ctx.cols
      ensures forall i :: 0 <= i < |tiles| ==> tiles[i] == BLANK_TILE
    {
      var rows, cols, mines;
      match d {
        case Beginner =>
          rows, cols, mines := 9, 9, 20;
        case Intermediate =>
          rows, cols, mines := 16, 16, 49;
        case Expert =>
          rows, cols, mines := 30, 30, 199;
      }
      ctx := ctx.(difficulty := d, rows := rows, cols := cols, totalMines := mines,
                  state := Playing, gameStarted := false, startTime := 0.0, finalTime := 0.0);
      ResetBoard();
      BlankIsClassified(tiles, ctx.rows, ctx.cols);
    }

    /** resetBoard: rows * cols tiles, each ' ', hidden and unflagged. */
    method ResetBoard()
      requires 0 <= ctx.rows * ctx.cols
      modifies this
      ensures ctx == old(ctx)
      ensures |tiles| == ctx.rows * ctx.cols
      ensures forall i :: 0 <= i < |tiles| ==> tiles[i] == BLANK_TILE
    {
      tiles := Resized(tiles, ctx.rows * ctx.cols);
      var i := 0;
      while i < |tiles|
        invariant 0 <= i <= |tiles| == ctx.rows * ctx.cols
        invariant ctx == old(ctx)
        invariant forall j :: 0 <= j < i ==> tiles[j] == BLANK_TILE
      {
        tiles := tiles[i := BLANK_TILE];
        i := i + 1;
      }
    }

    /** generateGameOnFirstClick: place MinesToPlace(totalMines, cells) mines
        outside the safe zone of `safeIndex`, then write every other tile's
        neighbour count. */
    method GenerateGameOnFirstClick(safeIndex: int, totalMines: int)
      requires Shaped() && 0 <= safeIndex < |tiles|
      requires MineSet(tiles) == {}
      modifies this
      ensures ctx == old(ctx) && Shaped() && |tiles| == |old(tiles)|
      ensures forall i :: 0 <= i < |tiles| ==>
        tiles[i].revealed == old(tiles)[i].revealed && tiles[i].flagged == old(tiles)[i].flagged
      ensures |MineSet(tiles)| == MinesToPlace(totalMines, |tiles|)
      ensures forall j :: j in SafeZone(ctx.rows, ctx.cols, safeIndex) ==> tiles[j].symbol != MINE
      ensures Classified(tiles, ctx.rows, ctx.cols)
      ensures tiles[safeIndex].symbol == ' '
    {
      var maxIndex := ctx.rows * ctx.cols;
      var target := totalMines;
      if target > maxIndex - 9 {
        target := maxIndex - 9;
      }
      var safeZone := SafeZone(ctx.rows, ctx.cols, safeIndex);
      PlaceMines(safeZone, target);
      assert |MineSet(tiles)| == MinesToPlace(totalMines, |tiles|);
      ghost var placed := tiles;
      NumberTiles();
      MineSetBySymbolClass(placed, tiles);
      forall j | IsNeighbor(ctx.rows, ctx.cols, safeIndex, j) ensures tiles[j].symbol != MINE {
        NeighborsSpec(ctx.rows, ctx.cols, safeIndex, j);
        assert j in safeZone;
      }
      NoMineAroundIsBlank(tiles, ctx.rows, ctx.cols, safeIndex);
    }

    /** The placement loop of generateGameOnFirstClick. The random draw is a
        choice among the eligible cells: draws that hit a mine or the safe
        zone change nothing, so only the successful draws are modelled. */
    method PlaceMines(safeZone: seq<int>, target: int)
      requires Shaped() && MineSet(tiles) == {}
      requires forall j :: j in safeZone ==> 0 <= j < |tiles|
      requires |safeZone| <= 9 && target <= |tiles| - 9
      modifies this
      ensures ctx == old(ctx) && |tiles| == |old(tiles)|
      ensures forall i :: 0 <= i < |tiles| ==>
        tiles[i].revealed == old(tiles)[i].revealed && tiles[i].flagged == old(tiles)[i].flagged
      ensures |MineSet(tiles)| == if target < 0 then 0 else target
      ensures forall j :: j in safeZone ==> tiles[j].symbol != MINE
      ensures forall i :: 0 <= i < |tiles| ==> tiles[i].symbol == old(tiles)[i].symbol || tiles[i].symbol == MINE
    {
      forall j | 0 <= j < |tiles| ensures tiles[j].symbol != MINE {
        assert j !in MineSet(tiles);
      }
      var minesPlaced := 0;
      while minesPlaced < target
        invariant ctx == old(ctx) && |tiles| == |old(tiles)|
        invariant 0 <= minesPlaced == |MineSet(tiles)|
        invariant target < 0 ==> minesPlaced == 0
        invariant target >= 0 ==> minesPlaced <= target
        invariant forall i :: 0 <= i < |tiles| ==>
          tiles[i].revealed == old(tiles)[i].revealed && tiles[i].flagged == old(tiles)[i].flagged
        invariant forall j :: j in safeZone ==> tiles[j].symbol != MINE
        invariant forall i :: 0 <= i < |tiles| ==> tiles[i].symbol == old(tiles)[i].symbol || tiles[i].symbol == MINE
        decreases target - minesPlaced
      {
        EligibleExists(tiles, safeZone);
        var idx :| 0 <= idx < |tiles| && tiles[idx].symbol != MINE && idx !in safeZone;
        assert MineSet(tiles[idx := tiles[idx].(symbol := MINE)]) == MineSet(tiles) + {idx};
        tiles := tiles[idx := tiles[idx].(symbol := MINE)];
        minesPlaced := minesPlaced + 1;
      }
    }

    /** The numbering pass of generateGameOnFirstClick: every non-mine tile,
        row by row, gets the digit of its adjacent-mine count. */
    method NumberTiles()
      requires Shaped()
      modifies this
      ensures ctx == old(ctx) && Shaped() && |tiles| == |old(tiles)|
      ensures SameLayout(old(tiles), tiles)
      ensures Classified(tiles, ctx.rows, ctx.cols)
    {
      ghost var layout := tiles;
      var r := 0;
      while r < ctx.rows
        invariant 0 <= r <= ctx.rows
        invariant ctx == old(ctx) && |tiles| == |layout|
        invariant SameLayout(layout, tiles)
        invariant NumberedBelow(tiles, layout, ctx.rows, ctx.cols, r * ctx.cols)
      {
        NumberRow(r, layout);
        r := r + 1;
      }
      assert r * ctx.cols == |tiles|;
      NumberedIsClassified(tiles, layout, ctx.rows, ctx.cols);
    }

    /** Row r of the numbering pass. */
    method NumberRow(r: int, ghost layout: seq<Tile>)
      requires Shaped() && |layout| == |tiles| && 0 <= r < ctx.rows
      requires SameLayout(layout, tiles)
      requires NumberedBelow(tiles, layout, ctx.rows, ctx.cols, r * ctx.cols)
      modifies this
      ensures ctx == old(ctx) && |tiles| == |layout|
      ensures SameLayout(layout, tiles)
      ensures NumberedBelow(tiles, layout, ctx.rows, ctx.cols, (r + 1) * ctx.cols)
    {
      var rows, cols := ctx.rows, ctx.cols;
      ghost var base := r * cols;
      var c := 0;
      while c < cols
        invariant 0 <= c <= cols
        invariant ctx == old(ctx) && |tiles| == |layout|
        invariant SameLayout(layout, tiles)
        invariant NumberedBelow(tiles, layout, rows, cols, base + c)
      {
        var idx := RcToIndex(r, c, cols);
        IndexInRange(rows, cols, r, c);
        assert idx == base + c;
        if tiles[idx].symbol == MINE {
          NumberSkip(tiles, layout, rows, cols, idx);
        } else {
          var mines := CountNeighborMines(tiles, rows, cols, r, c);
          assert mines == CountNeighborMines(tiles, rows, cols, idx / cols, idx % cols);
          NumberOne(tiles, layout, rows, cols, idx);
          tiles := tiles[idx := tiles[idx].(symbol := DigitSymbol(mines))];
        }
        c := c + 1;
      }
      assert base + cols == (r + 1) * cols;
    }

    /** revealTileAt: ignore flagged and revealed tiles; generate the board if
        it holds no mine yet; lose on a mine; otherwise flood fill and report
        a win exactly when every non-mine tile is revealed. */
    method RevealTileAt(index: int) returns (res: RevealResult)
      requires Shaped() && Classified(tiles, ctx.rows, ctx.cols)
      requires 0 <= index < |tiles|
      modifies this
      ensures ctx == old(ctx) && Shaped() && Classified(tiles, ctx.rows, ctx.cols)
      ensures old(tiles[index].flagged || tiles[index].revealed) ==> res == Continue && tiles == old(tiles)
      ensures forall i :: 0 <= i < |tiles| ==> tiles[i].flagged == old(tiles)[i].flagged
      ensures forall i :: 0 <= i < |tiles| && old(tiles)[i].revealed ==> tiles[i].revealed
      ensures forall i :: 0 <= i < |tiles| && NewlyRevealed(old(tiles), tiles, i) ==> !tiles[i].flagged
      ensures MineSet(old(tiles)) != {} ==>
        forall i :: 0 <= i < |tiles| ==> tiles[i].symbol == old(tiles)[i].symbol
      ensures old(!tiles[index].flagged && !tiles[index].revealed) && MineSet(old(tiles)) == {} ==>
        && |MineSet(tiles)| == MinesToPlace(FallbackMineCount(|tiles|), |tiles|)
        && (forall j :: j in SafeZone(ctx.rows, ctx.cols, index) ==> tiles[j].symbol != MINE)
        && res != GameOver
      ensures res == GameOver <==> old(!tiles[index].flagged && !tiles[index].revealed) && tiles[index].symbol == MINE
      ensures res == GameOver ==> tiles == old(tiles)[index := old(tiles)[index].(revealed := true)]
      ensures res != GameOver ==>
        forall i :: 0 <= i < |tiles| && NewlyRevealed(old(tiles), tiles, i) ==> tiles[i].symbol != MINE
      ensures res != GameOver ==>
        forall i, j ::
          (0 <= i < |tiles| && NewlyRevealed(old(tiles), tiles, i) && tiles[i].symbol == ' ' &&
           IsNeighbor(ctx.rows, ctx.cols, i, j)) ==> (tiles[j].revealed || tiles[j].flagged)
      ensures old(!tiles[index].flagged && !tiles[index].revealed) && res != GameOver ==>
        tiles[index].revealed && (res == Win <==> AllSafeRevealed(tiles))
      ensures old(!tiles[index].flagged && !tiles[index].revealed) && res != GameOver ==>
        exists order :: OpenedFrom(old(tiles), tiles, index, ctx.rows, ctx.cols, order)
      ensures (old(!tiles[index].flagged && !tiles[index].revealed) && MineSet(old(tiles)) != {} &&
               old(tiles[index].symbol) != ' ' && old(tiles[index].symbol) != MINE) ==>
        tiles == old(tiles)[index := old(tiles)[index].(revealed := true)]
    {
      if tiles[index].flagged || tiles[index].revealed {
        return Continue;
      }

      var hasMine := HasMine();
      var boardIsBlank := !hasMine;

      if boardIsBlank {
        var totalCells := ctx.rows * ctx.cols;
        var mineCount := FallbackMineCount(totalCells);
        GenerateGameOnFirstClick(index, mineCount);
      }

      ghost var placed := tiles;
      if tiles[index].symbol == MINE {
        tiles := tiles[index := tiles[index].(revealed := true)];
        ClassifiedBySymbols(placed, tiles, ctx.rows, ctx.cols);
        return GameOver;
      }

      ghost var beforeFill := tiles;
      tiles := FloodFill(tiles, ctx.rows, ctx.cols, index);
      ClassifiedBySymbols(beforeFill, tiles, ctx.rows, ctx.cols);
      MineSetBySymbolClass(beforeFill, tiles);
      ghost var order :| OpenedFrom(beforeFill, tiles, index, ctx.rows, ctx.cols, order);
      OpenedFromSameMarks(beforeFill, old(tiles), tiles, index, ctx.rows, ctx.cols, order);

      var won := AllSafeShown();
      res := if won then Win else Continue;
    }

    /** The scan of revealTileAt for a mine anywhere on the board. */
    method HasMine() returns (found: bool)
      ensures found <==> MineSet(tiles) != {}
    {
      var i := 0;
      while i < |tiles|
        invariant 0 <= i <= |tiles|
        invariant forall j :: 0 <= j < i ==> tiles[j].symbol != MINE
      {
        if tiles[i].symbol == MINE {
          assert i in MineSet(tiles);
          return true;
        }
        i := i + 1;
      }
      return false;
    }

    /** The win scan of revealTileAt: no non-mine tile is still hidden. */
    method AllSafeShown() returns (won: bool)
      ensures won <==> AllSafeRevealed(tiles)
    {
      var i := 0;
      while i < |tiles|
        invariant 0 <= i <= |tiles|
        invariant forall j :: 0 <= j < i && tiles[j].symbol != MINE ==> tiles[j].revealed
      {
        if tiles[i].symbol != MINE && !tiles[i].revealed {
          return false;
        }
        i := i + 1;
      }
      return true;
    }

    /** processGameOver: reveal the clicked tile, every unflagged mine and
        every hidden unflagged numbered tile; wrong flags and hidden ' ' tiles
        stay hidden. */
    method ProcessGameOver(clickedIndex: int)
      modifies this
      ensures ctx == old(ctx)
      ensures tiles == Sweep(old(tiles), clickedIndex)
    {
      var i := 0;
      while i < |tiles|
        invariant 0 <= i <= |tiles| == |old(tiles)|
        invariant ctx == old(ctx)
        invariant forall j :: 0 <= j < i ==> tiles[j] == Sweep(old(tiles), clickedIndex)[j]
        invariant forall j :: i <= j < |tiles| ==> tiles[j] == old(tiles)[j]
      {
        var t := tiles[i];
        if i == clickedIndex {
          tiles := tiles[i := t.(revealed := true)];
        } else if t.flagged && t.symbol != MINE {
          // a wrong flag: only its picture changes
        } else if t.symbol == MINE && !t.flagged {
          tiles := tiles[i := t.(revealed := true)];
        } else if t.symbol != MINE && !t.revealed && !t.flagged {
          var val := 0;
          if '1' <= t.symbol <= '8' {
            val := t.symbol as int - '0' as int;
          }
          if val > 0 {
            tiles := tiles[i := t.(revealed := true)];
          }
        }
        i := i + 1;
      }
      assert tiles == Sweep(old(tiles), clickedIndex);
    }

    /** Right click on tile idx (handleInput): while playing, a hidden tile's
        flag flips; anything else is ignored. */
    method ToggleFlag(idx: int)
      requires Valid() && 0 <= idx < |tiles|
      modifies this
      ensures Valid() && ctx == old(ctx)
      ensures if old(ctx.state) == Playing && !old(tiles[idx].revealed)
        then tiles == old(tiles)[idx := old(tiles)[idx].(flagged := !old(tiles)[idx].flagged)]
        else tiles == old(tiles)
    {
      if ctx.state == Playing && !tiles[idx].revealed {
        tiles := tiles[idx := tiles[idx].(flagged := !tiles[idx].flagged)];
        ClassifiedBySymbols(old(tiles), tiles, ctx.rows, ctx.cols);
        assert MineSet(tiles) == MineSet(old(tiles));
      }
    }

    /** Left click on tile idx at host time `now` (handleInput): while playing,
        a hidden unflagged tile is revealed; the first accepted reveal starts
        the clock; GameOver leads to Lost and the loss sweep, Win to Won. */
    method Click(idx: int, now: real)
      requires Valid() && 0 <= idx < |tiles|
      modifies this
      ensures Valid()
      ensures ctx.rows == old(ctx.rows) && ctx.cols == old(ctx.cols)
      ensures ctx.totalMines == old(ctx.totalMines) && ctx.difficulty == old(ctx.difficulty)
      ensures !old(Accepts(idx)) ==> ctx == old(ctx) && tiles == old(tiles)
      ensures old(Accepts(idx)) ==>
        && ctx.gameStarted && tiles[idx].revealed
        && ctx.startTime == (if old(ctx.gameStarted) then old(ctx.startTime) else now)
        && (ctx.state == Lost <==> tiles[idx].symbol == MINE)
        && (ctx.state == Won <==> tiles[idx].symbol != MINE && AllSafeRevealed(tiles))
        && (!old(ctx.gameStarted) ==> ctx.state != Lost)
        && (ctx.state != Playing ==> ctx.finalTime == now - ctx.startTime)
        && (ctx.state == Playing ==> ctx.finalTime == old(ctx.finalTime))
      ensures forall i :: 0 <= i < |tiles| ==> tiles[i].flagged == old(tiles)[i].flagged
      ensures forall i :: 0 <= i < |tiles| && old(tiles)[i].revealed ==> tiles[i].revealed
      ensures old(ctx.gameStarted) ==>
        forall i :: 0 <= i < |tiles| ==> tiles[i].symbol == old(tiles)[i].symbol
      ensures old(Accepts(idx)) && !old(ctx.gameStarted) ==>
        && |MineSet(tiles)| == MinesToPlace(FallbackMineCount(|tiles|), |tiles|)
        && (forall j :: j in SafeZone(ctx.rows, ctx.cols, idx) ==> tiles[j].symbol != MINE)
      ensures old(Accepts(idx)) && ctx.state == Lost ==>
        tiles == Sweep(old(tiles)[idx := old(tiles)[idx].(revealed := true)], idx)
      ensures old(ctx.state) == Playing && ctx.state == Lost ==>
        forall i :: 0 <= i < |tiles| && tiles[i].symbol == MINE && !tiles[i].flagged ==> tiles[i].revealed
      ensures old(Accepts(idx)) && ctx.state != Lost ==>
        && (forall i :: 0 <= i < |tiles| && NewlyRevealed(old(tiles), tiles, i) ==> tiles[i].symbol != MINE)
        && (forall i, j ::
              (0 <= i < |tiles| && NewlyRevealed(old(tiles), tiles, i) && tiles[i].symbol == ' ' &&
               IsNeighbor(ctx.rows, ctx.cols, i, j)) ==> (tiles[j].revealed || tiles[j].flagged))
        && (exists order :: OpenedFrom(old(tiles), tiles, idx, ctx.rows, ctx.cols, order))
    {
      if ctx.state == Playing && !tiles[idx].flagged && !tiles[idx].revealed {
        if !ctx.gameStarted {
          ctx := ctx.(gameStarted := true, startTime := now);
        }
        ghost var t0 := tiles;
        var res := RevealTileAt(idx);
        if res == GameOver {
          ctx := ctx.(state := Lost, finalTime := now - ctx.startTime);
          ghost var beforeSweep := tiles;
          ProcessGameOver(idx);
          ClassifiedBySymbols(beforeSweep, tiles, ctx.rows, ctx.cols);
          forall i | 0 <= i < |tiles| {
            SweepEffects(beforeSweep, idx, i);
          }
        } else {
          if MineSet(t0) == {} {
            MulLe(9, ctx.rows, ctx.cols);
            FallbackPlacesMine(|tiles|);
          } else {
            assert forall i :: 0 <= i < |tiles| && tiles[i].revealed && !NewlyRevealed(t0, tiles, i) ==>
              t0[i].revealed && tiles[i].symbol == t0[i].symbol;
          }
          if res == Win {
            ctx := ctx.(state := Won, finalTime := now - ctx.startTime);
          }
        }
      }
    }
  }
}
