/**
 * The logical board of src/grid.rs: the cell layout built by setup_grid, the
 * unclipped Moore neighbourhood, mine placement, neighbour-mine counting and
 * the count-to-colour table.
 *
 * The ECS world holding one entity per cell is modelled as a sequence (the
 * cells in spawn order) or, for the systems that rewrite components in place,
 * as an array of the same records in query order.
 */
module Grid {

  /** Default grid size of GridParams. */
  const RowCount: nat := 20
  const CellCountPerRow: nat := 20

  /** Number of cells drop_mines turns into mines. */
  const MineCount: nat := 40

  /** The integer part of GridParams (the float cell sizes only place sprites). */
  datatype GridParams = GridParams(rowCount: nat, cellCountPerRow: nat)

  function DefaultGridParams(): (params: GridParams)
    ensures params.rowCount == 20 && params.cellCountPerRow == 20
  {
    GridParams(RowCount, CellCountPerRow)
  }

  datatype Position = Position(x: int, y: int)

  datatype CellState = Covered | Uncovered | Flagged

  datatype CellKind = Empty | Mine | MineNeighbor(minesCount: nat)

  /** One cell entity: its Position, CellKind and CellState components. */
  datatype Cell = Cell(pos: Position, kind: CellKind, state: CellState)

  /** The named Bevy colours the core's logic assigns to cell sprites. */
  datatype Color = DarkGreen | SeaGreen | YellowGreen | Yellow | Orange | Red | AntiqueWhite

  // ---------------------------------------------------------------------------
  // Sequence helpers

  predicate NoDuplicates<T(==)>(s: seq<T>) {
    forall i, j | 0 <= i < j < |s| :: s[i] != s[j]
  }

  function Elems<T>(s: seq<T>): set<T> {
    set x | x in s
  }

  function Min(a: nat, b: nat): nat {
    if a <= b then a else b
  }

  lemma {:induction false} DistinctElemsCard<T>(s: seq<T>)
    requires NoDuplicates(s)
    ensures |Elems(s)| == |s|
  {
    if s != [] {
      var init := s[..|s| - 1];
      assert NoDuplicates(init);
      DistinctElemsCard(init);
      assert s == init + [s[|s| - 1]];
      assert s[|s| - 1] !in init;
      assert Elems(s) == Elems(init) + {s[|s| - 1]};
    }
  }

  /**
   * The positions of grid.rs's cells. main.rs keeps its own cell record
   * (App.CellEntity, with tag components instead of a CellKind), so App has
   * its own copy of this projection over that type.
   */
  function Positions(cells: seq<Cell>): (ps: seq<Position>)
    ensures |ps| == |cells|
    ensures forall i | 0 <= i < |cells| :: ps[i] == cells[i].pos
  {
    seq(|cells|, i requires 0 <= i < |cells| => cells[i].pos)
  }

  predicate InGrid(params: GridParams, p: Position) {
    0 <= p.x < params.cellCountPerRow && 0 <= p.y < params.rowCount
  }

  // ---------------------------------------------------------------------------
  // Moore neighbourhood (calc_pos_neighbors)

  /** q is one of the eight positions around p; nothing is clipped to a grid. */
  predicate IsMooreNeighbor(p: Position, q: Position) {
    q != p && -1 <= q.x - p.x <= 1 && -1 <= q.y - p.y <= 1
  }

  /**
   * The eight surrounding positions, counter-clockwise from the lower-left
   * neighbour (y grows upward), whether or not they lie on the grid.
   */
  function CalcPosNeighbors(pos: Position): (r: seq<Position>)
    ensures |r| == 8 && NoDuplicates(r)
    ensures forall q :: q in r <==> IsMooreNeighbor(pos, q)
  {
    [ Position(pos.x - 1, pos.y - 1),
      Position(pos.x, pos.y - 1),
      Position(pos.x + 1, pos.y - 1),
      Position(pos.x + 1, pos.y),
      Position(pos.x + 1, pos.y + 1),
      Position(pos.x, pos.y + 1),
      Position(pos.x - 1, pos.y + 1),
      Position(pos.x - 1, pos.y) ]
  }

  lemma NeighborhoodSymmetric(p: Position, q: Position)
    ensures q in CalcPosNeighbors(p) <==> p in CalcPosNeighbors(q)
  {
  }

  /**
   * The list is not clipped: of the eight positions listed for the corner
   * (0, 0) of a grid of at least 2 x 2 cells, only three lie on the grid.
   */
  lemma CornerNeighborsLeaveGrid(params: GridParams)
    requires params.rowCount >= 2 && params.cellCountPerRow >= 2
    ensures forall q | q in CalcPosNeighbors(Position(0, 0)) ::
      InGrid(params, q) <==> q == Position(1, 0) || q == Position(1, 1) || q == Position(0, 1)
    ensures Position(-1, -1) in CalcPosNeighbors(Position(0, 0))
  {
  }

  // ---------------------------------------------------------------------------
  // Grid construction (setup_grid)

  function NewCell(col: nat, row: nat): Cell {
    Cell(Position(col, row), Empty, Covered)
  }

  /** The cells of row `row`, columns 0 .. cols - 1, in spawn order. */
  function RowCells(row: nat, cols: nat): seq<Cell> {
    if cols == 0 then [] else RowCells(row, cols - 1) + [NewCell(cols - 1, row)]
  }

  /** The cells of rows 0 .. rows - 1, each row spawned column by column. */
  function Layout(rows: nat, cols: nat): seq<Cell> {
    if rows == 0 then [] else Layout(rows - 1, cols) + RowCells(rows - 1, cols)
  }

  lemma {:induction false} RowCellsProperties(row: nat, cols: nat)
    ensures |RowCells(row, cols)| == cols
    ensures forall i | 0 <= i < cols :: RowCells(row, cols)[i] == NewCell(i, row)
  {
    if cols > 0 {
      RowCellsProperties(row, cols - 1);
    }
  }

  lemma {:induction false} LayoutSize(rows: nat, cols: nat)
    ensures |Layout(rows, cols)| == rows * cols
  {
    if rows > 0 {
      LayoutSize(rows - 1, cols);
      RowCellsProperties(rows - 1, cols);
      assert (rows - 1) * cols + cols == rows * cols;
    }
  }

  lemma {:induction false} LayoutCells(rows: nat, cols: nat)
    ensures forall i | 0 <= i < |Layout(rows, cols)| ::
      && Layout(rows, cols)[i].kind == Empty
      && Layout(rows, cols)[i].state == Covered
      && InGrid(GridParams(rows, cols), Layout(rows, cols)[i].pos)
  {
    if rows > 0 {
      LayoutCells(rows - 1, cols);
      RowCellsProperties(rows - 1, cols);
      var prev := Layout(rows - 1, cols);
      forall i | 0 <= i < |Layout(rows, cols)|
        ensures Layout(rows, cols)[i].kind == Empty && Layout(rows, cols)[i].state == Covered
        ensures InGrid(GridParams(rows, cols), Layout(rows, cols)[i].pos)
      {
        if i < |prev| {
          assert Layout(rows, cols)[i] == prev[i];
        } else {
          assert Layout(rows, cols)[i] == NewCell(i - |prev|, rows - 1);
        }
      }
    }
  }

  /** Every in-grid position is spawned. */
  lemma {:induction false} LayoutCovers(rows: nat, cols: nat, p: Position)
    requires InGrid(GridParams(rows, cols), p)
    ensures p in Positions(Layout(rows, cols))
  {
    var prev := Layout(rows - 1, cols);
    RowCellsProperties(rows - 1, cols);
    if p.y < rows - 1 {
      LayoutCovers(rows - 1, cols, p);
      var i :| 0 <= i < |prev| && Positions(prev)[i] == p;
      assert Layout(rows, cols)[i] == prev[i];
      assert Positions(Layout(rows, cols))[i] == p;
    } else {
      assert Layout(rows, cols)[|prev| + p.x] == NewCell(p.x, rows - 1);
      assert Positions(Layout(rows, cols))[|prev| + p.x] == p;
    }
  }

  lemma {:induction false} LayoutDistinct(rows: nat, cols: nat)
    ensures NoDuplicates(Positions(Layout(rows, cols)))
  {
    if rows > 0 {
      LayoutDistinct(rows - 1, cols);
      LayoutCells(rows - 1, cols);
      RowCellsProperties(rows - 1, cols);
      var prev, last := Layout(rows - 1, cols), RowCells(rows - 1, cols);
      assert Positions(prev + last) == Positions(prev) + Positions(last);
      forall i, j | 0 <= i < j < |Positions(last)| ensures Positions(last)[i] != Positions(last)[j] {
      }
      forall i, j | 0 <= i < |prev| && 0 <= j < |last| ensures Positions(prev)[i] != Positions(last)[j] {
        assert InGrid(GridParams(rows - 1, cols), prev[i].pos);
      }
      DistinctConcat(Positions(prev), Positions(last));
    }
  }

  lemma LayoutProperties(rows: nat, cols: nat)
    ensures |Layout(rows, cols)| == rows * cols
    ensures forall c | c in Layout(rows, cols) :: c.kind == Empty && c.state == Covered
    ensures forall p :: p in Positions(Layout(rows, cols)) <==> InGrid(GridParams(rows, cols), p)
    ensures NoDuplicates(Positions(Layout(rows, cols)))
  {
    LayoutSize(rows, cols);
    LayoutCells(rows, cols);
    LayoutDistinct(rows, cols);
    forall p ensures p in Positions(Layout(rows, cols)) <==> InGrid(GridParams(rows, cols), p) {
      if InGrid(GridParams(rows, cols), p) {
        LayoutCovers(rows, cols, p);
      }
    }
  }

  lemma DistinctConcat<T>(a: seq<T>, b: seq<T>)
    requires NoDuplicates(a) && NoDuplicates(b)
    requires forall i, j | 0 <= i < |a| && 0 <= j < |b| :: a[i] != b[j]
    ensures NoDuplicates(a + b)
  {
    forall i, j | 0 <= i < j < |a + b| ensures (a + b)[i] != (a + b)[j] {
      if i < |a| && j >= |a| {
        assert (a + b)[i] == a[i] && (a + b)[j] == b[j - |a|];
      }
    }
  }

  /**
   * setup_grid: spawns one cell per (col, row), rows outermost, each at
   * Position {x: col, y: row}, Covered and Empty.
   */
  method SetupGrid(params: GridParams) returns (cells: seq<Cell>)
    ensures cells == Layout(params.rowCount, params.cellCountPerRow)
    ensures |cells| == params.rowCount * params.cellCountPerRow
    ensures forall c | c in cells :: c.kind == Empty && c.state == Covered
    ensures forall p :: p in Positions(cells) <==> InGrid(params, p)
    ensures NoDuplicates(Positions(cells))
  {
    cells := [];
    for row := 0 to params.rowCount
      invariant cells == Layout(row, params.cellCountPerRow)
    {
      for col := 0 to params.cellCountPerRow
        invariant cells == Layout(row, params.cellCountPerRow) + RowCells(row, col)
      {
        cells := cells + [NewCell(col, row)];
      }
    }
    LayoutProperties(params.rowCount, params.cellCountPerRow);
  }

  // ---------------------------------------------------------------------------
  // Mine placement (drop_mines)

  /**
   * What choose_multiple(rng, amount) hands back over n cells: min(amount, n)
   * distinct cell indices. Which ones is the random part and is not modelled.
   */
  predicate ValidChoice(chosen: seq<nat>, n: nat, amount: nat) {
    && |chosen| == Min(amount, n)
    && NoDuplicates(chosen)
    && forall k | 0 <= k < |chosen| :: chosen[k] < n
  }

  function MineIndices(cells: seq<Cell>): set<nat> {
    set i: nat | i < |cells| && cells[i].kind == Mine
  }

  /** The board after every chosen cell's kind is overwritten with Mine. */
  function WithMines(cells: seq<Cell>, chosen: seq<nat>): (r: seq<Cell>)
    ensures |r| == |cells|
  {
    seq(|cells|, i requires 0 <= i < |cells| =>
      if i in chosen then cells[i].(kind := Mine) else cells[i])
  }

  lemma WithMinesChangesOnlyChosen(cells: seq<Cell>, chosen: seq<nat>)
    requires forall k | 0 <= k < |chosen| :: chosen[k] < |cells|
    ensures MineIndices(WithMines(cells, chosen)) == MineIndices(cells) + Elems(chosen)
    ensures forall i | 0 <= i < |cells| ::
      && WithMines(cells, chosen)[i].pos == cells[i].pos
      && WithMines(cells, chosen)[i].state == cells[i].state
      && (i !in chosen ==> WithMines(cells, chosen)[i] == cells[i])
  {
  }

  /**
   * On a board without mines (as setup_grid leaves it) drop_mines produces
   * exactly min(40, #cells) mines.
   */
  lemma DropMinesCount(cells: seq<Cell>, chosen: seq<nat>)
    requires ValidChoice(chosen, |cells|, MineCount)
    requires MineIndices(cells) == {}
    ensures |MineIndices(WithMines(cells, chosen))| == Min(MineCount, |cells|)
  {
    WithMinesChangesOnlyChosen(cells, chosen);
    DistinctElemsCard(chosen);
  }

  method DropMines(cells: array<Cell>, chosen: seq<nat>)
    requires ValidChoice(chosen, cells.Length, MineCount)
    modifies cells
    ensures cells[..] == WithMines(old(cells[..]), chosen)
  {
    for k := 0 to |chosen|
      invariant forall i | 0 <= i < cells.Length ::
        cells[i] == if i in chosen[..k] then old(cells[i]).(kind := Mine) else old(cells[i])
    {
      assert chosen[..k + 1] == chosen[..k] + [chosen[k]];
      cells[chosen[k]] := cells[chosen[k]].(kind := Mine);
    }
    assert chosen[..|chosen|] == chosen;
  }

  // ---------------------------------------------------------------------------
  // Neighbour-mine counting (set_mines_neighbors_count)

  /** How often p occurs in s. */
  function Occurrences(p: Position, s: seq<Position>): nat {
    if s == [] then 0
    else Occurrences(p, s[..|s| - 1]) + (if s[|s| - 1] == p then 1 else 0)
  }

  /** The number of pairs (m, q) of ms x ns with m == q: what the nested loop counts. */
  function PairCount(ms: seq<Position>, ns: seq<Position>): nat {
    if ms == [] then 0
    else PairCount(ms[..|ms| - 1], ns) + Occurrences(ms[|ms| - 1], ns)
  }

  lemma {:induction false} OccurrencesOfDistinct(p: Position, s: seq<Position>)
    requires NoDuplicates(s)
    ensures Occurrences(p, s) == if p in s then 1 else 0
  {
    if s != [] {
      var init := s[..|s| - 1];
      assert NoDuplicates(init);
      OccurrencesOfDistinct(p, init);
      assert s == init + [s[|s| - 1]];
      assert s[|s| - 1] !in init;
    }
  }

  /** Over duplicate-free lists the pair count is the size of the intersection. */
  lemma {:induction false} PairCountIsIntersection(ms: seq<Position>, ns: seq<Position>)
    requires NoDuplicates(ms) && NoDuplicates(ns)
    ensures PairCount(ms, ns) == |Elems(ms) * Elems(ns)|
  {
    if ms != [] {
      var init, m := ms[..|ms| - 1], ms[|ms| - 1];
      assert NoDuplicates(init);
      PairCountIsIntersection(init, ns);
      OccurrencesOfDistinct(m, ns);
      assert ms == init + [m];
      assert m !in init;
      assert Elems(ms) == Elems(init) + {m};
      var before, after := Elems(init) * Elems(ns), Elems(ms) * Elems(ns);
      if m in ns {
        assert after == before + {m};
        assert m !in before;
      } else {
        assert after == before;
      }
    }
  }

  /**
   * The counting loop of set_mines_neighbors_count: for every mine position,
   * for every neighbour position, add one when they are equal.
   */
  method CountNeighborMines(minesPos: seq<Position>, neighborsPos: seq<Position>) returns (count: nat)
    ensures count == PairCount(minesPos, neighborsPos)
    ensures NoDuplicates(minesPos) && NoDuplicates(neighborsPos) ==>
              count == |Elems(minesPos) * Elems(neighborsPos)| && count <= |neighborsPos|
  {
    count := 0;
    for i := 0 to |minesPos|
      invariant count == PairCount(minesPos[..i], neighborsPos)
    {
      assert minesPos[..i + 1][..i] == minesPos[..i];
      for j := 0 to |neighborsPos|
        invariant count == PairCount(minesPos[..i], neighborsPos) + Occurrences(minesPos[i], neighborsPos[..j])
      {
        assert neighborsPos[..j + 1][..j] == neighborsPos[..j];
        if minesPos[i] == neighborsPos[j] {
          count := count + 1;
        }
      }
      assert neighborsPos[..|neighborsPos|] == neighborsPos;
    }
    assert minesPos[..|minesPos|] == minesPos;
    if NoDuplicates(minesPos) && NoDuplicates(neighborsPos) {
      PairCountIsIntersection(minesPos, neighborsPos);
      DistinctElemsCard(neighborsPos);
      SubsetCard(Elems(minesPos) * Elems(neighborsPos), Elems(neighborsPos));
    }
  }

  /** The positions of the Mine cells, in query order (the filter_map of the source). */
  function MinePositions(cells: seq<Cell>): seq<Position> {
    if cells == [] then []
    else (if cells[0].kind == Mine then [cells[0].pos] else []) + MinePositions(cells[1..])
  }

  /**
   * The mine list holds exactly the Mine cells' positions and has no
   * duplicates when the cells' positions have none. App proves the same of
   * main.rs's records, which mark a mine with a tag instead of a CellKind.
   */
  lemma {:induction false} MinePositionsProperties(cells: seq<Cell>)
    ensures forall p :: p in MinePositions(cells) <==>
      exists i | 0 <= i < |cells| :: cells[i].kind == Mine && cells[i].pos == p
    ensures NoDuplicates(Positions(cells)) ==> NoDuplicates(MinePositions(cells))
  {
    if cells != [] {
      var rest := cells[1..];
      MinePositionsProperties(rest);
      forall p ensures p in MinePositions(cells) <==>
        exists i | 0 <= i < |cells| :: cells[i].kind == Mine && cells[i].pos == p
      {
        if exists i | 0 <= i < |cells| :: cells[i].kind == Mine && cells[i].pos == p {
          var i :| 0 <= i < |cells| && cells[i].kind == Mine && cells[i].pos == p;
          if i > 0 {
            assert rest[i - 1] == cells[i];
          }
        }
      }
      if NoDuplicates(Positions(cells)) {
        assert Positions(rest) == Positions(cells)[1..];
        forall i | 0 <= i < |rest| ensures rest[i].pos != cells[0].pos {
          assert Positions(cells)[i + 1] == rest[i].pos;
        }
        var head := if cells[0].kind == Mine then [cells[0].pos] else [];
        forall i, j | 0 <= i < |head| && 0 <= j < |MinePositions(rest)| ensures head[i] != MinePositions(rest)[j] {
          assert MinePositions(rest)[j] in MinePositions(rest);
        }
        DistinctConcat(head, MinePositions(rest));
      }
    }
  }

  lemma SubsetCard<T>(a: set<T>, b: set<T>)
    requires a <= b
    ensures |a| <= |b|
  {
    assert b == a + (b - a);
  }

  /** The mine positions among the eight neighbours of p. */
  function MinesAround(minesPos: seq<Position>, p: Position): set<Position> {
    set m | m in minesPos && IsMooreNeighbor(p, m)
  }

  /**
   * With duplicate-free mine positions the loop count for p is the number of
   * mines adjacent to p, at most 8.
   */
  lemma NeighborMineCount(minesPos: seq<Position>, p: Position)
    requires NoDuplicates(minesPos)
    ensures PairCount(minesPos, CalcPosNeighbors(p)) == |MinesAround(minesPos, p)| <= 8
  {
    var ns := CalcPosNeighbors(p);
    PairCountIsIntersection(minesPos, ns);
    DistinctElemsCard(ns);
    assert Elems(minesPos) * Elems(ns) == MinesAround(minesPos, p);
    assert MinesAround(minesPos, p) <= Elems(ns);
    SubsetCard(MinesAround(minesPos, p), Elems(ns));
  }

  /**
   * If every mine lies on the grid, only on-grid neighbours contribute to the
   * count: the off-grid positions calc_pos_neighbors lists never match a mine.
   */
  lemma NeighborMineCountOnGrid(minesPos: seq<Position>, p: Position, params: GridParams)
    requires NoDuplicates(minesPos)
    requires forall m | m in minesPos :: InGrid(params, m)
    ensures PairCount(minesPos, CalcPosNeighbors(p))
              == |set m | m in minesPos && IsMooreNeighbor(p, m) && InGrid(params, m)|
  {
    NeighborMineCount(minesPos, p);
    assert MinesAround(minesPos, p)
        == set m | m in minesPos && IsMooreNeighbor(p, m) && InGrid(params, m);
  }

  /** The kind set_mines_neighbors_count gives a cell, given the board's mine positions. */
  function CountedKind(cell: Cell, minesPos: seq<Position>): CellKind {
    if cell.kind != Empty then cell.kind
    else
      var n := PairCount(minesPos, CalcPosNeighbors(cell.pos));
      if n > 0 then MineNeighbor(n) else Empty
  }

  /** The board after set_mines_neighbors_count. */
  function WithNeighborCounts(cells: seq<Cell>): (r: seq<Cell>)
    ensures |r| == |cells|
  {
    var minesPos := MinePositions(cells);
    seq(|cells|, i requires 0 <= i < |cells| => cells[i].(kind := CountedKind(cells[i], minesPos)))
  }

  method SetMinesNeighborsCount(cells: array<Cell>)
    modifies cells
    ensures cells[..] == WithNeighborCounts(old(cells[..]))
  {
    var minesPos := MinePositions(cells[..]);
    for i := 0 to cells.Length
      invariant forall k | 0 <= k < cells.Length ::
        cells[k] == if k < i then WithNeighborCounts(old(cells[..]))[k] else old(cells[k])
    {
      if cells[i].kind != Empty {
        continue;
      }
      var neighborsPos := CalcPosNeighbors(cells[i].pos);
      var neighborMinesCount := CountNeighborMines(minesPos, neighborsPos);
      if neighborMinesCount > 0 {
        cells[i] := cells[i].(kind := MineNeighbor(neighborMinesCount));
      }
    }
  }

  /** Counting never creates or removes a mine, so the mine positions are kept. */
  lemma {:induction false} WithNeighborCountsKeepsMines(cells: seq<Cell>)
    ensures MineIndices(WithNeighborCounts(cells)) == MineIndices(cells)
    ensures MinePositions(WithNeighborCounts(cells)) == MinePositions(cells)
  {
    var r := WithNeighborCounts(cells);
    forall i | 0 <= i < |cells| ensures (r[i].kind == Mine <==> cells[i].kind == Mine) && r[i].pos == cells[i].pos {
    }
    MinePositionsOfSameMines(cells, r);
  }

  lemma {:induction false} MinePositionsOfSameMines(a: seq<Cell>, b: seq<Cell>)
    requires |a| == |b|
    requires forall i | 0 <= i < |a| :: (a[i].kind == Mine <==> b[i].kind == Mine) && a[i].pos == b[i].pos
    ensures MinePositions(a) == MinePositions(b)
  {
    if a != [] {
      MinePositionsOfSameMines(a[1..], b[1..]);
    }
  }

  /**
   * Mine cells and already numbered cells are left alone; an Empty cell
   * becomes MineNeighbor{n} exactly when n, its loop count, is positive.
   */
  lemma WithNeighborCountsKinds(cells: seq<Cell>, i: nat)
    requires i < |cells|
    ensures WithNeighborCounts(cells)[i].pos == cells[i].pos
    ensures WithNeighborCounts(cells)[i].state == cells[i].state
    ensures cells[i].kind != Empty ==> WithNeighborCounts(cells)[i] == cells[i]
    ensures cells[i].kind == Empty ==>
      var n := PairCount(MinePositions(cells), CalcPosNeighbors(cells[i].pos));
      && (WithNeighborCounts(cells)[i].kind.MineNeighbor? <==> n > 0)
      && (WithNeighborCounts(cells)[i].kind == Empty <==> n == 0)
      && (n > 0 ==> WithNeighborCounts(cells)[i].kind.minesCount == n)
  {
  }

  /** Running set_mines_neighbors_count a second time changes nothing. */
  lemma WithNeighborCountsIdempotent(cells: seq<Cell>)
    ensures WithNeighborCounts(WithNeighborCounts(cells)) == WithNeighborCounts(cells)
  {
    var once := WithNeighborCounts(cells);
    WithNeighborCountsKeepsMines(cells);
    assert MinePositions(once) == MinePositions(cells);
  }

  /**
   * On a board with distinct positions, every cell counted by
   * set_mines_neighbors_count is numbered with the true number of adjacent
   * mines, which lies in 1..8 (so the u8 counter cannot overflow), and a cell
   * left Empty has no adjacent mine.
   */
  lemma {:induction false} WithNeighborCountsCorrect(cells: seq<Cell>, i: nat)
    requires NoDuplicates(Positions(cells))
    requires i < |cells| && cells[i].kind == Empty
    ensures var k := WithNeighborCounts(cells)[i].kind;
      var around := MinesAround(MinePositions(cells), cells[i].pos);
      && (k == Empty <==> around == {})
      && (k.MineNeighbor? ==> k.minesCount == |around| && 1 <= k.minesCount <= 8)
      && (k == Empty || k.MineNeighbor?)
  {
    MinePositionsProperties(cells);
    NeighborMineCount(MinePositions(cells), cells[i].pos);
  }

  // ---------------------------------------------------------------------------
  // The whole start-up: setup_grid, drop_mines, set_mines_neighbors_count

  /**
   * The board the three start-up systems build: min(40, #cells) mines, all
   * cells Covered, and every non-mine cell numbered with its true count of
   * adjacent mines (in 1..8) or Empty when it has none.
   */
  lemma {:induction false} GeneratedBoard(params: GridParams, chosen: seq<nat>)
    requires ValidChoice(chosen, params.rowCount * params.cellCountPerRow, MineCount)
    ensures var board := WithNeighborCounts(WithMines(Layout(params.rowCount, params.cellCountPerRow), chosen));
      && |board| == params.rowCount * params.cellCountPerRow
      && |MineIndices(board)| == Min(MineCount, params.rowCount * params.cellCountPerRow)
      && (forall i | 0 <= i < |board| :: board[i].state == Covered)
      && (forall i | 0 <= i < |board| && board[i].kind != Mine ::
            var around := MinesAround(MinePositions(board), board[i].pos);
            && (board[i].kind == Empty <==> around == {})
            && (board[i].kind.MineNeighbor? ==> board[i].kind.minesCount == |around| && 1 <= board[i].kind.minesCount <= 8))
  {
    var layout := Layout(params.rowCount, params.cellCountPerRow);
    LayoutProperties(params.rowCount, params.cellCountPerRow);
    assert MineIndices(layout) == {} by {
      forall i | 0 <= i < |layout| ensures layout[i].kind == Empty {
        assert layout[i] in layout;
      }
    }
    var mined := WithMines(layout, chosen);
    DropMinesCount(layout, chosen);
    WithMinesChangesOnlyChosen(layout, chosen);
    assert Positions(mined) == Positions(layout);
    var board := WithNeighborCounts(mined);
    WithNeighborCountsKeepsMines(mined);
    forall i | 0 <= i < |board| ensures board[i].state == Covered {
      assert layout[i] in layout;
    }
    forall i | 0 <= i < |board| && board[i].kind != Mine
      ensures var around := MinesAround(MinePositions(board), board[i].pos);
        && (board[i].kind == Empty <==> around == {})
        && (board[i].kind.MineNeighbor? ==> board[i].kind.minesCount == |around| && 1 <= board[i].kind.minesCount <= 8)
    {
      assert layout[i] in layout;
      assert mined[i].kind == Empty;
      WithNeighborCountsCorrect(mined, i);
    }
  }

  // ---------------------------------------------------------------------------
  // Label colour (get_color_from_neighbor_mines_count)

  /** The colour of a cell's count label: one colour per count 1..5, red otherwise. */
  function GetColorFromNeighborMinesCount(count: nat): (color: Color)
    ensures color == DarkGreen <==> count == 1
    ensures color == SeaGreen <==> count == 2
    ensures color == YellowGreen <==> count == 3
    ensures color == Yellow <==> count == 4
    ensures color == Orange <==> count == 5
    ensures color == Red <==> !(1 <= count <= 5)
  {
    match count
    case 1 => DarkGreen
    case 2 => SeaGreen
    case 3 => YellowGreen
    case 4 => Yellow
    case 5 => Orange
    case _ => Red
  }
}
