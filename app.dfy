/**
 * The board logic of src/main.rs: the older variant that marks cells with
 * separate Mine and MineNeighbor tag components instead of a CellKind, the
 * non-recursive parts of flood_fill, and the loop of display_clicked_cell
 * that recolours uncovered empty cells.
 */
module App {
  import Grid

  /** Number of cells this drop_mines marks with Mine. */
  const MineCount: nat := 30

  /** The largest coordinate flood_fill accepts on either axis. */
  const MaxCoord: int := 19

  datatype Option<T> = None | Some(value: T)

  /**
   * One cell entity: its Position, whether it carries the Mine tag, its
   * MineNeighbor component if any, and the colour of its sprite.
   */
  datatype CellEntity = CellEntity(pos: Grid.Position, mine: bool, mineNeighbor: Option<nat>, color: Grid.Color)

  /** The cells the `empty_cells` query yields: no Mine, no MineNeighbor. */
  predicate IsEmptyCell(c: CellEntity) {
    !c.mine && c.mineNeighbor.None?
  }

  /** The cells the `mine_neighbors_cells` query yields: no Mine, a MineNeighbor. */
  predicate IsNeighborCell(c: CellEntity) {
    !c.mine && c.mineNeighbor.Some?
  }

  /**
   * Grid.Positions over main.rs's cell record; the two records differ, so the
   * projection is stated once per record type.
   */
  function EntityPositions(cells: seq<CellEntity>): (ps: seq<Grid.Position>)
    ensures |ps| == |cells|
    ensures forall i | 0 <= i < |cells| :: ps[i] == cells[i].pos
  {
    seq(|cells|, i requires 0 <= i < |cells| => cells[i].pos)
  }

  // ---------------------------------------------------------------------------
  // Moore neighbourhood (the copy of calc_pos_neighbors taking a reference)

  function CalcPosNeighbors(pos: Grid.Position): (r: seq<Grid.Position>)
    ensures r == Grid.CalcPosNeighbors(pos)
  {
    [ Grid.Position(pos.x - 1, pos.y - 1),
      Grid.Position(pos.x, pos.y - 1),
      Grid.Position(pos.x + 1, pos.y - 1),
      Grid.Position(pos.x + 1, pos.y),
      Grid.Position(pos.x + 1, pos.y + 1),
      Grid.Position(pos.x, pos.y + 1),
      Grid.Position(pos.x - 1, pos.y + 1),
      Grid.Position(pos.x - 1, pos.y) ]
  }

  // ---------------------------------------------------------------------------
  // Mine placement (drop_mines: inserts the Mine tag)

  function MineTagged(cells: seq<CellEntity>): set<nat> {
    set i: nat | i < |cells| && cells[i].mine
  }

  function WithMineTags(cells: seq<CellEntity>, chosen: seq<nat>): (r: seq<CellEntity>)
    ensures |r| == |cells|
  {
    seq(|cells|, i requires 0 <= i < |cells| =>
      if i in chosen then cells[i].(mine := true) else cells[i])
  }

  /**
   * drop_mines tags exactly min(30, #cells) cells on an untagged board and
   * changes nothing else: positions, MineNeighbor components and colours
   * stay, and unchosen cells are untouched.
   */
  lemma DropMinesTagsExactly(cells: seq<CellEntity>, chosen: seq<nat>)
    requires Grid.ValidChoice(chosen, |cells|, MineCount)
    ensures MineTagged(WithMineTags(cells, chosen)) == MineTagged(cells) + Grid.Elems(chosen)
    ensures MineTagged(cells) == {} ==> |MineTagged(WithMineTags(cells, chosen))| == Grid.Min(MineCount, |cells|)
    ensures forall i | 0 <= i < |cells| ::
      && WithMineTags(cells, chosen)[i].(mine := cells[i].mine) == cells[i]
      && (i !in chosen ==> WithMineTags(cells, chosen)[i] == cells[i])
  {
    Grid.DistinctElemsCard(chosen);
  }

  method DropMines(cells: array<CellEntity>, chosen: seq<nat>)
    requires Grid.ValidChoice(chosen, cells.Length, MineCount)
    modifies cells
    ensures cells[..] == WithMineTags(old(cells[..]), chosen)
  {
    for k := 0 to |chosen|
      invariant forall i | 0 <= i < cells.Length ::
        cells[i] == if i in chosen[..k] then old(cells[i]).(mine := true) else old(cells[i])
    {
      assert chosen[..k + 1] == chosen[..k] + [chosen[k]];
      cells[chosen[k]] := cells[chosen[k]].(mine := true);
    }
    assert chosen[..|chosen|] == chosen;
  }

  // ---------------------------------------------------------------------------
  // Neighbour-mine counting (set_mines_neighbors_count, tag variant)

  /** The positions of the Mine-tagged cells, in query order. */
  function MinePositions(cells: seq<CellEntity>): seq<Grid.Position> {
    if cells == [] then []
    else (if cells[0].mine then [cells[0].pos] else []) + MinePositions(cells[1..])
  }

  /**
   * The counterpart of Grid.MinePositionsProperties for main.rs's records,
   * where a mine is a Mine tag rather than a CellKind.
   */
  lemma {:induction false} MinePositionsProperties(cells: seq<CellEntity>)
    ensures forall p :: p in MinePositions(cells) <==>
      exists i | 0 <= i < |cells| :: cells[i].mine && cells[i].pos == p
    ensures Grid.NoDuplicates(EntityPositions(cells)) ==> Grid.NoDuplicates(MinePositions(cells))
  {
    if cells != [] {
      var rest := cells[1..];
      MinePositionsProperties(rest);
      forall p ensures p in MinePositions(cells) <==>
        exists i | 0 <= i < |cells| :: cells[i].mine && cells[i].pos == p
      {
        if exists i | 0 <= i < |cells| :: cells[i].mine && cells[i].pos == p {
          var i :| 0 <= i < |cells| && cells[i].mine && cells[i].pos == p;
          if i > 0 {
            assert rest[i - 1] == cells[i];
          }
        }
      }
      if Grid.NoDuplicates(EntityPositions(cells)) {
        assert EntityPositions(rest) == EntityPositions(cells)[1..];
        forall i | 0 <= i < |rest| ensures rest[i].pos != cells[0].pos {
          assert EntityPositions(cells)[i + 1] == rest[i].pos;
        }
        var head := if cells[0].mine then [cells[0].pos] else [];
        forall i, j | 0 <= i < |head| && 0 <= j < |MinePositions(rest)| ensures head[i] != MinePositions(rest)[j] {
          assert MinePositions(rest)[j] in MinePositions(rest);
        }
        Grid.DistinctConcat(head, MinePositions(rest));
      }
    }
  }

  /**
   * The component a cell ends up with: Mine cells are outside the query and
   * keep theirs; any other cell gets MineNeighbor{n} when its loop count n
   * is positive (replacing an earlier one) and is left alone otherwise.
   */
  function CountedTag(cell: CellEntity, minesPos: seq<Grid.Position>): Option<nat> {
    if cell.mine then cell.mineNeighbor
    else
      var n := Grid.PairCount(minesPos, CalcPosNeighbors(cell.pos));
      if n > 0 then Some(n) else cell.mineNeighbor
  }

  function WithMineNeighborTags(cells: seq<CellEntity>): (r: seq<CellEntity>)
    ensures |r| == |cells|
  {
    var minesPos := MinePositions(cells);
    seq(|cells|, i requires 0 <= i < |cells| => cells[i].(mineNeighbor := CountedTag(cells[i], minesPos)))
  }

  /**
   * The inserts are deferred commands, so the Mine positions the query reads
   * are those before the system runs; the model reads them once up front.
   */
  method SetMinesNeighborsCount(cells: array<CellEntity>)
    modifies cells
    ensures cells[..] == WithMineNeighborTags(old(cells[..]))
  {
    var minesPos := MinePositions(cells[..]);
    for i := 0 to cells.Length
      invariant forall k | 0 <= k < cells.Length ::
        cells[k] == if k < i then WithMineNeighborTags(old(cells[..]))[k] else old(cells[k])
    {
      if cells[i].mine {
        continue;
      }
      var neighborsPos := CalcPosNeighbors(cells[i].pos);
      var neighborMinesCount := Grid.CountNeighborMines(minesPos, neighborsPos);
      if neighborMinesCount > 0 {
        cells[i] := cells[i].(mineNeighbor := Some(neighborMinesCount));
      }
    }
  }

  lemma {:induction false} MinePositionsOfSameTags(a: seq<CellEntity>, b: seq<CellEntity>)
    requires |a| == |b|
    requires forall i | 0 <= i < |a| :: a[i].mine == b[i].mine && a[i].pos == b[i].pos
    ensures MinePositions(a) == MinePositions(b)
  {
    if a != [] {
      MinePositionsOfSameTags(a[1..], b[1..]);
    }
  }

  /**
   * Only the MineNeighbor component changes; Mine cells never get one, and
   * a non-mine cell gets MineNeighbor{n} whenever its count n is positive.
   */
  lemma WithMineNeighborTagsChanges(cells: seq<CellEntity>, i: nat)
    requires i < |cells|
    ensures WithMineNeighborTags(cells)[i].(mineNeighbor := cells[i].mineNeighbor) == cells[i]
    ensures cells[i].mine ==> WithMineNeighborTags(cells)[i] == cells[i]
    ensures !cells[i].mine ==>
      var n := Grid.PairCount(MinePositions(cells), Grid.CalcPosNeighbors(cells[i].pos));
      && (n > 0 ==> WithMineNeighborTags(cells)[i].mineNeighbor == Some(n))
      && (n == 0 ==> WithMineNeighborTags(cells)[i] == cells[i])
  {
  }

  /** Running the tag variant twice gives the same components as running it once. */
  lemma WithMineNeighborTagsIdempotent(cells: seq<CellEntity>)
    ensures WithMineNeighborTags(WithMineNeighborTags(cells)) == WithMineNeighborTags(cells)
  {
    var once := WithMineNeighborTags(cells);
    MinePositionsOfSameTags(cells, once);
  }

  /**
   * On a board with distinct positions and no MineNeighbor yet, every
   * non-mine cell ends up tagged exactly when a mine is adjacent, with the
   * number of adjacent mines (the intersection of the mine positions and its
   * neighbour list), at most 8; mine cells never get a count.
   */
  lemma {:induction false} WithMineNeighborTagsCorrect(cells: seq<CellEntity>, i: nat)
    requires Grid.NoDuplicates(EntityPositions(cells))
    requires i < |cells| && cells[i].mineNeighbor.None?
    ensures var tag := WithMineNeighborTags(cells)[i].mineNeighbor;
      var around := Grid.MinesAround(MinePositions(cells), cells[i].pos);
      && (cells[i].mine ==> tag.None?)
      && (!cells[i].mine ==> (tag.Some? <==> around != {}))
      && (tag.Some? ==> tag.value == |around| && 1 <= tag.value <= 8)
  {
    MinePositionsProperties(cells);
    Grid.NeighborMineCount(MinePositions(cells), cells[i].pos);
  }

  // ---------------------------------------------------------------------------
  // flood_fill: the bounds test and the direct pushes (its descent is not modelled)

  /** The bounds test of flood_fill, written against the literal 19. */
  predicate InBounds(p: Grid.Position) {
    0 <= p.x <= MaxCoord && 0 <= p.y <= MaxCoord
  }

  /** The literal bounds are exactly the default 20 x 20 grid of src/grid.rs. */
  lemma InBoundsIsDefaultGrid(p: Grid.Position)
    ensures InBounds(p) <==> Grid.InGrid(Grid.DefaultGridParams(), p)
  {
  }

  /** The neighbours flood_fill would descend into, in list order. */
  function DescentTargets(ps: seq<Grid.Position>): (r: seq<Grid.Position>)
    ensures forall q :: q in r <==> q in ps && InBounds(q)
  {
    if ps == [] then []
    else (if InBounds(ps[0]) then [ps[0]] else []) + DescentTargets(ps[1..])
  }

  /**
   * Why the descent cannot terminate: from any in-bounds position there is an
   * in-bounds neighbour to descend into, and every such neighbour lists the
   * starting position among its own descent targets again.
   */
  lemma DescentRevisits(p: Grid.Position)
    requires InBounds(p)
    ensures DescentTargets(CalcPosNeighbors(p)) != []
    ensures forall q | q in DescentTargets(CalcPosNeighbors(p)) :: p in DescentTargets(CalcPosNeighbors(q))
  {
    var q := if p.x < MaxCoord then Grid.Position(p.x + 1, p.y) else Grid.Position(p.x - 1, p.y);
    assert q in CalcPosNeighbors(p);
    assert q in DescentTargets(CalcPosNeighbors(p));
  }

  /**
   * The descent is reached from the loop over the empty cells, once per empty
   * cell and in-bounds neighbour. flood_fill therefore returns, with only its
   * direct pushes, exactly when there is no empty cell or no neighbour of the
   * clicked position passes the bounds test; otherwise it recurses without end.
   */
  predicate DescentSkipped(clicked: Grid.Position, cells: seq<CellEntity>) {
    || (forall i | 0 <= i < |cells| :: !IsEmptyCell(cells[i]))
    || DescentTargets(CalcPosNeighbors(clicked)) == []
  }

  lemma NoDescentTargetsOutside(ps: seq<Grid.Position>)
    requires forall k | 0 <= k < |ps| :: !InBounds(ps[k])
    ensures DescentTargets(ps) == []
  {
    if ps != [] {
      NoDescentTargetsOutside(ps[1..]);
    }
  }

  /**
   * A position has no neighbour inside 0..19 exactly when it lies outside the
   * band -1..20 in some coordinate, i.e. at least two steps off the board.
   */
  lemma NoDescentTargetsExactly(clicked: Grid.Position)
    ensures DescentTargets(CalcPosNeighbors(clicked)) == [] <==>
      !(-1 <= clicked.x <= MaxCoord + 1 && -1 <= clicked.y <= MaxCoord + 1)
  {
    var targets := DescentTargets(CalcPosNeighbors(clicked));
    if -1 <= clicked.x <= MaxCoord + 1 && -1 <= clicked.y <= MaxCoord + 1 {
      if InBounds(clicked) {
        DescentRevisits(clicked);
      } else {
        var x := if clicked.x < 0 then 0 else if clicked.x > MaxCoord then MaxCoord else clicked.x;
        var y := if clicked.y < 0 then 0 else if clicked.y > MaxCoord then MaxCoord else clicked.y;
        var q := Grid.Position(x, y);
        assert Grid.IsMooreNeighbor(clicked, q);
        assert q in targets;
      }
    } else {
      var ns := CalcPosNeighbors(clicked);
      forall k | 0 <= k < |ns| ensures !InBounds(ns[k]) {
        assert Grid.IsMooreNeighbor(clicked, ns[k]);
      }
      NoDescentTargetsOutside(ns);
    }
  }

  function Repeat(p: Grid.Position, n: nat): (r: seq<Grid.Position>)
    ensures |r| == n && forall k | 0 <= k < n :: r[k] == p
  {
    if n == 0 then [] else Repeat(p, n - 1) + [p]
  }

  /** How many cells satisfying `wanted` stand at p. */
  function CountAt(cells: seq<CellEntity>, p: Grid.Position, wanted: CellEntity -> bool): nat {
    if cells == [] then 0
    else CountAt(cells[..|cells| - 1], p, wanted)
         + (if cells[|cells| - 1].pos == p && wanted(cells[|cells| - 1]) then 1 else 0)
  }

  lemma {:induction false} CountAtProperties(cells: seq<CellEntity>, p: Grid.Position, wanted: CellEntity -> bool)
    ensures CountAt(cells, p, wanted) > 0 <==> exists i | 0 <= i < |cells| :: cells[i].pos == p && wanted(cells[i])
    ensures Grid.NoDuplicates(EntityPositions(cells)) ==> CountAt(cells, p, wanted) <= 1
  {
    if cells != [] {
      var init := cells[..|cells| - 1];
      CountAtProperties(init, p, wanted);
      if exists i | 0 <= i < |init| :: init[i].pos == p && wanted(init[i]) {
        var i :| 0 <= i < |init| && init[i].pos == p && wanted(init[i]);
        assert cells[i] == init[i];
      }
      if Grid.NoDuplicates(EntityPositions(cells)) {
        assert EntityPositions(init) == EntityPositions(cells)[..|cells| - 1];
        forall i | 0 <= i < |init| ensures init[i].pos != cells[|cells| - 1].pos {
          assert EntityPositions(cells)[i] != EntityPositions(cells)[|cells| - 1];
        }
      }
    }
  }

  /** What the direct pushes of flood_fill amount to, given a count per query. */
  function DirectPushes(clicked: Grid.Position, cells: seq<CellEntity>): seq<Grid.Position> {
    Repeat(clicked, CountAt(cells, clicked, IsEmptyCell) + CountAt(cells, clicked, IsNeighborCell))
  }

  /**
   * The clicked position is pushed exactly when a non-mine cell stands there
   * (mine cells are never pushed), and at most once when positions are distinct.
   */
  lemma DirectPushesProperties(clicked: Grid.Position, cells: seq<CellEntity>)
    ensures forall q | q in DirectPushes(clicked, cells) :: q == clicked
    ensures clicked in DirectPushes(clicked, cells) <==>
      exists i | 0 <= i < |cells| :: cells[i].pos == clicked && !cells[i].mine
    ensures Grid.NoDuplicates(EntityPositions(cells)) ==> |DirectPushes(clicked, cells)| <= 1
  {
    var pushes := DirectPushes(clicked, cells);
    CountAtProperties(cells, clicked, IsEmptyCell);
    CountAtProperties(cells, clicked, IsNeighborCell);
    if exists i | 0 <= i < |cells| :: cells[i].pos == clicked && !cells[i].mine {
      var i :| 0 <= i < |cells| && cells[i].pos == clicked && !cells[i].mine;
      assert IsEmptyCell(cells[i]) || IsNeighborCell(cells[i]);
      assert pushes[0] == clicked;
    }
    if Grid.NoDuplicates(EntityPositions(cells)) && CountAt(cells, clicked, IsEmptyCell) > 0 {
      var i :| 0 <= i < |cells| && cells[i].pos == clicked && IsEmptyCell(cells[i]);
      forall j | 0 <= j < |cells| && j != i ensures cells[j].pos != clicked {
        assert EntityPositions(cells)[j] != EntityPositions(cells)[i];
      }
    }
  }

  /**
   * The pushes flood_fill makes itself, without its descent: the clicked
   * position once per empty cell standing there, then once per mine-neighbour
   * cell standing there.
   */
  method FloodFillDirect(clicked: Grid.Position, cells: seq<CellEntity>) returns (toUncover: seq<Grid.Position>)
    ensures toUncover == DirectPushes(clicked, cells)
    ensures clicked in toUncover <==> exists i | 0 <= i < |cells| :: cells[i].pos == clicked && !cells[i].mine
    ensures Grid.NoDuplicates(EntityPositions(cells)) ==> |toUncover| <= 1
  {
    toUncover := [];
    for i := 0 to |cells|
      invariant toUncover == Repeat(clicked, CountAt(cells[..i], clicked, IsEmptyCell))
    {
      assert cells[..i + 1][..i] == cells[..i];
      if IsEmptyCell(cells[i]) && cells[i].pos == clicked {
        toUncover := toUncover + [cells[i].pos];
      }
    }
    assert cells[..|cells|] == cells;
    var emptyCount := |toUncover|;
    for i := 0 to |cells|
      invariant toUncover == Repeat(clicked, emptyCount + CountAt(cells[..i], clicked, IsNeighborCell))
    {
      assert cells[..i + 1][..i] == cells[..i];
      if IsNeighborCell(cells[i]) && cells[i].pos == clicked {
        toUncover := toUncover + [cells[i].pos];
      }
    }
    DirectPushesProperties(clicked, cells);
  }

  // ---------------------------------------------------------------------------
  // Reveal (the recolouring loop of display_clicked_cell)

  /** The board after the loop: empty cells whose position is listed turn antique white. */
  function Recoloured(cells: seq<CellEntity>, toUncover: seq<Grid.Position>): (r: seq<CellEntity>)
    ensures |r| == |cells|
  {
    seq(|cells|, i requires 0 <= i < |cells| =>
      if IsEmptyCell(cells[i]) && cells[i].pos in toUncover then cells[i].(color := Grid.AntiqueWhite) else cells[i])
  }

  method RecolourUncovered(cells: array<CellEntity>, toUncover: seq<Grid.Position>)
    modifies cells
    ensures cells[..] == Recoloured(old(cells[..]), toUncover)
  {
    label Outer:
    for i := 0 to cells.Length
      invariant forall k | 0 <= k < cells.Length ::
        cells[k] == if k < i then Recoloured(old(cells[..]), toUncover)[k] else old(cells[k])
    {
      if !IsEmptyCell(cells[i]) {
        continue;
      }
      for j := 0 to |toUncover|
        invariant cells[i] == old(cells[i])
        invariant cells[i].pos !in toUncover[..j]
      {
        if cells[i].pos == toUncover[j] {
          cells[i] := cells[i].(color := Grid.AntiqueWhite);
          continue Outer;
        }
        assert toUncover[..j + 1] == toUncover[..j] + [toUncover[j]];
      }
      assert toUncover[..|toUncover|] == toUncover;
    }
  }

  /**
   * Clicking reveals at most the clicked cell and only if it is empty: a
   * mine-neighbour cell that flood_fill pushes is outside the loop's query,
   * so its colour never changes, and no mine cell changes either. The direct
   * pushes are flood_fill's whole result only when DescentSkipped holds.
   */
  lemma {:induction false} ClickRecoloursOnlyClickedEmptyCell(cells: seq<CellEntity>, clicked: Grid.Position)
    ensures forall i | 0 <= i < |cells| ::
        Recoloured(cells, DirectPushes(clicked, cells))[i]
          == if IsEmptyCell(cells[i]) && cells[i].pos == clicked then cells[i].(color := Grid.AntiqueWhite) else cells[i]
  {
    var toUncover := DirectPushes(clicked, cells);
    CountAtProperties(cells, clicked, IsEmptyCell);
    forall i | 0 <= i < |cells| && IsEmptyCell(cells[i]) && cells[i].pos == clicked
      ensures clicked in toUncover
    {
      assert toUncover[0] == clicked;
    }
  }

  /**
   * On the board setup_grid builds (every position within 0..19), whenever
   * flood_fill returns at all no empty cell stands at the clicked position,
   * so the click recolours nothing.
   */
  lemma ClickRecoloursNothingOnDefaultGrid(cells: seq<CellEntity>, clicked: Grid.Position)
    requires forall i | 0 <= i < |cells| :: InBounds(cells[i].pos)
    requires DescentSkipped(clicked, cells)
    ensures forall i | 0 <= i < |cells| :: !(IsEmptyCell(cells[i]) && cells[i].pos == clicked)
    ensures Recoloured(cells, DirectPushes(clicked, cells)) == cells
  {
    ClickRecoloursOnlyClickedEmptyCell(cells, clicked);
    NoDescentTargetsExactly(clicked);
  }
}
