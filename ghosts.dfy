/**
 * The ghost Hubi (Ghost.ts, and Ghost.js as its older variant): it spawns on a
 * tile without players once the first magic door opens, and after each move
 * it may step to a free king-move neighbour.
 *
 * The game's players are seen through `occupied`, the set of cells on which
 * `getPlayersAt` returns a non-empty list. `Math.random()` for the move draw
 * is the oracle `draw` in [0, 1); the choice of tile and of neighbour is a
 * nondeterministic `:|` choice. Probabilities are integer percentages.
 */
module Ghosts {
  import opened Grid
  import opened Constants

  /** A cell the ghost may stand on: on the grid and without a player. */
  predicate Free(c: Cell, occupied: set<Cell>) {
    InGrid(c) && c !in occupied
  }

  /** The free cells of `cs`, in their order in `cs`. */
  function FreeOf(cs: seq<Cell>, occupied: set<Cell>): (r: seq<Cell>)
    ensures |r| <= |cs|
    ensures forall c :: c in r <==> c in cs && Free(c, occupied)
  {
    if cs == [] then []
    else
      var last := cs[|cs| - 1];
      assert cs == cs[..|cs| - 1] + [last];
      FreeOf(cs[..|cs| - 1], occupied) + (if Free(last, occupied) then [last] else [])
  }

  /** Filtering one more cell appends it when it is free. */
  lemma FreeOfSnoc(cs: seq<Cell>, x: Cell, occupied: set<Cell>)
    ensures FreeOf(cs + [x], occupied) == FreeOf(cs, occupied) + (if Free(x, occupied) then [x] else [])
  {
    assert (cs + [x])[..|cs|] == cs;
  }

  /** The sixteen tiles in the row-major order spawn visits them. */
  function GridCells(): (g: seq<Cell>)
    ensures |g| == 16
  {
    seq(16, i => Cell(i / 4, i % 4))
  }

  /** The cells spawn collects into validTiles. */
  function FreeTiles(occupied: set<Cell>): seq<Cell> {
    FreeOf(GridCells(), occupied)
  }

  /** The eight (dr, dc) offsets of maybeMove, in the source's order. */
  const KingOffsets: seq<(int, int)> :=
    [(-1, -1), (-1, 0), (-1, 1), (0, -1), (0, 1), (1, -1), (1, 0), (1, 1)]

  /** The eight cells around `at`, one per offset. */
  function Targets(at: Cell): (t: seq<Cell>)
    ensures |t| == |KingOffsets|
  {
    seq(|KingOffsets|, i requires 0 <= i < |KingOffsets| =>
      Cell(at.row + KingOffsets[i].0, at.col + KingOffsets[i].1))
  }

  /** The cells maybeMove collects into validMoves. */
  function KingMoves(at: Cell, occupied: set<Cell>): seq<Cell> {
    FreeOf(Targets(at), occupied)
  }

  /** Cell (r, c) sits at index r * 4 + c of the grid order. */
  lemma GridCellAt(r: int, c: int)
    requires 0 <= r < 4 && 0 <= c < 4
    ensures GridCells()[4 * r + c] == Cell(r, c)
  {
    var n := 4 * r + c;
    assert n / 4 == r && n % 4 == c;
  }

  /** One step of spawn's row-major scan. */
  lemma GridVisit(r: int, c: int, occupied: set<Cell>)
    requires 0 <= r < 4 && 0 <= c < 4
    ensures FreeOf(GridCells()[..4 * r + c + 1], occupied)
      == FreeOf(GridCells()[..4 * r + c], occupied) + (if Cell(r, c) in occupied then [] else [Cell(r, c)])
  {
    var g, n := GridCells(), 4 * r + c;
    GridCellAt(r, c);
    assert g[..n + 1] == g[..n] + [Cell(r, c)];
    FreeOfSnoc(g[..n], Cell(r, c), occupied);
  }

  /** The spawn tiles are exactly the free cells of the grid. */
  lemma FreeTilesMembers(occupied: set<Cell>)
    ensures forall c :: c in FreeTiles(occupied) <==> Free(c, occupied)
  {
    forall c | Free(c, occupied)
      ensures c in GridCells()
    {
      GridCellAt(c.row, c.col);
    }
  }

  /** The offsets reach exactly the king-move neighbourhood. */
  lemma TargetsAreNeighbours(at: Cell)
    ensures forall c :: c in Targets(at) <==> KingNeighbour(at, c)
  {
    var t := Targets(at);
    forall c | KingNeighbour(at, c)
      ensures c in t
    {
      var dr, dc := c.row - at.row, c.col - at.col;
      if dr == -1 && dc == -1 { assert c == t[0]; }
      else if dr == -1 && dc == 0 { assert c == t[1]; }
      else if dr == -1 && dc == 1 { assert c == t[2]; }
      else if dr == 0 && dc == -1 { assert c == t[3]; }
      else if dr == 0 && dc == 1 { assert c == t[4]; }
      else if dr == 1 && dc == -1 { assert c == t[5]; }
      else if dr == 1 && dc == 0 { assert c == t[6]; }
      else { assert c == t[7]; }
    }
  }

  /** A ghost move goes to a free, in-grid king-move neighbour, and every such cell is a candidate. */
  lemma KingMovesMembers(at: Cell, occupied: set<Cell>)
    ensures forall c :: c in KingMoves(at, occupied) <==> KingNeighbour(at, c) && Free(c, occupied)
  {
    TargetsAreNeighbours(at);
  }

  /** A sequence of distinct elements of S is no longer than S is large. */
  lemma {:induction false} DistinctCover(s: seq<Cell>, S: set<Cell>)
    requires forall i, j :: 0 <= i < j < |s| ==> s[i] != s[j]
    requires forall i :: 0 <= i < |s| ==> s[i] in S
    ensures |s| <= |S|
  {
    if s != [] {
      var x := s[|s| - 1];
      DistinctCover(s[..|s| - 1], S - {x});
    }
  }

  /**
   * Spawn cannot fail for lack of room: with fewer than sixteen occupied
   * cells (the game has at most four players) some tile is free.
   */
  lemma FreeTileExists(occupied: set<Cell>)
    ensures |occupied| < 16 ==> FreeTiles(occupied) != []
  {
    if FreeTiles(occupied) == [] {
      var g := GridCells();
      FreeTilesMembers(occupied);
      forall i | 0 <= i < 16
        ensures g[i] in occupied
      {
        assert InGrid(g[i]) && g[i] !in FreeTiles(occupied);
      }
      forall i, j | 0 <= i < j < 16
        ensures g[i] != g[j]
      {
        assert NodeOf(g[i]) == i && NodeOf(g[j]) == j;
      }
      DistinctCover(g, occupied);
    }
  }

  /** Math.min(1, p + inc), in percent. */
  function Bumped(p: int, inc: int): (q: int)
    ensures q <= FullPercent
    ensures q == FullPercent || q == p + inc
    ensures p <= FullPercent && 0 <= inc ==> p <= q
  {
    if p + inc < FullPercent then p + inc else FullPercent
  }

  /** `Math.random() > probability`: the ghost stays put this time. */
  predicate Stays(draw: real, p: int) {
    draw * 100.0 > p as real
  }

  /**
   * Some draw in [0, 1) keeps the ghost in place exactly while the
   * probability is below 100 percent; at the cap it always tries to move.
   */
  lemma StayPossible(p: int)
    requires 0 <= p
    ensures (exists draw: real :: 0.0 <= draw < 1.0 && Stays(draw, p)) <==> p < FullPercent
  {
    if p < FullPercent {
      var draw := (p as real + 100.0) / 200.0;
      assert 0.0 <= draw < 1.0 && Stays(draw, p);
    }
  }

  /** The loop of spawn that collects validTiles. */
  method CollectFreeTiles(occupied: set<Cell>) returns (validTiles: seq<Cell>)
    ensures validTiles == FreeTiles(occupied)
  {
    ghost var g := GridCells();
    validTiles := [];
    for r := 0 to 4
      invariant validTiles == FreeOf(g[..4 * r], occupied)
    {
      for c := 0 to 4
        invariant validTiles == FreeOf(g[..4 * r + c], occupied)
      {
        GridVisit(r, c, occupied);
        if Cell(r, c) !in occupied {
          validTiles := validTiles + [Cell(r, c)];
        }
      }
    }
    assert g[..16] == g;
  }

  /** The loop of maybeMove that collects validMoves. */
  method CollectKingMoves(at: Cell, occupied: set<Cell>) returns (validMoves: seq<Cell>)
    ensures validMoves == KingMoves(at, occupied)
  {
    validMoves := [];
    for i := 0 to |KingOffsets|
      invariant validMoves == FreeOf(Targets(at)[..i], occupied)
    {
      var newR, newC := at.row + KingOffsets[i].0, at.col + KingOffsets[i].1;
      assert Targets(at)[..i + 1] == Targets(at)[..i] + [Cell(newR, newC)];
      FreeOfSnoc(Targets(at)[..i], Cell(newR, newC), occupied);
      if newR >= 0 && newR < 4 && newC >= 0 && newC < 4 {
        if Cell(newR, newC) !in occupied {
          validMoves := validMoves + [Cell(newR, newC)];
        }
      }
    }
    assert Targets(at)[..|KingOffsets|] == Targets(at);
  }

  class Ghost {
    var row: int
    var col: int
    var active: bool
    var probability: int
    /** GHOST_START_PROBABILITY for this ghost, in percent. */
    const startPercent: int
    /** GHOST_PROBABILITY_INCREMENT for this ghost, in percent. */
    const incrementPercent: int

    function Position(): Cell
      reads this
    {
      Cell(row, col)
    }

    /**
     * The ghost's invariant: its constants are percentages, and once spawned
     * it stands on the grid with a probability between the start value and 100.
     */
    ghost predicate Valid()
      reads this
    {
      && 0 <= startPercent <= FullPercent
      && 0 <= incrementPercent
      && (active ==> InGrid(Position()) && startPercent <= probability <= FullPercent)
    }

    /** Ghost.ts: the probabilities come from the difficulty's tables. */
    constructor (difficulty: Difficulty)
      ensures Valid()
      ensures row == -1 && col == -1 && !active && probability == 0
      ensures startPercent == GhostStartPercent(difficulty)
      ensures incrementPercent == GhostIncrementPercent(difficulty)
    {
      row, col := -1, -1;
      active := false;
      probability := 0;
      startPercent := GhostStartPercent(difficulty);
      incrementPercent := GhostIncrementPercent(difficulty);
    }

    /** Ghost.js as intended: the probabilities are the scalar constants of its revision. */
    constructor Legacy()
      ensures Valid()
      ensures row == -1 && col == -1 && !active && probability == 0
      ensures startPercent == LegacyGhostStartPercent
      ensures incrementPercent == LegacyGhostIncrementPercent
    {
      row, col := -1, -1;
      active := false;
      probability := 0;
      startPercent := LegacyGhostStartPercent;
      incrementPercent := LegacyGhostIncrementPercent;
    }

    /**
     * What spawn does: an active ghost stays as it is; an inactive one
     * becomes active exactly when some tile is free, on such a tile and with
     * the start probability, and otherwise nothing changes.
     */
    twostate predicate Spawned(occupied: set<Cell>)
      reads this
    {
      && (old(active) ==> active && row == old(row) && col == old(col) && probability == old(probability))
      && (!old(active) ==> (active <==> FreeTiles(occupied) != []))
      && (!old(active) && active ==> Position() in FreeTiles(occupied) && probability == startPercent)
      && (!old(active) && !active ==> row == old(row) && col == old(col) && probability == old(probability))
    }

    /**
     * What maybeMove does with the draw `draw`: nothing when inactive; when
     * the draw exceeds the probability, the ghost stays, the probability grows
     * (capped at 100) and the result is false; otherwise the probability
     * resets to the start value and the ghost steps to a free king-move
     * neighbour, returning true, or stays and returns false when there is none.
     */
    twostate predicate Stepped(occupied: set<Cell>, draw: real, moved: bool)
      reads this
    {
      && active == old(active)
      && (!old(active) ==> !moved && row == old(row) && col == old(col) && probability == old(probability))
      && (old(active) && Stays(draw, old(probability)) ==>
            !moved && row == old(row) && col == old(col) && probability == Bumped(old(probability), incrementPercent))
      && (old(active) && !Stays(draw, old(probability)) ==>
            && probability == startPercent
            && (moved <==> KingMoves(old(Position()), occupied) != [])
            && (moved ==> Position() in KingMoves(old(Position()), occupied))
            && (!moved ==> row == old(row) && col == old(col)))
    }

    /** spawn: once, onto a random tile without players. */
    method Spawn(occupied: set<Cell>)
      requires Valid()
      modifies this
      ensures Valid()
      ensures Spawned(occupied)
    {
      if active {
        return;
      }
      var validTiles := CollectFreeTiles(occupied);
      if |validTiles| > 0 {
        var i :| 0 <= i < |validTiles|;
        FreeTilesMembers(occupied);
        assert Free(validTiles[i], occupied);
        row, col := validTiles[i].row, validTiles[i].col;
        active := true;
        probability := startPercent;
      }
    }

    /**
     * maybeMove: an inactive ghost does nothing; otherwise the draw decides
     * between staying (the probability grows, capped at 100) and trying to
     * move (the probability resets first, and the ghost steps to a free
     * king-move neighbour if there is one).
     */
    method MaybeMove(occupied: set<Cell>, draw: real) returns (moved: bool)
      requires Valid()
      requires 0.0 <= draw < 1.0
      modifies this`row, this`col, this`probability
      ensures Valid()
      ensures Stepped(occupied, draw, moved)
    {
      if !active {
        return false;
      }
      if Stays(draw, probability) {
        probability := Bumped(probability, incrementPercent);
        return false;
      }
      probability := startPercent;
      var validMoves := CollectKingMoves(Position(), occupied);
      if |validMoves| > 0 {
        var i :| 0 <= i < |validMoves|;
        KingMovesMembers(Position(), occupied);
        assert Free(validMoves[i], occupied);
        row, col := validMoves[i].row, validMoves[i].col;
        return true;
      } else {
        return false;
      }
    }

    /**
     * Ghost.js spawn as written: it reads the unbound identifier `difficulty`
     * after placing the ghost, so the call throws with the ghost active and
     * its probability never set.
     */
    method SpawnAsWritten(occupied: set<Cell>) returns (thrown: bool)
      requires Valid()
      modifies this
      ensures old(active) ==> !thrown && active && row == old(row) && col == old(col)
      ensures !old(active) ==> (thrown <==> FreeTiles(occupied) != [])
      ensures thrown ==> active && Position() in FreeTiles(occupied) && probability == old(probability)
      ensures thrown && old(probability) < startPercent ==> !Valid()
      ensures probability == old(probability)
    {
      if active {
        return false;
      }
      var validTiles := CollectFreeTiles(occupied);
      thrown := false;
      if |validTiles| > 0 {
        var i :| 0 <= i < |validTiles|;
        FreeTilesMembers(occupied);
        assert Free(validTiles[i], occupied);
        row, col := validTiles[i].row, validTiles[i].col;
        active := true;
        thrown := true;
      }
    }

    /**
     * Ghost.js maybeMove as written: both branches of an active ghost
     * evaluate the unbound `difficulty` before assigning anything, so the
     * call throws and the ghost never moves.
     */
    method MaybeMoveAsWritten(occupied: set<Cell>, draw: real) returns (moved: bool, thrown: bool)
      requires 0.0 <= draw < 1.0
      ensures !moved
      ensures thrown <==> active
    {
      if !active {
        return false, false;
      }
      return false, true;
    }
  }
}
