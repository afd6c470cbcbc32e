/**
 * The board (Board.ts, Board.js): a 4x4 array of creature tiles, 5x5 arrays
 * of horizontal and vertical walls, and the list of magic doors.
 *
 * Horizontal wall (r, c) lies above tile (r, c); vertical wall (r, c) lies to
 * the left of tile (r, c). Initialising the walls' types is the wall
 * generator's job (see WallGenerator.NewBoard).
 */
module Boards {
  import opened Grid
  import opened Tiles
  import opened Walls
  import Directions

  /** The two upper rows of creatures; the lower rows are their 180-degree rotation. */
  const Top: seq<seq<CreatureType>> := [[Owl, Millipede, Frog, Owl], [Frog, Bat, Bat, Millipede]]

  function TileColor(r: int, c: int): CreatureColor {
    if r % 2 == c % 2 then White else Black
  }

  /** The tile initialize places at (r, c). */
  function TileAt(r: int, c: int): Tile
    requires 0 <= r < 4 && 0 <= c < 4
  {
    if r < 2 then Tile(r, c, Top[r][c], TileColor(r, c), false)
    else Tile(r, c, Top[4 - r - 1][4 - c - 1], TileColor(r, c), true)
  }

  /** Which walls initialize marks external: the outer rows / columns of each array. */
  function IsExternalPosition(r: int, c: int, o: WallOrientation): bool {
    if o == Horizontal then r == 0 || r == 4 else c == 0 || c == 4
  }

  /** A wall that has a tile on both sides. */
  predicate SeparatesTiles(w: Wall) {
    if w.orientation == Horizontal then 1 <= w.row < 4 && 0 <= w.col < 4
    else 0 <= w.row < 4 && 1 <= w.col < 4
  }

  function Max(a: int, b: int): int {
    if a < b then b else a
  }

  /** What getWallBetween yields: a wall, `undefined`, or a thrown error. */
  datatype WallLookup = Found(wall: Wall) | Undefined | Thrown

  /**
   * The layout of the tiles: rows 0-1 copy the top table unflipped, rows 2-3
   * are its 180-degree rotation, flipped; the colour is white exactly on the
   * squares where row and column have the same parity.
   */
  lemma TileLayout(r: int, c: int)
    requires 0 <= r < 4 && 0 <= c < 4
    ensures TileAt(r, c).row == r && TileAt(r, c).col == c
    ensures TileAt(r, c).color == White <==> r % 2 == c % 2
    ensures r < 2 ==> TileAt(r, c).creature == Top[r][c] && !TileAt(r, c).flipped
    ensures r >= 2 ==> TileAt(r, c).creature == Top[3 - r][3 - c] && TileAt(r, c).flipped
  {
  }

  /**
   * The board is symmetric under a half turn: the tile opposite (r, c) shows
   * the same creature in the same colour, on the other face.
   */
  lemma HalfTurnSymmetry(r: int, c: int)
    requires 0 <= r < 4 && 0 <= c < 4
    ensures TileAt(3 - r, 3 - c).creature == TileAt(r, c).creature
    ensures TileAt(3 - r, 3 - c).color == TileAt(r, c).color
    ensures TileAt(3 - r, 3 - c).flipped != TileAt(r, c).flipped
  {
    assert (3 - r) % 2 == c % 2 <==> (3 - c) % 2 == r % 2;
  }

  class Board {
    const tiles: array2<Tile>
    const horizontalWalls: array2<Wall>
    const verticalWalls: array2<Wall>
    var magicDoors: seq<Wall>

    /**
     * The arrays have the sizes initialize gives them, every tile is the one
     * initialize places, every wall sits at its own array position with the
     * external flag initialize gives it, and every magic door is a wall of
     * this board with a tile on each side.
     */
    ghost predicate Valid()
      reads this, tiles, horizontalWalls, verticalWalls
    {
      && tiles.Length0 == 4 && tiles.Length1 == 4
      && horizontalWalls.Length0 == 5 && horizontalWalls.Length1 == 5
      && verticalWalls.Length0 == 5 && verticalWalls.Length1 == 5
      && (forall r, c :: 0 <= r < 4 && 0 <= c < 4 ==> tiles[r, c] == TileAt(r, c))
      && (forall r, c :: 0 <= r < 5 && 0 <= c < 5 ==> Placed(horizontalWalls[r, c], r, c, Horizontal))
      && (forall r, c :: 0 <= r < 5 && 0 <= c < 5 ==> Placed(verticalWalls[r, c], r, c, Vertical))
      && (forall w :: w in magicDoors ==> IsBoardWall(w) && SeparatesTiles(w))
    }

    static predicate Placed(w: Wall, r: int, c: int, o: WallOrientation) {
      w.row == r && w.col == c && w.orientation == o && w.isExternal == IsExternalPosition(r, c, o)
    }

    /** w is the wall stored at its own position in this board's arrays. */
    ghost predicate IsBoardWall(w: Wall)
      reads horizontalWalls, verticalWalls
    {
      && 0 <= w.row < 5 && 0 <= w.col < 5
      && horizontalWalls.Length0 == 5 && horizontalWalls.Length1 == 5
      && verticalWalls.Length0 == 5 && verticalWalls.Length1 == 5
      && (if w.orientation == Horizontal then horizontalWalls[w.row, w.col] == w
          else verticalWalls[w.row, w.col] == w)
    }

    /** Every wall object of the board. */
    ghost function AllWalls(): set<Wall>
      reads horizontalWalls, verticalWalls
    {
      (set r, c | 0 <= r < horizontalWalls.Length0 && 0 <= c < horizontalWalls.Length1 :: horizontalWalls[r, c])
      + (set r, c | 0 <= r < verticalWalls.Length0 && 0 <= c < verticalWalls.Length1 :: verticalWalls[r, c])
    }

    /**
     * initialize, without the final call to the wall generator: every tile is
     * laid out and every wall is new, NO_WALL, closed, and revealed exactly
     * when external.
     */
    constructor()
      ensures Valid() && magicDoors == []
      ensures fresh(tiles) && fresh(horizontalWalls) && fresh(verticalWalls)
      ensures forall r, c :: 0 <= r < 5 && 0 <= c < 5 ==>
        fresh(horizontalWalls[r, c]) && horizontalWalls[r, c].State() == WallState(NoWall, false, horizontalWalls[r, c].isExternal)
      ensures forall r, c :: 0 <= r < 5 && 0 <= c < 5 ==>
        fresh(verticalWalls[r, c]) && verticalWalls[r, c].State() == WallState(NoWall, false, verticalWalls[r, c].isExternal)
    {
      var t := new Tile[4, 4]((r, c) => Tile(r, c, Owl, White, false));
      for r := 0 to 4
        invariant forall i, j :: 0 <= i < r && 0 <= j < 4 ==> t[i, j] == TileAt(i, j)
      {
        for c := 0 to 4
          invariant forall i, j :: 0 <= i < r && 0 <= j < 4 ==> t[i, j] == TileAt(i, j)
          invariant forall j :: 0 <= j < c ==> t[r, j] == TileAt(r, j)
        {
          var color := if r % 2 == c % 2 then White else Black;
          if r < 2 {
            t[r, c] := Tile(r, c, Top[r][c], color, false);
          } else {
            t[r, c] := Tile(r, c, Top[4 - r - 1][4 - c - 1], color, true);
          }
        }
      }
      var h := NewWallArray(Horizontal);
      var v := NewWallArray(Vertical);
      tiles := t;
      horizontalWalls := h;
      verticalWalls := v;
      magicDoors := [];
    }

    /** A new wall as initialize creates it at (r, c). */
    static predicate Initial(w: Wall, r: int, c: int, o: WallOrientation)
      reads w
    {
      Placed(w, r, c, o) && w.State() == WallState(NoWall, false, w.isExternal)
    }

    /** The nested loop of initialize that fills one 5x5 wall array. */
    static method NewWallArray(o: WallOrientation) returns (a: array2<Wall>)
      ensures fresh(a) && a.Length0 == 5 && a.Length1 == 5
      ensures forall r, c :: 0 <= r < 5 && 0 <= c < 5 ==> fresh(a[r, c]) && Initial(a[r, c], r, c, o)
    {
      var placeholder := new Wall(0, 0, false, o);
      a := new Wall[5, 5]((r, c) => placeholder);
      ghost var made: set<Wall> := {};
      for r := 0 to 5
        invariant fresh(made)
        invariant forall i, j :: 0 <= i < r && 0 <= j < 5 ==> a[i, j] in made && Initial(a[i, j], i, j, o)
      {
        for c := 0 to 5
          invariant fresh(made)
          invariant forall i, j :: 0 <= i < r && 0 <= j < 5 ==> a[i, j] in made && Initial(a[i, j], i, j, o)
          invariant forall j :: 0 <= j < c ==> a[r, j] in made && Initial(a[r, j], r, j, o)
        {
          var w := new Wall(r, c, IsExternalPosition(r, c, o), o);
          a[r, c] := w;
          made := made + {w};
        }
      }
    }

    /**
     * getWallBetween (TypeScript): for cells in one row the vertical wall at
     * the larger column, for cells in one column the horizontal wall at the
     * larger row, and an error otherwise. Indexing a missing row of the wall
     * arrays fails too; a missing column yields undefined.
     */
    function GetWallBetween(r1: int, c1: int, r2: int, c2: int): (res: WallLookup)
      requires Valid()
      reads this, tiles, horizontalWalls, verticalWalls
      ensures r1 != r2 && c1 != c2 ==> res == Thrown
      ensures res.Found? && r1 == r2 ==>
        res.wall.orientation == Vertical && res.wall.row == r1 && res.wall.col == Max(c1, c2)
      ensures res.Found? && r1 != r2 ==>
        res.wall.orientation == Horizontal && res.wall.row == Max(r1, r2) && res.wall.col == c1 && c1 == c2
      ensures res.Found? ==> IsBoardWall(res.wall)
    {
      if r1 == r2 then
        if 0 <= r1 < 5 then
          var m := Max(c1, c2);
          if 0 <= m < 5 then Found(verticalWalls[r1, m]) else Undefined
        else Thrown
      else if c1 == c2 then
        var m := Max(r1, r2);
        if 0 <= m < 5 then
          if 0 <= c1 < 5 then Found(horizontalWalls[m, c1]) else Undefined
        else Thrown
      else Thrown
    }

    /** getWallBetween (JavaScript): the same, but undefined when the cells share neither row nor column. */
    function GetWallBetweenJs(r1: int, c1: int, r2: int, c2: int): (res: WallLookup)
      requires Valid()
      reads this, tiles, horizontalWalls, verticalWalls
      ensures r1 != r2 && c1 != c2 ==> res == Undefined
      ensures r1 == r2 || c1 == c2 ==> res == GetWallBetween(r1, c1, r2, c2)
    {
      if r1 == r2 || c1 == c2 then GetWallBetween(r1, c1, r2, c2) else Undefined
    }

    /** getTilesOnBothSides: the tile above / left of the wall first, then the other one. */
    function GetTilesOnBothSides(w: Wall): (pair: (Tile, Tile))
      requires Valid() && SeparatesTiles(w)
      reads this, tiles, horizontalWalls, verticalWalls
      ensures w.orientation == Horizontal ==>
        pair == (TileAt(w.row - 1, w.col), TileAt(w.row, w.col))
      ensures w.orientation == Vertical ==>
        pair == (TileAt(w.row, w.col - 1), TileAt(w.row, w.col))
    {
      if w.orientation == Horizontal then (tiles[w.row - 1, w.col], tiles[w.row, w.col])
      else (tiles[w.row, w.col - 1], tiles[w.row, w.col])
    }

    /** getCell. */
    function GetCell(r: int, c: int): (t: Tile)
      requires Valid() && 0 <= r < 4 && 0 <= c < 4
      reads this, tiles, horizontalWalls, verticalWalls
      ensures t == TileAt(r, c) && t.row == r && t.col == c
    {
      tiles[r, c]
    }

    /** getCreature: the tile under an entity standing on an in-grid cell. */
    function GetCreature(at: Cell): (t: Tile)
      requires Valid() && InGrid(at)
      reads this, tiles, horizontalWalls, verticalWalls
      ensures t == TileAt(at.row, at.col) && t.row == at.row && t.col == at.col
    {
      tiles[at.row, at.col]
    }

    /**
     * For orthogonally adjacent in-grid cells the lookup finds an internal
     * wall whose two sides are exactly those cells, the one with the smaller
     * node number first; the lookup is symmetric.
     */
    lemma AdjacentRoundTrip(a: Cell, b: Cell)
      requires Valid() && InGrid(a) && InGrid(b)
      requires Directions.Abs(a.row - b.row) + Directions.Abs(a.col - b.col) == 1
      ensures GetWallBetween(a.row, a.col, b.row, b.col) == GetWallBetween(b.row, b.col, a.row, a.col)
      ensures GetWallBetween(a.row, a.col, b.row, b.col).Found?
      ensures var w := GetWallBetween(a.row, a.col, b.row, b.col).wall;
        !w.isExternal && SeparatesTiles(w)
        && GetTilesOnBothSides(w) == (if NodeOf(a) < NodeOf(b) then (TileAt(a.row, a.col), TileAt(b.row, b.col))
                                      else (TileAt(b.row, b.col), TileAt(a.row, a.col)))
    {
      if a.row == b.row {
        assert a.col + 1 == b.col || b.col + 1 == a.col;
        assert NodeOf(a) < NodeOf(b) <==> a.col < b.col;
      } else {
        assert a.col == b.col && (a.row + 1 == b.row || b.row + 1 == a.row);
        assert NodeOf(a) < NodeOf(b) <==> a.row < b.row;
      }
    }

    /**
     * A unit step from an in-grid cell always finds a wall, and that wall is
     * external exactly when the step leaves the grid.
     */
    lemma UnitStepFindsWall(a: Cell, d: Directions.Direction)
      requires Valid() && InGrid(a) && Directions.IsUnitAxis(Directions.DRow(d), Directions.DCol(d))
      ensures var b := Cell(a.row + Directions.DRow(d), a.col + Directions.DCol(d));
        GetWallBetween(a.row, a.col, b.row, b.col).Found?
        && (GetWallBetween(a.row, a.col, b.row, b.col).wall.isExternal <==> !InGrid(b))
    {
      var b := Cell(a.row + Directions.DRow(d), a.col + Directions.DCol(d));
      if InGrid(b) {
        AdjacentRoundTrip(a, b);
      }
    }
  }
}
