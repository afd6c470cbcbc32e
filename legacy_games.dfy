/**
 * The older turn engine (js/models/Game.js). It shares the rotation, canPass
 * and the wall lookup with Game.ts, and differs in that
 *  - there is no first player until setFirstPlayer (`currentPlayer` is an
 *    Option), no previous player and no turn counter;
 *  - the ghost is built without a difficulty (the JavaScript scalars);
 *  - an active ghost runs maybeMove after every move that does not win,
 *    including the move that has just woken it and a move onto its tile;
 *  - giveHint builds the hint inline, does not end the turn, falls back to
 *    the last magic door when every door is open, and fails only when the
 *    board has no magic door at all.
 */
module LegacyGames {
  import opened Wrappers
  import opened Grid
  import opened Constants
  import Directions
  import opened Players
  import opened Tiles
  import opened Walls
  import opened Boards
  import opened Hints
  import opened Ghosts
  import opened GameStates
  import opened Games
  import WallGenerator

  /** The door the hint loop stops at: the first closed one, or the last door when all are open. */
  function HintDoor(doors: seq<Wall>): (i: nat)
    requires doors != []
    reads doors
    ensures i < |doors|
    ensures i < |doors| - 1 ==> !doors[i].isOpen
    ensures forall j :: 0 <= j < i ==> doors[j].isOpen
  {
    if FirstClosed(doors) < |doors| then FirstClosed(doors) else |doors| - 1
  }

  /**
   * A ghost woken during a move and then given maybeMove in the same move:
   * it spawned on `at`, a free tile, with the start probability, and then
   * either stayed there with the probability bumped, or had the probability
   * reset and stepped to a free king-move neighbour of `at` when there was one.
   */
  ghost predicate SpawnedThenStepped(g: Ghost, at: Cell, before: set<Cell>, after: set<Cell>, draw: real, moved: bool)
    reads g
  {
    && g.active && at in FreeTiles(before)
    && (Stays(draw, g.startPercent) ==>
          !moved && g.Position() == at && g.probability == Bumped(g.startPercent, g.incrementPercent))
    && (!Stays(draw, g.startPercent) ==>
          && g.probability == g.startPercent
          && (moved <==> KingMoves(at, after) != [])
          && (moved ==> g.Position() in KingMoves(at, after))
          && (!moved ==> g.Position() == at))
  }

  class LegacyGame {
    const difficulty: Difficulty
    const board: Board
    const gameState: GameState
    const hubi: Ghost
    var players: set<PlayerId>
    var pos: Positions
    var currentPlayer: Option<PlayerId>
    var movesMade: nat
    var givenHints: map<Tile, Hint>

    /** The same invariant as the newer game's: valid board and ghost, players on the grid, untyped external walls, Hubi awake only with an active ghost. */
    ghost predicate Valid()
      reads this, board, board.tiles, board.horizontalWalls, board.verticalWalls, board.AllWalls(), hubi, gameState
    {
      && board.Valid()
      && hubi.Valid()
      && (forall p: PlayerId :: InGrid(pos.At(p)))
      && (forall w | w in board.AllWalls() && w.isExternal :: w.kind == NoWall)
      && (HubiAwake(gameState.currentState) ==> hubi.active)
    }

    /**
     * The constructor: the single-door board, a fresh phase machine, a ghost
     * with the scalar start and increment, no players, no current player,
     * and every player on its starting corner.
     */
    constructor (difficulty: Difficulty)
      ensures Valid()
      ensures this.difficulty == difficulty
      ensures players == {} && currentPlayer == None && movesMade == 0 && givenHints == map[]
      ensures pos == StartPositions
      ensures gameState.currentState == NoState
      ensures !hubi.active && hubi.startPercent == LegacyGhostStartPercent
    {
      this.difficulty := difficulty;
      var b, valid;
      ghost var plan;
      b, valid, plan := WallGenerator.NewBoardJs();
      board := b;
      gameState := new GameState();
      hubi := new Ghost.Legacy();
      players := {};
      pos := StartPositions;
      currentPlayer := None;
      movesMade := 0;
      givenHints := map[];
      new;
      forall p: PlayerId
        ensures InGrid(pos.At(p))
      {
        StartCellsInGrid(p);
      }
      forall w | w in board.AllWalls() && w.isExternal
        ensures w.kind == NoWall
      {
        WallGenerator.BoardWallFacts(board, w);
      }
    }

    /** addPlayer: registers a player, refusing one already registered. */
    method AddPlayer(p: PlayerId) returns (ok: bool)
      modifies this`players
      ensures ok <==> p !in old(players)
      ensures players == old(players) + {p}
    {
      if p in players {
        return false;
      }
      players := players + {p};
      return true;
    }

    /** setFirstPlayer: only a registered player can start. */
    method SetFirstPlayer(p: PlayerId) returns (ok: bool)
      modifies this`currentPlayer
      ensures ok <==> p in players
      ensures currentPlayer == if ok then Some(p) else old(currentPlayer)
    {
      if p !in players {
        return false;
      }
      currentPlayer := Some(p);
      return true;
    }

    /**
     * moveToNextPlayer: the same rotation as the newer game. With no current
     * player, or with nobody registered, the source recurses forever, hence
     * the precondition.
     */
    method MoveToNextPlayer()
      requires currentPlayer.Some? && players != {}
      modifies this`currentPlayer
      ensures currentPlayer == Some(NextRegistered(old(currentPlayer).value, players))
    {
      ghost var start, k := currentPlayer.value, 1;
      var next := Successor(currentPlayer.value);
      while next !in players
        invariant 1 <= k <= Distance(start, players)
        invariant next == Rotated(start, k)
        decreases Distance(start, players) - k
      {
        next := Successor(next);
        k := k + 1;
      }
      currentPlayer := Some(next);
    }

    /** endTurn: no move made yet, and the next registered player's turn. */
    method EndTurn()
      requires currentPlayer.Some? && players != {}
      modifies this`movesMade, this`currentPlayer
      ensures movesMade == 0
      ensures currentPlayer == Some(NextRegistered(old(currentPlayer).value, players))
    {
      movesMade := 0;
      MoveToNextPlayer();
    }

    /**
     * The hint giveHint builds, None standing for the error it throws: with
     * Hubi awake, a ghost hint for the ghost's tile; otherwise a door hint
     * for the door the loop stops at, and an error when there is no door.
     */
    ghost function HintFor(): Option<Hint>
      requires Valid()
      reads this, board, board.tiles, board.horizontalWalls, board.verticalWalls, board.AllWalls(), hubi, gameState
      reads board.magicDoors
    {
      if HubiAwake(gameState.currentState) then Some(GhostHint(TileAt(hubi.row, hubi.col), difficulty))
      else if board.magicDoors == [] then None
      else
        var sides := DoorSides(board.magicDoors[HintDoor(board.magicDoors)]);
        Some(DoorHint(TileAt(sides.0.row, sides.0.col), TileAt(sides.1.row, sides.1.col), difficulty))
    }

    /**
     * The hint fails only without any magic door and with Hubi asleep; with
     * Hubi asleep and every door open, the hint is about the last door.
     */
    lemma HintFallsThrough()
      requires Valid()
      ensures HintFor().None? <==> !HubiAwake(gameState.currentState) && board.magicDoors == []
      ensures !HubiAwake(gameState.currentState) && board.magicDoors != [] && (forall w | w in board.magicDoors :: w.isOpen) ==>
        var last := board.magicDoors[|board.magicDoors| - 1];
        HintFor() == Some(DoorHint(TileAt(DoorSides(last).0.row, DoorSides(last).0.col),
                                   TileAt(DoorSides(last).1.row, DoorSides(last).1.col), difficulty))
    {
    }

    /**
     * giveHint: the current player's tile keeps its hint until hints are
     * cleared; otherwise the hint is built and cached. A hint is always
     * available unless the board has no magic door, and giving one does not
     * end the turn.
     */
    method GiveHint() returns (thrown: bool)
      requires Valid() && currentPlayer.Some?
      modifies this`givenHints
      ensures var creature := TileAt(pos.At(currentPlayer.value).row, pos.At(currentPlayer.value).col);
        && (thrown <==> creature !in old(givenHints) && old(HintFor()).None?)
        && (thrown ==> givenHints == old(givenHints))
        && (!thrown ==> creature in givenHints && givenHints - {creature} == old(givenHints) - {creature}
                        && givenHints[creature] == (if creature in old(givenHints) then old(givenHints)[creature] else old(HintFor()).value))
    {
      var playerCreature := board.GetCreature(pos.At(currentPlayer.value));
      if playerCreature in givenHints {
        return false;
      }
      var hint: Hint;
      if gameState.IsHubiAwake() {
        var ghostCreature := board.GetCreature(hubi.Position());
        hint := GhostHint(ghostCreature, difficulty);
      } else {
        var door: Option<Wall> := None;
        var i := 0;
        while i < |board.magicDoors| && (door.None? || door.value.isOpen)
          invariant 0 <= i <= |board.magicDoors|
          invariant door == if i == 0 then None else Some(board.magicDoors[i - 1])
          invariant forall j :: 0 <= j < i - 1 ==> board.magicDoors[j].isOpen
        {
          door := Some(board.magicDoors[i]);
          i := i + 1;
        }
        if door.None? {
          return true;
        }
        assert door.value == board.magicDoors[HintDoor(board.magicDoors)];
        var tiles := board.GetTilesOnBothSides(door.value);
        hint := DoorHint(tiles.0, tiles.1, difficulty);
      }
      givenHints := givenHints[playerCreature := hint];
      return false;
    }

    /** The door step of moveCurrentPlayer, as in the newer game: a closed magic door is tried, and an opening clears the hints. */
    method TryDoor(wall: Wall)
      requires Valid() && wall in board.AllWalls() && (wall.isExternal || SeparatesTiles(wall))
      modifies this`givenHints, gameState, wall`isOpen, hubi
      ensures Valid()
      ensures var opens := Opens(wall, old(wall.kind), old(wall.isOpen), players, pos);
        var wakes := opens && !HubiAwake(old(gameState.currentState));
        && wall.isOpen == (old(wall.isOpen) || opens)
        && givenHints == (if opens then map[] else old(givenHints))
        && gameState.currentState == (if wakes then PlayingWithHubi else old(gameState.currentState))
        && (wakes ==> hubi.Spawned(Occupied(players, pos)))
        && (!wakes ==> unchanged(hubi))
    {
      if wall.kind == MagicDoor && !wall.isOpen {
        var success := gameState.TryOpenDoor(board, wall, players, pos, hubi);
        if success {
          givenHints := map[];
        }
        if success && !HubiAwake(old(gameState.currentState)) && !old(hubi.active) {
          OccupiedSize(players, pos);
          PlayerCount(players);
          FreeTileExists(Occupied(players, pos));
        }
      }
    }

    /** The step itself: the current player goes through iff canPass, and may win on arrival. */
    method StepPlayer(wall: Wall, b: Cell) returns (hasMoved: bool, won: bool)
      requires Valid() && currentPlayer.Some? && wall in board.AllWalls() && (wall.isExternal <==> !InGrid(b))
      modifies this`pos, gameState
      ensures Valid()
      ensures hasMoved == CanPass(wall.State(), wall.isExternal, Type(currentPlayer.value))
      ensures pos == (if hasMoved then old(pos).Moved(currentPlayer.value, b) else old(pos))
      ensures won <==>
        hasMoved && old(gameState.currentState) == PlayingWithHubi && |PlayersAt(players, pos, hubi.Position())| >= 2
      ensures gameState.currentState == (if won then Won else old(gameState.currentState))
    {
      var player := currentPlayer.value;
      hasMoved := CanPass(wall.State(), wall.isExternal, Type(player));
      won := false;
      if hasMoved {
        pos := pos.Moved(player, b);
        won := gameState.CheckWinCondition(players, pos, hubi);
      }
    }

    /** The ghost step: an active ghost always gets its maybeMove; a ghost move clears the hints. */
    method GhostStep(draw: real) returns (ghostMoved: bool)
      requires Valid() && 0.0 <= draw < 1.0
      modifies hubi, this`givenHints
      ensures Valid()
      ensures !old(hubi.active) ==> unchanged(hubi) && givenHints == old(givenHints) && !ghostMoved
      ensures old(hubi.active) ==> hubi.Stepped(Occupied(players, pos), draw, ghostMoved)
      ensures ghostMoved ==> Free(hubi.Position(), Occupied(players, pos))
      ensures givenHints == (if ghostMoved then map[] else old(givenHints))
    {
      ghostMoved := false;
      if hubi.active {
        ghostMoved := hubi.MaybeMove(Occupied(players, pos), draw);
        if ghostMoved {
          KingMovesMembers(old(hubi.Position()), Occupied(players, pos));
          givenHints := map[];
        }
      }
    }

    /** The turn logic: the first move against a known wall is a bonus move; otherwise the turn ends. */
    method FinishTurn(isKnownWall: bool)
      requires currentPlayer.Some? && players != {}
      modifies this`movesMade, this`currentPlayer
      ensures isKnownWall && old(movesMade) == 0 ==> movesMade == 1 && currentPlayer == old(currentPlayer)
      ensures !(isKnownWall && old(movesMade) == 0) ==>
        movesMade == 0 && currentPlayer == Some(NextRegistered(old(currentPlayer).value, players))
    {
      if isKnownWall {
        movesMade := movesMade + 1;
        if movesMade == 1 {
          return;
        }
      }
      EndTurn();
    }

    /** The rest of a move that did not win: the ghost step, then the turn logic. */
    method AfterStep(isKnownWall: bool, draw: real) returns (ghostMoved: bool)
      requires Valid() && currentPlayer.Some? && players != {} && 0.0 <= draw < 1.0
      modifies hubi, this`givenHints, this`movesMade, this`currentPlayer
      ensures Valid()
      ensures !old(hubi.active) ==> unchanged(hubi) && !ghostMoved
      ensures old(hubi.active) ==> hubi.Stepped(Occupied(players, pos), draw, ghostMoved)
      ensures ghostMoved ==> Free(hubi.Position(), Occupied(players, pos))
      ensures givenHints == (if ghostMoved then map[] else old(givenHints))
      ensures isKnownWall && old(movesMade) == 0 ==> movesMade == 1 && currentPlayer == old(currentPlayer)
      ensures !(isKnownWall && old(movesMade) == 0) ==>
        movesMade == 0 && currentPlayer == Some(NextRegistered(old(currentPlayer).value, players))
    {
      ghostMoved := GhostStep(draw);
      FinishTurn(isKnownWall);
    }

    /** The move after the door: the step, and unless it wins, the ghost step and the turn logic. */
    method Resolve(wall: Wall, b: Cell, isKnownWall: bool, draw: real) returns (won: bool, ghostMoved: bool)
      requires Valid() && currentPlayer.Some? && players != {} && 0.0 <= draw < 1.0
      requires wall in board.AllWalls() && (wall.isExternal <==> !InGrid(b))
      modifies this`pos, this`givenHints, this`movesMade, this`currentPlayer, gameState, hubi
      ensures Valid()
      ensures var p := old(currentPlayer).value;
        var hasMoved := CanPass(wall.State(), wall.isExternal, Type(p));
        && pos == (if hasMoved then old(pos).Moved(p, b) else old(pos))
        && givenHints == (if ghostMoved then map[] else old(givenHints))
        && (won <==> hasMoved && old(gameState.currentState) == PlayingWithHubi
                     && |PlayersAt(players, pos, hubi.Position())| >= 2)
        && gameState.currentState == (if won then Won else old(gameState.currentState))
        && (won ==> !ghostMoved && movesMade == old(movesMade) && currentPlayer == old(currentPlayer))
        && (won || !old(hubi.active) ==> unchanged(hubi))
        && (!won && old(hubi.active) ==> hubi.Stepped(Occupied(players, pos), draw, ghostMoved))
        && (!old(hubi.active) ==> !ghostMoved)
        && (ghostMoved ==> Free(hubi.Position(), Occupied(players, pos)))
        && (!won && isKnownWall && old(movesMade) == 0 ==> movesMade == 1 && currentPlayer == old(currentPlayer))
        && (!won && !(isKnownWall && old(movesMade) == 0) ==>
              movesMade == 0 && currentPlayer == Some(NextRegistered(p, players)))
    {
      var hasMoved;
      hasMoved, won := StepPlayer(wall, b);
      ghostMoved := false;
      if won {
        return;
      }
      ghostMoved := AfterStep(isKnownWall, draw);
      if ghostMoved {
        assert PlayersAt(players, pos, hubi.Position()) == {};
      }
    }

    /**
     * What a unit step towards cell b through `wall` does in the older game:
     * as in the newer one, the registered players stay the same, the wall
     * becomes known, a closed magic door between two players opens, the
     * player goes through iff canPass, the hints are dropped when a door
     * opens or the ghost moves, and a win leaves the turn where it was. The move wins exactly when the player
     * went through onto the ghost's tile, next to another player, in
     * PLAYING_WITH_HUBI (reached by this move's door or before it); otherwise
     * the phase is the one after the door step. Unless the game was won, the
     * ghost runs maybeMove whenever it is active after the door step: a ghost
     * this move woke spawns on `spawnedAt` and then steps from there. The
     * first move against an already known wall is a bonus move while any
     * other move ends the turn.
     */
    twostate predicate Advanced(wall: Wall, b: Cell, draw: real, won: bool, ghostMoved: bool, spawnedAt: Cell)
      requires old(currentPlayer).Some? && (SeparatesTiles(wall) || wall.isExternal)
      reads this, gameState, hubi, wall
    {
      var p := old(currentPlayer).value;
      var opens := Opens(wall, old(wall.kind), old(wall.isOpen), players, old(pos));
      var wakes := opens && !HubiAwake(old(gameState.currentState));
      var hasMoved := CanPass(wall.State(), wall.isExternal, Type(p));
      var phase := if wakes then PlayingWithHubi else old(gameState.currentState);
      var bonus := old(wall.isRevealed) && old(movesMade) == 0;
      && players == old(players)
      && wall.isRevealed && wall.kind == old(wall.kind) && wall.isOpen == (old(wall.isOpen) || opens)
      && pos == (if hasMoved then old(pos).Moved(p, b) else old(pos))
      && givenHints == (if opens || ghostMoved then map[] else old(givenHints))
      && (won <==> hasMoved && phase == PlayingWithHubi && |PlayersAt(players, pos, hubi.Position())| >= 2)
      && gameState.currentState == (if won then Won else phase)
      && (won ==> !ghostMoved && movesMade == old(movesMade) && currentPlayer == old(currentPlayer))
      && (won ==> if wakes then hubi.Spawned(Occupied(players, old(pos))) else unchanged(hubi))
      && (!won && old(hubi.active) ==> hubi.Stepped(Occupied(players, pos), draw, ghostMoved))
      && (!won && !old(hubi.active) && wakes ==>
            SpawnedThenStepped(hubi, spawnedAt, Occupied(players, old(pos)), Occupied(players, pos), draw, ghostMoved))
      && (!won && !old(hubi.active) && !wakes ==> unchanged(hubi))
      && (!(old(hubi.active) || wakes) ==> !ghostMoved)
      && (ghostMoved ==> Free(hubi.Position(), Occupied(players, pos)))
      && (!won && bonus ==> movesMade == 1 && currentPlayer == old(currentPlayer))
      && (!won && !bonus ==> movesMade == 0 && currentPlayer == Some(NextRegistered(p, players)))
    }

    /** moveCurrentPlayer from the wall lookup on: reveal, door, step, ghost, turn. */
    method Advance(wall: Wall, b: Cell, draw: real) returns (won: bool, ghostMoved: bool, ghost spawnedAt: Cell)
      requires Valid() && currentPlayer.Some? && players != {} && 0.0 <= draw < 1.0
      requires wall in board.AllWalls() && (wall.isExternal <==> !InGrid(b)) && (!wall.isExternal ==> SeparatesTiles(wall))
      modifies this`pos, this`givenHints, this`movesMade, this`currentPlayer
      modifies gameState, hubi, wall`isRevealed, wall`isOpen
      ensures Valid()
      ensures Advanced(wall, b, draw, won, ghostMoved, spawnedAt)
    {
      var isKnownWall := wall.isRevealed;
      RevealWall(wall);
      TryDoor(wall);
      spawnedAt := hubi.Position();
      won, ghostMoved := Resolve(wall, b, isKnownWall, draw);
    }

    /** The reveal step of moveCurrentPlayer: the wall becomes known and nothing else changes. */
    method RevealWall(wall: Wall)
      requires Valid() && wall in board.AllWalls()
      modifies wall`isRevealed
      ensures Valid() && wall.isRevealed
    {
      wall.Reveal();
    }

    /** The walls a move in direction d may change: the wall ahead of the current player, if d is a unit step. */
    ghost function WallsTouched(d: Directions.Direction): (ws: set<Wall>)
      requires board.Valid() && currentPlayer.Some? && InGrid(pos.At(currentPlayer.value))
      reads this, board, board.tiles, board.horizontalWalls, board.verticalWalls
      ensures ws <= board.AllWalls() && |ws| <= 1
    {
      if Directions.IsUnitAxis(Directions.DRow(d), Directions.DCol(d)) then {WallAhead(board, pos.At(currentPlayer.value), d)} else {}
    }

    /** moveCurrentPlayer on a unit step: look the wall up, then advance through it. */
    method MoveThrough(d: Directions.Direction, draw: real)
      returns (won: bool, ghostMoved: bool, ghost spawnedAt: Cell)
      requires Valid() && currentPlayer.Some? && players != {} && 0.0 <= draw < 1.0
      requires Directions.IsUnitAxis(Directions.DRow(d), Directions.DCol(d))
      modifies this`pos, this`givenHints, this`movesMade, this`currentPlayer
      modifies gameState, hubi, WallsTouched(d)
      ensures Valid()
      ensures Advanced(old(WallAhead(board, pos.At(currentPlayer.value), d)), Step(old(pos.At(currentPlayer.value)), d),
                       draw, won, ghostMoved, spawnedAt)
    {
      var at := pos.At(currentPlayer.value);
      var next := Step(at, d);
      var wall := board.GetWallBetweenJs(at.row, at.col, next.row, next.col).wall;
      won, ghostMoved, spawnedAt := Advance(wall, next, draw);
    }

    /**
     * moveCurrentPlayer. A direction that is not a unit step changes nothing;
     * otherwise the wall ahead (getWallBetween finds it for every unit step)
     * is the only wall that changes, and the move is Advanced through it;
     * `spawnedAt` is where a ghost this move woke was spawned.
     */
    method MoveCurrentPlayer(d: Directions.Direction, draw: real)
      returns (ghost won: bool, ghost ghostMoved: bool, ghost spawnedAt: Cell)
      requires Valid() && currentPlayer.Some? && players != {} && 0.0 <= draw < 1.0
      modifies this, gameState, hubi, WallsTouched(d)
      ensures Valid()
      ensures !Directions.IsUnitAxis(Directions.DRow(d), Directions.DCol(d)) ==>
        unchanged(this, gameState, hubi) && !won && !ghostMoved
      ensures Directions.IsUnitAxis(Directions.DRow(d), Directions.DCol(d)) ==>
        var a := old(pos.At(currentPlayer.value));
        var w := old(WallAhead(board, a, d));
        && Advanced(w, Step(a, d), draw, won, ghostMoved, spawnedAt)
    {
      won, ghostMoved, spawnedAt := false, false, Cell(0, 0);
      if !Directions.IsUnitAxis(Directions.DRow(d), Directions.DCol(d)) {
        return;
      }
      won, ghostMoved, spawnedAt := MoveThrough(d, draw);
    }
  }
}
