/**
 * The turn engine (Game.ts): players join, one of them starts, and each turn
 * the current player either moves through a wall or asks for a hint.
 *
 * The positions of the four player singletons are the map `pos`; the game's
 * `checkGameOverCondition` (whose GameState is not part of this model) is the
 * predicate `gameOver` on the number of turns played; `Math.random()` for the
 * ghost's draw is the parameter `draw`. Narrator calls have no effect here.
 */
module Games {
  import opened Wrappers
  import opened Grid
  import opened Constants
  import Directions
  import opened Players
  import opened Tiles
  import opened Walls
  import opened Boards
  import opened Hints
  import opened Ghosts
  import opened GameStates
  import WallPlans
  import WallGenerator

  /** The four if-branches of moveToNextPlayer: GREEN_RABBIT, RED_MOUSE, YELLOW_MOUSE, BLUE_RABBIT, and round. */
  function Successor(p: PlayerId): PlayerId {
    match p
    case GreenRabbit => RedMouse
    case RedMouse => YellowMouse
    case YellowMouse => BlueRabbit
    case BlueRabbit => GreenRabbit
  }

  /** The player n places after p in the rotation. */
  function Rotated(p: PlayerId, n: nat): PlayerId {
    if n == 0 then p else Successor(Rotated(p, n - 1))
  }

  /** Four steps of the rotation visit every player and come back. */
  lemma RotationCycle(p: PlayerId)
    ensures Rotated(p, 4) == p
    ensures {Rotated(p, 1), Rotated(p, 2), Rotated(p, 3), Rotated(p, 4)} == AllPlayers
  {
  }

  /** The smallest n >= from (up to 4) at which the rotation from p reaches a registered player. */
  function DistanceFrom(p: PlayerId, players: set<PlayerId>, from: nat): (n: nat)
    requires 1 <= from <= 4
    ensures from <= n <= 4
    ensures forall j :: from <= j < n ==> Rotated(p, j) !in players
    ensures n < 4 ==> Rotated(p, n) in players
    decreases 4 - from
  {
    if from == 4 || Rotated(p, from) in players then from else DistanceFrom(p, players, from + 1)
  }

  /** How many rotation steps moveToNextPlayer takes from p. */
  function Distance(p: PlayerId, players: set<PlayerId>): (n: nat)
    ensures 1 <= n <= 4
    ensures forall j :: 1 <= j < n ==> Rotated(p, j) !in players
    ensures players != {} ==> Rotated(p, n) in players
  {
    var n := DistanceFrom(p, players, 1);
    RotationCycle(p);
    assert n == 4 && players != {} ==> Rotated(p, 4) in players by {
      if n == 4 && players != {} {
        var q :| q in players;
        Identities(q);
        assert q in {Rotated(p, 1), Rotated(p, 2), Rotated(p, 3), Rotated(p, 4)};
      }
    }
    n
  }

  /** The player moveToNextPlayer settles on: the first registered one after p in the rotation. */
  function NextRegistered(p: PlayerId, players: set<PlayerId>): PlayerId {
    Rotated(p, Distance(p, players))
  }

  /**
   * The rotation lands on a registered player, skipping only unregistered
   * ones; with every player registered it is exactly the successor, and a
   * lone player keeps the turn.
   */
  lemma NextRegisteredFacts(p: PlayerId, players: set<PlayerId>)
    requires players != {}
    ensures NextRegistered(p, players) in players
    ensures Successor(p) in players ==> NextRegistered(p, players) == Successor(p)
    ensures players == {p} ==> NextRegistered(p, players) == p
  {
    RotationCycle(p);
    if players == {p} {
      assert Distance(p, players) == 4;
    }
  }

  /**
   * canPass: external walls, missing walls and plain walls stop everyone,
   * free passages let everyone through, mouse holes only mice, rabbit
   * windows only rabbits, and magic doors everyone once open.
   */
  function CanPass(s: WallState, isExternal: bool, t: PlayerType): (ok: bool)
    ensures ok <==>
      && !isExternal
      && (|| s.kind == FreePassage
          || (s.kind == MouseHole && t == Mouse)
          || (s.kind == RabbitWindow && t == Rabbit)
          || (s.kind == MagicDoor && s.isOpen))
  {
    if isExternal then false
    else if s.kind == NoWall then false
    else if s.kind == PlainWall then false
    else if s.kind == FreePassage then true
    else if s.kind == MouseHole && t == Mouse then true
    else if s.kind == RabbitWindow && t == Rabbit then true
    else if s.kind == MagicDoor && s.isOpen then true
    else false
  }

  /**
   * canPass agrees with the generator's species check: a wall typed from a
   * plan letter lets a species through exactly when the plan counts that
   * letter as passable for it, doors counting once opened.
   */
  lemma CanPassMatchesPlan(s: WallState, x: WallPlans.Kind, t: PlayerType)
    requires s.kind == WallGenerator.KindType(x)
    ensures x != WallPlans.D ==> (CanPass(s, false, t) <==> WallPlans.Passable(x, t))
    ensures x == WallPlans.D ==> (CanPass(s, false, t) <==> s.isOpen)
  {
  }

  /** The cell one step from a in direction d. */
  function Step(a: Cell, d: Directions.Direction): Cell {
    Cell(a.row + Directions.DRow(d), a.col + Directions.DCol(d))
  }

  lemma BoardWallInAll(b: Board, w: Wall)
    requires b.Valid() && b.IsBoardWall(w)
    ensures w in b.AllWalls()
  {
    if w.orientation == Horizontal {
      assert b.horizontalWalls[w.row, w.col] == w;
    } else {
      assert b.verticalWalls[w.row, w.col] == w;
    }
  }

  /** The wall a unit step from a runs into: getWallBetween always finds one, internal exactly when the step stays on the grid. */
  ghost function WallAhead(b: Board, a: Cell, d: Directions.Direction): (w: Wall)
    requires b.Valid() && InGrid(a) && Directions.IsUnitAxis(Directions.DRow(d), Directions.DCol(d))
    reads b, b.tiles, b.horizontalWalls, b.verticalWalls
    ensures b.GetWallBetween(a.row, a.col, Step(a, d).row, Step(a, d).col) == Found(w)
    ensures w in b.AllWalls()
    ensures w.isExternal <==> !InGrid(Step(a, d))
    ensures !w.isExternal ==> SeparatesTiles(w)
  {
    var c := Step(a, d);
    b.UnitStepFindsWall(a, d);
    var w := b.GetWallBetween(a.row, a.col, c.row, c.col).wall;
    BoardWallInAll(b, w);
    if InGrid(c) then
      b.AdjacentRoundTrip(a, c);
      w
    else w
  }

  /** The first magic door in `doors` that is not open, or |doors| when all are. */
  function FirstClosed(doors: seq<Wall>): (i: nat)
    reads doors
    ensures i <= |doors|
    ensures i < |doors| ==> !doors[i].isOpen
    ensures forall j :: 0 <= j < i ==> doors[j].isOpen
    ensures (forall w | w in doors :: w.isOpen) ==> i == |doors|
  {
    if doors == [] then 0
    else if !doors[0].isOpen then 0
    else 1 + FirstClosed(doors[1..])
  }

  /**
   * Whether moving against wall w (in the state kind / isOpen) opens it:
   * it is a closed magic door and a player stands on each of its tiles.
   */
  predicate Opens(w: Wall, kind: WallType, isOpen: bool, players: set<PlayerId>, pos: Positions) {
    kind == MagicDoor && !isOpen && SeparatesTiles(w) && Flanked(w, players, pos)
  }

  class Game {
    const difficulty: Difficulty
    const board: Board
    const gameState: GameState
    const hubi: Ghost
    /** checkGameOverCondition, as a predicate on totalTurns. */
    const gameOver: nat -> bool
    var players: set<PlayerId>
    var pos: Positions
    var currentPlayer: PlayerId
    var previousPlayer: Option<PlayerId>
    var movesMade: nat
    var totalTurns: nat
    var givenHints: map<Tile, Hint>

    /**
     * The game's invariant: the board and the ghost are valid, every player
     * stands on the grid, external walls have no type (so a magic door always
     * has a tile on each side), and while Hubi is awake the ghost is active.
     */
    ghost predicate Valid()
      reads this, board, board.tiles, board.horizontalWalls, board.verticalWalls, board.AllWalls(), hubi, gameState
    {
      && board.Valid()
      && hubi.Valid()
      && (forall p: PlayerId :: InGrid(pos.At(p)))
      && (forall w | w in board.AllWalls() && w.isExternal :: w.kind == NoWall)
      && (HubiAwake(gameState.currentState) ==> hubi.active)
    }

    /**
     * The constructor: a board for the difficulty (laid out and generated),
     * a fresh phase machine and ghost, no players yet, GREEN_RABBIT as the
     * placeholder current player, and every player on its starting corner.
     */
    constructor (difficulty: Difficulty, gameOver: nat -> bool)
      ensures Valid()
      ensures this.difficulty == difficulty && this.gameOver == gameOver
      ensures players == {} && currentPlayer == GreenRabbit && previousPlayer == None
      ensures movesMade == 0 && totalTurns == 0 && givenHints == map[]
      ensures pos == StartPositions
      ensures gameState.currentState == NoState
      ensures !hubi.active && hubi.startPercent == GhostStartPercent(difficulty)
    {
      this.difficulty := difficulty;
      var b, valid;
      ghost var plan;
      b, valid, plan := WallGenerator.NewBoard(difficulty);
      board := b;
      gameState := new GameState();
      hubi := new Ghost(difficulty);
      this.gameOver := gameOver;
      players := {};
      pos := StartPositions;
      currentPlayer := GreenRabbit;
      previousPlayer := None;
      movesMade := 0;
      totalTurns := 0;
      givenHints := map[];
      new;
      forall p: PlayerId
        ensures InGrid(pos.At(p))
      {
        StartCellsInGrid(p);
      }
    }

    /** addPlayer: registers a player, refusing one already registered. */
    method AddPlayer(p: PlayerId) returns (ok: bool)
      modifies this`players
      ensures ok <==> p !in old(players)
      ensures players == old(players) + {p}
    {
      if p in players {
        return false;
      }
      players := players + {p};
      return true;
    }

    /** setFirstPlayer: only a registered player can start; the placeholder becomes the previous player. */
    method SetFirstPlayer(p: PlayerId) returns (ok: bool)
      modifies this`currentPlayer, this`previousPlayer
      ensures ok <==> p in players
      ensures ok ==> currentPlayer == p && previousPlayer == Some(old(currentPlayer))
      ensures !ok ==> currentPlayer == old(currentPlayer) && previousPlayer == old(previousPlayer)
    {
      if p !in players {
        return false;
      }
      previousPlayer := Some(currentPlayer);
      currentPlayer := p;
      return true;
    }

    /**
     * moveToNextPlayer: step along the rotation until a registered player
     * is reached. With no player registered the source recurses forever,
     * hence the precondition.
     */
    method MoveToNextPlayer()
      requires players != {}
      modifies this`currentPlayer
      ensures currentPlayer == NextRegistered(old(currentPlayer), players)
    {
      ghost var start, k := currentPlayer, 1;
      currentPlayer := Successor(currentPlayer);
      while currentPlayer !in players
        invariant 1 <= k <= Distance(start, players)
        invariant currentPlayer == Rotated(start, k)
        decreases Distance(start, players) - k
      {
        currentPlayer := Successor(currentPlayer);
        k := k + 1;
      }
    }

    /** The effect of endTurn: no move made yet, the player who just played recorded, the next one on. */
    twostate predicate TurnPassed()
      reads this
    {
      && movesMade == 0
      && previousPlayer == Some(old(currentPlayer))
      && currentPlayer == NextRegistered(old(currentPlayer), players)
    }

    /** endTurn. */
    method EndTurn()
      requires players != {}
      modifies this`movesMade, this`previousPlayer, this`currentPlayer
      ensures TurnPassed()
    {
      movesMade := 0;
      previousPlayer := Some(currentPlayer);
      MoveToNextPlayer();
    }

    /**
     * What the turn counter does at the end of a move or a hint: one more
     * turn is counted, and the turn passes on unless the game is over.
     */
    twostate predicate TurnCounted()
      reads this
    {
      && totalTurns == old(totalTurns) + 1
      && (gameOver(totalTurns) ==> currentPlayer == old(currentPlayer) && previousPlayer == old(previousPlayer))
      && (!gameOver(totalTurns) ==> TurnPassed())
    }

    /** The tail of giveHint and moveCurrentPlayer: count the turn, then end it unless the game is over. */
    method CountTurn()
      requires Valid() && players != {}
      modifies this`movesMade, this`totalTurns, this`previousPlayer, this`currentPlayer
      ensures Valid() && TurnCounted()
      ensures gameOver(totalTurns) ==> movesMade == old(movesMade)
    {
      totalTurns := totalTurns + 1;
      if gameOver(totalTurns) {
        return;
      }
      EndTurn();
    }

    /** The hint generateHint produces, None standing for its thrown error. */
    ghost function HintFor(): Option<Hint>
      requires Valid()
      reads this, board, board.tiles, board.horizontalWalls, board.verticalWalls, board.AllWalls(), hubi, gameState
      reads board.magicDoors
    {
      if HubiAwake(gameState.currentState) then Some(GhostHint(TileAt(hubi.row, hubi.col), difficulty))
      else
        var i := FirstClosed(board.magicDoors);
        if i < |board.magicDoors| then
          var sides := DoorSides(board.magicDoors[i]);
          Some(DoorHint(TileAt(sides.0.row, sides.0.col), TileAt(sides.1.row, sides.1.col), difficulty))
        else None
    }

    /**
     * generateHint: with Hubi awake, a ghost hint for the ghost's tile;
     * otherwise a door hint for the two tiles of the first door in
     * magicDoors order that is still closed; with every door open it throws.
     */
    method GenerateHint() returns (hint: Option<Hint>)
      requires Valid()
      ensures hint == HintFor()
      ensures hint.None? <==> !HubiAwake(gameState.currentState) && forall w | w in board.magicDoors :: w.isOpen
    {
      if gameState.IsHubiAwake() {
        var ghostTile := board.GetCreature(hubi.Position());
        return Some(GhostHint(ghostTile, difficulty));
      }
      var door: Option<Wall> := None;
      for i := 0 to |board.magicDoors|
        invariant door.None? ==> forall j :: 0 <= j < i ==> board.magicDoors[j].isOpen
        invariant door.Some? ==> FirstClosed(board.magicDoors) < |board.magicDoors|
        invariant door.Some? ==> door.value == board.magicDoors[FirstClosed(board.magicDoors)]
      {
        var d := board.magicDoors[i];
        if door.None? && !d.isOpen {
          door := Some(d);
        }
      }
      if door.Some? {
        var tiles := board.GetTilesOnBothSides(door.value);
        return Some(DoorHint(tiles.0, tiles.1, difficulty));
      }
      return None;
    }

    /**
     * giveHint: the current player's tile keeps its hint until hints are
     * cleared; a new hint comes from generateHint, whose error escapes before
     * anything changes. A given hint counts as a turn.
     */
    method GiveHint() returns (thrown: bool)
      requires Valid() && players != {}
      modifies this`givenHints, this`movesMade, this`totalTurns, this`previousPlayer, this`currentPlayer
      ensures Valid()
      ensures var creature := TileAt(old(pos.At(currentPlayer)).row, old(pos.At(currentPlayer)).col);
        && (thrown <==> creature !in old(givenHints) && old(HintFor()).None?)
        && (thrown ==> givenHints == old(givenHints) && totalTurns == old(totalTurns) && movesMade == old(movesMade)
                       && currentPlayer == old(currentPlayer) && previousPlayer == old(previousPlayer))
        && (!thrown ==> creature in givenHints && givenHints - {creature} == old(givenHints) - {creature}
                        && givenHints[creature] == (if creature in old(givenHints) then old(givenHints)[creature] else old(HintFor()).value)
                        && TurnCounted() && (gameOver(totalTurns) ==> movesMade == old(movesMade)))
    {
      var playerCreature := board.GetCreature(pos.At(currentPlayer));
      var hint: Hint;
      if playerCreature in givenHints {
        hint := givenHints[playerCreature];
      } else {
        var generated := GenerateHint();
        if generated.None? {
          return true;
        }
        hint := generated.value;
        givenHints := givenHints[playerCreature := hint];
      }
      CountTurn();
      return false;
    }

    /** The door step of moveCurrentPlayer: a closed magic door is tried, and an opening clears the hints. */
    method TryDoor(wall: Wall)
      requires Valid() && wall in board.AllWalls() && (wall.isExternal || SeparatesTiles(wall))
      modifies this`givenHints, gameState, wall`isOpen, hubi
      ensures Valid()
      ensures var opens := Opens(wall, old(wall.kind), old(wall.isOpen), players, pos);
        var wakes := opens && !HubiAwake(old(gameState.currentState));
        && wall.isOpen == (old(wall.isOpen) || opens)
        && givenHints == (if opens then map[] else old(givenHints))
        && gameState.currentState == (if wakes then PlayingWithHubi else old(gameState.currentState))
        && (wakes ==> hubi.Spawned(Occupied(players, pos)))
        && (!wakes ==> unchanged(hubi))
    {
      if wall.kind == MagicDoor && !wall.isOpen {
        var success := gameState.TryOpenDoor(board, wall, players, pos, hubi);
        if success {
          givenHints := map[];
        }
        if success && !HubiAwake(old(gameState.currentState)) && !old(hubi.active) {
          OccupiedSize(players, pos);
          PlayerCount(players);
          FreeTileExists(Occupied(players, pos));
        }
      }
    }

    /** The step itself: the current player goes through iff canPass, and may win on arrival. */
    method StepPlayer(wall: Wall, b: Cell) returns (hasMoved: bool, won: bool)
      requires Valid() && wall in board.AllWalls() && (wall.isExternal <==> !InGrid(b))
      modifies this`pos, gameState
      ensures Valid()
      ensures hasMoved == CanPass(wall.State(), wall.isExternal, Type(currentPlayer))
      ensures pos == (if hasMoved then old(pos).Moved(currentPlayer, b) else old(pos))
      ensures won <==>
        hasMoved && old(gameState.currentState) == PlayingWithHubi && |PlayersAt(players, pos, hubi.Position())| >= 2
      ensures gameState.currentState == (if won then Won else old(gameState.currentState))
    {
      hasMoved := CanPass(wall.State(), wall.isExternal, Type(currentPlayer));
      won := false;
      if hasMoved {
        pos := pos.Moved(currentPlayer, b);
        won := gameState.CheckWinCondition(players, pos, hubi);
      }
    }

    /**
     * The ghost step: a ghost that was already active before this move gets
     * its maybeMove, unless the mover has just landed on it; a ghost move
     * clears the hints.
     */
    method GhostStep(hasMoved: bool, wasActive: bool, draw: real) returns (ghostMoved: bool)
      requires Valid() && 0.0 <= draw < 1.0 && (wasActive ==> hubi.active)
      modifies hubi, this`givenHints
      ensures Valid()
      ensures var runs := wasActive && !(hasMoved && old(hubi.active) && pos.At(currentPlayer) == old(hubi.Position()));
        && (!runs ==> unchanged(hubi) && givenHints == old(givenHints) && !ghostMoved)
        && (runs ==> hubi.Stepped(Occupied(players, pos), draw, ghostMoved))
        && (runs ==> givenHints == (if ghostMoved then map[] else old(givenHints)))
    {
      ghostMoved := false;
      if hasMoved && hubi.active && pos.At(currentPlayer) == hubi.Position() {
        return;
      } else if wasActive {
        ghostMoved := hubi.MaybeMove(Occupied(players, pos), draw);
        if ghostMoved {
          givenHints := map[];
        }
      }
    }

    /** The turn logic: the first move against a known wall is a bonus move; otherwise the turn is counted. */
    method FinishTurn(isKnownWall: bool)
      requires Valid() && players != {}
      modifies this`movesMade, this`totalTurns, this`previousPlayer, this`currentPlayer
      ensures Valid()
      ensures isKnownWall && old(movesMade) == 0 ==>
        movesMade == 1 && totalTurns == old(totalTurns)
        && currentPlayer == old(currentPlayer) && previousPlayer == old(previousPlayer)
      ensures !(isKnownWall && old(movesMade) == 0) ==> TurnCounted()
      ensures !(isKnownWall && old(movesMade) == 0) && gameOver(totalTurns) ==>
        movesMade == old(movesMade) + (if isKnownWall then 1 else 0)
    {
      if isKnownWall {
        movesMade := movesMade + 1;
        if movesMade == 1 {
          return;
        }
      }
      CountTurn();
    }

    /** The walls a move in direction d may change: the wall ahead of the current player, if d is a unit step. */
    ghost function WallsTouched(d: Directions.Direction): (ws: set<Wall>)
      requires board.Valid() && InGrid(pos.At(currentPlayer))
      reads this, board, board.tiles, board.horizontalWalls, board.verticalWalls
      ensures ws <= board.AllWalls() && |ws| <= 1
    {
      if Directions.IsUnitAxis(Directions.DRow(d), Directions.DCol(d)) then {WallAhead(board, pos.At(currentPlayer), d)} else {}
    }

    /** The reveal step of moveCurrentPlayer: the wall becomes known and nothing else changes. */
    method RevealWall(wall: Wall)
      requires Valid() && wall in board.AllWalls()
      modifies wall`isRevealed
      ensures Valid() && wall.isRevealed
    {
      wall.Reveal();
    }

    /** The rest of a move that did not win: the ghost step, then the turn logic. */
    method AfterStep(hasMoved: bool, wasActive: bool, isKnownWall: bool, draw: real) returns (ghostMoved: bool)
      requires Valid() && players != {} && 0.0 <= draw < 1.0 && (wasActive ==> hubi.active)
      modifies hubi, this`givenHints, this`movesMade, this`totalTurns, this`previousPlayer, this`currentPlayer
      ensures Valid()
      ensures var runs := wasActive && !(hasMoved && old(hubi.active) && pos.At(old(currentPlayer)) == old(hubi.Position()));
        && (!runs ==> unchanged(hubi) && !ghostMoved)
        && (runs ==> hubi.Stepped(Occupied(players, pos), draw, ghostMoved))
        && givenHints == (if ghostMoved then map[] else old(givenHints))
      ensures isKnownWall && old(movesMade) == 0 ==>
        movesMade == 1 && totalTurns == old(totalTurns)
        && currentPlayer == old(currentPlayer) && previousPlayer == old(previousPlayer)
      ensures !(isKnownWall && old(movesMade) == 0) ==> TurnCounted()
      ensures !(isKnownWall && old(movesMade) == 0) && gameOver(totalTurns) ==>
        movesMade == old(movesMade) + (if isKnownWall then 1 else 0)
    {
      ghostMoved := GhostStep(hasMoved, wasActive, draw);
      FinishTurn(isKnownWall);
    }

    /** The move after the door: the step, and unless it wins, the ghost step and the turn logic. */
    method Resolve(wall: Wall, b: Cell, isKnownWall: bool, wasActive: bool, draw: real) returns (won: bool, ghostMoved: bool)
      requires Valid() && players != {} && 0.0 <= draw < 1.0 && (wasActive ==> hubi.active)
      requires wall in board.AllWalls() && (wall.isExternal <==> !InGrid(b))
      modifies this`pos, this`givenHints, this`movesMade, this`totalTurns, this`previousPlayer, this`currentPlayer
      modifies gameState, hubi
      ensures Valid()
      ensures var p := old(currentPlayer);
        var hasMoved := CanPass(wall.State(), wall.isExternal, Type(p));
        var runs := wasActive && !(hasMoved && pos.At(p) == old(hubi.Position()));
        && pos == (if hasMoved then old(pos).Moved(p, b) else old(pos))
        && givenHints == (if ghostMoved then map[] else old(givenHints))
        && (won <==> hasMoved && old(gameState.currentState) == PlayingWithHubi
                     && |PlayersAt(players, pos, hubi.Position())| >= 2)
        && gameState.currentState == (if won then Won else old(gameState.currentState))
        && (won || !runs ==> unchanged(hubi))
        && (won ==> !ghostMoved && movesMade == old(movesMade) && totalTurns == old(totalTurns))
        && (won ==> currentPlayer == old(currentPlayer) && previousPlayer == old(previousPlayer))
        && (!won && runs ==> hubi.Stepped(Occupied(players, pos), draw, ghostMoved))
        && (!runs ==> !ghostMoved)
        && (!won && isKnownWall && old(movesMade) == 0 ==>
              movesMade == 1 && totalTurns == old(totalTurns)
              && currentPlayer == old(currentPlayer) && previousPlayer == old(previousPlayer))
        && (!won && !(isKnownWall && old(movesMade) == 0) ==> TurnCounted())
        && (!won && !(isKnownWall && old(movesMade) == 0) && gameOver(totalTurns) ==>
              movesMade == old(movesMade) + (if isKnownWall then 1 else 0))
    {
      var hasMoved;
      hasMoved, won := StepPlayer(wall, b);
      ghostMoved := false;
      if won {
        return;
      }
      ghostMoved := AfterStep(hasMoved, wasActive, isKnownWall, draw);
      if ghostMoved {
        assert PlayersAt(players, pos, hubi.Position()) == {};
      }
    }

    /**
     * What a unit step towards cell b through `wall` does: the registered
     * players stay the same; the wall becomes
     * known and keeps its type; a closed magic door between two players
     * opens; the player goes through iff canPass; the hints are dropped when
     * a door opens or the ghost moves; a win leaves the turn where it was; a
     * ghost active before the move (and not just reached by the mover) runs
     * maybeMove; and, unless the game was won, the first move against an
     * already known wall is a bonus move (the turn, the counter and the
     * previous player untouched) and any other move counts a turn.
     * The move wins exactly when the player went through onto the ghost's
     * tile, next to another player, in PLAYING_WITH_HUBI (reached by this
     * move's door or before it); otherwise the phase is the one after the
     * door step. A ghost that does not run is the one the door step left:
     * just spawned if this move woke Hubi, untouched otherwise.
     */
    twostate predicate Advanced(wall: Wall, b: Cell, draw: real, won: bool, ghostMoved: bool)
      requires SeparatesTiles(wall) || wall.isExternal
      reads this, gameState, hubi, wall
    {
      var p := old(currentPlayer);
      var opens := Opens(wall, old(wall.kind), old(wall.isOpen), players, old(pos));
      var hasMoved := CanPass(wall.State(), wall.isExternal, Type(p));
      var ghostRuns := old(hubi.active) && !(hasMoved && pos.At(p) == old(hubi.Position()));
      var wakes := opens && !HubiAwake(old(gameState.currentState));
      var phase := if wakes then PlayingWithHubi else old(gameState.currentState);
      var bonus := old(wall.isRevealed) && old(movesMade) == 0;
      && players == old(players)
      && wall.isRevealed && wall.kind == old(wall.kind) && wall.isOpen == (old(wall.isOpen) || opens)
      && pos == (if hasMoved then old(pos).Moved(p, b) else old(pos))
      && givenHints == (if opens || ghostMoved then map[] else old(givenHints))
      && (won <==> hasMoved && phase == PlayingWithHubi && |PlayersAt(players, pos, hubi.Position())| >= 2)
      && gameState.currentState == (if won then Won else phase)
      && (won || !ghostRuns ==> if wakes then hubi.Spawned(Occupied(players, old(pos))) else unchanged(hubi))
      && (won ==> !ghostMoved && movesMade == old(movesMade) && totalTurns == old(totalTurns))
      && (won ==> currentPlayer == old(currentPlayer) && previousPlayer == old(previousPlayer))
      && (!won && ghostRuns ==> hubi.Stepped(Occupied(players, pos), draw, ghostMoved))
      && (!ghostRuns ==> !ghostMoved)
      && (!won && bonus ==> movesMade == 1 && totalTurns == old(totalTurns)
                            && currentPlayer == old(currentPlayer) && previousPlayer == old(previousPlayer))
      && (!won && !bonus ==> TurnCounted())
      && (!won && !bonus && gameOver(totalTurns) ==> movesMade == old(movesMade) + (if old(wall.isRevealed) then 1 else 0))
    }

    /** moveCurrentPlayer from the wall lookup on: reveal, door, step, ghost, turn. */
    method Advance(wall: Wall, b: Cell, draw: real) returns (won: bool, ghostMoved: bool)
      requires Valid() && players != {} && 0.0 <= draw < 1.0
      requires wall in board.AllWalls() && (wall.isExternal <==> !InGrid(b)) && (!wall.isExternal ==> SeparatesTiles(wall))
      modifies this`pos, this`givenHints, this`movesMade, this`totalTurns, this`previousPlayer, this`currentPlayer
      modifies gameState, hubi, wall`isRevealed, wall`isOpen
      ensures Valid()
      ensures Advanced(wall, b, draw, won, ghostMoved)
    {
      var isKnownWall := wall.isRevealed;
      RevealWall(wall);
      var wasGhostAlreadyActive := hubi.active;
      TryDoor(wall);
      won, ghostMoved := Resolve(wall, b, isKnownWall, wasGhostAlreadyActive, draw);
    }

    /** moveCurrentPlayer on a unit step: look the wall up, then advance through it. */
    method MoveThrough(d: Directions.Direction, draw: real) returns (won: bool, ghostMoved: bool)
      requires Valid() && players != {} && 0.0 <= draw < 1.0
      requires Directions.IsUnitAxis(Directions.DRow(d), Directions.DCol(d))
      modifies this`pos, this`givenHints, this`movesMade, this`totalTurns, this`previousPlayer, this`currentPlayer
      modifies gameState, hubi, WallsTouched(d)
      ensures Valid()
      ensures Advanced(old(WallAhead(board, pos.At(currentPlayer), d)), Step(old(pos.At(currentPlayer)), d), draw, won, ghostMoved)
    {
      var at := pos.At(currentPlayer);
      var next := Step(at, d);
      var wall := board.GetWallBetween(at.row, at.col, next.row, next.col).wall;
      won, ghostMoved := Advance(wall, next, draw);
    }

    /**
     * moveCurrentPlayer. A direction that is not a unit step changes nothing;
     * otherwise the wall ahead (always found) is the only wall that changes,
     * and the move is Advanced through it. `won` and `ghostMoved` record
     * what happened.
     */
    method MoveCurrentPlayer(d: Directions.Direction, draw: real) returns (ghost won: bool, ghost ghostMoved: bool)
      requires Valid() && players != {} && 0.0 <= draw < 1.0
      modifies this, gameState, hubi, WallsTouched(d)
      ensures Valid()
      ensures !Directions.IsUnitAxis(Directions.DRow(d), Directions.DCol(d)) ==>
        unchanged(this, gameState, hubi) && !won && !ghostMoved
      ensures Directions.IsUnitAxis(Directions.DRow(d), Directions.DCol(d)) ==>
        var a := old(pos.At(currentPlayer));
        var w := old(WallAhead(board, a, d));
        && Advanced(w, Step(a, d), draw, won, ghostMoved)
    {
      won, ghostMoved := false, false;
      if !Directions.IsUnitAxis(Directions.DRow(d), Directions.DCol(d)) {
        return;
      }
      won, ghostMoved := MoveThrough(d, draw);
    }
  }
}
