/**
 * The phase machine of a game (GameState.js; the TypeScript game calls a
 * GameState with the same methods). The game's data it consults (registered
 * players and their positions, the board, the ghost) are passed to each
 * method instead of being reached through a back-reference to the game.
 */
module GameStates {
  import opened Grid
  import opened Players
  import opened Walls
  import opened Boards
  import opened Ghosts

  datatype Phase = NoState | SelectingPlayers | SelectingFirstPlayer | PlayingBeforeDoor | PlayingWithHubi | Won

  /** The position of a phase along NO_STATE, SELECTING_PLAYERS, ..., WON. */
  function Rank(s: Phase): nat {
    match s
    case NoState => 0
    case SelectingPlayers => 1
    case SelectingFirstPlayer => 2
    case PlayingBeforeDoor => 3
    case PlayingWithHubi => 4
    case Won => 5
  }

  predicate Playing(s: Phase) {
    s == PlayingBeforeDoor || s == PlayingWithHubi
  }

  predicate HubiAwake(s: Phase) {
    s == PlayingWithHubi
  }

  predicate Over(s: Phase) {
    s == Won
  }

  /** Phases are ordered: Rank is one-to-one, and WON is the last phase and the only one that is over. */
  lemma PhaseOrder(s: Phase, t: Phase)
    ensures Rank(s) == Rank(t) ==> s == t
    ensures Over(s) <==> Rank(s) == 5
    ensures Over(s) ==> !Playing(s) && !HubiAwake(s)
    ensures HubiAwake(s) ==> Playing(s)
  {
  }

  /** _validatePlayers: at least one rabbit and at least one mouse are registered. */
  predicate BothSpecies(players: set<PlayerId>) {
    (exists p :: p in players && Type(p) == Rabbit) && (exists p :: p in players && Type(p) == Mouse)
  }

  /** The two tiles of a door, as getTilesOnBothSides orders them. */
  function DoorSides(door: Wall): (Cell, Cell)
    requires SeparatesTiles(door)
  {
    if door.orientation == Horizontal then (Cell(door.row - 1, door.col), Cell(door.row, door.col))
    else (Cell(door.row, door.col - 1), Cell(door.row, door.col))
  }

  /** tryOpenDoor's condition: a player stands on each side of the door. */
  predicate Flanked(door: Wall, players: set<PlayerId>, pos: Positions)
    requires SeparatesTiles(door)
  {
    PlayersAt(players, pos, DoorSides(door).0) != {} && PlayersAt(players, pos, DoorSides(door).1) != {}
  }

  class GameState {
    var currentState: Phase

    constructor ()
      ensures currentState == NoState
    {
      currentState := NoState;
    }

    /** init: back to player selection, from any phase. */
    method Init()
      modifies this
      ensures currentState == SelectingPlayers
    {
      currentState := SelectingPlayers;
    }

    /** selectFirstPlayer: leaves player selection once both species are present. */
    method SelectFirstPlayer(players: set<PlayerId>) returns (ok: bool)
      modifies this
      ensures ok <==> old(currentState) == SelectingPlayers && BothSpecies(players)
      ensures currentState == (if ok then SelectingFirstPlayer else old(currentState))
      ensures Rank(old(currentState)) <= Rank(currentState)
    {
      if currentState == SelectingPlayers && BothSpecies(players) {
        currentState := SelectingFirstPlayer;
        return true;
      }
      return false;
    }

    /** startGame: starts play once a first player is chosen (`hasFirstPlayer`: currentPlayer is not null). */
    method StartGame(hasFirstPlayer: bool) returns (ok: bool)
      modifies this
      ensures ok <==> old(currentState) == SelectingFirstPlayer && hasFirstPlayer
      ensures currentState == (if ok then PlayingBeforeDoor else old(currentState))
      ensures Rank(old(currentState)) <= Rank(currentState)
    {
      if currentState == SelectingFirstPlayer && hasFirstPlayer {
        currentState := PlayingBeforeDoor;
        return true;
      }
      return false;
    }

    /**
     * tryOpenDoor: the door opens exactly when both of its tiles hold a
     * player; the first such opening (Hubi not yet awake) wakes Hubi and
     * spawns the ghost, later ones leave the phase and the ghost alone.
     * As written, a successful opening in WON also counts as "Hubi not
     * awake" and moves the phase back to PLAYING_WITH_HUBI; no other method
     * but init moves the phase backward.
     */
    method TryOpenDoor(board: Board, door: Wall, players: set<PlayerId>, pos: Positions, hubi: Ghost)
      returns (success: bool)
      requires board.Valid() && SeparatesTiles(door) && hubi.Valid()
      modifies this, door`isOpen, hubi
      ensures success <==> Flanked(door, players, pos)
      ensures door.isOpen == (old(door.isOpen) || success)
      ensures currentState == (if success && !HubiAwake(old(currentState)) then PlayingWithHubi else old(currentState))
      ensures old(currentState) != Won ==> Rank(old(currentState)) <= Rank(currentState)
      ensures old(currentState) == Won && success ==> currentState == PlayingWithHubi
      ensures hubi.Valid()
      ensures success && !HubiAwake(old(currentState)) ==> hubi.Spawned(Occupied(players, pos))
      ensures !(success && !HubiAwake(old(currentState))) ==> unchanged(hubi)
    {
      var tiles := board.GetTilesOnBothSides(door);
      if PlayersAt(players, pos, Cell(tiles.0.row, tiles.0.col)) != {}
        && PlayersAt(players, pos, Cell(tiles.1.row, tiles.1.col)) != {}
      {
        door.Open();
        if !IsHubiAwake() {
          currentState := PlayingWithHubi;
          hubi.Spawn(Occupied(players, pos));
        }
        return true;
      }
      return false;
    }

    /** checkWinCondition: with Hubi awake, two players on the ghost's tile win the game. */
    method CheckWinCondition(players: set<PlayerId>, pos: Positions, hubi: Ghost) returns (won: bool)
      modifies this
      ensures won <==> old(currentState) == PlayingWithHubi && |PlayersAt(players, pos, hubi.Position())| >= 2
      ensures currentState == (if won then Won else old(currentState))
      ensures Rank(old(currentState)) <= Rank(currentState)
    {
      if currentState == PlayingWithHubi {
        if |PlayersAt(players, pos, hubi.Position())| >= 2 {
          currentState := Won;
          return true;
        }
      }
      return false;
    }

    predicate Is(s: Phase)
      reads this
    {
      currentState == s
    }

    predicate IsPlaying()
      reads this
    {
      Playing(currentState)
    }

    predicate IsHubiAwake()
      reads this
    {
      HubiAwake(currentState)
    }

    predicate IsOver()
      reads this
    {
      Over(currentState)
    }
  }
}
