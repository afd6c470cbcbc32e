/**
 * The four player identities (Player.ts). Players are fixed singletons; their
 * mutable row/col is held by the game (see Games.Game.pos), which starts it at
 * StartCell.
 */
module Players {
  import opened Grid

  datatype PlayerColor = Blue | Green | Yellow | Red
  datatype PlayerType = Rabbit | Mouse
  datatype PlayerId = BlueRabbit | GreenRabbit | YellowMouse | RedMouse

  const AllPlayers: set<PlayerId> := {BlueRabbit, GreenRabbit, YellowMouse, RedMouse}

  function Color(p: PlayerId): PlayerColor {
    match p
    case BlueRabbit => Blue
    case GreenRabbit => Green
    case YellowMouse => Yellow
    case RedMouse => Red
  }

  function Type(p: PlayerId): PlayerType {
    match p
    case BlueRabbit => Rabbit
    case GreenRabbit => Rabbit
    case YellowMouse => Mouse
    case RedMouse => Mouse
  }

  /** The enum strings of PlayerColor. */
  function ColorName(c: PlayerColor): string {
    match c
    case Blue => "blue"
    case Green => "green"
    case Yellow => "yellow"
    case Red => "red"
  }

  /** The enum strings of PlayerType. */
  function TypeName(t: PlayerType): string {
    match t
    case Rabbit => "rabbit"
    case Mouse => "mouse"
  }

  /** The `name` field: `${color}_${type}`. */
  function Name(p: PlayerId): string {
    ColorName(Color(p)) + "_" + TypeName(Type(p))
  }

  /** setInitialPosition: the starting corner chosen by colour. */
  function StartCell(p: PlayerId): Cell {
    match Color(p)
    case Green => Cell(0, 0)
    case Red => Cell(0, 3)
    case Blue => Cell(3, 0)
    case Yellow => Cell(3, 3)
  }

  /** The identities are exactly the four colour/species pairs the source declares. */
  lemma Identities(p: PlayerId)
    ensures p in AllPlayers
    ensures Type(p) == Rabbit <==> Color(p) in {Blue, Green}
    ensures Type(p) == Mouse <==> Color(p) in {Yellow, Red}
    ensures forall q :: Color(q) == Color(p) ==> q == p
  {
  }

  /**
   * Starting corners are distinct grid cells; rabbits start on nodes 0 and 12,
   * mice on nodes 3 and 15, which is what the wall generator separates.
   */
  lemma StartCellsInGrid(p: PlayerId)
    ensures InGrid(StartCell(p))
  {
  }

  /** Rabbits start in the left column (nodes 0 and 12), mice in the right one (nodes 3 and 15). */
  lemma StartColumns(p: PlayerId)
    ensures Type(p) == Rabbit <==> StartCell(p).col == 0
    ensures Type(p) == Mouse <==> StartCell(p).col == 3
    ensures StartCell(p).row == 0 || StartCell(p).row == 3
  {
  }

  lemma StartCellsDistinct(p: PlayerId, q: PlayerId)
    ensures StartCell(p) == StartCell(q) <==> p == q
  {
  }

  /** Names identify players: the name round-trips to its identity. */
  lemma NameInjective(p: PlayerId, q: PlayerId)
    ensures Name(p) == Name(q) <==> p == q
  {
    if p != q {
      assert Name(p)[0] != Name(q)[0];
    }
  }

  /** String.prototype.toUpperCase on one character, ASCII letters only. */
  function ToUpper(ch: char): char {
    if 'a' <= ch <= 'z' then (ch as int - 32) as char else ch
  }

  /** capitalize: upper-cases the first character and keeps the rest. */
  function Capitalize(s: string): (r: string)
    ensures |r| == |s|
    ensures |s| > 0 ==> r[0] == ToUpper(s[0]) && r[1..] == s[1..]
    ensures s == [] ==> r == []
  {
    if s == [] then "" else [ToUpper(s[0])] + s[1..]
  }

  lemma CapitalizeIdempotent(s: string)
    ensures Capitalize(Capitalize(s)) == Capitalize(s)
  {
  }

  /** Where each of the four player singletons stands (their row and col fields). */
  datatype Positions = Positions(blue: Cell, green: Cell, yellow: Cell, red: Cell)
  {
    function At(p: PlayerId): Cell {
      match p
      case BlueRabbit => blue
      case GreenRabbit => green
      case YellowMouse => yellow
      case RedMouse => red
    }

    /** The positions after player p moves to c. */
    function Moved(p: PlayerId, c: Cell): (q: Positions)
      ensures q.At(p) == c
      ensures forall o :: o != p ==> q.At(o) == At(o)
    {
      match p
      case BlueRabbit => this.(blue := c)
      case GreenRabbit => this.(green := c)
      case YellowMouse => this.(yellow := c)
      case RedMouse => this.(red := c)
    }
  }

  /** setInitialPosition for every player. */
  const StartPositions: Positions :=
    Positions(StartCell(BlueRabbit), StartCell(GreenRabbit), StartCell(YellowMouse), StartCell(RedMouse))

  /** getPlayersAt: the registered players standing on c. */
  function PlayersAt(players: set<PlayerId>, pos: Positions, c: Cell): set<PlayerId> {
    set p | p in players && pos.At(p) == c
  }

  /** The cells on which getPlayersAt returns a non-empty list. */
  function Occupied(players: set<PlayerId>, pos: Positions): (occ: set<Cell>)
    ensures forall c :: c in occ <==> PlayersAt(players, pos, c) != {}
  {
    var occ := set p | p in players :: pos.At(p);
    forall c | c in occ
      ensures PlayersAt(players, pos, c) != {}
    {
      var p :| p in players && pos.At(p) == c;
      assert p in PlayersAt(players, pos, c);
    }
    occ
  }

  /** At most as many cells are occupied as there are players. */
  lemma {:induction false} OccupiedSize(players: set<PlayerId>, pos: Positions)
    ensures |Occupied(players, pos)| <= |players|
  {
    if players != {} {
      var p :| p in players;
      var rest := players - {p};
      OccupiedSize(rest, pos);
      assert Occupied(players, pos) <= Occupied(rest, pos) + {pos.At(p)} by {
        forall c | c in Occupied(players, pos)
          ensures c in Occupied(rest, pos) + {pos.At(p)}
        {
          var q :| q in PlayersAt(players, pos, c);
          if q != p {
            assert q in PlayersAt(rest, pos, c);
          }
        }
      }
      SubsetSize(Occupied(players, pos), Occupied(rest, pos) + {pos.At(p)});
    }
  }

  lemma SubsetSize<T>(a: set<T>, b: set<T>)
    requires a <= b
    ensures |a| <= |b|
  {
    assert b == a + (b - a);
  }

  /** There are four players, so at most four are registered. */
  lemma PlayerCount(players: set<PlayerId>)
    ensures |AllPlayers| == 4
    ensures |players| <= 4
  {
    forall p | p in players
      ensures p in AllPlayers
    {
      Identities(p);
    }
    SubsetSize(players, AllPlayers);
  }
}
