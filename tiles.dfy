/** Creature tiles (Tile.ts): plain records placed once on the board. */
module Tiles {
  datatype CreatureType = Owl | Millipede | Bat | Frog
  datatype CreatureColor = White | Black

  datatype Tile = Tile(row: int, col: int, creature: CreatureType, color: CreatureColor, flipped: bool)

  /** The enum strings of CreatureType. */
  function CreatureName(t: CreatureType): string {
    match t
    case Owl => "owl"
    case Millipede => "millipede"
    case Bat => "bat"
    case Frog => "frog"
  }

  /** The enum strings of CreatureColor. */
  function ColorName(c: CreatureColor): string {
    match c
    case White => "white"
    case Black => "black"
  }

  /** Distinct creature types have distinct names. */
  lemma CreatureNameInjective(a: CreatureType, b: CreatureType)
    ensures CreatureName(a) == CreatureName(b) <==> a == b
  {
    if a != b {
      assert CreatureName(a)[0] != CreatureName(b)[0];
    }
  }
}
