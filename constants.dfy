/**
 * Difficulty levels and the per-difficulty constants of the game logic.
 * Ghost probabilities are integer percentages (the source uses floats 0.1, 0.05, ...).
 */
module Constants {
  datatype Difficulty = Easy | Medium | Hard

  /** Retry cap of the wall generator. */
  const MaxAttempts: nat := 10000

  /** Number of magic doors the generator places (WallGenerator.ts: 1, raised for MEDIUM and HARD). */
  function MagicDoorCount(d: Difficulty): (k: nat)
    ensures 1 <= k <= 3
    ensures d == Easy <==> k == 1
    ensures d == Hard <==> k == 3
  {
    match d
    case Easy => 1
    case Medium => 2
    case Hard => 3
  }

  /** GHOST_START_PROBABILITY, in percent: a harder game starts the ghost more mobile. */
  function GhostStartPercent(d: Difficulty): (p: nat)
    ensures 10 <= p <= 20
    ensures d == Easy <==> p == 10
    ensures d == Medium <==> p == 15
    ensures d == Hard <==> p == 20
  {
    match d
    case Easy => 10
    case Medium => 15
    case Hard => 20
  }

  /** GHOST_PROBABILITY_INCREMENT, in percent; the table has the same 0.05 for every difficulty, so `d` is unused. */
  function GhostIncrementPercent(d: Difficulty): (p: nat)
    ensures p == 5
  {
    5
  }

  /**
   * The older revision's GHOST_START_PROBABILITY and GHOST_PROBABILITY_INCREMENT,
   * in percent: single scalars, not per-difficulty tables.
   */
  const LegacyGhostStartPercent: nat := 10
  const LegacyGhostIncrementPercent: nat := 5

  /** The certain-move probability (1.0 in the source). */
  const FullPercent: nat := 100
}
