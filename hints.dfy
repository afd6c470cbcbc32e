/**
 * Door and ghost hints (DoorHint.ts/.js, GhostHint.ts/.js). A hint names the
 * creature(s) involved: on EASY as "color_type", otherwise as "type" only.
 */
module Hints {
  import opened Constants
  import opened Tiles

  datatype Hint =
    | DoorHint(creature1: Tile, creature2: Tile, difficulty: Difficulty)
    | GhostHint(ghostCreature: Tile, difficulty: Difficulty)

  /** _getFull…: `${color}_${type}`. */
  function FullName(t: Tile): string {
    ColorName(t.color) + "_" + CreatureName(t.creature)
  }

  /** _getPartial…: `${type}`. */
  function PartialName(t: Tile): string {
    CreatureName(t.creature)
  }

  /** The difficulty switch shared by every hint getter. */
  function CreatureHint(t: Tile, d: Difficulty): string {
    if d == Easy then FullName(t) else PartialName(t)
  }

  /** getCreature1Hint. */
  function Creature1Hint(h: Hint): string
    requires h.DoorHint?
  {
    CreatureHint(h.creature1, h.difficulty)
  }

  /** getCreature2Hint. */
  function Creature2Hint(h: Hint): string
    requires h.DoorHint?
  {
    CreatureHint(h.creature2, h.difficulty)
  }

  /** getGhostCreatureHint. */
  function GhostCreatureHint(h: Hint): string
    requires h.GhostHint?
  {
    CreatureHint(h.ghostCreature, h.difficulty)
  }

  /** On EASY every hint names colour and type; otherwise it names the type only. */
  lemma HintLevels(a: Tile, b: Tile, d: Difficulty)
    ensures d == Easy ==>
      Creature1Hint(DoorHint(a, b, d)) == ColorName(a.color) + "_" + CreatureName(a.creature)
      && Creature2Hint(DoorHint(a, b, d)) == ColorName(b.color) + "_" + CreatureName(b.creature)
      && GhostCreatureHint(GhostHint(a, d)) == ColorName(a.color) + "_" + CreatureName(a.creature)
    ensures d != Easy ==>
      Creature1Hint(DoorHint(a, b, d)) == CreatureName(a.creature)
      && Creature2Hint(DoorHint(a, b, d)) == CreatureName(b.creature)
      && GhostCreatureHint(GhostHint(a, d)) == CreatureName(a.creature)
  {
  }

  /** The partial name is a proper suffix of the full name. */
  lemma PartialIsSuffix(t: Tile)
    ensures |PartialName(t)| < |FullName(t)|
    ensures FullName(t)[|FullName(t)| - |PartialName(t)|..] == PartialName(t)
  {
  }

  /**
   * Each door hint reads only its own creature, and below EASY a hint does
   * not depend on the creature's colour (or position or orientation).
   */
  lemma HintIndependence(a: Tile, b: Tile, a': Tile, b': Tile, d: Difficulty)
    ensures Creature1Hint(DoorHint(a, b, d)) == Creature1Hint(DoorHint(a, b', d))
    ensures Creature2Hint(DoorHint(a, b, d)) == Creature2Hint(DoorHint(a', b, d))
    ensures d != Easy && a.creature == a'.creature ==>
      Creature1Hint(DoorHint(a, b, d)) == Creature1Hint(DoorHint(a', b, d))
      && GhostCreatureHint(GhostHint(a, d)) == GhostCreatureHint(GhostHint(a', d))
  {
  }

  /**
   * A full name identifies the creature and its colour exactly, and a partial
   * name identifies exactly the creature type.
   */
  lemma NamesIdentify(t: Tile, u: Tile)
    ensures FullName(t) == FullName(u) <==> t.creature == u.creature && t.color == u.color
    ensures PartialName(t) == PartialName(u) <==> t.creature == u.creature
  {
    CreatureNameInjective(t.creature, u.creature);
    if FullName(t) == FullName(u) {
      assert FullName(t)[0] == FullName(u)[0];
      assert t.color == u.color;
      var n := |ColorName(t.color)| + 1;
      assert FullName(t)[n..] == CreatureName(t.creature);
      assert FullName(u)[n..] == CreatureName(u.creature);
    }
  }
}
