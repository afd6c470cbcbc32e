/**
 * Compass directions (Direction.ts and Direction.js).
 *
 * Direction is a class with four static instances and a public constructor;
 * an instance built with any other value answers dRow() == dCol() == 0. That
 * instance is `Other(value)` here.
 */
module Directions {
  import opened Wrappers

  datatype Direction = North | East | South | West | Other(value: string)

  /** Row delta of a direction. */
  function DRow(d: Direction): (r: int)
    ensures -1 <= r <= 1
    ensures r == -1 <==> d == North
    ensures r == 1 <==> d == South
  {
    match d
    case North => -1
    case South => 1
    case _ => 0
  }

  /** Column delta of a direction. */
  function DCol(d: Direction): (r: int)
    ensures -1 <= r <= 1
    ensures r == 1 <==> d == East
    ensures r == -1 <==> d == West
  {
    match d
    case East => 1
    case West => -1
    case _ => 0
  }

  function Abs(x: int): nat {
    if x < 0 then -x else x
  }

  function Sign(x: int): int {
    if x < 0 then -1 else if x > 0 then 1 else 0
  }

  /** The guard of moveCurrentPlayer: exactly one component of magnitude 1. */
  predicate IsUnitAxis(dRow: int, dCol: int) {
    (Abs(dRow) == 1 && Abs(dCol) == 0) || (Abs(dRow) == 0 && Abs(dCol) == 1)
  }

  predicate IsCardinal(d: Direction) {
    !d.Other?
  }

  /**
   * Direction.getDirection (TypeScript): None stands for the thrown error on a
   * zero delta and on a delta with both components non-zero.
   */
  function GetDirection(dRow: int, dCol: int): (r: Option<Direction>)
    ensures r.Some? <==> (dRow == 0) != (dCol == 0)
    ensures r.Some? ==>
      IsCardinal(r.value) && DRow(r.value) == Sign(dRow) && DCol(r.value) == Sign(dCol)
  {
    if dRow == 0 && dCol == 0 then None
    else if dRow == 0 then Some(if dCol < 0 then West else East)
    else if dCol == 0 then Some(if dRow < 0 then North else South)
    else None
  }

  /** What Direction.getDirection returns in the JavaScript revision. */
  datatype JsDirection = Null | Undefined | Dir(dir: Direction)

  /**
   * Direction.getDirection (JavaScript): null for (0, 0), and undefined when
   * both components are non-zero (the body falls off its end).
   */
  function GetDirectionJs(dRow: int, dCol: int): (r: JsDirection)
    ensures r == Null <==> dRow == 0 && dCol == 0
    ensures r == Undefined <==> dRow != 0 && dCol != 0
    ensures r.Dir? ==> GetDirection(dRow, dCol) == Some(r.dir)
  {
    if dRow == 0 && dCol == 0 then Null
    else if dRow == 0 then Dir(if dCol < 0 then West else East)
    else if dCol == 0 then Dir(if dRow < 0 then North else South)
    else Undefined
  }

  /** The four named directions are unit vectors; any other instance is the zero vector. */
  lemma UnitVectors(d: Direction)
    ensures IsCardinal(d) <==> IsUnitAxis(DRow(d), DCol(d))
    ensures d.Other? ==> DRow(d) == 0 && DCol(d) == 0
    ensures d == North ==> (DRow(d), DCol(d)) == (-1, 0)
    ensures d == South ==> (DRow(d), DCol(d)) == (1, 0)
    ensures d == East ==> (DRow(d), DCol(d)) == (0, 1)
    ensures d == West ==> (DRow(d), DCol(d)) == (0, -1)
  {
  }

  /** getDirection inverts (dRow, dCol) on the four named directions, in both revisions. */
  lemma DirectionRoundTrip(d: Direction)
    requires IsCardinal(d)
    ensures GetDirection(DRow(d), DCol(d)) == Some(d)
    ensures GetDirectionJs(DRow(d), DCol(d)) == Dir(d)
  {
  }

  /** getDirection only looks at the sign of the non-zero component. */
  lemma GetDirectionSignOnly(dRow: int, dCol: int)
    ensures GetDirection(dRow, dCol) == GetDirection(Sign(dRow), Sign(dCol))
    ensures GetDirectionJs(dRow, dCol) == GetDirectionJs(Sign(dRow), Sign(dCol))
  {
  }
}
