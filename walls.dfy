/**
 * Walls between tiles (Wall.ts, Wall.js): a six-state type cycle and the
 * isOpen / isRevealed flags. Position, orientation and the external flag are
 * fixed at construction.
 */
module Walls {
  datatype WallType = NoWall | MouseHole | RabbitWindow | PlainWall | FreePassage | MagicDoor
  datatype WallOrientation = Horizontal | Vertical

  /** The mutable part of a wall. */
  datatype WallState = WallState(kind: WallType, isOpen: bool, isRevealed: bool)

  /** The successor of a type in cycleState's order. */
  function NextType(t: WallType): WallType {
    match t
    case NoWall => MouseHole
    case MouseHole => RabbitWindow
    case RabbitWindow => PlainWall
    case PlainWall => FreePassage
    case FreePassage => MagicDoor
    case MagicDoor => NoWall
  }

  /** cycleState as a function of the state and the external flag. */
  function Cycled(s: WallState, isExternal: bool): WallState {
    if isExternal then s
    else if s.kind == MagicDoor then s.(kind := NoWall, isOpen := false)
    else s.(kind := NextType(s.kind))
  }

  /** toggleOpen as a function of the state and the external flag. */
  function Toggled(s: WallState, isExternal: bool): WallState {
    if isExternal || s.kind != MagicDoor then s else s.(isOpen := !s.isOpen)
  }

  /** n consecutive cycleState calls. */
  function CycledN(s: WallState, isExternal: bool, n: nat): WallState {
    if n == 0 then s else Cycled(CycledN(s, isExternal, n - 1), isExternal)
  }

  /** The type cycle has length exactly six. */
  lemma TypeCycleLength(t: WallType)
    ensures NextType(NextType(NextType(NextType(NextType(NextType(t)))))) == t
    ensures NextType(t) != t
    ensures NextType(NextType(t)) != t
    ensures NextType(NextType(NextType(t))) != t
    ensures NextType(NextType(NextType(NextType(t)))) != t
    ensures NextType(NextType(NextType(NextType(NextType(t))))) != t
  {
  }

  /**
   * One step of cycleState on an internal wall: the type advances, the
   * revealed flag is kept, and isOpen is cleared exactly when leaving
   * MAGIC_DOOR. On an external wall nothing changes.
   */
  lemma CycleStep(s: WallState, isExternal: bool)
    ensures isExternal ==> Cycled(s, isExternal) == s
    ensures !isExternal ==> Cycled(s, isExternal).kind == NextType(s.kind)
    ensures Cycled(s, isExternal).isRevealed == s.isRevealed
    ensures !isExternal ==>
      (Cycled(s, isExternal).isOpen <==> s.isOpen && s.kind != MagicDoor)
  {
  }

  /**
   * On an internal wall six cycleState calls restore the type and the revealed
   * flag and leave the door closed, so the cycle continues with period six.
   */
  lemma {:induction false} SixCycles(s: WallState, n: nat)
    ensures CycledN(s, false, 6) == s.(isOpen := false)
    ensures CycledN(s, false, n + 6) == CycledN(s, false, n).(isOpen := false)
  {
    assert CycledN(s, false, 6) == s.(isOpen := false) by {
      var s1 := Cycled(s, false);
      var s2 := Cycled(s1, false);
      var s3 := Cycled(s2, false);
      var s4 := Cycled(s3, false);
      var s5 := Cycled(s4, false);
      var s6 := Cycled(s5, false);
      assert CycledN(s, false, 1) == s1;
      assert CycledN(s, false, 2) == s2;
      assert CycledN(s, false, 3) == s3;
      assert CycledN(s, false, 4) == s4;
      assert CycledN(s, false, 5) == s5;
      assert CycledN(s, false, 6) == s6;
    }
    if n > 0 {
      SixCycles(s, n - 1);
      calc {
        CycledN(s, false, n + 6);
        Cycled(CycledN(s, false, n - 1 + 6), false);
        Cycled(CycledN(s, false, n - 1).(isOpen := false), false);
        { CycleClearCommutes(CycledN(s, false, n - 1)); }
        Cycled(CycledN(s, false, n - 1), false).(isOpen := false);
      }
    }
  }

  lemma CycleClearCommutes(s: WallState)
    ensures Cycled(s.(isOpen := false), false) == Cycled(s, false).(isOpen := false)
  {
  }

  /** toggleOpen is an involution; it only affects internal magic doors. */
  lemma ToggleInvolution(s: WallState, isExternal: bool)
    ensures Toggled(Toggled(s, isExternal), isExternal) == s
    ensures Toggled(s, isExternal) != s <==> !isExternal && s.kind == MagicDoor
    ensures Toggled(s, isExternal).kind == s.kind
    ensures Toggled(s, isExternal).isRevealed == s.isRevealed
  {
  }

  class Wall {
    const row: int
    const col: int
    const isExternal: bool
    const orientation: WallOrientation
    var kind: WallType
    var isOpen: bool
    var isRevealed: bool

    function State(): WallState
      reads this
    {
      WallState(kind, isOpen, isRevealed)
    }

    /** A new wall: NO_WALL, closed, revealed exactly when external. */
    constructor(row: int, col: int, isExternal: bool, orientation: WallOrientation)
      ensures this.row == row && this.col == col
      ensures this.isExternal == isExternal && this.orientation == orientation
      ensures State() == WallState(NoWall, false, isExternal)
    {
      this.row := row;
      this.col := col;
      this.isExternal := isExternal;
      this.orientation := orientation;
      kind := NoWall;
      isOpen := false;
      isRevealed := isExternal;
    }

    method CycleState()
      modifies this
      ensures State() == Cycled(old(State()), isExternal)
    {
      if isExternal {
        return;
      }
      match kind
      case NoWall => kind := MouseHole;
      case MouseHole => kind := RabbitWindow;
      case RabbitWindow => kind := PlainWall;
      case PlainWall => kind := FreePassage;
      case FreePassage => kind := MagicDoor;
      case MagicDoor =>
        kind := NoWall;
        isOpen := false;
    }

    method ToggleOpen()
      modifies this
      ensures State() == Toggled(old(State()), isExternal)
    {
      if isExternal {
        return;
      }
      if kind == MagicDoor {
        isOpen := !isOpen;
      }
    }

    /** open: sets isOpen whatever the type; calling it again changes nothing. */
    method Open()
      modifies this`isOpen
      ensures isOpen
    {
      isOpen := true;
    }

    /** reveal: sets isRevealed; calling it again changes nothing. */
    method Reveal()
      modifies this`isRevealed
      ensures isRevealed
    {
      isRevealed := true;
    }
  }
}
