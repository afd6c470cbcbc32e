/**
 * The board side of the wall generator (WallGenerator.ts, WallGenerator.js):
 * resetting the internal walls, writing an accepted plan into the board's
 * wall objects and magic-door list, and generate's retry loop. Planning one
 * attempt on values is module WallPlans.
 *
 * A wall's planned type is looked up through the edge it stands on:
 * EdgeOfWall names that edge from the wall's upper / left tile, the way
 * getAllInternalEdges writes edges.
 */
module WallGenerator {
  import opened Wrappers
  import opened Grid
  import opened Constants
  import opened Walls
  import opened Boards
  import opened Graphs
  import opened WallPlans

  /** applyTypeToWall's mapping from a plan letter to a wall type. */
  function KindType(x: Kind): (t: WallType)
    ensures t != NoWall
    ensures t == MagicDoor <==> x == D
  {
    match x
    case W => PlainWall
    case R => RabbitWindow
    case M => MouseHole
    case F => FreePassage
    case D => MagicDoor
  }

  /** The state applyTypeToWall leaves: the letter's type, and a magic door closed. */
  function Applied(s: WallState, x: Kind): WallState {
    s.(kind := KindType(x), isOpen := if x == D then false else s.isOpen)
  }

  /** resetWalls (TypeScript) on one wall: an internal wall becomes WALL, nothing else changes. */
  function Reset(s: WallState, isExternal: bool): WallState {
    if isExternal then s else s.(kind := PlainWall)
  }

  /** The edge a wall stands on, written from its upper / left tile. */
  function EdgeOfWall(w: Wall): Edge {
    if w.orientation == Horizontal then Edge(w.row - 1, w.col, w.row, w.col)
    else Edge(w.row, w.col - 1, w.row, w.col)
  }

  /** The state of wall w, previously in state s, once the assignment asg is applied. */
  function Target(asg: Assignment, w: Wall, s: WallState): WallState {
    match KindOf(asg, EdgeOfWall(w))
    case None => s
    case Some(x) => Applied(s, x)
  }

  /** ws are walls of the set walls standing on the edges es, in order. */
  predicate WallsFor(ws: seq<Wall>, es: seq<Edge>, walls: set<Wall>) {
    |ws| == |es| && forall j | 0 <= j < |ws| :: ws[j] in walls && EdgeOfWall(ws[j]) == es[j]
  }

  /**
   * Every wall of a valid board sits at its own array position; it stands on
   * an internal edge exactly when it has a tile on both sides, and such a
   * wall is never external.
   */
  lemma BoardWallFacts(b: Board, w: Wall)
    requires b.Valid() && w in b.AllWalls()
    ensures b.IsBoardWall(w) && Board.Placed(w, w.row, w.col, w.orientation)
    ensures SeparatesTiles(w) <==> IsInternalEdge(EdgeOfWall(w))
    ensures SeparatesTiles(w) ==> !w.isExternal
  {
    var r, c :| 0 <= r < 5 && 0 <= c < 5 && (b.horizontalWalls[r, c] == w || b.verticalWalls[r, c] == w);
    if b.horizontalWalls[r, c] == w {
      assert Board.Placed(w, r, c, Horizontal);
    } else {
      assert Board.Placed(w, r, c, Vertical);
    }
  }

  /** Two walls of a valid board standing on the same internal edge are the same object. */
  lemma EdgeDeterminesWall(b: Board, w: Wall, w': Wall)
    requires b.Valid() && w in b.AllWalls() && w' in b.AllWalls()
    requires IsInternalEdge(EdgeOfWall(w)) && EdgeOfWall(w) == EdgeOfWall(w')
    ensures w == w'
  {
    BoardWallFacts(b, w);
    BoardWallFacts(b, w');
  }

  /** In walls, a wall standing on an internal edge is the only one standing there. */
  predicate EdgesIdentify(walls: set<Wall>) {
    forall w, w' | w in walls && w' in walls && IsInternalEdge(EdgeOfWall(w)) && EdgeOfWall(w) == EdgeOfWall(w') :: w == w'
  }

  lemma BoardEdgesIdentify(b: Board)
    requires b.Valid()
    ensures EdgesIdentify(b.AllWalls())
  {
    forall w, w' | w in b.AllWalls() && w' in b.AllWalls() && IsInternalEdge(EdgeOfWall(w)) && EdgeOfWall(w) == EdgeOfWall(w')
      ensures w == w'
    {
      EdgeDeterminesWall(b, w, w');
    }
  }

  /**
   * getWallBetween on the two tiles of an internal edge finds the board wall
   * standing on that edge; it is internal and has a tile on each side.
   */
  lemma LookupFindsEdgeWall(b: Board, e: Edge)
    requires b.Valid() && IsInternalEdge(e)
    ensures b.GetWallBetween(e.r1, e.c1, e.r2, e.c2).Found?
    ensures var w := b.GetWallBetween(e.r1, e.c1, e.r2, e.c2).wall;
      w in b.AllWalls() && EdgeOfWall(w) == e && !w.isExternal && SeparatesTiles(w)
  {
    b.AdjacentRoundTrip(Cell(e.r1, e.c1), Cell(e.r2, e.c2));
    var w := b.GetWallBetween(e.r1, e.c1, e.r2, e.c2).wall;
    if w.orientation == Horizontal {
      assert b.horizontalWalls[w.row, w.col] == w;
    } else {
      assert b.verticalWalls[w.row, w.col] == w;
    }
  }

  /** applyTypeToWall. */
  method ApplyTypeToWall(w: Wall, x: Kind)
    modifies w
    ensures w.State() == Applied(old(w.State()), x)
  {
    match x
    case W => w.kind := PlainWall;
    case R => w.kind := RabbitWindow;
    case M => w.kind := MouseHole;
    case F => w.kind := FreePassage;
    case D =>
      w.kind := MagicDoor;
      w.isOpen := false;
  }

  /** The body of resetWalls' loops: an internal wall becomes WALL, an external one is left alone. */
  method ResetOne(w: Wall)
    modifies w`kind
    ensures w.State() == Reset(old(w.State()), w.isExternal)
  {
    if !w.isExternal {
      w.kind := PlainWall;
    }
  }

  /** The inner loop of resetWalls (TypeScript): the walls of row r of one array. */
  method ResetRow(b: Board, o: WallOrientation, r: int)
    requires b.Valid() && 0 <= r < 5
    modifies b.AllWalls()
    ensures forall w | w in b.AllWalls() ::
      w.State() == if w.orientation == o && w.row == r then Reset(old(w.State()), w.isExternal) else old(w.State())
  {
    var a := if o == Horizontal then b.horizontalWalls else b.verticalWalls;
    for c := 0 to 5
      invariant forall w | w in b.AllWalls() ::
        w.State() == if w.orientation == o && w.row == r && w.col < c then Reset(old(w.State()), w.isExternal) else old(w.State())
    {
      var wall := a[r, c];
      assert Board.Placed(wall, r, c, o);
      assert wall in b.AllWalls();
      ResetOne(wall);
    }
    forall w | w in b.AllWalls()
      ensures w.orientation == o && w.row == r ==> w.col < 5
    {
      BoardWallFacts(b, w);
    }
  }

  /** One of resetWalls' two nested loops (TypeScript): the walls of one array. */
  method ResetArray(b: Board, o: WallOrientation)
    requires b.Valid()
    modifies b.AllWalls()
    ensures forall w | w in b.AllWalls() ::
      w.State() == if w.orientation == o then Reset(old(w.State()), w.isExternal) else old(w.State())
  {
    for r := 0 to 5
      invariant forall w | w in b.AllWalls() ::
        w.State() == if w.orientation == o && w.row < r then Reset(old(w.State()), w.isExternal) else old(w.State())
    {
      ResetRow(b, o, r);
    }
    forall w | w in b.AllWalls()
      ensures w.orientation == o ==> w.row < 5
    {
      BoardWallFacts(b, w);
    }
  }

  /**
   * resetWalls (TypeScript): every internal wall becomes WALL; external walls,
   * and every open / revealed flag, are left alone.
   */
  method ResetWalls(b: Board)
    requires b.Valid()
    modifies b.AllWalls()
    ensures b.Valid() && b.AllWalls() == old(b.AllWalls())
    ensures forall w | w in b.AllWalls() :: w.State() == Reset(old(w.State()), w.isExternal)
  {
    ResetArray(b, Horizontal);
    ResetArray(b, Vertical);
  }

  /**
   * generate's "Apply" loop: each assigned edge's wall gets its type, and
   * the walls that end up MAGIC_DOOR are appended to magicDoors in
   * assignment order. Walls on unassigned edges are left alone.
   */
  method Apply(b: Board, asg: Assignment)
    requires b.Valid() && Distinct(Keys(asg))
    requires forall e | e in Keys(asg) :: IsInternalEdge(e)
    modifies b`magicDoors, b.AllWalls()
    ensures b.Valid() && b.AllWalls() == old(b.AllWalls())
    ensures |old(b.magicDoors)| <= |b.magicDoors| && b.magicDoors[..|old(b.magicDoors)|] == old(b.magicDoors)
    ensures WallsFor(b.magicDoors[|old(b.magicDoors)|..], Doors(asg), b.AllWalls())
    ensures forall w | w in b.AllWalls() :: w.State() == Target(asg, w, old(w.State()))
  {
    ghost var before := b.magicDoors;
    ghost var added: seq<Wall> := [];
    ghost var walls := b.AllWalls();
    ghost var olds := map w | w in walls :: w.State();
    BoardEdgesIdentify(b);
    for i := 0 to |asg|
      invariant b.Valid() && b.AllWalls() == walls
      invariant b.magicDoors == before + added
      invariant WallsFor(added, Doors(asg[..i]), walls)
      invariant Reached(walls, asg[..i], olds)
    {
      var wall := ApplyNext(b, asg, i, walls, olds);
      if asg[i].1 == D {
        WallsForAppend(added, Doors(asg[..i]), walls, wall, asg[i].0);
        AppendAfter(before, added, wall);
        added := added + [wall];
      }
    }
    assert asg[..|asg|] == asg;
    assert b.magicDoors[|before|..] == added;
  }

  /** One pass of the "Apply" loop, and the progress it makes towards every wall's Target state. */
  method ApplyNext(b: Board, asg: Assignment, i: nat, ghost walls: set<Wall>, ghost olds: map<Wall, WallState>)
    returns (wall: Wall)
    requires b.Valid() && b.AllWalls() == walls && EdgesIdentify(walls) && Distinct(Keys(asg)) && i < |asg|
    requires forall e | e in Keys(asg) :: IsInternalEdge(e)
    requires Reached(walls, asg[..i], olds)
    modifies b`magicDoors, b.AllWalls()
    ensures b.Valid() && b.AllWalls() == walls
    ensures Reached(walls, asg[..i + 1], olds)
    ensures wall in walls && EdgeOfWall(wall) == asg[i].0
    ensures Doors(asg[..i + 1]) == Doors(asg[..i]) + if asg[i].1 == D then [asg[i].0] else []
    ensures b.magicDoors == old(b.magicDoors) + if asg[i].1 == D then [wall] else []
  {
    var e, x := asg[i].0, asg[i].1;
    assert Keys(asg)[i] == e;
    wall := ApplyPair(b, e, x);
    ApplyStep(walls, asg, i, wall, olds);
  }

  /**
   * One pass of the "Apply" loop: look up the wall of edge e, apply the
   * letter x to it, and append it to magicDoors when it became MAGIC_DOOR.
   */
  method ApplyPair(b: Board, e: Edge, x: Kind) returns (wall: Wall)
    requires b.Valid() && IsInternalEdge(e)
    modifies b`magicDoors, b.AllWalls()
    ensures b.Valid() && b.AllWalls() == old(b.AllWalls())
    ensures wall in b.AllWalls() && EdgeOfWall(wall) == e
    ensures wall.State() == Applied(old(wall.State()), x)
    ensures forall w | w in b.AllWalls() && w != wall :: w.State() == old(w.State())
    ensures b.magicDoors == old(b.magicDoors) + if x == D then [wall] else []
  {
    LookupFindsEdgeWall(b, e);
    wall := b.GetWallBetween(e.r1, e.c1, e.r2, e.c2).wall;
    ApplyTypeToWall(wall, x);
    if wall.kind == MagicDoor {
      b.magicDoors := b.magicDoors + [wall];
    }
  }

  lemma AppendAfter(before: seq<Wall>, added: seq<Wall>, w: Wall)
    ensures before + added + [w] == before + (added + [w])
  {
  }

  lemma WallsForAppend(ws: seq<Wall>, es: seq<Edge>, walls: set<Wall>, w: Wall, e: Edge)
    requires WallsFor(ws, es, walls) && w in walls && EdgeOfWall(w) == e
    ensures WallsFor(ws + [w], es + [e], walls)
  {
  }

  /** Every wall of walls is in the state that applying asg over its state in olds gives. */
  ghost predicate Reached(walls: set<Wall>, asg: Assignment, olds: map<Wall, WallState>)
    reads walls
  {
    forall w | w in walls :: w in olds && w.State() == Target(asg, w, olds[w])
  }

  /** How one pass of Apply's loop moves the wall states and the door list forward. */
  lemma ApplyStep(walls: set<Wall>, asg: Assignment, i: nat, wall: Wall, olds: map<Wall, WallState>)
    requires EdgesIdentify(walls) && Distinct(Keys(asg)) && i < |asg|
    requires wall in walls && EdgeOfWall(wall) == asg[i].0 && IsInternalEdge(asg[i].0)
    requires forall w | w in walls :: w in olds
    requires forall w | w in walls && w != wall :: w.State() == Target(asg[..i], w, olds[w])
    requires wall.State() == Applied(Target(asg[..i], wall, olds[wall]), asg[i].1)
    ensures Reached(walls, asg[..i + 1], olds)
    ensures Doors(asg[..i + 1]) == Doors(asg[..i]) + if asg[i].1 == D then [asg[i].0] else []
  {
    var (e, x) := asg[i];
    assert asg[..i + 1] == asg[..i] + [(e, x)];
    Append(asg[..i], e, x);
    assert Keys(asg[..i]) == Keys(asg)[..i];
    assert Keys(asg)[i] == e;
    KindOfKeys(asg[..i]);
    assert KindOf(asg[..i], e) == None;

  }

  /** Every wall of walls standing on an assigned edge has its letter's type, and a door is closed. */
  ghost predicate Realizes(walls: set<Wall>, asg: Assignment)
    reads walls
  {
    forall w | w in walls && KindOf(asg, EdgeOfWall(w)).Some? ::
      w.kind == KindType(KindOf(asg, EdgeOfWall(w)).value) && (KindOf(asg, EdgeOfWall(w)) == Some(D) ==> !w.isOpen)
  }

  /** A complete assignment gives every internal edge a letter. */
  lemma CompleteAssignsAll(asg: Assignment, k: nat)
    requires Complete(asg, k)
    ensures forall e | IsInternalEdge(e) :: KindOf(asg, e).Some?
  {
    KindOfKeys(asg);
    forall e | IsInternalEdge(e)
      ensures KindOf(asg, e).Some?
    {
      assert e in Keys(asg);
      var i :| 0 <= i < |asg| && Keys(asg)[i] == e;
      assert asg[i].0 == e;
    }
  }

  /**
   * Once a complete assignment is realised on the walls, the walls standing
   * on its door edges are distinct closed MAGIC_DOORs with a tile on each
   * side, and they are the only internal walls of that type.
   */
  lemma DoorWalls(walls: set<Wall>, asg: Assignment, k: nat, ws: seq<Wall>)
    requires Complete(asg, k) && Realizes(walls, asg) && EdgesIdentify(walls)
    requires WallsFor(ws, Doors(asg), walls)
    ensures Distinct(ws)
    ensures forall w | w in ws :: w.kind == MagicDoor && !w.isOpen && IsInternalEdge(EdgeOfWall(w))
    ensures forall w | w in walls && IsInternalEdge(EdgeOfWall(w)) :: w.kind == MagicDoor <==> w in ws
  {
    DoorsAreDKeys(asg);
    DerivedEdgesAreKeys(asg);
    CompleteAssignsAll(asg, k);
    forall w | w in ws
      ensures w.kind == MagicDoor && !w.isOpen && IsInternalEdge(EdgeOfWall(w))
    {
      var j :| 0 <= j < |ws| && ws[j] == w;
      assert EdgeOfWall(w) == Doors(asg)[j];
    }
    forall w | w in walls && IsInternalEdge(EdgeOfWall(w)) && w.kind == MagicDoor
      ensures w in ws
    {
      assert EdgeOfWall(w) in Doors(asg);
      var j :| 0 <= j < |Doors(asg)| && Doors(asg)[j] == EdgeOfWall(w);
      assert EdgeOfWall(ws[j]) == EdgeOfWall(w);
    }
  }

  /**
   * ws, out of walls, are the walls of the assignment's door edges: as many
   * as k, distinct, each a closed MAGIC_DOOR between two tiles, and no other
   * wall between two tiles is a MAGIC_DOOR.
   */
  ghost predicate DoorWallsPlaced(ws: seq<Wall>, walls: set<Wall>, asg: Assignment, k: nat)
    reads walls
  {
    && WallsFor(ws, Doors(asg), walls)
    && |ws| == k && Distinct(ws)
    && (forall w | w in ws :: w.kind == MagicDoor && !w.isOpen && SeparatesTiles(w))
    && (forall w | w in walls && SeparatesTiles(w) :: w.kind == MagicDoor <==> w in ws)
  }

  /**
   * One pass of generate's retry loop (TypeScript): reset the internal
   * walls, plan an attempt with k doors, and on acceptance empty magicDoors
   * and apply the plan.
   */
  method GenerateOnce(b: Board, k: nat) returns (accepted: bool, ghost plan: Plan)
    requires b.Valid() && 1 <= k <= 3
    modifies b`magicDoors, b.AllWalls()
    ensures b.Valid() && b.AllWalls() == old(b.AllWalls())
    ensures accepted ==> Accepted(plan, k) && DoorWallsPlaced(b.magicDoors, b.AllWalls(), plan.asg, k)
    ensures !accepted ==> b.magicDoors == old(b.magicDoors)
    ensures forall w | w in b.AllWalls() ::
      w.State() == if accepted then Target(plan.asg, w, Reset(old(w.State()), w.isExternal))
                   else Reset(old(w.State()), w.isExternal)
  {
    ResetWalls(b);
    var p;
    accepted, p := Attempt(k, false);
    plan := p;
    if accepted {
      ApplyFresh(b, p.asg, k);
    }
  }

  /** generate's acceptance branch: empty magicDoors, then apply the assignment. */
  method ApplyFresh(b: Board, asg: Assignment, k: nat)
    requires b.Valid() && Complete(asg, k) && |Doors(asg)| == k
    modifies b`magicDoors, b.AllWalls()
    ensures b.Valid() && b.AllWalls() == old(b.AllWalls())
    ensures DoorWallsPlaced(b.magicDoors, b.AllWalls(), asg, k)
    ensures forall w | w in b.AllWalls() :: w.State() == Target(asg, w, old(w.State()))
  {
    b.magicDoors := [];
    Apply(b, asg);
    assert b.magicDoors[0..] == b.magicDoors;
    PlacedDoors(b, asg, k, b.magicDoors);
  }

  /** The walls of a complete assignment's door edges, once it is realised, are placed as its doors. */
  lemma PlacedDoors(b: Board, asg: Assignment, k: nat, ws: seq<Wall>)
    requires b.Valid() && Complete(asg, k) && |Doors(asg)| == k
    requires WallsFor(ws, Doors(asg), b.AllWalls()) && Realizes(b.AllWalls(), asg)
    ensures DoorWallsPlaced(ws, b.AllWalls(), asg, k)
  {
    BoardEdgesIdentify(b);
    DoorWalls(b.AllWalls(), asg, k, ws);
    forall w | w in b.AllWalls()
      ensures SeparatesTiles(w) <==> IsInternalEdge(EdgeOfWall(w))
    {
      BoardWallFacts(b, w);
    }
  }

  /**
   * generate (TypeScript): at most MaxAttempts attempts, each resetting the
   * internal walls and planning afresh with the difficulty's door count; the
   * first accepted plan is written into the walls after magicDoors is
   * emptied. A run with no accepted plan leaves the internal walls reset and
   * magicDoors as it was.
   */
  method Generate(b: Board, d: Difficulty) returns (valid: bool, attempts: nat, ghost plan: Plan)
    requires b.Valid()
    modifies b`magicDoors, b.AllWalls()
    ensures b.Valid() && b.AllWalls() == old(b.AllWalls())
    ensures 1 <= attempts <= MaxAttempts && (!valid ==> attempts == MaxAttempts)
    ensures valid ==> Accepted(plan, MagicDoorCount(d)) && DoorWallsPlaced(b.magicDoors, b.AllWalls(), plan.asg, MagicDoorCount(d))
    ensures !valid ==> b.magicDoors == old(b.magicDoors)
    ensures forall w | w in b.AllWalls() ::
      w.State() == if valid then Target(plan.asg, w, Reset(old(w.State()), w.isExternal))
                   else Reset(old(w.State()), w.isExternal)
  {
    var k := MagicDoorCount(d);
    valid, attempts := false, 0;
    plan := Plan([], [], false, 0, {}, [], []);
    ghost var walls := b.AllWalls();
    ghost var olds := map w | w in walls :: w.State();
    while !valid && attempts < MaxAttempts
      invariant 0 <= attempts <= MaxAttempts && (valid ==> 1 <= attempts)
      invariant b.Valid() && b.AllWalls() == walls
      invariant valid ==> Accepted(plan, k) && DoorWallsPlaced(b.magicDoors, b.AllWalls(), plan.asg, k)
      invariant !valid ==> b.magicDoors == old(b.magicDoors)
      invariant forall w | w in walls ::
        && w in olds
        && w.State() == if valid then Target(plan.asg, w, Reset(olds[w], w.isExternal))
                        else if attempts == 0 then olds[w] else Reset(olds[w], w.isExternal)
      decreases MaxAttempts - attempts
    {
      attempts := attempts + 1;
      valid, plan := GenerateOnce(b, k);
    }
  }

  /** resetWalls (JavaScript): its loop is commented out, so no wall changes. */
  method ResetWallsJs(b: Board)
    ensures forall w | w in b.AllWalls() :: w.State() == old(w.State())
  {
  }

  /**
   * One pass of generate's retry loop (JavaScript): one door, the legacy
   * fill order, and on acceptance the door wall is appended to magicDoors
   * without emptying it first.
   */
  method GenerateOnceJs(b: Board) returns (accepted: bool, ghost plan: Plan)
    requires b.Valid()
    modifies b`magicDoors, b.AllWalls()
    ensures b.Valid() && b.AllWalls() == old(b.AllWalls())
    ensures |old(b.magicDoors)| <= |b.magicDoors| && b.magicDoors[..|old(b.magicDoors)|] == old(b.magicDoors)
    ensures accepted ==> Accepted(plan, 1)
    ensures accepted ==> DoorWallsPlaced(b.magicDoors[|old(b.magicDoors)|..], b.AllWalls(), plan.asg, 1)
    ensures !accepted ==> b.magicDoors == old(b.magicDoors)
    ensures forall w | w in b.AllWalls() ::
      w.State() == if accepted then Target(plan.asg, w, old(w.State())) else old(w.State())
  {
    ResetWallsJs(b);
    var p;
    accepted, p := Attempt(1, true);
    plan := p;
    if accepted {
      ghost var before := b.magicDoors;
      Apply(b, p.asg);
      PlacedDoors(b, p.asg, 1, b.magicDoors[|before|..]);
    }
  }

  /**
   * generate (JavaScript): the same retry loop with one door and no reset.
   * On success the door wall is appended to whatever magicDoors held.
   */
  method GenerateJs(b: Board) returns (valid: bool, attempts: nat, ghost plan: Plan)
    requires b.Valid()
    modifies b`magicDoors, b.AllWalls()
    ensures b.Valid() && b.AllWalls() == old(b.AllWalls())
    ensures 1 <= attempts <= MaxAttempts && (!valid ==> attempts == MaxAttempts)
    ensures |old(b.magicDoors)| <= |b.magicDoors| && b.magicDoors[..|old(b.magicDoors)|] == old(b.magicDoors)
    ensures valid ==> Accepted(plan, 1)
    ensures valid ==> DoorWallsPlaced(b.magicDoors[|old(b.magicDoors)|..], b.AllWalls(), plan.asg, 1)
    ensures !valid ==> b.magicDoors == old(b.magicDoors)
    ensures forall w | w in b.AllWalls() ::
      w.State() == if valid then Target(plan.asg, w, old(w.State())) else old(w.State())
  {
    valid, attempts := false, 0;
    plan := Plan([], [], false, 0, {}, [], []);
    ghost var walls := b.AllWalls();
    ghost var olds := map w | w in walls :: w.State();
    ghost var before := b.magicDoors;
    while !valid && attempts < MaxAttempts
      invariant 0 <= attempts <= MaxAttempts && (valid ==> 1 <= attempts)
      invariant b.Valid() && b.AllWalls() == walls
      invariant |before| <= |b.magicDoors| && b.magicDoors[..|before|] == before
      invariant valid ==> Accepted(plan, 1) && DoorWallsPlaced(b.magicDoors[|before|..], walls, plan.asg, 1)
      invariant !valid ==> b.magicDoors == before
      invariant forall w | w in walls ::
        && w in olds
        && w.State() == if valid then Target(plan.asg, w, olds[w]) else olds[w]
      decreases MaxAttempts - attempts
    {
      attempts := attempts + 1;
      valid, plan := GenerateOnceJs(b);
    }
  }

  /** Every wall of a new board is as the Wall constructor leaves it. */
  lemma NewWalls(b: Board)
    requires b.Valid()
    requires forall r, c :: 0 <= r < 5 && 0 <= c < 5 ==>
      b.horizontalWalls[r, c].State() == WallState(NoWall, false, b.horizontalWalls[r, c].isExternal)
    requires forall r, c :: 0 <= r < 5 && 0 <= c < 5 ==>
      b.verticalWalls[r, c].State() == WallState(NoWall, false, b.verticalWalls[r, c].isExternal)
    ensures forall w | w in b.AllWalls() :: w.State() == WallState(NoWall, false, w.isExternal)
  {
    forall w | w in b.AllWalls()
      ensures w.State() == WallState(NoWall, false, w.isExternal)
    {
      BoardWallFacts(b, w);
    }
  }

  /** The wall-set facts of a valid board that the constructors' results are stated with. */
  ghost predicate WallGeometry(walls: set<Wall>) {
    forall w | w in walls ::
      && (SeparatesTiles(w) <==> IsInternalEdge(EdgeOfWall(w)))
      && (SeparatesTiles(w) ==> !w.isExternal)
  }

  lemma BoardGeometry(b: Board)
    requires b.Valid()
    ensures WallGeometry(b.AllWalls())
  {
    forall w | w in b.AllWalls()
      ensures SeparatesTiles(w) <==> IsInternalEdge(EdgeOfWall(w))
      ensures SeparatesTiles(w) ==> !w.isExternal
    {
      BoardWallFacts(b, w);
    }
  }

  /** A new wall's state as the Wall constructor leaves it. */
  function Initial(isExternal: bool): WallState {
    WallState(NoWall, false, isExternal)
  }

  /**
   * Starting from new walls, a complete plan applied over reset walls (the
   * TypeScript generator) leaves every wall closed and revealed exactly when
   * external, external walls NO_WALL, every wall between two tiles typed by
   * the plan, and every other internal wall WALL.
   */
  lemma GeneratedFromNew(walls: set<Wall>, olds: map<Wall, WallState>, valid: bool, asg: Assignment, k: nat)
    requires WallGeometry(walls) && (valid ==> Complete(asg, k))
    requires forall w | w in walls :: w in olds && olds[w] == Initial(w.isExternal)
    requires forall w | w in walls ::
      w.State() == if valid then Target(asg, w, Reset(olds[w], w.isExternal)) else Reset(olds[w], w.isExternal)
    ensures forall w | w in walls :: !w.isOpen && w.isRevealed == w.isExternal
    ensures forall w | w in walls && w.isExternal :: w.kind == NoWall
    ensures forall w | w in walls && !w.isExternal && !(valid && SeparatesTiles(w)) :: w.kind == PlainWall
    ensures valid ==> forall w | w in walls && SeparatesTiles(w) ::
      KindOf(asg, EdgeOfWall(w)).Some? && w.kind == KindType(KindOf(asg, EdgeOfWall(w)).value)
  {
    if valid {
      CompleteAssignsAll(asg, k);
      DerivedEdgesAreKeys(asg);
      KindOfKeys(asg);
    }
  }

  /** The same for the JavaScript generator, which applies the plan without a reset. */
  lemma GeneratedFromNewJs(walls: set<Wall>, olds: map<Wall, WallState>, valid: bool, asg: Assignment, k: nat)
    requires WallGeometry(walls) && (valid ==> Complete(asg, k))
    requires forall w | w in walls :: w in olds && olds[w] == Initial(w.isExternal)
    requires forall w | w in walls :: w.State() == if valid then Target(asg, w, olds[w]) else olds[w]
    ensures forall w | w in walls :: !w.isOpen && w.isRevealed == w.isExternal
    ensures forall w | w in walls && !(valid && SeparatesTiles(w)) :: w.kind == NoWall
    ensures valid ==> forall w | w in walls && SeparatesTiles(w) ::
      KindOf(asg, EdgeOfWall(w)).Some? && w.kind == KindType(KindOf(asg, EdgeOfWall(w)).value)
  {
    if valid {
      CompleteAssignsAll(asg, k);
      DerivedEdgesAreKeys(asg);
      KindOfKeys(asg);
    }
  }

  /**
   * The Board constructor (TypeScript): initialize lays out the tiles and
   * new walls, then generate types the walls for the difficulty.
   */
  method NewBoard(d: Difficulty) returns (b: Board, valid: bool, ghost plan: Plan)
    ensures fresh(b) && b.Valid()
    ensures valid ==> Accepted(plan, MagicDoorCount(d))
    ensures valid ==> DoorWallsPlaced(b.magicDoors, b.AllWalls(), plan.asg, MagicDoorCount(d))
    ensures !valid ==> b.magicDoors == []
    ensures forall w | w in b.AllWalls() :: !w.isOpen && w.isRevealed == w.isExternal
    ensures forall w | w in b.AllWalls() && w.isExternal :: w.kind == NoWall
    ensures forall w | w in b.AllWalls() && !w.isExternal && !(valid && SeparatesTiles(w)) :: w.kind == PlainWall
    ensures valid ==> forall w | w in b.AllWalls() && SeparatesTiles(w) ::
      KindOf(plan.asg, EdgeOfWall(w)).Some? && w.kind == KindType(KindOf(plan.asg, EdgeOfWall(w)).value)
  {
    b := new Board();
    NewWalls(b);
    BoardGeometry(b);
    ghost var walls := b.AllWalls();
    ghost var olds := map w | w in walls :: w.State();
    var attempts;
    valid, attempts, plan := Generate(b, d);
    GeneratedFromNew(walls, olds, valid, plan.asg, MagicDoorCount(d));
  }

  /**
   * The Board constructor (JavaScript): the same layout, then the one-door
   * generator. Walls that no plan touches keep NO_WALL.
   */
  method NewBoardJs() returns (b: Board, valid: bool, ghost plan: Plan)
    ensures fresh(b) && b.Valid()
    ensures valid ==> Accepted(plan, 1) && DoorWallsPlaced(b.magicDoors, b.AllWalls(), plan.asg, 1)
    ensures !valid ==> b.magicDoors == []
    ensures forall w | w in b.AllWalls() :: !w.isOpen && w.isRevealed == w.isExternal
    ensures forall w | w in b.AllWalls() && !(valid && SeparatesTiles(w)) :: w.kind == NoWall
    ensures valid ==> forall w | w in b.AllWalls() && SeparatesTiles(w) ::
      KindOf(plan.asg, EdgeOfWall(w)).Some? && w.kind == KindType(KindOf(plan.asg, EdgeOfWall(w)).value)
  {
    b := new Board();
    NewWalls(b);
    BoardGeometry(b);
    ghost var walls := b.AllWalls();
    ghost var olds := map w | w in walls :: w.State();
    var attempts;
    valid, attempts, plan := GenerateJs(b);
    assert b.magicDoors[0..] == b.magicDoors;
    GeneratedFromNewJs(walls, olds, valid, plan.asg, 1);
  }
}
