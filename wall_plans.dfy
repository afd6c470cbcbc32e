/**
 * One attempt of WallGenerator.generate, on values: find the primary magic
 * door by cutting the spanning tree, collect the boundary between the two
 * halves, hand out the wall kinds (W wall, R rabbit window, M mouse hole,
 * F free passage, D magic door) and check that both species can still reach
 * every tile. The assignment map of the source is a sequence of (edge, kind)
 * pairs in insertion order, which is the order the source applies them in.
 */
module WallPlans {
  import opened Wrappers
  import opened Players
  import opened Graphs
  import opened SpanningTrees

  datatype Kind = W | R | M | F | D

  /** The counters of kinds still to hand out. */
  datatype Counts = Counts(w: int, r: int, m: int, f: int, d: int)

  /** The starting counters for k magic doors: 2 W, 4 R, 4 M, 14 - k F, k D. */
  function Budget(k: nat): Counts {
    Counts(2, 4, 4, 14 - k, k)
  }

  function Left(c: Counts, x: Kind): int {
    match x
    case W => c.w
    case R => c.r
    case M => c.m
    case F => c.f
    case D => c.d
  }

  function Take(c: Counts, x: Kind): Counts {
    match x
    case W => c.(w := c.w - 1)
    case R => c.(r := c.r - 1)
    case M => c.(m := c.m - 1)
    case F => c.(f := c.f - 1)
    case D => c.(d := c.d - 1)
  }

  function Total(c: Counts): int {
    c.w + c.r + c.m + c.f + c.d
  }

  predicate NonNegative(c: Counts) {
    c.w >= 0 && c.r >= 0 && c.m >= 0 && c.f >= 0 && c.d >= 0
  }

  /** The budget covers the 24 internal edges exactly, whatever the number of doors (1 to 3). */
  lemma BudgetCoversEdges(k: nat)
    requires 1 <= k <= 3
    ensures NonNegative(Budget(k)) && Total(Budget(k)) == 24
    ensures Left(Budget(k), D) == k && Left(Budget(k), F) + k == 14
  {
  }

  /** Taking one kind lowers that counter by one and leaves the others alone. */
  lemma TakeOne(c: Counts, x: Kind)
    ensures Left(Take(c, x), x) == Left(c, x) - 1
    ensures forall y | y != x :: Left(Take(c, x), y) == Left(c, y)
    ensures Total(Take(c, x)) == Total(c) - 1
  {
  }

  type Assignment = seq<(Edge, Kind)>

  function Keys(a: Assignment): seq<Edge> {
    seq(|a|, i requires 0 <= i < |a| => a[i].0)
  }

  /** How many edges of the assignment received kind x. */
  function CountOf(a: Assignment, x: Kind): nat {
    if a == [] then 0 else CountOf(a[..|a| - 1], x) + (if a[|a| - 1].1 == x then 1 else 0)
  }

  /** The magic-door edges, in the order they were assigned. */
  function Doors(a: Assignment): seq<Edge> {
    if a == [] then [] else Doors(a[..|a| - 1]) + (if a[|a| - 1].1 == D then [a[|a| - 1].0] else [])
  }

  /** The kind an edge received, the latest entry winning as with a map. */
  function KindOf(a: Assignment, e: Edge): Option<Kind> {
    if a == [] then None
    else if a[|a| - 1].0 == e then Some(a[|a| - 1].1)
    else KindOf(a[..|a| - 1], e)
  }

  /** checkConnectivity's passability: F and D let everybody through, R rabbits, M mice. */
  predicate Passable(x: Kind, species: PlayerType) {
    x == F || x == D || (species == Rabbit && x == R) || (species == Mouse && x == M)
  }

  /** The passable edges of an assignment, in assignment order. */
  function PassableEdges(a: Assignment, species: PlayerType): seq<Edge> {
    if a == [] then []
    else PassableEdges(a[..|a| - 1], species) + (if Passable(a[|a| - 1].1, species) then [a[|a| - 1].0] else [])
  }

  /** How the assignment functions grow when one pair is appended. */
  lemma Append(a: Assignment, e: Edge, x: Kind)
    ensures Keys(a + [(e, x)]) == Keys(a) + [e]
    ensures forall y :: CountOf(a + [(e, x)], y) == CountOf(a, y) + (if y == x then 1 else 0)
    ensures Doors(a + [(e, x)]) == Doors(a) + (if x == D then [e] else [])
    ensures forall sp :: PassableEdges(a + [(e, x)], sp) == PassableEdges(a, sp) + (if Passable(x, sp) then [e] else [])
    ensures forall e' :: KindOf(a + [(e, x)], e') == if e' == e then Some(x) else KindOf(a, e')
  {
    assert (a + [(e, x)])[..|a|] == a;
  }

  /** With distinct keys, KindOf finds exactly the kind paired with each key, and nothing for other edges. */
  lemma {:induction false} KindOfKeys(a: Assignment)
    requires Distinct(Keys(a))
    ensures forall i | 0 <= i < |a| :: KindOf(a, a[i].0) == Some(a[i].1)
    ensures forall e | e !in Keys(a) :: KindOf(a, e) == None
  {
    if a != [] {
      var p := a[..|a| - 1];
      assert Keys(p) == Keys(a)[..|a| - 1];
      KindOfKeys(p);
      assert a == p + [a[|a| - 1]];
      Append(p, a[|a| - 1].0, a[|a| - 1].1);
      forall i | 0 <= i < |a| - 1
        ensures KindOf(a, a[i].0) == Some(a[i].1)
      {
        assert Keys(a)[i] != Keys(a)[|a| - 1];
      }
      forall e | e !in Keys(a)
        ensures KindOf(a, e) == None
      {
        assert Keys(a)[|a| - 1] == a[|a| - 1].0;
        assert e !in Keys(p);
      }
    }
  }

  /** Each counted door and each passable edge is a key of the assignment. */
  lemma {:induction false} DerivedEdgesAreKeys(a: Assignment)
    ensures forall e :: e in Doors(a) ==> e in Keys(a)
    ensures forall sp, e :: e in PassableEdges(a, sp) ==> e in Keys(a)
  {
    if a != [] {
      var p := a[..|a| - 1];
      DerivedEdgesAreKeys(p);
      assert a == p + [a[|a| - 1]];
      Append(p, a[|a| - 1].0, a[|a| - 1].1);
    }
  }

  /** With distinct keys the doors are distinct, and they are exactly the edges assigned D. */
  lemma {:induction false} DoorsAreDKeys(a: Assignment)
    requires Distinct(Keys(a))
    ensures Distinct(Doors(a))
    ensures forall e :: e in Doors(a) <==> KindOf(a, e) == Some(D)
  {
    if a != [] {
      var p := a[..|a| - 1];
      var e, x := a[|a| - 1].0, a[|a| - 1].1;
      assert a == p + [(e, x)];
      assert Keys(p) == Keys(a)[..|a| - 1];
      assert Keys(a)[|a| - 1] == e;
      assert e !in Keys(p);
      DoorsAreDKeys(p);
      Append(p, e, x);
      DerivedEdgesAreKeys(p);
    }
  }

  /** The fill step's order of preference, the source's if-chains read as lists. */
  function Priority(onBoundary: bool, inTree: bool, coin: bool, legacy: bool): seq<Kind> {
    if onBoundary then (if legacy || coin then [M, R, F] else [R, M, F])
    else if inTree then [F, R, M, W]
    else [W, M, R, F]
  }

  /** The first kind of the list whose counter is still positive. */
  function FirstAvailable(order: seq<Kind>, c: Counts): Option<Kind> {
    if order == [] then None
    else if Left(c, order[0]) > 0 then Some(order[0])
    else FirstAvailable(order[1..], c)
  }

  /**
   * The kind the fill loop gives to one unassigned edge: on a boundary edge
   * M or R (a coin decides when both remain; the JS revision always prefers
   * M), then F; on a tree edge F, R, M, W; on any other edge W, M, R, F.
   * None leaves the edge unassigned.
   */
  function FillChoice(onBoundary: bool, inTree: bool, c: Counts, coin: bool, legacy: bool): (r: Option<Kind>)
    ensures r.Some? ==> Left(c, r.value) > 0 && r.value != D && (onBoundary ==> r.value != W)
    ensures r.None? <==> forall x | x != D && (onBoundary ==> x != W) :: Left(c, x) <= 0
  {
    if onBoundary then
      if !legacy && c.m > 0 && c.r > 0 then (if coin then Some(M) else Some(R))
      else if c.m > 0 then Some(M)
      else if c.r > 0 then Some(R)
      else if c.f > 0 then Some(F)
      else None
    else if inTree then
      if c.f > 0 then Some(F)
      else if c.r > 0 then Some(R)
      else if c.m > 0 then Some(M)
      else if c.w > 0 then Some(W)
      else None
    else
      if c.w > 0 then Some(W)
      else if c.m > 0 then Some(M)
      else if c.r > 0 then Some(R)
      else if c.f > 0 then Some(F)
      else None
  }

  /** FillChoice takes the first kind in its order of preference whose counter is positive. */
  lemma FillChoiceFollowsPriority(onBoundary: bool, inTree: bool, c: Counts, coin: bool, legacy: bool)
    ensures FillChoice(onBoundary, inTree, c, coin, legacy) == FirstAvailable(Priority(onBoundary, inTree, coin, legacy), c)
  {
    if onBoundary {
      FirstOfThree(M, R, F, c);
      FirstOfThree(R, M, F, c);
    } else if inTree {
      FirstOfFour(F, R, M, W, c);
      FirstOfThree(R, M, W, c);
    } else {
      FirstOfFour(W, M, R, F, c);
      FirstOfThree(M, R, F, c);
    }
  }

  lemma FirstOfThree(a: Kind, b: Kind, x: Kind, c: Counts)
    ensures FirstAvailable([a, b, x], c)
      == if Left(c, a) > 0 then Some(a) else if Left(c, b) > 0 then Some(b) else if Left(c, x) > 0 then Some(x) else None
  {
    assert [x][1..] == [];
    assert FirstAvailable([x], c) == if Left(c, x) > 0 then Some(x) else None;
    assert [b, x][1..] == [x];
    assert FirstAvailable([b, x], c) == if Left(c, b) > 0 then Some(b) else FirstAvailable([x], c);
    assert [a, b, x][1..] == [b, x];
  }

  lemma FirstOfFour(a: Kind, b: Kind, x: Kind, y: Kind, c: Counts)
    ensures FirstAvailable([a, b, x, y], c)
      == if Left(c, a) > 0 then Some(a) else FirstAvailable([b, x, y], c)
  {
    assert [a, b, x, y][1..] == [b, x, y];
  }

  /** The next edge of a distinct list is not yet a key when the keys so far came from before it. */
  lemma FreshKey(asg: Assignment, asg': Assignment, sorted: seq<Edge>, i: nat)
    requires Distinct(sorted) && i < |sorted| && (forall e | e in sorted :: e !in Keys(asg))
    requires |asg| <= |asg'| && asg'[..|asg|] == asg
    requires forall j | |asg| <= j < |asg'| :: asg'[j].0 in sorted[..i]
    ensures sorted[i] !in Keys(asg')
  {
    forall k | 0 <= k < |asg'|
      ensures Keys(asg')[k] != sorted[i]
    {
      if k < |asg| {
        assert Keys(asg')[k] == asg'[k].0 == asg[k].0 == Keys(asg)[k];
        assert Keys(asg)[k] in Keys(asg);
      } else {
        assert Keys(asg')[k] == asg'[k].0 && asg'[k].0 in sorted[..i];
        var m :| 0 <= m < i && sorted[m] == asg'[k].0;
        assert sorted[m] != sorted[i];
      }
    }
  }

  /** With units left, no doors among them and no W when the edge is on the boundary, FillChoice picks a kind. */
  lemma ChoiceWhenBudgetLeft(onBoundary: bool, inTree: bool, c: Counts, coin: bool, legacy: bool)
    requires NonNegative(c) && c.d == 0 && Total(c) > 0 && (onBoundary ==> c.w == 0)
    ensures FillChoice(onBoundary, inTree, c, coin, legacy).Some?
  {
  }

  /** One step of the fill loop: the new entry is the next sorted edge, not a door, and not W on the boundary. */
  lemma FillStepEntries(asg: Assignment, asg': Assignment, sorted: seq<Edge>, i: nat, boundary: seq<Edge>, x: Kind)
    requires i < |sorted| && |asg| <= |asg'| && asg'[..|asg|] == asg
    requires forall j | |asg| <= j < |asg'| :: asg'[j].0 in sorted[..i] && asg'[j].1 != D
    requires forall j | |asg| <= j < |asg'| :: asg'[j].0 in boundary ==> asg'[j].1 != W
    requires x != D && (sorted[i] in boundary ==> x != W)
    ensures var a := asg' + [(sorted[i], x)];
      && |asg| <= |a| && a[..|asg|] == asg
      && (forall j | |asg| <= j < |a| :: a[j].0 in sorted[..i + 1] && a[j].1 != D)
      && (forall j | |asg| <= j < |a| :: a[j].0 in boundary ==> a[j].1 != W)
  {
    assert (asg' + [(sorted[i], x)])[..|asg|] == asg;
    assert sorted[..i + 1] == sorted[..i] + [sorted[i]];
  }

  /** One step of the fill loop: the unit taken from the counters is the one the assignment gains. */
  lemma FillStepCounts(asg: Assignment, asg': Assignment, e: Edge, x: Kind, counts: Counts, c: Counts)
    requires x != D
    requires forall y :: CountOf(asg', y) + Left(c, y) == CountOf(asg, y) + Left(counts, y)
    ensures forall y :: CountOf(asg' + [(e, x)], y) + Left(Take(c, x), y) == CountOf(asg, y) + Left(counts, y)
    ensures Total(Take(c, x)) == Total(c) - 1 && Take(c, x).d == c.d && Take(c, x).w <= c.w
  {
    assert (asg' + [(e, x)])[..|asg'|] == asg';
    TakeOne(c, x);
  }

  /** One step of the fill loop: the keys grow by the next sorted edge and stay distinct. */
  lemma FillStepKeys(asg: Assignment, asg': Assignment, sorted: seq<Edge>, i: nat, x: Kind)
    requires i < |sorted| && |asg| <= |asg'| && asg'[..|asg|] == asg
    requires forall j | |asg| <= j < |asg'| :: asg'[j].0 in sorted[..i]
    requires Distinct(Keys(asg)) && Distinct(sorted) && (forall e | e in sorted :: e !in Keys(asg))
      ==> Distinct(Keys(asg'))
    ensures var a := asg' + [(sorted[i], x)];
      && (Distinct(Keys(asg)) && Distinct(sorted) && (forall e | e in sorted :: e !in Keys(asg)) ==> Distinct(Keys(a)))
      && Keys(a) == Keys(asg') + [sorted[i]]
      && (Keys(asg') == Keys(asg) + sorted[..i] ==> Keys(a) == Keys(asg) + sorted[..i + 1])
  {
    var e := sorted[i];
    assert Keys(asg' + [(e, x)]) == Keys(asg') + [e];
    if Distinct(Keys(asg)) && Distinct(sorted) && (forall e | e in sorted :: e !in Keys(asg)) {
      FreshKey(asg, asg', sorted, i);
    }
    assert sorted[..i + 1] == sorted[..i] + [e];
  }

  /**
   * The fill loop (generate's last assignment stage): every still unassigned
   * edge, in the order given, receives FillChoice's kind and that counter
   * drops by one. When the counters hold exactly as many units as there are
   * edges, no magic doors are left, and W is used up whenever a boundary edge
   * remains, every edge is assigned and every counter ends at zero.
   */
  method Fill(sorted: seq<Edge>, boundary: seq<Edge>, tree: seq<Edge>, counts: Counts, asg: Assignment, legacy: bool)
    returns (counts': Counts, asg': Assignment)
    requires NonNegative(counts)
    ensures NonNegative(counts')
    ensures |asg| <= |asg'| && asg'[..|asg|] == asg
    ensures forall x :: CountOf(asg', x) + Left(counts', x) == CountOf(asg, x) + Left(counts, x)
    ensures forall j | |asg| <= j < |asg'| :: asg'[j].0 in sorted && asg'[j].1 != D
    ensures forall j | |asg| <= j < |asg'| :: asg'[j].0 in boundary ==> asg'[j].1 != W
    ensures Distinct(Keys(asg)) && Distinct(sorted) && (forall e | e in sorted :: e !in Keys(asg))
      ==> Distinct(Keys(asg'))
    ensures Total(counts) == |sorted| && counts.d == 0 && (counts.w > 0 ==> forall j | 0 <= j < |sorted| :: sorted[j] !in boundary)
      ==> Keys(asg') == Keys(asg) + sorted && Total(counts') == 0
  {
    ghost var complete := Total(counts) == |sorted| && counts.d == 0 && (counts.w > 0 ==> forall j | 0 <= j < |sorted| :: sorted[j] !in boundary);
    counts', asg' := counts, asg;
    for i := 0 to |sorted|
      invariant NonNegative(counts') && counts'.d <= counts.d
      invariant |asg| <= |asg'| && asg'[..|asg|] == asg
      invariant forall x :: CountOf(asg', x) + Left(counts', x) == CountOf(asg, x) + Left(counts, x)
      invariant forall j | |asg| <= j < |asg'| :: asg'[j].0 in sorted[..i] && asg'[j].1 != D
      invariant forall j | |asg| <= j < |asg'| :: asg'[j].0 in boundary ==> asg'[j].1 != W
      invariant Distinct(Keys(asg)) && Distinct(sorted) && (forall e | e in sorted :: e !in Keys(asg))
        ==> Distinct(Keys(asg'))
      invariant complete ==> Keys(asg') == Keys(asg) + sorted[..i] && Total(counts') == |sorted| - i
      invariant complete ==> counts'.w > 0 ==> forall j | i <= j < |sorted| :: sorted[j] !in boundary
    {
      var e := sorted[i];
      var coin: bool :| true;
      var choice := FillChoice(e in boundary, e in tree, counts', coin, legacy);
      if choice.Some? {
        var x := choice.value;
        FillStepEntries(asg, asg', sorted, i, boundary, x);
        FillStepCounts(asg, asg', e, x, counts, counts');
        FillStepKeys(asg, asg', sorted, i, x);
        asg', counts' := asg' + [(e, x)], Take(counts', x);
      } else if complete {
        ChoiceWhenBudgetLeft(e in boundary, e in tree, counts', coin, legacy);
        assert false;
      }
    }
    assert sorted[..|sorted|] == sorted;
  }

  /** Pairs every edge of s with kind x, in order. */
  function Pairs(s: seq<Edge>, x: Kind): Assignment {
    seq(|s|, j requires 0 <= j < |s| => (s[j], x))
  }

  lemma KeysConcat(a: Assignment, b: Assignment)
    ensures Keys(a + b) == Keys(a) + Keys(b)
  {
  }

  lemma {:induction false} CountConcat(a: Assignment, b: Assignment)
    ensures forall x :: CountOf(a + b, x) == CountOf(a, x) + CountOf(b, x)
    decreases |b|
  {
    if b == [] {
      assert a + b == a;
    } else {
      var b' := b[..|b| - 1];
      CountConcat(a, b');
      assert a + b == (a + b') + [b[|b| - 1]];
      assert b == b' + [b[|b| - 1]];
      Append(a + b', b[|b| - 1].0, b[|b| - 1].1);
      Append(b', b[|b| - 1].0, b[|b| - 1].1);
    }
  }

  lemma {:induction false} DoorsConcat(a: Assignment, b: Assignment)
    ensures Doors(a + b) == Doors(a) + Doors(b)
    decreases |b|
  {
    if b == [] {
      assert a + b == a;
    } else {
      var b', last := b[..|b| - 1], b[|b| - 1];
      DoorsConcat(a, b');
      assert a + b == (a + b') + [last];
      assert b == b' + [last];
      DoorsAppend(a + b', last);
      DoorsAppend(b', last);
    }
  }

  /** Doors of an assignment extended by one pair. */
  lemma DoorsAppend(a: Assignment, p: (Edge, Kind))
    ensures Doors(a + [p]) == Doors(a) + (if p.1 == D then [p.0] else [])
  {
    assert (a + [p])[..|a|] == a;
  }

  lemma {:induction false} PairsFacts(s: seq<Edge>, x: Kind)
    ensures Keys(Pairs(s, x)) == s
    ensures forall y :: CountOf(Pairs(s, x), y) == if y == x then |s| else 0
    ensures Doors(Pairs(s, x)) == if x == D then s else []
  {
    if s != [] {
      var s' := s[..|s| - 1];
      PairsFacts(s', x);
      assert Pairs(s, x) == Pairs(s', x) + [(s[|s| - 1], x)];
      Append(Pairs(s', x), s[|s| - 1], x);
    }
  }

  lemma {:induction false} NoDoors(a: Assignment)
    requires forall j | 0 <= j < |a| :: a[j].1 != D
    ensures Doors(a) == [] && CountOf(a, D) == 0
  {
    if a != [] {
      NoDoors(a[..|a| - 1]);
    }
  }

  /** The elements e of s with (e in t) == inside, in order. */
  function Split(s: seq<Edge>, t: seq<Edge>, inside: bool): seq<Edge> {
    if s == [] then []
    else Split(s[..|s| - 1], t, inside) + (if (s[|s| - 1] in t) == inside then [s[|s| - 1]] else [])
  }

  lemma {:induction false} SplitMembers(s: seq<Edge>, t: seq<Edge>, inside: bool)
    ensures forall e :: e in Split(s, t, inside) <==> e in s && (e in t) == inside
    ensures Distinct(s) ==> Distinct(Split(s, t, inside))
  {
    if s != [] {
      var s' := s[..|s| - 1];
      SplitMembers(s', t, inside);
      assert s == s' + [s[|s| - 1]];
      if Distinct(s) {
        assert Distinct(s');
        assert s[|s| - 1] !in s';
      }
    }
  }

  lemma {:induction false} SplitSizes(s: seq<Edge>, t: seq<Edge>)
    ensures |Split(s, t, true)| + |Split(s, t, false)| == |s|
    ensures multiset(Split(s, t, true)) + multiset(Split(s, t, false)) == multiset(s)
  {
    if s != [] {
      var s', x := s[..|s| - 1], s[|s| - 1];
      SplitSizes(s', t);
      assert s == s' + [x];
      if x in t {
        assert Split(s, t, true) == Split(s', t, true) + [x];
        assert Split(s, t, false) == Split(s', t, false);
      } else {
        assert Split(s, t, true) == Split(s', t, true);
        assert Split(s, t, false) == Split(s', t, false) + [x];
      }
    }
  }

  /**
   * The order generate's sort leaves the unassigned edges in: the comparator
   * only separates tree edges from the others and the sort is stable, so the
   * tree edges come first and each group keeps its order.
   */
  function TreeFirst(s: seq<Edge>, tree: seq<Edge>): (r: seq<Edge>) {
    Split(s, tree, true) + Split(s, tree, false)
  }

  /** TreeFirst is a permutation of its input that puts every tree edge before every other edge. */
  lemma TreeFirstSorts(s: seq<Edge>, tree: seq<Edge>)
    ensures multiset(TreeFirst(s, tree)) == multiset(s)
    ensures forall i, j | 0 <= i < j < |TreeFirst(s, tree)| :: TreeFirst(s, tree)[j] in tree ==> TreeFirst(s, tree)[i] in tree
    ensures Distinct(s) ==> Distinct(TreeFirst(s, tree))
  {
    SplitMembers(s, tree, true);
    SplitMembers(s, tree, false);
    SplitSizes(s, tree);
    var a, b := Split(s, tree, true), Split(s, tree, false);
    forall i, j | 0 <= i < j < |a + b| && (a + b)[j] in tree
      ensures (a + b)[i] in tree
    {
      if j < |a| {
        assert (a + b)[i] == a[i] && a[i] in a;
      }
    }
    if Distinct(s) {
      forall i, j | 0 <= i < j < |a + b|
        ensures (a + b)[i] != (a + b)[j]
      {
        if i < |a| && j >= |a| {
          assert (a + b)[i] == a[i] && a[i] in a;
          assert (a + b)[j] == b[j - |a|] && b[j - |a|] in b;
        }
      }
    }
  }

  /** An edge crosses the cut when exactly one of its ends is in comp. */
  predicate Crosses(e: Edge, comp: set<int>) {
    (U(e) in comp) != (V(e) in comp)
  }

  /** The boundary edges of generate: the edges other than the door that cross the cut, in edge-list order. */
  function BoundaryOf(edges: seq<Edge>, door: Edge, comp: set<int>): seq<Edge> {
    if edges == [] then []
    else
      var e := edges[|edges| - 1];
      BoundaryOf(edges[..|edges| - 1], door, comp) + (if e != door && Crosses(e, comp) then [e] else [])
  }

  lemma {:induction false} BoundaryMembers(edges: seq<Edge>, door: Edge, comp: set<int>)
    ensures forall e :: e in BoundaryOf(edges, door, comp) <==> e in edges && e != door && Crosses(e, comp)
    ensures Distinct(edges) ==> Distinct(BoundaryOf(edges, door, comp))
  {
    if edges != [] {
      var s' := edges[..|edges| - 1];
      BoundaryMembers(s', door, comp);
      assert edges == s' + [edges[|edges| - 1]];
      if Distinct(edges) {
        assert Distinct(s');
        assert edges[|edges| - 1] !in s';
      }
    }
  }

  /** generate's boundary loop: collects BoundaryOf. */
  method BoundaryEdges(edges: seq<Edge>, door: Edge, comp: set<int>) returns (boundary: seq<Edge>)
    ensures boundary == BoundaryOf(edges, door, comp)
  {
    boundary := [];
    for i := 0 to |edges|
      invariant boundary == BoundaryOf(edges[..i], door, comp)
    {
      assert edges[..i + 1][..i] == edges[..i];
      var e := edges[i];
      if e != door && Crosses(e, comp) {
        boundary := boundary + [e];
      }
    }
    assert edges[..|edges|] == edges;
  }

  /**
   * The extra magic doors (Medium and Hard): while the door counter is
   * positive, shift an edge off the boundary and make it a door.
   */
  method ExtraDoors(boundary: seq<Edge>, asg: Assignment, counts: Counts)
    returns (rest: seq<Edge>, asg': Assignment, counts': Counts)
    requires 0 <= counts.d <= |boundary|
    ensures rest == boundary[counts.d..]
    ensures asg' == asg + Pairs(boundary[..counts.d], D)
    ensures counts' == counts.(d := 0)
  {
    rest, asg', counts' := boundary, asg, counts;
    while counts'.d > 0
      invariant 0 <= counts'.d <= counts.d
      invariant rest == boundary[counts.d - counts'.d..]
      invariant asg' == asg + Pairs(boundary[..counts.d - counts'.d], D)
      invariant counts' == counts.(d := counts'.d)
    {
      var n := counts.d - counts'.d;
      if |rest| > 0 {
        var extra := rest[0];
        rest := rest[1..];
        assert Pairs(boundary[..n + 1], D) == Pairs(boundary[..n], D) + [(extra, D)];
        asg' := asg' + [(extra, D)];
      }
      counts' := counts'.(d := counts'.d - 1);
    }
  }

  /** The boundary walls: while W remains, each remaining boundary edge in turn becomes a wall. */
  method BoundaryWalls(rest: seq<Edge>, asg: Assignment, counts: Counts) returns (asg': Assignment, counts': Counts)
    requires counts.w >= 0
    ensures var n := if counts.w < |rest| then counts.w else |rest|;
      asg' == asg + Pairs(rest[..n], W) && counts' == counts.(w := counts.w - n)
  {
    asg', counts' := asg, counts;
    for i := 0 to |rest|
      invariant var n := if counts.w < i then counts.w else i;
        asg' == asg + Pairs(rest[..n], W) && counts' == counts.(w := counts.w - n)
    {
      if counts'.w > 0 {
        assert Pairs(rest[..i + 1], W) == Pairs(rest[..i], W) + [(rest[i], W)];
        asg' := asg' + [(rest[i], W)];
        counts' := counts'.(w := counts'.w - 1);
      }
    }
  }

  /**
   * A complete assignment for k doors: the 24 internal edges each receive
   * exactly one kind, and the kinds come in the budgeted numbers (2 W, 4 R,
   * 4 M, 14 - k F and k D).
   */
  ghost predicate Complete(asg: Assignment, k: nat) {
    && Distinct(Keys(asg))
    && (forall e :: e in Keys(asg) <==> IsInternalEdge(e))
    && (forall x :: CountOf(asg, x) == Left(Budget(k), x))
  }

  function Elements(s: seq<Edge>): set<Edge> {
    set e | e in s
  }

  lemma {:induction false} DistinctCard(s: seq<Edge>)
    requires Distinct(s)
    ensures |Elements(s)| == |s|
  {
    if s != [] {
      var s' := s[..|s| - 1];
      assert Distinct(s');
      DistinctCard(s');
      assert s == s' + [s[|s| - 1]];
      assert Elements(s) == Elements(s') + {s[|s| - 1]};
      assert s[|s| - 1] !in Elements(s');
    }
  }

  /** Once the keys are distinct edges of a distinct list, the unassigned edges are the rest of the list. */
  lemma UnassignedCount(edges: seq<Edge>, keys: seq<Edge>)
    requires Distinct(edges) && Distinct(keys) && forall e | e in keys :: e in edges
    ensures |Split(edges, keys, false)| + |keys| == |edges|
  {
    SplitSizes(edges, keys);
    SplitMembers(edges, keys, true);
    var a := Split(edges, keys, true);
    assert Elements(a) == Elements(keys);
    DistinctCard(a);
    DistinctCard(keys);
  }

  /**
   * The assignment generate has built just before its fill loop: the primary
   * door, k - 1 extra doors shifted off the shuffled boundary, then n walls on
   * the next boundary edges.
   */
  function Staged(door: Edge, shuffled: seq<Edge>, k: nat, n: nat): Assignment
    requires 1 <= k && k - 1 + n <= |shuffled|
  {
    Pairs([door] + shuffled[..k - 1], D) + Pairs(shuffled[k - 1..][..n], W)
  }

  /** The staged kinds are k doors and n walls, the doors being the primary one and the shifted ones. */
  lemma StagedCounts(door: Edge, shuffled: seq<Edge>, k: nat, n: nat)
    requires 1 <= k && k - 1 + n <= |shuffled|
    ensures forall x :: CountOf(Staged(door, shuffled, k, n), x) == Left(Counts(n, 0, 0, 0, k), x)
    ensures Doors(Staged(door, shuffled, k, n)) == [door] + shuffled[..k - 1]
  {
    var p1, p2 := Pairs([door] + shuffled[..k - 1], D), Pairs(shuffled[k - 1..][..n], W);
    PairsFacts([door] + shuffled[..k - 1], D);
    PairsFacts(shuffled[k - 1..][..n], W);
    CountConcat(p1, p2);
    DoorsConcat(p1, p2);
  }

  /** The staged edges, in order: the primary door, then the shuffled boundary's first k - 1 + n edges. */
  lemma StagedKeys(door: Edge, shuffled: seq<Edge>, k: nat, n: nat)
    requires 1 <= k && k - 1 + n <= |shuffled|
    ensures Keys(Staged(door, shuffled, k, n)) == [door] + shuffled[..k - 1 + n]
  {
    var a, b := [door] + shuffled[..k - 1], shuffled[k - 1..][..n];
    PairsKeys(a, D);
    PairsKeys(b, W);
    KeysConcat(Pairs(a, D), Pairs(b, W));
    assert a + b == [door] + shuffled[..k - 1 + n] by {
      assert shuffled[..k - 1] + shuffled[k - 1..][..n] == shuffled[..k - 1 + n];
    }
  }

  lemma PairsKeys(s: seq<Edge>, x: Kind)
    ensures Keys(Pairs(s, x)) == s
  {
  }

  /**
   * The staged edges are distinct edges of the list; when fewer than two
   * walls were placed, every remaining boundary edge is among them.
   */
  lemma StagedDistinct(edges: seq<Edge>, door: Edge, comp: set<int>, shuffled: seq<Edge>, k: nat, n: nat)
    requires Distinct(edges) && door in edges
    requires multiset(shuffled) == multiset(BoundaryOf(edges, door, comp))
    requires 1 <= k && k - 1 + n <= |shuffled| && (n < 2 ==> n == |shuffled| - (k - 1))
    ensures var keys := Keys(Staged(door, shuffled, k, n));
      && Distinct(keys) && (forall e | e in keys :: e in edges)
      && (n < 2 ==> forall j | k - 1 <= j < |shuffled| :: shuffled[j] in keys)
  {
    var b := BoundaryOf(edges, door, comp);
    BoundaryMembers(edges, door, comp);
    PermutationFacts(b, shuffled);
    StagedKeys(door, shuffled, k, n);
    var keys := [door] + shuffled[..k - 1 + n];
    forall i, j | 0 <= i < j < |keys|
      ensures keys[i] != keys[j]
    {
      assert keys[j] == shuffled[j - 1] && shuffled[j - 1] in shuffled;
      if i > 0 {
        assert keys[i] == shuffled[i - 1];
      }
    }
    forall e | e in keys
      ensures e in edges
    {
      if e != door {
        assert e in shuffled;
      }
    }
    if n < 2 {
      forall j | k - 1 <= j < |shuffled|
        ensures shuffled[j] in keys
      {
        assert keys[j + 1] == shuffled[j];
      }
    }
  }

  /** After the fill loop every counter is spent, so each kind was handed out exactly as budgeted. */
  lemma SpentBudget(asg: Assignment, c: Counts, k: nat, staged: Assignment, c2: Counts)
    requires forall x :: CountOf(staged, x) + Left(c2, x) == Left(Budget(k), x)
    requires forall x :: CountOf(asg, x) + Left(c, x) == CountOf(staged, x) + Left(c2, x)
    requires NonNegative(c) && Total(c) == 0
    ensures forall x :: CountOf(asg, x) == Left(Budget(k), x)
  {
    assert c == Counts(0, 0, 0, 0, 0);
    forall x
      ensures CountOf(asg, x) == Left(Budget(k), x)
    {
      assert CountOf(asg, x) + Left(c, x) == CountOf(staged, x) + Left(c2, x);
      assert CountOf(staged, x) + Left(c2, x) == Left(Budget(k), x);
    }
  }

  /** Edges added after the staged prefix are not doors, so the doors are the staged ones. */
  lemma DoorsKept(staged: Assignment, asg: Assignment)
    requires |staged| <= |asg| && asg[..|staged|] == staged
    requires forall j | |staged| <= j < |asg| :: asg[j].1 != D
    ensures Doors(asg) == Doors(staged)
  {
    var tail := asg[|staged|..];
    assert asg == staged + tail;
    NoDoors(tail);
    DoorsConcat(staged, tail);
  }

  /** Staged edges plus the unassigned ones are exactly the internal edges. */
  lemma AllEdgesKeyed(edges: seq<Edge>, keys: seq<Edge>, sorted: seq<Edge>)
    requires multiset(edges) == multiset(InternalEdges())
    requires forall e :: e in edges <==> e in keys || e in sorted
    ensures forall e :: e in keys + sorted <==> IsInternalEdge(e)
  {
    InternalEdgesAreGridEdges();
    PermutationFacts(InternalEdges(), edges);
  }

  /** shuffle applied to a copy of an edge list. */
  method Shuffled(s: seq<Edge>) returns (t: seq<Edge>)
    ensures multiset(t) == multiset(s)
  {
    var a := new Edge[|s|](j requires 0 <= j < |s| => s[j]);
    assert a[..] == s;
    Shuffle(a);
    t := a[..];
  }

  /**
   * generate's steps 2 and 3 up to the fill loop: the boundary, the primary
   * door, the retry when the boundary cannot hold the extra doors (TS only),
   * the extra doors and the boundary walls.
   */
  method StageDoorsAndWalls(edges: seq<Edge>, door: Edge, comp: set<int>, k: nat, legacy: bool)
    returns (ok: bool, boundary: seq<Edge>, shuffled: seq<Edge>, rest: seq<Edge>, asg: Assignment, counts: Counts)
    requires 1 <= k <= 3 && (legacy ==> k == 1)
    ensures boundary == BoundaryOf(edges, door, comp)
    ensures ok <==> k - 1 <= |boundary|
    ensures ok ==> multiset(shuffled) == multiset(boundary) && k - 1 <= |shuffled| && rest == shuffled[k - 1..]
    ensures ok ==> var n := 2 - counts.w;
      && 0 <= n <= 2 && (n < 2 ==> n == |rest|) && n <= |rest|
      && asg == Staged(door, shuffled, k, n) && counts == Counts(2 - n, 4, 4, 14 - k, 0)
  {
    boundary := BoundaryEdges(edges, door, comp);
    counts := Budget(k);
    asg := [(door, D)];
    counts := counts.(d := counts.d - 1);
    shuffled, rest := [], [];
    if !legacy && |boundary| < counts.d {
      return false, boundary, shuffled, rest, asg, counts;
    }
    ok := true;
    shuffled := Shuffled(boundary);
    PermutationFacts(boundary, shuffled);
    rest := shuffled;
    if !legacy {
      rest, asg, counts := ExtraDoors(shuffled, asg, counts);
    }
    assert [(door, D)] + Pairs(shuffled[..k - 1], D) == Pairs([door] + shuffled[..k - 1], D);
    asg, counts := BoundaryWalls(rest, asg, counts);
  }

  /**
   * The state before the fill loop meets Fill's completeness condition: the
   * counters hold exactly one unit per unassigned edge, no doors, and W only
   * when no boundary edge is left; the fill edges are new and distinct.
   */
  lemma FillReady(edges: seq<Edge>, tree: seq<Edge>, door: Edge, comp: set<int>, shuffled: seq<Edge>, k: nat, n: nat)
    requires multiset(edges) == multiset(InternalEdges()) && door in edges
    requires multiset(shuffled) == multiset(BoundaryOf(edges, door, comp))
    requires 1 <= k <= 3 && n <= 2 && k - 1 + n <= |shuffled| && (n < 2 ==> n == |shuffled| - (k - 1))
    ensures var staged := Staged(door, shuffled, k, n);
      var sorted := TreeFirst(Split(edges, Keys(staged), false), tree);
      var c := Counts(2 - n, 4, 4, 14 - k, 0);
      && Total(c) == |sorted| && (c.w > 0 ==> forall j | 0 <= j < |sorted| :: sorted[j] !in shuffled[k - 1..])
      && Distinct(Keys(staged)) && Distinct(sorted) && (forall e | e in sorted :: e !in Keys(staged))
      && (forall e :: e in edges <==> e in Keys(staged) || e in sorted)
  {
    InternalEdgesAreGridEdges();
    PermutationFacts(InternalEdges(), edges);
    var staged := Staged(door, shuffled, k, n);
    StagedKeys(door, shuffled, k, n);
    StagedDistinct(edges, door, comp, shuffled, k, n);
    var unassigned := Split(edges, Keys(staged), false);
    var sorted := TreeFirst(unassigned, tree);
    SplitMembers(edges, Keys(staged), false);
    TreeFirstSorts(unassigned, tree);
    UnassignedCount(edges, Keys(staged));
    PermutationFacts(unassigned, sorted);
  }

  /** What the fill loop leaves is complete, and its doors are the staged ones. */
  lemma FilledAssignment(edges: seq<Edge>, door: Edge, comp: set<int>, shuffled: seq<Edge>, k: nat, n: nat,
                         sorted: seq<Edge>, asg: Assignment, c: Counts)
    requires multiset(edges) == multiset(InternalEdges())
    requires multiset(shuffled) == multiset(BoundaryOf(edges, door, comp))
    requires 1 <= k && k - 1 + n <= |shuffled| && n <= 2
    requires var staged := Staged(door, shuffled, k, n);
      && (forall e :: e in edges <==> e in Keys(staged) || e in sorted)
      && |staged| <= |asg| && asg[..|staged|] == staged
      && (forall j | |staged| <= j < |asg| :: asg[j].1 != D)
      && (forall x :: CountOf(asg, x) + Left(c, x) == CountOf(staged, x) + Left(Counts(2 - n, 4, 4, 14 - k, 0), x))
      && Distinct(Keys(asg)) && Keys(asg) == Keys(staged) + sorted
    requires NonNegative(c) && Total(c) == 0
    ensures Complete(asg, k)
    ensures |Doors(asg)| == k && Doors(asg)[0] == door
    ensures forall j | 1 <= j < k :: Doors(asg)[j] in BoundaryOf(edges, door, comp)
  {
    var staged := Staged(door, shuffled, k, n);
    StagedCounts(door, shuffled, k, n);
    assert Complete(asg, k) by {
      SpentBudget(asg, c, k, staged, Counts(2 - n, 4, 4, 14 - k, 0));
      AllEdgesKeyed(edges, Keys(staged), sorted);
    }
    DoorsKept(staged, asg);
    assert Doors(asg) == [door] + shuffled[..k - 1];
    forall j | 1 <= j < k
      ensures Doors(asg)[j] in BoundaryOf(edges, door, comp)
    {
      PermutationFacts(BoundaryOf(edges, door, comp), shuffled);
      assert Doors(asg)[j] == shuffled[j - 1] && shuffled[j - 1] in shuffled;
    }
  }

  /** Builds the assignment of generate's steps 2 and 3 for a cut of the spanning tree. */
  method AssignKinds(edges: seq<Edge>, tree: seq<Edge>, door: Edge, comp: set<int>, k: nat, legacy: bool)
    returns (ok: bool, boundary: seq<Edge>, asg: Assignment)
    requires 1 <= k <= 3 && (legacy ==> k == 1)
    requires multiset(edges) == multiset(InternalEdges()) && door in edges
    ensures boundary == BoundaryOf(edges, door, comp)
    ensures ok <==> k - 1 <= |boundary|
    ensures ok ==> Complete(asg, k)
    ensures ok ==> |Doors(asg)| == k && Doors(asg)[0] == door && forall j | 1 <= j < k :: Doors(asg)[j] in boundary
  {
    var shuffled, rest, counts;
    ok, boundary, shuffled, rest, asg, counts := StageDoorsAndWalls(edges, door, comp, k, legacy);
    if !ok {
      return;
    }
    ghost var n := 2 - counts.w;
    FillReady(edges, tree, door, comp, shuffled, k, n);
    var unassigned := Split(edges, Keys(asg), false);
    var sorted := TreeFirst(unassigned, tree);
    counts, asg := Fill(sorted, rest, tree, counts, asg, legacy);
    FilledAssignment(edges, door, comp, shuffled, k, n, sorted, asg, counts);
  }

  /**
   * checkConnectivity: the passable edges of the assignment for one species,
   * then a breadth-first search from node 0; true when all 16 tiles are reached.
   */
  method CheckConnectivity(asg: Assignment, species: PlayerType) returns (ok: bool)
    requires NodeEdges(Keys(asg))
    ensures ok <==> ConnectsAll(PassableEdges(asg, species))
  {
    var passable: seq<Edge> := [];
    for i := 0 to |asg|
      invariant passable == PassableEdges(asg[..i], species)
    {
      assert asg[..i + 1] == asg[..i] + [asg[i]];
      Append(asg[..i], asg[i].0, asg[i].1);
      if Passable(asg[i].1, species) {
        passable := passable + [asg[i].0];
      }
    }
    assert asg[..|asg|] == asg;
    DerivedEdgesAreKeys(asg);
    var visited := GetComponent(passable, 0);
    ComponentSize(passable, visited);
    ok := |visited| == 16;
  }

  /** The tree with its i-th edge spliced out. */
  function RemoveAt(s: seq<Edge>, i: nat): seq<Edge>
    requires i < |s|
  {
    s[..i] + s[i + 1..]
  }

  lemma RemoveAtMembers(s: seq<Edge>, i: nat)
    requires i < |s|
    ensures forall e :: e in RemoveAt(s, i) <==> exists j | 0 <= j < |s| && j != i :: s[j] == e
  {
    forall e | e in RemoveAt(s, i)
      ensures exists j | 0 <= j < |s| && j != i :: s[j] == e
    {
      var m :| 0 <= m < |RemoveAt(s, i)| && RemoveAt(s, i)[m] == e;
      if m < i {
        assert s[m] == e;
      } else {
        assert s[m + 1] == e;
      }
    }
    forall e, j | 0 <= j < |s| && j != i && s[j] == e
      ensures e in RemoveAt(s, i)
    {
      if j < i {
        assert RemoveAt(s, i)[j] == e;
      } else {
        assert RemoveAt(s, i)[j - 1] == e;
      }
    }
  }

  /** Rabbit starts (nodes 0 and 12) on this side, mouse starts (nodes 3 and 15) not. */
  predicate SeparatesSpecies(comp: set<int>) {
    0 in comp && 12 in comp && 3 !in comp && 15 !in comp
  }

  /** Removing the i-th tree edge leaves comp as the component of node 0, and comp separates the species. */
  ghost predicate IsCut(tree: seq<Edge>, i: nat, comp: set<int>) {
    i < |tree| && IsComponent(RemoveAt(tree, i), 0, comp) && SeparatesSpecies(comp)
  }

  /** No tree edge before index n is a cut. */
  ghost predicate NoCutBefore(tree: seq<Edge>, n: nat) {
    forall j, comp | 0 <= j < n && j < |tree| :: !IsCut(tree, j, comp)
  }

  /**
   * generate's search for the primary door: remove each spanning-tree edge in
   * turn and take the first whose removal leaves node 0's component holding
   * both rabbit starts and neither mouse start. The JS revision also accepts
   * a component holding both mouse starts and neither rabbit start, which
   * cannot happen: node 0 is always in its own component.
   */
  method FindPrimaryDoor(tree: seq<Edge>, legacy: bool) returns (found: bool, i: nat, comp: set<int>)
    requires NodeEdges(tree)
    ensures found ==> IsCut(tree, i, comp) && NoCutBefore(tree, i)
    ensures !found ==> NoCutBefore(tree, |tree|)
  {
    var j := 0;
    while j < |tree|
      invariant j <= |tree| && NoCutBefore(tree, j)
    {
      var testEdges := RemoveAt(tree, j);
      RemoveAtMembers(tree, j);
      var c := GetComponent(testEdges, 0);
      var hasRabbits := 0 in c && 12 in c;
      var compHasMice := 3 in c || 15 in c;
      if hasRabbits && !compHasMice {
        return true, j, c;
      } else if legacy && (3 in c && 15 in c) && !(0 in c || 12 in c) {
        assert false;
      }
      forall s | IsComponent(testEdges, 0, s)
        ensures !SeparatesSpecies(s)
      {
        ComponentUnique(testEdges, 0, s, c);
      }
      j := j + 1;
    }
    return false, 0, {};
  }

  /** The primary door crosses its cut, and without it the tree no longer connects the tiles. */
  lemma DoorCrossesCut(tree: seq<Edge>, i: nat, comp: set<int>)
    requires ConnectsAll(tree) && IsCut(tree, i, comp)
    ensures Crosses(tree[i], comp)
    ensures !ConnectsAll(RemoveAt(tree, i))
  {
    assert 3 in Nodes && 3 !in comp;
    assert !Closed(tree, comp);
    var e :| e in tree && !(U(e) in comp <==> V(e) in comp);
    RemoveAtMembers(tree, i);
    var m :| 0 <= m < |tree| && tree[m] == e;
  }

  /** Both species can reach every tile through the walls they may pass. */
  ghost predicate SpeciesConnected(asg: Assignment) {
    ConnectsAll(PassableEdges(asg, Rabbit)) && ConnectsAll(PassableEdges(asg, Mouse))
  }

  /**
   * Everything one attempt computed: the shuffled edges, the spanning tree,
   * the primary door (index into the tree) and its component, the boundary
   * and the assignment.
   */
  datatype Plan = Plan(edges: seq<Edge>, tree: seq<Edge>, cutFound: bool, doorIndex: nat, comp: set<int>,
                       boundary: seq<Edge>, asg: Assignment)

  /** Everything an accepted attempt guarantees about its plan for k doors. */
  ghost predicate Accepted(p: Plan, k: nat) {
    && 1 <= k <= 3
    && multiset(p.edges) == multiset(InternalEdges())
    && NodeEdges(p.edges) && p.tree == Kruskal(p.edges, |p.edges|).tree
    && p.cutFound && IsCut(p.tree, p.doorIndex, p.comp) && NoCutBefore(p.tree, p.doorIndex)
    && p.boundary == BoundaryOf(p.edges, p.tree[p.doorIndex], p.comp)
    && k - 1 <= |p.boundary|
    && SpeciesConnected(p.asg) && Complete(p.asg, k)
    && |Doors(p.asg)| == k && Doors(p.asg)[0] == p.tree[p.doorIndex]
    && (forall j | 1 <= j < k :: Doors(p.asg)[j] in p.boundary)
  }

  /**
   * One pass of generate's retry loop, up to and including the connectivity
   * check: it is accepted exactly when a cut exists, the boundary can take
   * the extra doors and both species stay connected; an accepted assignment
   * is complete, its first door is the cut edge and the others are boundary
   * edges.
   */
  method Attempt(k: nat, legacy: bool) returns (accepted: bool, p: Plan)
    requires 1 <= k <= 3 && (legacy ==> k == 1)
    ensures multiset(p.edges) == multiset(InternalEdges())
    ensures NodeEdges(p.edges) && p.tree == Kruskal(p.edges, |p.edges|).tree
    ensures p.cutFound ==> IsCut(p.tree, p.doorIndex, p.comp) && NoCutBefore(p.tree, p.doorIndex)
    ensures !p.cutFound ==> NoCutBefore(p.tree, |p.tree|)
    ensures p.cutFound ==> p.boundary == BoundaryOf(p.edges, p.tree[p.doorIndex], p.comp)
    ensures accepted <==> p.cutFound && k - 1 <= |p.boundary| && SpeciesConnected(p.asg)
    ensures accepted ==> Complete(p.asg, k)
    ensures accepted ==> |Doors(p.asg)| == k && Doors(p.asg)[0] == p.tree[p.doorIndex]
    ensures accepted ==> forall j | 1 <= j < k :: Doors(p.asg)[j] in p.boundary
    ensures accepted ==> Accepted(p, k)
  {
    var all := GetAllInternalEdges();
    var edges := Shuffled(all);
    SpanningTreeOfGrid(edges);
    var tree := BuildSpanningTree(edges);
    KruskalSelects(edges, |edges|);
    assert edges[..|edges|] == edges;
    SelectMembers(edges, Kruskal(edges, |edges|).accepted);
    var found, i, comp := FindPrimaryDoor(tree, legacy);
    if !found {
      return false, Plan(edges, tree, false, 0, {}, [], []);
    }
    var door := tree[i];
    var ok, boundary, asg := AssignKinds(edges, tree, door, comp, k, legacy);
    p := Plan(edges, tree, true, i, comp, boundary, asg);
    if !ok {
      return false, p;
    }
    InternalEdgesAreGridEdges();
    var rabbits := CheckConnectivity(asg, Rabbit);
    var mice := false;
    if rabbits {
      mice := CheckConnectivity(asg, Mouse);
    }
    accepted := rabbits && mice;
  }
}
