/** The hexagonal map: an offset grid whose odd lines are shifted half a hex to the
    east, its six neighbour moves, and the closed-form distance between two hexes. */
module Hexmap {

  datatype Hex = Hex(line: int, column: int)

  datatype Direction = NEast | SEast | East | NWest | West | SWest

  /** The translation of one move, which depends on the parity of the line it starts from. */
  function DirToVect(parity: int, dir: Direction): Hex {
    if parity == 0 then
      match dir
      case NEast => Hex(-1, 0)
      case SEast => Hex(1, 0)
      case East  => Hex(0, 1)
      case NWest => Hex(-1, -1)
      case West  => Hex(0, -1)
      case SWest => Hex(1, -1)
    else
      match dir
      case NEast => Hex(-1, 1)
      case SEast => Hex(1, 1)
      case East  => Hex(0, 1)
      case NWest => Hex(-1, 0)
      case West  => Hex(0, -1)
      case SWest => Hex(1, 0)
  }

  function Neighbour(h: Hex, dir: Direction): Hex {
    var vect := DirToVect(h.line % 2, dir);
    Hex(h.line + vect.line, h.column + vect.column)
  }

  function Abs(x: int): nat {
    if x < 0 then -x else x
  }

  /** The closed formula. Only the parity of h1's line is inspected. */
  function HexDist(h1: Hex, h2: Hex): int {
    var diffLines := h2.line - h1.line;
    var diffCols := h2.column - h1.column;
    var absDiffL := Abs(diffLines);
    if diffLines == 0 then
      Abs(diffCols)
    else
      var thres :=
        if h1.line % 2 == 0 then
          if diffCols >= 0 then absDiffL / 2 else (absDiffL + 1) / 2
        else
          if diffCols >= 0 then (absDiffL + 1) / 2 else absDiffL / 2;
      if Abs(diffCols) <= thres then absDiffL else absDiffL + (Abs(diffCols) - thres)
  }

  // ----- the graph -----

  ghost predicate Adjacent(a: Hex, b: Hex) {
    exists dir :: Neighbour(a, dir) == b
  }

  /** p visits hexes one neighbour move at a time, from a to b; it makes |p| - 1 moves. */
  ghost predicate IsWalk(p: seq<Hex>, a: Hex, b: Hex) {
    && |p| > 0 && p[0] == a && p[|p| - 1] == b
    && forall i :: 0 <= i < |p| - 1 ==> Adjacent(p[i], p[i + 1])
  }

  predicate Between(x: int, y: int, z: int) {
    x <= y <= z || z <= y <= x
  }

  /** h lies in the bounding box of a and b. */
  predicate InBox(h: Hex, a: Hex, b: Hex) {
    Between(a.line, h.line, b.line) && Between(a.column, h.column, b.column)
  }

  // ----- skewed coordinates, in which the grid is a plain lattice -----

  function Skew(h: Hex): int {
    h.column - h.line / 2
  }

  function Opposite(dir: Direction): Direction {
    match dir
    case NEast => SWest
    case SEast => NWest
    case East => West
    case NWest => SEast
    case West => East
    case SWest => NEast
  }

  function LineStep(dir: Direction): int {
    if dir == NEast || dir == NWest then -1 else if dir == SEast || dir == SWest then 1 else 0
  }

  function SkewStep(dir: Direction): int {
    if dir == East || dir == NEast then 1 else if dir == West || dir == SWest then -1 else 0
  }

  /** What each move does, whatever the parity of the line it starts from: one line up or down, or none, and
      one step along the skewed axis or none. Half a hex to the east of the same column lies an odd line. */
  lemma MoveMeans(h: Hex)
    ensures Neighbour(h, East) == Hex(h.line, h.column + 1) && Neighbour(h, West) == Hex(h.line, h.column - 1)
    ensures forall dir :: Neighbour(h, dir).line - h.line == LineStep(dir)
    ensures forall dir :: Skew(Neighbour(h, dir)) - Skew(h) == SkewStep(dir)
    ensures forall dir :: Neighbour(Neighbour(h, dir), Opposite(dir)) == h
    ensures Neighbour(Neighbour(h, NWest), East) == Neighbour(h, NEast)
    ensures Neighbour(Neighbour(h, SWest), East) == Neighbour(h, SEast)
  {
    assert (h.line + 1) / 2 == h.line / 2 + h.line % 2 && (h.line - 1) / 2 == h.line / 2 + h.line % 2 - 1;
    assert (h.line + 1) % 2 == (h.line - 1) % 2 == 1 - h.line % 2;
  }

  function Norm(dq: int, dr: int): nat {
    if (dq >= 0) == (dr >= 0) then Abs(dq) + Abs(dr)
    else if Abs(dq) >= Abs(dr) then Abs(dq) else Abs(dr)
  }

  /** The parity-dependent formula is one norm in skewed coordinates. */
  lemma HexDistIsNorm(a: Hex, b: Hex)
    ensures HexDist(a, b) == Norm(Skew(b) - Skew(a), b.line - a.line)
  {
    var m, n := a.line / 2, b.line / 2;
    assert a.line == 2 * m + a.line % 2 && b.line == 2 * n + b.line % 2;
  }

  /** The norm as half the sum of three axes. */
  lemma NormAxes(dq: int, dr: int)
    ensures 2 * Norm(dq, dr) == Abs(dq) + Abs(dr) + Abs(dq + dr)
  {
  }

  lemma AbsTriangle(x: int, y: int)
    ensures Abs(x + y) <= Abs(x) + Abs(y) && Abs(-x) == Abs(x) && (Abs(x) == 0 <==> x == 0)
  {
  }

  lemma NormTriangle(dq: int, dr: int, eq: int, er: int)
    ensures Norm(dq + eq, dr + er) <= Norm(dq, dr) + Norm(eq, er)
    ensures Norm(-dq, -dr) == Norm(dq, dr)
    ensures Norm(dq, dr) == 0 <==> dq == 0 && dr == 0
  {
    NormAxes(dq, dr);
    NormAxes(eq, er);
    NormAxes(dq + eq, dr + er);
    NormAxes(-dq, -dr);
    AbsTriangle(dq, eq);
    AbsTriangle(dr, er);
    AbsTriangle(dq + dr, eq + er);
    hide Norm, Abs;
    assert dq + dr + (eq + er) == dq + eq + (dr + er) && -dq + -dr == -(dq + dr);
  }

  /** hexDist is a metric on the whole grid. */
  lemma HexDistIsMetric(a: Hex, b: Hex, c: Hex)
    ensures HexDist(a, b) >= 0
    ensures HexDist(a, b) == 0 <==> a == b
    ensures HexDist(a, b) == HexDist(b, a)
    ensures HexDist(a, c) <= HexDist(a, b) + HexDist(b, c)
  {
    hide HexDist, Norm;
    HexDistIsNorm(a, b);
    HexDistIsNorm(b, a);
    HexDistIsNorm(b, c);
    HexDistIsNorm(a, c);
    NormTriangle(Skew(b) - Skew(a), b.line - a.line, Skew(c) - Skew(b), c.line - b.line);
  }

  /** Being neighbours is exactly being at distance one. */
  lemma DistanceOneIsAdjacent(a: Hex, b: Hex)
    ensures HexDist(a, b) == 1 <==> Adjacent(a, b)
  {
    hide HexDist;
    HexDistIsNorm(a, b);
    if HexDist(a, b) == 1 {
      var dq, dr := Skew(b) - Skew(a), b.line - a.line;
      var dir :=
        if dr == 0 then (if dq == 1 then East else West)
        else if dr == 1 then (if dq == 0 then SEast else SWest)
        else (if dq == 0 then NWest else NEast);
      assert Neighbour(a, dir) == b;
    }
  }

  /** No walk beats the formula. */
  lemma {:induction false} NoShorterWalk(p: seq<Hex>, a: Hex, b: Hex)
    requires IsWalk(p, a, b)
    ensures |p| - 1 >= HexDist(a, b)
    decreases |p|
  {
    if |p| > 1 {
      assert Adjacent(p[0], p[0 + 1]);
      DistanceOneIsAdjacent(a, p[1]);
      assert IsWalk(p[1..], p[1], b) by {
        forall i | 0 <= i < |p[1..]| - 1 ensures Adjacent(p[1..][i], p[1..][i + 1]) {
          assert Adjacent(p[i + 1], p[i + 1 + 1]);
        }
      }
      NoShorterWalk(p[1..], p[1], b);
      HexDistIsMetric(a, p[1], b);
    } else {
      HexDistIsMetric(a, b, b);
    }
  }

  function Heading(a: Hex, b: Hex): Direction {
    if a.line == b.line then
      if a.column < b.column then East else West
    else
      var east := a.column < b.column || (a.column == b.column && a.line % 2 == 0);
      if a.line < b.line then (if east then SEast else SWest)
      else (if east then NEast else NWest)
  }

  lemma HeadingIsCloser(a: Hex, b: Hex)
    requires a != b
    ensures HexDist(Neighbour(a, Heading(a, b)), b) == HexDist(a, b) - 1
  {
    if a.line < b.line {
      HeadingDown(a, b);
    } else if a.line > b.line {
      HeadingUp(a, b);
    }
  }

  lemma HeadingDown(a: Hex, b: Hex)
    requires a.line < b.line
    ensures HexDist(Neighbour(a, Heading(a, b)), b) == HexDist(a, b) - 1
  {
  }

  lemma HeadingUp(a: Hex, b: Hex)
    requires a.line > b.line
    ensures HexDist(Neighbour(a, Heading(a, b)), b) == HexDist(a, b) - 1
  {
  }

  /** A move that comes one step closer to b without leaving the box of a and b. */
  function Toward(a: Hex, b: Hex): (dir: Direction)
    requires a != b
    ensures HexDist(Neighbour(a, dir), b) == HexDist(a, b) - 1
    ensures InBox(Neighbour(a, dir), a, b)
  {
    HeadingIsCloser(a, b);
    Heading(a, b)
  }

  /** Some walk meets the formula, and it never leaves the bounding box of its ends. */
  lemma {:induction false} DirectWalk(a: Hex, b: Hex) returns (p: seq<Hex>)
    ensures IsWalk(p, a, b) && |p| - 1 == HexDist(a, b)
    ensures forall h | h in p :: InBox(h, a, b)
    decreases HexDist(a, b)
  {
    HexDistIsMetric(a, b, b);
    if a == b {
      p := [a];
    } else {
      var next := Neighbour(a, Toward(a, b));
      var rest := DirectWalk(next, b);
      p := [a] + rest;
      forall i | 0 <= i < |p| - 1 ensures Adjacent(p[i], p[i + 1]) {
        if i > 0 {
          assert Adjacent(rest[i - 1], rest[i - 1 + 1]);
        }
      }
    }
  }

  /** hexDist is the length of the shortest walk. */
  lemma HexDistIsShortestWalk(a: Hex, b: Hex)
    ensures exists p :: IsWalk(p, a, b) && |p| - 1 == HexDist(a, b)
    ensures forall p | IsWalk(p, a, b) :: |p| - 1 >= HexDist(a, b)
  {
    var _ := DirectWalk(a, b);
    forall p | IsWalk(p, a, b) ensures |p| - 1 >= HexDist(a, b) {
      NoShorterWalk(p, a, b);
    }
  }

  // ----- the map itself -----

  datatype Hexagon = Hexagon(coord: Hex)

  class Map {
    const nbLines: int
    const nbColumns: int
    var hex: array2<Hexagon>

    predicate InRange(c: Hex) {
      c.line >= 0 && c.column >= 0 && c.line < nbLines && c.column < nbColumns
    }

    /** Every hexagon of the array carries its own coordinates. */
    ghost predicate Valid()
      reads this, hex
    {
      && hex.Length0 == nbLines && hex.Length1 == nbColumns
      && forall c | InRange(c) :: hex[c.line, c.column].coord == c
    }

    constructor (lines: int, columns: int)
      requires lines > 0 && columns > 0
      ensures Valid() && nbLines == lines && nbColumns == columns
      ensures fresh(hex)
    {
      nbLines := lines;
      nbColumns := columns;
      hex := new Hexagon[lines, columns]((_, _) => Hexagon(Hex(0, 0)));
      new;
      for line := 0 to lines
        invariant hex.Length0 == lines && hex.Length1 == columns && fresh(hex)
        invariant forall l, c | 0 <= l < line && 0 <= c < columns :: hex[l, c].coord == Hex(l, c)
      {
        for col := 0 to columns
          invariant hex.Length0 == lines && hex.Length1 == columns && fresh(hex)
          invariant forall l, c | 0 <= l < line && 0 <= c < columns :: hex[l, c].coord == Hex(l, c)
          invariant forall c | 0 <= c < col :: hex[line, c].coord == Hex(line, c)
        {
          hex[line, col] := Hexagon(Hex(line, col));
        }
      }
    }

    /** The hexes in range are exactly those the array holds. */
    lemma InRangeIsIndex(c: Hex)
      requires Valid()
      ensures InRange(c) <==> 0 <= c.line < hex.Length0 && 0 <= c.column < hex.Length1
    {
    }

    method GetHex(c: Hex) returns (h: Hexagon)
      requires Valid() && InRange(c)
      ensures h.coord == c
    {
      h := hex[c.line, c.column];
    }

    /** Between two hexes of the map the formula is also the shortest walk that stays on the map. */
    lemma HexDistIsShortestOnMap(a: Hex, b: Hex)
      requires InRange(a) && InRange(b)
      ensures exists p :: IsWalk(p, a, b) && |p| - 1 == HexDist(a, b) && forall h | h in p :: InRange(h)
      ensures forall p | IsWalk(p, a, b) && (forall h | h in p :: InRange(h)) :: |p| - 1 >= HexDist(a, b)
    {
      var p := DirectWalk(a, b);
      assert forall h | h in p :: InRange(h);
      HexDistIsShortestWalk(a, b);
    }
  }
}
