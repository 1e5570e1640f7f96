/** The maze grid shared by every part of the game: cells, the four unit
    steps, open cells, and walks through open cells. A grid is a 2D array
    whose entries are 1 (wall) or 0 (open), indexed `[row, column]`. */
module Grid {

  /** A grid position `(row, column)`. */
  type Cell = (int, int)

  datatype Option<T> = None | Some(value: T)

  const WALL: int := 1
  const OPEN: int := 0

  predicate InBounds(m: array2<int>, p: Cell) {
    0 <= p.0 < m.Length0 && 0 <= p.1 < m.Length1
  }

  /** `p` lies on the grid and is not a wall. */
  predicate IsOpen(m: array2<int>, p: Cell)
    reads m
  {
    InBounds(m, p) && m[p.0, p.1] == OPEN
  }

  /** The two cells differ by one unit step along a row or a column. */
  predicate Adjacent(a: Cell, b: Cell) {
    (a.0 == b.0 && (a.1 - b.1 == 1 || b.1 - a.1 == 1)) ||
    (a.1 == b.1 && (a.0 - b.0 == 1 || b.0 - a.0 == 1))
  }

  /** The four unit steps in the order the game scans them:
      up, down, left, right. */
  function Direction(d: int): (v: Cell)
    requires 0 <= d < 4
    ensures Adjacent((0, 0), v)
  {
    if d == 0 then (-1, 0) else if d == 1 then (1, 0) else if d == 2 then (0, -1) else (0, 1)
  }

  function Step(p: Cell, d: int): Cell
    requires 0 <= d < 4
  {
    (p.0 + Direction(d).0, p.1 + Direction(d).1)
  }

  /** Every cell adjacent to `a` is one of its four steps. */
  lemma AdjacentIsStep(a: Cell, b: Cell) returns (d: int)
    requires Adjacent(a, b)
    ensures 0 <= d < 4 && b == Step(a, d)
  {
    if b.0 == a.0 - 1 { d := 0; }
    else if b.0 == a.0 + 1 { d := 1; }
    else if b.1 == a.1 - 1 { d := 2; }
    else { d := 3; }
  }

  /** The set of all positions of an `h` by `w` grid. */
  ghost function AllCells(h: int, w: int): set<Cell> {
    set r, c | 0 <= r < h && 0 <= c < w :: (r, c)
  }

  /** `path` goes from `start` to `goal` in unit steps, and every cell after
      `start` is an open cell of the grid. */
  ghost predicate IsWalk(m: array2<int>, start: Cell, goal: Cell, path: seq<Cell>)
    reads m
  {
    |path| > 0 && path[0] == start && path[|path| - 1] == goal &&
    (forall i :: 0 < i < |path| ==> IsOpen(m, path[i])) &&
    (forall i :: 0 <= i < |path| - 1 ==> Adjacent(path[i], path[i + 1]))
  }

  ghost predicate Reachable(m: array2<int>, start: Cell, goal: Cell)
    reads m
  {
    exists path :: IsWalk(m, start, goal, path)
  }

  /** Every open step out of `k` lands in `s`. */
  ghost predicate NeighboursIn(m: array2<int>, s: set<Cell>, k: Cell)
    reads m
  {
    forall d :: 0 <= d < 4 && IsOpen(m, Step(k, d)) ==> Step(k, d) in s
  }

  /** A set that holds the start and is closed under open steps holds the
      end of every walk from the start: nothing outside it is reachable. */
  lemma {:induction false} WalkStaysInClosedSet(m: array2<int>, s: set<Cell>, start: Cell, goal: Cell, path: seq<Cell>)
    requires start in s
    requires forall k :: k in s ==> NeighboursIn(m, s, k)
    requires IsWalk(m, start, goal, path)
    ensures goal in s
    decreases |path|
  {
    if |path| > 1 {
      var n := |path|;
      var prev := path[n - 2];
      assert IsWalk(m, start, prev, path[..n - 1]);
      WalkStaysInClosedSet(m, s, start, prev, path[..n - 1]);
      var d := AdjacentIsStep(prev, goal);
      assert NeighboursIn(m, s, prev);
      assert IsOpen(m, Step(prev, d));
    }
  }

  /** The reverse of `s`, as Python's `list.reverse` leaves it. */
  function Reverse<T>(s: seq<T>): (r: seq<T>)
    ensures |r| == |s|
    ensures forall i :: 0 <= i < |s| ==> r[i] == s[|s| - 1 - i]
  {
    if s == [] then [] else Reverse(s[1..]) + [s[0]]
  }

  /** A walk whose cells are all open can be walked backwards. */
  lemma ReverseOpenWalk(m: array2<int>, start: Cell, goal: Cell, path: seq<Cell>)
    requires IsWalk(m, start, goal, path) && IsOpen(m, start)
    ensures IsWalk(m, goal, start, Reverse(path))
  {
    var r := Reverse(path);
    var n := |path|;
    forall i | 0 <= i < n - 1
      ensures Adjacent(r[i], r[i + 1])
    {
      assert r[i] == path[n - 1 - i] && r[i + 1] == path[n - 2 - i];
      assert Adjacent(path[n - 2 - i], path[n - 1 - i]);
    }
    forall i | 0 < i < n
      ensures IsOpen(m, r[i])
    {
      assert r[i] == path[n - 1 - i];
    }
  }

  /** Two walks that meet can be joined. */
  lemma JoinWalks(m: array2<int>, a: Cell, b: Cell, c: Cell, p: seq<Cell>, q: seq<Cell>)
    requires IsWalk(m, a, b, p) && IsWalk(m, b, c, q)
    ensures IsWalk(m, a, c, p + q[1..])
  {
    var j := p + q[1..];
    forall i | 0 < i < |j|
      ensures IsOpen(m, j[i])
    {
      if i >= |p| { assert j[i] == q[i - |p| + 1]; }
    }
    forall i | 0 <= i < |j| - 1
      ensures Adjacent(j[i], j[i + 1])
    {
      if i >= |p| {
        assert j[i] == q[i - |p| + 1] && j[i + 1] == q[i - |p| + 2];
      } else if i == |p| - 1 {
        assert j[i] == q[0] && j[i + 1] == q[1];
      }
    }
  }
}
