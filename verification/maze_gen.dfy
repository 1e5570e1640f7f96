/** Maze carving (`generate_maze`) and the boundary openings
    (`add_entrance_exit`) of source/main.py. */
module MazeGen {
  import opened Grid

  /** A "room": a cell with both coordinates odd, strictly inside rows
      `(0, h)` and columns `(0, w)`. The carver only ever stands on rooms. */
  predicate Room(p: Cell, h: int, w: int) {
    0 < p.0 < h && 0 < p.1 < w && p.0 % 2 == 1 && p.1 % 2 == 1
  }

  /** The four moves of the carver, two cells at a time, in the order the
      source tries them: up, down, left, right. */
  function Jump(p: Cell, d: int): Cell
    requires 0 <= d < 4
  {
    (p.0 + 2 * Direction(d).0, p.1 + 2 * Direction(d).1)
  }

  /** The carver may move from a room at `p` to `q`: one jump away and
      strictly inside the grid, as the test `0 < nr < h and 0 < nc < w`. */
  predicate JumpTarget(p: Cell, q: Cell, h: int, w: int) {
    0 < q.0 < h && 0 < q.1 < w &&
    (q == Jump(p, 0) || q == Jump(p, 1) || q == Jump(p, 2) || q == Jump(p, 3))
  }

  /** The open cells of a grid. */
  ghost function OpenCells(m: array2<int>): set<Cell>
    reads m
  {
    set r, c | 0 <= r < m.Length0 && 0 <= c < m.Length1 && m[r, c] == OPEN :: (r, c)
  }

  lemma OpenCellsAreOpen(m: array2<int>)
    ensures forall p :: p in OpenCells(m) <==> IsOpen(m, p)
  {
    forall p | IsOpen(m, p)
      ensures p in OpenCells(m)
    {
      var (r, c) := p;
      assert 0 <= r < m.Length0 && 0 <= c < m.Length1 && m[r, c] == OPEN;
    }
  }

  /** The shape of a carved grid, with open cells `s`, at a cell `p`:
      either a room, or the wall midway between two open rooms. */
  predicate CarvedAt(s: set<Cell>, p: Cell, h: int, w: int) {
    Room(p, h, w) ||
    (p.0 % 2 == 0 && p.1 % 2 == 1 && 0 < p.0 < h - 1 && 0 < p.1 < w && (p.0 - 1, p.1) in s && (p.0 + 1, p.1) in s) ||
    (p.0 % 2 == 1 && p.1 % 2 == 0 && 0 < p.1 < w - 1 && 0 < p.0 < h && (p.0, p.1 - 1) in s && (p.0, p.1 + 1) in s)
  }

  /** Every open cell has the carved shape. */
  ghost predicate Carved(s: set<Cell>, h: int, w: int) {
    forall p {:trigger CarvedAt(s, p, h, w)} :: p in s ==> CarvedAt(s, p, h, w)
  }

  ghost predicate CarvedShape(m: array2<int>)
    reads m
  {
    Carved(OpenCells(m), m.Length0, m.Length1)
  }

  /** Every cell is a wall or open. */
  ghost predicate Binary(m: array2<int>)
    reads m
  {
    forall r, c :: 0 <= r < m.Length0 && 0 <= c < m.Length1 ==> m[r, c] == WALL || m[r, c] == OPEN
  }

  /** All jump targets of the room at `p` are open: the carver has nothing
      left to do there. */
  ghost predicate Finished(s: set<Cell>, p: Cell, h: int, w: int) {
    forall d :: 0 <= d < 4 && JumpTarget(p, Jump(p, d), h, w) ==> Jump(p, d) in s
  }

  /** Every open room that is not waiting on the carver's stack is finished. */
  ghost predicate Settled(s: set<Cell>, stack: seq<Cell>, h: int, w: int) {
    forall p {:trigger Finished(s, p, h, w)} :: p in s && Room(p, h, w) && p !in stack ==> Finished(s, p, h, w)
  }

  /** The open cell `p` hangs off an open neighbour one level closer to the
      root. */
  ghost predicate Linked(s: set<Cell>, parent: map<Cell, Cell>, depth: map<Cell, nat>, p: Cell) {
    p in parent && p in depth && parent[p] in depth && depth[parent[p]] < depth[p] &&
    Adjacent(parent[p], p) && parent[p] in s
  }

  /** `parent` and `depth` witness that every open cell is joined to the room
      `(1, 1)`: each other open cell is linked to an open neighbour. */
  ghost predicate Rooted(s: set<Cell>, parent: map<Cell, Cell>, depth: map<Cell, nat>) {
    (1, 1) in depth &&
    forall p {:trigger Linked(s, parent, depth, p)} :: p in s && p != (1, 1) ==> Linked(s, parent, depth, p)
  }

  /** Follows parents from an open cell down to `(1, 1)`. */
  lemma {:induction false} RootedIsConnected(m: array2<int>, parent: map<Cell, Cell>, depth: map<Cell, nat>, p: Cell)
    requires Rooted(OpenCells(m), parent, depth) && IsOpen(m, p) && IsOpen(m, (1, 1))
    ensures Reachable(m, (1, 1), p)
    decreases if p in depth then depth[p] else 0
  {
    OpenCellsAreOpen(m);
    if p == (1, 1) {
      assert IsWalk(m, (1, 1), p, [p]);
    } else {
      assert Linked(OpenCells(m), parent, depth, p);
      var q := parent[p];
      RootedIsConnected(m, parent, depth, q);
      var walk :| IsWalk(m, (1, 1), q, walk);
      assert IsWalk(m, (1, 1), p, walk + [p]);
    }
  }

  /** Once every open room is finished, every room is open: the carver
      reaches all of them. */
  lemma {:induction false} AllRoomsOpen(s: set<Cell>, h: int, w: int, p: Cell)
    requires (1, 1) in s && Settled(s, [], h, w)
    requires Room(p, h, w)
    ensures p in s
    decreases p.0 + p.1
  {
    if p.0 > 1 {
      var q := (p.0 - 2, p.1);
      AllRoomsOpen(s, h, w, q);
      assert Finished(s, q, h, w);
      assert Jump(q, 1) == p;
    } else if p.1 > 1 {
      var q := (p.0, p.1 - 2);
      AllRoomsOpen(s, h, w, q);
      assert Finished(s, q, h, w);
      assert Jump(q, 3) == p;
    }
  }

  /** With odd sizes a carved grid keeps its outer border wall: rooms have
      odd coordinates, and the last row and column are even. */
  lemma CarvedBorderIsWall(m: array2<int>)
    requires CarvedShape(m) && m.Length0 % 2 == 1 && m.Length1 % 2 == 1
    ensures forall r, c ::
              0 <= r < m.Length0 && 0 <= c < m.Length1 && (r == 0 || r == m.Length0 - 1 || c == 0 || c == m.Length1 - 1)
              ==> m[r, c] != OPEN
  {
    OpenCellsAreOpen(m);
    forall r, c | 0 <= r < m.Length0 && 0 <= c < m.Length1 && (r == 0 || r == m.Length0 - 1 || c == 0 || c == m.Length1 - 1)
      ensures m[r, c] != OPEN
    {
      assert !CarvedAt(OpenCells(m), (r, c), m.Length0, m.Length1);
      assert !IsOpen(m, (r, c));
    }
  }

  /** A carved grid has no two-by-two block of open cells: every such block
      holds a cell with both coordinates even, and those are never open. */
  lemma CarvedHasNoOpenSquare(m: array2<int>)
    requires CarvedShape(m)
    ensures forall r, c :: 0 <= r < m.Length0 - 1 && 0 <= c < m.Length1 - 1 ==>
              !(m[r, c] == OPEN && m[r + 1, c] == OPEN && m[r, c + 1] == OPEN && m[r + 1, c + 1] == OPEN)
  {
    OpenCellsAreOpen(m);
    forall r, c | 0 <= r < m.Length0 - 1 && 0 <= c < m.Length1 - 1
      ensures !(m[r, c] == OPEN && m[r + 1, c] == OPEN && m[r, c + 1] == OPEN && m[r + 1, c + 1] == OPEN)
    {
      var er := if r % 2 == 0 then r else r + 1;
      var ec := if c % 2 == 0 then c else c + 1;
      assert !CarvedAt(OpenCells(m), (er, ec), m.Length0, m.Length1);
      assert !IsOpen(m, (er, ec));
    }
  }

  /** The cells among the first `d` jumps from `p` that lie strictly inside
      the grid and are still walls, in jump order. */
  function JumpWalls(m: array2<int>, p: Cell, d: int): seq<Cell>
    reads m
    requires 0 <= d <= 4
  {
    if d == 0 then []
    else
      var q := Jump(p, d - 1);
      JumpWalls(m, p, d - 1) +
      (if 0 < q.0 < m.Length0 && 0 < q.1 < m.Length1 && m[q.0, q.1] == WALL then [q] else [])
  }

  /** The rooms one jump from `p` that are still walls, in the order the
      source collects them into `neighbors`. */
  method WallJumps(maze: array2<int>, p: Cell) returns (neighbors: seq<Cell>)
    ensures neighbors == JumpWalls(maze, p, 4)
    ensures forall i :: 0 <= i < |neighbors| ==>
              JumpTarget(p, neighbors[i], maze.Length0, maze.Length1) &&
              maze[neighbors[i].0, neighbors[i].1] == WALL
    ensures forall d ::
              0 <= d < 4 && JumpTarget(p, Jump(p, d), maze.Length0, maze.Length1) && maze[Jump(p, d).0, Jump(p, d).1] == WALL
              ==> Jump(p, d) in neighbors
  {
    neighbors := [];
    for d := 0 to 4
      invariant neighbors == JumpWalls(maze, p, d)
      invariant forall i :: 0 <= i < |neighbors| ==>
                  JumpTarget(p, neighbors[i], maze.Length0, maze.Length1) &&
                  maze[neighbors[i].0, neighbors[i].1] == WALL
      invariant forall e ::
                  0 <= e < d && JumpTarget(p, Jump(p, e), maze.Length0, maze.Length1) && maze[Jump(p, e).0, Jump(p, e).1] == WALL
                  ==> Jump(p, e) in neighbors
    {
      var q := Jump(p, d);
      if 0 < q.0 < maze.Length0 && 0 < q.1 < maze.Length1 && maze[q.0, q.1] == WALL {
        neighbors := neighbors + [q];
      }
    }
  }

  /** The cell halfway between a room and a room one jump away. */
  function Midway(a: Cell, b: Cell): Cell {
    (a.0 + (b.0 - a.0) / 2, a.1 + (b.1 - a.1) / 2)
  }

  /** `mid` lies on the axis between the rooms `top` and `chosen`. */
  predicate Between(top: Cell, mid: Cell, chosen: Cell, h: int, w: int) {
    (mid.0 % 2 == 0 && mid.1 % 2 == 1 && 0 < mid.0 < h - 1 && 0 < mid.1 < w &&
      ((top == (mid.0 - 1, mid.1) && chosen == (mid.0 + 1, mid.1)) ||
       (top == (mid.0 + 1, mid.1) && chosen == (mid.0 - 1, mid.1)))) ||
    (mid.0 % 2 == 1 && mid.1 % 2 == 0 && 0 < mid.1 < w - 1 && 0 < mid.0 < h &&
      ((top == (mid.0, mid.1 - 1) && chosen == (mid.0, mid.1 + 1)) ||
       (top == (mid.0, mid.1 + 1) && chosen == (mid.0, mid.1 - 1))))
  }

  /** The geometry of one jump: the jumped-over cell lies between the two
      rooms, one step from each. */
  lemma JumpGeometry(top: Cell, chosen: Cell, h: int, w: int)
    requires Room(top, h, w) && JumpTarget(top, chosen, h, w)
    ensures Room(chosen, h, w) && !Room(Midway(top, chosen), h, w)
    ensures Between(top, Midway(top, chosen), chosen, h, w)
    ensures Adjacent(top, Midway(top, chosen)) && Adjacent(Midway(top, chosen), chosen)
  {
  }

  /** The facts about one carving step that the grid itself supplies: the
      jumped-over cell and the chosen room are still walls. */
  lemma StepFacts(maze: array2<int>, top: Cell, chosen: Cell)
    requires Carved(OpenCells(maze), maze.Length0, maze.Length1)
    requires Room(top, maze.Length0, maze.Length1) && JumpTarget(top, chosen, maze.Length0, maze.Length1)
    requires maze[chosen.0, chosen.1] == WALL
    ensures chosen !in OpenCells(maze) && Midway(top, chosen) !in OpenCells(maze)
    ensures chosen in AllCells(maze.Length0, maze.Length1)
    ensures OpenCells(maze) <= AllCells(maze.Length0, maze.Length1)
  {
    OpenCellsAreOpen(maze);
    JumpGeometry(top, chosen, maze.Length0, maze.Length1);
    assert !CarvedAt(OpenCells(maze), Midway(top, chosen), maze.Length0, maze.Length1);
  }

  /** One carving step on the set of open cells: opening the wall `mid` and
      the room `chosen` beyond it keeps the carved shape and the parent
      witness (with `mid` hung off `top` and `chosen` off `mid`), and leaves
      finished rooms finished. */
  lemma CarvingStep(s: set<Cell>, h: int, w: int, stack: seq<Cell>, top: Cell, mid: Cell, chosen: Cell,
                    parent: map<Cell, Cell>, depth: map<Cell, nat>)
    requires Carved(s, h, w) && Rooted(s, parent, depth) && Settled(s, stack, h, w)
    requires Between(top, mid, chosen, h, w) && Room(chosen, h, w) && !Room(mid, h, w)
    requires Adjacent(top, mid) && Adjacent(mid, chosen)
    requires top in s && mid !in s && chosen !in s
    ensures top in depth
    ensures Carved(s + {mid, chosen}, h, w) && Settled(s + {mid, chosen}, stack + [chosen], h, w)
    ensures Rooted(s + {mid, chosen}, parent[mid := top][chosen := mid],
                   depth[mid := depth[top] + 1][chosen := depth[top] + 2])
  {
    var s' := s + {mid, chosen};
    forall p | p in s'
      ensures CarvedAt(s', p, h, w)
    {
      if p != mid && p != chosen {
        assert CarvedAt(s, p, h, w);
      }
    }
    assert top == (1, 1) || Linked(s, parent, depth, top);
    var parent' := parent[mid := top][chosen := mid];
    var depth' := depth[mid := depth[top] + 1][chosen := depth[top] + 2];
    forall p | p in s' && p != (1, 1)
      ensures Linked(s', parent', depth', p)
    {
      if p != mid && p != chosen {
        assert Linked(s, parent, depth, p);
      }
    }
    forall p | p in s' && Room(p, h, w) && p !in stack + [chosen]
      ensures Finished(s', p, h, w)
    {
      assert Finished(s, p, h, w);
    }
  }

  /** Opens the wall between the open room `top` and the room `chosen` one
      jump away, and `chosen` itself: exactly those two cells join the open
      cells. */
  method OpenPassage(maze: array2<int>, top: Cell, chosen: Cell) returns (mid: Cell)
    requires Room(top, maze.Length0, maze.Length1) && JumpTarget(top, chosen, maze.Length0, maze.Length1)
    requires Binary(maze)
    modifies maze
    ensures mid == Midway(top, chosen)
    ensures Binary(maze) && OpenCells(maze) == old(OpenCells(maze)) + {mid, chosen}
  {
    JumpGeometry(top, chosen, maze.Length0, maze.Length1);
    mid := Midway(top, chosen);
    ghost var before := OpenCells(maze);
    OpenCellsAreOpen(maze);
    maze[mid.0, mid.1] := OPEN;
    maze[chosen.0, chosen.1] := OPEN;
    OpenCellsAreOpen(maze);
  }

  /** A room with no wall left one jump away is finished. */
  lemma NoWallJumpsFinished(maze: array2<int>, top: Cell)
    requires Binary(maze)
    requires forall d :: 0 <= d < 4 && JumpTarget(top, Jump(top, d), maze.Length0, maze.Length1) ==>
               maze[Jump(top, d).0, Jump(top, d).1] != WALL
    ensures Finished(OpenCells(maze), top, maze.Length0, maze.Length1)
  {
    OpenCellsAreOpen(maze);
    forall d | 0 <= d < 4 && JumpTarget(top, Jump(top, d), maze.Length0, maze.Length1)
      ensures Jump(top, d) in OpenCells(maze)
    {
      assert IsOpen(maze, Jump(top, d));
    }
  }

  /** When the carver's stack is empty, every room is open and every open
      cell is joined to `(1, 1)`. */
  lemma CarvingDone(maze: array2<int>, parent: map<Cell, Cell>, depth: map<Cell, nat>)
    requires (1, 1) in OpenCells(maze)
    requires Settled(OpenCells(maze), [], maze.Length0, maze.Length1) && Rooted(OpenCells(maze), parent, depth)
    ensures forall p :: Room(p, maze.Length0, maze.Length1) ==> IsOpen(maze, p)
    ensures forall p :: IsOpen(maze, p) ==> Reachable(maze, (1, 1), p)
  {
    OpenCellsAreOpen(maze);
    forall p | Room(p, maze.Length0, maze.Length1)
      ensures IsOpen(maze, p)
    {
      AllRoomsOpen(OpenCells(maze), maze.Length0, maze.Length1, p);
    }
    forall p | IsOpen(maze, p)
      ensures Reachable(maze, (1, 1), p)
    {
      RootedIsConnected(maze, parent, depth, p);
    }
  }

  /** The open rooms among `s`: the vertices of the maze seen as a graph. */
  ghost function OpenRooms(s: set<Cell>, h: int, w: int): set<Cell> {
    set p | p in s && Room(p, h, w)
  }

  /** The open cells of `s` that are not rooms: each is a knocked-out wall
      joining two open rooms, an edge of the maze seen as a graph. */
  ghost function OpenWalls(s: set<Cell>, h: int, w: int): set<Cell> {
    set p | p in s && !Room(p, h, w)
  }

  /** What holds between two rounds of the carver about the open cells
      `s`: the stack holds open rooms, the open cells have the carved shape,
      rooms off the stack are finished, `parent`/`depth` join every open
      cell to `(1, 1)`, and there is one knocked-out wall fewer than open
      rooms. */
  ghost predicate CarverShape(s: set<Cell>, stack: seq<Cell>, parent: map<Cell, Cell>, depth: map<Cell, nat>,
                              h: int, w: int)
  {
    (1, 1) in s && s <= AllCells(h, w) &&
    (forall i :: 0 <= i < |stack| ==> Room(stack[i], h, w) && stack[i] in s) &&
    Carved(s, h, w) && Settled(s, stack, h, w) && Rooted(s, parent, depth) &&
    |OpenWalls(s, h, w)| + 1 == |OpenRooms(s, h, w)|
  }

  /** Opening a room and the wall in front of it adds one vertex and one
      edge. */
  lemma OneRoomOneWall(s: set<Cell>, h: int, w: int, mid: Cell, chosen: Cell)
    requires Room(chosen, h, w) && !Room(mid, h, w) && mid !in s && chosen !in s
    ensures OpenRooms(s + {mid, chosen}, h, w) == OpenRooms(s, h, w) + {chosen}
    ensures OpenWalls(s + {mid, chosen}, h, w) == OpenWalls(s, h, w) + {mid}
    ensures |OpenRooms(s + {mid, chosen}, h, w)| == |OpenRooms(s, h, w)| + 1
    ensures |OpenWalls(s + {mid, chosen}, h, w)| == |OpenWalls(s, h, w)| + 1
  {
    assert chosen !in OpenRooms(s, h, w) && mid !in OpenWalls(s, h, w);
  }

  /** Pushing a freshly opened room keeps the carver's invariant. */
  lemma PushKeeps(s: set<Cell>, stack: seq<Cell>, parent: map<Cell, Cell>, depth: map<Cell, nat>,
                  h: int, w: int, top: Cell, chosen: Cell)
    requires CarverShape(s, stack, parent, depth, h, w) && stack != [] && top == stack[|stack| - 1]
    requires JumpTarget(top, chosen, h, w) && chosen in AllCells(h, w)
    requires chosen !in s && Midway(top, chosen) !in s
    ensures top in depth
    ensures var mid := Midway(top, chosen);
      CarverShape(s + {mid, chosen}, stack + [chosen], parent[mid := top][chosen := mid],
                  depth[mid := depth[top] + 1][chosen := depth[top] + 2], h, w)
  {
    JumpGeometry(top, chosen, h, w);
    var mid := Midway(top, chosen);
    CarvingStep(s, h, w, stack, top, mid, chosen, parent, depth);
    OneRoomOneWall(s, h, w, mid, chosen);
    var stack' := stack + [chosen];
    forall i | 0 <= i < |stack'|
      ensures Room(stack'[i], h, w) && stack'[i] in s + {mid, chosen}
    {
      if i < |stack| { assert stack'[i] == stack[i]; }
    }
  }

  /** Popping a finished room keeps the carver's invariant. */
  lemma PopKeeps(s: set<Cell>, stack: seq<Cell>, parent: map<Cell, Cell>, depth: map<Cell, nat>, h: int, w: int)
    requires CarverShape(s, stack, parent, depth, h, w) && stack != []
    requires Finished(s, stack[|stack| - 1], h, w)
    ensures CarverShape(s, stack[..|stack| - 1], parent, depth, h, w)
  {
    var top := stack[|stack| - 1];
    forall p | p in s && Room(p, h, w) && p !in stack[..|stack| - 1]
      ensures Finished(s, p, h, w)
    {
      if p != top {
        assert stack == stack[..|stack| - 1] + [top];
        assert p !in stack;
      }
    }
  }

  /** One round of the carver's loop: look at the top of the stack; if some
      room a jump away is still a wall, pick one with the next draw, open it
      and the wall in between, and push it; otherwise pop. Each round opens
      cells or shrinks the stack. */
  method CarveRound(maze: array2<int>, stack: seq<Cell>, draws: nat -> nat, k: nat,
                    ghost parent: map<Cell, Cell>, ghost depth: map<Cell, nat>)
    returns (stack': seq<Cell>, k': nat, ghost parent': map<Cell, Cell>, ghost depth': map<Cell, nat>)
    requires |stack| > 0 && Binary(maze)
    requires CarverShape(OpenCells(maze), stack, parent, depth, maze.Length0, maze.Length1)
    modifies maze
    ensures Binary(maze) && CarverShape(OpenCells(maze), stack', parent', depth', maze.Length0, maze.Length1)
    ensures old(OpenCells(maze)) < OpenCells(maze) || (old(OpenCells(maze)) == OpenCells(maze) && |stack'| < |stack|)
    ensures var top := stack[|stack| - 1];
      var options := old(JumpWalls(maze, top, 4));
      if |options| > 0 then
        var chosen := options[draws(k) % |options|];
        k' == k + 1 && stack' == stack + [chosen] &&
        OpenCells(maze) == old(OpenCells(maze)) + {Midway(top, chosen), chosen}
      else
        k' == k && stack' == stack[..|stack| - 1] && unchanged(maze)
  {
    var h, w := maze.Length0, maze.Length1;
    var top := stack[|stack| - 1];
    var neighbors := WallJumps(maze, top);
    ghost var s := OpenCells(maze);
    if |neighbors| > 0 {
      var chosen := neighbors[draws(k) % |neighbors|];
      k' := k + 1;
      StepFacts(maze, top, chosen);
      PushKeeps(s, stack, parent, depth, h, w, top, chosen);
      var mid := OpenPassage(maze, top, chosen);
      assert chosen in OpenCells(maze) - s;
      parent' := parent[mid := top][chosen := mid];
      depth' := depth[mid := depth[top] + 1][chosen := depth[top] + 2];
      stack' := stack + [chosen];
    } else {
      k', parent', depth' := k, parent, depth;
      NoWallJumpsFinished(maze, top);
      PopKeeps(s, stack, parent, depth, h, w);
      stack' := stack[..|stack| - 1];
    }
  }

  /** Randomized depth-first carving. All cells start as walls; from the room
      `(1, 1)` the carver repeatedly looks at the top of its stack, picks one
      of the rooms a jump away that are still walls, opens it and the wall in
      between and pushes it, or pops when there is none. The `k`-th pick takes
      index `draws(k) % |neighbors|`, standing for `random.choice`.

      The result has the carved shape, opens every room, and every open cell
      is joined to `(1, 1)` through open cells. Seen as a graph whose
      vertices are the open rooms and whose edges are the knocked-out walls
      (each joins two open rooms), it has one edge fewer than vertices: a
      connected graph of that size is a tree, the perfect maze. */
  method GenerateMaze(w: int, h: int, draws: nat -> nat) returns (maze: array2<int>)
    requires 2 <= w && 2 <= h
    ensures fresh(maze) && maze.Length0 == h && maze.Length1 == w
    ensures Binary(maze) && CarvedShape(maze)
    ensures forall p :: Room(p, h, w) ==> IsOpen(maze, p)
    ensures forall p :: IsOpen(maze, p) ==> Reachable(maze, (1, 1), p)
    ensures |OpenWalls(OpenCells(maze), h, w)| + 1 == |OpenRooms(OpenCells(maze), h, w)|
  {
    maze := new int[h, w]((r, c) => WALL);
    maze[1, 1] := OPEN;
    var stack: seq<Cell> := [(1, 1)];
    var k: nat := 0;
    ghost var parent: map<Cell, Cell> := map[];
    ghost var depth: map<Cell, nat> := map[(1, 1) := 0];
    OpenCellsAreOpen(maze);
    assert OpenCells(maze) == {(1, 1)};
    assert OpenRooms({(1, 1)}, h, w) == {(1, 1)} && OpenWalls({(1, 1)}, h, w) == {};
    while |stack| > 0
      invariant Binary(maze) && CarverShape(OpenCells(maze), stack, parent, depth, h, w)
      decreases AllCells(h, w) - OpenCells(maze), |stack|
    {
      stack, k, parent, depth := CarveRound(maze, stack, draws, k, parent, depth);
    }
    CarvingDone(maze, parent, depth);
  }

  /** The odd columns `1, 3, 5, ...` below `w`, in increasing order: Python's
      `range(1, w, 2)`. */
  function OddColumns(w: int): (cols: seq<int>)
    ensures |cols| == if w <= 0 then 0 else w / 2
    ensures forall i :: 0 <= i < |cols| ==> cols[i] == 2 * i + 1
    ensures forall c :: c in cols <==> 1 <= c < w && c % 2 == 1
  {
    if w <= 1 then []
    else if w % 2 == 0 then OddColumns(w - 1) + [w - 1]
    else OddColumns(w - 1)
  }

  /** The columns of `cols` whose cell in row `row` is open, in order. */
  function OpenColumns(m: array2<int>, row: int, cols: seq<int>): (r: seq<int>)
    reads m
    requires 0 <= row < m.Length0 && forall c :: c in cols ==> 0 <= c < m.Length1
    ensures forall c :: c in r <==> c in cols && m[row, c] == OPEN
    ensures |r| <= |cols|
  {
    if cols == [] then []
    else
      assert cols[0] in cols && forall c :: c in cols[1..] ==> c in cols;
      if m[row, cols[0]] == OPEN then [cols[0]] + OpenColumns(m, row, cols[1..])
    else OpenColumns(m, row, cols[1..])
  }

  /** The columns the source draws from for the opening next to row `row`:
      the odd columns whose cell in that row is open, or all odd columns when
      there is none. */
  function Candidates(m: array2<int>, row: int): (cols: seq<int>)
    reads m
    requires 0 <= row < m.Length0
    ensures forall c :: c in cols ==> 1 <= c < m.Length1 && c % 2 == 1
    ensures |cols| > 0 <==> 2 <= m.Length1
    ensures (forall c :: c in cols ==> m[row, c] == OPEN) || cols == OddColumns(m.Length1)
  {
    var open := OpenColumns(m, row, OddColumns(m.Length1));
    if open != [] then assert open[0] in open; open else OddColumns(m.Length1)
  }

  /** Every candidate is an odd column inside the grid; there is one as soon
      as the grid has two columns; and an open odd column in the row, if
      there is one, rules out every closed one. */
  lemma CandidatesChoice(m: array2<int>, row: int)
    requires 0 <= row < m.Length0 && 2 <= m.Length1
    ensures |Candidates(m, row)| > 0
    ensures forall c :: c in Candidates(m, row) ==> 1 <= c < m.Length1 && c % 2 == 1
    ensures (exists c :: 1 <= c < m.Length1 && c % 2 == 1 && m[row, c] == OPEN) ==>
              forall c :: c in Candidates(m, row) ==> m[row, c] == OPEN
    ensures (forall c :: 1 <= c < m.Length1 && c % 2 == 1 ==> m[row, c] != OPEN) ==>
              Candidates(m, row) == OddColumns(m.Length1)
  {
    var cols := OddColumns(m.Length1);
    assert 1 in cols;
    var open := OpenColumns(m, row, cols);
    if exists c :: 1 <= c < m.Length1 && c % 2 == 1 && m[row, c] == OPEN {
      var c :| 1 <= c < m.Length1 && c % 2 == 1 && m[row, c] == OPEN;
      assert c in open;
    }
    if forall c :: 1 <= c < m.Length1 && c % 2 == 1 ==> m[row, c] != OPEN {
      if open != [] {
        assert open[0] in open;
      }
    }
  }

  /** Opens one exit cell in the top row and one entrance cell in the bottom
      row. The exit column is drawn (`exitPick`) from the odd columns whose
      cell in row 1 is open, the entrance column (`entrancePick`) from those
      open in row `h - 2`, each falling back to all odd columns; both draws
      look at the grid before either cell is written. */
  method AddEntranceExit(maze: array2<int>, exitPick: nat, entrancePick: nat) returns (entrance: Cell, exitCell: Cell)
    requires 2 <= maze.Length0 && 2 <= maze.Length1
    modifies maze
    ensures var top := old(Candidates(maze, 1));
      |top| > 0 && exitCell == (0, top[exitPick % |top|])
    ensures var bottom := old(Candidates(maze, maze.Length0 - 2));
      |bottom| > 0 && entrance == (maze.Length0 - 1, bottom[entrancePick % |bottom|])
    ensures 1 <= exitCell.1 < maze.Length1 && exitCell.1 % 2 == 1
    ensures 1 <= entrance.1 < maze.Length1 && entrance.1 % 2 == 1
    ensures maze[exitCell.0, exitCell.1] == OPEN && maze[entrance.0, entrance.1] == OPEN
    ensures forall r, c :: 0 <= r < maze.Length0 && 0 <= c < maze.Length1 && (r, c) != entrance && (r, c) != exitCell ==>
              maze[r, c] == old(maze[r, c])
    ensures OpenCells(maze) == old(OpenCells(maze)) + {entrance, exitCell}
  {
    var h, w := maze.Length0, maze.Length1;
    CandidatesChoice(maze, 1);
    CandidatesChoice(maze, h - 2);
    var topCandidates := Candidates(maze, 1);
    var exitCol := topCandidates[exitPick % |topCandidates|];
    var bottomCandidates := Candidates(maze, h - 2);
    var entranceCol := bottomCandidates[entrancePick % |bottomCandidates|];
    assert exitCol in topCandidates && entranceCol in bottomCandidates;
    ghost var before := OpenCells(maze);
    OpenCellsAreOpen(maze);
    maze[0, exitCol] := OPEN;
    maze[h - 1, entranceCol] := OPEN;
    entrance, exitCell := (h - 1, entranceCol), (0, exitCol);
    forall p | p != entrance && p != exitCell
      ensures p in before <==> IsOpen(maze, p)
    {
      if InBounds(maze, p) {
        assert maze[p.0, p.1] == old(maze[p.0, p.1]);
      }
    }
    TwoOpened(maze, before, entrance, exitCell);
  }

  /** A grid that differs from one whose open cells are `before` only in
      the two open cells `a` and `b` has open cells `before + {a, b}`. */
  lemma TwoOpened(m: array2<int>, before: set<Cell>, a: Cell, b: Cell)
    requires IsOpen(m, a) && IsOpen(m, b)
    requires forall p :: p != a && p != b ==> (p in before <==> IsOpen(m, p))
    ensures OpenCells(m) == before + {a, b}
  {
    OpenCellsAreOpen(m);
  }

  /** A walk whose cells after the start lie in the set `s`: a walk through
      open cells that does not depend on the grid's current contents. */
  ghost predicate SetWalk(s: set<Cell>, start: Cell, goal: Cell, path: seq<Cell>) {
    |path| > 0 && path[0] == start && path[|path| - 1] == goal &&
    (forall i :: 0 < i < |path| ==> path[i] in s) &&
    (forall i :: 0 <= i < |path| - 1 ==> Adjacent(path[i], path[i + 1]))
  }

  lemma WalkAsSetWalk(m: array2<int>, start: Cell, goal: Cell, path: seq<Cell>)
    ensures IsWalk(m, start, goal, path) <==> SetWalk(OpenCells(m), start, goal, path)
  {
    OpenCellsAreOpen(m);
  }

  /** Every open cell of a freshly carved grid reaches `(1, 1)` through its
      open cells; stated on the set of open cells, so that it survives
      later writes to the grid. */
  lemma ConnectedAsSet(m: array2<int>, p: Cell)
    requires forall q :: IsOpen(m, q) ==> Reachable(m, (1, 1), q)
    requires p in OpenCells(m)
    ensures exists path :: SetWalk(OpenCells(m), (1, 1), p, path)
  {
    OpenCellsAreOpen(m);
    var path :| IsWalk(m, (1, 1), p, path);
    WalkAsSetWalk(m, (1, 1), p, path);
  }

  /** A walk within the carved cells is a walk through open cells once
      the grid has only gained open cells. */
  lemma CarvedWalk(m: array2<int>, carved: set<Cell>, p: Cell) returns (path: seq<Cell>)
    requires carved <= OpenCells(m)
    requires exists path :: SetWalk(carved, (1, 1), p, path)
    ensures IsWalk(m, (1, 1), p, path)
  {
    path :| SetWalk(carved, (1, 1), p, path);
    assert SetWalk(OpenCells(m), (1, 1), p, path);
    WalkAsSetWalk(m, (1, 1), p, path);
  }

  /** Two walks from a common cell, one to the cell above the entrance's
      room and one to the room below the exit, join into a walk from the
      entrance to the exit. */
  lemma ThroughStart(m: array2<int>, entrance: Cell, below: Cell, above: Cell, exitCell: Cell,
                     toBelow: seq<Cell>, toAbove: seq<Cell>)
    requires IsWalk(m, (1, 1), below, toBelow) && IsWalk(m, (1, 1), above, toAbove) && IsOpen(m, (1, 1))
    requires IsOpen(m, below) && IsOpen(m, entrance) && Adjacent(entrance, below)
    requires IsOpen(m, exitCell) && Adjacent(above, exitCell)
    ensures Reachable(m, entrance, exitCell)
  {
    ReverseOpenWalk(m, (1, 1), below, toBelow);
    var up := Reverse(toBelow);
    assert IsWalk(m, entrance, below, [entrance, below]);
    JoinWalks(m, entrance, below, (1, 1), [entrance, below], up);
    var half := [entrance, below] + up[1..];
    JoinWalks(m, entrance, (1, 1), above, half, toAbove);
    var most := half + toAbove[1..];
    assert IsWalk(m, above, exitCell, [above, exitCell]);
    JoinWalks(m, entrance, above, exitCell, most, [above, exitCell]);
  }

  /** With odd sides, the entrance and the exit that `add_entrance_exit`
      opens on a carved grid are joined by a walk through open cells: the
      exit sits above the room `(1, x)`, the entrance below the room
      `(h - 2, e)`, and every room reaches `(1, 1)`. */
  lemma {:induction false} EntranceReachesExit(m: array2<int>, carved: set<Cell>, entrance: Cell, exitCell: Cell)
    requires m.Length0 % 2 == 1 && m.Length1 % 2 == 1 && 3 <= m.Length0 && 3 <= m.Length1
    requires forall p :: Room(p, m.Length0, m.Length1) ==> p in carved
    requires forall p :: p in carved ==> exists path :: SetWalk(carved, (1, 1), p, path)
    requires OpenCells(m) == carved + {entrance, exitCell}
    requires entrance.0 == m.Length0 - 1 && 1 <= entrance.1 < m.Length1 && entrance.1 % 2 == 1
    requires exitCell.0 == 0 && 1 <= exitCell.1 < m.Length1 && exitCell.1 % 2 == 1
    ensures Reachable(m, entrance, exitCell)
  {
    var h, w := m.Length0, m.Length1;
    var below := (h - 2, entrance.1);
    var above := (1, exitCell.1);
    assert Room(below, h, w) && Room(above, h, w) && Room((1, 1), h, w);
    var toBelow := CarvedWalk(m, carved, below);
    var toAbove := CarvedWalk(m, carved, above);
    OpenCellsAreOpen(m);
    assert below in OpenCells(m) && (1, 1) in OpenCells(m) && entrance in OpenCells(m) && exitCell in OpenCells(m);
    ThroughStart(m, entrance, below, above, exitCell, toBelow, toAbove);
  }
}
