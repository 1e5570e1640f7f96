/** Breadth-first path search over the open cells of the maze
    (`find_path` in source/main.py). */
module Pathfinding {
  import opened Grid

  /** What the search has recorded in `cameFrom` is a tree rooted at `start`:
      the start has no predecessor, and every other recorded cell is open and
      one step away from its predecessor, which is recorded too and lies
      strictly closer to the start (the ghost `dist`). */
  ghost predicate SearchTree(m: array2<int>, start: Cell, cameFrom: map<Cell, Option<Cell>>, dist: map<Cell, nat>)
    reads m
  {
    start in cameFrom && cameFrom[start] == None &&
    (forall k :: k in cameFrom ==> k in dist) &&
    (forall k :: k in cameFrom && k != start ==>
       cameFrom[k].Some? && cameFrom[k].value in cameFrom && cameFrom[k].value in dist &&
       IsOpen(m, k) && Adjacent(cameFrom[k].value, k) &&
       dist[cameFrom[k].value] < dist[k])
  }

  /** Every recorded cell not waiting in the queue has had all its open
      steps recorded. */
  ghost predicate Expanded(m: array2<int>, cameFrom: map<Cell, Option<Cell>>, queue: seq<Cell>)
    reads m
  {
    forall k :: k in cameFrom && k !in queue ==> NeighboursIn(m, cameFrom.Keys, k)
  }

  /** Recording an open, unrecorded step `next` out of a recorded cell keeps
      the search tree. */
  lemma SearchTreeAdd(m: array2<int>, start: Cell, cameFrom: map<Cell, Option<Cell>>, dist: map<Cell, nat>,
                      current: Cell, next: Cell)
    requires SearchTree(m, start, cameFrom, dist)
    requires current in cameFrom && next !in cameFrom && IsOpen(m, next) && Adjacent(current, next)
    ensures current in dist
    ensures SearchTree(m, start, cameFrom[next := Some(current)], dist[next := dist[current] + 1])
  {
  }

  /** Records `next`, one step from `current`, if it is open and not yet
      recorded, and appends it to the queue. */
  method Visit(maze: array2<int>, start: Cell, current: Cell, next: Cell, queue0: seq<Cell>,
               cameFrom0: map<Cell, Option<Cell>>, ghost dist0: map<Cell, nat>)
    returns (queue: seq<Cell>, cameFrom: map<Cell, Option<Cell>>, ghost dist: map<Cell, nat>, ghost added: seq<Cell>)
    requires SearchTree(maze, start, cameFrom0, dist0)
    requires current in cameFrom0 && Adjacent(current, next)
    ensures SearchTree(maze, start, cameFrom, dist)
    ensures added == if IsOpen(maze, next) && next !in cameFrom0 then [next] else []
    ensures queue == queue0 + added
    ensures forall k :: k in cameFrom <==> k in cameFrom0 || k in added
    ensures IsOpen(maze, next) ==> next in cameFrom
    ensures cameFrom0.Keys <= cameFrom.Keys
  {
    queue, cameFrom, dist, added := queue0, cameFrom0, dist0, [];
    if 0 <= next.0 < maze.Length0 && 0 <= next.1 < maze.Length1 && maze[next.0, next.1] == OPEN {
      if next !in cameFrom {
        SearchTreeAdd(maze, start, cameFrom, dist, current, next);
        queue := queue + [next];
        added := [next];
        cameFrom := cameFrom[next := Some(current)];
        dist := dist[next := dist[current] + 1];
      }
    }
  }

  /** One round of the inner loop of the search: record every open,
      not yet recorded step out of `current` with `current` as its
      predecessor and append it to the queue. The ghost `added` lists the
      newly recorded cells. */
  method Expand(maze: array2<int>, start: Cell, current: Cell, queue0: seq<Cell>,
                cameFrom0: map<Cell, Option<Cell>>, ghost dist0: map<Cell, nat>)
    returns (queue: seq<Cell>, cameFrom: map<Cell, Option<Cell>>, ghost dist: map<Cell, nat>, ghost added: seq<Cell>)
    requires SearchTree(maze, start, cameFrom0, dist0)
    requires current in cameFrom0
    ensures SearchTree(maze, start, cameFrom, dist)
    ensures queue == queue0 + added
    ensures forall i :: 0 <= i < |added| ==> added[i] !in cameFrom0 && added[i] in AllCells(maze.Length0, maze.Length1)
    ensures forall k :: k in cameFrom <==> k in cameFrom0 || k in added
    ensures NeighboursIn(maze, cameFrom.Keys, current)
  {
    queue, cameFrom, dist, added := queue0, cameFrom0, dist0, [];
    for d := 0 to 4
      invariant SearchTree(maze, start, cameFrom, dist)
      invariant queue == queue0 + added
      invariant forall i :: 0 <= i < |added| ==> added[i] !in cameFrom0 && added[i] in AllCells(maze.Length0, maze.Length1)
      invariant forall k :: k in cameFrom <==> k in cameFrom0 || k in added
      invariant StepsRecorded(maze, cameFrom.Keys, current, d)
    {
      ghost var more;
      ghost var keys := cameFrom.Keys;
      queue, cameFrom, dist, more := Visit(maze, start, current, Step(current, d), queue, cameFrom, dist);
      added := added + more;
      StepsRecordedGrows(maze, keys, cameFrom.Keys, current, d);
    }
  }

  /** The open steps out of `current` in the first `d` directions are in `s`. */
  ghost predicate StepsRecorded(m: array2<int>, s: set<Cell>, current: Cell, d: int)
    reads m
  {
    forall e :: 0 <= e < d && e < 4 && IsOpen(m, Step(current, e)) ==> Step(current, e) in s
  }

  lemma StepsRecordedGrows(m: array2<int>, s: set<Cell>, t: set<Cell>, current: Cell, d: int)
    requires 0 <= d < 4 && StepsRecorded(m, s, current, d) && s <= t
    requires IsOpen(m, Step(current, d)) ==> Step(current, d) in t
    ensures StepsRecorded(m, t, current, d + 1)
  {
  }

  /** `NeighboursIn` only gets easier as the set grows. */
  lemma NeighboursInGrows(m: array2<int>, s: set<Cell>, t: set<Cell>, k: Cell)
    requires NeighboursIn(m, s, k) && s <= t
    ensures NeighboursIn(m, t, k)
  {
  }

  /** After the head of the queue `before` has been expanded into `cameFrom`,
      with the new cells `added` appended, the queue still holds recorded
      cells and only waits on unexpanded ones, and the round made progress:
      it recorded a new cell of the grid or shortened the queue. */
  lemma AfterRound(m: array2<int>, cameFrom0: map<Cell, Option<Cell>>, cameFrom: map<Cell, Option<Cell>>,
                   before: seq<Cell>, added: seq<Cell>, queue: seq<Cell>)
    requires Expanded(m, cameFrom0, before)
    requires before != [] && queue == before[1..] + added
    requires forall i :: 0 <= i < |before| ==> before[i] in cameFrom0
    requires forall i :: 0 <= i < |added| ==> added[i] !in cameFrom0 && added[i] in AllCells(m.Length0, m.Length1)
    requires forall k :: k in cameFrom <==> k in cameFrom0 || k in added
    requires NeighboursIn(m, cameFrom.Keys, before[0])
    ensures forall i :: 0 <= i < |queue| ==> queue[i] in cameFrom
    ensures Expanded(m, cameFrom, queue)
    ensures AllCells(m.Length0, m.Length1) - cameFrom.Keys < AllCells(m.Length0, m.Length1) - cameFrom0.Keys ||
            (cameFrom.Keys == cameFrom0.Keys && |queue| < |before|)
  {
    forall i | 0 <= i < |queue|
      ensures queue[i] in cameFrom
    {
      if i < |before| - 1 {
        assert queue[i] == before[i + 1];
      } else {
        assert queue[i] == added[i - |before| + 1];
      }
    }
    forall k | k in cameFrom && k !in queue
      ensures NeighboursIn(m, cameFrom.Keys, k)
    {
      if k != before[0] {
        assert k !in added;
        assert before == [before[0]] + before[1..];
        assert k !in before;
        NeighboursInGrows(m, cameFrom0.Keys, cameFrom.Keys, k);
      }
    }
    if added != [] {
      assert added[0] in cameFrom.Keys - cameFrom0.Keys;
      SmallerFrontier(AllCells(m.Length0, m.Length1), cameFrom0.Keys, cameFrom.Keys);
    } else {
      assert cameFrom.Keys == cameFrom0.Keys;
    }
  }

  /** Recording a new cell of the grid shrinks what is left to record. */
  lemma SmallerFrontier(all: set<Cell>, keys0: set<Cell>, keys: set<Cell>)
    requires keys0 <= keys && keys - keys0 <= all && keys != keys0
    ensures all - keys < all - keys0
  {
    assert !(keys <= keys0);
    var x :| x in keys && x !in keys0;
    assert x in all - keys0;
  }

  /** The queue loop of the search. It stops when the goal is taken from the
      queue or the queue runs dry; in the second case every recorded cell has
      been expanded. */
  method Search(maze: array2<int>, start: Cell, goal: Cell)
    returns (cameFrom: map<Cell, Option<Cell>>, ghost dist: map<Cell, nat>)
    ensures SearchTree(maze, start, cameFrom, dist)
    ensures goal !in cameFrom ==> Expanded(maze, cameFrom, [])
  {
    var queue: seq<Cell> := [start];
    cameFrom := map[start := None];
    dist := map[start := 0];
    while |queue| > 0
      invariant SearchTree(maze, start, cameFrom, dist)
      invariant forall i :: 0 <= i < |queue| ==> queue[i] in cameFrom
      invariant Expanded(maze, cameFrom, queue)
      decreases AllCells(maze.Length0, maze.Length1) - cameFrom.Keys, |queue|
    {
      var current := queue[0];
      ghost var before := queue;
      queue := queue[1..];
      if current == goal {
        break;
      }
      ghost var cameFrom0 := cameFrom;
      ghost var added;
      queue, cameFrom, dist, added := Expand(maze, start, current, queue, cameFrom, dist);
      AfterRound(maze, cameFrom0, cameFrom, before, added, queue);
    }
  }

  /** `rev` follows predecessor links: each entry's recorded predecessor
      is the next entry. */
  ghost predicate Chain(cameFrom: map<Cell, Option<Cell>>, rev: seq<Cell>) {
    forall i :: 0 <= i < |rev| - 1 ==> rev[i] in cameFrom && cameFrom[rev[i]] == Some(rev[i + 1])
  }

  /** A predecessor chain from the goal that ends at the start reads, backwards,
      as a walk from the start to the goal. */
  lemma ChainIsWalk(m: array2<int>, start: Cell, goal: Cell,
                    cameFrom: map<Cell, Option<Cell>>, dist: map<Cell, nat>, rev: seq<Cell>)
    requires SearchTree(m, start, cameFrom, dist)
    requires |rev| > 0 && rev[0] == goal && rev[|rev| - 1] == start && Chain(cameFrom, rev)
    ensures IsWalk(m, start, goal, Reverse(rev))
    ensures start == goal ==> |rev| == 1
  {
    var path := Reverse(rev);
    var n := |rev|;
    forall i | 0 < i < n
      ensures IsOpen(m, path[i])
    {
      assert path[i] == rev[n - 1 - i];
      assert cameFrom[rev[n - 1 - i]] == Some(rev[n - i]);
    }
    forall i | 0 <= i < n - 1
      ensures Adjacent(path[i], path[i + 1])
    {
      assert cameFrom[rev[n - 2 - i]] == Some(rev[n - 1 - i]);
    }
    if n > 1 {
      assert cameFrom[rev[0]] == Some(rev[1]);
    }
  }

  /** Follows the predecessor links from the goal back to the start and
      reverses the result. */
  method Rebuild(maze: array2<int>, start: Cell, goal: Cell,
                 cameFrom: map<Cell, Option<Cell>>, ghost dist: map<Cell, nat>)
    returns (path: seq<Cell>)
    requires SearchTree(maze, start, cameFrom, dist)
    requires goal in cameFrom
    ensures IsWalk(maze, start, goal, path)
    ensures start == goal ==> path == [start]
  {
    var rev: seq<Cell> := [];
    var cur: Option<Cell> := Some(goal);
    while cur.Some?
      invariant cur.Some? ==> cur.value in cameFrom
      invariant |rev| == 0 ==> cur == Some(goal)
      invariant |rev| > 0 ==> rev[0] == goal && rev[|rev| - 1] in cameFrom && cameFrom[rev[|rev| - 1]] == cur
      invariant Chain(cameFrom, rev)
      decreases if cur.Some? then dist[cur.value] + 1 else 0
    {
      rev := rev + [cur.value];
      cur := cameFrom[cur.value];
    }
    ChainIsWalk(maze, start, goal, cameFrom, dist, rev);
    path := Reverse(rev);
  }

  /** Searches from `start` for `goal`, stepping up, down, left, right in
      that order, and rebuilds the path from the predecessor map. The result
      is empty exactly when no walk through open cells leads to the goal;
      otherwise it is such a walk. */
  method FindPath(maze: array2<int>, start: Cell, goal: Cell) returns (path: seq<Cell>)
    ensures path != [] ==> IsWalk(maze, start, goal, path)
    ensures path == [] <==> !Reachable(maze, start, goal)
    ensures start == goal ==> path == [start]
  {
    var cameFrom, dist := Search(maze, start, goal);
    if goal !in cameFrom {
      forall p | IsWalk(maze, start, goal, p)
        ensures false
      {
        WalkStaysInClosedSet(maze, cameFrom.Keys, start, goal, p);
      }
      return [];
    }
    path := Rebuild(maze, start, goal, cameFrom, dist);
  }
}
