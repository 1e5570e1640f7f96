/** Line of sight between the player and an item (`is_visible`): the two
    must share a row or a column, and no wall may stand strictly between
    them. */
module Visibility {
  import opened Grid

  /** No wall in row `r` strictly between columns `a` and `b`. */
  ghost predicate RowClear(m: array2<int>, r: int, a: int, b: int)
    reads m
    requires 0 <= r < m.Length0 && 0 <= a < m.Length1 && 0 <= b < m.Length1
  {
    forall c :: (a < c < b || b < c < a) ==> m[r, c] != WALL
  }

  /** No wall in column `c` strictly between rows `a` and `b`. */
  ghost predicate ColumnClear(m: array2<int>, c: int, a: int, b: int)
    reads m
    requires 0 <= c < m.Length1 && 0 <= a < m.Length0 && 0 <= b < m.Length0
  {
    forall r :: (a < r < b || b < r < a) ==> m[r, c] != WALL
  }

  /** What the player at `player` can see of the cell `item`. */
  ghost predicate LineOfSight(m: array2<int>, item: Cell, player: Cell)
    reads m
    requires InBounds(m, item) && InBounds(m, player)
  {
    if player.0 == item.0 then RowClear(m, player.0, player.1, item.1)
    else if player.1 == item.1 then ColumnClear(m, player.1, player.0, item.0)
    else false
  }

  /** `is_visible`: walks from the player toward the item, one cell at a
      time, and gives up at the first wall. */
  method IsVisible(itemPos: Cell, playerPos: Cell, maze: array2<int>) returns (visible: bool)
    requires InBounds(maze, itemPos) && InBounds(maze, playerPos)
    ensures visible <==> LineOfSight(maze, itemPos, playerPos)
  {
    var (pr, pc) := playerPos;
    var (ir, ic) := itemPos;
    if pr == ir {
      var step := if ic > pc then 1 else -1;
      var c := pc + step;
      while if step == 1 then c < ic else c > ic
        invariant step == 1 ==> pc < c <= ic
        invariant step == -1 ==> (ic < pc ==> ic <= c < pc) && (ic == pc ==> c == pc - 1)
        invariant forall k :: (pc < k < c || c < k < pc) ==> maze[pr, k] != WALL
        decreases if step == 1 then ic - c else c - ic
      {
        if maze[pr, c] == WALL {
          return false;
        }
        c := c + step;
      }
      return true;
    } else if pc == ic {
      var step := if ir > pr then 1 else -1;
      var r := pr + step;
      while if step == 1 then r < ir else r > ir
        invariant step == 1 ==> pr < r <= ir
        invariant step == -1 ==> ir <= r < pr
        invariant forall k :: (pr < k < r || r < k < pr) ==> maze[k, pc] != WALL
        decreases if step == 1 then ir - r else r - ir
      {
        if maze[r, pc] == WALL {
          return false;
        }
        r := r + step;
      }
      return true;
    } else {
      return false;
    }
  }

  /** A cell is always visible from itself. */
  lemma SelfVisible(m: array2<int>, p: Cell)
    requires InBounds(m, p)
    ensures LineOfSight(m, p, p)
  {
  }

  /** Nothing off the player's row and column is ever visible. */
  lemma DiagonalHidden(m: array2<int>, item: Cell, player: Cell)
    requires InBounds(m, item) && InBounds(m, player)
    requires item.0 != player.0 && item.1 != player.1
    ensures !LineOfSight(m, item, player)
  {
  }

  /** A neighbour is always visible: nothing lies between the two. */
  lemma NeighbourVisible(m: array2<int>, item: Cell, player: Cell)
    requires InBounds(m, item) && InBounds(m, player) && Adjacent(item, player)
    ensures LineOfSight(m, item, player)
  {
  }

  /** Sight is symmetric: the item would see the player. */
  lemma SightSymmetric(m: array2<int>, item: Cell, player: Cell)
    requires InBounds(m, item) && InBounds(m, player)
    ensures LineOfSight(m, item, player) <==> LineOfSight(m, player, item)
  {
  }

  /** A wall strictly between the two on a shared row hides the item. */
  lemma WallBlocksRow(m: array2<int>, item: Cell, player: Cell, c: int)
    requires InBounds(m, item) && InBounds(m, player) && item.0 == player.0
    requires (player.1 < c < item.1 || item.1 < c < player.1) && m[player.0, c] == WALL
    ensures !LineOfSight(m, item, player)
  {
  }
}
