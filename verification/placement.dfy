/** Where the hazards and pickups of a level go: traps and healing stations
    (`generate_items`), projectile emitters (`generate_projectile_traps`)
    and Divine-Eyes orbs (the pass in `main` that runs on medium mazes).
    Each is one row-major pass over the grid that draws one roll from
    `random.random()` per eligible cell and keeps the cell when the roll
    falls in a band. The `k`-th roll of a pass is `rolls(k)`. */
module Placement {
  import opened Grid
  import opened Settings

  /** Which cells a pass considers: `Free` visits every cell and keeps the
      open ones other than the entrance and the exit; `Socket` visits the
      interior and keeps the walls that have an open lane next to them. */
  datatype Scan = Free(entrance: Cell, exitCell: Cell) | Socket

  /** First row and column a pass visits. */
  function Lo(scan: Scan): int {
    if scan.Free? then 0 else 1
  }

  /** One past the last row (of `h`) or column (of `w`) a pass visits. */
  function End(scan: Scan, n: int): int {
    if scan.Free? then n else n - 1
  }

  /** Direction `d` out of `p` has two open cells in a row. */
  predicate LaneAt(m: array2<int>, p: Cell, d: int)
    reads m
    requires 0 <= d < 4
  {
    IsOpen(m, Step(p, d)) && IsOpen(m, Step(Step(p, d), d))
  }

  /** The first direction from `d` on (in up, down, left, right order) that
      has a lane, or 4 when none has. */
  function FirstLaneFrom(m: array2<int>, p: Cell, d: int): (e: int)
    reads m
    requires 0 <= d <= 4
    ensures d <= e <= 4
    ensures e < 4 ==> LaneAt(m, p, e)
    ensures forall k :: d <= k < e ==> !LaneAt(m, p, k)
    decreases 4 - d
  {
    if d == 4 then 4 else if LaneAt(m, p, d) then d else FirstLaneFrom(m, p, d + 1)
  }

  function FirstLane(m: array2<int>, p: Cell): int
    reads m
  {
    FirstLaneFrom(m, p, 0)
  }

  /** The cell is one the pass keeps a roll for. */
  predicate Eligible(m: array2<int>, scan: Scan, p: Cell)
    reads m
  {
    InBounds(m, p) &&
    match scan
    case Free(entrance, exitCell) => m[p.0, p.1] == OPEN && p != entrance && p != exitCell
    case Socket => m[p.0, p.1] == WALL && FirstLane(m, p) < 4
  }

  /** `a` comes before `b` in row-major order. */
  predicate Before(a: Cell, b: Cell) {
    a.0 < b.0 || (a.0 == b.0 && a.1 < b.1)
  }

  predicate Sorted(s: seq<Cell>) {
    forall i, j :: 0 <= i < j < |s| ==> Before(s[i], s[j])
  }

  /** The eligible cells of row `r` in the columns the pass visits before `c`. */
  function RowSites(m: array2<int>, scan: Scan, r: int, c: int): seq<Cell>
    reads m
    decreases c
  {
    if c <= Lo(scan) then []
    else RowSites(m, scan, r, c - 1) + (if Eligible(m, scan, (r, c - 1)) then [(r, c - 1)] else [])
  }

  /** The eligible cells of the rows the pass visits before `r`, in the
      order the pass meets them. */
  function SitesAbove(m: array2<int>, scan: Scan, r: int): seq<Cell>
    reads m
    decreases r
  {
    if r <= Lo(scan) then []
    else SitesAbove(m, scan, r - 1) + RowSites(m, scan, r - 1, End(scan, m.Length1))
  }

  /** A row's sites are its eligible cells before `c`, left to right. */
  lemma {:induction false} RowSitesFacts(m: array2<int>, scan: Scan, r: int, c: int)
    ensures forall p :: p in RowSites(m, scan, r, c) <==> p.0 == r && Lo(scan) <= p.1 < c && Eligible(m, scan, p)
    ensures forall i :: 0 <= i < |RowSites(m, scan, r, c)| ==> RowSites(m, scan, r, c)[i].0 == r
    ensures Sorted(RowSites(m, scan, r, c))
    decreases c
  {
    if c > Lo(scan) {
      RowSitesFacts(m, scan, r, c - 1);
    }
  }

  /** The sites above row `r` are the eligible cells the pass visits there,
      in row-major order. */
  lemma {:induction false} SitesAboveFacts(m: array2<int>, scan: Scan, r: int)
    ensures forall p :: p in SitesAbove(m, scan, r) <==>
      Lo(scan) <= p.0 < r && Lo(scan) <= p.1 < End(scan, m.Length1) && Eligible(m, scan, p)
    ensures Sorted(SitesAbove(m, scan, r))
    decreases r
  {
    if r > Lo(scan) {
      var above := SitesAbove(m, scan, r - 1);
      var row := RowSites(m, scan, r - 1, End(scan, m.Length1));
      SitesAboveFacts(m, scan, r - 1);
      RowSitesFacts(m, scan, r - 1, End(scan, m.Length1));
      forall i, j | 0 <= i < |above| && 0 <= j < |row|
        ensures Before(above[i], row[j])
      {
        assert above[i] in above;
      }
    }
  }

  /** Every eligible cell of the whole pass, in visiting order. */
  function Sites(m: array2<int>, scan: Scan): seq<Cell>
    reads m
  {
    SitesAbove(m, scan, End(scan, m.Length0))
  }

  /** A pass's sites are exactly its eligible cells in the rows and columns
      it visits, in row-major order. */
  lemma SitesFacts(m: array2<int>, scan: Scan)
    ensures forall p :: p in Sites(m, scan) <==>
      Lo(scan) <= p.0 < End(scan, m.Length0) && Lo(scan) <= p.1 < End(scan, m.Length1) && Eligible(m, scan, p)
    ensures Sorted(Sites(m, scan))
  {
    SitesAboveFacts(m, scan, End(scan, m.Length0));
  }

  /** The interval a kept roll must fall in: `roll < hi`, or
      `lo <= roll < hi` for the second branch of an `if`/`elif`. */
  datatype Band = Below(hi: real) | Within(lo: real, hi: real)

  predicate InBand(x: real, b: Band) {
    match b
    case Below(hi) => x < hi
    case Within(lo, hi) => lo <= x < hi
  }

  /** The sites whose roll falls in the band, in order. */
  function Picked(sites: seq<Cell>, rolls: nat -> real, b: Band): (r: seq<Cell>)
    ensures forall p :: p in r ==> p in sites
    ensures |r| <= |sites|
    decreases |sites|
  {
    if sites == [] then []
    else
      var n := |sites| - 1;
      Picked(sites[..n], rolls, b) + (if InBand(rolls(n), b) then [sites[n]] else [])
  }

  lemma PickedSnoc(sites: seq<Cell>, p: Cell, rolls: nat -> real, b: Band)
    ensures InBand(rolls(|sites|), b) ==> Picked(sites + [p], rolls, b) == Picked(sites, rolls, b) + [p]
    ensures !InBand(rolls(|sites|), b) ==> Picked(sites + [p], rolls, b) == Picked(sites, rolls, b)
  {
    assert (sites + [p])[..|sites|] == sites;
  }

  /** Moving one column on extends the row's sites by that cell when it is
      eligible. */
  lemma RowSitesSnoc(m: array2<int>, scan: Scan, above: seq<Cell>, r: int, c: int)
    requires Lo(scan) <= c
    ensures Eligible(m, scan, (r, c)) ==>
      above + RowSites(m, scan, r, c + 1) == above + RowSites(m, scan, r, c) + [(r, c)]
    ensures !Eligible(m, scan, (r, c)) ==>
      above + RowSites(m, scan, r, c + 1) == above + RowSites(m, scan, r, c)
  {
  }

  /** Over distinct sites, a site is kept exactly when its own roll is in
      the band. */
  lemma {:induction false} PickedIff(sites: seq<Cell>, rolls: nat -> real, b: Band, j: int)
    requires Sorted(sites) && 0 <= j < |sites|
    ensures sites[j] in Picked(sites, rolls, b) <==> InBand(rolls(j), b)
    decreases |sites|
  {
    var n := |sites| - 1;
    var prefix := sites[..n];
    if j < n {
      assert prefix[j] == sites[j];
      PickedIff(prefix, rolls, b, j);
      assert sites[j] != sites[n] by { assert Before(sites[j], sites[n]); }
    } else {
      forall i | 0 <= i < n
        ensures prefix[i] != sites[n]
      {
        assert Before(sites[i], sites[n]);
      }
    }
  }

  /** Keeping some of a row-major list keeps it row-major. */
  lemma {:induction false} PickedSorted(sites: seq<Cell>, rolls: nat -> real, b: Band)
    requires Sorted(sites)
    ensures Sorted(Picked(sites, rolls, b))
    decreases |sites|
  {
    if sites != [] {
      var n := |sites| - 1;
      var prefix := sites[..n];
      PickedSorted(prefix, rolls, b);
      var kept := Picked(prefix, rolls, b);
      forall i | 0 <= i < |kept|
        ensures Before(kept[i], sites[n])
      {
        assert kept[i] in kept;
        var k :| 0 <= k < n && prefix[k] == kept[i];
        assert Before(sites[k], sites[n]);
      }
    }
  }

  /** Trap and healing-station lists of `generate_items`, by specification. */
  function Traps(m: array2<int>, entrance: Cell, exitCell: Cell, rolls: nat -> real, trapProb: real): seq<Cell>
    reads m
  {
    Picked(Sites(m, Free(entrance, exitCell)), rolls, Below(trapProb))
  }

  function HealingStations(m: array2<int>, entrance: Cell, exitCell: Cell, rolls: nat -> real,
                           trapProb: real, healProb: real): seq<Cell>
    reads m
  {
    Picked(Sites(m, Free(entrance, exitCell)), rolls, Within(trapProb, trapProb + healProb))
  }

  /** `generate_items`: every open cell other than the entrance and exit
      draws one roll; below `trapProb` it becomes a trap, else below
      `trapProb + healProb` a healing station. */
  method GenerateItems(maze: array2<int>, entrance: Cell, exitCell: Cell, trapProb: real, healProb: real,
                       rolls: nat -> real)
    returns (traps: seq<Cell>, healingStations: seq<Cell>)
    ensures traps == Traps(maze, entrance, exitCell, rolls, trapProb)
    ensures healingStations == HealingStations(maze, entrance, exitCell, rolls, trapProb, healProb)
  {
    ghost var scan := Free(entrance, exitCell);
    var h, w := maze.Length0, maze.Length1;
    traps, healingStations := [], [];
    var k: nat := 0;
    for r := 0 to h
      invariant k == |SitesAbove(maze, scan, r)|
      invariant traps == Picked(SitesAbove(maze, scan, r), rolls, Below(trapProb))
      invariant healingStations == Picked(SitesAbove(maze, scan, r), rolls, Within(trapProb, trapProb + healProb))
    {
      ghost var above := SitesAbove(maze, scan, r);
      assert above + RowSites(maze, scan, r, 0) == above;
      for c := 0 to w
        invariant k == |above + RowSites(maze, scan, r, c)|
        invariant traps == Picked(above + RowSites(maze, scan, r, c), rolls, Below(trapProb))
        invariant healingStations == Picked(above + RowSites(maze, scan, r, c), rolls, Within(trapProb, trapProb + healProb))
      {
        ghost var seen := above + RowSites(maze, scan, r, c);
        if maze[r, c] == OPEN && (r, c) != entrance && (r, c) != exitCell {
          var roll := rolls(k);
          if roll < trapProb {
            traps := traps + [(r, c)];
          } else if roll < trapProb + healProb {
            healingStations := healingStations + [(r, c)];
          }
          k := k + 1;
          PickedSnoc(seen, (r, c), rolls, Below(trapProb));
          PickedSnoc(seen, (r, c), rolls, Within(trapProb, trapProb + healProb));
        }
        RowSitesSnoc(maze, scan, above, r, c);
      }
    }
  }

  /** What `generate_items` promises: the two lists are disjoint, hold only
      open cells other than the entrance and exit, and the `j`-th eligible
      cell is a trap exactly when its roll is below `trapProb` and a healing
      station exactly when its roll is in `[trapProb, trapProb + healProb)`. */
  lemma ItemsPlacement(m: array2<int>, entrance: Cell, exitCell: Cell, rolls: nat -> real,
                       trapProb: real, healProb: real)
    ensures forall p :: p in Traps(m, entrance, exitCell, rolls, trapProb) ==>
      IsOpen(m, p) && p != entrance && p != exitCell
    ensures forall p :: p in HealingStations(m, entrance, exitCell, rolls, trapProb, healProb) ==>
      IsOpen(m, p) && p != entrance && p != exitCell
    ensures forall p :: p in Traps(m, entrance, exitCell, rolls, trapProb) ==>
      p !in HealingStations(m, entrance, exitCell, rolls, trapProb, healProb)
    ensures forall j :: 0 <= j < |Sites(m, Free(entrance, exitCell))| ==>
      var p := Sites(m, Free(entrance, exitCell))[j];
      (p in Traps(m, entrance, exitCell, rolls, trapProb) <==> rolls(j) < trapProb) &&
      (p in HealingStations(m, entrance, exitCell, rolls, trapProb, healProb) <==>
         trapProb <= rolls(j) < trapProb + healProb)
    ensures forall p :: IsOpen(m, p) && p != entrance && p != exitCell ==> p in Sites(m, Free(entrance, exitCell))
  {
    var sites := Sites(m, Free(entrance, exitCell));
    SitesFacts(m, Free(entrance, exitCell));
    var traps := Traps(m, entrance, exitCell, rolls, trapProb);
    var heals := HealingStations(m, entrance, exitCell, rolls, trapProb, healProb);
    forall j | 0 <= j < |sites|
      ensures sites[j] in traps <==> rolls(j) < trapProb
      ensures sites[j] in heals <==> trapProb <= rolls(j) < trapProb + healProb
    {
      PickedIff(sites, rolls, Below(trapProb), j);
      PickedIff(sites, rolls, Within(trapProb, trapProb + healProb), j);
    }
    forall p | p in traps
      ensures p !in heals
    {
      var j :| 0 <= j < |sites| && sites[j] == p;
      PickedIff(sites, rolls, Below(trapProb), j);
      PickedIff(sites, rolls, Within(trapProb, trapProb + healProb), j);
    }
  }

  /** A projectile emitter: a wall cell that shoots along `dir` every
      `cooldown` milliseconds, last at `lastShot`. */
  datatype Emitter = Emitter(pos: Cell, dir: Cell, lastShot: int, cooldown: int)

  /** The direction an emitter on `p` faces: its first lane. */
  function LaneDirection(m: array2<int>, p: Cell): Cell
    reads m
  {
    var d := FirstLane(m, p);
    if d < 4 then Direction(d) else (0, 0)
  }

  function ArmAt(m: array2<int>, p: Cell): Emitter
    reads m
  {
    Emitter(p, LaneDirection(m, p), 0, PROJECTILE_COOLDOWN)
  }

  /** A fresh emitter on each of `ps`, aimed along its first lane. */
  function Arm(m: array2<int>, ps: seq<Cell>): seq<Emitter>
    reads m
    decreases |ps|
  {
    if ps == [] then []
    else
      var n := |ps| - 1;
      Arm(m, ps[..n]) + [ArmAt(m, ps[n])]
  }

  lemma {:induction false} ArmFacts(m: array2<int>, ps: seq<Cell>)
    ensures |Arm(m, ps)| == |ps|
    ensures forall i :: 0 <= i < |ps| ==> Arm(m, ps)[i] == ArmAt(m, ps[i])
    decreases |ps|
  {
    if ps != [] {
      ArmFacts(m, ps[..|ps| - 1]);
    }
  }

  /** The emitters of `generate_projectile_traps`, by specification. */
  function EmitterPlan(m: array2<int>, rolls: nat -> real, projChance: real): seq<Emitter>
    reads m
  {
    Arm(m, Picked(Sites(m, Socket), rolls, Below(projChance)))
  }

  /** The inner direction loop: the first of up, down, left, right whose
      two cells are in bounds and open. */
  method FindLane(maze: array2<int>, p: Cell) returns (d: int)
    ensures 0 <= d <= 4
    ensures d < 4 ==> LaneAt(maze, p, d)
    ensures forall e :: 0 <= e < d ==> !LaneAt(maze, p, e)
    ensures d == FirstLane(maze, p)
  {
    var h, w := maze.Length0, maze.Length1;
    d := 0;
    while d < 4
      invariant 0 <= d <= 4
      invariant forall e :: 0 <= e < d ==> !LaneAt(maze, p, e)
      invariant FirstLane(maze, p) == FirstLaneFrom(maze, p, d)
    {
      var (nr, nc) := Step(p, d);
      if 0 <= nr < h && 0 <= nc < w && maze[nr, nc] == OPEN {
        var (nr2, nc2) := Step((nr, nc), d);
        if 0 <= nr2 < h && 0 <= nc2 < w && maze[nr2, nc2] == OPEN {
          return;
        }
      }
      d := d + 1;
    }
  }

  /** `es` holds a fresh emitter for each of `ps`, in order. */
  ghost predicate Armed(m: array2<int>, es: seq<Emitter>, ps: seq<Cell>)
    reads m
  {
    |es| == |ps| && forall i :: 0 <= i < |ps| ==> es[i] == ArmAt(m, ps[i])
  }

  lemma ArmedIsArm(m: array2<int>, es: seq<Emitter>, ps: seq<Cell>)
    requires Armed(m, es, ps)
    ensures es == Arm(m, ps)
  {
    ArmFacts(m, ps);
  }

  /** One row of `generate_projectile_traps`: the walls of row `r` that
      have a lane, left to right, each drawing the next roll. `kept` is the
      list of their positions that got an emitter. */
  method ArmRow(maze: array2<int>, r: int, projChance: real, rolls: nat -> real,
                k0: nat, emitters0: seq<Emitter>, ghost above: seq<Cell>, ghost kept0: seq<Cell>)
    returns (k: nat, emitters: seq<Emitter>, ghost kept: seq<Cell>)
    requires 0 <= r < maze.Length0
    requires k0 == |above| && kept0 == Picked(above, rolls, Below(projChance)) && Armed(maze, emitters0, kept0)
    ensures k == |above + RowSites(maze, Socket, r, maze.Length1 - 1)|
    ensures kept == Picked(above + RowSites(maze, Socket, r, maze.Length1 - 1), rolls, Below(projChance))
    ensures Armed(maze, emitters, kept)
  {
    var w := maze.Length1;
    k, emitters, kept := k0, emitters0, kept0;
    assert above + RowSites(maze, Socket, r, 1) == above;
    var c := 1;
    while c < w - 1
      invariant c <= w - 1 || (c == 1 && w < 2)
      invariant k == |above + RowSites(maze, Socket, r, c)|
      invariant kept == Picked(above + RowSites(maze, Socket, r, c), rolls, Below(projChance))
      invariant Armed(maze, emitters, kept)
    {
      ghost var seen := above + RowSites(maze, Socket, r, c);
      if maze[r, c] == WALL {
        var d := FindLane(maze, (r, c));
        if d < 4 {
          if rolls(k) < projChance {
            emitters := emitters + [Emitter((r, c), Direction(d), 0, PROJECTILE_COOLDOWN)];
            kept := kept + [(r, c)];
          }
          k := k + 1;
          PickedSnoc(seen, (r, c), rolls, Below(projChance));
        }
      }
      RowSitesSnoc(maze, Socket, above, r, c);
      c := c + 1;
    }
    if w < 2 {
      assert RowSites(maze, Socket, r, c) == [] == RowSites(maze, Socket, r, w - 1);
    }
  }

  /** `generate_projectile_traps`: every interior wall with a lane draws one
      roll, for its first lane only, and becomes an emitter when the roll is
      below `projChance`. */
  method GenerateProjectileTraps(maze: array2<int>, projChance: real, rolls: nat -> real)
    returns (emitters: seq<Emitter>)
    ensures emitters == EmitterPlan(maze, rolls, projChance)
  {
    var h := maze.Length0;
    emitters := [];
    ghost var kept: seq<Cell> := [];
    var k: nat := 0;
    var r := 1;
    while r < h - 1
      invariant r <= h - 1 || (r == 1 && h < 2)
      invariant k == |SitesAbove(maze, Socket, r)|
      invariant kept == Picked(SitesAbove(maze, Socket, r), rolls, Below(projChance))
      invariant Armed(maze, emitters, kept)
    {
      k, emitters, kept := ArmRow(maze, r, projChance, rolls, k, emitters, SitesAbove(maze, Socket, r), kept);
      r := r + 1;
    }
    if h < 2 {
      assert SitesAbove(maze, Socket, r) == [] == Sites(maze, Socket);
    }
    ArmedIsArm(maze, emitters, kept);
  }

  /** What `generate_projectile_traps` promises of each emitter: it sits on
      an interior wall, its next two cells along `dir` are in bounds and
      open, `dir` is the first direction (up, down, left, right) with that
      property, it has never fired and its cooldown is `PROJECTILE_COOLDOWN`. */
  lemma EmitterShape(m: array2<int>, rolls: nat -> real, projChance: real, e: Emitter)
    requires e in EmitterPlan(m, rolls, projChance)
    ensures 1 <= e.pos.0 < m.Length0 - 1 && 1 <= e.pos.1 < m.Length1 - 1 && m[e.pos.0, e.pos.1] == WALL
    ensures IsOpen(m, (e.pos.0 + e.dir.0, e.pos.1 + e.dir.1))
    ensures IsOpen(m, (e.pos.0 + 2 * e.dir.0, e.pos.1 + 2 * e.dir.1))
    ensures exists d :: 0 <= d < 4 && e.dir == Direction(d) && forall k :: 0 <= k < d ==> !LaneAt(m, e.pos, k)
    ensures e.lastShot == 0 && e.cooldown == PROJECTILE_COOLDOWN
  {
    var p := PlannedSite(m, rolls, projChance, e);
    ArmAtShape(m, p);
  }

  /** Every planned emitter is the one armed on some site of the pass. */
  lemma PlannedSite(m: array2<int>, rolls: nat -> real, projChance: real, e: Emitter) returns (p: Cell)
    requires e in EmitterPlan(m, rolls, projChance)
    ensures 1 <= p.0 < m.Length0 - 1 && 1 <= p.1 < m.Length1 - 1 && m[p.0, p.1] == WALL
    ensures FirstLane(m, p) < 4 && e == ArmAt(m, p)
  {
    var sites := Sites(m, Socket);
    var kept := Picked(sites, rolls, Below(projChance));
    var es := EmitterPlan(m, rolls, projChance);
    ArmFacts(m, kept);
    var i :| 0 <= i < |es| && es[i] == e;
    p := kept[i];
    assert p in kept;
    SitesFacts(m, Socket);
    assert Eligible(m, Socket, p);
  }

  /** An emitter armed on a wall with a lane faces its first lane. */
  lemma ArmAtShape(m: array2<int>, p: Cell)
    requires FirstLane(m, p) < 4
    ensures IsOpen(m, (p.0 + ArmAt(m, p).dir.0, p.1 + ArmAt(m, p).dir.1))
    ensures IsOpen(m, (p.0 + 2 * ArmAt(m, p).dir.0, p.1 + 2 * ArmAt(m, p).dir.1))
    ensures exists d :: 0 <= d < 4 && ArmAt(m, p).dir == Direction(d) && forall k :: 0 <= k < d ==> !LaneAt(m, p, k)
  {
    var d := FirstLane(m, p);
    assert LaneAt(m, p, d);
  }

  /** No wall holds two emitters: the emitters come in row-major order. */
  lemma EmittersDistinct(m: array2<int>, rolls: nat -> real, projChance: real)
    ensures forall i, j :: 0 <= i < j < |EmitterPlan(m, rolls, projChance)| ==>
      Before(EmitterPlan(m, rolls, projChance)[i].pos, EmitterPlan(m, rolls, projChance)[j].pos)
  {
    var sites := Sites(m, Socket);
    SitesFacts(m, Socket);
    var kept := Picked(sites, rolls, Below(projChance));
    PickedSorted(sites, rolls, Below(projChance));
    ArmFacts(m, kept);
  }

  /** Each wall with a lane draws exactly one roll, the `j`-th of the pass,
      and gets an emitter exactly when that roll is below `projChance`. */
  lemma EmitterRolls(m: array2<int>, rolls: nat -> real, projChance: real, j: int)
    requires 0 <= j < |Sites(m, Socket)|
    ensures (exists i :: 0 <= i < |EmitterPlan(m, rolls, projChance)| &&
                         EmitterPlan(m, rolls, projChance)[i].pos == Sites(m, Socket)[j])
            <==> rolls(j) < projChance
  {
    var sites := Sites(m, Socket);
    SitesFacts(m, Socket);
    var kept := Picked(sites, rolls, Below(projChance));
    var es := EmitterPlan(m, rolls, projChance);
    ArmFacts(m, kept);
    PickedIff(sites, rolls, Below(projChance), j);
    if sites[j] in kept {
      var i :| 0 <= i < |kept| && kept[i] == sites[j];
      assert es[i].pos == sites[j];
    }
  }

  /** The walls `generate_projectile_traps` rolls for are exactly the
      interior walls that have a lane. */
  lemma SocketSites(m: array2<int>, p: Cell)
    ensures p in Sites(m, Socket) <==>
      1 <= p.0 < m.Length0 - 1 && 1 <= p.1 < m.Length1 - 1 && m[p.0, p.1] == WALL &&
      exists d :: 0 <= d < 4 && LaneAt(m, p, d)
  {
    SitesFacts(m, Socket);
    if exists d :: 0 <= d < 4 && LaneAt(m, p, d) {
      var d :| 0 <= d < 4 && LaneAt(m, p, d);
      assert FirstLane(m, p) <= d;
    }
  }

  /** The Divine-Eyes orbs of a level, by specification: only medium mazes
      get any, on open cells other than the entrance and exit. */
  function DivinePowerups(m: array2<int>, mazeWidth: int, entrance: Cell, exitCell: Cell,
                          rolls: nat -> real): seq<Cell>
    reads m
  {
    if mazeWidth == MEDIUM_MAZE_SIZE
    then Picked(Sites(m, Free(entrance, exitCell)), rolls, Below(DIVINE_EYES_SPAWN_CHANCE))
    else []
  }

  /** The orb pass of `main`: on a medium maze every open cell other than
      the entrance and exit draws one roll and gets an orb below
      `DIVINE_EYES_SPAWN_CHANCE`. */
  method PlaceDivinePowerups(maze: array2<int>, mazeWidth: int, entrance: Cell, exitCell: Cell,
                             rolls: nat -> real)
    returns (powerups: seq<Cell>)
    ensures powerups == DivinePowerups(maze, mazeWidth, entrance, exitCell, rolls)
  {
    powerups := [];
    if mazeWidth == MEDIUM_MAZE_SIZE {
      ghost var scan := Free(entrance, exitCell);
      var band := Below(DIVINE_EYES_SPAWN_CHANCE);
      var k: nat := 0;
      for r := 0 to maze.Length0
        invariant k == |SitesAbove(maze, scan, r)|
        invariant powerups == Picked(SitesAbove(maze, scan, r), rolls, band)
      {
        ghost var above := SitesAbove(maze, scan, r);
        assert above + RowSites(maze, scan, r, 0) == above;
        for c := 0 to maze.Length1
          invariant k == |above + RowSites(maze, scan, r, c)|
          invariant powerups == Picked(above + RowSites(maze, scan, r, c), rolls, band)
        {
          ghost var seen := above + RowSites(maze, scan, r, c);
          if maze[r, c] == OPEN && (r, c) != entrance && (r, c) != exitCell {
            if rolls(k) < DIVINE_EYES_SPAWN_CHANCE {
              powerups := powerups + [(r, c)];
            }
            k := k + 1;
            PickedSnoc(seen, (r, c), rolls, band);
          }
          RowSitesSnoc(maze, scan, above, r, c);
        }
      }
    }
  }

  /** Orbs appear only on medium mazes, on open cells other than the
      entrance and exit, and the `j`-th such cell gets one exactly when its
      roll is below the spawn chance. */
  lemma PowerupPlacement(m: array2<int>, mazeWidth: int, entrance: Cell, exitCell: Cell, rolls: nat -> real)
    ensures mazeWidth != MEDIUM_MAZE_SIZE ==> DivinePowerups(m, mazeWidth, entrance, exitCell, rolls) == []
    ensures forall p :: p in DivinePowerups(m, mazeWidth, entrance, exitCell, rolls) ==>
      IsOpen(m, p) && p != entrance && p != exitCell
    ensures mazeWidth == MEDIUM_MAZE_SIZE ==>
      forall j :: 0 <= j < |Sites(m, Free(entrance, exitCell))| ==>
        (Sites(m, Free(entrance, exitCell))[j] in DivinePowerups(m, mazeWidth, entrance, exitCell, rolls)
         <==> rolls(j) < DIVINE_EYES_SPAWN_CHANCE)
  {
    var sites := Sites(m, Free(entrance, exitCell));
    SitesFacts(m, Free(entrance, exitCell));
    forall j | 0 <= j < |sites|
      ensures sites[j] in Picked(sites, rolls, Below(DIVINE_EYES_SPAWN_CHANCE)) <==> rolls(j) < DIVINE_EYES_SPAWN_CHANCE
    {
      PickedIff(sites, rolls, Below(DIVINE_EYES_SPAWN_CHANCE), j);
    }
  }
}
