/** The discrete rules of one frame of the game loop: which move a key
    press asks for and whether the grid accepts it, the trap that hurts once
    per visit, the healing station that multiplies health and disappears,
    and the capped Divine-Eyes pickup. Each rule is a function of the state
    it reads; the game session applies them to its fields. */
module Rules {
  import opened Grid
  import opened Numeric
  import opened Settings

  /** The arrow keys held down in this frame. */
  datatype Keys = Keys(up: bool, down: bool, left: bool, right: bool)

  predicate AnyKey(keys: Keys) {
    keys.up || keys.down || keys.left || keys.right
  }

  /** The cell the arrow keys ask for: the first held key in the order
      up, down, left, right wins, one step from `p`. */
  function MoveTarget(p: Cell, keys: Keys): (q: Cell)
    ensures q == p <==> !AnyKey(keys)
    ensures q != p ==> Adjacent(p, q)
    ensures keys.up ==> q == Step(p, 0)
    ensures !keys.up && keys.down ==> q == Step(p, 1)
    ensures !keys.up && !keys.down && keys.left ==> q == Step(p, 2)
    ensures !keys.up && !keys.down && !keys.left && keys.right ==> q == Step(p, 3)
  {
    if keys.up then (p.0 - 1, p.1)
    else if keys.down then (p.0 + 1, p.1)
    else if keys.left then (p.0, p.1 - 1)
    else if keys.right then (p.0, p.1 + 1)
    else p
  }

  /** The move acceptance test: a held key starts a step to the target when
      collisions are off, or when the target is on the grid and open. */
  function AcceptedMove(m: array2<int>, p: Cell, keys: Keys, noCollision: bool): (r: Option<Cell>)
    reads m
    ensures r.Some? <==> AnyKey(keys) && (noCollision || IsOpen(m, MoveTarget(p, keys)))
    ensures r.Some? ==> r.value == MoveTarget(p, keys) && Adjacent(p, r.value)
    ensures r.Some? && !noCollision ==> IsOpen(m, r.value)
  {
    var q := MoveTarget(p, keys);
    if q != p && (noCollision || (0 <= q.0 < m.Length0 && 0 <= q.1 < m.Length1 && m[q.0, q.1] == OPEN))
    then Some(q) else None
  }

  /** With collisions on, a walk of accepted moves from an open cell stays
      on open cells: the player never enters a wall or leaves the grid. */
  lemma {:induction false} AcceptedMovesStayOpen(m: array2<int>, p: Cell, presses: seq<Keys>)
    requires IsOpen(m, p)
    ensures IsOpen(m, Walked(m, p, presses))
    decreases |presses|
  {
    if presses != [] {
      var next := AcceptedMove(m, p, presses[0], false);
      AcceptedMovesStayOpen(m, if next.Some? then next.value else p, presses[1..]);
    }
  }

  /** Where the player ends up after one frame per key press, collisions on. */
  function Walked(m: array2<int>, p: Cell, presses: seq<Keys>): Cell
    reads m
    decreases |presses|
  {
    if presses == [] then p
    else
      var next := AcceptedMove(m, p, presses[0], false);
      Walked(m, if next.Some? then next.value else p, presses[1..])
  }

  /** Damage of one trap hit: `TRAP_DAMAGE`, plus a quarter of the current
      health (Python's `int(0.25 * h)`, toward zero) on a critical hit. */
  function TrapDamage(health: int, crit: bool): (d: int)
    ensures !crit ==> d == TRAP_DAMAGE
    ensures crit && health >= 0 ==> 4 * (d - TRAP_DAMAGE) <= health < 4 * (d - TRAP_DAMAGE) + 4
    ensures crit && health < 0 ==> 4 * (d - TRAP_DAMAGE) - 4 < health <= 4 * (d - TRAP_DAMAGE)
  {
    if crit then TRAP_DAMAGE + TruncQuarter(health) else TRAP_DAMAGE
  }

  datatype TrapOutcome = TrapOutcome(health: int, lastDamaged: Option<Cell>)

  /** The trap rule: standing on a trap hurts unless this very trap already
      hurt the player during the current visit; the roll decides a critical
      hit against `critChance`. Leaving the traps clears the marker. */
  function TrapStep(pos: Cell, traps: seq<Cell>, health: int, lastDamaged: Option<Cell>,
                    critRoll: real, critChance: real): (r: TrapOutcome)
    ensures pos !in traps ==> r == TrapOutcome(health, None)
    ensures pos in traps ==> r.lastDamaged == Some(pos)
    ensures pos in traps && lastDamaged == Some(pos) ==> r.health == health
    ensures pos in traps && lastDamaged != Some(pos) ==>
      r.health == health - TrapDamage(health, critRoll < critChance)
  {
    if pos in traps then
      if lastDamaged != Some(pos) then
        TrapOutcome(health - TrapDamage(health, critRoll < critChance), Some(pos))
      else TrapOutcome(health, lastDamaged)
    else TrapOutcome(health, None)
  }

  /** Staying on a trap for more frames hurts only once: whatever the later
      rolls, the second frame leaves health and marker as the first left
      them. */
  lemma TrapOncePerVisit(pos: Cell, traps: seq<Cell>, health: int, lastDamaged: Option<Cell>,
                         roll1: real, roll2: real, critChance: real)
    ensures var first := TrapStep(pos, traps, health, lastDamaged, roll1, critChance);
      TrapStep(pos, traps, first.health, first.lastDamaged, roll2, critChance) == first
  {
  }

  /** Stepping off the traps and back on again hurts again: leaving clears
      the marker, so the next visit takes the full damage. */
  lemma TrapHurtsOnReturn(pos: Cell, away: Cell, traps: seq<Cell>, health: int, lastDamaged: Option<Cell>,
                          roll1: real, roll2: real, critChance: real)
    requires pos in traps && away !in traps
    ensures var left := TrapStep(away, traps, health, lastDamaged, roll1, critChance);
      left.health == health &&
      TrapStep(pos, traps, left.health, left.lastDamaged, roll2, critChance).health ==
        health - TrapDamage(health, roll2 < critChance)
  {
  }

  /** Python's `int(h + h * 0.5)`: one and a half times the health, rounded
      toward zero. */
  function Healed(health: int): (r: int)
    ensures health >= 0 ==> r == health + health / 2
    ensures health >= 0 ==> 2 * r <= 3 * health < 2 * r + 2
    ensures health < 0 ==> 2 * r - 2 < 3 * health <= 2 * r
    ensures health >= 0 ==> r >= health
    ensures health <= 0 ==> r <= health
  {
    health + TruncHalf(health)
  }

  /** The index `list.index(x)` finds: the first occurrence of `x`. */
  function FirstIndex<T(==)>(s: seq<T>, x: T): (i: nat)
    requires x in s
    ensures i < |s| && s[i] == x && x !in s[..i]
  {
    if s[0] == x then 0
    else
      assert x in s[1..];
      var j := FirstIndex(s[1..], x);
      assert s[..j + 1] == [s[0]] + s[1..][..j];
      j + 1
  }

  /** Python's `list.remove(x)`: the first occurrence of `x` taken out. */
  function RemoveFirst<T(==)>(s: seq<T>, x: T): (r: seq<T>)
    requires x in s
    ensures |r| == |s| - 1
    ensures multiset(r) == multiset(s) - multiset{x}
    ensures forall y :: y in r ==> y in s
  {
    var i := FirstIndex(s, x);
    assert s == s[..i] + [x] + s[i + 1..];
    s[..i] + s[i + 1..]
  }

  /** In a list without repeats, removing a cell removes it completely and
      keeps every other entry. */
  lemma RemoveFirstDistinct<T>(s: seq<T>, x: T)
    requires x in s
    requires forall i, j :: 0 <= i < j < |s| ==> s[i] != s[j]
    ensures forall y :: y in RemoveFirst(s, x) <==> y in s && y != x
  {
    var i := FirstIndex(s, x);
    var r := RemoveFirst(s, x);
    assert r == s[..i] + s[i + 1..];
    forall y | y in s && y != x
      ensures y in r
    {
      var k :| 0 <= k < |s| && s[k] == y;
      if k < i { assert r[k] == y; } else { assert r[k - 1] == y; }
    }
    forall y | y in r
      ensures y in s && y != x
    {
      var k :| 0 <= k < |r| && r[k] == y;
      if k < i { assert s[k] == y && s[k] != s[i]; } else { assert s[k + 1] == y && s[i] != s[k + 1]; }
    }
  }

  datatype HealOutcome = HealOutcome(health: int, stations: seq<Cell>)

  /** The healing rule: a station under the player multiplies health by
      one and a half and is used up. */
  function HealStep(pos: Cell, stations: seq<Cell>, health: int): (r: HealOutcome)
    ensures pos !in stations ==> r == HealOutcome(health, stations)
    ensures pos in stations ==> r.health == Healed(health)
    ensures pos in stations ==> multiset(r.stations) == multiset(stations) - multiset{pos}
  {
    if pos in stations then HealOutcome(Healed(health), RemoveFirst(stations, pos))
    else HealOutcome(health, stations)
  }

  datatype PickupOutcome = PickupOutcome(inventory: int, powerups: seq<Cell>)

  /** The Divine-Eyes pickup rule: an orb under the player is always used
      up, and adds one to the inventory only while it is below the cap. */
  function PickupStep(pos: Cell, powerups: seq<Cell>, inventory: int): (r: PickupOutcome)
    ensures pos !in powerups ==> r == PickupOutcome(inventory, powerups)
    ensures pos in powerups ==> multiset(r.powerups) == multiset(powerups) - multiset{pos}
    ensures pos in powerups && inventory < MAX_DIVINE_EYES ==> r.inventory == inventory + 1
    ensures inventory >= MAX_DIVINE_EYES ==> r.inventory == inventory
    ensures inventory <= MAX_DIVINE_EYES ==> r.inventory <= MAX_DIVINE_EYES
    ensures inventory <= r.inventory <= inventory + 1
  {
    if pos in powerups then
      PickupOutcome(if inventory < MAX_DIVINE_EYES then inventory + 1 else inventory,
                    RemoveFirst(powerups, pos))
    else PickupOutcome(inventory, powerups)
  }

  /** However many orbs are walked over, an inventory that starts within the
      cap stays within it. */
  lemma {:induction false} PickupsStayCapped(visits: seq<Cell>, powerups: seq<Cell>, inventory: int)
    requires 0 <= inventory <= MAX_DIVINE_EYES
    ensures 0 <= Collected(visits, powerups, inventory).inventory <= MAX_DIVINE_EYES
    ensures |Collected(visits, powerups, inventory).powerups| <= |powerups|
    decreases |visits|
  {
    if visits != [] {
      var next := PickupStep(visits[0], powerups, inventory);
      PickupsStayCapped(visits[1..], next.powerups, next.inventory);
    }
  }

  /** The pickup rule applied at each cell of `visits` in turn. */
  function Collected(visits: seq<Cell>, powerups: seq<Cell>, inventory: int): PickupOutcome
    decreases |visits|
  {
    if visits == [] then PickupOutcome(inventory, powerups)
    else
      var next := PickupStep(visits[0], powerups, inventory);
      Collected(visits[1..], next.powerups, next.inventory)
  }
}
