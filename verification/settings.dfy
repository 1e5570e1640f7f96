/** The game's tuning constants and the difficulty table that maps the score
    (the number of levels completed) to the next maze's size and hazards.
    Probabilities are `real`s; the table's float arithmetic is exact here. */
module Settings {
  import opened Numeric

  const SMALL_MAZE_SIZE: int := 21
  const MEDIUM_MAZE_SIZE: int := 41
  const BOSS_MAZE_SIZE: int := 61

  const PLAYER_START_HEALTH: int := 100
  const TRAP_DAMAGE: int := 20
  const HEAL_PROBABILITY: real := 0.01

  const TRAP_PROBABILITY_NORMAL: real := 0.02
  const TRAP_PROBABILITY_MEDIUM: real := 0.035
  const TRAP_PROBABILITY_BOSS: real := 0.05

  const NORMAL_CRIT_CHANCE: real := 0.10
  const BOSS_CRIT_CHANCE: real := 0.25

  /** Milliseconds between two shots of one projectile emitter. */
  const PROJECTILE_COOLDOWN: int := 5000

  const DIVINE_EYES_SPAWN_CHANCE: real := 0.001
  const MAX_DIVINE_EYES: int := 2
  /** Milliseconds the Divine-Eyes orb takes to fly along the path. */
  const DIVINE_ANIM_DURATION: int := 5000
  /** Milliseconds one step of the player takes. */
  const ANIM_DURATION: int := 200

  /** One row of the difficulty table. */
  datatype MapSettings = MapSettings(
    width: int, height: int,
    trapProb: real, critChance: real, projChance: real,
    boss: bool)

  /** Every fifth level (never the first) is a boss level. */
  predicate IsBossLevel(score: int) {
    score > 0 && score % 5 == 0
  }

  /** `get_map_settings`: boss levels are the largest and deadliest, the
      first two levels are small, the rest medium. */
  function GetMapSettings(score: int): (s: MapSettings)
    ensures s.width == s.height
    ensures s.width in {SMALL_MAZE_SIZE, MEDIUM_MAZE_SIZE, BOSS_MAZE_SIZE}
    ensures s.boss <==> IsBossLevel(score)
    ensures s.boss <==> s.width == BOSS_MAZE_SIZE
    ensures s.width == SMALL_MAZE_SIZE <==> !IsBossLevel(score) && score < 2
    ensures s.boss ==> s.projChance == 0.30
    ensures !s.boss ==> 0.02 + 0.005 * score as real <= 0.15 ==> s.projChance == 0.02 + 0.005 * score as real
    ensures !s.boss ==> 0.15 <= 0.02 + 0.005 * score as real ==> s.projChance == 0.15
    ensures s.critChance == (if s.boss then BOSS_CRIT_CHANCE else NORMAL_CRIT_CHANCE)
  {
    var boss := IsBossLevel(score);
    var size := if boss then BOSS_MAZE_SIZE else if score < 2 then SMALL_MAZE_SIZE else MEDIUM_MAZE_SIZE;
    var trapProb := if boss then TRAP_PROBABILITY_BOSS
                    else if score < 2 then TRAP_PROBABILITY_NORMAL
                    else TRAP_PROBABILITY_MEDIUM;
    var critChance := if boss then BOSS_CRIT_CHANCE else NORMAL_CRIT_CHANCE;
    var projChance := if boss then 0.30 else Min(0.02 + 0.005 * score as real, 0.15);
    MapSettings(size, size, trapProb, critChance, projChance, boss)
  }

  /** The table's three tiers, level by level, for every reachable score. */
  lemma SettingsTiers(score: nat)
    ensures score == 0 || score == 1 ==>
      GetMapSettings(score).width == SMALL_MAZE_SIZE && GetMapSettings(score).trapProb == TRAP_PROBABILITY_NORMAL
    ensures score >= 2 && score % 5 != 0 ==>
      GetMapSettings(score).width == MEDIUM_MAZE_SIZE && GetMapSettings(score).trapProb == TRAP_PROBABILITY_MEDIUM
    ensures score >= 5 && score % 5 == 0 ==>
      GetMapSettings(score).width == BOSS_MAZE_SIZE && GetMapSettings(score).trapProb == TRAP_PROBABILITY_BOSS
  {
  }

  /** Every maze the table asks for has odd sides of at least 21 cells, the
      shape maze carving and the boundary openings are proved for. */
  lemma SettingsSizeOdd(score: int)
    ensures GetMapSettings(score).width >= 21 && GetMapSettings(score).width % 2 == 1
  {
  }

  /** Outside boss levels the projectile chance grows with the score until it
      reaches its cap of 0.15; boss levels always use 0.30. */
  lemma ProjectileChanceMonotone(a: nat, b: nat)
    requires a <= b && !IsBossLevel(a) && !IsBossLevel(b)
    ensures GetMapSettings(a).projChance <= GetMapSettings(b).projChance <= 0.15
  {
  }

  /** For every reachable score the projectile chance lies in [0.02, 0.30]. */
  lemma ProjectileChanceBounds(score: nat)
    ensures 0.02 <= GetMapSettings(score).projChance <= 0.30
  {
  }

  /** The cap is reached from score 26 onwards. */
  lemma ProjectileChanceCapped(score: nat)
    requires score >= 26 && !IsBossLevel(score)
    ensures GetMapSettings(score).projChance == 0.15
  {
  }
}
