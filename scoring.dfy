/** The score table (tetris.js:54), the line-clear award (tetris.js:191-196)
    and the level and gravity interval (tetris.js:199-205). */
module Scoring {

  /** `SCORING`: base points for clearing 0, 1, 2, 3 or 4 rows at once. */
  const ScoreTable: seq<nat> := [0, 40, 100, 300, 1200]

  /** Points for clearing `cleared` rows at once at `level`. */
  function LineClearAward(cleared: nat, level: nat): (points: nat)
    requires cleared < |ScoreTable|
  {
    ScoreTable[cleared] * (level + 1)
  }

  /** Clearing nothing earns nothing, more rows at once earn more, and a
      clear at level n is worth n + 1 times the same clear at level 0. */
  lemma AwardFacts(cleared: nat, more: nat, level: nat)
    requires cleared <= more < |ScoreTable|
    ensures LineClearAward(0, level) == 0
    ensures LineClearAward(cleared, level) <= LineClearAward(more, level)
    ensures LineClearAward(cleared, level) == (level + 1) * LineClearAward(cleared, 0)
  {
    assert ScoreTable[cleared] <= ScoreTable[more];
    assert LineClearAward(cleared, level) == ScoreTable[cleared] * (level + 1);
    assert LineClearAward(more, level) == ScoreTable[more] * (level + 1);
  }

  /** The level reached after `lines` cleared rows: one level per ten. */
  function LevelFor(lines: nat): (level: nat)
    ensures 10 * level <= lines < 10 * (level + 1)
  {
    lines / 10
  }

  /** The gravity interval in milliseconds: 1000 at level 0, 70 less per
      level, never below 100. */
  function GravityInterval(level: nat): (ms: int)
    ensures 100 <= ms <= 1000
    ensures ms >= 1000 - 70 * level
    ensures ms == 100 || ms == 1000 - 70 * level
  {
    if 1000 - level * 70 > 100 then 1000 - level * 70 else 100
  }

  /** More cleared rows never lower the level, and a higher level never
      slows gravity down. */
  lemma LevelMonotone(lines: nat, more: nat)
    requires lines <= more
    ensures LevelFor(lines) <= LevelFor(more)
    ensures GravityInterval(LevelFor(more)) <= GravityInterval(LevelFor(lines))
  {
  }
}
