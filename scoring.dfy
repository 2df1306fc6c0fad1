/** Points, levels, the win clamp and the drop interval of tetris.js. */
module Scoring {

  /** `CONFIG.WIN_SCORE`. */
  const WinScore: int := 4500

  /** `CONFIG.LINES_PER_LEVEL`. */
  const LinesPerLevel: int := 8

  /** `CONFIG.BASE_DROP_INTERVAL`, in milliseconds. */
  const BaseDropInterval: int := 1000

  /** `CONFIG.POINTS`: single, double, triple and four-row clears, indexed by rows cleared. */
  function BasePoints(rowCount: int): (p: int)
    requires 0 <= rowCount <= 4
    ensures rowCount == 0 <==> p == 0
    ensures 0 < rowCount ==> 100 <= p <= 1500
  {
    [0, 100, 200, 500, 1500][rowCount]
  }

  /**
   * tetris.js `calculateScore`: the base points times `1 + (level - 1) * 0.3`,
   * rounded down. The multiplier is taken exactly (as 10 + 3 (level - 1)
   * tenths), not as the nearest binary double.
   */
  function CalculateScore(rowCount: int, level: int): (points: int)
    requires 0 <= rowCount <= 4 && level >= 1
    ensures rowCount == 0 <==> points == 0
    ensures points >= 0
  {
    BasePoints(rowCount) * (10 + 3 * (level - 1)) / 10
  }

  /** The points are the real-valued product of `calculateScore`, rounded down. */
  lemma CalculateScoreIsFloor(rowCount: int, level: int)
    requires 0 <= rowCount <= 4 && level >= 1
    ensures var points := CalculateScore(rowCount, level);
      points as real <= BasePoints(rowCount) as real * (1.0 + (level - 1) as real * 0.3) < points as real + 1.0
  {
    FloorOfTenths(BasePoints(rowCount) * (10 + 3 * (level - 1)));
  }

  /** Dividing by 10 and rounding down is the floor of the real quotient. */
  lemma FloorOfTenths(n: int)
    requires n >= 0
    ensures (n / 10) as real <= n as real / 10.0 < (n / 10) as real + 1.0
  {
    var q, r := n / 10, n % 10;
    assert n == 10 * q + r && 0 <= r < 10;
    assert n as real == 10.0 * q as real + r as real;
  }

  /** At level 1 the multiplier is 1: a clear earns exactly its base points. */
  lemma LevelOneEarnsBase(rowCount: int)
    requires 0 <= rowCount <= 4
    ensures CalculateScore(rowCount, 1) == BasePoints(rowCount)
  {
  }

  /** A higher level never earns fewer points, and never fewer than the base. */
  lemma ScoreGrowsWithLevel(rowCount: int, level: int, higher: int)
    requires 0 <= rowCount <= 4 && 1 <= level <= higher
    ensures BasePoints(rowCount) <= CalculateScore(rowCount, level) <= CalculateScore(rowCount, higher)
  {
    var b := BasePoints(rowCount);
    assert b * (10 + 3 * (level - 1)) <= b * (10 + 3 * (higher - 1));
    assert b * 10 <= b * (10 + 3 * (level - 1));
  }

  /** A single at level 2 earns 130, a four-row clear at level 3 earns 2400. */
  lemma ScoreExamples()
    ensures CalculateScore(1, 2) == 130
    ensures CalculateScore(4, 3) == 2400
  {
  }

  /** The level line of `arenaSweep`: `Math.floor(lines / LINES_PER_LEVEL) + 1`. */
  function LevelFor(lines: int): (level: int)
    requires lines >= 0
    ensures level >= 1
    ensures (level - 1) * LinesPerLevel <= lines < level * LinesPerLevel
  {
    lines / LinesPerLevel + 1
  }

  /** More lines never lower the level. */
  lemma LevelMonotone(lines: int, more: int)
    requires 0 <= lines <= more
    ensures LevelFor(lines) <= LevelFor(more)
  {
  }

  /**
   * The scheduler test `dropCounter > BASE_DROP_INTERVAL / level`, with the
   * division cleared: the counter times the level exceeds 1000.
   */
  predicate DropDue(dropCounter: int, level: int) {
    dropCounter * level > BaseDropInterval
  }

  /** The cleared test agrees with the real-valued quotient the source computes. */
  lemma DropDueIsPastInterval(dropCounter: int, level: int)
    requires level >= 1
    ensures DropDue(dropCounter, level) <==> dropCounter as real > BaseDropInterval as real / level as real
  {
    var c, l := dropCounter as real, level as real;
    var q := BaseDropInterval as real / l;
    assert q * l == BaseDropInterval as real;
    ScaleByPositive(c, q, l);
  }

  lemma ScaleByPositive(a: real, b: real, l: real)
    requires l > 0.0
    ensures a > b <==> a * l > b * l
  {
    assert a * l - b * l == (a - b) * l;
  }

  /** The score, cleared-line count and level of the player. */
  datatype Tally = Tally(score: int, lines: int, level: int)

  /**
   * The scoring part of `arenaSweep` once `rowCount > 0` rows were cleared:
   * add the points at the current level and the rows; a score of 4500 or
   * more is clamped to 4500 and wins, leaving the level as it was; otherwise
   * the level follows the new line count. The flag is whether the game is won.
   */
  function Award(t: Tally, rowCount: int): (Tally, bool)
    requires 1 <= rowCount <= 4 && t.level >= 1 && t.lines >= 0
  {
    var score := t.score + CalculateScore(rowCount, t.level);
    var lines := t.lines + rowCount;
    if score >= WinScore then (Tally(WinScore, lines, t.level), true)
    else (Tally(score, lines, LevelFor(lines)), false)
  }

  /**
   * What an award does: the clear always counts its rows; the game is won
   * exactly when the unclamped score reaches 4500, and then the score is
   * exactly 4500 and the level stale; otherwise the score rose by the points
   * and the level matches the lines. The score never leaves 0..4500 and never drops.
   */
  lemma AwardProperties(t: Tally, rowCount: int)
    requires 1 <= rowCount <= 4 && t.lines >= 0 && t.level == LevelFor(t.lines) && 0 <= t.score < WinScore
    ensures var (r, won) := Award(t, rowCount);
      var points := CalculateScore(rowCount, t.level);
      r.lines == t.lines + rowCount &&
      (won <==> t.score + points >= WinScore) &&
      (won ==> r.score == WinScore && r.level == t.level) &&
      (!won ==> r.score == t.score + points && r.level == LevelFor(r.lines)) &&
      t.score < r.score <= WinScore && r.level >= t.level
  {
    ScoreGrowsWithLevel(rowCount, t.level, t.level);
    LevelMonotone(t.lines, t.lines + rowCount);
  }
}
