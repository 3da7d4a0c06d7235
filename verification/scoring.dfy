/** Points for cleared groups and level progress (js/game.js:289-336,
    741-774, 812). */
module Scoring {
  import opened Tiles

  /** The values of `gameStatus`. */
  datatype Status = Ready | Playing | Paused | LevelComplete | GameOver

  function Pow2(n: nat): (p: nat)
    ensures p >= 1
  {
    if n == 0 then 1 else 2 * Pow2(n - 1)
  }

  lemma {:induction false} Pow2Add(a: nat, b: nat)
    ensures Pow2(a + b) == Pow2(a) * Pow2(b)
    decreases a
  {
    if a > 0 {
      Pow2Add(a - 1, b);
      assert Pow2(a + b) == 2 * Pow2(a - 1 + b);
    }
  }

  /** The points of one group of n tiles, 100 * 2^(n - 3): 25 for one
      tile, 50 for two, 100 for three, doubling with every further tile. */
  function GroupPoints(n: nat): (p: nat)
    requires n >= 1
    ensures n >= MinMatchSize ==> p == 100 * Pow2(n - MinMatchSize)
    ensures n < MinMatchSize ==> p * Pow2(MinMatchSize - n) == 100
  {
    if n >= MinMatchSize then Pow2Add(2, n - MinMatchSize); 25 * Pow2(n - 1)
    else 25 * Pow2(n - 1)
  }

  /** Whether some tile of the group is special. */
  predicate HasSpecial(g: seq<Tile>) {
    exists k :: 0 <= k < |g| && g[k].special
  }

  /** The points one group adds, doubled when it holds a special tile. */
  function MatchPoints(g: seq<Tile>): (p: nat)
    requires |g| >= 1
    ensures p == (if HasSpecial(g) then 2 else 1) * GroupPoints(|g|)
  {
    var base := GroupPoints(|g|);
    if HasSpecial(g) then base + base else base
  }

  /** A group holding a special tile is worth exactly twice a group of the
      same size without one. */
  lemma SpecialDoubles(g: seq<Tile>, h: seq<Tile>)
    requires |g| == |h| >= 1 && HasSpecial(g) && !HasSpecial(h)
    ensures MatchPoints(g) == 2 * MatchPoints(h)
  {
  }

  /** The gain of one call of `calculateScore`: every group counts, also
      groups that share tiles with another. */
  function ScoreGain(groups: seq<seq<Tile>>): nat
    requires forall i :: 0 <= i < |groups| ==> |groups[i]| >= 1
  {
    if groups == [] then 0 else ScoreGain(groups[..|groups| - 1]) + MatchPoints(groups[|groups| - 1])
  }

  lemma {:induction false} ScoreGainAppend(a: seq<seq<Tile>>, b: seq<seq<Tile>>)
    requires forall i :: 0 <= i < |a| ==> |a[i]| >= 1
    requires forall i :: 0 <= i < |b| ==> |b[i]| >= 1
    ensures ScoreGain(a + b) == ScoreGain(a) + ScoreGain(b)
    decreases |b|
  {
    if b == [] {
      assert a + b == a;
    } else {
      var n := |b| - 1;
      assert (a + b)[..|a + b| - 1] == a + b[..n];
      ScoreGainAppend(a, b[..n]);
    }
  }

  /** Every group of at least three tiles is worth at least 100 points. */
  lemma {:induction false} ScoreGainAtLeast(groups: seq<seq<Tile>>)
    requires forall i :: 0 <= i < |groups| ==> |groups[i]| >= MinMatchSize
    ensures ScoreGain(groups) >= 100 * |groups|
  {
    if groups != [] {
      var n := |groups| - 1;
      ScoreGainAtLeast(groups[..n]);
      assert MatchPoints(groups[n]) >= GroupPoints(|groups[n]|) >= 100;
    }
  }

  /** A single group's gain: the points of its size, doubled for a special tile. */
  lemma ScoreGainSingle(g: seq<Tile>)
    requires |g| >= 1
    ensures ScoreGain([g]) == (if HasSpecial(g) then 2 else 1) * GroupPoints(|g|)
  {
    assert [g][..0] == [];
  }

  // ---------------------------------------------------------------------
  // Level progress

  /** The score that completes `level`, level * 1000. */
  function GoalScore(level: int): (g: int)
    requires level >= 1
    ensures g >= 1000
  {
    level * 1000
  }

  /** Floor division of x by g, counted out by repeated subtraction. */
  function Quotient(x: nat, g: nat): nat
    requires g > 0
    decreases x
  {
    if x < g then 0 else 1 + Quotient(x - g, g)
  }

  /** The quotient brackets x between two consecutive multiples of g. */
  lemma {:induction false} QuotientBracket(x: nat, g: nat)
    requires g > 0
    ensures Quotient(x, g) * g <= x < Quotient(x, g) * g + g
    decreases x
  {
    if x >= g {
      QuotientBracket(x - g, g);
      var q := Quotient(x - g, g);
      assert (q + 1) * g == q * g + g;
    }
  }

  /** A larger dividend never has a smaller quotient. */
  lemma {:induction false} QuotientMonotone(x: nat, y: nat, g: nat)
    requires x <= y && g > 0
    ensures Quotient(x, g) <= Quotient(y, g)
    decreases x
  {
    if x >= g {
      QuotientMonotone(x - g, y - g, g);
    }
  }

  /** The counted quotient is the quotient of integer division. */
  lemma QuotientIsDiv(x: nat, g: nat)
    requires g > 0
    ensures Quotient(x, g) == x / g
  {
    var q, d := Quotient(x, g), x / g;
    QuotientBracket(x, g);
    assert d * g <= x < d * g + g;
    if q < d {
      MulLeft(q + 1, d, g);
    }
    if d < q {
      MulLeft(d + 1, q, g);
    }
  }

  lemma MulLeft(a: int, b: int, g: int)
    requires a <= b && g >= 0
    ensures a * g <= b * g
  {
  }

  /** `goalProgress`, the percentage of the goal score reached, capped at 100. */
  function GoalProgress(score: int, level: int): (p: int)
    requires score >= 0 && level >= 1
    ensures 0 <= p <= 100
  {
    var q := Quotient(score * 100, GoalScore(level));
    if q < 100 then q else 100
  }

  /** The score at which the progress reaches `goalPercentage`: 66% of
      the goal score, 660 points per level. */
  function GoalThreshold(level: int): (t: int)
    requires level >= 1
    ensures t * 100 == GoalPercentage * GoalScore(level)
  {
    660 * level
  }

  /** The progress reaches `goalPercentage` exactly when the score reaches
      the threshold. */
  lemma GoalReached(score: int, level: int)
    requires score >= 0 && level >= 1
    ensures GoalProgress(score, level) >= GoalPercentage <==> score >= GoalThreshold(level)
  {
    var g, x := GoalScore(level), score * 100;
    var q := Quotient(x, g);
    QuotientBracket(x, g);
    if q >= GoalPercentage {
      MulLeft(GoalPercentage, q, g);
    }
    if q < GoalPercentage {
      MulLeft(q + 1, GoalPercentage, g);
    }
  }

  /** More points never mean less progress. */
  lemma ProgressMonotone(s1: int, s2: int, level: int)
    requires 0 <= s1 <= s2 && level >= 1
    ensures GoalProgress(s1, level) <= GoalProgress(s2, level)
  {
    QuotientMonotone(s1 * 100, s2 * 100, GoalScore(level));
  }

  /** The score a restart begins from: 66% of the goal of every earlier
      level, (level - 1) * 1000 * 66 / 100. */
  function RestartScore(level: int): (s: int)
    requires level >= 1
    ensures s >= 0
  {
    (level - 1) * 1000 * GoalPercentage / 100
  }

  /** A restarted level does not begin already complete. */
  lemma RestartBelowGoal(level: int)
    requires level >= 1
    ensures GoalProgress(RestartScore(level), level) < GoalPercentage
  {
    assert RestartScore(level) == (level - 1) * 660;
    GoalReached(RestartScore(level), level);
  }

  // ---------------------------------------------------------------------
  // The standing after points are added

  /** The fields `score`, `goalProgress` and `gameStatus` together. */
  datatype Standing = Standing(score: int, progress: int, status: Status)

  /** The standing after `calculateScore` adds `gain`: the new score, the
      recomputed progress, and `levelComplete` fired when the progress
      reaches `goalPercentage`, whatever the status was. */
  function Scored(st: Standing, level: int, gain: nat): (r: Standing)
    requires st.score >= 0 && level >= 1
    ensures r.score == st.score + gain && r.progress == GoalProgress(r.score, level)
    ensures r.status == LevelComplete <==> st.status == LevelComplete || r.score >= GoalThreshold(level)
    ensures r.status != LevelComplete ==> r.status == st.status
  {
    var score := st.score + gain;
    var p := GoalProgress(score, level);
    GoalReached(score, level);
    Standing(score, p, if p >= GoalPercentage then LevelComplete else st.status)
  }

  /** Adding two gains one after the other is adding their sum once: the
      level-complete check of the first is subsumed by that of the second. */
  lemma ScoredTwice(st: Standing, level: int, g1: nat, g2: nat)
    requires st.score >= 0 && level >= 1
    ensures Scored(Scored(st, level, g1), level, g2) == Scored(st, level, g1 + g2)
  {
    ProgressMonotone(st.score + g1, st.score + g1 + g2, level);
  }
}
