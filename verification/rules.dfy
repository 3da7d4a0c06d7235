/** The effect of each player action on the play state, stated on values:
    one resolution of a list of groups (js/game.js:230-284), the cascade
    that repeats it (js/game.js:138-156, 493-511), a swap with its legality
    rule (js/game.js:444-488) and the booster effects (js/game.js:577-720). */
module Rules {
  import opened Tiles
  import opened Matching
  import opened Gravity
  import opened Scoring

  /** The parts of the game state a move can change: the grid, the number
      of random draws taken so far, the standing, and the move counters. */
  datatype Play = Play(grid: Board, draws: nat, tally: Standing, movesMade: int, movesLeft: int)

  /** A play state between actions: a tagged grid without raised flags,
      a non-negative score and a progress percentage. */
  predicate Settled(p: Play) {
    Tagged(p.grid) && Clean(p.grid) && p.tally.score >= 0 && 0 <= p.tally.progress <= 100
  }

  /** One call of `replaceMatchedTiles(groups)`: mark the cells the groups
      name, score the groups, let every column settle. */
  function Resolved(p: Play, groups: seq<seq<Tile>>, level: int, rand: nat -> Roll): (q: Play)
    requires Tagged(p.grid) && p.tally.score >= 0 && level >= 1
    requires forall i :: 0 <= i < |groups| ==> |groups[i]| >= 1
    ensures Settled(q)
    ensures q.tally == Scored(p.tally, level, ScoreGain(groups))
    ensures q.movesMade == p.movesMade && q.movesLeft == p.movesLeft && q.draws >= p.draws
  {
    var m := WithMarks(p.grid, CellsOf(groups));
    WithMarksKeepsTags(p.grid, CellsOf(groups));
    CollapseTaggedClean(m, rand, p.draws);
    Play(Collapse(m, rand, p.draws), DrawStart(m, p.draws, GridSize), Scored(p.tally, level, ScoreGain(groups)), p.movesMade, p.movesLeft)
  }

  /** A cascade and how many resolution passes it made. */
  datatype Outcome = Outcome(play: Play, passes: nat)

  /** What every cascade from p with `fuel` passes allowed guarantees:
      the state is settled again, at most `fuel` passes were made, the
      moves are untouched, every pass added at least 100 points, only the
      level-complete check can change the status, a cascade that stops
      early leaves no match, and after one pass or more the progress is
      that of the final score and the level is complete exactly when it
      was already or the final score reaches the goal threshold. */
  predicate Cascaded(p: Play, level: int, fuel: nat, o: Outcome)
    requires Settled(p) && level >= 1
  {
    Settled(o.play) && o.passes <= fuel &&
    o.play.movesMade == p.movesMade && o.play.movesLeft == p.movesLeft &&
    o.play.tally.score >= p.tally.score + 100 * o.passes &&
    (o.play.tally.status != LevelComplete ==> o.play.tally.status == p.tally.status) &&
    (o.passes == 0 ==> o.play.tally == p.tally) &&
    (o.passes < fuel ==> MatchFree(o.play.grid)) &&
    (o.passes > 0 ==> o.play.tally.progress == GoalProgress(o.play.tally.score, level)) &&
    (o.passes > 0 ==>
      (o.play.tally.status == LevelComplete <==> p.tally.status == LevelComplete || o.play.tally.score >= GoalThreshold(level)))
  }

  /** `checkForCascadingMatches` (and the loop of `resolveInitialMatches`)
      run to the end, at most `fuel` passes deep. */
  function Cascade(p: Play, level: int, rand: nat -> Roll, fuel: nat): (o: Outcome)
    requires Settled(p) && level >= 1
    ensures Cascaded(p, level, fuel, o)
    decreases fuel, 1
  {
    if fuel == 0 then Outcome(p, 0) else CheckPass(p, level, rand, fuel)
  }

  /** One call of `checkForCascadingMatches` with a pass left: find the
      matches; when there are any, resolve them and cascade on. */
  function CheckPass(p: Play, level: int, rand: nat -> Roll, fuel: nat): (o: Outcome)
    requires Settled(p) && level >= 1 && fuel > 0
    ensures Cascaded(p, level, fuel, o)
    decreases fuel, 0
  {
    MatchesEmptyIff(p.grid);
    if |Matches(p.grid)| == 0 then Outcome(p, 0)
    else
      var ms := Matches(p.grid);
      MatchTiles(p.grid);
      ScoreGainAtLeast(ms);
      var q := Resolved(p, ms, level, rand);
      var o := Cascade(q, level, rand, fuel - 1);
      Outcome(o.play, o.passes + 1)
  }

  /** A cascade with fuel on a grid with matches is one pass more than the
      cascade of the resolved state. */
  lemma CascadeUnfold(p: Play, level: int, rand: nat -> Roll, fuel: nat)
    requires Settled(p) && level >= 1 && fuel > 0 && Matches(p.grid) != []
    ensures forall i :: 0 <= i < |Matches(p.grid)| ==> |Matches(p.grid)[i]| >= MinMatchSize
    ensures var o := Cascade(Resolved(p, Matches(p.grid), level, rand), level, rand, fuel - 1);
      Cascade(p, level, rand, fuel) == Outcome(o.play, o.passes + 1)
  {
    MatchTiles(p.grid);
    assert Cascade(p, level, rand, fuel) == CheckPass(p, level, rand, fuel);
  }

  /** A cascade that makes no pass leaves the state exactly as it was. */
  lemma CascadeNoPass(p: Play, level: int, rand: nat -> Roll, fuel: nat)
    requires Settled(p) && level >= 1
    ensures Cascade(p, level, rand, fuel).passes == 0 ==> Cascade(p, level, rand, fuel).play == p
  {
    if fuel > 0 && Matches(p.grid) != [] {
      CascadeUnfold(p, level, rand, fuel);
    } else if fuel > 0 {
      MatchesEmptyIff(p.grid);
      CascadeIdle(p, level, rand, fuel);
    }
  }

  /** A grid without matches is left alone. */
  lemma CascadeIdle(p: Play, level: int, rand: nat -> Roll, fuel: nat)
    requires Settled(p) && level >= 1 && MatchFree(p.grid)
    ensures Cascade(p, level, rand, fuel) == Outcome(p, 0)
  {
    MatchesEmptyIff(p.grid);
    if fuel > 0 {
      assert Cascade(p, level, rand, fuel) == CheckPass(p, level, rand, fuel);
    }
  }

  /** While fuel is left and the grid has matches, a cascade is one
      resolution of those matches followed by the cascade of the result. */
  lemma CascadeStep(p: Play, level: int, rand: nat -> Roll, fuel: nat, ms: seq<seq<Tile>>)
    requires Settled(p) && level >= 1 && fuel > 0
    requires ms == Matches(p.grid) && |ms| > 0
    requires forall i :: 0 <= i < |ms| ==> |ms[i]| >= MinMatchSize
    ensures Cascade(p, level, rand, fuel).play == Cascade(Resolved(p, ms, level, rand), level, rand, fuel - 1).play
  {
    CascadeUnfold(p, level, rand, fuel);
  }

  /** The grid `createNewGrid` builds row by row, one random draw per
      cell, counted from d. */
  function NewGrid(rand: nat -> Roll, d: nat): (b: Board)
    ensures IsGrid(b)
  {
    seq(GridSize, r requires 0 <= r < GridSize =>
      seq(GridSize, c requires 0 <= c < GridSize => FreshTile(rand(d + GridSize * r + c), r, c)))
  }

  /** A new grid holds in every cell a plain tile tagged with that cell,
      coloured by the draw numbered d + 8 * row + col. */
  lemma NewGridCells(rand: nat -> Roll, d: nat)
    ensures Tagged(NewGrid(rand, d)) && Clean(NewGrid(rand, d))
    ensures forall r, c :: 0 <= r < GridSize && 0 <= c < GridSize ==>
      !NewGrid(rand, d)[r][c].special && NewGrid(rand, d)[r][c].color == RollColor(rand(d + GridSize * r + c))
  {
    var b := NewGrid(rand, d);
    forall r, c | 0 <= r < GridSize && 0 <= c < GridSize
      ensures b[r][c] == FreshTile(rand(d + GridSize * r + c), r, c)
    {
    }
  }

  /** `createNewGrid`: a new grid, then `resolveInitialMatches`, which
      scores what it resolves. */
  function Populated(p: Play, level: int, rand: nat -> Roll, fuel: nat): (q: Play)
    requires p.tally.score >= 0 && 0 <= p.tally.progress <= 100 && level >= 1
    ensures Settled(q) && q.movesMade == p.movesMade && q.movesLeft == p.movesLeft
    ensures q.tally.score >= p.tally.score
    ensures Tagged(NewGrid(rand, p.draws)) && Clean(NewGrid(rand, p.draws))
    ensures Cascade(p.(grid := NewGrid(rand, p.draws), draws := p.draws + GridSize * GridSize), level, rand, fuel).passes < fuel ==>
        MatchFree(q.grid)
  {
    NewGridCells(rand, p.draws);
    Cascade(p.(grid := NewGrid(rand, p.draws), draws := p.draws + GridSize * GridSize), level, rand, fuel).play
  }

  /** A new grid in place, then its cascade. */
  lemma PopulatedFrom(p: Play, q: Play, level: int, rand: nat -> Roll, fuel: nat)
    requires p.tally.score >= 0 && 0 <= p.tally.progress <= 100 && level >= 1
    requires q == p.(grid := NewGrid(rand, p.draws), draws := p.draws + GridSize * GridSize)
    ensures Settled(q)
    ensures Populated(p, level, rand, fuel) == Cascade(q, level, rand, fuel).play
  {
    NewGridCells(rand, p.draws);
  }

  // ---------------------------------------------------------------------
  // Swaps

  /** Two cells are neighbours in one row or one column. */
  predicate Adjacent(a: Pos, b: Pos) {
    (a.col == b.col && (a.row - b.row == 1 || b.row - a.row == 1)) ||
    (a.row == b.row && (a.col - b.col == 1 || b.col - a.col == 1))
  }

  /** The tiles of cells a and b exchanged, each retagged with its new cell. */
  function Swapped(g: Board, a: Pos, b: Pos): (s: Board)
    requires IsGrid(g) && InBounds(a.row, a.col) && InBounds(b.row, b.col)
    ensures IsGrid(s)
  {
    var temp := g[a.row][a.col];
    var g1 := g[a.row := g[a.row][a.col := g[b.row][b.col].(row := a.row, col := a.col)]];
    g1[b.row := g1[b.row][b.col := temp.(row := b.row, col := b.col)]]
  }

  /** What a swap does cell by cell: a and b trade colour, special flag and
      matched flag, every other cell is unchanged, and a tagged clean board
      stays tagged and clean. */
  lemma SwappedCells(g: Board, a: Pos, b: Pos)
    requires Tagged(g) && InBounds(a.row, a.col) && InBounds(b.row, b.col)
    ensures var s := Swapped(g, a, b);
      Tagged(s) && (Clean(g) ==> Clean(s)) &&
      s[a.row][a.col] == g[b.row][b.col].(row := a.row, col := a.col) &&
      s[b.row][b.col] == g[a.row][a.col].(row := b.row, col := b.col) &&
      forall r, c :: 0 <= r < GridSize && 0 <= c < GridSize && Pos(r, c) != a && Pos(r, c) != b ==> s[r][c] == g[r][c]
  {
  }

  /** Swapping the same two cells again restores the board exactly. */
  lemma SwapTwice(g: Board, a: Pos, b: Pos)
    requires Tagged(g) && InBounds(a.row, a.col) && InBounds(b.row, b.col)
    ensures Swapped(Swapped(g, a, b), a, b) == g
  {
    SwappedCells(g, a, b);
    var s := Swapped(g, a, b);
    SwappedCells(s, a, b);
    BoardExt(Swapped(s, a, b), g);
  }

  /** The game-over check of `swapTiles`. */
  function CheckGameOver(p: Play): (q: Play)
    ensures q.grid == p.grid && q.draws == p.draws && q.movesLeft == p.movesLeft && q.movesMade == p.movesMade
    ensures q.tally.score == p.tally.score && q.tally.progress == p.tally.progress
    ensures q.tally.status == (if p.movesLeft <= 0 && p.tally.progress < GoalPercentage then GameOver else p.tally.status)
    ensures Settled(p) ==> Settled(q)
  {
    if p.movesLeft <= 0 && p.tally.progress < GoalPercentage then p.(tally := p.tally.(status := GameOver)) else p
  }

  /** The state a legal swap hands to the cascade: the swapped grid with
      one move spent, its matches resolved, then the game-over check. */
  function SwapResolved(p: Play, a: Pos, b: Pos, level: int, rand: nat -> Roll): (q: Play)
    requires Settled(p) && level >= 1 && InBounds(a.row, a.col) && InBounds(b.row, b.col)
    requires Matches(Swapped(p.grid, a, b)) != []
    ensures Settled(q)
    ensures q.movesMade == p.movesMade + 1 && q.movesLeft == p.movesLeft - 1
    ensures q.tally.score >= p.tally.score + 100
  {
    SwappedCells(p.grid, a, b);
    var s := Swapped(p.grid, a, b);
    var ms := Matches(s);
    MatchTiles(s);
    ScoreGainAtLeast(ms);
    CheckGameOver(Resolved(p.(grid := s, movesMade := p.movesMade + 1, movesLeft := p.movesLeft - 1), ms, level, rand))
  }

  /** `swapTiles(a, b)`: swap; when the swapped grid has no match, swap
      back; otherwise spend a move and resolve. Then the game-over check,
      and after a legal swap the cascade. */
  function AfterSwap(p: Play, a: Pos, b: Pos, level: int, rand: nat -> Roll, fuel: nat): (q: Play)
    requires Settled(p) && level >= 1 && InBounds(a.row, a.col) && InBounds(b.row, b.col)
    ensures Settled(q)
  {
    SwappedCells(p.grid, a, b);
    var s := Swapped(p.grid, a, b);
    if Matches(s) == [] then
      SwappedCells(s, a, b);
      CheckGameOver(p.(grid := Swapped(s, a, b)))
    else
      Cascade(SwapResolved(p, a, b, level, rand), level, rand, fuel).play
  }

  /** A swap that makes no match puts the tiles back, spends no move, scores
      nothing and draws nothing; only the game-over check can fire. */
  lemma IllegalSwap(p: Play, a: Pos, b: Pos, level: int, rand: nat -> Roll, fuel: nat)
    requires Settled(p) && level >= 1 && InBounds(a.row, a.col) && InBounds(b.row, b.col)
    requires Matches(Swapped(p.grid, a, b)) == []
    ensures AfterSwap(p, a, b, level, rand, fuel) == CheckGameOver(p)
  {
    SwapTwice(p.grid, a, b);
  }

  /** A swap that makes a match spends exactly one move and scores at least
      100 points. */
  lemma LegalSwap(p: Play, a: Pos, b: Pos, level: int, rand: nat -> Roll, fuel: nat)
    requires Settled(p) && level >= 1 && InBounds(a.row, a.col) && InBounds(b.row, b.col)
    requires Matches(Swapped(p.grid, a, b)) != []
    ensures var q := AfterSwap(p, a, b, level, rand, fuel);
      q.movesMade == p.movesMade + 1 && q.movesLeft == p.movesLeft - 1 && q.tally.score >= p.tally.score + 100
  {
  }

  /** A legal swap in steps: the swapped grid with one move spent, its
      matches resolved and the game-over check give the state the cascade
      starts from. */
  lemma LegalSwapFrom(p: Play, a: Pos, b: Pos, level: int, rand: nat -> Roll, moved: Play, ms: seq<seq<Tile>>)
    requires Settled(p) && level >= 1 && InBounds(a.row, a.col) && InBounds(b.row, b.col)
    requires moved == p.(grid := Swapped(p.grid, a, b), movesMade := p.movesMade + 1, movesLeft := p.movesLeft - 1)
    requires Tagged(moved.grid) && ms == Matches(moved.grid) && ms != []
    requires forall i :: 0 <= i < |ms| ==> |ms[i]| >= 1
    ensures SwapResolved(p, a, b, level, rand) == CheckGameOver(Resolved(moved, ms, level, rand))
  {
  }

  // ---------------------------------------------------------------------
  // Boosters

  /** The cells of one row. */
  function RowCells(row: int): set<Pos> {
    set c | 0 <= c < GridSize :: Pos(row, c)
  }

  function Max(a: int, b: int): int { if a < b then b else a }
  function Min(a: int, b: int): int { if a < b then a else b }

  /** The cells of row r from column lo up to hi (exclusive). */
  function SpanCells(r: int, lo: int, hi: int): set<Pos> {
    set c | lo <= c < hi :: Pos(r, c)
  }

  /** The cells of rows r0 .. r - 1 and columns c0 .. c1 - 1. */
  function RectCells(r0: int, r: int, c0: int, c1: int): set<Pos>
    decreases r - r0
  {
    if r <= r0 then {} else RectCells(r0, r - 1, c0, c1) + SpanCells(r - 1, c0, c1)
  }

  lemma {:induction false} RectMembers(r0: int, r: int, c0: int, c1: int, p: Pos)
    ensures p in RectCells(r0, r, c0, c1) <==> r0 <= p.row < r && c0 <= p.col < c1
    decreases r - r0
  {
    if r > r0 {
      RectMembers(r0, r - 1, c0, c1, p);
      if p.row == r - 1 && c0 <= p.col < c1 {
        assert p == Pos(r - 1, p.col);
      }
    }
  }

  /** The cells the bomb's loops visit: rows max(0, row - 1) .. min(7, row + 1)
      by columns max(0, col - 1) .. min(7, col + 1). */
  function BoxCells(row: int, col: int): set<Pos> {
    RectCells(Max(0, row - 1), Min(GridSize - 1, row + 1) + 1, Max(0, col - 1), Min(GridSize - 1, col + 1) + 1)
  }

  /** The bomb clears exactly the cells of the grid within one step of the
      target in both directions. */
  lemma BoxIsClippedBlock(row: int, col: int, p: Pos)
    ensures p in BoxCells(row, col) <==>
      InBounds(p.row, p.col) && -1 <= p.row - row <= 1 && -1 <= p.col - col <= 1
  {
    RectMembers(Max(0, row - 1), Min(GridSize - 1, row + 1) + 1, Max(0, col - 1), Min(GridSize - 1, col + 1) + 1, p);
  }

  /** The tiles of row r from column lo up to hi name exactly those cells. */
  lemma {:induction false} SliceCells(g: Board, r: int, lo: nat, hi: nat)
    requires Tagged(g) && 0 <= r < GridSize && lo <= hi <= GridSize
    ensures GroupCells(g[r][lo..hi]) == SpanCells(r, lo, hi)
    decreases hi - lo
  {
    if lo < hi {
      SliceCells(g, r, lo, hi - 1);
      assert g[r][lo..hi][..hi - lo - 1] == g[r][lo..hi - 1];
      assert SpanCells(r, lo, hi) == SpanCells(r, lo, hi - 1) + {Pos(r, hi - 1)};
    } else {
      assert SpanCells(r, lo, hi) == {};
    }
  }

  /** Row r of a board marked up to and including row r reads the same,
      between c0 and c1, as that of the board marked over the whole
      rectangle. */
  lemma RectRowSlice(g: Board, r0: int, r: int, r1: int, c0: int, c1: int)
    requires IsGrid(g) && 0 <= r0 <= r < r1 <= GridSize && 0 <= c0 <= c1 <= GridSize
    ensures WithMarks(g, RectCells(r0, r + 1, c0, c1))[r][c0..c1] == WithMarks(g, RectCells(r0, r1, c0, c1))[r][c0..c1]
  {
    forall k | c0 <= k < c1
      ensures WithMarks(g, RectCells(r0, r + 1, c0, c1))[r][k] == WithMarks(g, RectCells(r0, r1, c0, c1))[r][k]
    {
      RectMembers(r0, r + 1, c0, c1, Pos(r, k));
      RectMembers(r0, r1, c0, c1, Pos(r, k));
    }
  }

  /** The bomb's group: the tiles of rows r0 .. r - 1 between columns c0
      and c1 (exclusive), row by row. */
  function BoxGroup(m: Board, r0: int, r: int, c0: nat, c1: nat): (g: seq<Tile>)
    requires IsGrid(m) && 0 <= r0 <= r <= GridSize && c0 <= c1 <= GridSize
    ensures |g| == (r - r0) * (c1 - c0)
    decreases r - r0
  {
    if r == r0 then [] else BoxGroup(m, r0, r - 1, c0, c1) + m[r - 1][c0..c1]
  }

  lemma {:induction false} GroupCellsAppend(a: seq<Tile>, b: seq<Tile>)
    ensures GroupCells(a + b) == GroupCells(a) + GroupCells(b)
    decreases |b|
  {
    if b == [] {
      assert a + b == a;
    } else {
      var n := |b| - 1;
      assert (a + b)[..|a + b| - 1] == a + b[..n];
      GroupCellsAppend(a, b[..n]);
    }
  }

  /** The bomb's group names exactly the cells of its rectangle. */
  lemma {:induction false} BoxGroupCells(m: Board, r0: int, r: int, c0: nat, c1: nat)
    requires Tagged(m) && 0 <= r0 <= r <= GridSize && c0 <= c1 <= GridSize
    ensures GroupCells(BoxGroup(m, r0, r, c0, c1)) == RectCells(r0, r, c0, c1)
    decreases r - r0
  {
    if r > r0 {
      BoxGroupCells(m, r0, r - 1, c0, c1);
      GroupCellsAppend(BoxGroup(m, r0, r - 1, c0, c1), m[r - 1][c0..c1]);
      SliceCells(m, r - 1, c0, c1);
    }
  }

  /** The lightning booster's resolution: the whole row flagged and
      scored as one group. */
  function LightningResolved(p: Play, row: int, level: int, rand: nat -> Roll): (q: Play)
    requires Settled(p) && level >= 1 && 0 <= row < GridSize
    ensures Settled(q) && q.movesMade == p.movesMade && q.movesLeft == p.movesLeft
  {
    var m := WithMarks(p.grid, RowCells(row));
    WithMarksKeepsTags(p.grid, RowCells(row));
    Resolved(p.(grid := m), [m[row]], level, rand)
  }

  /** The lightning booster on `row`: its resolution, then the cascade. */
  function AfterLightning(p: Play, row: int, level: int, rand: nat -> Roll, fuel: nat): (q: Play)
    requires Settled(p) && level >= 1 && 0 <= row < GridSize
    ensures Settled(q)
    ensures q.movesMade == p.movesMade && q.movesLeft == p.movesLeft
  {
    Cascade(LightningResolved(p, row, level, rand), level, rand, fuel).play
  }

  /** The hammer booster's resolution: one cell flagged and scored as a
      group of one. */
  function HammerResolved(p: Play, row: int, col: int, level: int, rand: nat -> Roll): (q: Play)
    requires Settled(p) && level >= 1 && InBounds(row, col)
    ensures Settled(q) && q.movesMade == p.movesMade && q.movesLeft == p.movesLeft
  {
    var m := WithMarks(p.grid, {Pos(row, col)});
    WithMarksKeepsTags(p.grid, {Pos(row, col)});
    Resolved(p.(grid := m), [[m[row][col]]], level, rand)
  }

  /** The hammer booster on one cell: its resolution, then the cascade. */
  function AfterHammer(p: Play, row: int, col: int, level: int, rand: nat -> Roll, fuel: nat): (q: Play)
    requires Settled(p) && level >= 1 && InBounds(row, col)
    ensures Settled(q)
    ensures q.movesMade == p.movesMade && q.movesLeft == p.movesLeft
  {
    Cascade(HammerResolved(p, row, col, level, rand), level, rand, fuel).play
  }

  /** The bomb's group: the tiles of its block row by row, as flagged. */
  function BombGroup(m: Board, row: int, col: int): (g: seq<Tile>)
    requires IsGrid(m) && InBounds(row, col)
  {
    BoxGroup(m, Max(0, row - 1), Min(GridSize - 1, row + 1) + 1, Max(0, col - 1), Min(GridSize - 1, col + 1) + 1)
  }

  /** The bomb booster's resolution: the block around one cell flagged and
      scored as one group. */
  function BombResolved(p: Play, row: int, col: int, level: int, rand: nat -> Roll): (q: Play)
    requires Settled(p) && level >= 1 && InBounds(row, col)
    ensures Settled(q) && q.movesMade == p.movesMade && q.movesLeft == p.movesLeft
  {
    var m := WithMarks(p.grid, BoxCells(row, col));
    WithMarksKeepsTags(p.grid, BoxCells(row, col));
    Resolved(p.(grid := m), [BombGroup(m, row, col)], level, rand)
  }

  /** The bomb booster centred on one cell: its resolution, then the cascade. */
  function AfterBomb(p: Play, row: int, col: int, level: int, rand: nat -> Roll, fuel: nat): (q: Play)
    requires Settled(p) && level >= 1 && InBounds(row, col)
    ensures Settled(q)
    ensures q.movesMade == p.movesMade && q.movesLeft == p.movesLeft
  {
    Cascade(BombResolved(p, row, col, level, rand), level, rand, fuel).play
  }

  /** The star booster: a bonus of floor(1000u) + 500 points, then the
      goal check; no cascade. */
  function AfterStar(p: Play, level: int, rand: nat -> Roll): (q: Play)
    requires Settled(p) && level >= 1
    ensures Settled(q)
    ensures 500 <= q.tally.score - p.tally.score <= 1499
  {
    p.(draws := p.draws + 1, tally := Scored(p.tally, level, rand(p.draws) + 500))
  }

  /** The target booster's forced swap of the selected cell with another,
      adjacent or not and without a legality check, then the cascade. */
  function AfterTarget(p: Play, a: Pos, b: Pos, level: int, rand: nat -> Roll, fuel: nat): (q: Play)
    requires Settled(p) && level >= 1 && InBounds(a.row, a.col) && InBounds(b.row, b.col)
    ensures Settled(q)
    ensures q.movesMade == p.movesMade && q.movesLeft == p.movesLeft
  {
    SwappedCells(p.grid, a, b);
    Cascade(p.(grid := Swapped(p.grid, a, b)), level, rand, fuel).play
  }

  /** The first resolution of a clearing booster removes exactly the cells
      it marked, and scores that one group by its size. */
  lemma ClearedExactly(p: Play, cells: set<Pos>, g: seq<Tile>, level: int, rand: nat -> Roll)
    requires Settled(p) && level >= 1 && |g| >= 1
    requires GroupCells(g) == cells
    ensures var q := Resolved(p.(grid := WithMarks(p.grid, cells)), [g], level, rand);
      q.grid == Collapse(WithMarks(p.grid, cells), rand, p.draws) &&
      q.tally.score == p.tally.score + (if HasSpecial(g) then 2 else 1) * GroupPoints(|g|)
  {
    assert [g][..0] == [];
    assert CellsOf([g]) == cells;
    WithMarksTwice(p.grid, cells, cells);
    assert cells + cells == cells;
    ScoreGainSingle(g);
  }

  /** Lightning clears exactly its row, a group of 8 tiles worth 3200 points
      (6400 with a special tile). */
  lemma LightningClearsRow(p: Play, row: int, level: int, rand: nat -> Roll)
    requires Settled(p) && level >= 1 && 0 <= row < GridSize
    ensures var m := WithMarks(p.grid, RowCells(row));
      var q := LightningResolved(p, row, level, rand);
      q.grid == Collapse(m, rand, p.draws) &&
      q.tally.score == p.tally.score + (if HasSpecial(m[row]) then 6400 else 3200)
  {
    var m := WithMarks(p.grid, RowCells(row));
    WithMarksKeepsTags(p.grid, RowCells(row));
    SliceCells(m, row, 0, GridSize);
    assert m[row][0..GridSize] == m[row];
    assert SpanCells(row, 0, GridSize) == RowCells(row);
    ClearedExactly(p, RowCells(row), m[row], level, rand);
    assert GroupPoints(GridSize) == 100 * Pow2(5) == 3200;
  }

  /** The hammer clears exactly its cell, a group of one tile worth 25
      points (50 if special). */
  lemma HammerClearsCell(p: Play, row: int, col: int, level: int, rand: nat -> Roll)
    requires Settled(p) && level >= 1 && InBounds(row, col)
    ensures var m := WithMarks(p.grid, {Pos(row, col)});
      var q := HammerResolved(p, row, col, level, rand);
      q.grid == Collapse(m, rand, p.draws) &&
      q.tally.score == p.tally.score + (if p.grid[row][col].special then 50 else 25)
  {
    var m := WithMarks(p.grid, {Pos(row, col)});
    var g := [m[row][col]];
    assert g[..0] == [];
    assert g[0] == m[row][col] == p.grid[row][col].(matched := true);
    assert HasSpecial(g) <==> p.grid[row][col].special;
    ClearedExactly(p, {Pos(row, col)}, g, level, rand);
    assert GroupPoints(1) * 4 == 100;
  }

  /** The bomb clears exactly the clipped block, a group of one tile per
      cell: 4 in a corner, 6 on an edge, 9 inside. */
  lemma BombClearsBlock(p: Play, row: int, col: int, level: int, rand: nat -> Roll)
    requires Settled(p) && level >= 1 && InBounds(row, col)
    ensures var m := WithMarks(p.grid, BoxCells(row, col));
      var g := BombGroup(m, row, col);
      var q := BombResolved(p, row, col, level, rand);
      q.grid == Collapse(m, rand, p.draws) &&
      |g| == (Min(GridSize - 1, row + 1) + 1 - Max(0, row - 1)) * (Min(GridSize - 1, col + 1) + 1 - Max(0, col - 1)) &&
      q.tally.score == p.tally.score + (if HasSpecial(g) then 2 else 1) * GroupPoints(|g|)
  {
    var m := WithMarks(p.grid, BoxCells(row, col));
    WithMarksKeepsTags(p.grid, BoxCells(row, col));
    var r0, r1, c0, c1 := Max(0, row - 1), Min(GridSize - 1, row + 1) + 1, Max(0, col - 1), Min(GridSize - 1, col + 1) + 1;
    BoxGroupCells(m, r0, r1, c0, c1);
    ClearedExactly(p, BoxCells(row, col), BoxGroup(m, r0, r1, c0, c1), level, rand);
  }
}
