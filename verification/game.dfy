/** The game object `ColorMatchFrenzy` (js/game.js:6-857): its `state`
    fields and the methods that update them, each proved against the
    value-level description in Rules. Random draws come from the function
    `random`, numbered by the `draws` counter. */
module Session {
  import opened Tiles
  import opened Matching
  import opened Gravity
  import opened Scoring
  import opened Rules

  /** The five kinds of booster (the keys of `state.boosters`). */
  datatype Booster = Lightning | Hammer | Target | Star | Bomb

  datatype Option<T> = None | Some(value: T)

  /** The parts of the state a move on the grid leaves alone: the level,
      the selected cell, the armed booster and the booster counts. */
  datatype Controls = Controls(level: int, selected: Option<Pos>, armed: Option<Booster>, boosters: map<Booster, int>)

  /** The counts `state.boosters` starts with. */
  function InitialBoosters(): map<Booster, int> {
    map[Lightning := 2, Hammer := 1, Target := 3, Star := 0, Bomb := 1]
  }

  class Game {
    /** The source of `Math.random`: draw number n is `random(n)`. */
    const random: nat -> Roll
    /** How many resolution passes a cascade may make. */
    const passBudget: nat

    var draws: nat
    var level: int
    var score: int
    var movesMade: int
    var movesLeft: int
    var goalProgress: int
    var grid: Board
    var selectedTile: Option<Pos>
    var gameStatus: Status
    var boosters: map<Booster, int>
    var boosterActive: Option<Booster>

    /** What holds between actions whatever the booster counts are. */
    predicate Core()
      reads this
    {
      Settled(PlayState()) && level >= 1 &&
      (selectedTile.Some? ==> InBounds(selectedTile.value.row, selectedTile.value.col)) &&
      (forall k: Booster :: k in boosters)
    }

    /** The invariant of the game object: no booster count is negative, and
        a booster is armed only while its count is positive. */
    predicate Valid()
      reads this
    {
      Core() &&
      (forall k: Booster :: boosters[k] >= 0) &&
      (boosterActive.Some? ==> boosters[boosterActive.value] > 0)
    }

    function Tally(): Standing
      reads this
    {
      Standing(score, goalProgress, gameStatus)
    }

    function PlayState(): Play
      reads this
    {
      Play(grid, draws, Tally(), movesMade, movesLeft)
    }

    function ControlState(): Controls
      reads this
    {
      Controls(level, selectedTile, boosterActive, boosters)
    }

    // -------------------------------------------------------------------
    // The grid engine

    /** `findAllMatches` (js/game.js:167-225): every row, then every column. */
    method FindAllMatches() returns (matches: seq<seq<Tile>>)
      requires IsGrid(grid)
      ensures matches == Matches(grid)
    {
      var horizontal := FindRowMatches();
      var vertical := FindColumnMatches();
      matches := horizontal + vertical;
    }

    /** The row loop of `findAllMatches` (js/game.js:171-195). */
    method FindRowMatches() returns (matches: seq<seq<Tile>>)
      requires IsGrid(grid)
      ensures matches == HorizontalMatches(grid)
    {
      matches := [];
      var row := 0;
      while row < GridSize
        invariant 0 <= row <= GridSize
        invariant matches == Flatten(RowGroups(grid)[..row])
      {
        var groups := FindLineMatches(grid[row]);
        assert RowGroups(grid)[..row + 1][..row] == RowGroups(grid)[..row];
        matches := matches + groups;
        row := row + 1;
      }
      assert RowGroups(grid)[..GridSize] == RowGroups(grid);
    }

    /** The column loop of `findAllMatches` (js/game.js:198-222). */
    method FindColumnMatches() returns (matches: seq<seq<Tile>>)
      requires IsGrid(grid)
      ensures matches == VerticalMatches(grid)
    {
      matches := [];
      var col := 0;
      while col < GridSize
        invariant 0 <= col <= GridSize
        invariant matches == Flatten(ColumnGroups(grid)[..col])
      {
        var groups := FindLineMatches(Column(grid, col));
        assert ColumnGroups(grid)[..col + 1][..col] == ColumnGroups(grid)[..col];
        matches := matches + groups;
        col := col + 1;
      }
      assert ColumnGroups(grid)[..GridSize] == ColumnGroups(grid);
    }

    /** The marking loops of `replaceMatchedTiles` (js/game.js:232-242):
        raise the flag of the cell each tile of each group names. */
    method MarkGroups(matches: seq<seq<Tile>>)
      requires IsGrid(grid)
      requires forall i, j :: 0 <= i < |matches| && 0 <= j < |matches[i]| ==>
        InBounds(matches[i][j].row, matches[i][j].col)
      modifies this`grid
      ensures grid == WithMarks(old(grid), CellsOf(matches))
    {
      ghost var g0 := grid;
      WithMarksNone(g0);
      var i := 0;
      while i < |matches|
        invariant 0 <= i <= |matches|
        invariant grid == WithMarks(g0, CellsOf(matches[..i]))
      {
        var group := matches[i];
        var j := 0;
        ghost var marked := CellsOf(matches[..i]);
        assert group[..0] == [];
        while j < |group|
          invariant 0 <= j <= |group|
          invariant marked == CellsOf(matches[..i]) + GroupCells(group[..j])
          invariant grid == WithMarks(g0, marked)
        {
          var tile := group[j];
          MarkCell(g0, marked, tile.row, tile.col);
          grid := grid[tile.row := grid[tile.row][tile.col := grid[tile.row][tile.col].(matched := true)]];
          assert group[..j + 1][..j] == group[..j];
          marked := marked + {Pos(tile.row, tile.col)};
          j := j + 1;
        }
        assert group[..|group|] == group;
        assert matches[..i + 1][..i] == matches[..i];
        i := i + 1;
      }
      assert matches[..|matches|] == matches;
    }

    /** `calculateScore` (js/game.js:289-316): 100 * 2^(len - 3) per group,
        counted twice when the group holds a special tile, then the
        progress update. */
    method CalculateScore(matches: seq<seq<Tile>>)
      requires score >= 0 && level >= 1
      requires forall i :: 0 <= i < |matches| ==> |matches[i]| >= 1
      modifies this`score, this`goalProgress, this`gameStatus
      ensures Tally() == Scored(old(Tally()), level, ScoreGain(matches))
    {
      var scoreGain := 0;
      var i := 0;
      while i < |matches|
        invariant 0 <= i <= |matches|
        invariant scoreGain == ScoreGain(matches[..i])
      {
        var group := matches[i];
        var matchPoints;
        if |group| >= MinMatchSize {
          matchPoints := 100 * Pow2(|group| - MinMatchSize);
        } else {
          assert Pow2(1) == 2 && Pow2(2) == 4;
          matchPoints := 100 / Pow2(MinMatchSize - |group|);
        }
        assert matchPoints == GroupPoints(|group|);
        scoreGain := scoreGain + matchPoints;
        var hasSpecialTile := false;
        var k := 0;
        while k < |group|
          invariant 0 <= k <= |group|
          invariant hasSpecialTile <==> exists t :: 0 <= t < k && group[t].special
        {
          hasSpecialTile := hasSpecialTile || group[k].special;
          k := k + 1;
        }
        if hasSpecialTile {
          scoreGain := scoreGain + matchPoints;
        }
        assert matches[..i + 1][..i] == matches[..i];
        i := i + 1;
      }
      assert matches[..|matches|] == matches;
      score := score + scoreGain;
      UpdateGoalProgress();
    }

    /** `updateGoalProgress` (js/game.js:321-336): the same standing as
        scoring nothing. */
    method UpdateGoalProgress()
      requires score >= 0 && level >= 1
      modifies this`goalProgress, this`gameStatus
      ensures Tally() == Scored(old(Tally()), level, 0)
    {
      var goalScore := level * 1000;
      QuotientIsDiv(score * 100, goalScore);
      var percent := score * 100 / goalScore;
      goalProgress := if percent < 100 then percent else 100;
      if goalProgress >= GoalPercentage {
        LevelComplete();
      }
    }

    /** `levelComplete` (js/game.js:741-755), with no guard on the status
        it leaves: a second call changes nothing. */
    method LevelComplete()
      modifies this`gameStatus
      ensures gameStatus == Status.LevelComplete
    {
      if gameStatus == Status.LevelComplete {
        return;
      }
      gameStatus := Status.LevelComplete;
    }

    /** `gameOver` (js/game.js:760-774): a second call changes nothing. */
    method GameOver()
      modifies this`gameStatus
      ensures gameStatus == Status.GameOver
    {
      if gameStatus == Status.GameOver {
        return;
      }
      gameStatus := Status.GameOver;
    }

    /** One assignment `grid[r][c] = v`. */
    method SetTile(r: int, c: int, v: Tile)
      requires IsGrid(grid) && InBounds(r, c)
      modifies this`grid
      ensures IsGrid(grid) && grid[r][c] == v
      ensures Column(grid, c) == Column(old(grid), c)[r := v]
      ensures forall x, y :: 0 <= x < GridSize && 0 <= y < GridSize && (x, y) != (r, c) ==> grid[x][y] == old(grid)[x][y]
    {
      ColumnSet(grid, r, c, v);
      grid := grid[r := grid[r][c := v]];
    }

    /** The copy of js/game.js:255-258: the unflagged tile at (row, col)
        moves k rows down, retagged, and its old cell is flagged. */
    method MoveDown(row: int, col: int, k: nat)
      requires IsGrid(grid) && InBounds(row, col) && k > 0 && row + k < GridSize
      modifies this`grid
      ensures IsGrid(grid)
      ensures Column(grid, col) ==
        Column(old(grid), col)[row + k := old(grid)[row][col].(row := row + k)][row := old(grid)[row][col].(matched := true)]
      ensures forall r, c :: 0 <= r < GridSize && 0 <= c < GridSize && c != col ==> grid[r][c] == old(grid)[r][c]
    {
      var newRow := row + k;
      SetTile(newRow, col, grid[row][col].(row := newRow));
      SetTile(row, col, grid[row][col].(matched := true));
    }

    /** The walk of js/game.js:250-261 up column `col`: a flagged tile is
        counted, an unflagged one is copied down by the count so far and
        its old cell flagged. Returns the number of flagged cells. */
    method WalkColumn(col: int) returns (matchedCount: nat)
      requires IsGrid(grid) && 0 <= col < GridSize
      requires forall r :: 0 <= r < GridSize ==> grid[r][col].row == r
      modifies this`grid
      ensures IsGrid(grid)
      ensures Walked(Column(grid, col), Column(old(grid), col), 0, matchedCount)
      ensures forall r, c :: 0 <= r < GridSize && 0 <= c < GridSize && c != col ==> grid[r][c] == old(grid)[r][c]
    {
      ghost var g0 := grid;
      ghost var s := Column(grid, col);
      WalkStart(s);
      matchedCount := 0;
      var row := GridSize - 1;
      ghost var done := GridSize;
      while row >= 0
        invariant -1 <= row < GridSize && IsGrid(grid) && done == row + 1
        invariant Walked(Column(grid, col), s, done, matchedCount)
        invariant forall r, c :: 0 <= r < GridSize && 0 <= c < GridSize && c != col ==> grid[r][c] == g0[r][c]
        decreases row
      {
        ghost var t := Column(grid, col);
        assert grid[row][col] == t[row];
        if grid[row][col].matched {
          WalkFlagged(t, s, done, matchedCount);
          matchedCount := matchedCount + 1;
        } else if matchedCount > 0 {
          WalkDrop(t, s, done, matchedCount);
          MoveDown(row, col, matchedCount);
          assert Column(grid, col) ==
            t[done - 1 + matchedCount := t[done - 1].(row := done - 1 + matchedCount)][done - 1 := t[done - 1].(matched := true)];
        } else {
          WalkStay(t, s, done);
        }
        done := done - 1;
        row := row - 1;
      }
    }

    /** The refill of js/game.js:264-275: rows 0 .. count - 1 of column
        `col` get newGrid tiles, one random draw each, top row first. */
    method FillColumn(col: int, count: nat)
      requires IsGrid(grid) && 0 <= col < GridSize && count <= GridSize
      modifies this`grid, this`draws
      ensures IsGrid(grid) && draws == old(draws) + count
      ensures forall r :: 0 <= r < count ==> grid[r][col] == FreshTile(random(old(draws) + r), r, col)
      ensures forall r, c :: 0 <= r < GridSize && 0 <= c < GridSize && (c != col || r >= count) ==> grid[r][c] == old(grid)[r][c]
    {
      ghost var g0, d0 := grid, draws;
      var row := 0;
      while row < count
        invariant 0 <= row <= count && IsGrid(grid) && draws == d0 + row
        invariant forall r :: 0 <= r < row ==> grid[r][col] == FreshTile(random(d0 + r), r, col)
        invariant forall r, c :: 0 <= r < GridSize && 0 <= c < GridSize && (c != col || r >= row) ==> grid[r][c] == g0[r][c]
      {
        grid := grid[row := grid[row][col := FreshTile(random(draws), row, col)]];
        draws := draws + 1;
        row := row + 1;
      }
    }

    /** One pass of the column loop of `replaceMatchedTiles`
        (js/game.js:248-276): column `col` settles as Settle describes. */
    method DropColumn(col: int)
      requires IsGrid(grid) && 0 <= col < GridSize
      requires forall r :: 0 <= r < GridSize ==> grid[r][col].row == r
      modifies this`grid, this`draws
      ensures IsGrid(grid)
      ensures Column(grid, col) == Settle(Column(old(grid), col), col, random, old(draws))
      ensures forall c :: 0 <= c < GridSize && c != col ==> Column(grid, c) == Column(old(grid), c)
      ensures draws == old(draws) + CountMarked(Column(old(grid), col))
    {
      ghost var g0 := grid;
      ghost var s := Column(grid, col);
      var matchedCount := WalkColumn(col);
      ghost var t := Column(grid, col);
      WalkDone(t, s, matchedCount, col, random, draws);
      ghost var d0 := draws;
      FillColumn(col, matchedCount);
      assert forall r :: 0 <= r < GridSize ==> Column(grid, col)[r] == Settle(s, col, random, d0)[r];
      forall c | 0 <= c < GridSize && c != col
        ensures Column(grid, c) == Column(g0, c)
      {
        assert forall r :: 0 <= r < GridSize ==> Column(grid, c)[r] == Column(g0, c)[r];
      }
    }

    /** The loops that lower every `matched` flag (js/game.js:279-283). */
    method ClearFlags()
      requires IsGrid(grid)
      modifies this`grid
      ensures grid == Unmarked(old(grid))
    {
      ghost var g0: Board := grid;
      var row := 0;
      while row < GridSize
        invariant 0 <= row <= GridSize && IsGrid(grid)
        invariant forall r, c :: 0 <= r < GridSize && 0 <= c < GridSize ==>
          grid[r][c] == if r < row then g0[r][c].(matched := false) else g0[r][c]
      {
        var col := 0;
        while col < GridSize
          invariant 0 <= col <= GridSize && IsGrid(grid)
          invariant forall r, c :: 0 <= r < GridSize && 0 <= c < GridSize ==>
            grid[r][c] == if r < row || (r == row && c < col) then g0[r][c].(matched := false) else g0[r][c]
        {
          grid := grid[row := grid[row][col := grid[row][col].(matched := false)]];
          col := col + 1;
        }
        row := row + 1;
      }
      BoardExt(grid, Unmarked(g0));
    }

    /** The column loop of `replaceMatchedTiles` (js/game.js:248-276):
        every column settles, column 0 first. */
    method SettleColumns()
      requires Tagged(grid)
      modifies this`grid, this`draws
      ensures IsGrid(grid) && grid == Collapse(old(grid), random, old(draws))
      ensures draws == DrawStart(old(grid), old(draws), GridSize)
    {
      ghost var m, d0 := grid, draws;
      var col := 0;
      while col < GridSize
        invariant 0 <= col <= GridSize && IsGrid(grid)
        invariant draws == DrawStart(m, d0, col)
        invariant forall c {:trigger Column(grid, c)} :: col <= c < GridSize ==> Column(grid, c) == Column(m, c)
        invariant forall c {:trigger Column(grid, c)} :: 0 <= c < col ==> Column(grid, c) == Settle(Column(m, c), c, random, DrawStart(m, d0, c))
      {
        assert Column(grid, col) == Column(m, col);
        assert forall r :: 0 <= r < GridSize ==> grid[r][col] == Column(m, col)[r];
        assert DrawStart(m, d0, col + 1) == draws + CountMarked(Column(grid, col));
        ghost var before := grid;
        DropColumn(col);
        SettledPrefix(m, before, grid, col, random, d0);
        col := col + 1;
      }
      CollapseByColumns(m, grid, random, d0);
    }

    /** `replaceMatchedTiles(matches)` (js/game.js:230-284): mark, score,
        settle every column, lower the flags. */
    method ReplaceMatchedTiles(matches: seq<seq<Tile>>)
      requires Tagged(grid) && score >= 0 && level >= 1
      requires forall i :: 0 <= i < |matches| ==> |matches[i]| >= 1
      requires forall i, j :: 0 <= i < |matches| && 0 <= j < |matches[i]| ==>
        InBounds(matches[i][j].row, matches[i][j].col)
      modifies this`grid, this`draws, this`score, this`goalProgress, this`gameStatus
      ensures PlayState() == Resolved(old(PlayState()), matches, level, random)
    {
      ghost var p0 := PlayState();
      MarkGroups(matches);
      WithMarksKeepsTags(p0.grid, CellsOf(matches));
      CalculateScore(matches);
      ghost var m := grid;
      SettleColumns();
      CollapseTaggedClean(m, random, p0.draws);
      UnmarkedClean(grid);
      ClearFlags();
    }

    // -------------------------------------------------------------------
    // Cascades and new grids

    /** One pass of a cascade: find the matches and, when there are any,
        replace them, using up one of the `fuel` passes. */
    method ResolvePass(fuel: nat) returns (found: bool, rest: nat)
      requires Settled(PlayState()) && level >= 1 && fuel > 0
      modifies this`grid, this`draws, this`score, this`goalProgress, this`gameStatus
      ensures Settled(PlayState())
      ensures rest == if found then fuel - 1 else fuel
      ensures Cascade(PlayState(), level, random, rest).play == Cascade(old(PlayState()), level, random, fuel).play
      ensures !found ==> PlayState() == old(PlayState()) == Cascade(old(PlayState()), level, random, fuel).play
      ensures found <==> Matches(old(grid)) != []
      ensures forall i :: 0 <= i < |Matches(old(grid))| ==> |Matches(old(grid))[i]| >= 1
      ensures found ==> PlayState() == Resolved(old(PlayState()), Matches(old(grid)), level, random)
    {
      MatchTiles(grid);
      MatchesEmptyIff(grid);
      var matches := FindAllMatches();
      found := |matches| > 0;
      if found {
        MatchTiles(grid);
        CascadeStep(PlayState(), level, random, fuel, matches);
        ReplaceMatchedTiles(matches);
        rest := fuel - 1;
      } else {
        MatchesEmptyIff(grid);
        CascadeIdle(PlayState(), level, random, fuel);
        rest := fuel;
      }
    }

    /** `checkForCascadingMatches` (js/game.js:493-511), run at once rather
        than after a 500 ms timer, at most `fuel` passes deep. */
    method CheckForCascadingMatches(fuel: nat)
      requires Settled(PlayState()) && level >= 1
      modifies this`grid, this`draws, this`score, this`goalProgress, this`gameStatus
      ensures PlayState() == Cascade(old(PlayState()), level, random, fuel).play
      decreases fuel
    {
      if fuel > 0 {
        var found, rest := ResolvePass(fuel);
        if found && rest > 0 {
          CheckForCascadingMatches(rest);
        }
      }
    }

    /** `resolveInitialMatches` (js/game.js:138-162): resolve until no
        match is found, here at most `passBudget` times. */
    method ResolveInitialMatches()
      requires Settled(PlayState()) && level >= 1
      modifies this`grid, this`draws, this`score, this`goalProgress, this`gameStatus
      ensures PlayState() == Cascade(old(PlayState()), level, random, passBudget).play
    {
      ghost var target := Cascade(PlayState(), level, random, passBudget).play;
      var matchesFound := true;
      var passesLeft := passBudget;
      while matchesFound && passesLeft > 0
        invariant Settled(PlayState())
        invariant Cascade(PlayState(), level, random, passesLeft).play == target
        invariant !matchesFound ==> PlayState() == target
        decreases passesLeft, matchesFound
      {
        matchesFound, passesLeft := ResolvePass(passesLeft);
      }
    }

    /** `createNewGrid` (js/game.js:91-133): 64 newGrid tiles, row by row,
        then `resolveInitialMatches`. */
    method CreateNewGrid()
      requires score >= 0 && 0 <= goalProgress <= 100 && level >= 1
      modifies this`grid, this`draws, this`score, this`goalProgress, this`gameStatus
      ensures PlayState() == Populated(old(PlayState()), level, random, passBudget)
    {
      ghost var d0 := draws;
      ghost var newGrid := NewGrid(random, d0);
      grid := [];
      var row := 0;
      while row < GridSize
        invariant 0 <= row <= GridSize
        invariant grid == newGrid[..row]
        invariant draws == d0 + GridSize * row
        modifies this`grid, this`draws
      {
        var newRow := [];
        var col := 0;
        while col < GridSize
          invariant 0 <= col <= GridSize
          invariant newRow == newGrid[row][..col]
          invariant draws == d0 + GridSize * row + col
          modifies this`draws
        {
          newRow := newRow + [FreshTile(random(draws), row, col)];
          assert newGrid[row][..col + 1] == newGrid[row][..col] + [newGrid[row][col]];
          draws := draws + 1;
          col := col + 1;
        }
        assert newRow == newGrid[row];
        assert newGrid[..row + 1] == newGrid[..row] + [newGrid[row]];
        grid := grid + [newRow];
        row := row + 1;
      }
      assert grid == newGrid;
      PopulatedFrom(old(PlayState()), PlayState(), level, random, passBudget);
      ResolveInitialMatches();
    }

    /** The constructor (js/game.js:7-37) followed by `init`
        (js/game.js:67-86), which creates the first grid. */
    constructor (random: nat -> Roll, passBudget: nat)
      ensures Valid()
      ensures level == 1 && movesMade == 0 && movesLeft == MoveLimit
      ensures selectedTile == None && boosterActive == None && boosters == InitialBoosters()
      ensures PlayState() == Populated(Play([], 0, Standing(0, 0, Ready), 0, MoveLimit), 1, random, passBudget)
    {
      this.random := random;
      this.passBudget := passBudget;
      draws := 0;
      level := 1;
      score := 0;
      movesMade := 0;
      movesLeft := MoveLimit;
      goalProgress := 0;
      grid := [];
      selectedTile := None;
      gameStatus := Ready;
      boosters := InitialBoosters();
      boosterActive := None;
      new;
      forall k: Booster ensures k in boosters && boosters[k] >= 0 {
        match k
        case Lightning =>
        case Hammer =>
        case Target =>
        case Star =>
        case Bomb =>
      }
      ghost var p0 := PlayState();
      assert p0 == Play([], 0, Standing(0, 0, Ready), 0, MoveLimit);
      CreateNewGrid();
    }

    /** `startGame` (js/game.js:852-856). */
    method StartGame()
      requires Valid()
      modifies this`gameStatus
      ensures Valid() && gameStatus == Playing
    {
      gameStatus := Playing;
    }

    // -------------------------------------------------------------------
    // Swaps

    /** The three assignments that exchange two tiles (js/game.js:446-448). */
    method SwapCells(a: Pos, b: Pos)
      requires IsGrid(grid) && InBounds(a.row, a.col) && InBounds(b.row, b.col)
      modifies this`grid
      ensures grid == Swapped(old(grid), a, b)
    {
      var temp := grid[a.row][a.col];
      grid := grid[a.row := grid[a.row][a.col := grid[b.row][b.col].(row := a.row, col := a.col)]];
      grid := grid[b.row := grid[b.row][b.col := temp.(row := b.row, col := b.col)]];
    }

    /** `swapTiles` (js/game.js:444-488), with the cascade it schedules
        run after the game-over check. */
    method SwapTiles(a: Pos, b: Pos)
      requires Settled(PlayState()) && level >= 1
      requires InBounds(a.row, a.col) && InBounds(b.row, b.col)
      modifies this`grid, this`draws, this`score, this`goalProgress, this`gameStatus
      modifies this`movesMade, this`movesLeft, this`selectedTile
      ensures selectedTile == None
      ensures PlayState() == AfterSwap(old(PlayState()), a, b, level, random, passBudget)
    {
      ghost var p0 := PlayState();
      SwappedCells(grid, a, b);
      SwapCells(a, b);
      selectedTile := None;
      var matches := FindAllMatches();
      ghost var moved := p0;
      if |matches| > 0 {
        MatchTiles(grid);
        movesMade := movesMade + 1;
        movesLeft := movesLeft - 1;
        moved := PlayState();
        assert moved == p0.(grid := Swapped(p0.grid, a, b), movesMade := p0.movesMade + 1, movesLeft := p0.movesLeft - 1);
        ReplaceMatchedTiles(matches);
      } else {
        SwapTwice(p0.grid, a, b);
        SwapCells(a, b);
        assert PlayState() == p0;
      }
      CheckOutOfMoves();
      if |matches| > 0 {
        LegalSwapFrom(p0, a, b, level, random, moved, matches);
        CheckForCascadingMatches(passBudget);
      } else {
        IllegalSwap(p0, a, b, level, random, passBudget);
      }
    }

    /** The game-over check that ends `swapTiles` (js/game.js:484-487): out
        of moves short of the goal ends the game. */
    method CheckOutOfMoves()
      modifies this`gameStatus
      ensures PlayState() == CheckGameOver(old(PlayState()))
    {
      if movesLeft <= 0 && goalProgress < GoalPercentage {
        GameOver();
      }
    }

    /** `selectTile` (js/game.js:399-439): the first click selects; a
        second click on a neighbour swaps, on any other cell reselects. */
    method SelectTile(row: int, col: int)
      requires Valid() && InBounds(row, col)
      modifies this`grid, this`draws, this`score, this`goalProgress, this`gameStatus
      modifies this`movesMade, this`movesLeft, this`selectedTile
      ensures Valid()
      ensures old(selectedTile).None? ==> selectedTile == Some(Pos(row, col)) && PlayState() == old(PlayState())
      ensures old(selectedTile).Some? && Adjacent(old(selectedTile).value, Pos(row, col)) ==>
        selectedTile == None &&
        PlayState() == AfterSwap(old(PlayState()), old(selectedTile).value, Pos(row, col), level, random, passBudget)
      ensures old(selectedTile).Some? && !Adjacent(old(selectedTile).value, Pos(row, col)) ==>
        selectedTile == Some(Pos(row, col)) && PlayState() == old(PlayState())
    {
      if selectedTile.None? {
        selectedTile := Some(Pos(row, col));
      } else {
        var selected := selectedTile.value;
        var isAdjacent :=
          ((row - selected.row == 1 || selected.row - row == 1) && col == selected.col) ||
          ((col - selected.col == 1 || selected.col - col == 1) && row == selected.row);
        if isAdjacent {
          SwapTiles(selected, Pos(row, col));
        } else {
          selectedTile := Some(Pos(row, col));
        }
      }
    }

    // -------------------------------------------------------------------
    // Boosters

    /** `replaceMatchedTiles(matches)` and then the cascade it schedules,
        the tail of every clearing booster (js/game.js:587-597, 612-621,
        709-719). */
    method ReplaceAndCascade(matches: seq<seq<Tile>>)
      requires Tagged(grid) && score >= 0 && level >= 1
      requires forall i :: 0 <= i < |matches| ==> |matches[i]| >= 1
      requires forall i, j :: 0 <= i < |matches| && 0 <= j < |matches[i]| ==>
        InBounds(matches[i][j].row, matches[i][j].col)
      modifies this`grid, this`draws, this`score, this`goalProgress, this`gameStatus
      ensures PlayState() == Cascade(Resolved(old(PlayState()), matches, level, random), level, random, passBudget).play
    {
      ReplaceMatchedTiles(matches);
      CheckForCascadingMatches(passBudget);
    }

    /** The marking loop of `useLightningBooster` (js/game.js:579-581). */
    method MarkRow(row: int)
      requires IsGrid(grid) && 0 <= row < GridSize
      modifies this`grid
      ensures grid == WithMarks(old(grid), RowCells(row))
    {
      ghost var g0 := grid;
      WithMarksNone(g0);
      assert SpanCells(row, 0, 0) == {};
      var col := 0;
      while col < GridSize
        invariant 0 <= col <= GridSize
        invariant grid == WithMarks(g0, SpanCells(row, 0, col))
      {
        MarkCell(g0, SpanCells(row, 0, col), row, col);
        grid := grid[row := grid[row][col := grid[row][col].(matched := true)]];
        assert SpanCells(row, 0, col) + {Pos(row, col)} == SpanCells(row, 0, col + 1);
        col := col + 1;
      }
      assert SpanCells(row, 0, GridSize) == RowCells(row);
    }

    /** `useLightningBooster` (js/game.js:577-598): flag the whole row, score
        it as one group of eight, cascade. */
    method UseLightningBooster(row: int)
      requires Settled(PlayState()) && level >= 1 && 0 <= row < GridSize && Lightning in boosters
      modifies this`grid, this`draws, this`score, this`goalProgress, this`gameStatus, this`boosters
      ensures boosters == old(boosters)[Lightning := old(boosters)[Lightning] - 1]
      ensures PlayState() == AfterLightning(old(PlayState()), row, level, random, passBudget)
      ensures Settled(PlayState())
    {
      ghost var p0 := PlayState();
      MarkRow(row);
      WithMarksKeepsTags(p0.grid, RowCells(row));
      boosters := boosters[Lightning := boosters[Lightning] - 1];
      var matches := [grid[row]];
      assert PlayState() == p0.(grid := WithMarks(p0.grid, RowCells(row)));
      assert boosters == old(boosters)[Lightning := old(boosters)[Lightning] - 1];
      ReplaceAndCascade(matches);
    }

    /** `useHammerBooster` (js/game.js:603-622): flag one cell, score it as
        a group of one tile, cascade. */
    method UseHammerBooster(row: int, col: int)
      requires Settled(PlayState()) && level >= 1 && InBounds(row, col) && Hammer in boosters
      modifies this`grid, this`draws, this`score, this`goalProgress, this`gameStatus, this`boosters
      ensures boosters == old(boosters)[Hammer := old(boosters)[Hammer] - 1]
      ensures PlayState() == AfterHammer(old(PlayState()), row, col, level, random, passBudget)
      ensures Settled(PlayState())
    {
      ghost var p0 := PlayState();
      WithMarksNone(p0.grid);
      MarkCell(p0.grid, {}, row, col);
      assert {} + {Pos(row, col)} == {Pos(row, col)};
      grid := grid[row := grid[row][col := grid[row][col].(matched := true)]];
      WithMarksKeepsTags(p0.grid, {Pos(row, col)});
      boosters := boosters[Hammer := boosters[Hammer] - 1];
      var matches := [[grid[row][col]]];
      assert PlayState() == p0.(grid := WithMarks(p0.grid, {Pos(row, col)}));
      assert boosters == old(boosters)[Hammer := old(boosters)[Hammer] - 1];
      ReplaceAndCascade(matches);
    }

    /** The inner marking loop of `useBombBooster` (js/game.js:699-702):
        flag columns lo .. hi - 1 of row r and collect their tiles. */
    method MarkSpan(r: int, lo: int, hi: int) returns (tiles: seq<Tile>)
      requires Tagged(grid) && 0 <= r < GridSize && 0 <= lo <= hi <= GridSize
      modifies this`grid
      ensures grid == WithMarks(old(grid), SpanCells(r, lo, hi))
      ensures tiles == grid[r][lo..hi]
      ensures forall j :: 0 <= j < |tiles| ==> tiles[j].row == r && tiles[j].col == lo + j
    {
      ghost var g0 := grid;
      WithMarksNone(g0);
      assert SpanCells(r, lo, lo) == {};
      tiles := [];
      var c := lo;
      while c < hi
        invariant lo <= c <= hi
        invariant grid == WithMarks(g0, SpanCells(r, lo, c))
        invariant tiles == grid[r][lo..c]
      {
        MarkCell(g0, SpanCells(r, lo, c), r, c);
        grid := grid[r := grid[r][c := grid[r][c].(matched := true)]];
        assert SpanCells(r, lo, c) + {Pos(r, c)} == SpanCells(r, lo, c + 1);
        tiles := tiles + [grid[r][c]];
        assert grid[r][lo..c + 1] == grid[r][lo..c] + [grid[r][c]];
        c := c + 1;
      }
      WithMarksKeepsTags(g0, SpanCells(r, lo, hi));
    }

    /** The marking loops of `useBombBooster` (js/game.js:696-703): flag the
        cells within one step of the target, clipped to the grid, and
        collect their tiles row by row. */
    method MarkBlock(row: int, col: int) returns (matchedTiles: seq<Tile>)
      requires Tagged(grid) && InBounds(row, col)
      modifies this`grid
      ensures grid == WithMarks(old(grid), BoxCells(row, col))
      ensures matchedTiles == BombGroup(grid, row, col)
      ensures forall j :: 0 <= j < |matchedTiles| ==> InBounds(matchedTiles[j].row, matchedTiles[j].col)
    {
      ghost var g0 := grid;
      var r0, r1 := Max(0, row - 1), Min(GridSize - 1, row + 1);
      var c0, c1 := Max(0, col - 1), Min(GridSize - 1, col + 1);
      ghost var m := WithMarks(g0, BoxCells(row, col));
      WithMarksNone(g0);
      matchedTiles := [];
      var r := r0;
      while r <= r1
        invariant r0 <= r <= r1 + 1
        invariant grid == WithMarks(g0, RectCells(r0, r, c0, c1 + 1))
        invariant matchedTiles == BoxGroup(m, r0, r, c0, c1 + 1)
        invariant forall j :: 0 <= j < |matchedTiles| ==> InBounds(matchedTiles[j].row, matchedTiles[j].col)
      {
        WithMarksKeepsTags(g0, RectCells(r0, r, c0, c1 + 1));
        var tiles := MarkSpan(r, c0, c1 + 1);
        WithMarksTwice(g0, RectCells(r0, r, c0, c1 + 1), SpanCells(r, c0, c1 + 1));
        RectRowSlice(g0, r0, r, r1 + 1, c0, c1 + 1);
        matchedTiles := matchedTiles + tiles;
        r := r + 1;
      }
    }

    /** `useBombBooster` (js/game.js:694-720): flag the block around the
        target, score its tiles as one group, cascade. */
    method UseBombBooster(row: int, col: int)
      requires Settled(PlayState()) && level >= 1 && InBounds(row, col) && Bomb in boosters
      modifies this`grid, this`draws, this`score, this`goalProgress, this`gameStatus, this`boosters
      ensures boosters == old(boosters)[Bomb := old(boosters)[Bomb] - 1]
      ensures PlayState() == AfterBomb(old(PlayState()), row, col, level, random, passBudget)
      ensures Settled(PlayState())
    {
      ghost var p0 := PlayState();
      var matchedTiles := MarkBlock(row, col);
      WithMarksKeepsTags(p0.grid, BoxCells(row, col));
      boosters := boosters[Bomb := boosters[Bomb] - 1];
      var matches := [matchedTiles];
      assert PlayState() == p0.(grid := WithMarks(p0.grid, BoxCells(row, col)));
      assert boosters == old(boosters)[Bomb := old(boosters)[Bomb] - 1];
      ReplaceAndCascade(matches);
    }

    /** `useStarBooster` (js/game.js:675-689): floor(1000u) + 500 bonus
        points, then the progress update; no cascade. */
    method UseStarBooster()
      requires Settled(PlayState()) && level >= 1 && Star in boosters
      modifies this`draws, this`score, this`goalProgress, this`gameStatus, this`boosters
      ensures boosters == old(boosters)[Star := old(boosters)[Star] - 1]
      ensures PlayState() == AfterStar(old(PlayState()), level, random)
      ensures Settled(PlayState())
    {
      var bonusPoints := random(draws) + 500;
      draws := draws + 1;
      score := score + bonusPoints;
      boosters := boosters[Star := boosters[Star] - 1];
      UpdateGoalProgress();
    }

    /** `useTargetBooster` (js/game.js:627-670): with no tile selected the
        click only selects; otherwise the selected tile and the clicked one
        trade places, the count drops, the selection clears, and the grid
        cascades. */
    method UseTargetBooster(row: int, col: int)
      requires Settled(PlayState()) && level >= 1 && InBounds(row, col) && Target in boosters
      requires selectedTile.Some? ==> InBounds(selectedTile.value.row, selectedTile.value.col)
      modifies this`grid, this`draws, this`score, this`goalProgress, this`gameStatus, this`boosters, this`selectedTile
      ensures old(selectedTile).None? ==>
        selectedTile == Some(Pos(row, col)) && boosters == old(boosters) && PlayState() == old(PlayState())
      ensures old(selectedTile).Some? ==>
        selectedTile == None && boosters == old(boosters)[Target := old(boosters)[Target] - 1] &&
        PlayState() == AfterTarget(old(PlayState()), old(selectedTile).value, Pos(row, col), level, random, passBudget)
      ensures Settled(PlayState())
    {
      if selectedTile.None? {
        selectedTile := Some(Pos(row, col));
        return;
      }
      var selected := selectedTile.value;
      SwappedCells(grid, selected, Pos(row, col));
      SwapCells(selected, Pos(row, col));
      boosters := boosters[Target := boosters[Target] - 1];
      selectedTile := None;
      CheckForCascadingMatches(passBudget);
    }

    /** `handleBoosterClick` (js/game.js:516-542): while playing, a click
        on a booster the player still has arms it, or disarms it when it is
        the armed one. */
    method HandleBoosterClick(kind: Booster)
      requires Valid()
      modifies this`boosterActive
      ensures Valid()
      ensures old(gameStatus) != Playing || boosters[kind] <= 0 ==> boosterActive == old(boosterActive)
      ensures gameStatus == Playing && boosters[kind] > 0 ==>
        boosterActive == if old(boosterActive) == Some(kind) then None else Some(kind)
    {
      if gameStatus != Playing {
        return;
      }
      if boosters[kind] <= 0 {
        return;
      }
      if boosterActive == Some(kind) {
        boosterActive := None;
      } else {
        boosterActive := Some(kind);
      }
    }

    /** The booster dispatch of `handleBoosterAction` (js/game.js:552-568):
        the armed booster acts on the clicked cell. */
    method ApplyBooster(kind: Booster, row: int, col: int)
      requires Core() && InBounds(row, col)
      modifies this`grid, this`draws, this`score, this`goalProgress, this`gameStatus
      modifies this`boosters, this`selectedTile
      ensures Settled(PlayState())
      ensures kind != Target ==> boosters == old(boosters)[kind := old(boosters)[kind] - 1] && selectedTile == old(selectedTile)
      ensures kind == Target && old(selectedTile).None? ==>
        selectedTile == Some(Pos(row, col)) && boosters == old(boosters) && PlayState() == old(PlayState())
      ensures kind == Target && old(selectedTile).Some? ==>
        selectedTile == None && boosters == old(boosters)[Target := old(boosters)[Target] - 1] &&
        PlayState() == AfterTarget(old(PlayState()), old(selectedTile).value, Pos(row, col), level, random, passBudget)
      ensures kind == Lightning ==> PlayState() == AfterLightning(old(PlayState()), row, level, random, passBudget)
      ensures kind == Hammer ==> PlayState() == AfterHammer(old(PlayState()), row, col, level, random, passBudget)
      ensures kind == Bomb ==> PlayState() == AfterBomb(old(PlayState()), row, col, level, random, passBudget)
      ensures kind == Star ==> PlayState() == AfterStar(old(PlayState()), level, random)
    {
      match kind {
        case Lightning => UseLightningBooster(row);
        case Hammer => UseHammerBooster(row, col);
        case Target => UseTargetBooster(row, col);
        case Star => UseStarBooster();
        case Bomb => UseBombBooster(row, col);
      }
    }

    /** `handleBoosterAction` (js/game.js:547-572): use the armed booster on
        the clicked cell, then disarm it, whatever the booster did. */
    method HandleBoosterAction(kind: Booster, row: int, col: int)
      requires Valid() && boosterActive == Some(kind) && InBounds(row, col)
      modifies this`grid, this`draws, this`score, this`goalProgress, this`gameStatus
      modifies this`boosters, this`selectedTile, this`boosterActive
      ensures Valid() && boosterActive == None
      ensures kind != Target ==> boosters == old(boosters)[kind := old(boosters)[kind] - 1]
      ensures kind == Target && old(selectedTile).None? ==>
        selectedTile == Some(Pos(row, col)) && boosters == old(boosters) && PlayState() == old(PlayState())
      ensures kind == Target && old(selectedTile).Some? ==>
        selectedTile == None && boosters == old(boosters)[Target := old(boosters)[Target] - 1]
      ensures kind != Target ==> selectedTile == old(selectedTile)
      ensures kind == Lightning ==> PlayState() == AfterLightning(old(PlayState()), row, level, random, passBudget)
      ensures kind == Hammer ==> PlayState() == AfterHammer(old(PlayState()), row, col, level, random, passBudget)
      ensures kind == Bomb ==> PlayState() == AfterBomb(old(PlayState()), row, col, level, random, passBudget)
      ensures kind == Star ==> PlayState() == AfterStar(old(PlayState()), level, random)
      ensures kind == Target && old(selectedTile).Some? ==>
        PlayState() == AfterTarget(old(PlayState()), old(selectedTile).value, Pos(row, col), level, random, passBudget)
    {
      ApplyBooster(kind, row, col);
      boosterActive := None;
    }

    /** `handleTileClick` (js/game.js:374-394): ignored unless playing or
        off the tiles; otherwise the armed booster acts on the cell, or the
        cell is selected. No booster count ever goes negative. */
    method HandleTileClick(row: int, col: int)
      requires Valid()
      modifies this`grid, this`draws, this`score, this`goalProgress, this`gameStatus
      modifies this`movesMade, this`movesLeft, this`boosters, this`selectedTile, this`boosterActive
      ensures Valid()
      ensures old(gameStatus) != Playing || !InBounds(row, col) ==>
        PlayState() == old(PlayState()) && ControlState() == old(ControlState())
      ensures old(gameStatus) == Playing && InBounds(row, col) && old(boosterActive).Some? ==>
        boosterActive == None && movesMade == old(movesMade) && movesLeft == old(movesLeft)
      ensures old(boosterActive).None? ==> boosters == old(boosters) && boosterActive == None
      // With no booster armed the click goes to `selectTile`.
      ensures old(gameStatus) == Playing && InBounds(row, col) && old(boosterActive).None? ==>
        (old(selectedTile).None? ==> selectedTile == Some(Pos(row, col)) && PlayState() == old(PlayState())) &&
        (old(selectedTile).Some? && Adjacent(old(selectedTile).value, Pos(row, col)) ==>
          selectedTile == None &&
          PlayState() == AfterSwap(old(PlayState()), old(selectedTile).value, Pos(row, col), level, random, passBudget)) &&
        (old(selectedTile).Some? && !Adjacent(old(selectedTile).value, Pos(row, col)) ==>
          selectedTile == Some(Pos(row, col)) && PlayState() == old(PlayState()))
      // With a booster armed the click goes to `handleBoosterAction`.
      ensures old(gameStatus) == Playing && InBounds(row, col) && old(boosterActive).Some? ==>
        var kind := old(boosterActive).value;
        (kind != Target ==> boosters == old(boosters)[kind := old(boosters)[kind] - 1] && selectedTile == old(selectedTile)) &&
        (kind == Target && old(selectedTile).None? ==>
          selectedTile == Some(Pos(row, col)) && boosters == old(boosters) && PlayState() == old(PlayState())) &&
        (kind == Target && old(selectedTile).Some? ==>
          selectedTile == None && boosters == old(boosters)[Target := old(boosters)[Target] - 1] &&
          PlayState() == AfterTarget(old(PlayState()), old(selectedTile).value, Pos(row, col), level, random, passBudget)) &&
        (kind == Lightning ==> PlayState() == AfterLightning(old(PlayState()), row, level, random, passBudget)) &&
        (kind == Hammer ==> PlayState() == AfterHammer(old(PlayState()), row, col, level, random, passBudget)) &&
        (kind == Bomb ==> PlayState() == AfterBomb(old(PlayState()), row, col, level, random, passBudget)) &&
        (kind == Star ==> PlayState() == AfterStar(old(PlayState()), level, random))
    {
      if gameStatus != Playing {
        return;
      }
      if !InBounds(row, col) {
        return;
      }
      if boosterActive.Some? {
        HandleBoosterAction(boosterActive.value, row, col);
        return;
      }
      SelectTile(row, col);
    }

    // -------------------------------------------------------------------
    // Levels

    /** `nextLevel` (js/game.js:779-801): one level up, moves reset, a new
        grid, playing. The score carries over; the progress is recomputed
        only if the new grid's initial matches are resolved. */
    method NextLevel()
      requires Valid()
      modifies this`level, this`movesMade, this`movesLeft, this`grid, this`draws
      modifies this`score, this`goalProgress, this`gameStatus
      ensures Valid()
      ensures level == old(level) + 1 && movesMade == 0 && movesLeft == MoveLimit && gameStatus == Playing
      ensures var q := Populated(old(PlayState()).(movesMade := 0, movesLeft := MoveLimit), level, random, passBudget);
        grid == q.grid && draws == q.draws && score == q.tally.score && goalProgress == q.tally.progress
    {
      level := level + 1;
      movesMade := 0;
      movesLeft := MoveLimit;
      CreateNewGrid();
      gameStatus := Playing;
    }

    /** `restartLevel` (js/game.js:806-829): moves reset, the score set back
        to 66% of the goals of the earlier levels, a new grid, playing. */
    method RestartLevel()
      requires Valid()
      modifies this`movesMade, this`movesLeft, this`grid, this`draws
      modifies this`score, this`goalProgress, this`gameStatus
      ensures Valid()
      ensures movesMade == 0 && movesLeft == MoveLimit && gameStatus == Playing
      ensures var q := Populated(Play(old(grid), old(draws), Standing(RestartScore(level), old(goalProgress), old(gameStatus)), 0, MoveLimit), level, random, passBudget);
        grid == q.grid && draws == q.draws && score == q.tally.score && goalProgress == q.tally.progress
    {
      movesMade := 0;
      movesLeft := MoveLimit;
      var previousLevelsScore := (level - 1) * 1000 * GoalPercentage / 100;
      score := Max(0, previousLevelsScore);
      CreateNewGrid();
      gameStatus := Playing;
    }
  }
}
