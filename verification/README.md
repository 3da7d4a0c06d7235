# Color Match Frenzy: a verified model of the match-3 engine

This project models the game core of `ColorMatchFrenzy` (`js/game.js`), a
match-3 puzzle on a fixed 8 x 8 grid. The model covers:

- the greedy scan that finds runs of three or more tiles of one colour;
- clearing, gravity and refill of the marked cells;
- the resolution loop of a new grid and the cascade after every move;
- scoring and goal progress;
- the session state machine: tile clicks, selection, swaps, the move
  counters, the five boosters, level completion, game over, next level and
  restart.

The modules follow the structure of the game:

| module | file | contents |
|---|---|---|
| `Tiles` | `tiles.dfy` | configuration constants, `Tile`, `Pos`, the board as `seq<seq<Tile>>` |
| `Matching` | `matching.dfy` | `findAllMatches` as functions over the board, its loops as methods, and the properties of the groups it returns |
| `Gravity` | `gravity.dfy` | marking, the settling of one column, the collapse of the whole board, random-draw accounting |
| `Scoring` | `scoring.dfy` | group points, score gain, goal progress, the level-complete threshold |
| `Rules` | `rules.dfy` | the effect of each action on the play state, as values: one resolution, the cascade, a swap, each booster |
| `Session` | `game.dfy` | class `Game`, with the `state` fields of the game object and one method per game method, each proved against `Rules` |

`Game` keeps the grid as a field that its methods rewrite cell by cell, as
the game does. The two read-only loops, the match scan and the points loop,
are methods proved equal to pure specification functions.

`Math.random` is the constant function `random: nat -> Roll`:

- Draw number `n` is `random(n)`, and the `draws` field counts the draws
  taken.
- A roll is `floor(1000 * u)`.
- A tile colour is `floor(5 * u)`, which is `roll / 200`.
- The star bonus is `roll + 500`.

The resolution loops do not terminate by construction, because termination
depends on the refills. They run at most `passBudget` passes, a constant of
the game object. `Rules.Cascade` reports how many passes it made. Stopping
before the budget means the grid is free of matches.

Behaviours of the code that the model follows:

- Building a grid scores the matches it resolves, and that score can
  complete the level (`Rules.Populated`).
- The target booster is disarmed after its first click. A forced swap
  happens only if a tile was already selected (`Session.Game.UseTargetBooster`,
  `Session.Game.HandleBoosterAction`).
- The restart score is 660·(level−1), computed in integers
  (`Scoring.RestartScore`). The double product `(level - 1) * 1000 * 0.66`
  at js/game.js:812 rounds to that same integer at every level.
- Booster clears score through the group formula with sizes 1, 8 and 4, 6
  or 9.
- Overlapping horizontal and vertical groups both score, but each cell drops
  once (`Scoring.ScoreGainAppend`, `Gravity.WithMarksTwice`, `Gravity.MarkedCount`).
- `levelComplete` has no status guard, so a later gain can turn `GameOver`
  into `LevelComplete` (`Scoring.Scored`).
- `nextLevel` and `restartLevel` keep a stale `goalProgress` unless the new
  grid resolves a match (`Rules.CascadeNoPass`).
- The game-over check of `swapTiles` runs before the cascade, and also after
  an illegal swap.

## Model

| member | source | states |
|---|---|---|
| Tiles.RollColor | js/game.js:104 | the colour index c of a roll r satisfies 200c <= r < 200(c + 1), which is floor(5u) for the draw u |
| Matching.RunEnd | js/game.js:182-187 | the extension loop stops at the first position whose colour differs from the run's, or at the line end; every position it passes has the run's colour |
| Matching.ScanLine | js/game.js:172-193 | every span the scan emits lies in the line, starts at or after the scan start, holds at least three tiles and starts with three tiles of one colour |
| Matching.ScanLineRuns | js/game.js:177-192 | every emitted span is a maximal run: one colour, at least three long, not extendable to either side |
| Matching.ScanLineOrdered | js/game.js:191-192 | the spans of one line come in order and never overlap |
| Matching.ScanLineCovers | js/game.js:171-195 | every three equal consecutive tiles on the line lie inside one emitted span |
| Matching.LineMatchesEmpty | js/game.js:171-195 | a line yields no group exactly when it has no three equal consecutive tiles |
| Matching.HorizontalEmptyIff | js/game.js:171-195 | the row scan yields nothing exactly when no row has three equal consecutive tiles |
| Matching.ColumnEmptyIff | js/game.js:198-222 | one column yields no group exactly when it has no three equal consecutive tiles |
| Matching.VerticalEmptyIff | js/game.js:198-222 | the column scan yields nothing exactly when no column has three equal consecutive tiles |
| Matching.MatchesEmptyIff | js/game.js:167-225 | `findAllMatches` returns an empty list exactly when the grid has no three equal consecutive tiles in any row or column |
| Matching.MatchesShape | js/game.js:167-225 | every group is a maximal run of three or more tiles of one colour in one row or one column, horizontal groups come first, and groups on one line do not overlap |
| Matching.MatchTiles | js/game.js:167-225 | every group has at least three tiles, and every tile names a cell of the grid |
| Matching.ExtendRun | js/game.js:179-187 | the inner while loop returns the run's end and exactly the tiles from the triple up to it |
| Matching.FindLineMatches | js/game.js:172-194 | the index-skipping loop over one line returns exactly the groups of the line scan |
| Gravity.WithMarks | js/game.js:232-235 | a cell is flagged exactly when a group names it; every other cell is unchanged |
| Gravity.WithMarksKeepsTags | js/game.js:234 | flagging keeps every tile's coordinates |
| Gravity.WithMarksTwice | js/game.js:232-242 | flagging twice is flagging the union once, so a cell named by two groups is one flagged cell |
| Gravity.WithMarksNone | js/game.js:232-242 | an empty list of groups flags nothing |
| Gravity.MarkCell | js/game.js:234 | one flag assignment adds exactly that cell to the flagged set |
| Gravity.UnmarkedClean | js/game.js:279-283 | lowering all flags of a board with none raised changes nothing |
| Gravity.Survivors | js/game.js:252-260 | the unmatched tiles of a column number its size minus its flagged count, and none is flagged |
| Gravity.SurvivorIn | js/game.js:255-258 | every survivor is a tile of the column |
| Gravity.DropDistance | js/game.js:255-258 | an unmatched tile at row x lands at row x plus the number of flagged cells below it, retagged with that row |
| Gravity.DropOrder | js/game.js:252-260 | unmatched tiles keep their relative order |
| Gravity.SettleUnmarked | js/game.js:248-276 | a column with no flagged cell comes back unchanged |
| Gravity.WalkStart | js/game.js:250-252 | before the bottom-up walk nothing has moved and the count is 0 |
| Gravity.WalkFlagged | js/game.js:253-254 | a flagged tile adds one to the count |
| Gravity.WalkDrop | js/game.js:255-259 | an unflagged tile with k flagged cells below is copied k rows down, retagged, and its old cell is flagged |
| Gravity.WalkStay | js/game.js:252-260 | an unflagged tile with nothing flagged below stays where it is |
| Gravity.WalkDone | js/game.js:252-261 | after the walk the count is the column's flagged count, and the rows below the gap hold the survivors in order |
| Gravity.CollapseByColumns | js/game.js:248-276 | a board whose every column is that column settled, draws counted column by column, is the collapse |
| Gravity.CollapseTaggedClean | js/game.js:258 | after the collapse every cell holds a tile tagged with that cell and no flag is raised |
| Gravity.CollapseKeepsColumn | js/game.js:248-276 | a column with no flagged cell is unchanged by the collapse |
| Gravity.MarkedCount | js/game.js:232-254 | the flagged count of a column is the number of distinct cells of that column the groups name |
| Scoring.GroupPoints | js/game.js:294-300 | a group of n >= 3 tiles is worth 100 * 2^(n - 3); smaller groups are worth 100 / 2^(3 - n): 25 for one tile, 50 for two |
| Scoring.SpecialDoubles | js/game.js:300-308 | a group holding a special tile scores exactly twice what a same-size group without one scores |
| Scoring.ScoreGainAppend | js/game.js:292-309 | the gain of a list of groups is the sum over its parts, so overlapping groups each count |
| Scoring.ScoreGainAtLeast | js/game.js:292-302 | every group of three or more tiles adds at least 100 points |
| Scoring.QuotientIsDiv | js/game.js:326 | the progress quotient is integer floor division |
| Scoring.GoalProgress | js/game.js:326 | the goal progress stays within 0 .. 100 |
| Scoring.GoalThreshold | js/game.js:323 | the threshold score is 66% of the level's goal of level * 1000 |
| Scoring.GoalReached | js/game.js:326-335 | the progress reaches 66 exactly when the score reaches 660 * level |
| Scoring.ProgressMonotone | js/game.js:326 | more points never mean less progress |
| Scoring.RestartScore | js/game.js:812-813 | the restart score is never negative |
| Scoring.RestartBelowGoal | js/game.js:812 | a restarted level does not begin with progress at the goal |
| Scoring.Scored | js/game.js:312-335 | after a gain the score is the sum and the progress is recomputed; the status becomes `LevelComplete` exactly when it was already or the new score reaches the threshold, and is otherwise unchanged |
| Scoring.ScoredTwice | js/game.js:312-335 | scoring two gains in turn is scoring their sum once |
| Rules.Resolved | js/game.js:230-284 | one `replaceMatchedTiles` leaves a tagged, clean grid, scores the groups, and leaves the moves alone |
| Rules.Cascade | js/game.js:493-511 | every cascade leaves a settled state, makes at most the allowed passes, leaves the moves alone, and adds at least 100 points per pass; see `Rules.Cascaded` for the rest |
| Rules.CheckPass | js/game.js:493-511 | one call of `checkForCascadingMatches` with a pass left satisfies the same guarantees as the cascade |
| Rules.CascadeNoPass | js/game.js:494-496 | a cascade that makes no pass leaves the state exactly as it was |
| Rules.CascadeIdle | js/game.js:148-155 | a grid without matches is left alone by the resolution loop |
| Rules.NewGridCells | js/game.js:99-127 | a new grid holds in every cell a plain, unflagged tile tagged with that cell, coloured by draw d + 8 * row + col |
| Rules.Populated | js/game.js:91-133 | building a grid leaves a settled state, never lowers the score and leaves the moves alone; when the resolution loop stops before its pass budget, the grid has no match left |
| Rules.SwappedCells | js/game.js:446-448 | a swap exchanges the two tiles, retags them with their new cells, and leaves every other cell unchanged |
| Rules.SwapTwice | js/game.js:476-478 | swapping the same cells back restores the grid exactly |
| Rules.CheckGameOver | js/game.js:485-487 | out of moves and short of 66% progress, the status becomes `GameOver`; nothing else changes |
| Rules.SwapResolved | js/game.js:456-466 | a legal swap spends one move and scores at least 100 points |
| Rules.IllegalSwap | js/game.js:474-487 | a swap that makes no match restores the grid, spends no move, scores nothing, and is followed only by the game-over check |
| Rules.LegalSwap | js/game.js:456-473 | a swap that makes a match spends exactly one move and scores at least 100 points, cascade included |
| Rules.BoxIsClippedBlock | js/game.js:698-699 | the bomb's cells are exactly the grid cells within one step of the target in both directions |
| Rules.AfterLightning | js/game.js:577-598 | the lightning booster spends no move |
| Rules.AfterHammer | js/game.js:603-622 | the hammer booster spends no move |
| Rules.AfterBomb | js/game.js:694-720 | the bomb booster spends no move |
| Rules.AfterStar | js/game.js:677-688 | the star bonus lies between 500 and 1499 points |
| Rules.AfterTarget | js/game.js:652-669 | the target booster's forced swap spends no move |
| Rules.ClearedExactly | js/game.js:230-245 | a booster's resolution clears exactly the cells it flagged and scores its one group by size |
| Rules.LightningClearsRow | js/game.js:579-589 | lightning clears exactly its row and scores 3200, or 6400 with a special tile |
| Rules.HammerClearsCell | js/game.js:605-613 | the hammer clears exactly its cell and scores 25, or 50 for a special tile |
| Rules.BombClearsBlock | js/game.js:696-711 | the bomb clears exactly the clipped block, scoring one group of 4, 6 or 9 tiles |
| Session.Game.FindAllMatches | js/game.js:167-225 | the loops return exactly the groups of the scan, rows first |
| Session.Game.FindRowMatches | js/game.js:171-195 | the row loops return exactly the horizontal groups |
| Session.Game.FindColumnMatches | js/game.js:198-222 | the column loops return exactly the vertical groups |
| Session.Game.MarkGroups | js/game.js:232-242 | the marking loops flag exactly the cells the groups name |
| Session.Game.CalculateScore | js/game.js:289-316 | the standing becomes that of scoring the groups' gain |
| Session.Game.UpdateGoalProgress | js/game.js:321-336 | the progress is recomputed and the level completes on reaching 66% |
| Session.Game.LevelComplete | js/game.js:741-755 | the status is `LevelComplete` afterwards, also when it already was |
| Session.Game.GameOver | js/game.js:760-774 | the status is `GameOver` afterwards, also when it already was |
| Session.Game.MoveDown | js/game.js:255-258 | the unflagged tile moves k rows down, retagged, its old cell is flagged, and no other column changes |
| Session.Game.WalkColumn | js/game.js:250-261 | the bottom-up walk leaves the column as `Gravity.Walked` describes and touches no other column |
| Session.Game.FillColumn | js/game.js:263-275 | the refill puts fresh tiles from consecutive draws in the top rows and changes nothing else |
| Session.Game.DropColumn | js/game.js:249-275 | one column settles, uses one draw per flagged cell, and leaves the other columns alone |
| Session.Game.ClearFlags | js/game.js:279-283 | every flag is lowered |
| Session.Game.SettleColumns | js/game.js:248-276 | the column loop produces the collapse of the board and advances the draws by the number of flagged cells |
| Session.Game.ReplaceMatchedTiles | js/game.js:230-284 | the new play state is `Rules.Resolved` of the old one |
| Session.Game.ResolvePass | js/game.js:494-501 | a pass finds something exactly when the grid has a match; then the new play state is `Rules.Resolved` of the old one with those matches and one pass is used, otherwise nothing changes; the cascade's final result is preserved |
| Session.Game.CheckForCascadingMatches | js/game.js:493-511 | the new play state is the cascade of the old one |
| Session.Game.ResolveInitialMatches | js/game.js:138-162 | the loop produces the cascade of the old play state |
| Session.Game.CreateNewGrid | js/game.js:91-133 | the new play state is `Rules.Populated` of the old one, initial scoring included |
| Session.Game.constructor | js/game.js:7-37 | the initial state: level 1, 15 moves, the initial booster counts, nothing selected or armed, and the first grid built by `init` (js/game.js:67-71) |
| Session.Game.StartGame | js/game.js:852-856 | the status becomes `Playing` |
| Session.Game.SwapCells | js/game.js:446-448 | the three assignments perform `Rules.Swapped` |
| Session.Game.SwapTiles | js/game.js:444-488 | the selection clears and the new play state is `Rules.AfterSwap` of the old one |
| Session.Game.CheckOutOfMoves | js/game.js:485-487 | the play state becomes `Rules.CheckGameOver` of the old one |
| Session.Game.SelectTile | js/game.js:399-439 | a first click selects; a click on a neighbour in the same row or column swaps and clears the selection; any other click, the same cell included, reselects and changes nothing else |
| Session.Game.ReplaceAndCascade | js/game.js:588-597 | a clearing booster's tail: one resolution, then the cascade |
| Session.Game.MarkRow | js/game.js:579-581 | the loop flags exactly the target row |
| Session.Game.UseLightningBooster | js/game.js:577-598 | the lightning count drops by one and the play state is `Rules.AfterLightning` |
| Session.Game.UseHammerBooster | js/game.js:603-622 | the hammer count drops by one and the play state is `Rules.AfterHammer` |
| Session.Game.MarkSpan | js/game.js:699-702 | the inner loop flags one row's span and collects its tiles in order |
| Session.Game.MarkBlock | js/game.js:696-703 | the loops flag exactly the clipped block and collect its tiles row by row |
| Session.Game.UseBombBooster | js/game.js:694-720 | the bomb count drops by one and the play state is `Rules.AfterBomb` |
| Session.Game.UseStarBooster | js/game.js:675-689 | the star count drops by one and the play state is `Rules.AfterStar` |
| Session.Game.UseTargetBooster | js/game.js:627-670 | with nothing selected it only selects; otherwise it swaps the two cells, lowers the target count by one, clears the selection and cascades |
| Session.Game.HandleBoosterClick | js/game.js:516-542 | only while playing and with a positive count: a booster click arms the booster, or disarms it if it was armed; at most one is armed |
| Session.Game.ApplyBooster | js/game.js:552-568 | each booster kind has the play-state effect of its `use…Booster` method: lightning, hammer and bomb their `Rules.After…` state, star `Rules.AfterStar`, target a selection or `Rules.AfterTarget` |
| Session.Game.HandleBoosterAction | js/game.js:547-572 | the armed booster is disarmed and has exactly the effect of its `use…Booster` method on the play state, the counts and the selection; no count goes negative |
| Session.Game.HandleTileClick | js/game.js:374-394 | the click does nothing unless playing and on the grid; with a booster armed it has exactly that booster's effect and disarms it; otherwise it has exactly `selectTile`'s effect (select, swap with a neighbour, or reselect) |
| Session.Game.NextLevel | js/game.js:779-801 | the level goes up by one, the moves reset and status is `Playing`; the score carries over into a new grid, and the progress is recomputed only if that grid resolves matches |
| Session.Game.RestartLevel | js/game.js:806-829 | the moves reset, the score restarts from 66% of the earlier goals, a new grid is built, and status is `Playing` |

## Left out

- Rendering: `this.elements`, `renderGrid`, `showBonusMessage`, `updateUI`, the `querySelector` class toggles and the screen switches in `levelComplete` and `gameOver`. These are presentation only.
- Timers: the 500 ms `setTimeout` delays before each cascade. A cascade runs at once when the method that schedules it returns (in `swapTiles`, after the game-over check), so clicks during a pending cascade (re-entrancy) are not modelled.
- Cascade length: the resolution loops run at most `passBudget` passes. A cascade that would run longer is cut off. `Rules.Cascaded` says the grid is match-free only when the cascade stopped before the budget.
- `Math.random`: replaced by the supplied function `random` over draw numbers. The model does not capture floating-point rounding of `u * 5` and `u * 1000`.
- Scoring.GoalProgress: uses exact integer division, `score * 100 / (level * 1000)`. The floating-point formula at js/game.js:326 can give one less at a boundary: 570 points at level 1 give 56 there and 57 here.
- Tile colours are palette indices rather than colour names; two tiles match exactly when their indices are equal.
- Off-grid clicks: a click that hits no tile (js/game.js:380-381) is modelled as a click on a cell outside the grid.
- `init` (js/game.js:67-86): only its `createNewGrid` call is modelled, inside the constructor. The event wiring is left out.
- `secondSelectedTile` (js/game.js:36) is never read or written by the game, so the model has no field for it.
- Booster names are the five constructors of `Booster`; booster element lookups by name are part of the page.
- Rules.AfterLightning: its own contract states only a settled result and unchanged moves. `Rules.LightningClearsRow` states what the first resolution clears and scores.
- Rules.AfterHammer: its own contract states only a settled result and unchanged moves. `Rules.HammerClearsCell` states what the first resolution clears and scores.
- Rules.AfterBomb: its own contract states only a settled result and unchanged moves. `Rules.BombClearsBlock` states what the first resolution clears and scores.
- `js/ui.js` (pause, extra moves after an advert or a share), `js/spill-integration.js`, `service-worker.js` and `js/main.js` are not part of this model.
