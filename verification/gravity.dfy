/** Clearing, gravity and refill (js/game.js:230-284), stated on values:
    which cells a list of groups marks, what a column looks like once its
    marked cells are removed and the gap is filled from the top, and how
    many random draws that takes. */
module Gravity {
  import opened Tiles

  // ---------------------------------------------------------------------
  // Marking

  /** The cells the tiles of one group name through their own coordinates. */
  function GroupCells(g: seq<Tile>): set<Pos> {
    if g == [] then {} else GroupCells(g[..|g| - 1]) + {Pos(g[|g| - 1].row, g[|g| - 1].col)}
  }

  /** The cells named by all the groups; a cell named twice is one cell. */
  function CellsOf(groups: seq<seq<Tile>>): set<Pos> {
    if groups == [] then {} else CellsOf(groups[..|groups| - 1]) + GroupCells(groups[|groups| - 1])
  }

  /** The tile at (r, c) once the cells of `cells` are flagged. */
  function MarkedAt(b: Board, cells: set<Pos>, r: int, c: int): Tile
    requires IsGrid(b) && InBounds(r, c)
  {
    if Pos(r, c) in cells then b[r][c].(matched := true) else b[r][c]
  }

  /** The first n rows of b with the cells of `cells` flagged. */
  function MarkedRows(b: Board, cells: set<Pos>, n: nat): (m: seq<seq<Tile>>)
    requires IsGrid(b) && n <= GridSize
    ensures |m| == n
    ensures forall r :: 0 <= r < n ==> |m[r]| == GridSize
    ensures forall r, c :: 0 <= r < n && 0 <= c < GridSize ==> m[r][c] == MarkedAt(b, cells, r, c)
  {
    if n == 0 then []
    else MarkedRows(b, cells, n - 1) + [seq(GridSize, c requires 0 <= c < GridSize => MarkedAt(b, cells, n - 1, c))]
  }

  /** b with the `matched` flag raised on every cell of `cells`. */
  function WithMarks(b: Board, cells: set<Pos>): (m: Board)
    requires IsGrid(b)
    ensures IsGrid(m)
    ensures forall r, c :: 0 <= r < GridSize && 0 <= c < GridSize ==> m[r][c] == MarkedAt(b, cells, r, c)
  {
    MarkedRows(b, cells, GridSize)
  }

  /** b with every `matched` flag lowered (js/game.js:279-283). */
  function Unmarked(b: Board): (m: Board)
    requires IsGrid(b)
    ensures IsGrid(m)
  {
    seq(GridSize, r requires 0 <= r < GridSize =>
      seq(GridSize, c requires 0 <= c < GridSize => b[r][c].(matched := false)))
  }

  /** Two boards of the grid's shape that agree on every cell are equal. */
  lemma BoardExt(a: Board, b: Board)
    requires IsGrid(a) && IsGrid(b)
    requires forall r, c :: 0 <= r < GridSize && 0 <= c < GridSize ==> a[r][c] == b[r][c]
    ensures a == b
  {
    forall r | 0 <= r < GridSize ensures a[r] == b[r] {
      assert forall c :: 0 <= c < GridSize ==> a[r][c] == b[r][c];
    }
  }

  /** Marking keeps every tile's coordinates. */
  lemma WithMarksKeepsTags(b: Board, cells: set<Pos>)
    requires Tagged(b)
    ensures Tagged(WithMarks(b, cells))
  {
  }

  /** Marking twice is marking the union, in either order. */
  lemma WithMarksTwice(b: Board, x: set<Pos>, y: set<Pos>)
    requires IsGrid(b)
    ensures WithMarks(WithMarks(b, x), y) == WithMarks(b, x + y)
  {
    BoardExt(WithMarks(WithMarks(b, x), y), WithMarks(b, x + y));
  }

  /** Marking no cell changes nothing. */
  lemma WithMarksNone(b: Board)
    requires IsGrid(b)
    ensures WithMarks(b, {}) == b
  {
    BoardExt(WithMarks(b, {}), b);
  }

  /** Raising the flag of one more cell in place is marking one more cell. */
  lemma MarkCell(b: Board, cells: set<Pos>, r: int, c: int)
    requires IsGrid(b) && InBounds(r, c)
    ensures var m := WithMarks(b, cells);
      m[r := m[r][c := m[r][c].(matched := true)]] == WithMarks(b, cells + {Pos(r, c)})
  {
    var m: Board := WithMarks(b, cells);
    BoardExt(m[r := m[r][c := m[r][c].(matched := true)]], WithMarks(b, cells + {Pos(r, c)}));
  }

  /** Lowering the flags of a board that has none raised changes nothing. */
  lemma UnmarkedClean(b: Board)
    requires IsGrid(b) && Clean(b)
    ensures Unmarked(b) == b
  {
    BoardExt(Unmarked(b), b);
  }

  // ---------------------------------------------------------------------
  // One column

  /** How many tiles of s are flagged as matched. */
  function CountMarked(s: seq<Tile>): (n: nat)
    ensures n <= |s|
  {
    if s == [] then 0 else (if s[0].matched then 1 else 0) + CountMarked(s[1..])
  }

  /** The unmatched tiles of s, in their order. */
  function Survivors(s: seq<Tile>): (u: seq<Tile>)
    ensures |u| + CountMarked(s) == |s|
    ensures forall k :: 0 <= k < |u| ==> !u[k].matched
  {
    if s == [] then [] else (if s[0].matched then [] else [s[0]]) + Survivors(s[1..])
  }

  /** Every survivor is a tile of the column. */
  lemma {:induction false} SurvivorIn(s: seq<Tile>, k: nat)
    requires k < |Survivors(s)|
    ensures Survivors(s)[k] in s
  {
    if !s[0].matched && k == 0 {
    } else {
      var j := if s[0].matched then k else k - 1;
      SurvivorIn(s[1..], j);
      assert Survivors(s[1..])[j] in s[1..];
    }
  }

  /** Column c, read top to bottom as s, after its marked cells are
      removed: k = CountMarked(s) fresh tiles drawn from rand(d), ...,
      rand(d + k - 1) fill rows 0 .. k - 1, and the survivors follow in
      their order, each tagged with its new row. */
  function Settle(s: seq<Tile>, c: int, rand: nat -> Roll, d: nat): (t: seq<Tile>)
    ensures |t| == |s|
  {
    var k := CountMarked(s);
    seq(|s|, x requires 0 <= x < |s| =>
      if x < k then FreshTile(rand(d + x), x, c) else Survivors(s)[x - k].(row := x))
  }

  lemma {:induction false} CountMarkedAppend(a: seq<Tile>, b: seq<Tile>)
    ensures CountMarked(a + b) == CountMarked(a) + CountMarked(b)
  {
    if a != [] {
      assert (a + b)[0] == a[0] && (a + b)[1..] == a[1..] + b;
      CountMarkedAppend(a[1..], b);
    } else {
      assert a + b == b;
    }
  }

  lemma {:induction false} SurvivorsAppend(a: seq<Tile>, b: seq<Tile>)
    ensures Survivors(a + b) == Survivors(a) + Survivors(b)
  {
    if a != [] {
      assert (a + b)[0] == a[0] && (a + b)[1..] == a[1..] + b;
      SurvivorsAppend(a[1..], b);
    } else {
      assert a + b == b;
    }
  }

  /** A column with no marked cell keeps all its tiles. */
  lemma {:induction false} SurvivorsUnmarked(s: seq<Tile>)
    requires CountMarked(s) == 0
    ensures Survivors(s) == s
  {
    if s != [] {
      SurvivorsUnmarked(s[1..]);
    }
  }

  /** The walk's view of gravity: an unmatched tile at row x moves down by
      the number of marked cells below it (js/game.js:255-258). */
  lemma DropDistance(s: seq<Tile>, c: int, rand: nat -> Roll, d: nat, x: nat)
    requires x < |s| && !s[x].matched
    ensures x + CountMarked(s[x + 1..]) < |s|
    ensures Settle(s, c, rand, d)[x + CountMarked(s[x + 1..])] == s[x].(row := x + CountMarked(s[x + 1..]))
  {
    var above, below := s[..x], s[x + 1..];
    assert s == above + ([s[x]] + below);
    CountMarkedAppend(above, [s[x]] + below);
    CountMarkedAppend([s[x]], below);
    SurvivorsAppend(above, [s[x]] + below);
    SurvivorsAppend([s[x]], below);
    assert CountMarked([s[x]]) == 0 && Survivors([s[x]]) == [s[x]];
    var k, y := CountMarked(s), x + CountMarked(below);
    assert Survivors(s) == Survivors(above) + ([s[x]] + Survivors(below));
    assert y - k == |Survivors(above)|;
    assert Survivors(s)[y - k] == s[x];
  }

  /** Survivors keep their relative order: a tile above another unmatched
      tile lands above it. */
  lemma DropOrder(s: seq<Tile>, x: nat, y: nat)
    requires x < y < |s| && !s[x].matched && !s[y].matched
    ensures x + CountMarked(s[x + 1..]) < y + CountMarked(s[y + 1..])
  {
    assert s[x + 1..] == s[x + 1..y] + s[y..];
    CountMarkedAppend(s[x + 1..y], s[y..]);
    assert s[y..] == [s[y]] + s[y + 1..];
    CountMarkedAppend([s[y]], s[y + 1..]);
    assert CountMarked([s[y]]) == 0;
  }

  /** A column tagged with its own rows and with no marked cell comes back
      unchanged. */
  lemma SettleUnmarked(s: seq<Tile>, c: int, rand: nat -> Roll, d: nat)
    requires CountMarked(s) == 0
    requires forall x :: 0 <= x < |s| ==> s[x].row == x
    ensures Settle(s, c, rand, d) == s
  {
    SurvivorsUnmarked(s);
  }

  /** The column t during the bottom-up walk of js/game.js:252-261 over
      the column s, once rows i .. |s| - 1 have been visited and k flagged
      cells counted: the rows above i are untouched, the next k rows are
      flagged, and the survivors of s[i..] sit at the bottom tagged with
      their new rows. */
  ghost predicate Walked(t: seq<Tile>, s: seq<Tile>, i: nat, k: nat)
    requires i <= |s|
  {
    |t| == |s| && k == CountMarked(s[i..]) &&
    (forall x :: 0 <= x < i ==> t[x] == s[x]) &&
    (forall x :: i <= x < i + k && x < |t| ==> t[x].matched) &&
    (forall x :: i + k <= x < |t| ==> t[x] == Survivors(s[i..])[x - i - k].(row := x))
  }

  /** Before the walk nothing has moved. */
  lemma WalkStart(s: seq<Tile>)
    ensures Walked(s, s, |s|, 0)
  {
    assert s[|s|..] == [];
  }

  /** One row of the walk, a flagged tile: it is counted. */
  lemma WalkFlagged(t: seq<Tile>, s: seq<Tile>, i: nat, k: nat)
    requires 0 < i <= |s| && Walked(t, s, i, k) && t[i - 1].matched
    ensures Walked(t, s, i - 1, k + 1)
  {
    var x := i - 1;
    assert s[x..][0] == s[x] && s[x..][1..] == s[i..];
    var below := Survivors(s[i..]);
    assert Survivors(s[x..]) == below;
    forall y | x + k + 1 <= y < |t|
      ensures t[y] == below[y - x - (k + 1)].(row := y)
    {
      assert t[y] == below[y - i - k].(row := y);
    }
  }

  /** One row of the walk, an unflagged tile with k > 0 flagged cells
      below it: it drops by k and its old cell is flagged. */
  lemma WalkDrop(t: seq<Tile>, s: seq<Tile>, i: nat, k: nat)
    requires 0 < i <= |s| && Walked(t, s, i, k) && !t[i - 1].matched && k > 0
    ensures i - 1 + k < |s|
    ensures Walked(t[i - 1 + k := t[i - 1].(row := i - 1 + k)][i - 1 := t[i - 1].(matched := true)], s, i - 1, k)
  {
    var x := i - 1;
    assert s[x..][0] == s[x] && s[x..][1..] == s[i..];
    var below := Survivors(s[i..]);
    var above := Survivors(s[x..]);
    assert above == [s[x]] + below;
    var u := t[x + k := t[x].(row := x + k)][x := t[x].(matched := true)];
    forall y | x + k <= y < |u|
      ensures u[y] == above[y - x - k].(row := y)
    {
      if y > x + k {
        assert u[y] == t[y] == below[y - i - k].(row := y);
      }
    }
    forall y | x <= y < x + k && y < |u| ensures u[y].matched {
      if y > x {
        assert u[y] == t[y];
      }
    }
    forall y | 0 <= y < x ensures u[y] == s[y] {
      assert u[y] == t[y];
    }
  }

  /** One row of the walk, an unflagged tile with nothing flagged below
      it: it stays, already tagged with its row. */
  lemma WalkStay(t: seq<Tile>, s: seq<Tile>, i: nat)
    requires 0 < i <= |s| && Walked(t, s, i, 0) && !t[i - 1].matched && s[i - 1].row == i - 1
    ensures Walked(t, s, i - 1, 0)
  {
    var x := i - 1;
    assert s[x..][0] == s[x] && s[x..][1..] == s[i..];
    var below := Survivors(s[i..]);
    assert Survivors(s[x..]) == [s[x]] + below;
    forall y | x <= y < |t|
      ensures t[y] == Survivors(s[x..])[y - x].(row := y)
    {
      if y > x {
        assert t[y] == below[y - i].(row := y);
      }
    }
  }

  /** Once the walk has visited every row, the cells from CountMarked(s)
      on hold what Settle puts there. */
  lemma WalkDone(t: seq<Tile>, s: seq<Tile>, k: nat, c: int, rand: nat -> Roll, d: nat)
    requires Walked(t, s, 0, k)
    ensures k == CountMarked(s)
    ensures forall x :: k <= x < |s| ==> t[x] == Settle(s, c, rand, d)[x]
  {
    assert s[0..] == s;
    var u := Settle(s, c, rand, d);
    forall x | k <= x < |s| ensures t[x] == u[x] {
      assert t[x] == Survivors(s)[x - k].(row := x);
    }
  }

  /** Writing one cell of a grid changes only that cell of its column. */
  lemma ColumnSet(b: Board, r: int, c: int, v: Tile)
    requires IsGrid(b) && InBounds(r, c)
    ensures IsGrid(b[r := b[r][c := v]])
    ensures Column(b[r := b[r][c := v]], c) == Column(b, c)[r := v]
  {
  }

  // ---------------------------------------------------------------------
  // The whole board

  /** The index of the first random draw of column c when the refills of
      a collapse of m start drawing at d: every column left of c draws once
      per marked cell. */
  function DrawStart(m: Board, d: nat, c: nat): (n: nat)
    requires IsGrid(m) && c <= GridSize
    ensures d <= n <= d + c * GridSize
  {
    if c == 0 then d else DrawStart(m, d, c - 1) + CountMarked(Column(m, c - 1))
  }

  /** m after every column has settled, column 0 first, with draws
      counted from d. */
  function Collapse(m: Board, rand: nat -> Roll, d: nat): (b: Board)
    requires IsGrid(m)
    ensures IsGrid(b)
    ensures forall r, c :: 0 <= r < GridSize && 0 <= c < GridSize ==> b[r][c] == CollapsedAt(m, rand, d, r, c)
  {
    CollapsedRows(m, rand, d, GridSize)
  }

  /** The tile at (r, c) after the collapse: row r of the settled column c,
      whose fresh tiles draw from d plus the draws of the columns before c. */
  function CollapsedAt(m: Board, rand: nat -> Roll, d: nat, r: int, c: int): Tile
    requires IsGrid(m) && InBounds(r, c)
  {
    Settle(Column(m, c), c, rand, DrawStart(m, d, c))[r]
  }

  /** The first n rows of the collapse of m. */
  function CollapsedRows(m: Board, rand: nat -> Roll, d: nat, n: nat): (rows: seq<seq<Tile>>)
    requires IsGrid(m) && n <= GridSize
    ensures |rows| == n
    ensures forall r :: 0 <= r < n ==> |rows[r]| == GridSize
    ensures forall r, c :: 0 <= r < n && 0 <= c < GridSize ==> rows[r][c] == CollapsedAt(m, rand, d, r, c)
  {
    if n == 0 then []
    else CollapsedRows(m, rand, d, n - 1) + [seq(GridSize, c requires 0 <= c < GridSize => CollapsedAt(m, rand, d, n - 1, c))]
  }

  /** A board whose every column is the settled column of m is the
      collapse of m. */
  lemma CollapseByColumns(m: Board, b: Board, rand: nat -> Roll, d: nat)
    requires IsGrid(m) && IsGrid(b)
    requires forall c :: 0 <= c < GridSize ==> Column(b, c) == Settle(Column(m, c), c, rand, DrawStart(m, d, c))
    ensures b == Collapse(m, rand, d)
  {
    var a: Board := Collapse(m, rand, d);
    forall r, c | 0 <= r < GridSize && 0 <= c < GridSize
      ensures b[r][c] == a[r][c]
    {
      var t := Settle(Column(m, c), c, rand, DrawStart(m, d, c));
      assert b[r][c] == Column(b, c)[r] == t[r];
    }
    BoardExt(b, a);
  }

  /** Settling column col after columns 0 .. col - 1 extends the settled
      prefix by one column. */
  lemma SettledPrefix(m: Board, before: Board, after: Board, col: int, rand: nat -> Roll, d: nat)
    requires IsGrid(m) && IsGrid(before) && IsGrid(after) && 0 <= col < GridSize
    requires forall c {:trigger Column(before, c)} :: 0 <= c < col ==> Column(before, c) == Settle(Column(m, c), c, rand, DrawStart(m, d, c))
    requires forall c {:trigger Column(after, c)} :: 0 <= c < GridSize && c != col ==> Column(after, c) == Column(before, c)
    requires Column(after, col) == Settle(Column(m, col), col, rand, DrawStart(m, d, col))
    ensures forall c {:trigger Column(after, c)} :: 0 <= c <= col ==> Column(after, c) == Settle(Column(m, c), c, rand, DrawStart(m, d, c))
  {
    forall c | 0 <= c <= col
      ensures Column(after, c) == Settle(Column(m, c), c, rand, DrawStart(m, d, c))
    {
      if c < col {
        assert Column(after, c) == Column(before, c);
      }
    }
  }

  /** After a collapse every cell holds a tile tagged with its own
      coordinates and no flag is raised. */
  lemma CollapseTaggedClean(m: Board, rand: nat -> Roll, d: nat)
    requires Tagged(m)
    ensures Tagged(Collapse(m, rand, d)) && Clean(Collapse(m, rand, d))
  {
    var b: Board := Collapse(m, rand, d);
    forall r, c | 0 <= r < GridSize && 0 <= c < GridSize
      ensures b[r][c].row == r && b[r][c].col == c && !b[r][c].matched
    {
      var s := Column(m, c);
      var k := CountMarked(s);
      var t := Settle(s, c, rand, DrawStart(m, d, c));
      assert b[r][c] == t[r];
      assert forall x :: 0 <= x < |s| ==> s[x].col == c;
      if r >= k {
        var u := Survivors(s)[r - k];
        SurvivorIn(s, r - k);
        assert u in s && t[r] == u.(row := r);
        assert !u.matched && u.col == c;
      } else {
        assert t[r] == FreshTile(rand(DrawStart(m, d, c) + r), r, c);
      }
    }
  }

  /** A column of m with no marked cell is the same column afterwards. */
  lemma CollapseKeepsColumn(m: Board, rand: nat -> Roll, d: nat, c: int)
    requires Tagged(m) && 0 <= c < GridSize
    requires CountMarked(Column(m, c)) == 0
    ensures forall r :: 0 <= r < GridSize ==> Collapse(m, rand, d)[r][c] == m[r][c]
  {
    SettleUnmarked(Column(m, c), c, rand, DrawStart(m, d, c));
  }

  /** Each cell named once or more by the groups is cleared once: the
      count of marked cells in column c of a clean board marked with
      `cells` is the number of rows r with Pos(r, c) in cells. */
  lemma MarkedCount(b: Board, cells: set<Pos>, c: int)
    requires IsGrid(b) && Clean(b) && 0 <= c < GridSize
    ensures CountMarked(Column(WithMarks(b, cells), c)) == |set r | 0 <= r < GridSize && Pos(r, c) in cells|
  {
    MarkedCountFrom(WithMarks(b, cells), b, cells, c, 0);
    assert Column(WithMarks(b, cells), c)[0..] == Column(WithMarks(b, cells), c);
  }

  lemma {:induction false} MarkedCountFrom(m: Board, b: Board, cells: set<Pos>, c: int, i: nat)
    requires IsGrid(b) && Clean(b) && 0 <= c < GridSize && i <= GridSize
    requires m == WithMarks(b, cells)
    ensures CountMarked(Column(m, c)[i..]) == |set r | i <= r < GridSize && Pos(r, c) in cells|
    decreases GridSize - i
  {
    var s := Column(m, c);
    if i == GridSize {
      assert (set r | i <= r < GridSize && Pos(r, c) in cells) == {};
    } else {
      MarkedCountFrom(m, b, cells, c, i + 1);
      assert s[i..][1..] == s[i + 1..];
      var tail := set r | i + 1 <= r < GridSize && Pos(r, c) in cells;
      var here := set r | i <= r < GridSize && Pos(r, c) in cells;
      if Pos(i, c) in cells {
        assert here == tail + {i};
      } else {
        assert here == tail;
      }
    }
  }
}
