/** Match detection (js/game.js:167-225): greedy scans of every row and every
    column for runs of three or more tiles of one colour. */
module Matching {
  import opened Tiles

  /** A half-open range [lo, hi) of positions on one line. */
  datatype Span = Span(lo: nat, hi: nat)

  /** Three tiles of one colour start at position i of the line. */
  predicate Triple(line: seq<Tile>, i: nat) {
    i + 2 < |line| && line[i].color == line[i + 1].color && line[i + 1].color == line[i + 2].color
  }

  /** The first position at or after j whose colour differs from c (or the
      end of the line): how far the `while` at js/game.js:183-187 extends. */
  function RunEnd(line: seq<Tile>, j: nat, c: Color): (e: nat)
    requires j <= |line|
    ensures j <= e <= |line|
    ensures forall k :: j <= k < e ==> line[k].color == c
    ensures e == |line| || line[e].color != c
    decreases |line| - j
  {
    if j < |line| && line[j].color == c then RunEnd(line, j + 1, c) else j
  }

  /** The spans the scan of one line emits when it starts at position i.
      After a run ending at e the scan resumes at e - 2, the effect of
      `col = nextCol - 3` followed by the loop's `col++`. */
  function ScanLine(line: seq<Tile>, i: nat): (spans: seq<Span>)
    requires i <= |line|
    ensures forall k :: 0 <= k < |spans| ==>
      i <= spans[k].lo && spans[k].lo + MinMatchSize <= spans[k].hi <= |line| && Triple(line, spans[k].lo)
    decreases |line| - i
  {
    if i + 2 >= |line| then []
    else if Triple(line, i) then
      var e := RunEnd(line, i + 3, line[i].color);
      [Span(i, e)] + ScanLine(line, e - 2)
    else ScanLine(line, i + 1)
  }

  /** The tiles of each span, in order. */
  function Slices(line: seq<Tile>, spans: seq<Span>): seq<seq<Tile>>
    requires forall k :: 0 <= k < |spans| ==> spans[k].lo <= spans[k].hi <= |line|
  {
    seq(|spans|, k requires 0 <= k < |spans| => line[spans[k].lo..spans[k].hi])
  }

  /** The match groups found on one line by a scan starting at position i. */
  function LineMatchesFrom(line: seq<Tile>, i: nat): seq<seq<Tile>>
    requires i <= |line|
  {
    Slices(line, ScanLine(line, i))
  }

  function LineMatches(line: seq<Tile>): seq<seq<Tile>> {
    LineMatchesFrom(line, 0)
  }

  /** Concatenation of the groups found line by line. */
  function Flatten(xss: seq<seq<seq<Tile>>>): seq<seq<Tile>> {
    if xss == [] then [] else Flatten(xss[..|xss| - 1]) + xss[|xss| - 1]
  }

  function RowGroups(b: Board): seq<seq<seq<Tile>>>
    requires IsGrid(b)
  {
    seq(GridSize, r requires 0 <= r < GridSize => LineMatches(b[r]))
  }

  function ColumnGroups(b: Board): seq<seq<seq<Tile>>>
    requires IsGrid(b)
  {
    seq(GridSize, c requires 0 <= c < GridSize => LineMatches(Column(b, c)))
  }

  function HorizontalMatches(b: Board): seq<seq<Tile>>
    requires IsGrid(b)
  {
    Flatten(RowGroups(b))
  }

  function VerticalMatches(b: Board): seq<seq<Tile>>
    requires IsGrid(b)
  {
    Flatten(ColumnGroups(b))
  }

  /** The result of `findAllMatches`: horizontal groups row by row, then
      vertical groups column by column. */
  function Matches(b: Board): seq<seq<Tile>>
    requires IsGrid(b)
  {
    HorizontalMatches(b) + VerticalMatches(b)
  }

  predicate HorizontalTriple(b: Board, r: int, c: int)
    requires IsGrid(b) && InBounds(r, c)
  {
    c + 2 < GridSize && b[r][c].color == b[r][c + 1].color && b[r][c + 1].color == b[r][c + 2].color
  }

  predicate VerticalTriple(b: Board, r: int, c: int)
    requires IsGrid(b) && InBounds(r, c)
  {
    r + 2 < GridSize && b[r][c].color == b[r + 1][c].color && b[r + 1][c].color == b[r + 2][c].color
  }

  /** No row and no column holds three consecutive tiles of one colour. */
  predicate MatchFree(b: Board)
    requires IsGrid(b)
  {
    forall r, c :: 0 <= r < GridSize && 0 <= c < GridSize ==> !HorizontalTriple(b, r, c) && !VerticalTriple(b, r, c)
  }

  // ---------------------------------------------------------------------
  // The scan of one line

  /** [lo, hi) holds at least three tiles of one colour and cannot be
      extended to either side. */
  predicate IsMaximalRun(line: seq<Tile>, s: Span) {
    s.lo + MinMatchSize <= s.hi <= |line| &&
    (forall k :: s.lo <= k < s.hi ==> line[k].color == line[s.lo].color) &&
    (s.lo == 0 || line[s.lo - 1].color != line[s.lo].color) &&
    (s.hi == |line| || line[s.hi].color != line[s.lo].color)
  }

  /** Neither a triple at e - 2 nor at e - 1 when e ends a run of colour c
      that covers e - 2 and e - 1. */
  lemma NoTripleAtRunTail(line: seq<Tile>, e: nat, c: Color)
    requires 2 <= e <= |line|
    requires line[e - 2].color == c && line[e - 1].color == c
    requires e == |line| || line[e].color != c
    ensures !Triple(line, e - 2) && !Triple(line, e - 1)
  {
  }

  /** A scan that meets a triple at i emits the run from i and resumes at
      two before its end. */
  lemma ScanLineStep(line: seq<Tile>, i: nat)
    requires i <= |line| && Triple(line, i)
    ensures var e := RunEnd(line, i + 3, line[i].color);
      ScanLine(line, i) == [Span(i, e)] + ScanLine(line, e - 2)
  {
  }

  /** A scan that meets no triple at i moves on to i + 1. */
  lemma ScanLineSkip(line: seq<Tile>, i: nat)
    requires i + 2 < |line| && !Triple(line, i)
    ensures ScanLine(line, i) == ScanLine(line, i + 1)
  {
  }

  /** Every span the scan emits is a maximal run, provided the scan does not
      start in the middle of a run. */
  lemma {:induction false} ScanLineRuns(line: seq<Tile>, i: nat)
    requires i <= |line|
    requires i > 0 && Triple(line, i) ==> line[i - 1].color != line[i].color
    ensures forall k :: 0 <= k < |ScanLine(line, i)| ==> IsMaximalRun(line, ScanLine(line, i)[k])
    decreases |line| - i
  {
    if i + 2 >= |line| {
    } else if Triple(line, i) {
      var c := line[i].color;
      var e := RunEnd(line, i + 3, c);
      assert forall k :: i <= k < e ==> line[k].color == c;
      NoTripleAtRunTail(line, e, c);
      ScanLineRuns(line, e - 2);
      assert IsMaximalRun(line, Span(i, e));
      ScanLineStep(line, i);
    } else {
      ScanLineRuns(line, i + 1);
      ScanLineSkip(line, i);
    }
  }

  /** Each span ends at or before the start of every later one. */
  predicate Ordered(spans: seq<Span>) {
    forall k, m :: 0 <= k < m < |spans| ==> spans[k].hi <= spans[m].lo
  }

  lemma OrderedCons(s: Span, rest: seq<Span>)
    requires Ordered(rest)
    requires forall m :: 0 <= m < |rest| ==> s.hi <= rest[m].lo
    ensures Ordered([s] + rest)
  {
    var sp := [s] + rest;
    forall k, m | 0 <= k < m < |sp| ensures sp[k].hi <= sp[m].lo {
      assert sp[m] == rest[m - 1];
      if k > 0 { assert sp[k] == rest[k - 1]; }
    }
  }

  /** The spans come in order and never overlap. */
  lemma {:induction false} ScanLineOrdered(line: seq<Tile>, i: nat)
    requires i <= |line|
    ensures Ordered(ScanLine(line, i))
    decreases |line| - i
  {
    if i + 2 >= |line| {
    } else if Triple(line, i) {
      var c := line[i].color;
      var e := RunEnd(line, i + 3, c);
      NoTripleAtRunTail(line, e, c);
      ScanLineOrdered(line, e - 2);
      var rest := ScanLine(line, e - 2);
      assert forall m :: 0 <= m < |rest| ==> e <= rest[m].lo;
      OrderedCons(Span(i, e), rest);
      ScanLineStep(line, i);
    } else {
      ScanLineOrdered(line, i + 1);
      ScanLineSkip(line, i);
    }
  }

  /** Every triple at or after i lies inside one of the spans; k is the
      index of that span. */
  lemma {:induction false} ScanLineCovers(line: seq<Tile>, i: nat, j: nat) returns (k: nat)
    requires i <= j && Triple(line, j)
    ensures k < |ScanLine(line, i)|
    ensures ScanLine(line, i)[k].lo <= j && j + MinMatchSize <= ScanLine(line, i)[k].hi
    decreases |line| - i
  {
    if Triple(line, i) {
      var c := line[i].color;
      var e := RunEnd(line, i + 3, c);
      ScanLineStep(line, i);
      if j + MinMatchSize <= e {
        k := 0;
      } else {
        assert forall x :: i <= x < e ==> line[x].color == c;
        NoTripleAtRunTail(line, e, c);
        var k' := ScanLineCovers(line, e - 2, j);
        k := k' + 1;
      }
    } else {
      ScanLineSkip(line, i);
      k := ScanLineCovers(line, i + 1, j);
    }
  }

  /** A line yields no group exactly when it holds no triple. */
  lemma LineMatchesEmpty(line: seq<Tile>)
    ensures LineMatches(line) == [] <==> forall j :: 0 <= j < |line| ==> !Triple(line, j)
  {
    var sp := ScanLine(line, 0);
    if sp != [] {
      assert Triple(line, sp[0].lo);
      assert |LineMatches(line)| == |sp|;
    }
    if j :| 0 <= j < |line| && Triple(line, j) {
      var k := ScanLineCovers(line, 0, j);
      assert |LineMatches(line)| == |sp|;
    }
  }

  // ---------------------------------------------------------------------
  // The whole board

  lemma {:induction false} FlattenEmpty(xss: seq<seq<seq<Tile>>>)
    ensures Flatten(xss) == [] <==> forall j :: 0 <= j < |xss| ==> xss[j] == []
  {
    if xss != [] {
      var n := |xss| - 1;
      FlattenEmpty(xss[..n]);
      assert forall j :: 0 <= j < n ==> xss[..n][j] == xss[j];
    }
  }

  /** No row yields a group exactly when no row holds a triple. */
  lemma HorizontalEmptyIff(b: Board)
    requires IsGrid(b)
    ensures HorizontalMatches(b) == [] <==>
      forall r, c :: 0 <= r < GridSize && 0 <= c < GridSize ==> !HorizontalTriple(b, r, c)
  {
    var rg := RowGroups(b);
    FlattenEmpty(rg);
    forall r | 0 <= r < GridSize
      ensures rg[r] == [] <==> forall c :: 0 <= c < GridSize ==> !HorizontalTriple(b, r, c)
    {
      LineMatchesEmpty(b[r]);
      assert forall c :: 0 <= c < GridSize ==> (Triple(b[r], c) <==> HorizontalTriple(b, r, c));
    }
    if forall r, c :: 0 <= r < GridSize && 0 <= c < GridSize ==> !HorizontalTriple(b, r, c) {
      assert forall r :: 0 <= r < GridSize ==> rg[r] == [];
    }
    if HorizontalMatches(b) == [] {
      forall r, c | 0 <= r < GridSize && 0 <= c < GridSize ensures !HorizontalTriple(b, r, c) {
        assert rg[r] == [];
      }
    }
  }

  /** One column yields no group exactly when it holds no triple. */
  lemma ColumnEmptyIff(b: Board, c: int)
    requires IsGrid(b) && 0 <= c < GridSize
    ensures LineMatches(Column(b, c)) == [] <==> forall r :: 0 <= r < GridSize ==> !VerticalTriple(b, r, c)
  {
    var col := Column(b, c);
    LineMatchesEmpty(col);
    assert forall r :: 0 <= r < GridSize ==> (Triple(col, r) <==> VerticalTriple(b, r, c));
  }

  /** No column yields a group exactly when no column holds a triple. */
  lemma VerticalEmptyIff(b: Board)
    requires IsGrid(b)
    ensures VerticalMatches(b) == [] <==>
      forall r, c :: 0 <= r < GridSize && 0 <= c < GridSize ==> !VerticalTriple(b, r, c)
  {
    var cg := ColumnGroups(b);
    FlattenEmpty(cg);
    forall c | 0 <= c < GridSize
      ensures cg[c] == [] <==> forall r :: 0 <= r < GridSize ==> !VerticalTriple(b, r, c)
    {
      ColumnEmptyIff(b, c);
    }
    if forall r, c :: 0 <= r < GridSize && 0 <= c < GridSize ==> !VerticalTriple(b, r, c) {
      assert forall c :: 0 <= c < GridSize ==> cg[c] == [];
    }
    if VerticalMatches(b) == [] {
      forall r, c | 0 <= r < GridSize && 0 <= c < GridSize ensures !VerticalTriple(b, r, c) {
        assert cg[c] == [];
      }
    }
  }

  /** `findAllMatches` returns an empty list exactly when no row and no
      column holds three consecutive tiles of one colour. */
  lemma MatchesEmptyIff(b: Board)
    requires IsGrid(b)
    ensures Matches(b) == [] <==> MatchFree(b)
  {
    HorizontalEmptyIff(b);
    VerticalEmptyIff(b);
    assert Matches(b) == [] <==> HorizontalMatches(b) == [] && VerticalMatches(b) == [];
  }

  /** g is a maximal run of at least three tiles of one colour lying in one
      row of b, left to right. */
  ghost predicate HorizontalRun(b: Board, g: seq<Tile>) {
    IsGrid(b) && |g| >= MinMatchSize &&
    var r, lo := g[0].row, g[0].col;
    0 <= r < GridSize && 0 <= lo && lo + |g| <= GridSize &&
    (forall k :: 0 <= k < |g| ==> g[k] == b[r][lo + k] && g[k].color == g[0].color) &&
    (lo == 0 || b[r][lo - 1].color != g[0].color) &&
    (lo + |g| == GridSize || b[r][lo + |g|].color != g[0].color)
  }

  /** g is a maximal run of at least three tiles of one colour lying in one
      column of b, top to bottom. */
  ghost predicate VerticalRun(b: Board, g: seq<Tile>) {
    IsGrid(b) && |g| >= MinMatchSize &&
    var c, lo := g[0].col, g[0].row;
    0 <= c < GridSize && 0 <= lo && lo + |g| <= GridSize &&
    (forall k :: 0 <= k < |g| ==> g[k] == b[lo + k][c] && g[k].color == g[0].color) &&
    (lo == 0 || b[lo - 1][c].color != g[0].color) &&
    (lo + |g| == GridSize || b[lo + |g|][c].color != g[0].color)
  }

  /** Two groups on the same row: the later one starts after the earlier one ends. */
  ghost predicate RowOrdered(gs: seq<seq<Tile>>) {
    forall i, j :: 0 <= i < j < |gs| && |gs[i]| > 0 && |gs[j]| > 0 && gs[i][0].row == gs[j][0].row ==>
      gs[i][0].col + |gs[i]| <= gs[j][0].col
  }

  /** Two groups on the same column: the later one starts below the end of the earlier one. */
  ghost predicate ColumnOrdered(gs: seq<seq<Tile>>) {
    forall i, j :: 0 <= i < j < |gs| && |gs[i]| > 0 && |gs[j]| > 0 && gs[i][0].col == gs[j][0].col ==>
      gs[i][0].row + |gs[i]| <= gs[j][0].row
  }

  /** The line facts for the scan from position 0. */
  lemma LineFacts(line: seq<Tile>)
    ensures forall k :: 0 <= k < |ScanLine(line, 0)| ==> IsMaximalRun(line, ScanLine(line, 0)[k])
    ensures forall k, m :: 0 <= k < m < |ScanLine(line, 0)| ==> ScanLine(line, 0)[k].hi <= ScanLine(line, 0)[m].lo
  {
    ScanLineRuns(line, 0);
    ScanLineOrdered(line, 0);
  }

  /** The groups of row r are maximal horizontal runs in that row, in order. */
  lemma RowLineShape(b: Board, r: int)
    requires Tagged(b) && 0 <= r < GridSize
    ensures forall k :: 0 <= k < |RowGroups(b)[r]| ==> HorizontalRun(b, RowGroups(b)[r][k]) && RowGroups(b)[r][k][0].row == r
    ensures RowOrdered(RowGroups(b)[r])
  {
    var line := b[r];
    var sp := ScanLine(line, 0);
    var gs: seq<seq<Tile>> := RowGroups(b)[r];
    assert gs == Slices(line, sp);
    LineFacts(line);
    forall k | 0 <= k < |gs|
      ensures HorizontalRun(b, gs[k]) && gs[k][0].row == r && gs[k][0].col == sp[k].lo && |gs[k]| == sp[k].hi - sp[k].lo
    {
      RowRunShape(b, r, sp[k], gs[k]);
    }
  }

  /** The tiles of a maximal run of row r form a horizontal run that starts
      at the run's first column. */
  lemma RowRunShape(b: Board, r: int, s: Span, g: seq<Tile>)
    requires Tagged(b) && 0 <= r < GridSize
    requires IsMaximalRun(b[r], s) && g == b[r][s.lo..s.hi]
    ensures HorizontalRun(b, g) && g[0].row == r && g[0].col == s.lo && |g| == s.hi - s.lo
  {
  }

  /** The groups of column c are maximal vertical runs in that column, in order. */
  lemma ColumnLineShape(b: Board, c: int)
    requires Tagged(b) && 0 <= c < GridSize
    ensures forall k :: 0 <= k < |ColumnGroups(b)[c]| ==> VerticalRun(b, ColumnGroups(b)[c][k]) && ColumnGroups(b)[c][k][0].col == c
    ensures ColumnOrdered(ColumnGroups(b)[c])
  {
    var line := Column(b, c);
    var sp := ScanLine(line, 0);
    var gs: seq<seq<Tile>> := ColumnGroups(b)[c];
    assert gs == Slices(line, sp);
    LineFacts(line);
    forall k | 0 <= k < |gs|
      ensures VerticalRun(b, gs[k]) && gs[k][0].col == c && gs[k][0].row == sp[k].lo && |gs[k]| == sp[k].hi - sp[k].lo
    {
      ColumnRunShape(b, c, sp[k], gs[k]);
    }
  }

  /** The tiles of a maximal run of column c form a vertical run that
      starts at the run's first row. */
  lemma ColumnRunShape(b: Board, c: int, s: Span, g: seq<Tile>)
    requires Tagged(b) && 0 <= c < GridSize
    requires IsMaximalRun(Column(b, c), s) && g == Column(b, c)[s.lo..s.hi]
    ensures VerticalRun(b, g) && g[0].col == c && g[0].row == s.lo && |g| == s.hi - s.lo
  {
  }

  lemma RowOrderedAppend(a: seq<seq<Tile>>, bs: seq<seq<Tile>>, n: int)
    requires RowOrdered(a) && RowOrdered(bs)
    requires forall i :: 0 <= i < |a| ==> |a[i]| > 0 && a[i][0].row < n
    requires forall i :: 0 <= i < |bs| ==> |bs[i]| > 0 && bs[i][0].row == n
    ensures RowOrdered(a + bs)
  {
    var gs: seq<seq<Tile>> := a + bs;
    assert forall i, j :: 0 <= i < |a| <= j < |gs| ==> gs[i] == a[i] && gs[j] == bs[j - |a|] && gs[i][0].row < gs[j][0].row;
    forall i, j | 0 <= i < j < |gs| && |gs[i]| > 0 && |gs[j]| > 0 && gs[i][0].row == gs[j][0].row
      ensures gs[i][0].col + |gs[i]| <= gs[j][0].col
    {
      if j < |a| {
        assert gs[i] == a[i] && gs[j] == a[j];
      } else if |a| <= i {
        assert gs[i] == bs[i - |a|] && gs[j] == bs[j - |a|];
      }
    }
  }

  lemma ColumnOrderedAppend(a: seq<seq<Tile>>, bs: seq<seq<Tile>>, n: int)
    requires ColumnOrdered(a) && ColumnOrdered(bs)
    requires forall i :: 0 <= i < |a| ==> |a[i]| > 0 && a[i][0].col < n
    requires forall i :: 0 <= i < |bs| ==> |bs[i]| > 0 && bs[i][0].col == n
    ensures ColumnOrdered(a + bs)
  {
    var gs: seq<seq<Tile>> := a + bs;
    assert forall i, j :: 0 <= i < |a| <= j < |gs| ==> gs[i] == a[i] && gs[j] == bs[j - |a|] && gs[i][0].col < gs[j][0].col;
    forall i, j | 0 <= i < j < |gs| && |gs[i]| > 0 && |gs[j]| > 0 && gs[i][0].col == gs[j][0].col
      ensures gs[i][0].row + |gs[i]| <= gs[j][0].row
    {
      if j < |a| {
        assert gs[i] == a[i] && gs[j] == a[j];
      } else if |a| <= i {
        assert gs[i] == bs[i - |a|] && gs[j] == bs[j - |a|];
      }
    }
  }

  /** The groups of the first n rows are maximal horizontal runs in rows
      above n, and groups of one row are ordered and disjoint. */
  lemma {:induction false} RowPrefixShape(b: Board, n: nat)
    requires Tagged(b) && n <= GridSize
    ensures forall i :: 0 <= i < |Flatten(RowGroups(b)[..n])| ==>
      HorizontalRun(b, Flatten(RowGroups(b)[..n])[i]) && Flatten(RowGroups(b)[..n])[i][0].row < n
    ensures RowOrdered(Flatten(RowGroups(b)[..n]))
  {
    if n > 0 {
      var rg := RowGroups(b);
      assert rg[..n][..n - 1] == rg[..n - 1];
      RowPrefixShape(b, n - 1);
      RowLineShape(b, n - 1);
      var a: seq<seq<Tile>> := Flatten(rg[..n - 1]);
      var bs: seq<seq<Tile>> := rg[n - 1];
      var f := Flatten(rg[..n]);
      assert f == a + bs;
      RowOrderedAppend(a, bs, n - 1);
      forall i | 0 <= i < |f| ensures HorizontalRun(b, f[i]) && f[i][0].row < n {
        if i < |a| { assert f[i] == a[i]; } else { assert f[i] == bs[i - |a|]; }
      }
    }
  }

  /** The groups of the first n columns are maximal vertical runs in columns
      left of n, and groups of one column are ordered and disjoint. */
  lemma {:induction false} ColumnPrefixShape(b: Board, n: nat)
    requires Tagged(b) && n <= GridSize
    ensures forall i :: 0 <= i < |Flatten(ColumnGroups(b)[..n])| ==>
      VerticalRun(b, Flatten(ColumnGroups(b)[..n])[i]) && Flatten(ColumnGroups(b)[..n])[i][0].col < n
    ensures ColumnOrdered(Flatten(ColumnGroups(b)[..n]))
  {
    if n > 0 {
      var cg := ColumnGroups(b);
      assert cg[..n][..n - 1] == cg[..n - 1];
      ColumnPrefixShape(b, n - 1);
      ColumnLineShape(b, n - 1);
      var a: seq<seq<Tile>> := Flatten(cg[..n - 1]);
      var bs: seq<seq<Tile>> := cg[n - 1];
      var f := Flatten(cg[..n]);
      assert f == a + bs;
      ColumnOrderedAppend(a, bs, n - 1);
      forall i | 0 <= i < |f| ensures VerticalRun(b, f[i]) && f[i][0].col < n {
        if i < |a| { assert f[i] == a[i]; } else { assert f[i] == bs[i - |a|]; }
      }
    }
  }

  /** Every group `findAllMatches` returns is a maximal run of three or more
      tiles of one colour in one row or one column; the horizontal groups
      come first; groups on one line never overlap. */
  lemma MatchesShape(b: Board)
    requires Tagged(b)
    ensures var h, ms := HorizontalMatches(b), Matches(b);
      |h| <= |ms| &&
      (forall i :: 0 <= i < |h| ==> HorizontalRun(b, ms[i])) &&
      (forall i :: |h| <= i < |ms| ==> VerticalRun(b, ms[i])) &&
      RowOrdered(h) && ColumnOrdered(VerticalMatches(b))
  {
    RowPrefixShape(b, GridSize);
    ColumnPrefixShape(b, GridSize);
    assert RowGroups(b)[..GridSize] == RowGroups(b);
    assert ColumnGroups(b)[..GridSize] == ColumnGroups(b);
    var h, v := HorizontalMatches(b), VerticalMatches(b);
    assert forall i :: |h| <= i < |h| + |v| ==> Matches(b)[i] == v[i - |h|];
  }

  /** Every group has at least three tiles, each tagged with a cell of the board. */
  lemma MatchTiles(b: Board)
    requires Tagged(b)
    ensures forall i :: 0 <= i < |Matches(b)| ==> |Matches(b)[i]| >= MinMatchSize
    ensures forall i, j :: 0 <= i < |Matches(b)| && 0 <= j < |Matches(b)[i]| ==>
      InBounds(Matches(b)[i][j].row, Matches(b)[i][j].col)
  {
    MatchesShape(b);
    var h: seq<seq<Tile>>, ms: seq<seq<Tile>> := HorizontalMatches(b), Matches(b);
    forall i, j | 0 <= i < |ms| && 0 <= j < |ms[i]| ensures InBounds(ms[i][j].row, ms[i][j].col) {
      if i < |h| {
        assert HorizontalRun(b, ms[i]);
        assert ms[i][j] == b[ms[i][0].row][ms[i][0].col + j];
      } else {
        assert VerticalRun(b, ms[i]);
        assert ms[i][j] == b[ms[i][0].row + j][ms[i][0].col];
      }
    }
    forall i | 0 <= i < |ms| ensures |ms[i]| >= MinMatchSize {
      if i < |h| { assert HorizontalRun(b, ms[i]); } else { assert VerticalRun(b, ms[i]); }
    }
  }

  // ---------------------------------------------------------------------
  // The scanning loops

  /** One step of the scan over a triple at col: the run up to e, then the
      scan from e - 2. */
  lemma ScanTripleStep(line: seq<Tile>, col: nat, e: nat)
    requires col <= |line| && Triple(line, col)
    requires e == RunEnd(line, col + 3, line[col].color)
    ensures LineMatchesFrom(line, col) == [line[col..e]] + LineMatchesFrom(line, e - 2)
  {
    var rest := ScanLine(line, e - 2);
    ScanLineStep(line, col);
    calc {
      LineMatchesFrom(line, col);
      Slices(line, [Span(col, e)] + rest);
      { SlicesCons(line, Span(col, e), rest); }
      [line[col..e]] + Slices(line, rest);
    }
  }

  lemma SlicesCons(line: seq<Tile>, s: Span, rest: seq<Span>)
    requires s.lo <= s.hi <= |line|
    requires forall k :: 0 <= k < |rest| ==> rest[k].lo <= rest[k].hi <= |line|
    ensures Slices(line, [s] + rest) == [line[s.lo..s.hi]] + Slices(line, rest)
  {
    var a, b := Slices(line, [s] + rest), [line[s.lo..s.hi]] + Slices(line, rest);
    assert |a| == |b|;
    forall k | 0 <= k < |a| ensures a[k] == b[k] {
      if k > 0 { assert ([s] + rest)[k] == rest[k - 1]; }
    }
  }

  /** One step of the scan where no triple starts at col. */
  lemma ScanSkipStep(line: seq<Tile>, col: nat)
    requires col + 2 < |line| && !Triple(line, col)
    ensures LineMatchesFrom(line, col) == LineMatchesFrom(line, col + 1)
  {
    ScanLineSkip(line, col);
  }

  /** The inner loop at js/game.js:181-187: the triple at col grown tile by
      tile while the colour holds. */
  method ExtendRun(line: seq<Tile>, col: nat) returns (matchedTiles: seq<Tile>, nextCol: nat)
    requires Triple(line, col)
    ensures nextCol == RunEnd(line, col + 3, line[col].color)
    ensures matchedTiles == line[col..nextCol]
  {
    matchedTiles := [line[col], line[col + 1], line[col + 2]];
    nextCol := col + 3;
    while nextCol < |line| && line[nextCol].color == line[col].color
      invariant col + 3 <= nextCol <= |line|
      invariant matchedTiles == line[col..nextCol]
      invariant RunEnd(line, nextCol, line[col].color) == RunEnd(line, col + 3, line[col].color)
      decreases |line| - nextCol
    {
      matchedTiles := matchedTiles + [line[nextCol]];
      nextCol := nextCol + 1;
    }
  }

  /** The scan of one line, written as the loops at js/game.js:172-194
      (and 199-221 for a column). */
  method FindLineMatches(line: seq<Tile>) returns (groups: seq<seq<Tile>>)
    ensures groups == LineMatches(line)
  {
    groups := [];
    var col := 0;
    while col < |line| - 2
      invariant 0 <= col <= |line|
      invariant groups + LineMatchesFrom(line, col) == LineMatches(line)
      decreases |line| - col
    {
      var tile1, tile2, tile3 := line[col], line[col + 1], line[col + 2];
      if tile1.color == tile2.color && tile2.color == tile3.color {
        var matchedTiles, nextCol := ExtendRun(line, col);
        ScanTripleStep(line, col, nextCol);
        assert (groups + [matchedTiles]) + LineMatchesFrom(line, nextCol - 2)
            == groups + LineMatchesFrom(line, col);
        groups := groups + [matchedTiles];
        col := nextCol - 3;
      } else {
        ScanSkipStep(line, col);
      }
      col := col + 1;
    }
  }
}
