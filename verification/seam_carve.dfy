/**
 * The dynamic programme of daguerre/seam_carve.py over an integer energy
 * grid (row-major, `grid[y][x]`): the cumulative cost of `get_cost`, the
 * greedy seam of `get_seam`, and `delete_seam`.
 */
module SeamCarve {
  import opened Wrappers

  type Grid = seq<seq<int>>

  /** All rows have `width` entries. */
  predicate Rectangular(g: Grid, width: nat) {
    forall y | 0 <= y < |g| :: |g[y]| == width
  }

  /** `energy.clip(0, 255)` for one value. */
  function Clip(e: int): (c: int)
    ensures 0 <= c <= 255
    ensures 0 <= e <= 255 ==> c == e
  {
    if e < 0 then 0 else if e > 255 then 255 else e
  }

  /** `min(s)` of a non-empty sequence. */
  function MinOf(s: seq<int>): (m: int)
    requires |s| > 0
    ensures forall i | 0 <= i < |s| :: m <= s[i]
  {
    if |s| == 1 then s[0]
    else
      var rest := MinOf(s[1..]);
      assert s == [s[0]] + s[1..];
      if s[0] <= rest then s[0] else rest
  }

  /** The minimum is one of the values. */
  lemma {:induction false} MinOfIn(s: seq<int>)
    requires |s| > 0
    ensures MinOf(s) in s
  {
    if |s| > 1 {
      MinOfIn(s[1..]);
      assert s == [s[0]] + s[1..];
    }
  }

  /**
   * `s[i:j]` with Python's index rules: a negative index counts from the
   * end, and both ends are clamped to the sequence.
   */
  function PySlice(s: seq<int>, i: int, j: int): (r: seq<int>)
    ensures |r| <= |s|
  {
    var n := |s|;
    var lo := if i < 0 then (if i + n < 0 then 0 else i + n) else if i > n then n else i;
    var hi := if j < 0 then (if j + n < 0 then 0 else j + n) else if j > n then n else j;
    if lo < hi then s[lo..hi] else []
  }

  /**
   * The cells of the previous cost row a cell of `get_cost` takes its
   * minimum over: `last_row[x-1:x+2]`, or `last_row[x:x+2]` when that slice
   * is empty.
   */
  function Window(lastRow: seq<int>, x: int): seq<int> {
    var around := PySlice(lastRow, x - 1, x + 2);
    if around != [] then around else PySlice(lastRow, x, x + 2)
  }

  /** The in-bounds neighbours `x-1`, `x`, `x+1` of a cell in the previous row. */
  function Neighbours(lastRow: seq<int>, x: int): seq<int>
    requires 0 <= x < |lastRow|
  {
    var lo := if x == 0 then 0 else x - 1;
    var hi := if x + 2 <= |lastRow| then x + 2 else |lastRow|;
    lastRow[lo..hi]
  }

  /**
   * The window is the in-bounds neighbours except at the left edge of a row
   * two cells wide, where `last_row[-1:2]` wraps to the right cell alone.
   */
  lemma WindowCases(lastRow: seq<int>, x: int)
    requires 0 <= x < |lastRow|
    ensures |lastRow| == 2 && x == 0 ==> Window(lastRow, x) == [lastRow[1]]
    ensures !(|lastRow| == 2 && x == 0) ==> Window(lastRow, x) == Neighbours(lastRow, x)
  {
    var n := |lastRow|;
    if x == 0 && n >= 3 {
      assert PySlice(lastRow, -1, 2) == [];
    }
  }

  /** Which previous-row cells a cost cell minimises over. */
  datatype Rule = AsWritten | InBounds

  function CellWindow(rule: Rule, lastRow: seq<int>, x: int): (w: seq<int>)
    requires 0 <= x < |lastRow|
    ensures |w| > 0
    ensures forall v | v in w :: v in lastRow
  {
    WindowCases(lastRow, x);
    match rule
    case AsWritten => Window(lastRow, x)
    case InBounds => Neighbours(lastRow, x)
  }

  /** One row of `get_cost`: the window minimum above each cell plus the cell's clipped energy. */
  function NextRow(rule: Rule, lastRow: seq<int>, energyRow: seq<int>, width: nat): (row: seq<int>)
    requires |lastRow| == width && |energyRow| == width
    ensures |row| == width
    ensures forall x | 0 <= x < width :: row[x] == MinOf(CellWindow(rule, lastRow, x)) + Clip(energyRow[x])
  {
    seq(width, x requires 0 <= x < width => MinOf(CellWindow(rule, lastRow, x)) + Clip(energyRow[x]))
  }

  /** The first `n` rows of the cost. */
  function CostRows(rule: Rule, energy: Grid, width: nat, n: nat): (cost: Grid)
    requires Rectangular(energy, width) && 1 <= n <= |energy|
    ensures |cost| == n && Rectangular(cost, width)
    ensures forall x | 0 <= x < width :: cost[0][x] == Clip(energy[0][x])
  {
    if n == 1 then [seq(width, x requires 0 <= x < width => Clip(energy[0][x]))]
    else
      var prev := CostRows(rule, energy, width, n - 1);
      var cost := prev + [NextRow(rule, prev[n - 2], energy[n - 1], width)];
      assert cost[0] == prev[0];
      cost
  }

  /** Computing more rows leaves the earlier ones as they were. */
  lemma {:induction false} CostRowsPrefix(rule: Rule, energy: Grid, width: nat, m: nat, n: nat)
    requires Rectangular(energy, width) && 1 <= m <= n <= |energy|
    ensures CostRows(rule, energy, width, n)[..m] == CostRows(rule, energy, width, m)
    decreases n
  {
    if m < n {
      CostRowsPrefix(rule, energy, width, m, n - 1);
      var prev := CostRows(rule, energy, width, n - 1);
      assert CostRows(rule, energy, width, n)[..n - 1] == prev;
    }
  }

  /**
   * `get_cost`: row 0 is the clipped energy, each later cell the minimum of
   * its window in the row before plus its clipped energy. With
   * `AsWritten` the window is the source's slice, with `InBounds` the
   * in-bounds neighbours.
   */
  function GetCost(rule: Rule, energy: Grid, width: nat): (cost: Grid)
    requires Rectangular(energy, width) && |energy| >= 1
    ensures |cost| == |energy| && Rectangular(cost, width)
    ensures forall x | 0 <= x < width :: cost[0][x] == Clip(energy[0][x])
  {
    CostRows(rule, energy, width, |energy|)
  }

  /** Each later row of the cost follows from the row before it. */
  lemma CostRecurrence(rule: Rule, energy: Grid, width: nat, y: nat)
    requires Rectangular(energy, width) && 1 <= y < |energy|
    ensures GetCost(rule, energy, width)[y] == NextRow(rule, GetCost(rule, energy, width)[y - 1], energy[y], width)
  {
    CostRowsPrefix(rule, energy, width, y + 1, |energy|);
    var cost := GetCost(rule, energy, width);
    var upto := CostRows(rule, energy, width, y + 1);
    assert cost[y] == upto[y] && cost[y - 1] == upto[y - 1];
  }

  /** Both rules give the same cost unless rows are two cells wide. */
  lemma RulesAgree(energy: Grid, width: nat)
    requires Rectangular(energy, width) && |energy| >= 1 && width != 2
    ensures GetCost(AsWritten, energy, width) == GetCost(InBounds, energy, width)
  {
    RowsAgree(energy, width, |energy|);
  }

  lemma {:induction false} RowsAgree(energy: Grid, width: nat, n: nat)
    requires Rectangular(energy, width) && 1 <= n <= |energy| && width != 2
    ensures CostRows(AsWritten, energy, width, n) == CostRows(InBounds, energy, width, n)
  {
    if n > 1 {
      RowsAgree(energy, width, n - 1);
      var prev := CostRows(AsWritten, energy, width, n - 1);
      NextRowAgree(prev[n - 2], energy[n - 1], width);
    }
  }

  lemma NextRowAgree(last: seq<int>, e: seq<int>, width: nat)
    requires |last| == width && |e| == width && width != 2
    ensures NextRow(AsWritten, last, e, width) == NextRow(InBounds, last, e, width)
  {
    forall x | 0 <= x < width
      ensures CellWindow(AsWritten, last, x) == CellWindow(InBounds, last, x)
    {
      WindowCases(last, x);
    }
  }

  /** Every cost of row `y` lies between 0 and 255 * (y + 1). */
  lemma {:induction false} CostBounds(rule: Rule, energy: Grid, width: nat, n: nat)
    requires Rectangular(energy, width) && 1 <= n <= |energy|
    ensures forall y, x | 0 <= y < n && 0 <= x < width :: 0 <= CostRows(rule, energy, width, n)[y][x] <= 255 * (y + 1)
  {
    if n > 1 {
      CostBounds(rule, energy, width, n - 1);
      var prev := CostRows(rule, energy, width, n - 1);
      var last := prev[n - 2];
      var b := 255 * (n - 1);
      forall x | 0 <= x < width
        ensures 0 <= last[x] <= b
      {
        assert 0 <= prev[n - 2][x] <= 255 * ((n - 2) + 1);
      }
      NextRowBounds(rule, last, energy[n - 1], width, b);
      var row := NextRow(rule, last, energy[n - 1], width);
      var cost := CostRows(rule, energy, width, n);
      assert cost == prev + [row];
      forall y, x | 0 <= y < n && 0 <= x < width
        ensures 0 <= cost[y][x] <= 255 * (y + 1)
      {
        if y < n - 1 {
          assert cost[y] == prev[y];
        } else {
          assert cost[y] == row;
        }
      }
    }
  }

  /** A row over a previous row bounded by [0, b] is bounded by [0, b + 255]. */
  lemma NextRowBounds(rule: Rule, last: seq<int>, e: seq<int>, width: nat, b: int)
    requires |last| == width && |e| == width
    requires forall x | 0 <= x < width :: 0 <= last[x] <= b
    ensures var row := NextRow(rule, last, e, width);
      forall x | 0 <= x < width :: 0 <= row[x] <= b + 255
  {
    var row := NextRow(rule, last, e, width);
    forall x | 0 <= x < width
      ensures 0 <= row[x] <= b + 255
    {
      var w := CellWindow(rule, last, x);
      var m := MinOf(w);
      MinOfIn(w);
      assert m in last;
    }
  }

  // ------------------------------------------------------------------ the seam

  /** `x` is the first index of the least value of `row` (0 for an empty row). */
  predicate FirstMin(row: seq<int>, x: int) {
    if |row| == 0 then x == 0
    else
      && 0 <= x < |row|
      && (forall i | 0 <= i < |row| :: row[x] <= row[i])
      && (forall i | 0 <= i < x :: row[x] < row[i])
  }

  /** `d` is one of `x-1`, `x`, `x+1` and inside the row. */
  predicate Candidate(width: int, x: int, d: int) {
    x - 1 <= d <= x + 1 && 0 <= d < width
  }

  /**
   * One upward step of `get_seam`: the first, in the order x-1, x, x+1, of
   * the in-bounds candidates with the least cost; `x` itself when there is
   * no candidate.
   */
  ghost predicate GreedyStep(row: seq<int>, width: int, x: int, next: int)
    requires |row| == width
  {
    if !exists d :: Candidate(width, x, d) then next == x
    else
      && Candidate(width, x, next)
      && (forall d | Candidate(width, x, d) :: row[next] <= row[d])
      && (forall d | Candidate(width, x, d) && d < next :: row[next] < row[d])
  }

  /**
   * What `get_seam` returns: one `(y, x)` per row in row order, the bottom x
   * the first minimum of the last row, and each row's x the greedy step up
   * from the x of the row below.
   */
  ghost predicate IsGreedySeam(cost: Grid, width: nat, seam: seq<(int, int)>)
    requires Rectangular(cost, width)
  {
    && |seam| == |cost| >= 1
    && (forall y | 0 <= y < |seam| :: seam[y].0 == y)
    && FirstMin(cost[|cost| - 1], seam[|cost| - 1].1)
    && (forall y, z | 0 <= y && z == y + 1 < |seam| :: GreedyStep(cost[y], width, seam[z].1, seam[y].1))
  }

  /** The greedy step from `x`: the loop over x-1, x, x+1 keeping the first strict minimum. */
  method Step(row: seq<int>, width: nat, x: int) returns (next: int)
    requires |row| == width
    ensures GreedyStep(row, width, x, next)
  {
    next := x;
    var found := false;
    var best := 0;
    for k := 0 to 3
      invariant found <==> exists d :: Candidate(width, x, d) && d < x - 1 + k
      invariant found ==> Candidate(width, x, next) && next < x - 1 + k && best == row[next]
      invariant found ==> forall d | Candidate(width, x, d) && d < x - 1 + k :: best <= row[d]
      invariant found ==> forall d | Candidate(width, x, d) && d < next :: best < row[d]
      invariant !found ==> next == x
    {
      var dx := x - 1 + k;
      if 0 <= dx < width {
        assert Candidate(width, x, dx);
        if !found || row[dx] < best {
          best := row[dx];
          next := dx;
        }
        found := true;
      } else {
        assert !Candidate(width, x, dx);
      }
    }
  }

  /** The bottom of the seam: the loop over the last cost row keeping the first strict minimum. */
  method FirstMinIndex(last: seq<int>) returns (x: int)
    ensures FirstMin(last, x)
  {
    x := 0;
    var found := false;
    var mincost := 0;
    for dx := 0 to |last|
      invariant found <==> dx > 0
      invariant 0 <= x <= dx
      invariant found ==> x < dx && mincost == last[x]
      invariant found ==> forall i | 0 <= i < dx :: mincost <= last[i]
      invariant forall i | 0 <= i < x :: mincost < last[i]
      invariant !found ==> x == 0
    {
      if !found || last[dx] < mincost {
        mincost := last[dx];
        x := dx;
      }
      found := true;
    }
  }

  /**
   * A seam built from the bottom row upwards: entry `i` is for row
   * `height - 1 - i`, the first is the first minimum of the last row, and
   * each later entry is the greedy step from the one before.
   */
  ghost predicate BottomUp(cost: Grid, width: nat, rev: seq<(int, int)>)
    requires Rectangular(cost, width)
  {
    var height := |cost|;
    && 1 <= |rev| <= height
    && (forall i | 0 <= i < |rev| :: rev[i].0 == height - 1 - i)
    && FirstMin(cost[height - 1], rev[0].1)
    && (width > 0 ==> forall i | 0 <= i < |rev| :: 0 <= rev[i].1 < width)
    && (forall i, j | 0 <= i && j == i + 1 < |rev| :: -1 <= rev[j].1 - rev[i].1 <= 1)
    && (forall i, j | 0 <= i && j == i + 1 < |rev| :: GreedyStep(cost[height - 1 - j], width, rev[i].1, rev[j].1))
  }

  /** One more greedy step extends a bottom-up seam by the next row up. */
  lemma ExtendBottomUp(cost: Grid, width: nat, rev: seq<(int, int)>, next: int)
    requires Rectangular(cost, width) && BottomUp(cost, width, rev) && |rev| < |cost|
    requires GreedyStep(cost[|cost| - 1 - |rev|], width, rev[|rev| - 1].1, next)
    ensures BottomUp(cost, width, rev + [(|cost| - 1 - |rev|, next)])
  {
    var y := |cost| - 1 - |rev|;
    var h := |cost|;
    StepFacts(cost[y], width, rev[|rev| - 1].1, next);
    var ext := rev + [(y, next)];
    assert forall i | 0 <= i < |rev| :: ext[i] == rev[i];
    forall i, j | 0 <= i && j == i + 1 < |ext|
      ensures -1 <= ext[j].1 - ext[i].1 <= 1
      ensures GreedyStep(cost[h - 1 - j], width, ext[i].1, ext[j].1)
    {
      if j < |rev| {
        assert ext[i] == rev[i] && ext[j] == rev[j];
      } else {
        assert ext[i] == rev[|rev| - 1] && ext[j] == (y, next);
      }
    }
  }

  /**
   * `get_seam`: the first minimum of the bottom cost row, then row by row
   * upwards the greedy step, listed from the top row down.
   */
  method GetSeam(cost: Grid) returns (seam: seq<(int, int)>)
    requires |cost| >= 1 && Rectangular(cost, |cost[0]|)
    ensures IsGreedySeam(cost, |cost[0]|, seam)
    ensures |cost[0]| > 0 ==> forall y | 0 <= y < |seam| :: 0 <= seam[y].1 < |cost[0]|
    ensures forall y | 0 <= y < |seam| - 1 :: -1 <= seam[y].1 - seam[y + 1].1 <= 1
  {
    var height := |cost|;
    var width := |cost[0]|;
    var x := FirstMinIndex(cost[height - 1]);
    var rev := [(height - 1, x)];
    var y := height - 1;
    while y > 0
      invariant 0 <= y <= height - 1
      invariant |rev| == height - y
      invariant rev[|rev| - 1].1 == x
      invariant BottomUp(cost, width, rev)
    {
      y := y - 1;
      var next := Step(cost[y], width, x);
      ExtendBottomUp(cost, width, rev, next);
      rev := rev + [(y, next)];
      x := next;
    }
    seam := seq(height, i requires 0 <= i < height => rev[height - 1 - i]);
    ReversedSeam(cost, width, rev, seam);
  }

  /** A greedy step moves at most one column and stays inside a non-empty row. */
  lemma StepFacts(row: seq<int>, width: nat, x: int, next: int)
    requires |row| == width && GreedyStep(row, width, x, next)
    requires width > 0 ==> 0 <= x < width
    ensures -1 <= next - x <= 1
    ensures width > 0 ==> 0 <= next < width
  {
    if width > 0 {
      assert Candidate(width, x, x);
    }
  }

  /** Listing the bottom-up seam from the top row down gives a greedy seam. */
  lemma ReversedSeam(cost: Grid, width: nat, rev: seq<(int, int)>, seam: seq<(int, int)>)
    requires |cost| >= 1 && Rectangular(cost, width)
    requires |rev| == |cost| && |seam| == |rev| && BottomUp(cost, width, rev)
    requires forall i | 0 <= i < |rev| :: seam[i] == rev[|rev| - 1 - i]
    ensures IsGreedySeam(cost, width, seam)
    ensures width > 0 ==> forall y | 0 <= y < |seam| :: 0 <= seam[y].1 < width
    ensures forall y | 0 <= y < |seam| - 1 :: -1 <= seam[y].1 - seam[y + 1].1 <= 1
  {
    var h := |cost|;
    forall y | 0 <= y < h - 1
      ensures GreedyStep(cost[y], width, seam[y + 1].1, seam[y].1)
    {
      var i := h - 2 - y;
      assert seam[y] == rev[i + 1] && seam[y + 1] == rev[i];
    }
    forall y | 0 <= y < h - 1
      ensures -1 <= seam[y].1 - seam[y + 1].1 <= 1
    {
      var i := h - 2 - y;
      assert seam[y] == rev[i + 1] && seam[y + 1] == rev[i];
    }
    assert seam[h - 1] == rev[0];
  }


  // ------------------------------------------------------------------ seams as paths

  /** The column of each row along a seam. */
  function Columns(seam: seq<(int, int)>): (xs: seq<int>)
    ensures |xs| == |seam|
    ensures forall y | 0 <= y < |seam| :: xs[y] == seam[y].1
  {
    seq(|seam|, y requires 0 <= y < |seam| => seam[y].1)
  }

  /** A top-to-bottom path: one column per row, inside the grid, moving at most one column per row. */
  predicate Connected(xs: seq<int>, width: nat) {
    && (forall y | 0 <= y < |xs| :: 0 <= xs[y] < width)
    && (forall y, z | 0 <= y < |xs| && z == y + 1 < |xs| :: -1 <= xs[z] - xs[y] <= 1)
  }

  /** The clipped energy along the first `n` rows of a path. */
  function PathEnergy(energy: Grid, width: nat, xs: seq<int>, n: nat): int
    requires Rectangular(energy, width) && n <= |xs| && n <= |energy| && Connected(xs, width)
  {
    if n == 0 then 0 else PathEnergy(energy, width, xs, n - 1) + Clip(energy[n - 1][xs[n - 1]])
  }

  /** A column one step from `x` lies in the in-bounds neighbourhood of `x`. */
  lemma NeighbourHolds(row: seq<int>, x: int, d: int)
    requires 0 <= x < |row| && 0 <= d < |row| && -1 <= d - x <= 1
    ensures row[d] in Neighbours(row, x)
  {
    var lo := if x == 0 then 0 else x - 1;
    assert row[d] == Neighbours(row, x)[d - lo];
  }

  /**
   * `cost` satisfies the recurrence of `rule` over `energy`: row 0 is the
   * clipped energy and every later cell is the least value of its window
   * in the row above plus its clipped energy.
   */
  ghost predicate CostOf(rule: Rule, energy: Grid, width: nat, cost: Grid) {
    && Rectangular(energy, width) && |cost| == |energy| >= 1 && Rectangular(cost, width)
    && (forall x | 0 <= x < width :: cost[0][x] == Clip(energy[0][x]))
    && (forall p, y | 0 <= p && y == p + 1 < |cost| :: cost[y] == NextRow(rule, cost[p], energy[y], width))
  }

  /** The cost computed row by row satisfies the recurrence. */
  lemma GetCostRecurrence(rule: Rule, energy: Grid, width: nat)
    requires Rectangular(energy, width) && |energy| >= 1
    ensures CostOf(rule, energy, width, GetCost(rule, energy, width))
  {
    var cost := GetCost(rule, energy, width);
    forall p, y | 0 <= p && y == p + 1 < |cost|
      ensures cost[y] == NextRow(rule, cost[p], energy[y], width)
    {
      CostRecurrence(rule, energy, width, y);
    }
  }

  /** One cell of a cost satisfying the recurrence. */
  lemma CellCost(rule: Rule, energy: Grid, width: nat, cost: Grid, y: nat, x: int)
    requires CostOf(rule, energy, width, cost) && 1 <= y < |cost| && 0 <= x < width
    ensures cost[y][x] == MinOf(CellWindow(rule, cost[y - 1], x)) + Clip(energy[y][x])
  {
    assert cost[y] == NextRow(rule, cost[y - 1], energy[y], width);
  }

  /** The cost of a cell is at most the energy of any path reaching it from the top row. */
  lemma {:induction false} CostAtMostPath(energy: Grid, width: nat, cost: Grid, xs: seq<int>, y: nat)
    requires CostOf(InBounds, energy, width, cost)
    requires y < |energy| && y < |xs| && Connected(xs, width)
    ensures cost[y][xs[y]] <= PathEnergy(energy, width, xs, y + 1)
  {
    if y > 0 {
      CostAtMostPath(energy, width, cost, xs, y - 1);
      CellCost(InBounds, energy, width, cost, y, xs[y]);
      NeighbourHolds(cost[y - 1], xs[y], xs[y - 1]);
    }
  }

  /** The in-bounds neighbourhood of `x` holds exactly the costs of the step candidates. */
  lemma NeighboursAreCandidates(row: seq<int>, x: int, v: int)
    requires 0 <= x < |row| && v in Neighbours(row, x)
    ensures exists d :: Candidate(|row|, x, d) && row[d] == v
  {
    var lo := if x == 0 then 0 else x - 1;
    var j :| 0 <= j < |Neighbours(row, x)| && Neighbours(row, x)[j] == v;
    assert Candidate(|row|, x, lo + j) && row[lo + j] == v;
  }

  /** A greedy step lands on the least cost of the neighbourhood. */
  lemma StepTakesMinimum(row: seq<int>, x: int, next: int)
    requires 0 <= x < |row| && GreedyStep(row, |row|, x, next)
    ensures row[next] == MinOf(Neighbours(row, x))
  {
    assert Candidate(|row|, x, x);
    var w := Neighbours(row, x);
    var m := MinOf(w);
    MinOfIn(w);
    NeighboursAreCandidates(row, x, m);
    NeighbourHolds(row, x, next);
  }

  /** Every column of a greedy seam is inside the grid, and consecutive columns differ by at most one. */
  lemma {:induction false} GreedyColumn(cost: Grid, width: nat, seam: seq<(int, int)>, y: nat)
    requires Rectangular(cost, width) && width > 0 && IsGreedySeam(cost, width, seam)
    requires y < |seam|
    ensures 0 <= seam[y].1 < width
    ensures y + 1 < |seam| ==> -1 <= seam[y].1 - seam[y + 1].1 <= 1
    decreases |seam| - y
  {
    if y + 1 < |seam| {
      GreedyColumn(cost, width, seam, y + 1);
      StepFacts(cost[y], width, seam[y + 1].1, seam[y].1);
    }
  }

  /** A greedy seam over a non-empty grid is a connected top-to-bottom path. */
  lemma GreedySeamConnected(cost: Grid, width: nat, seam: seq<(int, int)>)
    requires Rectangular(cost, width) && width > 0 && IsGreedySeam(cost, width, seam)
    ensures Connected(Columns(seam), width)
  {
    forall y | 0 <= y < |seam| ensures 0 <= seam[y].1 < width && (y + 1 < |seam| ==> -1 <= seam[y].1 - seam[y + 1].1 <= 1) {
      GreedyColumn(cost, width, seam, y);
    }
  }

  /** Each step up a path lands on the least cost of the neighbourhood below it. */
  ghost predicate Descends(cost: Grid, xs: seq<int>) {
    forall p, y | 0 <= p && y == p + 1 < |xs| && y < |cost| && 0 <= xs[y] < |cost[p]| ::
      0 <= xs[p] < |cost[p]| && cost[p][xs[p]] == MinOf(Neighbours(cost[p], xs[y]))
  }

  /** A greedy seam takes the least neighbour at every step. */
  lemma GreedySeamDescends(cost: Grid, width: nat, seam: seq<(int, int)>)
    requires Rectangular(cost, width) && width > 0 && IsGreedySeam(cost, width, seam)
    ensures Descends(cost, Columns(seam))
  {
    var xs := Columns(seam);
    forall p, y | 0 <= p && y == p + 1 < |xs| && y < |cost| && 0 <= xs[y] < |cost[p]|
      ensures 0 <= xs[p] < |cost[p]| && cost[p][xs[p]] == MinOf(Neighbours(cost[p], xs[y]))
    {
      assert GreedyStep(cost[p], width, seam[y].1, seam[p].1);
      StepFacts(cost[p], width, seam[y].1, seam[p].1);
      StepTakesMinimum(cost[p], seam[y].1, seam[p].1);
    }
  }

  /**
   * Along a path that takes the least neighbour at every step, the energy of
   * the rows down to `y` equals the cost of the path's cell in row `y`.
   */
  lemma {:induction false} DescentEnergyIsCost(energy: Grid, width: nat, cost: Grid, xs: seq<int>, y: nat)
    requires CostOf(InBounds, energy, width, cost) && Connected(xs, width) && Descends(cost, xs)
    requires y < |energy| && y < |xs|
    ensures PathEnergy(energy, width, xs, y + 1) == cost[y][xs[y]]
  {
    if y > 0 {
      DescentEnergyIsCost(energy, width, cost, xs, y - 1);
      DescentStep(energy, width, cost, xs, y);
    } else {
      TopRowCost(energy, width, cost, xs[0]);
    }
  }

  /** A descending step adds the clipped energy of the new cell to the cost of the cell above it. */
  lemma DescentStep(energy: Grid, width: nat, cost: Grid, xs: seq<int>, y: nat)
    requires CostOf(InBounds, energy, width, cost) && Connected(xs, width) && Descends(cost, xs)
    requires 1 <= y < |energy| && y < |xs|
    ensures cost[y][xs[y]] == cost[y - 1][xs[y - 1]] + Clip(energy[y][xs[y]])
  {
    CellCost(InBounds, energy, width, cost, y, xs[y]);
    DescendsAt(cost, xs, y);
  }

  /** The top row's cost is its clipped energy. */
  lemma TopRowCost(energy: Grid, width: nat, cost: Grid, x: int)
    requires CostOf(InBounds, energy, width, cost) && 0 <= x < width
    ensures cost[0][x] == Clip(energy[0][x])
  {
  }

  /** The step into row `y` of a descending path. */
  lemma DescendsAt(cost: Grid, xs: seq<int>, y: nat)
    requires Descends(cost, xs) && 1 <= y < |xs| && y < |cost| && 0 <= xs[y] < |cost[y - 1]|
    ensures 0 <= xs[y - 1] < |cost[y - 1]| && cost[y - 1][xs[y - 1]] == MinOf(Neighbours(cost[y - 1], xs[y]))
  {
  }

  /** No entry of a row is below its least value. */
  lemma MinOfAtMost(row: seq<int>, i: int, b: int)
    requires 0 <= i < |row| && row[i] <= b
    ensures MinOf(row) <= b
  {
    MinOfBelow(row, i);
  }

  lemma MinOfBelow(row: seq<int>, i: int)
    requires 0 <= i < |row|
    ensures MinOf(row) <= row[i]
  {
    assert row[i] in row;
  }

  /** The first minimum of a non-empty row holds the row's least value. */
  lemma FirstMinIsLeast(row: seq<int>, x: int)
    requires |row| > 0 && FirstMin(row, x)
    ensures row[x] == MinOf(row)
  {
    MinOfIn(row);
    var j :| 0 <= j < |row| && row[j] == MinOf(row);
    assert row[x] <= row[j];
    MinOfBelow(row, x);
  }

  /**
   * A greedy seam over a cost satisfying the in-bounds recurrence is a
   * connected path whose energy is the least cost of the bottom row.
   */
  lemma SeamEnergyIsLeastCost(energy: Grid, width: nat, cost: Grid, seam: seq<(int, int)>)
    requires CostOf(InBounds, energy, width, cost) && width > 0 && IsGreedySeam(cost, width, seam)
    ensures Connected(Columns(seam), width)
    ensures PathEnergy(energy, width, Columns(seam), |energy|) == MinOf(cost[|energy| - 1])
  {
    var h := |energy|;
    GreedySeamConnected(cost, width, seam);
    GreedySeamDescends(cost, width, seam);
    DescentEnergyIsCost(energy, width, cost, Columns(seam), h - 1);
    FirstMinIsLeast(cost[h - 1], seam[h - 1].1);
  }

  /**
   * No connected path from the top row to the bottom row has less energy
   * than the least cost of the bottom row.
   */
  lemma LeastCostIsLowerBound(energy: Grid, width: nat, cost: Grid, other: seq<int>)
    requires CostOf(InBounds, energy, width, cost) && width > 0
    requires |other| == |energy| && Connected(other, width)
    ensures MinOf(cost[|energy| - 1]) <= PathEnergy(energy, width, other, |energy|)
  {
    var h := |energy|;
    var b := PathEnergy(energy, width, other, h);
    var last := cost[h - 1];
    var i := other[h - 1];
    CostAtMostPath(energy, width, cost, other, h - 1);
    assert last[i] <= b;
    MinOfAtMost(last, i, b);
  }

  /**
   * The seam `get_seam` picks over the in-bounds cost is a cheapest seam: its
   * energy is the least cost of the bottom row, and no connected path from
   * the top row to the bottom row has less energy.
   */
  lemma SeamIsOptimal(energy: Grid, width: nat, seam: seq<(int, int)>, other: seq<int>)
    requires Rectangular(energy, width) && |energy| >= 1 && width > 0
    requires IsGreedySeam(GetCost(InBounds, energy, width), width, seam)
    requires |other| == |energy| && Connected(other, width)
    ensures Connected(Columns(seam), width)
    ensures PathEnergy(energy, width, Columns(seam), |energy|) == MinOf(GetCost(InBounds, energy, width)[|energy| - 1])
    ensures PathEnergy(energy, width, Columns(seam), |energy|) <= PathEnergy(energy, width, other, |energy|)
  {
    GetCostRecurrence(InBounds, energy, width);
    SeamEnergyIsLeastCost(energy, width, GetCost(InBounds, energy, width), seam);
    LeastCostIsLowerBound(energy, width, GetCost(InBounds, energy, width), other);
  }

  // ------------------------------------------------------------------ rows two cells wide

  /** A two-row energy map, two cells wide, whose cheapest seam runs down column 0. */
  const NarrowEnergy: Grid := [[0, 9], [0, 1]]

  /**
   * With the source's window, a row two cells wide sees only the cell
   * diagonally above at column 0, so the cost of (1, 0) ignores the cell
   * straight above it and comes out as 9.
   */
  lemma NarrowCost()
    ensures GetCost(AsWritten, NarrowEnergy, 2) == [[0, 9], [9, 1]]
  {
    GetCostRecurrence(AsWritten, NarrowEnergy, 2);
    NarrowRecurrence(GetCost(AsWritten, NarrowEnergy, 2));
  }

  /** The only cost satisfying the source's recurrence over the narrow energy map. */
  lemma NarrowRecurrence(cost: Grid)
    requires CostOf(AsWritten, NarrowEnergy, 2, cost)
    ensures cost == [[0, 9], [9, 1]]
  {
    var top := [0, 9];
    assert cost[0][0] == 0 && cost[0][1] == 9;
    assert cost[0] == top;
    WindowCases(top, 0);
    WindowCases(top, 1);
    assert CellWindow(AsWritten, top, 0) == [9];
    assert CellWindow(AsWritten, top, 1) == top[0..2] == [0, 9];
    assert MinOf([0, 9]) == 0;
    assert cost[1][0] == 9 && cost[1][1] == 1;
    assert cost[1] == [9, 1];
  }

  /**
   * Over that cost the seam starts from column 1 of the bottom row and has
   * energy 1, while the path down column 0 has energy 0: as written, the
   * seam is not the cheapest one.
   */
  lemma NarrowRowMissesCheapestSeam(seam: seq<(int, int)>)
    requires IsGreedySeam(GetCost(AsWritten, NarrowEnergy, 2), 2, seam)
    ensures seam == [(0, 0), (1, 1)]
    ensures Connected(Columns(seam), 2) && PathEnergy(NarrowEnergy, 2, Columns(seam), 2) == 1
    ensures Connected([0, 0], 2) && PathEnergy(NarrowEnergy, 2, [0, 0], 2) == 0
  {
    NarrowCost();
    NarrowSeam(GetCost(AsWritten, NarrowEnergy, 2), seam);
    assert Columns(seam) == [0, 1];
  }

  /** The one greedy seam over the narrow cost. */
  lemma NarrowSeam(cost: Grid, seam: seq<(int, int)>)
    requires cost == [[0, 9], [9, 1]] && IsGreedySeam(cost, 2, seam)
    ensures seam == [(0, 0), (1, 1)]
  {
    assert FirstMin(cost[1], seam[1].1);
    assert cost[1][seam[1].1] <= cost[1][1];
    assert seam[1].1 == 1;
    assert Candidate(2, 1, 0);
    assert GreedyStep(cost[0], 2, 1, seam[0].1);
    assert seam[0].1 == 0;
  }

  // ------------------------------------------------------------------ deleting a seam

  /** The cells a seam masks out. */
  function Masked(seam: seq<(int, int)>): (cells: set<(int, int)>)
    ensures forall i | 0 <= i < |seam| :: seam[i] in cells
    ensures forall c | c in cells :: exists i | 0 <= i < |seam| :: seam[i] == c
  {
    set i | 0 <= i < |seam| :: seam[i]
  }

  /** The unmasked cells of row `y` from column `x` on, left to right. */
  function KeptInRow<T>(row: seq<T>, y: int, masked: set<(int, int)>, x: nat): (kept: seq<T>)
    requires x <= |row|
    ensures |kept| <= |row| - x
    decreases |row| - x
  {
    if x == |row| then []
    else (if (y, x) in masked then [] else [row[x]]) + KeptInRow(row, y, masked, x + 1)
  }

  /** The unmasked cells from row `y` on, in row-major order: numpy's `arr[mask]`. */
  function Kept<T>(grid: seq<seq<T>>, masked: set<(int, int)>, y: nat): seq<T>
    requires y <= |grid|
    decreases |grid| - y
  {
    if y == |grid| then [] else KeptInRow(grid[y], y, masked, 0) + Kept(grid, masked, y + 1)
  }

  /** `numpy.reshape` of a flat sequence into `h` rows of `w` entries. */
  function Reshape<T>(s: seq<T>, h: nat, w: nat): (rows: seq<seq<T>>)
    requires |s| == h * w
    ensures |rows| == h
    ensures forall y | 0 <= y < h :: |rows[y]| == w
  {
    if h == 0 then []
    else
      assert |s[w..]| == (h - 1) * w;
      [s[..w]] + Reshape(s[w..], h - 1, w)
  }

  /**
   * `delete_seam`: mask out every cell of the seam and reshape what is left
   * into rows one entry shorter; `None` when numpy's reshape would raise
   * because the number of cells left does not fill such rows.
   */
  function DeleteSeam<T>(grid: seq<seq<T>>, width: nat, seam: seq<(int, int)>): (r: Option<seq<seq<T>>>)
    requires width >= 1 && forall y | 0 <= y < |grid| :: |grid[y]| == width
    ensures r.Some? <==> |Kept(grid, Masked(seam), 0)| == |grid| * (width - 1)
    ensures r.Some? ==> |r.value| == |grid| && forall y | 0 <= y < |grid| :: |r.value[y]| == width - 1
  {
    var kept := Kept(grid, Masked(seam), 0);
    if |kept| == |grid| * (width - 1) then Some(Reshape(kept, |grid|, width - 1)) else None
  }

  /** A seam as `get_seam` produces it: one cell per row, in row order, inside the grid. */
  predicate IsSeamOf(seam: seq<(int, int)>, height: nat, width: nat) {
    && |seam| == height
    && forall y | 0 <= y < height :: seam[y].0 == y && 0 <= seam[y].1 < width
  }

  /** Row `y` without its entry at column `x`. */
  function RemoveAt<T>(row: seq<T>, x: nat): (r: seq<T>)
    requires x < |row|
    ensures |r| == |row| - 1
    ensures multiset(r) + multiset{row[x]} == multiset(row)
  {
    assert row == row[..x] + [row[x]] + row[x + 1..];
    row[..x] + row[x + 1..]
  }

  /** The masked cells of a well-formed seam in row `y` are exactly its one cell there. */
  lemma MaskedInRow(seam: seq<(int, int)>, height: nat, width: nat, y: int, x: int)
    requires IsSeamOf(seam, height, width) && 0 <= y < height
    ensures (y, x) in Masked(seam) <==> x == seam[y].1
  {
    if (y, x) in Masked(seam) {
      var i :| 0 <= i < |seam| && seam[i] == (y, x);
      assert i == y;
    }
    assert seam[y] == (y, seam[y].1);
  }

  /** Keeping the unmasked cells of a row whose one masked cell is `m`. */
  lemma {:induction false} KeptInRowRemoves<T>(row: seq<T>, y: int, masked: set<(int, int)>, m: nat, x: nat)
    requires m < |row| && x <= m
    requires forall c | 0 <= c < |row| :: (y, c) in masked <==> c == m
    ensures KeptInRow(row, y, masked, x) == row[x..m] + row[m + 1..]
    decreases m - x
  {
    if x < m {
      KeptInRowRemoves(row, y, masked, m, x + 1);
      assert (y, x) !in masked;
      assert row[x..m] == [row[x]] + row[x + 1..m];
    } else {
      KeptAfterSeam(row, y, masked, m, m + 1);
      assert (y, m) in masked;
      assert row[m..m] == [];
    }
  }

  /** Past the masked column, every cell of the row is kept. */
  lemma {:induction false} KeptAfterSeam<T>(row: seq<T>, y: int, masked: set<(int, int)>, m: nat, x: nat)
    requires m < x <= |row|
    requires forall c | 0 <= c < |row| :: (y, c) in masked <==> c == m
    ensures KeptInRow(row, y, masked, x) == row[x..]
    decreases |row| - x
  {
    if x < |row| {
      KeptAfterSeam(row, y, masked, m, x + 1);
      assert (y, x) !in masked;
      assert row[x..] == [row[x]] + row[x + 1..];
    }
  }

  /** Each row keeps everything but its seam cell. */
  lemma RowKept<T>(grid: seq<seq<T>>, width: nat, seam: seq<(int, int)>, y: nat)
    requires forall r | 0 <= r < |grid| :: |grid[r]| == width
    requires IsSeamOf(seam, |grid|, width) && y < |grid|
    ensures KeptInRow(grid[y], y, Masked(seam), 0) == RemoveAt(grid[y], seam[y].1)
  {
    forall c | 0 <= c < |grid[y]| ensures (y, c) in Masked(seam) <==> c == seam[y].1 {
      MaskedInRow(seam, |grid|, width, y, c);
    }
    KeptInRowRemoves(grid[y], y, Masked(seam), seam[y].1, 0);
  }

  /** Rows `y` onwards, each without its seam cell. */
  function RowsWithoutSeam<T>(grid: seq<seq<T>>, width: nat, seam: seq<(int, int)>, y: nat): (rows: seq<seq<T>>)
    requires forall r | 0 <= r < |grid| :: |grid[r]| == width
    requires IsSeamOf(seam, |grid|, width) && y <= |grid|
    ensures |rows| == |grid| - y
    ensures forall i | 0 <= i < |rows| :: rows[i] == RemoveAt(grid[y + i], seam[y + i].1)
    decreases |grid| - y
  {
    if y == |grid| then [] else [RemoveAt(grid[y], seam[y].1)] + RowsWithoutSeam(grid, width, seam, y + 1)
  }

  /** `n` rows of `w` entries and one more row hold `w` more entries. */
  lemma MoreRows(n: nat, w: nat)
    requires n >= 1
    ensures n * w == w + (n - 1) * w
  {
  }

  /** Reshaping a first row followed by the rest gives that row, then the rest reshaped. */
  lemma ReshapeCons<T>(row: seq<T>, rest: seq<T>, n: nat, w: nat)
    requires n >= 1 && |row| == w && |rest| == (n - 1) * w
    ensures |row + rest| == n * w
    ensures Reshape(row + rest, n, w) == [row] + Reshape(rest, n - 1, w)
  {
    MoreRows(n, w);
    assert (row + rest)[..w] == row;
    assert (row + rest)[w..] == rest;
  }

  /** From row `y` on, each row keeps all but one cell. */
  lemma {:induction false} KeptLength<T>(grid: seq<seq<T>>, width: nat, seam: seq<(int, int)>, y: nat)
    requires width >= 1 && forall r | 0 <= r < |grid| :: |grid[r]| == width
    requires IsSeamOf(seam, |grid|, width) && y <= |grid|
    ensures |Kept(grid, Masked(seam), y)| == (|grid| - y) * (width - 1)
    decreases |grid| - y
  {
    if y < |grid| {
      KeptLength(grid, width, seam, y + 1);
      KeptRowLength(grid, width, seam, y);
      MoreRows(|grid| - y, width - 1);
    }
  }

  /** Row `y` contributes all but one of its cells. */
  lemma KeptRowLength<T>(grid: seq<seq<T>>, width: nat, seam: seq<(int, int)>, y: nat)
    requires width >= 1 && forall r | 0 <= r < |grid| :: |grid[r]| == width
    requires IsSeamOf(seam, |grid|, width) && y < |grid|
    ensures |Kept(grid, Masked(seam), y)| == (width - 1) + |Kept(grid, Masked(seam), y + 1)|
  {
    RowKept(grid, width, seam, y);
  }

  /** The cells kept from row `y` on, reshaped, are the rows with their seam cells removed. */
  lemma {:induction false} KeptRows<T>(grid: seq<seq<T>>, width: nat, seam: seq<(int, int)>, y: nat)
    requires width >= 1 && forall r | 0 <= r < |grid| :: |grid[r]| == width
    requires IsSeamOf(seam, |grid|, width) && y <= |grid|
    ensures |Kept(grid, Masked(seam), y)| == (|grid| - y) * (width - 1)
    ensures Reshape(Kept(grid, Masked(seam), y), |grid| - y, width - 1) == RowsWithoutSeam(grid, width, seam, y)
    decreases |grid| - y
  {
    KeptLength(grid, width, seam, y);
    if y < |grid| {
      KeptRows(grid, width, seam, y + 1);
      RowKept(grid, width, seam, y);
      KeptRowLength(grid, width, seam, y);
      var row := KeptInRow(grid[y], y, Masked(seam), 0);
      var rest := Kept(grid, Masked(seam), y + 1);
      assert Kept(grid, Masked(seam), y) == row + rest;
      ReshapeCons(row, rest, |grid| - y, width - 1);
      assert RowsWithoutSeam(grid, width, seam, y)
          == [RemoveAt(grid[y], seam[y].1)] + RowsWithoutSeam(grid, width, seam, y + 1);
    }
  }

  /**
   * Deleting a seam `get_seam` produced never fails: every row loses
   * exactly its seam cell and keeps the rest in order, so the width drops by
   * one and the height stays.
   */
  lemma DeleteSeamRemovesOnePerRow<T>(grid: seq<seq<T>>, width: nat, seam: seq<(int, int)>)
    requires width >= 1 && forall y | 0 <= y < |grid| :: |grid[y]| == width
    requires IsSeamOf(seam, |grid|, width)
    ensures DeleteSeam(grid, width, seam).Some?
    ensures var rows := DeleteSeam(grid, width, seam).value;
      && |rows| == |grid|
      && forall y | 0 <= y < |grid| ::
           && |rows[y]| == width - 1
           && rows[y] == grid[y][..seam[y].1] + grid[y][seam[y].1 + 1..]
           && multiset(rows[y]) + multiset{grid[y][seam[y].1]} == multiset(grid[y])
  {
    KeptRows(grid, width, seam, 0);
  }
}
