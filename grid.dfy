/** The three score grids of the aligner and the values the fill leaves in
    them. A grid has `Width() = |seqA| + 1` columns (x, along sequence A)
    and `Height() = |seqB| + 1` rows (y, along sequence B) and is stored
    flat, cell (x, y) at offset `y * Width() + x`. */
module Grid {
  import opened Scoring

  /** The three score matrices; also the states of the traceback. */
  datatype Matrix = Match | GapA | GapB

  /** What one fill depends on: the two sequences and the scoring. */
  datatype Inputs = Inputs(seqA: seq<char>, seqB: seq<char>, cfg: ScoringConfig)
  {
    function Width(): nat { |seqA| + 1 }

    function Height(): nat { |seqB| + 1 }

    /** Substitution score of the pair that cell (x, y) aligns. */
    function Sub(x: nat, y: nat): int
      requires 1 <= x < Width() && 1 <= y < Height()
    {
      cfg.SubstitutionScore(seqA[x - 1], seqB[y - 1])
    }

    predicate PairMatches(x: nat, y: nat)
      requires 1 <= x < Width() && 1 <= y < Height()
    {
      cfg.IsMatch(seqA[x - 1], seqB[y - 1])
    }

    /** Leading-gap score along row 0 of the gap-in-B matrix. */
    function StartGapB(x: nat): int
    {
      if cfg.noStartGapPenalty then 0 else cfg.gapOpen + x * cfg.gapExtend
    }

    /** Leading-gap score down column 0 of the gap-in-A matrix. The source
        computes it from the column loop's counter left over from the row
        loop, which has reached `Width()`, so every row gets this one value. */
    function StartGapA(): int
    {
      if cfg.noStartGapPenalty then 0 else cfg.gapOpen + Width() * cfg.gapExtend
    }
  }

  function Idx(w: nat, x: nat, y: nat): nat
  {
    y * w + x
  }

  /** The cells that the edge-only passes write: the last column of the
      gap-in-A matrix when gaps in A are forbidden, the last row of the
      gap-in-B matrix when gaps in B are forbidden. */
  predicate IsEdge(inp: Inputs, mat: Matrix, x: nat, y: nat)
  {
    (mat == GapA && inp.cfg.noGapsInA && x == inp.Width() - 1 && y >= 1) ||
    (mat == GapB && inp.cfg.noGapsInB && y == inp.Height() - 1 && x >= 1)
  }

  /** The step of the recurrence: the value the fill gives cell (x, y)
      of matrix `mat` from the values `m`, `a` and `b` of the three
      matrices at that matrix's predecessor cell (diagonal for the match
      matrix, above for gaps in A, to the left for gaps in B). */
  function Recur(inp: Inputs, isSw: bool, mat: Matrix, x: nat, y: nat, m: int, a: int, b: int): int
    requires x < inp.Width() && y < inp.Height()
    requires mat == Match ==> 1 <= x && 1 <= y
  {
    var cfg := inp.cfg;
    var min := Floor(isSw);
    var open := cfg.OpenPenalty();
    var ext := cfg.gapExtend;
    match mat
    case Match =>
      if cfg.noMismatches && !inp.PairMatches(x, y) then min
      else Combine(isSw, m, a, b) + inp.Sub(x, y)
    case GapA =>
      if IsEdge(inp, GapA, x, y) then Combine(isSw, m + open, a + ext, min)
      else if cfg.noGapsInA then min
      else if x == inp.Width() - 1 && cfg.noEndGapPenalty then
        Combine(isSw, m, a, b + (if y == 1 then 0 else open))
      else Combine(isSw, m + open, a + ext, b + open)
    case GapB =>
      if IsEdge(inp, GapB, x, y) then Combine(isSw, m + open, b + ext, min)
      else if cfg.noGapsInB then min
      else if y == inp.Height() - 1 && cfg.noEndGapPenalty then
        Combine(isSw, m, a + (if x == 1 then 0 else open), b)
      else Combine(isSw, m + open, a + open, b + ext)
  }

  /** The value of cell (x, y) of matrix `mat` once the fill is complete:
      row 0 and column 0 as the boundary loops leave them (except where an
      edge-only pass overwrites them), every other cell by the step of the
      recurrence. */
  function Cell(inp: Inputs, isSw: bool, mat: Matrix, x: nat, y: nat): int
    requires x < inp.Width() && y < inp.Height()
    decreases x + y
  {
    var min := Floor(isSw);
    match mat
    case Match =>
      if x == 0 && y == 0 then 0
      else if x == 0 || y == 0 then min
      else Recur(inp, isSw, Match, x, y, Cell(inp, isSw, Match, x - 1, y - 1),
                 Cell(inp, isSw, GapA, x - 1, y - 1), Cell(inp, isSw, GapB, x - 1, y - 1))
    case GapA =>
      if y == 0 then (if x == 0 then 0 else min)
      else if x == 0 && !IsEdge(inp, GapA, x, y) then inp.StartGapA()
      else Recur(inp, isSw, GapA, x, y, Cell(inp, isSw, Match, x, y - 1),
                 Cell(inp, isSw, GapA, x, y - 1), Cell(inp, isSw, GapB, x, y - 1))
    case GapB =>
      if x == 0 then (if y == 0 then 0 else min)
      else if y == 0 && !IsEdge(inp, GapB, x, y) then inp.StartGapB(x)
      else Recur(inp, isSw, GapB, x, y, Cell(inp, isSw, Match, x - 1, y),
                 Cell(inp, isSw, GapA, x - 1, y), Cell(inp, isSw, GapB, x - 1, y))
  }

  /** The cell that cell (x, y) of matrix `mat` is computed from is
      (PrevX, PrevY): diagonally for the match matrix, from above for gaps
      in A, from the left for gaps in B. The traceback steps back the
      same way. */
  function PrevX(mat: Matrix, x: nat): nat
    requires x >= 1
  {
    if mat == GapA then x else x - 1
  }

  function PrevY(mat: Matrix, y: nat): nat
    requires y >= 1
  {
    if mat == GapB then y else y - 1
  }

  /** Away from row 0 and column 0 every cell is the step of the
      recurrence applied to its predecessor's three values. */
  lemma CellRecur(inp: Inputs, isSw: bool, mat: Matrix, x: nat, y: nat)
    requires 1 <= x < inp.Width() && 1 <= y < inp.Height()
    ensures Cell(inp, isSw, mat, x, y) ==
              Recur(inp, isSw, mat, x, y, Cell(inp, isSw, Match, PrevX(mat, x), PrevY(mat, y)),
                    Cell(inp, isSw, GapA, PrevX(mat, x), PrevY(mat, y)),
                    Cell(inp, isSw, GapB, PrevX(mat, x), PrevY(mat, y)))
  {
  }

  /** Row 0 after the fill: zero at the origin, the floor in the match and
      gap-in-A matrices, the leading-gap score in the gap-in-B matrix —
      unless gaps in B are forbidden and row 0 is also the last row, where
      the edge-only pass rewrites it. */
  lemma BoundaryRow(inp: Inputs, isSw: bool, x: nat)
    requires x < inp.Width()
    requires !(inp.cfg.noGapsInB && inp.Height() == 1)
    ensures Cell(inp, isSw, Match, 0, 0) == 0 && Cell(inp, isSw, GapA, 0, 0) == 0 &&
            Cell(inp, isSw, GapB, 0, 0) == 0
    ensures x >= 1 ==> Cell(inp, isSw, Match, x, 0) == Floor(isSw) && Cell(inp, isSw, GapA, x, 0) == Floor(isSw)
    ensures x >= 1 ==>
              Cell(inp, isSw, GapB, x, 0) ==
              (if inp.cfg.noStartGapPenalty then 0 else inp.cfg.gapOpen + x * inp.cfg.gapExtend)
  {
  }

  /** Column 0 after the fill: the floor in the match and gap-in-B
      matrices, and in the gap-in-A matrix one value common to every row,
      the leading-gap score for a gap as long as the grid is wide —
      unless gaps in A are forbidden and column 0 is also the last column. */
  lemma BoundaryColumn(inp: Inputs, isSw: bool, y: nat)
    requires 1 <= y < inp.Height()
    requires !(inp.cfg.noGapsInA && inp.Width() == 1)
    ensures Cell(inp, isSw, Match, 0, y) == Floor(isSw) && Cell(inp, isSw, GapB, 0, y) == Floor(isSw)
    ensures Cell(inp, isSw, GapA, 0, y) == Cell(inp, isSw, GapA, 0, 1)
    ensures Cell(inp, isSw, GapA, 0, y) ==
              (if inp.cfg.noStartGapPenalty then 0 else inp.cfg.gapOpen + inp.Width() * inp.cfg.gapExtend)
  {
  }

  /** With gaps in A forbidden, the gap-in-A matrix holds the floor
      everywhere below row 0 except in column 0 and the last column. */
  lemma NoGapsInAFloor(inp: Inputs, isSw: bool, x: nat, y: nat)
    requires inp.cfg.noGapsInA
    requires 1 <= x < inp.Width() - 1 && 1 <= y < inp.Height()
    ensures Cell(inp, isSw, GapA, x, y) == Floor(isSw)
  {
  }

  /** With gaps in B forbidden, the gap-in-B matrix holds the floor
      everywhere right of column 0 except in row 0 and the last row. */
  lemma NoGapsInBFloor(inp: Inputs, isSw: bool, x: nat, y: nat)
    requires inp.cfg.noGapsInB
    requires 1 <= x < inp.Width() && 1 <= y < inp.Height() - 1
    ensures Cell(inp, isSw, GapB, x, y) == Floor(isSw)
  {
  }

  /** The value of a cell while the edge-only passes are under way: the
      edge cells of the gap-in-A matrix below row `doneA`, and those of the
      gap-in-B matrix right of column `doneB`, still hold what the boundary
      loops and the initial clearing left in them. */
  function Staged(inp: Inputs, isSw: bool, mat: Matrix, x: nat, y: nat, doneA: nat, doneB: nat): int
    requires x < inp.Width() && y < inp.Height()
  {
    if IsEdge(inp, mat, x, y) && mat == GapA && y >= doneA then
      (if x == 0 then inp.StartGapA() else Floor(isSw))
    else if IsEdge(inp, mat, x, y) && mat == GapB && x >= doneB then
      (if y == 0 then inp.StartGapB(x) else Floor(isSw))
    else Cell(inp, isSw, mat, x, y)
  }

  /** `s` holds `v` at cell (x, y) of a grid of width `w`. */
  predicate At(s: seq<int>, w: nat, x: nat, y: nat, v: int)
  {
    Idx(w, x, y) < |s| && s[Idx(w, x, y)] == v
  }

  /** The three flat buffers hold the completed fill of `inp`. */
  predicate Filled(inp: Inputs, isSw: bool, m: seq<int>, a: seq<int>, b: seq<int>)
  {
    forall x: nat, y: nat | x < inp.Width() && y < inp.Height() ::
      At(m, inp.Width(), x, y, Cell(inp, isSw, Match, x, y)) &&
      At(a, inp.Width(), x, y, Cell(inp, isSw, GapA, x, y)) &&
      At(b, inp.Width(), x, y, Cell(inp, isSw, GapB, x, y))
  }

  /** Every cell holds its staged value for the given progress of the
      edge-only passes. */
  predicate StagedAll(inp: Inputs, isSw: bool, m: seq<int>, a: seq<int>, b: seq<int>, doneA: nat, doneB: nat)
  {
    forall x: nat, y: nat | x < inp.Width() && y < inp.Height() ::
      At(m, inp.Width(), x, y, Staged(inp, isSw, Match, x, y, doneA, doneB)) &&
      At(a, inp.Width(), x, y, Staged(inp, isSw, GapA, x, y, doneA, doneB)) &&
      At(b, inp.Width(), x, y, Staged(inp, isSw, GapB, x, y, doneA, doneB))
  }

  /** Cell (x', y') is on the boundary or precedes cell (x, y) in the
      column-by-column order of the interior loops. */
  predicate Done(x': nat, y': nat, x: nat, y: nat)
  {
    x' == 0 || y' == 0 || x' < x || (x' == x && y' < y)
  }

  /** The state of the interior loops before they reach cell (x, y): every
      cell done so far holds its value before the edge-only passes, and
      where gaps in A (in B) are forbidden every interior cell of that gap
      matrix still holds the floor from the initial clearing. */
  predicate Partial(inp: Inputs, isSw: bool, m: seq<int>, a: seq<int>, b: seq<int>, x: nat, y: nat)
  {
    (forall x': nat, y': nat | x' < inp.Width() && y' < inp.Height() && Done(x', y', x, y) ::
       At(m, inp.Width(), x', y', Staged(inp, isSw, Match, x', y', 1, 1)) &&
       At(a, inp.Width(), x', y', Staged(inp, isSw, GapA, x', y', 1, 1)) &&
       At(b, inp.Width(), x', y', Staged(inp, isSw, GapB, x', y', 1, 1))) &&
    (inp.cfg.noGapsInA ==>
       forall x': nat, y': nat | 1 <= x' < inp.Width() && 1 <= y' < inp.Height() ::
         At(a, inp.Width(), x', y', Floor(isSw))) &&
    (inp.cfg.noGapsInB ==>
       forall x': nat, y': nat | 1 <= x' < inp.Width() && 1 <= y' < inp.Height() ::
         At(b, inp.Width(), x', y', Floor(isSw)))
  }

  /** Cells (x, 0) with x < i hold their staged values. */
  predicate RowDone(inp: Inputs, isSw: bool, m: seq<int>, a: seq<int>, b: seq<int>, i: nat)
  {
    forall x: nat | x < i && x < inp.Width() ::
      At(m, inp.Width(), x, 0, Staged(inp, isSw, Match, x, 0, 1, 1)) &&
      At(a, inp.Width(), x, 0, Staged(inp, isSw, GapA, x, 0, 1, 1)) &&
      At(b, inp.Width(), x, 0, Staged(inp, isSw, GapB, x, 0, 1, 1))
  }

  /** Cells (0, y) with 1 <= y < j hold their staged values. */
  predicate ColumnDone(inp: Inputs, isSw: bool, m: seq<int>, a: seq<int>, b: seq<int>, j: nat)
  {
    forall y: nat | 1 <= y < j && y < inp.Height() ::
      At(m, inp.Width(), 0, y, Staged(inp, isSw, Match, 0, y, 1, 1)) &&
      At(a, inp.Width(), 0, y, Staged(inp, isSw, GapA, 0, y, 1, 1)) &&
      At(b, inp.Width(), 0, y, Staged(inp, isSw, GapB, 0, y, 1, 1))
  }

  /** Every interior cell of `s` holds the floor. */
  predicate InteriorFloor(inp: Inputs, isSw: bool, s: seq<int>)
  {
    forall x: nat, y: nat | 1 <= x < inp.Width() && 1 <= y < inp.Height() ::
      At(s, inp.Width(), x, y, Floor(isSw))
  }

  /** One step of the row loop: writing cell (i, 0) keeps the cells to its
      left and the flat clearing of the rows below. */
  lemma RowStep(inp: Inputs, isSw: bool, m: seq<int>, a: seq<int>, b: seq<int>, i: nat)
    requires 1 <= i < inp.Width()
    requires inp.Width() * inp.Height() <= |m| && inp.Width() * inp.Height() <= |a|
    requires inp.Width() * inp.Height() <= |b|
    requires RowDone(inp, isSw, m, a, b, i)
    ensures var m' := m[i := Floor(isSw)];
            var a' := a[i := Floor(isSw)];
            var b' := b[i := inp.StartGapB(i)];
            RowDone(inp, isSw, m', a', b', i + 1)
  {
    var w := inp.Width();
    IdxInRange(w, inp.Height(), i, 0);
    assert Idx(w, i, 0) == i;
    var m', a', b' := m[i := Floor(isSw)], a[i := Floor(isSw)], b[i := inp.StartGapB(i)];
    forall x: nat | x < i + 1 && x < w
      ensures At(m', w, x, 0, Staged(inp, isSw, Match, x, 0, 1, 1))
      ensures At(a', w, x, 0, Staged(inp, isSw, GapA, x, 0, 1, 1))
      ensures At(b', w, x, 0, Staged(inp, isSw, GapB, x, 0, 1, 1))
    {
      assert Idx(w, x, 0) == x;
    }
  }

  /** The flat form of the initial clearing gives its cell form. */
  lemma InteriorFloorFromFlat(inp: Inputs, isSw: bool, s: seq<int>)
    requires inp.Width() * inp.Height() <= |s|
    requires forall t :: inp.Width() <= t < inp.Width() * inp.Height() ==> s[t] == Floor(isSw)
    ensures InteriorFloor(inp, isSw, s)
  {
    forall x: nat, y: nat | 1 <= x < inp.Width() && 1 <= y < inp.Height()
      ensures At(s, inp.Width(), x, y, Floor(isSw))
    {
      IdxInRange(inp.Width(), inp.Height(), x, y);
      IdxRowStart(inp.Width(), x, y);
    }
  }

  /** One step of the column loop: writing cell (0, j) keeps everything
      already established. */
  lemma ColumnStep(inp: Inputs, isSw: bool, m: seq<int>, a: seq<int>, b: seq<int>, j: nat)
    requires 1 <= j < inp.Height()
    requires inp.Width() * inp.Height() <= |m| && inp.Width() * inp.Height() <= |a|
    requires inp.Width() * inp.Height() <= |b|
    requires RowDone(inp, isSw, m, a, b, inp.Width()) && ColumnDone(inp, isSw, m, a, b, j)
    requires inp.cfg.noGapsInA ==> InteriorFloor(inp, isSw, a)
    requires inp.cfg.noGapsInB ==> InteriorFloor(inp, isSw, b)
    ensures Idx(inp.Width(), 0, j) < inp.Width() * inp.Height()
    ensures var k := Idx(inp.Width(), 0, j);
            var m' := m[k := Staged(inp, isSw, Match, 0, j, 1, 1)];
            var a' := a[k := Staged(inp, isSw, GapA, 0, j, 1, 1)];
            var b' := b[k := Staged(inp, isSw, GapB, 0, j, 1, 1)];
            RowDone(inp, isSw, m', a', b', inp.Width()) && ColumnDone(inp, isSw, m', a', b', j + 1) &&
            (inp.cfg.noGapsInA ==> InteriorFloor(inp, isSw, a')) &&
            (inp.cfg.noGapsInB ==> InteriorFloor(inp, isSw, b'))
  {
    var w := inp.Width();
    IdxInRange(w, inp.Height(), 0, j);
    var k := Idx(w, 0, j);
    var vm, va, vb := Staged(inp, isSw, Match, 0, j, 1, 1), Staged(inp, isSw, GapA, 0, j, 1, 1),
                      Staged(inp, isSw, GapB, 0, j, 1, 1);
    var m', a', b' := m[k := vm], a[k := va], b[k := vb];
    forall x: nat | x < w
      ensures At(m', w, x, 0, Staged(inp, isSw, Match, x, 0, 1, 1))
      ensures At(a', w, x, 0, Staged(inp, isSw, GapA, x, 0, 1, 1))
      ensures At(b', w, x, 0, Staged(inp, isSw, GapB, x, 0, 1, 1))
    {
      UpdateKeeps(m, w, 0, j, vm, x, 0, Staged(inp, isSw, Match, x, 0, 1, 1));
      UpdateKeeps(a, w, 0, j, va, x, 0, Staged(inp, isSw, GapA, x, 0, 1, 1));
      UpdateKeeps(b, w, 0, j, vb, x, 0, Staged(inp, isSw, GapB, x, 0, 1, 1));
    }
    forall y: nat | 1 <= y < j
      ensures At(m', w, 0, y, Staged(inp, isSw, Match, 0, y, 1, 1))
      ensures At(a', w, 0, y, Staged(inp, isSw, GapA, 0, y, 1, 1))
      ensures At(b', w, 0, y, Staged(inp, isSw, GapB, 0, y, 1, 1))
    {
      UpdateKeeps(m, w, 0, j, vm, 0, y, Staged(inp, isSw, Match, 0, y, 1, 1));
      UpdateKeeps(a, w, 0, j, va, 0, y, Staged(inp, isSw, GapA, 0, y, 1, 1));
      UpdateKeeps(b, w, 0, j, vb, 0, y, Staged(inp, isSw, GapB, 0, y, 1, 1));
    }
    forall x: nat, y: nat | 1 <= x < w && 1 <= y < inp.Height()
      ensures inp.cfg.noGapsInA ==> At(a', w, x, y, Floor(isSw))
      ensures inp.cfg.noGapsInB ==> At(b', w, x, y, Floor(isSw))
    {
      if inp.cfg.noGapsInA { UpdateKeeps(a, w, 0, j, va, x, y, Floor(isSw)); }
      if inp.cfg.noGapsInB { UpdateKeeps(b, w, 0, j, vb, x, y, Floor(isSw)); }
    }
  }

  /** The values the column loop writes into cell (0, j). */
  lemma ColumnValues(inp: Inputs, isSw: bool, j: nat)
    requires 1 <= j < inp.Height()
    ensures Staged(inp, isSw, Match, 0, j, 1, 1) == Floor(isSw)
    ensures Staged(inp, isSw, GapA, 0, j, 1, 1) == inp.StartGapA()
    ensures Staged(inp, isSw, GapB, 0, j, 1, 1) == Floor(isSw)
  {
  }

  /** Once row 0 and column 0 are written, the interior loops can start. */
  lemma BoundaryGivesPartial(inp: Inputs, isSw: bool, m: seq<int>, a: seq<int>, b: seq<int>)
    requires RowDone(inp, isSw, m, a, b, inp.Width()) && ColumnDone(inp, isSw, m, a, b, inp.Height())
    requires inp.cfg.noGapsInA ==> InteriorFloor(inp, isSw, a)
    requires inp.cfg.noGapsInB ==> InteriorFloor(inp, isSw, b)
    ensures Partial(inp, isSw, m, a, b, 1, 1)
  {
  }

  /** Before cell (x, y) of the interior is written, the cells its
      recurrence reads already hold their final values: the diagonal
      predecessor, read by the match grid, ... */
  lemma PredecessorDiagonal(inp: Inputs, isSw: bool, m: seq<int>, a: seq<int>, b: seq<int>, x: nat, y: nat)
    requires 1 <= x < inp.Width() && 1 <= y < inp.Height()
    requires Partial(inp, isSw, m, a, b, x, y)
    ensures At(m, inp.Width(), x - 1, y - 1, Cell(inp, isSw, Match, x - 1, y - 1))
    ensures At(a, inp.Width(), x - 1, y - 1, Cell(inp, isSw, GapA, x - 1, y - 1))
    ensures At(b, inp.Width(), x - 1, y - 1, Cell(inp, isSw, GapB, x - 1, y - 1))
  {
    assert Done(x - 1, y - 1, x, y);
  }

  /** ... the cell above, read by the gap-in-A grid, ... */
  lemma PredecessorAbove(inp: Inputs, isSw: bool, m: seq<int>, a: seq<int>, b: seq<int>, x: nat, y: nat)
    requires 1 <= x < inp.Width() && 1 <= y < inp.Height() && !inp.cfg.noGapsInA
    requires Partial(inp, isSw, m, a, b, x, y)
    ensures At(m, inp.Width(), x, y - 1, Cell(inp, isSw, Match, x, y - 1))
    ensures At(a, inp.Width(), x, y - 1, Cell(inp, isSw, GapA, x, y - 1))
    ensures At(b, inp.Width(), x, y - 1, Cell(inp, isSw, GapB, x, y - 1))
  {
    assert Done(x, y - 1, x, y);
  }

  /** ... and the cell to the left, read by the gap-in-B grid. */
  lemma PredecessorLeft(inp: Inputs, isSw: bool, m: seq<int>, a: seq<int>, b: seq<int>, x: nat, y: nat)
    requires 1 <= x < inp.Width() && 1 <= y < inp.Height() && !inp.cfg.noGapsInB
    requires Partial(inp, isSw, m, a, b, x, y)
    ensures At(m, inp.Width(), x - 1, y, Cell(inp, isSw, Match, x - 1, y))
    ensures At(a, inp.Width(), x - 1, y, Cell(inp, isSw, GapA, x - 1, y))
    ensures At(b, inp.Width(), x - 1, y, Cell(inp, isSw, GapB, x - 1, y))
  {
    assert Done(x - 1, y, x, y);
  }

  /** The cells of one grid that the interior loops have finished before
      reaching cell (x, y) hold their values before the edge-only passes. */
  predicate GridDone(inp: Inputs, isSw: bool, s: seq<int>, mat: Matrix, x: nat, y: nat)
  {
    forall x': nat, y': nat | x' < inp.Width() && y' < inp.Height() && Done(x', y', x, y) ::
      At(s, inp.Width(), x', y', Staged(inp, isSw, mat, x', y', 1, 1))
  }

  /** Writing the staged value of cell (x, y) into one grid extends its
      finished part past that cell. */
  lemma GridStep(inp: Inputs, isSw: bool, s: seq<int>, mat: Matrix, x: nat, y: nat, v: int)
    requires 1 <= x < inp.Width() && 1 <= y < inp.Height() && inp.Width() * inp.Height() <= |s|
    requires GridDone(inp, isSw, s, mat, x, y)
    requires v == Staged(inp, isSw, mat, x, y, 1, 1)
    ensures Idx(inp.Width(), x, y) < |s|
    ensures GridDone(inp, isSw, s[Idx(inp.Width(), x, y) := v], mat, x, y + 1)
  {
    var w, h := inp.Width(), inp.Height();
    IdxInRange(w, h, x, y);
    var s' := s[Idx(w, x, y) := v];
    forall x': nat, y': nat | x' < w && y' < h && Done(x', y', x, y + 1)
      ensures At(s', w, x', y', Staged(inp, isSw, mat, x', y', 1, 1))
    {
      if (x', y') != (x, y) {
        assert Done(x', y', x, y);
        UpdateKeeps(s, w, x, y, v, x', y', Staged(inp, isSw, mat, x', y', 1, 1));
      }
    }
  }

  /** One step of the interior loops: cell (x, y) receives its final value
      in the match grid, and in each gap grid whose gaps are allowed. */
  lemma InteriorStep(inp: Inputs, isSw: bool, m: seq<int>, a: seq<int>, b: seq<int>, x: nat, y: nat)
    requires 1 <= x < inp.Width() && 1 <= y < inp.Height()
    requires inp.Width() * inp.Height() <= |m| && inp.Width() * inp.Height() <= |a|
    requires inp.Width() * inp.Height() <= |b|
    requires Partial(inp, isSw, m, a, b, x, y)
    ensures Idx(inp.Width(), x, y) < inp.Width() * inp.Height()
    ensures var k := Idx(inp.Width(), x, y);
            var m' := m[k := Cell(inp, isSw, Match, x, y)];
            var a' := if inp.cfg.noGapsInA then a else a[k := Cell(inp, isSw, GapA, x, y)];
            var b' := if inp.cfg.noGapsInB then b else b[k := Cell(inp, isSw, GapB, x, y)];
            Partial(inp, isSw, m', a', b', x, y + 1)
  {
    var w, h := inp.Width(), inp.Height();
    IdxInRange(w, h, x, y);
    var k := Idx(w, x, y);
    assert GridDone(inp, isSw, m, Match, x, y) && GridDone(inp, isSw, a, GapA, x, y) &&
           GridDone(inp, isSw, b, GapB, x, y);
    GridStep(inp, isSw, m, Match, x, y, Cell(inp, isSw, Match, x, y));
    if inp.cfg.noGapsInA {
      assert At(a, w, x, y, Floor(isSw));
      if x < w - 1 {
        NoGapsInAFloor(inp, isSw, x, y);
      }
      assert a[k := a[k]] == a;
      GridStep(inp, isSw, a, GapA, x, y, a[k]);
    } else {
      GridStep(inp, isSw, a, GapA, x, y, Cell(inp, isSw, GapA, x, y));
    }
    if inp.cfg.noGapsInB {
      assert At(b, w, x, y, Floor(isSw));
      if y < h - 1 {
        NoGapsInBFloor(inp, isSw, x, y);
      }
      assert b[k := b[k]] == b;
      GridStep(inp, isSw, b, GapB, x, y, b[k]);
    } else {
      GridStep(inp, isSw, b, GapB, x, y, Cell(inp, isSw, GapB, x, y));
    }
  }

  /** Finishing column x of the interior is starting column x + 1. */
  lemma NextColumn(inp: Inputs, isSw: bool, m: seq<int>, a: seq<int>, b: seq<int>, x: nat)
    requires Partial(inp, isSw, m, a, b, x, inp.Height())
    ensures Partial(inp, isSw, m, a, b, x + 1, 1)
  {
    forall x': nat, y': nat | x' < inp.Width() && y' < inp.Height() && Done(x', y', x + 1, 1)
      ensures Done(x', y', x, inp.Height())
    {
    }
  }

  /** When the interior loops are through, every cell holds its value
      before the edge-only passes. */
  lemma PartialComplete(inp: Inputs, isSw: bool, m: seq<int>, a: seq<int>, b: seq<int>)
    requires Partial(inp, isSw, m, a, b, inp.Width(), 1)
    ensures StagedAll(inp, isSw, m, a, b, 1, 1)
  {
    forall x: nat, y: nat | x < inp.Width() && y < inp.Height()
      ensures Done(x, y, inp.Width(), 1)
    {
    }
  }

  /** Progress of the edge passes only concerns the edge cells. */
  lemma StagedMove(inp: Inputs, isSw: bool, m: seq<int>, a: seq<int>, b: seq<int>,
                   doneA: nat, doneB: nat, doneA': nat, doneB': nat)
    requires StagedAll(inp, isSw, m, a, b, doneA, doneB)
    requires inp.cfg.noGapsInA ==> doneA' == doneA
    requires inp.cfg.noGapsInB ==> doneB' == doneB
    ensures StagedAll(inp, isSw, m, a, b, doneA', doneB')
  {
    forall x: nat, y: nat, mat: Matrix | x < inp.Width() && y < inp.Height()
      ensures Staged(inp, isSw, mat, x, y, doneA', doneB') == Staged(inp, isSw, mat, x, y, doneA, doneB)
    {
    }
  }

  /** One step of the gap-in-A edge pass: cell (Width() - 1, y) of the
      gap-in-A grid receives its final value, read from the cell above. */
  lemma EdgeAStep(inp: Inputs, isSw: bool, m: seq<int>, a: seq<int>, b: seq<int>, y: nat)
    requires inp.cfg.noGapsInA && 1 <= y < inp.Height()
    requires inp.Width() * inp.Height() <= |a|
    requires StagedAll(inp, isSw, m, a, b, y, 1)
    ensures At(m, inp.Width(), inp.Width() - 1, y - 1, Cell(inp, isSw, Match, inp.Width() - 1, y - 1))
    ensures At(a, inp.Width(), inp.Width() - 1, y - 1, Cell(inp, isSw, GapA, inp.Width() - 1, y - 1))
    ensures Cell(inp, isSw, GapA, inp.Width() - 1, y) ==
              Combine(isSw, Cell(inp, isSw, Match, inp.Width() - 1, y - 1) + inp.cfg.OpenPenalty(),
                            Cell(inp, isSw, GapA, inp.Width() - 1, y - 1) + inp.cfg.gapExtend,
                            Floor(isSw))
    ensures Idx(inp.Width(), inp.Width() - 1, y) < inp.Width() * inp.Height()
    ensures StagedAll(inp, isSw, m,
                      a[Idx(inp.Width(), inp.Width() - 1, y) := Cell(inp, isSw, GapA, inp.Width() - 1, y)],
                      b, y + 1, 1)
  {
    var w, h := inp.Width(), inp.Height();
    assert IsEdge(inp, GapA, w - 1, y);
    assert At(m, w, w - 1, y - 1, Staged(inp, isSw, Match, w - 1, y - 1, y, 1));
    assert At(a, w, w - 1, y - 1, Staged(inp, isSw, GapA, w - 1, y - 1, y, 1));
    IdxInRange(w, h, w - 1, y);
    var k := Idx(w, w - 1, y);
    var v := Cell(inp, isSw, GapA, w - 1, y);
    var a' := a[k := v];
    var next := y + 1;
    forall x': nat, y': nat | x' < w && y' < h
      ensures At(m, w, x', y', Staged(inp, isSw, Match, x', y', next, 1))
      ensures At(a', w, x', y', Staged(inp, isSw, GapA, x', y', next, 1))
      ensures At(b, w, x', y', Staged(inp, isSw, GapB, x', y', next, 1))
    {
      assert At(m, w, x', y', Staged(inp, isSw, Match, x', y', y, 1));
      assert At(b, w, x', y', Staged(inp, isSw, GapB, x', y', y, 1));
      if (x', y') != (w - 1, y) {
        UpdateKeeps(a, w, w - 1, y, v, x', y', Staged(inp, isSw, GapA, x', y', y, 1));
      }
    }
  }

  /** One step of the gap-in-B edge pass: cell (x, Height() - 1) of the
      gap-in-B grid receives its final value, read from the cell to the
      left. */
  lemma EdgeBStep(inp: Inputs, isSw: bool, m: seq<int>, a: seq<int>, b: seq<int>, x: nat)
    requires inp.cfg.noGapsInB && 1 <= x < inp.Width()
    requires inp.Width() * inp.Height() <= |b|
    requires StagedAll(inp, isSw, m, a, b, inp.Height(), x)
    ensures At(m, inp.Width(), x - 1, inp.Height() - 1, Cell(inp, isSw, Match, x - 1, inp.Height() - 1))
    ensures At(b, inp.Width(), x - 1, inp.Height() - 1, Cell(inp, isSw, GapB, x - 1, inp.Height() - 1))
    ensures Cell(inp, isSw, GapB, x, inp.Height() - 1) ==
              Combine(isSw, Cell(inp, isSw, Match, x - 1, inp.Height() - 1) + inp.cfg.OpenPenalty(),
                            Cell(inp, isSw, GapB, x - 1, inp.Height() - 1) + inp.cfg.gapExtend,
                            Floor(isSw))
    ensures Idx(inp.Width(), x, inp.Height() - 1) < inp.Width() * inp.Height()
    ensures StagedAll(inp, isSw, m, a,
                      b[Idx(inp.Width(), x, inp.Height() - 1) := Cell(inp, isSw, GapB, x, inp.Height() - 1)],
                      inp.Height(), x + 1)
  {
    var w, h := inp.Width(), inp.Height();
    assert IsEdge(inp, GapB, x, h - 1);
    assert At(m, w, x - 1, h - 1, Staged(inp, isSw, Match, x - 1, h - 1, h, x));
    assert At(b, w, x - 1, h - 1, Staged(inp, isSw, GapB, x - 1, h - 1, h, x));
    IdxInRange(w, h, x, h - 1);
    var k := Idx(w, x, h - 1);
    var v := Cell(inp, isSw, GapB, x, h - 1);
    var b' := b[k := v];
    var next := x + 1;
    forall x': nat, y': nat | x' < w && y' < h
      ensures At(m, w, x', y', Staged(inp, isSw, Match, x', y', h, next))
      ensures At(a, w, x', y', Staged(inp, isSw, GapA, x', y', h, next))
      ensures At(b', w, x', y', Staged(inp, isSw, GapB, x', y', h, next))
    {
      assert At(m, w, x', y', Staged(inp, isSw, Match, x', y', h, x));
      assert At(a, w, x', y', Staged(inp, isSw, GapA, x', y', h, x));
      if (x', y') != (x, h - 1) {
        UpdateKeeps(b, w, x, h - 1, v, x', y', Staged(inp, isSw, GapB, x', y', h, x));
      }
    }
  }

  /** With both edge passes through, every cell holds its final value. */
  lemma StagedFinal(inp: Inputs, isSw: bool, m: seq<int>, a: seq<int>, b: seq<int>)
    requires StagedAll(inp, isSw, m, a, b, inp.Height(), inp.Width())
    ensures Filled(inp, isSw, m, a, b)
  {
    forall x: nat, y: nat | x < inp.Width() && y < inp.Height()
      ensures At(m, inp.Width(), x, y, Cell(inp, isSw, Match, x, y))
      ensures At(a, inp.Width(), x, y, Cell(inp, isSw, GapA, x, y))
      ensures At(b, inp.Width(), x, y, Cell(inp, isSw, GapB, x, y))
    {
      assert At(m, inp.Width(), x, y, Staged(inp, isSw, Match, x, y, inp.Height(), inp.Width()));
      assert At(a, inp.Width(), x, y, Staged(inp, isSw, GapA, x, y, inp.Height(), inp.Width()));
      assert At(b, inp.Width(), x, y, Staged(inp, isSw, GapB, x, y, inp.Height(), inp.Width()));
    }
  }

  /** Writing one slot leaves every other cell as it was. */
  lemma UpdateKeeps(s: seq<int>, w: nat, x: nat, y: nat, v: int, x': nat, y': nat, u: int)
    requires x < w && x' < w && (x, y) != (x', y')
    requires Idx(w, x, y) < |s| && At(s, w, x', y', u)
    ensures At(s[Idx(w, x, y) := v], w, x', y', u)
  {
    if Idx(w, x, y) == Idx(w, x', y') {
      IdxInjective(w, x, y, x', y');
    }
  }

  lemma IdxRowStart(w: nat, x: nat, y: nat)
    requires y >= 1
    ensures Idx(w, x, y) >= w
  {
    MulMono(1, y, w);
  }

  /** Every cell of a `w` by `h` grid lies inside the first `w * h` slots,
      and distinct cells lie at distinct offsets. */
  lemma IdxInRange(w: nat, h: nat, x: nat, y: nat)
    requires x < w && y < h
    ensures Idx(w, x, y) < w * h
  {
    calc {
      Idx(w, x, y);
    <  y * w + w;
    == (y + 1) * w;
    <= { MulMono(y + 1, h, w); }
      h * w;
    }
  }

  lemma MulMono(a: nat, b: nat, c: nat)
    requires a <= b
    ensures a * c <= b * c
  {
  }

  lemma IdxInjective(w: nat, x: nat, y: nat, x': nat, y': nat)
    requires x < w && x' < w
    requires Idx(w, x, y) == Idx(w, x', y')
    ensures x == x' && y == y'
  {
    if y < y' {
      MulMono(y + 1, y', w);
      assert false;
    } else if y' < y {
      MulMono(y' + 1, y, w);
      assert false;
    }
  }
}
