/** One step of the traceback through the filled grids: from a state
    (matrix, score, cell) back to the cell the score was derived from.
    This module holds the rules the step follows, as the reverse move
    writes them, and the terms the fill actually used, against which the
    step can be judged. */
module Traceback {
  import opened Scoring
  import opened Grid

  datatype Option<T> = None | Some(value: T)

  /** The outcome of one reverse move: the new state and the offset of
      its cell, or the failure the source reports and exits on. */
  datatype Step = Moved(matrix: Matrix, score: int, x: nat, y: nat, index: nat) | TracebackFail

  /** Rank of a candidate matrix in the order the reverse move tries them. */
  function Rank(mat: Matrix): nat
  {
    match mat
    case GapA => 0
    case GapB => 1
    case Match => 2
  }

  /** The buffer of matrix `mat`. */
  function Buffer(m: seq<int>, a: seq<int>, b: seq<int>, mat: Matrix): seq<int>
  {
    match mat
    case Match => m
    case GapA => a
    case GapB => b
  }

  /** The penalty the reverse move assumes between predecessor matrix
      `from` and a state `curr` at (x, y): the substitution score for a
      match state, open or extend for a gap state, both zero when end gaps
      are free and (x, y) lies in the last column or the last row. */
  function StepPenalty(inp: Inputs, curr: Matrix, from: Matrix, x: nat, y: nat): int
    requires 1 <= x < inp.Width() && 1 <= y < inp.Height()
  {
    var waived := inp.cfg.noEndGapPenalty && (x == inp.Width() - 1 || y == inp.Height() - 1);
    var open := if waived then 0 else inp.cfg.OpenPenalty();
    var ext := if waived then 0 else inp.cfg.gapExtend;
    match curr
    case Match => inp.Sub(x, y)
    case GapA => if from == GapA then ext else open
    case GapB => if from == GapB then ext else open
  }

  /** Whether the reverse move considers predecessor matrix `from` at the
      new cell (px, py) at all: gap matrices whose gaps are forbidden only
      on their first and last column (row), the match matrix only when
      mismatches are allowed or the pair at the CURRENT cell (x, y) is a
      match. */
  predicate Gate(inp: Inputs, from: Matrix, x: nat, y: nat, px: nat, py: nat)
    requires 1 <= x < inp.Width() && 1 <= y < inp.Height()
  {
    match from
    case GapA => !inp.cfg.noGapsInA || px == 0 || px == inp.Width() - 1
    case GapB => !inp.cfg.noGapsInB || py == 0 || py == inp.Height() - 1
    case Match => !inp.cfg.noMismatches || inp.PairMatches(x, y)
  }

  /** The grids are large enough for the inputs. */
  predicate Fits(inp: Inputs, m: seq<int>, a: seq<int>, b: seq<int>)
  {
    inp.Width() * inp.Height() <= |m| && inp.Width() * inp.Height() <= |a| &&
    inp.Width() * inp.Height() <= |b|
  }

  /** `from` is a predecessor the reverse move accepts for the state
      (curr, score) at (x, y): it passes the gate, and its value at the
      predecessor cell plus the step penalty is the score. */
  predicate Candidate(inp: Inputs, m: seq<int>, a: seq<int>, b: seq<int>,
                      curr: Matrix, score: int, x: nat, y: nat, from: Matrix)
    requires 1 <= x < inp.Width() && 1 <= y < inp.Height() && Fits(inp, m, a, b)
  {
    var px, py := PrevX(curr, x), PrevY(curr, y);
    IdxInRange(inp.Width(), inp.Height(), px, py);
    Gate(inp, from, x, y, px, py) &&
    Buffer(m, a, b, from)[Idx(inp.Width(), px, py)] + StepPenalty(inp, curr, from, x, y) == score
  }

  /** The term the fill added to predecessor matrix `from` when it
      computed cell (x, y) of matrix `curr`, or None when that
      predecessor took no part in it (the cell was set to the floor, or
      the predecessor is replaced by the floor constant). */
  function FillTerm(inp: Inputs, curr: Matrix, from: Matrix, x: nat, y: nat): Option<int>
    requires 1 <= x < inp.Width() && 1 <= y < inp.Height()
  {
    var cfg := inp.cfg;
    var open := cfg.OpenPenalty();
    var ext := cfg.gapExtend;
    match curr
    case Match =>
      if cfg.noMismatches && !inp.PairMatches(x, y) then None else Some(inp.Sub(x, y))
    case GapA =>
      if IsEdge(inp, GapA, x, y) then
        (if from == Match then Some(open) else if from == GapA then Some(ext) else None)
      else if cfg.noGapsInA then None
      else if x == inp.Width() - 1 && cfg.noEndGapPenalty then
        (if from == GapB && y != 1 then Some(open) else Some(0))
      else if from == GapA then Some(ext) else Some(open)
    case GapB =>
      if IsEdge(inp, GapB, x, y) then
        (if from == Match then Some(open) else if from == GapB then Some(ext) else None)
      else if cfg.noGapsInB then None
      else if y == inp.Height() - 1 && cfg.noEndGapPenalty then
        (if from == GapA && x != 1 then Some(open) else Some(0))
      else if from == GapB then Some(ext) else Some(open)
  }

  /** `from` is a predecessor consistent with the fill: the fill used it
      for this cell, and its value plus the term the fill added is the
      score. */
  predicate FillCandidate(inp: Inputs, m: seq<int>, a: seq<int>, b: seq<int>,
                          curr: Matrix, score: int, x: nat, y: nat, from: Matrix)
    requires 1 <= x < inp.Width() && 1 <= y < inp.Height() && Fits(inp, m, a, b)
  {
    var px, py := PrevX(curr, x), PrevY(curr, y);
    IdxInRange(inp.Width(), inp.Height(), px, py);
    var term := FillTerm(inp, curr, from, x, y);
    term.Some? && Buffer(m, a, b, from)[Idx(inp.Width(), px, py)] + term.value == score
  }

  /** The cell was computed from its predecessors rather than set to the
      floor outright. */
  predicate Computed(inp: Inputs, curr: Matrix, x: nat, y: nat)
    requires 1 <= x < inp.Width() && 1 <= y < inp.Height()
  {
    FillTerm(inp, curr, curr, x, y).Some?
  }

  /** The value a computed cell takes when no predecessor is reached: the
      floor, plus the substitution score for a match cell. */
  function Base(inp: Inputs, isSw: bool, curr: Matrix, x: nat, y: nat): int
    requires 1 <= x < inp.Width() && 1 <= y < inp.Height()
  {
    if curr == Match then Floor(isSw) + inp.Sub(x, y) else Floor(isSw)
  }

  /** The value of matrix `mat` among the three values of one cell. */
  function Choose(mat: Matrix, m: int, a: int, b: int): int
  {
    match mat
    case Match => m
    case GapA => a
    case GapB => b
  }

  /** The term of predecessor matrix `from`, added to its value among
      `m`, `a` and `b`, is at most `r`. */
  predicate TermBound(inp: Inputs, curr: Matrix, from: Matrix, x: nat, y: nat, m: int, a: int, b: int, r: int)
    requires 1 <= x < inp.Width() && 1 <= y < inp.Height()
  {
    FillTerm(inp, curr, from, x, y).Some? ==> Choose(from, m, a, b) + FillTerm(inp, curr, from, x, y).value <= r
  }

  /** The term of predecessor matrix `from`, added to its value among
      `m`, `a` and `b`, is `r`. */
  predicate TermReaches(inp: Inputs, curr: Matrix, from: Matrix, x: nat, y: nat, m: int, a: int, b: int, r: int)
    requires 1 <= x < inp.Width() && 1 <= y < inp.Height()
  {
    FillTerm(inp, curr, from, x, y).Some? && Choose(from, m, a, b) + FillTerm(inp, curr, from, x, y).value == r
  }

  /** The terms are those of the recurrence step: every term the step
      uses, added to its predecessor value, is at most the step's result,
      and unless the result is the base value some term reaches it. */
  lemma RecurTerms(inp: Inputs, isSw: bool, curr: Matrix, x: nat, y: nat, m: int, a: int, b: int)
    requires 1 <= x < inp.Width() && 1 <= y < inp.Height()
    ensures var r := Recur(inp, isSw, curr, x, y, m, a, b);
            TermBound(inp, curr, Match, x, y, m, a, b, r) && TermBound(inp, curr, GapA, x, y, m, a, b, r) &&
            TermBound(inp, curr, GapB, x, y, m, a, b, r)
    ensures var r := Recur(inp, isSw, curr, x, y, m, a, b);
            Computed(inp, curr, x, y) && r != Base(inp, isSw, curr, x, y) ==>
              TermReaches(inp, curr, Match, x, y, m, a, b, r) || TermReaches(inp, curr, GapA, x, y, m, a, b, r) ||
              TermReaches(inp, curr, GapB, x, y, m, a, b, r)
  {
    match curr
    case Match => CombineBounds(isSw, m, a, b);
    case GapA => GapATerms(inp, isSw, x, y, m, a, b);
    case GapB => GapBTerms(inp, isSw, x, y, m, a, b);
  }

  lemma GapATerms(inp: Inputs, isSw: bool, x: nat, y: nat, m: int, a: int, b: int)
    requires 1 <= x < inp.Width() && 1 <= y < inp.Height()
    ensures var r := Recur(inp, isSw, GapA, x, y, m, a, b);
            TermBound(inp, GapA, Match, x, y, m, a, b, r) && TermBound(inp, GapA, GapA, x, y, m, a, b, r) &&
            TermBound(inp, GapA, GapB, x, y, m, a, b, r)
    ensures var r := Recur(inp, isSw, GapA, x, y, m, a, b);
            Computed(inp, GapA, x, y) && r != Floor(isSw) ==>
              TermReaches(inp, GapA, Match, x, y, m, a, b, r) || TermReaches(inp, GapA, GapA, x, y, m, a, b, r) ||
              TermReaches(inp, GapA, GapB, x, y, m, a, b, r)
  {
    var open := inp.cfg.OpenPenalty();
    var ext := inp.cfg.gapExtend;
    if IsEdge(inp, GapA, x, y) {
      CombineBounds(isSw, m + open, a + ext, Floor(isSw));
    } else if inp.cfg.noGapsInA {
    } else if x == inp.Width() - 1 && inp.cfg.noEndGapPenalty {
      CombineBounds(isSw, m, a, b + (if y == 1 then 0 else open));
    } else {
      CombineBounds(isSw, m + open, a + ext, b + open);
    }
  }

  lemma GapBTerms(inp: Inputs, isSw: bool, x: nat, y: nat, m: int, a: int, b: int)
    requires 1 <= x < inp.Width() && 1 <= y < inp.Height()
    ensures var r := Recur(inp, isSw, GapB, x, y, m, a, b);
            TermBound(inp, GapB, Match, x, y, m, a, b, r) && TermBound(inp, GapB, GapA, x, y, m, a, b, r) &&
            TermBound(inp, GapB, GapB, x, y, m, a, b, r)
    ensures var r := Recur(inp, isSw, GapB, x, y, m, a, b);
            Computed(inp, GapB, x, y) && r != Floor(isSw) ==>
              TermReaches(inp, GapB, Match, x, y, m, a, b, r) || TermReaches(inp, GapB, GapA, x, y, m, a, b, r) ||
              TermReaches(inp, GapB, GapB, x, y, m, a, b, r)
  {
    var open := inp.cfg.OpenPenalty();
    var ext := inp.cfg.gapExtend;
    if IsEdge(inp, GapB, x, y) {
      CombineBounds(isSw, m + open, b + ext, Floor(isSw));
    } else if inp.cfg.noGapsInB {
    } else if y == inp.Height() - 1 && inp.cfg.noEndGapPenalty {
      CombineBounds(isSw, m, a + (if x == 1 then 0 else open), b);
    } else {
      CombineBounds(isSw, m + open, a + open, b + ext);
    }
  }

  /** Without the end-gap, no-gap and no-mismatch options the reverse
      move accepts exactly the predecessors that are consistent with the
      fill. */
  lemma CandidateWithoutOptions(inp: Inputs, m: seq<int>, a: seq<int>, b: seq<int>,
                                curr: Matrix, score: int, x: nat, y: nat, from: Matrix)
    requires 1 <= x < inp.Width() && 1 <= y < inp.Height() && Fits(inp, m, a, b)
    requires !inp.cfg.noEndGapPenalty && !inp.cfg.noGapsInA && !inp.cfg.noGapsInB && !inp.cfg.noMismatches
    ensures Candidate(inp, m, a, b, curr, score, x, y, from) <==> FillCandidate(inp, m, a, b, curr, score, x, y, from)
  {
    assert !IsEdge(inp, GapA, x, y) && !IsEdge(inp, GapB, x, y);
    assert FillTerm(inp, curr, from, x, y) == Some(StepPenalty(inp, curr, from, x, y));
  }

  /** On filled grids, a computed cell that does not hold its base value
      always has a predecessor consistent with the fill. */
  lemma FillCandidateExists(inp: Inputs, isSw: bool, m: seq<int>, a: seq<int>, b: seq<int>,
                            curr: Matrix, x: nat, y: nat)
    requires 1 <= x < inp.Width() && 1 <= y < inp.Height() && Fits(inp, m, a, b)
    requires Filled(inp, isSw, m, a, b)
    requires Computed(inp, curr, x, y) && Cell(inp, isSw, curr, x, y) != Base(inp, isSw, curr, x, y)
    ensures FillCandidate(inp, m, a, b, curr, Cell(inp, isSw, curr, x, y), x, y, Match) ||
            FillCandidate(inp, m, a, b, curr, Cell(inp, isSw, curr, x, y), x, y, GapA) ||
            FillCandidate(inp, m, a, b, curr, Cell(inp, isSw, curr, x, y), x, y, GapB)
  {
    var px, py := PrevX(curr, x), PrevY(curr, y);
    var w := inp.Width();
    FillTermComplete(inp, isSw, curr, x, y);
    assert At(m, w, px, py, Cell(inp, isSw, Match, px, py));
    assert At(a, w, px, py, Cell(inp, isSw, GapA, px, py));
    assert At(b, w, px, py, Cell(inp, isSw, GapB, px, py));
  }

  /** On filled grids each buffer holds the reference value of its cell. */
  lemma FilledBuffer(inp: Inputs, isSw: bool, m: seq<int>, a: seq<int>, b: seq<int>, mat: Matrix, x: nat, y: nat)
    requires x < inp.Width() && y < inp.Height() && Fits(inp, m, a, b)
    requires Filled(inp, isSw, m, a, b)
    ensures Idx(inp.Width(), x, y) < |Buffer(m, a, b, mat)|
    ensures Buffer(m, a, b, mat)[Idx(inp.Width(), x, y)] == Cell(inp, isSw, mat, x, y)
  {
    assert At(Buffer(m, a, b, mat), inp.Width(), x, y, Cell(inp, isSw, mat, x, y));
  }

  /** A step that obeys the corrected reverse move's contract, taken on
      filled grids from a computed cell holding its reference value (and
      not its base value), never fails and lands on the reference value
      of the predecessor it picks: the traceback can always go on. */
  lemma FixedStepContinues(inp: Inputs, isSw: bool, m: seq<int>, a: seq<int>, b: seq<int>,
                           curr: Matrix, x: nat, y: nat, r: Step)
    requires 1 <= x < inp.Width() && 1 <= y < inp.Height() && Fits(inp, m, a, b)
    requires Filled(inp, isSw, m, a, b)
    requires Computed(inp, curr, x, y) && Cell(inp, isSw, curr, x, y) != Base(inp, isSw, curr, x, y)
    requires r.Moved? ==> r.x == PrevX(curr, x) && r.y == PrevY(curr, y) &&
                          r.index == Idx(inp.Width(), r.x, r.y) && r.index < |Buffer(m, a, b, r.matrix)| &&
                          r.score == Buffer(m, a, b, r.matrix)[r.index]
    requires r.TracebackFail? <==>
               !FillCandidate(inp, m, a, b, curr, Cell(inp, isSw, curr, x, y), x, y, Match) &&
               !FillCandidate(inp, m, a, b, curr, Cell(inp, isSw, curr, x, y), x, y, GapA) &&
               !FillCandidate(inp, m, a, b, curr, Cell(inp, isSw, curr, x, y), x, y, GapB)
    ensures r.Moved?
    ensures r.x < inp.Width() && r.y < inp.Height()
    ensures r.score == Cell(inp, isSw, r.matrix, r.x, r.y)
  {
    FillCandidateExists(inp, isSw, m, a, b, curr, x, y);
    FilledBuffer(inp, isSw, m, a, b, r.matrix, r.x, r.y);
  }

  /** Without the end-gap, no-gap and no-mismatch options the same holds
      of a step that obeys the reverse move's contract as written. */
  lemma StepContinuesWithoutOptions(inp: Inputs, isSw: bool, m: seq<int>, a: seq<int>, b: seq<int>,
                                    curr: Matrix, x: nat, y: nat, r: Step)
    requires 1 <= x < inp.Width() && 1 <= y < inp.Height() && Fits(inp, m, a, b)
    requires !inp.cfg.noEndGapPenalty && !inp.cfg.noGapsInA && !inp.cfg.noGapsInB && !inp.cfg.noMismatches
    requires Filled(inp, isSw, m, a, b)
    requires Computed(inp, curr, x, y) && Cell(inp, isSw, curr, x, y) != Base(inp, isSw, curr, x, y)
    requires r.Moved? ==> r.x == PrevX(curr, x) && r.y == PrevY(curr, y) &&
                          r.index == Idx(inp.Width(), r.x, r.y) && r.index < |Buffer(m, a, b, r.matrix)| &&
                          r.score == Buffer(m, a, b, r.matrix)[r.index]
    requires r.TracebackFail? <==>
               !Candidate(inp, m, a, b, curr, Cell(inp, isSw, curr, x, y), x, y, Match) &&
               !Candidate(inp, m, a, b, curr, Cell(inp, isSw, curr, x, y), x, y, GapA) &&
               !Candidate(inp, m, a, b, curr, Cell(inp, isSw, curr, x, y), x, y, GapB)
    ensures r.Moved?
    ensures r.x < inp.Width() && r.y < inp.Height()
    ensures r.score == Cell(inp, isSw, r.matrix, r.x, r.y)
  {
    var v := Cell(inp, isSw, curr, x, y);
    CandidateWithoutOptions(inp, m, a, b, curr, v, x, y, Match);
    CandidateWithoutOptions(inp, m, a, b, curr, v, x, y, GapA);
    CandidateWithoutOptions(inp, m, a, b, curr, v, x, y, GapB);
    FixedStepContinues(inp, isSw, m, a, b, curr, x, y, r);
  }

  /** Every predecessor the fill used, plus its term, is at most the cell
      it produced. */
  lemma FillTermDominates(inp: Inputs, isSw: bool, curr: Matrix, from: Matrix, x: nat, y: nat)
    requires 1 <= x < inp.Width() && 1 <= y < inp.Height()
    requires FillTerm(inp, curr, from, x, y).Some?
    ensures Cell(inp, isSw, from, PrevX(curr, x), PrevY(curr, y)) + FillTerm(inp, curr, from, x, y).value <=
              Cell(inp, isSw, curr, x, y)
  {
    var px, py := PrevX(curr, x), PrevY(curr, y);
    var m, a, b := Cell(inp, isSw, Match, px, py), Cell(inp, isSw, GapA, px, py), Cell(inp, isSw, GapB, px, py);
    CellRecur(inp, isSw, curr, x, y);
    RecurTerms(inp, isSw, curr, x, y, m, a, b);
    assert Choose(from, m, a, b) == Cell(inp, isSw, from, px, py);
    assert TermBound(inp, curr, from, x, y, m, a, b, Cell(inp, isSw, curr, x, y));
  }

  /** A computed cell that does not hold its base value was produced by
      some predecessor the fill used, with exactly the fill's term. */
  lemma FillTermComplete(inp: Inputs, isSw: bool, curr: Matrix, x: nat, y: nat)
    requires 1 <= x < inp.Width() && 1 <= y < inp.Height()
    requires Computed(inp, curr, x, y)
    requires Cell(inp, isSw, curr, x, y) != Base(inp, isSw, curr, x, y)
    ensures Produces(inp, isSw, curr, Match, x, y) || Produces(inp, isSw, curr, GapA, x, y) ||
            Produces(inp, isSw, curr, GapB, x, y)
  {
    var px, py := PrevX(curr, x), PrevY(curr, y);
    var m, a, b := Cell(inp, isSw, Match, px, py), Cell(inp, isSw, GapA, px, py), Cell(inp, isSw, GapB, px, py);
    var v := Cell(inp, isSw, curr, x, y);
    CellRecur(inp, isSw, curr, x, y);
    RecurTerms(inp, isSw, curr, x, y, m, a, b);
    if TermReaches(inp, curr, Match, x, y, m, a, b, v) {
      assert Produces(inp, isSw, curr, Match, x, y);
    } else if TermReaches(inp, curr, GapA, x, y, m, a, b, v) {
      assert Produces(inp, isSw, curr, GapA, x, y);
    } else {
      assert Produces(inp, isSw, curr, GapB, x, y);
    }
  }

  /** Predecessor `from` was used with its term and reaches the value of
      cell (x, y) of `curr` exactly. */
  predicate Produces(inp: Inputs, isSw: bool, curr: Matrix, from: Matrix, x: nat, y: nat)
    requires 1 <= x < inp.Width() && 1 <= y < inp.Height()
  {
    FillTerm(inp, curr, from, x, y).Some? &&
    Cell(inp, isSw, from, PrevX(curr, x), PrevY(curr, y)) + FillTerm(inp, curr, from, x, y).value ==
      Cell(inp, isSw, curr, x, y)
  }
}
