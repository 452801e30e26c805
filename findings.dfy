/** Two inputs on which the reverse move, as the source writes it, cannot
    step back from a cell the fill computed, whereas the corrected move
    (which takes each predecessor's term from the fill) can. Both are
    global alignments scored +1 for a match and -1 for a mismatch. */
module Findings {
  import opened Scoring
  import opened Grid
  import opened Traceback

  function UnitLookup(p: char, q: char): (int, bool)
  {
    if p == q then (1, true) else (-1, false)
  }

  /** "A" against "AC" with mismatches forbidden, gap open -5, extend -1. */
  function MismatchInputs(): Inputs
  {
    Inputs("A", "AC", ScoringConfig(-5, -1, false, false, false, false, true, UnitLookup))
  }

  /** "AA" against "ACC" with free end gaps, gap open 0, extend -1. */
  function EndGapInputs(): Inputs
  {
    Inputs("AA", "ACC", ScoringConfig(0, -1, false, true, false, false, false, UnitLookup))
  }

  /** The values the fill gives the first input's cells (1, 1) and (1, 2). */
  lemma MismatchCells()
    ensures Cell(MismatchInputs(), false, Match, 1, 1) == 1
    ensures Cell(MismatchInputs(), false, GapA, 1, 1) == -12
    ensures Cell(MismatchInputs(), false, GapB, 1, 1) == -13
    ensures Cell(MismatchInputs(), false, Match, 1, 2) == INT_MIN
    ensures Cell(MismatchInputs(), false, GapA, 1, 2) == -5
    ensures Cell(MismatchInputs(), false, GapB, 1, 2) == -13
  {
    var inp := MismatchInputs();
    assert inp.Width() == 2 && inp.Height() == 3;
    assert inp.seqA[0] == 'A' && inp.seqB[0] == 'A' && inp.seqB[1] == 'C';
    assert inp.Sub(1, 1) == 1 && inp.PairMatches(1, 1);
    assert !inp.PairMatches(1, 2);
    assert Cell(inp, false, Match, 0, 0) == 0 && Cell(inp, false, GapA, 0, 0) == 0 && Cell(inp, false, GapB, 0, 0) == 0;
    assert Cell(inp, false, Match, 1, 0) == INT_MIN && Cell(inp, false, GapA, 1, 0) == INT_MIN;
    assert Cell(inp, false, GapB, 1, 0) == -6;
    assert Cell(inp, false, Match, 0, 1) == INT_MIN && Cell(inp, false, GapB, 0, 1) == INT_MIN;
    assert Cell(inp, false, GapA, 0, 1) == -7;
    assert Cell(inp, false, Match, 0, 2) == INT_MIN && Cell(inp, false, GapB, 0, 2) == INT_MIN;
    assert Cell(inp, false, GapA, 0, 2) == -7;
    CellRecur(inp, false, Match, 1, 1);
    CellRecur(inp, false, GapA, 1, 1);
    CellRecur(inp, false, GapB, 1, 1);
    CellRecur(inp, false, Match, 1, 2);
    CellRecur(inp, false, GapA, 1, 2);
    CellRecur(inp, false, GapB, 1, 2);
  }

  /** With the first input's values at cell (1, 1), the reverse move from
      the gap-in-A state at (1, 2) with score -5 accepts no predecessor, and
      the fill's terms accept the match. */
  lemma MismatchStep(m: seq<int>, a: seq<int>, b: seq<int>)
    requires Fits(MismatchInputs(), m, a, b)
    requires m[3] == 1 && a[3] == -12 && b[3] == -13
    ensures !Candidate(MismatchInputs(), m, a, b, GapA, -5, 1, 2, Match)
    ensures !Candidate(MismatchInputs(), m, a, b, GapA, -5, 1, 2, GapA)
    ensures !Candidate(MismatchInputs(), m, a, b, GapA, -5, 1, 2, GapB)
    ensures FillCandidate(MismatchInputs(), m, a, b, GapA, -5, 1, 2, Match)
  {
    var inp := MismatchInputs();
    assert inp.Width() == 2 && inp.Height() == 3;
    assert inp.seqA[0] == 'A' && inp.seqB[1] == 'C';
    assert !inp.PairMatches(1, 2);
    assert Idx(2, 1, 1) == 3;
  }

  /** The final cell (1, 2) of the first input is best in the gap-in-A
      grid, scoring -5, reached by a gap after the match A/A. The reverse
      move refuses that match predecessor because the pair at the CURRENT
      cell, A/C, is a mismatch, so it accepts no predecessor at all; the
      fill's own terms accept the match. */
  lemma MismatchGateRejectsFill(m: seq<int>, a: seq<int>, b: seq<int>)
    requires Fits(MismatchInputs(), m, a, b) && Filled(MismatchInputs(), false, m, a, b)
    ensures Cell(MismatchInputs(), false, GapA, 1, 2) == -5
    ensures Cell(MismatchInputs(), false, Match, 1, 2) < -5 && Cell(MismatchInputs(), false, GapB, 1, 2) < -5
    ensures !Candidate(MismatchInputs(), m, a, b, GapA, -5, 1, 2, Match)
    ensures !Candidate(MismatchInputs(), m, a, b, GapA, -5, 1, 2, GapA)
    ensures !Candidate(MismatchInputs(), m, a, b, GapA, -5, 1, 2, GapB)
    ensures FillCandidate(MismatchInputs(), m, a, b, GapA, -5, 1, 2, Match)
  {
    MismatchCells();
    var inp := MismatchInputs();
    assert inp.Width() == 2 && inp.Height() == 3;
    assert At(m, 2, 1, 1, 1) && At(a, 2, 1, 1, -12) && At(b, 2, 1, 1, -13);
    assert Idx(2, 1, 1) == 3;
    MismatchStep(m, a, b);
  }

  /** The values the fill gives the second input's cells (1, 1) and (2, 1). */
  lemma EndGapCells()
    ensures Cell(EndGapInputs(), false, Match, 1, 1) == 1
    ensures Cell(EndGapInputs(), false, GapA, 1, 1) == -2
    ensures Cell(EndGapInputs(), false, GapB, 1, 1) == -4
    ensures Cell(EndGapInputs(), false, GapB, 2, 1) == 0
  {
    var inp := EndGapInputs();
    assert inp.Width() == 3 && inp.Height() == 4;
    assert inp.seqA[0] == 'A' && inp.seqB[0] == 'A';
    assert inp.Sub(1, 1) == 1;
    assert Cell(inp, false, Match, 0, 0) == 0 && Cell(inp, false, GapA, 0, 0) == 0 && Cell(inp, false, GapB, 0, 0) == 0;
    assert Cell(inp, false, Match, 1, 0) == INT_MIN && Cell(inp, false, GapA, 1, 0) == INT_MIN;
    assert Cell(inp, false, GapB, 1, 0) == -1;
    assert Cell(inp, false, Match, 0, 1) == INT_MIN && Cell(inp, false, GapB, 0, 1) == INT_MIN;
    assert Cell(inp, false, GapA, 0, 1) == -3;
    CellRecur(inp, false, Match, 1, 1);
    CellRecur(inp, false, GapA, 1, 1);
    CellRecur(inp, false, GapB, 1, 1);
    CellRecur(inp, false, GapB, 2, 1);
  }

  /** With the second input's values at cell (1, 1), the reverse move from
      the gap-in-B state at (2, 1) with score 0 accepts no predecessor, and
      the fill's terms accept the match. */
  lemma EndGapStep(m: seq<int>, a: seq<int>, b: seq<int>)
    requires Fits(EndGapInputs(), m, a, b)
    requires m[4] == 1 && a[4] == -2 && b[4] == -4
    ensures !Candidate(EndGapInputs(), m, a, b, GapB, 0, 2, 1, Match)
    ensures !Candidate(EndGapInputs(), m, a, b, GapB, 0, 2, 1, GapA)
    ensures !Candidate(EndGapInputs(), m, a, b, GapB, 0, 2, 1, GapB)
    ensures FillCandidate(EndGapInputs(), m, a, b, GapB, 0, 2, 1, Match)
  {
    var inp := EndGapInputs();
    assert inp.Width() == 3 && inp.Height() == 4;
    assert Idx(3, 1, 1) == 4;
    assert !IsEdge(inp, GapB, 2, 1);
  }

  /** Cell (2, 1) of the second input's gap-in-B grid holds 0: the fill
      gives it the gap after the match A/A with the full open penalty,
      because the end-gap waiver of that grid applies only on its last
      row. The reverse move waives both penalties there because the cell
      lies in the last column, so no predecessor fits; the fill's own
      terms accept the match. The traceback reaches this state from the
      final cell (2, 3): gap-in-A steps up (2, 3) and (2, 2), free on the
      last column, then the gap-in-B state at (2, 1). */
  lemma EndGapWaiverRejectsFill(m: seq<int>, a: seq<int>, b: seq<int>)
    requires Fits(EndGapInputs(), m, a, b) && Filled(EndGapInputs(), false, m, a, b)
    ensures Cell(EndGapInputs(), false, GapB, 2, 1) == 0
    ensures !Candidate(EndGapInputs(), m, a, b, GapB, 0, 2, 1, Match)
    ensures !Candidate(EndGapInputs(), m, a, b, GapB, 0, 2, 1, GapA)
    ensures !Candidate(EndGapInputs(), m, a, b, GapB, 0, 2, 1, GapB)
    ensures FillCandidate(EndGapInputs(), m, a, b, GapB, 0, 2, 1, Match)
  {
    EndGapCells();
    var inp := EndGapInputs();
    assert inp.Width() == 3 && inp.Height() == 4;
    assert At(m, 3, 1, 1, 1) && At(a, 3, 1, 1, -2) && At(b, 3, 1, 1, -4);
    assert Idx(3, 1, 1) == 4;
    EndGapStep(m, a, b);
  }
}
