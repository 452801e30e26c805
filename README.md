# seq-align alignment engine, modelled in Dafny

This project models the pairwise alignment engine of seq-align (`src/alignment.c`): the
affine-gap (Gotoh) dynamic-programming fill behind Needleman-Wunsch (global) and
Smith-Waterman (local) alignment, the driver that sizes the score buffers and runs the fill,
the result buffer that holds the aligned strings, and the single traceback step.

- `Scoring` (scoring.dfy):
  - the scoring configuration: gap open and extend penalties, and the five flags `noStartGapPenalty`, `noEndGapPenalty`, `noGapsInA`, `noGapsInB`, `noMismatches`;
  - the substitution lookup, kept as a function value;
  - the two combine policies, `NwCombine` and `SwCombine`.
- `Pow2` (pow2.dfy): rounding a capacity up to a power of two, and moving a buffer to a larger allocation.
- `Grid` (grid.dfy): the reference meaning of the fill.
  - The three grids are stored flat: cell (x, y) sits at `y * width + x`, with x running along sequence A and y along sequence B.
  - `Cell` gives the value every cell holds once the fill is complete. It covers the boundary loops, the interior recurrence, the end-gap waiver and the edge-only passes for forbidden gaps.
  - `Recur` is one step of the recurrence.
  - The predicates here describe the grids part-way through each loop.
- `Traceback` (traceback.dfy): what one reverse step accepts.
  - `Candidate` is the test the source applies.
  - `FillCandidate` is the test that agrees with the fill.
  - The lemmas tie both to `Cell`.
- `Aligner` (aligner.dfy): the aligner as a class that owns three `array<int>` buffers.
  - The fill runs in place, loop by loop, and every loop is proved to leave `Cell` in each cell it has finished.
  - `Align` grows the buffers or reuses them, then fills them.
  - `ReverseMove` is the traceback step as written. `ReverseMoveFixed` is the corrected step.
- `Alignment` (alignment.dfy): the result buffer, with creation and capacity growth.
- `Findings` (findings.dfy): two concrete inputs where the reverse step as written cannot step back through grids the fill produced.

Scores are unbounded integers. The global floor is the 32-bit `INT_MIN`, and the local floor is 0.

The loop in `src/alignment.c:91-101` that fills column 0 computes the leading-gap score of the gap-in-A grid from the row loop's counter. That counter is left at the grid width, so every row of column 0 gets the same value, `gap_open + width * gap_extend`. A penalty growing with the row index (`gap_open + j * gap_extend`) would mirror row 0. The model follows the code as written; `Grid.BoundaryColumn` states this.

## Model

| member | source | states |
|---|---|---|
| Scoring.NwCombine | src/alignment.c:34-36 | The global combine is the maximum of its three arguments: at least each of them and equal to one of them. |
| Scoring.SwCombine | src/alignment.c:38-41 | The local combine is `max(a, b, c, 0)`: non-negative, at least each argument, equal to one of them or to 0, and equal to the global combine whenever it is positive. |
| Scoring.CombineBounds | src/alignment.c:34-41 | Under either policy the combined value is at least each argument, and it is one of them unless the local policy reset it to 0. |
| Pow2.Grow | src/alignment.c:242 | Doubling a power of two until it reaches `n` gives a power of two that is at least `n`, and less than `2n` when any doubling happened. |
| Pow2.RoundUp2Pow | src/alignment.c:278 | The rounded capacity is a power of two, at least `n` and at least 1, and less than `2n` for `n >= 1`. |
| Pow2.Reallocate | src/alignment.c:250-252 | A grown buffer is a fresh array of the new size whose prefix is the old contents. |
| Aligner.NewCapacity | src/alignment.c:238-259 | The capacity after an align call is at least the cell count and never below the old capacity. A nonzero, sufficient capacity is kept. Otherwise it is a power of two below twice the cell count. |
| Aligner.SetAll | src/alignment.c:66-72 | Clearing a grid writes the floor into its first `width * height` cells and leaves the rest unchanged. |
| Aligner.Aligner.constructor | src/alignment.c:240-248 | A fresh aligner has capacity 0 and no grid, which is the state in which the first align call allocates. |
| Aligner.Aligner.FillFirstRow | src/alignment.c:74-88 | After cell (0, 0) and row 0 are written, every cell of row 0 holds its boundary value: 0 at the origin, the floor in the match and gap-in-A grids, and the leading-gap score in the gap-in-B grid. Buffer cells from the width on are unchanged. The returned counter equals the width. |
| Aligner.Aligner.FillFirstColumn | src/alignment.c:90-101 | After the column loop, row 0 and column 0 hold their boundary values, with the gap-in-A value of column 0 taken from the leftover counter. A forbidden-gap grid still holds the floor in its interior. Cells beyond the grid are unchanged. |
| Aligner.Aligner.MatchValue | src/alignment.c:126-143 | The value computed for an interior match cell is `Cell`. It is the floor when mismatches are forbidden and the pair mismatches; otherwise it is the combine of the diagonal predecessors plus the substitution score. |
| Aligner.Aligner.GapAValue | src/alignment.c:148-167 | The value computed for an interior gap-in-A cell is `Cell`, from the cell above, with the end-gap waiver in the last column. |
| Aligner.Aligner.GapBValue | src/alignment.c:169-188 | The value computed for an interior gap-in-B cell is `Cell`, from the cell to the left, with the end-gap waiver in the last row. |
| Aligner.Aligner.FillCell | src/alignment.c:113-189 | One interior step advances the loop state from before (i, j) to after it: every cell done so far, now including (i, j), holds its fill value, and a forbidden-gap grid keeps the floor. Cells beyond the grid are unchanged. |
| Aligner.Aligner.FillInterior | src/alignment.c:111-190 | After the nested loops, every cell holds `Cell`, except the edge cells of a forbidden-gap grid, which still hold their cleared or boundary value. |
| Aligner.Aligner.FillEdgeA | src/alignment.c:192-208 | With gaps in A forbidden, every cell of the last column of the gap-in-A grid, walking down from row 0, ends up holding `Cell`. Every other cell keeps its value. |
| Aligner.Aligner.FillEdgeB | src/alignment.c:210-226 | With gaps in B forbidden, every cell of the last row of the gap-in-B grid, walking right from column 0, ends up holding `Cell`. Every other cell keeps its value. |
| Aligner.Aligner.FillBoundary | src/alignment.c:66-101 | The clearing passes and the boundary loops leave row 0 and column 0 at their staged values, and the forbidden-gap grids at the floor. Cells beyond the grid are unchanged. |
| Aligner.Aligner.FillMatrices | src/alignment.c:44-227 | After the fill, every cell of all three grids holds `Cell`, for either policy. Buffer cells past `width * height` are unchanged. |
| Aligner.Aligner.Align | src/alignment.c:229-264 | Align sets the sequences, the scoring and the dimensions `len + 1`, and sets the capacity to `NewCapacity` of the old capacity. It keeps the same buffers when they were nonzero and large enough, and uses fresh ones otherwise. It then fills the grids. |
| Aligner.Aligner.ReverseMove | src/alignment.c:314-402 | The step moves to the predecessor cell (diagonal, above or left by state) and returns its index and the value found there. The chosen predecessor passes the source's test (`Candidate`), and no predecessor earlier in the order gap-in-A, gap-in-B, match passes it. The step fails exactly when none of the three passes. |
| Aligner.Aligner.MovePenalties | src/alignment.c:318-370 | The step penalties are the substitution score for a match state, and otherwise extend for the same gap grid and open for the other two. Both are zero under the end-gap option in the last column or last row. The match predecessor is gated on the pair at the current cell. |
| Aligner.Aligner.ReverseMoveFixed | src/alignment.c:370-401 | The same move and priority order, but a predecessor is accepted exactly when the fill's own term for it reproduces the score (`FillCandidate`). |
| Alignment.Alignment.constructor | src/alignment.c:276-288 | A new result has its capacity rounded up to a power of two and two fresh buffers of that size. Both strings are empty, and the length, score and positions are zero. |
| Alignment.Alignment.EnsureCapacity | src/alignment.c:290-304 | Afterwards the capacity is at least `strlength + 1` and never smaller than before. If it was already enough, nothing changes; otherwise both buffers move to the rounded capacity with their contents in front. Length, score and positions are kept. |
| Grid.CellRecur | src/alignment.c:111-188 | Away from row 0 and column 0, every cell is the recurrence step applied to the three values at its predecessor cell. |
| Grid.BoundaryRow | src/alignment.c:74-88 | Row 0 after the fill: zeros at the origin, the floor in the match and gap-in-A grids, and `gap_open + x * gap_extend` (0 under the start-gap option) in the gap-in-B grid. |
| Grid.BoundaryColumn | src/alignment.c:91-101 | Column 0 after the fill: the floor in the match and gap-in-B grids. The gap-in-A grid holds one value common to all rows, `gap_open + width * gap_extend` (0 under the start-gap option). |
| Grid.NoGapsInAFloor | src/alignment.c:66-68 | With gaps in A forbidden, the gap-in-A grid holds the floor in every interior cell except the last column. |
| Grid.NoGapsInBFloor | src/alignment.c:70-72 | With gaps in B forbidden, the gap-in-B grid holds the floor in every interior cell except the last row. |
| Traceback.FillTermDominates | src/alignment.c:111-188 | Every predecessor the fill used, plus the term it added, is at most the cell it produced. |
| Traceback.FillTermComplete | src/alignment.c:111-188 | A computed cell that does not hold its base value is reached exactly by some predecessor plus its term. |
| Traceback.FillCandidateExists | src/alignment.c:370-390 | On filled grids, such a cell always has a predecessor that the corrected step accepts. |
| Traceback.FixedStepContinues | src/alignment.c:370-401 | On filled grids, a step that obeys `ReverseMoveFixed`'s contract from a computed cell holding its fill value never fails. It lands on the fill's value of the predecessor it picks, so the traceback can go on. |
| Traceback.CandidateWithoutOptions | src/alignment.c:330-390 | With none of the end-gap, forbidden-gap or no-mismatch options set, the step as written accepts exactly the predecessors the fill used. |
| Traceback.StepContinuesWithoutOptions | src/alignment.c:314-402 | With no options set, a step that obeys `ReverseMove`'s contract as written also never fails on filled grids and lands on the fill's value. |
| Findings.MismatchGateRejectsFill | src/alignment.c:385-386 | On the no-mismatch input, the best final cell is in the gap-in-A grid with score -5. No predecessor passes the source's test there, but the fill's match predecessor does. |
| Findings.EndGapWaiverRejectsFill | src/alignment.c:333-338 | On the free-end-gap input, gap-in-B cell (2, 1) holds 0. No predecessor passes the source's test there, but the fill's match predecessor does. |

## Left out

- Printing (`alignment_print_matrices`, the coloured printers, the escape-code constants): output rendering only.
- `malloc`, `realloc`, `free`, `aligner_destroy` and `alignment_free` are left out. Allocation is modelled as fresh arrays. Memory that `realloc` leaves undefined beyond the copied prefix is filled with a fixed value.
- The out-of-memory checks and the `exit` on a failed traceback. The exit becomes the `TracebackFail` result.
- The invalid-matrix default case of the reverse step: the state is a three-valued datatype, so that case cannot arise.
- Integer width: the `long` to `score_t` narrowing and the wrap-around of `INT_MIN` plus a negative penalty are not modelled. Scores are unbounded integers.
- `scoring_lookup` and the unshown macros. The lookup is a function value in the configuration. `ROUNDUP2POW` is modelled as the least power of two that is at least `max(n, 1)`. `MAX3` and `MAX2` are modelled by the combine functions. `ARR_2D_INDEX` is modelled as `y * width + x`.
- `strlen`: the sequences are `seq<char>`.
- Choosing the traceback's start cell, the traceback loop and the emitting of aligned strings are not part of this file and are not modelled.
- `scoring.h`, `alignment.h` and their definitions are not part of this model.

## Findings

| source | as written | input that shows it | evidently intended | confidence | as-written member | corrected member |
|---|---|---|---|---|---|---|
| src/alignment.c:385-386 | The match predecessor is tried only if mismatches are allowed or the pair at the CURRENT cell matches, even when the current state is a gap state, whose fill term for the match predecessor has no such gate. | Global alignment of "A" against "AC": +1 match, -1 mismatch, gap open -5, extend -1, mismatches forbidden. The best final cell is gap-in-A at (1, 2) with score -5, reached from match (1, 1) = 1 plus the open penalty -6. A/C mismatches, so the step rejects it and accepts nothing else: the traceback fails at once. | Accept a predecessor whenever the fill used it with that term. | not executed | Findings.MismatchGateRejectsFill, with Aligner.Aligner.ReverseMove | Aligner.Aligner.ReverseMoveFixed, with Traceback.FillCandidateExists and Traceback.FixedStepContinues |
| src/alignment.c:333-338 | Under the end-gap option, both gap penalties are zeroed for every state in the last column OR the last row. The fill waives gap-in-A penalties only in the last column and gap-in-B penalties only in the last row, and it keeps the open penalty on the cross-gap term except next to the boundary. | Global alignment of "AA" against "ACC": +1 match, -1 mismatch, gap open 0, extend -1, free end gaps. Gap-in-B cell (2, 1) holds 0 = match (1, 1) + open -1. The step, waiving the penalty because x is the last column, looks for 0 and finds no predecessor. The traceback from the final cell reaches this state through gap-in-A steps down the last column. | Use the penalty the fill used for that cell and state. | not executed | Findings.EndGapWaiverRejectsFill, with Aligner.Aligner.ReverseMove | Aligner.Aligner.ReverseMoveFixed, with Traceback.FillCandidateExists and Traceback.FixedStepContinues |
