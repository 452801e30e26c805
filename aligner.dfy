/** The aligner: three flat score buffers that grow monotonically and are
    reused across calls, the dimensions of the current grid, and the
    in-place fill of the affine-gap recurrence. */
module Aligner {
  import opened Scoring
  import opened Pow2
  import opened Grid
  import opened Traceback

  /** Writes `v` into the first `n` slots of `s`. */
  method SetAll(s: array<int>, n: nat, v: int)
    requires n <= s.Length
    modifies s
    ensures forall t :: 0 <= t < n ==> s[t] == v
    ensures s[n..] == old(s[n..])
  {
    var k := 0;
    while k < n
      invariant 0 <= k <= n
      invariant forall t :: 0 <= t < k ==> s[t] == v
      invariant s[n..] == old(s[n..])
    {
      s[k] := v;
      k := k + 1;
    }
  }

  /** The buffer capacity an alignment of `required` cells runs with,
      given the capacity left by the previous call: unchanged when it is
      nonzero and large enough, otherwise the power of two that fits. */
  function NewCapacity(capacity: nat, required: nat): (r: nat)
    ensures r >= required && r >= capacity && r >= 1
    ensures capacity != 0 && capacity >= required ==> r == capacity
    ensures capacity == 0 || capacity < required ==> IsPow2(r) && (required >= 1 ==> r < 2 * required)
  {
    if capacity == 0 || capacity < required then RoundUp2Pow(required) else capacity
  }

  /** Agreement from offset `w` on implies agreement from any later offset. */
  lemma TailKept(s: seq<int>, s0: seq<int>, w: nat, n: nat)
    requires |s| == |s0| && w <= n <= |s|
    requires forall t :: w <= t < |s| ==> s[t] == s0[t]
    ensures s[n..] == s0[n..]
  {
  }

  class Aligner {
    var matchScores: array<int>
    var gapAScores: array<int>
    var gapBScores: array<int>
    var capacity: nat
    var scoreWidth: nat
    var scoreHeight: nat
    var seqA: seq<char>
    var seqB: seq<char>
    var scoring: ScoringConfig

    /** Three distinct buffers of `capacity` cells, large enough for the
        current grid. */
    ghost predicate Valid()
      reads this
    {
      matchScores != gapAScores && matchScores != gapBScores && gapAScores != gapBScores &&
      matchScores.Length == capacity && gapAScores.Length == capacity &&
      gapBScores.Length == capacity &&
      scoreWidth * scoreHeight <= capacity
    }

    /** The grid dimensions are those of the current sequences. */
    ghost predicate Sized()
      reads this
    {
      scoreWidth == |seqA| + 1 && scoreHeight == |seqB| + 1
    }

    function Input(): Inputs
      reads this
    {
      Inputs(seqA, seqB, scoring)
    }

    /** A zero-initialised aligner: no buffers yet. */
    constructor ()
      ensures Valid() && capacity == 0
      ensures scoreWidth == 0 && scoreHeight == 0
    {
      matchScores := new int[0];
      gapAScores := new int[0];
      gapBScores := new int[0];
      capacity := 0;
      scoreWidth, scoreHeight := 0, 0;
      seqA, seqB := [], [];
      scoring := ScoringConfig(0, 0, false, false, false, false, false, (a: char, b: char) => (0, false));
    }

    /** Cell [0][0] and row 0 of the three grids. Returns the loop counter, which the
        column loop goes on using. */
    method FillFirstRow(isSw: bool) returns (i: nat)
      requires Valid() && Sized()
      modifies matchScores, gapAScores, gapBScores
      ensures i == scoreWidth
      ensures RowDone(Input(), isSw, matchScores[..], gapAScores[..], gapBScores[..], scoreWidth)
      ensures forall t :: scoreWidth <= t < capacity ==>
                matchScores[t] == old(matchScores[t]) && gapAScores[t] == old(gapAScores[t]) &&
                gapBScores[t] == old(gapBScores[t])
    {
      var m, ga, gb := matchScores, gapAScores, gapBScores;
      var w := scoreWidth;
      var min := Floor(isSw);
      ghost var inp := Input();
      ghost var m0, a0, b0 := m[..], ga[..], gb[..];
      MulMono(1, scoreHeight, w);
      // [0][0]
      m[0] := 0;
      ga[0] := 0;
      gb[0] := 0;
      assert RowDone(inp, isSw, m[..], ga[..], gb[..], 1) by {
        assert Idx(w, 0, 0) == 0;
      }
      i := 1;
      while i < w
        invariant 1 <= i <= w
        invariant RowDone(inp, isSw, m[..], ga[..], gb[..], i)
        invariant forall t :: i <= t < capacity ==>
                    m[t] == m0[t] && ga[t] == a0[t] && gb[t] == b0[t]
      {
        RowStep(inp, isSw, m[..], ga[..], gb[..], i);
        m[i] := min;
        ga[i] := min;
        gb[i] := if scoring.noStartGapPenalty then 0 else scoring.gapOpen + i * scoring.gapExtend;
        i := i + 1;
      }
    }

    /** Column 0 of the three grids. `i` is the counter the row loop left
        behind, so every cell of column 0 of the gap-in-A grid receives
        the leading-gap score of `scoreWidth` gap symbols. */
    method FillFirstColumn(isSw: bool, i: nat)
      requires Valid() && Sized() && i == scoreWidth
      requires RowDone(Input(), isSw, matchScores[..], gapAScores[..], gapBScores[..], scoreWidth)
      requires scoring.noGapsInA ==> InteriorFloor(Input(), isSw, gapAScores[..])
      requires scoring.noGapsInB ==> InteriorFloor(Input(), isSw, gapBScores[..])
      modifies matchScores, gapAScores, gapBScores
      ensures Partial(Input(), isSw, matchScores[..], gapAScores[..], gapBScores[..], 1, 1)
      ensures matchScores[scoreWidth * scoreHeight..] == old(matchScores[scoreWidth * scoreHeight..])
      ensures gapAScores[scoreWidth * scoreHeight..] == old(gapAScores[scoreWidth * scoreHeight..])
      ensures gapBScores[scoreWidth * scoreHeight..] == old(gapBScores[scoreWidth * scoreHeight..])
    {
      var m, ga, gb := matchScores, gapAScores, gapBScores;
      var w, h := scoreWidth, scoreHeight;
      var n := w * h;
      var min := Floor(isSw);
      ghost var inp := Input();
      var j := 1;
      while j < h
        invariant 1 <= j <= h
        invariant RowDone(inp, isSw, m[..], ga[..], gb[..], w)
        invariant ColumnDone(inp, isSw, m[..], ga[..], gb[..], j)
        invariant scoring.noGapsInA ==> InteriorFloor(inp, isSw, ga[..])
        invariant scoring.noGapsInB ==> InteriorFloor(inp, isSw, gb[..])
        invariant m[n..] == old(m[n..]) && ga[n..] == old(ga[n..]) && gb[n..] == old(gb[n..])
      {
        var index := Idx(w, 0, j);
        var startGap := if scoring.noStartGapPenalty then 0 else scoring.gapOpen + i * scoring.gapExtend;
        ColumnValues(inp, isSw, j);
        assert startGap == inp.StartGapA();
        ColumnStep(inp, isSw, m[..], ga[..], gb[..], j);
        m[index] := min;
        ga[index] := startGap;
        gb[index] := min;
        j := j + 1;
      }
      BoundaryGivesPartial(inp, isSw, m[..], ga[..], gb[..]);
    }

    /** The substitution score of interior cell [i][j], read from the
        three grids at [i-1][j-1]. */
    method MatchValue(isSw: bool, i: nat, j: nat) returns (v: int)
      requires Valid() && Sized()
      requires 1 <= i < scoreWidth && 1 <= j < scoreHeight
      requires At(matchScores[..], scoreWidth, i - 1, j - 1, Cell(Input(), isSw, Match, i - 1, j - 1))
      requires At(gapAScores[..], scoreWidth, i - 1, j - 1, Cell(Input(), isSw, GapA, i - 1, j - 1))
      requires At(gapBScores[..], scoreWidth, i - 1, j - 1, Cell(Input(), isSw, GapB, i - 1, j - 1))
      ensures v == Cell(Input(), isSw, Match, i, j)
    {
      var m, ga, gb := matchScores, gapAScores, gapBScores;
      var (substitutionPenalty, isMatch) := scoring.lookup(seqA[i - 1], seqB[j - 1]);
      if scoring.noMismatches && !isMatch {
        v := Floor(isSw);
      } else {
        var oldIndex := Idx(scoreWidth, i - 1, j - 1);
        v := Combine(isSw, m[oldIndex], ga[oldIndex], gb[oldIndex]) + substitutionPenalty;
      }
    }

    /** The gap-in-A score of interior cell [i][j], read from [i][j-1]. */
    method GapAValue(isSw: bool, i: nat, j: nat) returns (v: int)
      requires Valid() && Sized()
      requires 1 <= i < scoreWidth && 1 <= j < scoreHeight && !scoring.noGapsInA
      requires At(matchScores[..], scoreWidth, i, j - 1, Cell(Input(), isSw, Match, i, j - 1))
      requires At(gapAScores[..], scoreWidth, i, j - 1, Cell(Input(), isSw, GapA, i, j - 1))
      requires At(gapBScores[..], scoreWidth, i, j - 1, Cell(Input(), isSw, GapB, i, j - 1))
      ensures v == Cell(Input(), isSw, GapA, i, j)
    {
      var m, ga, gb := matchScores, gapAScores, gapBScores;
      var gapOpenPenalty := scoring.gapExtend + scoring.gapOpen;
      var gapExtendPenalty := scoring.gapExtend;
      var oldIndex := Idx(scoreWidth, i, j - 1);
      var fromMatch, fromGapA, fromGapB := m[oldIndex], ga[oldIndex], gb[oldIndex];
      if i == scoreWidth - 1 && scoring.noEndGapPenalty {
        v := Combine(isSw, fromMatch, fromGapA,
                     fromGapB + (if j == 1 then 0 else gapOpenPenalty));
      } else {
        v := Combine(isSw, fromMatch + gapOpenPenalty,
                     fromGapA + gapExtendPenalty,
                     fromGapB + gapOpenPenalty);
      }
    }

    /** The gap-in-B score of interior cell [i][j], read from [i-1][j]. */
    method GapBValue(isSw: bool, i: nat, j: nat) returns (v: int)
      requires Valid() && Sized()
      requires 1 <= i < scoreWidth && 1 <= j < scoreHeight && !scoring.noGapsInB
      requires At(matchScores[..], scoreWidth, i - 1, j, Cell(Input(), isSw, Match, i - 1, j))
      requires At(gapAScores[..], scoreWidth, i - 1, j, Cell(Input(), isSw, GapA, i - 1, j))
      requires At(gapBScores[..], scoreWidth, i - 1, j, Cell(Input(), isSw, GapB, i - 1, j))
      ensures v == Cell(Input(), isSw, GapB, i, j)
    {
      var m, ga, gb := matchScores, gapAScores, gapBScores;
      var gapOpenPenalty := scoring.gapExtend + scoring.gapOpen;
      var gapExtendPenalty := scoring.gapExtend;
      var oldIndex := Idx(scoreWidth, i - 1, j);
      var fromMatch, fromGapA, fromGapB := m[oldIndex], ga[oldIndex], gb[oldIndex];
      if j == scoreHeight - 1 && scoring.noEndGapPenalty {
        v := Combine(isSw, fromMatch,
                     fromGapA + (if i == 1 then 0 else gapOpenPenalty),
                     fromGapB);
      } else {
        v := Combine(isSw, fromMatch + gapOpenPenalty,
                     fromGapA + gapOpenPenalty,
                     fromGapB + gapExtendPenalty);
      }
    }

    /** One interior cell [i][j]: the match grid always, each gap grid
        unless its gaps are forbidden. */
    method FillCell(isSw: bool, i: nat, j: nat)
      requires Valid() && Sized()
      requires 1 <= i < scoreWidth && 1 <= j < scoreHeight
      requires Partial(Input(), isSw, matchScores[..], gapAScores[..], gapBScores[..], i, j)
      modifies matchScores, gapAScores, gapBScores
      ensures Partial(Input(), isSw, matchScores[..], gapAScores[..], gapBScores[..], i, j + 1)
      ensures matchScores[scoreWidth * scoreHeight..] == old(matchScores[scoreWidth * scoreHeight..])
      ensures gapAScores[scoreWidth * scoreHeight..] == old(gapAScores[scoreWidth * scoreHeight..])
      ensures gapBScores[scoreWidth * scoreHeight..] == old(gapBScores[scoreWidth * scoreHeight..])
    {
      ghost var inp := Input();
      ghost var m0, a0, b0 := matchScores[..], gapAScores[..], gapBScores[..];
      InteriorStep(inp, isSw, m0, a0, b0, i, j);
      var newIndex := Idx(scoreWidth, i, j);
      PredecessorDiagonal(inp, isSw, m0, a0, b0, i, j);
      var matchValue := MatchValue(isSw, i, j);
      var gapAValue := 0;
      if !scoring.noGapsInA {
        PredecessorAbove(inp, isSw, m0, a0, b0, i, j);
        gapAValue := GapAValue(isSw, i, j);
      }
      var gapBValue := 0;
      if !scoring.noGapsInB {
        PredecessorLeft(inp, isSw, m0, a0, b0, i, j);
        gapBValue := GapBValue(isSw, i, j);
      }
      matchScores[newIndex] := matchValue;
      if !scoring.noGapsInA { gapAScores[newIndex] := gapAValue; }
      if !scoring.noGapsInB { gapBScores[newIndex] := gapBValue; }
      assert matchScores[..] == m0[newIndex := Cell(inp, isSw, Match, i, j)];
      assert gapAScores[..] == if scoring.noGapsInA then a0 else a0[newIndex := Cell(inp, isSw, GapA, i, j)];
      assert gapBScores[..] == if scoring.noGapsInB then b0 else b0[newIndex := Cell(inp, isSw, GapB, i, j)];
    }

    /** The interior cells, column by column. */
    method FillInterior(isSw: bool)
      requires Valid() && Sized()
      requires Partial(Input(), isSw, matchScores[..], gapAScores[..], gapBScores[..], 1, 1)
      modifies matchScores, gapAScores, gapBScores
      ensures Partial(Input(), isSw, matchScores[..], gapAScores[..], gapBScores[..], scoreWidth, 1)
      ensures matchScores[scoreWidth * scoreHeight..] == old(matchScores[scoreWidth * scoreHeight..])
      ensures gapAScores[scoreWidth * scoreHeight..] == old(gapAScores[scoreWidth * scoreHeight..])
      ensures gapBScores[scoreWidth * scoreHeight..] == old(gapBScores[scoreWidth * scoreHeight..])
    {
      var w, h := scoreWidth, scoreHeight;
      var n := w * h;
      ghost var inp := Input();
      var i := 1;
      while i < w
        invariant 1 <= i <= w
        invariant Partial(inp, isSw, matchScores[..], gapAScores[..], gapBScores[..], i, 1)
        invariant matchScores[n..] == old(matchScores[n..]) && gapAScores[n..] == old(gapAScores[n..])
        invariant gapBScores[n..] == old(gapBScores[n..])
      {
        var j := 1;
        while j < h
          invariant 1 <= j <= h
          invariant Partial(inp, isSw, matchScores[..], gapAScores[..], gapBScores[..], i, j)
          invariant matchScores[n..] == old(matchScores[n..]) && gapAScores[n..] == old(gapAScores[n..])
          invariant gapBScores[n..] == old(gapBScores[n..])
        {
          FillCell(isSw, i, j);
          j := j + 1;
        }
        NextColumn(inp, isSw, matchScores[..], gapAScores[..], gapBScores[..], i);
        i := i + 1;
      }
    }

    /** Where gaps in A are forbidden, the last column of the gap-in-A grid
        is filled afterwards by a chain down from row 0, so that gaps in A
        remain possible at its end. */
    method FillEdgeA(isSw: bool)
      requires Valid() && Sized()
      requires StagedAll(Input(), isSw, matchScores[..], gapAScores[..], gapBScores[..], 1, 1)
      modifies gapAScores
      ensures StagedAll(Input(), isSw, matchScores[..], gapAScores[..], gapBScores[..], scoreHeight, 1)
      ensures gapAScores[scoreWidth * scoreHeight..] == old(gapAScores[scoreWidth * scoreHeight..])
    {
      ghost var inp := Input();
      var w, h := scoreWidth, scoreHeight;
      var n := w * h;
      if !scoring.noGapsInA {
        StagedMove(inp, isSw, matchScores[..], gapAScores[..], gapBScores[..], 1, 1, h, 1);
        return;
      }
      var gapOpenPenalty := scoring.gapExtend + scoring.gapOpen;
      var gapExtendPenalty := scoring.gapExtend;
      var oldIndex := Idx(w, w - 1, 0);
      var j := 1;
      while j < h
        invariant 1 <= j <= h
        invariant oldIndex == Idx(w, w - 1, j - 1)
        invariant StagedAll(inp, isSw, matchScores[..], gapAScores[..], gapBScores[..], j, 1)
        invariant gapAScores[n..] == old(gapAScores[n..])
      {
        var newIndex := Idx(w, w - 1, j);
        EdgeAStep(inp, isSw, matchScores[..], gapAScores[..], gapBScores[..], j);
        gapAScores[newIndex] := Combine(isSw, matchScores[oldIndex] + gapOpenPenalty,
                                        gapAScores[oldIndex] + gapExtendPenalty,
                                        Floor(isSw));
        oldIndex := newIndex;
        j := j + 1;
      }
    }

    /** The mirror pass: where gaps in B are forbidden, the last row of the
        gap-in-B grid is filled by a chain along from column 0. */
    method FillEdgeB(isSw: bool)
      requires Valid() && Sized()
      requires StagedAll(Input(), isSw, matchScores[..], gapAScores[..], gapBScores[..], scoreHeight, 1)
      modifies gapBScores
      ensures StagedAll(Input(), isSw, matchScores[..], gapAScores[..], gapBScores[..], scoreHeight, scoreWidth)
      ensures gapBScores[scoreWidth * scoreHeight..] == old(gapBScores[scoreWidth * scoreHeight..])
    {
      ghost var inp := Input();
      var w, h := scoreWidth, scoreHeight;
      var n := w * h;
      if !scoring.noGapsInB {
        StagedMove(inp, isSw, matchScores[..], gapAScores[..], gapBScores[..], h, 1, h, w);
        return;
      }
      var gapOpenPenalty := scoring.gapExtend + scoring.gapOpen;
      var gapExtendPenalty := scoring.gapExtend;
      var oldIndex := Idx(w, 0, h - 1);
      var i := 1;
      while i < w
        invariant 1 <= i <= w
        invariant oldIndex == Idx(w, i - 1, h - 1)
        invariant StagedAll(inp, isSw, matchScores[..], gapAScores[..], gapBScores[..], h, i)
        invariant gapBScores[n..] == old(gapBScores[n..])
      {
        var newIndex := Idx(w, i, h - 1);
        EdgeBStep(inp, isSw, matchScores[..], gapAScores[..], gapBScores[..], i);
        gapBScores[newIndex] := Combine(isSw, matchScores[oldIndex] + gapOpenPenalty,
                                        gapBScores[oldIndex] + gapExtendPenalty,
                                        Floor(isSw));
        oldIndex := newIndex;
        i := i + 1;
      }
    }

    /** The forbidden-gap floors, cell [0][0], row 0 and column 0. */
    method FillBoundary(isSw: bool)
      requires Valid() && Sized()
      modifies matchScores, gapAScores, gapBScores
      ensures Partial(Input(), isSw, matchScores[..], gapAScores[..], gapBScores[..], 1, 1)
      ensures matchScores[scoreWidth * scoreHeight..] == old(matchScores[scoreWidth * scoreHeight..])
      ensures gapAScores[scoreWidth * scoreHeight..] == old(gapAScores[scoreWidth * scoreHeight..])
      ensures gapBScores[scoreWidth * scoreHeight..] == old(gapBScores[scoreWidth * scoreHeight..])
    {
      ghost var inp := Input();
      var n := scoreWidth * scoreHeight;
      var min := Floor(isSw);
      if scoring.noGapsInA {
        SetAll(gapAScores, n, min);
      }
      if scoring.noGapsInB {
        SetAll(gapBScores, n, min);
      }
      ghost var m1, a1, b1 := matchScores[..], gapAScores[..], gapBScores[..];
      var i := FillFirstRow(isSw);
      TailKept(matchScores[..], m1, scoreWidth, n);
      TailKept(gapAScores[..], a1, scoreWidth, n);
      TailKept(gapBScores[..], b1, scoreWidth, n);
      if scoring.noGapsInA {
        InteriorFloorFromFlat(inp, isSw, gapAScores[..]);
      }
      if scoring.noGapsInB {
        InteriorFloorFromFlat(inp, isSw, gapBScores[..]);
      }
      FillFirstColumn(isSw, i);
    }

    /** Fills the three grids for the current sequences: global alignment
        when `isSw` is false (floor INT_MIN, plain maximum), local when it
        is true (floor 0, maximum reset at zero). Every cell of the
        `scoreWidth` by `scoreHeight` grid ends up holding `Cell`; the rest
        of each buffer is untouched. */
    method FillMatrices(isSw: bool)
      requires Valid() && Sized()
      modifies matchScores, gapAScores, gapBScores
      ensures Filled(Input(), isSw, matchScores[..], gapAScores[..], gapBScores[..])
      ensures matchScores[scoreWidth * scoreHeight..] == old(matchScores[scoreWidth * scoreHeight..])
      ensures gapAScores[scoreWidth * scoreHeight..] == old(gapAScores[scoreWidth * scoreHeight..])
      ensures gapBScores[scoreWidth * scoreHeight..] == old(gapBScores[scoreWidth * scoreHeight..])
    {
      FillBoundary(isSw);
      FillInterior(isSw);
      PartialComplete(Input(), isSw, matchScores[..], gapAScores[..], gapBScores[..]);
      FillEdgeA(isSw);
      FillEdgeB(isSw);
      StagedFinal(Input(), isSw, matchScores[..], gapAScores[..], gapBScores[..]);
    }

    /** Aligns `a` against `b`: records the sequences, the scoring and the
        grid dimensions, grows the buffers when they are missing or too
        small (to a power of two, never shrinking), otherwise reuses them,
        and fills the grids. */
    method Align(a: seq<char>, b: seq<char>, cfg: ScoringConfig, isSw: bool)
      requires Valid()
      modifies this, matchScores, gapAScores, gapBScores
      ensures Valid() && Sized()
      ensures seqA == a && seqB == b && scoring == cfg
      ensures scoreWidth == |a| + 1 && scoreHeight == |b| + 1
      ensures capacity == NewCapacity(old(capacity), scoreWidth * scoreHeight)
      ensures old(capacity) != 0 && old(capacity) >= scoreWidth * scoreHeight ==>
                matchScores == old(matchScores) && gapAScores == old(gapAScores) &&
                gapBScores == old(gapBScores)
      ensures old(capacity) == 0 || old(capacity) < scoreWidth * scoreHeight ==>
                fresh(matchScores) && fresh(gapAScores) && fresh(gapBScores)
      ensures Filled(Input(), isSw, matchScores[..], gapAScores[..], gapBScores[..])
    {
      var width, height := |a| + 1, |b| + 1;
      var newCapacity := width * height;
      if capacity == 0 || capacity < newCapacity {
        var c := RoundUp2Pow(newCapacity);
        if capacity == 0 {
          matchScores := new int[c];
          gapAScores := new int[c];
          gapBScores := new int[c];
        } else {
          matchScores := Reallocate(matchScores, c, 0);
          gapAScores := Reallocate(gapAScores, c, 0);
          gapBScores := Reallocate(gapBScores, c, 0);
        }
        capacity := c;
      }
      seqA, seqB, scoring := a, b, cfg;
      scoreWidth, scoreHeight := width, height;
      FillMatrices(isSw);
    }

    /** One reverse move of the traceback as the source writes it: from
        state `curr` with score `score` at cell (x, y), step to the
        predecessor cell and take the first of gap-in-A, gap-in-B and
        match whose value there plus the step penalty is the score; fail
        when none is. */
    method ReverseMove(curr: Matrix, score: int, x: nat, y: nat) returns (r: Step)
      requires Valid() && Sized()
      requires 1 <= x < scoreWidth && 1 <= y < scoreHeight
      ensures r.Moved? ==>
                r.x == PrevX(curr, x) && r.y == PrevY(curr, y) && r.index == Idx(scoreWidth, r.x, r.y) &&
                r.index < scoreWidth * scoreHeight &&
                r.score == Buffer(matchScores[..], gapAScores[..], gapBScores[..], r.matrix)[r.index]
      ensures r.Moved? ==>
                Candidate(Input(), matchScores[..], gapAScores[..], gapBScores[..], curr, score, x, y, r.matrix)
      ensures r.Moved? ==> forall from: Matrix :: Rank(from) < Rank(r.matrix) ==>
                !Candidate(Input(), matchScores[..], gapAScores[..], gapBScores[..], curr, score, x, y, from)
      ensures r.TracebackFail? <==>
                !Candidate(Input(), matchScores[..], gapAScores[..], gapBScores[..], curr, score, x, y, Match) &&
                !Candidate(Input(), matchScores[..], gapAScores[..], gapBScores[..], curr, score, x, y, GapA) &&
                !Candidate(Input(), matchScores[..], gapAScores[..], gapBScores[..], curr, score, x, y, GapB)
    {
      var m, ga, gb := matchScores, gapAScores, gapBScores;
      var nx, ny, prevMatchPenalty, prevGapAPenalty, prevGapBPenalty, matchAllowed := MovePenalties(curr, x, y);
      ghost var inp := Input();
      IdxInRange(scoreWidth, scoreHeight, nx, ny);
      var index := Idx(scoreWidth, nx, ny);
      ghost var mSeq, aSeq, bSeq := m[..], ga[..], gb[..];
      assert Candidate(inp, mSeq, aSeq, bSeq, curr, score, x, y, GapA) <==>
             (!scoring.noGapsInA || nx == 0 || nx == scoreWidth - 1) && ga[index] + prevGapAPenalty == score;
      assert Candidate(inp, mSeq, aSeq, bSeq, curr, score, x, y, GapB) <==>
             (!scoring.noGapsInB || ny == 0 || ny == scoreHeight - 1) && gb[index] + prevGapBPenalty == score;
      assert Candidate(inp, mSeq, aSeq, bSeq, curr, score, x, y, Match) <==>
             matchAllowed && m[index] + prevMatchPenalty == score;
      if (!scoring.noGapsInA || nx == 0 || nx == scoreWidth - 1) && ga[index] + prevGapAPenalty == score {
        r := Moved(GapA, ga[index], nx, ny, index);
      } else if (!scoring.noGapsInB || ny == 0 || ny == scoreHeight - 1) && gb[index] + prevGapBPenalty == score {
        r := Moved(GapB, gb[index], nx, ny, index);
      } else if matchAllowed && m[index] + prevMatchPenalty == score {
        r := Moved(Match, m[index], nx, ny, index);
      } else {
        r := TracebackFail;
      }
    }

    /** The first half of a reverse move: the predecessor cell, the
        penalty assumed for each predecessor matrix, and whether the pair
        at the current cell lets the match matrix be considered. */
    method MovePenalties(curr: Matrix, x: nat, y: nat)
      returns (nx: nat, ny: nat, prevMatchPenalty: int, prevGapAPenalty: int, prevGapBPenalty: int,
               matchAllowed: bool)
      requires Valid() && Sized()
      requires 1 <= x < scoreWidth && 1 <= y < scoreHeight
      ensures nx == PrevX(curr, x) && ny == PrevY(curr, y)
      ensures prevMatchPenalty == StepPenalty(Input(), curr, Match, x, y)
      ensures prevGapAPenalty == StepPenalty(Input(), curr, GapA, x, y)
      ensures prevGapBPenalty == StepPenalty(Input(), curr, GapB, x, y)
      ensures matchAllowed == Gate(Input(), Match, x, y, nx, ny)
    {
      var (matchPenalty, isMatch) := scoring.lookup(seqA[x - 1], seqB[y - 1]);
      var gapOpenPenalty := scoring.gapExtend + scoring.gapOpen;
      var gapExtendPenalty := scoring.gapExtend;
      if scoring.noEndGapPenalty && (x == scoreWidth - 1 || y == scoreHeight - 1) {
        gapOpenPenalty := 0;
        gapExtendPenalty := 0;
      }
      nx, ny := x, y;
      match curr {
        case Match =>
          prevMatchPenalty, prevGapAPenalty, prevGapBPenalty := matchPenalty, matchPenalty, matchPenalty;
          nx, ny := x - 1, y - 1;
        case GapA =>
          prevMatchPenalty, prevGapAPenalty, prevGapBPenalty := gapOpenPenalty, gapExtendPenalty, gapOpenPenalty;
          ny := y - 1;
        case GapB =>
          prevMatchPenalty, prevGapAPenalty, prevGapBPenalty := gapOpenPenalty, gapOpenPenalty, gapExtendPenalty;
          nx := x - 1;
      }
      matchAllowed := !scoring.noMismatches || isMatch;
    }

    /** The reverse move with each predecessor's term taken from the fill
        itself: a predecessor is accepted exactly when the fill used it
        for the current cell, with the term the fill added. */
    method ReverseMoveFixed(curr: Matrix, score: int, x: nat, y: nat) returns (r: Step)
      requires Valid() && Sized()
      requires 1 <= x < scoreWidth && 1 <= y < scoreHeight
      ensures r.Moved? ==>
                r.x == PrevX(curr, x) && r.y == PrevY(curr, y) && r.index == Idx(scoreWidth, r.x, r.y) &&
                r.index < scoreWidth * scoreHeight &&
                r.score == Buffer(matchScores[..], gapAScores[..], gapBScores[..], r.matrix)[r.index]
      ensures r.Moved? ==>
                FillCandidate(Input(), matchScores[..], gapAScores[..], gapBScores[..], curr, score, x, y, r.matrix)
      ensures r.Moved? ==> forall from: Matrix :: Rank(from) < Rank(r.matrix) ==>
                !FillCandidate(Input(), matchScores[..], gapAScores[..], gapBScores[..], curr, score, x, y, from)
      ensures r.TracebackFail? <==>
                !FillCandidate(Input(), matchScores[..], gapAScores[..], gapBScores[..], curr, score, x, y, Match) &&
                !FillCandidate(Input(), matchScores[..], gapAScores[..], gapBScores[..], curr, score, x, y, GapA) &&
                !FillCandidate(Input(), matchScores[..], gapAScores[..], gapBScores[..], curr, score, x, y, GapB)
    {
      var m, ga, gb := matchScores, gapAScores, gapBScores;
      var nx, ny := PrevX(curr, x), PrevY(curr, y);
      IdxInRange(scoreWidth, scoreHeight, nx, ny);
      var index := Idx(scoreWidth, nx, ny);
      var termA := FillTerm(Input(), curr, GapA, x, y);
      var termB := FillTerm(Input(), curr, GapB, x, y);
      var termM := FillTerm(Input(), curr, Match, x, y);
      if termA.Some? && ga[index] + termA.value == score {
        r := Moved(GapA, ga[index], nx, ny, index);
      } else if termB.Some? && gb[index] + termB.value == score {
        r := Moved(GapB, gb[index], nx, ny, index);
      } else if termM.Some? && m[index] + termM.value == score {
        r := Moved(Match, m[index], nx, ny, index);
      } else {
        r := TracebackFail;
      }
    }
  }
}
