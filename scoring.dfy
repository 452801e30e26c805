/** The scoring configuration an alignment is run with, and the two ways
    the dynamic-programming fill merges its candidate scores. */
module Scoring {

  /** The sentinel floor of global (Needleman-Wunsch) alignment: the
      smallest 32-bit signed integer, marking an unreachable cell. */
  const INT_MIN: int := -2147483648

  /** The substitution lookup is supplied by the caller: for a pair of
      symbols it gives the substitution score and whether the pair counts
      as a match. The flags are fixed for one alignment call. */
  datatype ScoringConfig = ScoringConfig(
    gapOpen: int,
    gapExtend: int,
    noStartGapPenalty: bool,
    noEndGapPenalty: bool,
    noGapsInA: bool,
    noGapsInB: bool,
    noMismatches: bool,
    lookup: (char, char) -> (int, bool))
  {
    /** The cost of the first gap symbol of a run: open plus extend. */
    function OpenPenalty(): int { gapExtend + gapOpen }

    function SubstitutionScore(a: char, b: char): int { lookup(a, b).0 }

    predicate IsMatch(a: char, b: char) { lookup(a, b).1 }
  }

  /** Global combine: the largest of the three candidates. */
  function NwCombine(a: int, b: int, c: int): (r: int)
    ensures r >= a && r >= b && r >= c
    ensures r == a || r == b || r == c
  {
    if a >= b && a >= c then a else if b >= c then b else c
  }

  /** Local combine: the largest of the three candidates, reset to zero
      when every candidate is negative. */
  function SwCombine(a: int, b: int, c: int): (r: int)
    ensures r >= 0 && r >= a && r >= b && r >= c
    ensures r == a || r == b || r == c || r == 0
    ensures r > 0 ==> r == NwCombine(a, b, c)
  {
    var x := NwCombine(a, b, c);
    if x > 0 then x else 0
  }

  /** The floor of a fill: the sentinel for global alignment, zero for local. */
  function Floor(isSw: bool): int
  {
    if isSw then 0 else INT_MIN
  }

  function Combine(isSw: bool, a: int, b: int, c: int): (r: int)
  {
    if isSw then SwCombine(a, b, c) else NwCombine(a, b, c)
  }

  /** Whichever policy is chosen, the combined value dominates every
      candidate, and it is one of them unless it is the local reset to the
      floor. */
  lemma CombineBounds(isSw: bool, a: int, b: int, c: int)
    ensures Combine(isSw, a, b, c) >= a && Combine(isSw, a, b, c) >= b && Combine(isSw, a, b, c) >= c
    ensures Combine(isSw, a, b, c) >= Floor(isSw) || !isSw
    ensures Combine(isSw, a, b, c) != Floor(isSw) || !isSw ==>
              Combine(isSw, a, b, c) in {a, b, c}
  {
  }
}
