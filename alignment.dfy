/** The alignment result: two character buffers for the aligned strings,
    their capacity, the score and the positions of the aligned region. The
    buffers grow to a power of two and are never shrunk. */
module Alignment {
  import opened Pow2

  /** The string terminator written at the start of the empty buffers. */
  const NUL: char := '\0'

  class Alignment {
    var resultA: array<char>
    var resultB: array<char>
    var capacity: nat
    var length: nat
    var score: int
    var posA: nat
    var posB: nat
    var lenA: nat
    var lenB: nat

    /** Both buffers hold `capacity` characters, at least one, and are
        distinct allocations. */
    predicate Valid()
      reads this
    {
      resultA.Length == capacity && resultB.Length == capacity &&
      capacity >= 1 && resultA != resultB
    }

    /** A result whose buffers can hold `cap` characters, rounded up to a
        power of two: both strings empty, score and positions zero. */
    constructor(cap: nat)
      ensures Valid() && fresh(resultA) && fresh(resultB)
      ensures capacity == RoundUp2Pow(cap) && IsPow2(capacity) && capacity >= cap
      ensures length == 0 && score == 0
      ensures resultA[0] == NUL && resultB[0] == NUL
      ensures posA == 0 && posB == 0 && lenA == 0 && lenB == 0
    {
      var c := RoundUp2Pow(cap);
      var ra := new char[c](_ => NUL);
      var rb := new char[c](_ => NUL);
      resultA, resultB := ra, rb;
      capacity := c;
      length := 0;
      score := 0;
      posA, posB, lenA, lenB := 0, 0, 0, 0;
    }

    /** Makes room for strings of `strLength` characters plus the
        terminator. Room that is already there is kept as it is;
        otherwise both buffers move to the power of two that fits, their
        old contents copied in front. Nothing else changes. */
    method EnsureCapacity(strLength: nat)
      requires Valid()
      modifies this
      ensures Valid()
      ensures capacity >= strLength + 1 && capacity >= old(capacity)
      ensures old(capacity) >= strLength + 1 ==>
                capacity == old(capacity) && resultA == old(resultA) && resultB == old(resultB)
      ensures old(capacity) < strLength + 1 ==>
                capacity == RoundUp2Pow(strLength + 1) && IsPow2(capacity) &&
                capacity < 2 * (strLength + 1) &&
                fresh(resultA) && fresh(resultB)
      ensures resultA[..old(capacity)] == old(resultA[..])
      ensures resultB[..old(capacity)] == old(resultB[..])
      ensures length == old(length) && score == old(score)
      ensures posA == old(posA) && posB == old(posB) && lenA == old(lenA) && lenB == old(lenB)
    {
      var required := strLength + 1;
      if capacity < required {
        var c := RoundUp2Pow(required);
        resultA := Reallocate(resultA, c, NUL);
        resultB := Reallocate(resultB, c, NUL);
        capacity := c;
      }
    }
  }
}
