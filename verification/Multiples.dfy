/** Multiples of a number keep their distance. */
module Multiples {

  lemma NoSmallMultiple(j: int, m: nat)
    ensures j >= 1 ==> j * m >= m
    ensures j <= -1 ==> j * m <= 0 - m
    ensures j == 0 ==> j * m == 0
  {
  }

  /** A multiple below the number itself is zero. */
  lemma SmallMultiple(j: int, m: nat)
    requires -(m as int) < j * m < m
    ensures j == 0
  {
    NoSmallMultiple(j, m);
  }
}
